/**
  The write page's store as a state machine: the state `WritePage` keeps, one
  transition function per handler, the invariant the handlers keep (fresh id
  counters, unique ids, live folder references, a live selection) and the
  guards under which the page's menus and drop targets call them.
*/
module Store {
  import opened Optional
  import opened Seqs
  import opened Text
  import opened Entities
  import opened Reorder
  import opened Search

  /** `notes`, `folders`, `selectedNoteId`, `nextId`, `nextFolderId`, `isLoading`, `currentView`. */
  datatype State = State(
    notes: seq<Note>,
    folders: seq<Folder>,
    selected: Option<int>,
    nextId: int,
    nextFolderId: int,
    loading: bool,
    view: View)

  /** The state `useState` starts the page with. */
  const Initial: State := State([], [], None, 1, 1, true, Home)

  /** What every handler keeps once the data is loaded. */
  ghost predicate Inv(s: State) {
    && UniqueBy(s.notes, NoteId)
    && UniqueBy(s.folders, FolderId)
    && NoteIdsBelow(s.notes, s.nextId)
    && FolderIdsBelow(s.folders, s.nextFolderId)
    && FolderRefsLive(s.notes, s.folders)
    && s.selected.Some? && s.selected.value in NoteIds(s.notes)
  }

  // ---------------------------------------------------------------------------
  // Bootstrap

  /** `Math.max(...ids) + 1` over a non-empty list of notes. */
  function NextNoteId(notes: seq<Note>): (k: int)
    requires notes != []
    ensures forall n :: n in notes ==> n.id < k
    ensures exists n :: n in notes && n.id == k - 1
  {
    var ids := Keys(notes, NoteId);
    var m := MaxOf(ids, notes[0].id);
    assert forall i :: 0 <= i < |notes| ==> notes[i].id <= m;
    assert exists n :: n in notes && n.id == m by {
      if m != notes[0].id {
        var i :| 0 <= i < |ids| && ids[i] == m;
        assert notes[i] in notes;
      }
    }
    m + 1
  }

  /** `Math.max(...ids) + 1` over a non-empty list of folders. */
  function NextFolderId(folders: seq<Folder>): (k: int)
    requires folders != []
    ensures forall f :: f in folders ==> f.id < k
    ensures exists f :: f in folders && f.id == k - 1
  {
    var ids := Keys(folders, FolderId);
    var m := MaxOf(ids, folders[0].id);
    assert forall i :: 0 <= i < |folders| ==> folders[i].id <= m;
    assert exists f :: f in folders && f.id == m by {
      if m != folders[0].id {
        var i :| 0 <= i < |ids| && ids[i] == m;
        assert folders[i] in folders;
      }
    }
    m + 1
  }

  /**
    `loadData`, given what storage returned: the saved notes with the first selected,
    or one default note; the saved folders, or the folders already there; and each
    id counter one past the largest loaded id (2 after the default note, 1 for no
    folders).
  */
  function Load(s: State, saved: seq<Note>, savedFolders: seq<Folder>): (r: State)
    ensures saved != [] ==> r.notes == saved && r.selected == Some(saved[0].id)
    ensures saved != [] ==> (forall n :: n in saved ==> n.id < r.nextId) && exists n :: n in saved && n.id == r.nextId - 1
    ensures saved == [] ==> r.notes == [DefaultNote(1)] && r.selected == Some(1) && r.nextId == 2
    ensures savedFolders != [] ==> r.folders == savedFolders
    ensures savedFolders != [] ==>
      (forall f :: f in savedFolders ==> f.id < r.nextFolderId) && exists f :: f in savedFolders && f.id == r.nextFolderId - 1
    ensures savedFolders == [] ==> r.folders == s.folders && r.nextFolderId == 1
    ensures !r.loading && r.view == s.view
  {
    var s1 :=
      if saved != [] then s.(notes := saved, selected := Some(saved[0].id), nextId := NextNoteId(saved))
      else s.(notes := [DefaultNote(1)], selected := Some(1), nextId := 2);
    var s2 :=
      if savedFolders != [] then s1.(folders := savedFolders, nextFolderId := NextFolderId(savedFolders))
      else s1.(nextFolderId := 1);
    s2.(loading := false)
  }

  /**
    Loading into the page's first state gives a state with the invariant exactly when
    the loaded data has unique note ids, unique folder ids and notes that only name
    loaded folders.
  */
  lemma LoadInv(saved: seq<Note>, savedFolders: seq<Folder>)
    ensures Inv(Load(Initial, saved, savedFolders)) <==>
      UniqueBy(saved, NoteId) && UniqueBy(savedFolders, FolderId) && FolderRefsLive(saved, savedFolders)
  {
    var r := Load(Initial, saved, savedFolders);
    if saved != [] {
      assert saved[0] in saved;
    } else {
      assert DefaultNote(1) in r.notes;
    }
  }

  /**
    Nothing holds events back while `loadData` is pending. A folder added before the
    load finds no saved folders survives it, but the load resets `nextFolderId` to 1,
    which is that folder's id: the next folder would reuse it.
  */
  lemma LoadAfterEarlyFolder()
    ensures var r := Load(AddFolder(Initial), [], []);
      |r.folders| == 1 && r.folders[0].id == r.nextFolderId && !Inv(r)
  {
    var r := Load(AddFolder(Initial), [], []);
    assert r.folders[0] in r.folders;
  }

  // ---------------------------------------------------------------------------
  // Handlers

  /** `handleAddNote`: append note `nextId` at the root, one past the largest order of any note, and select it. */
  function AddNote(s: State): (r: State)
    ensures |r.notes| == |s.notes| + 1 && r.notes[..|s.notes|] == s.notes
    ensures var n := r.notes[|s.notes|];
      && n.id == s.nextId && n.name == "Note " + Decimal(s.nextId) && n.editValue == n.name
      && n.folderId == None && n.icon == Some(MemoIcon) && n.content == "" && !n.isEditing
      && n.order >= 0 && (forall m :: m in s.notes ==> m.order < n.order)
      && (n.order == 0 || exists m :: m in s.notes && m.order == n.order - 1)
    ensures r.selected == Some(s.nextId) && r.nextId == s.nextId + 1
    ensures r.folders == s.folders && r.nextFolderId == s.nextFolderId && r.view == s.view && r.loading == s.loading
  {
    var n := NewNote(s.nextId, NextNoteOrder(s.notes));
    assert (s.notes + [n])[..|s.notes|] == s.notes;
    s.(notes := s.notes + [n], selected := Some(n.id), nextId := s.nextId + 1)
  }

  /** `handleSelectNote`. */
  function SelectNote(s: State, id: int): State {
    s.(selected := Some(id), view := NoteView)
  }

  /** `setCurrentView`. */
  function SetView(s: State, v: View): State {
    s.(view := v)
  }

  /** The note handlers that map one note: rename steps, content, icon, title and moving to a folder. */
  function ChangeNote(s: State, id: int, e: NoteEdit): State {
    s.(notes := EditNotes(s.notes, id, e))
  }

  /**
    `handleDeleteNote`: drop the note; when it was the selected one, select the first
    note left, or, when none is left, put one default note with id `nextId` in its place.
  */
  function DeleteNote(s: State, id: int): (r: State)
    ensures r.folders == s.folders && r.nextFolderId == s.nextFolderId && r.view == s.view && r.loading == s.loading
    ensures s.selected != Some(id) || (exists n :: n in s.notes && n.id != id) ==>
      && r.notes == RemoveKey(s.notes, NoteId, id)
      && (forall n :: n in r.notes <==> n in s.notes && n.id != id)
      && r.nextId == s.nextId
    ensures s.selected != Some(id) ==> r.selected == s.selected
    ensures s.selected == Some(id) ==> r.notes != [] && r.selected == Some(r.notes[0].id)
    ensures s.selected == Some(id) && (forall n :: n in s.notes ==> n.id == id) ==>
      r.notes == [DefaultNote(s.nextId)] && r.nextId == s.nextId + 1
  {
    var remaining := RemoveKey(s.notes, NoteId, id);
    if s.selected == Some(id) then
      if remaining != [] then
        assert remaining[0] in remaining;
        s.(notes := remaining, selected := Some(remaining[0].id))
      else
        assert forall n :: n in s.notes ==> n.id == id;
        s.(notes := [DefaultNote(s.nextId)], selected := Some(s.nextId), nextId := s.nextId + 1)
    else
      s.(notes := remaining)
  }

  /**
    Deleting the note `n` of `a + [n] + b` leaves `a + b`, in that order, and when `n`
    was selected the first note of `a + b` becomes selected.
  */
  lemma DeleteNoteSplices(s: State, a: seq<Note>, n: Note, b: seq<Note>)
    requires UniqueBy(s.notes, NoteId) && s.notes == a + [n] + b && a + b != []
    ensures DeleteNote(s, n.id).notes == a + b
    ensures s.selected == Some(n.id) ==> DeleteNote(s, n.id).selected == Some((a + b)[0].id)
  {
    RemoveKeySplices(a, n, b, NoteId);
    assert (a + b)[0] in a + b;
  }

  /** `handleAddFolder`: append folder `nextFolderId`, one past the largest folder order, coloured round robin. */
  function AddFolder(s: State): (r: State)
    ensures |r.folders| == |s.folders| + 1 && r.folders[..|s.folders|] == s.folders
    ensures var f := r.folders[|s.folders|];
      && f.id == s.nextFolderId && f.name == "Folder " + Decimal(s.nextFolderId) && f.editValue == f.name
      && f.isExpanded && !f.isEditing && f.color == Some(FolderColors[|s.folders| % 10])
      && f.order >= 0 && (forall g :: g in s.folders ==> g.order < f.order)
      && (f.order == 0 || exists g :: g in s.folders && g.order == f.order - 1)
    ensures r.nextFolderId == s.nextFolderId + 1
    ensures r.notes == s.notes && r.selected == s.selected && r.nextId == s.nextId && r.view == s.view && r.loading == s.loading
  {
    var f := NewFolder(s.nextFolderId, NextFolderOrder(s.folders), FolderColors[|s.folders| % |FolderColors|]);
    assert (s.folders + [f])[..|s.folders|] == s.folders;
    s.(folders := s.folders + [f], nextFolderId := s.nextFolderId + 1)
  }

  /** The folder handlers that map one folder: rename steps, toggling and colour. */
  function ChangeFolder(s: State, id: int, e: FolderEdit): State {
    s.(folders := EditFolders(s.folders, id, e))
  }

  /** `handleDeleteFolder`: the folder's notes go back to the root and the folder is dropped; no note is deleted. */
  function DeleteFolder(s: State, id: int): (r: State)
    ensures forall f :: f in r.folders <==> f in s.folders && f.id != id
    ensures |r.notes| == |s.notes|
    ensures forall i :: 0 <= i < |s.notes| ==>
      r.notes[i] == if s.notes[i].folderId == Some(id) then s.notes[i].(folderId := None) else s.notes[i]
    ensures r.selected == s.selected && r.nextId == s.nextId && r.nextFolderId == s.nextFolderId
    ensures r.view == s.view && r.loading == s.loading
  {
    s.(notes := ReleaseFolder(s.notes, id), folders := RemoveKey(s.folders, FolderId, id))
  }

  /** Folder `a` dropped on folder `o`: when both exist, renumber the folders. */
  function FolderDrop(s: State, a: int, o: int): State {
    if FindFolder(s.folders, a).Some? && FindFolder(s.folders, o).Some? then
      s.(folders := MoveFolder(s.folders, a, o))
    else s
  }

  /** Note `a` dropped on note `o`: renumber their group, or append `a` to the group of `o`. */
  function NoteDrop(s: State, a: int, o: int): State {
    var activeNote, overNote := FindNote(s.notes, a), FindNote(s.notes, o);
    if activeNote.Some? && overNote.Some? then
      var g := activeNote.value.folderId;
      if g == overNote.value.folderId then
        assert activeNote.value in Group(s.notes, g) && overNote.value in Group(s.notes, g);
        s.(notes := MoveWithinGroup(s.notes, g, a, o))
      else
        s.(notes := MoveToGroupEnd(s.notes, activeNote.value.id, overNote.value.folderId))
    else s
  }

  /** Note `a` dropped on folder `f`: append it to that folder's group. */
  function NoteOnFolderDrop(s: State, a: int, f: int): State {
    if FindNote(s.notes, a).Some? then s.(notes := MoveToGroupEnd(s.notes, a, Some(f))) else s
  }

  /**
    `handleDragEnd`: folder onto folder renumbers the folders; note onto note of the
    same group renumbers that group; note onto a note of another group, or onto a
    folder, appends the note to that group. Every other drop changes nothing.
  */
  function DragEnd(s: State, active: DragItem, over: Option<DragItem>): (r: State)
    ensures r.selected == s.selected && r.nextId == s.nextId && r.nextFolderId == s.nextFolderId
    ensures r.view == s.view && r.loading == s.loading
    ensures over.None? || over == Some(active) ==> r == s
    ensures active.FolderItem? && over.Some? && over.value.NoteItem? ==> r == s
    ensures active.NoteItem? && active.id !in NoteIds(s.notes) ==> r == s
    ensures over.Some? && over.value.NoteItem? && over.value.id !in NoteIds(s.notes) ==> r == s
    ensures active.FolderItem? ==> r.notes == s.notes
    ensures active.NoteItem? ==> r.folders == s.folders
  {
    if over.None? || over.value == active then s
    else
      match (active, over.value)
      case (FolderItem(a), FolderItem(o)) => FolderDrop(s, a, o)
      case (NoteItem(a), NoteItem(o)) => NoteDrop(s, a, o)
      case (NoteItem(a), FolderItem(f)) => NoteOnFolderDrop(s, a, f)
      case (FolderItem(_), NoteItem(_)) => s
  }

  /**
    A note dropped on a note of another group changes only itself: it takes that
    note's group and one past the largest order in the group.
  */
  lemma NoteDropAppends(s: State, a: int, o: int)
    requires a in NoteIds(s.notes) && o in NoteIds(s.notes)
    requires FindNote(s.notes, a).value.folderId != FindNote(s.notes, o).value.folderId
    ensures var r := DragEnd(s, NoteItem(a), Some(NoteItem(o)));
      var g := FindNote(s.notes, o).value.folderId;
      && |r.notes| == |s.notes| && r.folders == s.folders
      && (forall i :: 0 <= i < |s.notes| && s.notes[i].id != a ==> r.notes[i] == s.notes[i])
      && (forall i :: 0 <= i < |s.notes| && s.notes[i].id == a ==>
            r.notes[i] == s.notes[i].(folderId := g, order := EndOfGroup(s.notes, g)))
  {
    assert DragEnd(s, NoteItem(a), Some(NoteItem(o))) == NoteDrop(s, a, o);
  }

  /**
    A note dropped on another note of its own group renumbers that group: the notes
    become `MoveWithinGroup` of the shared group and nothing else changes.
  */
  lemma NoteDropReorders(s: State, a: int, o: int)
    requires a in NoteIds(s.notes) && o in NoteIds(s.notes) && a != o
    requires FindNote(s.notes, a).value.folderId == FindNote(s.notes, o).value.folderId
    ensures var g := FindNote(s.notes, a).value.folderId;
      && a in NoteIds(Group(s.notes, g)) && o in NoteIds(Group(s.notes, g))
      && DragEnd(s, NoteItem(a), Some(NoteItem(o))) == s.(notes := MoveWithinGroup(s.notes, g, a, o))
  {
    InOwnGroup(s.notes, FindNote(s.notes, a).value);
    InOwnGroup(s.notes, FindNote(s.notes, o).value);
    assert DragEnd(s, NoteItem(a), Some(NoteItem(o))) == NoteDrop(s, a, o);
  }

  /**
    A note dropped on a folder row joins that folder at the end of its group, whether
    or not the folder id is live (the branch does not look the folder up).
  */
  lemma NoteOnFolderAppends(s: State, a: int, f: int)
    requires a in NoteIds(s.notes)
    ensures DragEnd(s, NoteItem(a), Some(FolderItem(f))) == s.(notes := MoveToGroupEnd(s.notes, a, Some(f)))
  {
  }

  // ---------------------------------------------------------------------------
  // The invariant, handler by handler

  /**
    A note map that keeps every note's id and sends each note to its own folder,
    the root or a live folder keeps the invariant.
  */
  lemma NotesRemapped(s: State, notes: seq<Note>)
    requires Inv(s) && |notes| == |s.notes|
    requires forall i :: 0 <= i < |notes| ==> notes[i].id == s.notes[i].id
    requires forall i :: 0 <= i < |notes| ==>
      notes[i].folderId == s.notes[i].folderId || notes[i].folderId.None? || notes[i].folderId.value in FolderIds(s.folders)
    ensures Inv(s.(notes := notes)) && NoteIds(notes) == NoteIds(s.notes)
  {
    SameKeys(s.notes, notes, NoteId);
    forall n | n in notes ensures n.id < s.nextId && (n.folderId.Some? ==> n.folderId.value in FolderIds(s.folders)) {
      var i :| 0 <= i < |notes| && notes[i] == n;
      assert s.notes[i] in s.notes;
    }
  }

  /** A new note's id is not the id of a live note, and adding it keeps the invariant. */
  lemma AddNoteInv(s: State)
    requires Inv(s)
    ensures s.nextId !in NoteIds(s.notes)
    ensures Inv(AddNote(s))
  {
    var r := AddNote(s);
    var n := r.notes[|s.notes|];
    assert r.notes == s.notes + [n];
    AppendFresh(s.notes, NoteId, n);
  }

  lemma SelectNoteInv(s: State, id: int)
    requires Inv(s) && id in NoteIds(s.notes)
    ensures Inv(SelectNote(s, id))
  {
  }

  lemma SetViewInv(s: State, v: View)
    requires Inv(s)
    ensures Inv(SetView(s, v))
  {
  }

  /** Every note edit keeps the invariant, provided a move targets the root or a live folder. */
  lemma ChangeNoteInv(s: State, id: int, e: NoteEdit)
    requires Inv(s)
    requires e.MoveToFolder? && e.target.Some? ==> e.target.value in FolderIds(s.folders)
    ensures Inv(ChangeNote(s, id, e))
  {
    NotesRemapped(s, EditNotes(s.notes, id, e));
  }

  /** Deleting a note keeps the invariant: in particular some note is still selected. */
  lemma DeleteNoteInv(s: State, id: int)
    requires Inv(s)
    ensures Inv(DeleteNote(s, id))
  {
    var remaining := RemoveKey(s.notes, NoteId, id);
    RemoveKeyUnique(s.notes, NoteId, id);
    var r := DeleteNote(s, id);
    if s.selected != Some(id) {
      var k := s.selected.value;
      var n :| n in s.notes && n.id == k;
      assert n in remaining;
    } else if remaining == [] {
      assert r.notes[0] in r.notes;
    } else {
      assert remaining[0] in remaining;
    }
  }

  /** A new folder's id is not the id of a live folder, and adding it keeps the invariant. */
  lemma AddFolderInv(s: State)
    requires Inv(s)
    ensures s.nextFolderId !in FolderIds(s.folders)
    ensures Inv(AddFolder(s))
  {
    var r := AddFolder(s);
    var f := r.folders[|s.folders|];
    assert r.folders == s.folders + [f];
    AppendFresh(s.folders, FolderId, f);
  }

  lemma ChangeFolderInv(s: State, id: int, e: FolderEdit)
    requires Inv(s)
    ensures Inv(ChangeFolder(s, id, e))
  {
    var r := ChangeFolder(s, id, e);
    SameKeys(s.folders, r.folders, FolderId);
    forall f | f in r.folders ensures f.id < s.nextFolderId {
      var i :| 0 <= i < |r.folders| && r.folders[i] == f;
      assert s.folders[i] in s.folders;
    }
  }

  /** Deleting a folder keeps the invariant: no note is left pointing at it. */
  lemma DeleteFolderInv(s: State, id: int)
    requires Inv(s)
    ensures Inv(DeleteFolder(s, id))
  {
    var r := DeleteFolder(s, id);
    RemoveKeyUnique(s.folders, FolderId, id);
    SameKeys(s.notes, r.notes, NoteId);
    forall n | n in r.notes ensures n.id < s.nextId && (n.folderId.Some? ==> n.folderId.value in FolderIds(r.folders)) {
      var i :| 0 <= i < |r.notes| && r.notes[i] == n;
      assert s.notes[i] in s.notes;
      if n.folderId.Some? {
        var f :| f in s.folders && f.id == n.folderId.value;
        assert f in r.folders;
      }
    }
  }

  /** Renumbering the folders keeps their ids, so it keeps the invariant. */
  lemma MoveFolderInv(s: State, a: int, o: int)
    requires Inv(s) && a in FolderIds(s.folders) && o in FolderIds(s.folders)
    ensures Inv(s.(folders := MoveFolder(s.folders, a, o)))
  {
    var r := MoveFolder(s.folders, a, o);
    MoveFolderIds(s.folders, a, o);
    forall f | f in r ensures f.id < s.nextFolderId {
      assert f.id in FolderIds(r);
      var g :| g in s.folders && g.id == f.id;
    }
  }

  /** Renumbering a sibling group keeps the invariant. */
  lemma MoveWithinGroupInv(s: State, g: Option<int>, a: int, o: int)
    requires Inv(s) && a in NoteIds(Group(s.notes, g)) && o in NoteIds(Group(s.notes, g))
    ensures Inv(s.(notes := MoveWithinGroup(s.notes, g, a, o)))
  {
    var r := MoveWithinGroup(s.notes, g, a, o);
    MoveWithinGroupKeeps(s.notes, g, a, o);
    NotesRemapped(s, r);
  }

  /** Appending a note to the root or to a live folder keeps the invariant. */
  lemma MoveToGroupEndInv(s: State, a: int, g: Option<int>)
    requires Inv(s) && (g.Some? ==> g.value in FolderIds(s.folders))
    ensures Inv(s.(notes := MoveToGroupEnd(s.notes, a, g)))
  {
    NotesRemapped(s, MoveToGroupEnd(s.notes, a, g));
  }

  /** Dropping a note on a note keeps the invariant: the note moves to a group that exists. */
  lemma DragNoteOnNoteInv(s: State, a: int, o: int)
    requires Inv(s)
    ensures Inv(NoteDrop(s, a, o))
  {
    var activeNote, overNote := FindNote(s.notes, a), FindNote(s.notes, o);
    if activeNote.Some? && overNote.Some? {
      var an, on := activeNote.value, overNote.value;
      if an.folderId == on.folderId {
        InOwnGroup(s.notes, an);
        InOwnGroup(s.notes, on);
        MoveWithinGroupInv(s, an.folderId, a, o);
      } else {
        assert on in s.notes;
        MoveToGroupEndInv(s, an.id, on.folderId);
      }
    }
  }

  /** Dropping a note on a live folder keeps the invariant. */
  lemma DragNoteOnFolderInv(s: State, a: int, f: int)
    requires Inv(s) && f in FolderIds(s.folders)
    ensures Inv(NoteOnFolderDrop(s, a, f))
  {
    if FindNote(s.notes, a).Some? {
      MoveToGroupEndInv(s, a, Some(f));
    }
  }

  /** Every drop keeps the invariant, provided a note is only dropped on a live folder. */
  lemma DragEndInv(s: State, active: DragItem, over: Option<DragItem>)
    requires Inv(s)
    requires active.NoteItem? && over.Some? && over.value.FolderItem? ==> over.value.id in FolderIds(s.folders)
    ensures Inv(DragEnd(s, active, over))
  {
    if over.Some? && over.value != active {
      match (active, over.value)
      case (FolderItem(a), FolderItem(o)) =>
        if FindFolder(s.folders, a).Some? && FindFolder(s.folders, o).Some? {
          MoveFolderInv(s, a, o);
        }
        assert DragEnd(s, active, over) == FolderDrop(s, a, o);
      case (NoteItem(a), NoteItem(o)) =>
        DragNoteOnNoteInv(s, a, o);
        assert DragEnd(s, active, over) == NoteDrop(s, a, o);
      case (NoteItem(a), FolderItem(f)) =>
        DragNoteOnFolderInv(s, a, f);
        assert DragEnd(s, active, over) == NoteOnFolderDrop(s, a, f);
      case (FolderItem(_), NoteItem(_)) =>
    }
  }

  // ---------------------------------------------------------------------------
  // Runs of events

  /** A user action the page turns into one handler call. */
  datatype Event =
    | NoteAdded
    | NoteSelected(id: int)
    | ViewShown(view: View)
    | NoteChanged(id: int, edit: NoteEdit)
    | NoteDeleted(id: int)
    | FolderAdded
    | FolderChanged(id: int, folderEdit: FolderEdit)
    | FolderDeleted(id: int)
    | Dropped(active: DragItem, over: Option<DragItem>)

  /**
    The event can come from the page as rendered in `s`: only listed notes are
    selected, and the folder menu and the folder rows, the only move and drop
    targets, name live folders.
  */
  ghost predicate Enabled(s: State, e: Event) {
    match e
    case NoteSelected(id) => id in NoteIds(s.notes)
    case NoteChanged(_, edit) => edit.MoveToFolder? && edit.target.Some? ==> edit.target.value in FolderIds(s.folders)
    case Dropped(active, over) =>
      active.NoteItem? && over.Some? && over.value.FolderItem? ==> over.value.id in FolderIds(s.folders)
    case _ => true
  }

  function Step(s: State, e: Event): State {
    match e
    case NoteAdded => AddNote(s)
    case NoteSelected(id) => SelectNote(s, id)
    case ViewShown(v) => SetView(s, v)
    case NoteChanged(id, edit) => ChangeNote(s, id, edit)
    case NoteDeleted(id) => DeleteNote(s, id)
    case FolderAdded => AddFolder(s)
    case FolderChanged(id, edit) => ChangeFolder(s, id, edit)
    case FolderDeleted(id) => DeleteFolder(s, id)
    case Dropped(active, over) => DragEnd(s, active, over)
  }

  function Run(s: State, events: seq<Event>): State
    decreases |events|
  {
    if events == [] then s else Run(Step(s, events[0]), events[1..])
  }

  /** Every event of the run is enabled in the state it meets. */
  ghost predicate Admissible(s: State, events: seq<Event>)
    decreases |events|
  {
    events == [] || (Enabled(s, events[0]) && Admissible(Step(s, events[0]), events[1..]))
  }

  /** Each handler keeps the invariant and never moves an id counter back. */
  lemma StepInv(s: State, e: Event)
    requires Inv(s) && Enabled(s, e)
    ensures Inv(Step(s, e))
    ensures s.nextId <= Step(s, e).nextId && s.nextFolderId <= Step(s, e).nextFolderId
  {
    match e
    case NoteAdded => AddNoteInv(s);
    case NoteSelected(id) => SelectNoteInv(s, id);
    case ViewShown(v) => SetViewInv(s, v);
    case NoteChanged(id, edit) => ChangeNoteInv(s, id, edit);
    case NoteDeleted(id) => DeleteNoteInv(s, id);
    case FolderAdded => AddFolderInv(s);
    case FolderChanged(id, edit) => ChangeFolderInv(s, id, edit);
    case FolderDeleted(id) => DeleteFolderInv(s, id);
    case Dropped(active, over) => DragEndInv(s, active, over);
  }

  /**
    From a state with the invariant, any run of enabled events keeps it: ids stay
    fresh and unique, notes only name live folders, a note is always selected (so
    the list of notes is never empty), and the counters only grow.
  */
  lemma {:induction false} RunInv(s: State, events: seq<Event>)
    requires Inv(s) && Admissible(s, events)
    ensures Inv(Run(s, events))
    ensures Run(s, events).notes != []
    ensures s.nextId <= Run(s, events).nextId && s.nextFolderId <= Run(s, events).nextFolderId
    decreases |events|
  {
    if events != [] {
      StepInv(s, events[0]);
      RunInv(Step(s, events[0]), events[1..]);
    }
  }
}


/**
  `WritePage` as an object: the React state, one field per `useState`, and one
  method per handler. Each method replaces fields the way the handler's `set*`
  calls do and is proved to leave exactly the state the matching transition of
  `Store` describes, and to keep the store invariant.
*/
module Page {
  import opened Optional
  import opened Seqs
  import opened Entities
  import opened Reorder
  import opened Search
  import opened Store

  class WritePage {
    var notes: seq<Note>
    var folders: seq<Folder>
    var selectedNoteId: Option<int>
    var nextId: int
    var nextFolderId: int
    var isLoading: bool
    var currentView: View

    /** The fields as a `Store.State`. */
    function Snapshot(): State
      reads this
    {
      State(notes, folders, selectedNoteId, nextId, nextFolderId, isLoading, currentView)
    }

    ghost predicate Valid()
      reads this
    {
      Inv(Snapshot())
    }

    /** The `useState` initial values. */
    constructor()
      ensures Snapshot() == Initial
    {
      notes := [];
      folders := [];
      selectedNoteId := None;
      nextId := 1;
      nextFolderId := 1;
      isLoading := true;
      currentView := Home;
    }

    /** `loadData`, with what storage returned passed in. */
    method LoadData(savedNotes: seq<Note>, savedFolders: seq<Folder>)
      modifies this
      ensures Snapshot() == Load(old(Snapshot()), savedNotes, savedFolders)
      ensures old(Snapshot()) == Initial ==>
        (Valid() <==> UniqueBy(savedNotes, NoteId) && UniqueBy(savedFolders, FolderId) && FolderRefsLive(savedNotes, savedFolders))
    {
      if |savedNotes| > 0 {
        notes := savedNotes;
        selectedNoteId := Some(savedNotes[0].id);
        nextId := NextNoteId(savedNotes);
      } else {
        notes := [DefaultNote(1)];
        selectedNoteId := Some(1);
        nextId := 2;
      }
      if |savedFolders| > 0 {
        folders := savedFolders;
        nextFolderId := NextFolderId(savedFolders);
      } else {
        nextFolderId := 1;
      }
      isLoading := false;
      LoadInv(savedNotes, savedFolders);
    }

    method HandleAddNote()
      modifies this
      ensures Snapshot() == AddNote(old(Snapshot()))
      ensures old(Valid()) ==> Valid()
    {
      ghost var s := Snapshot();
      var newNote := NewNote(nextId, NextNoteOrder(notes));
      notes := notes + [newNote];
      selectedNoteId := Some(newNote.id);
      nextId := nextId + 1;
      if Inv(s) { AddNoteInv(s); }
    }

    method HandleSelectNote(noteId: int)
      modifies this
      ensures Snapshot() == SelectNote(old(Snapshot()), noteId)
      ensures old(Valid()) && noteId in NoteIds(notes) ==> Valid()
    {
      selectedNoteId := Some(noteId);
      currentView := NoteView;
    }

    method SetCurrentView(view: View)
      modifies this
      ensures Snapshot() == SetView(old(Snapshot()), view)
      ensures old(Valid()) ==> Valid()
    {
      currentView := view;
    }

    /** The shared body of the note handlers that `notes.map` one note. */
    method ApplyNoteEdit(noteId: int, e: NoteEdit)
      modifies this
      ensures Snapshot() == ChangeNote(old(Snapshot()), noteId, e)
      ensures old(Valid()) && (e.MoveToFolder? && e.target.Some? ==> e.target.value in FolderIds(folders)) ==> Valid()
    {
      ghost var s := Snapshot();
      notes := EditNotes(notes, noteId, e);
      if Inv(s) && (e.MoveToFolder? && e.target.Some? ==> e.target.value in FolderIds(s.folders)) {
        ChangeNoteInv(s, noteId, e);
      }
    }

    method HandleUpdateNoteContent(noteId: int, content: string)
      modifies this
      ensures Snapshot() == ChangeNote(old(Snapshot()), noteId, ContentChange(content))
      ensures old(Valid()) ==> Valid()
    {
      ApplyNoteEdit(noteId, ContentChange(content));
    }

    method HandleEditStart(noteId: int)
      modifies this
      ensures Snapshot() == ChangeNote(old(Snapshot()), noteId, EditStart)
      ensures old(Valid()) ==> Valid()
    {
      ApplyNoteEdit(noteId, EditStart);
    }

    method HandleEditSave(noteId: int)
      modifies this
      ensures Snapshot() == ChangeNote(old(Snapshot()), noteId, EditSave)
      ensures old(Valid()) ==> Valid()
    {
      ApplyNoteEdit(noteId, EditSave);
    }

    method HandleEditCancel(noteId: int)
      modifies this
      ensures Snapshot() == ChangeNote(old(Snapshot()), noteId, EditCancel)
      ensures old(Valid()) ==> Valid()
    {
      ApplyNoteEdit(noteId, EditCancel);
    }

    method HandleEditValueChange(noteId: int, value: string)
      modifies this
      ensures Snapshot() == ChangeNote(old(Snapshot()), noteId, EditValueChange(value))
      ensures old(Valid()) ==> Valid()
    {
      ApplyNoteEdit(noteId, EditValueChange(value));
    }

    method HandleIconChange(noteId: int, icon: string)
      modifies this
      ensures Snapshot() == ChangeNote(old(Snapshot()), noteId, IconChange(icon))
      ensures old(Valid()) ==> Valid()
    {
      ApplyNoteEdit(noteId, IconChange(icon));
    }

    method HandleIconRemove(noteId: int)
      modifies this
      ensures Snapshot() == ChangeNote(old(Snapshot()), noteId, IconRemove)
      ensures old(Valid()) ==> Valid()
    {
      ApplyNoteEdit(noteId, IconRemove);
    }

    method HandleTitleChange(noteId: int, title: string)
      modifies this
      ensures Snapshot() == ChangeNote(old(Snapshot()), noteId, TitleChange(title))
      ensures old(Valid()) ==> Valid()
    {
      ApplyNoteEdit(noteId, TitleChange(title));
    }

    /** Moving keeps the invariant when the target is the root or a live folder, as the folder menu offers. */
    method HandleMoveNoteToFolder(noteId: int, folderId: Option<int>)
      modifies this
      ensures Snapshot() == ChangeNote(old(Snapshot()), noteId, MoveToFolder(folderId))
      ensures old(Valid()) && (folderId.Some? ==> folderId.value in FolderIds(folders)) ==> Valid()
    {
      ApplyNoteEdit(noteId, MoveToFolder(folderId));
    }

    /** Two successive `setNotes` calls: the filtered list, then, when it is empty, the replacement note. */
    method HandleDeleteNote(noteId: int)
      modifies this
      ensures Snapshot() == DeleteNote(old(Snapshot()), noteId)
      ensures old(Valid()) ==> Valid()
    {
      ghost var s := Snapshot();
      var updatedNotes := RemoveKey(notes, NoteId, noteId);
      notes := updatedNotes;
      if selectedNoteId == Some(noteId) {
        if |updatedNotes| > 0 {
          selectedNoteId := Some(updatedNotes[0].id);
        } else {
          notes := [DefaultNote(nextId)];
          selectedNoteId := Some(nextId);
          nextId := nextId + 1;
        }
      }
      if Inv(s) { DeleteNoteInv(s, noteId); }
    }

    method HandleAddFolder()
      modifies this
      ensures Snapshot() == AddFolder(old(Snapshot()))
      ensures old(Valid()) ==> Valid()
    {
      ghost var s := Snapshot();
      var colorIndex := |folders| % |FolderColors|;
      var newFolder := NewFolder(nextFolderId, NextFolderOrder(folders), FolderColors[colorIndex]);
      folders := folders + [newFolder];
      nextFolderId := nextFolderId + 1;
      if Inv(s) { AddFolderInv(s); }
    }

    /** The shared body of the folder handlers that `folders.map` one folder. */
    method ApplyFolderEdit(folderId: int, e: FolderEdit)
      modifies this
      ensures Snapshot() == ChangeFolder(old(Snapshot()), folderId, e)
      ensures old(Valid()) ==> Valid()
    {
      ghost var s := Snapshot();
      folders := EditFolders(folders, folderId, e);
      if Inv(s) { ChangeFolderInv(s, folderId, e); }
    }

    method HandleFolderEditStart(folderId: int)
      modifies this
      ensures Snapshot() == ChangeFolder(old(Snapshot()), folderId, FolderEditStart)
      ensures old(Valid()) ==> Valid()
    {
      ApplyFolderEdit(folderId, FolderEditStart);
    }

    method HandleFolderEditSave(folderId: int)
      modifies this
      ensures Snapshot() == ChangeFolder(old(Snapshot()), folderId, FolderEditSave)
      ensures old(Valid()) ==> Valid()
    {
      ApplyFolderEdit(folderId, FolderEditSave);
    }

    method HandleFolderEditCancel(folderId: int)
      modifies this
      ensures Snapshot() == ChangeFolder(old(Snapshot()), folderId, FolderEditCancel)
      ensures old(Valid()) ==> Valid()
    {
      ApplyFolderEdit(folderId, FolderEditCancel);
    }

    method HandleFolderEditValueChange(folderId: int, value: string)
      modifies this
      ensures Snapshot() == ChangeFolder(old(Snapshot()), folderId, FolderEditValueChange(value))
      ensures old(Valid()) ==> Valid()
    {
      ApplyFolderEdit(folderId, FolderEditValueChange(value));
    }

    method HandleToggleFolder(folderId: int)
      modifies this
      ensures Snapshot() == ChangeFolder(old(Snapshot()), folderId, Toggle)
      ensures old(Valid()) ==> Valid()
    {
      ApplyFolderEdit(folderId, Toggle);
    }

    method HandleFolderColorChange(folderId: int, color: string)
      modifies this
      ensures Snapshot() == ChangeFolder(old(Snapshot()), folderId, ColorChange(color))
      ensures old(Valid()) ==> Valid()
    {
      ApplyFolderEdit(folderId, ColorChange(color));
    }

    method HandleDeleteFolder(folderId: int)
      modifies this
      ensures Snapshot() == DeleteFolder(old(Snapshot()), folderId)
      ensures old(Valid()) ==> Valid()
    {
      ghost var s := Snapshot();
      notes := ReleaseFolder(notes, folderId);
      folders := RemoveKey(folders, FolderId, folderId);
      if Inv(s) { DeleteFolderInv(s, folderId); }
    }

    /**
      The folder-onto-folder branch of `handleDragEnd`: `folders.sort` reorders the
      state array itself, and the renumbered copy of that sorted array
      (`Reorder.MoveSorted`) then replaces it.
    */
    method DropFolderOnFolder(a: int, o: int)
      modifies this
      ensures Snapshot() == FolderDrop(old(Snapshot()), a, o)
    {
      if FindFolder(folders, a).Some? && FindFolder(folders, o).Some? {
        ghost var before := folders;
        folders := SortFolders(folders);
        FoundInPermutation(before, folders, FolderId, a);
        FoundInPermutation(before, folders, FolderId, o);
        folders := MoveSorted(folders, a, o);
        assert folders == MoveFolder(before, a, o);
      }
    }

    /** Same group: sort the group by order, `arrayMove` and renumber its members. */
    method ReorderGroup(g: Option<int>, a: int, o: int)
      requires a in NoteIds(Group(notes, g)) && o in NoteIds(Group(notes, g))
      modifies this
      ensures Snapshot() == old(Snapshot()).(notes := MoveWithinGroup(old(notes), g, a, o))
    {
      notes := MoveWithinGroup(notes, g, a, o);
    }

    /** Another group, or a folder row: the note joins group `g` one past its largest order. */
    method AppendToGroup(a: int, g: Option<int>)
      modifies this
      ensures Snapshot() == old(Snapshot()).(notes := MoveToGroupEnd(old(notes), a, g))
    {
      notes := MoveToGroupEnd(notes, a, g);
    }

    /** The note-onto-note branch of `handleDragEnd`. */
    method DropNoteOnNote(a: int, o: int)
      modifies this
      ensures Snapshot() == NoteDrop(old(Snapshot()), a, o)
    {
      var activeNote, overNote := FindNote(notes, a), FindNote(notes, o);
      if activeNote.Some? && overNote.Some? {
        var g := activeNote.value.folderId;
        if g == overNote.value.folderId {
          InOwnGroup(notes, activeNote.value);
          InOwnGroup(notes, overNote.value);
          ReorderGroup(g, a, o);
        } else {
          AppendToGroup(activeNote.value.id, overNote.value.folderId);
        }
      }
    }

    /** The note-onto-folder branch of `handleDragEnd`. */
    method DropNoteOnFolder(a: int, f: int)
      modifies this
      ensures Snapshot() == NoteOnFolderDrop(old(Snapshot()), a, f)
    {
      if FindNote(notes, a).Some? {
        AppendToGroup(a, Some(f));
      }
    }

    /** `handleDragEnd`: a drop on nothing, on itself or of a folder on a note changes nothing. */
    method HandleDragEnd(active: DragItem, over: Option<DragItem>)
      modifies this
      ensures Snapshot() == DragEnd(old(Snapshot()), active, over)
      ensures old(Valid()) && (active.NoteItem? && over.Some? && over.value.FolderItem? ==> over.value.id in FolderIds(folders)) ==> Valid()
    {
      ghost var s := Snapshot();
      if over.Some? && over.value != active {
        match (active, over.value) {
          case (FolderItem(a), FolderItem(o)) => DropFolderOnFolder(a, o);
          case (NoteItem(a), NoteItem(o)) => DropNoteOnNote(a, o);
          case (NoteItem(a), FolderItem(f)) => DropNoteOnFolder(a, f);
          case (FolderItem(_), NoteItem(_)) =>
        }
      }
      if Inv(s) && (active.NoteItem? && over.Some? && over.value.FolderItem? ==> over.value.id in FolderIds(s.folders)) {
        DragEndInv(s, active, over);
      }
    }
  }
}

/**
  The two records the write page keeps, `Note` and `Folder`, the per-record edits
  its handlers apply through `notes.map(...)` / `folders.map(...)`, the filters they
  apply, the invariants the store keeps over the two lists, and `getNoteIcon`.
*/
module Entities {
  import opened Optional
  import opened Seqs
  import Text

  /** `FOLDER_COLORS`: the palette new folders take their colour from, round robin. */
  const FolderColors: seq<string> := [
    "#3B82F6", "#EF4444", "#10B981", "#F59E0B", "#8B5CF6",
    "#EC4899", "#06B6D4", "#84CC16", "#F97316", "#6B7280"
  ]

  /** The colour of a note's file glyph when its folder gives none. */
  const DefaultIconColor: string := "#3B82F6"

  /** The memo emoji new notes carry as their icon. */
  const MemoIcon: string := "\U{1F4DD}"

  /** A note; `folderId == None` puts it at the root. */
  datatype Note = Note(
    id: int,
    name: string,
    content: string,
    isEditing: bool,
    editValue: string,
    icon: Option<string>,
    folderId: Option<int>,
    order: int)

  /** A folder; folders form one flat list ordered by `order`. */
  datatype Folder = Folder(
    id: int,
    name: string,
    isEditing: bool,
    editValue: string,
    isExpanded: bool,
    order: int,
    color: Option<string>)

  function NoteId(n: Note): int { n.id }
  function FolderId(f: Folder): int { f.id }
  function NoteOrder(n: Note): int { n.order }
  function FolderOrder(f: Folder): int { f.order }

  /** The comparator `(a, b) => a.order - b.order` on notes. */
  function ByNoteOrder(a: Note, b: Note): int { a.order - b.order }

  /** The comparator `(a, b) => a.order - b.order` on folders. */
  function ByFolderOrder(a: Folder, b: Folder): int { a.order - b.order }

  /** The note an empty store is seeded with on load, and the one that replaces the last deleted note. */
  function DefaultNote(id: int): Note {
    Note(id, "Note", "", false, "Note", Some(MemoIcon), None, 0)
  }

  /** The note `handleAddNote` appends: named after its id, at the root. */
  function NewNote(id: int, order: int): Note {
    var name := "Note " + Text.Decimal(id);
    Note(id, name, "", false, name, Some(MemoIcon), None, order)
  }

  /** The folder `handleAddFolder` appends: named after its id, expanded. */
  function NewFolder(id: int, order: int, color: string): Folder {
    var name := "Folder " + Text.Decimal(id);
    Folder(id, name, false, name, true, order, Some(color))
  }

  /** `Math.max(...notes.map(note => note.order), -1) + 1`: one past the largest order, 0 for no notes. */
  function NextNoteOrder(notes: seq<Note>): (o: int)
    ensures o >= 0
    ensures forall n :: n in notes ==> n.order < o
    ensures o == 0 || exists n :: n in notes && n.order == o - 1
  {
    var orders := Keys(notes, NoteOrder);
    var m := MaxOf(orders, -1);
    assert forall i :: 0 <= i < |notes| ==> notes[i].order <= m;
    assert m != -1 ==> exists n :: n in notes && n.order == m by {
      if m != -1 {
        var i :| 0 <= i < |orders| && orders[i] == m;
        assert notes[i] in notes;
      }
    }
    m + 1
  }

  /** `Math.max(...folders.map(folder => folder.order), -1) + 1`: one past the largest order, 0 for no folders. */
  function NextFolderOrder(folders: seq<Folder>): (o: int)
    ensures o >= 0
    ensures forall f :: f in folders ==> f.order < o
    ensures o == 0 || exists f :: f in folders && f.order == o - 1
  {
    var orders := Keys(folders, FolderOrder);
    var m := MaxOf(orders, -1);
    assert forall i :: 0 <= i < |folders| ==> folders[i].order <= m;
    assert m != -1 ==> exists f :: f in folders && f.order == m by {
      if m != -1 {
        var i :| 0 <= i < |orders| && orders[i] == m;
        assert folders[i] in folders;
      }
    }
    m + 1
  }

  /** `notes.filter(note => note.folderId === g)`: the sibling group `g`, in list order. */
  function Group(notes: seq<Note>, g: Option<int>): (r: seq<Note>)
    ensures forall n :: n in r <==> n in notes && n.folderId == g
    ensures |r| <= |notes|
  {
    if notes == [] then []
    else if notes[0].folderId == g then [notes[0]] + Group(notes[1..], g)
    else Group(notes[1..], g)
  }

  /** `filter` keeps list order: the group of a concatenation is the groups of its parts in turn. */
  lemma {:induction false} GroupAppend(a: seq<Note>, b: seq<Note>, g: Option<int>)
    ensures Group(a + b, g) == Group(a, g) + Group(b, g)
  {
    if a != [] {
      assert (a + b)[0] == a[0] && (a + b)[1..] == a[1..] + b;
      GroupAppend(a[1..], b, g);
    } else {
      assert a + b == b;
    }
  }

  /** The filter on one element: the group of one note is that note exactly when it has folder id `g`. */
  lemma GroupSingleton(n: Note, g: Option<int>)
    ensures Group([n], g) == if n.folderId == g then [n] else []
  {
    assert [n][1..] == [];
  }

  /** A listed note is in the group of its own folder. */
  lemma InOwnGroup(notes: seq<Note>, n: Note)
    requires n in notes
    ensures n in Group(notes, n.folderId) && n.id in NoteIds(Group(notes, n.folderId))
  {
  }

  /** A group drawn from a list without repeated ids has no repeated ids. */
  lemma {:induction false} GroupUnique(notes: seq<Note>, g: Option<int>)
    requires UniqueBy(notes, NoteId)
    ensures UniqueBy(Group(notes, g), NoteId)
  {
    if notes != [] {
      assert UniqueBy(notes[1..], NoteId);
      GroupUnique(notes[1..], g);
      var rest := Group(notes[1..], g);
      if notes[0].folderId == g {
        var r := [notes[0]] + rest;
        forall j | 0 < j < |r| ensures r[0].id != r[j].id {
          assert r[j] in notes[1..];
          var p :| 0 <= p < |notes[1..]| && notes[1..][p] == r[j];
          assert notes[0].id != notes[p + 1].id;
        }
      }
    }
  }

  // ---------------------------------------------------------------------------
  // Per-record edits

  /** What one of the note handlers does to the note it targets. */
  datatype NoteEdit =
    | EditStart                        // handleEditStart
    | EditSave                         // handleEditSave
    | EditCancel                       // handleEditCancel
    | EditValueChange(value: string)   // handleEditValueChange
    | ContentChange(content: string)   // handleUpdateNoteContent
    | IconChange(icon: string)         // handleIconChange
    | IconRemove                       // handleIconRemove
    | TitleChange(title: string)       // handleTitleChange
    | MoveToFolder(target: Option<int>) // handleMoveNoteToFolder

  /** The record a note handler's `{ ...note, ... }` spread builds. */
  function EditNote(n: Note, e: NoteEdit): (r: Note)
    ensures r.id == n.id && r.order == n.order
    ensures r.folderId == if e.MoveToFolder? then e.target else n.folderId
    ensures r.content == if e.ContentChange? then e.content else n.content
  {
    match e
    case EditStart => n.(isEditing := true, editValue := n.name)
    case EditSave => n.(name := n.editValue, isEditing := false)
    case EditCancel => n.(isEditing := false, editValue := n.name)
    case EditValueChange(v) => n.(editValue := v)
    case ContentChange(c) => n.(content := c)
    case IconChange(i) => n.(icon := Some(i))
    case IconRemove => n.(icon := None)
    case TitleChange(t) => n.(name := t)
    case MoveToFolder(f) => n.(folderId := f)
  }

  /** `notes.map(note => note.id === id ? edited : note)`. */
  function EditNotes(notes: seq<Note>, id: int, e: NoteEdit): (r: seq<Note>)
    ensures |r| == |notes|
    ensures forall i :: 0 <= i < |notes| ==> r[i].id == notes[i].id && r[i].order == notes[i].order
    ensures forall i :: 0 <= i < |notes| && notes[i].id != id ==> r[i] == notes[i]
    ensures forall i :: 0 <= i < |notes| && notes[i].id == id ==> r[i] == EditNote(notes[i], e)
  {
    seq(|notes|, i requires 0 <= i < |notes| => if notes[i].id == id then EditNote(notes[i], e) else notes[i])
  }

  /** What one of the folder handlers does to the folder it targets. */
  datatype FolderEdit =
    | FolderEditStart                        // handleFolderEditStart
    | FolderEditSave                         // handleFolderEditSave
    | FolderEditCancel                       // handleFolderEditCancel
    | FolderEditValueChange(value: string)   // handleFolderEditValueChange
    | Toggle                                 // handleToggleFolder
    | ColorChange(color: string)             // handleFolderColorChange

  /** The record a folder handler's `{ ...folder, ... }` spread builds. */
  function EditFolder(f: Folder, e: FolderEdit): (r: Folder)
    ensures r.id == f.id && r.order == f.order
  {
    match e
    case FolderEditStart => f.(isEditing := true, editValue := f.name)
    case FolderEditSave => f.(name := f.editValue, isEditing := false)
    case FolderEditCancel => f.(isEditing := false, editValue := f.name)
    case FolderEditValueChange(v) => f.(editValue := v)
    case Toggle => f.(isExpanded := !f.isExpanded)
    case ColorChange(c) => f.(color := Some(c))
  }

  /** `folders.map(folder => folder.id === id ? edited : folder)`. */
  function EditFolders(folders: seq<Folder>, id: int, e: FolderEdit): (r: seq<Folder>)
    ensures |r| == |folders|
    ensures forall i :: 0 <= i < |folders| ==> r[i].id == folders[i].id && r[i].order == folders[i].order
    ensures forall i :: 0 <= i < |folders| && folders[i].id != id ==> r[i] == folders[i]
    ensures forall i :: 0 <= i < |folders| && folders[i].id == id ==> r[i] == EditFolder(folders[i], e)
  {
    seq(|folders|, i requires 0 <= i < |folders| => if folders[i].id == id then EditFolder(folders[i], e) else folders[i])
  }

  /** The note map in `handleDeleteFolder`: the folder's notes go back to the root. */
  function ReleaseFolder(notes: seq<Note>, folderId: int): (r: seq<Note>)
    ensures |r| == |notes|
    ensures forall i :: 0 <= i < |notes| && notes[i].folderId != Some(folderId) ==> r[i] == notes[i]
    ensures forall i :: 0 <= i < |notes| && notes[i].folderId == Some(folderId) ==> r[i] == notes[i].(folderId := None)
    ensures forall n :: n in r ==> n.folderId != Some(folderId)
  {
    seq(|notes|, i requires 0 <= i < |notes| =>
      if notes[i].folderId == Some(folderId) then notes[i].(folderId := None) else notes[i])
  }

  // ---------------------------------------------------------------------------
  // The rename state machine: Viewing (isEditing false) and Editing (isEditing true)

  /** Start, type `v`, save: the note is back in Viewing and named `v`, even when `v` is empty. */
  lemma NoteRenameCommits(n: Note, v: string)
    ensures EditNote(EditNote(EditNote(n, EditStart), EditValueChange(v)), EditSave)
         == n.(name := v, editValue := v, isEditing := false)
  {
  }

  /** Start, type anything, cancel: back in Viewing with the name untouched and the edit value reset to it. */
  lemma NoteRenameCancelled(n: Note, v: string)
    ensures EditNote(EditNote(EditNote(n, EditStart), EditValueChange(v)), EditCancel)
         == n.(isEditing := false, editValue := n.name)
  {
  }

  /** Saving straight after starting leaves the name as it was. */
  lemma NoteSaveUnchanged(n: Note)
    ensures EditNote(EditNote(n, EditStart), EditSave).name == n.name
  {
  }

  /** The folder machine behaves the same way: start, type `v`, save names the folder `v`. */
  lemma FolderRenameCommits(f: Folder, v: string)
    ensures EditFolder(EditFolder(EditFolder(f, FolderEditStart), FolderEditValueChange(v)), FolderEditSave)
         == f.(name := v, editValue := v, isEditing := false)
  {
  }

  /** Start, type anything, cancel leaves the folder's name untouched. */
  lemma FolderRenameCancelled(f: Folder, v: string)
    ensures EditFolder(EditFolder(EditFolder(f, FolderEditStart), FolderEditValueChange(v)), FolderEditCancel)
         == f.(isEditing := false, editValue := f.name)
  {
  }

  /** Toggling twice restores the expansion state. */
  lemma ToggleInvolutive(f: Folder)
    ensures EditFolder(EditFolder(f, Toggle), Toggle) == f
  {
  }

  /** The title the editor toolbar hands to `handleTitleChange`: an emptied title becomes "Untitled". */
  function ToolbarTitle(value: string): (t: string)
    ensures t != ""
    ensures value != "" ==> t == value
  {
    if value == "" then "Untitled" else value
  }

  // ---------------------------------------------------------------------------
  // Store invariants

  ghost function NoteIds(notes: seq<Note>): set<int> { KeySet(notes, NoteId) }
  ghost function FolderIds(folders: seq<Folder>): set<int> { KeySet(folders, FolderId) }

  /** Every live note id is below the counter `next`. */
  ghost predicate NoteIdsBelow(notes: seq<Note>, next: int) {
    forall n :: n in notes ==> n.id < next
  }

  /** Every live folder id is below the counter `next`. */
  ghost predicate FolderIdsBelow(folders: seq<Folder>, next: int) {
    forall f :: f in folders ==> f.id < next
  }

  /** Every note is at the root or in a folder that exists. */
  ghost predicate FolderRefsLive(notes: seq<Note>, folders: seq<Folder>) {
    forall n :: n in notes && n.folderId.Some? ==> n.folderId.value in FolderIds(folders)
  }

  // ---------------------------------------------------------------------------
  // getNoteIcon

  /** What `getNoteIcon` shows: the note's own icon, or a file glyph in a colour. */
  datatype NoteGlyph = CustomIcon(icon: string) | FileGlyph(color: string)

  /** `folders.find(f => f.id === id)`. */
  function FindFolder(folders: seq<Folder>, id: int): (r: Option<Folder>)
    ensures r.Some? <==> id in FolderIds(folders)
    ensures r.Some? ==> r.value in folders && r.value.id == id
  {
    var i := FindIndex(folders, FolderId, id);
    if i < 0 then
      None
    else
      assert folders[i] in folders;
      Some(folders[i])
  }

  /** `notes.find(n => n.id === id)`. */
  function FindNote(notes: seq<Note>, id: int): (r: Option<Note>)
    ensures r.Some? <==> id in NoteIds(notes)
    ensures r.Some? ==> r.value in notes && r.value.id == id
  {
    var i := FindIndex(notes, NoteId, id);
    if i < 0 then
      None
    else
      assert notes[i] in notes;
      Some(notes[i])
  }

  /**
    The colour of a note's file glyph: its folder's colour when the note has a (non-zero)
    folder id, the folder exists and has a non-empty colour; the default otherwise.
  */
  function GlyphColor(folderId: Option<int>, folders: seq<Folder>): string {
    if folderId.None? || folderId.value == 0 then DefaultIconColor
    else
      match FindFolder(folders, folderId.value)
      case None => DefaultIconColor
      case Some(f) => if f.color.Some? && f.color.value != "" then f.color.value else DefaultIconColor
  }

  /** `getNoteIcon(note)`: a non-empty icon that does not start with the memo emoji, else the file glyph. */
  function NoteIcon(n: Note, folders: seq<Folder>): (g: NoteGlyph)
    ensures g.CustomIcon? <==> n.icon.Some? && n.icon.value != "" && !(MemoIcon <= n.icon.value)
    ensures g.CustomIcon? ==> g.icon == n.icon.value
    ensures g.FileGlyph? ==>
      g.color == DefaultIconColor ||
      exists f :: f in folders && f.id != 0 && n.folderId == Some(f.id) && g.color != "" && f.color == Some(g.color)
  {
    if n.icon.Some? && n.icon.value != "" && !(MemoIcon <= n.icon.value) then CustomIcon(n.icon.value)
    else FileGlyph(GlyphColor(n.folderId, folders))
  }

  /** A note in a live folder with a colour shows that colour, unless it has its own icon. */
  lemma {:induction false} NoteIconFolderColor(n: Note, folders: seq<Folder>, k: int)
    requires UniqueBy(folders, FolderId) && 0 <= k < |folders|
    requires n.folderId == Some(folders[k].id) && folders[k].id != 0
    requires folders[k].color.Some? && folders[k].color.value != ""
    requires n.icon.None? || n.icon.value == "" || MemoIcon <= n.icon.value
    ensures NoteIcon(n, folders) == FileGlyph(folders[k].color.value)
  {
    FindIndexUnique(folders, FolderId, k);
  }

  /** A root note shows the default colour, unless it has its own icon. */
  lemma RootNoteIcon(n: Note, folders: seq<Folder>)
    requires n.folderId.None?
    ensures NoteIcon(n, folders).FileGlyph? ==> NoteIcon(n, folders).color == DefaultIconColor
  {
  }
}

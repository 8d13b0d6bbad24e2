/**
  The list arithmetic behind `handleDragEnd`: renumbering the folders after a folder
  is dropped on a folder, renumbering one sibling group after a note is dropped on a
  note of the same group, and appending a note to the end of another group.
*/
module Reorder {
  import opened Optional
  import opened Seqs
  import opened Entities

  /** What dnd-kit reports as dragged or hovered: a folder row (`folder-<id>`) or a note row (`<id>`). */
  datatype DragItem = FolderItem(id: int) | NoteItem(id: int)

  // ---------------------------------------------------------------------------
  // Folder onto folder

  /** `folders.sort((a, b) => a.order - b.order)`. */
  function SortFolders(folders: seq<Folder>): seq<Folder> {
    StableSort(folders, ByFolderOrder)
  }

  /** `arrayMove(sortedFolders, oldIndex, newIndex)`, when both folders exist. */
  function ReorderedFolders(folders: seq<Folder>, activeId: int, overId: int): (r: seq<Folder>)
    requires activeId in FolderIds(folders) && overId in FolderIds(folders)
    ensures multiset(r) == multiset(folders)
  {
    var sorted := SortFolders(folders);
    FoundInPermutation(folders, sorted, FolderId, activeId);
    FoundInPermutation(folders, sorted, FolderId, overId);
    ArrayMove(sorted, FindIndex(sorted, FolderId, activeId), FindIndex(sorted, FolderId, overId))
  }

  /** `sorted.map(f => ({ ...f, order: reordered.findIndex(g => g.id === f.id) }))`. */
  function Renumber(sorted: seq<Folder>, reordered: seq<Folder>): (r: seq<Folder>)
    ensures |r| == |sorted|
  {
    seq(|sorted|, i requires 0 <= i < |sorted| => sorted[i].(order := FindIndex(reordered, FolderId, sorted[i].id)))
  }

  /**
    The index lookups, `arrayMove` and renumbering on the already sorted folder array
    (`sortedFolders` is the state array itself after `folders.sort`).
  */
  function MoveSorted(sorted: seq<Folder>, activeId: int, overId: int): (r: seq<Folder>)
    requires activeId in FolderIds(sorted) && overId in FolderIds(sorted)
  {
    Renumber(sorted, ArrayMove(sorted, FindIndex(sorted, FolderId, activeId), FindIndex(sorted, FolderId, overId)))
  }

  /** The folders after a folder is dropped on another (both existing). */
  function MoveFolder(folders: seq<Folder>, activeId: int, overId: int): (r: seq<Folder>)
    requires activeId in FolderIds(folders) && overId in FolderIds(folders)
  {
    Renumber(SortFolders(folders), ReorderedFolders(folders, activeId, overId))
  }

  /** The facts every renumbering lemma below starts from: the sorted and moved lists keep unique ids. */
  lemma MoveFolderSetup(folders: seq<Folder>, activeId: int, overId: int)
    requires UniqueBy(folders, FolderId)
    requires activeId in FolderIds(folders) && overId in FolderIds(folders)
    ensures UniqueBy(SortFolders(folders), FolderId)
    ensures UniqueBy(ReorderedFolders(folders, activeId, overId), FolderId)
  {
    var sorted := SortFolders(folders);
    StableSortUnique(folders, ByFolderOrder, FolderId);
    FoundInPermutation(folders, sorted, FolderId, activeId);
    FoundInPermutation(folders, sorted, FolderId, overId);
    ArrayMoveUnique(sorted, FolderId, FindIndex(sorted, FolderId, activeId), FindIndex(sorted, FolderId, overId));
  }

  /**
    After a folder is dropped on a folder, each folder's new order is a rank in
    0..n-1, and it is the rank at which the `arrayMove`d list holds that folder.
  */
  lemma MoveFolderRanks(folders: seq<Folder>, activeId: int, overId: int)
    requires UniqueBy(folders, FolderId)
    requires activeId in FolderIds(folders) && overId in FolderIds(folders)
    ensures var r := MoveFolder(folders, activeId, overId);
      var reordered := ReorderedFolders(folders, activeId, overId);
      && |r| == |folders|
      && forall i :: 0 <= i < |r| ==> 0 <= r[i].order < |r| && reordered[r[i].order].id == r[i].id
  {
    var sorted := SortFolders(folders);
    var reordered := ReorderedFolders(folders, activeId, overId);
    MoveFolderSetup(folders, activeId, overId);
    forall i | 0 <= i < |sorted|
      ensures 0 <= FindIndex(reordered, FolderId, sorted[i].id) < |reordered|
      ensures reordered[FindIndex(reordered, FolderId, sorted[i].id)] == sorted[i]
    {
      assert sorted[i] in multiset(reordered);
      FindIndexMember(reordered, FolderId, sorted[i]);
    }
  }

  /** After a folder is dropped on a folder no two folders share an order. */
  lemma MoveFolderDistinct(folders: seq<Folder>, activeId: int, overId: int)
    requires UniqueBy(folders, FolderId)
    requires activeId in FolderIds(folders) && overId in FolderIds(folders)
    ensures var r := MoveFolder(folders, activeId, overId);
      forall i, j :: 0 <= i < j < |r| ==> r[i].order != r[j].order
  {
    MoveFolderSetup(folders, activeId, overId);
    MoveFolderRanks(folders, activeId, overId);
  }

  /** After a folder is dropped on a folder every rank 0..n-1 is some folder's order. */
  lemma MoveFolderOnto(folders: seq<Folder>, activeId: int, overId: int)
    requires UniqueBy(folders, FolderId)
    requires activeId in FolderIds(folders) && overId in FolderIds(folders)
    ensures var r := MoveFolder(folders, activeId, overId);
      forall k :: 0 <= k < |r| ==> k in Keys(r, FolderOrder)
  {
    var sorted := SortFolders(folders);
    var reordered := ReorderedFolders(folders, activeId, overId);
    var r := MoveFolder(folders, activeId, overId);
    MoveFolderSetup(folders, activeId, overId);
    forall k | 0 <= k < |r| ensures k in Keys(r, FolderOrder) {
      PermutationSource(sorted, reordered, FolderId, k);
      var i :| 0 <= i < |sorted| && sorted[i] == reordered[k] && FindIndex(reordered, FolderId, sorted[i].id) == k;
      assert Keys(r, FolderOrder)[i] == k;
    }
  }

  /** Dropping a folder on a folder changes no folder but for its order. */
  lemma MoveFolderKeepsFolders(folders: seq<Folder>, activeId: int, overId: int)
    requires activeId in FolderIds(folders) && overId in FolderIds(folders)
    ensures var r := MoveFolder(folders, activeId, overId);
      forall i :: 0 <= i < |r| ==> exists f :: f in folders && r[i] == f.(order := r[i].order)
  {
    var sorted := SortFolders(folders);
    var r := Renumber(sorted, ReorderedFolders(folders, activeId, overId));
    forall i | 0 <= i < |r| ensures exists f :: f in folders && r[i] == f.(order := r[i].order) {
      assert sorted[i] in multiset(folders);
      assert sorted[i] in folders && r[i] == sorted[i].(order := r[i].order);
    }
  }

  /** Renumbering keeps every folder of the list, with only its order changed. */
  lemma RenumberCovers(sorted: seq<Folder>, reordered: seq<Folder>, f: Folder)
    requires f in sorted
    ensures exists i :: 0 <= i < |sorted| && Renumber(sorted, reordered)[i] == f.(order := Renumber(sorted, reordered)[i].order)
  {
    var i :| 0 <= i < |sorted| && sorted[i] == f;
    assert Renumber(sorted, reordered)[i] == f.(order := Renumber(sorted, reordered)[i].order);
  }

  /** Dropping a folder on a folder loses no folder. */
  lemma MoveFolderLosesNone(folders: seq<Folder>, activeId: int, overId: int)
    requires activeId in FolderIds(folders) && overId in FolderIds(folders)
    ensures var r := MoveFolder(folders, activeId, overId);
      forall f :: f in folders ==> exists i :: 0 <= i < |r| && r[i] == f.(order := r[i].order)
  {
    var sorted := SortFolders(folders);
    var reordered := ReorderedFolders(folders, activeId, overId);
    assert MoveFolder(folders, activeId, overId) == Renumber(sorted, reordered);
    forall f | f in folders
      ensures exists i :: 0 <= i < |sorted| && Renumber(sorted, reordered)[i] == f.(order := Renumber(sorted, reordered)[i].order)
    {
      assert f in multiset(sorted);
      RenumberCovers(sorted, reordered, f);
    }
  }

  /** Dropping a folder on a folder keeps the set of folder ids and their uniqueness. */
  lemma MoveFolderIds(folders: seq<Folder>, activeId: int, overId: int)
    requires activeId in FolderIds(folders) && overId in FolderIds(folders)
    ensures var r := MoveFolder(folders, activeId, overId);
      && FolderIds(r) == FolderIds(folders)
      && (UniqueBy(folders, FolderId) ==> UniqueBy(r, FolderId))
  {
    var sorted := SortFolders(folders);
    var r := Renumber(sorted, ReorderedFolders(folders, activeId, overId));
    assert MoveFolder(folders, activeId, overId) == r;
    if UniqueBy(folders, FolderId) {
      StableSortUnique(folders, ByFolderOrder, FolderId);
    }
    PermutationKeys(folders, sorted, FolderId);
    SameKeys(sorted, r, FolderId);
  }

  /** The dragged folder takes the rank the folder it was dropped on had in the order-sorted list. */
  lemma MoveFolderTakesTarget(folders: seq<Folder>, activeId: int, overId: int)
    requires UniqueBy(folders, FolderId)
    requires activeId in FolderIds(folders) && overId in FolderIds(folders)
    ensures var r := MoveFolder(folders, activeId, overId);
      forall i :: 0 <= i < |r| && r[i].id == activeId ==>
        r[i].order == FindIndex(SortFolders(folders), FolderId, overId)
  {
    var sorted := SortFolders(folders);
    var reordered := ReorderedFolders(folders, activeId, overId);
    MoveFolderSetup(folders, activeId, overId);
    FoundInPermutation(folders, sorted, FolderId, activeId);
    FoundInPermutation(folders, sorted, FolderId, overId);
    var from, to := FindIndex(sorted, FolderId, activeId), FindIndex(sorted, FolderId, overId);
    assert reordered[to] == sorted[from];
    FindIndexUnique(reordered, FolderId, to);
    var r := Renumber(sorted, reordered);
    assert MoveFolder(folders, activeId, overId) == r;
    forall i | 0 <= i < |r| && r[i].id == activeId ensures r[i].order == to {
      assert r[i] == sorted[i].(order := FindIndex(reordered, FolderId, sorted[i].id));
    }
  }

  // ---------------------------------------------------------------------------
  // Note onto note of the same group

  /** `arrayMove(sortedNotes, oldIndex, newIndex)` over group `g`, when both notes are in it. */
  function ReorderedGroup(notes: seq<Note>, g: Option<int>, activeId: int, overId: int): (r: seq<Note>)
    requires activeId in NoteIds(Group(notes, g)) && overId in NoteIds(Group(notes, g))
    ensures multiset(r) == multiset(Group(notes, g))
  {
    var group := Group(notes, g);
    var sorted := StableSort(group, ByNoteOrder);
    FoundInPermutation(group, sorted, NoteId, activeId);
    FoundInPermutation(group, sorted, NoteId, overId);
    ArrayMove(sorted, FindIndex(sorted, NoteId, activeId), FindIndex(sorted, NoteId, overId))
  }

  /** One note of the list after group `g` is renumbered: members take their index in `reordered`. */
  function RenumberInGroup(n: Note, g: Option<int>, reordered: seq<Note>): (r: Note)
    ensures r.id == n.id && r.folderId == n.folderId
  {
    if n.folderId == g then n.(order := FindIndex(reordered, NoteId, n.id)) else n
  }

  /** The notes after a note is dropped on another note of the same group `g`. */
  function MoveWithinGroup(notes: seq<Note>, g: Option<int>, activeId: int, overId: int): (r: seq<Note>)
    requires activeId in NoteIds(Group(notes, g)) && overId in NoteIds(Group(notes, g))
    ensures |r| == |notes|
  {
    var reordered := ReorderedGroup(notes, g, activeId, overId);
    seq(|notes|, i requires 0 <= i < |notes| => RenumberInGroup(notes[i], g, reordered))
  }

  /** Some note of group `g` has order `o`. */
  ghost predicate OrderInGroup(notes: seq<Note>, g: Option<int>, o: int) {
    exists i :: 0 <= i < |notes| && notes[i].folderId == g && notes[i].order == o
  }

  /** The moved group keeps unique ids. */
  lemma MoveWithinGroupSetup(notes: seq<Note>, g: Option<int>, activeId: int, overId: int)
    requires UniqueBy(notes, NoteId)
    requires activeId in NoteIds(Group(notes, g)) && overId in NoteIds(Group(notes, g))
    ensures UniqueBy(ReorderedGroup(notes, g, activeId, overId), NoteId)
  {
    var group := Group(notes, g);
    var sorted := StableSort(group, ByNoteOrder);
    GroupUnique(notes, g);
    StableSortUnique(group, ByNoteOrder, NoteId);
    FoundInPermutation(group, sorted, NoteId, activeId);
    FoundInPermutation(group, sorted, NoteId, overId);
    ArrayMoveUnique(sorted, NoteId, FindIndex(sorted, NoteId, activeId), FindIndex(sorted, NoteId, overId));
  }

  /** Dropping a note on a note of its own group changes no note outside the group, and only the order of those inside. */
  lemma MoveWithinGroupKeeps(notes: seq<Note>, g: Option<int>, activeId: int, overId: int)
    requires activeId in NoteIds(Group(notes, g)) && overId in NoteIds(Group(notes, g))
    ensures var r := MoveWithinGroup(notes, g, activeId, overId);
      && (forall i :: 0 <= i < |notes| && notes[i].folderId != g ==> r[i] == notes[i])
      && (forall i :: 0 <= i < |notes| && notes[i].folderId == g ==> r[i] == notes[i].(order := r[i].order))
      && (forall i :: 0 <= i < |notes| ==> r[i].id == notes[i].id && r[i].folderId == notes[i].folderId)
  {
    var r := MoveWithinGroup(notes, g, activeId, overId);
    var reordered := ReorderedGroup(notes, g, activeId, overId);
    forall i | 0 <= i < |notes| ensures r[i] == RenumberInGroup(notes[i], g, reordered) {
    }
  }

  /**
    After a note is dropped on a note of its own group, each member's new order is a
    rank in 0..k-1 at which the `arrayMove`d group holds it.
  */
  lemma MoveWithinGroupRanks(notes: seq<Note>, g: Option<int>, activeId: int, overId: int)
    requires UniqueBy(notes, NoteId)
    requires activeId in NoteIds(Group(notes, g)) && overId in NoteIds(Group(notes, g))
    ensures var r := MoveWithinGroup(notes, g, activeId, overId);
      var reordered := ReorderedGroup(notes, g, activeId, overId);
      forall i :: 0 <= i < |notes| && notes[i].folderId == g ==>
        0 <= r[i].order < |reordered| && reordered[r[i].order].id == r[i].id
  {
    var reordered := ReorderedGroup(notes, g, activeId, overId);
    MoveWithinGroupSetup(notes, g, activeId, overId);
    forall i | 0 <= i < |notes| && notes[i].folderId == g
      ensures 0 <= FindIndex(reordered, NoteId, notes[i].id) < |reordered|
      ensures reordered[FindIndex(reordered, NoteId, notes[i].id)] == notes[i]
    {
      assert notes[i] in Group(notes, g);
      assert notes[i] in multiset(reordered);
      FindIndexMember(reordered, NoteId, notes[i]);
    }
  }

  /** After a note is dropped within its group, no two members of the group share an order. */
  lemma MoveWithinGroupDistinct(notes: seq<Note>, g: Option<int>, activeId: int, overId: int)
    requires UniqueBy(notes, NoteId)
    requires activeId in NoteIds(Group(notes, g)) && overId in NoteIds(Group(notes, g))
    ensures var r := MoveWithinGroup(notes, g, activeId, overId);
      forall i, j :: 0 <= i < j < |notes| && notes[i].folderId == g && notes[j].folderId == g ==>
        r[i].order != r[j].order
  {
    MoveWithinGroupRanks(notes, g, activeId, overId);
  }

  /** After a note is dropped within its group, every rank 0..k-1 is the order of a member. */
  lemma MoveWithinGroupOnto(notes: seq<Note>, g: Option<int>, activeId: int, overId: int)
    requires UniqueBy(notes, NoteId)
    requires activeId in NoteIds(Group(notes, g)) && overId in NoteIds(Group(notes, g))
    ensures var r := MoveWithinGroup(notes, g, activeId, overId);
      forall o :: 0 <= o < |Group(notes, g)| ==> OrderInGroup(r, g, o)
  {
    var group := Group(notes, g);
    var reordered := ReorderedGroup(notes, g, activeId, overId);
    var r := MoveWithinGroup(notes, g, activeId, overId);
    MoveWithinGroupSetup(notes, g, activeId, overId);
    forall o | 0 <= o < |group| ensures OrderInGroup(r, g, o) {
      PermutationSource(group, reordered, NoteId, o);
      var k :| 0 <= k < |group| && group[k] == reordered[o] && FindIndex(reordered, NoteId, group[k].id) == o;
      assert group[k] in group;
      var i :| 0 <= i < |notes| && notes[i] == group[k];
      assert r[i].folderId == g && r[i].order == o;
    }
  }

  // ---------------------------------------------------------------------------
  // Note onto a note of another group, or onto a folder

  /** `Math.max(...notes.filter(n => n.folderId === g).map(n => n.order), -1) + 1`. */
  function EndOfGroup(notes: seq<Note>, g: Option<int>): (o: int)
    ensures o >= 0
    ensures forall n :: n in notes && n.folderId == g ==> n.order < o
    ensures o == 0 || exists n :: n in notes && n.folderId == g && n.order == o - 1
  {
    var orders := Keys(Group(notes, g), NoteOrder);
    var m := MaxOf(orders, -1);
    assert forall n :: n in notes && n.folderId == g ==> n.order in orders by {
      forall n | n in notes && n.folderId == g ensures n.order in orders {
        var i :| 0 <= i < |Group(notes, g)| && Group(notes, g)[i] == n;
        assert orders[i] == n.order;
      }
    }
    assert m != -1 ==> exists n :: n in notes && n.folderId == g && n.order == m by {
      if m != -1 {
        var i :| 0 <= i < |orders| && orders[i] == m;
        assert Group(notes, g)[i] in Group(notes, g);
      }
    }
    m + 1
  }

  /** The note map that moves note `activeId` into group `g` at order `EndOfGroup(notes, g)`. */
  function MoveToGroupEnd(notes: seq<Note>, activeId: int, g: Option<int>): (r: seq<Note>)
    ensures |r| == |notes|
    ensures forall i :: 0 <= i < |notes| && notes[i].id != activeId ==> r[i] == notes[i]
    ensures forall i :: 0 <= i < |notes| && notes[i].id == activeId ==>
      r[i] == notes[i].(folderId := g, order := EndOfGroup(notes, g))
  {
    var end := EndOfGroup(notes, g);
    seq(|notes|, i requires 0 <= i < |notes| =>
      if notes[i].id == activeId then notes[i].(folderId := g, order := end) else notes[i])
  }
}

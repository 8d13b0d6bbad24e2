# Noted write page: the note and folder store

This project models the in-memory store behind the write page of Noted, a browser
note-taking app (`src/app/write/page.tsx`). The page keeps two lists of records:
notes and folders. It also keeps the selected note, two id counters and the
current view. Its event handlers change these in place.

The modules are:

- `Optional` holds the option type. It stands for TypeScript's `undefined` fields and `null` selection.
- `Seqs` holds the JavaScript and dnd-kit list operations the handlers use: `Math.max`, `findIndex`, `filter` on a key, `arrayMove` and the stable `Array.prototype.sort` with a comparator.
- `Text` holds `trim`, `includes` and the decimal rendering behind the template literal `Note ${id}`.
- `Entities` holds the `Note` and `Folder` records and the folder palette. It has the one-record edits the handlers apply with `map`, the rename state machine, the store invariants' building blocks and `getNoteIcon`.
- `Reorder` holds the list arithmetic of `handleDragEnd`.
- `Search` holds `filteredNotes`.
- `Store` holds the page state as a value, with one transition function per handler. It has the invariant the handlers keep and lemmas that every handler keeps it. It also has a runner over sequences of user events.
- `Page` holds the class `WritePage`. It has one field per piece of React state and one method per handler. Each method is proved to leave exactly the state its `Store` transition gives. Each handler method is also proved to keep the invariant, with three exceptions. `LoadData` instead states when the invariant holds after the load. The drag-end helpers `DropFolderOnFolder`, `ReorderGroup`, `AppendToGroup`, `DropNoteOnNote` and `DropNoteOnFolder` state only the resulting state. `HandleDragEnd`, which calls them, keeps the invariant.

Storage, the clock and the locale are not modelled inside the store:

- What IndexedDB returns on load is a parameter of `LoadData`.
- The search page's debounced query is a parameter of `FilteredNotes`.
- `toLowerCase` and `localeCompare` are the two fields of a `Search.Locale` value that the filter takes as given.

Four behaviours of the code are easy to misread, and the model follows the code in each:

- Renaming a note or a folder accepts an empty name. Saving copies the edit value into the name without any check (page.tsx:819, 906).
- `handleAddNote` always adds at the root. It takes one past the largest `order` over all notes, not only root notes (page.tsx:754).
- `handleMoveNoteToFolder` keeps the note's `order` (page.tsx:936-942). The note does not get an end-of-group order.
- No folder reference is checked by the handlers themselves. References stay live only because the menus offer `undefined` or `folders[0].id` (page.tsx:320, 356) and because notes are only dropped on rendered folder rows (page.tsx:1037-1057). `Store.Enabled` states these conditions.

## Model

| member | source | states |
|---|---|---|
| Seqs.MaxOf | src/app/write/page.tsx:754 | `Math.max(...xs, floor)` is at least `floor` and every element, and is `floor` or one of the elements |
| Seqs.FindIndex | src/app/write/page.tsx:984-985 | `findIndex` gives -1 exactly when no element has the key, else the first index that has it |
| Seqs.FindIndexUnique | src/app/write/page.tsx:989-991 | with unique keys, looking an element's key up finds that element's own index |
| Seqs.RemoveKey | src/app/write/page.tsx:833 | `filter(x => x.id !== k)` keeps exactly the elements with another key, and everything when no element has key `k` |
| Seqs.RemoveKeyAppend | src/app/write/page.tsx:833 | `filter` keeps order: the filter of a concatenation is the filters of its parts in turn |
| Seqs.RemoveKeySingleton | src/app/write/page.tsx:833 | a single element stays exactly when its key is not `k` |
| Seqs.RemoveKeySplices | src/app/write/page.tsx:833 | on distinct keys, filtering out the key of `x` from `a + [x] + b` leaves exactly `a + b`, in order |
| Seqs.RemoveKeyUnique | src/app/write/page.tsx:833-834 | on distinct keys the filter keeps keys distinct and has exactly one element fewer when `k` was present |
| Seqs.ArrayMove | src/app/write/page.tsx:987 | dnd-kit `arrayMove` keeps the length and the elements, and puts the moved element at `to` |
| Seqs.ArrayMoveAt | src/app/write/page.tsx:987 | position by position: before both indices nothing moves, between them elements shift by one towards `from`, beyond both nothing moves |
| Seqs.ArrayMoveInverse | src/app/write/page.tsx:987 | moving from `from` to `to` and back restores the list |
| Seqs.ArrayMoveUnique | src/app/write/page.tsx:987 | `arrayMove` keeps keys unique |
| Seqs.StableSort | src/app/write/page.tsx:983 | `Array.prototype.sort` returns a permutation of its input |
| Seqs.StableSortSorted | src/app/write/page.tsx:983 | with a consistent comparator the result is in comparator order |
| Seqs.StableSortRankSorted | src/app/write/page.tsx:667-674 | when a rank decides the comparison the result is grouped by rank, lowest first |
| Seqs.StableSortKeeps | src/app/write/page.tsx:687 | a comparator that never asks for a swap leaves the list as it is |
| Seqs.StableSortStable | src/app/write/page.tsx:983 | `Array.prototype.sort` is stable: with a consistent comparator, the elements ranked level with any value come out in their input order |
| Seqs.StableSortUnique | src/app/write/page.tsx:983 | sorting keeps keys unique |
| Text.Trim | src/app/write/page.tsx:659 | `trim` returns a slice of the input with only trimmable characters cut off either end, and starts and ends with a non-trimmable character when non-empty |
| Text.TrimIdempotent | src/app/write/page.tsx:659 | trimming twice is trimming once |
| Text.TrimEmpty | src/app/write/page.tsx:659-660 | a string trims to empty exactly when every character is white space or a line terminator |
| Text.Utf16Length | src/app/write/page.tsx:682 | `content.length` counts UTF-16 code units: between one and two per character, and exactly one per character when none is above U+FFFF |
| Text.Utf16LengthAppend | src/app/write/page.tsx:682 | the UTF-16 length of a concatenation is the sum of the lengths |
| Text.Utf16LengthPair | src/app/write/page.tsx:682 | one character above U+FFFF is as long as two characters below it |
| Text.Contains | src/app/write/page.tsx:663-664 | no contract of its own: `includes` as an occurrence of the query at some index; `Text.ContainsSplit` and `Text.ContainsEmpty` characterise it |
| Text.ContainsSplit | src/app/write/page.tsx:663-664 | `includes` holds exactly when the text splits around the query |
| Text.ContainsEmpty | src/app/write/page.tsx:663-664 | every text includes the empty query |
| Text.Digits | src/app/write/page.tsx:757 | the decimal digits of an id are non-empty digits without a leading zero |
| Text.DigitsRoundTrip | src/app/write/page.tsx:757 | reading back the digits of `n` gives `n` |
| Text.DecimalInjective | src/app/write/page.tsx:756-757 | different ids give different generated names |
| Text.Decimal | src/app/write/page.tsx:757 | no contract of its own: the `${id}` rendering, a minus sign for negative ids then the digits; `Text.Digits`, `Text.DigitsRoundTrip` and `Text.DecimalInjective` characterise it |
| Entities.DefaultNote | src/app/write/page.tsx:710-718 | no contract of its own: the seeded note (id given, name "Note", empty content, memo icon, root, order 0), used by the load at 710-718 and by the delete at 839-847; `Store.Load` and `Store.DeleteNote` state its fields where it is used |
| Entities.NewNote | src/app/write/page.tsx:755-763 | no contract of its own: the note `handleAddNote` appends; `Store.AddNote` states its id, name "Note id", memo icon, root placement and order |
| Entities.NewFolder | src/app/write/page.tsx:882-890 | no contract of its own: the folder `handleAddFolder` appends; `Store.AddFolder` states its id, name "Folder id", expansion, order and colour |
| Entities.NextNoteOrder | src/app/write/page.tsx:754-762 | one past the largest note order: not negative, above every order, and 0 or one past an existing order |
| Entities.NextFolderOrder | src/app/write/page.tsx:880-888 | the same for folder orders |
| Entities.Group | src/app/write/page.tsx:1003 | the notes with folder id `g` are exactly those in the group |
| Entities.GroupAppend | src/app/write/page.tsx:1003 | `filter` keeps list order: the group of a concatenation is the groups of its parts in turn |
| Entities.GroupSingleton | src/app/write/page.tsx:1003 | a single note is its own group exactly when it has folder id `g` |
| Entities.GroupUnique | src/app/write/page.tsx:1003 | a group of a list with unique ids has unique ids |
| Entities.EditNote | src/app/write/page.tsx:800-942 | a note handler's spread never changes id or order, changes the folder only for a move and the content only for a content change |
| Entities.EditNotes | src/app/write/page.tsx:800-806 | `notes.map` over one id edits exactly the notes with that id and leaves every other note as it was |
| Entities.EditFolder | src/app/write/page.tsx:895-966 | a folder handler's spread never changes id or order |
| Entities.EditFolders | src/app/write/page.tsx:895-901 | `folders.map` over one id edits exactly that folder and leaves every other folder as it was |
| Entities.ReleaseFolder | src/app/write/page.tsx:920-924 | the deleted folder's notes go to the root with their order unchanged, other notes are untouched, and no note names the folder afterwards |
| Entities.NoteRenameCommits | src/app/write/page.tsx:808-822 | edit-start, value change to `v`, save: the note is viewing again and named `v`, even an empty `v` |
| Entities.NoteRenameCancelled | src/app/write/page.tsx:808-830 | edit-start, any value change, cancel: viewing again, name unchanged, edit value reset to the name |
| Entities.NoteSaveUnchanged | src/app/write/page.tsx:808-822 | saving right after edit-start keeps the name |
| Entities.FolderRenameCommits | src/app/write/page.tsx:895-909 | the folder rename machine commits the typed value the same way |
| Entities.FolderRenameCancelled | src/app/write/page.tsx:895-917 | cancelling a folder rename keeps its name and resets the edit value |
| Entities.ToggleInvolutive | src/app/write/page.tsx:928-934 | toggling a folder twice restores its expansion state |
| Entities.ToolbarTitle | src/components/ui/notion-toolbar.tsx:38-41 | the title handed on is never empty and is the typed value whenever that is non-empty |
| Entities.FindFolder | src/app/write/page.tsx:622 | `folders.find` finds something exactly when the id is live, and what it finds has that id |
| Entities.FindNote | src/app/write/page.tsx:998-999 | `notes.find` finds something exactly when the id is live, and what it finds has that id |
| Entities.GlyphColor | src/app/write/page.tsx:621-623 | no contract of its own: the folder colour when the note has a truthy folder id naming a folder with a non-empty colour, else the default blue; `Entities.NoteIcon`, `Entities.NoteIconFolderColor` and `Entities.RootNoteIcon` characterise it |
| Entities.NoteIcon | src/app/write/page.tsx:618-626 | the note's own icon shows exactly when it is non-empty and does not start with the memo emoji; otherwise a file glyph in the default colour or in the non-empty colour of the note's folder, whose id is not 0 |
| Entities.NoteIconFolderColor | src/app/write/page.tsx:621-623 | a note without its own icon, in a live folder with a non-zero id (the truthiness test) and a non-empty colour, shows that colour |
| Entities.RootNoteIcon | src/app/write/page.tsx:621-623 | a root note without its own icon shows the default colour |
| Reorder.SortFolders | src/app/write/page.tsx:983 | no contract of its own: `folders.sort` by ascending order as `Seqs.StableSort`; `Seqs.StableSort`, `Seqs.StableSortSorted` and `Seqs.StableSortStable` characterise it |
| Reorder.ReorderedFolders | src/app/write/page.tsx:983-987 | the moved, order-sorted folder list is a permutation of the folders |
| Reorder.MoveSorted | src/app/write/page.tsx:984-992 | no contract of its own: the index lookups, `arrayMove` and renumbering applied to the already sorted folder array; `Page.WritePage.DropFolderOnFolder` applies it to the sorted state field |
| Reorder.MoveFolder | src/app/write/page.tsx:983-992 | no contract of its own: the folders after a folder drop; `Reorder.MoveFolderRanks`, `MoveFolderDistinct`, `MoveFolderOnto`, `MoveFolderKeepsFolders`, `MoveFolderLosesNone`, `MoveFolderIds` and `MoveFolderTakesTarget` characterise it |
| Reorder.MoveFolderRanks | src/app/write/page.tsx:983-995 | after a folder drop every new order is a rank in 0..n-1, and the moved list holds that folder at that rank |
| Reorder.MoveFolderDistinct | src/app/write/page.tsx:989-992 | after a folder drop no two folders share an order |
| Reorder.MoveFolderOnto | src/app/write/page.tsx:989-992 | after a folder drop every rank 0..n-1 is some folder's order |
| Reorder.MoveFolderKeepsFolders | src/app/write/page.tsx:989-992 | every folder after the drop is an old folder with only its order changed |
| Reorder.MoveFolderLosesNone | src/app/write/page.tsx:989-992 | every old folder is still there, with only its order changed |
| Reorder.MoveFolderIds | src/app/write/page.tsx:989-992 | a folder drop keeps the set of folder ids and their uniqueness |
| Reorder.MoveFolderTakesTarget | src/app/write/page.tsx:984-991 | the dragged folder takes the rank the target folder had in the order-sorted list |
| Reorder.ReorderedGroup | src/app/write/page.tsx:1003-1008 | the moved, order-sorted group is a permutation of the group |
| Reorder.MoveWithinGroup | src/app/write/page.tsx:1003-1016 | keeps the number of notes; `Reorder.MoveWithinGroupKeeps`, `MoveWithinGroupRanks`, `MoveWithinGroupDistinct` and `MoveWithinGroupOnto` characterise the rest |
| Reorder.MoveWithinGroupKeeps | src/app/write/page.tsx:1010-1016 | a drop within a group leaves notes outside the group untouched and changes only the order of those inside |
| Reorder.MoveWithinGroupRanks | src/app/write/page.tsx:1003-1016 | each group member's new order is a rank in 0..k-1 at which the moved group holds it |
| Reorder.MoveWithinGroupDistinct | src/app/write/page.tsx:1010-1016 | no two group members share an order after the drop |
| Reorder.MoveWithinGroupOnto | src/app/write/page.tsx:1010-1016 | every rank 0..k-1 is the order of a group member after the drop |
| Reorder.EndOfGroup | src/app/write/page.tsx:1021-1024 | one past the largest order in the target group: not negative, above every order in the group, and 0 or one past an order in the group |
| Reorder.MoveToGroupEnd | src/app/write/page.tsx:1026-1035 | only the dragged note changes; it takes the target group and the end-of-group order |
| Search.ActiveQuery | src/app/write/page.tsx:657 | no contract of its own: the search page reads the debounced query, the home page its live search box; `Search.FilteredNotes` takes its result |
| Search.Normalized | src/app/write/page.tsx:659 | no contract of its own: lower-case, then trim; `Text.Trim`, `Search.BlankQueryKeepsAll` and `Search.FilteredNotes` characterise it |
| Search.Matching | src/app/write/page.tsx:662-666 | the filter keeps exactly the notes whose lower-cased name or content includes the query, and keeps everything when everything matches |
| Search.MatchingAppend | src/app/write/page.tsx:662-666 | `filter` keeps list order: the matches of a concatenation are the matches of its parts in turn |
| Search.MatchingSingleton | src/app/write/page.tsx:662-666 | a single note stays exactly when its lower-cased name or content includes the query |
| Search.FilteredNotes | src/app/write/page.tsx:656-689 | an empty query, or one empty after lower-casing and trimming, gives all notes unchanged; otherwise exactly the matching notes, as a permutation of the filtered list |
| Search.BlankQueryKeepsAll | src/app/write/page.tsx:659-660 | a query of only white space leaves the notes unchanged |
| Search.OffSearchKeepsListOrder | src/app/write/page.tsx:666-688 | outside the search page the matches stay in list order |
| Search.NameMatchesFirst | src/app/write/page.tsx:668-674 | on the search page every name match comes before every content-only match |
| Search.Compare | src/app/write/page.tsx:667-687 | no contract of its own: the sort comparator; `Search.ComparatorConsistent`, `Search.NameMatchesFirst`, `Search.SearchFollowsKey` and `Search.OffSearchKeepsListOrder` characterise it |
| Search.ComparatorConsistent | src/app/write/page.tsx:667-687 | the search comparator is a total preorder whenever `localeCompare` is |
| Search.SearchFollowsKey | src/app/write/page.tsx:676-684 | among notes of the same match kind, search results follow name order, descending id or descending content length counted in UTF-16 code units as `content.length` counts it |
| Store.NextNoteId | src/app/write/page.tsx:708 | `Math.max` of the loaded note ids plus one is above every loaded id and one past some loaded id |
| Store.NextFolderId | src/app/write/page.tsx:726 | the same for the loaded folder ids |
| Store.Load | src/app/write/page.tsx:699-740 | saved notes are kept with the first one selected, or one default note (id 1) is seeded with `nextId` 2; saved folders are kept, or `nextFolderId` is 1; loading ends |
| Store.LoadAfterEarlyFolder | src/app/write/page.tsx:724-729 | a folder added before the load, when storage holds no folders, survives the load with the id the reset `nextFolderId` hands out next, so the invariant fails |
| Store.LoadInv | src/app/write/page.tsx:705-728 | the state after loading has the invariant exactly when the loaded ids are unique and the loaded notes only name loaded folders |
| Store.AddNote | src/app/write/page.tsx:753-767 | one root note is appended with id `nextId`, name "Note id", the memo icon and order one past the largest of all note orders; it is selected and the counter grows by one; nothing else changes |
| Store.AddFolder | src/app/write/page.tsx:879-893 | one expanded folder is appended with id `nextFolderId`, name "Folder id", order one past the largest folder order and palette colour number `|folders| mod 10`; nothing else changes |
| Store.DeleteNote | src/app/write/page.tsx:832-853 | the notes become the `filter` result, so exactly the notes with that id go and the rest keep their order; when the deleted note was selected, the first remaining note is selected, and when none remain there is exactly one default note with id `nextId` and the counter grows |
| Store.DeleteNoteSplices | src/app/write/page.tsx:832-838 | deleting note `n` of `a + [n] + b` leaves `a + b` in that order, and selects the first note of `a + b` when `n` was selected |
| Store.DeleteFolder | src/app/write/page.tsx:919-926 | exactly that folder goes; its notes go to the root with their order kept; no note is deleted |
| Store.DragEnd | src/app/write/page.tsx:968-1060 | a drop on nothing, on itself, of a folder on a note, or involving a missing note changes nothing; folder drops change only folders and note drops only notes |
| Store.NoteDropAppends | src/app/write/page.tsx:1019-1036 | a note dropped on a note of another group changes only itself, taking that group and its end-of-group order |
| Store.NoteDropReorders | src/app/write/page.tsx:1001-1018 | a note dropped on another note of its own group leaves the notes `Reorder.MoveWithinGroup` gives for that group, and nothing else changes |
| Store.NoteOnFolderAppends | src/app/write/page.tsx:1037-1057 | a note dropped on a folder row leaves the notes `Reorder.MoveToGroupEnd` gives for that folder, live or not, and nothing else changes |
| Store.FolderDrop | src/app/write/page.tsx:975-995 | no contract of its own: the folder-onto-folder branch; `Store.DragEnd`, the `Reorder.MoveFolder` lemmas and `Store.MoveFolderInv` characterise it |
| Store.NoteDrop | src/app/write/page.tsx:996-1036 | no contract of its own: the note-onto-note branch; `Store.NoteDropReorders`, `Store.NoteDropAppends` and `Store.DragNoteOnNoteInv` characterise it |
| Store.NoteOnFolderDrop | src/app/write/page.tsx:1037-1057 | no contract of its own: the note-onto-folder branch; `Store.NoteOnFolderAppends` and `Store.DragNoteOnFolderInv` characterise it |
| Store.AddNoteInv | src/app/write/page.tsx:753-767 | the new note's id is not a live id, and adding keeps the invariant |
| Store.SelectNote | src/app/write/page.tsx:769-772 | no contract of its own: selects the id and opens the note view; `Store.SelectNoteInv` and `Page.WritePage.HandleSelectNote` state it |
| Store.SetView | src/app/write/page.tsx:609 | no contract of its own: `setCurrentView`; `Store.SetViewInv` and `Page.WritePage.SetCurrentView` state it |
| Store.SelectNoteInv | src/app/write/page.tsx:769-772 | selecting a listed note keeps the invariant |
| Store.SetViewInv | src/app/write/page.tsx:609 | changing the view keeps the invariant |
| Store.ChangeNote | src/app/write/page.tsx:800-942 | no contract of its own: one note edit applied with `notes.map`; `Entities.EditNotes`, `Entities.EditNote` and `Store.ChangeNoteInv` characterise it |
| Store.ChangeNoteInv | src/app/write/page.tsx:800-950 | every note edit keeps the invariant when a move targets the root or a live folder |
| Store.DeleteNoteInv | src/app/write/page.tsx:832-853 | deleting a note keeps the invariant, so a live note stays selected and the list never becomes empty |
| Store.AddFolderInv | src/app/write/page.tsx:879-893 | the new folder's id is not a live id, and adding keeps the invariant |
| Store.ChangeFolder | src/app/write/page.tsx:895-966 | no contract of its own: one folder edit applied with `folders.map`; `Entities.EditFolders`, `Entities.EditFolder` and `Store.ChangeFolderInv` characterise it |
| Store.ChangeFolderInv | src/app/write/page.tsx:895-966 | every folder edit keeps the invariant |
| Store.DeleteFolderInv | src/app/write/page.tsx:919-926 | deleting a folder keeps the invariant: no note is left naming it |
| Store.MoveFolderInv | src/app/write/page.tsx:975-995 | a folder drop keeps the invariant |
| Store.MoveWithinGroupInv | src/app/write/page.tsx:1001-1018 | a drop within a group keeps the invariant |
| Store.MoveToGroupEndInv | src/app/write/page.tsx:1019-1057 | appending a note to the root or a live folder keeps the invariant |
| Store.DragNoteOnNoteInv | src/app/write/page.tsx:996-1036 | a note dropped on a note keeps the invariant, in the same group or another |
| Store.DragNoteOnFolderInv | src/app/write/page.tsx:1037-1057 | a note dropped on a live folder keeps the invariant |
| Store.DragEndInv | src/app/write/page.tsx:968-1060 | every drop keeps the invariant when notes are only dropped on live folders |
| Store.StepInv | src/app/write/page.tsx:753-1060 | every enabled handler call keeps the invariant and never moves a counter back |
| Store.RunInv | src/app/write/page.tsx:753-1060 | every run of enabled handler calls keeps the invariant: ids stay fresh and unique, folder references stay live, a note stays selected, the list of notes is never empty, and the counters only grow |
| Page.WritePage.constructor | src/app/write/page.tsx:603-609 | the page starts with no notes, no folders, no selection, both counters at 1, loading, on the home view |
| Page.WritePage.LoadData | src/app/write/page.tsx:698-740 | loading leaves the state `Store.Load` gives; from the first state the invariant then holds exactly for well-formed loaded data |
| Page.WritePage.HandleAddNote | src/app/write/page.tsx:753-767 | leaves the state `Store.AddNote` gives and keeps the invariant |
| Page.WritePage.HandleSelectNote | src/app/write/page.tsx:769-772 | selects the note, shows the note view, and keeps the invariant for a listed note |
| Page.WritePage.SetCurrentView | src/app/write/page.tsx:609 | changes only the view and keeps the invariant |
| Page.WritePage.HandleUpdateNoteContent | src/app/write/page.tsx:800-806 | sets the content of the note with that id only, keeping the invariant |
| Page.WritePage.HandleEditStart | src/app/write/page.tsx:808-814 | starts the rename of the note with that id, keeping the invariant |
| Page.WritePage.HandleEditSave | src/app/write/page.tsx:816-822 | commits the rename of the note with that id, keeping the invariant |
| Page.WritePage.HandleEditCancel | src/app/write/page.tsx:824-830 | cancels the rename of the note with that id, keeping the invariant |
| Page.WritePage.HandleEditValueChange | src/app/write/page.tsx:944-950 | sets the edit value of the note with that id, keeping the invariant |
| Page.WritePage.HandleIconChange | src/app/write/page.tsx:855-861 | sets the icon of the note with that id, keeping the invariant |
| Page.WritePage.HandleIconRemove | src/app/write/page.tsx:863-869 | removes the icon of the note with that id, keeping the invariant |
| Page.WritePage.HandleTitleChange | src/app/write/page.tsx:871-877 | sets the name of the note with that id, keeping the invariant |
| Page.WritePage.HandleMoveNoteToFolder | src/app/write/page.tsx:936-942 | sets the folder of the note with that id and nothing else, keeping the invariant for the root or a live folder |
| Page.WritePage.HandleDeleteNote | src/app/write/page.tsx:832-853 | the two successive note updates leave the state `Store.DeleteNote` gives and keep the invariant |
| Page.WritePage.HandleAddFolder | src/app/write/page.tsx:879-893 | leaves the state `Store.AddFolder` gives and keeps the invariant |
| Page.WritePage.HandleFolderEditStart | src/app/write/page.tsx:895-901 | starts the rename of the folder with that id, keeping the invariant |
| Page.WritePage.HandleFolderEditSave | src/app/write/page.tsx:903-909 | commits the rename of the folder with that id, keeping the invariant |
| Page.WritePage.HandleFolderEditCancel | src/app/write/page.tsx:911-917 | cancels the rename of the folder with that id, keeping the invariant |
| Page.WritePage.HandleFolderEditValueChange | src/app/write/page.tsx:952-958 | sets the edit value of the folder with that id, keeping the invariant |
| Page.WritePage.HandleToggleFolder | src/app/write/page.tsx:928-934 | flips the expansion of the folder with that id, keeping the invariant |
| Page.WritePage.HandleFolderColorChange | src/app/write/page.tsx:960-966 | sets the colour of the folder with that id, keeping the invariant |
| Page.WritePage.HandleDeleteFolder | src/app/write/page.tsx:919-926 | leaves the state `Store.DeleteFolder` gives and keeps the invariant |
| Page.WritePage.DropFolderOnFolder | src/app/write/page.tsx:975-995 | sorts the folder field in place, then replaces it with the renumbered `arrayMove` of that sorted field (`Reorder.MoveSorted`); the resulting state is `Store.FolderDrop` |
| Page.WritePage.ReorderGroup | src/app/write/page.tsx:1001-1018 | replaces the notes with the renumbered group and changes nothing else |
| Page.WritePage.AppendToGroup | src/app/write/page.tsx:1019-1034 | moves the note to the end of group `g` and changes nothing else |
| Page.WritePage.DropNoteOnNote | src/app/write/page.tsx:996-1036 | renumbers the shared group, or appends the note to the other note's group |
| Page.WritePage.DropNoteOnFolder | src/app/write/page.tsx:1037-1057 | appends the note to the folder's group |
| Page.WritePage.HandleDragEnd | src/app/write/page.tsx:968-1060 | leaves the state `Store.DragEnd` gives and keeps the invariant when notes are only dropped on live folders |

## Left out

- IndexedDB persistence (`initDB`, the save and load functions, src/app/write/page.tsx:83-167) and the save effect (742-751) are browser I/O and promises. The loaded lists are inputs of `LoadData`. That empty lists are never written back belongs to that I/O.
- The username and its `localStorage` writes (731-735, 774-798) are browser storage outside the store.
- The 300 ms debounce timer (648-654) is timing only. The debounced query is an input of `Search.FilteredNotes`.
- `toLowerCase` and `localeCompare` (658-678) depend on the locale and the Unicode tables. They are the fields of `Search.Locale`. The ordering lemmas ask only that `localeCompare` be a total preorder.
- `parseInt` of drag ids (974-999): the `folder-N` / `N` string encoding of dnd-kit ids is the datatype `Reorder.DragItem`. Ids that do not parse are not modelled.
- `NotePreview` and all BlockNote and JSON handling (628-646) belong to a third-party editor. Note content is an opaque string.
- The render-time `folders.sort` (1120, 1123) sorts the `folders` state in place during rendering, so between handlers the page's folder array is in order while the model's keeps the order of the last handler. That reordering is not modelled. Nothing proved depends on it: the menus' move target `folders[0].id` (320, 356) is a parameter that `Store.Enabled` only requires to be the root or a live folder.
- JSX, menus, dnd-kit sensors and collision detection are rendering. So are the components under src/components/ui and src/app/page.tsx. The one rule of notion-toolbar.tsx, an emptied title becoming "Untitled", is `Entities.ToolbarTitle`.
- Store.RunInv and Store.LoadInv: the model assumes `loadData` (698-740) finishes before any user event. The page does not disable its handlers while loading, so an event before the load can break the invariant. `Store.LoadAfterEarlyFolder` shows one such run: a folder added early keeps id 1 after a load that resets `nextFolderId` to 1. Id freshness is proved only for runs that start from a loaded state.
- JavaScript numbers are doubles. Ids and orders are unbounded integers here, so counter overflow past 2^53 is not modelled.
- Page.WritePage.HandleSelectNote: keeps the invariant only for ids of listed notes. The sidebar lists live notes only, and the handler itself accepts any id.
- Page.WritePage.HandleMoveNoteToFolder: keeps the invariant only for the root or a live folder target, which is what the menus offer (320, 356).
- Page.WritePage.HandleDragEnd: keeps the invariant only when notes are dropped on live folder rows. The handler never checks that the folder exists (1037-1057).

# espresso: the position-indexed note collection

espresso is a desktop note-taking application: a Go backend (a Wails `App`
object) holds a list of notes and saves it to a file, and a React front end
keeps its own copy of the list and a "selected note". A note is a title, a
body and a last-updated stamp, and has no identity of its own. It is known
only by its index in the list, and every operation, on either side, is
addressed by index.

This project models three layers in Dafny and proves what each promises:

- **notes.dfy, module `Notes`**: package `notes` (notes/model.go, notes/logic.go).
  A `Note` datatype. The four list edits (create, delete, update title,
  update content) are methods on a Go slice, modelled as a backing array plus
  a length (`Slice`). Delete shifts the tail down inside the shared array.
  The updates write into the caller's array. Create writes into spare
  capacity or copies into a larger array. Each method is tied to a pure
  function on sequences (`Appended`, `Removed`, `WithTitle`, `WithContent`).
  Those functions state the guards and the "only this entry changes"
  properties, and lemmas relate them to each other.
- **backend.dfy, module `Backend`**: app.go. A class `App` with the `Notes`
  slice field and a ghost log `Saved` of every list passed to the file
  store. Each RPC method replaces `Notes` with the logic result and then
  saves exactly once.
- **frontend.dfy, module `Frontend`**: the React component in
  frontend/src/App.jsx, as a class `App`. It holds the local `notes`, the
  selection state `selectedNoteIndex`, its ref `selectedNoteIndexRef` and the
  last focused input `activeInput`. A reference to the backend object stands
  for the generated bindings. The `filter` and `map` expressions of the
  handlers are functions, and lemmas prove they produce the backend's result
  for the same index. The class invariant `Valid()` states five things:
  - the backend object is itself valid;
  - the selection state and its ref agree;
  - the selection is none, an index into the list, or -1/-2 on an empty list;
  - before the list is first taken from the backend, the local list is empty
    and nothing is selected;
  - once loaded, the local list mirrors the backend's list. Mirroring means
    equal length, titles and contents. The two sides stamp notes with
    different clocks, so the stamps may differ.

Clocks are parameters: `now` is the browser's `new Date()`, and `serverNow`
is Go's `time.Now()`. The file store is represented only by the `Saved` log.

Notes have no ids; every operation is keyed by index. After a delete, when
the deleted index was the last one or past it, the selection becomes
`length-2`: the new last note if one remains, otherwise -1 or -2, which shows
no note. Any other delete leaves nothing selected.

## Model

| member | source | states |
|---|---|---|
| Notes.Appended | notes/logic.go:5-13 | the created list is one longer, keeps every earlier entry, and ends with a note holding the given title, body and stamp |
| Notes.Removed | notes/logic.go:15-21 | an index < 0 or >= len returns the list unchanged; a valid index yields a list one shorter whose k-th entry is the old k-th before the index and the old (k+1)-th from it on (survivors keep their order) |
| Notes.WithContent | notes/logic.go:23-32 | length unchanged, an out-of-range index changes nothing, every other entry unchanged, and the entry at the index keeps its title and gets the new content and stamp |
| Notes.WithTitle | notes/logic.go:34-43 | length unchanged, an out-of-range index changes nothing, every other entry unchanged, and the entry at the index keeps its content and gets the new title and stamp |
| Notes.DeleteUndoesCreate | notes/logic.go:5-21 | deleting the index of the note just created gives back the original list |
| Notes.RemovedIsPermutationMinusOne | notes/logic.go:20 | for a valid index, the survivors plus the deleted note are the old list as a multiset |
| Notes.TitleLastWriteWins | notes/logic.go:34-43 | two title edits of one index equal the second edit alone |
| Notes.TitleAndContentEditsCommute | notes/logic.go:23-43 | a title edit and a content edit of one index give the same list in either order when the earlier and the later edit carry the same stamps; the note ends with both new texts and the later stamp |
| Notes.GrownCapacity | notes/logic.go:12 | the capacity append chooses for a full slice exceeds the old capacity |
| Notes.CreateNote | notes/logic.go:5-13 | the returned slice shows Appended(old list); with spare capacity it shares the backing array and only the slot after the old end is written, otherwise it is a fresh larger array and the old one is untouched |
| Notes.DeleteNote | notes/logic.go:15-21 | the returned slice shares the backing array and shows Removed(old list, index); out of range it is the same slice with nothing written; in range the caller's old slice now reads the survivors followed by a second copy of the old last note |
| Notes.UpdateNoteContent | notes/logic.go:23-32 | returns the same slice, whose elements are now WithContent(old list, index, body, now); nothing beyond its length is written |
| Notes.UpdateNoteTitle | notes/logic.go:34-43 | returns the same slice, whose elements are now WithTitle(old list, index, title, now); nothing beyond its length is written |
| Backend.App.constructor | app.go:15-19 | NewApp starts with an allocated, empty Notes slice and no saves |
| Backend.App.Startup | app.go:23-26 | the loaded slice becomes Notes; nothing is saved |
| Backend.App.CreateNote | app.go:29-32 | Notes becomes Appended(old Notes, title, content, now), in the same backing array when it had spare capacity and in a freshly allocated one otherwise, and exactly that new list is saved once |
| Backend.App.DeleteNote | app.go:34-37 | Notes becomes Removed(old Notes, index), unchanged out of range, with the same backing array, and exactly that list is saved once |
| Backend.App.UpdateNoteTitle | app.go:38-41 | Notes becomes WithTitle(old Notes, index, title, now), so its length never changes, and exactly that list is saved once |
| Backend.App.UpdateNoteContent | app.go:43-46 | Notes becomes WithContent(old Notes, index, content, now), so its length never changes, and exactly that list is saved once |
| Backend.App.GetNotes | app.go:48-50 | returns a slice over the App's own backing array showing the current notes; changes nothing |
| Frontend.FilterIndex | frontend/src/App.jsx:136-138 | the filter drops one note exactly when the index is inside the list and keeps the rest, and it never adds a note (its multiset is contained in the old one's) |
| Frontend.MapTitle | frontend/src/App.jsx:302-310 | the title map keeps the length and every other entry; at an index inside the list only the title and the stamp change |
| Frontend.MapContent | frontend/src/App.jsx:331-339 | the content map keeps the length and every other entry; at an index inside the list only the content and the stamp change |
| Frontend.WithEmoji | frontend/src/App.jsx:168-180 | the text an emoji click writes is the focused field's old value followed by the emoji |
| Frontend.ReselectAfterDelete | frontend/src/App.jsx:140-144 | deleting at or past the end of two or more notes selects the last index of the shorter list; at or past the end of at most one note the selection is a negative index; deleting before the last note selects nothing |
| Frontend.FilterIndexIsRemoved | frontend/src/App.jsx:136-138 | the local filter on the selected index equals the backend's DeleteNote result for every index, in range or not |
| Frontend.MapTitleIsUpdateTitle | frontend/src/App.jsx:302-310 | the title onChange map equals the backend's UpdateNoteTitle result for the same index and stamp |
| Frontend.MapContentIsUpdateContent | frontend/src/App.jsx:331-339 | the content onChange map equals the backend's UpdateNoteContent result for the same index and stamp |
| Frontend.EmojiUpdateAsWritten | frontend/src/App.jsx:166-188 | as written, the emoji updater throws exactly when the index is outside the list; otherwise it appends the emoji to the focused field of that note only, as the backend update would |
| Frontend.EmojiUpdate | frontend/src/App.jsx:160-188 | with the guard: an index outside the list changes nothing; inside it, the result is the backend's title or content update of that index with the old text followed by the emoji |
| Frontend.SelectedOf | frontend/src/App.jsx:192 | notes[selected] or null: a note is shown exactly when the selection is an index inside the list, and it is the note at that index |
| Frontend.DeleteReselects | frontend/src/App.jsx:140-144 | after deleting, the selection keeps its shape; deleting the last of two or more notes selects the new last note; deleting the only note gives -1; every other delete shows no note |
| Frontend.EmojiAfterDeletingOnlyNoteThrows | frontend/src/App.jsx:140-168 | deleting the only note leaves selection -1 and an empty list, on which the emoji updater as written throws |
| Frontend.MirrorsAfterDelete | frontend/src/App.jsx:134-138 | deleting the same index locally (filter) and on the backend keeps the two lists mirrored |
| Frontend.MirrorsAfterEdit | frontend/src/App.jsx:300-340 | the same title or content edit of the same index on both sides keeps them mirrored, whatever the two clocks say |
| Frontend.App.constructor | frontend/src/App.jsx:17-20 | the first render has no notes, no selection and no focused input |
| Frontend.App.UpdateSelectedNoteIndex | frontend/src/App.jsx:104-107 | the selection state and its ref both get the index, and nothing else changes |
| Frontend.App.FetchNotes | frontend/src/App.jsx:88-102 | the local list becomes the backend's list, unchanged on the backend; the selection becomes 0 when that list is non-empty, otherwise stays none |
| Frontend.App.HandleCreate | frontend/src/App.jsx:109-114 | the backend gains one empty note at the end; the local list is the reloaded backend list; the selection is its last index, which shows the new empty note; the backend's backing array is the old one or a fresh one; the backend saves exactly once, the new list |
| Frontend.App.HandleDeleteNote | frontend/src/App.jsx:134-147 | both sides drop the selected index: locally filter, which equals Removed, and on the backend Removed. The selection follows ReselectAfterDelete, the invariant holds again, the backend keeps its backing array, and the backend saves exactly once, the new list |
| Frontend.App.HandleDeleteClick | frontend/src/App.jsx:149-153 | the clicked note becomes the selected, shown note |
| Frontend.App.Select | frontend/src/App.jsx:223-246 | a list-item click selects that index, a sidebar-title click selects nothing |
| Frontend.App.OnFocus | frontend/src/App.jsx:297-299 | the focused input becomes the active one |
| Frontend.App.OnTitleChange | frontend/src/App.jsx:300-312 | locally only the selected note's title and stamp change, which equals WithTitle; the backend gets WithTitle on the same index in its same backing array and saves exactly once; the selection is kept and the two sides stay mirrored |
| Frontend.App.OnContentChange | frontend/src/App.jsx:329-341 | locally only the selected note's content and stamp change, which equals WithContent; the backend gets WithContent on the same index in its same backing array and saves exactly once; the selection is kept and the two sides stay mirrored |
| Frontend.App.HandleEmojiClick | frontend/src/App.jsx:155-190 | no selection or no focused input: nothing changes, and nothing is sent or saved. A selected index inside the list and a focused input: the local list becomes EmojiUpdate of that index, and the backend gets the same field update with the same text and saves exactly once. A selected index outside the list (such as -1 after deleting the only note): nothing changes on either side and nothing is sent or saved. In every case the backend keeps its backing array, the selection is kept and the two sides stay mirrored |

## Left out

- File persistence: LoadNotesFromFile and SaveNotesToFile are not part of this model. Saving is recorded as the ghost log `Saved`, and the loaded list is an input of `Startup`.
- Clocks: `time.Now()` and `new Date().toISOString()` are parameters (`serverNow`, `now`). The stamp's JSON/ISO text form is not modelled.
- The Wails bridge: each backend call is modelled as a synchronous method call. `GetNotes` on the front end takes a copy of the elements, as JSON transport would. Promise scheduling, `async`/`await` and the `context.Context` of app.go are not modelled.
- Frontend.App.FetchNotes: it is modelled as finishing before any user event. The source tests the selection captured at mount (always null), so a create that lands before the initial fetch resolves is not modelled.
- Frontend.App.HandleDeleteNote: it requires a selection. The confirmation modal that calls it opens only after handleDeleteClick sets one or the keyboard shortcut checks for one. Modal visibility itself is not modelled.
- Frontend.App.HandleEmojiClick: it follows the corrected guard, which ignores an index outside the list, rather than throwing as the code does (see Findings).
- Notes.GrownCapacity: it follows the doubling-then-quarter growth of Go's runtime but not its rounding to allocator size classes. No property depends on the exact capacity.
- Integer widths: indices are unbounded integers. Go's 64-bit `int` and the conversion of a JavaScript number to it are not modelled.
- React rendering details: batching of state updates and StrictMode's double call of updaters are not modelled.
- UI plumbing outside the collection: sidebar resizing, keyboard-shortcut wiring, the emoji picker widget, JSX rendering and `formatTime` (date parsing and locale formatting).

## Findings

| source | as written | input that shows it | evidently intended | confidence | as-written member | corrected member |
|---|---|---|---|---|---|---|
| frontend/src/App.jsx:140-168 | handleEmojiClick proceeds whenever the ref is not null and some input once had focus, then reads `newNotes[currentNoteIndex].title` | notes `[n]`, note 0 selected, title focused; delete it (selection becomes -1, list empty); click an emoji: `newNotes[-1]` is undefined and reading `.title` throws a TypeError | "only proceed if we have a selected note": an index outside the list is no selected note, so nothing should happen | high (not executed) | Frontend.EmojiUpdateAsWritten, Frontend.EmojiAfterDeletingOnlyNoteThrows | Frontend.EmojiUpdate, Frontend.App.HandleEmojiClick |

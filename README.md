# Notes app: a Dafny model of the note store and its handlers

The application keeps one signed-in user's notes as an ordered list held in
memory. Every change is handed to a per-user document store as a whole list
and then re-rendered as note blocks. This project models that core:

- **`Notes`**: the note record, and the reference definitions of editing
  (`Edited`: every note with the id gets the new text) and deleting
  (`Deleted`: the notes with other ids, in order). It also holds lemmas about
  order, idempotence, uniqueness of ids and how the operations combine.
- **`NotesApp.App`**: the application object. Its fields are `notes`, `views`
  (the rendered blocks) and `writes` (every list handed to the store, oldest
  first). Its methods change these fields in place, as `addNote`, `editNote`,
  `deleteNote`, `fetchNotes`, `render` and the three click handlers do. The
  invariant `Valid` says the blocks show the notes one for one.
- **`NoteViews`**: one rendered block, reduced to what the handlers read or
  change: the hidden id marker, the paragraph's `contenteditable` attribute
  and text, the pencil and check icons' display, the separator and the
  "Updated:" label. It also holds the pencil and check handlers as functions
  on a block.
- **`DateFormat`**: `FormatDate`, the `D/M/YYYY H:M:S` label, with no zero
  padding and the month shifted by one. It comes with a parser (`ParseDate`)
  and a round-trip proof (`ParseFormatDate`) that the label loses none of the
  fields it prints.
- **`Controls`**: showing and hiding form controls through their CSS class
  sets. Each is an in-place loop whose result is tied to a function on class
  sets.

The clock is read twice when a note is added, once for its id and once for
its timestamp. The two readings are the parameters `idNow` and `updatedNow` of
`AddNote`, and nothing relates them. The host's
decomposition of a timestamp into calendar fields (`new Date(ms)` and its
getters) is the constant `App.calendar`. The outcome of reading the store is
the `FetchResult` argument of `FetchNotes`.

Three behaviours of the code that the model keeps as written:

- `fetchNotes` with no stored document writes an empty list but leaves the
  notes in memory as they were.
- `editNote` does not refresh the `updated` timestamp.
- `confirmNoteEdit` saves and renders twice, once inside `editNote` and once
  after it, so `writes` grows by two.

`NotesApp.Walkthrough` is a scenario that uses only the contracts. On a fresh
application it adds a note with empty text (nothing happens), adds a note,
edits it through its block's pencil and check, and deletes it through its
trash icon. Asserts along the way fix each intermediate list.

## Model

| member | source | states |
|---|---|---|
| Notes.Edited | index.js:103-109 | same length; every note keeps its id, title and timestamp; a note takes the new text exactly when its id matches, and otherwise keeps its own |
| Notes.Deleted | index.js:114 | the result is no longer than the list, and no remaining note has the deleted id |
| Notes.DeletedConcat | index.js:114 | deleting distributes over concatenation, so the survivors keep their relative order |
| Notes.DeletedAbsent | index.js:114 | deleting an id no note has leaves the list unchanged |
| Notes.DeletedMembers | index.js:114 | a note survives exactly when it was in the list and its id differs |
| Notes.DeletedIdempotent | index.js:113-116 | deleting the same id twice is deleting it once |
| Notes.DeletedAt | index.js:114 | with unique ids, deleting note k's id removes exactly note k |
| Notes.DeletedLength | index.js:114 | with unique ids, the list shrinks by one when the id is present and not at all otherwise |
| Notes.DeletedUnique | index.js:114 | deleting keeps ids unique |
| Notes.RemovedUnique | index.js:114 | removing one note from a list with unique ids leaves the ids unique |
| Notes.EditedAbsent | index.js:103-109 | editing an id no note has leaves the list unchanged |
| Notes.EditedAt | index.js:103-109 | with unique ids, editing note k's id rewrites only note k's text |
| Notes.EditedUnique | index.js:103-109 | the edited list has unique ids if and only if the original has |
| Notes.EditedTwice | index.js:102-111 | of two edits to the same id, the last one wins |
| Notes.DeletedAfterEdited | index.js:102-116 | deleting an id erases any earlier edit to it |
| Notes.AddedUnique | index.js:96-97 | appending a note whose id no note in the list carries keeps ids unique |
| Notes.DeletedAfterAdded | index.js:96-97 | deleting the id of a freshly appended note, when no earlier note has that id, restores the list |
| Controls.Control.constructor | index.js:144-156 | a control starts with the class set given |
| Controls.Shown | index.js:146-147 | after showing, `show` is present and `hide` absent, and every other class is present exactly when it was before |
| Controls.Hidden | index.js:153-154 | after hiding, `hide` is present and `show` absent, and every other class is present exactly when it was before |
| Controls.ShowControls | index.js:144-149 | every control passed, even one passed twice, ends with the class set `Shown` gives for its old class set |
| Controls.HideControls | index.js:151-156 | every control passed, even one passed twice, ends with the class set `Hidden` gives for its old class set |
| Controls.ShownIdempotent | index.js:146-147 | showing twice is showing once |
| Controls.HiddenIdempotent | index.js:153-154 | hiding twice is hiding once |
| Controls.ShownFixed | index.js:146-147 | showing changes nothing exactly when `show` is present and `hide` absent |
| Controls.ShowHideCancel | index.js:144-156 | hiding after showing is hiding, and showing after hiding is showing |
| DateFormat.NatToString | index.js:246-251 | non-empty and all digits; one character exactly for values below ten (no padding); no leading zero |
| DateFormat.IntToString | index.js:248 | non-empty; starts with a minus sign exactly for negative years |
| DateFormat.ParseNatToString | index.js:246-251 | reading a printed number back gives that number |
| DateFormat.ParseIntToString | index.js:248 | reading a printed year back gives that year |
| DateFormat.SplitAllJoinAll | index.js:246-251 | splitting a join by its separators gives the fields back, as long as no field contains the separator just before it |
| DateFormat.FormatDateJoins | index.js:246-251 | the label is the six numerals joined by `/`, `/`, space, `:`, `:` |
| DateFormat.ParseFormatDate | index.js:246-251 | parsing the label gives back day, 0-based month, year, hours, minutes and seconds |
| DateFormat.FormatDateInjective | index.js:246-251 | distinct calendar fields give distinct labels |
| DateFormat.FormatDateExample | index.js:246-251 | day 5 of the 0-based month 0 of 2024 at 9:03:07 prints as `5/1/2024 9:3:7` |
| NoteViews.RenderNote | index.js:245-267 | the block is at rest (not editable, pencil shown, check hidden), carries the note's id, title and text, has a separator exactly when it is not first, and has a label that parses back to the note's calendar fields |
| NoteViews.Rendered | index.js:242-269 | one block per note, in order, each showing its note, at rest and holding its note's text |
| NoteViews.StartEdit | index.js:207-212 | the block still shows the same note; the pencil is hidden and the check shown; a missing, empty or "false" attribute becomes "true" and any other is kept, so a block at rest enters edit mode |
| NoteViews.FinishEdit | index.js:219-225 | the block still shows the same note; the check is hidden and the pencil shown; any non-empty attribute becomes "false", so the block is at rest again, and a missing or empty one is kept |
| NoteViews.EditCycle | index.js:203-225 | pencil then check takes a block at rest through edit mode back to rest, showing the same note |
| NoteViews.StartEditIdempotent | index.js:207-212 | clicking the pencil of a block already in edit mode changes nothing |
| NotesApp.App.constructor | index.js:11-38 | a new application has no notes, no blocks and no writes, and is valid |
| NotesApp.App.SaveNotes | index.js:158-170 | the current list is appended to the writes |
| NotesApp.App.DisplayNotes | index.js:242-269 | the blocks become the rendering of the current list |
| NotesApp.App.Render | index.js:198-201 | one write of the current list, the blocks re-rendered, the list itself untouched |
| NotesApp.App.AddNote | index.js:91-100 | empty text changes nothing at all; other text keeps the old notes as a prefix and adds one last note with the first clock reading as id, the given title and text, and the second reading as timestamp, then writes the list once and re-renders |
| NotesApp.App.EditNote | index.js:102-111 | the list becomes `Edited` of the old list (edited in place, one note at a time), is written once and re-rendered |
| NotesApp.App.DeleteNote | index.js:113-116 | the list becomes `Deleted` of the old list, is written once and re-rendered |
| NotesApp.App.FetchNotes | index.js:172-196 | a stored list replaces the notes and is rendered with nothing written; a missing document gets an empty list written while the notes and blocks stay; a failed read changes nothing |
| NotesApp.App.EditNoteEvent | index.js:203-213 | only block k changes, to `StartEdit` of itself, and the application stays valid |
| NotesApp.App.TypeInto | index.js:226 | while block k is editable, typing replaces its paragraph text and nothing else |
| NotesApp.App.ConfirmNoteEdit | index.js:215-228 | the list becomes `Edited` by block k's id and paragraph text (with unique ids, exactly note k takes that text); the list is written twice and the blocks are re-rendered |
| NotesApp.App.DeleteNoteEvent | index.js:230-235 | the list becomes `Deleted` by block k's id (with unique ids, exactly note k goes); the list is written twice and the blocks are re-rendered |
| NotesApp.EditThroughBlock | index.js:220-226 | because block k carries note k's id, with unique ids confirming block k edits exactly note k |
| NotesApp.DeleteThroughBlock | index.js:232-233 | because block k carries note k's id, with unique ids deleting through block k removes exactly note k |

## Left out

- Sign-in, sign-out and the redirects between the sign-in page and the application are not modelled (`handleAuth`, `handleLogout`, `redirectToApp`, `redirectToAuth`). They are calls into the authentication service.
- The document store is not modelled: its promises, their asynchrony and the failure logging. A write is recorded as the list handed over, and the result of a read is an argument.
- The HTML text of the rendered list is not modelled: markup and `innerHTML` parsing, and the lack of escaping of titles and texts. A block is reduced to the fields the handlers read.
- `new Date(ms)` and its local-time getters are the `calendar` parameter, because time zones are the host's. Invalid dates are not modelled: a timestamp outside the `Date` range, or a stored note with no `updated`, prints `NaN` fields, and `Date.now()` never yields such a value.
- Ids are integers. The source compares a numeric id with the string read from the hidden span, using loose equality. The model takes that comparison as integer equality, which holds for the digit strings the template writes.
- The note objects are aliased between the list and the store, and `editNote` mutates them in place. The model works on values.
- The `title` argument of `editNote` is ignored by the source, and so it is not a parameter of `EditNote`.
- The localStorage lines commented out in the constructor and in `saveNotes`, the unused `Note` class and the console logging are not modelled.
- `expandForm`, `collapseForm` and the submit handler only set placeholder text and form values, and wire `addNote` to `ShowControls`/`HideControls`. The model keeps the operations they call, not the event wiring.
- NotesApp.App.AddNote: the source does not keep ids unique, since two notes added in the same millisecond share an id. The model therefore has no uniqueness invariant, and states the unique-id consequences as lemmas with `UniqueIds` among their premises (AddedUnique, DeletedAt, EditedAt).

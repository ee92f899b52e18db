# Notas: the three screen state holders, modelled and proved in Dafny

Notas is an Android notes-and-tasks app. A row of its `notes` table is either
a plain note (`idTipo` 1) or a task (`idTipo` 2, with an optional due date,
time and status). A row of its `multimedia` table is an image attached to a
note. This project models the app's three view-models:

- `MainViewModel` (module `MainList`) holds the list screen's query and type
  selector. It combines them with the stored notes into the visible list: the
  type filter first, then a search on the trimmed query, case-insensitive, in
  the title or the description.
- `EditNoteViewModel` (module `EditNote`) holds the edit form.
  - It fills the form from a stored note.
  - It checks the form's validity and builds the note it saves.
  - Its save updates the note and attaches the new images.
- `AddNoteViewModel` (module `AddNote`) holds the add form.
  - It checks validity.
  - Its save inserts the note, then attaches the images to the key the insert
    returned.

Supporting modules model what those view-models call:

- `Data`: the entities `Note` and `Multimedia`, with their constructor
  defaults, and Kotlin's `Long.toInt()`.
- `Text`: the Kotlin string functions used, written out:
  - `trim` and `isBlank` over JVM `Char.isWhitespace`;
  - `ifBlank`;
  - `contains(ignoreCase = true)`.
- `Seqs`: `filter` on lists and its laws.
- `Store`: the repository and its two Room tables, kept in memory.
  - Auto-increment keys.
  - Insert with `REPLACE`.
  - `@Update`, which does nothing when no row matches.
  - `@Delete`, which cascades to the note's attachments.
  - The foreign key of `multimedia.notaId`, which rejects an attachment whose
    note is not stored.

The form fields the views mutate become fields of Dafny classes, and each save
becomes a method with a `while` loop over the uris. Each method's
postcondition is stated against the pure functions (`FilterNotes`,
`BuildNote`, `NoteToSave`, `ImageRows`, `ReplaceNote`, ...). Lemmas about those
functions prove the properties the screens rely on.

## Model

| member | source | states |
|---|---|---|
| Data.LongToInt | app/src/main/java/com/example/notas/viewmodel/AddNoteViewModel.kt:106 | `newNoteId.toInt()`: the result is a 32-bit `Int` congruent to its argument modulo 2^32 |
| Data.LongToIntInRange | app/src/main/java/com/example/notas/viewmodel/AddNoteViewModel.kt:98-106 | a key that fits in an `Int` is passed on unchanged as `notaId` |
| Data.LongToIntWraps | app/src/main/java/com/example/notas/viewmodel/AddNoteViewModel.kt:106 | every key in the 2^32 values past `Int.MAX_VALUE` comes out 2^32 lower, and negative up to 2^32 - 1 |
| Text.IsWhitespace | app/src/main/java/com/example/notas/viewmodel/MainViewModel.kt:44-45 | defines the JVM `Char.isWhitespace` set; no contract of its own, its properties are `Text.LowercaseKeepsWhitespace` and the trim lemmas |
| Text.IsBlank | app/src/main/java/com/example/notas/viewmodel/MainViewModel.kt:45 | `isBlank` holds exactly when the string has no non-whitespace character, so in particular on the empty string |
| Text.IfBlank | app/src/main/java/com/example/notas/viewmodel/EditNoteViewModel.kt:99 | `ifBlank { d }` is `d` on a blank string and the string itself otherwise |
| Text.NullIfBlank | app/src/main/java/com/example/notas/viewmodel/EditNoteViewModel.kt:105-106 | `ifBlank { null }` is absent exactly when the string is blank, and otherwise holds the string |
| Text.TrimStart | app/src/main/java/com/example/notas/viewmodel/MainViewModel.kt:44 | the result is a suffix of the input, only whitespace was dropped, and it does not start with whitespace |
| Text.TrimEnd | app/src/main/java/com/example/notas/viewmodel/MainViewModel.kt:44 | the result is a prefix of the input, only whitespace was dropped, and it does not end with whitespace |
| Text.Trim | app/src/main/java/com/example/notas/viewmodel/MainViewModel.kt:44 | `trim()`, as `TrimStart` then `TrimEnd`; its contract gives only the length bound and the non-whitespace ends, and what it keeps and drops is proved in `Text.TrimIsSlice` and `Text.TrimUnique` |
| Text.TrimIsSlice | app/src/main/java/com/example/notas/viewmodel/MainViewModel.kt:44 | `trim()` returns the slice of its input at some offset that has no whitespace at either end, and everything before and after that slice is whitespace |
| Text.TrimUnique | app/src/main/java/com/example/notas/viewmodel/MainViewModel.kt:44 | any slice with those properties is the trimmed string, so they characterise `trim()` completely |
| Text.TrimIdempotent | app/src/main/java/com/example/notas/viewmodel/MainViewModel.kt:44 | trimming twice is trimming once |
| Text.BlankTrimsEmpty | app/src/main/java/com/example/notas/viewmodel/MainViewModel.kt:44-45 | a blank query trims to the empty string |
| Text.VisibleSurvivesTrim | app/src/main/java/com/example/notas/viewmodel/MainViewModel.kt:44-45 | a query with a visible character does not trim to empty |
| Text.BlankIffTrimEmpty | app/src/main/java/com/example/notas/viewmodel/MainViewModel.kt:44-45 | a string is blank exactly when it trims to empty, and exactly when it has no non-whitespace character |
| Text.TrimmedBlankIffBlank | app/src/main/java/com/example/notas/viewmodel/MainViewModel.kt:44-45 | the trimmed query is blank exactly when the query is |
| Text.UppercaseChar | app/src/main/java/com/example/notas/viewmodel/MainViewModel.kt:49-50 | `uppercaseChar` on ASCII: a lower-case letter maps to its capital, every other character to itself |
| Text.LowercaseChar | app/src/main/java/com/example/notas/viewmodel/MainViewModel.kt:49-50 | `lowercaseChar` on ASCII: a capital maps to its lower-case letter, every other character to itself |
| Text.Lowered | app/src/main/java/com/example/notas/viewmodel/MainViewModel.kt:49-50 | the lowered text has the same length, each character lowered in place |
| Text.CharEqualsIgnoreCase | app/src/main/java/com/example/notas/viewmodel/MainViewModel.kt:49-50 | the three-way `Char.equals(ignoreCase = true)` test holds exactly when both characters have the same lower case |
| Text.RegionMatchesIffOccurs | app/src/main/java/com/example/notas/viewmodel/MainViewModel.kt:49-50 | the query matches at position i ignoring case exactly when its lower case occurs there in the lowered text |
| Text.RegionMatchesIgnoreCase | app/src/main/java/com/example/notas/viewmodel/MainViewModel.kt:49-50 | defines the match at one offset, ignoring case; its meaning is proved in `Text.RegionMatchesIffOccurs` |
| Text.ContainsIgnoreCase | app/src/main/java/com/example/notas/viewmodel/MainViewModel.kt:49-50 | defines `contains(ignoreCase = true)`; its reference definition is proved in `Text.ContainsIgnoreCaseIffInfix` |
| Text.ContainsIgnoreCaseIffInfix | app/src/main/java/com/example/notas/viewmodel/MainViewModel.kt:49-50 | `contains(q, ignoreCase = true)` holds exactly when the lowered query is an infix of the lowered text |
| Text.LowercaseKeepsWhitespace | app/src/main/java/com/example/notas/viewmodel/MainViewModel.kt:44-50 | lower-casing a character does not change whether it is whitespace |
| Text.TrimStartLowered | app/src/main/java/com/example/notas/viewmodel/MainViewModel.kt:44 | dropping leading whitespace commutes with lower-casing |
| Text.TrimEndLowered | app/src/main/java/com/example/notas/viewmodel/MainViewModel.kt:44 | dropping trailing whitespace commutes with lower-casing |
| Text.TrimLowered | app/src/main/java/com/example/notas/viewmodel/MainViewModel.kt:44-45 | trimming commutes with lower-casing, and lower-casing keeps blankness |
| Text.LoweredIdempotent | app/src/main/java/com/example/notas/viewmodel/MainViewModel.kt:49-50 | lower-casing twice is lower-casing once |
| Text.ContainsLoweredQuery | app/src/main/java/com/example/notas/viewmodel/MainViewModel.kt:49-50 | a lower-cased query is contained, ignoring case, exactly where the query is |
| Seqs.Filter | app/src/main/java/com/example/notas/viewmodel/MainViewModel.kt:38-39 | `filter` is never longer than its input, every element it returns is from the input and satisfies the predicate, and every input element that satisfies it is returned; multiplicity is proved in `Seqs.FilterMultiset` |
| Seqs.FilterMultiset | app/src/main/java/com/example/notas/viewmodel/MainViewModel.kt:38-39 | `filter` keeps every occurrence: an element satisfying the predicate occurs in the result as often as in the input, any other element not at all |
| Seqs.FilterIsSubsequence | app/src/main/java/com/example/notas/viewmodel/MainViewModel.kt:38-51 | a filtered list is an order-preserving subsequence of its input |
| Seqs.SubsequenceMultiset | app/src/main/java/com/example/notas/viewmodel/MainViewModel.kt:38-51 | a subsequence adds and repeats no element |
| Seqs.FilterKeepsAll | app/src/main/java/com/example/notas/viewmodel/MainViewModel.kt:40 | a predicate true on every element filters nothing out |
| Seqs.FilterCongruent | app/src/main/java/com/example/notas/viewmodel/MainViewModel.kt:38-51 | predicates that agree on the elements filter alike |
| Seqs.FilterFilter | app/src/main/java/com/example/notas/viewmodel/MainViewModel.kt:37-51 | two filters in a row are one filter by the conjunction |
| Seqs.FilterCommutes | app/src/main/java/com/example/notas/viewmodel/MainViewModel.kt:37-51 | two filters may be applied in either order |
| Seqs.FilterKeepsKeysDistinct | app/src/main/java/com/example/notas/data/NoteDao.kt:18-19 | filtering a table with distinct keys keeps the keys distinct |
| Store.NoteIds | app/src/main/java/com/example/notas/data/Note.kt:8 | the set of stored keys holds exactly the keys of the stored rows |
| Store.NoteIdsAppend | app/src/main/java/com/example/notas/data/NoteDao.kt:12-13 | appending a row adds its key to the key set |
| Store.KeyLeftAfterDelete | app/src/main/java/com/example/notas/data/NoteDao.kt:18-19 | after deleting `id`, a key is stored exactly when it was stored before and is not `id` |
| Store.WithoutNote | app/src/main/java/com/example/notas/data/NoteDao.kt:18-19 | `@Delete` removes exactly the deleted key from the key set, and every other row stays as it was |
| Store.WithoutMedia | app/src/main/java/com/example/notas/data/MultimediaDao.kt:8-9 | the attachment rows a `REPLACE` with an explicit key keeps: every row with another key, unchanged, and no row with that key |
| Store.DetachMedia | app/src/main/java/com/example/notas/data/Multimedia.kt:9-16 | the cascade drops exactly the attachments of the deleted note and keeps the rest |
| Store.ReplaceNote | app/src/main/java/com/example/notas/data/NoteDao.kt:15-16 | `@Update` overwrites the rows with the note's key and leaves the others, keeping the length and the keys |
| Store.DeleteMissingIsNoop | app/src/main/java/com/example/notas/data/NoteDao.kt:18-19 | deleting a key nobody has changes neither table |
| Store.ReplaceKeepsIds | app/src/main/java/com/example/notas/data/NoteDao.kt:15-16 | an update keeps the set of keys |
| Store.ReplaceMissingIsNoop | app/src/main/java/com/example/notas/data/NoteDao.kt:15-16 | an update of a key that is not stored changes nothing |
| Store.ReplaceStores | app/src/main/java/com/example/notas/data/NoteDao.kt:15-16 | after an update of a stored key, that key holds exactly the new row |
| Store.Consistent | app/src/main/java/com/example/notas/data/Note.kt:8 | the table invariants that `Note.kt:8` and `Multimedia.kt:9-16` impose: positive AUTOINCREMENT counters; distinct, non-zero note and attachment keys below their counters; every attachment pointing at a stored note. No contract of its own: it is the invariant every `*KeepsConsistent` lemma and `Store.NoteStore.Valid` preserve |
| Store.AppendKeepsConsistent | app/src/main/java/com/example/notas/data/NoteDao.kt:12-13 | inserting a row with a new non-zero key keeps the table invariants, raising the counter past an explicit key |
| Store.InsertFreshKeepsConsistent | app/src/main/java/com/example/notas/data/Note.kt:8 | an auto-generated key is not yet stored, and inserting with it keeps the invariants |
| Store.InsertReplacingKeepsConsistent | app/src/main/java/com/example/notas/data/NoteDao.kt:12-13 | `REPLACE` with an explicit key (delete with cascade, then insert) keeps the invariants |
| Store.DeleteKeepsConsistent | app/src/main/java/com/example/notas/data/Multimedia.kt:9-16 | a delete with its cascade keeps the invariants, every attachment still pointing at a stored note |
| Store.AppendMediaKeepsConsistent | app/src/main/java/com/example/notas/data/Multimedia.kt:8-19 | appending an attachment of a stored note under a new non-zero key keeps the invariants |
| Store.InsertFreshMediaKeepsConsistent | app/src/main/java/com/example/notas/data/MultimediaDao.kt:8-9 | an attachment of a stored note inserted with an auto-generated key keeps the invariants |
| Store.InsertReplacingMediaKeepsConsistent | app/src/main/java/com/example/notas/data/MultimediaDao.kt:8-9 | `REPLACE` of an attachment with an explicit key keeps the invariants |
| Store.ImageRows | app/src/main/java/com/example/notas/viewmodel/EditNoteViewModel.kt:125-133 | row k of a run of image inserts is the k-th uri, linked to the note, typed "IMAGEN", keyed `firstId + k` |
| Store.ImageRowsExtend | app/src/main/java/com/example/notas/viewmodel/EditNoteViewModel.kt:125-133 | one more insert extends the run by exactly its row |
| Store.NoteStore.constructor | app/src/main/java/com/example/notas/data/NoteDatabase.kt:7-8 | a new database has empty tables and both counters at 1 |
| Store.NoteStore.Insert | app/src/main/java/com/example/notas/data/NoteDao.kt:12-13 | key 0 gets the next fresh key, which is returned and appended; any other key replaces its row and its attachments go |
| Store.NoteStore.Update | app/src/main/java/com/example/notas/data/OfflineNoteRepository.kt:14 | the notes become `ReplaceNote` of the old ones; attachments and counters stay |
| Store.NoteStore.Delete | app/src/main/java/com/example/notas/data/OfflineNoteRepository.kt:15 | the note's row and all its attachments are removed; counters stay |
| Store.NoteStore.InsertMultimedia | app/src/main/java/com/example/notas/data/MultimediaDao.kt:8-9 | accepted exactly when the note is stored; a rejection changes nothing; key 0 gets a fresh key |
| MainList.FilterByType | app/src/main/java/com/example/notas/viewmodel/MainViewModel.kt:37-41 | the `when (filterId)` step keeps exactly the stored notes that `TypeSelected` lets through |
| MainList.MatchesQuery | app/src/main/java/com/example/notas/viewmodel/MainViewModel.kt:49-50 | the search lambda: the title or the description contains the query, ignoring case; no contract of its own, its meaning over lowered strings follows from `Text.ContainsIgnoreCaseIffInfix` |
| MainList.FilterByText | app/src/main/java/com/example/notas/viewmodel/MainViewModel.kt:44-52 | the search step keeps exactly the notes that `TextSelected` lets through for the trimmed query |
| MainList.FilterNotes | app/src/main/java/com/example/notas/viewmodel/MainViewModel.kt:37-52 | the `combine` lambda; no contract of its own, what it computes is proved in `MainList.FilterNotesIsFilter` |
| MainList.FilterByTypeIsFilter | app/src/main/java/com/example/notas/viewmodel/MainViewModel.kt:37-41 | the type step is the filter by the reference predicate `TypeSelected` |
| MainList.FilterByTextIsFilter | app/src/main/java/com/example/notas/viewmodel/MainViewModel.kt:44-52 | the search step is the filter by the reference predicate `TextSelected` on the trimmed query |
| MainList.FilterNotesIsFilter | app/src/main/java/com/example/notas/viewmodel/MainViewModel.kt:29-53 | the visible list is, in order, exactly the notes passing both the type test and the text test |
| MainList.SelectorKeepsOnlyItsType | app/src/main/java/com/example/notas/viewmodel/MainViewModel.kt:38-39 | selectors 1 and 2 show only rows of that type, and every such row that passes the search |
| MainList.OtherSelectorKeepsAll | app/src/main/java/com/example/notas/viewmodel/MainViewModel.kt:40 | any other selector, 0 included, keeps every note |
| MainList.BlankQueryShowsTypeFiltered | app/src/main/java/com/example/notas/viewmodel/MainViewModel.kt:44-46 | a blank query shows the type-filtered list unchanged |
| MainList.QueryShowsExactlyMatches | app/src/main/java/com/example/notas/viewmodel/MainViewModel.kt:47-51 | with a non-blank query, a note is shown exactly when it passes the type filter and its title or description contains the trimmed query, ignoring case |
| MainList.FilterNotesIsSubsequence | app/src/main/java/com/example/notas/viewmodel/MainViewModel.kt:29-53 | the visible list is an order-preserving subsequence of the stored notes, with nothing added or repeated |
| MainList.TrimmedQuerySameList | app/src/main/java/com/example/notas/viewmodel/MainViewModel.kt:44 | whitespace around the query does not change the list |
| MainList.TypeAndTextCommute | app/src/main/java/com/example/notas/viewmodel/MainViewModel.kt:37-52 | the type filter and the search may be applied in either order |
| MainList.QueryCaseIrrelevant | app/src/main/java/com/example/notas/viewmodel/MainViewModel.kt:44-51 | the lower-cased query shows the same list as the query |
| MainList.InitialStateShowsAll | app/src/main/java/com/example/notas/viewmodel/MainViewModel.kt:21-33 | the initial state (empty query, selector 0) shows every stored note |
| MainList.MainViewModel.constructor | app/src/main/java/com/example/notas/viewmodel/MainViewModel.kt:21-26 | starts with an empty query and selector 0, so the visible list is every stored note |
| MainList.MainViewModel.FilteredNotes | app/src/main/java/com/example/notas/viewmodel/MainViewModel.kt:29-53 | `filteredNotes` is, in order, exactly the stored notes visible for the current query and selector |
| MainList.MainViewModel.UpdateSearchText | app/src/main/java/com/example/notas/viewmodel/MainViewModel.kt:61-63 | sets the query and leaves the selector |
| MainList.MainViewModel.UpdateFilterType | app/src/main/java/com/example/notas/viewmodel/MainViewModel.kt:65-67 | sets the selector and leaves the query |
| MainList.MainViewModel.DeleteNote | app/src/main/java/com/example/notas/viewmodel/MainViewModel.kt:69-73 | the store drops the note and its attachments and keeps its invariants; the key is no longer stored |
| EditNote.OrElse | app/src/main/java/com/example/notas/viewmodel/EditNoteViewModel.kt:52-54 | the `?:` defaults: the stored value when present, the default otherwise; no contract of its own, its effect is stated in `EditNote.FormFromNoteFields` |
| EditNote.ValidEntry | app/src/main/java/com/example/notas/viewmodel/EditNoteViewModel.kt:41-42 | `isEntryValid` on the form's values; no contract of its own, its meaning is proved in `EditNote.ValidEntryIff` |
| EditNote.FormFromNote | app/src/main/java/com/example/notas/viewmodel/EditNoteViewModel.kt:46-54 | the form `initializeState` fills in; no contract of its own, its fields are proved in `EditNote.FormFromNoteFields` |
| EditNote.WithTipo | app/src/main/java/com/example/notas/viewmodel/EditNoteViewModel.kt:77-85 | the form after `updateTipo`; no contract of its own, proved in `EditNote.WithTipoFields` |
| EditNote.BuildNote | app/src/main/java/com/example/notas/viewmodel/EditNoteViewModel.kt:93-109 | `buildUpdatedNote()` on the form's values; no contract of its own, proved in `EditNote.BuildNoteType`, `EditNote.BuildNoteTaskFields`, `EditNote.BuildNoteKeepsText` and `EditNote.CanonicalRoundTrip` |
| EditNote.ValidEntryIff | app/src/main/java/com/example/notas/viewmodel/EditNoteViewModel.kt:41-42 | the form is valid exactly when title and description each have a non-whitespace character |
| EditNote.FormFromNoteFields | app/src/main/java/com/example/notas/viewmodel/EditNoteViewModel.kt:46-54 | the form copies key, title and description, picks "Notes" exactly for type 1, copies a present date, time and status, and fills absent ones with "", "" and "Pendiente" |
| EditNote.WithTipoFields | app/src/main/java/com/example/notas/viewmodel/EditNoteViewModel.kt:77-85 | "Notes" clears date and time and resets the status to "Pendiente"; any other tab changes only the tab |
| EditNote.BuildNoteType | app/src/main/java/com/example/notas/viewmodel/EditNoteViewModel.kt:94-107 | the saved row is a plain note exactly when the tab is "Notes", and then has no date, time or status |
| EditNote.BuildNoteTaskFields | app/src/main/java/com/example/notas/viewmodel/EditNoteViewModel.kt:105-107 | on a task a blank date or time is saved as absent and a blank status as "Pendiente" |
| EditNote.BuildNoteKeepsText | app/src/main/java/com/example/notas/viewmodel/EditNoteViewModel.kt:97-101 | the key and description are kept, there is no legacy image, and the title becomes "(sin título)" only when blank (or already that) |
| EditNote.ValidFormSavesItsTitle | app/src/main/java/com/example/notas/viewmodel/EditNoteViewModel.kt:99 | a valid form saves its own, non-blank title |
| EditNote.BuildNoteIsCanonical | app/src/main/java/com/example/notas/viewmodel/EditNoteViewModel.kt:93-109 | every saved row has the canonical shape (visible title, type 1 or 2, task fields only on tasks, non-blank where present) |
| EditNote.CanonicalRoundTrip | app/src/main/java/com/example/notas/viewmodel/EditNoteViewModel.kt:46-109 | opening a canonical row in the form and saving it unchanged gives the same row |
| EditNote.SaveTwiceIsSaveOnce | app/src/main/java/com/example/notas/viewmodel/EditNoteViewModel.kt:46-109 | reopening and resaving what was saved changes nothing |
| EditNote.EditNoteViewModel.constructor | app/src/main/java/com/example/notas/viewmodel/EditNoteViewModel.kt:18-37 | the fields start at 0, "", "", "Notes", "", "", "Pendiente" with no attachments |
| EditNote.EditNoteViewModel.IsEntryValid | app/src/main/java/com/example/notas/viewmodel/EditNoteViewModel.kt:41-42 | holds exactly when the title and the description each have a non-whitespace character |
| EditNote.EditNoteViewModel.BuildUpdatedNote | app/src/main/java/com/example/notas/viewmodel/EditNoteViewModel.kt:93-109 | `BuildNote` of the current form; no contract of its own, its properties are those of `EditNote.BuildNote` |
| EditNote.EditNoteViewModel.InitializeState | app/src/main/java/com/example/notas/viewmodel/EditNoteViewModel.kt:46-58 | the form becomes `FormFromNote(note)`; the attachment list is not touched |
| EditNote.EditNoteViewModel.UpdateTitle | app/src/main/java/com/example/notas/viewmodel/EditNoteViewModel.kt:75 | only the title changes |
| EditNote.EditNoteViewModel.UpdateDescription | app/src/main/java/com/example/notas/viewmodel/EditNoteViewModel.kt:76 | only the description changes |
| EditNote.EditNoteViewModel.UpdateTipo | app/src/main/java/com/example/notas/viewmodel/EditNoteViewModel.kt:77-85 | the form becomes `WithTipo(old form, t)` |
| EditNote.EditNoteViewModel.UpdateFechaLimite | app/src/main/java/com/example/notas/viewmodel/EditNoteViewModel.kt:86 | only the due date changes |
| EditNote.EditNoteViewModel.UpdateHora | app/src/main/java/com/example/notas/viewmodel/EditNoteViewModel.kt:87 | only the time changes |
| EditNote.EditNoteViewModel.UpdateEstado | app/src/main/java/com/example/notas/viewmodel/EditNoteViewModel.kt:88 | only the status changes |
| EditNote.EditNoteViewModel.UpdateNoteWithMultimedia | app/src/main/java/com/example/notas/viewmodel/EditNoteViewModel.kt:116-136 | invalid form: the store is unchanged. Valid form: the note's row becomes the built note. If the note is stored, one image row per uri is appended in order; otherwise no attachment is added |
| AddNote.ValidEntry | app/src/main/java/com/example/notas/viewmodel/AddNoteViewModel.kt:40-41 | `isEntryValid` on the form's values; no contract of its own, its meaning is proved in `AddNote.ValidEntryIff` |
| AddNote.WithTipo | app/src/main/java/com/example/notas/viewmodel/AddNoteViewModel.kt:53-60 | the form after `updateTipo`; no contract of its own, proved in `AddNote.WithTipoFields` |
| AddNote.NoteToSave | app/src/main/java/com/example/notas/viewmodel/AddNoteViewModel.kt:79-91 | the `noteToSave` row; no contract of its own, proved in `AddNote.NoteToSaveType`, `AddNote.NoteToSaveTaskFields`, `AddNote.NewNoteIsPending` and `AddNote.AddThenEdit` |
| AddNote.ValidEntryIff | app/src/main/java/com/example/notas/viewmodel/AddNoteViewModel.kt:40-41 | the form is valid exactly when title and description each have a non-whitespace character |
| AddNote.WithTipoFields | app/src/main/java/com/example/notas/viewmodel/AddNoteViewModel.kt:53-60 | "Notes" clears date and time; any other tab changes only the tab |
| AddNote.NoteToSaveType | app/src/main/java/com/example/notas/viewmodel/AddNoteViewModel.kt:79-91 | the new row asks for a fresh key, has no image, is a plain note exactly for "Notes", and a plain note has no date or time |
| AddNote.NoteToSaveTaskFields | app/src/main/java/com/example/notas/viewmodel/AddNoteViewModel.kt:88-89 | on a task a blank date or time is saved as absent, otherwise as typed |
| AddNote.NewNoteIsPending | app/src/main/java/com/example/notas/viewmodel/AddNoteViewModel.kt:37 | every new row, plain note included, has status "Pendiente", which the edit form would drop from a plain note |
| AddNote.ValidFormSavesItsText | app/src/main/java/com/example/notas/viewmodel/AddNoteViewModel.kt:84-85 | a valid form saves its own title and description |
| AddNote.AddThenEdit | app/src/main/java/com/example/notas/viewmodel/AddNoteViewModel.kt:82-91 | a task added with a valid form, resaved unchanged from the edit form, is the same row; a plain note loses only its status |
| AddNote.AddNoteViewModel.constructor | app/src/main/java/com/example/notas/viewmodel/AddNoteViewModel.kt:22-37 | the form starts blank on "Notes", with status "Pendiente" |
| AddNote.AddNoteViewModel.IsEntryValid | app/src/main/java/com/example/notas/viewmodel/AddNoteViewModel.kt:40-41 | holds exactly when the title and the description each have a non-whitespace character |
| AddNote.AddNoteViewModel.UpdateTitle | app/src/main/java/com/example/notas/viewmodel/AddNoteViewModel.kt:45-47 | only the title changes |
| AddNote.AddNoteViewModel.UpdateDescription | app/src/main/java/com/example/notas/viewmodel/AddNoteViewModel.kt:49-51 | only the description changes |
| AddNote.AddNoteViewModel.UpdateTipo | app/src/main/java/com/example/notas/viewmodel/AddNoteViewModel.kt:53-60 | the form becomes `WithTipo(old form, t)` |
| AddNote.AddNoteViewModel.UpdateFechaLimite | app/src/main/java/com/example/notas/viewmodel/AddNoteViewModel.kt:62-64 | only the due date changes |
| AddNote.AddNoteViewModel.UpdateHora | app/src/main/java/com/example/notas/viewmodel/AddNoteViewModel.kt:66-68 | only the time changes |
| AddNote.AddNoteViewModel.SaveNoteWithMultimedia | app/src/main/java/com/example/notas/viewmodel/AddNoteViewModel.kt:76-115 | invalid form: the store is unchanged. Valid form: the row is appended under the next key. If `toInt` of that key is a stored note, one image row per uri is appended in order; otherwise no attachment is added. While the key fits in an `Int`, the images are linked to the new note itself |

## Left out

- The Compose screens, navigation, the view-model factories and the application class: UI wiring with no logic of its own.
- Reminders (`Recordatorio`), alarms, notifications and the audio recorder and player: outside these three view-models.
- Coroutines and flows:
  - `viewModelScope.launch` is modelled as running to completion before the call returns.
  - The `StateFlow` timing is not modelled: `stateIn`'s initial empty list and the five-second `WhileSubscribed` window.
  - `FilteredNotes` is the value the `combine` produces once its inputs have settled.
- EditNote.EditNoteViewModel.InitializeState: `loadMultimedia` is not modelled. It collects `getMultimediaForNota` into `multimediaUris` asynchronously; the model leaves `multimediaUris` unchanged.
- The query orders are not modelled: `getAllNotes` sorts by id descending, `getMultimediaForNota` by creation time. The store keeps rows in insertion order, and the list screen's properties hold for any order of the notes.
- `System.currentTimeMillis()` is not modelled as a clock. Each save takes one `now` parameter, and every attachment it builds carries that value.
- Text: the case-insensitive match folds only ASCII letters. Kotlin's `Char.uppercaseChar` and `lowercaseChar` also map non-ASCII letters.
- Room key limits are not modelled: keys are unbounded integers, with no 64-bit rowid ceiling modelled. Only `toInt` is modelled.
- `deleteMultimedia`, `getNoteById`, `getAllTasks` and `getAllNotesOnly`: no view-model in this model calls them.
- Store.NoteStore.InsertMultimedia: a rejected attachment returns `ok == false`. The constraint exception Room throws is not modelled, nor what it does to the coroutine. The save loops stop at the first rejection, as an exception would.
- A plain note's status on the add path: the source stores "Pendiente" on a plain note, and the model follows that code (`AddNote.NewNoteIsPending`).
- `data/NoteRepository.kt` is a class over `NoteDao` alone. The model follows the interface that `data/OfflineNoteRepository.kt` implements, which includes the multimedia operations.

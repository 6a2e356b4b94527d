# Firenotes popup: the multi-note store

Firenotes is a browser-extension popup that keeps several short text notes,
shows them as tabs, lets the user colour them, and saves them to the
extension's local storage. This project models the part of
`popup/popup.js` that manages the notes:

- the ordered list of notes (`notes`);
- the active-note id (`activeNoteId`);
- the editor's text (`notepad.value`);
- the copy of the list and active id that `saveNotes` writes to storage.

It also models the operations on them: `init`, `loadNotes`, `loadActiveNote`,
`createNewNote`, `saveCurrentNote`, the synchronous part of `autoSave`,
`deleteNote`, `switchToNote`, `changeNoteColor` and `saveNotes`.

The project has three modules:

- `NoteText` (`notetext.dfy`): how a title is derived from the editor text.
  This covers `split('\n')[0]`, `trim()` and `substring(0, 20)`, plus the
  decimal number in the default title `Note n`.
- `NoteState` (`notestate.dfy`): the whole script state as one value
  (`State`), with one function per operation. The lemmas state what each
  operation does and prove a store invariant: the list is non-empty, ids
  are distinct and non-empty, the active id names a note, and the editor
  shows that note. The invariant holds in every state reached by the add,
  delete, tab, typing, colour and save actions, within one opening of the
  popup (`ReachableValid`) and across reopenings (`SessionsValid`). The
  script's tab close button, as written, breaks the editor sync (see
  Findings). With it, only the part without the sync holds
  (`RunAsWrittenKeepsValid`). Storage stays data that `init` accepts, so
  that weaker part also holds across reopenings.
- `Popup` (`popup.dfy`): the class `NoteStore`, whose fields are the
  script's module-level state. Its methods update those fields step by
  step, as the script does. Each method is proved to leave exactly the
  state that the matching `NoteState` function computes. The methods that
  change notes (`SaveCurrentNote`, `EditorInput`, `CreateNewNote`,
  `DeleteNote`, `SwitchToNote`, `ChangeNoteColor`) are also proved to keep
  the invariant.

Inputs that the script gets from the browser become parameters:

- `freshId` stands for `generateId()`. It is required to be non-empty and
  not among the existing ids.
- `confirmed` stands for the answer to `confirm('Delete this note?')`.
- `readOk` stands for whether the storage read succeeded.
- The editor text typed by the user is an argument of `EditorInput`.

JavaScript's falsy tests are kept. The script reads the stored active id with
`|| null` and tests it with `!activeNoteId`, so an empty-string active id is
treated like `null` (`Falsy`).

Where the script's behaviour is easy to misread, the model follows the code:

- A title comes from the first line only (`split('\n')[0]`), not from the
  first non-blank line. When the first line is blank the title is kept,
  even if a later line has text.
- A new note is titled `Note n`, where n is the length of the list after
  the append.
- Deleting the only note asks for no confirmation and never calls
  `saveNotes`. Storage keeps the old text until something else is saved
  (`DeleteSole` states that storage is unchanged).
- A stored active id is accepted without checking that it names a stored
  note. `InitKeepsDanglingActiveId` shows that such an active id survives
  `init` and breaks the active id invariant. So the invariant is proved for
  storage that starts empty, unreadable or well formed (`ReachableValid`).
  Every operation, the close button as written included, leaves storage
  well formed again. So any number of later openings start valid
  (`SessionsValid`). A session ends synced unless its close button was
  used.
- A failed storage read in `init` (popup.js:43-44) leaves the list empty, so
  `init` creates `Note 1`. `createNewNote` then calls `saveNotes`
  (popup.js:92), which replaces every stored note with that single empty
  note. So a transient read failure wipes what was stored (`InitEstablishes`
  states that storage then holds exactly the new note).
- `switchToNote` does not check its argument. `SwitchToNote` therefore
  requires the id to name an existing note. The tabs only ever pass such
  an id.
- Custom colours, contrast computation and migration from older storage
  keys do not occur in this file and are not modelled.

## Model

| member | source | states |
|---|---|---|
| NoteText.FirstLine | popup/popup.js:149 | the result is the prefix of the text before the first line feed: it contains no line feed, and it is either the whole text or followed by a line feed |
| NoteText.Lead | popup/popup.js:149 | the start of `trim()`'s result: every character skipped is whitespace, and the character found there (if any) is not |
| NoteText.TrailEnd | popup/popup.js:149 | the end of `trim()`'s result: every character dropped after it is whitespace, and the character before it (if any, within the kept part) is not |
| NoteText.Prefix | popup/popup.js:151 | `substring(0, n)`: the first min(n, length) characters |
| NoteText.TrimIsSlice | popup/popup.js:149 | the trimmed line is a contiguous slice of the line, with only whitespace on either side, and no whitespace at either end |
| NoteText.TrimEmptyIff | popup/popup.js:149-150 | the trimmed text is empty exactly when the text is all whitespace, in both directions |
| NoteText.DerivedTitleShape | popup/popup.js:148-152 | a blank first line keeps the previous title; otherwise the title is exactly the first min(20, length) characters of the trimmed first line: non-empty, with no line feed and no leading whitespace, and the whole trimmed line when that line has at most 20 characters |
| NoteText.TitleOfPlainLine | popup/popup.js:149-151 | a line with no line feed and no surrounding whitespace becomes the title itself, cut to 20 characters |
| NoteText.TitleOfTwoLines | popup/popup.js:149-151 | "Hello\nworld" gives the title "Hello" |
| NoteText.TitleOfBlankFirstLine | popup/popup.js:149-152 | "  \nSecond" keeps the previous title |
| NoteText.TitleOfLongLine | popup/popup.js:151 | a 30-character first line gives exactly its first 20 characters |
| NoteText.DecimalString | popup/popup.js:81 | the rendering of a count has only digits, is non-empty and has no leading zero |
| NoteText.DecimalRoundTrip | popup/popup.js:81 | parsing the rendered count gives back the count, so different counts give different default titles |
| NoteState.IndexOf | popup/popup.js:111 | `findIndex` by id: Some(i) is the first position with that id, and None holds exactly when no note has it |
| NoteState.LoadActiveAt | popup/popup.js:61-73 | with distinct, non-empty ids and an active id that names note i, `loadActiveNote` finds note i and only puts its content in the editor |
| NoteState.RemoveAtKeepsWellFormed | popup/popup.js:113 | `splice(k, 1)` keeps the ids distinct and non-empty, and the removed id no longer occurs |
| NoteState.CreateAppends | popup/popup.js:77-92 | exactly one note is appended at the end: the fresh id, content `''`, title "Note " + (old length + 1), colour `default`. It becomes active, the editor is cleared, earlier notes are unchanged, and the state is persisted, whatever the list held before |
| NoteState.CreateKeepsInvariants | popup/popup.js:77-92 | with a fresh non-empty id and distinct non-empty ids before (an empty list included), the new state is valid and the editor shows the new note |
| NoteState.SaveCurrentEffect | popup/popup.js:142-153 | nothing changes when no note has the active id. Otherwise only the active note changes: its content becomes the editor text, and its title is kept (blank first line) or is exactly the first min(20, length) characters of the trimmed first line. Active id, editor and storage are unchanged, and the invariant and editor sync hold afterwards |
| NoteState.DeleteSole | popup/popup.js:99-104 | with one note, whatever the confirmation answer, the same note stays active with content `''` and its title unchanged, the editor is empty, storage is not touched, and the invariant holds |
| NoteState.DeleteConfirmed | popup/popup.js:111-125 | with two or more notes and confirmation, exactly the active note is removed and the others keep their order. The note at max(0, k-1) of the remaining list becomes active and is loaded into the editor, the state is persisted, and the invariant holds |
| NoteState.DeleteRefused | popup/popup.js:107-112 | with two or more notes, a declined confirmation or an active id naming no note leaves the state unchanged |
| NoteState.DeleteExamples | popup/popup.js:111-118 | [A, B, C] with B active gives [A, C] with A active; deleting the first note of [A, C] makes C active |
| NoteState.SwitchToActive | popup/popup.js:131 | switching to the active note changes nothing |
| NoteState.SwitchToOther | popup/popup.js:130-138 | switching to another existing note first commits the editor text into the old active note, then points at the new note and loads its content. Other notes are unchanged, the state is persisted, and the invariant holds |
| NoteState.ChangeColorEffect | popup/popup.js:294-299 | only the active note's colour changes; ids, contents, titles, order, active id and editor stay the same. Nothing happens without an active note, and the state is persisted |
| NoteState.InputKeepsInvariants | popup/popup.js:158-159 | typing commits the new text to the active note and keeps the invariant |
| NoteState.PersistIdempotent | popup/popup.js:49-54 | saving twice in a row writes the same stored value |
| NoteState.InitEstablishes | popup/popup.js:25-46 | after `init` the list is never empty. With nothing loaded (or a failed read), `Note 1` with the fresh id is created, made active and persisted. A loaded list keeps its order, and without a stored active id the active id defaults to the first note. Well-formed stored data gives a valid, synced state, and storage is left well formed whenever it was empty, unreadable or well formed |
| NoteState.InitKeepsDanglingActiveId | popup/popup.js:41 | a stored active id naming no stored note survives `init`, and the resulting state is not valid |
| NoteState.PersistReload | popup/popup.js:37-58 | saving and then reopening gives the same notes in the same order, the same active id and, when nothing was pending, the same editor text |
| NoteState.ApplyKeepsInvariants | popup/popup.js:253-254 | each user action (add, delete, tab click, typing, colour, `saveNotes`) keeps the invariant, even when the editor is out of sync. It keeps the editor sync when it held, and it keeps storage well formed, so the next opening starts valid. The Ctrl+S shortcut (popup.js:259-263) is the two-step run of typing the current editor text, which is `saveCurrentNote`, then `saveNotes` |
| NoteState.RunKeepsInvariants | popup/popup.js:248-254 | any run of allowed actions keeps the invariant and the editor sync, and keeps storage well formed |
| NoteState.ReachableValid | popup/popup.js:324-325 | every state reached by opening the popup on empty, unreadable or well-formed storage and then running allowed actions is valid and synced, and leaves storage well formed |
| NoteState.SessionsValid | popup/popup.js:25-46 | over any number of openings of the popup, each running `init` on what the previous one stored and then any user actions and close-button clicks as written, storage that starts empty or well formed stays well formed. Every session ends valid, and a session without close clicks ends synced |
| NoteState.CloseTabAsWrittenLosesText | popup/popup.js:225-229 | the close button as written: declining to close another tab leaves the active id on that tab's note while the editor shows the previous note, and the next tab click overwrites the other note's text |
| NoteState.CloseTabKeepsInvariants | popup/popup.js:225-229 | the corrected close button keeps the invariant, removes exactly that tab's note when confirmed, and changes nothing when declined |
| NoteState.CloseTabAsWrittenKeepsValid | popup/popup.js:225-229 | the close button as written keeps that invariant and well-formed storage, whatever the answer |
| NoteState.RunAsWrittenKeepsValid | popup/popup.js:225-254 | any run of user actions and close-button clicks as written keeps that invariant and well-formed storage, so the close button breaks only the editor sync. A run without close clicks keeps the sync too |
| NoteState.RunAsWrittenOfActions | popup/popup.js:248-254 | running user actions as events (`AsEvents`) gives exactly the state that `Run` gives, so the session lemmas cover the action runs of `ReachableValid` |
| NoteState.SessionValid | popup/popup.js:25-46 | one opening on empty, unreadable or well-formed storage ends valid and leaves storage well formed; without close clicks it ends synced |
| Popup.NoteStore.constructor | popup/popup.js:16-17 | the state when the popup opens: no notes, null active id, empty editor |
| Popup.NoteStore.SaveNotes | popup/popup.js:49-58 | storage holds the current list and active id |
| Popup.NoteStore.LoadNotes | popup/popup.js:37-46 | the list and normalised active id are read from storage; a failed read empties the list |
| Popup.NoteStore.LoadActiveNote | popup/popup.js:61-74 | the new state is `LoadActive` of the old one |
| Popup.NoteStore.SaveCurrentNote | popup/popup.js:142-154 | the new state is `SaveCurrent` of the old one, and the invariant holds afterwards |
| Popup.NoteStore.AutoSave | popup/popup.js:158-159 | the synchronous part: the active note is committed |
| Popup.NoteStore.EditorInput | popup/popup.js:248-251 | the new text is committed to the active note, keeping the invariant |
| Popup.NoteStore.CreateNewNote | popup/popup.js:77-95 | the new state is `Create` of the old one, and it is valid and synced |
| Popup.NoteStore.DeleteNote | popup/popup.js:98-127 | the new state is `Delete` of the old one, keeping the invariant and the sync |
| Popup.NoteStore.SwitchToNote | popup/popup.js:130-139 | the new state is `Switch` of the old one; it is valid, and synced whenever the active id moved |
| Popup.NoteStore.ChangeNoteColor | popup/popup.js:294-303 | the new state is `ChangeColor` of the old one, keeping the invariant |
| Popup.NoteStore.Init | popup/popup.js:25-34 | the new state is `Init` of the old one, and the list is non-empty |
| Popup.OpenPopup | popup/popup.js:324-325 | opening the popup leaves at least one note; on empty, unreadable or well-formed storage the store is valid and synced |

## Findings

| source | as written | input that shows it | evidently intended | confidence | as-written member | corrected member |
|---|---|---|---|---|---|---|
| popup/popup.js:225-229 | the close button moves `activeNoteId` to the tab's note before `deleteNote`. When the confirmation is declined, the active id stays moved but the editor still holds the previous note's text | notes a (content "x") and b (content "y"), a active, editor "x"; close b's tab and decline, then click a's tab: b's content becomes "x" | declining the confirmation leaves the notes, the active id and the editor as they were | high, not executed | NoteState.CloseTabAsWrittenLosesText | NoteState.CloseTabKeepsInvariants |

## Left out

- Rendering and UI state are presentation only and are not modelled: `renderTabs`, `updateTabsUI`, `updateCharCount`, `toggleColorPicker`, `updateColorPickerUI`, the outside-click handler, `focus()`, the `data-color` attribute and the save-status text.
- `browser.storage.local` is a field written in one step. The script's asynchronous get and set are not modelled, and neither is the write failure that `saveNotes` catches and logs. Each operation runs to completion before the next, so user events that arrive while `init` awaits the storage read (popup.js:26) are not modelled: a note added then would be overwritten by the assignment at popup.js:40, while its own `saveNotes` may already have replaced storage. A failed read is the `readOk` parameter.
- The 500 ms debounce in `autoSave` (`setTimeout`/`clearTimeout`) is timer-driven. Only its synchronous `saveCurrentNote` call is modelled. `SaveNotes` is what the timer eventually runs.
- `generateId` (clock and random number) is replaced by the `freshId` parameter. The `createdAt`/`updatedAt` timestamps are omitted.
- The `confirm()` dialog is replaced by the `confirmed` parameter.
- Keyboard shortcuts and the colour-option listeners only call the modelled operations and are not modelled separately. The close button is modelled only for the finding above.
- The `createNewNote` branch of `deleteNote` (popup.js:120-122) cannot run: the list had at least two notes before the removal. The model leaves it out.
- `trim()` is modelled on Unicode code points, with ECMAScript's full whitespace set. `substring(0, 20)` counts code points rather than UTF-16 code units, so a title containing characters outside the Basic Multilingual Plane can differ in length from the script's.
- Notes are values in a sequence rather than shared objects. The script's only other references to note objects are the tab closures, which read only the immutable id, so no aliasing is lost.
- Popup.NoteStore.SwitchToNote: requires the id to name an existing note. The script does not check this, and an unknown id would leave the active id dangling.
- Stored values of the wrong shape (a non-array list, a non-string content) cannot be represented, so the script's behaviour on them is not modelled.

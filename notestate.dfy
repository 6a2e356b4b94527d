/** The popup's notes, its active-note id, the editor text and the
    persisted copy, as one value, with one function per operation of the
    popup script. The `NoteStore` class in module Popup performs the same
    operations in place and is proved against these functions. */
module NoteState {
  import opened NoteText

  datatype Option<T> = None | Some(value: T)

  /** One note; the creation and update timestamps are not modelled. */
  datatype Note = Note(id: string, content: string, title: string, color: string)

  /** What extension storage holds under the notes key and the active-note
      key. A key that was never written reads as an empty list / null. */
  datatype Snapshot = Snapshot(notes: seq<Note>, activeId: Option<string>)

  /** The script's state: `notes`, `activeNoteId`, the editor's text and the
      storage area. */
  datatype State = State(notes: seq<Note>, activeId: Option<string>, buffer: string, storage: Snapshot)

  const DefaultColor: string := "default"

  /** Position of the first note with this id (`findIndex`), if any. */
  function IndexOf(notes: seq<Note>, id: string): (r: Option<nat>)
    ensures r.Some? ==> r.value < |notes| && notes[r.value].id == id
    ensures r.Some? ==> forall j :: 0 <= j < r.value ==> notes[j].id != id
    ensures r.None? <==> forall j :: 0 <= j < |notes| ==> notes[j].id != id
  {
    if |notes| == 0 then None
    else if notes[0].id == id then Some(0)
    else match IndexOf(notes[1..], id)
      case None => None
      case Some(i) => Some(i + 1)
  }

  /** Lookup by an active id that may be null: null matches no note. */
  function Find(notes: seq<Note>, a: Option<string>): Option<nat> {
    if a.None? then None else IndexOf(notes, a.value)
  }

  /** JavaScript falsiness of the active id: null or the empty string. */
  predicate Falsy(a: Option<string>) {
    a.None? || a.value == ""
  }

  /** The id generator never yields an empty id and never repeats one. */
  predicate WellFormed(notes: seq<Note>) {
    (forall i :: 0 <= i < |notes| ==> notes[i].id != "") &&
    (forall i, j :: 0 <= i < j < |notes| ==> notes[i].id != notes[j].id)
  }

  /** The store invariant: at least one note, distinct non-empty ids, and
      the active id names one of them. */
  predicate Valid(s: State) {
    |s.notes| > 0 && WellFormed(s.notes) && Find(s.notes, s.activeId).Some?
  }

  /** The editor shows exactly the active note's saved content, so no edit is
      pending. */
  predicate Synced(s: State) {
    var k := Find(s.notes, s.activeId);
    k.Some? && s.notes[k.value].content == s.buffer
  }

  // ---------------------------------------------------------------------
  // Operations of popup.js

  /** `saveNotes`: both keys are written from memory. */
  function Persist(s: State): State {
    s.(storage := Snapshot(s.notes, s.activeId))
  }

  /** `loadActiveNote`: a falsy active id defaults to the first note; if the
      active id names a note, its content is put in the editor. */
  function LoadActive(s: State): State {
    var a := if Falsy(s.activeId) && |s.notes| > 0 then Some(s.notes[0].id) else s.activeId;
    match Find(s.notes, a)
    case None => s.(activeId := a)
    case Some(i) => s.(activeId := a, buffer := s.notes[i].content)
  }

  /** `saveCurrentNote`: the editor text becomes the active note's content
      and, unless its first line is blank, determines the title. */
  function SaveCurrent(s: State): State {
    match Find(s.notes, s.activeId)
    case None => s
    case Some(i) =>
      var n := s.notes[i];
      s.(notes := s.notes[i := n.(content := s.buffer, title := DerivedTitle(s.buffer, n.title))])
  }

  /** The note `createNewNote` appends when the list has `count` notes. */
  function NewNote(id: string, count: nat): Note {
    Note(id, "", DefaultTitle(count + 1), DefaultColor)
  }

  /** `createNewNote`, with `id` standing for what `generateId` returns. */
  function Create(s: State, id: string): State {
    Persist(s.(notes := s.notes + [NewNote(id, |s.notes|)], activeId := Some(id), buffer := ""))
  }

  /** The list without the note at `k` (`splice(k, 1)`). */
  function RemoveAt(notes: seq<Note>, k: nat): seq<Note>
    requires k < |notes|
  {
    notes[..k] + notes[k + 1..]
  }

  /** `deleteNote`, with `confirmed` standing for the answer to `confirm`.
      The branch that creates a note when the list becomes empty cannot be
      taken (the list had at least two notes) and is left out. */
  function Delete(s: State, confirmed: bool): State {
    if |s.notes| == 1 then SaveCurrent(s.(buffer := ""))
    else if !confirmed then s
    else match Find(s.notes, s.activeId)
      case None => s
      case Some(k) =>
        var rest := RemoveAt(s.notes, k);
        var j := if k == 0 then 0 else k - 1;
        Persist(LoadActive(s.(notes := rest, activeId := Some(rest[j].id))))
  }

  /** `switchToNote`. */
  function Switch(s: State, id: string): State {
    if s.activeId == Some(id) then s
    else Persist(LoadActive(SaveCurrent(s).(activeId := Some(id))))
  }

  /** `changeNoteColor`. */
  function ChangeColor(s: State, color: string): State {
    match Find(s.notes, s.activeId)
    case None => s
    case Some(i) => Persist(s.(notes := s.notes[i := s.notes[i].(color := color)]))
  }

  /** The editor's input event: the text changes and the synchronous part of
      `autoSave` commits it. */
  function Input(s: State, text: string): State {
    SaveCurrent(s.(buffer := text))
  }

  /** The script's state when the popup opens: no notes, a null active id, an
      empty editor, and whatever storage holds. */
  function Opened(stored: Snapshot): State {
    State([], None, "", stored)
  }

  /** `loadNotes`; `readOk` is false when the storage read throws. */
  function LoadNotes(s: State, readOk: bool): State {
    if readOk then
      s.(notes := s.storage.notes,
         activeId := if Falsy(s.storage.activeId) then None else s.storage.activeId)
    else s.(notes := [])
  }

  /** `init`; `freshId` stands for the id a new note would get. */
  function Init(s: State, readOk: bool, freshId: string): State {
    var loaded := LoadNotes(s, readOk);
    if |loaded.notes| == 0 then Create(loaded, freshId) else LoadActive(loaded)
  }

  // ---------------------------------------------------------------------
  // Properties

  lemma RemoveAtKeepsWellFormed(notes: seq<Note>, k: nat)
    requires WellFormed(notes) && k < |notes|
    ensures WellFormed(RemoveAt(notes, k))
    ensures forall j :: 0 <= j < |notes| - 1 ==> RemoveAt(notes, k)[j].id != notes[k].id
  {
    var r := RemoveAt(notes, k);
    assert forall j :: 0 <= j < |r| ==> r[j] == notes[if j < k then j else j + 1];
  }

  /** `LoadActive` on a list with non-empty ids and an active id that names a
      note just loads that note's content. */
  lemma LoadActiveAt(s: State, i: nat)
    requires WellFormed(s.notes) && i < |s.notes| && s.activeId == Some(s.notes[i].id)
    ensures Find(s.notes, s.activeId) == Some(i)
    ensures LoadActive(s) == s.(buffer := s.notes[i].content)
  {
    var k := IndexOf(s.notes, s.notes[i].id);
    assert k.Some?;
  }

  /** `createNewNote` appends exactly one note at the end: the given id,
      empty content, the title "Note n" for the new length n and the default
      colour; it becomes active, the editor is cleared, earlier notes are
      unchanged and the whole state is persisted. */
  lemma CreateAppends(s: State, id: string)
    ensures var r := Create(s, id);
            |r.notes| == |s.notes| + 1 && r.notes[..|s.notes|] == s.notes &&
            r.notes[|s.notes|] == Note(id, "", "Note " + DecimalString(|s.notes| + 1), "default") &&
            r.activeId == Some(id) && r.buffer == "" &&
            r.storage == Snapshot(r.notes, r.activeId)
  {
    assert Create(s, id).notes[..|s.notes|] == s.notes;
  }

  /** With a fresh non-empty id, the new note makes a valid, synced state out
      of any list with distinct non-empty ids, even an empty one. */
  lemma CreateKeepsInvariants(s: State, id: string)
    requires WellFormed(s.notes) && id != "" && IndexOf(s.notes, id).None?
    ensures Valid(Create(s, id)) && Synced(Create(s, id))
  {
    var r := Create(s, id);
    assert r.notes[..|s.notes|] == s.notes;
    assert WellFormed(r.notes);
    LoadActiveAt(r, |s.notes|);
  }

  /** `saveCurrentNote`: without an active note nothing changes; otherwise
      only the active note changes, its content becomes the editor text and
      its title is either kept (blank first line) or exactly the first
      min(20, length) characters of the trimmed first line. */
  lemma SaveCurrentEffect(s: State)
    ensures var r := SaveCurrent(s);
            r.activeId == s.activeId && r.buffer == s.buffer && r.storage == s.storage &&
            |r.notes| == |s.notes|
    ensures Find(s.notes, s.activeId).None? ==> SaveCurrent(s) == s
    ensures Find(s.notes, s.activeId).Some? ==>
            var i := Find(s.notes, s.activeId).value;
            var r := SaveCurrent(s);
            var line := Trim(FirstLine(s.buffer));
            (forall j :: 0 <= j < |s.notes| && j != i ==> r.notes[j] == s.notes[j]) &&
            r.notes[i].id == s.notes[i].id && r.notes[i].color == s.notes[i].color &&
            r.notes[i].content == s.buffer &&
            (AllTrimSpace(FirstLine(s.buffer)) ==> r.notes[i].title == s.notes[i].title) &&
            (!AllTrimSpace(FirstLine(s.buffer)) ==>
               |r.notes[i].title| == (if |line| < TitleLength then |line| else TitleLength) &&
               0 < |r.notes[i].title| && r.notes[i].title == line[..|r.notes[i].title|])
    ensures Valid(s) ==> Valid(SaveCurrent(s)) && Synced(SaveCurrent(s))
  {
    if Find(s.notes, s.activeId).Some? {
      var i := Find(s.notes, s.activeId).value;
      DerivedTitleShape(s.buffer, s.notes[i].title);
      var r := SaveCurrent(s);
      if Valid(s) {
        assert forall j :: 0 <= j < |r.notes| ==> r.notes[j].id == s.notes[j].id;
        assert WellFormed(r.notes);
        LoadActiveAt(r, i);
      }
    }
  }

  /** Clearing the only note: whether or not the answer to the confirmation
      would be yes, the same single note stays, still active, with empty
      content and its title untouched (an empty first line keeps it), and
      nothing is written to storage. */
  lemma DeleteSole(s: State, confirmed: bool)
    requires Valid(s) && |s.notes| == 1
    ensures var r := Delete(s, confirmed);
            r.notes == [s.notes[0].(content := "")] &&
            r.activeId == s.activeId && r.buffer == "" && r.storage == s.storage &&
            Valid(r) && Synced(r)
  {
    assert FirstLine("") == "";
    TrimEmptyIff("");
    SaveCurrentEffect(s.(buffer := ""));
    assert Find(s.notes, s.activeId) == Some(0);
  }

  /** Deleting with two or more notes, confirmed: exactly the active note is
      removed, the others keep their order, the note at `max(0, k - 1)` of
      the remaining list becomes active and is loaded, the state is
      persisted, and the invariants hold. */
  lemma DeleteConfirmed(s: State, k: nat)
    requires Valid(s) && |s.notes| >= 2 && Find(s.notes, s.activeId) == Some(k)
    ensures var r := Delete(s, true);
            var j := if k == 0 then 0 else k - 1;
            r.notes == s.notes[..k] + s.notes[k + 1..] &&
            |r.notes| == |s.notes| - 1 && j < |r.notes| &&
            (forall i :: 0 <= i < |r.notes| ==> r.notes[i].id != s.notes[k].id) &&
            r.activeId == Some(r.notes[j].id) && r.buffer == r.notes[j].content &&
            r.storage == Snapshot(r.notes, r.activeId) &&
            Valid(r) && Synced(r)
  {
    var rest := RemoveAt(s.notes, k);
    var j := if k == 0 then 0 else k - 1;
    RemoveAtKeepsWellFormed(s.notes, k);
    LoadActiveAt(s.(notes := rest, activeId := Some(rest[j].id)), j);
  }

  /** With two or more notes, a declined confirmation or an active id that names
      no note leaves the whole state as it was. */
  lemma DeleteRefused(s: State, confirmed: bool)
    requires |s.notes| >= 2
    requires !confirmed || Find(s.notes, s.activeId).None?
    ensures Delete(s, confirmed) == s
  {
  }

  /** The example of deleting the middle note: [A, B, C] with B active gives
      [A, C] with A active; deleting A from [A, C] then makes C active. */
  lemma DeleteExamples(a: Note, b: Note, c: Note, buffer: string, stored: Snapshot)
    requires WellFormed([a, b, c])
    ensures var r := Delete(State([a, b, c], Some(b.id), buffer, stored), true);
            r.notes == [a, c] && r.activeId == Some(a.id) && r.buffer == a.content
    ensures var r := Delete(State([a, c], Some(a.id), buffer, stored), true);
            r.notes == [c] && r.activeId == Some(c.id) && r.buffer == c.content
  {
    var s := State([a, b, c], Some(b.id), buffer, stored);
    LoadActiveAt(s, 1);
    DeleteConfirmed(s, 1);
    assert [a, b, c][..1] + [a, b, c][2..] == [a, c];
    var t := State([a, c], Some(a.id), buffer, stored);
    assert WellFormed([a, c]) by {
      assert [a, c] == RemoveAt([a, b, c], 1);
      RemoveAtKeepsWellFormed([a, b, c], 1);
    }
    LoadActiveAt(t, 0);
    DeleteConfirmed(t, 0);
    assert [a, c][..0] + [a, c][1..] == [c];
  }

  /** Switching to the note that is already active changes nothing. */
  lemma SwitchToActive(s: State, id: string)
    requires s.activeId == Some(id)
    ensures Switch(s, id) == s
  {
  }

  /** Switching to another existing note first commits the editor text into
      the note that was active (so no typed text is lost), then points at the
      new note, loads its content into the editor and persists; the list is
      otherwise what the commit made it, and the invariants hold. */
  lemma SwitchToOther(s: State, id: string)
    requires Valid(s) && IndexOf(s.notes, id).Some? && s.activeId != Some(id)
    ensures var r := Switch(s, id);
            var old_i := Find(s.notes, s.activeId).value;
            var i := IndexOf(s.notes, id).value;
            r.notes == SaveCurrent(s).notes && r.notes[old_i].content == s.buffer &&
            r.activeId == Some(id) && r.buffer == r.notes[i].content &&
            (forall j :: 0 <= j < |s.notes| && j != old_i ==> r.notes[j] == s.notes[j]) &&
            r.storage == Snapshot(r.notes, r.activeId) &&
            Valid(r) && Synced(r)
  {
    SaveCurrentEffect(s);
    var c := SaveCurrent(s);
    var i := IndexOf(s.notes, id).value;
    LoadActiveAt(c.(activeId := Some(id)), i);
  }

  /** `changeNoteColor` changes only the active note's colour; ids, contents,
      titles, order, active id and editor stay, and it does nothing without an
      active note. */
  lemma ChangeColorEffect(s: State, color: string)
    ensures Find(s.notes, s.activeId).None? ==> ChangeColor(s, color) == s
    ensures Find(s.notes, s.activeId).Some? ==>
            var i := Find(s.notes, s.activeId).value;
            var r := ChangeColor(s, color);
            |r.notes| == |s.notes| &&
            r.notes[i] == s.notes[i].(color := color) &&
            (forall j :: 0 <= j < |s.notes| && j != i ==> r.notes[j] == s.notes[j]) &&
            r.activeId == s.activeId && r.buffer == s.buffer &&
            r.storage == Snapshot(r.notes, r.activeId)
    ensures Valid(s) ==> Valid(ChangeColor(s, color))
    ensures Valid(s) && Synced(s) ==> Valid(ChangeColor(s, color)) && Synced(ChangeColor(s, color))
  {
    if Valid(s) {
      var i := Find(s.notes, s.activeId).value;
      var r := ChangeColor(s, color);
      assert forall j :: 0 <= j < |r.notes| ==> r.notes[j].id == s.notes[j].id;
      assert WellFormed(r.notes);
      LoadActiveAt(r, i);
    }
  }

  /** Typing keeps the invariants: the input is committed to the active note. */
  lemma InputKeepsInvariants(s: State, text: string)
    requires Valid(s)
    ensures Valid(Input(s, text)) && Synced(Input(s, text)) && Input(s, text).buffer == text
  {
    SaveCurrentEffect(s.(buffer := text));
  }

  /** Saving to storage twice in a row writes the same thing. */
  lemma PersistIdempotent(s: State)
    ensures Persist(Persist(s)) == Persist(s)
  {
  }

  /** Stored data the script itself could have written: distinct non-empty
      ids and an active id that is null or names a note. */
  predicate StoredWellFormed(stored: Snapshot) {
    WellFormed(stored.notes) && (Falsy(stored.activeId) || Find(stored.notes, stored.activeId).Some?)
  }

  /** After `init` the list is never empty. If nothing could be loaded, one
      note "Note 1" with the fresh id is created, active and persisted. A
      loaded list without an active id defaults to its first note. Loaded data
      that is well formed gives a valid, synced state with the stored notes
      in their stored order. */
  lemma InitEstablishes(stored: Snapshot, readOk: bool, freshId: string)
    requires freshId != ""
    ensures |Init(Opened(stored), readOk, freshId).notes| > 0
    ensures !readOk || |stored.notes| == 0 ==>
            var r := Init(Opened(stored), readOk, freshId);
            r.notes == [Note(freshId, "", "Note 1", "default")] && r.activeId == Some(freshId) &&
            r.buffer == "" && r.storage == Snapshot(r.notes, r.activeId) && Valid(r) && Synced(r)
    ensures readOk && |stored.notes| > 0 ==>
            var r := Init(Opened(stored), readOk, freshId);
            r.notes == stored.notes && r.storage == stored &&
            (Falsy(stored.activeId) ==> r.activeId == Some(stored.notes[0].id))
    ensures readOk && StoredWellFormed(stored) && |stored.notes| > 0 ==>
            Valid(Init(Opened(stored), readOk, freshId)) && Synced(Init(Opened(stored), readOk, freshId))
    ensures !readOk || |stored.notes| == 0 || StoredWellFormed(stored) ==>
            StoredWellFormed(Init(Opened(stored), readOk, freshId).storage)
  {
    var loaded := LoadNotes(Opened(stored), readOk);
    if |loaded.notes| == 0 {
      assert DecimalString(1) == "1";
      assert "Note " + "1" == "Note 1";
      CreateAppends(loaded, freshId);
      CreateKeepsInvariants(loaded, freshId);
    } else if StoredWellFormed(stored) {
      var i := if Falsy(stored.activeId) then 0 else Find(stored.notes, stored.activeId).value;
      LoadActiveAt(loaded.(activeId := Some(stored.notes[i].id)), i);
    }
  }

  /** A stored active id is taken on trust: one that names no stored note
      survives `init`, and the resulting state breaks the active id invariant. */
  lemma InitKeepsDanglingActiveId(n: Note, freshId: string)
    requires n.id != "missing"
    ensures var r := Init(Opened(Snapshot([n], Some("missing"))), true, freshId);
            r.activeId == Some("missing") && !Valid(r)
  {
  }

  /** Persisting and reopening gives back the same notes in the same order,
      the same active id and, when nothing was pending, the same editor text. */
  lemma PersistReload(s: State, freshId: string)
    requires Valid(s) && freshId != ""
    ensures var r := Init(Opened(Persist(s).storage), true, freshId);
            r.notes == s.notes && r.activeId == s.activeId &&
            (Synced(s) ==> r.buffer == s.buffer)
  {
    var i := Find(s.notes, s.activeId).value;
    InitEstablishes(Persist(s).storage, true, freshId);
    var loaded := LoadNotes(Opened(Persist(s).storage), true);
    LoadActiveAt(loaded, i);
  }

  // ---------------------------------------------------------------------
  // Runs of user actions

  /** The user actions that reach the store: the add button, the delete
      button with the answer to its confirmation, a tab click, typing and a
      colour swatch. */
  datatype Action =
    | AddNote(freshId: string)
    | DeleteActive(confirmed: bool)
    | SwitchTo(target: string)
    | Type(text: string)
    | Recolor(color: string)
    | PersistNow

  /** What each action requires of its moment: a fresh non-empty id from the
      generator, a tab of an existing note. */
  predicate Allowed(s: State, a: Action) {
    match a
    case AddNote(id) => id != "" && IndexOf(s.notes, id).None?
    case SwitchTo(id) => IndexOf(s.notes, id).Some?
    case _ => true
  }

  function Apply(s: State, a: Action): State {
    match a
    case AddNote(id) => Create(s, id)
    case DeleteActive(c) => Delete(s, c)
    case SwitchTo(id) => Switch(s, id)
    case Type(text) => Input(s, text)
    case Recolor(c) => ChangeColor(s, c)
    case PersistNow => Persist(s)
  }

  /** Every allowed action keeps the invariant, even when the editor does not
      show the active note; it keeps the editor in sync when it was; and
      what it leaves in storage is data that reopening accepts as valid. */
  lemma ApplyKeepsInvariants(s: State, a: Action)
    requires Valid(s) && Allowed(s, a)
    ensures Valid(Apply(s, a))
    ensures Synced(s) ==> Synced(Apply(s, a))
    ensures StoredWellFormed(s.storage) ==> StoredWellFormed(Apply(s, a).storage)
  {
    match a
    case AddNote(id) => CreateKeepsInvariants(s, id);
    case DeleteActive(c) =>
      if |s.notes| == 1 {
        DeleteSole(s, c);
      } else if c {
        DeleteConfirmed(s, Find(s.notes, s.activeId).value);
      }
    case SwitchTo(id) =>
      if s.activeId != Some(id) {
        SwitchToOther(s, id);
      }
    case Type(text) =>
      InputKeepsInvariants(s, text);
      SaveCurrentEffect(s.(buffer := text));
    case Recolor(c) => ChangeColorEffect(s, c);
    case PersistNow =>
      assert Persist(s).notes == s.notes && Persist(s).activeId == s.activeId;
  }

  /** The state after a run of actions, each applied only if allowed at its
      moment; a disallowed action ends the run. */
  function Run(s: State, actions: seq<Action>): State
    decreases |actions|
  {
    if actions == [] || !Allowed(s, actions[0]) then s
    else Run(Apply(s, actions[0]), actions[1..])
  }

  /** A run of allowed actions keeps the invariant, the editor sync and
      well-formed storage. */
  lemma {:induction false} RunKeepsInvariants(s: State, actions: seq<Action>)
    requires Valid(s) && Synced(s)
    ensures Valid(Run(s, actions)) && Synced(Run(s, actions))
    ensures StoredWellFormed(s.storage) ==> StoredWellFormed(Run(s, actions).storage)
    decreases |actions|
  {
    if actions != [] && Allowed(s, actions[0]) {
      ApplyKeepsInvariants(s, actions[0]);
      RunKeepsInvariants(Apply(s, actions[0]), actions[1..]);
    }
  }

  /** For every state reachable from opening the popup on well-formed (or
      empty, or unreadable) storage by the add, delete, tab, typing, colour
      and save actions, the list is non-empty, ids are distinct, the active
      id names a note and the editor shows that note. */
  lemma ReachableValid(stored: Snapshot, readOk: bool, freshId: string, actions: seq<Action>)
    requires freshId != ""
    requires !readOk || |stored.notes| == 0 || StoredWellFormed(stored)
    ensures var r := Run(Init(Opened(stored), readOk, freshId), actions);
            Valid(r) && Synced(r) && StoredWellFormed(r.storage)
  {
    InitEstablishes(stored, readOk, freshId);
    RunKeepsInvariants(Init(Opened(stored), readOk, freshId), actions);
  }

  // ---------------------------------------------------------------------
  // Closing a tab that is not the active one

  /** A tab's close button as written: the active id is moved to that tab's
      note and `deleteNote` runs, whatever the confirmation answer. */
  function CloseTabAsWritten(s: State, id: string, confirmed: bool): State {
    Delete(s.(activeId := Some(id)), confirmed)
  }

  /** Declining to close the other tab leaves the active id on it while the
      editor still shows the previous note; the next commit (here the click
      back to the first tab) overwrites the other note's text "y" with "x". */
  lemma CloseTabAsWrittenLosesText()
    ensures var a := Note("a", "x", "x", DefaultColor);
            var b := Note("b", "y", "y", DefaultColor);
            var s := State([a, b], Some("a"), "x", Snapshot([a, b], Some("a")));
            var t := CloseTabAsWritten(s, "b", false);
            Valid(s) && Synced(s) && !Synced(t) &&
            Switch(t, "a").notes[1].content == "x"
  {
    var a := Note("a", "x", "x", DefaultColor);
    var b := Note("b", "y", "y", DefaultColor);
    var s := State([a, b], Some("a"), "x", Snapshot([a, b], Some("a")));
    var t := CloseTabAsWritten(s, "b", false);
    assert t == s.(activeId := Some("b"));
    assert WellFormed([a, b]);
    LoadActiveAt(s, 0);
    LoadActiveAt(t, 1);
  }

  /** A tab's close button as evidently intended: with two or more notes a
      declined confirmation changes nothing; otherwise the tab's note is
      deleted as `deleteNote` deletes the active note. */
  function CloseTab(s: State, id: string, confirmed: bool): State {
    if |s.notes| >= 2 && !confirmed then s else Delete(s.(activeId := Some(id)), confirmed)
  }

  /** The corrected close button keeps the invariants, removes exactly that
      tab's note when confirmed, and changes nothing when declined. */
  lemma CloseTabKeepsInvariants(s: State, id: string, confirmed: bool)
    requires Valid(s) && Synced(s) && IndexOf(s.notes, id).Some?
    ensures Valid(CloseTab(s, id, confirmed)) && Synced(CloseTab(s, id, confirmed))
    ensures |s.notes| >= 2 && !confirmed ==> CloseTab(s, id, confirmed) == s
    ensures |s.notes| >= 2 && confirmed ==>
            CloseTab(s, id, confirmed).notes == RemoveAt(s.notes, IndexOf(s.notes, id).value)
  {
    var k := IndexOf(s.notes, id).value;
    if |s.notes| == 1 {
      assert s.(activeId := Some(id)) == s;
      DeleteSole(s, confirmed);
    } else if confirmed {
      var t := s.(activeId := Some(id));
      LoadActiveAt(t, k);
      DeleteConfirmed(t, k);
    }
  }

  // ---------------------------------------------------------------------
  // The invariant without the editor sync, with the close button as written

  /** The close button as written keeps the invariant: the list stays
      non-empty with distinct ids and the active id names a note; and what
      it leaves in storage is still data that reopening accepts. */
  lemma CloseTabAsWrittenKeepsValid(s: State, id: string, confirmed: bool)
    requires Valid(s) && IndexOf(s.notes, id).Some?
    ensures Valid(CloseTabAsWritten(s, id, confirmed))
    ensures StoredWellFormed(s.storage) ==> StoredWellFormed(CloseTabAsWritten(s, id, confirmed).storage)
  {
    var t := s.(activeId := Some(id));
    if |s.notes| == 1 {
      DeleteSole(t, confirmed);
    } else if confirmed {
      DeleteConfirmed(t, IndexOf(s.notes, id).value);
    }
  }

  /** What reaches the store when the close buttons work as written: a user
      action, or a tab's close button with the answer to its confirmation. */
  datatype Event =
    | UserAction(action: Action)
    | CloseClick(tab: string, answer: bool)

  predicate EventAllowed(s: State, e: Event) {
    match e
    case UserAction(a) => Allowed(s, a)
    case CloseClick(id, _) => IndexOf(s.notes, id).Some?
  }

  function Handle(s: State, e: Event): State {
    match e
    case UserAction(a) => Apply(s, a)
    case CloseClick(id, c) => CloseTabAsWritten(s, id, c)
  }

  /** The state after a run of events; a disallowed event ends the run. */
  function RunAsWritten(s: State, events: seq<Event>): State
    decreases |events|
  {
    if events == [] || !EventAllowed(s, events[0]) then s
    else RunAsWritten(Handle(s, events[0]), events[1..])
  }

  /** No close-button click among the events. */
  predicate OnlyUserActions(events: seq<Event>) {
    forall k :: 0 <= k < |events| ==> events[k].UserAction?
  }

  /** With the close buttons as written, every run keeps the invariant and
      well-formed storage; only the editor sync can be lost
      (CloseTabAsWrittenLosesText), and a run without close clicks keeps it. */
  lemma {:induction false} RunAsWrittenKeepsValid(s: State, events: seq<Event>)
    requires Valid(s)
    ensures Valid(RunAsWritten(s, events))
    ensures StoredWellFormed(s.storage) ==> StoredWellFormed(RunAsWritten(s, events).storage)
    ensures Synced(s) && OnlyUserActions(events) ==> Synced(RunAsWritten(s, events))
    decreases |events|
  {
    if events != [] && EventAllowed(s, events[0]) {
      match events[0] {
        case UserAction(a) => ApplyKeepsInvariants(s, a);
        case CloseClick(id, c) => CloseTabAsWrittenKeepsValid(s, id, c);
      }
      assert OnlyUserActions(events) ==> OnlyUserActions(events[1..]) by {
        assert forall k :: 0 <= k < |events[1..]| ==> events[1..][k] == events[k + 1];
      }
      RunAsWrittenKeepsValid(Handle(s, events[0]), events[1..]);
    }
  }

  /** Actions given as events run exactly as the actions themselves. */
  function AsEvents(actions: seq<Action>): (r: seq<Event>)
    ensures |r| == |actions| && OnlyUserActions(r)
    ensures forall k :: 0 <= k < |r| ==> r[k] == UserAction(actions[k])
  {
    seq(|actions|, k requires 0 <= k < |actions| => UserAction(actions[k]))
  }

  lemma {:induction false} RunAsWrittenOfActions(s: State, actions: seq<Action>)
    ensures RunAsWritten(s, AsEvents(actions)) == Run(s, actions)
    decreases |actions|
  {
    if actions != [] {
      assert AsEvents(actions)[1..] == AsEvents(actions[1..]);
      RunAsWrittenOfActions(Apply(s, actions[0]), actions[1..]);
    }
  }

  // ---------------------------------------------------------------------
  // Reopening the popup

  /** One opening of the popup: whether its storage read succeeds, the id a
      first note would get, and what the user does until it is closed,
      close-button clicks included. */
  datatype Session = Session(readOk: bool, freshId: string, events: seq<Event>)

  /** The state when a session opened on `stored` ends. */
  function Closing(stored: Snapshot, e: Session): State {
    RunAsWritten(Init(Opened(stored), e.readOk, e.freshId), e.events)
  }

  /** What storage holds after a sequence of sessions, each opened on what
      the previous one left. */
  function AfterSessions(stored: Snapshot, sessions: seq<Session>): Snapshot
    decreases |sessions|
  {
    if sessions == [] then stored
    else AfterSessions(Closing(stored, sessions[0]).storage, sessions[1..])
  }

  /** The storage a later session opens on is what the first session left,
      followed by the sessions in between. */
  lemma AfterSessionsTail(stored: Snapshot, sessions: seq<Session>, k: nat)
    requires 0 < k <= |sessions|
    ensures AfterSessions(stored, sessions[..k]) ==
            AfterSessions(Closing(stored, sessions[0]).storage, sessions[1..][..k - 1])
  {
    assert sessions[..k][0] == sessions[0];
    assert sessions[..k][1..] == sessions[1..][..k - 1];
  }

  /** One session opened on empty, unreadable or well-formed storage ends
      valid, leaves well-formed storage, and is synced unless a close button
      was used. */
  lemma SessionValid(stored: Snapshot, e: Session)
    requires e.freshId != ""
    requires !e.readOk || |stored.notes| == 0 || StoredWellFormed(stored)
    ensures var r := Closing(stored, e);
            Valid(r) && StoredWellFormed(r.storage) &&
            (OnlyUserActions(e.events) ==> Synced(r))
  {
    InitEstablishes(stored, e.readOk, e.freshId);
    RunAsWrittenKeepsValid(Init(Opened(stored), e.readOk, e.freshId), e.events);
  }

  /** Across any number of openings, storage that starts empty or well formed
      stays so, and every session ends valid; a session without close-button
      clicks also ends synced. */
  lemma {:induction false} SessionsValid(stored: Snapshot, sessions: seq<Session>)
    requires |stored.notes| == 0 || StoredWellFormed(stored)
    requires forall k :: 0 <= k < |sessions| ==> sessions[k].freshId != ""
    ensures |AfterSessions(stored, sessions).notes| == 0 || StoredWellFormed(AfterSessions(stored, sessions))
    ensures sessions != [] ==> StoredWellFormed(AfterSessions(stored, sessions))
    ensures forall k :: 0 <= k < |sessions| ==>
              var r := Closing(AfterSessions(stored, sessions[..k]), sessions[k]);
              Valid(r) && (OnlyUserActions(sessions[k].events) ==> Synced(r))
    decreases |sessions|
  {
    if sessions != [] {
      var e := sessions[0];
      var next := Closing(stored, e).storage;
      SessionValid(stored, e);
      var rest := sessions[1..];
      assert forall k :: 0 <= k < |rest| ==> rest[k] == sessions[k + 1];
      SessionsValid(next, rest);
      assert AfterSessions(stored, sessions) == AfterSessions(next, rest);
      forall k | 0 <= k < |sessions|
        ensures var r := Closing(AfterSessions(stored, sessions[..k]), sessions[k]);
                Valid(r) && (OnlyUserActions(sessions[k].events) ==> Synced(r))
      {
        if k == 0 {
          assert sessions[..0] == [];
        } else {
          AfterSessionsTail(stored, sessions, k);
          assert sessions[k] == rest[k - 1];
        }
      }
    }
  }
}

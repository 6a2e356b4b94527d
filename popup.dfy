/** The popup script's operations as it performs them: on module-level
    state that is reassigned and updated in place. Every method is proved to
    leave the state that the matching function of NoteState computes, so the
    properties proved there hold of these methods. */
module Popup {
  import opened NoteText
  import opened NoteState

  /** The script's module-level `notes` and `activeNoteId`, the editor's
      `notepad.value` and the extension's storage area. */
  class NoteStore {
    var notes: seq<Note>
    var activeId: Option<string>
    var buffer: string
    var storage: Snapshot

    function Model(): State
      reads this
    {
      State(notes, activeId, buffer, storage)
    }

    /** The state when the popup opens, before `init` has run. */
    constructor (stored: Snapshot)
      ensures Model() == Opened(stored)
    {
      notes := [];
      activeId := None;
      buffer := "";
      storage := stored;
    }

    /** `saveNotes`; a failing write is not modelled. */
    method SaveNotes()
      modifies this
      ensures Model() == Persist(old(Model()))
    {
      storage := Snapshot(notes, activeId);
    }

    /** `loadNotes`; `readOk` is false when the storage read throws. */
    method LoadNotes(readOk: bool)
      modifies this
      ensures Model() == NoteState.LoadNotes(old(Model()), readOk)
    {
      if readOk {
        notes := storage.notes;
        activeId := if Falsy(storage.activeId) then None else storage.activeId;
      } else {
        notes := [];
      }
    }

    /** `loadActiveNote`. */
    method LoadActiveNote()
      modifies this
      ensures Model() == LoadActive(old(Model()))
    {
      if Falsy(activeId) && |notes| > 0 {
        activeId := Some(notes[0].id);
      }
      var k := Find(notes, activeId);
      if k.Some? {
        buffer := notes[k.value].content;
      }
    }

    /** `saveCurrentNote`. */
    method SaveCurrentNote()
      modifies this
      ensures Model() == SaveCurrent(old(Model()))
      ensures Valid(old(Model())) ==> Valid(Model()) && Synced(Model())
    {
      SaveCurrentEffect(Model());
      var k := Find(notes, activeId);
      if k.Some? {
        var note := notes[k.value].(content := buffer);
        var firstLine := Trim(FirstLine(buffer));
        if firstLine != "" {
          note := note.(title := Prefix(firstLine, TitleLength));
        }
        notes := notes[k.value := note];
      }
    }

    /** The synchronous part of `autoSave`; the debounced `saveNotes` it
        schedules is not modelled. */
    method AutoSave()
      modifies this
      ensures Model() == SaveCurrent(old(Model()))
    {
      SaveCurrentNote();
    }

    /** The editor's input event: the user's new text, then `autoSave`. */
    method EditorInput(text: string)
      modifies this
      ensures Model() == Input(old(Model()), text)
      ensures Valid(old(Model())) ==> Valid(Model()) && Synced(Model())
    {
      if Valid(Model()) {
        InputKeepsInvariants(Model(), text);
      }
      buffer := text;
      AutoSave();
    }

    /** `createNewNote`; `freshId` is the value of `generateId`, which is
        never empty and never repeats. */
    method CreateNewNote(freshId: string)
      requires freshId != "" && IndexOf(notes, freshId).None?
      modifies this
      ensures Model() == Create(old(Model()), freshId)
      ensures WellFormed(old(notes)) ==> Valid(Model()) && Synced(Model())
    {
      if WellFormed(notes) {
        CreateKeepsInvariants(Model(), freshId);
      }
      var note := Note(freshId, "", DefaultTitle(|notes| + 1), DefaultColor);
      notes := notes + [note];
      activeId := Some(freshId);
      buffer := "";
      SaveNotes();
    }

    /** `deleteNote`; `confirmed` is the user's answer to the confirmation,
        which is only asked when there are two or more notes. */
    method DeleteNote(confirmed: bool)
      modifies this
      ensures Model() == Delete(old(Model()), confirmed)
      ensures Valid(old(Model())) && Synced(old(Model())) ==> Valid(Model()) && Synced(Model())
    {
      ghost var before := Model();
      if Valid(before) && Synced(before) {
        ApplyKeepsInvariants(before, DeleteActive(confirmed));
      }
      if |notes| == 1 {
        buffer := "";
        SaveCurrentNote();
        assert Model() == Delete(before, confirmed);
      } else if confirmed {
        var found := Find(notes, activeId);
        if found.Some? {
          var index := found.value;
          notes := notes[..index] + notes[index + 1..];
          // Two or more notes were there, so the list is not empty now.
          var newIndex: nat := if index == 0 then 0 else index - 1;
          activeId := Some(notes[newIndex].id);
          ghost var removed := Model();
          assert removed == before.(notes := RemoveAt(before.notes, index), activeId := Some(notes[newIndex].id));
          LoadActiveNote();
          SaveNotes();
          assert Model() == Persist(LoadActive(removed));
        }
      }
    }

    /** `switchToNote`; the tabs only ever pass the id of an existing note. */
    method SwitchToNote(id: string)
      requires IndexOf(notes, id).Some?
      modifies this
      ensures Model() == Switch(old(Model()), id)
      ensures Valid(old(Model())) ==> Valid(Model())
      ensures Valid(old(Model())) && (Synced(old(Model())) || old(activeId) != Some(id)) ==> Synced(Model())
    {
      if Valid(Model()) && activeId != Some(id) {
        SwitchToOther(Model(), id);
      }
      if activeId == Some(id) {
        return;
      }
      SaveCurrentNote();
      activeId := Some(id);
      LoadActiveNote();
      SaveNotes();
    }

    /** `changeNoteColor`. */
    method ChangeNoteColor(color: string)
      modifies this
      ensures Model() == ChangeColor(old(Model()), color)
      ensures Valid(old(Model())) && Synced(old(Model())) ==> Valid(Model()) && Synced(Model())
    {
      ChangeColorEffect(Model(), color);
      var k := Find(notes, activeId);
      if k.Some? {
        notes := notes[k.value := notes[k.value].(color := color)];
        SaveNotes();
      }
    }

    /** `init`; `freshId` is the id `generateId` would give a first note. */
    method Init(readOk: bool, freshId: string)
      requires freshId != ""
      modifies this
      ensures Model() == NoteState.Init(old(Model()), readOk, freshId)
      ensures |notes| > 0
    {
      LoadNotes(readOk);
      if |notes| == 0 {
        CreateNewNote(freshId);
      } else {
        LoadActiveNote();
      }
    }
  }

  /** Opening the popup and running `init`: whatever storage holds, at least
      one note exists afterwards, and stored data the script could have
      written gives a store whose active id names a note shown in the editor. */
  method OpenPopup(stored: Snapshot, readOk: bool, freshId: string) returns (store: NoteStore)
    requires freshId != ""
    ensures fresh(store)
    ensures store.Model() == NoteState.Init(Opened(stored), readOk, freshId)
    ensures |store.notes| > 0
    ensures !readOk || |stored.notes| == 0 || StoredWellFormed(stored) ==>
            Valid(store.Model()) && Synced(store.Model())
  {
    InitEstablishes(stored, readOk, freshId);
    store := new NoteStore(stored);
    store.Init(readOk, freshId);
  }
}

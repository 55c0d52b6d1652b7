/** The keyboard listener and the table events as one sequential state
    machine: `on_press`, `on_release`, `check_hotkeys`, `on_cell_clicked`,
    `start_hotkey_recording`, `add_entry` and `delete_entry`. The clipboard
    and the settings file are replaced by a plain `clipboard` field and a
    count of saves. */
module Listener {
  import opened Text
  import opened Keys
  import opened LexOrder
  import opened Hotkeys
  import opened Registry

  /** `current_editing_row` when no table row is being rebound. */
  const NoRow: int := -1

  /** The table column that holds the hotkeys. */
  const HotkeyColumn: int := 1

  /** The part of `ClipboardManager` the handlers read and write. */
  datatype State = State(
    held: set<string>,      // current_keys
    recording: bool,        // is_recording
    editingRow: int,        // current_editing_row
    entries: seq<Entry>,    // entries
    clipboard: string,      // the last text given to pyperclip.copy
    hotkeyInput: string,    // the read-only hotkey box
    saves: nat              // calls to save_settings
  )

  /** What can happen: a key event from the hook, a click on a table cell, a
      click on the hotkey box, the add button (with the text box contents),
      and the delete button of a row. */
  datatype Event =
    | Press(key: Key)
    | Release(key: Key)
    | CellClick(row: int, column: int)
    | InputClick
    | AddEntry(text: string)
    | DeleteEntry(row: int)

  /** The states the handlers keep: a target row is only set while recording
      and names an existing entry; held tokens are non-empty and lower case;
      while recording, only modifiers are held. */
  predicate Valid(s: State) {
    && (s.editingRow == NoRow || (0 <= s.editingRow < |s.entries| && s.recording))
    && (forall t :: t in s.held ==> t != "" && IsLowercase(t))
    && (s.recording ==> forall t :: t in s.held ==> IsModifier(t))
  }

  /** The events the model admits: Qt only reports clicks on existing
      cells; a delete names an existing row (a stale button past the end of
      the list makes `delete_entry` raise instead); and a row being rebound
      is not moved out of the list. */
  predicate Allowed(s: State, e: Event) {
    match e
    case CellClick(row, column) => column == HotkeyColumn ==> 0 <= row < |s.entries|
    case DeleteEntry(row) =>
      && 0 <= row < |s.entries|
      && (s.editingRow == NoRow || s.editingRow < |s.entries| - 1)
    case _ => true
  }

  /** Start-up: the loaded entries seeded with the defaults when empty; no
      key is held, nothing is recorded and nothing has been saved. */
  function Init(loaded: seq<Entry>, clipboard: string): (s: State)
    ensures Valid(s)
    ensures s.entries == Seed(loaded)
    ensures |s.entries| > 0 && (|loaded| > 0 ==> s.entries == loaded)
    ensures |loaded| == 0 ==> s.entries == DefaultEntries
    ensures s.held == {} && !s.recording && s.editingRow == NoRow && s.saves == 0
    ensures s.hotkeyInput == "" && s.clipboard == clipboard
  {
    State({}, false, NoRow, Seed(loaded), clipboard, "", 0)
  }

  // ---------------------------------------------------------------------
  // check_hotkeys
  // ---------------------------------------------------------------------

  /** Whether an entry's hotkey, put through the normaliser `norm`, equals
      the chord string. The dispatch loop is stated for any normaliser; the
      program passes `normalize_hotkey`. */
  predicate Matches(norm: string -> string, e: Entry, chord: string) {
    norm(e.hotkey) == chord
  }

  predicate HasMatch(norm: string -> string, entries: seq<Entry>, chord: string) {
    exists i :: 0 <= i < |entries| && Matches(norm, entries[i], chord)
  }

  /** Entry `i` matches and no later entry does. */
  predicate IsLastMatch(norm: string -> string, entries: seq<Entry>, chord: string, i: int) {
    && 0 <= i < |entries|
    && Matches(norm, entries[i], chord)
    && forall j :: i < j < |entries| ==> !Matches(norm, entries[j], chord)
  }

  /** The loop of `check_hotkeys`: every matching entry is copied in list
      order. The result is the clipboard's earlier value or the text of one
      of the entries; `DispatchLastMatch` says which. */
  function Dispatch(norm: string -> string, entries: seq<Entry>, chord: string, clipboard: string): (r: string)
    ensures r == clipboard || exists i :: 0 <= i < |entries| && r == entries[i].text
    decreases |entries|
  {
    if |entries| == 0 then clipboard
    else
      var next := if Matches(norm, entries[0], chord) then entries[0].text else clipboard;
      var r := Dispatch(norm, entries[1..], chord, next);
      assert r != next ==> exists i :: 0 <= i < |entries[1..]| && r == entries[1..][i].text;
      assert forall i :: 0 <= i < |entries[1..]| ==> entries[1..][i] == entries[i + 1];
      r
  }

  /** The last match wins: after the loop the clipboard holds the text of
      the last matching entry, and keeps its value when no entry matches. */
  lemma {:induction false} DispatchLastMatch(norm: string -> string, entries: seq<Entry>, chord: string, clipboard: string)
    ensures !HasMatch(norm, entries, chord) ==> Dispatch(norm, entries, chord, clipboard) == clipboard
    ensures forall i :: IsLastMatch(norm, entries, chord, i) ==> Dispatch(norm, entries, chord, clipboard) == entries[i].text
    decreases |entries|
  {
    if |entries| > 0 {
      var next := if Matches(norm, entries[0], chord) then entries[0].text else clipboard;
      LastMatchTail(norm, entries, chord);
      DispatchLastMatch(norm, entries[1..], chord, next);
    }
  }

  /** Matches and last matches of a list, seen from its tail. */
  lemma LastMatchTail(norm: string -> string, entries: seq<Entry>, chord: string)
    requires |entries| > 0
    ensures forall i :: IsLastMatch(norm, entries, chord, i) && i > 0 ==> IsLastMatch(norm, entries[1..], chord, i - 1)
    ensures HasMatch(norm, entries[1..], chord) ==> HasMatch(norm, entries, chord)
  {
    var tail := entries[1..];
    forall i | IsLastMatch(norm, entries, chord, i) && i > 0
      ensures IsLastMatch(norm, tail, chord, i - 1)
    {
      assert tail[i - 1] == entries[i];
      forall j | i - 1 < j < |tail|
        ensures !Matches(norm, tail[j], chord)
      {
        assert tail[j] == entries[j + 1];
      }
    }
    if HasMatch(norm, tail, chord) {
      var i :| 0 <= i < |tail| && Matches(norm, tail[i], chord);
      assert tail[i] == entries[i + 1];
    }
  }

  /** Any match has a last match. */
  lemma {:induction false} LastMatchExists(norm: string -> string, entries: seq<Entry>, chord: string)
    requires HasMatch(norm, entries, chord)
    ensures exists i :: IsLastMatch(norm, entries, chord, i)
    decreases |entries|
  {
    var n := |entries| - 1;
    if Matches(norm, entries[n], chord) {
      assert IsLastMatch(norm, entries, chord, n);
    } else {
      var i :| 0 <= i < |entries| && Matches(norm, entries[i], chord);
      var front := entries[..n];
      assert Matches(norm, front[i], chord);
      LastMatchExists(norm, front, chord);
      var k :| IsLastMatch(norm, front, chord, k);
      assert IsLastMatch(norm, entries, chord, k);
    }
  }

  /** Dispatching the same chord twice copies nothing new: a key held down
      and repeated leaves the clipboard as the first press left it. */
  lemma DispatchIdempotent(norm: string -> string, entries: seq<Entry>, chord: string, clipboard: string)
    ensures Dispatch(norm, entries, chord, Dispatch(norm, entries, chord, clipboard))
         == Dispatch(norm, entries, chord, clipboard)
  {
    var once := Dispatch(norm, entries, chord, clipboard);
    DispatchLastMatch(norm, entries, chord, clipboard);
    DispatchLastMatch(norm, entries, chord, once);
    if HasMatch(norm, entries, chord) {
      LastMatchExists(norm, entries, chord);
    }
  }

  /** Once some entry matches, the clipboard's earlier value is forgotten. */
  lemma DispatchIgnoresStart(norm: string -> string, entries: seq<Entry>, chord: string, c1: string, c2: string)
    requires HasMatch(norm, entries, chord)
    ensures Dispatch(norm, entries, chord, c1) == Dispatch(norm, entries, chord, c2)
  {
    DispatchLastMatch(norm, entries, chord, c1);
    DispatchLastMatch(norm, entries, chord, c2);
    LastMatchExists(norm, entries, chord);
  }

  /** `check_hotkeys` as written: the chord is `'+'.join(sorted(held))`. */
  function CheckHotkeys(entries: seq<Entry>, held: set<string>, clipboard: string): string {
    Dispatch(Normalize, entries, PressedChord(held), clipboard)
  }

  /** `check_hotkeys` with the live chord normalised like the stored
      hotkeys. */
  function CheckHotkeysFixed(entries: seq<Entry>, held: set<string>, clipboard: string): string {
    Dispatch(Normalize, entries, FixedPressedChord(held), clipboard)
  }

  /** Normalising the live chord only adds matches: when the code as
      written finds a match, the corrected check gives the same clipboard. */
  lemma FixKeepsWrittenMatches(entries: seq<Entry>, held: set<string>, clipboard: string)
    requires WellFormedHeld(held) && held != {}
    requires HasMatch(Normalize, entries, PressedChord(held))
    ensures CheckHotkeysFixed(entries, held, clipboard) == CheckHotkeys(entries, held, clipboard)
  {
    var i :| 0 <= i < |entries| && Matches(Normalize, entries[i], PressedChord(held));
    FixedChordAgrees(entries[i].hotkey, held);
  }

  // ---------------------------------------------------------------------
  // The handlers
  // ---------------------------------------------------------------------

  /** The inner `on_press`. */
  function OnPress(s: State, k: Key): State
    requires s.editingRow == NoRow || 0 <= s.editingRow < |s.entries|
  {
    var token := KeyToken(k);
    if !IsActive(token) then s
    else
      var t := token.value;
      var held := s.held + {t};
      if !s.recording then
        s.(held := held, clipboard := CheckHotkeys(s.entries, held, s.clipboard))
      else if IsModifier(t) then
        s.(held := held)
      else
        var hotkey := RecordingChord(held);
        if s.editingRow != NoRow then
          s.(held := held, recording := false, editingRow := NoRow,
             entries := Rebind(s.entries, s.editingRow, hotkey), saves := s.saves + 1)
        else
          s.(held := held, recording := false, hotkeyInput := hotkey)
  }

  /** The inner `on_release`. */
  function OnRelease(s: State, k: Key): State {
    var token := KeyToken(k);
    if IsActive(token) then s.(held := s.held - {token.value}) else s
  }

  /** `on_cell_clicked`: a click on the hotkey column starts recording for
      that row. */
  function OnCellClicked(s: State, row: int, column: int): State {
    if column == HotkeyColumn then
      s.(editingRow := row, recording := true, held := {}, hotkeyInput := "")
    else s
  }

  /** `start_hotkey_recording`, run by a click on the hotkey box. */
  function StartHotkeyRecording(s: State): State {
    s.(recording := true, held := {}, hotkeyInput := "")
  }

  /** `add_entry`: appends when both the text and the recorded hotkey are
      non-empty, then clears the hotkey box. */
  function OnAddEntry(s: State, text: string): State {
    if text != "" && s.hotkeyInput != "" then
      s.(entries := Append(s.entries, text, s.hotkeyInput), hotkeyInput := "")
    else s
  }

  /** `delete_entry`, list part. */
  function OnDeleteEntry(s: State, row: int): State
    requires 0 <= row < |s.entries|
  {
    s.(entries := RemoveAt(s.entries, row))
  }

  /** One event, from a valid state, leads to a valid state. */
  function Step(s: State, e: Event): (r: State)
    requires Valid(s) && Allowed(s, e)
    ensures Valid(r)
  {
    match e
    case Press(k) =>
      var r := OnPress(s, k);
      assert KeyToken(k).Some? ==> IsLowercase(KeyToken(k).value);
      r
    case Release(k) => OnRelease(s, k)
    case CellClick(row, column) => OnCellClicked(s, row, column)
    case InputClick => StartHotkeyRecording(s)
    case AddEntry(text) => OnAddEntry(s, text)
    case DeleteEntry(row) => OnDeleteEntry(s, row)
  }

  // ---------------------------------------------------------------------
  // Key events
  // ---------------------------------------------------------------------

  /** A key without an active token changes nothing, pressed or released. */
  lemma InactiveKeyIgnored(s: State, k: Key)
    requires Valid(s) && !IsActive(KeyToken(k))
    ensures Step(s, Press(k)) == s
    ensures Step(s, Release(k)) == s
  {
  }

  /** A press adds its token to the held set in every mode, so pressing the
      same key again leaves the held set as it was. */
  lemma PressAddsToken(s: State, k: Key)
    requires Valid(s) && IsActive(KeyToken(k))
    ensures Step(s, Press(k)).held == s.held + {KeyToken(k).value}
    ensures Step(Step(s, Press(k)), Press(k)).held == Step(s, Press(k)).held
  {
  }

  /** While listening, a repeated press of a held key is a no-op on the
      whole state: the same chord is dispatched again. */
  lemma ListeningRepeatIdempotent(s: State, k: Key)
    requires Valid(s) && !s.recording && IsActive(KeyToken(k))
    ensures Step(Step(s, Press(k)), Press(k)) == Step(s, Press(k))
  {
    var r := Step(s, Press(k));
    DispatchIdempotent(Normalize, s.entries, PressedChord(r.held), s.clipboard);
  }

  /** A release discards the token and touches nothing else: not the mode,
      the target row, the entries or the clipboard. Releasing a key that is
      not held changes nothing. */
  lemma ReleaseDiscards(s: State, k: Key)
    requires Valid(s) && IsActive(KeyToken(k))
    ensures Step(s, Release(k)) == s.(held := s.held - {KeyToken(k).value})
    ensures KeyToken(k).value !in s.held ==> Step(s, Release(k)) == s
  {
  }

  /** Releasing right cmd removes `cmd` even while left cmd is still down. */
  lemma ReleaseRightCmd(s: State)
    requires Valid(s)
    ensures Step(s, Release(Named("cmd_r"))).held == s.held - {"cmd"}
  {
    NamedModifierTokens();
  }

  /** Pressing and then releasing a key that was not held gives back the
      held set. */
  lemma PressReleaseRestoresHeld(s: State, k: Key)
    requires Valid(s) && IsActive(KeyToken(k)) && KeyToken(k).value !in s.held
    ensures Step(Step(s, Press(k)), Release(k)).held == s.held
  {
  }

  /** A press while listening: the entries, the mode and the recording
      fields stay; the clipboard takes the text of the last entry whose
      normalised hotkey equals `'+'.join(sorted(held))`, and keeps its value
      when there is none. */
  lemma ListeningPress(s: State, k: Key)
    requires Valid(s) && !s.recording && IsActive(KeyToken(k))
    ensures var r := Step(s, Press(k));
      && r.held == s.held + {KeyToken(k).value}
      && !r.recording && r.editingRow == s.editingRow
      && r.entries == s.entries && r.saves == s.saves && r.hotkeyInput == s.hotkeyInput
    ensures var r := Step(s, Press(k));
      forall i :: IsLastMatch(Normalize, s.entries, PressedChord(r.held), i) ==> r.clipboard == s.entries[i].text
    ensures var r := Step(s, Press(k));
      !HasMatch(Normalize, s.entries, PressedChord(r.held)) ==> r.clipboard == s.clipboard
  {
    var held := s.held + {KeyToken(k).value};
    DispatchLastMatch(Normalize, s.entries, PressedChord(held), s.clipboard);
  }

  /** The chord compared depends only on which keys are held: pressing two
      keys in either order gives the same held set and, when that chord
      matches an entry, the same clipboard. */
  lemma PressOrderIrrelevant(s: State, a: Key, b: Key)
    requires Valid(s) && !s.recording && IsActive(KeyToken(a)) && IsActive(KeyToken(b))
    ensures Step(Step(s, Press(a)), Press(b)).held == Step(Step(s, Press(b)), Press(a)).held
    ensures var r := Step(Step(s, Press(a)), Press(b));
      HasMatch(Normalize, s.entries, PressedChord(r.held))
      ==> r.clipboard == Step(Step(s, Press(b)), Press(a)).clipboard
  {
    var ta, tb := KeyToken(a).value, KeyToken(b).value;
    var held := s.held + {ta} + {tb};
    assert s.held + {tb} + {ta} == held;
    var chord := PressedChord(held);
    var ca := CheckHotkeys(s.entries, s.held + {ta}, s.clipboard);
    var cb := CheckHotkeys(s.entries, s.held + {tb}, s.clipboard);
    assert Step(Step(s, Press(a)), Press(b)).clipboard == Dispatch(Normalize, s.entries, chord, ca);
    assert Step(Step(s, Press(b)), Press(a)).clipboard == Dispatch(Normalize, s.entries, chord, cb);
    if HasMatch(Normalize, s.entries, chord) {
      DispatchIgnoresStart(Normalize, s.entries, chord, ca, cb);
    }
  }

  // ---------------------------------------------------------------------
  // Recording
  // ---------------------------------------------------------------------

  /** A click on a hotkey cell starts recording for that row with nothing
      held and an empty hotkey box; a click on another column does nothing. */
  lemma CellClickStartsRecording(s: State, row: int, column: int)
    requires Valid(s) && Allowed(s, CellClick(row, column))
    ensures var r := Step(s, CellClick(row, column));
      column == HotkeyColumn ==>
        && r.recording && r.held == {} && r.editingRow == row && r.hotkeyInput == ""
        && r.entries == s.entries && r.clipboard == s.clipboard && r.saves == s.saves
    ensures column != HotkeyColumn ==> Step(s, CellClick(row, column)) == s
  {
  }

  /** A click on the hotkey box starts recording with nothing held and an
      empty box, and leaves an earlier target row in place. */
  lemma InputClickStartsRecording(s: State)
    requires Valid(s)
    ensures var r := Step(s, InputClick);
      && r.recording && r.held == {} && r.hotkeyInput == ""
      && r.editingRow == s.editingRow
      && r.entries == s.entries && r.clipboard == s.clipboard && r.saves == s.saves
  {
  }

  /** While recording, a modifier press only adds the modifier. */
  lemma RecordingModifierAccumulates(s: State, k: Key)
    requires Valid(s) && s.recording && IsActive(KeyToken(k)) && IsModifier(KeyToken(k).value)
    ensures Step(s, Press(k)) == s.(held := s.held + {KeyToken(k).value})
  {
  }

  /** The first non-modifier press while recording builds the hotkey from
      the held modifiers in priority order followed by that key, and leaves
      recording without clearing the held set. With a target row, only that
      entry's hotkey changes, the row is released and the entries are saved;
      otherwise the hotkey goes to the hotkey box and the entries stay. */
  lemma RecordingCompletes(s: State, k: Key)
    requires Valid(s) && s.recording && IsActive(KeyToken(k)) && !IsModifier(KeyToken(k).value)
    ensures var t := KeyToken(k).value;
      var hotkey := Join(SortByRank(LexSort(s.held)) + [t]);
      var r := Step(s, Press(k));
      && r.held == s.held + {t} && !r.recording && r.editingRow == NoRow
      && r.clipboard == s.clipboard
      && (s.editingRow != NoRow ==>
            r.entries == Rebind(s.entries, s.editingRow, hotkey)
            && r.saves == s.saves + 1 && r.hotkeyInput == s.hotkeyInput)
      && (s.editingRow == NoRow ==>
            r.entries == s.entries && r.saves == s.saves && r.hotkeyInput == hotkey)
  {
    var t := KeyToken(k).value;
    RecordingChordOfKey(s.held, t);
    assert RecordingChord(s.held + {t}) == Join(SortByRank(LexSort(s.held)) + [t]);
  }

  /** The hotkey recorded from a key whose token has no `'+'` is already in
      normal form. As written it matches the live chord of the keys held at
      that moment exactly when their string order puts the modifiers first
      in priority order; with the live chord normalised it always does. */
  lemma RecordedHotkeyNormal(s: State, k: Key)
    requires Valid(s) && s.recording && IsActive(KeyToken(k)) && !IsModifier(KeyToken(k).value)
    requires Sep !in KeyToken(k).value
    ensures var held := s.held + {KeyToken(k).value};
      var hotkey := RecordingChord(held);
      && Normalize(hotkey) == hotkey
      && (Normalize(hotkey) == PressedChord(held) <==> RankSorted(LexSort(held)))
      && Normalize(hotkey) == FixedPressedChord(held)
  {
    var t := KeyToken(k).value;
    var held := s.held + {t};
    forall x | x in held
      ensures x != "" && Sep !in x && IsLowercase(x)
    {
      if x != t {
        assert IsModifier(x);
      }
    }
    RecordedChordFiresWhenFixed(held);
    RecordedFiresIff(held);
  }

  /** Whether the event rebinds a table row: a non-modifier press that ends
      a recording with a target row. */
  predicate Rebinds(s: State, e: Event) {
    && e.Press?
    && s.recording
    && IsActive(KeyToken(e.key))
    && !IsModifier(KeyToken(e.key).value)
    && s.editingRow != NoRow
  }

  /** Only a row rebinding saves; adding and deleting entries do not. */
  lemma SavesOnlyOnRebind(s: State, e: Event)
    requires Valid(s) && Allowed(s, e)
    ensures Step(s, e).saves == s.saves + (if Rebinds(s, e) then 1 else 0)
  {
  }

  // ---------------------------------------------------------------------
  // Adding and deleting entries
  // ---------------------------------------------------------------------

  /** The add button appends the text with the recorded hotkey, at the end,
      exactly when both are non-empty, and then empties the hotkey box;
      otherwise nothing changes. */
  lemma AddEntryAppends(s: State, text: string)
    requires Valid(s)
    ensures var r := Step(s, AddEntry(text));
      |r.entries| == |s.entries| + 1 <==> text != "" && s.hotkeyInput != ""
    ensures var r := Step(s, AddEntry(text));
      text != "" && s.hotkeyInput != "" ==>
        r == s.(entries := Append(s.entries, text, s.hotkeyInput), hotkeyInput := "")
    ensures !(text != "" && s.hotkeyInput != "") ==> Step(s, AddEntry(text)) == s
  {
  }

  /** The delete button removes that row's entry and nothing else. */
  lemma DeleteEntryRemoves(s: State, row: int)
    requires Valid(s) && Allowed(s, DeleteEntry(row))
    ensures Step(s, DeleteEntry(row)) == s.(entries := RemoveAt(s.entries, row))
  {
  }
}

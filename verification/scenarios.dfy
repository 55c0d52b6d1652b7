/** Whole interactions, event by event, from a recorded hotkey to the entry
    it rebinds, and from held keys to the text copied. */
module Scenarios {
  import opened Text
  import opened Keys
  import opened LexOrder
  import opened Hotkeys
  import opened Registry
  import opened Listener

  /** The token of `Key.ctrl`, `Key.shift` and the character key `k`. */
  lemma ScenarioTokens()
    ensures KeyToken(Named("ctrl")) == Some("ctrl")
    ensures KeyToken(Named("shift")) == Some("shift")
    ensures KeyToken(Named("cmd")) == Some("cmd")
    ensures KeyToken(Char(Some("k"))) == Some("k")
    ensures KeyToken(Char(Some("h"))) == Some("h")
    ensures KeyToken(Char(Some("y"))) == Some("y")
  {
    NamedModifierTokens();
    LowercaseFixed("k");
    LowercaseFixed("h");
    LowercaseFixed("y");
  }

  /** The hotkey recorded from ctrl and shift held and k pressed. */
  lemma CtrlShiftK()
    ensures Join(SortByRank(LexSort({"ctrl", "shift"})) + ["k"]) == "ctrl+shift+k"
  {
    var l := ["ctrl", "shift"];
    assert LexLess(l[0], l[1]);
    LexSortOf({"ctrl", "shift"}, l);
    CtrlShiftKJoin();
  }

  lemma CtrlShiftKJoin()
    ensures Join(SortByRank(["ctrl", "shift"]) + ["k"]) == "ctrl+shift+k"
  {
    CtrlShiftRankSorted();
    var t := ["ctrl", "shift"] + ["k"];
    assert t == ["ctrl", "shift", "k"];
    assert Join(t[1..]) == "shift+k" by {
      assert t[1..][1..] == ["k"];
    }
    assert Join(t) == "ctrl" + [Sep] + "shift+k";
  }

  /** Ctrl before shift is already priority order. */
  lemma CtrlShiftRankSorted()
    ensures SortByRank(["ctrl", "shift"]) == ["ctrl", "shift"]
  {
    var l := ["ctrl", "shift"];
    assert RankSorted(l) by {
      assert Rank(l[0]) <= Rank(l[1]);
    }
    SortKeepsSorted(l);
  }

  /** The hotkey recorded from ctrl held and k pressed. */
  lemma CtrlK()
    ensures Join(SortByRank(LexSort({"ctrl"})) + ["k"]) == "ctrl+k"
  {
    LexSortOf({"ctrl"}, ["ctrl"]);
    assert ["ctrl"] + ["k"] == ["ctrl", "k"];
  }

  /** Clicking the hotkey cell of row 2 and pressing ctrl and shift: row 2
      is the target, both modifiers are held, and nothing else changed. */
  lemma RecordRowModifiers(s: State)
    requires Valid(s) && |s.entries| >= 3
    ensures var s1 := Step(s, CellClick(2, HotkeyColumn));
      var s2 := Step(s1, Press(Named("ctrl")));
      Step(s2, Press(Named("shift")))
        == s.(recording := true, held := {"ctrl", "shift"}, editingRow := 2, hotkeyInput := "")
  {
    ScenarioTokens();
    var s1 := Step(s, CellClick(2, HotkeyColumn));
    CellClickStartsRecording(s, 2, HotkeyColumn);
    var s2 := Step(s1, Press(Named("ctrl")));
    RecordingModifierAccumulates(s1, Named("ctrl"));
    RecordingModifierAccumulates(s2, Named("shift"));
  }

  /** Pressing k with ctrl and shift held while row 2 is the target. */
  lemma RecordRowKey(s: State)
    requires Valid(s) && s.recording && s.held == {"ctrl", "shift"} && s.editingRow == 2
    ensures var r := Step(s, Press(Char(Some("k"))));
      && r.entries == Rebind(s.entries, 2, "ctrl+shift+k")
      && r.saves == s.saves + 1 && !r.recording && r.editingRow == NoRow
      && r.held == {"ctrl", "shift", "k"}
  {
    var k := Char(Some("k"));
    ScenarioTokens();
    RecordingCompletes(s, k);
    var r := Step(s, Press(k));
    assert r.held == s.held + {"k"};
    assert r.entries == Rebind(s.entries, 2, Join(SortByRank(LexSort(s.held)) + ["k"]));
    CtrlShiftK();
  }

  /** Clicking the hotkey cell of row 2 and pressing ctrl, shift and k
      rebinds row 2 to `ctrl+shift+k`, saves once and leaves the other rows
      alone; recording ends with the three keys still held. */
  lemma ScenarioRecordRow(s: State)
    requires Valid(s) && |s.entries| >= 3
    ensures var s1 := Step(s, CellClick(2, HotkeyColumn));
      var s2 := Step(s1, Press(Named("ctrl")));
      var s3 := Step(s2, Press(Named("shift")));
      var r := Step(s3, Press(Char(Some("k"))));
      && r.entries == Rebind(s.entries, 2, "ctrl+shift+k")
      && r.saves == s.saves + 1 && !r.recording && r.editingRow == NoRow
      && r.held == {"ctrl", "shift", "k"}
  {
    RecordRowModifiers(s);
    var s3 := s.(recording := true, held := {"ctrl", "shift"}, editingRow := 2, hotkeyInput := "");
    RecordRowKey(s3);
  }

  /** As written, the hotkey `ctrl+shift+k` recorded above does not match
      the live chord of those three keys; with the live chord normalised it
      does. */
  lemma ScenarioRecordedMatch()
    ensures Normalize("ctrl+shift+k") != PressedChord({"ctrl", "shift", "k"})
    ensures Normalize("ctrl+shift+k") == FixedPressedChord({"ctrl", "shift", "k"})
  {
    var held: set<string> := {"ctrl", "shift", "k"};
    var mods: set<string> := {"ctrl", "shift"};
    CtrlShiftKWellFormed();
    assert held == mods + {"k"};
    RecordingChordOfKey(mods, "k");
    CtrlShiftK();
    RecordedChordMissed();
    RecordedChordFiresWhenFixed(held);
  }

  /** A click on the hotkey box and ctrl then k put `ctrl+k` in the box;
      the add button then appends the new entry at the end. */
  lemma ScenarioRecordAndAdd(s: State, text: string)
    requires Valid(s) && s.editingRow == NoRow && text != ""
    ensures var s1 := Step(s, InputClick);
      var s2 := Step(s1, Press(Named("ctrl")));
      var s3 := Step(s2, Press(Char(Some("k"))));
      var r := Step(s3, AddEntry(text));
      && s3.hotkeyInput == "ctrl+k"
      && r.entries == s.entries + [Entry(text, "ctrl+k")]
      && r.hotkeyInput == "" && r.saves == s.saves
  {
    ScenarioTokens();
    var s1 := Step(s, InputClick);
    InputClickStartsRecording(s);
    var s2 := Step(s1, Press(Named("ctrl")));
    RecordingModifierAccumulates(s1, Named("ctrl"));
    assert s2.held == {"ctrl"};
    var k := Char(Some("k"));
    var s3 := Step(s2, Press(k));
    RecordingCompletes(s2, k);
    CtrlK();
    AddEntryAppends(s3, text);
  }

  /** Two keys held, listed in string order with the modifier (if any)
      first: the live chord is the two joined with `'+'`, and that chord is
      its own normal form. */
  lemma TwoKeyChord(a: string, b: string, held: set<string>)
    requires held == {a, b} && LexLess(a, b) && Rank(a) <= Rank(b)
    requires a != "" && b != "" && Sep !in a && Sep !in b && IsLowercase(a) && IsLowercase(b)
    ensures PressedChord(held) == a + [Sep] + b
    ensures Normalize(a + [Sep] + b) == a + [Sep] + b
  {
    var t := [a, b];
    LexSortOf(held, t);
    assert RankSorted(t) && AllLowercase(t) && SepFree(t);
    NormalFormFixed(t);
  }

  /** An entry whose hotkey names two keys in that order matches when
      exactly those keys are held. */
  lemma MatchesTwoKeys(e: Entry, a: string, b: string, held: set<string>)
    requires e.hotkey == a + [Sep] + b
    requires held == {a, b} && LexLess(a, b) && Rank(a) <= Rank(b)
    requires a != "" && b != "" && Sep !in a && Sep !in b && IsLowercase(a) && IsLowercase(b)
    ensures Matches(Normalize, e, PressedChord(held))
  {
    TwoKeyChord(a, b, held);
  }

  /** The first press of a two-key chord while listening, from nothing
      held: the key is held and nothing else of note changes. */
  lemma FirstPress(s: State, k: Key, t: string)
    requires Valid(s) && !s.recording && s.held == {} && KeyToken(k) == Some(t) && t != ""
    ensures var s1 := Step(s, Press(k));
      Valid(s1) && !s1.recording && s1.held == {t} && s1.entries == s.entries
  {
    ListeningPress(s, k);
  }

  /** The second press: the entry at `i` is the last match of the chord. */
  lemma SecondPress(s1: State, k: Key, held: set<string>, i: int)
    requires Valid(s1) && !s1.recording && IsActive(KeyToken(k))
    requires held == s1.held + {KeyToken(k).value}
    requires IsLastMatch(Normalize, s1.entries, PressedChord(held), i)
    ensures Step(s1, Press(k)).clipboard == s1.entries[i].text
  {
    ListeningPress(s1, k);
  }

  /** With one entry, say `hello`, on `ctrl+h`, pressing ctrl and then h
      copies its text. */
  lemma ScenarioCopyHello(s: State, text: string)
    requires Valid(s) && !s.recording && s.held == {}
    requires s.entries == [Entry(text, "ctrl+h")]
    ensures Step(Step(s, Press(Named("ctrl"))), Press(Char(Some("h")))).clipboard == text
  {
    assert KeyToken(Named("ctrl")) == Some("ctrl");
    FirstPress(s, Named("ctrl"), "ctrl");
    PressH(Step(s, Press(Named("ctrl"))), text);
  }

  lemma PressH(s1: State, text: string)
    requires Valid(s1) && !s1.recording && s1.held == {"ctrl"}
    requires s1.entries == [Entry(text, "ctrl+h")]
    ensures Step(s1, Press(Char(Some("h")))).clipboard == text
  {
    ScenarioTokens();
    var held: set<string> := {"ctrl", "h"};
    assert s1.held + {"h"} == held;
    OnlyEntryMatches(s1.entries, text, held);
    SecondPress(s1, Char(Some("h")), held, 0);
  }

  lemma OnlyEntryMatches(entries: seq<Entry>, text: string, held: set<string>)
    requires entries == [Entry(text, "ctrl+h")] && held == {"ctrl", "h"}
    ensures IsLastMatch(Normalize, entries, PressedChord(held), 0)
  {
    MatchesTwoKeys(entries[0], "ctrl", "h", held);
  }

  /** A stored hotkey `+` fires when the plus key is pressed alone, although
      `CanFire` rejects it (`PlusKeyOutside`): splitting `+` gives two empty
      parts that join back into `+`, the live chord of that key held alone. */
  lemma PlusHotkeyFires(s: State, text: string)
    requires Valid(s) && !s.recording && s.held == {}
    requires s.entries == [Entry(text, "+")]
    ensures Step(s, Press(Char(Some("+")))).clipboard == text
  {
    var k := Char(Some("+"));
    var held: set<string> := {"+"};
    assert KeyToken(k) == Some("+") by {
      LowercaseFixed("+");
    }
    assert s.held + {"+"} == held;
    PlusEntryMatches(s.entries, text);
    SecondPress(s, k, held, 0);
  }

  lemma PlusEntryMatches(entries: seq<Entry>, text: string)
    requires entries == [Entry(text, "+")]
    ensures IsLastMatch(Normalize, entries, PressedChord({"+"}), 0)
  {
    PlusKeyOutside();
  }

  /** Two entries on the same hotkey `cmd+y`: pressing cmd and then y copies
      the text of the later one. */
  lemma ScenarioLastWins(s: State, first: Entry, second: Entry)
    requires Valid(s) && !s.recording && s.held == {}
    requires first.hotkey == "cmd+y" && second.hotkey == "cmd+y"
    requires s.entries == [first, second]
    ensures Step(Step(s, Press(Named("cmd"))), Press(Char(Some("y")))).clipboard == second.text
  {
    assert KeyToken(Named("cmd")) == Some("cmd");
    FirstPress(s, Named("cmd"), "cmd");
    PressY(Step(s, Press(Named("cmd"))), second);
  }

  lemma PressY(s1: State, second: Entry)
    requires Valid(s1) && !s1.recording && s1.held == {"cmd"}
    requires |s1.entries| == 2 && s1.entries[1] == second && second.hotkey == "cmd+y"
    ensures Step(s1, Press(Char(Some("y")))).clipboard == second.text
  {
    ScenarioTokens();
    var held: set<string> := {"cmd", "y"};
    assert s1.held + {"y"} == held;
    LaterEntryMatches(s1.entries, second, held);
    SecondPress(s1, Char(Some("y")), held, 1);
  }

  lemma LaterEntryMatches(entries: seq<Entry>, second: Entry, held: set<string>)
    requires |entries| == 2 && entries[1] == second
    requires second.hotkey == "cmd+y" && held == {"cmd", "y"}
    ensures IsLastMatch(Normalize, entries, PressedChord(held), 1)
  {
    MatchesTwoKeys(second, "cmd", "y", held);
  }
}

/** The two ways the program turns keys into a chord string:
    `normalize_hotkey`, applied to every stored hotkey before comparison, and
    the plain `sorted` join of the held keys that `check_hotkeys` compares it
    with. The recording branch of `on_press` builds stored hotkeys with a
    third, priority-ordered form. These disagree, and the lemmas at the end
    say exactly which stored hotkeys can ever fire. */
module Hotkeys {
  import opened Text
  import opened Keys
  import opened LexOrder

  // ---------------------------------------------------------------------
  // Partitioning tokens into modifiers and the rest
  // ---------------------------------------------------------------------

  predicate AllModifiers(xs: seq<string>) {
    forall i :: 0 <= i < |xs| ==> IsModifier(xs[i])
  }

  predicate NoModifiers(xs: seq<string>) {
    forall i :: 0 <= i < |xs| ==> !IsModifier(xs[i])
  }

  /** The modifier tokens of `xs`, in their order in `xs`. */
  function Modifiers(xs: seq<string>): (r: seq<string>)
    ensures AllModifiers(r)
  {
    if |xs| == 0 then []
    else (if IsModifier(xs[0]) then [xs[0]] else []) + Modifiers(xs[1..])
  }

  /** The non-modifier tokens of `xs`, in their order in `xs`. */
  function Others(xs: seq<string>): (r: seq<string>)
    ensures NoModifiers(r)
  {
    if |xs| == 0 then []
    else (if IsModifier(xs[0]) then [] else [xs[0]]) + Others(xs[1..])
  }

  lemma {:induction false} ModifiersAppend(a: seq<string>, b: seq<string>)
    ensures Modifiers(a + b) == Modifiers(a) + Modifiers(b)
  {
    if |a| == 0 {
      assert a + b == b;
    } else {
      var h := if IsModifier(a[0]) then [a[0]] else [];
      assert (a + b)[0] == a[0] && (a + b)[1..] == a[1..] + b;
      ModifiersAppend(a[1..], b);
      calc {
        Modifiers(a + b);
        h + Modifiers(a[1..] + b);
        h + (Modifiers(a[1..]) + Modifiers(b));
        (h + Modifiers(a[1..])) + Modifiers(b);
        Modifiers(a) + Modifiers(b);
      }
    }
  }

  lemma {:induction false} OthersAppend(a: seq<string>, b: seq<string>)
    ensures Others(a + b) == Others(a) + Others(b)
  {
    if |a| == 0 {
      assert a + b == b;
    } else {
      var h := if IsModifier(a[0]) then [] else [a[0]];
      assert (a + b)[0] == a[0] && (a + b)[1..] == a[1..] + b;
      OthersAppend(a[1..], b);
      calc {
        Others(a + b);
        h + Others(a[1..] + b);
        h + (Others(a[1..]) + Others(b));
        (h + Others(a[1..])) + Others(b);
        Others(a) + Others(b);
      }
    }
  }

  /** Both filters distribute over concatenation. */
  lemma FilterAppend(a: seq<string>, b: seq<string>)
    ensures Modifiers(a + b) == Modifiers(a) + Modifiers(b)
    ensures Others(a + b) == Others(a) + Others(b)
  {
    ModifiersAppend(a, b);
    OthersAppend(a, b);
  }

  /** Filtering keeps each token's multiplicity when it passes the filter. */
  lemma {:induction false} ModifiersCount(xs: seq<string>, x: string)
    ensures multiset(Modifiers(xs))[x] == if IsModifier(x) then multiset(xs)[x] else 0
  {
    if |xs| > 0 {
      var h := if IsModifier(xs[0]) then [xs[0]] else [];
      ModifiersCount(xs[1..], x);
      assert xs == [xs[0]] + xs[1..];
      assert multiset(xs) == multiset{xs[0]} + multiset(xs[1..]);
      assert multiset(Modifiers(xs)) == multiset(h) + multiset(Modifiers(xs[1..]));
    }
  }

  lemma {:induction false} OthersCount(xs: seq<string>, x: string)
    ensures multiset(Others(xs))[x] == if IsModifier(x) then 0 else multiset(xs)[x]
  {
    if |xs| > 0 {
      var h := if IsModifier(xs[0]) then [] else [xs[0]];
      OthersCount(xs[1..], x);
      assert xs == [xs[0]] + xs[1..];
      assert multiset(xs) == multiset{xs[0]} + multiset(xs[1..]);
      assert multiset(Others(xs)) == multiset(h) + multiset(Others(xs[1..]));
    }
  }

  lemma FilterCount(xs: seq<string>, x: string)
    ensures multiset(Modifiers(xs))[x] == if IsModifier(x) then multiset(xs)[x] else 0
    ensures multiset(Others(xs))[x] == if IsModifier(x) then 0 else multiset(xs)[x]
  {
    ModifiersCount(xs, x);
    OthersCount(xs, x);
  }

  /** The two filters split `xs` into two parts with nothing lost. */
  lemma FilterPartition(xs: seq<string>)
    ensures multiset(Modifiers(xs)) + multiset(Others(xs)) == multiset(xs)
  {
    forall x
      ensures (multiset(Modifiers(xs)) + multiset(Others(xs)))[x] == multiset(xs)[x]
    {
      FilterCount(xs, x);
    }
  }

  lemma {:induction false} FilterAll(xs: seq<string>)
    requires AllModifiers(xs)
    ensures Modifiers(xs) == xs && Others(xs) == []
  {
    if |xs| > 0 {
      FilterAll(xs[1..]);
    }
  }

  lemma {:induction false} FilterNone(xs: seq<string>)
    requires NoModifiers(xs)
    ensures Modifiers(xs) == [] && Others(xs) == xs
  {
    if |xs| > 0 {
      FilterNone(xs[1..]);
    }
  }

  /** A property of every element carries over to any permutation. */
  lemma PermutationKeeps(a: seq<string>, b: seq<string>, p: string -> bool)
    requires multiset(a) == multiset(b)
    requires forall i :: 0 <= i < |b| ==> p(b[i])
    ensures forall i :: 0 <= i < |a| ==> p(a[i])
  {
    forall i | 0 <= i < |a|
      ensures p(a[i])
    {
      assert a[i] in multiset(a);
      assert a[i] in b;
    }
  }

  // ---------------------------------------------------------------------
  // Sorting modifiers by priority (`list.sort(key=modifier_order.get)`)
  // ---------------------------------------------------------------------

  /** Non-decreasing in `Rank`: modifiers in `cmd, ctrl, alt, shift` order,
      and every non-modifier after every modifier. */
  predicate RankSorted(xs: seq<string>) {
    forall i, j :: 0 <= i < j < |xs| ==> Rank(xs[i]) <= Rank(xs[j])
  }

  /** Inserts `x` before the first element of at least its rank. */
  function Insert(x: string, xs: seq<string>): (r: seq<string>)
    ensures |r| == |xs| + 1
    ensures multiset(r) == multiset(xs) + multiset{x}
    ensures r[0] == x || (|xs| > 0 && r[0] == xs[0])
    ensures RankSorted(xs) ==> RankSorted(r)
  {
    if |xs| == 0 then [x]
    else if Rank(x) <= Rank(xs[0]) then [x] + xs
    else
      var rest := Insert(x, xs[1..]);
      assert xs == [xs[0]] + xs[1..];
      assert RankSorted(xs) ==> RankSorted(xs[1..]) && Rank(xs[0]) <= Rank(rest[0]);
      [xs[0]] + rest
  }

  /** A stable sort by `Rank`. */
  function SortByRank(xs: seq<string>): (r: seq<string>)
    ensures |r| == |xs|
    ensures multiset(r) == multiset(xs)
    ensures RankSorted(r)
  {
    if |xs| == 0 then []
    else
      assert xs == [xs[0]] + xs[1..];
      Insert(xs[0], SortByRank(xs[1..]))
  }

  /** Sorting an already sorted list changes nothing. */
  lemma {:induction false} SortKeepsSorted(xs: seq<string>)
    requires RankSorted(xs)
    ensures SortByRank(xs) == xs
  {
    if |xs| > 0 {
      SortKeepsSorted(xs[1..]);
      assert xs == [xs[0]] + xs[1..];
    }
  }

  /** Two sorted lists of modifiers with the same members start alike. */
  lemma SortedHeadsEqual(p: seq<string>, q: seq<string>)
    requires |p| > 0 && |q| > 0
    requires AllModifiers(p) && AllModifiers(q)
    requires RankSorted(p) && RankSorted(q)
    requires multiset(p) == multiset(q)
    ensures p[0] == q[0]
  {
    assert p[0] in multiset(q);
    var j :| 0 <= j < |q| && q[j] == p[0];
    assert q[0] in multiset(p);
    var i :| 0 <= i < |p| && p[i] == q[0];
    assert Rank(q[0]) <= Rank(q[j]) && Rank(p[0]) <= Rank(p[i]);
    RankInjective(p[0], q[0]);
  }

  /** Two sorted lists of modifiers with the same members (counting
      repeats) are equal: sorting modifiers forgets the order they came in. */
  lemma {:induction false} SortedModifiersUnique(p: seq<string>, q: seq<string>)
    requires AllModifiers(p) && AllModifiers(q)
    requires RankSorted(p) && RankSorted(q)
    requires multiset(p) == multiset(q)
    ensures p == q
    decreases |p|
  {
    assert |p| == |multiset(p)| == |q|;
    if |p| > 0 {
      SortedHeadsEqual(p, q);
      assert p == [p[0]] + p[1..] && q == [q[0]] + q[1..];
      assert multiset(p[1..]) == multiset(p) - multiset{p[0]};
      assert multiset(q[1..]) == multiset(q) - multiset{q[0]};
      SortedModifiersUnique(p[1..], q[1..]);
    }
  }

  /** Sorting two arrangements of the same modifiers gives the same list. */
  lemma SortForgetsOrder(a: seq<string>, b: seq<string>)
    requires AllModifiers(a) && AllModifiers(b)
    requires multiset(a) == multiset(b)
    ensures SortByRank(a) == SortByRank(b)
  {
    PermutationKeeps(SortByRank(a), a, IsModifier);
    PermutationKeeps(SortByRank(b), b, IsModifier);
    SortedModifiersUnique(SortByRank(a), SortByRank(b));
  }

  /** A rank-sorted list is its modifiers followed by its other tokens. */
  lemma {:induction false} SortedSplits(xs: seq<string>)
    requires RankSorted(xs)
    ensures xs == Modifiers(xs) + Others(xs)
  {
    if |xs| > 0 {
      if IsModifier(xs[0]) {
        SortedSplits(xs[1..]);
        assert xs == [xs[0]] + xs[1..];
      } else {
        assert forall j :: 0 <= j < |xs| ==> Rank(xs[0]) <= Rank(xs[j]);
        FilterNone(xs);
      }
    }
  }

  /** Sorted modifiers followed by non-modifiers is rank-sorted. */
  lemma SortedThenOthers(m: seq<string>, o: seq<string>)
    requires AllModifiers(m) && RankSorted(m) && NoModifiers(o)
    ensures RankSorted(m + o)
  {
    var t := m + o;
    forall i, j | 0 <= i < j < |t|
      ensures Rank(t[i]) <= Rank(t[j])
    {
      if j < |m| {
        assert t[i] == m[i] && t[j] == m[j];
      } else {
        assert Rank(t[j]) == 4;
      }
    }
  }

  // ---------------------------------------------------------------------
  // normalize_hotkey
  // ---------------------------------------------------------------------

  /** The tokens `normalize_hotkey` arranges: those of the lower-cased,
      `'+'`-split hotkey. */
  function Parts(hotkey: string): (r: seq<string>)
    ensures |r| >= 1 && SepFree(r) && AllLowercase(r)
  {
    LowerIsLowercase(hotkey);
    SplitParts(Lower(hotkey));
    Split(Lower(hotkey))
  }

  /** The token list `normalize_hotkey` joins: the modifiers sorted by
      priority, then the other tokens in input order. */
  function Arrange(parts: seq<string>): seq<string> {
    SortByRank(Modifiers(parts)) + Others(parts)
  }

  /** What `Arrange` promises: a rearrangement of its input that is
      rank-sorted, keeps the non-modifiers in input order, and keeps the
      separator-free and lower-case properties of the tokens. */
  lemma ArrangeShape(parts: seq<string>)
    ensures multiset(Arrange(parts)) == multiset(parts)
    ensures RankSorted(Arrange(parts))
    ensures Others(Arrange(parts)) == Others(parts)
    ensures Modifiers(Arrange(parts)) == SortByRank(Modifiers(parts))
  {
    var m := SortByRank(Modifiers(parts));
    var o := Others(parts);
    FilterPartition(parts);
    PermutationKeeps(m, Modifiers(parts), IsModifier);
    SortedThenOthers(m, o);
    FilterAppend(m, o);
    FilterAll(m);
    FilterNone(o);
  }

  /** Rearranging keeps the tokens separator-free and lower case. */
  lemma ArrangeKeepsTokens(parts: seq<string>)
    ensures SepFree(parts) ==> SepFree(Arrange(parts))
    ensures AllLowercase(parts) ==> AllLowercase(Arrange(parts))
  {
    ArrangeShape(parts);
    var t := Arrange(parts);
    if SepFree(parts) {
      PermutationKeeps(t, parts, (x: string) => Sep !in x);
    }
    if AllLowercase(parts) {
      PermutationKeeps(t, parts, IsLowercase);
    }
  }

  /** `normalize_hotkey`. */
  function Normalize(hotkey: string): string {
    Join(Arrange(Parts(hotkey)))
  }

  /** Read back through `Split`, the result of `normalize_hotkey` is a
      rearrangement of the hotkey's lower-cased tokens in which every modifier
      precedes every other token, the modifiers are in priority order, and
      the other tokens keep their relative order. */
  lemma NormalizeShape(hotkey: string)
    ensures multiset(Split(Normalize(hotkey))) == multiset(Parts(hotkey))
    ensures RankSorted(Split(Normalize(hotkey)))
    ensures Others(Split(Normalize(hotkey))) == Others(Parts(hotkey))
    ensures IsLowercase(Normalize(hotkey))
  {
    var parts := Parts(hotkey);
    var t := Arrange(parts);
    ArrangeShape(parts);
    ArrangeKeepsTokens(parts);
    SplitJoin(t);
    JoinLowercase(t);
  }

  /** Joining is one-to-one on non-empty separator-free token lists. */
  lemma JoinInjective(a: seq<string>, b: seq<string>)
    requires |a| >= 1 && |b| >= 1 && SepFree(a) && SepFree(b)
    ensures Join(a) == Join(b) <==> a == b
  {
    SplitJoin(a);
    SplitJoin(b);
  }

  /** A chord already in normal form is left alone. */
  lemma NormalFormFixed(t: seq<string>)
    requires |t| >= 1 && SepFree(t) && AllLowercase(t) && RankSorted(t)
    ensures Normalize(Join(t)) == Join(t)
  {
    JoinLowercase(t);
    LowercaseFixed(Join(t));
    SplitJoin(t);
    assert Parts(Join(t)) == t;
    ArrangeFixesSorted(t);
  }

  /** Arranging a rank-sorted token list changes nothing, and only a
      rank-sorted list is left unchanged. */
  lemma ArrangeFixesSorted(t: seq<string>)
    ensures Arrange(t) == t <==> RankSorted(t)
  {
    ArrangeShape(t);
    if RankSorted(t) {
      SortedSplits(t);
      var m := Modifiers(t);
      assert m == t[..|m|];
      SortKeepsSorted(m);
    }
  }

  /** `normalize_hotkey` is idempotent. */
  lemma NormalizeIdempotent(hotkey: string)
    ensures Normalize(Normalize(hotkey)) == Normalize(hotkey)
  {
    var r := Normalize(hotkey);
    NormalizeShape(hotkey);
    JoinSplit(r);
    SplitParts(r);
    NormalFormFixed(Split(r));
  }

  // ---------------------------------------------------------------------
  // The two chord builders
  // ---------------------------------------------------------------------

  /** `'+'.join(sorted(held))`: what `check_hotkeys` compares against. */
  function PressedChord(held: set<string>): string {
    Join(LexSort(held))
  }

  /** What the recording branch of `on_press` stores: the held modifiers in
      priority order, then the other held tokens. Python iterates the set in
      an unspecified order; here it is taken in sorted order, and
      `RecordingOrderFree` shows the choice does not matter in the states the
      recording branch runs in. */
  function RecordingChord(held: set<string>): string {
    Join(Arrange(LexSort(held)))
  }

  /** Tokens as the key handlers put them in the held set: non-empty, lower
      case, and free of `'+'`. The last is an assumption the plus key breaks
      (see `PlusKeyOutside`); the firing lemmas below cover the other keys. */
  predicate WellFormedHeld(held: set<string>) {
    forall t :: t in held ==> t != "" && Sep !in t && IsLowercase(t)
  }

  /** The tokens of a stored hotkey after normalisation. */
  function NormalTokens(hotkey: string): seq<string> {
    Split(Normalize(hotkey))
  }

  /** Whether the stored hotkey can ever equal a pressed chord: its normal
      tokens must be non-empty and in strictly increasing string order. */
  predicate CanFire(hotkey: string) {
    Firable(NormalTokens(hotkey))
  }

  /** Tokens that some held set lists, in `sorted` order: non-empty and
      strictly increasing. */
  predicate Firable(t: seq<string>) {
    && StrictlyIncreasing(t)
    && forall i :: 0 <= i < |t| ==> t[i] != ""
  }

  /** The set of keys whose pressed chord a firable hotkey matches. */
  function ChordKeys(hotkey: string): set<string> {
    set t | t in NormalTokens(hotkey)
  }

  /** A stored hotkey equals the pressed chord of a non-empty held set of
      `'+'`-free tokens only if it can fire at all. */
  lemma FiringNeedsIncreasing(hotkey: string, held: set<string>)
    requires WellFormedHeld(held) && held != {}
    requires Normalize(hotkey) == PressedChord(held)
    ensures CanFire(hotkey)
  {
    var l := LexSort(held);
    assert |l| > 0;
    forall i | 0 <= i < |l|
      ensures l[i] != "" && Sep !in l[i]
    {
      assert l[i] in held;
    }
    SplitJoin(l);
    assert NormalTokens(hotkey) == l;
  }

  /** Conversely, a hotkey that can fire matches when exactly its keys are
      held, and those keys are well formed (so `'+'`-free). */
  lemma CanFireMatches(hotkey: string)
    requires CanFire(hotkey)
    ensures ChordKeys(hotkey) != {} && WellFormedHeld(ChordKeys(hotkey))
    ensures Normalize(hotkey) == PressedChord(ChordKeys(hotkey))
  {
    var n := Normalize(hotkey);
    var t := NormalTokens(hotkey);
    NormalizeShape(hotkey);
    SplitParts(n);
    JoinSplit(n);
    FirableKeys(t);
  }

  /** The plus key lies outside the `'+'`-free assumption of
      `WellFormedHeld`: its token is `+`, the stored hotkey `+` equals the
      live chord of that key held alone, and yet `CanFire` rejects it, since
      its normal tokens are two empty strings. */
  lemma PlusKeyOutside()
    ensures KeyToken(Char(Some("+"))) == Some("+")
    ensures Normalize("+") == PressedChord({"+"})
    ensures !CanFire("+")
  {
    LowercaseFixed("+");
    assert Split("+") == ["", ""] by {
      assert "+"[1..] == "";
    }
    assert Parts("+") == ["", ""];
    assert Modifiers(["", ""]) == [] && Others(["", ""]) == ["", ""] by {
      assert ["", ""][1..] == [""];
    }
    assert Join(["", ""]) == "+" by {
      assert ["", ""][1..] == [""];
    }
    assert Normalize("+") == "+";
    LexSortOf({"+"}, ["+"]);
    assert NormalTokens("+")[0] == "";
  }

  /** The keys of firable, well-formed tokens are well formed, and sorting
      them lists the tokens again. */
  lemma FirableKeys(t: seq<string>)
    requires |t| >= 1 && Firable(t) && SepFree(t) && AllLowercase(t)
    ensures var keys := set x | x in t;
      keys != {} && WellFormedHeld(keys) && LexSort(keys) == t
  {
    var keys := set x | x in t;
    assert t[0] in keys;
    forall x | x in keys
      ensures x != "" && Sep !in x && IsLowercase(x)
    {
      var i :| 0 <= i < |t| && t[i] == x;
    }
    LexSortOf(keys, t);
  }

  /** Helper for concrete chords: the hotkey written as the join of a
      sorted, lower-case token list normalises back to that list. */
  lemma NormalTokensOf(hotkey: string, t: seq<string>)
    requires |t| >= 1 && SepFree(t) && AllLowercase(t) && RankSorted(t)
    requires hotkey == Join(t)
    ensures NormalTokens(hotkey) == t
  {
    NormalFormFixed(t);
    SplitJoin(t);
  }

  /** A hotkey already written in normal form can fire exactly when its
      tokens are non-empty and strictly increasing as strings. */
  lemma NormalFormFires(hotkey: string, t: seq<string>)
    requires |t| >= 1 && SepFree(t) && AllLowercase(t) && RankSorted(t)
    requires hotkey == Join(t)
    ensures CanFire(hotkey) <==> Firable(t)
  {
    NormalTokensOf(hotkey, t);
  }

  /** Two separator-free lower-case tokens, the first of no greater rank,
      are a normal-form token list. */
  lemma PairNormal(a: string, b: string)
    requires Sep !in a && Sep !in b && IsLowercase(a) && IsLowercase(b)
    requires Rank(a) <= Rank(b)
    ensures var t := [a, b]; RankSorted(t) && AllLowercase(t) && SepFree(t)
    ensures Join([a, b]) == a + [Sep] + b
  {
    assert [a, b][1..] == [b];
  }

  /** Two tokens in normal form whose string order disagrees never fire. */
  lemma PairOutOfOrder(hotkey: string, a: string, b: string)
    requires Sep !in a && Sep !in b && IsLowercase(a) && IsLowercase(b)
    requires Rank(a) <= Rank(b) && !LexLess(a, b)
    requires hotkey == a + [Sep] + b
    ensures !CanFire(hotkey)
  {
    PairNormal(a, b);
    NormalFormFires(hotkey, [a, b]);
    assert [a, b][0] == a && [a, b][1] == b;
  }

  /** Two non-empty tokens in normal form whose string order agrees fire. */
  lemma PairInOrder(hotkey: string, a: string, b: string)
    requires a != "" && b != "" && Sep !in a && Sep !in b && IsLowercase(a) && IsLowercase(b)
    requires Rank(a) <= Rank(b) && LexLess(a, b)
    requires hotkey == a + [Sep] + b
    ensures CanFire(hotkey)
  {
    PairNormal(a, b);
    PairFirable(a, b);
    NormalFormFires(hotkey, [a, b]);
  }

  lemma PairFirable(a: string, b: string)
    requires a != "" && b != "" && LexLess(a, b)
    ensures Firable([a, b])
  {
    var t := [a, b];
    forall i, j | 0 <= i < j < |t|
      ensures LexLess(t[i], t[j])
    {
      assert i == 0 && j == 1;
    }
  }

  /** A hotkey that mixes `ctrl` and `alt` can never fire: `alt` sorts
      before `ctrl` as a string but after it as a modifier. */
  lemma CtrlAltNeverFires()
    ensures !CanFire("ctrl+alt+k")
  {
    var t := ["ctrl", "alt", "k"];
    assert RankSorted(t) && AllLowercase(t) && SepFree(t);
    NormalFormFires("ctrl+alt+k", t);
    assert !LexLess(t[0], t[1]);
  }

  /** The sixth default hotkey never fires: `[` sorts before `cmd`. */
  lemma DefaultBracketNeverFires()
    ensures !CanFire("cmd+[")
  {
    PairOutOfOrder("cmd+[", "cmd", "[");
  }

  /** The first default hotkey can fire. */
  lemma DefaultLetterFires()
    ensures CanFire("cmd+y")
  {
    PairInOrder("cmd+y", "cmd", "y");
  }

  /** As written, a hotkey recorded from a held set fires when that set is
      held exactly when the string order of the held keys already lists the
      modifiers first and in priority order. */
  lemma RecordedFiresIff(held: set<string>)
    requires WellFormedHeld(held) && held != {}
    ensures Normalize(RecordingChord(held)) == PressedChord(held) <==> RankSorted(LexSort(held))
  {
    var l := LexSort(held);
    var t := Arrange(l);
    assert forall i :: 0 <= i < |l| ==> l[i] in held;
    assert SepFree(l) && AllLowercase(l);
    ArrangeShape(l);
    ArrangeKeepsTokens(l);
    NormalFormFixed(t);
    assert Normalize(RecordingChord(held)) == Join(t);
    JoinInjective(t, l);
    ArrangeFixesSorted(l);
  }

  /** The recording branch stores `ctrl+shift+k` for the held set
      `{ctrl, shift, k}`, but holding those keys produces `ctrl+k+shift`,
      so the recorded hotkey never fires. */
  lemma RecordedChordMissed()
    ensures Normalize(RecordingChord({"ctrl", "shift", "k"})) != PressedChord({"ctrl", "shift", "k"})
  {
    var held: set<string> := {"ctrl", "shift", "k"};
    CtrlShiftKSorted();
    CtrlShiftKWellFormed();
    var l := LexSort(held);
    assert Rank(l[1]) > Rank(l[2]);
    RecordedFiresIff(held);
  }

  /** `sorted({ctrl, shift, k})` puts `k` between the two modifiers. */
  lemma CtrlShiftKSorted()
    ensures LexSort({"ctrl", "shift", "k"}) == ["ctrl", "k", "shift"]
  {
    var l := ["ctrl", "k", "shift"];
    assert LexLess(l[0], l[1]) && LexLess(l[1], l[2]) && LexLess(l[0], l[2]);
    assert StrictlyIncreasing(l);
    LexSortOf({"ctrl", "shift", "k"}, l);
  }

  lemma CtrlShiftKWellFormed()
    ensures WellFormedHeld({"ctrl", "shift", "k"})
  {
    forall t | t in {"ctrl", "shift", "k"}
      ensures t != "" && Sep !in t && IsLowercase(t)
    {
      assert t == "ctrl" || t == "shift" || t == "k";
    }
  }

  /** The live chord with the same normalisation applied as to stored
      hotkeys: `normalize_hotkey('+'.join(sorted(held)))`. */
  function FixedPressedChord(held: set<string>): string {
    Normalize(PressedChord(held))
  }

  /** Whenever some stored hotkey matches the live chord as written, the live
      chord is already in normal form, so normalising it changes nothing. */
  lemma FixedChordAgrees(hotkey: string, held: set<string>)
    requires WellFormedHeld(held) && held != {}
    requires Normalize(hotkey) == PressedChord(held)
    ensures FixedPressedChord(held) == PressedChord(held)
  {
    var l := LexSort(held);
    PressedChordParts(held);
    SplitJoin(l);
    NormalizeShape(hotkey);
    assert Split(Normalize(hotkey)) == l;
    NormalFormFixed(l);
  }

  /** With the live chord normalised as well, a hotkey recorded from a held
      set fires whenever exactly that set is held. */
  lemma RecordedChordFiresWhenFixed(held: set<string>)
    requires WellFormedHeld(held)
    ensures Normalize(RecordingChord(held)) == FixedPressedChord(held)
    ensures RecordingChord(held) == FixedPressedChord(held)
  {
    if held != {} {
      var l := LexSort(held);
      var t := Arrange(l);
      PressedChordParts(held);
      assert FixedPressedChord(held) == Join(t);
      ArrangeNormal(l);
      NormalFormFixed(t);
    } else {
      EmptyChords(held);
    }
  }

  /** With nothing held, every chord builder gives the empty string. */
  lemma EmptyChords(held: set<string>)
    requires held == {}
    ensures RecordingChord(held) == "" && PressedChord(held) == ""
    ensures FixedPressedChord(held) == ""
  {
    assert LexSort(held) == [];
    assert Modifiers([]) == [] && Others([]) == [];
    assert Arrange([]) == [];
    assert Lower("") == "";
    assert Parts("") == [""];
    assert Modifiers([""]) == [] && Others([""]) == [""];
    assert Arrange([""]) == [""];
  }

  /** Arranging well-formed tokens gives a normal-form token list. */
  lemma ArrangeNormal(l: seq<string>)
    requires |l| >= 1 && SepFree(l) && AllLowercase(l)
    ensures var t := Arrange(l);
      |t| >= 1 && SepFree(t) && AllLowercase(t) && RankSorted(t)
  {
    ArrangeShape(l);
    ArrangeKeepsTokens(l);
    assert |multiset(Arrange(l))| == |multiset(l)|;
  }

  /** The tokens `normalize_hotkey` reads from a live chord are the sorted
      held keys themselves. */
  lemma PressedChordParts(held: set<string>)
    requires WellFormedHeld(held) && held != {}
    ensures var l := LexSort(held);
      Parts(PressedChord(held)) == l && |l| >= 1 && SepFree(l) && AllLowercase(l)
  {
    var l := LexSort(held);
    assert forall i :: 0 <= i < |l| ==> l[i] in held;
    JoinLowercase(l);
    LowercaseFixed(Join(l));
    SplitJoin(l);
  }

  // ---------------------------------------------------------------------
  // Set iteration order in the recording branch
  // ---------------------------------------------------------------------

  predicate NoDuplicates(xs: seq<string>) {
    forall i, j :: 0 <= i < j < |xs| ==> xs[i] != xs[j]
  }

  /** At most one held token is not a modifier. */
  predicate OneKeyAtMost(held: set<string>) {
    forall a, b :: a in held && b in held && !IsModifier(a) && !IsModifier(b) ==> a == b
  }

  /** Helper: a list without repeats holds each value at most once. */
  lemma {:induction false} NoDuplicatesCount(xs: seq<string>, x: string)
    requires NoDuplicates(xs)
    ensures multiset(xs)[x] == if x in xs then 1 else 0
  {
    if |xs| > 0 {
      assert xs == [xs[0]] + xs[1..];
      NoDuplicatesCount(xs[1..], x);
      if x == xs[0] {
        assert x !in xs[1..];
      }
    }
  }

  /** Helper: two lists of equally many copies of one value are equal. */
  lemma SameValueLists(a: seq<string>, b: seq<string>)
    requires |a| == |b|
    requires forall i, j :: 0 <= i < |a| && 0 <= j < |b| ==> a[i] == b[j]
    ensures a == b
  {
  }

  /** However Python happens to iterate the held set, the recording branch
      builds the same hotkey, as long as at most one non-modifier is held. */
  lemma RecordingOrderFree(held: set<string>, xs: seq<string>)
    requires NoDuplicates(xs)
    requires forall x :: x in xs <==> x in held
    requires OneKeyAtMost(held)
    ensures Join(SortByRank(Modifiers(xs)) + Others(xs)) == RecordingChord(held)
  {
    var l := LexSort(held);
    assert NoDuplicates(l) by {
      forall i, j | 0 <= i < j < |l|
        ensures l[i] != l[j]
      {
        LexIrreflexive(l[i]);
      }
    }
    SameMembersFilter(xs, l);
    SortForgetsOrder(Modifiers(xs), Modifiers(l));
    OneOtherKey(held, xs, l);
  }

  /** Two duplicate-free listings of the same tokens have the same modifiers
      and the same other tokens, counting repeats. */
  lemma SameMembersFilter(xs: seq<string>, l: seq<string>)
    requires NoDuplicates(xs) && NoDuplicates(l)
    requires forall x :: x in xs <==> x in l
    ensures multiset(Modifiers(xs)) == multiset(Modifiers(l))
    ensures multiset(Others(xs)) == multiset(Others(l))
  {
    forall x
      ensures multiset(Modifiers(xs))[x] == multiset(Modifiers(l))[x]
      ensures multiset(Others(xs))[x] == multiset(Others(l))[x]
    {
      NoDuplicatesCount(xs, x);
      NoDuplicatesCount(l, x);
      FilterCount(xs, x);
      FilterCount(l, x);
    }
  }

  /** With at most one non-modifier held, two listings of the held set have
      the same non-modifier part. */
  lemma OneOtherKey(held: set<string>, xs: seq<string>, l: seq<string>)
    requires OneKeyAtMost(held)
    requires forall x :: x in xs ==> x in held
    requires forall x :: x in l ==> x in held
    requires multiset(Others(xs)) == multiset(Others(l))
    ensures Others(xs) == Others(l)
  {
    var ox, ol := Others(xs), Others(l);
    assert |ox| == |multiset(ox)| == |ol|;
    forall i, j | 0 <= i < |ox| && 0 <= j < |ol|
      ensures ox[i] == ol[j]
    {
      assert ox[i] in multiset(ox) && ol[j] in multiset(ol);
      FilterCount(xs, ox[i]);
      FilterCount(l, ol[j]);
      assert ox[i] in xs && ol[j] in l;
    }
    SameValueLists(ox, ol);
  }

  /** The chord the recording branch builds when it runs: the held modifiers
      in priority order followed by the one key just pressed. */
  lemma RecordingChordOfKey(mods: set<string>, t: string)
    requires forall m :: m in mods ==> IsModifier(m)
    requires !IsModifier(t)
    ensures RecordingChord(mods + {t}) == Join(SortByRank(LexSort(mods)) + [t])
  {
    var l := LexSort(mods);
    var xs := l + [t];
    assert NoDuplicates(xs) by {
      forall i, j | 0 <= i < j < |xs|
        ensures xs[i] != xs[j]
      {
        assert xs[i] in mods;
        if j < |l| {
          LexIrreflexive(l[i]);
        }
      }
    }
    assert forall x :: x in xs <==> x in mods + {t};
    assert OneKeyAtMost(mods + {t});
    RecordingOrderFree(mods + {t}, xs);
    forall i | 0 <= i < |l|
      ensures IsModifier(l[i])
    {
      assert l[i] in l;
    }
    FilterAppend(l, [t]);
    FilterAll(l);
    assert Modifiers([t]) == [] && Others([t]) == [t];
    assert Modifiers(xs) == l && Others(xs) == [t];
  }
}

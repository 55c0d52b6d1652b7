/** Strings as the hotkey code sees them: ASCII lower-casing and the
    `'+'`-separated token lists produced by `str.split('+')` and consumed by
    `'+'.join(...)`. */
module Text {

  /** The separator between the tokens of a chord string. */
  const Sep: char := '+'

  /** Lower-cases one ASCII letter; every other character is left alone. */
  function LowerChar(c: char): char {
    if 'A' <= c <= 'Z' then (c as int + 32) as char else c
  }

  /** `s.lower()`, restricted to ASCII letters. */
  function Lower(s: string): (r: string)
    ensures |r| == |s|
    ensures forall i :: 0 <= i < |s| ==> r[i] == LowerChar(s[i])
  {
    seq(|s|, i requires 0 <= i < |s| => LowerChar(s[i]))
  }

  /** A string that lower-casing leaves unchanged. */
  predicate IsLowercase(s: string) {
    forall i :: 0 <= i < |s| ==> LowerChar(s[i]) == s[i]
  }

  lemma LowerIsLowercase(s: string)
    ensures IsLowercase(Lower(s))
    ensures Lower(Lower(s)) == Lower(s)
  {
  }

  lemma LowercaseFixed(s: string)
    requires IsLowercase(s)
    ensures Lower(s) == s
  {
  }

  /** Lower-casing never creates or removes a separator. */
  lemma LowerKeepsSep(s: string)
    ensures Sep in Lower(s) <==> Sep in s
  {
    if Sep in s {
      var i :| 0 <= i < |s| && s[i] == Sep;
      assert Lower(s)[i] == Sep;
    }
    if Sep in Lower(s) {
      var i :| 0 <= i < |s| && Lower(s)[i] == Sep;
      assert s[i] == Sep;
    }
  }

  /** No part holds a separator. */
  predicate SepFree(parts: seq<string>) {
    forall i :: 0 <= i < |parts| ==> Sep !in parts[i]
  }

  predicate AllLowercase(parts: seq<string>) {
    forall i :: 0 <= i < |parts| ==> IsLowercase(parts[i])
  }

  /** `s.split('+')`: always at least one part (`SplitParts` says no part
      holds a separator, and `JoinSplit` that joining the parts gives `s`). */
  function Split(s: string): (r: seq<string>)
    ensures |r| >= 1
  {
    if |s| == 0 then [""]
    else if s[0] == Sep then [""] + Split(s[1..])
    else
      var rest := Split(s[1..]);
      [[s[0]] + rest[0]] + rest[1..]
  }

  /** The parts of a split hold no separator and are lower case when the
      string is; a string without a separator is its own single part. */
  lemma {:induction false} SplitParts(s: string)
    ensures SepFree(Split(s))
    ensures IsLowercase(s) ==> AllLowercase(Split(s))
    ensures Sep !in s ==> Split(s) == [s]
  {
    if |s| > 0 {
      SplitParts(s[1..]);
      assert IsLowercase(s) ==> IsLowercase(s[1..]);
      assert Sep !in s ==> Sep !in s[1..] && [s[0]] + s[1..] == s;
      if s[0] != Sep {
        var rest := Split(s[1..]);
        assert IsLowercase(s) ==> IsLowercase([s[0]] + rest[0]);
      }
    }
  }

  /** `'+'.join(parts)`; the join of no parts is the empty string. */
  function Join(parts: seq<string>): string {
    if |parts| == 0 then ""
    else if |parts| == 1 then parts[0]
    else parts[0] + [Sep] + Join(parts[1..])
  }

  /** Splitting then joining gives back the original string. */
  lemma {:induction false} JoinSplit(s: string)
    ensures Join(Split(s)) == s
  {
    if |s| == 0 {
    } else if s[0] == Sep {
      JoinSplit(s[1..]);
      assert s == [Sep] + s[1..];
    } else {
      JoinSplit(s[1..]);
      var rest := Split(s[1..]);
      if |rest| == 1 {
        assert Join(rest) == rest[0];
      } else {
        assert Join(rest) == rest[0] + [Sep] + Join(rest[1..]);
        assert s == [s[0]] + s[1..];
      }
    }
  }

  /** Splitting `p + "+" + t` for a separator-free `p` peels off `p`. */
  lemma {:induction false} SplitPrefix(p: string, t: string)
    requires Sep !in p
    ensures Split(p + [Sep] + t) == [p] + Split(t)
  {
    if |p| == 0 {
      assert p + [Sep] + t == [Sep] + t;
      assert ([Sep] + t)[1..] == t;
    } else {
      assert (p + [Sep] + t)[1..] == p[1..] + [Sep] + t;
      SplitPrefix(p[1..], t);
      assert [p[0]] + p[1..] == p;
    }
  }

  /** Joining separator-free parts and splitting again gives back the parts,
      provided there is at least one part (`Join([])` and `Join([""])` coincide). */
  lemma {:induction false} SplitJoin(parts: seq<string>)
    requires |parts| >= 1
    requires SepFree(parts)
    ensures Split(Join(parts)) == parts
  {
    if |parts| == 1 {
      SplitParts(parts[0]);
    } else {
      SplitJoin(parts[1..]);
      SplitPrefix(parts[0], Join(parts[1..]));
      assert [parts[0]] + parts[1..] == parts;
    }
  }

  /** The join of lower-case parts is lower case ('+' is not a letter). */
  lemma {:induction false} JoinLowercase(parts: seq<string>)
    requires AllLowercase(parts)
    ensures IsLowercase(Join(parts))
  {
    if |parts| > 1 {
      JoinLowercase(parts[1..]);
      var j := Join(parts);
      assert j == parts[0] + [Sep] + Join(parts[1..]);
      forall i | 0 <= i < |j|
        ensures LowerChar(j[i]) == j[i]
      {
        if i < |parts[0]| {
          assert j[i] == parts[0][i];
        } else if i > |parts[0]| {
          assert j[i] == Join(parts[1..])[i - |parts[0]| - 1];
        }
      }
    }
  }
}

/** Keys as the keyboard hook reports them, and `get_key_string`, which turns
    a key into the lower-case token the rest of the program works with. */
module Keys {
  import opened Text

  datatype Option<T> = None | Some(value: T)

  /** A key from the hook: a character key whose `char` may be missing, a
      named special key (`Key.cmd`, `Key.f1`, ...) identified by its member
      name, or an object with neither a `char` nor a `name`. */
  datatype Key = Char(ch: Option<string>) | Named(name: string) | Unnamed

  /** The four modifier tokens. */
  predicate IsModifier(t: string) {
    t == "cmd" || t == "ctrl" || t == "alt" || t == "shift"
  }

  /** The modifier priority `cmd < ctrl < alt < shift`; every other token
      ranks after all modifiers. */
  function Rank(t: string): (n: nat)
    ensures n <= 4
    ensures n < 4 <==> IsModifier(t)
  {
    if t == "cmd" then 0
    else if t == "ctrl" then 1
    else if t == "alt" then 2
    else if t == "shift" then 3
    else 4
  }

  /** The priority of the four modifiers. */
  lemma RankOrder()
    ensures Rank("cmd") < Rank("ctrl") < Rank("alt") < Rank("shift")
  {
  }

  /** Distinct modifiers have distinct ranks. */
  lemma RankInjective(a: string, b: string)
    requires IsModifier(a) && IsModifier(b) && Rank(a) == Rank(b)
    ensures a == b
  {
  }

  /** `get_key_string`: the token of a key, or `None` when the key cannot be
      named (a `char` of `None` raises inside the lookup and is swallowed). */
  function KeyToken(k: Key): (r: Option<string>)
    ensures r.Some? ==> IsLowercase(r.value)
    ensures k.Char? ==> (r.Some? <==> k.ch.Some?)
    ensures k.Char? && k.ch.Some? ==> r == Some(Lower(k.ch.value))
    ensures k.Named? ==> r.Some?
    ensures k.Unnamed? ==> r == None
  {
    match k
    case Char(c) =>
      if c.Some? then Some(Lower(c.value)) else None
    case Named(n) =>
      if n == "cmd" || n == "cmd_r" then Some("cmd")
      else if n == "ctrl" || n == "ctrl_r" then Some("ctrl")
      else if n == "alt" || n == "alt_r" then Some("alt")
      else if n == "shift" || n == "shift_r" then Some("shift")
      else Some(Lower(n))
    case Unnamed => None
  }

  /** A token the press and release handlers act on: Python treats both
      `None` and the empty string as false. */
  predicate IsActive(t: Option<string>) {
    t.Some? && t.value != ""
  }

  /** The left and right variants of each modifier give the same modifier
      token. */
  lemma NamedModifierTokens()
    ensures KeyToken(Named("cmd")) == KeyToken(Named("cmd_r")) == Some("cmd")
    ensures KeyToken(Named("ctrl")) == KeyToken(Named("ctrl_r")) == Some("ctrl")
    ensures KeyToken(Named("alt")) == KeyToken(Named("alt_r")) == Some("alt")
    ensures KeyToken(Named("shift")) == KeyToken(Named("shift_r")) == Some("shift")
  {
  }

  /** A named key that is not one of the eight modifier variants gives its
      own name lower-cased. */
  lemma OtherNamedKeyToken(n: string)
    ensures n !in {"cmd", "cmd_r", "ctrl", "ctrl_r", "alt", "alt_r", "shift", "shift_r"}
            ==> KeyToken(Named(n)) == Some(Lower(n))
  {
  }

  /** Every token is already lower case, so feeding a token back in as a
      character key returns it unchanged. */
  lemma TokenIsFixedPoint(k: Key)
    requires KeyToken(k).Some?
    ensures KeyToken(Char(KeyToken(k))) == KeyToken(k)
  {
    LowercaseFixed(KeyToken(k).value);
  }
}

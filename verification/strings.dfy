/** Character classes and string helpers shared by the modelled files. */
module Strings {

  datatype Option<+T> = None | Some(value: T)

  predicate IsBlank(c: char) { c == ' ' || c == '\t' }

  predicate IsDigit(c: char) { '0' <= c <= '9' }

  predicate IsLetter(c: char) { 'a' <= c <= 'z' || 'A' <= c <= 'Z' }

  /** The whitespace `text::trim` removes. */
  predicate IsSpace(c: char) {
    c == ' ' || c == '\t' || c == '\r' || c == '\n' || c == 12 as char || c == 11 as char
  }

  /** Text that trimming leaves as it is. */
  predicate Solid(s: string) { s != "" && !IsSpace(s[0]) && !IsSpace(s[|s| - 1]) }

  predicate Spaces(s: string) { forall c | c in s :: IsSpace(c) }

  function TrimStart(s: string): (r: string)
    ensures |r| <= |s|
  {
    if s != [] && IsSpace(s[0]) then TrimStart(s[1..]) else s
  }

  function TrimEnd(s: string): (r: string)
    ensures r <= s
  {
    if s != [] && IsSpace(s[|s| - 1]) then TrimEnd(s[..|s| - 1]) else s
  }

  function Trim(s: string): (r: string)
    ensures |r| <= |s|
  {
    TrimEnd(TrimStart(s))
  }

  function EscapeChar(c: char): string {
    if c == '&' then "&amp;" else if c == '<' then "&lt;" else if c == '>' then "&gt;"
    else if c == '"' then "&quot;" else [c]
  }

  /** Text as markup, its four special characters written as entities. */
  function Escape(s: string): string {
    if s == [] then [] else EscapeChar(s[0]) + Escape(s[1..])
  }

  /** The order of texts by their characters. */
  predicate TextLess(a: string, b: string) {
    b != [] && (a == [] || a[0] < b[0] || (a[0] == b[0] && TextLess(a[1..], b[1..])))
  }

  function Lower(c: char): char { if 'A' <= c <= 'Z' then (c as int - 'A' as int + 'a' as int) as char else c }

  function LowerAll(s: string): (r: string)
    ensures |r| == |s| && forall i | 0 <= i < |s| :: r[i] == Lower(s[i])
  {
    seq(|s|, i requires 0 <= i < |s| => Lower(s[i]))
  }

  /** Where `what` first is, from `i` on. */
  function FindText(s: string, what: string, i: nat): (r: Option<nat>)
    requires i <= |s|
    ensures r.Some? ==> i <= r.value && r.value + |what| <= |s| && s[r.value..r.value + |what|] == what
    decreases |s| - i
  {
    if i + |what| > |s| then None
    else if s[i..i + |what|] == what then Some(i)
    else FindText(s, what, i + 1)
  }

  /** A character between quotes: one escaped, or one that neither closes nor escapes. */
  datatype Unit = Escaped(c: char) | Ordinary(c: char)

  function UnitsText(units: seq<Unit>): string {
    if units == [] then ""
    else (if units[0].Escaped? then ['\\', units[0].c] else [units[0].c]) + UnitsText(units[1..])
  }

  predicate UnitsOf(quote: char, units: seq<Unit>) {
    forall u | u in units :: u.Ordinary? ==> u.c != quote && u.c != '\\'
  }

  lemma NoUnits()
    ensures UnitsText([]) == ""
  {
  }

  lemma FirstUnit(quote: char, units: seq<Unit>, more: string)
    requires units != [] && UnitsOf(quote, units)
    ensures UnitsOf(quote, units[1..]) && (units[0].Ordinary? ==> units[0].c != quote && units[0].c != '\\')
    ensures UnitsText(units) + more
         == (if units[0].Escaped? then ['\\', units[0].c] else [units[0].c]) + (UnitsText(units[1..]) + more)
    ensures |UnitsText(units)| == (if units[0].Escaped? then 2 else 1) + |UnitsText(units[1..])|
  {
    assert units[0] in units && forall v | v in units[1..] :: v in units;
  }

  predicate StandsAt(s: string, what: string, k: nat) { k + |what| <= |s| && s[k..k + |what|] == what }

  predicate Contains(s: string, what: string) { exists k | 0 <= k <= |s| :: StandsAt(s, what, k) }

  /** What is found is the first place where the text stands, if it stands anywhere. */
  lemma {:induction false} FoundExactly(s: string, what: string, i: nat)
    requires i <= |s|
    ensures var r := FindText(s, what, i);
            if r.Some? then i <= r.value && StandsAt(s, what, r.value) && forall k | i <= k < r.value :: !StandsAt(s, what, k)
            else forall k | i <= k :: !StandsAt(s, what, k)
    decreases |s| - i
  {
    if i + |what| <= |s| && s[i..i + |what|] != what { FoundExactly(s, what, i + 1); }
  }

  method FindFirst(s: string, what: string, start: nat := 0) returns (r: Option<nat>)
    requires start <= |s|
    ensures r == FindText(s, what, start)
  {
    var i := start;
    while i + |what| <= |s|
      invariant start <= i <= |s| && FindText(s, what, i) == FindText(s, what, start)
    {
      if s[i..i + |what|] == what { return Some(i); }
      i := i + 1;
    }
    return None;
  }
}

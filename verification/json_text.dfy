/** Values as compact JSON with sorted keys (src/blogin/json.cpp), and what can be told of
    them from it: two values without floating-point numbers that are written the same are
    the same. */
module JsonText {
  import opened Strings
  import opened Values

  function HexDigit(n: nat): char
    requires n < 16
  {
    if n < 10 then ('0' as int + n) as char else ('a' as int + n - 10) as char
  }

  /** A character inside a JSON string. */
  function JsonChar(c: char): (r: string)
    ensures r != ""
  {
    if c == '"' then "\\\""
    else if c == '\\' then "\\\\"
    else if c == 8 as char then "\\b"
    else if c == 12 as char then "\\f"
    else if c == '\n' then "\\n"
    else if c == '\r' then "\\r"
    else if c == '\t' then "\\t"
    else if c < ' ' then "\\u00" + [HexDigit(c as int / 16), HexDigit(c as int % 16)]
    else [c]
  }

  /** The characters of a string and its closing quote. */
  function JsonRest(s: string): string { if s == "" then "\"" else JsonChar(s[0]) + JsonRest(s[1..]) }

  function JsonString(s: string): string { "\"" + JsonRest(s) }

  // ------------------------------------------------------------- names in order

  predicate IsLeast(name: string, names: set<string>) {
    name in names && forall other | other in names :: other == name || TextLess(name, other)
  }

  lemma {:induction false} TextOrder(a: string, b: string)
    ensures a == b || TextLess(a, b) || TextLess(b, a)
    ensures !(TextLess(a, b) && TextLess(b, a)) && !TextLess(a, a)
    decreases a
  {
    if a != "" && b != "" { TextOrder(a[1..], b[1..]); }
    if a != "" { TextOrder(a[1..], a[1..]); }
    if a != "" && b != "" && a[0] == b[0] && a[1..] == b[1..] { assert a == [a[0]] + a[1..] && b == [b[0]] + b[1..]; }
  }

  lemma {:induction false} TextLessThrough(a: string, b: string, c: string)
    requires TextLess(a, b) && TextLess(b, c)
    ensures TextLess(a, c)
    decreases a
  {
    if a != "" && a[0] == b[0] == c[0] { TextLessThrough(a[1..], b[1..], c[1..]); }
  }

  lemma {:induction false} LeastIs(names: set<string>)
    requires names != {}
    ensures exists name :: IsLeast(name, names)
    decreases |names|
  {
    var any :| any in names;
    if names == {any} {
      assert IsLeast(any, names);
    } else {
      var rest := names - {any};
      assert names == {any} + rest;
      LeastIs(rest);
      var least :| IsLeast(least, rest);
      TextOrder(any, least);
      var best := if TextLess(any, least) then any else least;
      forall other | other in names ensures other == best || TextLess(best, other) {
        if other != any && other != least && best == any { TextLessThrough(any, least, other); }
      }
      assert IsLeast(best, names);
    }
  }

  lemma {:induction false} OneLeast(a: string, b: string, names: set<string>)
    requires IsLeast(a, names) && IsLeast(b, names)
    ensures a == b
  {
    TextOrder(a, b);
  }

  function LeastOf(names: set<string>): (name: string)
    requires names != {}
    ensures IsLeast(name, names)
  {
    LeastIs(names);
    assert forall a, b | IsLeast(a, names) && IsLeast(b, names) :: a == b by {
      forall a, b | IsLeast(a, names) && IsLeast(b, names) ensures a == b { OneLeast(a, b, names); }
    }
    var name :| IsLeast(name, names);
    name
  }

  /** The names in order, each once. */
  function SortedNames(names: set<string>): (r: seq<string>)
    ensures forall name :: name in r <==> name in names
    decreases |names|
  {
    if names == {} then []
    else
      var least := LeastOf(names);
      [least] + SortedNames(names - {least})
  }

  // ------------------------------------------------------------- values

  /** A value as JSON; `number` is how the library writes a floating-point number. */
  function Json(v: Value, number: real -> string): string
    decreases v, 1, 0
  {
    match v
    case Null => "null"
    case Boolean(b) => if b then "true" else "false"
    case Integer(i) => IntegerText(i)
    case Number(r) => number(r)
    case String(s) => JsonString(s)
    case List(items) => "[" + JsonItems(items, number)
    case Object(members) => "{" + JsonMembers(v, SortedNames(members.Keys), number)
  }

  /** The items of a list and its closing bracket. */
  function JsonItems(items: seq<Value>, number: real -> string): string
    decreases items
  {
    if items == [] then "]"
    else Json(items[0], number) + if |items| == 1 then "]" else "," + JsonItems(items[1..], number)
  }

  /** The members of an object, in this order, and its closing brace. */
  function JsonMembers(v: Value, names: seq<string>, number: real -> string): string
    requires v.Object? && forall name | name in names :: name in v.members
    decreases v, 0, |names|
  {
    if names == [] then "}"
    else
      JsonString(names[0]) + ":" + Json(v.members[names[0]], number)
        + if |names| == 1 then "}" else "," + JsonMembers(v, names[1..], number)
  }

  // ------------------------------------------------------------- reading it back

  /** No floating-point number in it anywhere. */
  predicate Whole(v: Value) {
    match v
    case Number(_) => false
    case List(items) => forall item | item in items :: Whole(item)
    case Object(members) => forall name | name in members :: Whole(members[name])
    case _ => true
  }

  /** What may come after a value. */
  predicate Ends(rest: string) { rest != "" ==> rest[0] in ",]};" }

  predicate AllDigits(s: string) { forall c | c in s :: IsDigit(c) }

  lemma {:induction false} NaturalIsDigits(n: nat)
    ensures AllDigits(NaturalText(n)) && NaturalText(n) != ""
    decreases n
  {
    if n >= 10 { NaturalIsDigits(n / 10); }
  }

  lemma {:induction false} NaturalTold(m: nat, n: nat)
    requires NaturalText(m) == NaturalText(n)
    ensures m == n
    decreases m
  {
    var s, t := NaturalText(m), NaturalText(n);
    NaturalIsDigits(m / 10);
    NaturalIsDigits(n / 10);
    assert s[|s| - 1] == t[|t| - 1] && s[..|s| - 1] == t[..|t| - 1];
    assert s[..|s| - 1] == if m < 10 then "" else NaturalText(m / 10);
    assert t[..|t| - 1] == if n < 10 then "" else NaturalText(n / 10);
    if m >= 10 && n >= 10 { NaturalTold(m / 10, n / 10); }
  }

  lemma {:induction false} NaturalReads(m: nat, n: nat, a: string, b: string)
    requires NaturalText(m) + a == NaturalText(n) + b && Ends(a) && Ends(b)
    ensures m == n && a == b
  {
    hide NaturalText;
    var s, t := NaturalText(m), NaturalText(n);
    NaturalIsDigits(m);
    NaturalIsDigits(n);
    SameDigits(s, t, a, b);
    NaturalTold(m, n);
  }

  lemma {:induction false} SameDigits(s: string, t: string, a: string, b: string)
    requires s + a == t + b && AllDigits(s) && AllDigits(t) && Ends(a) && Ends(b)
    ensures s == t && a == b
  {
    DigitsEnd(s, t, a, b);
    DigitsEnd(t, s, b, a);
    var whole := s + a;
    assert whole[..|s|] == s && whole[..|s|] == t && whole[|s|..] == a && whole[|s|..] == b;
  }

  /** Digits stop where the other's text stops being digits. */
  lemma {:induction false} DigitsEnd(s: string, t: string, a: string, b: string)
    requires s + a == t + b && AllDigits(t) && Ends(a)
    ensures |t| <= |s|
  {
    var whole := s + a;
    assert a != "" ==> whole[|s|] == a[0];
    assert forall i | 0 <= i < |t| :: whole[i] == t[i] && IsDigit(whole[i]);
  }

  lemma {:induction false} IntegerReads(i: int, j: int, a: string, b: string)
    requires IntegerText(i) + a == IntegerText(j) + b && Ends(a) && Ends(b)
    ensures i == j && a == b
  {
    hide NaturalText, Ends;
    IntegerFirst(i);
    IntegerFirst(j);
    SameFirst(IntegerText(i), IntegerText(j), a, b);
    if i < 0 {
      assert "-" + (NaturalText(-i) + a) == IntegerText(i) + a;
      assert "-" + (NaturalText(-j) + b) == IntegerText(j) + b;
      SameLengths("-", NaturalText(-i) + a, NaturalText(-j) + b);
      NaturalReads(-i, -j, a, b);
    } else {
      NaturalReads(i, j, a, b);
    }
  }

  lemma {:induction false} SameFirst(s: string, t: string, a: string, b: string)
    requires s != "" && t != "" && s + a == t + b
    ensures s[0] == t[0]
  {
    assert (s + a)[0] == s[0] && (t + b)[0] == t[0];
  }

  lemma {:induction false} IntegerFirst(i: int)
    ensures var s := IntegerText(i); s != "" && (if i < 0 then s[0] == '-' else IsDigit(s[0]))
  {
    NaturalIsDigits(if i < 0 then -i else i);
    assert NaturalText(if i < 0 then -i else i)[0] in NaturalText(if i < 0 then -i else i);
  }

  lemma {:induction false} HexTold(m: nat, n: nat)
    requires m < 16 && n < 16 && HexDigit(m) == HexDigit(n)
    ensures m == n
  {
  }

  /** A character as it is written, by its first two characters. */
  lemma {:induction false} JsonCharCases(c: char)
    ensures JsonChar(c)[0] != '"'
    ensures JsonChar(c)[0] == '\\' <==> |JsonChar(c)| > 1
    ensures |JsonChar(c)| == 1 ==> JsonChar(c) == [c]
    ensures |JsonChar(c)| > 1 ==> |JsonChar(c)| == if JsonChar(c)[1] == 'u' then 6 else 2
  {
  }

  lemma {:induction false} CharTold(c: char, d: char)
    requires JsonChar(c) == JsonChar(d)
    ensures c == d
  {
    if c < ' ' && d < ' ' && |JsonChar(c)| == 6 {
      assert JsonChar(c)[4] == HexDigit(c as int / 16) && JsonChar(c)[5] == HexDigit(c as int % 16);
      assert JsonChar(d)[4] == HexDigit(d as int / 16) && JsonChar(d)[5] == HexDigit(d as int % 16);
      HexTold(c as int / 16, d as int / 16);
      HexTold(c as int % 16, d as int % 16);
    }
  }

  lemma {:induction false} CharReads(c: char, d: char, a: string, b: string)
    requires JsonChar(c) + a == JsonChar(d) + b
    ensures c == d && a == b
  {
    hide JsonChar;
    var s, t, whole := JsonChar(c), JsonChar(d), JsonChar(c) + a;
    JsonCharCases(c);
    JsonCharCases(d);
    assert whole[0] == s[0] && whole[0] == t[0];
    assert |s| > 1 ==> whole[1] == s[1] && whole[1] == t[1];
    assert |s| == |t|;
    assert whole[..|s|] == s && whole[..|s|] == t && whole[|s|..] == a && whole[|s|..] == b;
    CharTold(c, d);
  }

  lemma {:induction false} RestReads(s: string, t: string, a: string, b: string)
    requires JsonRest(s) + a == JsonRest(t) + b
    ensures s == t && a == b
    decreases s
  {
    hide JsonChar;
    var x, y := JsonRest(s) + a, JsonRest(t) + b;
    if s != "" { JsonCharCases(s[0]); }
    if t != "" { JsonCharCases(t[0]); }
    assert x[0] == (if s == "" then '"' else JsonChar(s[0])[0]) && y[0] == if t == "" then '"' else JsonChar(t[0])[0];
    if s == "" {
      assert x[1..] == a && y[1..] == b;
    } else {
      assert x == JsonChar(s[0]) + (JsonRest(s[1..]) + a) && y == JsonChar(t[0]) + (JsonRest(t[1..]) + b);
      CharReads(s[0], t[0], JsonRest(s[1..]) + a, JsonRest(t[1..]) + b);
      RestReads(s[1..], t[1..], a, b);
      assert s == [s[0]] + s[1..] && t == [t[0]] + t[1..];
    }
  }

  lemma {:induction false} StringReads(s: string, t: string, a: string, b: string)
    requires JsonString(s) + a == JsonString(t) + b
    ensures s == t && a == b
  {
    hide JsonRest;
    assert (JsonString(s) + a)[1..] == JsonRest(s) + a && (JsonString(t) + b)[1..] == JsonRest(t) + b;
    RestReads(s, t, a, b);
  }

  /** The kind of a value, by the character it begins with. */
  function Kind(v: Value): char {
    match v
    case Null => 'n'
    case Boolean(b) => if b then 't' else 'f'
    case Integer(_) => '0'
    case Number(_) => '.'
    case String(_) => '"'
    case List(_) => '['
    case Object(_) => '{'
  }

  lemma {:induction false} JsonFirst(v: Value, number: real -> string)
    requires Whole(v)
    ensures var s := Json(v, number);
            s != "" && if v.Integer? then s[0] == '-' || IsDigit(s[0]) else s[0] == Kind(v)
  {
    if v.Integer? { IntegerFirst(v.integer); }
  }

  /** Two values written the same, up to what can follow a value, are the same. */
  lemma {:induction false} JsonReads(v: Value, w: Value, a: string, b: string, number: real -> string)
    requires Whole(v) && Whole(w) && Ends(a) && Ends(b) && Json(v, number) + a == Json(w, number) + b
    ensures v == w && a == b
    decreases v, 1, 0
  {
    hide Json, JsonItems, JsonMembers, Ends, JsonString, IntegerText, SortedNames;
    var x, y := Json(v, number) + a, Json(w, number) + b;
    JsonFirst(v, number);
    JsonFirst(w, number);
    assert x[0] == Json(v, number)[0] && y[0] == Json(w, number)[0];
    JsonForm(v, number);
    JsonForm(w, number);
    match v
    case Integer(i) => IntegerReads(i, w.integer, a, b);
    case String(s) => StringReads(s, w.text, a, b);
    case List(items) =>
      assert x[1..] == JsonItems(items, number) + a && y[1..] == JsonItems(w.items, number) + b;
      ItemsRead(items, w.items, a, b, number);
    case Object(members) =>
      var p, q := SortedNames(members.Keys), SortedNames(w.members.Keys);
      assert x[1..] == JsonMembers(v, p, number) + a && y[1..] == JsonMembers(w, q, number) + b;
      MembersRead(v, p, w, q, a, b, number);
      assert members.Keys == w.members.Keys by {
        assert forall name :: name in p <==> name in members.Keys;
        assert forall name :: name in q <==> name in w.members.Keys;
      }
      assert forall name | name in members :: name in p;
      assert members == w.members;
    case _ => SameLengths(Json(v, number), a, b);
  }

  lemma {:induction false} SameLengths(s: string, a: string, b: string)
    requires s + a == s + b
    ensures a == b
  {
    assert (s + a)[|s|..] == a && (s + b)[|s|..] == b;
  }

  lemma {:induction false} JsonForm(v: Value, number: real -> string)
    ensures match v
            case Null => Json(v, number) == "null"
            case Boolean(b) => Json(v, number) == if b then "true" else "false"
            case Integer(i) => Json(v, number) == IntegerText(i)
            case String(s) => Json(v, number) == JsonString(s)
            case List(items) => Json(v, number) == "[" + JsonItems(items, number)
            case Object(members) => Json(v, number) == "{" + JsonMembers(v, SortedNames(members.Keys), number)
            case _ => true
  {
    hide IntegerText, JsonString, JsonItems, JsonMembers, SortedNames;
  }

  /** What comes after the first item of a list. */
  function ItemsAfter(xs: seq<Value>, a: string, number: real -> string): string
    requires xs != []
  {
    if |xs| == 1 then "]" + a else "," + (JsonItems(xs[1..], number) + a)
  }

  lemma {:induction false} ItemsFirst(xs: seq<Value>, a: string, number: real -> string)
    ensures var x := JsonItems(xs, number) + a;
            if xs == [] then x == "]" + a else x == Json(xs[0], number) + ItemsAfter(xs, a, number) && Ends(ItemsAfter(xs, a, number))
  {
    hide Json;
  }

  lemma {:induction false} ItemsRest(xs: seq<Value>, ys: seq<Value>, a: string, b: string, number: real -> string)
    requires xs != [] && ys != [] && ItemsAfter(xs, a, number) == ItemsAfter(ys, b, number)
    ensures |xs| == 1 <==> |ys| == 1
    ensures if |xs| == 1 then a == b else JsonItems(xs[1..], number) + a == JsonItems(ys[1..], number) + b
  {
    hide JsonItems;
    var s, t := ItemsAfter(xs, a, number), ItemsAfter(ys, b, number);
    assert s[0] == t[0] && s[1..] == t[1..];
    assert s[1..] == if |xs| == 1 then a else JsonItems(xs[1..], number) + a;
    assert t[1..] == if |ys| == 1 then b else JsonItems(ys[1..], number) + b;
  }

  lemma {:induction false} ItemsRead(xs: seq<Value>, ys: seq<Value>, a: string, b: string, number: real -> string)
    requires (forall v | v in xs :: Whole(v)) && (forall v | v in ys :: Whole(v))
    requires JsonItems(xs, number) + a == JsonItems(ys, number) + b
    ensures xs == ys && a == b
    decreases xs
  {
    hide Json, JsonItems, ItemsAfter, Ends;
    ItemsFirst(xs, a, number);
    ItemsFirst(ys, b, number);
    if xs != [] { JsonFirst(xs[0], number); }
    if ys != [] { JsonFirst(ys[0], number); }
    if xs == [] && ys == [] {
      SameLengths("]", a, b);
    } else if xs == [] {
      SameFirst("]", Json(ys[0], number), a, ItemsAfter(ys, b, number));
    } else if ys == [] {
      SameFirst(Json(xs[0], number), "]", ItemsAfter(xs, a, number), b);
    } else {
      JsonReads(xs[0], ys[0], ItemsAfter(xs, a, number), ItemsAfter(ys, b, number), number);
      ItemsRest(xs, ys, a, b, number);
      if |xs| > 1 { ItemsRead(xs[1..], ys[1..], a, b, number); }
      assert xs == [xs[0]] + xs[1..] && ys == [ys[0]] + ys[1..];
    }
  }

  /** What comes after the first member of an object. */
  function MembersAfter(v: Value, p: seq<string>, a: string, number: real -> string): string
    requires v.Object? && p != [] && forall name | name in p :: name in v.members
  {
    if |p| == 1 then "}" + a else "," + (JsonMembers(v, p[1..], number) + a)
  }

  lemma {:induction false} MembersFirst(v: Value, p: seq<string>, a: string, number: real -> string)
    requires v.Object? && forall name | name in p :: name in v.members
    ensures var x := JsonMembers(v, p, number) + a;
            if p == [] then x == "}" + a
            else x == JsonString(p[0]) + (":" + (Json(v.members[p[0]], number) + MembersAfter(v, p, a, number)))
  {
    hide Json, JsonString;
  }

  lemma {:induction false} MembersRest(v: Value, p: seq<string>, w: Value, q: seq<string>, a: string, b: string,
                                       number: real -> string)
    requires v.Object? && w.Object? && p != [] && q != []
    requires (forall name | name in p :: name in v.members) && (forall name | name in q :: name in w.members)
    requires MembersAfter(v, p, a, number) == MembersAfter(w, q, b, number)
    ensures |p| == 1 <==> |q| == 1
    ensures if |p| == 1 then a == b else JsonMembers(v, p[1..], number) + a == JsonMembers(w, q[1..], number) + b
  {
    hide JsonMembers;
    var s, t := MembersAfter(v, p, a, number), MembersAfter(w, q, b, number);
    assert s[0] == t[0] && s[1..] == t[1..];
    assert s[1..] == if |p| == 1 then a else JsonMembers(v, p[1..], number) + a;
    assert t[1..] == if |q| == 1 then b else JsonMembers(w, q[1..], number) + b;
  }

  lemma {:induction false} AfterEnds(v: Value, p: seq<string>, a: string, number: real -> string)
    requires v.Object? && p != [] && forall name | name in p :: name in v.members
    ensures Ends(MembersAfter(v, p, a, number))
  {
    hide JsonMembers;
  }

  lemma {:induction false} MembersRead(v: Value, p: seq<string>, w: Value, q: seq<string>, a: string, b: string,
                                       number: real -> string)
    requires v.Object? && w.Object? && Whole(v) && Whole(w)
    requires (forall name | name in p :: name in v.members) && (forall name | name in q :: name in w.members)
    requires JsonMembers(v, p, number) + a == JsonMembers(w, q, number) + b
    ensures p == q && a == b && forall name | name in p :: v.members[name] == w.members[name]
    decreases v, 0, |p|
  {
    hide Json, JsonMembers, MembersAfter, JsonRest, Ends;
    MembersFirst(v, p, a, number);
    MembersFirst(w, q, b, number);
    if p == [] || q == [] {
      var x, y := JsonMembers(v, p, number) + a, JsonMembers(w, q, number) + b;
      assert x[0] == (if p == [] then '}' else '"') && y[0] == if q == [] then '}' else '"';
      SameLengths("}", a, b);
    } else {
      var c, d := Json(v.members[p[0]], number) + MembersAfter(v, p, a, number), Json(w.members[q[0]], number) + MembersAfter(w, q, b, number);
      StringReads(p[0], q[0], ":" + c, ":" + d);
      SameLengths(":", c, d);
      AfterEnds(v, p, a, number);
      AfterEnds(w, q, b, number);
      JsonReads(v.members[p[0]], w.members[q[0]], MembersAfter(v, p, a, number), MembersAfter(w, q, b, number), number);
      MembersRest(v, p, w, q, a, b, number);
      if |p| > 1 { MembersRead(v, p[1..], w, q[1..], a, b, number); }
      assert p == [p[0]] + p[1..] && q == [q[0]] + q[1..];
    }
  }
}

/** What a value's text says as JSON, by the grammar of RFC 8259 (src/blogin/json.cpp). */
module JsonWritten {
  import opened Strings
  import opened Values
  import opened JsonText

  // ------------------------------------------------------------- strings (section 7)

  /** What the character after a backslash stands for. */
  function Escaped(c: char): Option<char> {
    match c
    case '"' => Some('"')
    case '\\' => Some('\\')
    case '/' => Some('/')
    case 'b' => Some(8 as char)
    case 'f' => Some(12 as char)
    case 'n' => Some('\n')
    case 'r' => Some('\r')
    case 't' => Some('\t')
    case _ => None
  }

  function HexValue(c: char): int {
    if '0' <= c <= '9' then c as int - '0' as int
    else if 'a' <= c <= 'f' then c as int - 'a' as int + 10
    else if 'A' <= c <= 'F' then c as int - 'A' as int + 10
    else -1
  }

  /** What four hexadecimal digits stand for, the first half of the plane. */
  function CodePoint(hex: string): Option<char>
    requires |hex| == 4
  {
    var a, b, c, d := HexValue(hex[0]), HexValue(hex[1]), HexValue(hex[2]), HexValue(hex[3]);
    if a < 0 || b < 0 || c < 0 || d < 0 || a >= 8 then None else Some((((a * 16 + b) * 16 + c) * 16 + d) as char)
  }

  /** A string up to its closing quote, and what comes after it. */
  function ReadString(t: string): Option<(string, string)>
    decreases |t|
  {
    if t == "" || t[0] < ' ' then None
    else if t[0] == '"' then Some(("", t[1..]))
    else if t[0] != '\\' then Put(Some(t[0]), ReadString(t[1..]))
    else if |t| >= 6 && t[1] == 'u' then Put(CodePoint(t[2..6]), ReadString(t[6..]))
    else if |t| >= 2 then Put(Escaped(t[1]), ReadString(t[2..]))
    else None
  }

  function Put(first: Option<char>, rest: Option<(string, string)>): Option<(string, string)> {
    if first.Some? && rest.Some? then Some(([first.value] + rest.value.0, rest.value.1)) else None
  }

  lemma HexBack(n: nat)
    requires n < 16
    ensures HexValue(HexDigit(n)) == n
  {
  }

  /** How a character is written: as itself, behind a backslash, or by its code. */
  lemma CharForms(c: char)
    ensures var t := JsonChar(c);
            || (t == [c] && c >= ' ' && c != '"' && c != '\\')
            || (|t| == 2 && t[0] == '\\' && t[1] != 'u' && Escaped(t[1]) == Some(c))
            || (c < ' ' && t == ['\\', 'u', '0', '0', HexDigit(c as int / 16), HexDigit(c as int % 16)])
  {
  }

  lemma CodeBack(c: char)
    requires c < ' '
    ensures CodePoint(['0', '0', HexDigit(c as int / 16), HexDigit(c as int % 16)]) == Some(c)
  {
    HexBack(c as int / 16);
    HexBack(c as int % 16);
  }

  lemma CharBack(c: char, more: string)
    ensures ReadString(JsonChar(c) + more) == Put(Some(c), ReadString(more))
  {
    hide Escaped, CodePoint, HexDigit;
    CharForms(c);
    var s := JsonChar(c);
    hide JsonChar;
    var t := s + more;
    assert t[|s|..] == more && t[0] == s[0];
    if |s| == 2 {
      assert t[1] == s[1];
    } else if |s| == 6 {
      CodeBack(c);
      assert t[1] == s[1] && t[2..6] == s[2..6] == ['0', '0', HexDigit(c as int / 16), HexDigit(c as int % 16)];
    }
  }

  /** A string is read back as itself. */
  lemma {:induction false} StringBack(s: string, more: string)
    ensures ReadString(JsonRest(s) + more) == Some((s, more))
    decreases s
  {
    hide JsonChar, ReadString;
    if s == "" {
      assert JsonRest(s) + more == ['"'] + more;
      QuoteBack(more);
    } else {
      StringBack(s[1..], more);
      CharBack(s[0], JsonRest(s[1..]) + more);
      assert JsonRest(s) + more == JsonChar(s[0]) + (JsonRest(s[1..]) + more);
      assert s == [s[0]] + s[1..];
    }
  }

  lemma QuoteBack(more: string)
    ensures ReadString(['"'] + more) == Some(("", more))
  {
    assert (['"'] + more)[1..] == more;
  }

  predicate StringSays(t: string, s: string) { t != "" && t[0] == '"' && ReadString(t[1..]) == Some((s, "")) }

  lemma StringSaid(s: string)
    ensures StringSays(JsonString(s), s)
  {
    hide JsonRest;
    StringBack(s, "");
    assert JsonString(s)[1..] == JsonRest(s) && JsonRest(s) + "" == JsonRest(s);
  }

  // ------------------------------------------------------------- values (sections 3 to 6)

  function Commas(texts: seq<string>): string {
    if texts == [] then "" else if |texts| == 1 then texts[0] else texts[0] + ("," + Commas(texts[1..]))
  }

  /** One name after another, in the order of their characters. */
  ghost predicate Ascending(names: seq<string>) { forall i, j | 0 <= i < j < |names| :: TextLess(names[i], names[j]) }

  /** The text is the value as JSON: nothing in it but what the grammar asks for, each item of a
      list in its place, and each member of an object once, in the order of their names. */
  ghost predicate Says(t: string, v: Value, number: real -> string)
    decreases v
  {
    match v
    case Null => t == "null"
    case Boolean(b) => t == if b then "true" else "false"
    case Integer(i) => t == IntegerText(i)
    case Number(r) => t == number(r)
    case String(s) => StringSays(t, s)
    case List(items) =>
      exists texts | |texts| == |items| ::
        t == "[" + Commas(texts) + "]" && forall i | 0 <= i < |items| :: Says(texts[i], items[i], number)
    case Object(members) =>
      exists names: seq<string>, texts: seq<string> | |names| == |texts| ::
        && t == "{" + Commas(texts) + "}"
        && Ascending(names) && (forall name :: name in names <==> name in members)
        && forall i | 0 <= i < |names| && names[i] in members ::
             exists head, body :: texts[i] == head + (":" + body) && StringSays(head, names[i]) && Says(body, members[names[i]], number)
  }

  lemma {:induction false} SortedAscending(names: set<string>)
    ensures Ascending(SortedNames(names))
    decreases |names|
  {
    if names != {} {
      var least := LeastOf(names);
      SortedAscending(names - {least});
      var rest := SortedNames(names - {least});
      forall j | 0 <= j < |rest| ensures TextLess(least, rest[j]) { assert rest[j] in rest; }
      assert SortedNames(names) == [least] + rest;
    }
  }

  lemma {:induction false} ItemsWritten(items: seq<Value>, texts: seq<string>, number: real -> string)
    requires |texts| == |items| && forall i | 0 <= i < |items| :: texts[i] == Json(items[i], number)
    ensures JsonItems(items, number) == Commas(texts) + "]"
    decreases items
  {
    hide Json;
    if |items| > 1 {
      ItemsWritten(items[1..], texts[1..], number);
      assert texts[0] + ("," + (Commas(texts[1..]) + "]")) == Commas(texts) + "]";
    }
  }

  function MemberText(v: Value, name: string, number: real -> string): string
    requires v.Object? && name in v.members
  {
    JsonString(name) + (":" + Json(v.members[name], number))
  }

  lemma {:induction false} MembersWritten(v: Value, names: seq<string>, texts: seq<string>, number: real -> string)
    requires v.Object? && (forall name | name in names :: name in v.members)
    requires |texts| == |names| && forall i | 0 <= i < |names| :: texts[i] == MemberText(v, names[i], number)
    ensures JsonMembers(v, names, number) == Commas(texts) + "}"
    decreases names
  {
    hide Json, JsonString;
    if names != [] {
      MembersWritten(v, names[1..], texts[1..], number);
      MemberFirst(v, names, number);
      assert texts[0] == MemberText(v, names[0], number);
      if |names| == 1 {
        assert Commas(texts) == texts[0];
      } else {
        assert texts[0] + ("," + (Commas(texts[1..]) + "}")) == Commas(texts) + "}";
      }
    }
  }

  lemma MemberFirst(v: Value, names: seq<string>, number: real -> string)
    requires v.Object? && names != [] && (forall name | name in names :: name in v.members)
    ensures JsonMembers(v, names, number)
         == MemberText(v, names[0], number) + if |names| == 1 then "}" else "," + JsonMembers(v, names[1..], number)
  {
    hide Json, JsonString;
  }

  /** Every value is written as JSON that says it. */
  lemma {:induction false} JsonSays(v: Value, number: real -> string)
    ensures Says(Json(v, number), v, number)
    decreases v
  {
    hide JsonString, SortedNames, IntegerText, StringSays, Ascending;
    match v
    case String(s) => StringSaid(s);
    case List(items) =>
      var texts := seq(|items|, i requires 0 <= i < |items| => Json(items[i], number));
      ItemsWritten(items, texts, number);
      forall i | 0 <= i < |items| ensures Says(texts[i], items[i], number) { JsonSays(items[i], number); }
      assert Json(v, number) == "[" + Commas(texts) + "]";
    case Object(members) => MembersSay(v, number);
    case _ =>
  }

  lemma {:induction false} MembersSay(v: Value, number: real -> string)
    requires v.Object?
    ensures Says(Json(v, number), v, number)
    decreases v, 0
  {
    hide JsonString, SortedNames, StringSays, Ascending, JsonMembers;
    var names := SortedNames(v.members.Keys);
    assert forall name :: name in names <==> name in v.members;
    var texts := seq(|names|, i requires 0 <= i < |names| => MemberText(v, names[i], number));
    MembersWritten(v, names, texts, number);
    SortedAscending(v.members.Keys);
    forall i | 0 <= i < |names|
      ensures exists head, body :: texts[i] == head + (":" + body) && StringSays(head, names[i]) && Says(body, v.members[names[i]], number)
    {
      StringSaid(names[i]);
      JsonSays(v.members[names[i]], number);
    }
    assert Json(v, number) == "{" + Commas(texts) + "}";
  }
}

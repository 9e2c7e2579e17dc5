/** An attribute list reads back as what it was written from: names bare or quoted, flags
    and values, any of the separators, and hashes nested to any depth. Only a comma ends a
    value, so quoted values with nothing but blanks and names between them are one value. */
module AttributeLists {
  import opened Strings
  import opened Template
  import opened Compiling
  import opened Interpolation
  import opened Preserved
  import opened Attributes
  import Expression

  datatype Name = Bare(text: string) | InQuotes(quote: char, text: string)

  datatype Value = Words(quote: char, text: string) | Code(source: string) | Group(items: seq<Item>, tail: string)

  /** What follows a name: a separator, a value, and the space about them. */
  datatype Given = Given(gap: string, mark: string, pad: string, value: Value, after: string)

  datatype Item = Item(before: string, name: Name, given: Option<Given>)

  function NameText(n: Name): string {
    match n
    case Bare(text) => text
    case InQuotes(quote, text) => [quote] + text + [quote]
  }

  function ValueText(v: Value): string {
    match v
    case Words(quote, text) => [quote] + text + [quote]
    case Code(source) => source
    case Group(items, tail) => "{" + (ItemsText(items) + tail) + "}"
  }

  function PaddedText(g: Given): string { g.pad + ValueText(g.value) + g.after }

  function GivenText(given: Option<Given>): string {
    match given
    case None => ""
    case Some(g) => g.gap + g.mark + PaddedText(g)
  }

  function ItemText(i: Item): string { i.before + NameText(i.name) + GivenText(i.given) }

  function ItemsText(items: seq<Item>): string {
    if items == [] then "" else ItemText(items[0]) + ItemsText(items[1..])
  }

  // ------------------------------------------------------------- what it means

  function PartsOf(v: Value): seq<Segment> {
    match v
    case Words(_, text) => if Interpolated(text).Good? then Interpolated(text).value else []
    case Code(source) => if ExpressionOf(source).Good? then [Hole(ExpressionOf(source).value)] else []
    case Group(_, _) => []
  }

  function MeaningOf(i: Item, prefix: string): seq<Attribute> {
    var name := if prefix == "" then i.name.text else prefix + "-" + i.name.text;
    match i.given
    case None => [Attribute(name, [], true)]
    case Some(g) =>
      match g.value
      case Group(items, _) => Meaning(items, name)
      case _ => [Attribute(name, PartsOf(g.value), false)]
  }

  function Meaning(items: seq<Item>, prefix: string): seq<Attribute> {
    if items == [] then [] else MeaningOf(items[0], prefix) + Meaning(items[1..], prefix)
  }

  // ------------------------------------------------------------- what may be written

  predicate Opening(c: char) { c == '(' || c == '{' || c == '[' }

  predicate Closes(c: char, opener: char) {
    (opener == '(' && c == ')') || (opener == '{' && c == '}') || (opener == '[' && c == ']')
  }

  predicate Closing(c: char) { c == ')' || c == '}' || c == ']' }

  /** Quotes closed, brackets closed in the order they opened, and commas only inside the
      brackets, unless commas are allowed throughout. */
  predicate Nests(s: string, open: seq<char>, quote: Option<char>, commas: bool) {
    if s == "" then open == [] && quote.None?
    else
      var c := s[0];
      if quote.Some? || IsQuote(c) then Nests(s[1..], open, Quoting(quote, c), commas)
      else if Opening(c) then Nests(s[1..], open + [c], None, commas)
      else if Closing(c) then
        open != [] && Closes(c, open[|open| - 1]) && Nests(s[1..], open[..|open| - 1], None, commas)
      else (c == ',' ==> commas || open != []) && Nests(s[1..], open, None, commas)
  }

  predicate WellNamed(n: Name) {
    n.text != "" &&
    match n
    case Bare(text) => forall c | c in text :: IsNameCharacter(c)
    case InQuotes(quote, text) => IsQuote(quote) && quote !in text
  }

  predicate Separators(s: string) { forall c | c in s :: IsSeparator(c) }

  predicate WellValued(v: Value) {
    match v
    case Words(quote, _) => IsQuote(quote) && Nests(ValueText(v), [], None, false) && Interpolated(v.text).Good?
    case Code(source) =>
      Solid(source) && !IsGroup(source) && !IsQuoted(source) && Nests(source, [], None, false) && ExpressionOf(source).Good?
    case Group(items, tail) => WellListed(items, tail, true, false)
  }

  predicate WellGiven(g: Given) {
    && (forall c | c in g.gap :: IsBlank(c)) && Spaces(g.pad) && Spaces(g.after) && WellValued(g.value)
    && (g.mark == ":" || g.mark == "=" || g.mark == "=>")
    && (g.mark == "=" ==> !(">" <= PaddedText(g)))
  }

  /** A comma ends every value but the last; something separates a flag from the next name. */
  predicate WellListed(items: seq<Item>, tail: string, first: bool, valued: bool) {
    if items == [] then Separators(tail) && (valued ==> tail == "" || tail[0] == ',')
    else
      var i := items[0];
      && Separators(i.before) && (valued ==> "," <= i.before) && (!first ==> i.before != "")
      && WellNamed(i.name) && (i.given.Some? ==> WellGiven(i.given.value))
      && WellListed(items[1..], tail, false, i.given.Some?)
  }

  // ------------------------------------------------------------- nesting

  /** One stretch that nests, inside or before another. */
  lemma {:induction false} NestsThen(a: string, open: seq<char>, quote: Option<char>, inside: bool, rest: string,
                                     base: seq<char>, commas: bool)
    requires Nests(a, open, quote, inside) && Nests(rest, base, None, commas) && (inside ==> commas || base != [])
    ensures Nests(a + rest, base + open, quote, commas)
    decreases |a|
  {
    if a == "" {
      assert a + rest == rest && base + open == base;
    } else {
      var c := a[0];
      assert (a + rest)[1..] == a[1..] + rest;
      if quote.Some? || IsQuote(c) {
        NestsThen(a[1..], open, Quoting(quote, c), inside, rest, base, commas);
      } else if Opening(c) {
        NestsThen(a[1..], open + [c], None, inside, rest, base, commas);
        assert base + (open + [c]) == (base + open) + [c];
      } else if Closing(c) {
        NestsThen(a[1..], open[..|open| - 1], None, inside, rest, base, commas);
        assert (base + open)[..|base + open| - 1] == base + open[..|open| - 1];
      } else {
        NestsThen(a[1..], open, None, inside, rest, base, commas);
      }
    }
  }

  lemma NestsJoin(a: string, b: string, commas: bool)
    requires Nests(a, [], None, commas) && Nests(b, [], None, commas)
    ensures Nests(a + b, [], None, commas)
  {
    var none: seq<char> := [];
    if commas { NestsThen(a, [], None, true, b, [], true); } else { NestsThen(a, [], None, false, b, [], false); }
    assert none + none == none;
  }

  predicate Ordinary(s: string, commas: bool) {
    forall c | c in s :: !IsQuote(c) && !Opening(c) && !Closing(c) && (c == ',' ==> commas)
  }

  lemma {:induction false} OrdinaryNests(s: string, commas: bool)
    requires Ordinary(s, commas)
    ensures Nests(s, [], None, commas)
    decreases |s|
  {
    if s != "" {
      assert s[0] in s;
      forall c | c in s[1..] ensures c in s {}
      OrdinaryNests(s[1..], commas);
    }
  }

  lemma {:induction false} QuotedNests(text: string, quote: char, commas: bool)
    requires IsQuote(quote) && quote !in text
    ensures Nests(text + [quote], [], Some(quote), commas)
    decreases |text|
  {
    var s := text + [quote];
    if text == "" {
      assert s == [quote] && s[1..] == "";
    } else {
      assert text[0] in text && s[1..] == text[1..] + [quote];
      forall c | c in text[1..] ensures c in text {}
      QuotedNests(text[1..], quote, commas);
    }
  }

  lemma InQuotesNests(text: string, quote: char, commas: bool)
    requires IsQuote(quote) && quote !in text
    ensures Nests([quote] + text + [quote], [], None, commas)
  {
    QuotedNests(text, quote, commas);
    assert ([quote] + text + [quote])[1..] == text + [quote];
  }

  lemma NameNests(n: Name, commas: bool)
    requires WellNamed(n)
    ensures Nests(NameText(n), [], None, commas)
  {
    if n.Bare? { OrdinaryNests(n.text, commas); } else { InQuotesNests(n.text, n.quote, commas); }
  }

  lemma {:induction false} ValueNests(v: Value)
    requires WellValued(v)
    ensures Nests(ValueText(v), [], None, false)
    decreases v
  {
    hide Nests;
    match v
    case Words(_, _) =>
    case Code(_) =>
    case Group(items, tail) =>
      ItemsNest(items, tail, true, false);
      BracesNest(ItemsText(items) + tail);
  }

  lemma BracesNest(s: string)
    requires Nests(s, [], None, true)
    ensures Nests("{" + s + "}", [], None, false)
  {
    hide Nests;
    LastBrace();
    NestsThen(s, [], None, true, "}", ['{'], false);
    assert ['{'] + [] == ['{'];
    FirstBrace(s + "}");
    assert "{" + s + "}" == "{" + (s + "}");
  }

  lemma LastBrace()
    ensures Nests("}", ['{'], None, false)
  {
    assert "}"[1..] == "" && ['{'][..0] == [];
    assert Nests("", [], None, false);
  }

  lemma FirstBrace(s: string)
    requires Nests(s, ['{'], None, false)
    ensures Nests("{" + s, [], None, false)
  {
    var whole := "{" + s;
    assert whole[0] == '{' && whole[1..] == s && [] + ['{'] == ['{'];
  }

  lemma PaddedNests(g: Given)
    requires WellGiven(g) && Nests(ValueText(g.value), [], None, false)
    ensures Nests(PaddedText(g), [], None, false)
  {
    hide Nests;
    OrdinaryNests(g.pad, false);
    OrdinaryNests(g.after, false);
    NestsJoin(g.pad, ValueText(g.value), false);
    NestsJoin(g.pad + ValueText(g.value), g.after, false);
  }

  /** What nests without commas of its own nests with them. */
  lemma NestsAnyway(s: string)
    requires Nests(s, [], None, false)
    ensures Nests(s, [], None, true)
  {
    var none: seq<char> := [];
    NestsThen(s, [], None, false, "", [], true);
    assert s + "" == s && none + none == none;
  }

  lemma {:induction false} ItemsNest(items: seq<Item>, tail: string, first: bool, valued: bool)
    requires WellListed(items, tail, first, valued)
    ensures Nests(ItemsText(items) + tail, [], None, true)
    decreases items
  {
    hide Nests, WellGiven;
    if items == [] {
      OrdinaryNests(tail, true);
      assert ItemsText(items) + tail == tail;
    } else {
      var i := items[0];
      ItemsNest(items[1..], tail, false, i.given.Some?);
      if i.given.Some? { ValueNests(i.given.value.value) by { GivenValued(i.given.value); } }
      ItemNests(i);
      NestsJoin(ItemText(i), ItemsText(items[1..]) + tail, true);
      assert ItemText(i) + (ItemsText(items[1..]) + tail) == ItemsText(items) + tail;
    }
  }

  lemma GivenValued(g: Given)
    requires WellGiven(g)
    ensures WellValued(g.value)
  {
  }

  lemma ItemNests(i: Item)
    requires Separators(i.before) && WellNamed(i.name)
    requires i.given.Some? ==> WellGiven(i.given.value) && Nests(ValueText(i.given.value.value), [], None, false)
    ensures Nests(ItemText(i), [], None, true)
  {
    hide Nests;
    OrdinaryNests(i.before, true);
    NameNests(i.name, true);
    NestsJoin(i.before, NameText(i.name), true);
    if i.given.Some? {
      var g := i.given.value;
      PaddedNests(g);
      NestsAnyway(PaddedText(g));
      OrdinaryNests(g.gap + g.mark, true);
      NestsJoin(g.gap + g.mark, PaddedText(g), true);
      NestsJoin(i.before + NameText(i.name), g.gap + g.mark + PaddedText(g), true);
    } else {
      assert i.before + NameText(i.name) + "" == i.before + NameText(i.name);
    }
  }

  // ------------------------------------------------------------- reading it

  /** A value that nests is scanned to its end. */
  lemma {:induction false} ValuePassed(body: string, at: nat, s: string, open: seq<char>, quote: Option<char>)
    requires at + |s| <= |body| && body[at..at + |s|] == s && Nests(s, open, quote, false)
    ensures ValueEnd(body, at, |open|, quote) == ValueEnd(body, at + |s|, 0, None)
    decreases |s|
  {
    if s != "" {
      var c := s[0];
      assert body[at] == c && body[at + 1..at + 1 + |s[1..]|] == s[1..];
      if quote.Some? || IsQuote(c) {
        ValuePassed(body, at + 1, s[1..], open, Quoting(quote, c));
      } else if Opening(c) {
        ValuePassed(body, at + 1, s[1..], open + [c], None);
      } else if Closing(c) {
        ValuePassed(body, at + 1, s[1..], open[..|open| - 1], None);
      } else {
        ValuePassed(body, at + 1, s[1..], open, None);
      }
    }
  }

  function Count(open: seq<char>, c: char): nat {
    if open == [] then 0 else Count(open[..|open| - 1], c) + if open[|open| - 1] == c then 1 else 0
  }

  lemma CountLast(open: seq<char>, c: char)
    ensures Count(open, c) == if open == [] then 0 else Count(open[..|open| - 1], c) + if open[|open| - 1] == c then 1 else 0
  {
  }

  lemma ListStep(content: string, at: nat, brackets: (char, char), depth: nat, quote: Option<char>)
    requires at < |content| && depth > 0 && (brackets == ('{', '}') || brackets == ('(', ')'))
    ensures var c := content[at];
            ListEnd(content, at, brackets, depth, quote) ==
              if quote.Some? || IsQuote(c) then ListEnd(content, at + 1, brackets, depth, Quoting(quote, c))
              else if c == brackets.1 && depth == 1 then at
              else
                ListEnd(content, at + 1, brackets,
                        if c == brackets.0 then depth + 1 else if c == brackets.1 then depth - 1 else depth, None)
  {
  }

  /** A list that nests is scanned to the bracket after it. */
  lemma {:induction false} ListPassed(content: string, at: nat, s: string, brackets: (char, char), open: seq<char>,
                                      quote: Option<char>)
    requires at + |s| <= |content| && content[at..at + |s|] == s && Nests(s, open, quote, true)
    requires brackets == ('{', '}') || brackets == ('(', ')')
    ensures ListEnd(content, at, brackets, 1 + Count(open, brackets.0), quote) == ListEnd(content, at + |s|, brackets, 1, None)
    decreases |s|
  {
    hide Count, ListEnd;
    CountLast(open, brackets.0);
    if s != "" {
      var c := s[0];
      assert content[at] == c && content[at + 1..at + 1 + |s[1..]|] == s[1..];
      ListStep(content, at, brackets, 1 + Count(open, brackets.0), quote);
      if quote.Some? || IsQuote(c) {
        ListPassed(content, at + 1, s[1..], brackets, open, Quoting(quote, c));
      } else if Opening(c) {
        CountLast(open + [c], brackets.0);
        assert (open + [c])[..|open|] == open;
        ListPassed(content, at + 1, s[1..], brackets, open + [c], None);
      } else if Closing(c) {
        ListPassed(content, at + 1, s[1..], brackets, open[..|open| - 1], None);
      } else {
        ListPassed(content, at + 1, s[1..], brackets, open, None);
      }
    }
  }

  lemma {:induction false} RunEndsAt(s: string, i: nat, j: nat, p: char -> bool)
    requires i <= j <= |s| && (forall k | i <= k < j :: p(s[k])) && (j < |s| ==> !p(s[j]))
    ensures RunEnd(s, i, p) == j
    decreases j - i
  {
    if i < j { RunEndsAt(s, i + 1, j, p); }
  }

  /** Blanks before a name are skipped with the separators. */
  lemma {:induction false} SkipsBlanks(body: string, start: nat, end: nat, prefix: string)
    requires start <= end <= |body| && forall k | start <= k < end :: IsBlank(body[k])
    ensures AttributesFrom(body, start, prefix) == AttributesFrom(body, end, prefix)
    decreases end - start
  {
    hide AttributesFrom;
    if start < end {
      assert IsSeparator(body[start]);
      SkipsBlanks(body, start + 1, end, prefix);
      assert RunEnd(body, start, IsSeparator) == RunEnd(body, start + 1, IsSeparator);
      SameStart(body, start, start + 1, prefix);
    }
  }

  lemma SameStart(body: string, a: nat, b: nat, prefix: string)
    requires a <= |body| && b <= |body| && RunEnd(body, a, IsSeparator) == RunEnd(body, b, IsSeparator)
    ensures AttributesFrom(body, a, prefix) == AttributesFrom(body, b, prefix)
  {
    hide RunEnd, NameAt, ValueEnd, ValueOf, Trim;
  }

  lemma {:induction false} TrimEndPads(s: string, after: string)
    requires Spaces(after) && s != "" && !IsSpace(s[|s| - 1])
    ensures TrimEnd(s + after) == s
    decreases |after|
  {
    if after == "" {
      assert s + after == s;
    } else {
      var n := |after| - 1;
      assert after[n] in after && (s + after)[..|s + after| - 1] == s + after[..n];
      forall c | c in after[..n] ensures IsSpace(c) { assert c in after; }
      TrimEndPads(s, after[..n]);
    }
  }

  lemma PaddedTrims(g: Given)
    requires Spaces(g.pad) && Spaces(g.after) && Solid(ValueText(g.value))
    ensures Trim(PaddedText(g)) == ValueText(g.value)
  {
    var v := ValueText(g.value);
    assert PaddedText(g) == g.pad + (v + g.after);
    TrimStartAny(g.pad, v, g.after);
    TrimEndPads(v, g.after);
  }

  lemma {:induction false} TrimStartAny(pad: string, v: string, after: string)
    requires Spaces(pad) && Solid(v)
    ensures TrimStart(pad + (v + after)) == v + after
    decreases |pad|
  {
    var s := pad + (v + after);
    if pad == "" {
      assert s == v + after && s[0] == v[0];
    } else {
      assert pad[0] in pad && s[1..] == pad[1..] + (v + after);
      forall c | c in pad[1..] ensures IsSpace(c) { assert c in pad; }
      TrimStartAny(pad[1..], v, after);
    }
  }

  lemma ValueSolid(v: Value)
    requires WellValued(v)
    ensures Solid(ValueText(v))
  {
  }

  /** One attribute of a body, by where its parts begin and end. */
  lemma NameRead(body: string, at: nat, n: Name)
    requires WellNamed(n) && at + |NameText(n)| <= |body| && body[at..at + |NameText(n)|] == NameText(n)
    requires n.Bare? && at + |NameText(n)| < |body| ==> !IsNameCharacter(body[at + |NameText(n)|])
    ensures NameAt(body, at) == (n.text, at + |NameText(n)|)
  {
    var s, end := NameText(n), at + |NameText(n)|;
    assert body[at] == s[0] && forall k | 0 <= k < |s| :: body[at + k] == s[k];
    if n.Bare? {
      assert s[0] in n.text;
      forall k | at <= k < end ensures IsNameCharacter(body[k]) { assert body[k] == s[k - at] && s[k - at] in n.text; }
      RunEndsAt(body, at, end, IsNameCharacter);
    } else {
      var p: char -> bool := c => c != body[at];
      forall k | at + 1 <= k < end - 1 ensures p(body[k]) { assert body[k] == s[k - at] == n.text[k - at - 1] && n.text[k - at - 1] in n.text; }
      assert body[end - 1] == s[|s| - 1] == n.quote;
      RunEndsAt(body, at + 1, end - 1, p);
      assert body[at + 1..end - 1] == n.text by { assert body[at..end][1..|s| - 1] == s[1..|s| - 1] == n.text; }
    }
  }

  /** A value, read where it was written, and where what follows it begins. */
  lemma ValueRead(body: string, mark: nat, g: Given, rest: string)
    requires WellGiven(g) && mark + |g.mark| + |PaddedText(g)| <= |body|
    requires body[mark..] == g.mark + PaddedText(g) + rest && (rest != "" ==> rest[0] == ',')
    ensures ValueStart(body, mark) == Some(mark + |g.mark|)
    ensures var start, end := mark + |g.mark|, mark + |g.mark| + |PaddedText(g)|;
            && ValueEnd(body, start, 0, None) == end && body[end..] == rest && Trim(body[start..end]) == ValueText(g.value)
  {
    hide *;
    var start, end := mark + |g.mark|, mark + |g.mark| + |PaddedText(g)|;
    var tail := PaddedText(g) + rest;
    GivenFirst(g);
    PaddedFirst(g);
    assert body[mark..] == g.mark + tail;
    MarkRead(body, mark, g.mark, tail);
    SlicesAt(body, mark, g.mark, PaddedText(g), rest);
    ValueNests(g.value) by { GivenValued(g); }
    PaddedNests(g);
    ValuePassed(body, start, PaddedText(g), [], None);
    ValueStops(body, end);
    ValueSolid(g.value) by { GivenValued(g); }
    PaddedTrims(g);
  }

  lemma GivenFirst(g: Given)
    requires WellGiven(g)
    ensures (g.mark == ":" || g.mark == "=" || g.mark == "=>") && Spaces(g.pad) && Spaces(g.after)
  {
    hide WellValued, PaddedText;
  }

  /** Two stretches one after the other, and what is left. */
  lemma SlicesAt(body: string, at: nat, a: string, b: string, rest: string)
    requires at <= |body| && body[at..] == a + b + rest
    ensures var start, end := at + |a|, at + |a| + |b|;
            && end <= |body| && body[start..end] == b && body[end..] == rest && (end < |body| ==> rest != "" && body[end] == rest[0])
  {
    var start, end, tail := at + |a|, at + |a| + |b|, body[at..];
    assert tail[|a|..|a| + |b|] == b && tail[|a| + |b|..] == rest;
    assert body[start..end] == tail[|a|..|a| + |b|] && body[end..] == tail[|a| + |b|..];
  }

  lemma PaddedFirst(g: Given)
    requires WellGiven(g)
    ensures PaddedText(g) != "" && (g.mark == "=" ==> PaddedText(g)[0] != '>')
  {
    ValueSolid(g.value);
    var s := PaddedText(g);
    assert s[0] == '>' ==> ">" <= s;
  }

  lemma MarkRead(body: string, mark: nat, written: string, tail: string)
    requires written == ":" || written == "=" || written == "=>"
    requires mark <= |body| && body[mark..] == written + tail && tail != "" && (written == "=" ==> tail[0] != '>')
    ensures ValueStart(body, mark) == Some(mark + |written|)
  {
    assert body[mark] == written[0] && body[mark + 1] == (written + tail)[1];
  }

  lemma ValueStops(body: string, end: nat)
    requires end <= |body| && (end < |body| ==> body[end] == ',')
    ensures ValueEnd(body, end, 0, None) == end
  {
  }

  /** What a list says of its first item. */
  lemma ListedFirst(items: seq<Item>, tail: string, first: bool, valued: bool)
    requires items != [] && WellListed(items, tail, first, valued)
    ensures Separators(items[0].before) && WellNamed(items[0].name) && (items[0].given.Some? ==> WellGiven(items[0].given.value))
    ensures WellListed(items[1..], tail, false, items[0].given.Some?)
    ensures items[0].name.text != "" && NameText(items[0].name) != ""
    ensures ItemsText(items) + tail == ItemText(items[0]) + (ItemsText(items[1..]) + tail)
  {
    hide WellGiven, ItemText;
    assert ItemsText(items) == ItemText(items[0]) + ItemsText(items[1..]);
    assert (ItemText(items[0]) + ItemsText(items[1..])) + tail == ItemText(items[0]) + (ItemsText(items[1..]) + tail);
  }

  /** An item's name, read where it was written. */
  lemma ItemNamed(body: string, position: nat, items: seq<Item>, tail: string, first: bool, valued: bool)
    requires items != [] && WellListed(items, tail, first, valued)
    requires position <= |body| && body[position..] == ItemsText(items) + tail
    ensures var i, more := items[0], ItemsText(items[1..]) + tail;
            var at := position + |i.before|;
            var after := at + |NameText(i.name)|;
            && at < after <= |body| && i.name.text != ""
            && RunEnd(body, position, IsSeparator) == at && NameAt(body, at) == (i.name.text, after)
            && body[after..] == AfterName(i.given, more) && (i.given.Some? && more != "" ==> more[0] == ',')
  {
    hide *;
    ListedFirst(items, tail, first, valued);
    MoreBegins(items, tail, first, valued);
    NamePlaced(body, position, items[0], ItemsText(items[1..]) + tail);
  }

  lemma NamePlaced(body: string, position: nat, i: Item, more: string)
    requires Separators(i.before) && WellNamed(i.name) && (i.given.Some? ==> WellGiven(i.given.value))
    requires NameText(i.name) != "" && i.name.text != "" && (more != "" ==> IsSeparator(more[0]))
    requires position <= |body| && body[position..] == ItemText(i) + more
    ensures var at := position + |i.before|;
            var after := at + |NameText(i.name)|;
            && at < after <= |body| && RunEnd(body, position, IsSeparator) == at && NameAt(body, at) == (i.name.text, after)
            && body[after..] == AfterName(i.given, more)
  {
    hide *;
    var at := position + |i.before|;
    ItemParts(body, position, i, more);
    ItemBefore(body, position, i);
    NameEnds(body, at + |NameText(i.name)|, i, more);
    NameRead(body, at, i.name);
  }

  lemma GivenMeans(i: Item, prefix: string)
    requires i.given.Some?
    ensures var v := i.given.value.value;
            if v.Group? then ValueText(v) == "{" + (ItemsText(v.items) + v.tail) + "}"
            else MeaningOf(i, prefix) == [Attribute(FullName(prefix, i.name.text), PartsOf(v), false)]
  {
  }

  lemma FlagMeans(i: Item, prefix: string)
    requires i.given.None?
    ensures MeaningOf(i, prefix) == [Attribute(FullName(prefix, i.name.text), [], true)]
    ensures forall more :: AfterName(i.given, more) == more
  {
  }

  lemma FlagItem(body: string, position: nat, items: seq<Item>, tail: string, first: bool, valued: bool, prefix: string)
    requires items != [] && items[0].given.None? && WellListed(items, tail, first, valued)
    requires position <= |body| && body[position..] == ItemsText(items) + tail
    ensures var after := position + |items[0].before| + |NameText(items[0].name)|;
            && after <= |body| && body[after..] == ItemsText(items[1..]) + tail
            && AttributesFrom(body, position, prefix) == Joined(MeaningOf(items[0], prefix), AttributesFrom(body, after, prefix))
  {
    hide *;
    ListedFirst(items, tail, first, valued);
    ItemNamed(body, position, items, tail, first, valued);
    var i, more := items[0], ItemsText(items[1..]) + tail;
    var at := position + |i.before|;
    var after := at + |NameText(i.name)|;
    FlagMeans(i, prefix);
    FlagEnds(items[1..], tail);
    FlagRead(body, after, more);
    FlagStep(body, position, at, after, i.name.text, prefix);
    BlankRun(body, after);
    SkipsBlanks(body, after, RunEnd(body, after, IsBlank), prefix);
  }

  /** Where the scanners stop in an item that gives a value. */
  lemma GivenScanned(body: string, position: nat, items: seq<Item>, tail: string, first: bool, valued: bool)
    returns (at: nat, after: nat, mark: nat, start: nat, end: nat)
    requires items != [] && items[0].given.Some? && WellListed(items, tail, first, valued)
    requires position <= |body| && body[position..] == ItemsText(items) + tail
    ensures at < after <= |body| && mark <= |body| && start <= end <= |body| && items[0].name.text != ""
    ensures RunEnd(body, position, IsSeparator) == at && NameAt(body, at) == (items[0].name.text, after)
    ensures RunEnd(body, after, IsBlank) == mark && ValueStart(body, mark) == Some(start)
    ensures ValueEnd(body, start, 0, None) == end && Trim(body[start..end]) == ValueText(items[0].given.value.value)
    ensures body[end..] == ItemsText(items[1..]) + tail && WellGiven(items[0].given.value)
  {
    hide *;
    ListedFirst(items, tail, first, valued);
    ItemNamed(body, position, items, tail, first, valued);
    var i, more := items[0], ItemsText(items[1..]) + tail;
    var g := i.given.value;
    GivenAfter(g, more);
    at := position + |i.before|;
    after := at + |NameText(i.name)|;
    mark := after + |g.gap|;
    GapRead(body, after, g, more);
    GivenFits(body, mark, g, more);
    ValueRead(body, mark, g, more);
    start, end := mark + |g.mark|, mark + |g.mark| + |PaddedText(g)|;
  }

  lemma GivenAfter(g: Given, more: string)
    ensures AfterName(Some(g), more) == g.gap + (g.mark + PaddedText(g) + more) && AfterName(None, more) == more
  {
  }

  lemma GivenFits(body: string, mark: nat, g: Given, more: string)
    requires mark <= |body| && body[mark..] == g.mark + PaddedText(g) + more
    ensures mark + |g.mark| + |PaddedText(g)| <= |body|
  {
    hide PaddedText;
  }

  lemma GivenItem(body: string, position: nat, items: seq<Item>, tail: string, first: bool, valued: bool, prefix: string)
    returns (end: nat)
    requires items != [] && items[0].given.Some? && WellListed(items, tail, first, valued)
    requires position <= |body| && body[position..] == ItemsText(items) + tail
    requires var v := items[0].given.value.value;
             (v.Group? ==> AttributesFrom(ItemsText(v.items) + v.tail, 0, FullName(prefix, items[0].name.text))
                             == Good(MeaningOf(items[0], prefix)))
    ensures end <= |body| && body[end..] == ItemsText(items[1..]) + tail
    ensures AttributesFrom(body, position, prefix) == Joined(MeaningOf(items[0], prefix), AttributesFrom(body, end, prefix))
  {
    hide *;
    var i, v := items[0], items[0].given.value.value;
    var at, after, mark, start;
    at, after, mark, start, end := GivenScanned(body, position, items, tail, first, valued);
    GivenMeans(i, prefix);
    if v.Group? {
      GroupStep(body, position, at, after, mark, start, end, i.name.text, ItemsText(v.items) + v.tail, prefix);
    } else {
      ValueStep(body, position, at, after, mark, start, end, i.name.text, v, prefix) by { GivenValued(i.given.value); }
    }
  }

  /** A list reads back as its attributes, from wherever in a body it was written. */
  lemma {:induction false} ItemsRead(body: string, position: nat, items: seq<Item>, tail: string, first: bool,
                                     valued: bool, prefix: string)
    requires WellListed(items, tail, first, valued)
    requires position <= |body| && body[position..] == ItemsText(items) + tail
    ensures AttributesFrom(body, position, prefix) == Good(Meaning(items, prefix))
    decreases items
  {
    hide AttributesFrom, WellGiven, ItemsText, NameText;
    if items == [] {
      NoItems();
      assert body[position..] == tail;
      NothingRead(body, position, tail, prefix);
    } else if items[0].given.None? {
      FlagItem(body, position, items, tail, first, valued, prefix);
      var after := position + |items[0].before| + |NameText(items[0].name)|;
      ItemsRead(body, after, items[1..], tail, false, false, prefix);
    } else {
      var v := items[0].given.value.value;
      if v.Group? {
        GivenListed(items[0].given.value);
        var inner := ItemsText(v.items) + v.tail;
        assert inner[0..] == inner;
        ItemsRead(inner, 0, v.items, v.tail, true, false, FullName(prefix, items[0].name.text));
      }
      var end := GivenItem(body, position, items, tail, first, valued, prefix);
      ItemsRead(body, end, items[1..], tail, false, true, prefix);
    }
  }

  lemma NoItems()
    ensures ItemsText([]) == ""
  {
  }

  lemma NameEnds(body: string, after: nat, i: Item, more: string)
    requires after <= |body| && (i.given.Some? ==> WellGiven(i.given.value)) && (more != "" ==> IsSeparator(more[0]))
    requires body[after..] == AfterName(i.given, more)
    ensures after < |body| ==> !IsNameCharacter(body[after])
  {
    hide WellGiven, PaddedText;
    if i.given.Some? {
      GapRead(body, after, i.given.value, more);
    } else if after < |body| {
      assert body[after] == more[0];
    }
  }

  lemma GivenListed(g: Given)
    requires WellGiven(g) && g.value.Group?
    ensures WellListed(g.value.items, g.value.tail, true, false)
  {
  }

  lemma NothingRead(body: string, position: nat, tail: string, prefix: string)
    requires position <= |body| && body[position..] == tail && Separators(tail)
    ensures AttributesFrom(body, position, prefix) == Good([])
  {
    forall k | position <= k < |body| ensures IsSeparator(body[k]) {
      assert body[k] == tail[k - position] && tail[k - position] in tail;
    }
    RunEndsAt(body, position, |body|, IsSeparator);
  }

  /** What follows a name on the line. */
  function AfterName(given: Option<Given>, more: string): string {
    match given
    case None => more
    case Some(g) => g.gap + (g.mark + PaddedText(g) + more)
  }

  /** Where the parts of an item stand. */
  lemma ItemParts(body: string, position: nat, i: Item, more: string)
    requires position <= |body| && body[position..] == ItemText(i) + more
    ensures var at := position + |i.before|;
            var after := at + |NameText(i.name)|;
            && after <= |body| && body[position..at] == i.before && body[at..after] == NameText(i.name)
            && body[after..] == AfterName(i.given, more)
  {
    hide NameText, PaddedText;
    var rest := AfterName(i.given, more);
    var n, m := |i.before|, |NameText(i.name)|;
    assert body[position..] == (i.before + NameText(i.name)) + rest;
    assert body[position..][..n] == i.before && body[position..][n..n + m] == NameText(i.name);
    assert body[position..][n + m..] == rest;
  }

  /** What comes after an item is not part of its name. */
  lemma MoreBegins(items: seq<Item>, tail: string, first: bool, valued: bool)
    requires items != [] && WellListed(items, tail, first, valued)
    ensures var more := ItemsText(items[1..]) + tail;
            && (more != "" ==> IsSeparator(more[0]))
            && (items[0].given.Some? && more != "" ==> more[0] == ',')
  {
    hide WellGiven;
    var rest := items[1..];
    if rest == [] {
      assert ItemsText(rest) + tail == tail;
      if tail != "" { assert tail[0] in tail; }
    } else {
      assert rest[0].before[0] in rest[0].before;
      assert ItemsText(rest)[0] == rest[0].before[0];
    }
  }

  lemma ItemBefore(body: string, position: nat, i: Item)
    requires position <= |body| && Separators(i.before) && WellNamed(i.name)
    requires var at := position + |i.before|;
             at + |NameText(i.name)| <= |body| && body[position..at] == i.before && body[at..at + |NameText(i.name)|] == NameText(i.name)
    ensures RunEnd(body, position, IsSeparator) == position + |i.before|
  {
    var at := position + |i.before|;
    forall k | position <= k < at ensures IsSeparator(body[k]) {
      assert body[k] == i.before[k - position] && i.before[k - position] in i.before;
    }
    assert body[at] == NameText(i.name)[0];
    if i.name.Bare? { assert i.name.text[0] in i.name.text; }
    RunEndsAt(body, position, at, IsSeparator);
  }

  lemma {:induction false} BlankRun(body: string, after: nat)
    requires after <= |body|
    ensures forall k | after <= k < RunEnd(body, after, IsBlank) :: IsBlank(body[k])
    ensures RunEnd(body, after, IsBlank) < |body| ==> !IsBlank(body[RunEnd(body, after, IsBlank)])
    decreases |body| - after
  {
    if after < |body| && IsBlank(body[after]) { BlankRun(body, after + 1); }
  }

  /** A flag is followed by no value: separators, and then a name or nothing. */
  lemma FlagRead(body: string, after: nat, more: string)
    requires after <= |body| && body[after..] == more
    requires FlagEnd(more)
    ensures ValueStart(body, RunEnd(body, after, IsBlank)).None?
  {
    hide RunEnd;
    var mark := RunEnd(body, after, IsBlank);
    BlankRun(body, after);
    if mark < |body| { assert body[mark] == more[mark - after]; }
  }

  /** No colon or equals sign comes first after any blanks. */
  predicate FlagEnd(more: string) {
    forall k | 0 <= k < |more| && (forall j | 0 <= j < k :: IsBlank(more[j])) :: more[k] != ':' && more[k] != '='
  }

  lemma FlagEnds(items: seq<Item>, tail: string)
    requires WellListed(items, tail, false, false)
    ensures FlagEnd(ItemsText(items) + tail)
  {
    hide WellGiven, WellListed, FlagEnd, ItemsText, ItemText;
    if items == [] {
      NoItems();
      TailSeparates(tail, false);
      assert "" + tail == tail;
      SeparatorsEnd(tail, "", true);
      assert tail + "" == tail;
    } else {
      ListedFirst(items, tail, false, false);
      var i := items[0];
      NameBegins(i.name);
      var rest := (NameText(i.name) + GivenText(i.given)) + (ItemsText(items[1..]) + tail);
      ItemAfter(i, ItemsText(items[1..]) + tail);
      SeparatorsEnd(i.before, rest, false);
    }
  }

  lemma TailSeparates(tail: string, first: bool)
    requires WellListed([], tail, first, false)
    ensures Separators(tail)
  {
  }

  lemma NameBegins(n: Name)
    requires WellNamed(n)
    ensures var s := NameText(n); s != "" && !IsBlank(s[0]) && s[0] != ':' && s[0] != '='
  {
    if n.Bare? { assert n.text[0] in n.text; }
  }

  lemma ItemAfter(i: Item, more: string)
    requires NameText(i.name) != ""
    ensures ItemText(i) + more == i.before + ((NameText(i.name) + GivenText(i.given)) + more)
    ensures var rest := (NameText(i.name) + GivenText(i.given)) + more; rest != "" && rest[0] == NameText(i.name)[0]
  {
    hide NameText, GivenText;
    assert ItemText(i) + more == i.before + ((NameText(i.name) + GivenText(i.given)) + more);
  }

  lemma SeparatorsEnd(before: string, rest: string, last: bool)
    requires Separators(before) && (if last then rest == "" else rest != "" && !IsBlank(rest[0]) && rest[0] != ':' && rest[0] != '=')
    ensures FlagEnd(before + rest)
  {
    var more := before + rest;
    forall k | 0 <= k < |more| && (forall j | 0 <= j < k :: IsBlank(more[j])) ensures more[k] != ':' && more[k] != '=' {
      if k < |before| {
        assert more[k] == before[k] && before[k] in before;
      } else {
        assert more[|before|] == rest[0];
      }
    }
  }

  /** What the name is followed by, when a value is given. */
  lemma GapRead(body: string, after: nat, g: Given, more: string)
    requires WellGiven(g) && after <= |body| && body[after..] == g.gap + (g.mark + PaddedText(g) + more)
    ensures RunEnd(body, after, IsBlank) == after + |g.gap|
    ensures body[after + |g.gap|..] == g.mark + PaddedText(g) + more
    ensures after < |body| && !IsNameCharacter(body[after])
  {
    hide PaddedText, WellValued;
    var rest := g.mark + PaddedText(g) + more;
    var mark := after + |g.gap|;
    forall k | after <= k < mark ensures IsBlank(body[k]) {
      assert body[k] == g.gap[k - after] && g.gap[k - after] in g.gap;
    }
    assert body[mark..] == rest by { assert body[after..][|g.gap|..] == rest; }
    assert body[mark] == rest[0] == g.mark[0];
    RunEndsAt(body, after, mark, IsBlank);
    if g.gap != "" { assert body[after] == g.gap[0] && g.gap[0] in g.gap; }
  }

  /** One step of the body, for each thing an item can be. */
  lemma FlagStep(body: string, position: nat, at: nat, after: nat, name: string, prefix: string)
    requires position <= |body| && at < after <= |body| && name != ""
    requires RunEnd(body, position, IsSeparator) == at && NameAt(body, at) == (name, after)
    requires ValueStart(body, RunEnd(body, after, IsBlank)).None?
    ensures AttributesFrom(body, position, prefix)
         == Joined([Attribute(FullName(prefix, name), [], true)], AttributesFrom(body, RunEnd(body, after, IsBlank), prefix))
  {
    hide RunEnd, NameAt, ValueStart, Joined, ValueEnd, ValueOf, Trim;
  }

  lemma GroupStep(body: string, position: nat, at: nat, after: nat, mark: nat, start: nat, end: nat, name: string,
                  inner: string, prefix: string)
    requires position <= |body| && at < after <= |body| && name != "" && mark <= |body| && start <= end <= |body|
    requires RunEnd(body, position, IsSeparator) == at && NameAt(body, at) == (name, after)
    requires RunEnd(body, after, IsBlank) == mark && ValueStart(body, mark) == Some(start)
    requires ValueEnd(body, start, 0, None) == end && Trim(body[start..end]) == "{" + inner + "}"
    requires AttributesFrom(inner, 0, FullName(prefix, name)).Good?
    ensures AttributesFrom(body, position, prefix)
         == Joined(AttributesFrom(inner, 0, FullName(prefix, name)).value, AttributesFrom(body, end, prefix))
  {
    hide RunEnd, NameAt, ValueStart, Joined, ValueEnd, ValueOf, Trim;
    var raw := Trim(body[start..end]);
    assert IsGroup(raw) && raw[1..|raw| - 1] == inner;
  }

  lemma ValueStep(body: string, position: nat, at: nat, after: nat, mark: nat, start: nat, end: nat, name: string,
                  v: Value, prefix: string)
    requires position <= |body| && at < after <= |body| && name != "" && mark <= |body| && start <= end <= |body|
    requires RunEnd(body, position, IsSeparator) == at && NameAt(body, at) == (name, after)
    requires RunEnd(body, after, IsBlank) == mark && ValueStart(body, mark) == Some(start)
    requires ValueEnd(body, start, 0, None) == end && Trim(body[start..end]) == ValueText(v)
    requires WellValued(v) && !v.Group?
    ensures AttributesFrom(body, position, prefix)
         == Joined([Attribute(FullName(prefix, name), PartsOf(v), false)], AttributesFrom(body, end, prefix))
  {
    hide RunEnd, NameAt, ValueStart, Joined, ValueEnd, Trim;
    ValueMeans(v);
  }

  lemma ValueMeans(v: Value)
    requires WellValued(v) && !v.Group?
    ensures !IsGroup(ValueText(v)) && ValueOf(ValueText(v)) == Good(PartsOf(v))
  {
    hide Interpolated, ExpressionOf;
    var raw := ValueText(v);
    if v.Words? { assert raw[1..|raw| - 1] == v.text; }
  }

  lemma BodyInside(content: string, index: nat, body: string, opening: string, closing: string)
    requires |opening| == |closing| == 1
    requires index + |body| + 2 <= |content| && content[index..index + |body| + 2] == opening + body + closing
    ensures content[index + 1..index + 1 + |body|] == body
    ensures content[index] == opening[0] && content[index + 1 + |body|] == closing[0]
  {
    var written := opening + body + closing;
    assert content[index] == written[0] && content[index + 1 + |body|] == written[1 + |body|];
    assert forall k | 0 <= k < |body| :: content[index + 1 + k] == written[1 + k] == body[k];
  }

  /** A list in its brackets, anywhere on a line: where it ends, and what it says. */
  lemma ListReadsBack(content: string, index: nat, items: seq<Item>, tail: string, braces: bool)
    requires WellListed(items, tail, true, false)
    requires var body := ItemsText(items) + tail;
             var written := (if braces then "{" else "(") + body + (if braces then "}" else ")");
             index + |written| <= |content| && content[index..index + |written|] == written
    ensures var body := ItemsText(items) + tail;
            var opener, closer := if braces then '{' else '(', if braces then '}' else ')';
            && ListEnd(content, index, (opener, closer), 0, None) == index + 1 + |body|
            && AttributesFrom(content[index + 1..index + 1 + |body|], 0, "") == Good(Meaning(items, ""))
  {
    hide *;
    var body := ItemsText(items) + tail;
    BodyInside(content, index, body, if braces then "{" else "(", if braces then "}" else ")");
    ItemsNest(items, tail, true, false);
    ListScanned(content, index, body, if braces then ('{', '}') else ('(', ')'));
    assert body[0..] == body;
    ItemsRead(body, 0, items, tail, true, false, "");
  }

  /** What stands for two quoted values when no comma is between them. */
  function RunTogether(quote: char, first: string, between: string, second: string): string {
    first + [quote] + between + [quote] + second
  }

  lemma RunTogetherNests(quote: char, first: string, between: string, second: string)
    requires IsQuote(quote) && quote !in first && quote !in second && Ordinary(between, false)
    ensures Nests([quote] + RunTogether(quote, first, between, second) + [quote], [], None, false)
  {
    hide Nests;
    var a, b := [quote] + first + [quote], [quote] + second + [quote];
    InQuotesNests(first, quote, false);
    OrdinaryNests(between, false);
    InQuotesNests(second, quote, false);
    NestsJoin(a, between, false);
    NestsJoin(a + between, b, false);
    assert [quote] + RunTogether(quote, first, between, second) + [quote] == a + between + b;
  }

  function OneQuoted(name: string, quote: char, text: string): Item {
    Item("", Bare(name), Some(Given("", "=", "", Words(quote, text), "")))
  }

  lemma OneListed(name: string, quote: char, text: string)
    requires WellNamed(Bare(name)) && WellValued(Words(quote, text))
    ensures WellListed([OneQuoted(name, quote, text)], "", true, false)
  {
    hide WellNamed, WellValued;
    var items, g := [OneQuoted(name, quote, text)], Given("", "=", "", Words(quote, text), "");
    QuoteFirst(quote, text);
    assert WellGiven(g);
    assert items[1..] == [] && WellListed([], "", false, true);
  }

  lemma QuoteFirst(quote: char, text: string)
    requires WellValued(Words(quote, text))
    ensures var s := PaddedText(Given("", "=", "", Words(quote, text), "")); s == [quote] + text + [quote] && !(">" <= s)
  {
    hide Nests, Interpolated;
    assert PaddedText(Given("", "=", "", Words(quote, text), ""))[0] == quote;
  }

  lemma OneWritten(name: string, quote: char, text: string)
    ensures ItemsText([OneQuoted(name, quote, text)]) + "" == name + "=" + ([quote] + text + [quote])
  {
    var i := OneQuoted(name, quote, text);
    assert [i][1..] == [] && ItemsText([]) == "";
    assert ItemsText([i]) == ItemText(i) + "";
    assert PaddedText(i.given.value) == [quote] + text + [quote];
    assert GivenText(i.given) == "" + "=" + ([quote] + text + [quote]);
  }

  lemma OneMeans(name: string, quote: char, text: string)
    requires Interpolated(text).Good?
    ensures Meaning([OneQuoted(name, quote, text)], "") == [Attribute(name, Interpolated(text).value, false)]
  {
    hide Interpolated;
    var i := OneQuoted(name, quote, text);
    assert [i][1..] == [] && Meaning([], "") == [] && FullName("", name) == name;
    assert MeaningOf(i, "") == [Attribute(name, Interpolated(text).value, false)];
  }

  /** Two attributes with quoted values and only blanks between them are read as one, whose
      text goes on to the last quote. */
  lemma ValuesRunTogether(name: string, quote: char, first: string, between: string, second: string)
    requires WellNamed(Bare(name)) && IsQuote(quote) && quote !in first && quote !in second && Ordinary(between, false)
    requires Interpolated(RunTogether(quote, first, between, second)).Good?
    ensures var body := name + "=" + ([quote] + first + [quote]) + between + ([quote] + second + [quote]);
            AttributesFrom(body, 0, "")
              == Good([Attribute(name, Interpolated(RunTogether(quote, first, between, second)).value, false)])
  {
    hide Nests, Interpolated, AttributesFrom, Ordinary, WellNamed, WellListed, ItemsText, Meaning;
    var text := RunTogether(quote, first, between, second);
    var body := name + "=" + ([quote] + first + [quote]) + between + ([quote] + second + [quote]);
    RunTogetherNests(quote, first, between, second);
    OneListed(name, quote, text);
    OneWritten(name, quote, text);
    OneMeans(name, quote, text);
    assert body == name + "=" + ([quote] + text + [quote]) && body[0..] == body;
    ItemsRead(body, 0, [OneQuoted(name, quote, text)], "", true, false, "");
  }

  lemma ListScanned(content: string, index: nat, body: string, brackets: (char, char))
    requires brackets == ('{', '}') || brackets == ('(', ')')
    requires index + |body| + 1 < |content| && content[index] == brackets.0 && content[index + 1 + |body|] == brackets.1
    requires content[index + 1..index + 1 + |body|] == body && Nests(body, [], None, true)
    ensures ListEnd(content, index, brackets, 0, None) == index + 1 + |body|
  {
    hide Nests;
    ListPassed(content, index + 1, body, brackets, [], None);
  }
}

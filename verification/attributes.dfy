/** An element's attribute list (src/blogin/haml.cpp): where it ends, and what its body
    says, a nested hash standing for one attribute per key. */
module Attributes {
  import opened Strings
  import opened Template
  import opened Compiling
  import opened Interpolation
  import opened Preserved
  import Expression

  predicate IsQuote(c: char) { c == '"' || c == '\'' }

  predicate IsSeparator(c: char) { c == ' ' || c == ',' || c == '\t' }

  /** The quote in force after a character. */
  function Quoting(quote: Option<char>, c: char): Option<char> {
    if quote.Some? then if c == quote.value then None else quote
    else if IsQuote(c) then Some(c)
    else None
  }

  /** Where the bracket that closes the list is, or the end when nothing closes it. */
  function ListEnd(s: string, scan: nat, brackets: (char, char), depth: int, quote: Option<char>): (end: nat)
    requires scan <= |s|
    ensures scan <= end <= |s|
    decreases |s| - scan
  {
    if scan == |s| then scan
    else
      var c := s[scan];
      if quote.Some? || IsQuote(c) then ListEnd(s, scan + 1, brackets, depth, Quoting(quote, c))
      else if c == brackets.0 then ListEnd(s, scan + 1, brackets, depth + 1, None)
      else if c == brackets.1 then if depth == 1 then scan else ListEnd(s, scan + 1, brackets, depth - 1, None)
      else ListEnd(s, scan + 1, brackets, depth, None)
  }

  function Nesting(c: char, depth: int): int {
    if c == '(' || c == '{' || c == '[' then depth + 1
    else if c == ')' || c == '}' || c == ']' then depth - 1
    else depth
  }

  /** Where a value ends: at a comma outside its quotes and brackets, or at the end. */
  function ValueEnd(s: string, position: nat, depth: int, quote: Option<char>): (end: nat)
    requires position <= |s|
    ensures position <= end <= |s|
    decreases |s| - position
  {
    if position == |s| then position
    else
      var c := s[position];
      if quote.Some? || IsQuote(c) then ValueEnd(s, position + 1, depth, Quoting(quote, c))
      else if c == ',' && depth == 0 then position
      else ValueEnd(s, position + 1, Nesting(c, depth), None)
  }

  /** The name at `at`, quoted or bare, and the index after it. */
  function NameAt(body: string, at: nat): (r: (string, nat))
    requires at < |body|
    ensures at <= r.1 <= |body| && (r.0 != "" ==> at < r.1)
  {
    if IsQuote(body[at]) then
      var end := RunEnd(body, at + 1, c => c != body[at]);
      (body[at + 1..end], if end < |body| then end + 1 else end)
    else
      var end := RunEnd(body, at, IsNameCharacter);
      (body[at..end], end)
  }

  /** Where the value begins, when something separates it from its name. */
  function ValueStart(body: string, mark: nat): (r: Option<nat>)
    requires mark <= |body|
    ensures r.Some? ==> mark < r.value <= |body|
  {
    if mark + 1 < |body| && body[mark] == '=' && body[mark + 1] == '>' then Some(mark + 2)
    else if mark < |body| && (body[mark] == ':' || body[mark] == '=') then Some(mark + 1)
    else None
  }

  function FullName(prefix: string, name: string): string {
    if prefix == "" then name else prefix + "-" + name
  }

  predicate IsGroup(raw: string) { |raw| >= 2 && raw[0] == '{' && raw[|raw| - 1] == '}' }

  predicate IsQuoted(raw: string) { |raw| >= 2 && IsQuote(raw[0]) && raw[|raw| - 1] == raw[0] }

  /** A quoted value is text with holes; any other is one expression. */
  function ValueOf(raw: string): Compiled<seq<Segment>> {
    if IsQuoted(raw) then Interpolated(raw[1..|raw| - 1])
    else
      match ExpressionOf(raw)
      case Good(node) => Good([Hole(node)])
      case Bad(error) => Bad(error)
  }

  function Joined(first: seq<Attribute>, rest: Compiled<seq<Attribute>>): Compiled<seq<Attribute>> {
    match rest
    case Bad(error) => Bad(error)
    case Good(more) => Good(first + more)
  }

  /** The attributes of a body from `position` on, each under `prefix`. A nested hash is
      strictly inside the body that holds it. */
  function AttributesFrom(body: string, position: nat, prefix: string): Compiled<seq<Attribute>>
    requires position <= |body|
    decreases |body|, |body| - position
  {
    var at := RunEnd(body, position, IsSeparator);
    if at == |body| then Good([])
    else
      var (name, after) := NameAt(body, at);
      if name == "" then Bad(NoAttributeName)
      else
        var mark := RunEnd(body, after, IsBlank);
        var start := ValueStart(body, mark);
        if start.None? then
          Joined([Attribute(FullName(prefix, name), [], true)], AttributesFrom(body, mark, prefix))
        else
          var end := ValueEnd(body, start.value, 0, None);
          var raw := Trim(body[start.value..end]);
          if IsGroup(raw) then
            match AttributesFrom(raw[1..|raw| - 1], 0, FullName(prefix, name))
            case Bad(error) => Bad(error)
            case Good(group) => Joined(group, AttributesFrom(body, end, prefix))
          else
            match ValueOf(raw)
            case Bad(error) => Bad(error)
            case Good(value) =>
              Joined([Attribute(FullName(prefix, name), value, false)], AttributesFrom(body, end, prefix))
  }

  /** The quote in force before index `i`, of a text read from `from`. */
  function QuoteAt(s: string, from: nat, i: nat): Option<char>
    requires from <= i <= |s|
  {
    if i == from then None else Quoting(QuoteAt(s, from, i - 1), s[i - 1])
  }

  predicate Outside(s: string, from: nat, i: nat)
    requires from <= i < |s|
  {
    QuoteAt(s, from, i).None? && !IsQuote(s[i])
  }

  /** The brackets opened outside quotes before index `i`, less those closed. */
  function Balance(s: string, from: nat, i: nat, brackets: (char, char)): int
    requires from <= i <= |s|
  {
    if i == from then 0
    else
      Balance(s, from, i - 1, brackets)
        + if !Outside(s, from, i - 1) then 0
          else if s[i - 1] == brackets.0 then 1
          else if s[i - 1] == brackets.1 then -1
          else 0
  }

  /** A closing bracket outside quotes that leaves none open. */
  predicate Balances(s: string, from: nat, i: nat, brackets: (char, char))
    requires from <= i < |s|
  {
    Outside(s, from, i) && s[i] == brackets.1 != brackets.0 && Balance(s, from, i + 1, brackets) == 0
  }

  predicate FirstBalance(s: string, from: nat, brackets: (char, char), end: nat) {
    && from <= end <= |s| && (end < |s| ==> Balances(s, from, end, brackets))
    && forall i | from <= i < end :: !Balances(s, from, i, brackets)
  }

  lemma {:induction false} ListEndBalances(s: string, from: nat, scan: nat, brackets: (char, char))
    requires from <= scan <= |s| && forall i | from <= i < scan :: !Balances(s, from, i, brackets)
    ensures FirstBalance(s, from, brackets, ListEnd(s, scan, brackets, Balance(s, from, scan, brackets), QuoteAt(s, from, scan)))
    decreases |s| - scan
  {
    if scan < |s| && !Balances(s, from, scan, brackets) { ListEndBalances(s, from, scan + 1, brackets); }
  }

  lemma OneFirstBalance(s: string, from: nat, brackets: (char, char), a: nat, b: nat)
    requires FirstBalance(s, from, brackets, a) && FirstBalance(s, from, brackets, b)
    ensures a == b
  {
    hide Balances;
  }

  /** A list ends where, outside quotes, its brackets first balance, and at the end of the
      line when they never do. */
  lemma ListEndExactly(s: string, from: nat, brackets: (char, char), end: nat)
    requires from <= |s|
    ensures end == ListEnd(s, from, brackets, 0, None) <==> FirstBalance(s, from, brackets, end)
  {
    ListEndBalances(s, from, from, brackets);
    if FirstBalance(s, from, brackets, end) { OneFirstBalance(s, from, brackets, end, ListEnd(s, from, brackets, 0, None)); }
  }

  // ------------------------------------------------------------- the scanners

  method ScanList(content: string, index: nat, opener: char, closer: char) returns (scan: nat)
    requires index <= |content|
    ensures scan == ListEnd(content, index, (opener, closer), 0, None)
    ensures FirstBalance(content, index, (opener, closer), scan)
  {
    ListEndExactly(content, index, (opener, closer), ListEnd(content, index, (opener, closer), 0, None));
    var depth := 0;
    var quote: Option<char> := None;
    scan := index;
    while scan < |content|
      invariant index <= scan <= |content|
      invariant ListEnd(content, scan, (opener, closer), depth, quote) == ListEnd(content, index, (opener, closer), 0, None)
    {
      var c := content[scan];
      if quote.Some? {
        if c == quote.value { quote := None; }
      } else if IsQuote(c) {
        quote := Some(c);
      } else if c == opener {
        depth := depth + 1;
      } else if c == closer {
        depth := depth - 1;
        if depth == 0 { return; }
      }
      scan := scan + 1;
    }
  }

  method ScanValue(body: string, start: nat) returns (position: nat)
    requires start <= |body|
    ensures position == ValueEnd(body, start, 0, None)
  {
    var depth := 0;
    var quote: Option<char> := None;
    position := start;
    while position < |body|
      invariant start <= position <= |body|
      invariant ValueEnd(body, position, depth, quote) == ValueEnd(body, start, 0, None)
    {
      var c := body[position];
      if quote.Some? {
        if c == quote.value { quote := None; }
        position := position + 1;
        continue;
      }
      if IsQuote(c) {
        quote := Some(c);
        position := position + 1;
        continue;
      }
      if c == '(' || c == '{' || c == '[' {
        depth := depth + 1;
      } else if c == ')' || c == '}' || c == ']' {
        depth := depth - 1;
      } else if c == ',' && depth == 0 {
        return;
      }
      position := position + 1;
    }
  }

  method ScanName(body: string, at: nat) returns (name: string, position: nat)
    requires at < |body|
    ensures (name, position) == NameAt(body, at)
  {
    position := at;
    if IsQuote(body[position]) {
      var quote := body[position];
      position := position + 1;
      var end := Scan(body, position, c => c != quote);
      QuoteRuns(body, position, c => c != quote, c => c != body[at]);
      name := body[position..end];
      position := if end < |body| then end + 1 else end;
    } else {
      position := Scan(body, at, IsNameCharacter);
      name := body[at..position];
    }
  }

  lemma {:induction false} QuoteRuns(s: string, i: nat, p: char -> bool, q: char -> bool)
    requires i <= |s| && forall c :: p(c) == q(c)
    ensures RunEnd(s, i, p) == RunEnd(s, i, q)
    decreases |s| - i
  {
    if i < |s| { QuoteRuns(s, i + 1, p, q); }
  }

  method ReadValue(raw: string) returns (r: Compiled<seq<Segment>>)
    ensures r == ValueOf(raw)
  {
    if IsQuoted(raw) {
      r := ParseInterpolated(raw[1..|raw| - 1]);
    } else {
      var parsed := ReadExpression(raw);
      return if parsed.Bad? then Bad(parsed.error) else Good([Hole(parsed.value)]);
    }
  }

  lemma JoinedTwice(a: seq<Attribute>, b: seq<Attribute>, rest: Compiled<seq<Attribute>>)
    ensures Joined(a, Joined(b, rest)) == Joined(a + b, rest)
  {
    if rest.Good? { assert a + (b + rest.value) == (a + b) + rest.value; }
  }

  method ParseAttributeBody(body: string, prefix: string) returns (r: Compiled<seq<Attribute>>)
    ensures r == AttributesFrom(body, 0, prefix)
    decreases |body|
  {
    hide RunEnd, NameAt, ValueEnd, ValueOf, Joined, Trim;
    var attributes: seq<Attribute> := [];
    var position := 0;
    JoinedNothing(AttributesFrom(body, 0, prefix));
    while position < |body|
      invariant 0 <= position <= |body|
      invariant Joined(attributes, AttributesFrom(body, position, prefix)) == AttributesFrom(body, 0, prefix)
      decreases |body| - position
    {
      BodyStep(attributes, body, position, prefix);
      ghost var from := position;
      position := Scan(body, position, IsSeparator);
      if position >= |body| { return Good(attributes); }
      var name: string;
      name, position := ScanName(body, position);
      if name == "" { return Bad(NoAttributeName); }
      position := Scan(body, position, IsBlank);
      var start := ValueStart(body, position);
      if start.None? {
        attributes := attributes + [Attribute(FullName(prefix, name), [], true)];
        continue;
      }
      position := ScanValue(body, start.value);
      var raw := Trim(body[start.value..position]);
      if IsGroup(raw) {
        var nested := ParseAttributeBody(raw[1..|raw| - 1], FullName(prefix, name));
        if nested.Bad? { return nested; }
        attributes := attributes + nested.value;
        continue;
      }
      var value := ReadValue(raw);
      if value.Bad? { return Bad(value.error); }
      attributes := attributes + [Attribute(FullName(prefix, name), value.value, false)];
    }
    BodyEnd(attributes, body, prefix);
    return Good(attributes);
  }

  lemma JoinedNothing(rest: Compiled<seq<Attribute>>)
    ensures Joined([], rest) == rest
  {
    if rest.Good? { assert [] + rest.value == rest.value; }
  }

  lemma BodyEnd(sofar: seq<Attribute>, body: string, prefix: string)
    ensures Joined(sofar, AttributesFrom(body, |body|, prefix)) == Good(sofar)
  {
    assert sofar + [] == sofar;
  }

  /** What is still to come of a body, one attribute further on. */
  function NextAttribute(sofar: seq<Attribute>, body: string, position: nat, prefix: string): Compiled<seq<Attribute>>
    requires position <= |body|
  {
    var at := RunEnd(body, position, IsSeparator);
    if at == |body| then Good(sofar)
    else
      var (name, after) := NameAt(body, at);
      if name == "" then Bad(NoAttributeName)
      else
        var mark := RunEnd(body, after, IsBlank);
        var start := ValueStart(body, mark);
        if start.None? then
          Joined(sofar + [Attribute(FullName(prefix, name), [], true)], AttributesFrom(body, mark, prefix))
        else
          var end := ValueEnd(body, start.value, 0, None);
          var raw := Trim(body[start.value..end]);
          if IsGroup(raw) then
            var group := AttributesFrom(raw[1..|raw| - 1], 0, FullName(prefix, name));
            if group.Bad? then group else Joined(sofar + group.value, AttributesFrom(body, end, prefix))
          else
            var value := ValueOf(raw);
            if value.Bad? then Bad(value.error)
            else Joined(sofar + [Attribute(FullName(prefix, name), value.value, false)], AttributesFrom(body, end, prefix))
  }

  lemma BodyStep(sofar: seq<Attribute>, body: string, position: nat, prefix: string)
    requires position <= |body|
    ensures Joined(sofar, AttributesFrom(body, position, prefix)) == NextAttribute(sofar, body, position, prefix)
  {
    hide RunEnd, NameAt, ValueEnd, ValueOf, Trim;
    var at := RunEnd(body, position, IsSeparator);
    assert sofar + [] == sofar;
    if at < |body| && NameAt(body, at).0 != "" {
      var (name, after) := NameAt(body, at);
      var mark := RunEnd(body, after, IsBlank);
      var start := ValueStart(body, mark);
      if start.None? {
        JoinedTwice(sofar, [Attribute(FullName(prefix, name), [], true)], AttributesFrom(body, mark, prefix));
      } else {
        var end := ValueEnd(body, start.value, 0, None);
        var raw := Trim(body[start.value..end]);
        var rest := AttributesFrom(body, end, prefix);
        if IsGroup(raw) {
          var group := AttributesFrom(raw[1..|raw| - 1], 0, FullName(prefix, name));
          if group.Good? { JoinedTwice(sofar, group.value, rest); }
        } else if ValueOf(raw).Good? {
          JoinedTwice(sofar, [Attribute(FullName(prefix, name), ValueOf(raw).value, false)], rest);
        }
      }
    }
  }
}

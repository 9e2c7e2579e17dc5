/** Expression trees and the grammar of src/blogin/expression.cpp, as functions of the
    text still to be read and the recursion counter. */
module Expression {
  import opened Strings

  const MAX_DEPTH := 64
  const MAX_INTEGER := 0x7fff_ffff_ffff_ffff

  datatype BinaryOperator =
    | Equal | NotEqual | Less | LessOrEqual | Greater | GreaterOrEqual
    | And | Or | Add | Subtract | Concatenate

  /** A node that holds others carries the height measured when it was built. */
  datatype Node =
    | LiteralNull
    | LiteralBoolean(boolean: bool)
    | LiteralInteger(integer: int)
    | LiteralNumber(token: string)
    | LiteralString(literal: string)
    | Name(name: string)
    | Variable(variable: string)
    | Member(target: Node, member: string, height: nat)
    | Call(target: Node, arguments: seq<Node>, height: nat)
    | NamedArgument(key: string, target: Node, height: nat)
    | Block(target: Node, height: nat)
    | MapOf(arguments: seq<Node>, height: nat)
    | Not(target: Node, height: nat)
    | Binary(op: BinaryOperator, left: Node, right: Node, height: nat)
  {
    predicate IsLeaf() {
      LiteralNull? || LiteralBoolean? || LiteralInteger? || LiteralNumber? || LiteralString? || Name? || Variable?
    }

    /** The height field; a node that holds nothing keeps its default of one. */
    function Stored(): nat { if IsLeaf() then 1 else height }

    /** The levels from this node to its deepest leaf. */
    function TrueHeight(): nat {
      match this
      case Member(t, _, _) => 1 + t.TrueHeight()
      case NamedArgument(_, t, _) => 1 + t.TrueHeight()
      case Block(t, _) => 1 + t.TrueHeight()
      case Not(t, _) => 1 + t.TrueHeight()
      case Binary(_, l, r, _) => 1 + Max(l.TrueHeight(), r.TrueHeight())
      case Call(t, a, _) => 1 + Max(t.TrueHeight(), TrueHeights(a))
      case MapOf(a, _) => 1 + TrueHeights(a)
      case _ => 1
    }

    /** Every stored height below and at this node is the true one. */
    ghost predicate Measured() {
      && Stored() == TrueHeight()
      && match this
         case Member(t, _, _) => t.Measured()
         case NamedArgument(_, t, _) => t.Measured()
         case Block(t, _) => t.Measured()
         case Not(t, _) => t.Measured()
         case Binary(_, l, r, _) => l.Measured() && r.Measured()
         case Call(t, a, _) => t.Measured() && forall i | 0 <= i < |a| :: a[i].Measured()
         case MapOf(a, _) => forall i | 0 <= i < |a| :: a[i].Measured()
         case _ => true
    }

    /** Measured, and no taller than the limit. */
    ghost predicate Limited() { Measured() && TrueHeight() <= MAX_DEPTH }
  }

  ghost predicate AllLimited(nodes: seq<Node>) {
    forall i | 0 <= i < |nodes| :: nodes[i].Limited()
  }

  function Max(a: nat, b: nat): nat { if a < b then b else a }

  function TrueHeights(nodes: seq<Node>): nat {
    if nodes == [] then 0 else Max(nodes[0].TrueHeight(), TrueHeights(nodes[1..]))
  }

  function Tallest(nodes: seq<Node>): nat {
    if nodes == [] then 0 else Max(nodes[0].Stored(), Tallest(nodes[1..]))
  }

  function MakeMember(target: Node, name: string): Node { Member(target, name, target.Stored() + 1) }
  function MakeCall(target: Node, args: seq<Node>): Node { Call(target, args, Max(target.Stored(), Tallest(args)) + 1) }
  function MakeNamed(key: string, target: Node): Node { NamedArgument(key, target, target.Stored() + 1) }
  function MakeBlock(target: Node): Node { Block(target, target.Stored() + 1) }
  function MakeMap(entries: seq<Node>): Node { MapOf(entries, Tallest(entries) + 1) }
  function MakeNot(target: Node): Node { Not(target, target.Stored() + 1) }
  function MakeBinary(op: BinaryOperator, l: Node, r: Node): Node { Binary(op, l, r, Max(l.Stored(), r.Stored()) + 1) }

  datatype Failure = TooDeep | Malformed

  /** A node and the text after it, or what went wrong. */
  datatype Parsed = Ok(node: Node, rest: string) | Err(failure: Failure)
  datatype ParsedList = OkList(nodes: seq<Node>, tail: string) | ErrList(failure: Failure)

  predicate IsNameStart(c: char) { IsLetter(c) || c == '_' }

  predicate IsNameChar(c: char) { IsNameStart(c) || IsDigit(c) || c == '-' }

  function SkipBlanks(s: string): (r: string)
    ensures |r| <= |s|
    ensures r == [] || !IsBlank(r[0])
  {
    if s != [] && IsBlank(s[0]) then SkipBlanks(s[1..]) else s
  }

  function Starts(s: string, c: char): bool { s != [] && s[0] == c }

  /** The length of the run of name characters `s` begins with. */
  function NameLength(s: string): (n: nat)
    ensures n <= |s|
  {
    if s != [] && IsNameChar(s[0]) then 1 + NameLength(s[1..]) else 0
  }

  function DigitLength(s: string): (n: nat)
    ensures n <= |s|
  {
    if s != [] && IsDigit(s[0]) then 1 + DigitLength(s[1..]) else 0
  }

  /** What follows `token`, when `s` holds it after its blanks. A word has to be whole. */
  function Consume(s: string, token: string): (r: Option<string>)
    requires token != []
    ensures r.Some? ==> |r.value| < |s|
  {
    var t := SkipBlanks(s);
    if !(token <= t) then None
    else
      var after := t[|token|..];
      if IsNameStart(token[0]) && after != [] && IsNameChar(after[0]) then None else Some(after)
  }

  function Either(s: string, symbol: string, word: string): (r: Option<string>)
    requires symbol != [] && word != []
    ensures r.Some? ==> |r.value| < |s|
  {
    var first := Consume(s, symbol);
    if first.Some? then first else Consume(s, word)
  }

  datatype Found = Found(op: BinaryOperator, after: string) | NotFound

  /** The operator of one precedence level, tried in the order the parser tries them:
      1 is `||`, 2 is `&&`, 3 the comparisons, 4 the additive ones. */
  function ReadOperator(level: nat, s: string): (r: Found)
    requires 1 <= level <= 4
    ensures r.Found? ==> |r.after| < |s|
  {
    if level == 1 then
      var u := Either(s, "||", "or");
      if u.Some? then Found(Or, u.value) else NotFound
    else if level == 2 then
      var u := Either(s, "&&", "and");
      if u.Some? then Found(And, u.value) else NotFound
    else if level == 3 then
      ReadComparison(s)
    else
      var cat, plus, minus := Consume(s, "~"), Consume(s, "+"), Consume(s, "-");
      if cat.Some? then Found(Concatenate, cat.value)
      else if plus.Some? then Found(Add, plus.value)
      else if minus.Some? then Found(Subtract, minus.value)
      else NotFound
  }

  function ReadComparison(s: string): (r: Found)
    ensures r.Found? ==> |r.after| < |s|
  {
    var eq, ne := Either(s, "==", "eq"), Either(s, "!=", "ne");
    var le, ge, lt, gt := Consume(s, "<="), Consume(s, ">="), Consume(s, "<"), Consume(s, ">");
    if eq.Some? then Found(Equal, eq.value)
    else if ne.Some? then Found(NotEqual, ne.value)
    else if le.Some? then Found(LessOrEqual, le.value)
    else if ge.Some? then Found(GreaterOrEqual, ge.value)
    else if lt.Some? then Found(Less, lt.value)
    else if gt.Some? then Found(Greater, gt.value)
    else NotFound
  }

  /** Refuses a node taller than the limit. */
  function Checked(node: Node, rest: string): Parsed {
    if node.Stored() > MAX_DEPTH then Err(TooDeep) else Ok(node, rest)
  }

  function ParseOr(s: string, depth: nat): (r: Parsed)
    ensures r.Ok? ==> |r.rest| < |s|
    decreases |s|, 10
  {
    if depth + 1 > MAX_DEPTH then Err(TooDeep) else ParseBinary(1, s, depth + 1)
  }

  /** One left-associative precedence level; level 5 is the prefix operators. */
  function ParseBinary(level: nat, s: string, depth: nat): (r: Parsed)
    requires 1 <= level <= 5
    ensures r.Ok? ==> |r.rest| < |s|
    decreases |s|, 9 - level
  {
    if level == 5 then ParseUnary(s, depth)
    else
      var left := ParseBinary(level + 1, s, depth);
      if left.Err? then left else BinaryLoop(level, left.node, left.rest, depth)
  }

  function BinaryLoop(level: nat, left: Node, s: string, depth: nat): (r: Parsed)
    requires 1 <= level <= 4
    ensures r.Ok? ==> |r.rest| <= |s|
    decreases |s|, 0
  {
    match ReadOperator(level, s)
    case NotFound => Ok(left, SkipBlanks(s))
    case Found(op, after) =>
      var right := ParseBinary(level + 1, after, depth);
      if right.Err? then right
      else
        var built := Checked(MakeBinary(op, left, right.node), right.rest);
        if built.Err? then built else BinaryLoop(level, built.node, built.rest, depth)
  }

  function ParseUnary(s: string, depth: nat): (r: Parsed)
    ensures r.Ok? ==> |r.rest| < |s|
    decreases |s|, 3
  {
    if depth + 1 > MAX_DEPTH then Err(TooDeep)
    else
      var operand := Either(s, "!", "not");
      if operand.None? then ParsePostfix(s, depth + 1)
      else
        var inner := ParseUnary(operand.value, depth + 1);
        if inner.Err? then inner else Checked(MakeNot(inner.node), inner.rest)
  }

  function ParsePostfix(s: string, depth: nat): (r: Parsed)
    ensures r.Ok? ==> |r.rest| < |s|
    decreases |s|, 2
  {
    var target := ParsePrimary(s, depth);
    if target.Err? then target else PostfixLoop(target.node, target.rest, depth)
  }

  /** `.name`, `<name>` and `(...)` after a value, as many as there are. */
  function PostfixLoop(target: Node, s: string, depth: nat): (r: Parsed)
    ensures r.Ok? ==> |r.rest| <= |s|
    decreases |s|, 1
  {
    var t := SkipBlanks(s);
    if Starts(t, '.') then DotTail(target, t[1..], depth)
    else if Starts(t, '<') && AngleLength(t[1..]) > 0 then AngleTail(target, t[1..], depth)
    else if Starts(t, '(') then CallTail(target, t, depth)
    else Ok(target, t)
  }

  /** The length of a name closed by `>`, or zero when there is none. */
  function AngleLength(u: string): (n: nat)
    ensures n > 0 ==> n < |u| && n == NameLength(u)
  {
    var n := NameLength(u);
    if Starts(u[n..], '>') then n else 0
  }

  /** A member named after a dot; an argument list right behind it is its call. */
  function DotTail(target: Node, u: string, depth: nat): (r: Parsed)
    ensures r.Ok? ==> |r.rest| <= |u|
    decreases |u|, 1
  {
    var n := NameLength(u);
    if n == 0 then Err(Malformed)
    else
      var node := Checked(MakeMember(target, u[..n]), u[n..]);
      if node.Err? then node
      else if Starts(node.rest, '(') then CallTail(node.node, node.rest, depth)
      else PostfixLoop(node.node, node.rest, depth)
  }

  function AngleTail(target: Node, u: string, depth: nat): (r: Parsed)
    requires AngleLength(u) > 0
    ensures r.Ok? ==> |r.rest| <= |u|
    decreases |u|, 1
  {
    var n := AngleLength(u);
    var node := Checked(MakeMember(target, u[..n]), u[n + 1..]);
    if node.Err? then node else PostfixLoop(node.node, node.rest, depth)
  }

  /** The argument list at the front of `t`, applied to `target`, and what follows it. */
  function CallTail(target: Node, t: string, depth: nat): (r: Parsed)
    requires Starts(t, '(')
    ensures r.Ok? ==> |r.rest| <= |t|
    decreases |t|, 0
  {
    var arguments := ParseArguments(t[1..], depth);
    if arguments.ErrList? then Err(arguments.failure)
    else
      var call := Checked(MakeCall(target, arguments.nodes), arguments.tail);
      if call.Err? then call else PostfixLoop(call.node, call.rest, depth)
  }

  /** The arguments after an opening parenthesis, through the closing one. */
  function ParseArguments(s: string, depth: nat): (r: ParsedList)
    ensures r.OkList? ==> |r.tail| <= |s|
    decreases |s|, 13
  {
    var u := SkipBlanks(s);
    if u == [] then ErrList(Malformed)
    else if u[0] == ')' then OkList([], u[1..])
    else ArgumentLoop([], u, depth)
  }

  function ArgumentLoop(sofar: seq<Node>, s: string, depth: nat): (r: ParsedList)
    ensures r.OkList? ==> |r.tail| <= |s|
    decreases |s|, 12
  {
    var argument := ParseArgument(s, depth);
    if argument.Err? then ErrList(argument.failure)
    else
      var nodes := sofar + [argument.node];
      var comma, close := Consume(argument.rest, ","), Consume(argument.rest, ")");
      if comma.Some? then ArgumentLoop(nodes, comma.value, depth)
      else if close.Some? then OkList(nodes, close.value)
      else ErrList(Malformed)
  }

  /** The index of the first `c`, or the length when there is none. */
  function Find(s: string, c: char): (i: nat)
    ensures i <= |s|
  {
    if s == [] || s[0] == c then 0 else 1 + Find(s[1..], c)
  }

  /** A positional argument, or `:name<text>`, `:name(expression)` or a bare `:name`. */
  function ParseArgument(s: string, depth: nat): (r: Parsed)
    ensures r.Ok? ==> |r.rest| < |s|
    decreases |s|, 11
  {
    var t := SkipBlanks(s);
    if !Starts(t, ':') then ParseOr(t, depth)
    else
      var w := t[1..];
      var n := NameLength(w);
      if n == 0 then Err(Malformed)
      else
        var key, u := w[..n], w[n..];
        if Starts(u, '<') then LabelledLiteral(key, u)
        else if Starts(u, '(') then LabelledValue(key, u[1..], depth)
        else Ok(MakeNamed(key, LiteralString(key)), u)
  }

  function LabelledLiteral(key: string, u: string): (r: Parsed)
    requires Starts(u, '<')
    ensures r.Ok? ==> |r.rest| < |u|
  {
    var closing := Find(u, '>');
    if closing == |u| then Err(Malformed)
    else Ok(MakeNamed(key, LiteralString(u[1..closing])), u[closing + 1..])
  }

  function LabelledValue(key: string, s: string, depth: nat): (r: Parsed)
    ensures r.Ok? ==> |r.rest| < |s|
    decreases |s|, 11
  {
    var value := ParseOr(s, depth);
    if value.Err? then value
    else
      var close := Consume(value.rest, ")");
      if close.None? then Err(Malformed) else Checked(MakeNamed(key, value.node), close.value)
  }

  const BOOLEAN_WORDS := {"true", "True", "false", "False"}
  const NULL_WORDS := {"null", "Nil"}

  function WordNode(word: string): Node {
    if word in BOOLEAN_WORDS then LiteralBoolean(word == "true" || word == "True")
    else if word in NULL_WORDS then LiteralNull
    else Name(word)
  }

  function ParsePrimary(s: string, depth: nat): (r: Parsed)
    ensures r.Ok? ==> |r.rest| < |s|
    decreases |s|, 1
  {
    var t := SkipBlanks(s);
    if t == [] then Err(Malformed)
    else if t[0] == '(' then
      var inner := ParseOr(t[1..], depth);
      if inner.Err? then inner
      else
        var close := Consume(inner.rest, ")");
        if close.None? then Err(Malformed) else Ok(inner.node, close.value)
    else if t[0] == '{' then
      if LooksLikeMap(t[1..]) then MapLoop([], SkipBlanks(t[1..]), depth) else ParseBlock(t[1..], depth)
    else if t[0] == '"' || t[0] == '\'' then ParseString(t[0], [], t[1..])
    else if IsDigit(t[0]) then ParseNumber(t)
    else if t[0] == '$' then
      var w := t[1..];
      var n := NameLength(w);
      if n == 0 then Err(Malformed) else Ok(Variable(w[..n]), w[n..])
    else if IsNameStart(t[0]) then
      var n := NameLength(t);
      Ok(WordNode(t[..n]), t[n..])
    else Err(Malformed)
  }

  /** Whether what follows an opening brace is a closing one, or a name and a colon. */
  predicate LooksLikeMap(s: string) {
    var t := SkipBlanks(s);
    || Starts(t, '}')
    || (t != [] && IsNameStart(t[0]) && Starts(SkipBlanks(t[NameLength(t)..]), ':'))
  }

  /** The entries of a map still to be read, through its closing brace. */
  function MapLoop(sofar: seq<Node>, s: string, depth: nat): (r: Parsed)
    ensures r.Ok? ==> |r.rest| <= |s|
    decreases |s|, 11
  {
    if s == [] || s[0] == '}' then CloseMap(sofar, s)
    else
      var n := NameLength(s);
      var colon := Consume(s[n..], ":");
      if n == 0 || colon.None? then Err(Malformed)
      else
        var value := ParseOr(colon.value, depth);
        if value.Err? then value
        else
          var entry := Checked(MakeNamed(s[..n], value.node), value.rest);
          if entry.Err? then entry
          else
            var entries := sofar + [entry.node];
            var comma := Consume(value.rest, ",");
            if comma.None? then CloseMap(entries, value.rest)
            else MapLoop(entries, SkipBlanks(comma.value), depth)
  }

  function CloseMap(entries: seq<Node>, s: string): (r: Parsed)
    ensures r.Ok? ==> |r.rest| <= |s|
  {
    var close := Consume(s, "}");
    if close.None? then Err(Malformed) else Checked(MakeMap(entries), close.value)
  }

  function ParseBlock(s: string, depth: nat): (r: Parsed)
    ensures r.Ok? ==> |r.rest| < |s|
    decreases |s|, 11
  {
    var inner := ParseOr(s, depth);
    if inner.Err? then inner
    else
      var close := Consume(inner.rest, "}");
      if close.None? then Err(Malformed) else Checked(MakeBlock(inner.node), close.value)
  }

  /** The characters of a string literal up to its closing quote, a backslash dropped
      before whatever it escapes. */
  function ParseString(quote: char, sofar: string, s: string): (r: Parsed)
    ensures r.Ok? ==> |r.rest| < |s|
    decreases |s|
  {
    if s == [] then Err(Malformed)
    else if s[0] == quote then Ok(LiteralString(sofar), s[1..])
    else if s[0] == '\\' && |s| > 1 then ParseString(quote, sofar + [s[1]], s[2..])
    else ParseString(quote, sofar + [s[0]], s[1..])
  }

  /** The value of a run of digits, or zero when it does not fit 64 bits. */
  function IntegerOf(digits: string): int {
    var value := DecimalValue(digits);
    if value > MAX_INTEGER then 0 else value
  }

  function DecimalValue(digits: string): nat {
    if digits == [] then 0
    else
      var last := digits[|digits| - 1];
      DecimalValue(digits[..|digits| - 1]) * 10 + if IsDigit(last) then last as int - '0' as int else 0
  }

  function ParseNumber(s: string): (r: Parsed)
    requires s != [] && IsDigit(s[0])
    ensures r.Ok? && |r.rest| < |s|
  {
    var n := DigitLength(s);
    if Starts(s[n..], '.') && n + 1 < |s| && IsDigit(s[n + 1]) then
      var m := n + 1 + DigitLength(s[n + 1..]);
      Ok(LiteralNumber(s[..m]), s[m..])
    else Ok(LiteralInteger(IntegerOf(s[..n])), s[n..])
  }

  /** The whole of `source`, with nothing left over. */
  function Parse(source: string): (r: Parsed)
  {
    ParseWhole(Trim(source))
  }

  function ParseWhole(trimmed: string): (r: Parsed)
  {
    var result := ParseOr(trimmed, 0);
    if result.Err? then result
    else if SkipBlanks(result.rest) == [] then Ok(result.node, []) else Err(Malformed)
  }

  lemma SkipTwice(s: string)
    ensures SkipBlanks(SkipBlanks(s)) == SkipBlanks(s)
  {
  }

  lemma ConsumeSkips(s: string, token: string)
    requires token != []
    ensures Consume(SkipBlanks(s), token) == Consume(s, token)
  {
    SkipTwice(s);
  }
}

/** Every tree the parser returns carries its true height at every node, and none is
    taller than the limit: one lemma for each function of the grammar. */
module ExpressionLimits {
  import opened Strings
  import opened Expression

  ghost predicate Good(r: Parsed) { r.Ok? ==> r.node.Limited() }

  ghost predicate GoodList(r: ParsedList) { r.OkList? ==> AllLimited(r.nodes) }

  lemma {:induction false} TallestIsTrue(nodes: seq<Node>)
    requires AllLimited(nodes)
    ensures Tallest(nodes) == TrueHeights(nodes) <= MAX_DEPTH
  {
    if nodes != [] { TallestIsTrue(nodes[1..]); }
  }

  lemma CheckedCall(target: Node, arguments: seq<Node>, rest: string)
    requires target.Limited() && AllLimited(arguments)
    ensures Good(Checked(MakeCall(target, arguments), rest))
  {
    TallestIsTrue(arguments);
  }

  lemma CheckedMap(entries: seq<Node>, rest: string)
    requires AllLimited(entries)
    ensures Good(Checked(MakeMap(entries), rest))
  {
    TallestIsTrue(entries);
  }

  lemma {:induction false} OrGood(s: string, d: nat)
    ensures Good(ParseOr(s, d))
    decreases |s|, 10
  {
    if d + 1 <= MAX_DEPTH { BinaryGood(1, s, d + 1); }
  }

  lemma {:induction false} BinaryGood(k: nat, s: string, d: nat)
    requires 1 <= k <= 5
    ensures Good(ParseBinary(k, s, d))
    decreases |s|, 9 - k
  {
    if k == 5 {
      UnaryGood(s, d);
    } else {
      BinaryGood(k + 1, s, d);
      var left := ParseBinary(k + 1, s, d);
      if left.Ok? { LoopGood(k, left.node, left.rest, d); }
    }
  }

  lemma {:induction false} LoopGood(k: nat, left: Node, s: string, d: nat)
    requires 1 <= k <= 4 && left.Limited()
    ensures Good(BinaryLoop(k, left, s, d))
    decreases |s|, 0
  {
    hide ReadComparison, Either;
    var op := ReadOperator(k, s);
    if op.Found? {
      BinaryGood(k + 1, op.after, d);
      var right := ParseBinary(k + 1, op.after, d);
      if right.Ok? {
        var built := Checked(MakeBinary(op.op, left, right.node), right.rest);
        if built.Ok? { LoopGood(k, built.node, built.rest, d); }
      }
    }
  }

  lemma {:induction false} UnaryGood(s: string, d: nat)
    ensures Good(ParseUnary(s, d))
    decreases |s|, 3
  {
    if d + 1 <= MAX_DEPTH {
      var operand := Either(s, "!", "not");
      if operand.None? { PostfixGood(s, d + 1); } else { UnaryGood(operand.value, d + 1); }
    }
  }

  lemma {:induction false} PostfixGood(s: string, d: nat)
    ensures Good(ParsePostfix(s, d))
    decreases |s|, 2
  {
    PrimaryGood(s, d);
    var target := ParsePrimary(s, d);
    if target.Ok? { PostfixLoopGood(target.node, target.rest, d); }
  }

  lemma {:induction false} PostfixLoopGood(target: Node, s: string, d: nat)
    requires target.Limited()
    ensures Good(PostfixLoop(target, s, d))
    decreases |s|, 2
  {
    var t := SkipBlanks(s);
    if Starts(t, '.') {
      var u := t[1..];
      var n := NameLength(u);
      if n > 0 {
        var node := Checked(MakeMember(target, u[..n]), u[n..]);
        if node.Ok? {
          if Starts(node.rest, '(') { CallGood(node.node, node.rest, d); }
          else { PostfixLoopGood(node.node, node.rest, d); }
        }
      }
    } else if Starts(t, '<') && AngleLength(t[1..]) > 0 {
      var u := t[1..];
      var n := AngleLength(u);
      var node := Checked(MakeMember(target, u[..n]), u[n + 1..]);
      if node.Ok? { PostfixLoopGood(node.node, node.rest, d); }
    } else if Starts(t, '(') {
      CallGood(target, t, d);
    }
  }

  lemma {:induction false} CallGood(target: Node, t: string, d: nat)
    requires Starts(t, '(') && target.Limited()
    ensures Good(CallTail(target, t, d))
    decreases |t|, 1
  {
    ArgumentsGood(t[1..], d);
    var arguments := ParseArguments(t[1..], d);
    if arguments.OkList? {
      CheckedCall(target, arguments.nodes, arguments.tail);
      var call := Checked(MakeCall(target, arguments.nodes), arguments.tail);
      if call.Ok? { PostfixLoopGood(call.node, call.rest, d); }
    }
  }

  lemma {:induction false} ArgumentsGood(s: string, d: nat)
    ensures GoodList(ParseArguments(s, d))
    decreases |s|, 13
  {
    var u := SkipBlanks(s);
    if u != [] && u[0] != ')' { ArgumentLoopGood([], u, d); }
  }

  lemma {:induction false} ArgumentLoopGood(sofar: seq<Node>, s: string, d: nat)
    requires AllLimited(sofar)
    ensures GoodList(ArgumentLoop(sofar, s, d))
    decreases |s|, 12
  {
    ArgumentGood(s, d);
    var argument := ParseArgument(s, d);
    if argument.Ok? {
      var comma := Consume(argument.rest, ",");
      if comma.Some? { ArgumentLoopGood(sofar + [argument.node], comma.value, d); }
    }
  }

  lemma {:induction false} ArgumentGood(s: string, d: nat)
    ensures Good(ParseArgument(s, d))
    decreases |s|, 11
  {
    var t := SkipBlanks(s);
    if !Starts(t, ':') {
      OrGood(t, d);
    } else {
      var w := t[1..];
      var key, u := w[..NameLength(w)], w[NameLength(w)..];
      if Starts(u, '<') {
        NamedLiteral(key, u[1..Max(1, Find(u, '>'))]);
      } else if Starts(u, '(') {
        LabelledGood(key, u[1..], d);
      } else {
        NamedLiteral(key, key);
      }
    }
  }

  lemma NamedLiteral(key: string, text: string)
    ensures MakeNamed(key, LiteralString(text)).Limited()
  {
    var leaf := LiteralString(text);
    assert leaf.TrueHeight() == 1 && leaf.Measured();
  }

  lemma {:induction false} LabelledGood(key: string, s: string, d: nat)
    ensures Good(LabelledValue(key, s, d))
    decreases |s|, 11
  {
    OrGood(s, d);
  }

  lemma {:induction false} PrimaryGood(s: string, d: nat)
    ensures Good(ParsePrimary(s, d))
    decreases |s|, 1
  {
    var t := SkipBlanks(s);
    if t != [] {
      var u := t[1..];
      if t[0] == '(' {
        OrGood(u, d);
      } else if t[0] == '{' {
        if LooksLikeMap(u) { MapGood([], SkipBlanks(u), d); } else { OrGood(u, d); }
      } else if t[0] == '"' || t[0] == '\'' {
        StringGood(t[0], [], u);
      }
    }
  }

  lemma {:induction false} MapGood(sofar: seq<Node>, s: string, d: nat)
    requires AllLimited(sofar)
    ensures Good(MapLoop(sofar, s, d))
    decreases |s|, 11
  {
    hide Consume;
    forall entries: seq<Node>, rest: string | AllLimited(entries)
      ensures Good(Checked(MakeMap(entries), rest))
    {
      CheckedMap(entries, rest);
    }
    if s != [] && s[0] != '}' {
      var colon := Consume(s[NameLength(s)..], ":");
      if colon.Some? {
        OrGood(colon.value, d);
        var value := ParseOr(colon.value, d);
        if value.Ok? {
          var entry := Checked(MakeNamed(s[..NameLength(s)], value.node), value.rest);
          var comma := Consume(value.rest, ",");
          if entry.Ok? && comma.Some? { MapGood(sofar + [entry.node], SkipBlanks(comma.value), d); }
        }
      }
    }
  }

  lemma {:induction false} StringGood(quote: char, sofar: string, s: string)
    ensures Good(ParseString(quote, sofar, s))
    decreases |s|
  {
    if s != [] && s[0] != quote {
      if s[0] == '\\' && |s| > 1 { StringGood(quote, sofar + [s[1]], s[2..]); }
      else { StringGood(quote, sofar + [s[0]], s[1..]); }
    }
  }

  /** A tree the parser accepts stores its true height everywhere and is at most 64 high. */
  lemma ParsedTreesFit(source: string)
    ensures var r := Parse(source); r.Ok? ==> r.node.Measured() && 1 <= r.node.TrueHeight() <= MAX_DEPTH
  {
    OrGood(Trim(source), 0);
  }
}

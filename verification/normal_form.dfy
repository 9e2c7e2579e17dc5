/** The trees the parser returns are just the printable ones: whatever a source is written
    like, printing its tree and parsing that gives the tree again. One lemma for each
    function of the grammar. */
module NormalForm {
  import opened Strings
  import opened Expression
  import opened Phrase
  import opened PhraseReading
  import opened PhraseTheorem
  import opened RoundTrip
  import opened ExpressionLimits

  /** Printable, and its printed form, in parentheses where level `k` asks for them, needs
      no more of the recursion counter than is left. */
  ghost predicate Within(n: Node, k: nat, d: nat) {
    Printable(n) && d + Need(Tighten(Print(n), k)) <= MAX_DEPTH
  }

  /** The same, past the counter of the prefix operators. */
  ghost predicate WithinInner(n: Node, d: nat) {
    Printable(n) && d + Inner(Tighten(Print(n), 6)) <= MAX_DEPTH
  }

  ghost predicate WithinArguments(arguments: seq<Node>, d: nat) {
    && (forall i | 0 <= i < |arguments| :: PrintableArgument(arguments[i]))
    && d + ArgumentsNeed(PrintArguments(arguments)) <= MAX_DEPTH
  }

  ghost predicate WithinEntries(entries: seq<Node>, d: nat) {
    && (forall i | 0 <= i < |entries| :: entries[i].NamedArgument? && PrintableArgument(entries[i]))
    && d + EntriesNeed(PrintEntries(entries)) <= MAX_DEPTH
  }

  lemma TightenLooser(p: Phrase, j: nat, k: nat)
    requires j <= k
    ensures Need(Tighten(p, j)) <= Need(Tighten(p, k))
  {
  }

  /** A level asked for that the phrase has already. */
  lemma TightenNothing(p: Phrase, k: nat)
    requires Level(p) >= k
    ensures Tighten(p, k) == p
  {
  }

  lemma InnerNeed(p: Phrase)
    ensures Need(Tighten(p, 6)) == 1 + Inner(Tighten(p, 6))
  {
  }

  lemma ParensNeed(p: Phrase)
    ensures Inner(Tighten(p, 6)) <= 1 + Need(p)
  {
  }

  lemma {:induction false} OrForm(s: string, d: nat)
    ensures ParseOr(s, d).Ok? ==> Within(ParseOr(s, d).node, 1, d + 1)
    decreases |s|, 10
  {
    hide Within, ParseBinary;
    if d + 1 <= MAX_DEPTH { BinaryForm(1, s, d + 1); }
  }

  lemma {:induction false} BinaryForm(k: nat, s: string, d: nat)
    requires 1 <= k <= 5
    ensures ParseBinary(k, s, d).Ok? ==> Within(ParseBinary(k, s, d).node, k, d)
    decreases |s|, 9 - k
  {
    hide BinaryLoop, ParseUnary, Print, Need, Printable, Tighten;
    if k == 5 {
      UnaryForm(s, d);
    } else {
      BinaryForm(k + 1, s, d);
      var left := ParseBinary(k + 1, s, d);
      if left.Ok? {
        TightenLooser(Print(left.node), k, k + 1);
        LoopForm(k, left.node, left.rest, d);
      }
    }
  }

  lemma OperatorOfLevel(k: nat, s: string)
    requires 1 <= k <= 4
    ensures var op := ReadOperator(k, s); op.Found? ==> OperatorLevel(op.op) == k
  {
    hide Consume, Either;
  }

  lemma {:induction false} LoopForm(k: nat, left: Node, s: string, d: nat)
    requires 1 <= k <= 4 && Within(left, k, d)
    ensures BinaryLoop(k, left, s, d).Ok? ==> Within(BinaryLoop(k, left, s, d).node, k, d)
    decreases |s|, 0
  {
    hide ReadOperator, ParseBinary, Within;
    var op := ReadOperator(k, s);
    if op.Found? {
      OperatorOfLevel(k, s);
      BinaryForm(k + 1, op.after, d);
      var right := ParseBinary(k + 1, op.after, d);
      if right.Ok? {
        var built := Checked(MakeBinary(op.op, left, right.node), right.rest);
        if built.Ok? {
          OperateForm(op.op, left, right.node, d);
          LoopForm(k, built.node, built.rest, d);
        }
      }
    }
  }

  lemma OperateForm(op: BinaryOperator, left: Node, right: Node, d: nat)
    requires var k := OperatorLevel(op); Within(left, k, d) && Within(right, k + 1, d)
    ensures Within(MakeBinary(op, left, right), OperatorLevel(op), d)
  {
    hide Tighten, OperatorLevel, Print, Need, Printable, MakeBinary;
    var n := MakeBinary(op, left, right);
    OperatePrinted(op, left, right);
    TightenNothing(Print(n), OperatorLevel(op));
  }

  lemma OperatePrinted(op: BinaryOperator, left: Node, right: Node)
    ensures var n, k := MakeBinary(op, left, right), OperatorLevel(op);
            && Level(Print(n)) == k && (Printable(n) <==> Printable(left) && Printable(right))
            && Need(Print(n)) == Max(Need(Tighten(Print(left), k)), Need(Tighten(Print(right), k + 1)))
  {
    hide Tighten, OperatorLevel, Print, Need, Printable;
    OperatePrints(op, left, right);
    OperateNeed(op, Tighten(Print(left), OperatorLevel(op)), Tighten(Print(right), OperatorLevel(op) + 1));
    OperatePrintable(op, left, right);
  }

  lemma OperatePrints(op: BinaryOperator, left: Node, right: Node)
    ensures Print(MakeBinary(op, left, right))
         == Operate(op, false, Tighten(Print(left), OperatorLevel(op)), Tighten(Print(right), OperatorLevel(op) + 1))
  {
    hide Tighten, OperatorLevel;
  }

  lemma OperateNeed(op: BinaryOperator, left: Phrase, right: Phrase)
    ensures var p := Operate(op, false, left, right); Level(p) == OperatorLevel(op) && Need(p) == Max(Need(left), Need(right))
  {
  }

  lemma OperatePrintable(op: BinaryOperator, left: Node, right: Node)
    ensures Printable(MakeBinary(op, left, right)) <==> Printable(left) && Printable(right)
  {
  }

  lemma {:induction false} UnaryForm(s: string, d: nat)
    ensures ParseUnary(s, d).Ok? ==> Within(ParseUnary(s, d).node, 5, d)
    decreases |s|, 3
  {
    hide Either, ParsePostfix, Within, WithinInner;
    if d + 1 <= MAX_DEPTH {
      var operand := Either(s, "!", "not");
      if operand.None? {
        PostfixForm(s, d + 1);
        if ParsePostfix(s, d + 1).Ok? { UnchargedForm(ParsePostfix(s, d + 1).node, d); }
      } else {
        UnaryForm(operand.value, d + 1);
        if ParseUnary(operand.value, d + 1).Ok? { NegateForm(ParseUnary(operand.value, d + 1).node, d); }
      }
    }
  }

  lemma UnchargedForm(n: Node, d: nat)
    requires WithinInner(n, d + 1)
    ensures Within(n, 5, d)
  {
    hide Tighten, Need, Inner, Print, Printable;
    TightenLooser(Print(n), 5, 6);
    InnerNeed(Print(n));
  }

  lemma NegateForm(n: Node, d: nat)
    requires Within(n, 5, d + 1)
    ensures Within(MakeNot(n), 5, d)
  {
    hide Tighten;
    TightenNothing(Print(MakeNot(n)), 5);
  }

  /** Read where no prefix operator is, so that `not` is not a name. */
  lemma {:induction false} PostfixForm(s: string, d: nat)
    requires d <= MAX_DEPTH && Either(s, "!", "not").None?
    ensures ParsePostfix(s, d).Ok? ==> WithinInner(ParsePostfix(s, d).node, d)
    decreases |s|, 2
  {
    hide WithinInner, ParsePrimary, PostfixLoop;
    PrimaryForm(s, d);
    var target := ParsePrimary(s, d);
    if target.Ok? { PostfixLoopForm(target.node, target.rest, d); }
  }

  lemma {:induction false} PostfixLoopForm(target: Node, s: string, d: nat)
    requires WithinInner(target, d)
    ensures PostfixLoop(target, s, d).Ok? ==> WithinInner(PostfixLoop(target, s, d).node, d)
    decreases |s|, 2
  {
    hide WithinInner, DotTail, AngleTail, CallTail;
    var t := SkipBlanks(s);
    if Starts(t, '.') {
      DotForm(target, t[1..], d);
    } else if Starts(t, '<') && AngleLength(t[1..]) > 0 {
      AngleForm(target, t[1..], d);
    } else if Starts(t, '(') {
      CallForm(target, t, d);
    }
  }

  lemma {:induction false} DotForm(target: Node, u: string, d: nat)
    requires WithinInner(target, d)
    ensures DotTail(target, u, d).Ok? ==> WithinInner(DotTail(target, u, d).node, d)
    decreases |u|, 3
  {
    hide WithinInner, CallTail, IsNameText, NameLength, PostfixLoop;
    var n := NameLength(u);
    if n > 0 {
      var node := Checked(MakeMember(target, u[..n]), u[n..]);
      if node.Ok? {
        NameIsText(u);
        MemberForm(target, u[..n], d);
        if Starts(node.rest, '(') { CallForm(node.node, node.rest, d); }
        else { PostfixLoopForm(node.node, node.rest, d); }
      }
    }
  }

  lemma {:induction false} AngleForm(target: Node, u: string, d: nat)
    requires WithinInner(target, d) && AngleLength(u) > 0
    ensures AngleTail(target, u, d).Ok? ==> WithinInner(AngleTail(target, u, d).node, d)
    decreases |u|, 3
  {
    hide WithinInner, IsNameText, NameLength, PostfixLoop;
    var n := AngleLength(u);
    var node := Checked(MakeMember(target, u[..n]), u[n + 1..]);
    if node.Ok? {
      NameIsText(u);
      MemberForm(target, u[..n], d);
      PostfixLoopForm(node.node, node.rest, d);
    }
  }

  lemma {:induction false} NameIsText(s: string)
    ensures var n := NameLength(s); n > 0 ==> IsNameText(s[..n])
  {
    NamePrefix(s);
  }

  lemma {:induction false} NamePrefix(s: string)
    ensures forall i | 0 <= i < NameLength(s) :: IsNameChar(s[i])
  {
    if s != [] && IsNameChar(s[0]) { NamePrefix(s[1..]); }
  }

  lemma MemberForm(target: Node, member: string, d: nat)
    requires WithinInner(target, d) && IsNameText(member)
    ensures WithinInner(MakeMember(target, member), d)
  {
    hide Tighten;
    TightenNothing(Print(MakeMember(target, member)), 6);
  }

  lemma {:induction false} CallForm(target: Node, t: string, d: nat)
    requires Starts(t, '(') && WithinInner(target, d)
    ensures CallTail(target, t, d).Ok? ==> WithinInner(CallTail(target, t, d).node, d)
    decreases |t|, 1
  {
    hide WithinInner, ParseArguments, PostfixLoop, WithinArguments;
    InnerLimit(target, d);
    ArgumentsForm(t[1..], d);
    var arguments := ParseArguments(t[1..], d);
    if arguments.OkList? {
      ApplyForm(target, arguments.nodes, d);
      var call := Checked(MakeCall(target, arguments.nodes), arguments.tail);
      if call.Ok? { PostfixLoopForm(call.node, call.rest, d); }
    }
  }

  lemma InnerLimit(n: Node, d: nat)
    requires WithinInner(n, d)
    ensures d <= MAX_DEPTH
  {
  }

  lemma ApplyForm(target: Node, arguments: seq<Node>, d: nat)
    requires WithinInner(target, d) && WithinArguments(arguments, d)
    ensures WithinInner(MakeCall(target, arguments), d)
  {
    hide Tighten, PrintableArgument;
    TightenNothing(Print(MakeCall(target, arguments)), 6);
  }

  lemma {:induction false} ArgumentsForm(s: string, d: nat)
    requires d <= MAX_DEPTH
    ensures ParseArguments(s, d).OkList? ==> WithinArguments(ParseArguments(s, d).nodes, d)
    decreases |s|, 13
  {
    hide ArgumentLoop;
    assert WithinArguments([], d);
    if SkipBlanks(s) != [] && SkipBlanks(s)[0] != ')' { ArgumentLoopForm([], SkipBlanks(s), d); }
  }

  lemma {:induction false} ArgumentLoopForm(sofar: seq<Node>, s: string, d: nat)
    requires WithinArguments(sofar, d)
    ensures ArgumentLoop(sofar, s, d).OkList? ==> WithinArguments(ArgumentLoop(sofar, s, d).nodes, d)
    decreases |s|, 12
  {
    hide WithinArguments, ParseArgument, Consume, PrintableArgument, ArgumentNeed;
    ArgumentsLimit(sofar, d);
    ArgumentForm(s, d);
    var argument := ParseArgument(s, d);
    if argument.Ok? {
      OneMoreArgument(sofar, argument.node, d);
      var comma := Consume(argument.rest, ",");
      if comma.Some? { ArgumentLoopForm(sofar + [argument.node], comma.value, d); }
    }
  }

  lemma ArgumentsLimit(arguments: seq<Node>, d: nat)
    requires WithinArguments(arguments, d)
    ensures d <= MAX_DEPTH
  {
  }

  lemma OneMoreArgument(sofar: seq<Node>, a: Node, d: nat)
    requires WithinArguments(sofar, d) && PrintableArgument(a) && d + ArgumentNeed(PrintArgument(a)) <= MAX_DEPTH
    ensures WithinArguments(sofar + [a], d)
  {
    hide PrintableArgument, ArgumentNeed;
    NeedOfMore(sofar, a);
  }

  lemma {:induction false} NeedOfMore(sofar: seq<Node>, a: Node)
    ensures ArgumentsNeed(PrintArguments(sofar + [a])) == Max(ArgumentsNeed(PrintArguments(sofar)), ArgumentNeed(PrintArgument(a)))
    decreases sofar
  {
    hide ArgumentNeed;
    if sofar == [] {
      assert sofar + [a] == [a] && [a][1..] == [];
      assert PrintArguments([a]) == [PrintArgument(a)] && [PrintArgument(a)][1..] == [];
    } else {
      assert (sofar + [a])[1..] == sofar[1..] + [a];
      NeedOfMore(sofar[1..], a);
      assert PrintArguments(sofar + [a])[1..] == PrintArguments(sofar[1..] + [a]);
      assert PrintArguments(sofar)[1..] == PrintArguments(sofar[1..]);
    }
  }

  lemma {:induction false} ArgumentForm(s: string, d: nat)
    requires d <= MAX_DEPTH
    ensures var r := ParseArgument(s, d);
            r.Ok? ==> PrintableArgument(r.node) && d + ArgumentNeed(PrintArgument(r.node)) <= MAX_DEPTH
    decreases |s|, 11
  {
    hide Consume, ParseOr, NameLength, IsNameText, LabelledLiteral, LabelledValue, Print, Need, Printable;
    var t := SkipBlanks(s);
    if !Starts(t, ':') {
      OrForm(t, d);
      if ParseOr(t, d).Ok? { PositionalForm(ParseOr(t, d).node, d); }
    } else {
      var w := t[1..];
      var n := NameLength(w);
      if n > 0 {
        NameIsText(w);
        var key, u := w[..n], w[n..];
        if Starts(u, '<') {
          TextForm(key, u, d);
        } else if Starts(u, '(') {
          LabelledForm(key, u[1..], d);
        } else {
          KeyForm(key, d);
        }
      }
    }
  }

  lemma PositionalForm(n: Node, d: nat)
    requires Within(n, 1, d + 1)
    ensures PrintableArgument(n) && d + ArgumentNeed(PrintArgument(n)) <= MAX_DEPTH
  {
    hide Need;
    TightenNothing(Print(n), 1);
  }

  lemma NamedForm(key: string, n: Node, d: nat)
    requires IsNameText(key) && Within(n, 1, d + 1)
    ensures PrintableArgument(MakeNamed(key, n)) && d + ArgumentNeed(PrintArgument(MakeNamed(key, n))) <= MAX_DEPTH
  {
    hide Need;
    TightenNothing(Print(n), 1);
  }

  lemma LiteralForm(key: string, text: string, d: nat)
    requires d <= MAX_DEPTH && IsNameText(key) && '>' !in text
    ensures var n := MakeNamed(key, LiteralString(text));
            PrintableArgument(n) && d + ArgumentNeed(PrintArgument(n)) <= MAX_DEPTH
  {
  }

  lemma KeyForm(key: string, d: nat)
    requires d <= MAX_DEPTH && IsNameText(key)
    ensures var n := MakeNamed(key, LiteralString(key));
            PrintableArgument(n) && d + ArgumentNeed(PrintArgument(n)) <= MAX_DEPTH
  {
    forall i | 0 <= i < |key| ensures key[i] != '>' { assert IsNameChar(key[i]); }
    LiteralForm(key, key, d);
  }

  lemma TextForm(key: string, u: string, d: nat)
    requires d <= MAX_DEPTH && IsNameText(key) && Starts(u, '<')
    ensures var r := LabelledLiteral(key, u);
            r.Ok? ==> PrintableArgument(r.node) && d + ArgumentNeed(PrintArgument(r.node)) <= MAX_DEPTH
  {
    hide IsNameText, PrintableArgument, PrintArgument, ArgumentNeed;
    var closing := Find(u, '>');
    if closing < |u| {
      BeforeFound(u, '>');
      LiteralForm(key, u[1..closing], d);
    }
  }

  lemma {:induction false} BeforeFound(s: string, c: char)
    ensures var i := Find(s, c); 1 <= i ==> c !in s[1..i]
    decreases s
  {
    if s != [] && s[0] != c {
      NotBefore(s, c);
    }
  }

  lemma {:induction false} NotBefore(s: string, c: char)
    ensures forall k | 0 <= k < Find(s, c) :: s[k] != c
    decreases s
  {
    if s != [] && s[0] != c { NotBefore(s[1..], c); }
  }

  lemma {:induction false} LabelledForm(key: string, s: string, d: nat)
    requires IsNameText(key)
    ensures var r := LabelledValue(key, s, d);
            r.Ok? ==> PrintableArgument(r.node) && d + ArgumentNeed(PrintArgument(r.node)) <= MAX_DEPTH
    decreases |s|, 11
  {
    hide Within, ParseOr, Consume, IsNameText, PrintableArgument, PrintArgument, ArgumentNeed;
    OrForm(s, d);
    if ParseOr(s, d).Ok? { NamedForm(key, ParseOr(s, d).node, d); }
  }

  lemma LeafForm(n: Node, d: nat)
    requires d <= MAX_DEPTH && Printable(n) && n.IsLeaf()
    ensures WithinInner(n, d)
  {
  }

  /** What parentheses hold, or a block, stands where any value does. */
  lemma GroupForm(n: Node, d: nat)
    requires Within(n, 1, d + 1)
    ensures WithinInner(n, d) && WithinInner(MakeBlock(n), d)
  {
    hide Need, Tighten, Print;
    TightenNothing(Print(n), 1);
    ParensNeed(Print(n));
    BlockPrinted(n);
    TightenNothing(Braces(Print(n)), 6);
  }

  lemma BlockPrinted(n: Node)
    ensures Print(MakeBlock(n)) == Braces(Print(n)) && Inner(Braces(Print(n))) == 1 + Need(Print(n))
    ensures Printable(n) ==> Printable(MakeBlock(n))
  {
  }

  lemma {:induction false} PrimaryForm(s: string, d: nat)
    requires d <= MAX_DEPTH && Either(s, "!", "not").None?
    ensures ParsePrimary(s, d).Ok? ==> WithinInner(ParsePrimary(s, d).node, d)
    decreases |s|, 1
  {
    hide WithinInner, Within, ParseOr, Consume, MapLoop, ParseBlock, ParseString, ParseNumber, LooksLikeMap, Printable, Either,
      NameLength;
    var t := SkipBlanks(s);
    if t != [] {
      if t[0] == '(' {
        OrForm(t[1..], d);
        if ParseOr(t[1..], d).Ok? { GroupForm(ParseOr(t[1..], d).node, d); }
      } else if t[0] == '{' {
        if LooksLikeMap(t[1..]) {
          NoEntries(d);
          FirstKey(t[1..]);
          MapForm([], SkipBlanks(t[1..]), d);
        } else {
          BlockForm(t[1..], d);
        }
      } else if t[0] == '"' || t[0] == '\'' {
        StringForm(t[0], [], t[1..], d);
      } else if IsDigit(t[0]) {
        NumberForm(t, d);
      } else if t[0] == '$' {
        var w := t[1..];
        NameIsText(w);
        if NameLength(w) > 0 { VariableForm(w[..NameLength(w)], d); }
      } else if IsNameStart(t[0]) {
        WordForm(s, d);
      }
    }
  }

  lemma {:induction false} BlockForm(s: string, d: nat)
    ensures ParseBlock(s, d).Ok? ==> WithinInner(ParseBlock(s, d).node, d)
    decreases |s|, 11
  {
    hide WithinInner, Within, ParseOr, Consume;
    OrForm(s, d);
    if ParseOr(s, d).Ok? { GroupForm(ParseOr(s, d).node, d); }
  }

  lemma VariableForm(name: string, d: nat)
    requires d <= MAX_DEPTH && IsNameText(name)
    ensures WithinInner(Variable(name), d)
  {
    LeafForm(Variable(name), d);
  }

  lemma {:induction false} StringForm(quote: char, sofar: string, s: string, d: nat)
    requires d <= MAX_DEPTH
    ensures var r := ParseString(quote, sofar, s); r.Ok? ==> WithinInner(r.node, d)
    decreases |s|
  {
    hide WithinInner;
    if s != [] {
      if s[0] == quote { LiteralLeaf(sofar, d); }
      else if s[0] == '\\' && |s| > 1 { StringForm(quote, sofar + [s[1]], s[2..], d); }
      else { StringForm(quote, sofar + [s[0]], s[1..], d); }
    }
  }

  lemma LiteralLeaf(text: string, d: nat)
    requires d <= MAX_DEPTH
    ensures WithinInner(LiteralString(text), d)
  {
    LeafForm(LiteralString(text), d);
  }

  lemma {:induction false} DigitsAre(s: string)
    ensures forall i | 0 <= i < DigitLength(s) :: IsDigit(s[i])
  {
    if s != [] && IsDigit(s[0]) { DigitsAre(s[1..]); }
  }

  /** The digits at the front of a text are all its digits, alone or before a point. */
  lemma {:induction false} DigitsAlone(s: string, n: nat)
    requires n <= |s| && (forall i | 0 <= i < n :: IsDigit(s[i])) && (n < |s| ==> !IsDigit(s[n]))
    ensures DigitLength(s) == n
    decreases n
  {
    if n > 0 { DigitsAlone(s[1..], n - 1); }
  }

  lemma NumberForm(t: string, d: nat)
    requires d <= MAX_DEPTH && t != [] && IsDigit(t[0])
    ensures var r := ParseNumber(t); r.Ok? ==> WithinInner(r.node, d)
  {
    var r := ParseNumber(t);
    var n := DigitLength(t);
    DigitsAre(t);
    if r.Ok? {
      if r.node.LiteralNumber? {
        var token := r.node.token;
        var m := DigitLength(t[n + 1..]);
        assert token == t[..n + 1 + m] && t[n] == '.';
        DigitsAre(t[n + 1..]);
        DigitsAlone(token, n);
        assert token[n] == '.' && token[..n] == t[..n];
        assert token[n + 1..] == t[n + 1..][..m];
      }
      LeafForm(r.node, d);
    }
  }

  /** A word read where `not` is no operator is not `not`. */
  lemma WordForm(s: string, d: nat)
    requires d <= MAX_DEPTH && Either(s, "!", "not").None?
    requires var t := SkipBlanks(s); t != [] && IsNameStart(t[0])
    ensures var t := SkipBlanks(s); WithinInner(WordNode(t[..NameLength(t)]), d)
  {
    var t := SkipBlanks(s);
    var word := t[..NameLength(t)];
    NameIsText(t);
    NotConsumed(s);
    LeafForm(WordNode(word), d);
  }

  lemma NotConsumed(s: string)
    ensures var t := SkipBlanks(s); t[..NameLength(t)] == "not" ==> Either(s, "!", "not").Some?
  {
    var t := SkipBlanks(s);
    NameStops(t);
    if t[..NameLength(t)] == "not" { assert t[..|"not"|] == "not" && Consume(s, "not").Some?; }
  }

  lemma {:induction false} NameStops(s: string)
    ensures var n := NameLength(s); n < |s| ==> !IsNameChar(s[n])
  {
    if s != [] && IsNameChar(s[0]) { NameStops(s[1..]); }
  }

  // ------------------------------------------------------------------- maps

  lemma NoEntries(d: nat)
    requires d <= MAX_DEPTH
    ensures WithinEntries([], d)
  {
  }

  lemma FirstKey(s: string)
    requires LooksLikeMap(s)
    ensures var t := SkipBlanks(s); t != [] && (t[0] == '}' || IsNameStart(t[0]))
  {
  }

  /** Entries whose first key could tell a map from a block. */
  predicate Opened(entries: seq<Node>) {
    entries != [] ==> entries[0].NamedArgument? && entries[0].key != [] && IsNameStart(entries[0].key[0])
  }

  lemma {:induction false} MapForm(sofar: seq<Node>, s: string, d: nat)
    requires WithinEntries(sofar, d) && Opened(sofar)
    requires sofar == [] ==> s == [] || s[0] == '}' || IsNameStart(s[0])
    ensures MapLoop(sofar, s, d).Ok? ==> WithinInner(MapLoop(sofar, s, d).node, d)
    decreases |s|, 11
  {
    hide WithinInner, WithinEntries, Within, Consume, ParseOr, IsNameText, NameLength;
    MapCloses(sofar, s, d);
    if s != [] && s[0] != '}' {
      var n := NameLength(s);
      var colon := Consume(s[n..], ":");
      if n > 0 && colon.Some? {
        OrForm(colon.value, d);
        var value := ParseOr(colon.value, d);
        if value.Ok? {
          NameIsText(s);
          var entry := MakeNamed(s[..n], value.node);
          OneMoreEntry(sofar, s[..n], value.node, d);
          assert (sofar + [entry])[0] == if sofar == [] then entry else sofar[0];
          MapCloses(sofar + [entry], value.rest, d);
          var comma := Consume(value.rest, ",");
          if comma.Some? { MapForm(sofar + [entry], SkipBlanks(comma.value), d); }
        }
      }
    }
  }

  lemma MapCloses(entries: seq<Node>, s: string, d: nat)
    requires WithinEntries(entries, d) && Opened(entries)
    ensures CloseMap(entries, s).Ok? ==> WithinInner(CloseMap(entries, s).node, d)
  {
    hide Consume, Tighten, PrintableArgument;
    TightenNothing(Print(MakeMap(entries)), 6);
  }

  lemma OneMoreEntry(sofar: seq<Node>, key: string, value: Node, d: nat)
    requires WithinEntries(sofar, d) && IsNameText(key) && Within(value, 1, d + 1)
    ensures WithinEntries(sofar + [MakeNamed(key, value)], d)
  {
    hide Need;
    var entry := MakeNamed(key, value);
    TightenNothing(Print(value), 1);
    EntriesOfMore(sofar, entry);
    assert PrintableArgument(entry);
  }

  lemma {:induction false} EntriesOfMore(sofar: seq<Node>, entry: Node)
    ensures EntriesNeed(PrintEntries(sofar + [entry]))
         == Max(EntriesNeed(PrintEntries(sofar)), 1 + Need(PrintEntry(entry).value))
    decreases sofar
  {
    hide Need;
    if sofar == [] {
      assert sofar + [entry] == [entry] && [entry][1..] == [];
      assert PrintEntries([entry]) == [PrintEntry(entry)] && [PrintEntry(entry)][1..] == [];
    } else {
      assert (sofar + [entry])[1..] == sofar[1..] + [entry];
      EntriesOfMore(sofar[1..], entry);
      assert PrintEntries(sofar + [entry])[1..] == PrintEntries(sofar[1..] + [entry]);
      assert PrintEntries(sofar)[1..] == PrintEntries(sofar[1..]);
    }
  }

  // ------------------------------------------------------------------- the image

  lemma ParsedPrints(source: string)
    requires Parse(source).Ok?
    ensures var n := Parse(source).node; Printable(n) && Fits(Print(n), 1)
  {
    hide ParseOr, Print, Need, Printable, Tighten;
    var n := Parse(source).node;
    OrForm(Trim(source), 0);
    TightenNothing(Print(n), 1);
    PrintsBack(n);
    ParsedTreesFit(source);
  }

  /** Whatever a source is written like, the printed form of its tree is read as that tree. */
  lemma PrintedFormReadsBack(source: string)
    requires Parse(source).Ok?
    ensures Parse(Text(Print(Parse(source).node))) == Parse(source)
  {
    hide ParseOr, Print, Need, Printable, Fits;
    ParsedPrints(source);
    ParsePrinted(Parse(source).node);
  }

  /** A tree is read from some source exactly when it is printable and its printed form
      fits the two limits. */
  lemma TreesThatAreRead(n: Node)
    ensures (exists source :: Parse(source) == Ok(n, [])) <==> Printable(n) && Fits(Print(n), 1)
  {
    hide Parse, Print, Printable, Fits;
    forall source | Parse(source) == Ok(n, []) ensures Printable(n) && Fits(Print(n), 1) {
      ParsedPrints(source);
    }
    if Printable(n) && Fits(Print(n), 1) {
      ParsePrinted(n);
      assert Parse(Text(Print(n))) == Ok(n, []);
    }
  }
}

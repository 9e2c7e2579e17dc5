/** Reading a phrase in context, one lemma for each function of the parser. */
module PhraseTheorem {
  import opened Strings
  import opened Expression
  import opened Phrase
  import opened PhraseReading

  /** Reading `p` as an operand of level `k` or tighter, up to where it stops. */
  lemma {:induction false} OperandReads(k: nat, p: Phrase, s: string, rest: string, d: nat)
    requires 1 <= k <= 5 && WellFormed(p) && Level(p) >= k
    requires SkipBlanks(s) == Written(p, rest) && Stops(k, rest) && Joins(p, rest)
    ensures ParseBinary(k, s, d) == if Fits(p, d) then Ok(Tree(p), SkipBlanks(rest)) else Err(TooDeep)
    decreases p, 20 - 2 * k
  {
    if k == 5 {
      UnaryReads(p, s, rest, d);
    } else {
      ChainReads(k, p, s, rest, d);
      assert ReadOperator(k, rest).NotFound?;
    }
  }

  /** Reading `p` at level `k` leaves the loop of that level holding its tree. */
  lemma {:induction false} ChainReads(k: nat, p: Phrase, s: string, rest: string, d: nat)
    requires 1 <= k <= 4 && WellFormed(p) && Level(p) >= k
    requires SkipBlanks(s) == Written(p, rest) && Stops(k + 1, rest) && Joins(p, rest)
    ensures ParseBinary(k, s, d) == if Fits(p, d) then BinaryLoop(k, Tree(p), rest, d) else Err(TooDeep)
    decreases p, 19 - 2 * k
  {
    if Level(p) > k {
      OperandReads(k + 1, p, s, rest, d);
      LoopSkips(k, Tree(p), rest, d);
    } else {
      RightOpens(p, rest);
      LeftStops(p, rest);
      ChainReads(k, p.left, s, Spaced(p.op, p.word, p.before, p.after, Written(p.right, rest)), d);
      if Fits(p.left, d) { OperatorStep(p, rest, d); }
    }
  }

  /** One turn of the loop of a level: an operator and its right operand. */
  lemma {:induction false} OperatorStep(p: Phrase, rest: string, d: nat)
    requires WellFormed(p) && p.Operate? && Fits(p.left, d)
    requires Stops(OperatorLevel(p.op) + 1, rest) && Joins(p, rest)
    ensures var k := OperatorLevel(p.op);
            BinaryLoop(k, Tree(p.left), Spaced(p.op, p.word, p.before, p.after, Written(p.right, rest)), d)
              == if Fits(p, d) then BinaryLoop(k, Tree(p), rest, d) else Err(TooDeep)
    decreases p, 0
  {
    hide Written, ParseBinary, ReadOperator;
    var k, more := OperatorLevel(p.op), Written(p.right, rest);
    RightOpens(p, rest);
    OperatorReads(p.op, p.word, p.before, p.after + more);
    SkipGap(p.after, more);
    OperandReads(k + 1, p.right, p.after + more, rest, d);
    LoopSkips(k, Tree(p), rest, d);
  }

  lemma {:induction false} UnaryReads(p: Phrase, s: string, rest: string, d: nat)
    requires WellFormed(p) && Level(p) >= 5
    requires SkipBlanks(s) == Written(p, rest) && Stops(5, rest) && Joins(p, rest)
    ensures ParseUnary(s, d) == if Fits(p, d) then Ok(Tree(p), SkipBlanks(rest)) else Err(TooDeep)
    decreases p, 8
  {
    if p.Negate? {
      NegateReads(p, s, rest, d);
    } else if d + 1 <= MAX_DEPTH {
      hide ParseUnary, Written, Tree;
      PositiveReads(p, s, rest, d);
    }
  }

  lemma {:induction false} NegateReads(p: Phrase, s: string, rest: string, d: nat)
    requires WellFormed(p) && p.Negate?
    requires SkipBlanks(s) == Written(p, rest) && Stops(5, rest) && Joins(p, rest)
    ensures ParseUnary(s, d) == if Fits(p, d) then Ok(Tree(p), SkipBlanks(rest)) else Err(TooDeep)
    decreases p, 7
  {
    hide Written, Tree, Need, ParseUnary, Either, SkipBlanks, WellFormed, Level, OpensValue;
    var operand := Written(p.operand, rest);
    var after := p.gap + operand;
    NegateUnfolds(p, rest);
    NegateJoins(p, rest);
    Opening(p.operand, rest);
    NegationReads(s, p.word, p.gap, operand);
    NegationParts(s, after, d);
    UnaryReads(p.operand, after, rest, d + 1);
  }

  lemma NegationParts(s: string, after: string, d: nat)
    requires Either(s, "!", "not") == Some(after)
    ensures ParseUnary(s, d) ==
              if d + 1 > MAX_DEPTH then Err(TooDeep)
              else
                var operand := ParseUnary(after, d + 1);
                if operand.Err? then operand else Checked(MakeNot(operand.node), operand.rest)
  {
    hide Either, ParsePostfix;
  }

  lemma NegateUnfolds(p: Phrase, rest: string)
    requires p.Negate? && WellFormed(p)
    ensures WellFormed(p.operand) && Level(p.operand) >= 5 && Blanks(p.gap)
    ensures p.word && p.gap == "" ==> !OpensWithName(p.operand)
    ensures Written(p, rest) == (if p.word then "not" else "!") + (p.gap + Written(p.operand, rest))
    ensures Tree(p) == MakeNot(Tree(p.operand)) && Need(p) == 1 + Need(p.operand)
  {
  }

  /** An operand without a negation sign. */
  lemma {:induction false} PositiveReads(p: Phrase, s: string, rest: string, d: nat)
    requires WellFormed(p) && Level(p) >= 6 && d + 1 <= MAX_DEPTH
    requires SkipBlanks(s) == Written(p, rest) && Stops(5, rest) && Joins(p, rest)
    ensures ParseUnary(s, d) == if FitsInner(p, d + 1) then Ok(Tree(p), SkipBlanks(rest)) else Err(TooDeep)
    decreases p, 7, 1
  {
    hide Written, Tree, Inner;
    OpensPlain(p, rest);
    PlainReads(s);
    PostfixReads(p, s, rest, d + 1);
    LoopEnds(Tree(p), rest, d + 1);
    assert ParseUnary(s, d) == ParsePostfix(s, d + 1);
  }

  lemma LoopEnds(target: Node, rest: string, d: nat)
    requires PostfixEnds(rest)
    ensures PostfixLoop(target, rest, d) == Ok(target, SkipBlanks(rest))
  {
  }

  lemma NegationReads(s: string, word: bool, gap: string, operand: string)
    requires SkipBlanks(s) == (if word then "not" else "!") + (gap + operand)
    requires Blanks(gap) && OpensValue(operand) && (word && gap == "" ==> !IsNameChar(operand[0]))
    ensures Either(s, "!", "not") == Some(gap + operand) && SkipBlanks(gap + operand) == operand
  {
    GapFirst(gap, operand);
    SkipGap(gap, operand);
    ConsumeHere(s, if word then "not" else "!", gap + operand);
  }

  lemma PlainReads(s: string)
    requires Plain(SkipBlanks(s))
    ensures Either(s, "!", "not").None?
  {
    var t := SkipBlanks(s);
    if "not" <= t && |t| > 3 { assert t[3..][0] == t[3]; }
  }

  /** Reading a postfix phrase leaves the postfix loop holding its tree. */
  lemma {:induction false} PostfixReads(p: Phrase, s: string, rest: string, d: nat)
    requires WellFormed(p) && Level(p) >= 6 && d <= MAX_DEPTH
    requires SkipBlanks(s) == Written(p, rest) && AfterValue(p, rest)
    ensures ParsePostfix(s, d) == if FitsInner(p, d) then PostfixLoop(Tree(p), rest, d) else Err(TooDeep)
    decreases p, 7, 0
  {
    hide PostfixLoop, ParsePrimary;
    if Level(p) == 6 {
      var mark := MarkOf(p, rest);
      MarkJoins(p, mark, rest);
      AfterGap(p.target, p.gap, mark);
      PostfixReads(p.target, s, p.gap + mark, d);
      PostfixGap(Tree(p.target), p.gap, mark, d);
      if p.Dot? {
        WordJoins(p, rest);
        DotReads(Tree(p.target), p.member, rest, d);
      } else if p.Angle? {
        AngleReads(Tree(p.target), p.member, rest, d);
      } else {
        ApplyReads(Tree(p.target), p.arguments, p.open, rest, d);
      }
    } else {
      PrimaryReads(p, s, rest, d);
    }
  }

  /** A mark after a value, and blanks before it. */
  lemma AfterGap(p: Phrase, gap: string, more: string)
    requires Blanks(gap) && Calm(gap + more) && Joins(p, gap + more)
    requires p.Integer? && gap == "" && |more| > 1 && more[0] == '.' ==> !IsDigit(more[1])
    ensures AfterValue(p, gap + more)
  {
    GapFirst(gap, more);
  }

  lemma PostfixGap(target: Node, gap: string, more: string, d: nat)
    requires Blanks(gap)
    ensures PostfixLoop(target, gap + more, d) == PostfixLoop(target, more, d)
  {
    SkipGap(gap, more);
    hide DotTail, AngleTail, CallTail;
  }

  lemma {:induction false} ApplyReads(target: Node, arguments: seq<Argument>, open: string, rest: string, d: nat)
    requires d <= MAX_DEPTH && Blanks(open) && forall i | 0 <= i < |arguments| :: WellFormedArgument(arguments[i])
    ensures var node := MakeCall(target, ArgumentTrees(arguments));
            PostfixLoop(target, "(" + (open + ArgumentsWritten(arguments, ")" + rest)), d)
              == if node.Stored() <= MAX_DEPTH && d + ArgumentsNeed(arguments) <= MAX_DEPTH
                 then PostfixLoop(node, rest, d) else Err(TooDeep)
    decreases arguments, 4
  {
    var inside := open + ArgumentsWritten(arguments, ")" + rest);
    var t := "(" + inside;
    assert t[1..] == inside;
    ArgumentListReads(arguments, open, rest, d);
    assert PostfixLoop(target, t, d) == CallTail(target, t, d);
  }

  lemma DotReads(target: Node, member: string, rest: string, d: nat)
    requires IsNameText(member) && (rest == [] || !IsNameChar(rest[0]))
    ensures var node := MakeMember(target, member);
            PostfixLoop(target, "." + (member + rest), d)
              == if node.Stored() > MAX_DEPTH then Err(TooDeep) else PostfixLoop(node, rest, d)
  {
    var t := "." + (member + rest);
    NameRun(member, rest);
    assert t[1..] == member + rest;
    assert PostfixLoop(target, t, d) == DotTail(target, member + rest, d);
  }

  lemma AngleReads(target: Node, member: string, rest: string, d: nat)
    requires IsNameText(member)
    ensures var node := MakeMember(target, member);
            PostfixLoop(target, "<" + (member + (">" + rest)), d)
              == if node.Stored() > MAX_DEPTH then Err(TooDeep) else PostfixLoop(node, rest, d)
  {
    var t := "<" + (member + (">" + rest));
    NameRun(member, ">" + rest);
    var u := member + (">" + rest);
    assert t[1..] == u;
    assert u[|member|..] == ">" + rest && u[|member| + 1..] == rest;
    assert PostfixLoop(target, t, d) == AngleTail(target, u, d);
  }

  lemma {:induction false} ArgumentListReads(arguments: seq<Argument>, open: string, rest: string, d: nat)
    requires d <= MAX_DEPTH && Blanks(open) && forall i | 0 <= i < |arguments| :: WellFormedArgument(arguments[i])
    ensures ParseArguments(open + ArgumentsWritten(arguments, ")" + rest), d)
         == if ArgumentsFit(arguments, d) then OkList(ArgumentTrees(arguments), rest) else ErrList(TooDeep)
    decreases arguments, 3
  {
    var inside := ArgumentsWritten(arguments, ")" + rest);
    SkipGap(open, inside);
    if arguments == [] {
      assert (")" + rest)[1..] == rest;
    } else {
      ArgumentOpening(arguments, ")" + rest);
      SkipTwice(inside);
      ArgumentsRead(arguments, [], inside, rest, d);
      assert [] + ArgumentTrees(arguments) == ArgumentTrees(arguments);
    }
  }

  lemma ArgumentOpening(arguments: seq<Argument>, rest: string)
    requires arguments != [] && WellFormedArgument(arguments[0]) && rest != [] && rest[0] == ')'
    ensures var s := ArgumentsWritten(arguments, rest); s != [] && !IsBlank(s[0]) && s[0] != ')'
  {
    var a := arguments[0];
    if a.Positional? {
      ArgumentCloses(a.next, arguments[1..], rest);
      var more := ArgumentsAfter(a.next, arguments[1..], rest);
      ClosingStops(a.end, more[0], more[1..]);
      Opening(a.value, a.end + ArgumentsAfter(a.next, arguments[1..], rest));
    }
  }

  /** What comes after an argument and its blanks closes it. */
  lemma ArgumentCloses(next: string, others: seq<Argument>, rest: string)
    requires rest != [] && rest[0] == ')'
    ensures var more := ArgumentsAfter(next, others, rest);
            && more != [] && more[0] == (if others == [] then ')' else ',') && more == [more[0]] + more[1..]
            && Calm(more)
  {
    var more := ArgumentsAfter(next, others, rest);
    assert more == [more[0]] + more[1..];
    CloserStops(more[0], more[1..]);
  }

  lemma {:induction false} ArgumentsRead(arguments: seq<Argument>, sofar: seq<Node>, s: string, rest: string, d: nat)
    requires arguments != [] && forall i | 0 <= i < |arguments| :: WellFormedArgument(arguments[i])
    requires d <= MAX_DEPTH && SkipBlanks(s) == ArgumentsWritten(arguments, ")" + rest)
    ensures ArgumentLoop(sofar, s, d)
         == if ArgumentsFit(arguments, d) then OkList(sofar + ArgumentTrees(arguments), rest) else ErrList(TooDeep)
    decreases arguments, 2
  {
    hide ArgumentLoop, ArgumentFits, ArgumentTree, ArgumentsWritten, SkipBlanks, WellFormedArgument;
    var a, others := arguments[0], arguments[1..];
    ArgumentStep(arguments, sofar, s, rest, d);
    ArgumentsFitSplits(arguments, d);
    if ArgumentFits(a, d) {
      assert sofar + [ArgumentTree(a)] + ArgumentTrees(others) == sofar + ArgumentTrees(arguments);
      if others == [] {
        assert sofar + [ArgumentTree(a)] == sofar + ArgumentTrees(arguments);
      } else {
        ArgumentsRead(others, sofar + [ArgumentTree(a)], a.next + ArgumentsWritten(others, ")" + rest), rest, d);
      }
    }
  }

  lemma ArgumentsFitSplits(arguments: seq<Argument>, d: nat)
    requires arguments != [] && d <= MAX_DEPTH
    ensures ArgumentsFit(arguments, d) == (ArgumentFits(arguments[0], d) && ArgumentsFit(arguments[1..], d))
  {
  }

  /** One turn of the loop over a list of arguments. */
  lemma {:induction false} ArgumentStep(arguments: seq<Argument>, sofar: seq<Node>, s: string, rest: string, d: nat)
    requires arguments != [] && forall i | 0 <= i < |arguments| :: WellFormedArgument(arguments[i])
    requires d <= MAX_DEPTH && SkipBlanks(s) == ArgumentsWritten(arguments, ")" + rest)
    ensures var others := arguments[0].next + ArgumentsWritten(arguments[1..], ")" + rest);
            var nodes := sofar + [ArgumentTree(arguments[0])];
            && (|arguments| > 1 ==> SkipBlanks(others) == ArgumentsWritten(arguments[1..], ")" + rest))
            && ArgumentLoop(sofar, s, d)
              == if !ArgumentFits(arguments[0], d) then ErrList(TooDeep)
                 else if |arguments| == 1 then OkList(nodes, rest)
                 else ArgumentLoop(nodes, others, d)
    decreases arguments, 1
  {
    hide ParseArgument, ArgumentTree, ArgumentFits, ArgumentWritten;
    var a, others := arguments[0], arguments[1..];
    var next := ArgumentsAfter(a.next, others, ")" + rest);
    ArgumentCloses(a.next, others, ")" + rest);
    ArgumentReads(a, s, next, d);
    var r := ParseArgument(s, d);
    if r.Ok? {
      if others == [] {
        ConsumeHere(r.rest, ")", rest);
        ConsumeNot(r.rest, ",");
      } else {
        var after := a.next + ArgumentsWritten(others, ")" + rest);
        ConsumeHere(r.rest, ",", after);
      }
    }
    if others != [] {
      ArgumentOpening(others, ")" + rest);
      SkipGap(a.next, ArgumentsWritten(others, ")" + rest));
    }
  }

  predicate ArgumentFits(a: Argument, d: nat) {
    ArgumentTree(a).Stored() <= MAX_DEPTH && d + ArgumentNeed(a) <= MAX_DEPTH
  }

  /** An argument is read up to its blanks, or past them. */
  lemma {:induction false} ArgumentReads(a: Argument, s: string, next: string, d: nat)
    requires WellFormedArgument(a) && d <= MAX_DEPTH
    requires SkipBlanks(s) == ArgumentWritten(a, a.end + next)
    requires next != [] && next == [next[0]] + next[1..] && next[0] in {')', ','}
    ensures var r := ParseArgument(s, d);
            if ArgumentFits(a, d) then r.Ok? && r.node == ArgumentTree(a) && SkipBlanks(r.rest) == next else r == Err(TooDeep)
    decreases a, 1
  {
    hide ParseArgument;
    var rest := a.end + next;
    ClosingStops(a.end, next[0], next[1..]);
    match a
    case Positional(value, _, _) => PositionalReads(value, s, rest, d);
    case Labelled(key, value, open, close, _, _) => LabelledReads(key, value, open, close, s, rest, d);
    case LabelledText(key, text, _, _) => LabelledTextReads(key, text, s, rest, d);
    case Bare(key, _, _) =>
      GapFirst(a.end, next);
      BareReads(key, s, rest, d);
  }

  lemma {:induction false} PositionalReads(value: Phrase, s: string, rest: string, d: nat)
    requires WellFormed(value) && d <= MAX_DEPTH && Stops(1, rest) && Joins(value, rest) && SkipBlanks(s) == Written(value, rest)
    ensures ParseArgument(s, d) == if Fits(value, d + 1) then Ok(Tree(value), SkipBlanks(rest)) else Err(TooDeep)
    decreases value, 30
  {
    hide Written, Tree, Need, ParseOr;
    Opening(value, rest);
    SkipTwice(s);
    OrReads(value, SkipBlanks(s), rest, d);
  }

  lemma {:induction false} LabelledReads(key: string, value: Phrase, open: string, close: string, s: string, rest: string, d: nat)
    requires IsNameText(key) && WellFormed(value) && Blanks(open) && Blanks(close)
    requires SkipBlanks(s) == ":" + (key + ("(" + (open + Written(value, close + (")" + rest)))))
    ensures ParseArgument(s, d)
         == if MakeNamed(key, Tree(value)).Stored() <= MAX_DEPTH && d + 1 + Need(value) <= MAX_DEPTH
            then Ok(MakeNamed(key, Tree(value)), rest) else Err(TooDeep)
    decreases value, 30
  {
    hide Written, Tree, Need, ParseOr;
    var inside := open + Written(value, close + (")" + rest));
    var u := "(" + inside;
    KeyReads(s, key, u);
    ClosingStops(close, ')', rest);
    Opening(value, close + (")" + rest));
    SkipGap(open, Written(value, close + (")" + rest)));
    assert u[1..] == inside;
    OrReads(value, inside, close + (")" + rest), d);
    ConsumeHere(")" + rest, ")", rest);
  }

  lemma KeyReads(s: string, key: string, u: string)
    requires IsNameText(key) && (u == [] || !IsNameChar(u[0]))
    requires SkipBlanks(s) == ":" + (key + u)
    ensures var t := SkipBlanks(s);
            && Starts(t, ':') && NameLength(t[1..]) == |key|
            && t[1..][..|key|] == key && t[1..][|key|..] == u
  {
    var t := SkipBlanks(s);
    assert t[1..] == key + u;
    NameRun(key, u);
  }

  lemma LabelledTextReads(key: string, text: string, s: string, rest: string, d: nat)
    requires IsNameText(key) && '>' !in text
    requires SkipBlanks(s) == ":" + (key + ("<" + (text + (">" + rest))))
    ensures ParseArgument(s, d) == Ok(MakeNamed(key, LiteralString(text)), rest)
  {
    var u := "<" + (text + (">" + rest));
    KeyReads(s, key, u);
    AngleTextReads(text, rest);
  }

  lemma AngleTextReads(text: string, rest: string)
    requires '>' !in text
    ensures var u := "<" + (text + (">" + rest));
            var closing := Find(u, '>');
            closing == |text| + 1 && closing < |u| && u[1..closing] == text && u[closing + 1..] == rest
  {
    var u := "<" + (text + (">" + rest));
    FindsAfter(text, rest);
    assert u[1..] == text + (">" + rest);
    assert u[1..|text| + 1] == text && u[|text| + 2..] == rest;
  }

  lemma {:induction false} FindsAfter(text: string, rest: string)
    requires '>' !in text
    ensures Find(text + (">" + rest), '>') == |text|
  {
    if text != [] {
      assert (text + (">" + rest))[1..] == text[1..] + (">" + rest);
      FindsAfter(text[1..], rest);
    } else {
      assert text + (">" + rest) == ">" + rest;
    }
  }

  lemma BareReads(key: string, s: string, rest: string, d: nat)
    requires IsNameText(key) && rest != [] && (IsBlank(rest[0]) || rest[0] in {')', ','})
    requires SkipBlanks(s) == ":" + (key + rest)
    ensures ParseArgument(s, d) == Ok(MakeNamed(key, LiteralString(key)), rest)
  {
    KeyReads(s, key, rest);
  }

  /** Reading a whole phrase from the top of the grammar. */
  lemma {:induction false} OrReads(p: Phrase, s: string, rest: string, d: nat)
    requires WellFormed(p) && SkipBlanks(s) == Written(p, rest) && Stops(1, rest) && Joins(p, rest)
    ensures ParseOr(s, d) == if Fits(p, d + 1) then Ok(Tree(p), SkipBlanks(rest)) else Err(TooDeep)
    decreases p, 25
  {
    if d + 1 <= MAX_DEPTH { OperandReads(1, p, s, rest, d + 1); }
  }

  lemma {:induction false} PrimaryReads(p: Phrase, s: string, rest: string, d: nat)
    requires WellFormed(p) && Level(p) == 7 && d <= MAX_DEPTH
    requires SkipBlanks(s) == Written(p, rest) && AfterValue(p, rest)
    ensures ParsePrimary(s, d) == if FitsInner(p, d) then Ok(Tree(p), rest) else Err(TooDeep)
    decreases p, 6
  {
    if p.Parens? {
      hide ParseOr;
      GroupReads(p.inner, p.open, p.close, '(', s, ')', rest, d);
    } else if p.Braces? {
      hide ParseOr;
      GroupReads(p.inner, p.open, p.close, '{', s, '}', rest, d);
      BlockOpening(p, rest);
    } else if p.MapLiteral? {
      MapReads(p, s, rest, d);
    } else if p.Quoted? {
      QuotedReads(p.quote, p.pieces, s, rest, d);
    } else {
      hide ParsePrimary;
      WordReads(p, s, rest, d);
    }
  }

  /** A block does not look like a map. */
  lemma BlockOpening(p: Phrase, rest: string)
    requires p.Braces? && WellFormed(p)
    ensures !LooksLikeMap(p.open + Written(p.inner, p.close + ("}" + rest)))
  {
    var inside := Written(p.inner, p.close + ("}" + rest));
    ClosingStops(p.close, '}', rest);
    Opening(p.inner, p.close + ("}" + rest));
    SkipGap(p.open, inside);
  }

  lemma {:induction false} MapReads(p: Phrase, s: string, rest: string, d: nat)
    requires p.MapLiteral? && WellFormed(p) && d <= MAX_DEPTH
    requires SkipBlanks(s) == "{" + (p.open + EntriesWritten(p.entries, p.comma && p.entries != [], "}" + rest))
    ensures ParsePrimary(s, d)
         == if EntriesFit(p.entries, d) then Checked(MakeMap(EntryTrees(p.entries)), rest) else Err(TooDeep)
    decreases p.entries, 3
  {
    var inside := EntriesWritten(p.entries, p.comma && p.entries != [], "}" + rest);
    assert SkipBlanks(s)[1..] == p.open + inside;
    MapOpening(p, rest);
    EntriesRead(p.entries, p.comma && p.entries != [], [], inside, rest, d);
    hide MapLoop, LooksLikeMap;
    assert [] + EntryTrees(p.entries) == EntryTrees(p.entries);
  }

  lemma QuotedReads(quote: char, pieces: seq<Piece>, s: string, rest: string, d: nat)
    requires WellFormed(Quoted(quote, pieces)) && SkipBlanks(s) == [quote] + PiecesWritten(pieces, [quote] + rest)
    ensures ParsePrimary(s, d) == Ok(LiteralString(PiecesValue(pieces)), rest)
  {
    assert SkipBlanks(s)[1..] == PiecesWritten(pieces, [quote] + rest);
    PiecesRead(quote, pieces, [], rest);
    assert [] + PiecesValue(pieces) == PiecesValue(pieces);
    hide ParseString;
  }

  /** A phrase between a pair of brackets. */
  lemma {:induction false} GroupReads(inner: Phrase, open: string, close: string, opener: char, s: string, closer: char,
                                      rest: string, d: nat)
    requires WellFormed(inner) && (closer == ')' || closer == '}') && Blanks(open) && Blanks(close)
    requires SkipBlanks(s) == [opener] + (open + Written(inner, close + ([closer] + rest)))
    ensures var after := SkipBlanks(s)[1..];
            && after == open + Written(inner, close + ([closer] + rest))
            && ParseOr(after, d) == (if Fits(inner, d + 1) then Ok(Tree(inner), [closer] + rest) else Err(TooDeep))
            && Consume([closer] + rest, [closer]) == Some(rest)
    decreases inner, 30
  {
    var after, text := SkipBlanks(s)[1..], Written(inner, close + ([closer] + rest));
    assert after == open + text;
    ClosingStops(close, closer, rest);
    Opening(inner, close + ([closer] + rest));
    SkipGap(open, text);
    OrReads(inner, after, close + ([closer] + rest), d);
    ConsumeHere([closer] + rest, [closer], rest);
  }

  lemma WordReads(p: Phrase, s: string, rest: string, d: nat)
    requires WellFormed(p) && Level(p) == 7 && SkipBlanks(s) == Written(p, rest) && AfterValue(p, rest)
    requires IsWord(p) || p.LocalWord? || p.Integer? || p.Decimal?
    ensures ParsePrimary(s, d) == Ok(Tree(p), rest)
  {
    if p.LocalWord? {
      WordJoins(p, rest);
      LocalReads(p.name, s, rest, d);
    } else if p.Integer? {
      IntegerReads(p.digits, rest);
      NumberReads(s, p.digits + rest, d);
    } else if p.Decimal? {
      DecimalReads(p.whole, p.fraction, rest);
      NumberReads(s, p.whole + ("." + (p.fraction + rest)), d);
    } else {
      WordJoins(p, rest);
      NameReads(if p.NullWord? then (if p.capital then "Nil" else "null")
                else if p.BooleanWord? then BooleanText(p.truth, p.capital) else p.name, s, rest, d);
    }
  }

  lemma NumberReads(s: string, t: string, d: nat)
    requires SkipBlanks(s) == t && t != [] && IsDigit(t[0])
    ensures ParsePrimary(s, d) == ParseNumber(t)
  {
  }

  lemma NameReads(word: string, s: string, rest: string, d: nat)
    requires IsNameText(word) && IsNameStart(word[0]) && (rest == [] || !IsNameChar(rest[0]))
    requires SkipBlanks(s) == word + rest
    ensures ParsePrimary(s, d) == Ok(WordNode(word), rest)
  {
    NameRun(word, rest);
    assert (word + rest)[0] == word[0];
  }

  lemma LocalReads(name: string, s: string, rest: string, d: nat)
    requires IsNameText(name) && (rest == [] || !IsNameChar(rest[0]))
    requires SkipBlanks(s) == "$" + (name + rest)
    ensures ParsePrimary(s, d) == Ok(Variable(name), rest)
  {
    var t := "$" + (name + rest);
    NameRun(name, rest);
    assert t[1..] == name + rest;
  }

  lemma IntegerReads(digits: string, rest: string)
    requires IsDigits(digits) && (rest == [] || !IsDigit(rest[0])) && (|rest| > 1 && rest[0] == '.' ==> !IsDigit(rest[1]))
    ensures ParseNumber(digits + rest) == Ok(LiteralInteger(IntegerOf(digits)), rest)
  {
    DigitRun(digits, rest);
    if |rest| > 1 { assert (digits + rest)[|digits| + 1] == rest[1]; }
  }

  lemma DecimalReads(whole: string, fraction: string, rest: string)
    requires IsDigits(whole) && IsDigits(fraction) && (rest == [] || !IsDigit(rest[0]))
    ensures ParseNumber(whole + ("." + (fraction + rest))) == Ok(LiteralNumber(whole + ("." + fraction)), rest)
  {
    var s := whole + ("." + (fraction + rest));
    DigitRun(whole, "." + (fraction + rest));
    assert s[|whole| + 1..] == fraction + rest;
    DigitRun(fraction, rest);
    var m := |whole| + 1 + |fraction|;
    assert s[..m] == whole + ("." + fraction) && s[m..] == rest;
  }

  lemma {:induction false} PiecesRead(quote: char, pieces: seq<Piece>, sofar: string, rest: string)
    requires quote != '\\'
    requires forall i | 0 <= i < |pieces| :: pieces[i].escaped || (pieces[i].c != quote && pieces[i].c != '\\')
    ensures ParseString(quote, sofar, PiecesWritten(pieces, [quote] + rest))
         == Ok(LiteralString(sofar + PiecesValue(pieces)), rest)
  {
    if pieces == [] {
      assert ([quote] + rest)[1..] == rest;
      assert sofar + [] == sofar;
    } else {
      var head, others := pieces[0], pieces[1..];
      var more := PiecesWritten(others, [quote] + rest);
      PiecesRead(quote, others, sofar + [head.c], rest);
      assert ([head.c] + more)[1..] == more;
      assert (['\\'] + ([head.c] + more))[2..] == more;
      ValueStep(sofar, pieces);
      hide PiecesValue;
    }
  }

  lemma ValueStep(sofar: string, pieces: seq<Piece>)
    requires pieces != []
    ensures sofar + [pieces[0].c] + PiecesValue(pieces[1..]) == sofar + PiecesValue(pieces)
  {
  }

  /** What comes after an entry and its blanks closes it. */
  lemma EntryCloses(next: string, others: seq<Entry>, comma: bool, rest: string)
    requires rest != [] && rest[0] == '}'
    ensures var more := EntriesAfter(next, others, comma, rest);
            more != [] && more[0] == (if others == [] && !comma then '}' else ',') && more == [more[0]] + more[1..]
  {
    var more := EntriesAfter(next, others, comma, rest);
    assert more == [more[0]] + more[1..];
  }

  lemma KeyOpening(e: Entry, more: string)
    requires WellFormedEntry(e)
    ensures var s := e.key + (e.gap + (":" + more));
            && NameLength(s) == |e.key| && s[..|e.key|] == e.key && s[|e.key|..] == e.gap + (":" + more)
            && SkipBlanks(s[|e.key|..]) == ":" + more && SkipBlanks(s) == s
  {
    GapFirst(e.gap, ":" + more);
    SkipGap(e.gap, ":" + more);
    NameRun(e.key, e.gap + (":" + more));
  }

  lemma MapOpening(p: Phrase, rest: string)
    requires p.MapLiteral? && WellFormed(p)
    ensures var inside := EntriesWritten(p.entries, p.comma && p.entries != [], "}" + rest);
            LooksLikeMap(p.open + inside) && SkipBlanks(p.open + inside) == inside
  {
    var inside := EntriesWritten(p.entries, p.comma && p.entries != [], "}" + rest);
    SkipGap(p.open, inside);
    if p.entries != [] {
      var e := p.entries[0];
      KeyOpening(e, e.after + Written(e.value, e.end + EntriesAfter(e.next, p.entries[1..], p.comma, "}" + rest)));
    }
  }

  lemma {:induction false} EntriesRead(entries: seq<Entry>, comma: bool, sofar: seq<Node>, s: string, rest: string, d: nat)
    requires forall i | 0 <= i < |entries| :: WellFormedEntry(entries[i])
    requires s == EntriesWritten(entries, comma, "}" + rest)
    requires d <= MAX_DEPTH
    ensures MapLoop(sofar, s, d)
         == if EntriesFit(entries, d) then Checked(MakeMap(sofar + EntryTrees(entries)), rest) else Err(TooDeep)
    decreases entries, 2
  {
    if entries == [] {
      ConsumeHere(s, "}", rest);
      assert sofar + EntryTrees(entries) == sofar;
    } else {
      EntryStep(entries, comma, sofar, rest, d);
      EntriesFitSplits(entries, d);
      if EntryFits(entries[0], d) && (|entries| > 1 || comma) {
        EntriesReadOn(entries, comma, sofar, rest, d);
      } else if EntryFits(entries[0], d) {
        assert EntryTrees(entries) == [EntryTree(entries[0])];
      }
    }
  }

  lemma {:induction false} EntriesReadOn(entries: seq<Entry>, comma: bool, sofar: seq<Node>, rest: string, d: nat)
    requires entries != [] && forall i | 0 <= i < |entries| :: WellFormedEntry(entries[i])
    requires d <= MAX_DEPTH
    ensures MapLoop(sofar + [EntryTree(entries[0])], EntriesWritten(entries[1..], comma, "}" + rest), d)
         == if EntriesFit(entries[1..], d) then Checked(MakeMap(sofar + EntryTrees(entries)), rest) else Err(TooDeep)
    decreases entries, 1
  {
    hide *;
    var nodes, others := sofar + [EntryTree(entries[0])], entries[1..];
    forall i | 0 <= i < |others| ensures WellFormedEntry(others[i]) { assert others[i] == entries[i + 1]; }
    EntriesRead(others, comma, nodes, EntriesWritten(others, comma, "}" + rest), rest, d);
    TreesStep(entries, sofar);
  }

  lemma TreesStep(entries: seq<Entry>, sofar: seq<Node>)
    requires entries != []
    ensures (sofar + [EntryTree(entries[0])]) + EntryTrees(entries[1..]) == sofar + EntryTrees(entries)
  {
    hide Tree;
  }

  function EntryTree(e: Entry): Node { MakeNamed(e.key, Tree(e.value)) }

  predicate EntryFits(e: Entry, d: nat) { Fits(e.value, d + 1) && EntryTree(e).Stored() <= MAX_DEPTH }

  lemma EntriesFitSplits(entries: seq<Entry>, d: nat)
    requires entries != [] && d <= MAX_DEPTH
    ensures EntriesFit(entries, d) == (EntryFits(entries[0], d) && EntriesFit(entries[1..], d))
  {
  }

  /** One turn of the loop over the entries of a map. */
  lemma {:induction false} EntryStep(entries: seq<Entry>, comma: bool, sofar: seq<Node>, rest: string, d: nat)
    requires entries != [] && forall i | 0 <= i < |entries| :: WellFormedEntry(entries[i])
    ensures var node := EntryTree(entries[0]);
            MapLoop(sofar, EntriesWritten(entries, comma, "}" + rest), d)
              == if !EntryFits(entries[0], d) then Err(TooDeep)
                 else if |entries| == 1 && !comma then Checked(MakeMap(sofar + [node]), rest)
                 else MapLoop(sofar + [node], EntriesWritten(entries[1..], comma, "}" + rest), d)
    decreases entries, 1
  {
    hide Written, Tree, Need, ParseOr, LooksLikeMap;
    var e, others := entries[0], entries[1..];
    var next := EntriesAfter(e.next, others, comma, "}" + rest);
    EntryCloses(e.next, others, comma, "}" + rest);
    EntryReads(e, next, d);
    if others == [] && !comma {
      ConsumeHere(next, "}", rest);
    } else {
      var more := EntriesWritten(others, comma, "}" + rest);
      ConsumeHere(next, ",", e.next + more);
      EntriesOpening(others, comma, rest);
      SkipGap(e.next, more);
    }
  }

  lemma EntriesOpening(entries: seq<Entry>, comma: bool, rest: string)
    requires forall i | 0 <= i < |entries| :: WellFormedEntry(entries[i])
    ensures var more := EntriesWritten(entries, comma, "}" + rest); SkipBlanks(more) == more
  {
    if entries != [] {
      var e := entries[0];
      KeyOpening(e, e.after + Written(e.value, e.end + EntriesAfter(e.next, entries[1..], comma, "}" + rest)));
    }
  }

  /** The key, the colon and the value of one map entry. */
  lemma {:induction false} EntryReads(e: Entry, next: string, d: nat)
    requires WellFormedEntry(e)
    requires next != [] && next[0] in {',', '}'} && next == [next[0]] + next[1..]
    ensures var after := e.after + Written(e.value, e.end + next);
            var s := e.key + (e.gap + (":" + after));
            && NameLength(s) == |e.key| && s[..|e.key|] == e.key && s[0] != '}'
            && Consume(s[|e.key|..], ":") == Some(after)
            && ParseOr(after, d) == (if Fits(e.value, d + 1) then Ok(Tree(e.value), next) else Err(TooDeep))
    decreases e
  {
    hide Written, Tree, Need, ParseOr;
    var after := e.after + Written(e.value, e.end + next);
    var s := e.key + (e.gap + (":" + after));
    KeyOpening(e, after);
    ConsumeHere(s[|e.key|..], ":", after);
    ClosingStops(e.end, next[0], next[1..]);
    Opening(e.value, e.end + next);
    SkipGap(e.after, Written(e.value, e.end + next));
    OrReads(e.value, after, e.end + next, d);
  }
}

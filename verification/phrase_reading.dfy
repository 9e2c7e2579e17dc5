/** The parser reads every phrase as its tree, exactly when the phrase fits. */
module PhraseReading {
  import opened Strings
  import opened Expression
  import opened Phrase

  /** What may follow a value: not the colon of a map key. */
  predicate Calm(rest: string) { !Starts(SkipBlanks(rest), ':') }

  /** What may follow this phrase without going on with its last word or number. */
  predicate Joins(p: Phrase, rest: string) {
    && (rest != [] ==> (EndsWithName(p) ==> !IsNameChar(rest[0])) && (EndsWithNumber(p) ==> !IsDigit(rest[0])))
    && (Dangles(p) ==> !Starts(rest[NameLength(rest)..], '>'))
  }

  predicate PostfixEnds(rest: string) {
    var t := SkipBlanks(rest);
    && !Starts(t, '.') && !Starts(t, '(')
    && !(Starts(t, '<') && AngleLength(t[1..]) > 0)
  }

  /** `rest` holds no member, call or operator of level `k` or tighter to read. */
  predicate Stops(k: nat, rest: string) {
    && Calm(rest)
    && !Starts(rest, '.')
    && PostfixEnds(rest)
    && forall j | 1 <= j <= 4 && k <= j :: ReadOperator(j, rest).NotFound?
  }

  predicate AfterValue(p: Phrase, rest: string) {
    Calm(rest) && Joins(p, rest) && (p.Integer? && |rest| > 1 && rest[0] == '.' ==> !IsDigit(rest[1]))
  }

  lemma ReadSkips(k: nat, s: string)
    requires 1 <= k <= 4
    ensures ReadOperator(k, SkipBlanks(s)) == ReadOperator(k, s)
  {
    if k == 1 {
      ConsumeSkips(s, "||"); ConsumeSkips(s, "or");
    } else if k == 2 {
      ConsumeSkips(s, "&&"); ConsumeSkips(s, "and");
    } else if k == 3 {
      ComparisonSkips(s);
    } else {
      ConsumeSkips(s, "~"); ConsumeSkips(s, "+"); ConsumeSkips(s, "-");
    }
  }

  lemma ComparisonSkips(s: string)
    ensures ReadComparison(SkipBlanks(s)) == ReadComparison(s)
  {
    ConsumeSkips(s, "=="); ConsumeSkips(s, "eq"); ConsumeSkips(s, "!="); ConsumeSkips(s, "ne");
    ConsumeSkips(s, "<="); ConsumeSkips(s, ">="); ConsumeSkips(s, "<"); ConsumeSkips(s, ">");
  }

  lemma LoopSkips(k: nat, left: Node, rest: string, d: nat)
    requires 1 <= k <= 4
    ensures BinaryLoop(k, left, SkipBlanks(rest), d) == BinaryLoop(k, left, rest, d)
  {
    SkipTwice(rest);
    ReadSkips(k, rest);
  }

  // ------------------------------------------------------------- blanks before a token

  lemma {:induction false} SkipGap(gap: string, s: string)
    requires Blanks(gap)
    ensures SkipBlanks(gap + s) == SkipBlanks(s)
  {
    if gap == "" {
      assert gap + s == s;
    } else {
      assert (gap + s)[1..] == gap[1..] + s;
      SkipGap(gap[1..], s);
    }
  }

  /** The first character after a gap is a blank, or what comes without one. */
  lemma GapFirst(gap: string, s: string)
    requires Blanks(gap)
    ensures if gap == "" then gap + s == s else gap + s != [] && IsBlank((gap + s)[0]) && !IsNameChar((gap + s)[0])
  {
  }

  lemma CalmGap(gap: string, rest: string)
    requires Blanks(gap) && Calm(rest)
    ensures Calm(gap + rest)
  {
    SkipGap(gap, rest);
  }

  lemma JoinsGap(p: Phrase, gap: string, rest: string)
    requires Blanks(gap) && Joins(p, rest)
    ensures Joins(p, gap + rest)
  {
    GapFirst(gap, rest);
  }

  /** A mark that is in no name and no `>`. */
  lemma JoinsMark(p: Phrase, rest: string)
    requires rest == [] || (!IsNameChar(rest[0]) && rest[0] != '>')
    ensures Joins(p, rest)
  {
  }

  lemma StopsGap(k: nat, gap: string, rest: string)
    requires Blanks(gap) && Stops(k, rest)
    ensures Stops(k, gap + rest)
  {
    hide ReadOperator;
    CalmGap(gap, rest);
    GapFirst(gap, rest);
    SkipGap(gap, rest);
    forall j | 1 <= j <= 4 && k <= j ensures ReadOperator(j, gap + rest).NotFound? {
      ReadSkips(j, gap + rest);
      ReadSkips(j, rest);
    }
  }

  /** A gap and a closing mark. */
  lemma ClosingStops(gap: string, c: char, more: string)
    requires Blanks(gap) && c in {')', '}', ','}
    ensures var rest := gap + ([c] + more);
            Stops(1, rest) && (forall p: Phrase :: Joins(p, rest)) && SkipBlanks(rest) == [c] + more
  {
    CloserStops(c, more);
    StopsGap(1, gap, [c] + more);
    forall p: Phrase ensures Joins(p, gap + ([c] + more)) {
      JoinsMark(p, [c] + more);
      JoinsGap(p, gap, [c] + more);
    }
    SkipGap(gap, [c] + more);
  }

  lemma ConsumeHere(s: string, token: string, after: string)
    requires token != [] && SkipBlanks(s) == token + after
    requires IsNameStart(token[0]) && after != [] ==> !IsNameChar(after[0])
    ensures Consume(s, token) == Some(after)
  {
    assert (token + after)[|token|..] == after;
  }

  lemma {:induction false} NameRun(name: string, rest: string)
    requires forall i | 0 <= i < |name| :: IsNameChar(name[i])
    requires rest == [] || !IsNameChar(rest[0])
    ensures NameLength(name + rest) == |name|
    ensures (name + rest)[..|name|] == name && (name + rest)[|name|..] == rest
  {
    if name == [] {
      assert name + rest == rest;
    } else {
      assert (name + rest)[1..] == name[1..] + rest;
      NameRun(name[1..], rest);
    }
  }

  lemma {:induction false} DigitRun(digits: string, rest: string)
    requires forall i | 0 <= i < |digits| :: IsDigit(digits[i])
    requires rest == [] || !IsDigit(rest[0])
    ensures DigitLength(digits + rest) == |digits|
    ensures (digits + rest)[..|digits|] == digits && (digits + rest)[|digits|..] == rest
  {
    if digits == [] {
      assert digits + rest == rest;
    } else {
      assert (digits + rest)[1..] == digits[1..] + rest;
      DigitRun(digits[1..], rest);
    }
  }

  predicate NoKey(t: string) {
    t != [] && IsNameStart(t[0]) ==> !Starts(SkipBlanks(t[NameLength(t)..]), ':')
  }

  predicate OpensValue(s: string) { s != [] && !IsSpace(s[0]) && s[0] !in {')', '}', ',', ':', '=', '>'} }

  lemma OpeningWord(word: string, rest: string)
    requires IsNameText(word) && Calm(rest) && (rest == [] || !IsNameChar(rest[0]))
    ensures OpensValue(word + rest) && NoKey(word + rest)
  {
    NameRun(word, rest);
  }

  predicate IsWord(p: Phrase) { p.NullWord? || p.BooleanWord? || p.NameWord? }

  lemma OpeningMark(p: Phrase, rest: string)
    requires WellFormed(p) && Level(p) == 7 && !IsWord(p)
    ensures var t := Written(p, rest); OpensValue(t) && NoKey(t) && !IsNameStart(t[0]) && t[0] != '!'
  {
  }

  /** A phrase begins with neither a closer nor a colon, nor with a name and a colon. */
  lemma {:induction false} Opening(p: Phrase, rest: string)
    requires WellFormed(p) && Calm(rest) && Joins(p, rest)
    ensures OpensValue(Written(p, rest)) && NoKey(Written(p, rest))
    ensures !OpensWithName(p) ==> !IsNameChar(Written(p, rest)[0])
    decreases p, 1
  {
    hide ReadOperator, NoKey, Joins, Follows;
    if IsWord(p) {
      WordJoins(p, rest);
      OpeningWord(if p.NullWord? then (if p.capital then "Nil" else "null")
                  else if p.BooleanWord? then BooleanText(p.truth, p.capital) else p.name, rest);
    } else if Level(p) == 7 {
      OpeningMark(p, rest);
    } else if Level(p) == 6 {
      var mark := MarkOf(p, rest);
      MarkJoins(p, mark, rest);
      Opening(p.target, p.gap + mark);
    } else if p.Negate? {
      NegateJoins(p, rest);
      Opening(p.operand, rest);
      OpeningNegation(p.word, p.gap, Written(p.operand, rest));
    } else {
      RightOpens(p, rest);
      LeftStops(p, rest);
      Opening(p.left, Spaced(p.op, p.word, p.before, p.after, Written(p.right, rest)));
    }
  }

  lemma WordJoins(p: Phrase, rest: string)
    requires Joins(p, rest) && EndsWithName(p)
    ensures rest == [] || !IsNameChar(rest[0])
  {
  }

  lemma NegateJoins(p: Phrase, rest: string)
    requires p.Negate? && WellFormed(p) && Joins(p, rest)
    ensures Joins(p.operand, rest)
  {
  }

  /** What a postfix phrase writes after its target and their gap. */
  function MarkOf(p: Phrase, rest: string): string
    requires Level(p) == 6
  {
    if p.Dot? then "." + (p.member + rest)
    else if p.Angle? then "<" + (p.member + (">" + rest))
    else "(" + (p.open + ArgumentsWritten(p.arguments, ")" + rest))
  }

  lemma MarkJoins(p: Phrase, mark: string, rest: string)
    requires Level(p) == 6 && WellFormed(p) && mark == MarkOf(p, rest)
    ensures Written(p, rest) == Written(p.target, p.gap + mark)
    ensures Calm(p.gap + mark) && Joins(p.target, p.gap + mark)
    ensures OpensWithName(p) == OpensWithName(p.target)
  {
    JoinsMark(p.target, mark);
    JoinsGap(p.target, p.gap, mark);
    CalmGap(p.gap, mark);
  }

  /** The right side of an operator, and what is behind the operator. */
  lemma {:induction false} RightOpens(p: Phrase, rest: string)
    requires p.Operate? && WellFormed(p) && Calm(rest) && Joins(p, rest)
    ensures Joins(p.right, rest) && OpensValue(Written(p.right, rest))
    ensures Follows(p.op, p.word, p.after + Written(p.right, rest))
    decreases p, 0
  {
    RightJoins(p, rest);
    Opening(p.right, rest);
    TailFollows(p, rest);
  }

  lemma RightJoins(p: Phrase, rest: string)
    requires p.Operate? && Joins(p, rest)
    ensures Joins(p.right, rest)
    ensures p.op.Less? && p.after == "" && IsRun(p.right) ==> !Starts(rest[NameLength(rest)..], '>')
  {
  }

  /** The operator and what is behind it, as what follows the left side. */
  lemma LeftStops(p: Phrase, rest: string)
    requires p.Operate? && WellFormed(p) && OpensValue(Written(p.right, rest))
    requires Follows(p.op, p.word, p.after + Written(p.right, rest))
    ensures var more := Spaced(p.op, p.word, p.before, p.after, Written(p.right, rest));
            Stops(OperatorLevel(p.op) + 1, more) && Joins(p.left, more)
  {
    hide ReadOperator, Follows;
    var tail := p.after + Written(p.right, rest);
    OperatorStops(p.op, p.word, p.before, OperatorLevel(p.op) + 1, tail);
    TailFirst(p, rest);
    LeftJoins(p, tail);
  }

  lemma TailFirst(p: Phrase, rest: string)
    requires p.Operate? && WellFormed(p) && OpensValue(Written(p.right, rest))
    ensures var tail := p.after + Written(p.right, rest); tail != [] && tail[0] != '>'
  {
    GapFirst(p.after, Written(p.right, rest));
  }

  lemma LeftJoins(p: Phrase, tail: string)
    requires p.Operate? && WellFormed(p) && Follows(p.op, p.word, tail) && tail != [] && tail[0] != '>'
    ensures Joins(p.left, p.before + (Symbol(p.op, p.word) + tail))
  {
    var t := Symbol(p.op, p.word) + tail;
    GapFirst(p.before, t);
    assert t[0] == Symbol(p.op, p.word)[0];
    if Dangles(p.left) { DanglingLevel(p.left); }
    if p.before == "" {
      if IsNameStart(t[0]) {
        NameRun(Symbol(p.op, p.word), tail);
      } else if !p.op.Subtract? {
        assert !IsNameChar(t[0]);
      }
    }
  }

  lemma {:induction false} DanglingLevel(p: Phrase)
    requires WellFormed(p) && Dangles(p)
    ensures Level(p) <= 3
  {
    if !(p.op.Less? && p.after == "" && IsRun(p.right)) { DanglingLevel(p.right); }
  }

  lemma OpeningNegation(word: bool, gap: string, operand: string)
    requires OpensValue(operand) && Blanks(gap) && (word && gap == "" ==> !IsNameChar(operand[0]))
    ensures var t := (if word then "not" else "!") + (gap + operand);
            OpensValue(t) && NoKey(t) && (!word ==> !IsNameChar(t[0]))
  {
    GapFirst(gap, operand);
    SkipGap(gap, operand);
    if word { NameRun("not", gap + operand); }
  }

  /** What comes after an operator does not go on with it. */
  predicate Follows(op: BinaryOperator, word: bool, tail: string) {
    && (word ==> tail == [] || !IsNameChar(tail[0]))
    && (op.Less? ==> AngleLength(tail) == 0)
    && (op.Less? || op.Greater? ==> tail == [] || tail[0] != '=')
  }

  lemma TailFollows(p: Phrase, rest: string)
    requires p.Operate? && WellFormed(p) && OpensValue(Written(p.right, rest)) && Joins(p.right, rest)
    requires !OpensWithName(p.right) ==> !IsNameChar(Written(p.right, rest)[0])
    requires p.op.Less? && p.after == "" && IsRun(p.right) ==> !Starts(rest[NameLength(rest)..], '>')
    ensures Follows(p.op, p.word, p.after + Written(p.right, rest))
  {
    GapFirst(p.after, Written(p.right, rest));
    if p.op.Less? && p.after == "" { FirstRun(p.right, rest); }
  }

  lemma {:induction false} DigitsAreRun(s: string)
    requires IsDigits(s)
    ensures forall i | 0 <= i < |s| :: IsNameChar(s[i])
  {
  }

  lemma {:induction false} RunThen(run: string, rest: string)
    requires forall i | 0 <= i < |run| :: IsNameChar(run[i])
    ensures NameLength(run + rest) == |run| + NameLength(rest)
    ensures (run + rest)[NameLength(run + rest)..] == rest[NameLength(rest)..]
  {
    if run == [] {
      assert run + rest == rest;
    } else {
      assert (run + rest)[1..] == run[1..] + rest;
      RunThen(run[1..], rest);
    }
  }

  /** How far the characters of names go at the front of a phrase: no further than its first
      leaf, or past all of it; and only then may `>` close them. */
  predicate RunsTo(p: Phrase, text: string, rest: string) {
    && (AngleLength(text) > 0 ==> IsRun(p) && Starts(rest[NameLength(rest)..], '>'))
    && (IsRun(p) ==> NameLength(text) > 0 && text[NameLength(text)..] == rest[NameLength(rest)..])
  }

  /** A name right behind `<` is closed by `>` only when it is all of a phrase. */
  lemma {:induction false} FirstRun(p: Phrase, rest: string)
    requires WellFormed(p) && Level(p) >= 4
    ensures RunsTo(p, Written(p, rest), rest)
    decreases p
  {
    hide RunsTo;
    if IsWord(p) || p.Integer? {
      RunLeaf(p, rest);
    } else if Level(p) == 7 {
      MarkLeaf(p, rest);
    } else if Level(p) == 6 {
      var mark := MarkOf(p, rest);
      FirstRun(p.target, p.gap + mark);
      MarkNoRun(p, mark, rest);
      MarkRun(p, mark, rest);
    } else if p.Negate? {
      NegateNoRun(p, rest);
    } else {
      FirstRun(p.right, rest);
      FirstRun(p.left, Spaced(p.op, p.word, p.before, p.after, Written(p.right, rest)));
      SumRun(p, rest);
      OperateRun(p, rest);
    }
  }

  lemma MarkRun(p: Phrase, mark: string, rest: string)
    requires Level(p) == 6 && WellFormed(p) && mark == MarkOf(p, rest)
    requires Written(p, rest) == Written(p.target, p.gap + mark)
    requires RunsTo(p.target, Written(p.target, p.gap + mark), p.gap + mark)
    requires var more := p.gap + mark; !Starts(more[NameLength(more)..], '>')
    ensures RunsTo(p, Written(p, rest), rest)
  {
    hide NameLength, AngleLength, Written, MarkOf;
  }

  lemma OperateRun(p: Phrase, rest: string)
    requires p.Operate? && WellFormed(p) && OperatorLevel(p.op) == 4
    requires var right := Written(p.right, rest);
             var more := Spaced(p.op, p.word, p.before, p.after, right);
             && RunsTo(p.right, right, rest) && RunsTo(p.left, Written(p.left, more), more)
             && (Starts(more[NameLength(more)..], '>') ==>
                   p.op.Subtract? && p.before == "" && p.after == "" && AngleLength(right) > 0)
             && (p.op.Subtract? && p.before == "" && p.after == "" ==>
                   more[NameLength(more)..] == right[NameLength(right)..])
    ensures RunsTo(p, Written(p, rest), rest)
  {
    hide NameLength, AngleLength;
  }

  lemma AngleMeans(u: string)
    ensures AngleLength(u) > 0 <==> NameLength(u) > 0 && Starts(u[NameLength(u)..], '>')
  {
  }

  lemma NoRunOrAngle(u: string)
    requires u != [] && u[0] != '>'
    ensures Starts(u[NameLength(u)..], '>') ==> AngleLength(u) > 0
  {
  }

  lemma NoRun(u: string)
    requires u == [] || !IsNameChar(u[0])
    ensures NameLength(u) == 0 && AngleLength(u) == 0 && u[NameLength(u)..] == u
  {
  }

  lemma RunLeaf(p: Phrase, rest: string)
    requires WellFormed(p) && (IsWord(p) || p.Integer?)
    ensures RunsTo(p, Written(p, rest), rest)
  {
    AngleMeans(Written(p, rest));
    var run := if p.NullWord? then (if p.capital then "Nil" else "null")
               else if p.BooleanWord? then BooleanText(p.truth, p.capital)
               else if p.NameWord? then p.name else p.digits;
    if p.Integer? { DigitsAreRun(run); }
    RunThen(run, rest);
  }

  lemma MarkLeaf(p: Phrase, rest: string)
    requires WellFormed(p) && Level(p) == 7 && !IsWord(p) && !p.Integer?
    ensures RunsTo(p, Written(p, rest), rest)
  {
    if p.Decimal? {
      DigitsAreRun(p.whole);
      var more := "." + (p.fraction + rest);
      RunThen(p.whole, more);
      assert NameLength(more) == 0 && more[0] == '.';
    } else {
      OpeningMark(p, rest);
    }
  }

  lemma MarkNoRun(p: Phrase, mark: string, rest: string)
    requires Level(p) == 6 && WellFormed(p) && mark == MarkOf(p, rest)
    ensures Written(p, rest) == Written(p.target, p.gap + mark) && !IsRun(p)
    ensures var more := p.gap + mark; !Starts(more[NameLength(more)..], '>')
  {
    hide NameLength, ArgumentsWritten;
    GapFirst(p.gap, mark);
    NoRun(p.gap + mark);
  }

  lemma NegateNoRun(p: Phrase, rest: string)
    requires p.Negate? && WellFormed(p)
    ensures RunsTo(p, Written(p, rest), rest)
  {
    var operand := Written(p.operand, rest);
    FirstChar(p.operand, rest);
    GapFirst(p.gap, operand);
    if p.word { NameRun("not", p.gap + operand); }
  }

  /** The first character of a phrase. */
  lemma {:induction false} FirstChar(p: Phrase, rest: string)
    requires WellFormed(p)
    ensures var s := Written(p, rest); s != [] && s[0] != '>' && (OpensWithName(p) <==> IsNameChar(s[0]))
    decreases p
  {
    if Level(p) == 6 {
      var mark := MarkOf(p, rest);
      FirstChar(p.target, p.gap + mark);
      MarkNoRun(p, mark, rest);
    } else if p.Operate? {
      FirstChar(p.left, Spaced(p.op, p.word, p.before, p.after, Written(p.right, rest)));
    } else if Level(p) == 7 {
      FirstOfLeaf(p, rest);
    }
  }

  lemma FirstOfLeaf(p: Phrase, rest: string)
    requires WellFormed(p) && Level(p) == 7
    ensures var s := Written(p, rest); s != [] && s[0] != '>' && (OpensWithName(p) <==> IsNameChar(s[0]))
  {
  }

  lemma SumRun(p: Phrase, rest: string)
    requires p.Operate? && WellFormed(p) && OperatorLevel(p.op) == 4
    ensures var right := Written(p.right, rest);
            var more := Spaced(p.op, p.word, p.before, p.after, right);
            && (Starts(more[NameLength(more)..], '>') ==>
                  p.op.Subtract? && p.before == "" && p.after == "" && AngleLength(right) > 0)
            && (p.op.Subtract? && p.before == "" && p.after == "" ==>
                  more[NameLength(more)..] == right[NameLength(right)..])
  {
    var right := Written(p.right, rest);
    var tail := p.after + right;
    var t := Symbol(p.op, p.word) + tail;
    FirstChar(p.right, rest);
    GapFirst(p.before, t);
    GapFirst(p.after, right);
    assert t[0] == Symbol(p.op, p.word)[0];
    hide NameLength, AngleLength;
    AngleMeans(right);
    NoRunOrAngle(right);
    if p.op.Subtract? && p.before == "" {
      RunThen("-", tail);
      NoRun(tail[..0]);
      if p.after != "" { NoRun(tail); }
    } else {
      NoRun(p.before + t);
    }
  }

  /** Whether `t` begins with `not` as a whole word. */
  predicate BeginsNot(t: string) { "not" <= t && (|t| == 3 || !IsNameChar(t[3])) }

  predicate Plain(t: string) { t != [] && t[0] != '!' && !BeginsNot(t) }

  lemma PlainWord(word: string, rest: string)
    requires IsNameText(word) && word != "not"
    requires rest == [] || !IsNameChar(rest[0])
    ensures Plain(word + rest)
  {
    var t := word + rest;
    assert t[..|word|] == word;
  }

  /** Only a negation begins with a negation sign. */
  lemma {:induction false} OpensPlain(p: Phrase, rest: string)
    requires WellFormed(p) && Level(p) >= 6 && Joins(p, rest)
    ensures Plain(Written(p, rest))
  {
    hide Joins;
    if Level(p) == 6 {
      var mark := MarkOf(p, rest);
      MarkJoins(p, mark, rest);
      OpensPlain(p.target, p.gap + mark);
    } else if IsWord(p) {
      WordJoins(p, rest);
      PlainWord(if p.NullWord? then (if p.capital then "Nil" else "null")
                else if p.BooleanWord? then BooleanText(p.truth, p.capital) else p.name, rest);
    } else {
      OpeningMark(p, rest);
    }
  }

  /** An operator ends every phrase that binds tighter. */
  lemma OperatorStops(op: BinaryOperator, word: bool, before: string, k: nat, tail: string)
    requires k > OperatorLevel(op) && Follows(op, word, tail)
    requires Blanks(before)
    ensures Stops(k, before + (Symbol(op, word) + tail))
  {
    var t := Symbol(op, word) + tail;
    var rest := before + t;
    GapFirst(before, t);
    SkipGap(before, t);
    assert t[0] == Symbol(op, word)[0];
    assert SkipBlanks(rest) == t;
    SymbolEnds(op, word, tail);
    hide NameLength, AngleLength, ReadOperator;
    forall j | 1 <= j <= 4 && k <= j ensures ReadOperator(j, rest).NotFound? {
      LevelStops(op, word, j, rest, t);
    }
  }

  /** No operator begins like a member, a call or a colon. */
  lemma SymbolEnds(op: BinaryOperator, word: bool, tail: string)
    requires Follows(op, word, tail)
    ensures var t := Symbol(op, word) + tail;
            !Starts(t, '.') && !Starts(t, '(') && !Starts(t, ':') && !(Starts(t, '<') && AngleLength(t[1..]) > 0)
  {
    var t := Symbol(op, word) + tail;
    hide NameLength, AngleLength;
    assert t[0] == Symbol(op, word)[0];
    if Starts(t, '<') {
      assert t[1..] == tail || t[1] == '=';
      if t[1..] != tail { NoRun(t[1..]); }
    }
  }

  lemma ConsumeNot(s: string, token: string)
    requires token != [] && (SkipBlanks(s) == [] || SkipBlanks(s)[0] != token[0])
    ensures Consume(s, token).None?
  {
  }

  lemma LevelStops(op: BinaryOperator, word: bool, j: nat, rest: string, t: string)
    requires OperatorLevel(op) < j <= 4 && SkipBlanks(rest) == t && Symbol(op, word) <= t
    ensures ReadOperator(j, rest).NotFound?
  {
    assert t[0] == Symbol(op, word)[0];
    if j == 2 {
      ConsumeNot(rest, "&&"); ConsumeNot(rest, "and");
    } else if j == 3 {
      ConsumeNot(rest, "=="); ConsumeNot(rest, "eq"); ConsumeNot(rest, "!="); ConsumeNot(rest, "ne");
      ConsumeNot(rest, "<="); ConsumeNot(rest, ">="); ConsumeNot(rest, "<"); ConsumeNot(rest, ">");
    } else {
      ConsumeNot(rest, "~"); ConsumeNot(rest, "+"); ConsumeNot(rest, "-");
    }
    hide Consume;
  }

  lemma OperatorReads(op: BinaryOperator, word: bool, before: string, tail: string)
    requires Blanks(before) && Follows(op, word, tail)
    ensures ReadOperator(OperatorLevel(op), before + (Symbol(op, word) + tail)) == Found(op, tail)
  {
    var t := Symbol(op, word) + tail;
    var s := before + t;
    SkipGap(before, t);
    assert t[0] == Symbol(op, word)[0];
    assert SkipBlanks(s) == t;
    ConsumeHere(s, Symbol(op, word), tail);
    if OperatorLevel(op) == 3 {
      ComparisonReads(op, word, s, tail);
    } else if OperatorLevel(op) == 4 {
      if !op.Concatenate? { ConsumeNot(s, "~"); }
      if op.Subtract? { ConsumeNot(s, "+"); }
      hide Consume;
    } else {
      if word { ConsumeNot(s, Symbol(op, false)); }
      hide Consume;
    }
  }

  lemma ComparisonReads(op: BinaryOperator, word: bool, s: string, after: string)
    requires OperatorLevel(op) == 3 && SkipBlanks(s) == Symbol(op, word) + after && Follows(op, word, after)
    requires Consume(s, Symbol(op, word)) == Some(after)
    ensures ReadComparison(s) == Found(op, after)
  {
    var first := Symbol(op, word)[0];
    assert SkipBlanks(s)[0] == first;
    if first != '=' { ConsumeNot(s, "=="); }
    if first != 'e' { ConsumeNot(s, "eq"); }
    if first != '!' { ConsumeNot(s, "!="); }
    if first != 'n' { ConsumeNot(s, "ne"); }
    if first != '<' { ConsumeNot(s, "<="); ConsumeNot(s, "<"); }
    if first != '>' { ConsumeNot(s, ">="); ConsumeNot(s, ">"); }
    if op.Less? || op.Greater? {
      assert after != [] ==> SkipBlanks(s)[1] == after[0];
      assert Consume(s, "<=").None? && Consume(s, ">=").None?;
    }
    hide Consume;
  }

  /** A closing mark ends every phrase. */
  lemma CloserStops(c: char, more: string)
    requires c in {')', '}', ','}
    ensures Stops(1, [c] + more) && SkipBlanks([c] + more) == [c] + more
  {
  }

  lemma EndStops()
    ensures Stops(1, [])
  {
  }
}

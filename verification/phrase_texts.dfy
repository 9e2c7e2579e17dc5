/** Every text the parser accepts is the text of a phrase: one lemma for each function of the
    grammar, giving the phrase that its text was written as. */
module PhraseTexts {
  import opened Strings
  import opened Expression
  import opened Phrase
  import opened PhraseReading
  import opened PhraseTheorem
  import opened RoundTrip

  /** The blanks a text begins with. */
  function Gap(s: string): (g: string)
    ensures Blanks(g) && s == g + SkipBlanks(s)
  {
    if s != [] && IsBlank(s[0]) then
      assert s == [s[0]] + s[1..];
      [s[0]] + Gap(s[1..])
    else []
  }

  /** What is left after an operand: nothing that would go on with it. */
  ghost predicate Left(rest: string) { SkipBlanks(rest) == rest && PostfixEnds(rest) }

  /** The operand read is this phrase, and these blanks come after it. */
  ghost predicate ReadAs(p: Phrase, gap: string, k: nat, text: string, r: Parsed) {
    && r.Ok? && Left(r.rest) && Blanks(gap)
    && WellFormed(p) && Level(p) >= k && Tree(p) == r.node
    && text == Written(p, gap + r.rest) && Joins(p, gap + r.rest)
  }

  lemma {:induction false} OrText(s: string, d: nat) returns (p: Phrase, gap: string)
    requires ParseOr(s, d).Ok?
    ensures ReadAs(p, gap, 1, SkipBlanks(s), ParseOr(s, d))
    decreases |s|, 10
  {
    p, gap := BinaryText(1, s, d + 1);
  }

  lemma {:induction false} BinaryText(k: nat, s: string, d: nat) returns (p: Phrase, gap: string)
    requires 1 <= k <= 5 && ParseBinary(k, s, d).Ok?
    ensures ReadAs(p, gap, k, SkipBlanks(s), ParseBinary(k, s, d))
    decreases |s|, 9 - k
  {
    hide BinaryLoop, ParseUnary;
    if k == 5 {
      p, gap := UnaryText(s, d);
    } else {
      var left := ParseBinary(k + 1, s, d);
      var l, before := BinaryText(k + 1, s, d);
      p, gap := LoopText(k, l, before, SkipBlanks(s), left, d);
    }
  }

  /** The operands of a level from here on, those before being one phrase. */
  lemma {:induction false} LoopText(k: nat, l: Phrase, before: string, text: string, left: Parsed, d: nat)
    returns (p: Phrase, gap: string)
    requires 1 <= k <= 4 && ReadAs(l, before, k, text, left) && BinaryLoop(k, left.node, left.rest, d).Ok?
    ensures ReadAs(p, gap, k, text, BinaryLoop(k, left.node, left.rest, d))
    decreases |left.rest|, 0
  {
    hide ReadOperator, ParseBinary, WellFormed, Written, Joins, Tree;
    var found := ReadOperator(k, left.rest);
    if found.NotFound? {
      p, gap := l, before;
    } else {
      var word := OperatorText(k, left.rest);
      var right := ParseBinary(k + 1, found.after, d);
      var r, end := BinaryText(k + 1, found.after, d);
      var built := Parsed.Ok(MakeBinary(found.op, left.node, right.node), right.rest);
      var q := OperateText(k, l, before, text, left, found.op, word, found.after, r, end, right);
      p, gap := LoopText(k, q, end, text, built, d);
    }
  }

  lemma TokenHere(s: string, token: string, after: string)
    requires token != [] && Consume(s, token) == Some(after)
    ensures SkipBlanks(s) == token + after && (IsNameStart(token[0]) ==> after == [] || !IsNameChar(after[0]))
  {
  }

  /** The operator a text begins with, and how it is spelled. */
  lemma OperatorText(k: nat, s: string) returns (word: bool)
    requires 1 <= k <= 4 && SkipBlanks(s) == s && ReadOperator(k, s).Found?
    ensures var found := ReadOperator(k, s);
            && OperatorLevel(found.op) == k && s == Symbol(found.op, word) + found.after
            && (word ==> found.after == [] || !IsNameChar(found.after[0]))
  {
    hide ReadComparison, SkipBlanks, Consume;
    if k == 1 {
      word := EitherText(s, Or);
    } else if k == 2 {
      word := EitherText(s, And);
    } else if k == 3 {
      word := ComparisonText(s);
    } else {
      word := false;
      TokenHere(s, Symbol(ReadOperator(k, s).op, false), ReadOperator(k, s).after);
    }
  }

  lemma EitherText(s: string, op: BinaryOperator) returns (word: bool)
    requires op.Or? || op.And? || op.Equal? || op.NotEqual?
    requires SkipBlanks(s) == s && Either(s, Symbol(op, false), Symbol(op, true)).Some?
    ensures var after := Either(s, Symbol(op, false), Symbol(op, true)).value;
            s == Symbol(op, word) + after && (word ==> after == [] || !IsNameChar(after[0]))
  {
    hide SkipBlanks, Consume;
    word := Consume(s, Symbol(op, false)).None?;
    TokenHere(s, Symbol(op, word), Either(s, Symbol(op, false), Symbol(op, true)).value);
  }

  lemma ComparisonText(s: string) returns (word: bool)
    requires SkipBlanks(s) == s && ReadComparison(s).Found?
    ensures var found := ReadComparison(s);
            && OperatorLevel(found.op) == 3 && s == Symbol(found.op, word) + found.after
            && (word ==> found.after == [] || !IsNameChar(found.after[0]))
  {
    hide SkipBlanks, Consume, Either;
    var found := ReadComparison(s);
    if found.op.Equal? || found.op.NotEqual? {
      word := EitherText(s, found.op);
    } else {
      word := false;
      TokenHere(s, Symbol(found.op, false), found.after);
    }
  }

  lemma OperateText(k: nat, l: Phrase, before: string, text: string, left: Parsed, op: BinaryOperator, word: bool,
                    after: string, r: Phrase, end: string, right: Parsed) returns (q: Phrase)
    requires 1 <= k <= 4 && OperatorLevel(op) == k
    requires ReadAs(l, before, k, text, left) && ReadAs(r, end, k + 1, SkipBlanks(after), right)
    requires left.rest == Symbol(op, word) + after && (word ==> after == [] || !IsNameChar(after[0]))
    ensures ReadAs(q, end, k, text, Parsed.Ok(MakeBinary(op, left.node, right.node), right.rest))
  {
    hide PostfixEnds, Joins, WellFormed, Written, Tree, IsRun, Dangles, EndsWithName;
    q := Operate(op, word, l, r, before, Gap(after));
    OperateWell(op, word, l, r, before, after, end + right.rest);
    OperateWritten(op, word, l, r, before, after, end + right.rest);
  }

  lemma OperateWritten(op: BinaryOperator, word: bool, l: Phrase, r: Phrase, before: string, after: string, rest: string)
    requires SkipBlanks(after) == Written(r, rest)
    ensures var q := Operate(op, word, l, r, before, Gap(after));
            && Written(q, rest) == Written(l, before + (Symbol(op, word) + after)) && Tree(q) == MakeBinary(op, Tree(l), Tree(r))
            && Level(q) == OperatorLevel(op)
  {
  }

  lemma OperateWell(op: BinaryOperator, word: bool, l: Phrase, r: Phrase, before: string, after: string, rest: string)
    requires WellFormed(l) && Level(l) >= OperatorLevel(op) && WellFormed(r) && Level(r) > OperatorLevel(op)
    requires Blanks(before) && SkipBlanks(after) == Written(r, rest) && Joins(r, rest)
    requires var t := Symbol(op, word) + after; Joins(l, before + t) && PostfixEnds(t)
    requires word ==> after == [] || !IsNameChar(after[0])
    ensures var q := Operate(op, word, l, r, before, Gap(after)); WellFormed(q) && Joins(q, rest)
  {
    LeftApart(op, word, l, before, after);
    RightApart(word, r, after, rest);
    if op.Less? && Gap(after) == "" { LessJoins(word, r, after, rest); }
    hide Written, WellFormed, PostfixEnds, IsRun, Joins, OpensWithName, Level, EndsWithName, Dangles, NameLength, Symbol,
      SkipBlanks, IsNameChar, Blanks;
    OperateGrammar(op, word, l, r, before, Gap(after));
    OperateJoins(op, word, l, r, before, Gap(after), rest);
  }

  lemma OperateGrammar(op: BinaryOperator, word: bool, l: Phrase, r: Phrase, before: string, gap: string)
    requires WellFormed(l) && Level(l) >= OperatorLevel(op) && WellFormed(r) && Level(r) > OperatorLevel(op)
    requires Blanks(before) && Blanks(gap) && (word && gap == "" ==> !OpensWithName(r))
    requires before == "" && IsNameChar(Symbol(op, word)[0]) ==> !EndsWithName(l)
    requires before == "" && (op.Greater? || op.GreaterOrEqual?) ==> !Dangles(l)
    ensures WellFormed(Operate(op, word, l, r, before, gap))
  {
    hide Level, OpensWithName, EndsWithName, Dangles;
  }

  lemma OperateJoins(op: BinaryOperator, word: bool, l: Phrase, r: Phrase, before: string, gap: string, rest: string)
    requires Joins(r, rest) && (op.Less? && gap == "" && IsRun(r) ==> !Starts(rest[NameLength(rest)..], '>'))
    ensures Joins(Operate(op, word, l, r, before, gap), rest)
  {
    hide NameLength, IsRun;
  }

  /** An operator with no blank before it does not go on with what is left of it. */
  lemma LeftApart(op: BinaryOperator, word: bool, l: Phrase, before: string, after: string)
    requires Joins(l, before + (Symbol(op, word) + after))
    ensures before == "" && IsNameChar(Symbol(op, word)[0]) ==> !EndsWithName(l)
    ensures before == "" && (op.Greater? || op.GreaterOrEqual?) ==> !Dangles(l)
  {
    hide EndsWithName, EndsWithNumber, Dangles;
    var t := Symbol(op, word) + after;
    assert t[0] == Symbol(op, word)[0];
    if before == "" { assert before + t == t; }
  }

  /** A word with no blank behind it does not go on with what is right of it. */
  lemma RightApart(word: bool, r: Phrase, after: string, rest: string)
    requires WellFormed(r) && SkipBlanks(after) == Written(r, rest)
    requires word ==> after == [] || !IsNameChar(after[0])
    ensures word && Gap(after) == "" ==> !OpensWithName(r)
  {
    FirstChar(r, rest);
    hide WellFormed, Written, OpensWithName;
    if Gap(after) == "" { assert after == SkipBlanks(after); }
  }

  /** What is right of `<` with no blank between is no name that `>` closes. */
  lemma LessJoins(word: bool, r: Phrase, after: string, rest: string)
    requires WellFormed(r) && Level(r) >= 4 && after == Written(r, rest) && PostfixEnds(Symbol(Less, word) + after)
    ensures IsRun(r) ==> !Starts(rest[NameLength(rest)..], '>')
  {
    hide WellFormed, IsRun, Written;
    assert ("<" + after)[1..] == after && SkipBlanks("<" + after) == "<" + after;
    FirstRun(r, rest);
    AngleMeans(after);
  }

  lemma {:induction false} UnaryText(s: string, d: nat) returns (p: Phrase, gap: string)
    requires ParseUnary(s, d).Ok?
    ensures ReadAs(p, gap, 5, SkipBlanks(s), ParseUnary(s, d))
    decreases |s|, 3
  {
    hide ParsePostfix, Either, WellFormed, Written, Joins, Tree;
    var operand := Either(s, "!", "not");
    if operand.None? {
      p, gap := PostfixText(s, d + 1);
    } else {
      var inner := ParseUnary(operand.value, d + 1);
      var q;
      q, gap := UnaryText(operand.value, d + 1);
      p := NegateText(s, q, gap, operand.value, inner);
    }
  }

  lemma NegateText(s: string, q: Phrase, gap: string, after: string, inner: Parsed) returns (p: Phrase)
    requires Either(s, "!", "not") == Some(after) && ReadAs(q, gap, 5, SkipBlanks(after), inner)
    ensures ReadAs(p, gap, 5, SkipBlanks(s), Parsed.Ok(MakeNot(inner.node), inner.rest))
  {
    hide PostfixEnds, Either, WellFormed, Written, Joins, Tree, Level;
    var word := NegationText(s, after);
    NegateWell(word, q, after, gap + inner.rest);
    p := Negate(word, q, Gap(after));
  }

  /** The negation sign a text begins with, and how it is spelled. */
  lemma NegationText(s: string, after: string) returns (word: bool)
    requires Either(s, "!", "not") == Some(after)
    ensures SkipBlanks(s) == (if word then "not" else "!") + after && (word ==> after == [] || !IsNameChar(after[0]))
  {
    hide Consume, SkipBlanks;
    word := Consume(s, "!").None?;
    TokenHere(s, if word then "not" else "!", after);
  }

  lemma NegateWell(word: bool, q: Phrase, after: string, rest: string)
    requires WellFormed(q) && Level(q) >= 5 && SkipBlanks(after) == Written(q, rest) && Joins(q, rest)
    requires word ==> after == [] || !IsNameChar(after[0])
    ensures var p := Negate(word, q, Gap(after));
            && WellFormed(p) && Level(p) == 5 && Tree(p) == MakeNot(Tree(q)) && Joins(p, rest)
            && Written(p, rest) == (if word then "not" else "!") + after
  {
    FirstChar(q, rest);
    hide SkipBlanks, NameLength;
    if Gap(after) == "" { assert after == Written(q, rest); }
  }

  lemma {:induction false} PostfixText(s: string, d: nat) returns (p: Phrase, gap: string)
    requires ParsePostfix(s, d).Ok? && Either(s, "!", "not").None?
    ensures ReadAs(p, gap, 6, SkipBlanks(s), ParsePostfix(s, d))
    decreases |s|, 2
  {
    hide ParsePrimary, PostfixLoop, Either, WellFormed, Written, Joins, Tree;
    var target := ParsePrimary(s, d);
    var t := PrimaryText(s, d);
    p, gap := TailText(t, target.rest, d, SkipBlanks(s));
  }

  /** No digit right behind a point right behind an integer. */
  predicate DotFits(p: Phrase, rest: string) { p.Integer? && |rest| > 1 && rest[0] == '.' ==> !IsDigit(rest[1]) }

  ghost predicate Target(t: Phrase, s: string, text: string) {
    WellFormed(t) && Level(t) >= 6 && text == Written(t, s) && Joins(t, s) && DotFits(t, s)
  }

  /** The members and calls that come after a value. */
  lemma {:induction false} TailText(t: Phrase, s: string, d: nat, text: string) returns (p: Phrase, gap: string)
    requires Target(t, s, text) && PostfixLoop(Tree(t), s, d).Ok?
    ensures ReadAs(p, gap, 6, text, PostfixLoop(Tree(t), s, d))
    decreases |s|, 1
  {
    hide DotTail, AngleTail, CallTail, Target, Tree;
    var u := SkipBlanks(s);
    if Starts(u, '.') {
      p, gap := DotText(t, s, d, text);
    } else if Starts(u, '<') && AngleLength(u[1..]) > 0 {
      p, gap := AngleText(t, s, d, text);
    } else if Starts(u, '(') {
      p, gap := CallText(t, s, d, text);
    } else {
      p, gap := t, Gap(s);
      NoTail(t, s, d, text);
    }
  }

  lemma NoTail(t: Phrase, s: string, d: nat, text: string)
    requires Target(t, s, text) && PostfixEnds(s)
    ensures ReadAs(t, Gap(s), 6, text, Parsed.Ok(Tree(t), SkipBlanks(s)))
  {
    SkipTwice(s);
    hide Written, WellFormed, Joins, Tree;
  }

  lemma {:induction false} DotText(t: Phrase, s: string, d: nat, text: string) returns (p: Phrase, gap: string)
    requires Target(t, s, text) && Starts(SkipBlanks(s), '.') && PostfixLoop(Tree(t), s, d).Ok?
    ensures ReadAs(p, gap, 6, text, PostfixLoop(Tree(t), s, d))
    decreases |s|, 0
  {
    hide Target, Tree, ReadAs;
    var u := SkipBlanks(s)[1..];
    var n := NameLength(u);
    assert PostfixLoop(Tree(t), s, d) == DotTail(Tree(t), u, d);
    var q := Dot(t, u[..n], Gap(s));
    DotTarget(t, s, text);
    DotGoesOn(Tree(t), u, d);
    p, gap := TailText(q, u[n..], d, text);
  }

  lemma DotTarget(t: Phrase, s: string, text: string)
    requires Target(t, s, text) && Starts(SkipBlanks(s), '.') && NameLength(SkipBlanks(s)[1..]) > 0
    ensures var u := SkipBlanks(s)[1..];
            var n := NameLength(u);
            var q := Dot(t, u[..n], Gap(s));
            Target(q, u[n..], text) && Tree(q) == MakeMember(Tree(t), u[..n])
  {
    var u := SkipBlanks(s)[1..];
    var n := NameLength(u);
    var q := Dot(t, u[..n], Gap(s));
    NameMaximal(u);
    assert SkipBlanks(s) == "." + (u[..n] + u[n..]);
    if Gap(s) == "" { assert s == SkipBlanks(s); }
  }

  /** A run of name characters goes as far as it can. */
  lemma NameMaximal(u: string)
    ensures var n := NameLength(u);
            && u == u[..n] + u[n..] && (n > 0 ==> IsNameText(u[..n])) && (u[n..] == [] || !IsNameChar(u[n..][0]))
  {
    NamesAhead(u);
    hide NameLength, IsNameChar;
  }

  lemma {:induction false} NamesAhead(u: string)
    ensures var n := NameLength(u); (forall i | 0 <= i < n :: IsNameChar(u[i])) && (n < |u| ==> !IsNameChar(u[n]))
  {
    if u != [] && IsNameChar(u[0]) {
      NamesAhead(u[1..]);
      hide IsNameChar;
      forall i | 0 < i < NameLength(u) ensures IsNameChar(u[i]) { assert u[i] == u[1..][i - 1]; }
    }
  }

  lemma DigitMaximal(u: string)
    ensures var n := DigitLength(u);
            && u == u[..n] + u[n..] && (n > 0 ==> IsDigits(u[..n])) && (u[n..] == [] || !IsDigit(u[n..][0]))
  {
    DigitsAhead(u);
    hide DigitLength, IsDigit;
  }

  lemma {:induction false} DigitsAhead(u: string)
    ensures var n := DigitLength(u); (forall i | 0 <= i < n :: IsDigit(u[i])) && (n < |u| ==> !IsDigit(u[n]))
  {
    if u != [] && IsDigit(u[0]) {
      DigitsAhead(u[1..]);
      hide IsDigit;
      forall i | 0 < i < DigitLength(u) ensures IsDigit(u[i]) { assert u[i] == u[1..][i - 1]; }
    }
  }

  /** A call right behind a member is what any call behind it is. */
  lemma DotGoesOn(target: Node, u: string, d: nat)
    requires DotTail(target, u, d).Ok?
    ensures var n := NameLength(u);
            n > 0 && DotTail(target, u, d) == PostfixLoop(MakeMember(target, u[..n]), u[n..], d)
  {
    hide CallTail;
    var rest := u[NameLength(u)..];
    assert Starts(rest, '(') ==> SkipBlanks(rest) == rest;
  }

  lemma {:induction false} AngleText(t: Phrase, s: string, d: nat, text: string) returns (p: Phrase, gap: string)
    requires Target(t, s, text) && PostfixLoop(Tree(t), s, d).Ok?
    requires var u := SkipBlanks(s); Starts(u, '<') && AngleLength(u[1..]) > 0
    ensures ReadAs(p, gap, 6, text, PostfixLoop(Tree(t), s, d))
    decreases |s|, 0
  {
    hide Target, Tree, ReadAs, AngleLength;
    var u := SkipBlanks(s)[1..];
    var n := AngleLength(u);
    assert PostfixLoop(Tree(t), s, d) == AngleTail(Tree(t), u, d);
    AngleTarget(t, s, text);
    p, gap := TailText(Angle(t, u[..n], Gap(s)), u[n + 1..], d, text);
  }

  lemma AngleTarget(t: Phrase, s: string, text: string)
    requires Target(t, s, text)
    requires var u := SkipBlanks(s); Starts(u, '<') && AngleLength(u[1..]) > 0
    ensures var u := SkipBlanks(s)[1..];
            var n := AngleLength(u);
            var q := Angle(t, u[..n], Gap(s));
            Target(q, u[n + 1..], text) && Tree(q) == MakeMember(Tree(t), u[..n])
  {
    var u := SkipBlanks(s)[1..];
    var n := AngleLength(u);
    var name, rest := u[..n], u[n + 1..];
    NameMaximal(u);
    CutAt(u, n);
    CutAt(SkipBlanks(s), 0);
    AngleWell(t, name, Gap(s), rest);
    assert Written(Angle(t, name, Gap(s)), rest) == text by {
      assert Written(Angle(t, name, Gap(s)), rest) == Written(t, Gap(s) + ("<" + (name + (">" + rest))));
    }
  }

  lemma Regroup<T>(a: seq<T>, b: seq<T>, c: seq<T>)
    ensures a + (b + c) == a + b + c
  {
  }

  lemma CutAt(u: string, n: nat)
    requires n < |u|
    ensures u == u[..n] + ([u[n]] + u[n + 1..])
    ensures n == 0 ==> u == [u[0]] + u[1..]
  {
  }

  lemma AngleWell(t: Phrase, name: string, gap: string, rest: string)
    requires WellFormed(t) && Level(t) >= 6 && IsNameText(name) && Blanks(gap)
    ensures var q := Angle(t, name, gap); WellFormed(q) && Tree(q) == MakeMember(Tree(t), name)
    ensures Joins(Angle(t, name, gap), rest)
  {
  }

  lemma {:induction false} CallText(t: Phrase, s: string, d: nat, text: string) returns (p: Phrase, gap: string)
    requires Target(t, s, text) && Starts(SkipBlanks(s), '(') && PostfixLoop(Tree(t), s, d).Ok?
    ensures ReadAs(p, gap, 6, text, PostfixLoop(Tree(t), s, d))
    decreases |s|, 0
  {
    hide Target, Tree, ReadAs, ParseArguments, ArgumentTrees, ArgumentsWritten, WellFormedArgument;
    var u := SkipBlanks(s);
    assert PostfixLoop(Tree(t), s, d) == CallTail(Tree(t), u, d);
    var arguments := ParseArguments(u[1..], d);
    var list, open := ArgumentsText(u[1..], d);
    CallTarget(t, s, text, list, open, arguments.tail);
    p, gap := TailText(Apply(t, list, Gap(s), open), arguments.tail, d, text);
  }

  lemma CallTarget(t: Phrase, s: string, text: string, list: seq<Argument>, open: string, tail: string)
    requires Target(t, s, text) && Starts(SkipBlanks(s), '(') && Blanks(open)
    requires SkipBlanks(s)[1..] == open + ArgumentsWritten(list, ")" + tail)
    requires forall i | 0 <= i < |list| :: WellFormedArgument(list[i])
    ensures var q := Apply(t, list, Gap(s), open);
            Target(q, tail, text) && Tree(q) == MakeCall(Tree(t), ArgumentTrees(list))
  {
    CutAt(SkipBlanks(s), 0);
    ApplyWell(t, list, Gap(s), open, tail);
    hide WellFormed, Tree, Joins, Written, ArgumentsWritten, WellFormedArgument, SkipBlanks;
    assert s == Gap(s) + ("(" + (open + ArgumentsWritten(list, ")" + tail)));
  }

  lemma ApplyWell(t: Phrase, list: seq<Argument>, gap: string, open: string, rest: string)
    requires WellFormed(t) && Level(t) >= 6 && Blanks(gap) && Blanks(open)
    requires forall i | 0 <= i < |list| :: WellFormedArgument(list[i])
    ensures var q := Apply(t, list, gap, open); WellFormed(q) && Tree(q) == MakeCall(Tree(t), ArgumentTrees(list))
    ensures Joins(Apply(t, list, gap, open), rest)
    ensures Written(Apply(t, list, gap, open), rest)
         == Written(t, gap + ("(" + (open + ArgumentsWritten(list, ")" + rest))))
  {
    hide WellFormedArgument;
  }

  // ------------------------------------------------------------- arguments

  lemma {:induction false} ArgumentsText(s: string, d: nat) returns (list: seq<Argument>, open: string)
    requires ParseArguments(s, d).OkList?
    ensures Blanks(open) && s == open + ArgumentsWritten(list, ")" + ParseArguments(s, d).tail)
    ensures (forall i | 0 <= i < |list| :: WellFormedArgument(list[i])) && ArgumentTrees(list) == ParseArguments(s, d).nodes
    decreases |s|, 13
  {
    hide ArgumentLoop, WellFormedArgument;
    open := Gap(s);
    var u := SkipBlanks(s);
    if u[0] == ')' {
      list := [];
      assert u == ")" + u[1..];
    } else {
      list := ArgumentLoopText([], u, d);
      SkipTwice(s);
      assert [] + ArgumentTrees(list) == ArgumentTrees(list);
    }
  }

  lemma {:induction false} ArgumentLoopText(sofar: seq<Node>, s: string, d: nat) returns (list: seq<Argument>)
    requires ArgumentLoop(sofar, s, d).OkList?
    ensures list != [] && SkipBlanks(s) == ArgumentsWritten(list, ")" + ArgumentLoop(sofar, s, d).tail)
    ensures (forall i | 0 <= i < |list| :: WellFormedArgument(list[i]))
    ensures ArgumentLoop(sofar, s, d).nodes == sofar + ArgumentTrees(list)
    decreases |s|, 12
  {
    hide ParseArgument, WellFormedArgument, ArgumentWritten, ArgumentTree, Consume;
    var argument := ParseArgument(s, d);
    var a := ArgumentText(s, d);
    var nodes := sofar + [argument.node];
    var comma, close := Consume(argument.rest, ","), Consume(argument.rest, ")");
    if comma.Some? {
      var others := ArgumentLoopText(nodes, comma.value, d);
      var tail := ArgumentLoop(sofar, s, d).tail;
      list := MoreArguments(a, others, s, argument.rest, comma.value, tail);
      Regroup(sofar, [argument.node], ArgumentTrees(others));
    } else {
      list := LastArgument(a, s, argument.rest, close.value);
    }
  }

  lemma MoreArguments(a: Argument, others: seq<Argument>, s: string, rest: string, after: string, tail: string)
    returns (list: seq<Argument>)
    requires WellFormedArgument(a) && SkipBlanks(s) == ArgumentWritten(a, a.end + SkipBlanks(rest))
    requires Consume(rest, ",") == Some(after) && others != [] && SkipBlanks(after) == ArgumentsWritten(others, ")" + tail)
    requires forall i | 0 <= i < |others| :: WellFormedArgument(others[i])
    ensures list != [] && SkipBlanks(s) == ArgumentsWritten(list, ")" + tail)
    ensures (forall i | 0 <= i < |list| :: WellFormedArgument(list[i]))
    ensures ArgumentTrees(list) == [ArgumentTree(a)] + ArgumentTrees(others)
  {
    var b := a.(next := Gap(after));
    list := [b] + others;
    SameArgument(a, Gap(after), a.end + SkipBlanks(rest));
    assert list[1..] == others && list[0] == b;
    TokenHere(rest, ",", after);
    hide WellFormedArgument, ArgumentWritten, ArgumentTree, ArgumentsWritten, Written, Consume;
    ArgumentsBegin(b, others, ")" + tail);
  }

  lemma ArgumentsBegin(a: Argument, others: seq<Argument>, rest: string)
    ensures ArgumentsWritten([a] + others, rest)
         == ArgumentWritten(a, a.end + if others == [] then rest else "," + (a.next + ArgumentsWritten(others, rest)))
  {
    assert ([a] + others)[1..] == others;
    hide ArgumentWritten;
  }

  /** The blanks after the comma that follows an argument are no part of it. */
  lemma SameArgument(a: Argument, next: string, rest: string)
    requires WellFormedArgument(a) && Blanks(next)
    ensures var b := a.(next := next);
            && WellFormedArgument(b) && ArgumentTree(b) == ArgumentTree(a) && b.end == a.end && b.next == next
            && ArgumentWritten(b, rest) == ArgumentWritten(a, rest)
  {
  }

  lemma LastArgument(a: Argument, s: string, rest: string, tail: string) returns (list: seq<Argument>)
    requires WellFormedArgument(a) && SkipBlanks(s) == ArgumentWritten(a, a.end + SkipBlanks(rest))
    requires Consume(rest, ")") == Some(tail)
    ensures list != [] && SkipBlanks(s) == ArgumentsWritten(list, ")" + tail)
    ensures (forall i | 0 <= i < |list| :: WellFormedArgument(list[i])) && ArgumentTrees(list) == [ArgumentTree(a)]
  {
    list := [a];
    hide WellFormedArgument, ArgumentWritten, ArgumentTree, ArgumentsWritten;
    assert SkipBlanks(rest) == ")" + tail;
    assert [a] + [] == [a];
    ArgumentsBegin(a, [], ")" + tail);
    OneTree(a);
  }

  lemma OneTree(a: Argument)
    ensures ArgumentTrees([a]) == [ArgumentTree(a)]
  {
    assert [a][1..] == [];
    hide ArgumentTree;
  }

  lemma {:induction false} ArgumentText(s: string, d: nat) returns (a: Argument)
    requires ParseArgument(s, d).Ok?
    ensures WellFormedArgument(a) && ArgumentTree(a) == ParseArgument(s, d).node
    ensures SkipBlanks(s) == ArgumentWritten(a, a.end + SkipBlanks(ParseArgument(s, d).rest))
    decreases |s|, 11
  {
    hide ParseOr, LabelledLiteral, LabelledValue, WellFormed, Written, Tree;
    var t := SkipBlanks(s);
    var rest := ParseArgument(s, d).rest;
    if !Starts(t, ':') {
      SkipTwice(s);
      var p, gap := OrText(t, d);
      a := Positional(p, gap);
    } else {
      var w := t[1..];
      var n := NameLength(w);
      NameMaximal(w);
      var key, u := w[..n], w[n..];
      assert t == ":" + (key + u);
      if Starts(u, '<') {
        a := LabelledLiteralText(key, u);
      } else if Starts(u, '(') {
        a := LabelledValueText(key, u, d);
      } else {
        a := Bare(key, Gap(u));
      }
    }
  }

  lemma LabelledLiteralText(key: string, u: string) returns (a: Argument)
    requires IsNameText(key) && Starts(u, '<') && LabelledLiteral(key, u).Ok?
    ensures WellFormedArgument(a) && ArgumentTree(a) == LabelledLiteral(key, u).node
    ensures ArgumentWritten(a, a.end + SkipBlanks(LabelledLiteral(key, u).rest)) == ":" + (key + u)
  {
    var closing := Find(u, '>');
    FindsFirst(u, '>');
    hide Find, SkipBlanks;
    var text, rest := u[1..closing], u[closing + 1..];
    a := LabelledText(key, text, Gap(rest));
    Closed(u, closing);
    assert a.end + SkipBlanks(rest) == rest;
  }

  lemma Closed(u: string, closing: nat)
    requires 0 < closing < |u| && u[0] == '<' && u[closing] == '>'
    ensures u == "<" + (u[1..closing] + (">" + u[closing + 1..]))
  {
  }

  lemma {:induction false} FindsFirst(s: string, c: char)
    ensures var i := Find(s, c); (forall j | 0 <= j < i :: s[j] != c) && (i < |s| ==> s[i] == c)
  {
    if s != [] && s[0] != c { FindsFirst(s[1..], c); }
  }

  lemma {:induction false} LabelledValueText(key: string, u: string, d: nat) returns (a: Argument)
    requires IsNameText(key) && Starts(u, '(') && LabelledValue(key, u[1..], d).Ok?
    ensures WellFormedArgument(a) && ArgumentTree(a) == LabelledValue(key, u[1..], d).node
    ensures ArgumentWritten(a, a.end + SkipBlanks(LabelledValue(key, u[1..], d).rest)) == ":" + (key + u)
    decreases |u|, 11
  {
    hide ParseOr, WellFormed, Written, Tree;
    var value := ParseOr(u[1..], d);
    var p, close := OrText(u[1..], d);
    var rest := Consume(value.rest, ")").value;
    a := Labelled(key, p, Gap(u[1..]), close, Gap(rest));
    assert value.rest == ")" + rest;
    assert u == "(" + (Gap(u[1..]) + SkipBlanks(u[1..]));
  }

  // ------------------------------------------------------------- values

  /** A value, up to what is behind it. */
  ghost predicate ValueAs(p: Phrase, text: string, r: Parsed) {
    && r.Ok? && WellFormed(p) && Level(p) == 7 && Tree(p) == r.node
    && text == Written(p, r.rest) && Joins(p, r.rest) && DotFits(p, r.rest)
  }

  lemma {:induction false} PrimaryText(s: string, d: nat) returns (p: Phrase)
    requires ParsePrimary(s, d).Ok? && Either(s, "!", "not").None?
    ensures ValueAs(p, SkipBlanks(s), ParsePrimary(s, d))
    decreases |s|, 1
  {
    hide ParseOr, MapLoop, ParseBlock, ParseString, ParseNumber, LooksLikeMap, Either, ValueAs, WordNode;
    var t := SkipBlanks(s);
    if t[0] == '(' {
      p := ParensText(t, d);
    } else if t[0] == '{' {
      if LooksLikeMap(t[1..]) { p := MapText(t, d); } else { p := BlockText(t, d); }
    } else if t[0] == '"' || t[0] == '\'' {
      p := StringText(t);
    } else if IsDigit(t[0]) {
      p := NumberText(t);
    } else if t[0] == '$' {
      p := LocalText(t);
    } else {
      p := WordText(s);
    }
  }

  lemma {:induction false} ParensText(t: string, d: nat) returns (p: Phrase)
    requires t != [] && t[0] == '(' && ParseOr(t[1..], d).Ok? && Consume(ParseOr(t[1..], d).rest, ")").Some?
    ensures ValueAs(p, t, Parsed.Ok(ParseOr(t[1..], d).node, Consume(ParseOr(t[1..], d).rest, ")").value))
    decreases |t|, 0
  {
    hide ParseOr, Tree, Joins;
    var inner := ParseOr(t[1..], d);
    var q, close := OrText(t[1..], d);
    var rest := Consume(inner.rest, ")").value;
    p := Parens(q, Gap(t[1..]), close);
    assert inner.rest == ")" + rest && t == "(" + (Gap(t[1..]) + SkipBlanks(t[1..]));
    GroupJoins(p, rest);
    GroupTree(p);
  }

  lemma GroupJoins(p: Phrase, rest: string)
    requires p.Parens? || p.Braces? || p.MapLiteral? || p.Quoted?
    ensures Joins(p, rest) && DotFits(p, rest)
  {
  }

  lemma GroupTree(p: Phrase)
    ensures p.Parens? ==> Tree(p) == Tree(p.inner)
    ensures p.Braces? ==> Tree(p) == MakeBlock(Tree(p.inner))
  {
  }

  lemma {:induction false} BlockText(t: string, d: nat) returns (p: Phrase)
    requires t != [] && t[0] == '{' && ParseBlock(t[1..], d).Ok?
    ensures ValueAs(p, t, ParseBlock(t[1..], d))
    decreases |t|, 0
  {
    hide ParseOr, Tree, Joins;
    var inner := ParseOr(t[1..], d);
    var q, close := OrText(t[1..], d);
    var rest := Consume(inner.rest, "}").value;
    p := Braces(q, Gap(t[1..]), close);
    assert inner.rest == "}" + rest && t == "{" + (Gap(t[1..]) + SkipBlanks(t[1..]));
    GroupJoins(p, rest);
    GroupTree(p);
  }

  lemma StringText(t: string) returns (p: Phrase)
    requires t != [] && (t[0] == '"' || t[0] == '\'') && ParseString(t[0], [], t[1..]).Ok?
    ensures ValueAs(p, t, ParseString(t[0], [], t[1..]))
  {
    var pieces := PiecesText(t[0], [], t[1..]);
    p := Quoted(t[0], pieces);
    assert t == [t[0]] + t[1..] && [] + PiecesValue(pieces) == PiecesValue(pieces);
  }

  lemma {:induction false} PiecesText(quote: char, sofar: string, s: string) returns (pieces: seq<Piece>)
    requires ParseString(quote, sofar, s).Ok? && quote != '\\'
    ensures s == PiecesWritten(pieces, [quote] + ParseString(quote, sofar, s).rest)
    ensures ParseString(quote, sofar, s).node == LiteralString(sofar + PiecesValue(pieces))
    ensures PiecesPlain(quote, pieces)
    decreases |s|
  {
    if s[0] == quote {
      pieces := [];
      assert s == [quote] + s[1..] && sofar + [] == sofar;
    } else {
      var piece, next := FirstPiece(quote, sofar, s);
      hide ParseString;
      var others := PiecesText(quote, sofar + [piece.c], next);
      pieces := [piece] + others;
      PiecesBegin(piece, others, [quote] + ParseString(quote, sofar, s).rest);
      Regroup(sofar, [piece.c], PiecesValue(others));
      hide PiecesWritten, PiecesValue;
    }
  }

  lemma FirstPiece(quote: char, sofar: string, s: string) returns (piece: Piece, next: string)
    requires ParseString(quote, sofar, s).Ok? && s[0] != quote && quote != '\\'
    ensures ParseString(quote, sofar, s) == ParseString(quote, sofar + [piece.c], next) && |next| < |s|
    ensures s == if piece.escaped then ['\\'] + ([piece.c] + next) else [piece.c] + next
    ensures piece.escaped || (piece.c != quote && piece.c != '\\')
  {
    var escaped := s[0] == '\\' && |s| > 1;
    piece, next := if escaped then Piece(true, s[1]) else Piece(false, s[0]), if escaped then s[2..] else s[1..];
  }

  predicate PiecesPlain(quote: char, pieces: seq<Piece>) {
    forall i | 0 <= i < |pieces| :: pieces[i].escaped || (pieces[i].c != quote && pieces[i].c != '\\')
  }

  lemma PiecesBegin(piece: Piece, others: seq<Piece>, rest: string)
    ensures var more := [piece.c] + PiecesWritten(others, rest);
            PiecesWritten([piece] + others, rest) == if piece.escaped then ['\\'] + more else more
    ensures PiecesValue([piece] + others) == [piece.c] + PiecesValue(others)
  {
    assert ([piece] + others)[1..] == others;
  }

  /** Whether a run of `n` digits has a point and another digit behind it. */
  predicate Pointed(t: string, n: nat) { n + 1 < |t| && t[n] == '.' && IsDigit(t[n + 1]) }

  lemma NumberText(t: string) returns (p: Phrase)
    requires t != [] && IsDigit(t[0])
    ensures ValueAs(p, t, ParseNumber(t))
  {
    hide ValueAs, ParseNumber;
    if Pointed(t, DigitLength(t)) { p := DecimalText(t); } else { p := IntegerText(t); }
  }

  lemma DecimalText(t: string) returns (p: Phrase)
    requires t != [] && IsDigit(t[0]) && Pointed(t, DigitLength(t))
    ensures ValueAs(p, t, ParseNumber(t))
  {
    var whole, fraction, rest := DecimalParsed(t);
    p := Decimal(whole, fraction);
    DecimalWell(whole, fraction, rest);
    hide ParseNumber, Written, WellFormed, Tree, Joins, IsDigits, IsDigit, DigitLength;
  }

  lemma DecimalWell(whole: string, fraction: string, rest: string)
    requires IsDigits(whole) && IsDigits(fraction) && (rest == [] || !IsDigit(rest[0]))
    ensures var p := Decimal(whole, fraction);
            && WellFormed(p) && Tree(p) == LiteralNumber(whole + ("." + fraction))
            && Written(p, rest) == whole + ("." + (fraction + rest)) && Joins(p, rest)
  {
  }

  lemma DecimalParsed(t: string) returns (whole: string, fraction: string, rest: string)
    requires t != [] && IsDigit(t[0]) && Pointed(t, DigitLength(t))
    ensures ParseNumber(t) == Ok(LiteralNumber(whole + ("." + fraction)), rest)
    ensures t == whole + ("." + (fraction + rest)) && IsDigits(whole) && IsDigits(fraction) && (rest == [] || !IsDigit(rest[0]))
  {
    var n := DigitLength(t);
    var more := t[n + 1..];
    var k := DigitLength(more);
    DigitMaximal(t);
    DigitMaximal(more);
    DecimalParts(t, n, k);
    assert k > 0;
    whole, fraction, rest := t[..n], more[..k], more[k..];
    hide DigitLength, IsDigits, IsDigit;
    DecimalNode(t);
  }

  lemma DecimalNode(t: string)
    requires t != [] && IsDigit(t[0]) && Pointed(t, DigitLength(t))
    ensures var n := DigitLength(t);
            var m := n + 1 + DigitLength(t[n + 1..]);
            ParseNumber(t) == Ok(LiteralNumber(t[..m]), t[m..])
  {
    hide IntegerOf, DecimalValue;
    assert Starts(t[DigitLength(t)..], '.');
    hide DigitLength;
  }

  lemma DecimalParts(t: string, n: nat, k: nat)
    requires Pointed(t, n) && n + 1 + k <= |t|
    ensures Starts(t[n..], '.')
    ensures var more := t[n + 1..];
            && t[..n + 1 + k] == t[..n] + ("." + more[..k]) && more[k..] == t[n + 1 + k..]
            && t == t[..n] + ("." + (more[..k] + more[k..]))
  {
  }

  lemma IntegerText(t: string) returns (p: Phrase)
    requires t != [] && IsDigit(t[0]) && !Pointed(t, DigitLength(t))
    ensures ValueAs(p, t, ParseNumber(t))
  {
    var n := DigitLength(t);
    DigitMaximal(t);
    IntegerParsed(t);
    hide DigitLength, DecimalValue, IntegerOf, ParseNumber;
    p := Integer(t[..n]);
    hide IsDigit;
    assert |t[n..]| > 1 ==> t[n..][0] == t[n] && t[n..][1] == t[n + 1];
  }

  lemma IntegerParsed(t: string)
    requires t != [] && IsDigit(t[0]) && !Pointed(t, DigitLength(t))
    ensures var n := DigitLength(t); ParseNumber(t) == Ok(LiteralInteger(IntegerOf(t[..n])), t[n..])
  {
    hide IntegerOf, DecimalValue, DigitLength;
  }

  lemma LocalText(t: string) returns (p: Phrase)
    requires t != [] && t[0] == '$' && NameLength(t[1..]) > 0
    ensures var n := NameLength(t[1..]); ValueAs(p, t, Parsed.Ok(Variable(t[1..][..n]), t[1..][n..]))
  {
    var w := t[1..];
    NameMaximal(w);
    hide NameLength, IsNameChar, IsNameText, SkipBlanks;
    p := LocalWord(w[..NameLength(w)]);
    assert t == "$" + (w[..NameLength(w)] + w[NameLength(w)..]);
  }

  lemma WordText(s: string) returns (p: Phrase)
    requires var t := SkipBlanks(s); t != [] && IsNameStart(t[0])
    requires Either(s, "!", "not").None?
    ensures var t := SkipBlanks(s);
            var n := NameLength(t);
            ValueAs(p, t, Parsed.Ok(WordNode(t[..n]), t[n..]))
  {
    var t := SkipBlanks(s);
    var n := NameLength(t);
    var word := t[..n];
    NameMaximal(t);
    NotWord(s);
    p := if word in BOOLEAN_WORDS then BooleanWord(word == "true" || word == "True", word[0] == 'T' || word[0] == 'F')
         else if word in NULL_WORDS then NullWord(word == "Nil") else NameWord(word);
    assert t == word + t[n..];
  }

  lemma NotWord(s: string)
    requires Either(s, "!", "not").None?
    ensures var t := SkipBlanks(s); t[..NameLength(t)] != "not"
  {
    if SkipBlanks(s)[..NameLength(SkipBlanks(s))] == "not" { ReadsNot(s); }
  }

  lemma ReadsNot(s: string)
    requires var t := SkipBlanks(s); t[..NameLength(t)] == "not"
    ensures Either(s, "!", "not").Some?
  {
    var t := SkipBlanks(s);
    NameMaximal(t);
    ConsumeHere(s, "not", t[3..]);
  }

  // ------------------------------------------------------------- maps

  lemma {:induction false} MapText(t: string, d: nat) returns (p: Phrase)
    requires t != [] && t[0] == '{' && LooksLikeMap(t[1..]) && MapLoop([], SkipBlanks(t[1..]), d).Ok?
    ensures ValueAs(p, t, MapLoop([], SkipBlanks(t[1..]), d))
    decreases |t|, 0
  {
    hide MapLoop, WellFormedEntry, EntriesWritten, EntryTrees;
    var s := SkipBlanks(t[1..]);
    SkipTwice(t[1..]);
    var entries, comma := EntriesText([], s, d);
    p := MapLiteral(entries, Gap(t[1..]), comma);
    assert t == "{" + (Gap(t[1..]) + s) && [] + EntryTrees(entries) == EntryTrees(entries);
    NoEntries(false, "}" + MapLoop([], s, d).rest);
    GroupJoins(p, MapLoop([], s, d).rest);
  }

  lemma NoEntries(comma: bool, rest: string)
    ensures EntriesWritten([], comma, rest) == rest
  {
  }

  lemma {:induction false} EntriesText(sofar: seq<Node>, s: string, d: nat) returns (entries: seq<Entry>, comma: bool)
    requires SkipBlanks(s) == s && MapLoop(sofar, s, d).Ok?
    ensures s == EntriesWritten(entries, comma, "}" + MapLoop(sofar, s, d).rest)
    ensures (forall i | 0 <= i < |entries| :: WellFormedEntry(entries[i]))
    ensures MapLoop(sofar, s, d).node == MakeMap(sofar + EntryTrees(entries))
    ensures if Starts(s, '}') then entries == [] && !comma
            else entries != [] && s != [] && entries[0].key != [] && entries[0].key[0] == s[0]
    decreases |s|, 11
  {
    hide ParseOr, WellFormed, Written, Tree, Consume, WellFormedEntry, EntriesWritten, CloseMap, Joins, PostfixEnds, EntryTrees;
    if s == [] || s[0] == '}' {
      entries, comma := [], false;
      ClosesMap(sofar, s);
      NoEntries(false, s);
      NoEntryTrees();
      assert sofar + [] == sofar;
    } else {
      var colon := Consume(s[NameLength(s)..], ":").value;
      var value := ParseOr(colon, d);
      var p, end := OrText(colon, d);
      var e := EntryText(s, colon, p, end, value.rest);
      var nodes := sofar + [MakeNamed(e.key, value.node)];
      var after := Consume(value.rest, ",");
      if after.None? {
        ClosesMap(nodes, value.rest);
        comma := false;
        entries := LastEntry(e, s, value.rest);
      } else {
        var others, trailing := EntriesText(nodes, SkipBlanks(after.value), d);
        entries, comma := MoreEntries(e, others, trailing, s, value.rest, after.value, MapLoop(sofar, s, d).rest);
        Regroup(sofar, [MakeNamed(e.key, value.node)], EntryTrees(others));
      }
    }
  }

  lemma LastEntry(e: Entry, s: string, rest: string) returns (entries: seq<Entry>)
    requires WellFormedEntry(e) && s == e.key + (e.gap + (":" + (e.after + Written(e.value, e.end + rest))))
    ensures entries != [] && s != [] && entries[0].key != [] && entries[0].key[0] == s[0]
    ensures s == EntriesWritten(entries, false, rest) && forall i | 0 <= i < |entries| :: WellFormedEntry(entries[i])
    ensures EntryTrees(entries) == [MakeNamed(e.key, Tree(e.value))]
  {
    hide Written, WellFormed, Tree, EntriesWritten, EntryTrees;
    entries := [e];
    assert [e] + [] == [e];
    EntriesBegin(e, [], false, rest);
    NoEntryTrees();
  }

  lemma NoEntryTrees()
    ensures EntryTrees([]) == []
  {
  }

  lemma ClosesMap(nodes: seq<Node>, s: string)
    requires CloseMap(nodes, s).Ok?
    ensures SkipBlanks(s) == "}" + CloseMap(nodes, s).rest && CloseMap(nodes, s).node == MakeMap(nodes)
  {
  }

  /** A key, its colon and its value, and what is behind them. */
  lemma EntryText(s: string, colon: string, p: Phrase, end: string, rest: string) returns (e: Entry)
    requires NameLength(s) > 0 && Consume(s[NameLength(s)..], ":") == Some(colon)
    requires WellFormed(p) && Blanks(end) && SkipBlanks(colon) == Written(p, end + rest)
    ensures WellFormedEntry(e) && e.key == s[..NameLength(s)] && e.value == p && e.end == end
    ensures s == e.key + (e.gap + (":" + (e.after + Written(p, end + rest))))
  {
    hide Written, WellFormed, SkipBlanks;
    var n := NameLength(s);
    NameMaximal(s);
    e := Entry(s[..n], p, Gap(s[n..]), Gap(colon), end);
    TokenHere(s[n..], ":", colon);
    assert s[n..] == e.gap + (":" + (e.after + Written(p, end + rest)));
  }

  lemma EntriesBegin(e: Entry, others: seq<Entry>, comma: bool, rest: string)
    ensures EntriesWritten([e] + others, comma, rest)
         == e.key + (e.gap + (":" + (e.after + Written(e.value, e.end + EntriesAfter(e.next, others, comma, rest)))))
    ensures EntryTrees([e] + others) == [MakeNamed(e.key, Tree(e.value))] + EntryTrees(others)
    ensures others == [] && !comma ==> EntriesAfter(e.next, others, comma, rest) == rest
    ensures others != [] || comma ==> EntriesAfter(e.next, others, comma, rest)
                                      == "," + (e.next + EntriesWritten(others, comma, rest))
  {
    assert ([e] + others)[1..] == others;
    hide Written, Tree;
  }

  lemma MoreEntries(e: Entry, others: seq<Entry>, trailing: bool, s: string, rest: string, after: string, tail: string)
    returns (entries: seq<Entry>, comma: bool)
    requires WellFormedEntry(e) && s == e.key + (e.gap + (":" + (e.after + Written(e.value, e.end + rest))))
    requires SkipBlanks(rest) == rest && Consume(rest, ",") == Some(after)
    requires SkipBlanks(after) == EntriesWritten(others, trailing, "}" + tail) && (others == [] ==> !trailing)
    requires forall i | 0 <= i < |others| :: WellFormedEntry(others[i])
    ensures entries != [] && s != [] && entries[0].key != [] && entries[0].key[0] == s[0]
    ensures s == EntriesWritten(entries, comma, "}" + tail) && forall i | 0 <= i < |entries| :: WellFormedEntry(entries[i])
    ensures EntryTrees(entries) == [MakeNamed(e.key, Tree(e.value))] + EntryTrees(others)
  {
    hide Written, WellFormed, Tree, EntriesWritten, EntryTrees;
    var f := e.(next := Gap(after));
    entries, comma := [f] + others, others == [] || trailing;
    assert rest == "," + after;
    NoEntries(true, "}" + tail);
    NoEntries(false, "}" + tail);
    EntriesBegin(f, others, comma, "}" + tail);
    assert WellFormedEntry(f);
  }

  // ------------------------------------------------------------- the whole grammar

  lemma {:induction false} TrimStartSolid(s: string)
    ensures TrimStart(s) == [] || !IsSpace(TrimStart(s)[0])
  {
    if s != [] && IsSpace(s[0]) { TrimStartSolid(s[1..]); }
  }

  lemma {:induction false} TrimEndSolid(s: string)
    ensures TrimEnd(s) == [] || EndsAs(true, TrimEnd(s))
  {
    if s != [] && IsSpace(s[|s| - 1]) { TrimEndSolid(s[..|s| - 1]); }
  }

  lemma TrimSolid(s: string)
    ensures SkipBlanks(Trim(s)) == Trim(s) && (Trim(s) == [] || EndsAs(true, Trim(s)))
  {
    TrimStartSolid(s);
    TrimEndSolid(TrimStart(s));
  }

  /** The source, its blanks at either end taken away, is written as this phrase. */
  ghost predicate SourceOf(source: string, p: Phrase) { WellFormed(p) && Text(p) == Trim(source) }

  lemma TextOfParsed(source: string) returns (p: Phrase)
    requires Parse(source).Ok?
    ensures SourceOf(source, p)
  {
    hide ParseOr, Trim, WellFormed, Written, Tree;
    var t := Trim(source);
    var gap;
    TrimSolid(source);
    p, gap := OrText(t, 0);
    assert ParseOr(t, 0).rest == [] && gap + [] == gap;
    if gap != "" { EndsPhrase(false, p, gap); }
  }

  /** The grammar is exact: a source is read as a tree exactly when it is written as a phrase
      that stands for it and fits the limits. */
  lemma ReadExactly(source: string, node: Node)
    ensures Parse(source) == Ok(node, []) <==> exists p :: SourceOf(source, p) && Tree(p) == node && Fits(p, 1)
  {
    hide Parse, WellFormed, Written, Tree, Fits;
    if Parse(source) == Ok(node, []) {
      var p := TextOfParsed(source);
      PhraseRead(source, p);
      assert SourceOf(source, p);
    }
    forall p | SourceOf(source, p) && Tree(p) == node && Fits(p, 1) ensures Parse(source) == Ok(node, []) {
      PhraseRead(source, p);
    }
  }

  /** No text is written as two phrases that stand for different trees and are read. */
  lemma Unambiguous(source: string, p: Phrase, q: Phrase)
    requires SourceOf(source, p) && SourceOf(source, q)
    ensures Fits(p, 1) <==> Fits(q, 1)
    ensures Fits(p, 1) ==> Tree(p) == Tree(q)
  {
    hide Parse, WellFormed, Written, Tree, Fits;
    PhraseRead(source, p);
    PhraseRead(source, q);
  }

  // ------------------------------------------------------------- single words

  /** A run of digits is the integer it spells, or zero when 64 bits do not hold it. */
  lemma IntegersRead(n: nat)
    ensures Parse(DigitsOf(n)) == Ok(LiteralInteger(if n <= 9223372036854775807 then n else 0), [])
  {
    hide Parse, DecimalValue, DigitsOf;
    DigitsValue(n);
    var p := Integer(DigitsOf(n));
    assert DigitsOf(n) + [] == DigitsOf(n);
    WordReads(p, DigitsOf(n));
  }

  lemma WordReads(p: Phrase, text: string)
    requires WellFormed(p) && (p.Integer? || p.NameWord? || p.LocalWord?) && text == Written(p, [])
    ensures Parse(text) == Ok(Tree(p), [])
  {
    hide Parse, IntegerOf;
    TrimKeeps(p);
    PhraseRead(text, p);
    assert Inner(p) == 0 && Need(p) == 1 && Tree(p).IsLeaf();
  }

  /** Any other word is a name, whatever it is but one of seven; and behind a `$`, any word is
      a local. */
  lemma NamesRead(name: string)
    requires IsNameText(name)
    ensures IsNameStart(name[0]) && name !in ["true", "True", "false", "False", "null", "Nil", "not"] ==>
              Parse(name) == Ok(Name(name), [])
    ensures Parse("$" + name) == Ok(Variable(name), [])
  {
    hide Parse;
    assert name + [] == name;
    if IsNameStart(name[0]) && name !in ["true", "True", "false", "False", "null", "Nil", "not"] { WordReads(NameWord(name), name); }
    WordReads(LocalWord(name), "$" + name);
  }
}

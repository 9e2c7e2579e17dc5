/** What the parser promises about whole expressions: it reads back every printed tree,
    and its limits fall exactly where the two counters say. */
module RoundTrip {
  import opened Strings
  import opened Expression
  import opened Phrase
  import opened PhraseReading
  import opened PhraseTheorem

  /** Whether a text ends in something `Trim` keeps, or in something it takes away. */
  predicate EndsAs(solid: bool, s: string) { s != [] && (solid <==> !IsSpace(s[|s| - 1])) }

  predicate BehindAs(solid: bool, rest: string) { if rest == [] then solid else EndsAs(solid, rest) }

  lemma {:induction false} EndsPhrase(solid: bool, p: Phrase, rest: string)
    requires WellFormed(p) && BehindAs(solid, rest)
    ensures EndsAs(solid, Written(p, rest))
    decreases p, 3
  {
    if p.Operate? {
      EndsPhrase(solid, p.right, rest);
      EndsPhrase(solid, p.left, Spaced(p.op, p.word, p.before, p.after, Written(p.right, rest)));
    } else if p.Negate? {
      EndsPhrase(solid, p.operand, rest);
    } else if Level(p) == 6 {
      EndsPostfix(solid, p, rest);
    } else if IsWord(p) || p.LocalWord? || p.Integer? || p.Decimal? {
      EndsWord(solid, p, rest);
    } else {
      EndsBracket(solid, p, rest);
    }
  }

  lemma {:induction false} EndsPostfix(solid: bool, p: Phrase, rest: string)
    requires WellFormed(p) && Level(p) == 6 && BehindAs(solid, rest)
    ensures EndsAs(solid, Written(p, rest))
    decreases p, 2
  {
    if p.Dot? {
      EndsPhrase(solid, p.target, p.gap + ("." + (p.member + rest)));
    } else if p.Angle? {
      EndsPhrase(solid, p.target, p.gap + ("<" + (p.member + (">" + rest))));
    } else {
      EndsArguments(solid, p.arguments, ")" + rest);
      EndsPhrase(solid, p.target, p.gap + ("(" + (p.open + ArgumentsWritten(p.arguments, ")" + rest))));
    }
  }

  lemma {:induction false} EndsBracket(solid: bool, p: Phrase, rest: string)
    requires WellFormed(p) && BehindAs(solid, rest)
    requires p.Parens? || p.Braces? || p.MapLiteral? || p.Quoted?
    ensures EndsAs(solid, Written(p, rest))
    decreases p, 2
  {
    BracketEnds(solid, p, rest);
    hide WellFormed, Written, EntriesWritten, PiecesWritten, EndsAs, BehindAs;
    if p.Parens? || p.Braces? {
      var first, last := if p.Parens? then "(" else "{", if p.Parens? then ")" else "}";
      var inner := Written(p.inner, p.close + (last + rest));
      EndsPhrase(solid, p.inner, p.close + (last + rest));
      EndsBehind(solid, p.open, inner);
      EndsBehind(solid, first, p.open + inner);
    } else if p.MapLiteral? {
      var entries := EntriesWritten(p.entries, p.comma && p.entries != [], "}" + rest);
      EndsEntries(solid, p.entries, p.comma && p.entries != [], "}" + rest);
      EndsBehind(solid, p.open, entries);
      EndsBehind(solid, "{", p.open + entries);
    } else {
      EndsPieces(solid, p.pieces, [p.quote] + rest);
      EndsBehind(solid, [p.quote], PiecesWritten(p.pieces, [p.quote] + rest));
    }
  }

  /** What a bracketed phrase holds, and the text it is written as. */
  lemma BracketEnds(solid: bool, p: Phrase, rest: string)
    requires WellFormed(p) && BehindAs(solid, rest)
    requires p.Parens? || p.Braces? || p.MapLiteral? || p.Quoted?
    ensures p.Parens? || p.Braces? ==>
              var first, last := if p.Parens? then "(" else "{", if p.Parens? then ")" else "}";
              && WellFormed(p.inner) && BehindAs(solid, p.close + (last + rest))
              && Written(p, rest) == first + (p.open + Written(p.inner, p.close + (last + rest)))
    ensures p.MapLiteral? ==>
              && EndsAs(solid, "}" + rest)
              && Written(p, rest) == "{" + (p.open + EntriesWritten(p.entries, p.comma && p.entries != [], "}" + rest))
              && forall i | 0 <= i < |p.entries| :: WellFormed(p.entries[i].value)
    ensures p.Quoted? ==>
              && EndsAs(solid, [p.quote] + rest)
              && Written(p, rest) == [p.quote] + PiecesWritten(p.pieces, [p.quote] + rest)
  {
    hide EntriesWritten, PiecesWritten;
  }

  lemma EndsWord(solid: bool, p: Phrase, rest: string)
    requires WellFormed(p) && BehindAs(solid, rest)
    requires IsWord(p) || p.LocalWord? || p.Integer? || p.Decimal?
    ensures EndsAs(solid, Written(p, rest))
  {
  }

  lemma {:induction false} EndsPieces(solid: bool, pieces: seq<Piece>, rest: string)
    requires EndsAs(solid, rest)
    ensures EndsAs(solid, PiecesWritten(pieces, rest))
  {
    if pieces != [] { EndsPieces(solid, pieces[1..], rest); }
  }

  lemma {:induction false} EndsEntries(solid: bool, entries: seq<Entry>, comma: bool, rest: string)
    requires EndsAs(solid, rest) && forall i | 0 <= i < |entries| :: WellFormed(entries[i].value)
    ensures EndsAs(solid, EntriesWritten(entries, comma, rest))
    decreases entries
  {
    hide WellFormed, Written, EndsAs;
    if entries != [] {
      var e := entries[0];
      EndsEntries(solid, entries[1..], comma, rest);
      EntriesBehind(solid, e.next, entries[1..], comma, rest);
      var more := EntriesAfter(e.next, entries[1..], comma, rest);
      EndsBehind(solid, e.end, more);
      EndsPhrase(solid, e.value, e.end + more);
      var value := Written(e.value, e.end + more);
      EndsBehind(solid, e.after, value);
      EndsBehind(solid, ":", e.after + value);
      EndsBehind(solid, e.gap, ":" + (e.after + value));
      EndsBehind(solid, e.key, e.gap + (":" + (e.after + value)));
    }
  }

  lemma EntriesBehind(solid: bool, next: string, entries: seq<Entry>, comma: bool, rest: string)
    requires EndsAs(solid, rest) && EndsAs(solid, EntriesWritten(entries, comma, rest))
    ensures EndsAs(solid, EntriesAfter(next, entries, comma, rest))
  {
    hide EntriesWritten;
  }

  lemma {:induction false} EndsArguments(solid: bool, arguments: seq<Argument>, rest: string)
    requires EndsAs(solid, rest) && forall i | 0 <= i < |arguments| :: WellFormedArgument(arguments[i])
    ensures EndsAs(solid, ArgumentsWritten(arguments, rest))
    decreases arguments, 1
  {
    if arguments != [] {
      var a := arguments[0];
      EndsArguments(solid, arguments[1..], rest);
      EndsArgument(solid, a, a.end + ArgumentsAfter(a.next, arguments[1..], rest));
    }
  }

  lemma {:induction false} EndsArgument(solid: bool, a: Argument, rest: string)
    requires EndsAs(solid, rest) && WellFormedArgument(a)
    ensures EndsAs(solid, ArgumentWritten(a, rest))
    decreases a, 0
  {
    hide WellFormed, Written, EndsAs, IsNameText;
    match a
    case Positional(value, _, _) =>
      EndsBehind(solid, "", rest);
      EndsPhrase(solid, value, rest);
    case Labelled(key, value, open, close, _, _) =>
      EndsBehind(solid, ")", rest);
      EndsBehind(solid, close, ")" + rest);
      EndsPhrase(solid, value, close + (")" + rest));
      var after := open + Written(value, close + (")" + rest));
      EndsBehind(solid, open, Written(value, close + (")" + rest)));
      EndsBehind(solid, "(", after);
      EndsBehind(solid, key, "(" + after);
      EndsBehind(solid, ":", key + ("(" + after));
    case LabelledText(key, text, _, _) =>
      EndsBehind(solid, ">", rest);
      EndsBehind(solid, text, ">" + rest);
      EndsBehind(solid, "<", text + (">" + rest));
      EndsBehind(solid, key, "<" + (text + (">" + rest)));
      EndsBehind(solid, ":", key + ("<" + (text + (">" + rest))));
    case Bare(key, _, _) =>
      EndsBehind(solid, key, rest);
      EndsBehind(solid, ":", key + rest);
  }

  lemma EndsBehind(solid: bool, before: string, s: string)
    requires EndsAs(solid, s)
    ensures BehindAs(solid, s) && EndsAs(solid, before + s) && BehindAs(solid, before + s)
  {
  }

  lemma TrimKeeps(p: Phrase)
    requires WellFormed(p)
    ensures Trim(Text(p)) == Text(p)
  {
    EndStops();
    JoinsMark(p, []);
    Opening(p, []);
    EndsPhrase(true, p, []);
  }

  /** The parser reads a phrase as its tree exactly when neither the tree is too tall nor
      the recursion too deep, and otherwise says it is too deep. */
  lemma PhraseRead(source: string, p: Phrase)
    requires WellFormed(p) && Trim(source) == Text(p)
    ensures Parse(source) == if Fits(p, 1) then Ok(Tree(p), []) else Err(TooDeep)
  {
    EndStops();
    JoinsMark(p, []);
    Opening(p, []);
    OrReads(p, Text(p), [], 0);
  }

  // ---------------------------------------------------------------- printing

  function Tighten(p: Phrase, k: nat): Phrase { if Level(p) >= k then p else Parens(p) }

  function DigitsOf(n: nat): string {
    var last := [('0' as int + n % 10) as char];
    if n < 10 then last else DigitsOf(n / 10) + last
  }

  function PiecesOf(s: string): seq<Piece> {
    if s == [] then [] else [Piece(s[0] == '"' || s[0] == '\\', s[0])] + PiecesOf(s[1..])
  }

  /** A tree as a phrase, with parentheses only where the grammar needs them. */
  function Print(n: Node): Phrase
    decreases n, 0
  {
    match n
    case LiteralNull => NullWord(false)
    case LiteralBoolean(b) => BooleanWord(b, false)
    case LiteralInteger(i) => Integer(DigitsOf(if i < 0 then 0 else i))
    case LiteralNumber(token) =>
      var k := DigitLength(token);
      Decimal(token[..k], if k < |token| then token[k + 1..] else [])
    case LiteralString(s) => Quoted('"', PiecesOf(s))
    case Name(name) => NameWord(name)
    case Variable(name) => LocalWord(name)
    case Member(target, member, _) =>
      var t := Tighten(Print(target), 6);
      if t.Integer? then Angle(t, member) else Dot(t, member)
    case Call(target, arguments, _) => Apply(Tighten(Print(target), 6), PrintArguments(arguments))
    case NamedArgument(_, target, _) => Print(target)
    case Block(target, _) => Braces(Print(target))
    case MapOf(entries, _) => MapLiteral(PrintEntries(entries))
    case Not(target, _) => Negate(false, Tighten(Print(target), 5))
    case Binary(op, left, right, _) =>
      var k := OperatorLevel(op);
      Operate(op, false, Tighten(Print(left), k), Tighten(Print(right), k + 1))
  }

  function PrintArguments(arguments: seq<Node>): (r: seq<Argument>)
    ensures |r| == |arguments|
    ensures forall i | 0 <= i < |r| :: r[i] == PrintArgument(arguments[i])
    decreases arguments, 0
  {
    if arguments == [] then [] else [PrintArgument(arguments[0])] + PrintArguments(arguments[1..])
  }

  function PrintArgument(a: Node): Argument
    decreases a, 1
  {
    match a
    case NamedArgument(key, target, _) =>
      if target.LiteralString? && '>' !in target.literal then LabelledText(key, target.literal) else Labelled(key, Print(target))
    case _ => Positional(Print(a))
  }

  function PrintEntries(entries: seq<Node>): (r: seq<Entry>)
    ensures |r| == |entries|
    ensures forall i | 0 <= i < |r| :: r[i] == PrintEntry(entries[i])
    decreases entries, 0
  {
    if entries == [] then [] else [PrintEntry(entries[0])] + PrintEntries(entries[1..])
  }

  function PrintEntry(e: Node): Entry
    decreases e, 1
  {
    if e.NamedArgument? then Entry(e.key, Print(e.target)) else Entry([], Print(e))
  }

  /** The trees the grammar has a phrase for: words it can spell, named arguments only
      where they are read, and heights as measured. */
  ghost predicate Printable(n: Node)
    decreases n, 0
  {
    match n
    case LiteralNull | LiteralBoolean(_) | LiteralString(_) => true
    case LiteralInteger(i) => 0 <= i <= MAX_INTEGER
    case LiteralNumber(token) =>
      var k := DigitLength(token);
      k < |token| && token[k] == '.' && IsDigits(token[..k]) && IsDigits(token[k + 1..])
    case Name(name) => IsFreeWord(name)
    case Variable(name) => IsNameText(name)
    case Member(target, member, _) => Printable(target) && IsNameText(member) && n == MakeMember(target, member)
    case Call(target, arguments, _) =>
      && Printable(target) && n == MakeCall(target, arguments)
      && forall i | 0 <= i < |arguments| :: PrintableArgument(arguments[i])
    case NamedArgument(_, _, _) => false
    case Block(target, _) => Printable(target) && n == MakeBlock(target)
    case MapOf(entries, _) =>
      && n == MakeMap(entries)
      && (forall i | 0 <= i < |entries| :: entries[i].NamedArgument? && PrintableArgument(entries[i]))
      && (entries != [] ==> IsNameStart(entries[0].key[0]))
    case Not(target, _) => Printable(target) && n == MakeNot(target)
    case Binary(op, left, right, _) => Printable(left) && Printable(right) && n == MakeBinary(op, left, right)
  }

  ghost predicate PrintableArgument(a: Node)
    decreases a, 1
  {
    match a
    case NamedArgument(key, target, _) => IsNameText(key) && Printable(target) && a == MakeNamed(key, target)
    case _ => Printable(a)
  }

  lemma {:induction false} DigitsValue(n: nat)
    ensures IsDigits(DigitsOf(n)) && DecimalValue(DigitsOf(n)) == n
  {
    if n >= 10 {
      DigitsValue(n / 10);
      assert DigitsOf(n)[..|DigitsOf(n)| - 1] == DigitsOf(n / 10);
    }
  }

  lemma {:induction false} PiecesBack(s: string)
    ensures PiecesValue(PiecesOf(s)) == s
    ensures forall i | 0 <= i < |PiecesOf(s)| ::
              PiecesOf(s)[i].escaped || (PiecesOf(s)[i].c != '"' && PiecesOf(s)[i].c != '\\')
  {
    if s != [] { PiecesBack(s[1..]); }
  }

  lemma NumberPrintsBack(token: string)
    requires Printable(LiteralNumber(token))
    ensures WellFormed(Print(LiteralNumber(token))) && Tree(Print(LiteralNumber(token))) == LiteralNumber(token)
  {
    var k := DigitLength(token);
    assert token == token[..k] + ("." + token[k + 1..]);
  }

  lemma TightenKeeps(p: Phrase, k: nat)
    requires WellFormed(p) && k <= 7
    ensures var q := Tighten(p, k); WellFormed(q) && Tree(q) == Tree(p) && Level(q) >= k
  {
  }

  /** The printed form of `n` is a phrase, and stands for it. */
  ghost predicate Back(n: Node) { WellFormed(Print(n)) && Tree(Print(n)) == n }

  lemma {:induction false} PrintsBack(n: Node)
    requires Printable(n)
    ensures Back(n)
    decreases n, 1
  {
    hide Back, Print, Tree, WellFormed;
    match n
    case Member(target, _, _) =>
      PrintsBack(target);
      MemberPrintsBack(n);
    case Call(target, arguments, _) =>
      PrintsBack(target);
      ArgumentsPrintBack(arguments);
      CallPrintsBack(n);
    case Block(target, _) =>
      PrintsBack(target);
      BlockPrintsBack(n);
    case MapOf(entries, _) =>
      EntriesPrintBack(entries);
      MapPrintsBack(n);
    case Not(target, _) =>
      PrintsBack(target);
      NotPrintsBack(n);
    case Binary(_, left, right, _) =>
      PrintsBack(left);
      PrintsBack(right);
      BinaryPrintsBack(n);
    case _ => LeafPrintsBack(n);
  }

  lemma LeafPrintsBack(n: Node)
    requires n.IsLeaf() && Printable(n)
    ensures Back(n)
  {
    match n
    case LiteralInteger(i) => DigitsValue(i);
    case LiteralNumber(token) => NumberPrintsBack(token);
    case LiteralString(s) => PiecesBack(s);
    case _ =>
  }

  lemma BlockPrintsBack(n: Node)
    requires n.Block? && Printable(n) && Back(n.target)
    ensures Back(n)
  {
  }

  lemma NotPrintsBack(n: Node)
    requires n.Not? && Printable(n) && Back(n.target)
    ensures Back(n)
  {
    hide Tighten, WellFormed, Tree, Level;
    var q := Tighten(Print(n.target), 5);
    TightenKeeps(Print(n.target), 5);
    NegateShape(q);
    assert Print(n) == Negate(false, q);
  }

  lemma NegateShape(q: Phrase)
    requires WellFormed(q) && Level(q) >= 5
    ensures WellFormed(Negate(false, q)) && Tree(Negate(false, q)) == MakeNot(Tree(q))
  {
  }

  lemma MapPrintsBack(n: Node)
    requires n.MapOf? && Printable(n)
    requires forall i | 0 <= i < |n.arguments| ::
               WellFormedEntry(PrintEntries(n.arguments)[i])
    requires EntryTrees(PrintEntries(n.arguments)) == n.arguments
    ensures Back(n)
  {
  }

  lemma MemberPrintsBack(n: Node)
    requires n.Member? && Printable(n) && Back(n.target)
    ensures Back(n)
  {
    hide Tighten, WellFormed, Tree, Level;
    var q := Tighten(Print(n.target), 6);
    TightenKeeps(Print(n.target), 6);
    MemberShape(q, n.member);
    assert Print(n) == if q.Integer? then Angle(q, n.member) else Dot(q, n.member);
  }

  lemma MemberShape(q: Phrase, member: string)
    requires WellFormed(q) && Level(q) >= 6 && IsNameText(member)
    ensures var p := if q.Integer? then Angle(q, member) else Dot(q, member);
            WellFormed(p) && Tree(p) == MakeMember(Tree(q), member)
  {
  }

  lemma CallPrintsBack(n: Node)
    requires n.Call? && Printable(n) && Back(n.target)
    requires forall i | 0 <= i < |n.arguments| :: WellFormedArgument(PrintArguments(n.arguments)[i])
    requires ArgumentTrees(PrintArguments(n.arguments)) == n.arguments
    ensures Back(n)
  {
    hide Tighten, WellFormed, Tree, Level, ArgumentTrees, WellFormedArgument;
    var q := Tighten(Print(n.target), 6);
    TightenKeeps(Print(n.target), 6);
    ApplyShape(q, PrintArguments(n.arguments));
    assert Print(n) == Apply(q, PrintArguments(n.arguments));
  }

  lemma ApplyShape(q: Phrase, arguments: seq<Argument>)
    requires WellFormed(q) && Level(q) >= 6 && forall i | 0 <= i < |arguments| :: WellFormedArgument(arguments[i])
    ensures WellFormed(Apply(q, arguments)) && Tree(Apply(q, arguments)) == MakeCall(Tree(q), ArgumentTrees(arguments))
  {
    hide ArgumentTrees;
  }

  lemma BinaryPrintsBack(n: Node)
    requires n.Binary? && Printable(n) && Back(n.left) && Back(n.right)
    ensures Back(n)
  {
    TightenKeeps(Print(n.left), OperatorLevel(n.op));
    TightenKeeps(Print(n.right), OperatorLevel(n.op) + 1);
    hide Tighten;
  }

  lemma {:induction false} ArgumentPrintsBack(a: Node)
    requires PrintableArgument(a)
    ensures WellFormedArgument(PrintArgument(a)) && ArgumentTree(PrintArgument(a)) == a
    decreases a, 2
  {
    if a.NamedArgument? { PrintsBack(a.target); } else { PrintsBack(a); }
    hide Printable, Print, Tree, WellFormed;
  }

  lemma {:induction false} ArgumentsPrintBack(arguments: seq<Node>)
    requires forall i | 0 <= i < |arguments| :: PrintableArgument(arguments[i])
    ensures forall i | 0 <= i < |arguments| :: WellFormedArgument(PrintArguments(arguments)[i])
    ensures ArgumentTrees(PrintArguments(arguments)) == arguments
    decreases arguments, 0
  {
    hide WellFormedArgument, PrintableArgument, ArgumentTree, PrintArgument;
    forall i | 0 <= i < |arguments|
      ensures WellFormedArgument(PrintArguments(arguments)[i])
      ensures ArgumentTree(PrintArguments(arguments)[i]) == arguments[i]
    {
      ArgumentPrintsBack(arguments[i]);
    }
    TreesOfArguments(PrintArguments(arguments), arguments);
  }

  lemma {:induction false} TreesOfArguments(phrases: seq<Argument>, trees: seq<Node>)
    requires |phrases| == |trees| && forall i | 0 <= i < |trees| :: ArgumentTree(phrases[i]) == trees[i]
    ensures ArgumentTrees(phrases) == trees
  {
    hide ArgumentTree;
    if trees != [] { TreesOfArguments(phrases[1..], trees[1..]); }
  }

  lemma {:induction false} EntryPrintsBack(e: Node)
    requires e.NamedArgument? && PrintableArgument(e)
    ensures var p := PrintEntry(e); WellFormedEntry(p) && EntryTree(p) == e
    decreases e, 2
  {
    PrintsBack(e.target);
    hide Printable, Print, Tree, WellFormed;
  }

  lemma {:induction false} EntriesPrintBack(entries: seq<Node>)
    requires forall i | 0 <= i < |entries| :: entries[i].NamedArgument? && PrintableArgument(entries[i])
    ensures forall i | 0 <= i < |entries| :: WellFormedEntry(PrintEntries(entries)[i])
    ensures EntryTrees(PrintEntries(entries)) == entries
    decreases entries, 0
  {
    hide WellFormedEntry, PrintableArgument, EntryTree, PrintEntry;
    forall i | 0 <= i < |entries|
      ensures WellFormedEntry(PrintEntries(entries)[i])
      ensures EntryTree(PrintEntries(entries)[i]) == entries[i]
    {
      EntryPrintsBack(entries[i]);
    }
    TreesOfEntries(PrintEntries(entries), entries);
  }

  lemma {:induction false} TreesOfEntries(phrases: seq<Entry>, trees: seq<Node>)
    requires |phrases| == |trees| && forall i | 0 <= i < |trees| :: EntryTree(phrases[i]) == trees[i]
    ensures EntryTrees(phrases) == trees
  {
    hide Tree;
    if trees != [] { TreesOfEntries(phrases[1..], trees[1..]); }
  }

  /** Printing a tree and parsing the text gives the tree back, exactly when it is within
      the height limit and the printed form within the nesting limit. */
  lemma ParsePrinted(n: Node)
    requires Printable(n)
    ensures Parse(Text(Print(n))) == if Fits(Print(n), 1) then Ok(n, []) else Err(TooDeep)
  {
    PrintsBack(n);
    TrimKeeps(Print(n));
    PhraseRead(Text(Print(n)), Print(n));
  }

  // ------------------------------------------------------------------ limits

  function Repeat(piece: string, n: nat): string { if n == 0 then [] else piece + Repeat(piece, n - 1) }

  lemma {:induction false} RepeatEnd(piece: string, n: nat, rest: string)
    ensures Repeat(piece, n) + (piece + rest) == Repeat(piece, n + 1) + rest
  {
    if n > 0 {
      RepeatEnd(piece, n - 1, rest);
      assert Repeat(piece, n) + (piece + rest) == piece + (Repeat(piece, n - 1) + (piece + rest));
      assert Repeat(piece, n + 1) + rest == piece + (Repeat(piece, n) + rest);
    }
  }

  function Nested(n: nat): Phrase { if n == 0 then Integer("1") else Parens(Nested(n - 1)) }

  lemma {:induction false} NestedShape(n: nat)
    ensures var p := Nested(n);
            WellFormed(p) && Level(p) == 7 && Need(p) == 2 * n + 1 && Tree(p).IsLeaf()
  {
    if n > 0 { NestedShape(n - 1); }
  }

  lemma {:induction false} NestedText(n: nat, rest: string)
    ensures Written(Nested(n), rest) == Repeat("(", n) + ("1" + (Repeat(")", n) + rest))
  {
    if n > 0 {
      assert Written(Nested(n), rest) == "(" + ("" + Written(Nested(n - 1), "" + (")" + rest)));
      assert "" + (")" + rest) == ")" + rest;
      hide Written;
      NestedText(n - 1, ")" + rest);
      RepeatEnd(")", n - 1, rest);
    }
  }

  /** `n` parentheses around a number are read exactly when `n` is at most 31. */
  lemma NestedParentheses(n: nat)
    ensures Parse(Repeat("(", n) + ("1" + Repeat(")", n))).Ok? <==> n <= 31
  {
    NestedShape(n);
    NestedText(n, []);
    assert Repeat(")", n) + [] == Repeat(")", n);
    TrimKeeps(Nested(n));
    PhraseRead(Text(Nested(n)), Nested(n));
  }

  function Negated(n: nat): Phrase { if n == 0 then BooleanWord(true, false) else Negate(false, Negated(n - 1)) }

  lemma {:induction false} NegatedShape(n: nat)
    ensures var p := Negated(n);
            && WellFormed(p) && Level(p) >= 5 && Need(p) == n + 1 && Tree(p).Stored() == n + 1
            && Written(p, []) == Repeat("!", n) + "true"
  {
    hide WellFormed, Level, Need, Tree, Written;
    if n > 0 {
      NegatedShape(n - 1);
      NegatesOne(Negated(n - 1));
      assert "!" + (Repeat("!", n - 1) + "true") == Repeat("!", n) + "true";
    } else {
      TrueShape();
    }
  }

  lemma NegatesOne(p: Phrase)
    requires WellFormed(p) && Level(p) >= 5
    ensures var q := Negate(false, p);
            && WellFormed(q) && Level(q) >= 5 && Need(q) == Need(p) + 1 && Tree(q).Stored() == Tree(p).Stored() + 1
            && Written(q, []) == "!" + Written(p, [])
  {
    assert "" + Written(p, []) == Written(p, []);
  }

  lemma TrueShape()
    ensures var p := BooleanWord(true, false);
            WellFormed(p) && Level(p) >= 5 && Need(p) == 1 && Tree(p).Stored() == 1 && Written(p, []) == "true"
  {
  }

  /** `n` prefix operators are read exactly when `n` is at most 62. */
  lemma NegationRun(n: nat)
    ensures Parse(Repeat("!", n) + "true").Ok? <==> n <= 62
  {
    NegatedShape(n);
    TrimKeeps(Negated(n));
    PhraseRead(Text(Negated(n)), Negated(n));
  }

  function Summed(n: nat): Phrase {
    if n == 0 then Integer("1") else Operate(Add, false, Summed(n - 1), Integer("1"))
  }

  lemma {:induction false} SummedShape(n: nat)
    ensures var p := Summed(n);
            WellFormed(p) && Level(p) >= 4 && Need(p) == 1 && Tree(p).Stored() == n + 1
  {
    hide WellFormed, Level, Need, Tree;
    if n > 0 {
      SummedShape(n - 1);
      AddsOne(Summed(n - 1));
    } else {
      OneShape();
    }
  }

  lemma OneShape()
    ensures var p := Integer("1");
            WellFormed(p) && Level(p) >= 4 && Need(p) == 1 && Tree(p).Stored() == 1
  {
  }

  lemma AddsOne(p: Phrase)
    requires WellFormed(p) && Level(p) >= 4 && Need(p) == 1
    ensures var q := Operate(Add, false, p, Integer("1"));
            WellFormed(q) && Level(q) == 4 && Need(q) == 1 && Tree(q).Stored() == Max(Tree(p).Stored(), 1) + 1
  {
    assert WellFormed(Integer("1")) && Need(Integer("1")) == 1 && Tree(Integer("1")).Stored() == 1;
  }

  lemma {:induction false} SummedText(n: nat, rest: string)
    ensures Written(Summed(n), rest) == "1" + (Repeat(" + 1", n) + rest)
  {
    if n > 0 {
      var more := Spaced(Add, false, " ", " ", "1" + rest);
      assert Written(Summed(n), rest) == Written(Summed(n - 1), more);
      SummedText(n - 1, more);
      assert more == " + 1" + rest;
      RepeatEnd(" + 1", n - 1, rest);
    }
  }

  /** A chain of `n` additions is read exactly when `n` is at most 63. */
  lemma AdditionChain(n: nat)
    ensures Parse("1" + Repeat(" + 1", n)).Ok? <==> n <= 63
  {
    SummedShape(n);
    SummedText(n, []);
    assert Repeat(" + 1", n) + [] == Repeat(" + 1", n);
    TrimKeeps(Summed(n));
    PhraseRead(Text(Summed(n)), Summed(n));
  }
}

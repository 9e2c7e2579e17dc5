/** The concrete syntax of expressions, and the theorem that the parser reads every
    phrase of it as the tree it stands for, exactly when the phrase fits the limits. */
module Phrase {
  import opened Strings
  import opened Expression

  datatype Piece = Piece(escaped: bool, c: char)

  /** A key and its value, with the blanks about the colon, those after the value, and those
      after the comma that may come next. */
  datatype Entry = Entry(key: string, value: Phrase, gap: string := "", after: string := " ", end: string := "",
                         next: string := " ")

  /** An argument, with the blanks inside its own parentheses, those after it, and those after
      the comma that may come next. */
  datatype Argument =
    | Positional(value: Phrase, end: string := "", next: string := " ")
    | Labelled(key: string, value: Phrase, open: string := "", close: string := "", end: string := "", next: string := " ")
    | LabelledText(key: string, text: string, end: string := "", next: string := " ")
    | Bare(key: string, end: string := "", next: string := " ")

  /** An expression as an author writes it: parentheses, either spelling of a member or
      an operator, every form of argument, and blanks between any two tokens. */
  datatype Phrase =
    | NullWord(capital: bool)
    | BooleanWord(truth: bool, capital: bool)
    | Integer(digits: string)
    | Decimal(whole: string, fraction: string)
    | Quoted(quote: char, pieces: seq<Piece>)
    | NameWord(name: string)
    | LocalWord(name: string)
    | Parens(inner: Phrase, open: string := "", close: string := "")
    | Braces(inner: Phrase, open: string := "", close: string := "")
    | MapLiteral(entries: seq<Entry>, open: string := "", comma: bool := false)
    | Dot(target: Phrase, member: string, gap: string := "")
    | Angle(target: Phrase, member: string, gap: string := "")
    | Apply(target: Phrase, arguments: seq<Argument>, gap: string := "", open: string := "")
    | Negate(word: bool, operand: Phrase, gap: string := "")
    | Operate(op: BinaryOperator, word: bool, left: Phrase, right: Phrase, before: string := " ", after: string := " ")

  function OperatorLevel(op: BinaryOperator): (k: nat)
    ensures 1 <= k <= 4
  {
    match op
    case Or => 1
    case And => 2
    case Add | Subtract | Concatenate => 4
    case _ => 3
  }

  function Level(p: Phrase): nat {
    match p
    case Operate(op, _, _, _, _, _) => OperatorLevel(op)
    case Negate(_, _, _) => 5
    case Dot(_, _, _) | Angle(_, _, _) | Apply(_, _, _, _) => 6
    case _ => 7
  }

  predicate IsNameText(s: string) { s != [] && forall i | 0 <= i < |s| :: IsNameChar(s[i]) }

  predicate IsDigits(s: string) { s != [] && forall i | 0 <= i < |s| :: IsDigit(s[i]) }

  predicate IsFreeWord(s: string) {
    IsNameText(s) && IsNameStart(s[0]) && s !in BOOLEAN_WORDS && s !in NULL_WORDS && s != "not"
  }

  /** The grammar: which subphrases may stand where, and what words they may use. */
  predicate WellFormed(p: Phrase) {
    match p
    case NullWord(_) | BooleanWord(_, _) => true
    case Integer(digits) => IsDigits(digits)
    case Decimal(whole, fraction) => IsDigits(whole) && IsDigits(fraction)
    case Quoted(quote, pieces) =>
      && (quote == '"' || quote == '\'')
      && forall i | 0 <= i < |pieces| :: pieces[i].escaped || (pieces[i].c != quote && pieces[i].c != '\\')
    case NameWord(name) => IsFreeWord(name)
    case LocalWord(name) => IsNameText(name)
    case Parens(inner, open, close) => WellFormed(inner) && Blanks(open) && Blanks(close)
    case Braces(inner, open, close) => WellFormed(inner) && Blanks(open) && Blanks(close)
    case MapLiteral(entries, open, _) =>
      && Blanks(open) && (forall i | 0 <= i < |entries| :: WellFormedEntry(entries[i]))
      && (entries != [] ==> IsNameStart(entries[0].key[0]))
    case Dot(target, member, gap) =>
      && WellFormed(target) && Level(target) >= 6 && IsNameText(member) && Blanks(gap)
      && (target.Integer? && gap == "" ==> !IsDigit(member[0]))
    case Angle(target, member, gap) => WellFormed(target) && Level(target) >= 6 && IsNameText(member) && Blanks(gap)
    case Apply(target, arguments, gap, open) =>
      && WellFormed(target) && Level(target) >= 6 && Blanks(gap) && Blanks(open)
      && forall i | 0 <= i < |arguments| :: WellFormedArgument(arguments[i])
    case Negate(word, operand, gap) =>
      && WellFormed(operand) && Level(operand) >= 5 && Blanks(gap)
      && (word && gap == "" ==> !OpensWithName(operand))
    case Operate(op, word, left, right, before, after) =>
      && WellFormed(left) && Level(left) >= OperatorLevel(op)
      && WellFormed(right) && Level(right) > OperatorLevel(op)
      && Blanks(before) && Blanks(after)
      && (before == "" && IsNameChar(Symbol(op, word)[0]) ==> !EndsWithName(left))
      && (before == "" && (op.Greater? || op.GreaterOrEqual?) ==> !Dangles(left))
      && (word && after == "" ==> !OpensWithName(right))
  }

  predicate Blanks(s: string) { forall i | 0 <= i < |s| :: IsBlank(s[i]) }

  /** Whether the first character of a phrase could go on a word. A word in front of it then
      needs a blank between. */
  predicate OpensWithName(p: Phrase) {
    match p
    case NullWord(_) | BooleanWord(_, _) | NameWord(_) | Integer(_) | Decimal(_, _) => true
    case Dot(target, _, _) => OpensWithName(target)
    case Angle(target, _, _) => OpensWithName(target)
    case Apply(target, _, _, _) => OpensWithName(target)
    case Negate(word, _, _) => word
    case Operate(_, _, left, _, _, _) => OpensWithName(left)
    case _ => false
  }

  /** Whether a phrase ends in a word, which a word or a minus right behind it would go on. */
  predicate EndsWithName(p: Phrase) {
    match p
    case NullWord(_) | BooleanWord(_, _) | NameWord(_) | LocalWord(_) | Dot(_, _, _) => true
    case Negate(_, operand, _) => EndsWithName(operand)
    case Operate(_, _, _, right, _, _) => EndsWithName(right)
    case _ => false
  }

  /** Whether a phrase ends in a number, which a digit right behind it would go on. */
  predicate EndsWithNumber(p: Phrase) {
    match p
    case Integer(_) | Decimal(_, _) => true
    case Negate(_, operand, _) => EndsWithNumber(operand)
    case Operate(_, _, _, right, _, _) => EndsWithNumber(right)
    case _ => false
  }

  /** Whether a phrase is written with characters of names alone. */
  predicate IsRun(p: Phrase) {
    match p
    case NullWord(_) | BooleanWord(_, _) | NameWord(_) | Integer(_) => true
    case Operate(op, _, left, right, before, after) =>
      op.Subtract? && before == "" && after == "" && IsRun(left) && IsRun(right)
    case _ => false
  }

  /** Whether a phrase ends in `<` and such characters, which `>` right behind it would make a
      member of. */
  predicate Dangles(p: Phrase) {
    p.Operate? && ((p.op.Less? && p.after == "" && IsRun(p.right)) || Dangles(p.right))
  }

  predicate WellFormedEntry(e: Entry) {
    && IsNameText(e.key) && WellFormed(e.value)
    && Blanks(e.gap) && Blanks(e.after) && Blanks(e.end) && Blanks(e.next)
  }

  predicate WellFormedArgument(a: Argument) {
    && Blanks(a.end) && Blanks(a.next)
    && match a
       case Positional(value, _, _) => WellFormed(value)
       case Labelled(key, value, open, close, _, _) => IsNameText(key) && WellFormed(value) && Blanks(open) && Blanks(close)
       case LabelledText(key, text, _, _) => IsNameText(key) && '>' !in text
       case Bare(key, _, _) => IsNameText(key)
  }

  function Symbol(op: BinaryOperator, word: bool): (s: string)
    ensures s != []
  {
    match op
    case Or => if word then "or" else "||"
    case And => if word then "and" else "&&"
    case Equal => if word then "eq" else "=="
    case NotEqual => if word then "ne" else "!="
    case LessOrEqual => "<="
    case GreaterOrEqual => ">="
    case Less => "<"
    case Greater => ">"
    case Concatenate => "~"
    case Add => "+"
    case Subtract => "-"
  }

  function PiecesWritten(pieces: seq<Piece>, rest: string): string {
    if pieces == [] then rest
    else
      var more := [pieces[0].c] + PiecesWritten(pieces[1..], rest);
      if pieces[0].escaped then ['\\'] + more else more
  }

  function PiecesValue(pieces: seq<Piece>): string {
    if pieces == [] then [] else [pieces[0].c] + PiecesValue(pieces[1..])
  }

  /** The text of a phrase, and `rest` after it. */
  function Written(p: Phrase, rest: string): string {
    match p
    case NullWord(capital) => (if capital then "Nil" else "null") + rest
    case BooleanWord(truth, capital) => BooleanText(truth, capital) + rest
    case Integer(digits) => digits + rest
    case Decimal(whole, fraction) => whole + ("." + (fraction + rest))
    case Quoted(quote, pieces) => [quote] + PiecesWritten(pieces, [quote] + rest)
    case NameWord(name) => name + rest
    case LocalWord(name) => "$" + (name + rest)
    case Parens(inner, open, close) => "(" + (open + Written(inner, close + (")" + rest)))
    case Braces(inner, open, close) => "{" + (open + Written(inner, close + ("}" + rest)))
    case MapLiteral(entries, open, comma) => "{" + (open + EntriesWritten(entries, comma && entries != [], "}" + rest))
    case Dot(target, member, gap) => Written(target, gap + ("." + (member + rest)))
    case Angle(target, member, gap) => Written(target, gap + ("<" + (member + (">" + rest))))
    case Apply(target, arguments, gap, open) =>
      Written(target, gap + ("(" + (open + ArgumentsWritten(arguments, ")" + rest))))
    case Negate(word, operand, gap) => (if word then "not" else "!") + (gap + Written(operand, rest))
    case Operate(op, word, left, right, before, after) =>
      Written(left, Spaced(op, word, before, after, Written(right, rest)))
  }

  /** An operator between blanks. */
  function Spaced(op: BinaryOperator, word: bool, before: string, after: string, rest: string): string {
    before + (Symbol(op, word) + (after + rest))
  }

  function BooleanText(truth: bool, capital: bool): (s: string)
    ensures s in BOOLEAN_WORDS
  {
    if truth then if capital then "True" else "true" else if capital then "False" else "false"
  }

  /** The entries of a map, with a comma after the last of them or not. */
  function EntriesWritten(entries: seq<Entry>, comma: bool, rest: string): string
    decreases entries, 0
  {
    if entries == [] then rest
    else
      var e := entries[0];
      e.key + (e.gap + (":" + (e.after + Written(e.value, e.end + EntriesAfter(e.next, entries[1..], comma, rest)))))
  }

  function EntriesAfter(next: string, entries: seq<Entry>, comma: bool, rest: string): string
    decreases entries, 1
  {
    if entries == [] && !comma then rest else "," + (next + EntriesWritten(entries, comma, rest))
  }

  function ArgumentWritten(a: Argument, rest: string): string {
    match a
    case Positional(value, _, _) => Written(value, rest)
    case Labelled(key, value, open, close, _, _) => ":" + (key + ("(" + (open + Written(value, close + (")" + rest)))))
    case LabelledText(key, text, _, _) => ":" + (key + ("<" + (text + (">" + rest))))
    case Bare(key, _, _) => ":" + (key + rest)
  }

  function ArgumentsWritten(arguments: seq<Argument>, rest: string): string
    decreases arguments, 0
  {
    if arguments == [] then rest
    else
      var a := arguments[0];
      ArgumentWritten(a, a.end + ArgumentsAfter(a.next, arguments[1..], rest))
  }

  function ArgumentsAfter(next: string, arguments: seq<Argument>, rest: string): string
    decreases arguments, 1
  {
    if arguments == [] then rest else "," + (next + ArgumentsWritten(arguments, rest))
  }

  function Text(p: Phrase): string { Written(p, []) }

  /** The tree a phrase stands for. Parentheses and blanks leave nothing behind. */
  function Tree(p: Phrase): Node {
    match p
    case NullWord(_) => LiteralNull
    case BooleanWord(truth, _) => LiteralBoolean(truth)
    case Integer(digits) => LiteralInteger(IntegerOf(digits))
    case Decimal(whole, fraction) => LiteralNumber(whole + ("." + fraction))
    case Quoted(_, pieces) => LiteralString(PiecesValue(pieces))
    case NameWord(name) => Name(name)
    case LocalWord(name) => Variable(name)
    case Parens(inner, _, _) => Tree(inner)
    case Braces(inner, _, _) => MakeBlock(Tree(inner))
    case MapLiteral(entries, _, _) => MakeMap(EntryTrees(entries))
    case Dot(target, member, _) => MakeMember(Tree(target), member)
    case Angle(target, member, _) => MakeMember(Tree(target), member)
    case Apply(target, arguments, _, _) => MakeCall(Tree(target), ArgumentTrees(arguments))
    case Negate(_, operand, _) => MakeNot(Tree(operand))
    case Operate(op, _, left, right, _, _) => MakeBinary(op, Tree(left), Tree(right))
  }

  function EntryTrees(entries: seq<Entry>): (r: seq<Node>)
    ensures |r| == |entries|
  {
    if entries == [] then []
    else [MakeNamed(entries[0].key, Tree(entries[0].value))] + EntryTrees(entries[1..])
  }

  function ArgumentTree(a: Argument): Node {
    match a
    case Positional(value, _, _) => Tree(value)
    case Labelled(key, value, _, _, _, _) => MakeNamed(key, Tree(value))
    case LabelledText(key, text, _, _) => MakeNamed(key, LiteralString(text))
    case Bare(key, _, _) => MakeNamed(key, LiteralString(key))
  }

  function ArgumentTrees(arguments: seq<Argument>): (r: seq<Node>)
    ensures |r| == |arguments|
  {
    if arguments == [] then [] else [ArgumentTree(arguments[0])] + ArgumentTrees(arguments[1..])
  }

  /** How far the recursion counter climbs while reading a phrase as an operand. */
  function Need(p: Phrase): nat {
    match p
    case Operate(_, _, left, right, _, _) => Max(Need(left), Need(right))
    case Negate(_, operand, _) => 1 + Need(operand)
    case _ => 1 + Inner(p)
  }

  /** The same, past the counter of the prefix operators. */
  function Inner(p: Phrase): nat
    decreases p, 0
  {
    match p
    case Parens(inner, _, _) => 1 + Need(inner)
    case Braces(inner, _, _) => 1 + Need(inner)
    case MapLiteral(entries, _, _) => EntriesNeed(entries)
    case Dot(target, _, _) => Inner(target)
    case Angle(target, _, _) => Inner(target)
    case Apply(target, arguments, _, _) => Max(Inner(target), ArgumentsNeed(arguments))
    case _ => 0
  }

  function EntriesNeed(entries: seq<Entry>): nat {
    if entries == [] then 0 else Max(1 + Need(entries[0].value), EntriesNeed(entries[1..]))
  }

  function ArgumentNeed(a: Argument): nat {
    if a.Positional? || a.Labelled? then 1 + Need(a.value) else 0
  }

  function ArgumentsNeed(arguments: seq<Argument>): nat {
    if arguments == [] then 0 else Max(ArgumentNeed(arguments[0]), ArgumentsNeed(arguments[1..]))
  }

  predicate Fits(p: Phrase, depth: nat) {
    Tree(p).Stored() <= MAX_DEPTH && depth + Need(p) <= MAX_DEPTH
  }

  predicate FitsInner(p: Phrase, depth: nat) {
    Tree(p).Stored() <= MAX_DEPTH && depth + Inner(p) <= MAX_DEPTH
  }

  predicate ArgumentsFit(arguments: seq<Argument>, depth: nat) {
    Tallest(ArgumentTrees(arguments)) <= MAX_DEPTH && depth + ArgumentsNeed(arguments) <= MAX_DEPTH
  }

  predicate EntriesFit(entries: seq<Entry>, depth: nat) {
    Tallest(EntryTrees(entries)) <= MAX_DEPTH && depth + EntriesNeed(entries) <= MAX_DEPTH
  }
}

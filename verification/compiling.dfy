/** What compiling a template can refuse, and expressions as the compiler reads them. */
module Compiling {
  import opened Strings
  import Expression
  import ExpressionParser

  datatype CompileError =
    | BadExpression(failure: Expression.Failure)
    | UnterminatedHole | UnterminatedAttributes | NoAttributeName | NoNameAfterMark
    | UnknownControl | NoArrow | NoLoopName

  datatype Compiled<+T> = Good(value: T) | Bad(error: CompileError)

  function ExpressionOf(source: string): Compiled<Expression.Node> {
    match Expression.Parse(source)
    case Ok(node, _) => Good(node)
    case Err(failure) => Bad(BadExpression(failure))
  }

  method ReadExpression(source: string) returns (r: Compiled<Expression.Node>)
    ensures r == ExpressionOf(source)
  {
    var parser := new ExpressionParser.Parser(source);
    var parsed := parser.Parse();
    match parsed {
      case Built(node) => return Good(node);
      case Refused(failure) => return Bad(BadExpression(failure));
    }
  }

  /** The first index from `i` on whose character is not in the class, or the end. */
  function RunEnd(s: string, i: nat, p: char -> bool): (end: nat)
    requires i <= |s|
    ensures i <= end <= |s|
    decreases |s| - i
  {
    if i < |s| && p(s[i]) then RunEnd(s, i + 1, p) else i
  }

  method Scan(s: string, i: nat, p: char -> bool) returns (end: nat)
    requires i <= |s|
    ensures end == RunEnd(s, i, p)
  {
    end := i;
    while end < |s| && p(s[end])
      invariant i <= end <= |s| && RunEnd(s, end, p) == RunEnd(s, i, p)
    {
      end := end + 1;
    }
  }
}

/** The parser object of src/blogin/expression.cpp: a position and a recursion counter
    moved step by step, proved against the grammar functions. */
module ExpressionParser {
  import opened Strings
  import opened Expression

  datatype Outcome = Built(node: Node) | Refused(failure: Failure)
  datatype Ending = More | Closed | Broken

  datatype ListOutcome = BuiltList(nodes: seq<Node>) | RefusedList(failure: Failure)

  class Parser {
    const source: string
    var position: nat
    var depth: nat

    constructor (text: string)
      ensures source == Trim(text) && position == 0 && depth == 0
    {
      source := Trim(text);
      position := 0;
      depth := 0;
    }

    ghost predicate Valid()
      reads this
    {
      position <= |source|
    }

    ghost function Rest(): string
      reads this
      requires Valid()
    {
      source[position..]
    }

    /** The result is the one the grammar gives, and the parser stands where it ends. */
    ghost predicate Agrees(r: Outcome, spec: Parsed)
      reads this
    {
      && Valid()
      && match spec
         case Ok(node, rest) => r == Built(node) && Rest() == rest
         case Err(failure) => r == Refused(failure)
    }

    ghost predicate AgreesList(r: ListOutcome, spec: ParsedList)
      reads this
    {
      && Valid()
      && match spec
         case OkList(nodes, rest) => r == BuiltList(nodes) && Rest() == rest
         case ErrList(failure) => r == RefusedList(failure)
    }

    method Advance(n: nat)
      requires Valid() && n <= |Rest()|
      modifies this`position
      ensures Valid() && Rest() == old(Rest())[n..] && position == old(position) + n
    {
      position := position + n;
    }

    method SkipSpaces()
      requires Valid()
      modifies this`position
      ensures Valid() && Rest() == SkipBlanks(old(Rest())) && position >= old(position)
    {
      while position < |source| && IsBlank(source[position])
        invariant old(position) <= position <= |source|
        invariant SkipBlanks(Rest()) == SkipBlanks(old(Rest()))
      {
        assert Rest()[1..] == source[position + 1..];
        position := position + 1;
      }
    }

    predicate At(c: char)
      reads this
      requires Valid()
    {
      position < |source| && source[position] == c
    }

    method Take(token: string) returns (taken: bool)
      requires Valid() && token != []
      modifies this`position
      ensures Valid() && position >= old(position)
      ensures taken == Consume(old(Rest()), token).Some?
      ensures taken ==> Rest() == Consume(old(Rest()), token).value && position > old(position)
      ensures !taken ==> Rest() == SkipBlanks(old(Rest()))
    {
      SkipSpaces();
      var n := |token|;
      if position + n > |source| || source[position..position + n] != token {
        assert !(token <= Rest());
        return false;
      }
      assert Rest()[..n] == token;
      assert Rest()[n..] == source[position + n..];
      if IsNameStart(token[0]) && position + n < |source| && IsNameChar(source[position + n]) {
        return false;
      }
      position := position + n;
      return true;
    }

    method TakeEither(symbol: string, word: string) returns (taken: bool)
      requires Valid() && symbol != [] && word != []
      modifies this`position
      ensures Valid() && position >= old(position)
      ensures taken == Either(old(Rest()), symbol, word).Some?
      ensures taken ==> Rest() == Either(old(Rest()), symbol, word).value && position > old(position)
      ensures !taken ==> Rest() == SkipBlanks(old(Rest()))
    {
      taken := Take(symbol);
      if !taken {
        ConsumeSkips(old(Rest()), word);
        SkipTwice(old(Rest()));
        taken := Take(word);
      }
    }

    method ReadName() returns (name: string)
      requires Valid()
      modifies this`position
      ensures Valid() && position == old(position) + |name|
      ensures |name| == NameLength(old(Rest()))
      ensures name == old(Rest())[..|name|] && Rest() == old(Rest())[|name|..]
    {
      var start := position;
      ghost var s := Rest();
      while position < |source| && IsNameChar(source[position])
        invariant start <= position <= |source|
        invariant position - start + NameLength(Rest()) == NameLength(s)
      {
        assert Rest()[1..] == source[position + 1..];
        position := position + 1;
      }
      name := source[start..position];
    }

    method ParseOr() returns (r: Outcome)
      requires Valid()
      modifies this
      ensures Agrees(r, Expression.ParseOr(old(Rest()), old(depth))) && depth == old(depth)
      ensures r.Built? ==> position > old(position)
      decreases |source| - position, 10
    {
      depth := depth + 1;
      if depth > MAX_DEPTH {
        depth := depth - 1;
        return Refused(TooDeep);
      }
      hide Consume, ReadComparison;
      ghost var spec := ParseBinary(1, Rest(), depth);
      r := ParseAnd();
      while r.Built?
        invariant Valid() && depth == old(depth) + 1
        invariant r.Built? ==> BinaryLoop(1, r.node, Rest(), depth) == spec
        invariant r.Refused? ==> spec == Err(r.failure)
        decreases r.Built?, |source| - position
      {
        var left := r.node;
        var more := TakeEither("||", "or");
        if !more { break; }
        r := ParseAnd();
        r := Join(Or, left, r);
      }
      depth := depth - 1;
    }

    method ParseAnd() returns (r: Outcome)
      requires Valid()
      modifies this
      ensures Agrees(r, ParseBinary(2, old(Rest()), depth)) && depth == old(depth)
      ensures r.Built? ==> position > old(position)
      decreases |source| - position, 9
    {
      ghost var spec := ParseBinary(2, Rest(), depth);
      r := ParseComparison();
      while r.Built?
        invariant Valid() && depth == old(depth)
        invariant r.Built? ==> BinaryLoop(2, r.node, Rest(), depth) == spec
        invariant r.Refused? ==> spec == Err(r.failure)
        decreases r.Built?, |source| - position
      {
        var left := r.node;
        var more := TakeEither("&&", "and");
        if !more { break; }
        r := ParseComparison();
        r := Join(And, left, r);
      }
    }

    /** The node an operator makes of its operands, unless one failed or it is too tall. */
    method Join(op: BinaryOperator, left: Node, right: Outcome) returns (r: Outcome)
      requires Valid()
      ensures right.Refused? ==> r == right
      ensures right.Built? ==> Agrees(r, Checked(MakeBinary(op, left, right.node), Rest()))
    {
      if right.Refused? { return right; }
      var node := MakeBinary(op, left, right.node);
      r := if node.Stored() > MAX_DEPTH then Refused(TooDeep) else Built(node);
    }

    /** The comparison at the front, tried in order; nothing taken but blanks when none is. */
    method TakeComparison() returns (found: bool, op: BinaryOperator)
      requires Valid()
      modifies this`position
      ensures Valid() && position >= old(position)
      ensures found == ReadComparison(old(Rest())).Found?
      ensures found ==> ReadComparison(old(Rest())) == Found(op, Rest()) && position > old(position)
      ensures !found ==> Rest() == SkipBlanks(old(Rest()))
    {
      ComparisonSkips(Rest());
      hide Consume, SkipBlanks;
      found := TakeEither("==", "eq");
      if found { return true, Equal; }
      found := TakeEither("!=", "ne");
      if found { return true, NotEqual; }
      found := Take("<=");
      if found { return true, LessOrEqual; }
      found := Take(">=");
      if found { return true, GreaterOrEqual; }
      found := Take("<");
      if found { return true, Less; }
      found := Take(">");
      return found, Greater;
    }

    method ParseComparison() returns (r: Outcome)
      requires Valid()
      modifies this
      ensures Agrees(r, ParseBinary(3, old(Rest()), depth)) && depth == old(depth)
      ensures r.Built? ==> position > old(position)
      decreases |source| - position, 8
    {
      ghost var spec := ParseBinary(3, Rest(), depth);
      r := ParseAdditive();
      while r.Built?
        invariant Valid() && depth == old(depth)
        invariant r.Built? ==> position > old(position) && BinaryLoop(3, r.node, Rest(), depth) == spec
        invariant r.Refused? ==> spec == Err(r.failure)
        decreases r.Built?, |source| - position
      {
        var left := r.node;
        var found, op := TakeComparison();
        if !found { break; }
        r := ParseAdditive();
        r := Join(op, left, r);
      }
    }

    method ParseAdditive() returns (r: Outcome)
      requires Valid()
      modifies this
      ensures Agrees(r, ParseBinary(4, old(Rest()), depth)) && depth == old(depth)
      ensures r.Built? ==> position > old(position)
      decreases |source| - position, 7
    {
      hide Expression.ParseUnary, ReadOperator, ParseBinary, BinaryLoop;
      ghost var spec := ParseBinary(4, Rest(), depth);
      AdditiveStarts(Rest(), depth);
      r := ParseUnary();
      while r.Built?
        invariant Valid() && depth == old(depth)
        invariant r.Built? ==> position > old(position) && BinaryLoop(4, r.node, Rest(), depth) == spec
        invariant r.Refused? ==> spec == Err(r.failure)
        decreases r.Built?, |source| - position
      {
        var left := r.node;
        AdditiveStep(left, Rest(), depth);
        var found, op := TakeAdditive();
        if !found { break; }
        r := ParseUnary();
        r := Join(op, left, r);
      }
    }

    /** The concatenation, sum or difference sign at the front, if there is one. */
    method TakeAdditive() returns (found: bool, op: BinaryOperator)
      requires Valid()
      modifies this`position
      ensures Valid() && position >= old(position)
      ensures found == ReadOperator(4, old(Rest())).Found?
      ensures found ==> ReadOperator(4, old(Rest())) == Found(op, Rest()) && position > old(position)
      ensures !found ==> Rest() == SkipBlanks(old(Rest()))
    {
      AdditiveSkips(Rest());
      hide Consume, SkipBlanks;
      found := Take("~");
      if found { return true, Concatenate; }
      found := Take("+");
      if found { return true, Add; }
      found := Take("-");
      return found, Subtract;
    }

    method ParseUnary() returns (r: Outcome)
      requires Valid()
      modifies this
      ensures Agrees(r, Expression.ParseUnary(old(Rest()), depth)) && depth == old(depth)
      ensures r.Built? ==> position > old(position)
      decreases |source| - position, 3
    {
      hide Expression.ParsePostfix, Consume;
      depth := depth + 1;
      if depth > MAX_DEPTH {
        depth := depth - 1;
        return Refused(TooDeep);
      }
      var negated := TakeEither("!", "not");
      if negated {
        r := ParseUnary();
        if r.Built? {
          var node := MakeNot(r.node);
          r := if node.Stored() > MAX_DEPTH then Refused(TooDeep) else Built(node);
        }
      } else {
        PostfixSkips(old(Rest()), depth);
        r := ParsePostfix();
      }
      depth := depth - 1;
    }

    method ParsePostfix() returns (r: Outcome)
      requires Valid()
      modifies this
      ensures Agrees(r, Expression.ParsePostfix(old(Rest()), depth)) && depth == old(depth)
      ensures r.Built? ==> position > old(position)
      decreases |source| - position, 2
    {
      ghost var spec := Expression.ParsePostfix(Rest(), depth);
      r := ParsePrimary();
      while r.Built?
        invariant Valid() && depth == old(depth)
        invariant r.Built? ==> position > old(position) && PostfixLoop(r.node, Rest(), depth) == spec
        invariant r.Refused? ==> spec == Err(r.failure)
        decreases r.Built?, |source| - position
      {
        var more;
        more, r := ParsePostfixStep(r.node);
        if !more { break; }
      }
    }

    /** One turn of the postfix loop: a member, a call, or nothing but blanks. */
    method ParsePostfixStep(target: Node) returns (more: bool, r: Outcome)
      requires Valid()
      modifies this
      ensures Valid() && depth == old(depth)
      ensures more ==> Continues(r, PostfixLoop(target, old(Rest()), depth))
      ensures more && r.Built? ==> position > old(position)
      ensures !more ==> r == Built(target) && PostfixLoop(target, old(Rest()), depth) == Ok(target, Rest())
      ensures !more ==> position >= old(position)
      decreases |source| - position, 3
    {
      DotSkips(Rest());
      var dotted := Take(".");
      if dotted {
        r := ParseDotted(target);
        return true, r;
      }
      if At('<') {
        more, r := ParseAngle(target);
      } else if At('(') {
        r := ParseCall(target);
        more := true;
      } else {
        return false, Built(target);
      }
    }

    /** The tail of a value reads as `r` and whatever the postfix loop makes of the rest. */
    ghost predicate Continues(r: Outcome, tail: Parsed)
      requires Valid()
      reads this
    {
      match r
      case Built(node) => tail == PostfixLoop(node, Rest(), depth)
      case Refused(failure) => tail == Err(failure)
    }

    /** The member named after a dot, and its argument list if one follows at once. */
    method ParseDotted(target: Node) returns (r: Outcome)
      requires Valid()
      modifies this
      ensures Valid() && depth == old(depth) && Continues(r, DotTail(target, old(Rest()), depth))
      ensures r.Built? ==> position > old(position)
      decreases |source| - position, 2
    {
      var member := ReadName();
      if member == [] { return Refused(Malformed); }
      var node := MakeMember(target, member);
      if node.Stored() > MAX_DEPTH { return Refused(TooDeep); }
      r := Built(node);
      if At('(') { r := ParseCall(node); }
    }

    /** The angle-bracket member, or nothing moved when the bracket is a comparison. */
    method ParseAngle(target: Node) returns (found: bool, r: Outcome)
      requires Valid() && At('<')
      modifies this`position
      ensures Valid() && found == (AngleLength(old(Rest())[1..]) > 0)
      ensures found ==> Continues(r, AngleTail(target, old(Rest())[1..], depth)) && position > old(position)
      ensures !found ==> r == Built(target) && Rest() == old(Rest())
    {
      hide PostfixLoop, NameLength;
      var saved := position;
      Advance(1);
      ghost var u := Rest();
      var member := ReadName();
      if member == [] || !At('>') {
        position := saved;
        return false, Built(target);
      }
      Advance(1);
      assert u[|member| + 1..] == Rest();
      var node := MakeMember(target, member);
      return true, if node.Stored() > MAX_DEPTH then Refused(TooDeep) else Built(node);
    }

    /** The call `target` makes with the argument list the parser stands at. */
    method ParseCall(target: Node) returns (r: Outcome)
      requires Valid() && At('(')
      modifies this
      ensures Valid() && depth == old(depth) && Continues(r, CallTail(target, old(Rest()), depth))
      ensures r.Built? ==> position > old(position)
      decreases |source| - position, 1
    {
      var arguments := ParseArguments();
      if arguments.RefusedList? { return Refused(arguments.failure); }
      var node := MakeCall(target, arguments.nodes);
      r := if node.Stored() > MAX_DEPTH then Refused(TooDeep) else Built(node);
    }

    /** What comes after an argument: another one, the end of the list, or neither. */
    method EndArgument() returns (e: Ending)
      requires Valid()
      modifies this`position
      ensures Valid() && position >= old(position)
      ensures var comma, close := Consume(old(Rest()), ","), Consume(old(Rest()), ")");
              if comma.Some? then e.More? && Rest() == comma.value && position > old(position)
              else if close.Some? then e.Closed? && Rest() == close.value
              else e.Broken?
    {
      hide Consume;
      EveryConsumeSkips(Rest());
      SkipSpaces();
      var more := Take(",");
      if more { return More; }
      var closed := Take(")");
      return if closed then Closed else Broken;
    }

    method ParseArguments() returns (r: ListOutcome)
      requires Valid() && At('(')
      modifies this
      ensures AgreesList(r, Expression.ParseArguments(old(Rest())[1..], depth)) && depth == old(depth)
      ensures r.BuiltList? ==> position > old(position)
      decreases |source| - position, 0
    {
      hide Expression.ParseArgument, Consume;
      Advance(1);
      ghost var spec := Expression.ParseArguments(Rest(), depth);
      SkipSpaces();
      if position >= |source| { return RefusedList(Malformed); }
      if At(')') {
        Advance(1);
        return BuiltList([]);
      }
      var nodes := [];
      while true
        invariant Valid() && depth == old(depth) && position > old(position)
        invariant ArgumentLoop(nodes, Rest(), depth) == spec
        decreases |source| - position
      {
        var argument := ParseArgument();
        if argument.Refused? { return RefusedList(argument.failure); }
        nodes := nodes + [argument.node];
        var end := EndArgument();
        if end.More? { continue; }
        return if end.Closed? then BuiltList(nodes) else RefusedList(Malformed);
      }
    }

    method ParseArgument() returns (r: Outcome)
      requires Valid()
      modifies this
      ensures Agrees(r, Expression.ParseArgument(old(Rest()), depth)) && depth == old(depth)
      ensures r.Built? ==> position > old(position)
      decreases |source| - position, 11
    {
      SkipSpaces();
      if !At(':') {
        r := ParseOr();
        return;
      }
      Advance(1);
      var key := ReadName();
      if key == [] { return Refused(Malformed); }
      if At('<') {
        r := ParseLabelledLiteral(key);
      } else if At('(') {
        r := ParseLabelled(key);
      } else {
        r := Built(MakeNamed(key, LiteralString(key)));
      }
    }

    /** The text of a named argument between angle brackets. */
    method ParseLabelledLiteral(key: string) returns (r: Outcome)
      requires Valid() && At('<')
      modifies this`position
      ensures Agrees(r, LabelledLiteral(key, old(Rest())))
      ensures r.Built? ==> position > old(position)
    {
      var closing := FindFrom('>');
      if closing >= |source| { return Refused(Malformed); }
      var text := source[position + 1..closing];
      assert Rest()[1..closing - position] == text;
      assert Rest()[closing + 1 - position..] == source[closing + 1..];
      position := closing + 1;
      return Built(MakeNamed(key, LiteralString(text)));
    }

    /** The value of a named argument between parentheses. */
    method ParseLabelled(key: string) returns (r: Outcome)
      requires Valid() && At('(')
      modifies this
      ensures Agrees(r, LabelledValue(key, old(Rest())[1..], depth)) && depth == old(depth)
      ensures r.Built? ==> position > old(position)
      decreases |source| - position, 11
    {
      Advance(1);
      r := ParseOr();
      if r.Refused? { return; }
      var closed := Take(")");
      if !closed { return Refused(Malformed); }
      var node := MakeNamed(key, r.node);
      return if node.Stored() > MAX_DEPTH then Refused(TooDeep) else Built(node);
    }

    method FindFrom(c: char) returns (index: nat)
      requires Valid()
      ensures position <= index <= |source| && index == position + Find(Rest(), c)
    {
      index := position;
      while index < |source| && source[index] != c
        invariant position <= index <= |source|
        invariant Find(Rest(), c) == index - position + Find(source[index..], c)
      {
        assert source[index..][1..] == source[index + 1..];
        index := index + 1;
      }
    }

    method ParsePrimary() returns (r: Outcome)
      requires Valid()
      modifies this
      ensures Agrees(r, Expression.ParsePrimary(old(Rest()), depth)) && depth == old(depth)
      ensures r.Built? ==> position > old(position)
      decreases |source| - position, 1
    {
      SkipSpaces();
      if position >= |source| { return Refused(Malformed); }
      var character := source[position];
      PrimarySkips(old(Rest()), depth);
      if character == '(' {
        r := ParseGroup();
      } else if character == '{' {
        r := ParseBraces();
      } else if character == '"' || character == '\'' {
        r := ParseQuoted(character);
      } else if IsDigit(character) {
        r := ParseNumber();
      } else {
        r := ParseWord();
      }
    }

    method ParseQuoted(quote: char) returns (r: Outcome)
      requires Valid() && At(quote) && (quote == '"' || quote == '\'')
      modifies this`position
      ensures Agrees(r, Expression.ParsePrimary(old(Rest()), depth))
      ensures r.Built? ==> position > old(position)
    {
      Advance(1);
      r := ParseString(quote);
    }

    /** A local, a literal word or a name. */
    method ParseWord() returns (r: Outcome)
      requires Valid() && position < |source| && source[position] !in {'(', '{', '"', '\''}
      requires !IsBlank(source[position]) && !IsDigit(source[position])
      modifies this`position
      ensures Agrees(r, Expression.ParsePrimary(old(Rest()), depth))
      ensures r.Built? ==> position > old(position)
    {
      if At('$') {
        Advance(1);
        var name := ReadName();
        r := if name == [] then Refused(Malformed) else Built(Variable(name));
      } else if IsNameStart(source[position]) {
        var word := ReadName();
        r := Built(WordNode(word));
      } else {
        r := Refused(Malformed);
      }
    }

    method ParseGroup() returns (r: Outcome)
      requires Valid() && At('(')
      modifies this
      ensures Agrees(r, Expression.ParsePrimary(old(Rest()), depth)) && depth == old(depth)
      ensures r.Built? ==> position > old(position)
      decreases |source| - position, 0
    {
      Advance(1);
      r := ParseOr();
      if r.Built? {
        var closed := Take(")");
        if !closed { r := Refused(Malformed); }
      }
    }

    method ParseBraces() returns (r: Outcome)
      requires Valid() && At('{')
      modifies this
      ensures Agrees(r, Expression.ParsePrimary(old(Rest()), depth)) && depth == old(depth)
      ensures r.Built? ==> position > old(position)
      decreases |source| - position, 0
    {
      var map_ := LooksLikeMapHere();
      Advance(1);
      if map_ { r := ParseMap(); } else { r := ParseBlock(); }
    }

    /** A look past the opening brace that moves nothing. */
    method LooksLikeMapHere() returns (map_: bool)
      requires Valid() && At('{')
      ensures map_ == LooksLikeMap(Rest()[1..])
    {
      var scan := ScanBlanks(position + 1);
      ghost var t := source[scan..];
      if scan < |source| && source[scan] == '}' { return true; }
      if scan >= |source| || !IsNameStart(source[scan]) { return false; }
      scan := ScanName(scan);
      assert t[NameLength(t)..] == source[scan..];
      scan := ScanBlanks(scan);
      return scan < |source| && source[scan] == ':';
    }

    method ScanName(from: nat) returns (scan: nat)
      requires from <= |source|
      ensures from <= scan <= |source| && scan == from + NameLength(source[from..])
    {
      scan := from;
      while scan < |source| && IsNameChar(source[scan])
        invariant from <= scan <= |source|
        invariant from + NameLength(source[from..]) == scan + NameLength(source[scan..])
      {
        assert source[scan..][1..] == source[scan + 1..];
        scan := scan + 1;
      }
    }

    method ScanBlanks(from: nat) returns (scan: nat)
      requires from <= |source|
      ensures from <= scan <= |source| && source[scan..] == SkipBlanks(source[from..])
    {
      scan := from;
      while scan < |source| && IsBlank(source[scan])
        invariant from <= scan <= |source|
        invariant SkipBlanks(source[scan..]) == SkipBlanks(source[from..])
      {
        assert source[scan..][1..] == source[scan + 1..];
        scan := scan + 1;
      }
    }

    method ParseMap() returns (r: Outcome)
      requires Valid()
      modifies this
      ensures Agrees(r, MapLoop([], SkipBlanks(old(Rest())), depth)) && depth == old(depth)
      ensures r.Built? ==> position >= old(position)
      decreases |source| - position, 12
    {
      hide Consume, Expression.ParseOr;
      SkipSpaces();
      ghost var spec := MapLoop([], Rest(), depth);
      var entries := [];
      while position < |source| && source[position] != '}'
        invariant Valid() && depth == old(depth) && position >= old(position)
        invariant MapLoop(entries, Rest(), depth) == spec
        decreases |source| - position
      {
        var entry := ParseEntry(entries);
        if entry.Refused? { return entry; }
        entries := entries + [entry.node];
        ConsumeSkips(Rest(), ",");
        ConsumeSkips(Rest(), "}");
        SkipTwice(Rest());
        SkipSpaces();
        var more := Take(",");
        if !more { break; }
        SkipSpaces();
      }
      r := CloseHere(entries);
    }

    /** How the map goes on after an entry. */
    ghost function MapAfter(entries: seq<Node>): Parsed
      requires Valid()
      reads this
    {
      var comma := Consume(Rest(), ",");
      if comma.None? then CloseMap(entries, Rest()) else MapLoop(entries, SkipBlanks(comma.value), depth)
    }

    method ParseEntry(ghost sofar: seq<Node>) returns (r: Outcome)
      requires Valid() && position < |source| && source[position] != '}'
      modifies this
      ensures Valid() && depth == old(depth)
      ensures match r
              case Built(entry) => position > old(position)
                && MapLoop(sofar, old(Rest()), depth) == MapAfter(sofar + [entry])
              case Refused(failure) => MapLoop(sofar, old(Rest()), depth) == Err(failure)
      decreases |source| - position, 11
    {
      var key := ReadName();
      if key == [] { return Refused(Malformed); }
      ConsumeSkips(Rest(), ":");
      SkipSpaces();
      var colon := Take(":");
      if !colon { return Refused(Malformed); }
      r := ParseOr();
      if r.Refused? { return; }
      var entry := MakeNamed(key, r.node);
      r := if entry.Stored() > MAX_DEPTH then Refused(TooDeep) else Built(entry);
    }

    method CloseHere(entries: seq<Node>) returns (r: Outcome)
      requires Valid()
      modifies this`position
      ensures Agrees(r, CloseMap(entries, old(Rest()))) && position >= old(position)
    {
      var closed := Take("}");
      if !closed { return Refused(Malformed); }
      var node := MakeMap(entries);
      return if node.Stored() > MAX_DEPTH then Refused(TooDeep) else Built(node);
    }

    method ParseBlock() returns (r: Outcome)
      requires Valid()
      modifies this
      ensures Agrees(r, Expression.ParseBlock(old(Rest()), depth)) && depth == old(depth)
      ensures r.Built? ==> position > old(position)
      decreases |source| - position, 12
    {
      r := ParseOr();
      if r.Built? {
        var closed := Take("}");
        if !closed { return Refused(Malformed); }
        var node := MakeBlock(r.node);
        r := if node.Stored() > MAX_DEPTH then Refused(TooDeep) else Built(node);
      }
    }

    method ParseString(quote: char) returns (r: Outcome)
      requires Valid()
      modifies this`position
      ensures Agrees(r, Expression.ParseString(quote, [], old(Rest())))
      ensures r.Built? ==> position > old(position)
    {
      hide Expression.ParseString;
      ghost var spec := Expression.ParseString(quote, [], Rest());
      var value := "";
      while position < |source| && source[position] != quote
        invariant old(position) <= position <= |source|
        invariant Expression.ParseString(quote, value, Rest()) == spec
      {
        StringStep(quote, value, source, position);
        if source[position] == '\\' && position + 1 < |source| {
          position := position + 1;
        }
        value := value + [source[position]];
        position := position + 1;
      }
      StringEnd(quote, value, source, position);
      if position >= |source| { return Refused(Malformed); }
      Advance(1);
      return Built(LiteralString(value));
    }

    method ScanDigits(from: nat) returns (scan: nat)
      requires from <= |source|
      ensures from <= scan <= |source| && scan - from == DigitLength(source[from..])
    {
      scan := from;
      while scan < |source| && IsDigit(source[scan])
        invariant from <= scan <= |source|
        invariant DigitLength(source[from..]) == scan - from + DigitLength(source[scan..])
      {
        assert source[scan..][1..] == source[scan + 1..];
        scan := scan + 1;
      }
    }

    method ParseNumber() returns (r: Outcome)
      requires Valid() && position < |source| && IsDigit(source[position])
      modifies this`position
      ensures Agrees(r, Expression.ParseNumber(old(Rest()))) && position > old(position)
    {
      hide DigitLength, IntegerOf;
      ghost var s := Rest();
      var start := position;
      var floating := ScanNumber();
      ghost var n := position - start;
      assert s[..n] == source[start..position] && s[n..] == Rest();
      var token := source[start..position];
      r := Built(if floating then LiteralNumber(token) else LiteralInteger(IntegerOf(token)));
    }

    /** Moves past the digits, and past a point and more digits if they follow. */
    method ScanNumber() returns (floating: bool)
      requires Valid() && position < |source| && IsDigit(source[position])
      modifies this`position
      ensures Valid() && position > old(position)
      ensures var s := old(Rest());
              var n := DigitLength(s);
              && floating == (n + 1 < |s| && s[n] == '.' && IsDigit(s[n + 1]))
              && position == old(position) + if floating then n + 1 + DigitLength(s[n + 1..]) else n
    {
      ghost var s := Rest();
      position := ScanDigits(position);
      ghost var n := position - old(position);
      assert n == DigitLength(s);
      if position + 1 < |source| && source[position] == '.' && IsDigit(source[position + 1]) {
        assert s[n + 1..] == source[position + 1..];
        position := ScanDigits(position + 1);
        return true;
      }
      return false;
    }

    /** The whole source, with nothing left over; the counter ends where it began. */
    method Parse() returns (r: Outcome)
      requires position == 0 && depth == 0
      modifies this
      ensures depth == 0
      ensures match ParseWhole(source)
              case Ok(node, _) => r == Built(node)
              case Err(failure) => r == Refused(failure)
    {
      assert Rest() == source;
      r := ParseOr();
      if r.Built? {
        SkipSpaces();
        if position < |source| { r := Refused(Malformed); }
      }
    }
  }

  /** A string goes on past a character, or past an escaped one. */
  lemma StringStep(quote: char, value: string, source: string, i: nat)
    requires i < |source| && source[i] != quote
    ensures ParseString(quote, value, source[i..]) ==
              if source[i] == '\\' && i + 1 < |source| then ParseString(quote, value + [source[i + 1]], source[i + 2..])
              else ParseString(quote, value + [source[i]], source[i + 1..])
  {
    var s := source[i..];
    assert s[1..] == source[i + 1..];
    if i + 1 < |source| { assert s[2..] == source[i + 2..] && s[1] == source[i + 1]; }
  }

  lemma StringEnd(quote: char, value: string, source: string, i: nat)
    requires i <= |source| && (i < |source| ==> source[i] == quote)
    ensures ParseString(quote, value, source[i..]) ==
              if i == |source| then Err(Malformed) else Ok(LiteralString(value), source[i..][1..])
  {
  }

  /** Blanks passed once need not be passed again by a later comparison. */
  lemma ComparisonSkips(s: string)
    ensures var t := SkipBlanks(s);
            && SkipBlanks(t) == t && Either(t, "!=", "ne") == Either(s, "!=", "ne")
            && Consume(t, "<=") == Consume(s, "<=") && Consume(t, ">=") == Consume(s, ">=")
            && Consume(t, "<") == Consume(s, "<") && Consume(t, ">") == Consume(s, ">")
  {
    EveryConsumeSkips(s);
    hide Consume;
  }

  /** Sums begin with one operand, and go on while an operator and another follow. */
  lemma AdditiveStarts(s: string, depth: nat)
    ensures var first := ParseUnary(s, depth);
            ParseBinary(4, s, depth) == if first.Err? then first else BinaryLoop(4, first.node, first.rest, depth)
  {
    hide ParseUnary, BinaryLoop;
    assert ParseBinary(5, s, depth) == ParseUnary(s, depth);
  }

  lemma AdditiveStep(left: Node, s: string, depth: nat)
    ensures var found := ReadOperator(4, s);
            BinaryLoop(4, left, s, depth) ==
              if found.NotFound? then Ok(left, SkipBlanks(s))
              else
                var right := ParseUnary(found.after, depth);
                if right.Err? then right
                else
                  var built := Checked(MakeBinary(found.op, left, right.node), right.rest);
                  if built.Err? then built else BinaryLoop(4, built.node, built.rest, depth)
  {
    hide ReadOperator, ParseUnary;
    var found := ReadOperator(4, s);
    if found.Found? { assert ParseBinary(5, found.after, depth) == ParseUnary(found.after, depth); }
  }

  lemma AdditiveSkips(s: string)
    ensures var t := SkipBlanks(s);
            && SkipBlanks(t) == t && Consume(t, "~") == Consume(s, "~")
            && Consume(t, "+") == Consume(s, "+") && Consume(t, "-") == Consume(s, "-")
  {
    EveryConsumeSkips(s);
    hide Consume;
  }

  lemma EveryConsumeSkips(s: string)
    ensures forall token: string | token != [] :: Consume(SkipBlanks(s), token) == Consume(s, token)
    ensures SkipBlanks(SkipBlanks(s)) == SkipBlanks(s)
  {
    forall token: string | token != [] ensures Consume(SkipBlanks(s), token) == Consume(s, token) {
      ConsumeSkips(s, token);
    }
    SkipTwice(s);
  }

  lemma PrimarySkips(s: string, d: nat)
    ensures ParsePrimary(SkipBlanks(s), d) == ParsePrimary(s, d)
  {
    SkipTwice(s);
  }

  lemma PostfixSkips(s: string, d: nat)
    ensures ParsePostfix(SkipBlanks(s), d) == ParsePostfix(s, d)
  {
    PrimarySkips(s, d);
  }

  lemma DotSkips(s: string)
    ensures Consume(s, ".").Some? == Starts(SkipBlanks(s), '.')
    ensures Consume(s, ".").Some? ==> Consume(s, ".").value == SkipBlanks(s)[1..]
  {
    var t := SkipBlanks(s);
    if Starts(t, '.') { assert "." <= t; }
  }
}

/** Evaluating an expression against a view (src/blogin/expression.cpp), as a function
    that also lists what was read, and as the method that reads it. */
module Evaluation {
  import opened Strings
  import opened Expression
  import opened Values
  import opened ViewContexts

  datatype Problem =
    | NoSuchLocal | NoSuchName | CannotRead | CannotCompare | OnlyNamesAreCalled | MisplacedBlock | Unsupported
    | OrphanBranch | CannotIterate | NoSuchFilter | NoPartialNamed | NoSuchPartial | PartialsTooDeep | NoBlockGiven

  datatype Result<+T> = Success(value: T) | Failure(problem: Problem)

  datatype Evaluated<+T> = Evaluated(result: Result<T>, events: seq<Event>)

  function Done<T>(value: T): Evaluated<T> { Evaluated(Success(value), []) }

  function Failed<T>(problem: Problem): Evaluated<T> { Evaluated(Failure(problem), []) }

  /** `next`, with what came before it read first. */
  function After<T>(events: seq<Event>, next: Evaluated<T>): Evaluated<T> {
    Evaluated(next.result, events + next.events)
  }

  function ToText(value: Value, view: View): string {
    match value
    case Null => ""
    case Boolean(b) => if b then "true" else "false"
    case Integer(i) => IntegerText(i)
    case Number(r) => view.numberText(r)
    case String(s) => s
    case _ => ""
  }

  /** Strings, nulls and booleans equal only their own kind; anything else is compared as
      a number, which a list or an object reads as zero. */
  predicate SameValue(a: Value, b: Value) {
    if a.String? || b.String? then a == b
    else if a.Null? || b.Null? then a == b
    else if a.Boolean? || b.Boolean? then a == b
    else a.AsNumber() == b.AsNumber()
  }

  /** -1, 0 or 1, for two strings or two numbers. */
  function Compare(a: Value, b: Value): Result<int> {
    if a.String? && b.String? then
      Success(if TextLess(a.text, b.text) then -1 else if a == b then 0 else 1)
    else if (a.Integer? || a.Number?) && (b.Integer? || b.Number?) then
      var x, y := a.AsNumber(), b.AsNumber();
      Success(if x < y then -1 else if y < x then 1 else 0)
    else Failure(CannotCompare)
  }

  function Arithmetic(op: BinaryOperator, a: Value, b: Value, view: View): Value
    requires op.Add? || op.Subtract?
  {
    if op.Add? && (a.String? || b.String?) then String(ToText(a, view) + ToText(b, view))
    else if a.Integer? && b.Integer? then
      Integer(if op.Add? then a.integer + b.integer else a.integer - b.integer)
    else Number(if op.Add? then a.AsNumber() + b.AsNumber() else a.AsNumber() - b.AsNumber())
  }

  /** An operator whose operands have both been evaluated. */
  function Operation(op: BinaryOperator, a: Value, b: Value, view: View): Result<Value>
    requires !op.And? && !op.Or?
  {
    if op.Equal? then Success(Boolean(SameValue(a, b)))
    else if op.NotEqual? then Success(Boolean(!SameValue(a, b)))
    else if op.Concatenate? then Success(String(ToText(a, view) + ToText(b, view)))
    else if op.Add? || op.Subtract? then Success(Arithmetic(op, a, b, view))
    else
      var order := Compare(a, b);
      if order.Failure? then Failure(order.problem) else Success(Boolean(Ordered(op, order.value)))
  }

  predicate Ordered(op: BinaryOperator, order: int) {
    if op.Less? then order < 0
    else if op.LessOrEqual? then order <= 0
    else if op.Greater? then order > 0
    else order >= 0
  }

  function ListMember(items: seq<Value>, name: string): Result<Value> {
    if name in {"elems", "size", "count"} then Success(Integer(|items|))
    else if name == "first" then Success(if items == [] then Null else items[0])
    else if name == "last" then Success(if items == [] then Null else items[|items| - 1])
    else Failure(CannotRead)
  }

  function MemberOf(target: Value, name: string): Result<Value> {
    match target
    case List(items) => ListMember(items, name)
    case Object(members) => Success(if name in members then members[name] else Null)
    case String(s) => if name in {"chars", "elems"} then Success(Integer(|s|)) else Failure(CannotRead)
    case _ => Failure(CannotRead)
  }

  function ReadLocal(name: string, locals: Locals): Evaluated<Value>
    requires name in locals
  {
    Evaluated(Success(locals[name]), [Read(name, locals[name], true)])
  }

  function ReadView(name: string, view: View): Evaluated<Value>
    requires name in view.values
  {
    Evaluated(Success(view.values[name]), [Read(name, view.values[name], false)])
  }

  function Evaluate(n: Node, view: View, locals: Locals): (r: Evaluated<Value>)
    ensures Owns(r.events, view.values, locals)
    decreases n, 1
  {
    match n
    case LiteralNull => Done(Null)
    case LiteralBoolean(b) => Done(Boolean(b))
    case LiteralInteger(i) => Done(Integer(i))
    case LiteralNumber(token) => Done(Number(view.toNumber(token)))
    case LiteralString(s) => Done(String(s))
    case Variable(name) => if name in locals then ReadLocal(name, locals) else Failed(NoSuchLocal)
    case Name(name) =>
      if name in locals then ReadLocal(name, locals)
      else if name in view.values then ReadView(name, view)
      else if name in view.functions then Done(view.functions[name]([]))
      else Failed(NoSuchName)
    case Member(target, member, _) =>
      var t := Evaluate(target, view, locals);
      if t.result.Failure? then t else Evaluated(MemberOf(t.result.value, member), t.events)
    case NamedArgument(_, target, _) => Evaluate(target, view, locals)
    case Block(_, _) => Failed(MisplacedBlock)
    case MapOf(entries, _) => EvaluateEntries(entries, map[], view, locals)
    case Not(target, _) =>
      var t := Evaluate(target, view, locals);
      if t.result.Failure? then t else Evaluated(Success(Boolean(!t.result.value.Truthy())), t.events)
    case Binary(op, left, right, _) =>
      var l := Evaluate(left, view, locals);
      if l.result.Failure? || (op.And? && !l.result.value.Truthy()) || (op.Or? && l.result.value.Truthy()) then l
      else
        var r := After(l.events, Evaluate(right, view, locals));
        if op.And? || op.Or? || r.result.Failure? then r
        else Evaluated(Operation(op, l.result.value, r.result.value, view), r.events)
    case Call(target, arguments, _) => EvaluateCall(n, view, locals)
  }

  function EvaluateCall(n: Node, view: View, locals: Locals): (r: Evaluated<Value>)
    ensures Owns(r.events, view.values, locals)
    requires n.Call?
    decreases n, 0
  {
    if !n.target.Name? && !n.target.Member? then Failed(OnlyNamesAreCalled)
    else
      var name := if n.target.Name? then n.target.name else n.target.member;
      if n.target.Member? && n.arguments == [] then Evaluate(n.target, view, locals)
      else if name !in view.functions then
        if n.arguments == [] && name in locals then ReadLocal(name, locals)
        else if n.arguments == [] && name in view.values then ReadView(name, view)
        else Failed(NoSuchName)
      else
        var given := EvaluateArguments(n.arguments, view, locals);
        if given.result.Failure? then Evaluated(Failure(given.result.problem), given.events)
        else Evaluated(Success(view.functions[name](given.result.value)), given.events)
  }

  /** The arguments of a call, a block unwrapped and evaluated in its place. */
  function EvaluateArguments(arguments: seq<Node>, view: View, locals: Locals): (r: Evaluated<seq<Given>>)
    ensures Owns(r.events, view.values, locals)
    decreases arguments
  {
    if arguments == [] then Done([])
    else
      var first := EvaluateArgument(arguments[0], view, locals);
      if first.result.Failure? then Evaluated(Failure(first.result.problem), first.events)
      else
        var rest := After(first.events, EvaluateArguments(arguments[1..], view, locals));
        if rest.result.Failure? then rest
        else Evaluated(Success([first.result.value] + rest.result.value), rest.events)
  }

  function EvaluateArgument(a: Node, view: View, locals: Locals): (r: Evaluated<Given>)
    ensures Owns(r.events, view.values, locals)
    decreases a, 2
  {
    var value := if a.Block? then Evaluate(a.target, view, locals) else Evaluate(a, view, locals);
    if value.result.Failure? then Evaluated(Failure(value.result.problem), value.events)
    else Evaluated(Success(Given(if a.NamedArgument? then a.key else "", value.result.value)), value.events)
  }

  /** The entries of a map, a repeated key keeping its last value. */
  function EvaluateEntries(entries: seq<Node>, sofar: map<string, Value>, view: View, locals: Locals): (r: Evaluated<Value>)
    ensures Owns(r.events, view.values, locals)
    decreases entries
  {
    if entries == [] then Done(Object(sofar))
    else if !entries[0].NamedArgument? then Failed(Unsupported)
    else
      var value := Evaluate(entries[0].target, view, locals);
      if value.result.Failure? then value
      else
        After(value.events,
              EvaluateEntries(entries[1..], sofar[entries[0].key := value.result.value], view, locals))
  }

  // ------------------------------------------------------------ the evaluator

  /** Evaluates `n` against `context`. Every call it makes is given one level less, so it
      recurses no deeper than the height of the tree. */
  method Run(n: Node, context: ViewContext, ghost levels: nat) returns (r: Result<Value>)
    requires n.TrueHeight() <= levels
    modifies context`recordings
    ensures var spec := Evaluate(n, context.view, context.locals);
            r == spec.result && context.recordings == FoldAll(old(context.recordings), spec.events)
    decreases levels, 2
  {
    FoldAllNothing(context.recordings);
    match n {
      case LiteralNull => return Success(Null);
      case LiteralBoolean(b) => return Success(Boolean(b));
      case LiteralInteger(i) => return Success(Integer(i));
      case LiteralNumber(token) => return Success(Number(context.view.toNumber(token)));
      case LiteralString(s) => return Success(String(s));
      case Variable(name) =>
        var found := context.LookupLocal(name);
        return if found.Some? then Success(found.value) else Failure(NoSuchLocal);
      case Name(name) =>
        var found := context.LookupLocal(name);
        if found.Some? { return Success(found.value); }
        found := context.Lookup(name);
        if found.Some? { return Success(found.value); }
        return if name in context.view.functions then Success(context.view.functions[name]([])) else Failure(NoSuchName);
      case Member(target, member, _) =>
        r := Run(target, context, levels - 1);
        if r.Success? { r := MemberOf(r.value, member); }
      case NamedArgument(_, target, _) =>
        r := Run(target, context, levels - 1);
      case Block(_, _) => return Failure(MisplacedBlock);
      case MapOf(entries, _) =>
        r := RunEntries(entries, context, levels - 1);
      case Not(target, _) =>
        r := Run(target, context, levels - 1);
        if r.Success? { r := Success(Boolean(!r.value.Truthy())); }
      case Binary(op, left, right, _) =>
        r := RunBinary(n, context, levels);
      case Call(target, arguments, _) =>
        r := RunCall(n, context, levels);
    }
  }

  method RunBinary(n: Node, context: ViewContext, ghost levels: nat) returns (r: Result<Value>)
    requires n.Binary? && n.TrueHeight() <= levels
    modifies context`recordings
    ensures var spec := Evaluate(n, context.view, context.locals);
            r == spec.result && context.recordings == FoldAll(old(context.recordings), spec.events)
    decreases levels, 1
  {
    var left := Run(n.left, context, levels - 1);
    if left.Failure? || (n.op.And? && !left.value.Truthy()) || (n.op.Or? && left.value.Truthy()) { return left; }
    ghost var l, more := Evaluate(n.left, context.view, context.locals), Evaluate(n.right, context.view, context.locals);
    FoldAllConcat(old(context.recordings), l.events, more.events);
    r := Run(n.right, context, levels - 1);
    if n.op.And? || n.op.Or? || r.Failure? { return; }
    r := Operation(n.op, left.value, r.value, context.view);
  }

  method RunCall(n: Node, context: ViewContext, ghost levels: nat) returns (r: Result<Value>)
    requires n.Call? && n.TrueHeight() <= levels
    modifies context`recordings
    ensures var spec := EvaluateCall(n, context.view, context.locals);
            r == spec.result && context.recordings == FoldAll(old(context.recordings), spec.events)
    decreases levels, 1
  {
    FoldAllNothing(context.recordings);
    if !n.target.Name? && !n.target.Member? { return Failure(OnlyNamesAreCalled); }
    var name := if n.target.Name? then n.target.name else n.target.member;
    if n.target.Member? && n.arguments == [] {
      r := Run(n.target, context, levels - 1);
      return;
    }
    if name !in context.view.functions {
      if n.arguments == [] {
        var found := context.LookupLocal(name);
        if found.Some? { return Success(found.value); }
        found := context.Lookup(name);
        if found.Some? { return Success(found.value); }
      }
      return Failure(NoSuchName);
    }
    var given := RunArguments(n.arguments, context, levels - 1);
    return if given.Failure? then Failure(given.problem) else Success(context.view.functions[name](given.value));
  }

  method RunArguments(arguments: seq<Node>, context: ViewContext, ghost levels: nat) returns (r: Result<seq<Given>>)
    requires TrueHeights(arguments) <= levels
    modifies context`recordings
    ensures var spec := EvaluateArguments(arguments, context.view, context.locals);
            r == spec.result && context.recordings == FoldAll(old(context.recordings), spec.events)
    decreases levels, 4
  {
    hide EvaluateArgument, EvaluateArguments, Fold, Owns, GivenAfter;
    var given: seq<Given> := [];
    var i := 0;
    ghost var done: seq<Event> := [];
    FoldAllNothing(context.recordings);
    ghost var view, locals := context.view, context.locals;
    ghost var spec := EvaluateArguments(arguments, view, locals);
    GivenAfterNothing(spec);
    assert arguments[0..] == arguments;
    while i < |arguments|
      invariant 0 <= i <= |arguments| && TrueHeights(arguments[i..]) <= levels
      invariant context.recordings == FoldAll(old(context.recordings), done)
      invariant spec == GivenAfter(given, done, EvaluateArguments(arguments[i..], view, locals))
    {
      var a := arguments[i];
      ghost var value := EvaluateArgument(a, view, locals);
      assert arguments[i..][0] == a && arguments[i..][1..] == arguments[i + 1..];
      GivenStep(given, done, arguments[i..], view, locals);
      FoldAllConcat(old(context.recordings), done, value.events);
      var item := RunArgument(a, context, levels);
      if item.Failure? { return Failure(item.problem); }
      done := done + value.events;
      given := given + [item.value];
      i := i + 1;
    }
    assert arguments[i..] == [];
    GivenEnd(given, done, view, locals);
    return Success(given);
  }

  /** The arguments still to come, behind those already evaluated. */
  function GivenAfter(given: seq<Given>, done: seq<Event>, rest: Evaluated<seq<Given>>): Evaluated<seq<Given>> {
    Evaluated(if rest.result.Failure? then rest.result else Success(given + rest.result.value), done + rest.events)
  }

  lemma GivenAfterNothing(rest: Evaluated<seq<Given>>)
    ensures GivenAfter([], [], rest) == rest
  {
    assert [] + rest.events == rest.events;
    if rest.result.Success? { assert [] + rest.result.value == rest.result.value; }
  }

  lemma GivenStep(given: seq<Given>, done: seq<Event>, arguments: seq<Node>, view: View, locals: Locals)
    requires arguments != []
    ensures var first := EvaluateArgument(arguments[0], view, locals);
            var whole := GivenAfter(given, done, EvaluateArguments(arguments, view, locals));
            if first.result.Failure? then whole == Evaluated(Failure(first.result.problem), done + first.events)
            else whole == GivenAfter(given + [first.result.value], done + first.events,
                                     EvaluateArguments(arguments[1..], view, locals))
  {
    hide EvaluateArgument, Owns;
    var first := EvaluateArgument(arguments[0], view, locals);
    if first.result.Success? {
      var rest := EvaluateArguments(arguments[1..], view, locals);
      assert done + (first.events + rest.events) == (done + first.events) + rest.events;
      if rest.result.Success? {
        assert given + ([first.result.value] + rest.result.value) == (given + [first.result.value]) + rest.result.value;
      }
    }
  }

  lemma GivenEnd(given: seq<Given>, done: seq<Event>, view: View, locals: Locals)
    ensures GivenAfter(given, done, EvaluateArguments([], view, locals)) == Evaluated(Success(given), done)
  {
    assert given + [] == given && done + [] == done;
  }

  method RunArgument(a: Node, context: ViewContext, ghost levels: nat) returns (r: Result<Given>)
    requires a.TrueHeight() <= levels
    modifies context`recordings
    ensures var spec := EvaluateArgument(a, context.view, context.locals);
            r == spec.result && context.recordings == FoldAll(old(context.recordings), spec.events)
    decreases levels, 3
  {
    var value := Run(if a.Block? then a.target else a, context, levels);
    return if value.Failure? then Failure(value.problem)
           else Success(Given(if a.NamedArgument? then a.key else "", value.value));
  }

  method RunEntries(entries: seq<Node>, context: ViewContext, ghost levels: nat) returns (r: Result<Value>)
    requires TrueHeights(entries) <= levels
    modifies context`recordings
    ensures var spec := EvaluateEntries(entries, map[], context.view, context.locals);
            r == spec.result && context.recordings == FoldAll(old(context.recordings), spec.events)
    decreases levels, 3
  {
    hide Evaluate, Fold, Owns;
    var members := map[];
    var i := 0;
    ghost var done := [];
    FoldAllNothing(context.recordings);
    ghost var view, locals := context.view, context.locals;
    ghost var spec := EvaluateEntries(entries, map[], view, locals);
    assert entries[0..] == entries && [] + spec.events == spec.events;
    while i < |entries|
      invariant 0 <= i <= |entries| && TrueHeights(entries[i..]) <= levels
      invariant context.recordings == FoldAll(old(context.recordings), done)
      invariant spec == After(done, EvaluateEntries(entries[i..], members, view, locals))
    {
      var entry := entries[i];
      assert done + [] == done;
      if !entry.NamedArgument? { return Failure(Unsupported); }
      assert entries[i..][1..] == entries[i + 1..];
      ghost var value := Evaluate(entry.target, view, locals);
      FoldAllConcat(old(context.recordings), done, value.events);
      var item := Run(entry.target, context, levels);
      if item.Failure? { return item; }
      members := members[entry.key := item.value];
      ghost var rest := EvaluateEntries(entries[i + 1..], members, view, locals);
      assert done + (value.events + rest.events) == (done + value.events) + rest.events;
      done := done + value.events;
      i := i + 1;
    }
    assert done + [] == done;
    return Success(Object(members));
  }
}

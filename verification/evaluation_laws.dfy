/** What expressions evaluate to: every operator on every kind of value, truth, members,
    names, calls and maps, said of the trees alone. */
module EvaluationLaws {
  import opened Strings
  import opened Expression
  import opened Values
  import opened ViewContexts
  import opened Evaluation

  /** The tree has this value, and reads just this. */
  ghost predicate Gives(n: Node, v: Value, reads_: seq<Event>, view: View, locals: Locals) {
    Evaluate(n, view, locals) == Evaluated(Success(v), reads_)
  }

  /** The tree fails like this, after reading just this. */
  ghost predicate Fails(n: Node, problem: Problem, reads_: seq<Event>, view: View, locals: Locals) {
    Evaluate(n, view, locals) == Evaluated(Failure(problem), reads_)
  }

  /** Two operands, each with its value and its reads. */
  datatype Operands = Operands(left: Node, a: Value, e: seq<Event>, right: Node, b: Value, f: seq<Event>)
  {
    ghost predicate Hold(view: View, locals: Locals) {
      Gives(left, a, e, view, locals) && Gives(right, b, f, view, locals)
    }

    function With(op: BinaryOperator): Node { Binary(op, left, right, Max(left.Stored(), right.Stored()) + 1) }

    /** What the operator makes of them, with the reads of both. */
    ghost predicate Are(op: BinaryOperator, v: Value, view: View, locals: Locals) {
      Gives(With(op), v, e + f, view, locals)
    }
  }

  lemma BothRead(o: Operands, op: BinaryOperator, view: View, locals: Locals)
    requires o.Hold(view, locals) && !op.And? && !op.Or?
    ensures Evaluate(o.With(op), view, locals) == Evaluated(Operation(op, o.a, o.b, view), o.e + o.f)
  {
    hide Operation;
  }

  lemma ComparisonsRead(o: Operands, view: View, locals: Locals)
    requires o.Hold(view, locals)
    ensures forall op | op in {Less, LessOrEqual, Greater, GreaterOrEqual, Equal, NotEqual} ::
              Evaluate(o.With(op), view, locals) == Evaluated(Operation(op, o.a, o.b, view), o.e + o.f)
  {
    hide Operation, Evaluate;
    forall op | op in {Less, LessOrEqual, Greater, GreaterOrEqual, Equal, NotEqual}
      ensures Evaluate(o.With(op), view, locals) == Evaluated(Operation(op, o.a, o.b, view), o.e + o.f)
    {
      BothRead(o, op, view, locals);
    }
  }

  // ------------------------------------------------------------- comparing

  /** Integers compare as integers. */
  lemma IntegersCompared(o: Operands, i: int, j: int, view: View, locals: Locals)
    requires o.Hold(view, locals) && o.a == Integer(i) && o.b == Integer(j)
    ensures o.Are(Less, Boolean(i < j), view, locals) && o.Are(LessOrEqual, Boolean(i <= j), view, locals)
    ensures o.Are(Greater, Boolean(i > j), view, locals) && o.Are(GreaterOrEqual, Boolean(i >= j), view, locals)
    ensures o.Are(Equal, Boolean(i == j), view, locals) && o.Are(NotEqual, Boolean(i != j), view, locals)
  {
    ComparisonsRead(o, view, locals);
    hide Evaluate;
    assert i as real < j as real <==> i < j;
    assert i as real == j as real <==> i == j;
  }

  /** The number a value is, integers among them. */
  predicate Stands(v: Value, x: real) { v == Number(x) || (v.Integer? && x == v.integer as real) }

  /** Numbers of either kind compare by size. */
  lemma NumbersCompared(o: Operands, x: real, y: real, view: View, locals: Locals)
    requires o.Hold(view, locals) && Stands(o.a, x) && Stands(o.b, y)
    ensures o.Are(Less, Boolean(x < y), view, locals) && o.Are(LessOrEqual, Boolean(x <= y), view, locals)
    ensures o.Are(Greater, Boolean(x > y), view, locals) && o.Are(GreaterOrEqual, Boolean(x >= y), view, locals)
    ensures o.Are(Equal, Boolean(x == y), view, locals) && o.Are(NotEqual, Boolean(x != y), view, locals)
  {
    ComparisonsRead(o, view, locals);
    hide Evaluate;
  }

  /** Two texts that share a beginning and then differ, or of which one ends there. */
  predicate PartWays(s: string, t: string) { s == "" || t == "" || s[0] != t[0] }

  lemma {:induction false} SharedBeginning(s: string, t: string) returns (shared: string, u: string, v: string)
    ensures s == shared + u && t == shared + v && PartWays(u, v)
  {
    if PartWays(s, t) {
      shared, u, v := "", s, t;
    } else {
      var rest;
      rest, u, v := SharedBeginning(s[1..], t[1..]);
      shared := [s[0]] + rest;
      assert s == [s[0]] + s[1..] && t == [s[0]] + t[1..];
    }
  }

  /** Whether the rest of a text comes before the rest of another. */
  predicate Sooner(u: string, v: string) { v != "" && (u == "" || u[0] < v[0]) }

  lemma {:induction false} OrderedByRest(shared: string, u: string, v: string)
    requires PartWays(u, v)
    ensures TextLess(shared + u, shared + v) <==> Sooner(u, v)
    ensures shared + u == shared + v <==> u == "" && v == ""
  {
    if shared == "" {
      assert shared + u == u && shared + v == v;
    } else {
      assert (shared + u)[1..] == shared[1..] + u && (shared + v)[1..] == shared[1..] + v;
      OrderedByRest(shared[1..], u, v);
      assert shared + u == [shared[0]] + (shared[1..] + u) && shared + v == [shared[0]] + (shared[1..] + v);
    }
  }

  /** Strings are ordered by the first character in which they differ, and a string comes
      before what it begins. Any two strings are such a pair (`SharedBeginning`). */
  lemma StringsCompared(o: Operands, shared: string, u: string, v: string, view: View, locals: Locals)
    requires o.Hold(view, locals) && o.a == String(shared + u) && o.b == String(shared + v) && PartWays(u, v)
    ensures o.Are(Less, Boolean(Sooner(u, v)), view, locals) && o.Are(Greater, Boolean(Sooner(v, u)), view, locals)
    ensures o.Are(LessOrEqual, Boolean(!Sooner(v, u)), view, locals)
    ensures o.Are(GreaterOrEqual, Boolean(!Sooner(u, v)), view, locals)
    ensures o.Are(Equal, Boolean(u == "" && v == ""), view, locals)
    ensures o.Are(NotEqual, Boolean(u != "" || v != ""), view, locals)
  {
    ComparisonsRead(o, view, locals);
    OrderedByRest(shared, u, v);
    OrderedByRest(shared, v, u);
    hide Evaluate, TextLess;
  }

  predicate IsNumber(v: Value) { v.Integer? || v.Number? }

  /** Nothing else has an order: two strings, or two numbers. */
  lemma OthersHaveNoOrder(o: Operands, op: BinaryOperator, view: View, locals: Locals)
    requires o.Hold(view, locals) && op in {Less, LessOrEqual, Greater, GreaterOrEqual}
    requires !(o.a.String? && o.b.String?) && !(IsNumber(o.a) && IsNumber(o.b))
    ensures Fails(o.With(op), CannotCompare, o.e + o.f, view, locals)
  {
  }

  /** A null, a boolean or a string equals only itself. */
  lemma PlainValuesEqualThemselves(o: Operands, view: View, locals: Locals)
    requires o.Hold(view, locals) && (o.a.Null? || o.a.Boolean? || o.a.String? || o.b.Null? || o.b.Boolean? || o.b.String?)
    ensures o.Are(Equal, Boolean(o.a == o.b), view, locals) && o.Are(NotEqual, Boolean(o.a != o.b), view, locals)
  {
  }

  /** Lists and objects are compared as if they were zero: they equal one another and nothing
      else but zero. */
  lemma ContainersEqualZero(o: Operands, x: real, view: View, locals: Locals)
    requires o.Hold(view, locals) && (o.a.List? || o.a.Object?)
    ensures o.b.List? || o.b.Object? ==> o.Are(Equal, Boolean(true), view, locals)
    ensures Stands(o.b, x) ==> o.Are(Equal, Boolean(x == 0.0), view, locals)
  {
  }

  // ------------------------------------------------------------- arithmetic and text

  lemma IntegersAdded(o: Operands, i: int, j: int, view: View, locals: Locals)
    requires o.Hold(view, locals) && o.a == Integer(i) && o.b == Integer(j)
    ensures o.Are(Add, Integer(i + j), view, locals) && o.Are(Subtract, Integer(i - j), view, locals)
  {
  }

  /** What is no number counts as zero. */
  predicate Counts(v: Value, x: real) { if IsNumber(v) then Stands(v, x) else x == 0.0 }

  /** Unless both are integers the sum is none, and what is no number counts as zero in it; a
      string counts so only in a difference. */
  lemma NumbersAdded(o: Operands, x: real, y: real, view: View, locals: Locals)
    requires o.Hold(view, locals) && Counts(o.a, x) && Counts(o.b, y) && !(o.a.Integer? && o.b.Integer?)
    ensures !o.a.String? && !o.b.String? ==> o.Are(Add, Number(x + y), view, locals)
    ensures o.Are(Subtract, Number(x - y), view, locals)
  {
  }

  /** How a value reads in a page. */
  ghost predicate Reads(v: Value, text: string, view: View) {
    || (v == Boolean(true) && text == "true") || (v == Boolean(false) && text == "false")
    || (v.Integer? && text == IntegerText(v.integer)) || (v.Number? && text == view.numberText(v.number))
    || v == String(text) || ((v.Null? || v.List? || v.Object?) && text == "")
  }

  lemma TextIsHowItReads(v: Value, view: View)
    ensures Reads(v, ToText(v, view), view)
    ensures forall text | Reads(v, text, view) :: text == ToText(v, view)
  {
  }

  /** `~` joins what two values read as, and so does `+` when one of them is a string. */
  lemma TextsJoined(o: Operands, s: string, t: string, view: View, locals: Locals)
    requires o.Hold(view, locals) && Reads(o.a, s, view) && Reads(o.b, t, view)
    ensures o.Are(Concatenate, String(s + t), view, locals)
    ensures o.a.String? || o.b.String? ==> o.Are(Add, String(s + t), view, locals)
  {
  }

  /** An operand that fails, fails the whole, with what was read until then. */
  lemma OperandsFail(left: Node, right: Node, op: BinaryOperator, height: nat, problem: Problem, a: Value,
                     e: seq<Event>, f: seq<Event>, view: View, locals: Locals)
    requires !op.And? && !op.Or?
    ensures Fails(left, problem, e, view, locals) ==> Fails(Binary(op, left, right, height), problem, e, view, locals)
    ensures Gives(left, a, e, view, locals) && Fails(right, problem, f, view, locals) ==>
              Fails(Binary(op, left, right, height), problem, e + f, view, locals)
  {
  }

  // ------------------------------------------------------------- truth

  const FALSE_VALUES := {Null, Boolean(false), Integer(0), Number(0.0), String(""), List([]), Object(map[])}

  lemma TruthyExactly(v: Value)
    ensures v.Truthy() <==> v !in FALSE_VALUES
  {
  }

  lemma Negated(n: Node, v: Value, e: seq<Event>, height: nat, view: View, locals: Locals)
    requires Gives(n, v, e, view, locals)
    ensures Gives(Not(n, height), Boolean(v in FALSE_VALUES), e, view, locals)
  {
    TruthyExactly(v);
  }

  /** `and` and `or` give the left value when it decides, and then the right side is not read
      at all; otherwise the right one. */
  lemma Decided(left: Node, a: Value, e: seq<Event>, right: Node, height: nat, view: View, locals: Locals)
    requires Gives(left, a, e, view, locals)
    ensures var r := Evaluate(right, view, locals);
            && Evaluate(Binary(And, left, right, height), view, locals)
                 == (if a in FALSE_VALUES then Evaluated(Success(a), e) else Evaluated(r.result, e + r.events))
            && Evaluate(Binary(Or, left, right, height), view, locals)
                 == (if a in FALSE_VALUES then Evaluated(r.result, e + r.events) else Evaluated(Success(a), e))
  {
    TruthyExactly(a);
  }

  // ------------------------------------------------------------- members

  lemma MembersOfLists(n: Node, items: seq<Value>, member: string, e: seq<Event>, height: nat, view: View, locals: Locals)
    requires Gives(n, List(items), e, view, locals)
    ensures var m := Member(n, member, height);
            && (member in ["size", "count", "elems"] ==> Gives(m, Integer(|items|), e, view, locals))
            && (member == "first" ==> Gives(m, if items == [] then Null else items[0], e, view, locals))
            && (member == "last" ==> Gives(m, if items == [] then Null else items[|items| - 1], e, view, locals))
            && (member !in ["size", "count", "elems", "first", "last"] ==> Fails(m, CannotRead, e, view, locals))
  {
  }

  lemma MembersOfOthers(n: Node, v: Value, member: string, e: seq<Event>, height: nat, view: View, locals: Locals)
    requires Gives(n, v, e, view, locals) && !v.List?
    ensures var m := Member(n, member, height);
            && (v.Object? && member in v.members ==> Gives(m, v.members[member], e, view, locals))
            && (v.Object? && member !in v.members ==> Gives(m, Null, e, view, locals))
            && (v.String? && member in ["chars", "elems"] ==> Gives(m, Integer(|v.text|), e, view, locals))
            && (v.String? && member !in ["chars", "elems"] ==> Fails(m, CannotRead, e, view, locals))
            && (!v.Object? && !v.String? ==> Fails(m, CannotRead, e, view, locals))
  {
  }

  // ------------------------------------------------------------- names

  /** A name is the local, or else the view value, or else what the function of that name
      gives with no arguments; and only the first two are reads. */
  lemma NamesResolved(name: string, view: View, locals: Locals)
    ensures var n := Name(name);
            && (name in locals ==> Gives(n, locals[name], [Read(name, locals[name], true)], view, locals))
            && (name !in locals && name in view.values ==>
                  Gives(n, view.values[name], [Read(name, view.values[name], false)], view, locals))
            && (name !in locals && name !in view.values && name in view.functions ==>
                  Gives(n, view.functions[name]([]), [], view, locals))
            && (name !in locals && name !in view.values && name !in view.functions ==> Fails(n, NoSuchName, [], view, locals))
    ensures var n := Variable(name);
            if name in locals then Gives(n, locals[name], [Read(name, locals[name], true)], view, locals)
            else Fails(n, NoSuchLocal, [], view, locals)
  {
  }

  lemma LiteralsGiven(i: int, text: string, b: bool, token: string, view: View, locals: Locals)
    ensures Gives(LiteralInteger(i), Integer(i), [], view, locals) && Gives(LiteralString(text), String(text), [], view, locals)
    ensures Gives(LiteralBoolean(b), Boolean(b), [], view, locals) && Gives(LiteralNull, Null, [], view, locals)
    ensures Gives(LiteralNumber(token), Number(view.toNumber(token)), [], view, locals)
  {
  }

  // ------------------------------------------------------------- calls and maps

  /** An argument with the block around it taken off. */
  function Inside(argument: Node): Node { if argument.Block? then argument.target else argument }

  function KeyOf(argument: Node): string { if argument.NamedArgument? then argument.key else "" }

  function Concat<T>(parts: seq<seq<T>>): seq<T> { if parts == [] then [] else parts[0] + Concat(parts[1..]) }

  /** The arguments have these values and reads, one by one. */
  ghost predicate GiveAll(arguments: seq<Node>, values: seq<Value>, events: seq<seq<Event>>, view: View, locals: Locals) {
    && |values| == |arguments| == |events|
    && forall i | 0 <= i < |arguments| :: Gives(Inside(arguments[i]), values[i], events[i], view, locals)
  }

  function Handed(arguments: seq<Node>, values: seq<Value>): seq<Given>
    requires |values| == |arguments|
  {
    seq(|arguments|, i requires 0 <= i < |arguments| => Given(KeyOf(arguments[i]), values[i]))
  }

  lemma {:induction false} ArgumentsHanded(arguments: seq<Node>, values: seq<Value>, events: seq<seq<Event>>, view: View,
                                           locals: Locals)
    requires GiveAll(arguments, values, events, view, locals)
    ensures EvaluateArguments(arguments, view, locals) == Evaluated(Success(Handed(arguments, values)), Concat(events))
  {
    hide Evaluate;
    if arguments == [] {
      assert Handed(arguments, values) == [];
    } else {
      ArgumentsHanded(arguments[1..], values[1..], events[1..], view, locals);
      assert Gives(Inside(arguments[0]), values[0], events[0], view, locals);
      assert EvaluateArgument(arguments[0], view, locals)
          == Evaluated(Success(Given(KeyOf(arguments[0]), values[0])), events[0]);
      assert Handed(arguments, values) == [Given(KeyOf(arguments[0]), values[0])] + Handed(arguments[1..], values[1..]);
    }
  }

  /** A named argument is what it names, a block stands only for an argument, and what is made
      of one value fails as that does. */
  lemma WrappedGiven(n: Node, key: string, height: nat, problem: Problem, e: seq<Event>, view: View, locals: Locals)
    ensures Evaluate(NamedArgument(key, n, height), view, locals) == Evaluate(n, view, locals)
    ensures Fails(Block(n, height), MisplacedBlock, [], view, locals)
    ensures Fails(n, problem, e, view, locals) ==>
              Fails(Not(n, height), problem, e, view, locals) && Fails(Member(n, key, height), problem, e, view, locals)
  {
  }

  lemma {:induction false} ArgumentsStop(front: seq<Node>, values: seq<Value>, events: seq<seq<Event>>, n: Node, back: seq<Node>,
                                         problem: Problem, e: seq<Event>, view: View, locals: Locals)
    requires GiveAll(front, values, events, view, locals) && Fails(Inside(n), problem, e, view, locals)
    ensures EvaluateArguments(front + ([n] + back), view, locals) == Evaluated(Failure(problem), Concat(events) + e)
    decreases front
  {
    hide Evaluate;
    var all := front + ([n] + back);
    if front == [] {
      assert all == [n] + back && [] + e == e;
    } else {
      ArgumentsStop(front[1..], values[1..], events[1..], n, back, problem, e, view, locals);
      assert all[1..] == front[1..] + ([n] + back);
      assert Gives(Inside(front[0]), values[0], events[0], view, locals);
      assert EvaluateArgument(all[0], view, locals) == Evaluated(Success(Given(KeyOf(front[0]), values[0])), events[0]);
      assert events[0] + (Concat(events[1..]) + e) == Concat(events) + e;
    }
  }

  /** The first argument that fails, fails the call, and none after it is read. */
  lemma CallsStop(f: string, front: seq<Node>, values: seq<Value>, events: seq<seq<Event>>, n: Node, back: seq<Node>,
                  height: nat, problem: Problem, e: seq<Event>, view: View, locals: Locals)
    requires f in view.functions && GiveAll(front, values, events, view, locals) && Fails(Inside(n), problem, e, view, locals)
    ensures Fails(Call(Name(f), front + ([n] + back), height), problem, Concat(events) + e, view, locals)
  {
    hide EvaluateArguments, Concat;
    ArgumentsStop(front, values, events, n, back, problem, e, view, locals);
    var call := Call(Name(f), front + ([n] + back), height);
    assert Evaluate(call, view, locals) == EvaluateCall(call, view, locals);
  }

  /** A function is given its arguments in the order they are written, each under its name. */
  lemma FunctionsCalled(f: string, arguments: seq<Node>, values: seq<Value>, events: seq<seq<Event>>, height: nat, view: View,
                        locals: Locals)
    requires f in view.functions && GiveAll(arguments, values, events, view, locals)
    ensures Gives(Call(Name(f), arguments, height), view.functions[f](Handed(arguments, values)), Concat(events), view, locals)
  {
    hide EvaluateArguments, Handed, Concat;
    ArgumentsHanded(arguments, values, events, view, locals);
    var n := Call(Name(f), arguments, height);
    assert Evaluate(n, view, locals) == EvaluateCall(n, view, locals);
  }

  /** `x.f(...)` calls `f` too, and does not look at `x`; `x.f()` reads the member. */
  lemma MembersCalled(target: Node, f: string, arguments: seq<Node>, height: nat, view: View, locals: Locals)
    ensures var member := Member(target, f, target.Stored() + 1);
            Evaluate(Call(member, arguments, height), view, locals)
              == Evaluate(if arguments == [] then member else Call(Name(f), arguments, height), view, locals)
  {
    hide EvaluateArguments;
    var member := Member(target, f, target.Stored() + 1);
    assert Evaluate(Call(member, arguments, height), view, locals) == EvaluateCall(Call(member, arguments, height), view, locals);
    assert Evaluate(Call(Name(f), arguments, height), view, locals) == EvaluateCall(Call(Name(f), arguments, height), view, locals);
  }

  /** What is no function can be called only by its bare name, as the value it is. */
  lemma OthersCalled(name: string, arguments: seq<Node>, height: nat, view: View, locals: Locals)
    requires name !in view.functions
    ensures arguments == [] && (name in locals || name in view.values) ==>
              Evaluate(Call(Name(name), arguments, height), view, locals) == Evaluate(Name(name), view, locals)
    ensures arguments != [] || (name !in locals && name !in view.values) ==>
              Fails(Call(Name(name), arguments, height), NoSuchName, [], view, locals)
  {
    hide EvaluateArguments;
    var n := Call(Name(name), arguments, height);
    assert Evaluate(n, view, locals) == EvaluateCall(n, view, locals);
  }

  /** The last entry of a key, from the end. */
  function LastOf(keys: seq<string>, key: string): (i: int)
    ensures -1 <= i < |keys| && (i >= 0 ==> keys[i] == key)
  {
    if keys == [] then -1
    else if keys[|keys| - 1] == key then |keys| - 1
    else LastOf(keys[..|keys| - 1], key)
  }

  function Entry(key: string, value: Node): Node { NamedArgument(key, value, value.Stored() + 1) }

  function Entries(keys: seq<string>, trees: seq<Node>): seq<Node>
    requires |keys| == |trees|
  {
    seq(|keys|, i requires 0 <= i < |keys| => Entry(keys[i], trees[i]))
  }

  ghost predicate Holds(m: map<string, Value>, sofar: map<string, Value>, keys: seq<string>, values: seq<Value>)
    requires |keys| == |values|
  {
    && (forall key | key in m :: key in sofar || key in keys)
    && (forall key | key in sofar || key in keys :: key in m)
    && forall key | key in m ::
         var i := LastOf(keys, key);
         if i >= 0 then m[key] == values[i] else key in sofar && m[key] == sofar[key]
  }

  lemma {:induction false} LastFound(keys: seq<string>, key: string)
    ensures LastOf(keys, key) >= 0 <==> key in keys
    ensures keys != [] ==>
              LastOf(keys, key)
                == if LastOf(keys[1..], key) >= 0 then 1 + LastOf(keys[1..], key) else if keys[0] == key then 0 else -1
    decreases |keys|
  {
    if keys != [] {
      var n := |keys| - 1;
      var front := keys[..n];
      LastFound(front, key);
      assert keys == front + [keys[n]];
      if n > 0 {
        assert keys[1..][..n - 1] == front[1..] && keys[1..][n - 1] == keys[n];
      } else {
        assert keys[1..] == [] && front == [];
      }
    }
  }

  lemma {:induction false} EntriesHeld(keys: seq<string>, trees: seq<Node>, values: seq<Value>, events: seq<seq<Event>>,
                                       sofar: map<string, Value>, view: View, locals: Locals) returns (m: map<string, Value>)
    requires |keys| == |trees| == |values| == |events|
    requires forall i | 0 <= i < |trees| :: Gives(trees[i], values[i], events[i], view, locals)
    ensures EvaluateEntries(Entries(keys, trees), sofar, view, locals) == Evaluated(Success(Object(m)), Concat(events))
    ensures Holds(m, sofar, keys, values)
  {
    hide Evaluate;
    if keys == [] {
      m := sofar;
    } else {
      var next := sofar[keys[0] := values[0]];
      m := EntriesHeld(keys[1..], trees[1..], values[1..], events[1..], next, view, locals);
      assert Gives(trees[0], values[0], events[0], view, locals);
      assert Entries(keys, trees)[1..] == Entries(keys[1..], trees[1..]);
      HoldsMore(m, sofar, keys, values);
    }
  }

  lemma HoldsMore(m: map<string, Value>, sofar: map<string, Value>, keys: seq<string>, values: seq<Value>)
    requires |keys| == |values| && keys != [] && Holds(m, sofar[keys[0] := values[0]], keys[1..], values[1..])
    ensures Holds(m, sofar, keys, values)
  {
    forall key ensures key in keys <==> key == keys[0] || key in keys[1..] {
      assert keys == [keys[0]] + keys[1..];
    }
    forall key | key in m
      ensures var i := LastOf(keys, key);
              if i >= 0 then m[key] == values[i] else key in sofar && m[key] == sofar[key]
    {
      LastFound(keys, key);
    }
  }

  /** A map written out has just the keys written in it, each with the last value written for
      it, and reads them all in order. */
  lemma MapsBuilt(keys: seq<string>, trees: seq<Node>, values: seq<Value>, events: seq<seq<Event>>, height: nat, view: View,
                  locals: Locals) returns (m: map<string, Value>)
    requires |keys| == |trees| == |values| == |events|
    requires forall i | 0 <= i < |trees| :: Gives(trees[i], values[i], events[i], view, locals)
    ensures Gives(MapOf(Entries(keys, trees), height), Object(m), Concat(events), view, locals)
    ensures forall key :: key in m <==> key in keys
    ensures forall key | key in m :: LastOf(keys, key) >= 0 && m[key] == values[LastOf(keys, key)]
  {
    hide EvaluateEntries;
    m := EntriesHeld(keys, trees, values, events, map[], view, locals);
    forall key | key in m ensures LastOf(keys, key) >= 0 { LastFound(keys, key); }
  }

  lemma {:induction false} EntriesStop(keys: seq<string>, trees: seq<Node>, values: seq<Value>, events: seq<seq<Event>>, key: string,
                                       n: Node, back: seq<Node>, problem: Problem, e: seq<Event>, sofar: map<string, Value>,
                                       view: View, locals: Locals)
    requires |keys| == |trees| == |values| == |events| && Fails(n, problem, e, view, locals)
    requires forall i | 0 <= i < |trees| :: Gives(trees[i], values[i], events[i], view, locals)
    ensures EvaluateEntries(Entries(keys, trees) + ([Entry(key, n)] + back), sofar, view, locals)
         == Evaluated(Failure(problem), Concat(events) + e)
    decreases |keys|
  {
    hide Evaluate;
    var all := Entries(keys, trees) + ([Entry(key, n)] + back);
    if keys == [] {
      assert all == [Entry(key, n)] + back && [] + e == e;
    } else {
      EntriesStop(keys[1..], trees[1..], values[1..], events[1..], key, n, back, problem, e, sofar[keys[0] := values[0]], view, locals);
      assert all[1..] == Entries(keys[1..], trees[1..]) + ([Entry(key, n)] + back);
      assert Gives(trees[0], values[0], events[0], view, locals);
      assert events[0] + (Concat(events[1..]) + e) == Concat(events) + e;
    }
  }

  /** The first entry that fails, fails the map, and none after it is read. */
  lemma MapsStop(keys: seq<string>, trees: seq<Node>, values: seq<Value>, events: seq<seq<Event>>, key: string, n: Node,
                 back: seq<Node>, height: nat, problem: Problem, e: seq<Event>, view: View, locals: Locals)
    requires |keys| == |trees| == |values| == |events| && Fails(n, problem, e, view, locals)
    requires forall i | 0 <= i < |trees| :: Gives(trees[i], values[i], events[i], view, locals)
    ensures Fails(MapOf(Entries(keys, trees) + ([Entry(key, n)] + back), height), problem, Concat(events) + e, view, locals)
  {
    hide EvaluateEntries, Entries, Concat;
    EntriesStop(keys, trees, values, events, key, n, back, problem, e, map[], view, locals);
  }
}

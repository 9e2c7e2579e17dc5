/** An evaluation depends on a page only through what it read: asked the same names and
    given the same answers, it does the same. */
module SameReads {
  import opened Strings
  import opened Values
  import opened ViewContexts
  import opened Evaluation
  import opened Template
  import opened Render
  import Expression

  /** One page and the locals in scope on it. */
  datatype Scope = Scope(view: View, locals: Locals)

  /** Two scopes of one site: the same functions, none of them hidden in the second by a
      value, nor by a local that does not hide it in the first. */
  ghost predicate Alike(a: Scope, b: Scope) {
    && a.view.functions == b.view.functions
    && a.view.toNumber == b.view.toNumber && a.view.numberText == b.view.numberText
    && forall f | f in b.view.functions :: f !in b.view.values && (f in b.locals ==> f in a.locals)
  }

  /** No name is a local of one scope and a view value of the other, or a function. */
  ghost predicate Apart(a: Scope, b: Scope) {
    && (forall n | n in a.locals :: n !in b.view.values && n !in b.view.functions)
    && (forall n | n in a.view.values :: n !in b.locals && n !in b.view.functions)
  }

  /** Two runs that both read a name saw the same value. */
  ghost predicate Agree(a: seq<Event>, b: seq<Event>) {
    forall e, e' | e in a && e' in b :: e.Read? && e'.Read? && e.name == e'.name ==> e.value == e'.value
  }

  /** Why a run in `b` must be the run in `a`: either `b` answers all that was read, or it
      succeeds and never disagrees. */
  ghost predicate Answers<T>(x: Evaluated<T>, y: Evaluated<T>, a: Scope, b: Scope) {
    || Owns(x.events, b.view.values, b.locals)
    || (y.result.Success? && Apart(a, b) && Agree(x.events, y.events))
  }

  lemma {:induction false} EvaluateSame(n: Expression.Node, a: Scope, b: Scope)
    requires Alike(a, b) && Evaluate(n, a.view, a.locals).result.Success?
    requires Answers(Evaluate(n, a.view, a.locals), Evaluate(n, b.view, b.locals), a, b)
    ensures Evaluate(n, b.view, b.locals) == Evaluate(n, a.view, a.locals)
    decreases n, 1
  {
    match n
    case Member(target, _, _) => EvaluateSame(target, a, b);
    case NamedArgument(_, target, _) => EvaluateSame(target, a, b);
    case MapOf(entries, _) => EntriesSame(entries, map[], a, b);
    case Not(target, _) => EvaluateSame(target, a, b);
    case Binary(op, left, right, _) => BinarySame(n, a, b);
    case Call(_, _, _) => CallSame(n, a, b);
    case Variable(name) =>
      assert name in a.locals && a.locals[name] == Evaluate(n, a.view, a.locals).result.value;
      var e := Read(name, a.locals[name], true);
      assert e in Evaluate(n, a.view, a.locals).events;
    case Name(name) => NameSame(n, a, b);
    case _ =>
  }

  lemma NameSame(n: Expression.Node, a: Scope, b: Scope)
    requires n.Name? && Alike(a, b) && Evaluate(n, a.view, a.locals).result.Success?
    requires Answers(Evaluate(n, a.view, a.locals), Evaluate(n, b.view, b.locals), a, b)
    ensures Evaluate(n, b.view, b.locals) == Evaluate(n, a.view, a.locals)
  {
    var name := n.name;
    if name in a.locals || name in a.view.values {
      var e := Evaluate(n, a.view, a.locals).events[0];
      assert e in Evaluate(n, a.view, a.locals).events;
    }
  }

  lemma {:induction false} BinarySame(n: Expression.Node, a: Scope, b: Scope)
    requires n.Binary? && Alike(a, b) && Evaluate(n, a.view, a.locals).result.Success?
    requires Answers(Evaluate(n, a.view, a.locals), Evaluate(n, b.view, b.locals), a, b)
    ensures Evaluate(n, b.view, b.locals) == Evaluate(n, a.view, a.locals)
    decreases n, 0
  {
    hide Evaluate, Operation;
    BinaryParts(n, a);
    BinaryParts(n, b);
    EvaluateSame(n.left, a, b);
    var l := Evaluate(n.left, a.view, a.locals);
    if !Decided(n.op, l.result.value) {
      EvaluateSame(n.right, a, b);
      OperationSame(n.op, l.result.value, Evaluate(n.right, a.view, a.locals).result.value, a, b);
    }
  }

  /** Whether the left operand is the answer. */
  predicate Decided(op: Expression.BinaryOperator, left: Value) {
    (op.And? && !left.Truthy()) || (op.Or? && left.Truthy())
  }

  lemma BinaryParts(n: Expression.Node, a: Scope)
    requires n.Binary?
    ensures var l, whole := Evaluate(n.left, a.view, a.locals), Evaluate(n, a.view, a.locals);
            if l.result.Failure? || Decided(n.op, l.result.value) then whole == l
            else
              var r := Evaluate(n.right, a.view, a.locals);
              && whole.events == l.events + r.events
              && whole.result ==
                   if n.op.And? || n.op.Or? || r.result.Failure? then r.result
                   else Operation(n.op, l.result.value, r.result.value, a.view)
  {
    hide Operation;
  }

  lemma OperationSame(op: Expression.BinaryOperator, l: Value, r: Value, a: Scope, b: Scope)
    requires Alike(a, b)
    ensures !op.And? && !op.Or? ==> Operation(op, l, r, a.view) == Operation(op, l, r, b.view)
  {
  }

  lemma {:induction false} CallSame(n: Expression.Node, a: Scope, b: Scope)
    requires n.Call? && Alike(a, b) && EvaluateCall(n, a.view, a.locals).result.Success?
    requires Answers(EvaluateCall(n, a.view, a.locals), EvaluateCall(n, b.view, b.locals), a, b)
    ensures EvaluateCall(n, b.view, b.locals) == EvaluateCall(n, a.view, a.locals)
    decreases n, 0
  {
    var name := if n.target.Name? then n.target.name else n.target.member;
    if n.target.Member? && n.arguments == [] {
      EvaluateSame(n.target, a, b);
    } else if name in a.view.functions {
      ArgumentsSame(n.arguments, a, b);
    } else {
      var e := EvaluateCall(n, a.view, a.locals).events[0];
      assert e in EvaluateCall(n, a.view, a.locals).events;
    }
  }

  lemma {:induction false} ArgumentsSame(arguments: seq<Expression.Node>, a: Scope, b: Scope)
    requires Alike(a, b) && EvaluateArguments(arguments, a.view, a.locals).result.Success?
    requires Answers(EvaluateArguments(arguments, a.view, a.locals), EvaluateArguments(arguments, b.view, b.locals), a, b)
    ensures EvaluateArguments(arguments, b.view, b.locals) == EvaluateArguments(arguments, a.view, a.locals)
    decreases arguments
  {
    if arguments != [] {
      ArgumentSame(arguments[0], a, b);
      ArgumentsSame(arguments[1..], a, b);
    }
  }

  lemma {:induction false} ArgumentSame(n: Expression.Node, a: Scope, b: Scope)
    requires Alike(a, b) && EvaluateArgument(n, a.view, a.locals).result.Success?
    requires Answers(EvaluateArgument(n, a.view, a.locals), EvaluateArgument(n, b.view, b.locals), a, b)
    ensures EvaluateArgument(n, b.view, b.locals) == EvaluateArgument(n, a.view, a.locals)
    decreases n, 2
  {
    hide Evaluate;
    if n.Block? { EvaluateSame(n.target, a, b); } else { EvaluateSame(n, a, b); }
  }

  lemma {:induction false} EntriesSame(entries: seq<Expression.Node>, sofar: map<string, Value>, a: Scope, b: Scope)
    requires Alike(a, b) && EvaluateEntries(entries, sofar, a.view, a.locals).result.Success?
    requires Answers(EvaluateEntries(entries, sofar, a.view, a.locals),
                     EvaluateEntries(entries, sofar, b.view, b.locals), a, b)
    ensures EvaluateEntries(entries, sofar, b.view, b.locals) == EvaluateEntries(entries, sofar, a.view, a.locals)
    decreases entries
  {
    hide Evaluate;
    if entries != [] {
      var value := Evaluate(entries[0].target, a.view, a.locals);
      EvaluateSame(entries[0].target, a, b);
      EntriesSame(entries[1..], sofar[entries[0].key := value.result.value], a, b);
    }
  }

  // ------------------------------------------- the pure parts of rendering

  lemma {:induction false} HoleSame(n: Expression.Node, escape: bool, a: Scope, b: Scope)
    requires Alike(a, b)
    requires var x := HoleText(n, escape, a.view, a.locals); x.result.Success? && Owns(x.events, b.view.values, b.locals)
    ensures HoleText(n, escape, b.view, b.locals) == HoleText(n, escape, a.view, a.locals)
    decreases n
  {
    hide Evaluate;
    EvaluateSame(n, a, b);
  }

  lemma {:induction false} InterpolateSame(parts: seq<Segment>, escape: bool, a: Scope, b: Scope)
    requires Alike(a, b)
    requires var x := Interpolate(parts, escape, a.view, a.locals); x.result.Success? && Owns(x.events, b.view.values, b.locals)
    ensures Interpolate(parts, escape, b.view, b.locals) == Interpolate(parts, escape, a.view, a.locals)
    decreases parts
  {
    if parts != [] {
      if parts[0].Hole? { HoleSame(parts[0].value, escape, a, b); }
      hide HoleText;
      InterpolateSame(parts[1..], escape, a, b);
    }
  }

  lemma {:induction false} MarksSame(attributes: seq<Attribute>, marks: Marks, a: Scope, b: Scope)
    requires Alike(a, b)
    requires var x := GatherMarks(attributes, marks, a.view, a.locals); x.result.Success? && Owns(x.events, b.view.values, b.locals)
    ensures GatherMarks(attributes, marks, b.view, b.locals) == GatherMarks(attributes, marks, a.view, a.locals)
    decreases attributes
  {
    hide Interpolate, Mark;
    if attributes != [] {
      var at := attributes[0];
      if at.shorthand {
        MarksSame(attributes[1..], marks, a, b);
      } else {
        InterpolateSame(at.value, false, a, b);
        var value := Interpolate(at.value, false, a.view, a.locals);
        MarksSame(attributes[1..], Mark(marks, at.name, value.result.value), a, b);
      }
    }
  }

  lemma {:induction false} AttributeSame(at: Attribute, a: Scope, b: Scope)
    requires Alike(a, b)
    requires var x := AttributeText(at, a.view, a.locals); x.result.Success? && Owns(x.events, b.view.values, b.locals)
    ensures AttributeText(at, b.view, b.locals) == AttributeText(at, a.view, a.locals)
    decreases at
  {
    hide Interpolate, Evaluate;
    if at.name != "class" && at.name != "id" && !at.shorthand {
      InterpolateSame(at.value, false, a, b);
      if |at.value| == 1 && at.value[0].Hole? { EvaluateSame(at.value[0].value, a, b); }
    }
  }

  lemma {:induction false} AttributesSame(attributes: seq<Attribute>, a: Scope, b: Scope)
    requires Alike(a, b)
    requires var x := AttributesText(attributes, a.view, a.locals); x.result.Success? && Owns(x.events, b.view.values, b.locals)
    ensures AttributesText(attributes, b.view, b.locals) == AttributesText(attributes, a.view, a.locals)
    decreases attributes
  {
    hide AttributeText;
    if attributes != [] {
      AttributeSame(attributes[0], a, b);
      AttributesSame(attributes[1..], a, b);
    }
  }

  lemma {:induction false} OpenTagSame(content: Content, a: Scope, b: Scope)
    requires Alike(a, b) && content.Element?
    requires var x := OpenTag(content, a.view, a.locals); x.result.Success? && Owns(x.events, b.view.values, b.locals)
    ensures OpenTag(content, b.view, b.locals) == OpenTag(content, a.view, a.locals)
    decreases content
  {
    hide GatherMarks, AttributesText;
    MarksSame(content.attributes, Marks(JoinClasses("", content.classes), content.id), a, b);
    AttributesSame(content.attributes, a, b);
  }

  lemma {:induction false} FilterBodySame(children: seq<Node>, a: Scope, b: Scope)
    requires Alike(a, b)
    requires var x := FilterBody(children, a.view, a.locals); x.result.Success? && Owns(x.events, b.view.values, b.locals)
    ensures FilterBody(children, b.view, b.locals) == FilterBody(children, a.view, a.locals)
    decreases children
  {
    hide Interpolate, PartsOf;
    if children != [] {
      InterpolateSame(PartsOf(children[0].content), false, a, b);
      FilterBodySame(children[1..], a, b);
    }
  }

  lemma {:induction false} FilterSame(node: Node, a: Scope, b: Scope)
    requires Alike(a, b) && node.content.Filter?
    requires var x := RenderFilter(node, a.view, a.locals); x.result.Success? && Owns(x.events, b.view.values, b.locals)
    ensures RenderFilter(node, b.view, b.locals) == RenderFilter(node, a.view, a.locals)
    decreases node
  {
    hide FilterBody;
    FilterBodySame(node.children, a, b);
  }

  lemma {:induction false} BranchSame(branch: Node, a: Scope, b: Scope)
    requires Alike(a, b) && branch.content.Control?
    requires var x := BranchTaken(branch, a.view, a.locals); x.result.Success? && Owns(x.events, b.view.values, b.locals)
    ensures BranchTaken(branch, b.view, b.locals) == BranchTaken(branch, a.view, a.locals)
    decreases branch
  {
    hide Evaluate;
    if !branch.content.control.Else? { EvaluateSame(branch.content.condition.value, a, b); }
  }

  // ------------------------------------------------ the arguments of a partial

  lemma OptionSame(n: Option<Expression.Node>, a: Scope, b: Scope)
    requires Alike(a, b) && EvaluateOption(n, a.view, a.locals).result.Success?
    requires Answers(EvaluateOption(n, a.view, a.locals), EvaluateOption(n, b.view, b.locals), a, b)
    ensures EvaluateOption(n, b.view, b.locals) == EvaluateOption(n, a.view, a.locals)
  {
    hide Evaluate;
    if n.Some? { EvaluateSame(n.value, a, b); }
  }

  lemma ScopeSame(name: string, root: Node, arguments: seq<Expression.Node>, a: Scope, b: Scope)
    requires Alike(a, b) && ReadScope(name, root, arguments, a.view, a.locals).result.Success?
    requires Answers(ReadScope(name, root, arguments, a.view, a.locals), ReadScope(name, root, arguments, b.view, b.locals), a, b)
    ensures ReadScope(name, root, arguments, b.view, b.locals) == ReadScope(name, root, arguments, a.view, a.locals)
  {
    hide EvaluateOption;
    OptionSame(Named(arguments, "locals"), a, b);
    OptionSame(Named(arguments, "collection"), a, b);
    OptionSame(Named(arguments, "as"), a, b);
  }

  /** Where the second page finds the same template for the name the first call found. */
  lemma RequestSame(arguments: seq<Expression.Node>, p: Page, locals: Locals, q: Page, others: Locals, roomP: nat, roomQ: nat)
    requires var a, b := Scope(p.view, locals), Scope(q.view, others);
             var x, y := ReadRequest(arguments, p, locals, roomP), ReadRequest(arguments, q, others, roomQ);
             && Alike(a, b) && x.result.Success? && roomQ > 0 && Answers(x, y, a, b)
             && p.options.Found(x.result.value.name) == q.options.Found(x.result.value.name)
    ensures ReadRequest(arguments, q, others, roomQ) == ReadRequest(arguments, p, locals, roomP)
  {
    RequestName(arguments, p, locals, roomP);
    hide Evaluate, ReadScope;
    var a, b := Scope(p.view, locals), Scope(q.view, others);
    var name := Named(arguments, "partial").value;
    EvaluateSame(name, a, b);
    var target := Evaluate(name, p.view, locals).result.value.AsString();
    ScopeSame(target, p.options.partials.value[target], arguments, a, b);
  }

  /** What a call that succeeds asks for is the template its name finds. */
  lemma RequestName(arguments: seq<Expression.Node>, p: Page, locals: Locals, room: nat)
    requires ReadRequest(arguments, p, locals, room).result.Success?
    ensures var given := ReadRequest(arguments, p, locals, room).result.value;
            var name := Evaluate(Named(arguments, "partial").value, p.view, locals).result.value.AsString();
            given.name == name && p.options.Found(name) == Some(given.root)
  {
    hide Evaluate, EvaluateOption;
  }
}

/** Rendering without a cache depends on a page only through the view values it read. */
module Steady {
  import opened Strings
  import opened Values
  import opened ViewContexts
  import opened Evaluation
  import opened Template
  import opened Render
  import opened SameReads
  import Expression

  /** Two pages of one site. */
  ghost predicate OneSite(p: Page, q: Page) {
    && p.view.functions == q.view.functions
    && p.view.toNumber == q.view.toNumber && p.view.numberText == q.view.numberText
    && forall f | f in q.view.functions :: f !in q.view.values
  }

  /** The second page answers as the first does: a view value read is the same, and so are
      the text that the layout wraps and the template that a name finds. */
  ghost predicate AnsweredAlike(e: Event, p: Page, q: Page) {
    match e
    case Read(name, _, local) =>
      !local && name in p.view.values ==> name in q.view.values && q.view.values[name] == p.view.values[name]
    case WriteBody => p.options.body == q.options.body
    case Find(name) => p.options.Found(name) == q.options.Found(name)
    case _ => true
  }

  ghost predicate Known(events: seq<Event>, p: Page, q: Page) { forall e | e in events :: AnsweredAlike(e, p, q) }

  lemma KnownParts(a: seq<Event>, b: seq<Event>, p: Page, q: Page)
    requires Known(a + b, p, q)
    ensures Known(a, p, q) && Known(b, p, q)
  {
    hide AnsweredAlike;
    assert forall e | e in a :: e in a + b;
    assert forall e | e in b :: e in a + b;
  }

  lemma OwnsMoves(events: seq<Event>, p: Page, q: Page, locals: Locals)
    requires Owns(events, p.view.values, locals) && Known(events, p, q)
    ensures Owns(events, q.view.values, locals)
  {
    forall e | e in events ensures Owned(e, q.view.values, locals) {
      assert Owned(e, p.view.values, locals) && AnsweredAlike(e, p, q);
    }
  }

  /** The hypothesis every lemma of this module makes of the first run. */
  ghost predicate Kept<T>(r: Rendered<T>, p: Page, q: Page) { r.result.Success? && Known(r.events, p, q) }

  lemma KeptParts<T>(r: Rendered<T>, a: seq<Event>, b: seq<Event>, p: Page, q: Page)
    requires Kept(r, p, q) && r.events == a + b
    ensures Known(a, p, q) && Known(b, p, q)
  {
    hide Known;
    KnownParts(a, b, p, q);
  }

  lemma PureMoves<T>(x: Evaluated<T>, p: Page, q: Page, locals: Locals)
    requires OneSite(p, q) && Owns(x.events, p.view.values, locals) && Known(x.events, p, q)
    ensures Alike(Scope(p.view, locals), Scope(q.view, locals)) && Owns(x.events, q.view.values, locals)
  {
    OwnsMoves(x.events, p, q, locals);
  }

  lemma {:induction false} ChildrenSteady(parent: Node, i: nat, p: Page, q: Page, locals: Locals, room: nat)
    requires i <= |parent.children| && OneSite(p, q)
    requires Kept(RenderChildren(parent, i, p, locals, room, None), p, q)
    ensures RenderChildren(parent, i, q, locals, room, None) == RenderChildren(parent, i, p, locals, room, None)
    decreases room, 1, parent, 1, |parent.children| - i, 1
  {
    hide RenderNode, RenderChain, Known;
    if i < |parent.children| {
      var whole := RenderChildren(parent, i, p, locals, room, None);
      if parent.children[i].IsHead() {
        var chain := RenderChain(parent, i, false, p, locals, room, None);
        var next := chain.result.value.next;
        KeptParts(whole, chain.events, RenderChildren(parent, next, p, locals, room, None).events, p, q);
        ChainSteady(parent, i, false, p, q, locals, room);
        ChildrenSteady(parent, next, p, q, locals, room);
      } else {
        var child := RenderNode(parent.children[i], p, locals, room, None);
        KeptParts(whole, child.events, RenderChildren(parent, i + 1, p, locals, room, None).events, p, q);
        NodeSteady(parent.children[i], p, q, locals, room);
        ChildrenSteady(parent, i + 1, p, q, locals, room);
      }
    }
  }

  lemma {:induction false} ChainSteady(parent: Node, i: nat, taken: bool, p: Page, q: Page, locals: Locals, room: nat)
    requires i < |parent.children| && parent.children[i].IsControl() && OneSite(p, q)
    requires Kept(RenderChain(parent, i, taken, p, locals, room, None), p, q)
    ensures RenderChain(parent, i, taken, q, locals, room, None) == RenderChain(parent, i, taken, p, locals, room, None)
    decreases room, 1, parent, 1, |parent.children| - i, 0
  {
    hide RenderChildren, BranchTaken, Known;
    var branch := parent.children[i];
    var whole := RenderChain(parent, i, taken, p, locals, room, None);
    var condition := if taken then Done(false) else BranchTaken(branch, p.view, locals);
    var body := if condition.result.value then RenderChildren(branch, 0, p, locals, room, None) else Wrote("", None);
    var events := condition.events + body.events;
    var last := !(i + 1 < |parent.children| && parent.children[i + 1].IsTail());
    var now := taken || condition.result.value;
    if last {
      assert whole.events == events + [];
      KeptParts(whole, events, [], p, q);
    } else {
      KeptParts(whole, events, RenderChain(parent, i + 1, now, p, locals, room, None).events, p, q);
    }
    KnownParts(condition.events, body.events, p, q);
    if !taken {
      PureMoves(condition, p, q, locals);
      BranchSame(branch, Scope(p.view, locals), Scope(q.view, locals));
    }
    if condition.result.value { ChildrenSteady(branch, 0, p, q, locals, room); }
    if !last { ChainSteady(parent, i + 1, now, p, q, locals, room); }
  }

  lemma {:induction false} NodeSteady(node: Node, p: Page, q: Page, locals: Locals, room: nat)
    requires OneSite(p, q) && Kept(RenderNode(node, p, locals, room, None), p, q)
    ensures RenderNode(node, q, locals, room, None) == RenderNode(node, p, locals, room, None)
    decreases room, 1, node, 3
  {
    hide RenderChildren, RenderLoop, RenderElement, RenderOutput, Interpolate, RenderFilter, Known;
    var a, b := Scope(p.view, locals), Scope(q.view, locals);
    match node.content
    case Root => ChildrenSteady(node, 0, p, q, locals, room);
    case Text(parts) =>
      PureMoves(Interpolate(parts, true, p.view, locals), p, q, locals);
      InterpolateSame(parts, true, a, b);
    case Output(value, escaped) => OutputSteady(value, escaped, p, q, locals, room);
    case Filter(_) =>
      PureMoves(RenderFilter(node, p.view, locals), p, q, locals);
      FilterSame(node, a, b);
    case Control(_, _, _) => LoopSteady(node, p, q, locals, room);
    case Element(_, _, _, _, _, _) => ElementSteady(node, p, q, locals, room);
    case _ =>
  }

  lemma {:induction false} OutputSteady(value: Expression.Node, escaped: bool, p: Page, q: Page, locals: Locals, room: nat)
    requires OneSite(p, q) && Kept(RenderOutput(value, escaped, p, locals, room, None), p, q)
    ensures RenderOutput(value, escaped, q, locals, room, None) == RenderOutput(value, escaped, p, locals, room, None)
    decreases room, 0, value, 3
  {
    hide RenderEngineCall, HoleText, Escape, Known;
    if IsEngineCall(value) {
      EngineSteady(value, p, q, locals, room);
    } else if value == Expression.Name("yield") {
      BodyAlike(p, q);
    } else {
      PureMoves(HoleText(value, escaped, p.view, locals), p, q, locals);
      HoleSame(value, escaped, Scope(p.view, locals), Scope(q.view, locals));
    }
  }

  lemma BodyAlike(p: Page, q: Page)
    requires Known([WriteBody], p, q)
    ensures p.options.body == q.options.body
  {
    assert AnsweredAlike([WriteBody][0], p, q);
  }

  lemma {:induction false} LoopSteady(node: Node, p: Page, q: Page, locals: Locals, room: nat)
    requires node.content.Control? && OneSite(p, q) && Kept(RenderLoop(node, p, locals, room, None), p, q)
    ensures RenderLoop(node, q, locals, room, None) == RenderLoop(node, p, locals, room, None)
    decreases room, 1, node, 2, 0
  {
    hide LoopItems, Evaluate, Known;
    var whole := RenderLoop(node, p, locals, room, None);
    var items := Evaluate(node.content.condition.value, p.view, locals);
    var walked := LoopItems(node, items.result.value.items, p, locals, room, None);
    KeptParts(whole, items.events, [Keep({})] + (walked.events + [Keep(locals.Keys)]), p, q);
    KnownParts([Keep({})], walked.events + [Keep(locals.Keys)], p, q);
    KnownParts(walked.events, [Keep(locals.Keys)], p, q);
    PureMoves(items, p, q, locals);
    EvaluateSame(node.content.condition.value, Scope(p.view, locals), Scope(q.view, locals));
    ItemsOfLoopSteady(node, items.result.value.items, p, q, locals, room);
  }

  lemma {:induction false} ItemsOfLoopSteady(node: Node, items: seq<Value>, p: Page, q: Page, saved: Locals, room: nat)
    requires node.content.Control? && OneSite(p, q) && Kept(LoopItems(node, items, p, saved, room, None), p, q)
    ensures LoopItems(node, items, q, saved, room, None) == LoopItems(node, items, p, saved, room, None)
    decreases room, 1, node, 1, |node.children| + 1, 0, |items|
  {
    hide RenderChildren, Known;
    if items != [] {
      var whole := LoopItems(node, items, p, saved, room, None);
      var variable := node.content.variable;
      var events := [Keep(saved.Keys), Bind({variable})];
      var scope := saved[variable := items[0]];
      var body := RenderChildren(node, 0, p, scope, room, None);
      KeptParts(whole, events + body.events, LoopItems(node, items[1..], p, saved, room, None).events, p, q);
      KnownParts(events, body.events, p, q);
      ChildrenSteady(node, 0, p, q, scope, room);
      ItemsOfLoopSteady(node, items[1..], p, q, saved, room);
    }
  }

  lemma {:induction false} ElementSteady(node: Node, p: Page, q: Page, locals: Locals, room: nat)
    requires node.content.Element? && OneSite(p, q) && Kept(RenderElement(node, p, locals, room, None), p, q)
    ensures RenderElement(node, q, locals, room, None) == RenderElement(node, p, locals, room, None)
    decreases room, 1, node, 2, 0
  {
    hide RenderChildren, OpenTag, Known;
    var whole := RenderElement(node, p, locals, room, None);
    var tag := OpenTag(node.content, p.view, locals);
    var childless := node.content.selfClosing || node.content.tag in VOID_TAGS || node.children == [];
    var inner := if childless then [] else RenderChildren(node, 0, p, locals, room, None).events;
    assert whole.events == tag.events + inner;
    KeptParts(whole, tag.events, inner, p, q);
    PureMoves(tag, p, q, locals);
    OpenTagSame(node.content, Scope(p.view, locals), Scope(q.view, locals));
    if !childless { ChildrenSteady(node, 0, p, q, locals, room); }
  }

  lemma {:induction false} EngineSteady(n: Expression.Node, p: Page, q: Page, locals: Locals, room: nat)
    requires IsEngineCall(n) && OneSite(p, q) && Kept(RenderEngineCall(n, p, locals, room, None), p, q)
    ensures RenderEngineCall(n, q, locals, room, None) == RenderEngineCall(n, p, locals, room, None)
    decreases room, 0, n, 2
  {
    hide RenderPartialCall, RenderFragmentBody, Known;
    if n.target.name == "render" {
      PartialCallSteady(n, p, q, locals, room);
    } else {
      BodySteady(FragmentOf(n).value, p, q, locals, room);
    }
  }

  lemma {:induction false} BodySteady(body: Expression.Node, p: Page, q: Page, locals: Locals, room: nat)
    requires OneSite(p, q) && Kept(RenderFragmentBody(body, p, locals, room, None), p, q)
    ensures RenderFragmentBody(body, q, locals, room, None) == RenderFragmentBody(body, p, locals, room, None)
    decreases room, 0, body, 3
  {
    hide RenderEngineCall, HoleText, Known;
    if IsEngineCall(body) {
      EngineSteady(body, p, q, locals, room);
    } else {
      PureMoves(HoleText(body, false, p.view, locals), p, q, locals);
      HoleSame(body, false, Scope(p.view, locals), Scope(q.view, locals));
    }
  }

  lemma {:induction false} PartialCallSteady(n: Expression.Node, p: Page, q: Page, locals: Locals, room: nat)
    requires n.Call? && OneSite(p, q) && Kept(RenderPartialCall(n, p, locals, room, None), p, q)
    ensures RenderPartialCall(n, q, locals, room, None) == RenderPartialCall(n, p, locals, room, None)
    decreases room, 0, n, 1
  {
    hide RenderPartial, ReadRequest, Known;
    var whole := RenderPartialCall(n, p, locals, room, None);
    var request := ReadRequest(n.arguments, p, locals, room);
    var inner := RenderPartial(request.result.value, p, room - 1, None);
    PartialEvents(request, inner, whole, locals, p, q);
    FoundAlike(request.result.value.name, p, q);
    PureMoves(request, p, q, locals);
    RequestSame(n.arguments, p, locals, q, locals, room, room);
    PartialSteady(request.result.value, p, q, room - 1);
  }

  lemma PartialEvents(request: Evaluated<Request>, inner: Rendered<string>, whole: Rendered<string>, locals: Locals, p: Page, q: Page)
    requires request.result.Success? && Kept(whole, p, q)
    requires whole.events ==
               request.events + (Entering(request.result.value) + (inner.events + [Keep(locals.Keys)]))
    ensures Known([Find(request.result.value.name)], p, q) && Known(request.events, p, q) && Known(inner.events, p, q)
  {
    hide Known;
    var opening := Entering(request.result.value);
    KeptParts(whole, request.events, opening + (inner.events + [Keep(locals.Keys)]), p, q);
    KnownParts(opening, inner.events + [Keep(locals.Keys)], p, q);
    assert opening == [Find(request.result.value.name)] + opening[1..];
    KnownParts([Find(request.result.value.name)], opening[1..], p, q);
    KnownParts(inner.events, [Keep(locals.Keys)], p, q);
  }

  lemma FoundAlike(name: string, p: Page, q: Page)
    requires Known([Find(name)], p, q)
    ensures p.options.Found(name) == q.options.Found(name)
  {
    assert AnsweredAlike([Find(name)][0], p, q);
  }

  lemma {:induction false} PartialSteady(request: Request, p: Page, q: Page, room: nat)
    requires OneSite(p, q) && Kept(RenderPartial(request, p, room, None), p, q)
    ensures RenderPartial(request, q, room, None) == RenderPartial(request, p, room, None)
    decreases room, 3
  {
    hide RenderChildren, RenderItems, Known;
    if request.items.None? {
      ChildrenSteady(request.root, 0, p, q, request.locals, room);
    } else {
      ItemsSteady(request, request.items.value, p, q, request.locals, room);
    }
  }

  lemma {:induction false} ItemsSteady(request: Request, items: seq<Value>, p: Page, q: Page, locals: Locals, room: nat)
    requires OneSite(p, q) && Kept(RenderItems(request, items, p, locals, room, None), p, q)
    ensures RenderItems(request, items, q, locals, room, None) == RenderItems(request, items, p, locals, room, None)
    decreases room, 2, |items|
  {
    hide RenderChildren, Known;
    if items != [] {
      var whole := RenderItems(request, items, p, locals, room, None);
      var scope := locals[request.alias := items[0]];
      var events := [Bind({request.alias})];
      var one := RenderChildren(request.root, 0, p, scope, room, None);
      KeptParts(whole, events + one.events, RenderItems(request, items[1..], p, scope, room, None).events, p, q);
      KnownParts(events, one.events, p, q);
      ChildrenSteady(request.root, 0, p, q, scope, room);
      ItemsSteady(request, items[1..], p, q, scope, room);
    }
  }
}

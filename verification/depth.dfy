/** Room for nested partials matters only when it runs out: with less of it, a rendering
    without a cache either fails for want of it or is the same. */
module Depth {
  import opened Strings
  import opened Values
  import opened ViewContexts
  import opened Evaluation
  import opened Template
  import opened Render
  import Expression

  predicate TooDeep<T>(r: Result<T>) { r == Failure(PartialsTooDeep) }

  /** The run with less room against the run with more. */
  ghost predicate Shallower<T>(less: Rendered<T>, more: Rendered<T>) { TooDeep(less.result) || less == more }

  lemma {:induction false} ChildrenShallow(parent: Node, i: nat, q: Page, locals: Locals, r: nat, s: nat)
    requires i <= |parent.children| && r <= s
    ensures Shallower(RenderChildren(parent, i, q, locals, r, None), RenderChildren(parent, i, q, locals, s, None))
    decreases r, 1, parent, 1, |parent.children| - i, 1
  {
    hide RenderNode, RenderChain;
    if i < |parent.children| {
      if parent.children[i].IsHead() {
        var chain := RenderChain(parent, i, false, q, locals, r, None);
        ChainShallow(parent, i, false, q, locals, r, s);
        if chain.result.Success? { ChildrenShallow(parent, chain.result.value.next, q, locals, r, s); }
      } else {
        NodeShallow(parent.children[i], q, locals, r, s);
        ChildrenShallow(parent, i + 1, q, locals, r, s);
      }
    }
  }

  lemma {:induction false} ChainShallow(parent: Node, i: nat, taken: bool, q: Page, locals: Locals, r: nat, s: nat)
    requires i < |parent.children| && parent.children[i].IsControl() && r <= s
    ensures Shallower(RenderChain(parent, i, taken, q, locals, r, None), RenderChain(parent, i, taken, q, locals, s, None))
    decreases r, 1, parent, 1, |parent.children| - i, 0
  {
    hide RenderChildren, BranchTaken;
    var condition := if taken then Done(false) else BranchTaken(parent.children[i], q.view, locals);
    if condition.result.Success? {
      if condition.result.value { ChildrenShallow(parent.children[i], 0, q, locals, r, s); }
      if i + 1 < |parent.children| && parent.children[i + 1].IsTail() {
        ChainShallow(parent, i + 1, taken || condition.result.value, q, locals, r, s);
      }
    }
  }

  lemma {:induction false} NodeShallow(node: Node, q: Page, locals: Locals, r: nat, s: nat)
    requires r <= s
    ensures Shallower(RenderNode(node, q, locals, r, None), RenderNode(node, q, locals, s, None))
    decreases r, 1, node, 3
  {
    hide RenderChildren, RenderLoop, RenderElement, RenderOutput, Interpolate, RenderFilter;
    match node.content
    case Root => ChildrenShallow(node, 0, q, locals, r, s);
    case Output(value, escaped) => OutputShallow(value, escaped, q, locals, r, s);
    case Control(_, _, _) => LoopShallow(node, q, locals, r, s);
    case Element(_, _, _, _, _, _) => ElementShallow(node, q, locals, r, s);
    case _ =>
  }

  lemma {:induction false} OutputShallow(value: Expression.Node, escaped: bool, q: Page, locals: Locals, r: nat, s: nat)
    requires r <= s
    ensures Shallower(RenderOutput(value, escaped, q, locals, r, None), RenderOutput(value, escaped, q, locals, s, None))
    decreases r, 0, value, 3
  {
    hide RenderEngineCall, HoleText;
    if IsEngineCall(value) { EngineShallow(value, q, locals, r, s); }
  }

  lemma {:induction false} LoopShallow(node: Node, q: Page, locals: Locals, r: nat, s: nat)
    requires node.content.Control? && r <= s
    ensures Shallower(RenderLoop(node, q, locals, r, None), RenderLoop(node, q, locals, s, None))
    decreases r, 1, node, 2, 0
  {
    hide LoopItems, Evaluate;
    if node.content.control.For? && node.content.condition.Some? {
      var items := Evaluate(node.content.condition.value, q.view, locals);
      if items.result.Success? && items.result.value.List? {
        ItemsOfLoopShallow(node, items.result.value.items, q, locals, r, s);
      }
    }
  }

  lemma {:induction false} ItemsOfLoopShallow(node: Node, items: seq<Value>, q: Page, saved: Locals, r: nat, s: nat)
    requires node.content.Control? && r <= s
    ensures Shallower(LoopItems(node, items, q, saved, r, None), LoopItems(node, items, q, saved, s, None))
    decreases r, 1, node, 1, |node.children| + 1, 0, |items|
  {
    hide RenderChildren;
    if items != [] {
      ChildrenShallow(node, 0, q, saved[node.content.variable := items[0]], r, s);
      ItemsOfLoopShallow(node, items[1..], q, saved, r, s);
    }
  }

  lemma {:induction false} ElementShallow(node: Node, q: Page, locals: Locals, r: nat, s: nat)
    requires node.content.Element? && r <= s
    ensures Shallower(RenderElement(node, q, locals, r, None), RenderElement(node, q, locals, s, None))
    decreases r, 1, node, 2, 0
  {
    hide RenderChildren, OpenTag;
    ChildrenShallow(node, 0, q, locals, r, s);
  }

  lemma {:induction false} EngineShallow(n: Expression.Node, q: Page, locals: Locals, r: nat, s: nat)
    requires IsEngineCall(n) && r <= s
    ensures Shallower(RenderEngineCall(n, q, locals, r, None), RenderEngineCall(n, q, locals, s, None))
    decreases r, 0, n, 2
  {
    hide RenderPartialCall, RenderFragmentBody;
    if n.target.name == "render" {
      PartialCallShallow(n, q, locals, r, s);
    } else if FragmentOf(n).Some? {
      BodyShallow(FragmentOf(n).value, q, locals, r, s);
    }
  }

  lemma {:induction false} BodyShallow(body: Expression.Node, q: Page, locals: Locals, r: nat, s: nat)
    requires r <= s
    ensures Shallower(RenderFragmentBody(body, q, locals, r, None), RenderFragmentBody(body, q, locals, s, None))
    decreases r, 0, body, 3
  {
    hide RenderEngineCall, HoleText;
    if IsEngineCall(body) { EngineShallow(body, q, locals, r, s); }
  }

  lemma {:induction false} PartialCallShallow(n: Expression.Node, q: Page, locals: Locals, r: nat, s: nat)
    requires n.Call? && r <= s
    ensures Shallower(RenderPartialCall(n, q, locals, r, None), RenderPartialCall(n, q, locals, s, None))
    decreases r, 0, n, 1
  {
    hide RenderPartial, ReadScope, Evaluate;
    var request := ReadRequest(n.arguments, q, locals, r);
    if r > 0 {
      assert ReadRequest(n.arguments, q, locals, s) == request;
      if request.result.Success? { PartialShallow(request.result.value, q, r - 1, s - 1); }
    }
  }

  lemma {:induction false} PartialShallow(request: Request, q: Page, r: nat, s: nat)
    requires r <= s
    ensures Shallower(RenderPartial(request, q, r, None), RenderPartial(request, q, s, None))
    decreases r, 3
  {
    hide RenderChildren, RenderItems;
    if request.items.None? {
      ChildrenShallow(request.root, 0, q, request.locals, r, s);
    } else {
      ItemsShallow(request, request.items.value, q, request.locals, r, s);
    }
  }

  lemma {:induction false} ItemsShallow(request: Request, items: seq<Value>, q: Page, locals: Locals, r: nat, s: nat)
    requires r <= s
    ensures Shallower(RenderItems(request, items, q, locals, r, None), RenderItems(request, items, q, locals, s, None))
    decreases r, 2, |items|
  {
    hide RenderChildren;
    if items != [] {
      var scope := locals[request.alias := items[0]];
      ChildrenShallow(request.root, 0, q, scope, r, s);
      ItemsShallow(request, items[1..], q, scope, r, s);
    }
  }
}

/** What the cache of fragments keeps, whatever is rendered through it: an entry is never
    changed nor dropped, and neither are the names a fragment was found to read. */
module StoreGrowth {
  import opened Strings
  import opened Values
  import opened ViewContexts
  import opened Evaluation
  import opened Template
  import opened Render
  import Expression

  ghost predicate Keeps<K, V>(before: map<K, V>, after: map<K, V>) {
    forall k | k in before :: k in after && after[k] == before[k]
  }

  /** The later cache has all that the earlier has; and the fragments rendered are counted. */
  ghost predicate Grown(before: Cache, after: Cache) {
    Keeps(before.entries, after.entries) && Keeps(before.names, after.names) && before.renders <= after.renders
  }

  ghost predicate Grows(cache: Cache, store: Store) { store.Some? && Grown(cache, store.value) }

  lemma GrowsThrough(a: Cache, b: Cache, c: Cache)
    requires Grown(a, b) && Grown(b, c)
    ensures Grown(a, c)
  {
  }

  lemma {:induction false} ChildrenGrow(parent: Node, i: nat, q: Page, locals: Locals, room: nat, cache: Cache)
    requires i <= |parent.children|
    ensures Grows(cache, RenderChildren(parent, i, q, locals, room, Some(cache)).store)
    decreases room, 1, parent, 1, |parent.children| - i, 1
  {
    hide RenderNode, RenderChain, Keeps;
    if i == |parent.children| {
      GrowsFromItself(cache);
    } else if parent.children[i].IsHead() {
      var chain := RenderChain(parent, i, false, q, locals, room, Some(cache));
      ChainGrows(parent, i, false, q, locals, room, cache);
      if chain.result.Success? {
        var next := chain.result.value.next;
        ChildrenGrow(parent, next, q, locals, room, chain.store.value);
        GrowsThrough(cache, chain.store.value, RenderChildren(parent, next, q, locals, room, chain.store).store.value);
      }
    } else {
      var child := RenderNode(parent.children[i], q, locals, room, Some(cache));
      NodeGrows(parent.children[i], q, locals, room, cache);
      if child.result.Success? {
        ChildrenGrow(parent, i + 1, q, locals, room, child.store.value);
        GrowsThrough(cache, child.store.value, RenderChildren(parent, i + 1, q, locals, room, child.store).store.value);
      }
    }
  }

  lemma GrowsFromItself(cache: Cache)
    ensures Grown(cache, cache)
  {
  }

  lemma {:induction false} ChainGrows(parent: Node, i: nat, taken: bool, q: Page, locals: Locals, room: nat, cache: Cache)
    requires i < |parent.children| && parent.children[i].IsControl()
    ensures Grows(cache, RenderChain(parent, i, taken, q, locals, room, Some(cache)).store)
    decreases room, 1, parent, 1, |parent.children| - i, 0
  {
    hide RenderChildren, BranchTaken, Keeps;
    GrowsFromItself(cache);
    var condition := if taken then Done(false) else BranchTaken(parent.children[i], q.view, locals);
    if condition.result.Success? {
      var body := if condition.result.value then RenderChildren(parent.children[i], 0, q, locals, room, Some(cache))
                  else Wrote("", Some(cache));
      if condition.result.value { ChildrenGrow(parent.children[i], 0, q, locals, room, cache); }
      if body.result.Success? && i + 1 < |parent.children| && parent.children[i + 1].IsTail() {
        var decided := taken || condition.result.value;
        ChainGrows(parent, i + 1, decided, q, locals, room, body.store.value);
        GrowsThrough(cache, body.store.value, RenderChain(parent, i + 1, decided, q, locals, room, body.store).store.value);
      }
    }
  }

  lemma {:induction false} NodeGrows(node: Node, q: Page, locals: Locals, room: nat, cache: Cache)
    ensures Grows(cache, RenderNode(node, q, locals, room, Some(cache)).store)
    decreases room, 1, node, 3
  {
    hide RenderChildren, RenderLoop, RenderElement, RenderOutput, Interpolate, RenderFilter, Keeps;
    GrowsFromItself(cache);
    match node.content
    case Root => ChildrenGrow(node, 0, q, locals, room, cache);
    case Output(value, escaped) => OutputGrows(value, escaped, q, locals, room, cache);
    case Control(_, _, _) => LoopGrows(node, q, locals, room, cache);
    case Element(_, _, _, _, _, _) => ElementGrows(node, q, locals, room, cache);
    case _ =>
  }

  lemma {:induction false} OutputGrows(value: Expression.Node, escaped: bool, q: Page, locals: Locals, room: nat, cache: Cache)
    ensures Grows(cache, RenderOutput(value, escaped, q, locals, room, Some(cache)).store)
    decreases room, 0, value, 3
  {
    hide RenderEngineCall, HoleText, Keeps;
    GrowsFromItself(cache);
    if IsEngineCall(value) { EngineGrows(value, q, locals, room, cache); }
  }

  lemma {:induction false} LoopGrows(node: Node, q: Page, locals: Locals, room: nat, cache: Cache)
    requires node.content.Control?
    ensures Grows(cache, RenderLoop(node, q, locals, room, Some(cache)).store)
    decreases room, 1, node, 2, 0
  {
    hide LoopItems, Evaluate, Keeps;
    GrowsFromItself(cache);
    if node.content.control.For? && node.content.condition.Some? {
      var items := Evaluate(node.content.condition.value, q.view, locals);
      if items.result.Success? && items.result.value.List? {
        ItemsOfLoopGrow(node, items.result.value.items, q, locals, room, cache);
      }
    }
  }

  lemma {:induction false} ItemsOfLoopGrow(node: Node, items: seq<Value>, q: Page, saved: Locals, room: nat, cache: Cache)
    requires node.content.Control?
    ensures Grows(cache, LoopItems(node, items, q, saved, room, Some(cache)).store)
    decreases room, 1, node, 1, |node.children| + 1, 0, |items|
  {
    hide RenderChildren, Keeps;
    GrowsFromItself(cache);
    if items != [] {
      var body := RenderChildren(node, 0, q, saved[node.content.variable := items[0]], room, Some(cache));
      ChildrenGrow(node, 0, q, saved[node.content.variable := items[0]], room, cache);
      if body.result.Success? {
        ItemsOfLoopGrow(node, items[1..], q, saved, room, body.store.value);
        GrowsThrough(cache, body.store.value, LoopItems(node, items[1..], q, saved, room, body.store).store.value);
      }
    }
  }

  lemma {:induction false} ElementGrows(node: Node, q: Page, locals: Locals, room: nat, cache: Cache)
    requires node.content.Element?
    ensures Grows(cache, RenderElement(node, q, locals, room, Some(cache)).store)
    decreases room, 1, node, 2, 0
  {
    hide RenderChildren, OpenTag, Keeps;
    GrowsFromItself(cache);
    ChildrenGrow(node, 0, q, locals, room, cache);
  }

  lemma {:induction false} EngineGrows(n: Expression.Node, q: Page, locals: Locals, room: nat, cache: Cache)
    requires IsEngineCall(n)
    ensures Grows(cache, RenderEngineCall(n, q, locals, room, Some(cache)).store)
    decreases room, 0, n, 2
  {
    hide RenderPartialCall, RenderCachedFragment, Keeps;
    if n.target.name == "render" {
      PartialCallGrows(n, q, locals, room, cache);
    } else {
      FragmentGrows(n, q, locals, room, cache);
    }
  }

  lemma {:induction false} FragmentGrows(n: Expression.Node, q: Page, locals: Locals, room: nat, cache: Cache)
    requires n.Call?
    ensures Grows(cache, RenderCachedFragment(n, q, locals, room, Some(cache)).store)
    decreases room, 0, n, 1
  {
    hide RenderFragmentBody, Fold, Names, KeyText, ReplayOf, Keeps;
    GrowsFromItself(cache);
    if FragmentOf(n).Some? {
      var site := FragmentOf(n).value;
      var body := RenderFragmentBody(site, q, locals, room, Some(cache));
      BodyGrows(site, q, locals, room, cache);
      RecordedGrows(site, body, q.view.jsonNumber);
      GrowsThrough(cache, body.store.value, Recorded(site, body, q.view.jsonNumber).store.value);
      hide Recorded;
    }
  }

  lemma RecordedGrows(site: Expression.Node, body: Rendered<string>, number: real -> string)
    requires body.store.Some?
    ensures Grows(body.store.value, Recorded(site, body, number).store)
  {
    hide Fold, Names, KeyText;
  }

  lemma {:induction false} BodyGrows(body: Expression.Node, q: Page, locals: Locals, room: nat, cache: Cache)
    ensures Grows(cache, RenderFragmentBody(body, q, locals, room, Some(cache)).store)
    decreases room, 0, body, 3
  {
    hide RenderEngineCall, HoleText, Keeps;
    GrowsFromItself(cache);
    if IsEngineCall(body) { EngineGrows(body, q, locals, room, cache); }
  }

  lemma {:induction false} PartialCallGrows(n: Expression.Node, q: Page, locals: Locals, room: nat, cache: Cache)
    requires n.Call?
    ensures Grows(cache, RenderPartialCall(n, q, locals, room, Some(cache)).store)
    decreases room, 0, n, 1
  {
    hide RenderPartial, ReadRequest, Keeps;
    GrowsFromItself(cache);
    var request := ReadRequest(n.arguments, q, locals, room);
    if request.result.Success? && room > 0 { PartialGrows(request.result.value, q, room - 1, cache); }
  }

  lemma {:induction false} PartialGrows(request: Request, q: Page, room: nat, cache: Cache)
    ensures Grows(cache, RenderPartial(request, q, room, Some(cache)).store)
    decreases room, 3
  {
    hide RenderChildren, RenderItems, Keeps;
    if request.items.None? {
      ChildrenGrow(request.root, 0, q, request.locals, room, cache);
    } else {
      ItemsGrow(request, request.items.value, q, request.locals, room, cache);
    }
  }

  lemma {:induction false} ItemsGrow(request: Request, items: seq<Value>, q: Page, locals: Locals, room: nat, cache: Cache)
    ensures Grows(cache, RenderItems(request, items, q, locals, room, Some(cache)).store)
    decreases room, 2, |items|
  {
    hide RenderChildren, Keeps;
    GrowsFromItself(cache);
    if items != [] {
      var scope := locals[request.alias := items[0]];
      var one := RenderChildren(request.root, 0, q, scope, room, Some(cache));
      ChildrenGrow(request.root, 0, q, scope, room, cache);
      if one.result.Success? {
        ItemsGrow(request, items[1..], q, scope, room, one.store.value);
        GrowsThrough(cache, one.store.value, RenderItems(request, items[1..], q, scope, room, one.store).store.value);
      }
    }
  }

  /** A page adds to the cache it is given, and changes nothing that is there. */
  lemma PageGrows(root: Node, q: Page, locals: Locals, cache: Cache)
    ensures Grows(cache, RenderPage(root, q, locals, Some(cache)).store)
  {
    ChildrenGrow(root, 0, q, locals, MAX_PARTIALS, cache);
  }
}

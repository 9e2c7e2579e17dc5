/** Rendering with the cache follows rendering without it, step by step. */
module CacheTheorem {
  import opened Strings
  import opened Values
  import opened ViewContexts
  import opened Evaluation
  import opened Template
  import opened Render
  import opened SameReads
  import opened Steady
  import opened Scopes
  import opened Depth
  import opened RecordingLemmas
  import opened FragmentCache
  import Expression

  /** A cached run `c` against uncached runs with the same room and with enough of it. When
      it fails, so does the uncached run, in the same way unless its room runs out first. */
  ghost predicate Simulates<T>(c: Rendered<T>, same: Rendered<T>, enough: Rendered<T>, site: Site) {
    && c.store.Some? && CacheSound(c.store.value, site)
    && (c.result.Failure? ==> TooDeep(same.result) || same.result == c.result)
    && (c.result.Success? ==> enough.result == c.result && Needs(enough.events, site) <= Needs(c.events, site))
  }

  /** What a cached run is given. */
  ghost predicate Ready(cache: Cache, q: Page, site: Site) { CacheSound(cache, site) && OnSite(q, site) }

  lemma SliceWithin(a: seq<Event>, b: seq<Event>, low: nat, high: nat)
    requires low <= high <= |a|
    ensures (a + b)[low..high] == a[low..high]
  {
  }

  lemma SliceBehind(a: seq<Event>, b: seq<Event>, low: nat, high: nat)
    requires low <= high <= |b|
    ensures (a + b)[|a| + low..|a| + high] == b[low..high]
  {
  }

  lemma CalmParts(a: seq<Event>, b: seq<Event>, site: Site)
    requires Calm(a + b, site)
    ensures Calm(a, site) && Calm(b, site)
  {
    hide Contained;
    var whole := a + b;
    forall i | 0 <= i < |a| && a[i].Open? && i + 1 + a[i].length <= |a|
      ensures Contained(a[i].scope, a[i + 1..i + 1 + a[i].length], site)
    {
      assert whole[i] == a[i];
      SliceWithin(a, b, i + 1, i + 1 + a[i].length);
    }
    forall i | 0 <= i < |b| && b[i].Open? && i + 1 + b[i].length <= |b|
      ensures Contained(b[i].scope, b[i + 1..i + 1 + b[i].length], site)
    {
      var k := |a| + i;
      assert whole[k] == b[i];
      SliceBehind(a, b, i + 1, i + 1 + b[i].length);
    }
  }

  lemma CalmAt(events: seq<Event>, i: nat, site: Site)
    requires Calm(events, site) && i < |events| && events[i].Open? && i + 1 + events[i].length <= |events|
    ensures Contained(events[i].scope, events[i + 1..i + 1 + events[i].length], site)
  {
    hide Contained;
  }

  /** What a calm run says of the fragment it opens. */
  lemma CalmOpened(scope: set<string>, events: seq<Event>, site: Site)
    requires Calm([Open(scope, |events|)] + events, site)
    ensures Contained(scope, events, site) && Calm(events, site)
  {
    hide Contained, Calm;
    var whole := [Open(scope, |events|)] + events;
    CalmParts([Open(scope, |events|)], events, site);
    assert whole[0] == Open(scope, |events|) && whole[1..1 + |events|] == events;
    CalmAt(whole, 0, site);
  }

  function Larger(a: nat, b: nat): nat { if a < b then b else a }

  lemma {:induction false} SimChildren(parent: Node, i: nat, q: Page, locals: Locals, room: nat, cache: Cache, site: Site)
    returns (b: nat)
    requires i <= |parent.children| && Ready(cache, q, site)
    requires Calm(RenderChildren(parent, i, q, locals, room, Some(cache)).events, site)
    ensures b >= room
    ensures Simulates(RenderChildren(parent, i, q, locals, room, Some(cache)),
                      RenderChildren(parent, i, q, locals, room, None), RenderChildren(parent, i, q, locals, b, None), site)
    decreases room, 1, parent, 1, |parent.children| - i, 1
  {
    hide RenderNode, RenderChain, Needs, CacheSound, Calm, OnSite;
    b := room;
    if i == |parent.children| {
    } else if parent.children[i].IsHead() {
      var chain := RenderChain(parent, i, false, q, locals, room, Some(cache));
      var next := if chain.result.Success? then chain.result.value.next else i;
      var rest := if chain.result.Success? then RenderChildren(parent, next, q, locals, room, chain.store) else Wrote("", None);
      if chain.result.Success? { CalmParts(chain.events, rest.events, site); }
      var b1 := SimChain(parent, i, false, q, locals, room, cache, site);
      if chain.result.Success? {
        var b2 := SimChildren(parent, next, q, locals, room, chain.store.value, site);
        b := Larger(b1, b2);
        ChainShallow(parent, i, false, q, locals, room, b1);
        ChainShallow(parent, i, false, q, locals, b1, b);
        ChildrenShallow(parent, next, q, locals, b2, b);
        NeedsConcat(chain.events, rest.events, site);
        NeedsConcat(RenderChain(parent, i, false, q, locals, b, None).events,
                        RenderChildren(parent, next, q, locals, b, None).events, site);
      }
    } else {
      var child := RenderNode(parent.children[i], q, locals, room, Some(cache));
      var rest := if child.result.Success? then RenderChildren(parent, i + 1, q, locals, room, child.store) else Wrote("", None);
      if child.result.Success? { CalmParts(child.events, rest.events, site); }
      var b1 := SimNode(parent.children[i], q, locals, room, cache, site);
      if child.result.Success? {
        var b2 := SimChildren(parent, i + 1, q, locals, room, child.store.value, site);
        b := Larger(b1, b2);
        NodeShallow(parent.children[i], q, locals, room, b1);
        NodeShallow(parent.children[i], q, locals, b1, b);
        ChildrenShallow(parent, i + 1, q, locals, b2, b);
        NeedsConcat(child.events, rest.events, site);
        NeedsConcat(RenderNode(parent.children[i], q, locals, b, None).events,
                        RenderChildren(parent, i + 1, q, locals, b, None).events, site);
      }
    }
  }

  lemma BranchShallow(branch: Node, taken: bool, q: Page, locals: Locals, r: nat, s: nat)
    requires branch.content.Control? && r <= s
    ensures Shallower(BranchPart(branch, taken, q, locals, r, None), BranchPart(branch, taken, q, locals, s, None))
  {
    hide RenderChildren, BranchTaken;
    ChildrenShallow(branch, 0, q, locals, r, s);
  }

  lemma {:induction false} SimBranch(branch: Node, taken: bool, q: Page, locals: Locals, room: nat, cache: Cache, site: Site)
    returns (b: nat)
    requires branch.content.Control? && Ready(cache, q, site)
    requires Calm(BranchPart(branch, taken, q, locals, room, Some(cache)).events, site)
    ensures b >= room
    ensures Simulates(BranchPart(branch, taken, q, locals, room, Some(cache)),
                      BranchPart(branch, taken, q, locals, room, None), BranchPart(branch, taken, q, locals, b, None), site)
    decreases room, 1, branch, 2
  {
    hide RenderChildren, BranchTaken, Needs, CacheSound, Calm, OnSite;
    b := room;
    var condition := if taken then Done(false) else BranchTaken(branch, q.view, locals);
    if condition.result.Success? && condition.result.value {
      var body := RenderChildren(branch, 0, q, locals, room, Some(cache));
      CalmParts(condition.events, body.events, site);
      b := SimChildren(branch, 0, q, locals, room, cache, site);
      NeedsConcat(condition.events, body.events, site);
      NeedsConcat(condition.events, RenderChildren(branch, 0, q, locals, b, None).events, site);
    }
  }

  /** A branch and the chain after it, put together. */
  lemma ChainJoins(first: Rendered<string>, same: Rendered<string>, enough: Rendered<string>,
                   rest: Rendered<Chain>, sameRest: Rendered<Chain>, enoughRest: Rendered<Chain>, site: Site)
    requires Simulates(first, same, enough, site) && Simulates(rest, sameRest, enoughRest, site) && first.result.Success?
    requires TooDeep(same.result) || same.result == first.result
    ensures Simulates(FollowChain(first.result.value, first.events, rest),
                      if same.result.Failure? then Rendered(Failure(same.result.problem), same.events, same.store)
                      else FollowChain(same.result.value, same.events, sameRest),
                      FollowChain(first.result.value, enough.events, enoughRest), site)
  {
    hide Needs, CacheSound;
    NeedsConcat(first.events, rest.events, site);
    NeedsConcat(enough.events, enoughRest.events, site);
  }

  lemma {:induction false} SimChain(parent: Node, i: nat, taken: bool, q: Page, locals: Locals, room: nat, cache: Cache, site: Site)
    returns (b: nat)
    requires i < |parent.children| && parent.children[i].IsControl() && Ready(cache, q, site)
    requires Calm(RenderChain(parent, i, taken, q, locals, room, Some(cache)).events, site)
    ensures b >= room
    ensures Simulates(RenderChain(parent, i, taken, q, locals, room, Some(cache)),
                      RenderChain(parent, i, taken, q, locals, room, None), RenderChain(parent, i, taken, q, locals, b, None), site)
    decreases room, 1, parent, 1, |parent.children| - i, 0
  {
    hide RenderChain, BranchPart, BranchHolds, FollowChain, Needs, CacheSound, Calm, OnSite;
    var branch := parent.children[i];
    var part := BranchPart(branch, taken, q, locals, room, Some(cache));
    var holds := BranchHolds(branch, taken, q.view, locals);
    ChainStep(parent, i, taken, q, locals, room, Some(cache));
    ChainStep(parent, i, taken, q, locals, room, None);
    if part.result.Success? && i + 1 < |parent.children| && parent.children[i + 1].IsTail() {
      var rest := RenderChain(parent, i + 1, holds, q, locals, room, part.store);
      FollowChainCalm(part, rest, site);
      var b1 := SimBranch(branch, taken, q, locals, room, cache, site);
      var b2 := SimChain(parent, i + 1, holds, q, locals, room, part.store.value, site);
      b := Larger(b1, b2);
      BranchShallow(branch, taken, q, locals, room, b1);
      BranchShallow(branch, taken, q, locals, b1, b);
      ChainShallow(parent, i + 1, holds, q, locals, b2, b);
      ChainStep(parent, i, taken, q, locals, b, None);
      ChainJoins(part, BranchPart(branch, taken, q, locals, room, None), BranchPart(branch, taken, q, locals, b, None), rest,
                 RenderChain(parent, i + 1, holds, q, locals, room, None), RenderChain(parent, i + 1, holds, q, locals, b, None), site);
    } else {
      b := SimBranch(branch, taken, q, locals, room, cache, site);
      ChainStep(parent, i, taken, q, locals, b, None);
    }
  }

  lemma FollowChainCalm(part: Rendered<string>, rest: Rendered<Chain>, site: Site)
    requires part.result.Success? && Calm(FollowChain(part.result.value, part.events, rest).events, site)
    ensures Calm(part.events, site) && Calm(rest.events, site)
  {
    hide Calm;
    CalmParts(part.events, rest.events, site);
  }

  lemma {:induction false} SimNode(node: Node, q: Page, locals: Locals, room: nat, cache: Cache, site: Site)
    returns (b: nat)
    requires Ready(cache, q, site)
    requires Calm(RenderNode(node, q, locals, room, Some(cache)).events, site)
    ensures b >= room
    ensures Simulates(RenderNode(node, q, locals, room, Some(cache)),
                      RenderNode(node, q, locals, room, None), RenderNode(node, q, locals, b, None), site)
    decreases room, 1, node, 3
  {
    hide RenderChildren, RenderLoop, RenderElement, RenderOutput, Interpolate, RenderFilter, Needs, CacheSound, Calm, OnSite;
    b := room;
    match node.content
    case Root => b := SimChildren(node, 0, q, locals, room, cache, site);
    case Output(value, escaped) => b := SimOutput(value, escaped, q, locals, room, cache, site);
    case Control(_, _, _) => b := SimLoop(node, q, locals, room, cache, site);
    case Element(_, _, _, _, _, _) => b := SimElement(node, q, locals, room, cache, site);
    case _ =>
  }

  lemma {:induction false} SimOutput(value: Expression.Node, escaped: bool, q: Page, locals: Locals, room: nat,
                                     cache: Cache, site: Site)
    returns (b: nat)
    requires Ready(cache, q, site)
    requires Calm(RenderOutput(value, escaped, q, locals, room, Some(cache)).events, site)
    ensures b >= room
    ensures Simulates(RenderOutput(value, escaped, q, locals, room, Some(cache)),
                      RenderOutput(value, escaped, q, locals, room, None), RenderOutput(value, escaped, q, locals, b, None), site)
    decreases room, 0, value, 3
  {
    hide RenderEngineCall, HoleText, Escape, Needs, CacheSound, Calm, OnSite;
    b := room;
    if IsEngineCall(value) {
      var k;
      b, k := SimEngine(value, q, locals, room, cache, site);
    }
  }

  lemma {:induction false} SimElement(node: Node, q: Page, locals: Locals, room: nat, cache: Cache, site: Site)
    returns (b: nat)
    requires node.content.Element? && Ready(cache, q, site)
    requires Calm(RenderElement(node, q, locals, room, Some(cache)).events, site)
    ensures b >= room
    ensures Simulates(RenderElement(node, q, locals, room, Some(cache)),
                      RenderElement(node, q, locals, room, None), RenderElement(node, q, locals, b, None), site)
    decreases room, 1, node, 2, 0
  {
    hide RenderChildren, OpenTag, InlineChild, Trimmed, Needs, CacheSound, Calm, OnSite;
    b := room;
    var tag := OpenTag(node.content, q.view, locals);
    if tag.result.Success? && !node.content.selfClosing && node.content.tag !in VOID_TAGS && node.children != [] {
      var inner := RenderChildren(node, 0, q, locals, room, Some(cache));
      CalmParts(tag.events, inner.events, site);
      b := SimChildren(node, 0, q, locals, room, cache, site);
      NeedsConcat(tag.events, inner.events, site);
      NeedsConcat(tag.events, RenderChildren(node, 0, q, locals, b, None).events, site);
    }
  }

  lemma {:induction false} SimLoop(node: Node, q: Page, locals: Locals, room: nat, cache: Cache, site: Site)
    returns (b: nat)
    requires node.content.Control? && Ready(cache, q, site)
    requires Calm(RenderLoop(node, q, locals, room, Some(cache)).events, site)
    ensures b >= room
    ensures Simulates(RenderLoop(node, q, locals, room, Some(cache)),
                      RenderLoop(node, q, locals, room, None), RenderLoop(node, q, locals, b, None), site)
    decreases room, 1, node, 2, 0
  {
    hide LoopItems, Evaluate, Needs, CacheSound, Calm, OnSite;
    b := room;
    if node.content.control.For? && node.content.condition.Some? {
      var items := Evaluate(node.content.condition.value, q.view, locals);
      if items.result.Success? && items.result.value.List? {
        var walked := LoopItems(node, items.result.value.items, q, locals, room, Some(cache));
        Wrapped(items.events, [Keep({})], walked.events, [Keep(locals.Keys)], site);
        b := SimItemsOfLoop(node, items.result.value.items, q, locals, room, cache, site);
        var bare := LoopItems(node, items.result.value.items, q, locals, b, None);
        WrappedNeeds(items.events, [Keep({})], bare.events, [Keep(locals.Keys)], site);
        WrappedNeeds(items.events, [Keep({})], walked.events, [Keep(locals.Keys)], site);
      }
    }
  }

  lemma Wrapped(reads_: seq<Event>, opening: seq<Event>, inner: seq<Event>, closing: seq<Event>, site: Site)
    requires Calm(reads_ + (opening + (inner + closing)), site)
    ensures Calm(inner, site)
  {
    hide Calm;
    CalmParts(reads_, opening + (inner + closing), site);
    CalmParts(opening, inner + closing, site);
    CalmParts(inner, closing, site);
  }

  lemma WrappedNeeds(reads_: seq<Event>, opening: seq<Event>, inner: seq<Event>, closing: seq<Event>, site: Site)
    ensures Needs(reads_ + (opening + (inner + closing)), site)
         == Needs(reads_, site) + Needs(opening, site) + Needs(inner, site) + Needs(closing, site)
  {
    hide Needs;
    NeedsConcat(inner, closing, site);
    NeedsConcat(opening, inner + closing, site);
    NeedsConcat(reads_, opening + (inner + closing), site);
  }

  lemma {:induction false} SimItemsOfLoop(node: Node, items: seq<Value>, q: Page, saved: Locals, room: nat, cache: Cache, site: Site)
    returns (b: nat)
    requires node.content.Control? && Ready(cache, q, site)
    requires Calm(LoopItems(node, items, q, saved, room, Some(cache)).events, site)
    ensures b >= room
    ensures Simulates(LoopItems(node, items, q, saved, room, Some(cache)),
                      LoopItems(node, items, q, saved, room, None), LoopItems(node, items, q, saved, b, None), site)
    decreases room, 1, node, 1, |node.children| + 1, 0, |items|
  {
    hide RenderChildren, Needs, CacheSound, Calm, OnSite;
    b := room;
    if items != [] {
      var variable := node.content.variable;
      var events := [Keep(saved.Keys), Bind({variable})];
      var scope := saved[variable := items[0]];
      var body := RenderChildren(node, 0, q, scope, room, Some(cache));
      var rest := if body.result.Success? then LoopItems(node, items[1..], q, saved, room, body.store) else Wrote("", None);
      assert LoopItems(node, items, q, saved, room, Some(cache)).events == (events + body.events) + rest.events
        by { assert (events + body.events) + [] == events + body.events; }
      CalmParts(events + body.events, rest.events, site);
      CalmParts(events, body.events, site);
      var b1 := SimChildren(node, 0, q, scope, room, cache, site);
      NeedsNothing(events, site);
      if body.result.Success? {
        var b2 := SimItemsOfLoop(node, items[1..], q, saved, room, body.store.value, site);
        b := Larger(b1, b2);
        ChildrenShallow(node, 0, q, scope, room, b1);
        ChildrenShallow(node, 0, q, scope, b1, b);
        ItemsOfLoopShallow(node, items[1..], q, saved, b2, b);
        JoinedNeeds(events, body.events, rest.events, site);
        JoinedNeeds(events, RenderChildren(node, 0, q, scope, b, None).events, LoopItems(node, items[1..], q, saved, b, None).events, site);
      }
    }
  }

  lemma JoinedNeeds(a: seq<Event>, b: seq<Event>, c: seq<Event>, site: Site)
    ensures Needs((a + b) + c, site) == Needs(a, site) + Needs(b, site) + Needs(c, site)
  {
    hide Needs;
    NeedsConcat(a + b, c, site);
    NeedsConcat(a, b, site);
  }

  // ------------------------------------------------- partials and the fragments

  /** The first `k` events of a run answer to the scope it started in, and hold what the
      fragment reads first. */
  ghost predicate Opens(c: Rendered<string>, k: nat, n: Expression.Node, q: Page, locals: Locals) {
    c.result.Success? ==>
      && k <= |c.events| && Answered(c.events[..k], q.view.values, locals)
      && forall e | e in Front(n, q, locals) :: e in c.events[..k]
  }

  lemma {:induction false} SimEngine(n: Expression.Node, q: Page, locals: Locals, room: nat, cache: Cache, site: Site)
    returns (b: nat, k: nat)
    requires IsEngineCall(n) && Ready(cache, q, site)
    requires Calm(RenderEngineCall(n, q, locals, room, Some(cache)).events, site)
    ensures b >= room
    ensures Simulates(RenderEngineCall(n, q, locals, room, Some(cache)),
                      RenderEngineCall(n, q, locals, room, None), RenderEngineCall(n, q, locals, b, None), site)
    ensures Opens(RenderEngineCall(n, q, locals, room, Some(cache)), k, n, q, locals)
    decreases room, 0, n, 2
  {
    hide RenderPartialCall, RenderCachedFragment, Needs, CacheSound, Calm, OnSite;
    if n.target.name == "render" {
      b, k := SimPartialCall(n, q, locals, room, cache, site);
    } else {
      b, k := SimFragment(n, q, locals, room, cache, site);
    }
  }

  lemma {:induction false} SimPartialCall(n: Expression.Node, q: Page, locals: Locals, room: nat, cache: Cache, site: Site)
    returns (b: nat, k: nat)
    requires IsEngineCall(n) && n.target.name == "render" && Ready(cache, q, site)
    requires Calm(RenderPartialCall(n, q, locals, room, Some(cache)).events, site)
    ensures b >= room
    ensures Simulates(RenderPartialCall(n, q, locals, room, Some(cache)),
                      RenderPartialCall(n, q, locals, room, None), RenderPartialCall(n, q, locals, b, None), site)
    ensures Opens(RenderPartialCall(n, q, locals, room, Some(cache)), k, n, q, locals)
    decreases room, 0, n, 1
  {
    hide RenderPartial, ReadRequest, Needs, CacheSound, Calm, OnSite;
    b := room;
    var request := ReadRequest(n.arguments, q, locals, room);
    k := |request.events|;
    if request.result.Success? && room > 0 {
      var given := request.result.value;
      var opening, closing := Entering(given), [Keep(locals.Keys)];
      var inner := RenderPartial(given, q, room - 1, Some(cache));
      var whole := RenderPartialCall(n, q, locals, room, Some(cache));
      Wrapped(request.events, opening, inner.events, closing, site);
      var b1 := SimPartial(given, q, room - 1, cache, site);
      b := b1 + 1;
      RequestRoom(n.arguments, q, locals, room);
      RequestRoom(n.arguments, q, locals, b);
      WrappedNeeds(request.events, opening, inner.events, closing, site);
      WrappedNeeds(request.events, opening, RenderPartial(given, q, b1, None).events, closing, site);
      assert whole.events[..k] == request.events;
    }
  }

  lemma {:induction false} SimPartial(request: Request, q: Page, room: nat, cache: Cache, site: Site)
    returns (b: nat)
    requires Ready(cache, q, site)
    requires Calm(RenderPartial(request, q, room, Some(cache)).events, site)
    ensures b >= room
    ensures Simulates(RenderPartial(request, q, room, Some(cache)),
                      RenderPartial(request, q, room, None), RenderPartial(request, q, b, None), site)
    decreases room, 3
  {
    hide RenderChildren, RenderItems, Needs, CacheSound, Calm, OnSite;
    if request.items.None? {
      b := SimChildren(request.root, 0, q, request.locals, room, cache, site);
    } else {
      b := SimItems(request, request.items.value, q, request.locals, room, cache, site);
    }
  }

  lemma {:induction false} SimItems(request: Request, items: seq<Value>, q: Page, locals: Locals, room: nat, cache: Cache, site: Site)
    returns (b: nat)
    requires Ready(cache, q, site)
    requires Calm(RenderItems(request, items, q, locals, room, Some(cache)).events, site)
    ensures b >= room
    ensures Simulates(RenderItems(request, items, q, locals, room, Some(cache)),
                      RenderItems(request, items, q, locals, room, None), RenderItems(request, items, q, locals, b, None), site)
    decreases room, 2, |items|
  {
    hide RenderChildren, Needs, CacheSound, Calm, OnSite;
    b := room;
    if items != [] {
      var scope := locals[request.alias := items[0]];
      var events := [Bind({request.alias})];
      var one := RenderChildren(request.root, 0, q, scope, room, Some(cache));
      var rest := if one.result.Success? then RenderItems(request, items[1..], q, scope, room, one.store) else Wrote("", None);
      assert RenderItems(request, items, q, locals, room, Some(cache)).events == (events + one.events) + rest.events
        by { assert (events + one.events) + [] == events + one.events; }
      CalmParts(events + one.events, rest.events, site);
      CalmParts(events, one.events, site);
      var b1 := SimChildren(request.root, 0, q, scope, room, cache, site);
      NeedsNothing(events, site);
      if one.result.Success? {
        var b2 := SimItems(request, items[1..], q, scope, room, one.store.value, site);
        b := Larger(b1, b2);
        ChildrenShallow(request.root, 0, q, scope, room, b1);
        ChildrenShallow(request.root, 0, q, scope, b1, b);
        ItemsShallow(request, items[1..], q, scope, b2, b);
        JoinedNeeds(events, one.events, rest.events, site);
        JoinedNeeds(events, RenderChildren(request.root, 0, q, scope, b, None).events,
                    RenderItems(request, items[1..], q, scope, b, None).events, site);
      }
    }
  }

  lemma {:induction false} SimBody(body: Expression.Node, q: Page, locals: Locals, room: nat, cache: Cache, site: Site)
    returns (b: nat, k: nat)
    requires Ready(cache, q, site)
    requires Calm(RenderFragmentBody(body, q, locals, room, Some(cache)).events, site)
    ensures b >= room
    ensures Simulates(RenderFragmentBody(body, q, locals, room, Some(cache)),
                      RenderFragmentBody(body, q, locals, room, None), RenderFragmentBody(body, q, locals, b, None), site)
    ensures Opens(RenderFragmentBody(body, q, locals, room, Some(cache)), k, body, q, locals)
    decreases room, 0, body, 3
  {
    hide RenderEngineCall, Evaluate, Needs, CacheSound, Calm, OnSite;
    if IsEngineCall(body) {
      b, k := SimEngine(body, q, locals, room, cache, site);
    } else {
      var text := HoleText(body, false, q.view, locals);
      b, k := room, |text.events|;
      assert text.events[..k] == text.events;
    }
  }

  /** What a `cache-fragment` call gives, with a cache and without. */
  lemma FragmentParts(n: Expression.Node, q: Page, locals: Locals, room: nat, cache: Cache)
    requires n.Call?
    ensures FragmentOf(n).None? ==>
              RenderCachedFragment(n, q, locals, room, Some(cache)) == Stopped(NoBlockGiven, Some(cache))
              && RenderCachedFragment(n, q, locals, room, None) == Stopped(NoBlockGiven, None)
    ensures FragmentOf(n).Some? ==>
              var body := FragmentOf(n).value;
              var replayed :=
                if body in cache.names then ReplayOf(cache.names[body], q.view.values, locals) else Replayed(None, []);
              && RenderCachedFragment(n, q, locals, room, None) == RenderFragmentBody(body, q, locals, room, None)
              && RenderCachedFragment(n, q, locals, room, Some(cache)) ==
                   var key := KeyOf(replayed, q.view.jsonNumber);
                   if key.Some? && Key(body, key.value) in cache.entries then
                     Rendered(Success(cache.entries[Key(body, key.value)]),
                              [Open(locals.Keys, |replayed.events|)] + replayed.events, Some(cache))
                   else
                     Behind(replayed.events,
                            Opened(locals.Keys, Recorded(body, RenderFragmentBody(body, q, locals, room, Some(cache)), q.view.jsonNumber)))
  {
    hide RenderFragmentBody, Recorded, ReplayOf, Opened, KeyOf;
  }

  /** A `cache-fragment` call: found under what it read last time, or rendered, recorded
      and put away. */
  lemma {:induction false} SimFragment(n: Expression.Node, q: Page, locals: Locals, room: nat, cache: Cache, site: Site)
    returns (b: nat, k: nat)
    requires IsEngineCall(n) && n.target.name != "render" && Ready(cache, q, site)
    requires Calm(RenderCachedFragment(n, q, locals, room, Some(cache)).events, site)
    ensures b >= room
    ensures Simulates(RenderCachedFragment(n, q, locals, room, Some(cache)),
                      RenderCachedFragment(n, q, locals, room, None), RenderCachedFragment(n, q, locals, b, None), site)
    ensures Opens(RenderCachedFragment(n, q, locals, room, Some(cache)), k, n, q, locals)
    decreases room, 0, n, 1
  {
    hide RenderCachedFragment, RenderFragmentBody, Recorded, ReplayOf, KeyText, Needs, CacheSound, Calm, OnSite, Contained;
    b, k := room, 0;
    FragmentParts(n, q, locals, room, cache);
    if FragmentOf(n).Some? {
      var body := FragmentOf(n).value;
      var replayed :=
        if body in cache.names then ReplayOf(cache.names[body], q.view.values, locals) else Replayed(None, []);
      var key := KeyOf(replayed, q.view.jsonNumber);
      if key.Some? && Key(body, key.value) in cache.entries {
        var events := [Open(locals.Keys, |replayed.events|)] + replayed.events;
        CalmOpened(locals.Keys, replayed.events, site);
        b := HitSpeaks(body, cache.names[body], cache, q, locals, room, site);
        FragmentParts(n, q, locals, b, cache);
        k := 1 + |replayed.events|;
        assert events[..k] == events;
        NeedsConcat([Open(locals.Keys, |replayed.events|)], replayed.events, site);
      } else {
        var k1;
        b, k1 := SimMiss(body, replayed.events, q, locals, room, cache, site);
        FragmentParts(n, q, locals, b, cache);
        k := |replayed.events| + 1 + k1;
        FrontOfFragment(n, q, locals);
      }
    }
  }

  lemma FrontOfFragment(n: Expression.Node, q: Page, locals: Locals)
    requires IsEngineCall(n) && n.target.name != "render" && FragmentOf(n).Some?
    ensures Front(n, q, locals) == Front(FragmentOf(n).value, q, locals)
  {
  }

  /** What a fragment that was not found gives. */
  function Missed(body: Expression.Node, looked: seq<Event>, q: Page, locals: Locals, room: nat, cache: Cache): Rendered<string> {
    var rendered := RenderFragmentBody(body, q, locals, room, Some(cache));
    Behind(looked, Opened(locals.Keys, Recorded(body, rendered, q.view.jsonNumber)))
  }

  /** A fragment that was not found: rendered after the reads that looked for it, and put
      away. */
  lemma {:induction false} SimMiss(body: Expression.Node, looked: seq<Event>, q: Page, locals: Locals, room: nat, cache: Cache,
                                   site: Site)
    returns (b: nat, k: nat)
    requires Ready(cache, q, site) && Owns(looked, q.view.values, locals)
    requires Calm(Missed(body, looked, q, locals, room, cache).events, site)
    ensures b >= room
    ensures Simulates(Missed(body, looked, q, locals, room, cache),
                      RenderFragmentBody(body, q, locals, room, None), RenderFragmentBody(body, q, locals, b, None), site)
    ensures Opens(Missed(body, looked, q, locals, room, cache),
                  |looked| + 1 + k, body, q, locals)
    decreases room, 0, body, 4
  {
    hide RenderFragmentBody, Recorded, Needs, CacheSound, Calm, Front, Scoped, Sheltered, Settled;
    var c := RenderFragmentBody(body, q, locals, room, Some(cache));
    var done := Recorded(body, c, q.view.jsonNumber);
    var opening := [Open(locals.Keys, |c.events|)];
    RecordedEvents(body, c, q.view.jsonNumber);
    CalmParts(looked, opening + c.events, site);
    CalmOpened(locals.Keys, c.events, site);
    b, k := SimBody(body, q, locals, room, cache, site);
    NeedsConcat(looked, opening + c.events, site);
    NeedsConcat(opening, c.events, site);
    if c.result.Success? {
      BodyScoped(body, q, locals, room, Some(cache));
      RecordedSound(body, c, k, q, locals, b, site);
      OpensBehind(looked, opening, done, k, body, q, locals);
    }
  }

  /** Owned reads and an opening in front of a run that opens with the fragment's own. */
  lemma OpensBehind(looked: seq<Event>, opening: seq<Event>, c: Rendered<string>, k: nat, body: Expression.Node, q: Page,
                    locals: Locals)
    requires c.result.Success? && Owns(looked, q.view.values, locals) && Opens(c, k, body, q, locals)
    requires |opening| == 1 && opening[0].Open?
    ensures Opens(Behind(looked, Behind(opening, c)), |looked| + 1 + k, body, q, locals)
  {
    hide Front, Owned;
    var whole := looked + (opening + c.events);
    assert whole[..|looked| + 1 + k] == looked + (opening + c.events[..k]);
  }

  /** A hit: the entry is what the page would render, and reads all that rendering reads. */
  lemma HitSpeaks(body: Expression.Node, names: seq<string>, cache: Cache, q: Page, locals: Locals, room: nat, site: Site)
    returns (b: nat)
    requires Ready(cache, q, site) && Contained(locals.Keys, ReplayOf(names, q.view.values, locals).events, site)
    requires var key := KeyOf(ReplayOf(names, q.view.values, locals), q.view.jsonNumber);
             key.Some? && Key(body, key.value) in cache.entries
    ensures var r := ReplayOf(names, q.view.values, locals);
            var key := KeyOf(r, q.view.jsonNumber);
            && b >= room
            && RenderFragmentBody(body, q, locals, b, None).result == Success(cache.entries[Key(body, key.value)])
            && Needs(RenderFragmentBody(body, q, locals, b, None).events, site) <= Needs(r.events, site)
            && forall e | e in Front(body, q, locals) :: e in r.events
  {
    hide RenderFragmentBody, Front, KeyText, Sheltered, Settled, HasNeeds, Needs, CacheSound, Legible;
    var r := ReplayOf(names, q.view.values, locals);
    var key := Key(body, KeyOf(r, q.view.jsonNumber).value);
    var seen, html := r.key.value, cache.entries[key];
    ReplayHolds(names, q, locals);
    SoundAt(cache, key, site);
    ReplayLegible(r.events, locals, q.view.values, site);
    assert KeyOfReads(key.text, seen, site);
    EntryOfReads(body, key.text, html, seen, site);
    forall p: Page, a: Locals, s: nat | Origin(body, seen, html, p, a, s, site) ensures Resolved(Front(body, p, a), q, locals) {
      forall e | e in Front(body, p, a) && e.Read?
        ensures Resolves(e.name, q.view.values, locals) && Resolve(e.name, q.view.values, locals) == e.value
      {
        assert Seen(e.name, e.value) in seen;
      }
    }
    var b0 := EntrySpeaks(body, seen, html, q, locals, site);
    b := Larger(room, b0);
    BodyShallow(body, q, locals, b0, b);
    forall e | e in Front(body, q, locals) ensures e in r.events {
      assert Owned(e, q.view.values, locals);
      assert Seen(e.name, e.value) in seen;
    }
    HitNeeds(seen, Bare(body, q, locals, b).events, r.events, q, locals, site);
  }

  /** What a replay reads before anything is bound is legible. */
  lemma {:induction false} ReplayLegible(events: seq<Event>, locals: Locals, values: map<string, Value>, site: Site)
    requires Owns(events, values, locals) && Sheltered({}, events, site.viewNames)
    ensures forall e | e in events :: e.Read? && Legible(e.name, e.value)
    decreases |events|
  {
    hide Legible;
    if events != [] {
      assert Owned(events[0], values, locals);
      ReplayLegible(events[1..], locals, values, site);
    }
  }

  lemma HitNeeds(seen: seq<Seen>, bare: seq<Event>, events: seq<Event>, q: Page, locals: Locals, site: Site)
    requires Settled(bare, site) && HasNeeds(seen, bare, q, site) && Proper(q, locals, site)
    requires forall x | x in seen :: Read(x.name, x.value, x.name in locals) in events
    ensures Needs(bare, site) <= Needs(events, site)
  {
    forall e | e in Needs(bare, site) ensures e in Needs(events, site) {
      assert e.Read?;
      assert Seen(e.name, e.value) in seen;
      assert Read(e.name, e.value, e.name in locals) == e;
    }
  }
}

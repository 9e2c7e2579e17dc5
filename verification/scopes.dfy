/** Everything a rendering reads, it reads in the scope in force there: a name that is a
    local then, as the local, and any other as the page's view has it. Whatever it binds on
    the way, it leaves the locals as they were. */
module Scopes {
  import opened Strings
  import opened Values
  import opened ViewContexts
  import opened Evaluation
  import opened Template
  import opened Render
  import Expression

  /** The names of the locals once the event is past. */
  function InForce(names: set<string>, e: Event): set<string> {
    match e
    case Bind(more) => names + more
    case Keep(kept) => kept
    case _ => names
  }

  function InForceAfter(names: set<string>, events: seq<Event>): set<string>
    decreases |events|
  {
    if events == [] then names else InForceAfter(InForce(names, events[0]), events[1..])
  }

  predicate FitsScope(e: Event, names: set<string>, values: map<string, Value>) {
    match e
    case Read(name, value, local) =>
      local == (name in names) && (!local ==> name in values && values[name] == value)
    case Open(scope, _) => scope == names
    case _ => true
  }

  /** Every event fits the scope that the ones before it leave. */
  predicate Scoped(events: seq<Event>, names: set<string>, values: map<string, Value>)
    decreases |events|
  {
    events == [] || (FitsScope(events[0], names, values) && Scoped(events[1..], InForce(names, events[0]), values))
  }

  /** The same, and the locals are the same at the end. */
  predicate Level(events: seq<Event>, names: set<string>, values: map<string, Value>) {
    Scoped(events, names, values) && InForceAfter(names, events) == names
  }

  lemma {:induction false} ScopedConcat(a: seq<Event>, b: seq<Event>, names: set<string>, values: map<string, Value>)
    requires Scoped(a, names, values) && Scoped(b, InForceAfter(names, a), values)
    ensures Scoped(a + b, names, values) && InForceAfter(names, a + b) == InForceAfter(InForceAfter(names, a), b)
    decreases |a|
  {
    hide FitsScope, InForce;
    if a == [] {
      assert a + b == b;
    } else {
      assert (a + b)[1..] == a[1..] + b;
      ScopedConcat(a[1..], b, InForce(names, a[0]), values);
    }
  }

  lemma LevelConcat(a: seq<Event>, b: seq<Event>, names: set<string>, values: map<string, Value>)
    requires Level(a, names, values) && Level(b, names, values)
    ensures Level(a + b, names, values)
  {
    ScopedConcat(a, b, names, values);
  }

  lemma LevelNothing(names: set<string>, values: map<string, Value>)
    ensures Level([], names, values)
  {
  }

  lemma {:induction false} OwnsLevel(events: seq<Event>, locals: Locals, values: map<string, Value>)
    requires Owns(events, values, locals)
    ensures Level(events, locals.Keys, values)
    decreases |events|
  {
    if events != [] {
      assert Owned(events[0], values, locals);
      OwnsLevel(events[1..], locals, values);
    }
  }

  lemma Rebound(names: set<string>, kept: set<string>, more: set<string>, values: map<string, Value>)
    ensures Scoped([Keep(kept), Bind(more)], names, values)
    ensures InForceAfter(names, [Keep(kept), Bind(more)]) == kept + more
  {
    var events := [Keep(kept), Bind(more)];
    assert events[1..] == [Bind(more)] && events[1..][1..] == [];
    assert InForceAfter(names, events) == InForceAfter(kept, events[1..]) == InForceAfter(kept + more, []);
  }

  /** A stretch that begins by taking the locals and ends by putting them back. */
  lemma WrappedLevel(first: seq<Event>, opening: seq<Event>, inner: seq<Event>, names: set<string>, values: map<string, Value>)
    requires Level(first, names, values)
    requires Scoped(opening, names, values) && Scoped(inner, InForceAfter(names, opening), values)
    ensures Level(first + (opening + (inner + [Keep(names)])), names, values)
  {
    var during := InForceAfter(InForceAfter(names, opening), inner);
    assert [Keep(names)][1..] == [];
    assert Scoped([Keep(names)], during, values) && InForceAfter(during, [Keep(names)]) == names;
    ScopedConcat(inner, [Keep(names)], InForceAfter(names, opening), values);
    ScopedConcat(opening, inner + [Keep(names)], names, values);
    ScopedConcat(first, opening + (inner + [Keep(names)]), names, values);
  }

  lemma {:induction false} ChildrenScoped(parent: Node, i: nat, q: Page, locals: Locals, room: nat, store: Store)
    requires i <= |parent.children|
    ensures Level(RenderChildren(parent, i, q, locals, room, store).events, locals.Keys, q.view.values)
    decreases room, 1, parent, 1, |parent.children| - i, 1
  {
    hide RenderNode, RenderChain, Level;
    LevelNothing(locals.Keys, q.view.values);
    if i < |parent.children| {
      if parent.children[i].IsHead() {
        var chain := RenderChain(parent, i, false, q, locals, room, store);
        ChainScoped(parent, i, false, q, locals, room, store);
        if chain.result.Success? {
          var next := chain.result.value.next;
          ChildrenScoped(parent, next, q, locals, room, chain.store);
          LevelConcat(chain.events, RenderChildren(parent, next, q, locals, room, chain.store).events, locals.Keys, q.view.values);
        }
      } else {
        var child := RenderNode(parent.children[i], q, locals, room, store);
        NodeScoped(parent.children[i], q, locals, room, store);
        if child.result.Success? {
          ChildrenScoped(parent, i + 1, q, locals, room, child.store);
          LevelConcat(child.events, RenderChildren(parent, i + 1, q, locals, room, child.store).events, locals.Keys, q.view.values);
        }
      }
    }
  }

  lemma {:induction false} ChainScoped(parent: Node, i: nat, taken: bool, q: Page, locals: Locals, room: nat, store: Store)
    requires i < |parent.children| && parent.children[i].IsControl()
    ensures Level(RenderChain(parent, i, taken, q, locals, room, store).events, locals.Keys, q.view.values)
    decreases room, 1, parent, 1, |parent.children| - i, 0
  {
    hide RenderChildren, BranchTaken, Level;
    LevelNothing(locals.Keys, q.view.values);
    var branch := parent.children[i];
    var condition := if taken then Done(false) else BranchTaken(branch, q.view, locals);
    assert Owns(condition.events, q.view.values, locals);
    OwnsLevel(condition.events, locals, q.view.values);
    if condition.result.Success? {
      var holds := condition.result.value;
      var body := if holds then RenderChildren(branch, 0, q, locals, room, store) else Wrote("", store);
      if holds { ChildrenScoped(branch, 0, q, locals, room, store); }
      LevelConcat(condition.events, body.events, locals.Keys, q.view.values);
      if body.result.Success? && i + 1 < |parent.children| && parent.children[i + 1].IsTail() {
        ChainScoped(parent, i + 1, taken || holds, q, locals, room, body.store);
        LevelConcat(condition.events + body.events,
                    RenderChain(parent, i + 1, taken || holds, q, locals, room, body.store).events, locals.Keys, q.view.values);
      }
    }
  }

  lemma {:induction false} NodeScoped(node: Node, q: Page, locals: Locals, room: nat, store: Store)
    ensures Level(RenderNode(node, q, locals, room, store).events, locals.Keys, q.view.values)
    decreases room, 1, node, 3
  {
    hide RenderChildren, RenderLoop, RenderElement, RenderOutput, Interpolate, RenderFilter, Level;
    LevelNothing(locals.Keys, q.view.values);
    match node.content
    case Root => ChildrenScoped(node, 0, q, locals, room, store);
    case Text(parts) => OwnsLevel(Interpolate(parts, true, q.view, locals).events, locals, q.view.values);
    case Output(value, escaped) => OutputScoped(value, escaped, q, locals, room, store);
    case Filter(_) => OwnsLevel(RenderFilter(node, q.view, locals).events, locals, q.view.values);
    case Control(_, _, _) => LoopScoped(node, q, locals, room, store);
    case Element(_, _, _, _, _, _) => ElementScoped(node, q, locals, room, store);
    case _ =>
  }

  lemma {:induction false} OutputScoped(value: Expression.Node, escaped: bool, q: Page, locals: Locals, room: nat, store: Store)
    ensures Level(RenderOutput(value, escaped, q, locals, room, store).events, locals.Keys, q.view.values)
    decreases room, 0, value, 4
  {
    hide RenderEngineCall, HoleText, Level;
    LevelNothing(locals.Keys, q.view.values);
    if IsEngineCall(value) {
      EngineScoped(value, q, locals, room, store);
    } else if value == Expression.Name("yield") {
      IdleLevel(WriteBody, [], locals.Keys, q.view.values);
      assert [WriteBody] + [] == [WriteBody];
    } else {
      OwnsLevel(HoleText(value, escaped, q.view, locals).events, locals, q.view.values);
    }
  }

  lemma {:induction false} ElementScoped(node: Node, q: Page, locals: Locals, room: nat, store: Store)
    requires node.content.Element?
    ensures Level(RenderElement(node, q, locals, room, store).events, locals.Keys, q.view.values)
    decreases room, 1, node, 2, 0
  {
    hide RenderChildren, OpenTag, Level;
    var tag := OpenTag(node.content, q.view, locals);
    OwnsLevel(tag.events, locals, q.view.values);
    ChildrenScoped(node, 0, q, locals, room, store);
    LevelConcat(tag.events, RenderChildren(node, 0, q, locals, room, store).events, locals.Keys, q.view.values);
  }

  lemma {:induction false} LoopScoped(node: Node, q: Page, locals: Locals, room: nat, store: Store)
    requires node.content.Control?
    ensures Level(RenderLoop(node, q, locals, room, store).events, locals.Keys, q.view.values)
    decreases room, 1, node, 2, 0
  {
    hide LoopItems, Evaluate, Level;
    LevelNothing(locals.Keys, q.view.values);
    if node.content.control.For? && node.content.condition.Some? {
      var items := Evaluate(node.content.condition.value, q.view, locals);
      OwnsLevel(items.events, locals, q.view.values);
      if items.result.Success? && items.result.value.List? {
        var walked := LoopItems(node, items.result.value.items, q, locals, room, store);
        LoopItemsScoped(node, items.result.value.items, q, locals, room, store, {});
        assert [Keep({})][1..] == [];
        WrappedLevel(items.events, [Keep({})], walked.events, locals.Keys, q.view.values);
      }
    }
  }

  lemma {:induction false} LoopItemsScoped(node: Node, items: seq<Value>, q: Page, saved: Locals, room: nat,
                                           store: Store, names: set<string>)
    requires node.content.Control?
    ensures Scoped(LoopItems(node, items, q, saved, room, store).events, names, q.view.values)
    decreases room, 1, node, 1, |node.children| + 1, 0, |items|
  {
    hide RenderChildren;
    if items != [] {
      var variable := node.content.variable;
      var scope := saved[variable := items[0]];
      var events := [Keep(saved.Keys), Bind({variable})];
      var body := RenderChildren(node, 0, q, scope, room, store);
      ChildrenScoped(node, 0, q, scope, room, store);
      Rebound(names, saved.Keys, {variable}, q.view.values);
      assert saved.Keys + {variable} == scope.Keys;
      ScopedConcat(events, body.events, names, q.view.values);
      LoopItemsScoped(node, items[1..], q, saved, room, body.store, scope.Keys);
      ScopedConcat(events + body.events, LoopItems(node, items[1..], q, saved, room, body.store).events, names, q.view.values);
    }
  }

  lemma {:induction false} EngineScoped(n: Expression.Node, q: Page, locals: Locals, room: nat, store: Store)
    requires IsEngineCall(n)
    ensures Level(RenderEngineCall(n, q, locals, room, store).events, locals.Keys, q.view.values)
    decreases room, 0, n, 2
  {
    hide RenderPartialCall, RenderCachedFragment, Level;
    if n.target.name == "render" {
      PartialCallScoped(n, q, locals, room, store);
    } else {
      FragmentScoped(n, q, locals, room, store);
    }
  }

  lemma {:induction false} FragmentScoped(n: Expression.Node, q: Page, locals: Locals, room: nat, store: Store)
    requires n.Call?
    ensures Level(RenderCachedFragment(n, q, locals, room, store).events, locals.Keys, q.view.values)
    decreases room, 0, n, 1
  {
    hide RenderFragmentBody, Recorded, ReplayOf, KeyOf, Level;
    LevelNothing(locals.Keys, q.view.values);
    if FragmentOf(n).Some? {
      var body := FragmentOf(n).value;
      var c := RenderFragmentBody(body, q, locals, room, store);
      BodyScoped(body, q, locals, room, store);
      RecordedEvents(body, c, q.view.jsonNumber);
      if store.Some? {
        var cache := store.value;
        var replayed :=
          if body in cache.names then ReplayOf(cache.names[body], q.view.values, locals) else Replayed(None, []);
        OwnsLevel(replayed.events, locals, q.view.values);
        IdleLevel(Open(locals.Keys, |replayed.events|), replayed.events, locals.Keys, q.view.values);
        IdleLevel(Open(locals.Keys, |c.events|), c.events, locals.Keys, q.view.values);
        LevelConcat(replayed.events, [Open(locals.Keys, |c.events|)] + c.events, locals.Keys, q.view.values);
      }
    }
  }

  lemma IdleLevel(e: Event, events: seq<Event>, names: set<string>, values: map<string, Value>)
    requires Level(events, names, values) && Idle(e) && (e.Open? ==> e.scope == names)
    ensures Level([e] + events, names, values)
  {
    assert ([e] + events)[1..] == events;
  }

  lemma RecordedEvents(body: Expression.Node, c: Rendered<string>, number: real -> string)
    ensures Recorded(body, c, number).events == c.events
    ensures c.result.Failure? ==> Recorded(body, c, number) == c
  {
    hide Fold;
  }

  lemma {:induction false} BodyScoped(body: Expression.Node, q: Page, locals: Locals, room: nat, store: Store)
    ensures Level(RenderFragmentBody(body, q, locals, room, store).events, locals.Keys, q.view.values)
    decreases room, 0, body, 3
  {
    hide RenderEngineCall, HoleText, Level;
    if IsEngineCall(body) {
      EngineScoped(body, q, locals, room, store);
    } else {
      OwnsLevel(HoleText(body, false, q.view, locals).events, locals, q.view.values);
    }
  }

  lemma {:induction false} PartialCallScoped(n: Expression.Node, q: Page, locals: Locals, room: nat, store: Store)
    requires n.Call?
    ensures Level(RenderPartialCall(n, q, locals, room, store).events, locals.Keys, q.view.values)
    decreases room, 0, n, 1
  {
    hide RenderPartial, ReadRequest, Level;
    var request := ReadRequest(n.arguments, q, locals, room);
    OwnsLevel(request.events, locals, q.view.values);
    if request.result.Success? && room > 0 {
      var given := request.result.value;
      var opening := Entering(given);
      PartialScoped(given, q, room - 1, store);
      Rebound(locals.Keys, {}, given.locals.Keys, q.view.values);
      assert opening[1..] == [Keep({}), Bind(given.locals.Keys)];
      assert {} + given.locals.Keys == given.locals.Keys;
      WrappedLevel(request.events, opening, RenderPartial(given, q, room - 1, store).events, locals.Keys, q.view.values);
    }
  }

  lemma {:induction false} PartialScoped(request: Request, q: Page, room: nat, store: Store)
    ensures Scoped(RenderPartial(request, q, room, store).events, request.locals.Keys, q.view.values)
    decreases room, 3
  {
    hide RenderChildren, RenderItems;
    if request.items.None? {
      ChildrenScoped(request.root, 0, q, request.locals, room, store);
    } else {
      ItemsScoped(request, request.items.value, q, request.locals, room, store);
    }
  }

  lemma {:induction false} ItemsScoped(request: Request, items: seq<Value>, q: Page, locals: Locals, room: nat, store: Store)
    ensures Scoped(RenderItems(request, items, q, locals, room, store).events, locals.Keys, q.view.values)
    decreases room, 2, |items|
  {
    hide RenderChildren;
    if items != [] {
      var scope := locals[request.alias := items[0]];
      var events := [Bind({request.alias})];
      var one := RenderChildren(request.root, 0, q, scope, room, store);
      ChildrenScoped(request.root, 0, q, scope, room, store);
      assert locals.Keys + {request.alias} == scope.Keys;
      assert InForceAfter(locals.Keys, events) == InForceAfter(scope.Keys, []);
      ScopedConcat(events, one.events, locals.Keys, q.view.values);
      ItemsScoped(request, items[1..], q, scope, room, one.store);
      ScopedConcat(events + one.events, RenderItems(request, items[1..], q, scope, room, one.store).events,
                   locals.Keys, q.view.values);
    }
  }

  /** The events of any rendering follow the scope it began in, and leave it as it was. */
  lemma RenderingScoped(root: Node, page: Page, locals: Locals, store: Store)
    ensures Level(RenderPage(root, page, locals, store).events, locals.Keys, page.view.values)
  {
    hide RenderChildren;
    ChildrenScoped(root, 0, page, locals, MAX_PARTIALS, store);
  }
}

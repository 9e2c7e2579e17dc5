/** Templates that keep to a few rules about names, partials and the wrapped text; and events
    that are calm wherever they stand, which is what rendering such templates gives. */
module TidyTemplates {
  import opened Strings
  import opened Values
  import opened JsonText
  import opened ViewContexts
  import opened Evaluation
  import opened Template
  import opened Render
  import opened Scopes
  import opened RecordingLemmas
  import opened FragmentCache
  import opened CacheTheorem
  import Expression

  /** What the templates of a site keep to: the names kept for locals, the partials that
      fragments may render, whether those may write the wrapped text, and whether values may
      hold floating-point numbers. */
  datatype Rules = Rules(kept: set<string>, rendered: set<string>, writesBody: bool, numbers: bool)

  /** Whether the wrapped text must not be written. */
  predicate Silent(rules: Rules, inside: bool) { inside && !rules.writesBody }

  const YIELD := Expression.Name("yield")

  /** A part of a template that only reads: no loop, partial or fragment in it. */
  predicate Plain(node: Node, silent: bool) {
    && (node.content.Control? ==> !node.content.control.For?)
    && (node.content.Output? ==> !IsEngineCall(node.content.value) && (silent ==> node.content.value != YIELD))
    && forall i | 0 <= i < |node.children| :: Plain(node.children[i], silent)
  }

  predicate AllPlain(node: Node, silent: bool) { forall i | 0 <= i < |node.children| :: Plain(node.children[i], silent) }

  type Partials = Option<map<string, Node>>

  /** The call names its partial outright, and that partial only reads. */
  predicate CallsPlain(arguments: seq<Expression.Node>, partials: Partials, silent: bool) {
    var name := Named(arguments, "partial");
    && name.Some? && name.value.LiteralString?
    && (partials.Some? && name.value.literal in partials.value ==> Plain(partials.value[name.value.literal], silent))
  }

  /** Inside a fragment, the call names outright one of the partials to be rendered there. */
  predicate CallsRendered(arguments: seq<Expression.Node>, rules: Rules, inside: bool) {
    var name := Named(arguments, "partial");
    inside && name.Some? ==> name.value.LiteralString? && name.value.literal in rules.rendered
  }

  /** An expression that does no arithmetic and writes no floating-point number. */
  predicate NumberFree(n: Expression.Node) {
    match n
    case LiteralNumber(_) => false
    case Binary(op, left, right, _) => if op.And? || op.Or? then NumberFree(left) && NumberFree(right) else !op.Add? && !op.Subtract?
    case Member(target, _, _) => NumberFree(target)
    case NamedArgument(_, target, _) => NumberFree(target)
    case MapOf(entries, _) => forall i | 0 <= i < |entries| :: NumberFree(entries[i])
    case Call(target, _, _) => target.Member? ==> NumberFree(target)
    case _ => true
  }

  predicate Binds(n: Expression.Node, rules: Rules) { rules.numbers || NumberFree(n) }

  /** `:locals` is a map written out, and with a collection `:as` is a name written out, all
      of them kept names. */
  predicate GivesKept(arguments: seq<Expression.Node>, rules: Rules) {
    var given, items, alias := Named(arguments, "locals"), Named(arguments, "collection"), Named(arguments, "as");
    && (given.Some? ==> given.value.MapOf? && Binds(given.value, rules) && KeptEntries(given.value.arguments, rules.kept))
    && (items.Some? ==>
          && Binds(items.value, rules)
          && if alias.None? then "item" in rules.kept else alias.value.LiteralString? && alias.value.literal in rules.kept)
  }

  predicate KeptEntries(entries: seq<Expression.Node>, kept: set<string>) {
    forall i | 0 <= i < |entries| :: entries[i].NamedArgument? ==> entries[i].key in kept
  }

  predicate TidyExpression(n: Expression.Node, rules: Rules, inside: bool, partials: Partials) {
    IsEngineCall(n) ==>
      if n.target.name == "render" then
        && CallsRendered(n.arguments, rules, inside)
        && (CallsPlain(n.arguments, partials, Silent(rules, inside)) || GivesKept(n.arguments, rules))
      else FragmentOf(n).Some? ==> TidyExpression(FragmentOf(n).value, rules, true, partials)
  }

  /** A loop binds a kept name, or has only reads inside. */
  predicate TidyLoop(node: Node, rules: Rules, inside: bool)
    requires node.content.Control?
  {
    || (node.content.variable in rules.kept && (node.content.condition.Some? ==> Binds(node.content.condition.value, rules)))
    || AllPlain(node, Silent(rules, inside))
  }

  /** What binds a name that is not kept for locals has only reads inside; and what is inside
      a fragment keeps to what fragments may do. */
  predicate Tidy(node: Node, rules: Rules, inside: bool, partials: Partials) {
    && (node.content.Control? && node.content.control.For? ==> TidyLoop(node, rules, inside))
    && (node.content.Output? ==>
          TidyExpression(node.content.value, rules, inside, partials) && (Silent(rules, inside) ==> node.content.value != YIELD))
    && forall i | 0 <= i < |node.children| :: Tidy(node.children[i], rules, inside, partials)
  }

  ghost predicate TidyPartials(partials: Partials, rules: Rules) {
    partials.Some? ==> forall name | name in partials.value :: Tidy(partials.value[name], rules, name in rules.rendered, partials)
  }

  ghost predicate WholeFunctions(functions: map<string, seq<Given> -> Value>) {
    forall f, given | f in functions :: Whole(functions[f](given))
  }

  /** The rules and the site agree: kept names are neither view values nor functions, what
      fragments may do is the same on all pages, and where values may hold floating-point
      numbers there are none to read. */
  ghost predicate TidySite(site: Site, rules: Rules) {
    && rules.kept !! site.viewNames + site.functions.Keys
    && (forall name | name in rules.kept + site.viewNames :: '=' !in name)
    && (rules.writesBody ==> site.body.Some?) && rules.rendered <= site.partials.Keys
    && if rules.numbers then rules.kept == {} && site.viewNames == {} else WholeFunctions(site.functions)
  }

  // ------------------------------------------------------------- sealed events

  /** Calm wherever it stands: sheltered with nothing bound before it, and so is all that a
      fragment opened in it records; and settled, when it is inside a fragment. */
  ghost predicate Sealed(events: seq<Event>, site: Site, inside: bool) {
    && Sheltered({}, events, site.viewNames) && (inside ==> Settled(events, site))
    && forall i | 0 <= i < |events| && events[i].Open? :: SealedOpen(events, i, site)
  }

  ghost predicate SealedOpen(events: seq<Event>, i: nat, site: Site)
    requires i < |events| && events[i].Open?
  {
    && i + 1 + events[i].length <= |events|
    && Contained(events[i].scope, events[i + 1..i + 1 + events[i].length], site)
  }

  lemma SealedCalm(events: seq<Event>, site: Site, inside: bool)
    requires Sealed(events, site, inside)
    ensures Calm(events, site)
  {
    hide Sheltered, Contained, Settled;
    forall i | 0 <= i < |events| && events[i].Open? && i + 1 + events[i].length <= |events|
      ensures Contained(events[i].scope, events[i + 1..i + 1 + events[i].length], site)
    {
      assert SealedOpen(events, i, site);
    }
  }

  lemma SealedOutside(events: seq<Event>, site: Site, inside: bool)
    requires Sealed(events, site, inside)
    ensures Sealed(events, site, false)
  {
    hide Sheltered, SealedOpen, Settled;
  }

  /** Whatever is masked with less bound is masked with more. */
  lemma {:induction false} ShelteredMore(less: set<string>, more: set<string>, events: seq<Event>, viewNames: set<string>)
    requires less <= more && Sheltered(less, events, viewNames)
    ensures Sheltered(more, events, viewNames)
    decreases |events|
  {
    hide Legible;
    if events != [] { ShelteredMore(Mask(less, events[0]), Mask(more, events[0]), events[1..], viewNames); }
  }

  lemma {:induction false} ShelteredJoin(bound: set<string>, a: seq<Event>, b: seq<Event>, viewNames: set<string>)
    requires Sheltered(bound, a, viewNames) && Sheltered({}, b, viewNames)
    ensures Sheltered(bound, a + b, viewNames)
    decreases |a|
  {
    hide Clear;
    if a == [] {
      assert a + b == b;
      ShelteredMore({}, bound, b, viewNames);
    } else {
      assert (a + b)[1..] == a[1..] + b;
      ShelteredJoin(Mask(bound, a[0]), a[1..], b, viewNames);
    }
  }

  lemma SettledConcat(a: seq<Event>, b: seq<Event>, site: Site)
    requires Settled(a, site) && Settled(b, site)
    ensures Settled(a + b, site)
  {
    hide Varies;
    assert forall e | e in a + b :: e in a || e in b;
  }

  lemma SealedConcat(a: seq<Event>, b: seq<Event>, site: Site, inside: bool)
    requires Sealed(a, site, inside) && Sealed(b, site, inside)
    ensures Sealed(a + b, site, inside)
  {
    hide Sheltered, Contained, Settled;
    var whole := a + b;
    ShelteredJoin({}, a, b, site.viewNames);
    if inside { SettledConcat(a, b, site); }
    forall i | 0 <= i < |whole| && whole[i].Open? ensures SealedOpen(whole, i, site) {
      if i < |a| {
        assert SealedOpen(a, i, site);
        SliceWithin(a, b, i + 1, i + 1 + a[i].length);
      } else {
        var k := i - |a|;
        assert SealedOpen(b, k, site);
        assert whole[i] == b[k];
        SliceBehind(a, b, k + 1, k + 1 + b[k].length);
      }
    }
  }

  /** A fragment that is sealed inside, opened. */
  lemma SealedOpened(scope: set<string>, events: seq<Event>, site: Site, inside: bool)
    requires Sealed(events, site, true) && scope !! site.viewNames + site.functions.Keys
    ensures Sealed([Open(scope, |events|)] + events, site, inside)
  {
    var whole := [Open(scope, |events|)] + events;
    assert whole[1..] == events && whole[1..1 + |events|] == events;
    assert Sheltered({}, whole, site.viewNames);
    SettledNothing([Open(scope, |events|)], site);
    SettledConcat([Open(scope, |events|)], events, site);
    hide Sheltered, Settled;
    forall i | 0 <= i < |whole| && whole[i].Open? ensures SealedOpen(whole, i, site) {
      if i > 0 {
        assert SealedOpen(events, i - 1, site);
        assert whole[i + 1..i + 1 + whole[i].length] == events[i..i + whole[i].length];
      }
    }
  }

  lemma SettledNothing(events: seq<Event>, site: Site)
    requires forall e | e in events :: !Varies(e, site) || e.Read?
    ensures Settled(events, site)
  {
  }

  /** Events that open no fragment. */
  lemma SealedQuiet(events: seq<Event>, site: Site, inside: bool)
    requires Sheltered({}, events, site.viewNames) && forall e | e in events :: !e.Open?
    requires inside ==> Settled(events, site)
    ensures Sealed(events, site, inside)
  {
  }

  lemma {:induction false} BindingsSheltered(bound: set<string>, events: seq<Event>, viewNames: set<string>)
    requires forall e | e in events :: !e.Read?
    ensures Sheltered(bound, events, viewNames)
    decreases |events|
  {
    if events != [] { BindingsSheltered(Mask(bound, events[0]), events[1..], viewNames); }
  }

  lemma SealedBindings(events: seq<Event>, site: Site, inside: bool)
    requires forall e | e in events :: !e.Read? && !e.Open? && (inside ==> !Varies(e, site))
    ensures Sealed(events, site, inside)
  {
    BindingsSheltered({}, events, site.viewNames);
    if inside { SettledNothing(events, site); }
    hide Varies;
    SealedQuiet(events, site, inside);
  }

  ghost predicate LegibleMap(values: map<string, Value>) { forall name | name in values :: Legible(name, values[name]) }

  /** What only reads: the scope answers it, but for the wrapped text. */
  ghost predicate Reads(events: seq<Event>, values: map<string, Value>, locals: Locals, silent: bool) {
    forall e | e in events :: (e.WriteBody? && !silent) || Owned(e, values, locals)
  }

  /** Reads of locals that are all bound, or legible and not named like view values. */
  lemma {:induction false} ReadsSheltered(bound: set<string>, events: seq<Event>, values: map<string, Value>, locals: Locals,
                                          silent: bool, viewNames: set<string>)
    requires Reads(events, values, locals, silent) && LegibleMap(values)
    requires forall name | name in locals && name !in bound :: Legible(name, locals[name]) && name !in viewNames
    ensures Sheltered(bound, events, viewNames)
    decreases |events|
  {
    hide Legible;
    if events != [] {
      assert events[0].WriteBody? || Owned(events[0], values, locals);
      ReadsSheltered(bound, events[1..], values, locals, silent, viewNames);
    }
  }

  /** A page of the site that keeps to the rules, and locals that do. */
  ghost predicate TidyScope(q: Page, locals: Locals, site: Site, rules: Rules) {
    && TidySite(site, rules) && OnSite(q, site) && TidyPartials(q.options.partials, rules)
    && locals.Keys <= rules.kept && WholeMap(q.view.values) && WholeMap(locals)
  }

  ghost predicate WholeMap(values: map<string, Value>) { forall name | name in values :: Whole(values[name]) }

  lemma ScopeLegible(q: Page, locals: Locals, site: Site, rules: Rules)
    requires TidyScope(q, locals, site, rules)
    ensures LegibleMap(q.view.values) && LegibleMap(locals) && locals.Keys !! site.viewNames + site.functions.Keys
    ensures rules.writesBody ==> site.body.Some?
    ensures rules.rendered <= site.partials.Keys
  {
    hide TidyPartials, Whole;
  }

  /** What a page that keeps to the rules reads from locals that do. */
  lemma ReadsSealed(events: seq<Event>, q: Page, locals: Locals, site: Site, rules: Rules, inside: bool)
    requires Reads(events, q.view.values, locals, Silent(rules, inside)) && TidyScope(q, locals, site, rules)
    ensures Sealed(events, site, inside)
  {
    var silent := Silent(rules, inside);
    ScopeLegible(q, locals, site, rules);
    hide TidyScope, Legible;
    ReadsSheltered({}, events, q.view.values, locals, silent, site.viewNames);
    ReadsQuiet(events, q.view.values, locals, site, silent);
    hide Settled, Reads;
    SealedQuiet(events, site, inside);
  }

  lemma ReadsQuiet(events: seq<Event>, values: map<string, Value>, locals: Locals, site: Site, silent: bool)
    requires Reads(events, values, locals, silent)
    ensures forall e | e in events :: !e.Open?
    ensures silent || site.body.Some? ==> Settled(events, site)
  {
    assert forall e | e in events :: (e.WriteBody? && !silent) || Owned(e, values, locals);
  }

  lemma OwnsSealed(events: seq<Event>, q: Page, locals: Locals, site: Site, rules: Rules, inside: bool)
    requires Owns(events, q.view.values, locals) && TidyScope(q, locals, site, rules)
    ensures Sealed(events, site, inside)
  {
    hide TidyScope, Owned;
    ReadsSealed(events, q, locals, site, rules, inside);
  }

  lemma SealedNothing(site: Site, inside: bool)
    ensures Sealed([], site, inside)
  {
  }

  lemma WrapSealed(first: seq<Event>, opening: seq<Event>, inner: seq<Event>, closing: seq<Event>, site: Site, inside: bool)
    requires Sealed(first, site, inside) && Sealed(opening, site, inside) && Sealed(inner, site, inside) && Sealed(closing, site, inside)
    ensures Sealed(first + (opening + (inner + closing)), site, inside)
  {
    hide Sealed;
    SealedConcat(inner, closing, site, inside);
    SealedConcat(opening, inner + closing, site, inside);
    SealedConcat(first, opening + (inner + closing), site, inside);
  }

  // ------------------------------------------------------------- parts that only read

  lemma {:induction false} PlainChildren(parent: Node, i: nat, q: Page, locals: Locals, room: nat, store: Store, silent: bool)
    requires i <= |parent.children| && AllPlain(parent, silent)
    ensures Reads(RenderChildren(parent, i, q, locals, room, store).events, q.view.values, locals, silent)
    decreases parent, 1, |parent.children| - i, 1
  {
    hide RenderNode, RenderChain, Owned;
    if i < |parent.children| {
      if parent.children[i].IsHead() {
        var chain := RenderChain(parent, i, false, q, locals, room, store);
        PlainChain(parent, i, false, q, locals, room, store, silent);
        if chain.result.Success? { PlainChildren(parent, chain.result.value.next, q, locals, room, chain.store, silent); }
      } else {
        var child := RenderNode(parent.children[i], q, locals, room, store);
        PlainNode(parent.children[i], q, locals, room, store, silent);
        if child.result.Success? { PlainChildren(parent, i + 1, q, locals, room, child.store, silent); }
      }
    }
  }

  lemma {:induction false} PlainChain(parent: Node, i: nat, taken: bool, q: Page, locals: Locals, room: nat,
                                      store: Store, silent: bool)
    requires i < |parent.children| && parent.children[i].IsControl() && AllPlain(parent, silent)
    ensures Reads(RenderChain(parent, i, taken, q, locals, room, store).events, q.view.values, locals, silent)
    decreases parent, 1, |parent.children| - i, 0
  {
    hide RenderChain, BranchPart, BranchHolds, Owned;
    var branch := parent.children[i];
    var part := BranchPart(branch, taken, q, locals, room, store);
    ChainStep(parent, i, taken, q, locals, room, store);
    PlainBranch(branch, taken, q, locals, room, store, silent);
    if part.result.Success? && i + 1 < |parent.children| && parent.children[i + 1].IsTail() {
      PlainChain(parent, i + 1, BranchHolds(branch, taken, q.view, locals), q, locals, room, part.store, silent);
    }
  }

  lemma {:induction false} PlainBranch(branch: Node, taken: bool, q: Page, locals: Locals, room: nat, store: Store, silent: bool)
    requires branch.content.Control? && Plain(branch, silent)
    ensures Reads(BranchPart(branch, taken, q, locals, room, store).events, q.view.values, locals, silent)
    decreases branch, 2
  {
    hide RenderChildren, BranchTaken, Owned;
    assert AllPlain(branch, silent);
    PlainChildren(branch, 0, q, locals, room, store, silent);
  }

  lemma {:induction false} PlainNode(node: Node, q: Page, locals: Locals, room: nat, store: Store, silent: bool)
    requires Plain(node, silent)
    ensures Reads(RenderNode(node, q, locals, room, store).events, q.view.values, locals, silent)
    decreases node, 2
  {
    hide RenderChildren, Interpolate, RenderFilter, OpenTag, HoleText, Owned;
    assert AllPlain(node, silent);
    PlainChildren(node, 0, q, locals, room, store, silent);
  }

  // ------------------------------------------------------------- whole values

  lemma {:induction false} WholeValue(n: Expression.Node, view: View, locals: Locals)
    requires NumberFree(n) && WholeMap(view.values) && WholeMap(locals) && WholeFunctions(view.functions)
    ensures var r := Evaluate(n, view, locals).result; r.Success? ==> Whole(r.value)
    decreases n
  {
    hide Operation, ToText;
    match n
    case Member(target, _, _) => WholeValue(target, view, locals);
    case NamedArgument(_, target, _) => WholeValue(target, view, locals);
    case MapOf(entries, _) => WholeEntries(entries, map[], view, locals);
    case Binary(op, left, right, _) =>
      WholeOperation(n, view, locals);
      if op.And? || op.Or? {
        WholeValue(left, view, locals);
        WholeValue(right, view, locals);
      }
    case Call(target, _, _) => if target.Member? { WholeValue(target, view, locals); }
    case _ =>
  }

  lemma WholeOperation(n: Expression.Node, view: View, locals: Locals)
    requires n.Binary?
    ensures var r := Evaluate(n, view, locals).result;
            var a, b := Evaluate(n.left, view, locals).result, Evaluate(n.right, view, locals).result;
            r.Success? ==>
              if n.op.And? || n.op.Or? then a.Success? && (r == a || r == b)
              else if n.op.Add? || n.op.Subtract? then true
              else r.value.Boolean? || r.value.String?
  {
    hide SameValue, Compare, ToText;
  }

  lemma {:induction false} WholeEntries(entries: seq<Expression.Node>, sofar: map<string, Value>, view: View, locals: Locals)
    requires forall i | 0 <= i < |entries| :: NumberFree(entries[i])
    requires WholeMap(view.values) && WholeMap(locals) && WholeFunctions(view.functions) && WholeMap(sofar)
    ensures var r := EvaluateEntries(entries, sofar, view, locals).result;
            r.Success? ==> r.value.Object? && WholeMap(r.value.members)
    decreases entries
  {
    hide Evaluate;
    if entries != [] && entries[0].NamedArgument? {
      var value := Evaluate(entries[0].target, view, locals);
      WholeValue(entries[0].target, view, locals);
      if value.result.Success? { WholeEntries(entries[1..], sofar[entries[0].key := value.result.value], view, locals); }
    }
  }

  // ------------------------------------------------------------- bound and then read

  lemma BoundFirst(names: set<string>, events: seq<Event>, viewNames: set<string>)
    requires Sheltered(names, events, viewNames)
    ensures Sheltered({}, [Bind(names)] + events, viewNames)
  {
    var whole := [Bind(names)] + events;
    assert whole[1..] == events && Mask({}, whole[0]) == {} + names == names;
  }

  /** Reads right after their names are bound. */
  lemma BoundReads(names: set<string>, events: seq<Event>, values: map<string, Value>, locals: Locals, silent: bool, site: Site,
                   inside: bool)
    requires Reads(events, values, locals, silent) && LegibleMap(values) && (inside ==> silent || site.body.Some?)
    requires forall name | name in locals && name !in names :: Legible(name, locals[name]) && name !in site.viewNames
    ensures Sealed([Bind(names)] + events, site, inside)
  {
    hide Legible;
    ReadsSheltered(names, events, values, locals, silent, site.viewNames);
    BoundFirst(names, events, site.viewNames);
    ReadsQuiet(events, values, locals, site, silent);
    SettledNothing([Bind(names)], site);
    hide Sheltered, Settled, Reads;
    if inside { SettledConcat([Bind(names)], events, site); }
    assert forall e | e in [Bind(names)] + events :: e == Bind(names) || e in events;
    SealedQuiet([Bind(names)] + events, site, inside);
  }

  /** A partial that only reads, whatever it is given, reads only what it was given. */
  lemma PlainPartial(request: Request, q: Page, room: nat, store: Store, silent: bool, site: Site, inside: bool)
    requires AllPlain(request.root, silent) && LegibleMap(q.view.values) && (inside ==> silent || site.body.Some?)
    ensures Sealed([Bind(request.locals.Keys)] + RenderPartial(request, q, room, store).events, site, inside)
  {
    hide RenderChildren, RenderItems, Sealed, LegibleMap, Reads, AllPlain, Sheltered, Settled;
    var given := request.locals.Keys;
    var inner := RenderPartial(request, q, room, store).events;
    if request.items.None? {
      PlainChildren(request.root, 0, q, request.locals, room, store, silent);
      BoundReads(given, inner, q.view.values, request.locals, silent, site, inside);
    } else {
      PlainItems(request, request.items.value, q, request.locals, room, store, silent, site);
      BoundFirst(given, inner, site.viewNames);
      SettledNothing([Bind(given)], site);
      if inside { SettledConcat([Bind(given)], inner, site); }
      assert forall e | e in [Bind(given)] + inner :: e == Bind(given) || e in inner;
      SealedQuiet([Bind(given)] + inner, site, inside);
    }
  }

  /** What a partial rendered for each item reads and binds, the first item apart. */
  lemma ItemsEvents(request: Request, items: seq<Value>, q: Page, locals: Locals, room: nat, store: Store)
    requires items != []
    ensures var scope := locals[request.alias := items[0]];
            var one := RenderChildren(request.root, 0, q, scope, room, store);
            var rest := if one.result.Success? then RenderItems(request, items[1..], q, scope, room, one.store).events else [];
            RenderItems(request, items, q, locals, room, store).events == [Bind({request.alias})] + (one.events + rest)
  {
    hide RenderChildren;
    var scope := locals[request.alias := items[0]];
    var one := RenderChildren(request.root, 0, q, scope, room, store);
    var events := [Bind({request.alias})];
    assert (events + one.events) + [] == events + (one.events + []);
    if one.result.Success? {
      var rest := RenderItems(request, items[1..], q, scope, room, one.store).events;
      assert (events + one.events) + rest == events + (one.events + rest);
    }
  }

  lemma {:induction false} PlainItems(request: Request, items: seq<Value>, q: Page, locals: Locals, room: nat,
                                      store: Store, silent: bool,
                                      site: Site)
    requires AllPlain(request.root, silent) && LegibleMap(q.view.values)
    ensures var events := RenderItems(request, items, q, locals, room, store).events;
            && Sheltered(locals.Keys, events, site.viewNames)
            && (forall e | e in events :: !e.Open?) && (silent || site.body.Some? ==> Settled(events, site))
    decreases |items|
  {
    hide RenderChildren, Sheltered, AllPlain, Reads, RenderItems, LegibleMap, Settled;
    ShelteredNothing(locals.Keys, site.viewNames);
    SettledNothing([], site);
    if items == [] {
      NoItems(request, q, locals, room, store);
    } else {
      var scope := locals[request.alias := items[0]];
      var one := RenderChildren(request.root, 0, q, scope, room, store);
      PlainChildren(request.root, 0, q, scope, room, store, silent);
      var rest := if one.result.Success? then RenderItems(request, items[1..], q, scope, room, one.store).events else [];
      ShelteredNothing(scope.Keys, site.viewNames);
      if one.result.Success? { PlainItems(request, items[1..], q, scope, room, one.store, silent, site); }
      assert locals.Keys + {request.alias} == scope.Keys;
      BoundItem(locals.Keys, request.alias, one.events, rest, q.view.values, scope, silent, site);
      ItemsEvents(request, items, q, locals, room, store);
    }
  }

  lemma NoItems(request: Request, q: Page, locals: Locals, room: nat, store: Store)
    ensures RenderItems(request, [], q, locals, room, store).events == []
  {
  }

  lemma ShelteredNothing(bound: set<string>, viewNames: set<string>)
    ensures Sheltered(bound, [], viewNames)
  {
  }

  /** One more name bound, and reads that it or the names bound before answer. */
  lemma BoundItem(names: set<string>, alias: string, reads_: seq<Event>, rest: seq<Event>, values: map<string, Value>, scope: Locals,
                  silent: bool, site: Site)
    requires scope.Keys == names + {alias} && Reads(reads_, values, scope, silent) && LegibleMap(values)
    requires Sheltered(scope.Keys, rest, site.viewNames)
    requires (forall e | e in rest :: !e.Open?) && (silent || site.body.Some? ==> Settled(rest, site))
    ensures var whole := [Bind({alias})] + (reads_ + rest);
            && Sheltered(names, whole, site.viewNames)
            && (forall e | e in whole :: !e.Open?) && (silent || site.body.Some? ==> Settled(whole, site))
  {
    ReadsSheltered(scope.Keys, reads_, values, scope, silent, site.viewNames);
    ReadsThen(scope.Keys, reads_, rest, values, scope, silent, site.viewNames);
    ReadsQuiet(reads_, values, scope, site, silent);
    var whole := [Bind({alias})] + (reads_ + rest);
    assert whole[0] == Bind({alias}) && whole[1..] == reads_ + rest;
    assert Sheltered(names, whole, site.viewNames);
    SettledNothing([Bind({alias})], site);
    hide Sheltered, Settled, Reads, LegibleMap;
    if silent || site.body.Some? {
      SettledConcat(reads_, rest, site);
      SettledConcat([Bind({alias})], reads_ + rest, site);
    }
    assert forall e | e in whole :: e == Bind({alias}) || e in reads_ || e in rest;
  }

  /** Reads change nothing of what is bound. */
  lemma {:induction false} ReadsThen(bound: set<string>, a: seq<Event>, b: seq<Event>, values: map<string, Value>, locals: Locals,
                                     silent: bool, viewNames: set<string>)
    requires Reads(a, values, locals, silent) && Sheltered(bound, a, viewNames) && Sheltered(bound, b, viewNames)
    ensures Sheltered(bound, a + b, viewNames)
    decreases |a|
  {
    hide Clear;
    if a == [] {
      assert a + b == b;
    } else {
      assert a[0].WriteBody? || Owned(a[0], values, locals);
      assert (a + b)[1..] == a[1..] + b;
      ReadsThen(bound, a[1..], b, values, locals, silent, viewNames);
    }
  }

  lemma PlainRequest(arguments: seq<Expression.Node>, q: Page, locals: Locals, room: nat, silent: bool)
    requires CallsPlain(arguments, q.options.partials, silent) && ReadRequest(arguments, q, locals, room).result.Success?
    ensures AllPlain(ReadRequest(arguments, q, locals, room).result.value.root, silent)
  {
  }
}

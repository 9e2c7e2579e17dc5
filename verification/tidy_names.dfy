/** A check on the templates alone that makes every rendering calm, so that the cache
    theorem needs nothing of the runs. */
module TidyNames {
  import opened Strings
  import opened Values
  import opened JsonText
  import opened ViewContexts
  import opened Evaluation
  import opened Template
  import opened Render
  import opened SameReads
  import opened Scopes
  import opened RecordingLemmas
  import opened FragmentCache
  import opened CacheTheorem
  import opened Pages
  import opened TidyTemplates
  import Expression

  lemma {:induction false} ChildrenTidy(parent: Node, i: nat, q: Page, locals: Locals, room: nat, store: Store,
                                        site: Site, rules: Rules, inside: bool)
    requires i <= |parent.children| && Tidy(parent, rules, inside, q.options.partials) && TidyScope(q, locals, site, rules)
    ensures Sealed(RenderChildren(parent, i, q, locals, room, store).events, site, inside)
    decreases room, 1, parent, 1, |parent.children| - i, 1
  {
    hide RenderNode, RenderChain, Sealed, TidyScope;
    SealedNothing(site, inside);
    if i < |parent.children| {
      if parent.children[i].IsHead() {
        var chain := RenderChain(parent, i, false, q, locals, room, store);
        ChainTidy(parent, i, false, q, locals, room, store, site, rules, inside);
        if chain.result.Success? {
          var next := chain.result.value.next;
          ChildrenTidy(parent, next, q, locals, room, chain.store, site, rules, inside);
          SealedConcat(chain.events, RenderChildren(parent, next, q, locals, room, chain.store).events, site, inside);
        }
      } else {
        var child := RenderNode(parent.children[i], q, locals, room, store);
        NodeTidy(parent.children[i], q, locals, room, store, site, rules, inside);
        if child.result.Success? {
          ChildrenTidy(parent, i + 1, q, locals, room, child.store, site, rules, inside);
          SealedConcat(child.events, RenderChildren(parent, i + 1, q, locals, room, child.store).events, site, inside);
        }
      }
    }
  }

  lemma {:induction false} ChainTidy(parent: Node, i: nat, taken: bool, q: Page, locals: Locals, room: nat, store: Store,
                                     site: Site, rules: Rules, inside: bool)
    requires i < |parent.children| && parent.children[i].IsControl()
    requires Tidy(parent, rules, inside, q.options.partials) && TidyScope(q, locals, site, rules)
    ensures Sealed(RenderChain(parent, i, taken, q, locals, room, store).events, site, inside)
    decreases room, 1, parent, 1, |parent.children| - i, 0
  {
    hide RenderChain, BranchPart, BranchHolds, Sealed, TidyScope;
    var branch := parent.children[i];
    var part := BranchPart(branch, taken, q, locals, room, store);
    var holds := BranchHolds(branch, taken, q.view, locals);
    ChainStep(parent, i, taken, q, locals, room, store);
    BranchTidy(branch, taken, q, locals, room, store, site, rules, inside);
    if part.result.Success? && i + 1 < |parent.children| && parent.children[i + 1].IsTail() {
      ChainTidy(parent, i + 1, holds, q, locals, room, part.store, site, rules, inside);
      SealedConcat(part.events, RenderChain(parent, i + 1, holds, q, locals, room, part.store).events, site, inside);
    }
  }

  lemma {:induction false} BranchTidy(branch: Node, taken: bool, q: Page, locals: Locals, room: nat, store: Store,
                                      site: Site, rules: Rules, inside: bool)
    requires branch.content.Control? && Tidy(branch, rules, inside, q.options.partials) && TidyScope(q, locals, site, rules)
    ensures Sealed(BranchPart(branch, taken, q, locals, room, store).events, site, inside)
    decreases room, 1, branch, 2
  {
    hide RenderChildren, BranchTaken, Sealed, TidyScope;
    var condition := if taken then Done(false) else BranchTaken(branch, q.view, locals);
    assert Owns(condition.events, q.view.values, locals);
    OwnsSealed(condition.events, q, locals, site, rules, inside);
    if condition.result.Success? && condition.result.value {
      ChildrenTidy(branch, 0, q, locals, room, store, site, rules, inside);
      SealedConcat(condition.events, RenderChildren(branch, 0, q, locals, room, store).events, site, inside);
    }
  }

  lemma {:induction false} NodeTidy(node: Node, q: Page, locals: Locals, room: nat, store: Store, site: Site,
                                    rules: Rules, inside: bool)
    requires Tidy(node, rules, inside, q.options.partials) && TidyScope(q, locals, site, rules)
    ensures Sealed(RenderNode(node, q, locals, room, store).events, site, inside)
    decreases room, 1, node, 3
  {
    hide RenderChildren, RenderLoop, RenderElement, RenderOutput, Interpolate, RenderFilter, Sealed, TidyScope;
    SealedNothing(site, inside);
    match node.content
    case Root => ChildrenTidy(node, 0, q, locals, room, store, site, rules, inside);
    case Text(parts) => OwnsSealed(Interpolate(parts, true, q.view, locals).events, q, locals, site, rules, inside);
    case Output(value, escaped) => OutputTidy(value, escaped, q, locals, room, store, site, rules, inside);
    case Filter(_) => OwnsSealed(RenderFilter(node, q.view, locals).events, q, locals, site, rules, inside);
    case Control(_, _, _) => LoopTidy(node, q, locals, room, store, site, rules, inside);
    case Element(_, _, _, _, _, _) => ElementTidy(node, q, locals, room, store, site, rules, inside);
    case _ =>
  }

  lemma {:induction false} OutputTidy(value: Expression.Node, escaped: bool, q: Page, locals: Locals, room: nat,
                                      store: Store, site: Site, rules: Rules, inside: bool)
    requires TidyExpression(value, rules, inside, q.options.partials) && (Silent(rules, inside) ==> value != YIELD)
    requires TidyScope(q, locals, site, rules)
    ensures Sealed(RenderOutput(value, escaped, q, locals, room, store).events, site, inside)
    decreases room, 0, value, 4
  {
    hide RenderEngineCall, HoleText, Sealed, TidyScope;
    SealedNothing(site, inside);
    if IsEngineCall(value) {
      EngineTidy(value, q, locals, room, store, site, rules, inside);
    } else if value == YIELD {
      ReadsSealed([WriteBody], q, locals, site, rules, inside);
    } else {
      OwnsSealed(HoleText(value, escaped, q.view, locals).events, q, locals, site, rules, inside);
    }
  }

  lemma {:induction false} ElementTidy(node: Node, q: Page, locals: Locals, room: nat, store: Store, site: Site,
                                       rules: Rules, inside: bool)
    requires node.content.Element? && Tidy(node, rules, inside, q.options.partials) && TidyScope(q, locals, site, rules)
    ensures Sealed(RenderElement(node, q, locals, room, store).events, site, inside)
    decreases room, 1, node, 2, 0
  {
    hide RenderChildren, OpenTag, Sealed, TidyScope;
    var tag := OpenTag(node.content, q.view, locals);
    OwnsSealed(tag.events, q, locals, site, rules, inside);
    ChildrenTidy(node, 0, q, locals, room, store, site, rules, inside);
    SealedConcat(tag.events, RenderChildren(node, 0, q, locals, room, store).events, site, inside);
  }

  lemma {:induction false} LoopTidy(node: Node, q: Page, locals: Locals, room: nat, store: Store, site: Site,
                                    rules: Rules, inside: bool)
    requires node.content.Control? && Tidy(node, rules, inside, q.options.partials) && TidyScope(q, locals, site, rules)
    ensures Sealed(RenderLoop(node, q, locals, room, store).events, site, inside)
    decreases room, 1, node, 2, 0
  {
    hide LoopItems, Evaluate, Sealed, TidyScope;
    SealedNothing(site, inside);
    if node.content.control.For? && node.content.condition.Some? {
      assert TidyLoop(node, rules, inside);
      var items := Evaluate(node.content.condition.value, q.view, locals);
      OwnsSealed(items.events, q, locals, site, rules, inside);
      if items.result.Success? && items.result.value.List? {
        var walked := LoopItems(node, items.result.value.items, q, locals, room, store);
        if !AllPlain(node, Silent(rules, inside)) { BoundWhole(node.content.condition.value, q, locals, site, rules); }
        LoopItemsTidy(node, items.result.value.items, q, locals, room, store, site, rules, inside);
        SealedBindings([Keep({})], site, inside);
        SealedBindings([Keep(locals.Keys)], site, inside);
        WrapSealed(items.events, [Keep({})], walked.events, [Keep(locals.Keys)], site, inside);
      }
    }
  }

  /** What a binding expression gives holds no floating-point number. */
  lemma BoundWhole(n: Expression.Node, q: Page, locals: Locals, site: Site, rules: Rules)
    requires Binds(n, rules) && rules.kept != {} && TidyScope(q, locals, site, rules)
    ensures var r := Evaluate(n, q.view, locals).result; r.Success? ==> Whole(r.value)
  {
    hide Evaluate, TidyPartials, WholeFunctions, WholeMap, SharedOptions;
    WholeValue(n, q.view, locals);
  }

  lemma {:induction false} LoopItemsTidy(node: Node, items: seq<Value>, q: Page, saved: Locals, room: nat, store: Store,
                                         site: Site, rules: Rules, inside: bool)
    requires node.content.Control? && node.content.control.For?
    requires Tidy(node, rules, inside, q.options.partials) && TidyScope(q, saved, site, rules)
    requires (node.content.variable in rules.kept && forall item | item in items :: Whole(item)) || AllPlain(node, Silent(rules, inside))
    ensures Sealed(LoopItems(node, items, q, saved, room, store).events, site, inside)
    decreases room, 1, node, 1, |node.children| + 1, 0, |items|
  {
    hide RenderChildren, TidyScope, Sealed, AllPlain, Whole;
    SealedNothing(site, inside);
    if items != [] {
      var variable := node.content.variable;
      var scope := saved[variable := items[0]];
      var keep, bind := [Keep(saved.Keys)], [Bind({variable})];
      var body := RenderChildren(node, 0, q, scope, room, store);
      SealedBindings(keep, site, inside);
      if AllPlain(node, Silent(rules, inside)) {
        PlainLoop(node, items[0], q, saved, room, store, site, rules, inside);
      } else {
        ScopeGrows(variable, items[0], q, saved, site, rules);
        ChildrenTidy(node, 0, q, scope, room, store, site, rules, inside);
        SealedBindings(bind, site, inside);
        SealedConcat(bind, body.events, site, inside);
      }
      SealedConcat(keep, bind + body.events, site, inside);
      assert keep + (bind + body.events) == [Keep(saved.Keys), Bind({variable})] + body.events;
      LoopItemsTidy(node, items[1..], q, saved, room, body.store, site, rules, inside);
      SealedConcat([Keep(saved.Keys), Bind({variable})] + body.events,
                   LoopItems(node, items[1..], q, saved, room, body.store).events, site, inside);
    }
  }

  lemma PlainLoop(node: Node, item: Value, q: Page, saved: Locals, room: nat, store: Store, site: Site, rules: Rules, inside: bool)
    requires node.content.Control? && AllPlain(node, Silent(rules, inside)) && TidyScope(q, saved, site, rules)
    ensures var scope := saved[node.content.variable := item];
            Sealed([Bind({node.content.variable})] + RenderChildren(node, 0, q, scope, room, store).events, site, inside)
  {
    ScopeLegible(q, saved, site, rules);
    hide RenderChildren, TidyScope, Sealed, AllPlain, Legible;
    var variable := node.content.variable;
    var scope, silent := saved[variable := item], Silent(rules, inside);
    PlainChildren(node, 0, q, scope, room, store, silent);
    BoundReads({variable}, RenderChildren(node, 0, q, scope, room, store).events, q.view.values, scope, silent, site, inside);
  }

  lemma ScopeGrows(name: string, value: Value, q: Page, locals: Locals, site: Site, rules: Rules)
    requires TidyScope(q, locals, site, rules) && name in rules.kept && Whole(value)
    ensures TidyScope(q, locals[name := value], site, rules)
  {
    hide TidyPartials, TidySite, OnSite, Whole;
  }

  lemma {:induction false} EngineTidy(n: Expression.Node, q: Page, locals: Locals, room: nat, store: Store, site: Site,
                                      rules: Rules, inside: bool)
    requires IsEngineCall(n) && TidyExpression(n, rules, inside, q.options.partials) && TidyScope(q, locals, site, rules)
    ensures Sealed(RenderEngineCall(n, q, locals, room, store).events, site, inside)
    decreases room, 0, n, 2
  {
    hide RenderPartialCall, RenderFragmentBody, ReplayOf, Fold, KeyText, Sealed, TidyScope;
    SealedNothing(site, inside);
    if n.target.name == "render" {
      PartialTidy(n, q, locals, room, store, site, rules, inside);
    } else if FragmentOf(n).Some? {
      var body := FragmentOf(n).value;
      BodyTidy(body, q, locals, room, store, site, rules, true);
      var c := RenderFragmentBody(body, q, locals, room, store);
      RecordedEvents(body, c, q.view.jsonNumber);
      ScopeLegible(q, locals, site, rules);
      hide Recorded;
      if store.Some? {
        var cache := store.value;
        var replayed :=
          if body in cache.names then ReplayOf(cache.names[body], q.view.values, locals) else Replayed(None, []);
        OwnsSealed(replayed.events, q, locals, site, rules, true);
        OwnsSealed(replayed.events, q, locals, site, rules, inside);
        SealedOpened(locals.Keys, replayed.events, site, inside);
        SealedOpened(locals.Keys, c.events, site, inside);
        SealedConcat(replayed.events, [Open(locals.Keys, |c.events|)] + c.events, site, inside);
      } else if !inside {
        SealedOutside(c.events, site, true);
      }
    }
  }

  lemma {:induction false} BodyTidy(body: Expression.Node, q: Page, locals: Locals, room: nat, store: Store, site: Site,
                                    rules: Rules, inside: bool)
    requires TidyExpression(body, rules, inside, q.options.partials) && TidyScope(q, locals, site, rules)
    ensures Sealed(RenderFragmentBody(body, q, locals, room, store).events, site, inside)
    decreases room, 0, body, 3
  {
    hide RenderEngineCall, HoleText, Sealed, TidyScope;
    if IsEngineCall(body) {
      EngineTidy(body, q, locals, room, store, site, rules, inside);
    } else {
      OwnsSealed(HoleText(body, false, q.view, locals).events, q, locals, site, rules, inside);
    }
  }

  /** The partial a tidy call renders, and whether it keeps to what fragments may do. */
  lemma RequestRoot(arguments: seq<Expression.Node>, q: Page, locals: Locals, room: nat, site: Site, rules: Rules, inside: bool)
    requires CallsRendered(arguments, rules, inside) && TidyScope(q, locals, site, rules)
    requires ReadRequest(arguments, q, locals, room).result.Success?
    ensures var given := ReadRequest(arguments, q, locals, room).result.value;
            && Tidy(given.root, rules, given.name in rules.rendered, q.options.partials)
            && (inside ==> given.name in rules.rendered)
  {
    RequestName(arguments, q, locals, room);
    hide ReadRequest, TidySite, OnSite, Tidy;
    if inside {
      var name := Named(arguments, "partial").value;
      assert Evaluate(name, q.view, locals).result == Success(String(name.literal));
    }
  }

  /** The locals and the items that a call gives its partial. */
  lemma RequestParts(arguments: seq<Expression.Node>, q: Page, locals: Locals, room: nat)
    requires ReadRequest(arguments, q, locals, room).result.Success?
    ensures var given := ReadRequest(arguments, q, locals, room).result.value;
            var members, items, alias := Named(arguments, "locals"), Named(arguments, "collection"), Named(arguments, "as");
            && (if members.None? then given.locals == map[]
                else var r := Evaluate(members.value, q.view, locals).result;
                     r.Success? && given.locals == r.value.Members())
            && (if items.None? then given.items.None?
                else var r := Evaluate(items.value, q.view, locals).result;
                     r.Success? && given.items == Some(r.value.Items()))
            && (if alias.None? then given.alias == "item"
                else var r := Evaluate(alias.value, q.view, locals).result;
                     r.Success? && given.alias == r.value.AsString())
  {
    hide Evaluate, Named;
  }

  /** What a call that gives kept names makes of its arguments. */
  lemma RequestKept(arguments: seq<Expression.Node>, q: Page, locals: Locals, room: nat, site: Site, rules: Rules)
    requires GivesKept(arguments, rules) && TidyScope(q, locals, site, rules)
    requires ReadRequest(arguments, q, locals, room).result.Success?
    ensures var given := ReadRequest(arguments, q, locals, room).result.value;
            && TidyScope(q, given.locals, site, rules)
            && (given.items.Some? ==> given.alias in rules.kept && forall item | item in given.items.value :: Whole(item))
  {
    hide ReadRequest, TidySite, TidyPartials, OnSite, Binds, KeptEntries, Named;
    var given, items, alias := Named(arguments, "locals"), Named(arguments, "collection"), Named(arguments, "as");
    RequestParts(arguments, q, locals, room);
    if given.Some? { GivenWhole(given.value, q, locals, site, rules); }
    if items.Some? {
      BoundWhole(items.value, q, locals, site, rules);
      if alias.Some? { assert Evaluate(alias.value, q.view, locals) == Done(String(alias.value.literal)); }
    }
  }

  lemma GivenWhole(n: Expression.Node, q: Page, locals: Locals, site: Site, rules: Rules)
    requires n.MapOf? && Binds(n, rules) && KeptEntries(n.arguments, rules.kept) && TidyScope(q, locals, site, rules)
    ensures var r := Evaluate(n, q.view, locals).result;
            r.Success? ==> r.value.Object? && r.value.members.Keys <= rules.kept && WholeMap(r.value.members)
  {
    EntriesKept(n.arguments, map[], q.view, locals, rules.kept);
    if rules.kept != {} { BoundWhole(n, q, locals, site, rules); }
  }

  lemma {:induction false} EntriesKept(entries: seq<Expression.Node>, sofar: map<string, Value>, view: View,
                                       locals: Locals, kept: set<string>)
    requires sofar.Keys <= kept && KeptEntries(entries, kept)
    ensures var r := EvaluateEntries(entries, sofar, view, locals).result;
            r.Success? ==> r.value.Object? && r.value.members.Keys <= kept
    decreases entries
  {
    hide Evaluate;
    if entries != [] && entries[0].NamedArgument? {
      var value := Evaluate(entries[0].target, view, locals);
      if value.result.Success? {
        EntriesKept(entries[1..], sofar[entries[0].key := value.result.value], view, locals, kept);
      }
    }
  }

  lemma {:induction false} PartialTidy(n: Expression.Node, q: Page, locals: Locals, room: nat, store: Store, site: Site,
                                       rules: Rules, inside: bool)
    requires n.Call? && TidyScope(q, locals, site, rules) && CallsRendered(n.arguments, rules, inside)
    requires CallsPlain(n.arguments, q.options.partials, Silent(rules, inside)) || GivesKept(n.arguments, rules)
    ensures Sealed(RenderPartialCall(n, q, locals, room, store).events, site, inside)
    decreases room, 0, n, 1
  {
    hide RenderPartial, ReadRequest, CallsPlain, GivesKept, CallsRendered, TidyScope, Sealed, Tidy;
    var request := ReadRequest(n.arguments, q, locals, room);
    OwnsSealed(request.events, q, locals, site, rules, inside);
    if request.result.Success? && room > 0 {
      var given := request.result.value;
      var inner := RenderPartial(given, q, room - 1, store);
      var bind, closing := [Bind(given.locals.Keys)], [Keep(locals.Keys)];
      ScopeLegible(q, locals, site, rules);
      RequestRoot(n.arguments, q, locals, room, site, rules, inside);
      if CallsPlain(n.arguments, q.options.partials, Silent(rules, inside)) {
        PlainRequest(n.arguments, q, locals, room, Silent(rules, inside));
        PlainPartial(given, q, room - 1, store, Silent(rules, inside), site, inside);
      } else {
        RequestKept(n.arguments, q, locals, room, site, rules);
        RequestedTidy(given, q, room - 1, store, site, rules, given.name in rules.rendered);
        if !inside { SealedOutside(inner.events, site, given.name in rules.rendered); }
        SealedBindings(bind, site, inside);
        SealedConcat(bind, inner.events, site, inside);
      }
      SealedBindings(closing, site, inside);
      SealedBindings([Find(given.name), Keep({})], site, inside);
      WrapSealed(request.events, [Find(given.name), Keep({})], bind + inner.events, closing, site, inside);
      assert Entering(given) + (inner.events + closing) == [Find(given.name), Keep({})] + ((bind + inner.events) + closing);
    }
  }

  lemma {:induction false} RequestedTidy(request: Request, q: Page, room: nat, store: Store, site: Site, rules: Rules, inside: bool)
    requires Tidy(request.root, rules, inside, q.options.partials)
    requires request.items.Some? ==> request.alias in rules.kept && forall item | item in request.items.value :: Whole(item)
    requires TidyScope(q, request.locals, site, rules)
    ensures Sealed(RenderPartial(request, q, room, store).events, site, inside)
    decreases room, 3
  {
    hide RenderChildren, RenderItems, TidyScope, Sealed;
    if request.items.None? {
      ChildrenTidy(request.root, 0, q, request.locals, room, store, site, rules, inside);
    } else {
      ItemsTidy(request, request.items.value, q, request.locals, room, store, site, rules, inside);
    }
  }

  lemma {:induction false} ItemsTidy(request: Request, items: seq<Value>, q: Page, locals: Locals, room: nat,
                                     store: Store, site: Site, rules: Rules, inside: bool)
    requires Tidy(request.root, rules, inside, q.options.partials) && TidyScope(q, locals, site, rules)
    requires request.alias in rules.kept && forall item | item in items :: Whole(item)
    ensures Sealed(RenderItems(request, items, q, locals, room, store).events, site, inside)
    decreases room, 2, |items|
  {
    hide RenderChildren, TidyScope, Sealed;
    SealedNothing(site, inside);
    if items != [] {
      var scope := locals[request.alias := items[0]];
      var events := [Bind({request.alias})];
      var one := RenderChildren(request.root, 0, q, scope, room, store);
      ScopeGrows(request.alias, items[0], q, locals, site, rules);
      ChildrenTidy(request.root, 0, q, scope, room, store, site, rules, inside);
      SealedBindings(events, site, inside);
      SealedConcat(events, one.events, site, inside);
      ItemsTidy(request, items[1..], q, scope, room, one.store, site, rules, inside);
      SealedConcat(events + one.events, RenderItems(request, items[1..], q, scope, room, one.store).events, site, inside);
    }
  }

  ghost predicate TidyJobs(jobs: seq<Job>, site: Site, rules: Rules) {
    forall i | 0 <= i < |jobs| ::
      Tidy(jobs[i].root, rules, false, jobs[i].page.options.partials) && TidyScope(jobs[i].page, jobs[i].locals, site, rules)
  }

  lemma {:induction false} JobsTidy(jobs: seq<Job>, store: Store, site: Site, rules: Rules)
    requires TidyJobs(jobs, site, rules)
    ensures AllCalm(RenderJobs(jobs, store), site)
  {
    hide RenderPage, Calm, Tidy, TidyScope;
    if jobs != [] {
      var first := RenderPage(jobs[0].root, jobs[0].page, jobs[0].locals, store);
      FirstTidy(jobs[0], store, site, rules);
      JobsTidy(jobs[1..], first.store, site, rules);
      var runs := RenderJobs(jobs, store);
      assert runs[0] == first && runs[1..] == RenderJobs(jobs[1..], first.store);
      forall i | 0 <= i < |runs| ensures Calm(runs[i].events, site) {
        if i > 0 { assert runs[i] == runs[1..][i - 1]; }
      }
    }
  }

  lemma FirstTidy(job: Job, store: Store, site: Site, rules: Rules)
    requires Tidy(job.root, rules, false, job.page.options.partials) && TidyScope(job.page, job.locals, site, rules)
    ensures Calm(RenderPage(job.root, job.page, job.locals, store).events, site)
  {
    hide RenderChildren, Sealed, Calm, Tidy, TidyScope;
    ChildrenTidy(job.root, 0, job.page, job.locals, MAX_PARTIALS, store, site, rules, false);
    SealedCalm(RenderPage(job.root, job.page, job.locals, store).events, site, false);
  }

  /** The cache theorem, on conditions that can be checked before anything is rendered. The
      pages may wrap any texts and find other templates under any name no fragment renders. */
  lemma {:induction false} CacheTransparentWhenTidy(jobs: seq<Job>, site: Site, rules: Rules)
    requires TidyJobs(jobs, site, rules)
    ensures AllTransparent(jobs)
  {
    JobsTidy(jobs, Some(EMPTY), site, rules);
    assert AllOnSite(jobs, site) by { hide Tidy, TidySite, TidyPartials, OnSite; }
    hide RenderJobs, Transparent, Tidy, TidyScope, OnSite;
    CacheTransparent(jobs, site);
  }
}

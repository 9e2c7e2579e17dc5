/** Two pages, the second of which renders with the cache and not without: a fragment found
    is not rendered, so it nests no deeper. */
module DeepPages {
  import opened Strings
  import opened Values
  import opened ViewContexts
  import opened Evaluation
  import opened Template
  import opened Render
  import opened Depth
  import opened Pages
  import opened SmallPages
  import Expression

  /** The partial that is `k` above the one with the fragment. */
  function Above(k: nat): string { seq(k, i => 'x') }

  function Fragment(): Expression.Node { Partial("e") }

  function Step(k: nat): Node { if k == 0 then Layout(Fragment()) else Lines([Partial(Above(k - 1))]) }

  /** Each of the first `n` steps renders the one below it, the lowest an empty partial in a
      fragment. */
  function Stairs(n: nat): map<string, Node> {
    if n == 0 then map["e" := Lines([])] else Stairs(n - 1)[Above(n - 1) := Step(n - 1)]
  }

  lemma {:induction false} StairsHold(n: nat, k: nat)
    ensures "e" in Stairs(n) && Stairs(n)["e"] == Lines([])
    ensures k < n ==> Above(k) in Stairs(n) && Stairs(n)[Above(k)] == Step(k)
  {
    if n > 0 {
      StairsHold(n - 1, k);
      assert |Above(n - 1)| == n - 1 && |Above(k)| == k;
      assert Above(n - 1) != "e" by { if n == 2 { assert Above(1)[0] == 'x'; } }
    }
  }

  function StairPage(): Page { PlainPage(map[], Stairs(MAX_PARTIALS)) }

  /** A page that begins `k` steps up. */
  function StairJob(k: nat): Job { Job(Lines([Partial(Above(k))]), StairPage(), map[]) }

  /** A call of a partial gives what the partial gives, and a line break. */
  lemma CallGives(name: string, page: Page, room: nat, store: Store)
    requires page.options.Found(name).Some? && room > 0
    ensures var inner := RenderChildren(page.options.Found(name).value, 0, page, map[], room - 1, store);
            var r := RenderChildren(Lines([Partial(name)]), 0, page, map[], room, store);
            && (r.result.Success? <==> inner.result.Success?) && (TooDeep(inner.result) ==> TooDeep(r.result))
            && r.store == inner.store
  {
    hide RenderChildren, RenderOutput, RenderFragmentBody;
    var inner := RenderChildren(page.options.Found(name).value, 0, page, map[], room - 1, store);
    NothingGiven();
    PartialRenders(name, None, page, map[], room, store, inner);
    OneLine(Partial(name), page, map[], room, store, RenderOutput(Partial(name), false, page, map[], room, store));
  }

  /** Without a cache, as many steps as there is room for are one too many. */
  lemma {:induction false} UncachedFails(k: nat)
    requires k < MAX_PARTIALS
    ensures TooDeep(RenderChildren(Step(k), 0, StairPage(), map[], k, None).result)
  {
    hide RenderChildren, RenderCachedFragment, Stairs;
    var page := StairPage();
    if k == 0 {
      NoRoom(page);
      LayoutRenders(Fragment(), page, map[], 0, None, RenderCachedFragment(FragmentCall(Fragment()), page, map[], 0, None));
    } else {
      UncachedFails(k - 1);
      StairsHold(MAX_PARTIALS, k - 1);
      CallGives(Above(k - 1), page, k, None);
    }
  }

  /** A call that no room is left for asks for nothing. */
  lemma NoRequest(name: string, page: Page)
    requires page.options.Found(name).Some?
    ensures ReadRequest(Partial(name).arguments, page, map[], 0) == Evaluated(Failure(PartialsTooDeep), [])
  {
    var arguments := Partial(name).arguments;
    assert Named(arguments, "partial") == Some(Expression.LiteralString(name));
    assert Evaluate(Expression.LiteralString(name), page.view, map[]) == Done(String(name));
  }

  lemma NoRoom(page: Page)
    requires page == StairPage()
    ensures TooDeep(RenderCachedFragment(FragmentCall(Fragment()), page, map[], 0, None).result)
  {
    hide ReadRequest, RenderPartial;
    var n := Fragment();
    StairsHold(MAX_PARTIALS, 0);
    NoRequest("e", page);
    assert FragmentOf(FragmentCall(n)) == Some(n);
    assert RenderPartialCall(n, page, map[], 0, None).result == Failure(PartialsTooDeep);
    assert RenderEngineCall(n, page, map[], 0, None) == RenderPartialCall(n, page, map[], 0, None);
  }

  /** With the fragment in the cache, no room is needed below it. */
  lemma {:induction false} CachedSucceeds(k: nat, first: string, events: seq<Event>)
    requires k < MAX_PARTIALS && Fold(Fresh(NoText), events) == Fresh(NoText)
    ensures RenderChildren(Step(k), 0, StairPage(), map[], k, Some(CacheOf(Fragment(), events, first, NoText))).result.Success?
  {
    hide RenderChildren, RenderCachedFragment, Stairs, CacheOf, Fold, KeyText;
    var page, cache := StairPage(), CacheOf(Fragment(), events, first, NoText);
    if k == 0 {
      ReplayNothing(page.view.values, map[], NoText);
      FoundByReplay(Fragment(), page, map[], 0, first, events);
      LayoutRenders(Fragment(), page, map[], 0, Some(cache),
                    RenderCachedFragment(FragmentCall(Fragment()), page, map[], 0, Some(cache)));
    } else {
      CachedSucceeds(k - 1, first, events);
      StairsHold(MAX_PARTIALS, k - 1);
      CallGives(Above(k - 1), page, k, Some(cache));
    }
  }

  /** The first page, one step up: the fragment is rendered and put away. */
  lemma FirstFills(events: seq<Event>)
    requires events == CallEvents([], "e", None, [], map[])
    ensures Fold(Fresh(NoText), events) == Fresh(NoText)
    ensures var r := RenderPage(StairJob(0).root, StairPage(), map[], Some(EMPTY));
            r.result.Success? && r.store == Some(CacheOf(Fragment(), events, "", NoText))
  {
    hide RenderChildren, RenderOutput, RenderFragmentBody, CacheOf, Fold;
    var page, room := StairPage(), MAX_PARTIALS - 1;
    StairsHold(MAX_PARTIALS, 0);
    LinesEnd([], page, map[], room - 1, Some(EMPTY));
    NothingGiven();
    PartialRenders("e", None, page, map[], room, Some(EMPTY), Wrote("", Some(EMPTY)));
    Filled(Fragment(), page, map[], room, "", events);
    LayoutRenders(Fragment(), page, map[], room, Some(EMPTY),
                  RenderCachedFragment(FragmentCall(Fragment()), page, map[], room, Some(EMPTY)));
    CallGives(Above(0), page, MAX_PARTIALS, Some(EMPTY));
    FoldCall(Fresh(NoText), "e", None, [], map[]);
    FoldNothing(Fresh(NoText));
    var none: Locals := map[];
    assert none.Keys == {} && Fresh(NoText).(bound := {}) == Fresh(NoText);
    KeepNothing(Fresh(NoText), {});
  }

  /** So the cached second page is written, while uncached it runs out of room: the one way
      in which the cache makes a difference to a site it is safe for. */
  lemma CachedPageNestsDeeper()
    ensures var p, q := StairJob(0), StairJob(MAX_PARTIALS - 1);
            TooDeep(Uncached(q, MAX_PARTIALS)) && RenderJobs([p, q], Some(EMPTY))[1].result.Success?
  {
    hide RenderChildren, CacheOf;
    var p, q, k := StairJob(0), StairJob(MAX_PARTIALS - 1), MAX_PARTIALS - 1;
    var events := CallEvents([], "e", None, [], map[]);
    FirstFills(events);
    StairsHold(MAX_PARTIALS, k);
    UncachedFails(k);
    CallGives(Above(k), q.page, MAX_PARTIALS, None);
    CachedSucceeds(k, "", events);
    CallGives(Above(k), q.page, MAX_PARTIALS, Some(CacheOf(Fragment(), events, "", NoText)));
    SecondPage(p, q);
  }
}

/** Why the cache theorem asks what it asks: for each condition left out, two pages on
    which the cached second page is not the uncached one. */
module CacheLimits {
  import opened Strings
  import opened Values
  import opened JsonText
  import opened ViewContexts
  import opened Evaluation
  import opened Template
  import opened Render
  import opened Pages
  import opened SmallPages
  import Expression

  // ------------------------------------------------------------- what the key leaves out

  /** Two pages whose fragment renders a partial that reads nothing, and is not the same. */
  lemma NothingInTheKey(partial: string, left: Page, right: Page, first: string, second: string, reads_: seq<Event>)
    requires left.options.Found(partial).Some? && right.options.Found(partial).Some? && (reads_ == [] || reads_ == [WriteBody])
    requires forall store :: RenderChildren(left.options.Found(partial).value, 0, left, map[], MAX_PARTIALS - 1, store)
                          == Rendered(Success(first), reads_, store)
    requires forall store :: RenderChildren(right.options.Found(partial).value, 0, right, map[], MAX_PARTIALS - 1, store)
                          == Rendered(Success(second), reads_, store)
    requires left.view.jsonNumber == right.view.jsonNumber
    ensures var p, q := Job(Layout(Partial(partial)), left, map[]), Job(Layout(Partial(partial)), right, map[]);
            && Uncached(q, MAX_PARTIALS) == Success(second + "\n")
            && RenderJobs([p, q], Some(EMPTY))[1].result == Success(first + "\n")
  {
    hide RenderFragmentBody, RenderCachedFragment, RenderChildren, RenderOutput, Fold, ReplayOf, Names, CacheOf, KeyText;
    var p, q := Job(Layout(Partial(partial)), left, map[]), Job(Layout(Partial(partial)), right, map[]);
    var events, begun := CallEvents([], partial, None, reads_, map[]), Fresh(right.view.jsonNumber);
    NothingGiven();
    PartialRenders(partial, None, left, map[], MAX_PARTIALS, Some(EMPTY), Rendered(Success(first), reads_, Some(EMPTY)));
    PartialRenders(partial, None, right, map[], MAX_PARTIALS, None, Rendered(Success(second), reads_, None));
    FoldCall(begun, partial, None, reads_, map[]);
    ReplayNothing(right.view.values, map[], right.view.jsonNumber);
    if reads_ != [] { FoldRead(begun, WriteBody); }
    assert begun.(bound := LocalsOf(None).Keys) == begun;
    KeepNothing(begun, p.locals.Keys);
    assert Fold(begun, events) == begun;
    FoundByReplay(Partial(partial), right, map[], MAX_PARTIALS, first, events);
    StalePages(Partial(partial), p, q, first, second, events, events);
  }

  /** Pages that wrap these texts, with one partial that writes what they wrap. */
  function YieldPage(partial: string, wrapped: string): Page {
    PlainPage(map[], map[partial := Lines([Expression.Name("yield")])], wrapped)
  }

  /** The text a layout wraps is not among the reads, so `yield` in a fragment is stale. */
  lemma YieldIsNotInTheKey(partial: string, first: string, second: string)
    ensures var root := Layout(Partial(partial));
            var p, q := Job(root, YieldPage(partial, first), map[]), Job(root, YieldPage(partial, second), map[]);
            && Uncached(q, MAX_PARTIALS) == Success(second + "\n" + "\n")
            && RenderJobs([p, q], Some(EMPTY))[1].result == Success(first + "\n" + "\n")
  {
    hide RenderFragmentBody, RenderCachedFragment, RenderChildren, RenderOutput, HoleText, RenderJobs, Uncached;
    var left, right := YieldPage(partial, first), YieldPage(partial, second);
    var root := Lines([Expression.Name("yield")]);
    forall store
      ensures RenderChildren(root, 0, left, map[], MAX_PARTIALS - 1, store) == Rendered(Success(first + "\n"), [WriteBody], store)
    {
      YieldLine(left, store);
    }
    forall store
      ensures RenderChildren(root, 0, right, map[], MAX_PARTIALS - 1, store) == Rendered(Success(second + "\n"), [WriteBody], store)
    {
      YieldLine(right, store);
    }
    NothingInTheKey(partial, left, right, first + "\n", second + "\n", [WriteBody]);
  }

  /** A page on which the partial is a line of text. */
  function LookupPage(partial: string, text: string, wrapped: string): Page {
    PlainPage(map[], map[partial := Lines([Expression.LiteralString(text)])], wrapped)
  }

  /** Nor is the section a partial is looked up for: the same name finds another file. */
  lemma PartialLookupIsNotInTheKey(partial: string, first: string, second: string, wrapped: string)
    ensures var root := Layout(Partial(partial));
            var p, q := Job(root, LookupPage(partial, first, wrapped), map[]), Job(root, LookupPage(partial, second, wrapped), map[]);
            && Uncached(q, MAX_PARTIALS) == Success(second + "\n" + "\n")
            && RenderJobs([p, q], Some(EMPTY))[1].result == Success(first + "\n" + "\n")
  {
    hide RenderFragmentBody, RenderCachedFragment, RenderChildren, RenderOutput, HoleText, RenderJobs, Uncached;
    var left, right := LookupPage(partial, first, wrapped), LookupPage(partial, second, wrapped);
    var one, two := Lines([Expression.LiteralString(first)]), Lines([Expression.LiteralString(second)]);
    assert left.options.Found(partial) == Some(one) && right.options.Found(partial) == Some(two);
    forall store
      ensures RenderChildren(one, 0, left, map[], MAX_PARTIALS - 1, store) == Rendered(Success(first + "\n"), [], store)
    {
      LiteralLine(left, first, store);
    }
    forall store
      ensures RenderChildren(two, 0, right, map[], MAX_PARTIALS - 1, store) == Rendered(Success(second + "\n"), [], store)
    {
      LiteralLine(right, second, store);
    }
    NothingInTheKey(partial, left, right, first + "\n", second + "\n", []);
  }

  // ------------------------------------------------------------- what the key cannot tell apart

  /** A name's value, and a number added to it. */
  function SumOf(name: string, n: int): Expression.Node {
    Expression.Binary(Expression.Add, Expression.Name(name), Expression.LiteralInteger(n), 2)
  }

  /** How a page writes numbers. */
  datatype Numbers = Numbers(toNumber: string -> real, text: real -> string, json: real -> string)

  function NumberPage(values: map<string, Value>, partials: map<string, Node>, numbers: Numbers, wrapped: string): Page {
    Page(View(values, map[], numbers.toNumber, numbers.text, numbers.json), Options(Some(partials), wrapped))
  }

  lemma SumText(name: string, n: int, v: Value, events: seq<Event>, view: View, locals: Locals)
    requires v.Integer? || v.Number?
    requires Evaluate(Expression.Name(name), view, locals) == Evaluated(Success(v), events)
    ensures var sum := if v.Integer? then IntegerText(v.integer + n) else view.numberText(v.number + n as real);
            HoleText(SumOf(name, n), false, view, locals) == Evaluated(Success(sum), events)
  {
    var l, r := Expression.Name(name), Expression.LiteralInteger(n);
    assert Evaluate(r, view, locals) == Done(Integer(n));
    assert events + [] == events;
    var sum := if v.Integer? then Integer(v.integer + n) else Number(v.number + n as real);
    assert Arithmetic(Expression.Add, v, Integer(n), view) == sum;
    assert Operation(Expression.Add, v, Integer(n), view) == Success(sum);
    assert Evaluate(SumOf(name, n), view, locals) == Evaluated(Success(sum), events);
  }

  lemma SumFragment(name: string, n: int, v: Value, events: seq<Event>, page: Page, locals: Locals, room: nat, store: Store)
    requires v.Integer? || v.Number?
    requires Evaluate(Expression.Name(name), page.view, locals) == Evaluated(Success(v), events)
    ensures var sum := if v.Integer? then IntegerText(v.integer + n) else page.view.numberText(v.number + n as real);
            RenderFragmentBody(SumOf(name, n), page, locals, room, store) == Rendered(Success(sum), events, store)
  {
    SumText(name, n, v, events, page.view, locals);
    hide HoleText;
  }

  /** A fragment found by one read whose JSON is the same. */
  lemma FoundByOne(body: Expression.Node, name: string, value: Value, local: bool, page: Page, locals: Locals, room: nat,
                   first: string)
    requires Resolves(name, page.view.values, locals)
    requires Json(Resolve(name, page.view.values, locals), page.view.jsonNumber) == Json(value, page.view.jsonNumber)
    ensures var cache := CacheOf(body, [Read(name, value, local)], first, page.view.jsonNumber);
            RenderCachedFragment(FragmentCall(body), page, locals, room, Some(cache)).result == Success(first)
  {
    hide RenderCachedFragment, Fold, ReplayOf, Names, Json, KeyText, Resolve, Resolves, CacheOf, Step;
    var e, number := Read(name, value, local), page.view.jsonNumber;
    FoldRead(Fresh(number), e);
    ReadOnce(e, number);
    ReplayOne(name, value, page.view.values, locals, number);
    FoundByReplay(body, page, locals, room, first, [e]);
  }

  /** The integer 1 and the number 1.0 are one text in JSON, so a page with the one is given
      what was computed from the other. The sums differ when, say, they are 10000000000000000
      and 1e+16. */
  lemma IntegerAndNumberShareAKey(name: string, i: int, n: int, numbers: Numbers, wrapped: string)
    requires numbers.json(i as real) == IntegerText(i)
    ensures var root := Layout(SumOf(name, n));
            var p, q := Job(root, NumberPage(map[name := Integer(i)], map[], numbers, wrapped), map[]),
                        Job(root, NumberPage(map[name := Number(i as real)], map[], numbers, wrapped), map[]);
            && Uncached(q, MAX_PARTIALS) == Success(numbers.text((i + n) as real) + "\n")
            && RenderJobs([p, q], Some(EMPTY))[1].result == Success(IntegerText(i + n) + "\n")
  {
    hide RenderFragmentBody, RenderCachedFragment, RenderChildren, RenderJobs, Uncached, IntegerText, CacheOf;
    var body := SumOf(name, n);
    var p, q := Job(Layout(body), NumberPage(map[name := Integer(i)], map[], numbers, wrapped), map[]),
                Job(Layout(body), NumberPage(map[name := Number(i as real)], map[], numbers, wrapped), map[]);
    var whole, real_: Value := Integer(i), Number(i as real);
    SumFragment(name, n, whole, [Read(name, whole, false)], p.page, map[], MAX_PARTIALS, Some(EMPTY));
    SumFragment(name, n, real_, [Read(name, real_, false)], q.page, map[], MAX_PARTIALS, None);
    assert (i + n) as real == i as real + n as real;
    FoundByOne(body, name, whole, false, q.page, map[], MAX_PARTIALS, IntegerText(i + n));
    StalePages(body, p, q, IntegerText(i + n), numbers.text((i + n) as real), [Read(name, whole, false)], [Read(name, real_, false)]);
  }

  /** The same of a local, given to the partial that has the fragment. */
  lemma LocalsShareAKey(name: string, i: int, n: int, numbers: Numbers, wrapped: string)
    requires numbers.json(i as real) == IntegerText(i) && numbers.toNumber(TOKEN) == i as real
    ensures var page := NumberPage(map[], map["w" := Layout(SumOf(name, n))], numbers, wrapped);
            var p, q := Caller("w", Some(Binding(name, Integer(i))), page), Caller("w", Some(Binding(name, Number(i as real))), page);
            && Uncached(q, MAX_PARTIALS) == Success(numbers.text((i + n) as real) + "\n" + "\n")
            && RenderJobs([p, q], Some(EMPTY))[1].result == Success(IntegerText(i + n) + "\n" + "\n")
  {
    hide RenderFragmentBody, RenderCachedFragment, RenderChildren, RenderJobs, Uncached, IntegerText, CacheOf;
    var body, room := SumOf(name, n), MAX_PARTIALS - 1;
    var page := NumberPage(map[], map["w" := Layout(body)], numbers, wrapped);
    var whole, real_: Value := Integer(i), Number(i as real);
    var given, other := Some(Binding(name, whole)), Some(Binding(name, real_));
    SumFragment(name, n, whole, [Read(name, whole, true)], page, LocalsOf(given), room, Some(EMPTY));
    SumFragment(name, n, real_, [Read(name, real_, true)], page, LocalsOf(other), room, None);
    assert (i + n) as real == i as real + n as real;
    FoundByOne(body, name, whole, true, page, LocalsOf(other), room, IntegerText(i + n));
    StaleCallers(body, "w", page, given, page, other, IntegerText(i + n), Success(numbers.text((i + n) as real)),
                 [Read(name, whole, true)], [Read(name, real_, true)]);
  }

  // ------------------------------------------------------------- one name, used in two ways

  /** A partial that writes the value of `name`, and one whose line is a fragment that
      renders it. */
  function ValuePartials(name: string, partial: string): map<string, Node> {
    map[partial := Lines([TextOf(name)]), partial + "w" := Layout(Partial(partial))]
  }

  /** A local of one page shadows, for the key, the view value that the partial reads. */
  lemma LocalShadowsViewValue(name: string, partial: string, first: string, second: string, wrapped: string)
    ensures var partials := ValuePartials(name, partial);
            var p := Caller(partial + "w", None, PlainPage(One(name, first), partials, wrapped));
            var q := Caller(partial + "w", Some(Binding(name, String(first))), PlainPage(One(name, second), partials, wrapped));
            && Uncached(q, MAX_PARTIALS) == Success(second + "\n" + "\n" + "\n")
            && RenderJobs([p, q], Some(EMPTY))[1].result == Success(first + "\n" + "\n" + "\n")
  {
    hide RenderFragmentBody, RenderCachedFragment, RenderChildren, RenderOutput, HoleText, Fold, ReplayOf, Names, Step, KeyText, CacheOf,
      Uncached, RenderJobs;
    var body, given, partials := Partial(partial), Some(Binding(name, String(first))), ValuePartials(name, partial);
    var left, right := PlainPage(One(name, first), partials, wrapped), PlainPage(One(name, second), partials, wrapped);
    var room, number, e := MAX_PARTIALS - 1, left.view.jsonNumber, Read(name, String(first), false);
    assert |partial + "w"| != |partial|;
    NothingGiven();
    ValuePartial(left, name, partial, first, map[], room, Some(EMPTY));
    ValuePartial(right, name, partial, second, LocalsOf(given), room, None);
    var events, seen := CallEvents([], partial, None, [e], map[]), OneRead(name, String(first), true, number);
    FoldCall(Fresh(number), partial, None, [e], map[]);
    assert Fresh(number).(bound := {}) == Fresh(number);
    FoldRead(Fresh(number), e);
    ReadOnce(e, number);
    KeepNothing(seen, LocalsOf(None).Keys);
    assert Fold(Fresh(number), events) == seen;
    ReplayOne(name, String(first), right.view.values, LocalsOf(given), number);
    FoundByReplay(body, right, LocalsOf(given), room, first + "\n", events);
    StaleCallers(body, partial + "w", left, None, right, given, first + "\n", Success(second + "\n"), events,
                 CallEvents([], partial, None, [Read(name, String(second), false)], LocalsOf(given)));
  }

  /** A partial that writes a view value, called with nothing given. */
  lemma ValuePartial(page: Page, name: string, partial: string, text: string, locals: Locals, room: nat, store: Store)
    requires page.view.values == One(name, text) && page.options.Found(partial) == Some(Lines([TextOf(name)])) && room > 0
    ensures RenderFragmentBody(Partial(partial), page, locals, room, store)
         == Rendered(Success(text + "\n"), CallEvents([], partial, None, [Read(name, String(text), false)], locals), store)
  {
    hide RenderFragmentBody, RenderChildren, RenderOutput, HoleText;
    NothingGiven();
    TextOfValue(name, text, page.view, map[]);
    var e := Read(name, String(text), false);
    TextLine(name, page, map[], room - 1, store, text, [e]);
    OneLine(TextOf(name), page, map[], room - 1, store, Rendered(Success(text + "\n"), [e], store));
    PartialRenders(partial, None, page, locals, room, store, Rendered(Success(text + "\n"), [e], store));
  }

  /** A name that is a local on one page and a value on the next: the second has no local to
      be read as `$name`, but it answers the key. */
  lemma ValueAnswersForLocal(name: string, text: string, wrapped: string)
    ensures var partials := map["w" := Layout(Expression.Variable(name))];
            var p := Caller("w", Some(Binding(name, String(text))), PlainPage(map[], partials, wrapped));
            var q := Caller("w", None, PlainPage(One(name, text), partials, wrapped));
            && Uncached(q, MAX_PARTIALS) == Failure(NoSuchLocal)
            && RenderJobs([p, q], Some(EMPTY))[1].result == Success(text + "\n" + "\n")
  {
    hide RenderFragmentBody, RenderCachedFragment, RenderChildren, CacheOf, Uncached, RenderJobs;
    var body, given := Expression.Variable(name), Some(Binding(name, String(text)));
    var partials := map["w" := Layout(body)];
    var left, right := PlainPage(map[], partials, wrapped), PlainPage(One(name, text), partials, wrapped);
    LocalFragment(name, text, left, LocalsOf(given), Some(EMPTY));
    NothingGiven();
    NoLocalFragment(name, right, map[]);
    FoundByOne(body, name, String(text), true, right, map[], MAX_PARTIALS - 1, text);
    StaleCallers(body, "w", left, given, right, None, text, Failure(NoSuchLocal), [Read(name, String(text), true)], []);
  }

  lemma LocalFragment(name: string, text: string, page: Page, locals: Locals, store: Store)
    requires name in locals && locals[name] == String(text)
    ensures RenderFragmentBody(Expression.Variable(name), page, locals, MAX_PARTIALS - 1, store)
         == Rendered(Success(text), [Read(name, String(text), true)], store)
  {
    assert HoleText(Expression.Variable(name), false, page.view, locals)
        == Evaluated(Success(text), [Read(name, String(text), true)]);
  }

  lemma NoLocalFragment(name: string, page: Page, locals: Locals)
    requires name !in locals
    ensures RenderFragmentBody(Expression.Variable(name), page, locals, MAX_PARTIALS - 1, None)
         == Rendered(Failure(NoSuchLocal), [], None)
  {
    assert HoleText(Expression.Variable(name), false, page.view, locals) == Evaluated(Failure(NoSuchLocal), []);
  }

  function FunctionPage(name: string, f: seq<Given> -> Value, values: map<string, Value>, partials: map<string, Node>,
                        wrapped: string)
    : Page
  {
    Page(View(values, map[name := f], NoNumber, NoText, NoText), Options(Some(partials), wrapped))
  }

  /** A name that is a function on one page and a value on the next reads nothing on the
      first, so the second answers its key. */
  lemma ValueHidesFunction(name: string, f: seq<Given> -> Value, first: string, second: string, wrapped: string)
    requires f([]) == String(first)
    ensures var root := Layout(TextOf(name));
            var p, q := Job(root, FunctionPage(name, f, map[], map[], wrapped), map[]),
                        Job(root, FunctionPage(name, f, One(name, second), map[], wrapped), map[]);
            && Uncached(q, MAX_PARTIALS) == Success(second + "\n")
            && RenderJobs([p, q], Some(EMPTY))[1].result == Success(first + "\n")
  {
    hide RenderFragmentBody, RenderCachedFragment, RenderChildren, RenderOutput, HoleText, Fold, ReplayOf, Names, KeyText;
    var root := Layout(TextOf(name));
    var p, q := Job(root, FunctionPage(name, f, map[], map[], wrapped), map[]),
                Job(root, FunctionPage(name, f, One(name, second), map[], wrapped), map[]);
    TextOfFunction(name, first, p.page.view, map[]);
    TextOfValue(name, second, q.page.view, map[]);
    var other := [Read(name, String(second), false)];
    TextLine(name, p.page, map[], MAX_PARTIALS, Some(EMPTY), first, []);
    TextLine(name, q.page, map[], MAX_PARTIALS, None, second, other);
    ReplayNothing(q.page.view.values, q.locals, q.page.view.jsonNumber);
    FoundByReplay(TextOf(name), q.page, q.locals, MAX_PARTIALS, first, []);
    StalePages(TextOf(name), p, q, first, second, [], other);
  }

  /** A name that is a function where the fragment is first rendered, and a local where it
      is met again. */
  lemma LocalHidesFunction(name: string, f: seq<Given> -> Value, first: string, second: string, wrapped: string)
    requires f([]) == String(first)
    ensures var page := FunctionPage(name, f, map[], map["w" := Layout(TextOf(name))], wrapped);
            var p, q := Caller("w", None, page), Caller("w", Some(Binding(name, String(second))), page);
            && Uncached(q, MAX_PARTIALS) == Success(second + "\n" + "\n")
            && RenderJobs([p, q], Some(EMPTY))[1].result == Success(first + "\n" + "\n")
  {
    hide RenderFragmentBody, RenderCachedFragment, RenderChildren, RenderOutput, HoleText, Fold, ReplayOf, Names, CacheOf, KeyText;
    var body, given := TextOf(name), Some(Binding(name, String(second)));
    var page := FunctionPage(name, f, map[], map["w" := Layout(body)], wrapped);
    var locals, room, other := LocalsOf(given), MAX_PARTIALS - 1, [Read(name, String(second), true)];
    NothingGiven();
    TextOfFunction(name, first, page.view, map[]);
    TextOfLocal(name, second, page.view, locals);
    TextLine(name, page, map[], room, Some(EMPTY), first, []);
    TextLine(name, page, locals, room, None, second, other);
    ReplayNothing(page.view.values, locals, page.view.jsonNumber);
    FoundByReplay(body, page, locals, room, first, []);
    StaleCallers(body, "w", page, None, page, given, first, Success(second), [], other);
  }

  // ------------------------------------------------------------- one name, two values

  /** A fragment that reads one name with two values is not replayed, as the context
      promises. But it is stored, so when the next page has rendered it afresh and comes to
      the same key, it is the first page's text that is written. Here the name is read as a
      local to say which partial to render, and the partial reads it as a view value. */
  lemma UnreplayableIsFoundAllTheSame(name: string, first: string, second: string)
    requires first != "p"
    ensures var root := Layout(RenderCall(Expression.Name(name), None));
            var partials := map["p" := Lines([TextOf(name)])];
            var p, q := Job(root, PlainPage(One(name, first), partials), One(name, "p")),
                        Job(root, PlainPage(One(name, second), partials), One(name, "p"));
            var runs := RenderJobs([p, q], Some(EMPTY));
            && runs[0].store.Some? && runs[0].store.value.names == map[]
            && Uncached(q, MAX_PARTIALS) == Success(second + "\n" + "\n")
            && runs[1].result == Success(first + "\n" + "\n")
  {
    hide RenderFragmentBody, RenderCachedFragment, RenderChildren, RenderOutput, HoleText, Fold, ReplayOf, Names, KeyText;
    var body := RenderCall(Expression.Name(name), None);
    var partials := map["p" := Lines([TextOf(name)])];
    var p, q := Job(Layout(body), PlainPage(One(name, first), partials), One(name, "p")),
                Job(Layout(body), PlainPage(One(name, second), partials), One(name, "p"));
    NamedPartial(p, name, first, Some(EMPTY));
    NamedPartial(q, name, second, None);
    FoldNamed(name, first, p.locals, p.page.view.jsonNumber);
    FoldNamed(name, second, q.locals, q.page.view.jsonNumber);
    var events, other := NamedEvents(name, first, p.locals), NamedEvents(name, second, q.locals);
    var cache := CacheOf(body, events, first + "\n", p.page.view.jsonNumber);
    NamedPartial(q, name, second, Some(cache));
    FoundAfresh(body, q.page, q.locals, MAX_PARTIALS, first + "\n", events, second + "\n", other);
    StalePages(body, p, q, first + "\n", second + "\n", events, other);
  }

  /** The local read that names the partial, and then what the partial reads. */
  function NamedEvents(name: string, text: string, locals: Locals): seq<Event> {
    CallEvents([Read(name, String("p"), true)], "p", None, [Read(name, String(text), false)], locals)
  }

  lemma NamedPartial(job: Job, name: string, text: string, store: Store)
    requires job.page == PlainPage(One(name, text), map["p" := Lines([TextOf(name)])]) && job.locals == One(name, "p")
    ensures RenderFragmentBody(RenderCall(Expression.Name(name), None), job.page, job.locals, MAX_PARTIALS, store)
         == Rendered(Success(text + "\n"), NamedEvents(name, text, job.locals), store)
  {
    hide RenderFragmentBody, RenderChildren, RenderOutput, HoleText;
    var e := Read(name, String(text), false);
    TextOfValue(name, text, job.page.view, map[]);
    TextLine(name, job.page, map[], MAX_PARTIALS - 1, store, text, [e]);
    OneLine(TextOf(name), job.page, map[], MAX_PARTIALS - 1, store, Rendered(Success(text + "\n"), [e], store));
    assert Evaluate(Expression.Name(name), job.page.view, job.locals) == ReadLocal(name, job.locals);
    assert LocalsOf(None) == map[];
    CallRenders(Expression.Name(name), None, "p", [Read(name, String("p"), true)], job.page, job.locals, MAX_PARTIALS, store,
                Rendered(Success(text + "\n"), [e], store));
  }

  lemma StringsTold(a: string, b: string, number: real -> string)
    ensures Json(String(a), number) == Json(String(b), number) <==> a == b
  {
    if Json(String(a), number) == Json(String(b), number) { JsonReads(String(a), String(b), "", "", number); }
  }

  lemma FoldNamed(name: string, text: string, locals: Locals, number: real -> string)
    ensures Fold(Fresh(number), NamedEvents(name, text, locals)) == OneRead(name, String("p"), text == "p", number)
  {
    hide Fold, Json, Step;
    var outer, inner := Read(name, String("p"), true), Read(name, String(text), false);
    var r := OneRead(name, String("p"), true, number);
    assert NamedEvents(name, text, locals) == [outer] + CallEvents([], "p", None, [inner], locals);
    FoldFirst(Fresh(number), outer, CallEvents([], "p", None, [inner], locals));
    ReadOnce(outer, number);
    FoldCall(r, "p", None, [inner], locals);
    NothingGiven();
    assert r.(bound := {}) == r;
    FoldRead(r, inner);
    ReadAgain(name, String("p"), String(text), false, number);
    StringsTold("p", text, number);
    KeepNothing(OneRead(name, String("p"), text == "p", number), locals.Keys);
  }

  // ------------------------------------------------------------- shadows within a fragment

  /** `p`, given `name` as a local: an empty partial, the local, and a partial that writes
      the view value of that name. */
  function ShadowPartials(name: string): map<string, Node> {
    map["p" := Lines([Partial("e"), TextOf(name), Partial("v")]), "e" := Lines([]), "v" := Lines([TextOf(name)])]
  }

  function ShadowCall(name: string): Expression.Node { RenderCall(Expression.LiteralString("p"), Some(Binding(name,
                      String("item")))) }

  function ShadowText(text: string): string { "\n" + ("item\n" + ((text + "\n" + "\n") + "")) }

  /** The same when no local is in scope but the ones the fragment binds for itself: the
      empty partial makes the recording forget that it did. So a local and a view value of
      one name cannot be told apart by the cache, wherever the local comes from. */
  lemma ShadowWithinFragment(name: string, first: string, second: string)
    requires first != "item"
    ensures var root := Layout(ShadowCall(name));
            var p, q := Job(root, PlainPage(One(name, first), ShadowPartials(name)), map[]),
                        Job(root, PlainPage(One(name, second), ShadowPartials(name)), map[]);
            && Uncached(q, MAX_PARTIALS) == Success(ShadowText(second) + "\n")
            && RenderJobs([p, q], Some(EMPTY))[1].result == Success(ShadowText(first) + "\n")
  {
    hide RenderFragmentBody, RenderCachedFragment, RenderChildren, RenderOutput, HoleText, Fold, ReplayOf, Names, ShadowText;
    var body := ShadowCall(name);
    var p, q := Job(Layout(body), PlainPage(One(name, first), ShadowPartials(name)), map[]),
                Job(Layout(body), PlainPage(One(name, second), ShadowPartials(name)), map[]);
    ShadowRenders(name, first, Some(EMPTY));
    ShadowRenders(name, second, None);
    FoldShadow(name, first, p.page.view.jsonNumber);
    FoldShadow(name, second, p.page.view.jsonNumber);
    var events, other := ShadowEvents(name, first), ShadowEvents(name, second);
    var cache := CacheOf(body, events, ShadowText(first), p.page.view.jsonNumber);
    ShadowRenders(name, second, Some(cache));
    FoundAfresh(body, q.page, q.locals, MAX_PARTIALS, ShadowText(first), events, ShadowText(second), other);
    StalePages(body, p, q, ShadowText(first), ShadowText(second), events, other);
  }

  function ShadowEvents(name: string, text: string): seq<Event> {
    CallEvents([], "p", Some(Binding(name, String("item"))), ShadowInner(name, text), map[])
  }

  function ShadowInner(name: string, text: string): seq<Event> {
    var given := LocalsOf(Some(Binding(name, String("item"))));
    CallEvents([], "e", None, [], given)
      + ([Read(name, String("item"), true)] + (CallEvents([], "v", None, [Read(name, String(text), false)], given) + []))
  }

  lemma ShadowRenders(name: string, text: string, store: Store)
    ensures RenderFragmentBody(ShadowCall(name), PlainPage(One(name, text), ShadowPartials(name)), map[], MAX_PARTIALS, store)
         == Rendered(Success(ShadowText(text)), ShadowEvents(name, text), store)
  {
    hide RenderFragmentBody, RenderChildren, RenderOutput, HoleText;
    var page := PlainPage(One(name, text), ShadowPartials(name));
    var given := LocalsOf(Some(Binding(name, String("item"))));
    var lines, room := [Partial("e"), TextOf(name), Partial("v")], MAX_PARTIALS - 1;
    var read := Read(name, String(text), false);
    assert LocalsOf(None) == map[];
    LinesEnd([], page, map[], room - 1, store);
    PartialRenders("e", None, page, given, room, store, Wrote("", store));
    TextOfLocal(name, "item", page.view, given);
    TextLine(name, page, given, room, store, "item", [Read(name, String("item"), true)]);
    TextOfValue(name, text, page.view, map[]);
    TextLine(name, page, map[], room - 1, store, text, [read]);
    OneLine(TextOf(name), page, map[], room - 1, store, Rendered(Success(text + "\n"), [read], store));
    PartialRenders("v", None, page, given, room, store, Rendered(Success(text + "\n"), [read], store));
    LineStep(lines, 0, page, given, room, store, RenderOutput(Partial("e"), false, page, given, room, store));
    LineStep(lines, 1, page, given, room, store, RenderOutput(TextOf(name), false, page, given, room, store));
    LineStep(lines, 2, page, given, room, store, RenderOutput(Partial("v"), false, page, given, room, store));
    LinesEnd(lines, page, given, room, store);
    assert "" + "\n" == "\n" && "item" + "\n" == "item\n";
    assert RenderChildren(Lines(lines), 0, page, given, room, store)
        == Rendered(Success(ShadowText(text)), ShadowInner(name, text), store);
    PartialRenders("p", Some(Binding(name, String("item"))), page, map[], MAX_PARTIALS, store,
                   Rendered(Success(ShadowText(text)), ShadowInner(name, text), store));
  }

  lemma FoldShadow(name: string, text: string, number: real -> string)
    ensures Fold(Fresh(number), ShadowEvents(name, text)) == OneRead(name, String("item"), text == "item", number)
  {
    hide Fold, Step, Json;
    var binding := Some(Binding(name, String("item")));
    var given, begun := LocalsOf(binding), Fresh(number);
    var local, read := Read(name, String("item"), true), Read(name, String(text), false);
    var last := CallEvents([], "v", None, [read], given);
    NothingGiven();
    FoldCall(begun, "p", binding, ShadowInner(name, text), map[]);
    var r := begun.(bound := given.Keys);
    // The empty partial drops what was bound.
    ForgetBound(r, "e", given);
    assert r.(bound := {}) == begun;
    FoldConcat(r, CallEvents([], "e", None, [], given), [local] + (last + []));
    assert last + [] == last;
    FoldFirst(begun, local, last);
    ReadOnce(local, number);
    var seen, again := OneRead(name, String("item"), true, number), OneRead(name, String("item"), text == "item", number);
    FoldCall(seen, "v", None, [read], given);
    assert seen.(bound := {}) == seen;
    FoldRead(seen, read);
    ReadAgain(name, String("item"), String(text), false, number);
    StringsTold("item", text, number);
    KeepNothing(again, given.Keys);
    KeepNothing(again, {});
    var none: Locals := map[];
    assert none.Keys == {};
  }
}

/** Templates of a line or two and what they render to, with the cache and without. */
module SmallPages {
  import opened Strings
  import opened Values
  import opened JsonText
  import opened ViewContexts
  import opened Evaluation
  import opened Template
  import opened Render
  import opened Pages
  import Expression

  // ------------------------------------------------------------- small templates

  function FragmentCall(body: Expression.Node): Expression.Node {
    Expression.Call(Expression.Name("cache-fragment"), [Expression.LiteralString("a"), Expression.Block(body, 3)], 4)
  }

  /** A local given to a partial: a string or a number. */
  datatype Binding = Binding(name: string, value: Value)

  const TOKEN := "1.0"

  function WrittenAs(value: Value): Expression.Node {
    match value
    case String(text) => Expression.LiteralString(text)
    case Integer(i) => Expression.LiteralInteger(i)
    case _ => Expression.LiteralNumber(TOKEN)
  }

  predicate Written(binding: Option<Binding>, view: View) {
    binding.Some? ==>
      match binding.value.value
      case String(_) => true
      case Integer(_) => true
      case Number(r) => view.toNumber(TOKEN) == r
      case _ => false
  }

  function LocalsOf(given: Option<Binding>): Locals {
    if given.None? then map[] else map[given.value.name := given.value.value]
  }

  function LocalsArgument(given: Binding): Expression.Node {
    Expression.NamedArgument(
      "locals", Expression.MapOf([Expression.NamedArgument(given.name, WrittenAs(given.value), 2)], 3), 4)
  }

  /** `render(:partial(name))`, with `:locals({...})` when something is given. */
  function RenderCall(name: Expression.Node, given: Option<Binding>): Expression.Node {
    Expression.Call(
      Expression.Name("render"),
      [Expression.NamedArgument("partial", name, 2)] + if given.None? then [] else [LocalsArgument(given.value)], 5)
  }

  function Partial(name: string): Expression.Node { RenderCall(Expression.LiteralString(name), None) }

  /** `name ~ ""`: the text of a name, whatever the name is. */
  function TextOf(name: string): Expression.Node {
    Expression.Binary(Expression.Concatenate, Expression.Name(name), Expression.LiteralString(""), 2)
  }

  function Writes(value: Expression.Node): Node { Node(Output(value, false), [], 1) }

  function Lines(values: seq<Expression.Node>): Node {
    Node(Root, seq(|values|, i requires 0 <= i < |values| => Writes(values[i])), 1)
  }

  function Layout(body: Expression.Node): Node { Lines([FragmentCall(body)]) }

  /** Conversions that no template here asks for. */
  function NoNumber(text: string): real { 0.0 }

  function NoText(number: real): string { "" }

  function PlainView(values: map<string, Value>): View { View(values, map[], NoNumber, NoText, NoText) }

  function PlainPage(values: map<string, Value>, partials: map<string, Node>, wrapped: string := ""): Page {
    Page(PlainView(values), Options(Some(partials), wrapped))
  }

  function One(name: string, text: string): map<string, Value> { map[name := String(text)] }

  // ------------------------------------------------------------- what they render to

  lemma TextOfName(name: string, text: string, events: seq<Event>, view: View, locals: Locals)
    requires Evaluate(Expression.Name(name), view, locals) == Evaluated(Success(String(text)), events)
    ensures HoleText(TextOf(name), false, view, locals) == Evaluated(Success(text), events)
  {
    var l, r := Expression.Name(name), Expression.LiteralString("");
    assert Evaluate(r, view, locals) == Done(String(""));
    assert text + "" == text && events + [] == events;
    assert Operation(Expression.Concatenate, String(text), String(""), view) == Success(String(text));
    assert Evaluate(TextOf(name), view, locals) == Evaluated(Success(String(text)), events);
  }

  lemma TextOfLocal(name: string, text: string, view: View, locals: Locals)
    requires name in locals && locals[name] == String(text)
    ensures HoleText(TextOf(name), false, view, locals) == Evaluated(Success(text), [Read(name, String(text), true)])
  {
    TextOfName(name, text, [Read(name, String(text), true)], view, locals);
  }

  lemma TextOfValue(name: string, text: string, view: View, locals: Locals)
    requires name !in locals && name in view.values && view.values[name] == String(text)
    ensures HoleText(TextOf(name), false, view, locals) == Evaluated(Success(text), [Read(name, String(text), false)])
  {
    TextOfName(name, text, [Read(name, String(text), false)], view, locals);
  }

  lemma TextOfFunction(name: string, text: string, view: View, locals: Locals)
    requires name !in locals && name !in view.values && name in view.functions && view.functions[name]([]) == String(text)
    ensures HoleText(TextOf(name), false, view, locals) == Evaluated(Success(text), [])
  {
    TextOfName(name, text, [], view, locals);
  }

  /** A line that is a name's text. */
  lemma TextLine(name: string, page: Page, locals: Locals, room: nat, store: Store, text: string, events: seq<Event>)
    requires HoleText(TextOf(name), false, page.view, locals) == Evaluated(Success(text), events)
    ensures RenderOutput(TextOf(name), false, page, locals, room, store) == Rendered(Success(text + "\n"), events, store)
    ensures RenderFragmentBody(TextOf(name), page, locals, room, store) == Rendered(Success(text), events, store)
  {
    hide HoleText;
    assert "" + text + "\n" == text + "\n";
  }

  lemma LineStep(values: seq<Expression.Node>, i: nat, page: Page, locals: Locals, room: nat, store: Store, r: Rendered<string>)
    requires i < |values| && RenderOutput(values[i], false, page, locals, room, store) == r
    ensures RenderChildren(Lines(values), i, page, locals, room, store) ==
              if r.result.Failure? then r
              else Follow(r.result.value, r.events, RenderChildren(Lines(values), i + 1, page, locals, room, r.store))
  {
    hide RenderOutput;
    var root := Lines(values);
    assert root.children[i] == Writes(values[i]) && !Writes(values[i]).IsHead();
    assert RenderNode(Writes(values[i]), page, locals, room, store) == r;
  }

  lemma LinesEnd(values: seq<Expression.Node>, page: Page, locals: Locals, room: nat, store: Store)
    ensures RenderChildren(Lines(values), |values|, page, locals, room, store) == Wrote("", store)
  {
  }

  /** A template of one line writes what the line writes. */
  lemma OneLine(line: Expression.Node, page: Page, locals: Locals, room: nat, store: Store, r: Rendered<string>)
    requires RenderOutput(line, false, page, locals, room, store) == r
    ensures RenderChildren(Lines([line]), 0, page, locals, room, store) == r
  {
    hide RenderOutput, RenderChildren;
    LineStep([line], 0, page, locals, room, store, r);
    LinesEnd([line], page, locals, room, r.store);
    if r.result.Success? {
      assert r.result.value + "" == r.result.value && r.events + [] == r.events;
    }
  }

  lemma CallAsks(name: Expression.Node, given: Option<Binding>, target: string, reads_: seq<Event>, page: Page,
                 locals: Locals, room: nat)
    requires page.options.partials.Some? && target in page.options.partials.value && room > 0
    requires Evaluate(name, page.view, locals) == Evaluated(Success(String(target)), reads_) && Written(given, page.view)
    ensures ReadRequest(RenderCall(name, given).arguments, page, locals, room)
         == Evaluated(Success(Request(target, page.options.partials.value[target], LocalsOf(given), None, "item")), reads_)
  {
    var arguments := RenderCall(name, given).arguments;
    var rest := if given.None? then [] else [LocalsArgument(given.value)];
    assert arguments[0] == Expression.NamedArgument("partial", name, 2) && arguments[1..] == rest;
    assert Named(arguments, "partial") == Some(name);
    assert Named([], "locals") == None && Named([], "collection") == None && Named([], "as") == None;
    assert rest != [] ==> rest[1..] == [];
    assert Named(arguments, "collection") == Named(rest, "collection") == None;
    assert Named(arguments, "as") == Named(rest, "as") == None;
    assert Named(arguments, "locals") == Named(rest, "locals");
    GivenLocals(given, page.view, locals);
    var root := page.options.partials.value[target];
    hide Named, Evaluate;
    assert ReadScope(target, root, arguments, page.view, locals)
        == Evaluated(Success(Request(target, root, LocalsOf(given), None, "item")), []);
    assert reads_ + [] == reads_;
  }

  lemma GivenLocals(given: Option<Binding>, view: View, locals: Locals)
    requires Written(given, view)
    ensures given.Some? ==>
              Evaluate(LocalsArgument(given.value).target, view, locals) == Done(Object(LocalsOf(given)))
  {
    if given.Some? {
      var entry := Expression.NamedArgument(given.value.name, WrittenAs(given.value.value), 2);
      assert [entry][1..] == [];
      assert Evaluate(entry.target, view, locals) == Done(given.value.value);
      assert EvaluateEntries([], LocalsOf(given), view, locals) == Done(Object(LocalsOf(given)));
      assert map[][given.value.name := given.value.value] == LocalsOf(given);
      assert EvaluateEntries([entry], map[], view, locals) == Done(Object(LocalsOf(given)));
    }
  }

  /** A `render` call gives what its partial gives, with the locals put back after. */
  lemma CallRenders(name: Expression.Node, given: Option<Binding>, target: string, reads_: seq<Event>, page: Page, locals: Locals,
                    room: nat, store: Store, r: Rendered<string>)
    requires page.options.partials.Some? && target in page.options.partials.value && room > 0
    requires Evaluate(name, page.view, locals) == Evaluated(Success(String(target)), reads_) && Written(given, page.view)
    requires RenderChildren(page.options.partials.value[target], 0, page, LocalsOf(given), room - 1, store) == r
    ensures RenderFragmentBody(RenderCall(name, given), page, locals, room, store)
         == Rendered(r.result, CallEvents(reads_, target, given, r.events, locals), r.store)
    ensures RenderOutput(RenderCall(name, given), false, page, locals, room, store)
         == Rendered(if r.result.Failure? then r.result else Success(r.result.value + "\n"),
                     CallEvents(reads_, target, given, r.events, locals), r.store)
  {
    hide RenderChildren, ReadRequest, LocalsOf;
    var n := RenderCall(name, given);
    CallAsks(name, given, target, reads_, page, locals, room);
    assert RenderPartialCall(n, page, locals, room, store)
        == Rendered(r.result, CallEvents(reads_, target, given, r.events, locals), r.store);
    assert IsEngineCall(n) && n.target.name == "render";
    assert RenderEngineCall(n, page, locals, room, store) == RenderPartialCall(n, page, locals, room, store);
  }

  function CallEvents(reads_: seq<Event>, target: string, given: Option<Binding>, inner: seq<Event>, locals: Locals): seq<Event> {
    reads_ + ([Find(target), Keep({}), Bind(LocalsOf(given).Keys)] + (inner + [Keep(locals.Keys)]))
  }

  /** A call of a partial that is named outright. */
  lemma PartialRenders(name: string, given: Option<Binding>, page: Page, locals: Locals, room: nat, store: Store, r: Rendered<string>)
    requires page.options.partials.Some? && name in page.options.partials.value && room > 0 && Written(given, page.view)
    requires RenderChildren(page.options.partials.value[name], 0, page, LocalsOf(given), room - 1, store) == r
    ensures var n := RenderCall(Expression.LiteralString(name), given);
            && RenderFragmentBody(n, page, locals, room, store)
                 == Rendered(r.result, CallEvents([], name, given, r.events, locals), r.store)
            && RenderOutput(n, false, page, locals, room, store)
                 == Rendered(if r.result.Failure? then r.result else Success(r.result.value + "\n"),
                             CallEvents([], name, given, r.events, locals), r.store)
  {
    assert Evaluate(Expression.LiteralString(name), page.view, locals) == Done(String(name));
    CallRenders(Expression.LiteralString(name), given, name, [], page, locals, room, store, r);
  }

  /** What a layout of one fragment writes, from what the fragment call gives. */
  lemma LayoutRenders(body: Expression.Node, page: Page, locals: Locals, room: nat, store: Store, r: Rendered<string>)
    requires RenderCachedFragment(FragmentCall(body), page, locals, room, store) == r
    ensures RenderChildren(Layout(body), 0, page, locals, room, store)
         == if r.result.Failure? then r else Rendered(Success(r.result.value + "\n"), r.events, r.store)
  {
    hide RenderCachedFragment, RenderChildren;
    var call := FragmentCall(body);
    assert IsEngineCall(call) && call.target.name == "cache-fragment";
    assert RenderEngineCall(call, page, locals, room, store) == r;
    var line := if r.result.Failure? then r else Rendered(Success(r.result.value + "\n"), r.events, r.store);
    assert RenderOutput(call, false, page, locals, room, store) == line;
    OneLine(call, page, locals, room, store, line);
  }

  // ------------------------------------------------------------- the cache between two pages

  /** The cache after one fragment has been rendered into an empty one. */
  function CacheOf(body: Expression.Node, events: seq<Event>, html: string, number: real -> string): Cache {
    var recording := Fold(Fresh(number), events);
    var noted := EMPTY.NoteRender();
    var named := if recording.replayable then noted.Remember(body, Names(recording.seen)) else noted;
    named.Store(Key(body, recording.Key()), html)
  }

  lemma Filled(body: Expression.Node, page: Page, locals: Locals, room: nat, first: string, events: seq<Event>)
    requires RenderFragmentBody(body, page, locals, room, Some(EMPTY)) == Rendered(Success(first), events, Some(EMPTY))
    ensures RenderCachedFragment(FragmentCall(body), page, locals, room, Some(EMPTY))
         == Rendered(Success(first), [Open(locals.Keys, |events|)] + events, Some(CacheOf(body, events, first, page.view.jsonNumber)))
  {
    hide RenderFragmentBody, Fold, Names, KeyText;
    var number := page.view.jsonNumber;
    assert FragmentOf(FragmentCall(body)) == Some(body);
    assert Recorded(body, Rendered(Success(first), events, Some(EMPTY)), number)
        == Rendered(Success(first), events, Some(CacheOf(body, events, first, number)));
    assert [] + ([Open(locals.Keys, |events|)] + events) == [Open(locals.Keys, |events|)] + events;
  }

  /** The next page answers the reads of the first by their JSON, and is given its text. */
  lemma FoundByReplay(body: Expression.Node, page: Page, locals: Locals, room: nat, first: string, events: seq<Event>)
    requires var number := page.view.jsonNumber;
             var recording := Fold(Fresh(number), events);
             recording.replayable
             && KeyOf(ReplayOf(Names(recording.seen), page.view.values, locals), number) == Some(recording.Key())
    ensures RenderCachedFragment(FragmentCall(body), page, locals, room, Some(CacheOf(body, events, first, page.view.jsonNumber))).result
         == Success(first)
  {
    hide RenderFragmentBody, Fold, Names, ReplayOf, KeyText;
    assert FragmentOf(FragmentCall(body)) == Some(body);
  }

  /** The next page renders the fragment afresh, comes to the same key, and is given the
      first page's text instead of its own. */
  lemma FoundAfresh(body: Expression.Node, page: Page, locals: Locals, room: nat, first: string, events: seq<Event>,
                    second: string, other: seq<Event>)
    requires var begun := Fresh(page.view.jsonNumber);
             !Fold(begun, events).replayable && Fold(begun, other).Key() == Fold(begun, events).Key()
    requires var store := Some(CacheOf(body, events, first, page.view.jsonNumber));
             RenderFragmentBody(body, page, locals, room, store) == Rendered(Success(second), other, store)
    ensures RenderCachedFragment(FragmentCall(body), page, locals, room, Some(CacheOf(body, events, first, page.view.jsonNumber))).result
         == Success(first)
  {
    hide RenderFragmentBody, Fold, Names, ReplayOf, KeyText;
    var number := page.view.jsonNumber;
    assert FragmentOf(FragmentCall(body)) == Some(body);
    var cache := CacheOf(body, events, first, number);
    assert body !in cache.names;
    assert Recorded(body, Rendered(Success(second), other, Some(cache)), number).result == Success(first);
  }

  lemma Uncacheable(body: Expression.Node, page: Page, locals: Locals, room: nat, r: Rendered<string>)
    requires RenderFragmentBody(body, page, locals, room, None) == r
    ensures RenderCachedFragment(FragmentCall(body), page, locals, room, None) == r
  {
    hide RenderFragmentBody;
    assert FragmentOf(FragmentCall(body)) == Some(body);
  }

  lemma SecondPage(p: Job, q: Job)
    ensures var first := RenderPage(p.root, p.page, p.locals, Some(EMPTY));
            RenderJobs([p, q], Some(EMPTY)) == [first, RenderPage(q.root, q.page, q.locals, first.store)]
  {
    hide RenderPage;
    var first := RenderPage(p.root, p.page, p.locals, Some(EMPTY));
    assert [p, q][1..] == [q] && [q][1..] == [];
    assert RenderJobs([q], first.store) == [RenderPage(q.root, q.page, q.locals, first.store)] + [];
  }

  /** Two pages of one fragment, when the first fills the cache and the second finds it. */
  lemma StalePages(body: Expression.Node, p: Job, q: Job, first: string, second: string, events: seq<Event>, other: seq<Event>)
    requires p.root == Layout(body) && q.root == Layout(body)
    requires RenderFragmentBody(body, p.page, p.locals, MAX_PARTIALS, Some(EMPTY)) == Rendered(Success(first), events, Some(EMPTY))
    requires RenderFragmentBody(body, q.page, q.locals, MAX_PARTIALS, None) == Rendered(Success(second), other, None)
    requires var cache := CacheOf(body, events, first, p.page.view.jsonNumber);
             RenderCachedFragment(FragmentCall(body), q.page, q.locals, MAX_PARTIALS, Some(cache)).result == Success(first)
    ensures Uncached(q, MAX_PARTIALS) == Success(second + "\n")
    ensures RenderJobs([p, q], Some(EMPTY))[1].result == Success(first + "\n")
    ensures RenderJobs([p, q], Some(EMPTY))[0].store == Some(CacheOf(body, events, first, p.page.view.jsonNumber))
  {
    hide RenderFragmentBody, RenderCachedFragment, CacheOf;
    Filled(body, p.page, p.locals, MAX_PARTIALS, first, events);
    Uncacheable(body, q.page, q.locals, MAX_PARTIALS, Rendered(Success(second), other, None));
    var cache := CacheOf(body, events, first, p.page.view.jsonNumber);
    LayoutRenders(body, p.page, p.locals, MAX_PARTIALS, Some(EMPTY),
                  RenderCachedFragment(FragmentCall(body), p.page, p.locals, MAX_PARTIALS, Some(EMPTY)));
    LayoutRenders(body, q.page, q.locals, MAX_PARTIALS, Some(cache),
                  RenderCachedFragment(FragmentCall(body), q.page, q.locals, MAX_PARTIALS, Some(cache)));
    LayoutRenders(body, q.page, q.locals, MAX_PARTIALS, None, Rendered(Success(second), other, None));
    SecondPage(p, q);
  }

  // ------------------------------------------------------------- folding short runs

  lemma FoldFirst(r: Recording, e: Event, rest: seq<Event>)
    ensures Fold(r, [e] + rest) == Fold(Step(r, e), rest)
  {
    assert ([e] + rest)[1..] == rest;
  }

  lemma FoldNothing(r: Recording)
    ensures Fold(r, []) == r
  {
  }

  /** What a call does first changes nothing where nothing is bound, but binds what it gives. */
  lemma FoldEntering(r: Recording, target: string, names: set<string>, rest: seq<Event>)
    requires r.bound == {}
    ensures Fold(r, [Find(target), Keep({}), Bind(names)] + rest) == Fold(r.(bound := names), rest)
  {
    hide Fold;
    assert [Find(target), Keep({}), Bind(names)] + rest == [Find(target)] + ([Keep({})] + ([Bind(names)] + rest));
    FoldFirst(r, Find(target), [Keep({})] + ([Bind(names)] + rest));
    FoldFirst(r, Keep({}), [Bind(names)] + rest);
    FoldFirst(r, Bind(names), rest);
    assert {} + names == names && r.bound * {} == r.bound && r.(bound := r.bound) == r;
    assert Step(r, Find(target)) == r && Step(r, Keep({})) == r && Step(r, Bind(names)) == r.(bound := names);
  }

  /** A partial's events, where nothing stays bound. */
  lemma FoldCall(r: Recording, target: string, given: Option<Binding>, inner: seq<Event>, locals: Locals)
    requires r.bound == {}
    ensures Fold(r, CallEvents([], target, given, inner, locals))
         == Step(Fold(r.(bound := LocalsOf(given).Keys), inner), Keep(locals.Keys))
  {
    hide Fold, Step, LocalsOf;
    var closing, names := [Keep(locals.Keys)], LocalsOf(given).Keys;
    FoldEntering(r, target, names, inner + closing);
    assert CallEvents([], target, given, inner, locals) == [Find(target), Keep({}), Bind(names)] + (inner + closing);
    FoldConcat(r.(bound := names), inner, closing);
    FoldRead(Fold(r.(bound := names), inner), Keep(locals.Keys));
  }

  lemma FoldRead(r: Recording, e: Event)
    ensures Fold(r, [e]) == Step(r, e)
  {
    assert [e] == [e] + [];
    FoldFirst(r, e, []);
  }

  /** What a recording is after one name was read, for the first time and again. */
  function OneRead(name: string, value: Value, replayable: bool, number: real -> string): Recording {
    Recording([Seen(name, value)], {}, replayable, number)
  }

  lemma ReadOnce(e: Event, number: real -> string)
    requires e.Read?
    ensures Step(Fresh(number), e) == OneRead(e.name, e.value, true, number)
  {
    assert [] + [Seen(e.name, e.value)] == [Seen(e.name, e.value)];
  }

  lemma ReadAgain(name: string, value: Value, other: Value, local: bool, number: real -> string)
    ensures Step(OneRead(name, value, true, number), Read(name, other, local))
         == OneRead(name, value, Json(value, number) == Json(other, number), number)
  {
    hide Json;
  }

  /** `name` as a page with a value of the same JSON under it gives it to a replay. */
  lemma ReplayOne(name: string, value: Value, values: map<string, Value>, locals: Locals, number: real -> string)
    requires Resolves(name, values, locals) && Json(Resolve(name, values, locals), number) == Json(value, number)
    ensures Names(OneRead(name, value, true, number).seen) == [name]
    ensures KeyOf(ReplayOf([name], values, locals), number) == Some(OneRead(name, value, true, number).Key())
  {
    hide Json, Resolve, Resolves;
    var found := Resolve(name, values, locals);
    assert [name][1..] == [] && [Seen(name, value)][1..] == [] && [Seen(name, found)][1..] == [];
    assert ReplayOf([], values, locals).key == Some([]);
    assert [Seen(name, found)] + [] == [Seen(name, found)];
    assert ReplayOf([name], values, locals).key == Some([Seen(name, found)]);
    assert KeyText([], number) == "";
  }

  lemma ReplayNothing(values: map<string, Value>, locals: Locals, number: real -> string)
    ensures Fold(Fresh(number), []) == Fresh(number) && Names(Fresh(number).seen) == [] && Fresh(number).Key() == ""
    ensures KeyOf(ReplayOf([], values, locals), number) == Some("")
  {
  }

  lemma KeepNothing(r: Recording, names: set<string>)
    requires r.bound == {}
    ensures Step(r, Keep(names)) == r
  {
  }

  lemma NothingGiven()
    ensures LocalsOf(None) == map[] && LocalsOf(None).Keys == {}
  {
  }

  // ------------------------------------------------------------- pages that call one partial

  /** A page that calls the partial `outer`, whose one line is a fragment. */
  function Caller(outer: string, given: Option<Binding>, page: Page): Job {
    Job(Lines([RenderCall(Expression.LiteralString(outer), given)]), page, map[])
  }

  /** A result, with the ends of the two lines it is written in. */
  function Ended(result: Result<string>): Result<string> {
    if result.Failure? then result else Success(result.value + "\n" + "\n")
  }

  lemma CallerRenders(outer: string, given: Option<Binding>, body: Expression.Node, page: Page, store: Store, r: Rendered<string>)
    requires page.options.Found(outer) == Some(Layout(body)) && Written(given, page.view)
    requires RenderCachedFragment(FragmentCall(body), page, LocalsOf(given), MAX_PARTIALS - 1, store) == r
    ensures var job := Caller(outer, given, page);
            var done := RenderPage(job.root, page, map[], store);
            done.result == Ended(r.result) && done.store == r.store
  {
    hide RenderFragmentBody, RenderCachedFragment, RenderChildren, RenderOutput;
    var call := RenderCall(Expression.LiteralString(outer), given);
    LayoutRenders(body, page, LocalsOf(given), MAX_PARTIALS - 1, store, r);
    PartialRenders(outer, given, page, map[], MAX_PARTIALS, store,
                   RenderChildren(Layout(body), 0, page, LocalsOf(given), MAX_PARTIALS - 1, store));
    OneLine(call, page, map[], MAX_PARTIALS, store, RenderOutput(call, false, page, map[], MAX_PARTIALS, store));
  }

  /** Two pages that call it, when the first fills the cache and the second finds it. */
  lemma StaleCallers(body: Expression.Node, outer: string, p: Page, given: Option<Binding>, q: Page, other: Option<Binding>,
                     first: string, second: Result<string>, events: seq<Event>, others: seq<Event>)
    requires p.options.Found(outer) == Some(Layout(body)) && q.options.Found(outer) == Some(Layout(body))
    requires Written(given, p.view) && Written(other, q.view)
    requires RenderFragmentBody(body, p, LocalsOf(given), MAX_PARTIALS - 1, Some(EMPTY))
          == Rendered(Success(first), events, Some(EMPTY))
    requires RenderFragmentBody(body, q, LocalsOf(other), MAX_PARTIALS - 1, None) == Rendered(second, others, None)
    requires var cache := CacheOf(body, events, first, p.view.jsonNumber);
             RenderCachedFragment(FragmentCall(body), q, LocalsOf(other), MAX_PARTIALS - 1, Some(cache)).result == Success(first)
    ensures var left, right := Caller(outer, given, p), Caller(outer, other, q);
            && Uncached(right, MAX_PARTIALS) == Ended(second)
            && RenderJobs([left, right], Some(EMPTY))[1].result == Success(first + "\n" + "\n")
  {
    hide RenderFragmentBody, RenderCachedFragment, RenderChildren, CacheOf;
    var room, cache := MAX_PARTIALS - 1, CacheOf(body, events, first, p.view.jsonNumber);
    Filled(body, p, LocalsOf(given), room, first, events);
    Uncacheable(body, q, LocalsOf(other), room, Rendered(second, others, None));
    CallerRenders(outer, given, body, p, Some(EMPTY), RenderCachedFragment(FragmentCall(body), p, LocalsOf(given), room, Some(EMPTY)));
    CallerRenders(outer, other, body, q, Some(cache), RenderCachedFragment(FragmentCall(body), q, LocalsOf(other), room, Some(cache)));
    CallerRenders(outer, other, body, q, None, RenderCachedFragment(FragmentCall(body), q, LocalsOf(other), room, None));
    SecondPage(Caller(outer, given, p), Caller(outer, other, q));
  }

  lemma YieldLine(page: Page, store: Store)
    ensures RenderChildren(Lines([Expression.Name("yield")]), 0, page, map[], MAX_PARTIALS - 1, store)
         == Rendered(Success(page.options.body + "\n"), [WriteBody], store)
  {
    hide RenderChildren;
    var line := Expression.Name("yield");
    var r := Rendered(Success(page.options.body + "\n"), [WriteBody], store);
    assert RenderOutput(line, false, page, map[], MAX_PARTIALS - 1, store) == r;
    OneLine(line, page, map[], MAX_PARTIALS - 1, store, r);
  }

  lemma LiteralLine(page: Page, text: string, store: Store)
    ensures RenderChildren(Lines([Expression.LiteralString(text)]), 0, page, map[], MAX_PARTIALS - 1, store)
         == Wrote(text + "\n", store)
  {
    hide RenderChildren;
    var line := Expression.LiteralString(text);
    assert HoleText(line, false, page.view, map[]) == Done(text);
    assert "" + text + "\n" == text + "\n";
    assert RenderOutput(line, false, page, map[], MAX_PARTIALS - 1, store) == Wrote(text + "\n", store);
    OneLine(line, page, map[], MAX_PARTIALS - 1, store, Wrote(text + "\n", store));
  }

  /** After a partial, a recording knows of nothing it bound before. */
  lemma ForgetBound(r: Recording, target: string, locals: Locals)
    ensures Fold(r, CallEvents([], target, None, [], locals)) == r.(bound := {})
  {
    hide Fold;
    var events := CallEvents([], target, None, [], locals);
    var none := LocalsOf(None).Keys;
    assert none == {};
    assert events == [Find(target)] + ([Keep({})] + ([Bind(none)] + ([Keep(locals.Keys)] + [])));
    var s := r.(bound := {});
    FoldFirst(r, Find(target), [Keep({})] + ([Bind(none)] + ([Keep(locals.Keys)] + [])));
    FoldFirst(r, Keep({}), [Bind(none)] + ([Keep(locals.Keys)] + []));
    assert Step(r, Keep({})) == s && Step(s, Bind(none)) == s && Step(s, Keep(locals.Keys)) == s;
    FoldFirst(s, Bind(none), [Keep(locals.Keys)] + []);
    FoldFirst(s, Keep(locals.Keys), []);
    FoldNothing(s);
  }
}

/** Exactly what a site may do, if its fragments are to be cached: the cache makes no
    difference to any of its pages just when view values, functions and locals are named
    apart, fragments write the wrapped text only where all pages wrap the same, render only
    partials that are the same on all pages, and read no floating-point numbers. */
module NamesApart {
  import opened Strings
  import opened Values
  import opened JsonText
  import opened ViewContexts
  import opened Evaluation
  import opened Template
  import opened Render
  import opened RecordingLemmas
  import opened FragmentCache
  import opened Pages
  import opened TidyTemplates
  import opened TidyNames
  import opened SmallPages
  import opened CacheLimits
  import Expression

  /** What the pages and templates of a site may use: names for view values, functions and
      locals; the texts that layouts wrap, and whether a fragment may write them; the names
      that find the same template on every page, and those that a fragment may render; and
      whether any value may hold a floating-point number. */
  datatype Practice = Practice(
    views: set<string>,
    functions: set<string>,
    locals: set<string>,
    bodies: set<string>,
    writesBody: bool,
    fixed: set<string>,
    rendered: set<string>,
    numbers: bool)
  {
    function TemplateRules(): Rules { Rules(locals, rendered, writesBody, numbers) }

    /** The same rules, without what fragments could not do anyhow. */
    function RulesKept(): Rules { Rules(locals, rendered, BodyWithin(), numbers) }

    predicate NamedApart() { views !! functions && views !! locals && functions !! locals }

    predicate OneBody() { forall a, b | a in bodies && b in bodies :: a == b }

    /** What the theorem asks for. */
    predicate Sound() {
      && NamedApart() && (BodyWithin() ==> OneBody()) && rendered <= fixed
      && (numbers ==> views == {} && locals == {})
    }

    /** Whether what fragments write can hold the wrapped text: only their partials can. */
    predicate BodyWithin() { writesBody && rendered != {} }

    /** Layouts wrap something, if only the empty text, and the names are ones an expression
        can be written with. */
    predicate Ordinary() { bodies != {} && forall name | name in views + locals :: '=' !in name }
  }

  /** A page that begins with no locals and keeps to the practice. */
  ghost predicate OfSite(job: Job, site: Site, practice: Practice) {
    && job.page.view.functions == site.functions && job.page.view.jsonNumber == site.jsonNumber
    && job.page.view.toNumber == site.toNumber && job.page.view.numberText == site.numberText
    && job.page.view.values.Keys <= site.viewNames && (practice.numbers || WholeMap(job.page.view.values))
    && job.page.options.body in practice.bodies && SharedOptions(job.page.options, site) && job.locals == map[]
    && Tidy(job.root, practice.TemplateRules(), false, job.page.options.partials)
    && TidyPartials(job.page.options.partials, practice.TemplateRules())
  }

  /** Pages of one site that keep to the practice, whatever their templates and values. */
  ghost predicate PagesOver(jobs: seq<Job>, site: Site, practice: Practice) {
    && site.viewNames == practice.views && site.functions.Keys <= practice.functions
    && site.body == None && site.partials.Keys == practice.fixed && (practice.numbers || WholeFunctions(site.functions))
    && forall i | 0 <= i < |jobs| :: OfSite(jobs[i], site, practice)
  }

  ghost predicate CacheIsSafe(practice: Practice) {
    forall site: Site, jobs: seq<Job> | PagesOver(jobs, site, practice) :: AllTransparent(jobs)
  }

  // ------------------------------------------------------------- sound practice is safe

  /** The site, with the one text its pages wrap. */
  function Wrapping(site: Site, practice: Practice): Site
    requires practice.bodies != {} && practice.OneBody()
  {
    var body :| body in practice.bodies;
    site.(body := Some(body))
  }

  /** Fragments that render no partial write no wrapped text. */
  lemma {:induction false} QuietExpression(n: Expression.Node, rules: Rules, inside: bool, partials: Partials)
    requires rules.rendered == {} && TidyExpression(n, rules, inside, partials)
    ensures TidyExpression(n, rules.(writesBody := false), inside, partials)
    decreases n
  {
    hide CallsPlain, GivesKept, KeptEntries;
    if IsEngineCall(n) {
      if n.target.name != "render" {
        if FragmentOf(n).Some? { QuietExpression(FragmentOf(n).value, rules, true, partials); }
      } else {
        QuietCall(n, rules, inside, partials);
      }
    }
  }

  lemma QuietCall(n: Expression.Node, rules: Rules, inside: bool, partials: Partials)
    requires IsEngineCall(n) && rules.rendered == {} && CallsRendered(n.arguments, rules, inside)
    requires CallsPlain(n.arguments, partials, Silent(rules, inside)) || GivesKept(n.arguments, rules)
    ensures var quiet := rules.(writesBody := false);
            && CallsRendered(n.arguments, quiet, inside)
            && (CallsPlain(n.arguments, partials, Silent(quiet, inside)) || GivesKept(n.arguments, quiet))
  {
    hide Plain, KeptEntries, NumberFree, Named;
  }

  lemma {:induction false} QuietTidy(node: Node, rules: Rules, partials: Partials)
    requires rules.rendered == {} && Tidy(node, rules, false, partials)
    ensures Tidy(node, rules.(writesBody := false), false, partials)
    decreases node
  {
    hide TidyExpression, AllPlain, NumberFree;
    if node.content.Output? { QuietExpression(node.content.value, rules, false, partials); }
    forall i | 0 <= i < |node.children| ensures Tidy(node.children[i], rules.(writesBody := false), false, partials) {
      QuietTidy(node.children[i], rules, partials);
    }
  }

  /** The site, with the one text its pages wrap where fragments may write it. */
  function Told(site: Site, practice: Practice): Site
    requires practice.Sound() && practice.Ordinary()
  {
    if practice.BodyWithin() then Wrapping(site, practice) else site
  }

  lemma KeepsRules(job: Job, site: Site, practice: Practice)
    requires OfSite(job, site, practice)
    ensures Tidy(job.root, practice.RulesKept(), false, job.page.options.partials)
    ensures TidyPartials(job.page.options.partials, practice.RulesKept())
  {
    hide Tidy, WholeMap;
    var rules, partials := practice.TemplateRules(), job.page.options.partials;
    if practice.rendered == {} {
      if practice.writesBody { QuietTidy(job.root, rules, partials); }
      assert rules.(writesBody := false) == practice.RulesKept();
      if partials.Some? {
        forall name | name in partials.value ensures Tidy(partials.value[name], practice.RulesKept(), false, partials) {
          if practice.writesBody { QuietTidy(partials.value[name], rules, partials); }
        }
      }
    }
  }

  lemma SoundScope(job: Job, site: Site, practice: Practice)
    requires PagesOver([job], site, practice) && practice.Sound() && practice.Ordinary()
    ensures TidyScope(job.page, job.locals, Told(site, practice), practice.RulesKept())
  {
    assert OfSite([job][0], site, practice);
    KeepsRules(job, site, practice);
    hide Tidy, TidyPartials, WholeFunctions, Whole;
    if practice.numbers { assert WholeMap(job.page.view.values); }
  }

  lemma SoundIsSafe(practice: Practice)
    requires practice.Sound() && practice.Ordinary()
    ensures CacheIsSafe(practice)
  {
    hide Tidy, TidyScope, Transparent, OfSite;
    forall site: Site, jobs: seq<Job> | PagesOver(jobs, site, practice) ensures AllTransparent(jobs) {
      forall i | 0 <= i < |jobs|
        ensures Tidy(jobs[i].root, practice.RulesKept(), false, jobs[i].page.options.partials)
        ensures TidyScope(jobs[i].page, jobs[i].locals, Told(site, practice), practice.RulesKept())
      {
        assert OfSite(jobs[i], site, practice);
        KeepsRules(jobs[i], site, practice);
        SoundScope(jobs[i], site, practice);
      }
      CacheTransparentWhenTidy(jobs, Told(site, practice), practice.RulesKept());
    }
  }

  // ------------------------------------------------------------- two pages are enough

  /** Two pages, the second of which comes out as the first. */
  lemma Stale(p: Job, q: Job, first: string, second: Result<string>)
    requires Uncached(q, MAX_PARTIALS) == second && RenderJobs([p, q], Some(EMPTY))[1].result == Success(first)
    requires second != Success(first) && second != Failure(PartialsTooDeep)
    ensures !AllTransparent([p, q])
  {
    hide RenderJobs, Uncached;
    var jobs := [p, q];
    assert jobs[1] == q && !Transparent(RenderJobs(jobs, Some(EMPTY))[1].result, jobs[1]);
  }

  function SiteOf(page: Page, practice: Practice): Site {
    Site(page.view.functions, page.view.toNumber, page.view.numberText, page.view.jsonNumber, practice.views, None,
         map name | name in practice.fixed :: page.options.Found(name))
  }

  /** The pages of a pair differ in nothing but the values and the text they wrap. */
  ghost predicate Pair(p: Page, q: Page, practice: Practice) {
    && p.view.(values := q.view.values) == q.view
    && p.view.values.Keys <= practice.views && q.view.values.Keys <= practice.views
    && (practice.numbers || (WholeMap(p.view.values) && WholeMap(q.view.values) && WholeFunctions(p.view.functions)))
    && p.view.functions.Keys <= practice.functions && p.options.body in practice.bodies && q.options.body in practice.bodies
    && forall name | name in practice.fixed :: p.options.Found(name) == q.options.Found(name)
  }

  lemma Unsafe(p: Job, q: Job, practice: Practice)
    requires Pair(p.page, q.page, practice) && p.locals == map[] && q.locals == map[]
    requires Tidy(p.root, practice.TemplateRules(), false, p.page.options.partials)
    requires Tidy(q.root, practice.TemplateRules(), false, q.page.options.partials)
    requires TidyPartials(p.page.options.partials, practice.TemplateRules())
    requires TidyPartials(q.page.options.partials, practice.TemplateRules())
    requires !AllTransparent([p, q])
    ensures !CacheIsSafe(practice)
  {
    hide Tidy, TidyPartials, AllTransparent, WholeFunctions;
    var site, jobs := SiteOf(p.page, practice), [p, q];
    assert OfSite(p, site, practice) && OfSite(q, site, practice);
    hide OfSite;
    assert forall i | 0 <= i < |jobs| :: jobs[i] == p || jobs[i] == q;
    assert PagesOver(jobs, site, practice);
  }

  // ------------------------------------------------------------- small templates are tidy

  lemma LinesTidy(values: seq<Expression.Node>, rules: Rules, inside: bool, partials: Partials)
    requires forall v | v in values :: TidyExpression(v, rules, inside, partials) && (Silent(rules, inside) ==> v != YIELD)
    ensures Tidy(Lines(values), rules, inside, partials)
  {
    hide TidyExpression;
    var root := Lines(values);
    forall i | 0 <= i < |root.children| ensures Tidy(root.children[i], rules, inside, partials) {
      assert root.children[i] == Writes(values[i]) && values[i] in values;
    }
  }

  /** What is no call of the engine's is tidy. */
  lemma PlainTidy(n: Expression.Node, rules: Rules, inside: bool, partials: Partials)
    requires !IsEngineCall(n)
    ensures TidyExpression(n, rules, inside, partials)
    ensures (Silent(rules, inside) ==> n != YIELD) ==> Tidy(Lines([n]), rules, inside, partials)
  {
    if Silent(rules, inside) ==> n != YIELD { LinesTidy([n], rules, inside, partials); }
  }

  lemma FragmentCallTidy(body: Expression.Node, rules: Rules, inside: bool, partials: Partials)
    requires TidyExpression(body, rules, true, partials)
    ensures TidyExpression(FragmentCall(body), rules, inside, partials)
  {
    var call := FragmentCall(body);
    assert IsEngineCall(call) && call.target.name != "render" && FragmentOf(call) == Some(body);
  }

  lemma FragmentTidy(body: Expression.Node, rules: Rules, inside: bool, partials: Partials)
    requires TidyExpression(body, rules, true, partials)
    ensures Tidy(Layout(body), rules, inside, partials)
  {
    hide TidyExpression;
    FragmentCallTidy(body, rules, inside, partials);
    LinesTidy([FragmentCall(body)], rules, inside, partials);
  }

  lemma CallArguments(name: string, given: Option<Binding>)
    ensures var arguments := RenderCall(Expression.LiteralString(name), given).arguments;
            && Named(arguments, "partial") == Some(Expression.LiteralString(name))
            && Named(arguments, "collection") == None
            && Named(arguments, "locals") == if given.None? then None else Some(LocalsArgument(given.value).target)
  {
    var call := RenderCall(Expression.LiteralString(name), given);
    var rest := if given.None? then [] else [LocalsArgument(given.value)];
    assert call.arguments == [Expression.NamedArgument("partial", Expression.LiteralString(name), 2)] + rest;
    assert call.arguments[1..] == rest && (rest != [] ==> rest[1..] == []);
    assert Named([], "locals") == None && Named([], "collection") == None;
    assert Named(call.arguments, "collection") == Named(rest, "collection") == None;
    assert Named(call.arguments, "locals") == Named(rest, "locals");
  }

  /** A call that gives nothing, or a kept name. */
  lemma CallTidy(name: string, given: Option<Binding>, rules: Rules, inside: bool, partials: Partials)
    requires given.Some? ==> given.value.name in rules.kept && (rules.numbers || !WrittenAs(given.value.value).LiteralNumber?)
    requires inside ==> name in rules.rendered
    ensures TidyExpression(RenderCall(Expression.LiteralString(name), given), rules, inside, partials)
    ensures Tidy(Lines([RenderCall(Expression.LiteralString(name), given)]), rules, inside, partials)
  {
    var call := RenderCall(Expression.LiteralString(name), given);
    CallArguments(name, given);
    if given.Some? && !rules.numbers {
      assert NumberFree(Expression.NamedArgument(given.value.name, WrittenAs(given.value.value), 2));
      assert NumberFree(LocalsArgument(given.value).target);
    }
    assert GivesKept(call.arguments, rules);
    assert TidyExpression(call, rules, inside, partials);
    LinesTidy([call], rules, inside, partials);
  }

  // ------------------------------------------------------------- each overlap is unsafe

  lemma ViewsAndFunctions(name: string, practice: Practice)
    requires practice.Ordinary() && name in practice.views && name in practice.functions
    ensures !CacheIsSafe(practice)
  {
    hide RenderJobs, Uncached, Transparent, AllTransparent, TidyExpression;
    var f: seq<Given> -> Value := given => String("a");
    var wrapped :| wrapped in practice.bodies;
    var root, rules := Layout(TextOf(name)), practice.TemplateRules();
    var left, right := FunctionPage(name, f, map[], map[], wrapped), FunctionPage(name, f, One(name, "b"), map[], wrapped);
    var p, q := Job(root, left, map[]), Job(root, right, map[]);
    ValueHidesFunction(name, f, "a", "b", wrapped);
    assert "a" + "\n" == "a\n" && "b" + "\n" == "b\n";
    Stale(p, q, "a\n", Success("b\n"));
    PlainTidy(TextOf(name), rules, true, left.options.partials);
    FragmentTidy(TextOf(name), rules, false, left.options.partials);
    hide Tidy;
    Unsafe(p, q, practice);
  }

  lemma FunctionsAndLocals(name: string, practice: Practice)
    requires practice.Ordinary() && name in practice.functions && name in practice.locals
    ensures !CacheIsSafe(practice)
  {
    hide RenderJobs, Uncached, Transparent, AllTransparent, TidyExpression;
    var f: seq<Given> -> Value := given => String("a");
    var wrapped :| wrapped in practice.bodies;
    var body, rules, given := TextOf(name), practice.TemplateRules(), Some(Binding(name, String("b")));
    var page := FunctionPage(name, f, map[], map["w" := Layout(body)], wrapped);
    var p, q, partials := Caller("w", None, page), Caller("w", given, page), page.options.partials;
    LocalHidesFunction(name, f, "a", "b", wrapped);
    assert "a" + "\n" + "\n" == "a\n\n" && "b" + "\n" + "\n" == "b\n\n";
    Stale(p, q, "a\n\n", Success("b\n\n"));
    PlainTidy(body, rules, true, partials);
    FragmentTidy(body, rules, "w" in rules.rendered, partials);
    CallTidy("w", None, rules, false, partials);
    CallTidy("w", given, rules, false, partials);
    hide Tidy;
    Unsafe(p, q, practice);
  }

  lemma ViewsAndLocals(name: string, practice: Practice)
    requires practice.Ordinary() && name in practice.views && name in practice.locals
    ensures !CacheIsSafe(practice)
  {
    hide RenderJobs, Uncached, Transparent, AllTransparent, TidyExpression;
    var wrapped :| wrapped in practice.bodies;
    var body, given, rules := Expression.Variable(name), Some(Binding(name, String("a"))), practice.TemplateRules();
    var maps := map["w" := Layout(body)];
    var left, right := PlainPage(map[], maps, wrapped), PlainPage(One(name, "a"), maps, wrapped);
    var p, q := Caller("w", given, left), Caller("w", None, right);
    ValueAnswersForLocal(name, "a", wrapped);
    Stale(p, q, "a" + "\n" + "\n", Failure(NoSuchLocal));
    PlainTidy(body, rules, true, Some(maps));
    FragmentTidy(body, rules, "w" in rules.rendered, Some(maps));
    CallTidy("w", given, rules, false, Some(maps));
    CallTidy("w", None, rules, false, Some(maps));
    hide Tidy;
    Unsafe(p, q, practice);
  }

  lemma DifferentBodies(first: string, second: string, practice: Practice)
    requires practice.Ordinary() && practice.BodyWithin()
    requires first in practice.bodies && second in practice.bodies && first != second
    ensures !CacheIsSafe(practice)
  {
    hide RenderJobs, Uncached, Transparent, AllTransparent, TidyExpression;
    var partial :| partial in practice.rendered;
    var root, left, right := Layout(Partial(partial)), YieldPage(partial, first), YieldPage(partial, second);
    var p, q, partials := Job(root, left, map[]), Job(root, right, map[]), left.options.partials;
    YieldIsNotInTheKey(partial, first, second);
    SameEnd(first, second, "\n");
    SameEnd(first + "\n", second + "\n", "\n");
    Stale(p, q, first + "\n" + "\n", Success(second + "\n" + "\n"));
    PlainTidy(YIELD, practice.TemplateRules(), true, partials);
    CallTidy(partial, None, practice.TemplateRules(), true, partials);
    FragmentTidy(Partial(partial), practice.TemplateRules(), false, partials);
    hide Tidy;
    Unsafe(p, q, practice);
  }

  lemma SameEnd(a: string, b: string, end: string)
    requires a != b
    ensures a + end != b + end
  {
    assert (a + end)[..|a|] == a && (b + end)[..|b|] == b;
  }

  lemma DifferentTemplates(partial: string, practice: Practice)
    requires practice.Ordinary() && partial in practice.rendered && partial !in practice.fixed
    ensures !CacheIsSafe(practice)
  {
    hide RenderJobs, Uncached, Transparent, AllTransparent, TidyExpression;
    var wrapped :| wrapped in practice.bodies;
    var root, left, right := Layout(Partial(partial)), LookupPage(partial, "a", wrapped), LookupPage(partial, "b", wrapped);
    var p, q := Job(root, left, map[]), Job(root, right, map[]);
    PartialLookupIsNotInTheKey(partial, "a", "b", wrapped);
    assert "a" + "\n" + "\n" == "a\n\n" && "b" + "\n" + "\n" == "b\n\n";
    Stale(p, q, "a\n\n", Success("b\n\n"));
    LookupTidy(partial, "a", wrapped, practice.TemplateRules());
    LookupTidy(partial, "b", wrapped, practice.TemplateRules());
    hide Tidy, TidyPartials;
    Unsafe(p, q, practice);
  }

  lemma LookupTidy(partial: string, text: string, wrapped: string, rules: Rules)
    requires partial in rules.rendered
    ensures var partials := LookupPage(partial, text, wrapped).options.partials;
            TidyPartials(partials, rules) && Tidy(Layout(Partial(partial)), rules, false, partials)
  {
    hide Tidy, TidyExpression;
    var partials := LookupPage(partial, text, wrapped).options.partials;
    PlainTidy(Expression.LiteralString(text), rules, true, partials);
    CallTidy(partial, None, rules, true, partials);
    FragmentTidy(Partial(partial), rules, false, partials);
  }

  // ------------------------------------------------------------- numbers

  const LARGE := 9999999999999999

  /** Numbers as the library writes the two that are asked for below: 1.0 in JSON, and the
      sum of it and the large number in a template. */
  function OneAndSum(): Numbers { Numbers(text => 1.0, number => "1e+16", number => "1") }

  lemma SumIsNotDigits()
    ensures OneAndSum().json(1 as real) == IntegerText(1) && IntegerText(1 + LARGE) != "1e+16"
  {
    NaturalIsDigits(1 + LARGE);
    assert !IsDigit('e') && "1e+16"[1] == 'e' && 'e' in "1e+16";
  }

  lemma NumbersAndViews(name: string, practice: Practice)
    requires practice.Ordinary() && practice.numbers && name in practice.views
    ensures !CacheIsSafe(practice)
  {
    hide RenderJobs, Uncached, Transparent, AllTransparent, TidyExpression, IntegerText;
    var wrapped :| wrapped in practice.bodies;
    var root, numbers, rules := Layout(SumOf(name, LARGE)), OneAndSum(), practice.TemplateRules();
    var sum := IntegerText(1 + LARGE);
    var left, right := NumberPage(map[name := Integer(1)], map[], numbers, wrapped),
                       NumberPage(map[name := Number(1 as real)], map[], numbers, wrapped);
    var p, q := Job(root, left, map[]), Job(root, right, map[]);
    SumIsNotDigits();
    IntegerAndNumberShareAKey(name, 1, LARGE, numbers, wrapped);
    SameEnd(sum, "1e+16", "\n");
    Stale(p, q, sum + "\n", Success("1e+16" + "\n"));
    PlainTidy(SumOf(name, LARGE), rules, true, left.options.partials);
    FragmentTidy(SumOf(name, LARGE), rules, false, left.options.partials);
    hide Tidy;
    Unsafe(p, q, practice);
  }

  lemma NumbersAndLocals(name: string, practice: Practice)
    requires practice.Ordinary() && practice.numbers && name in practice.locals
    ensures !CacheIsSafe(practice)
  {
    hide RenderJobs, Uncached, Transparent, AllTransparent, TidyExpression, IntegerText;
    var wrapped :| wrapped in practice.bodies;
    var body, numbers, rules, sum := SumOf(name, LARGE), OneAndSum(), practice.TemplateRules(), IntegerText(1 + LARGE);
    var page := NumberPage(map[], map["w" := Layout(body)], numbers, wrapped);
    var given, other, partials := Some(Binding(name, Integer(1))), Some(Binding(name, Number(1 as real))), page.options.partials;
    var p, q := Caller("w", given, page), Caller("w", other, page);
    SumIsNotDigits();
    LocalsShareAKey(name, 1, LARGE, numbers, wrapped);
    SameEnd(sum, "1e+16", "\n");
    SameEnd(sum + "\n", "1e+16" + "\n", "\n");
    Stale(p, q, sum + "\n" + "\n", Success("1e+16" + "\n" + "\n"));
    PlainTidy(body, rules, true, partials);
    FragmentTidy(body, rules, "w" in rules.rendered, partials);
    CallTidy("w", given, rules, false, partials);
    CallTidy("w", other, rules, false, partials);
    hide Tidy;
    Unsafe(p, q, practice);
  }

  // ------------------------------------------------------------- a layout

  /** A layout with a fragment for its header and one for its footer, and between them
      whatever page it wraps. */
  function BaseLayout(): Node { Lines([FragmentCall(Partial("header")), YIELD, FragmentCall(Partial("footer"))]) }

  lemma BaseLayoutTidy(rules: Rules, partials: Partials)
    requires "header" in rules.rendered && "footer" in rules.rendered
    ensures Tidy(BaseLayout(), rules, false, partials)
  {
    hide TidyExpression;
    forall name: string | name in rules.rendered ensures TidyExpression(FragmentCall(Partial(name)), rules, false, partials) {
      CallTidy(name, None, rules, true, partials);
      FragmentCallTidy(Partial(name), rules, false, partials);
    }
    PlainTidy(YIELD, rules, false, partials);
    LinesTidy([FragmentCall(Partial("header")), YIELD, FragmentCall(Partial("footer"))], rules, false, partials);
  }

  /** Pages of one such layout are cached safely, whatever each of them wraps and whichever
      section each of them looks its other partials up in. */
  lemma BaseLayoutIsSafe(jobs: seq<Job>, site: Site, rules: Rules)
    requires site.body == None && "header" in rules.rendered && "footer" in rules.rendered
    requires forall i | 0 <= i < |jobs| :: jobs[i].root == BaseLayout() && TidyScope(jobs[i].page, jobs[i].locals, site, rules)
    ensures AllTransparent(jobs)
  {
    hide Tidy, TidyScope, Transparent;
    forall i | 0 <= i < |jobs| ensures Tidy(jobs[i].root, rules, false, jobs[i].page.options.partials) {
      BaseLayoutTidy(rules, jobs[i].page.options.partials);
    }
    CacheTransparentWhenTidy(jobs, site, rules);
  }

  // ------------------------------------------------------------- the theorem

  lemma UnsoundIsUnsafe(practice: Practice)
    requires practice.Ordinary() && !practice.Sound()
    ensures !CacheIsSafe(practice)
  {
    hide CacheIsSafe;
    if name :| name in practice.views && name in practice.functions {
      ViewsAndFunctions(name, practice);
    } else if name :| name in practice.functions && name in practice.locals {
      FunctionsAndLocals(name, practice);
    } else if name :| name in practice.views && name in practice.locals {
      ViewsAndLocals(name, practice);
    } else if partial :| partial in practice.rendered && partial !in practice.fixed {
      DifferentTemplates(partial, practice);
    } else if practice.BodyWithin() && !practice.OneBody() {
      var first, second :| first in practice.bodies && second in practice.bodies && first != second;
      DifferentBodies(first, second, practice);
    } else if name :| name in practice.views {
      NumbersAndViews(name, practice);
    } else {
      var name :| name in practice.locals;
      NumbersAndLocals(name, practice);
    }
  }

  /** The discipline, exactly. Whatever the templates, the values and the functions, the cache
      makes no difference to any sequence of pages if and only if no name is used for two of a
      view value, a function and a local; partials of fragments may write the wrapped text only if no
      two pages wrap different texts; every partial a fragment may render is the same on every
      page; and values may hold floating-point numbers only if there are none to read. */
  lemma SafeExactlyWhenApart(practice: Practice)
    requires practice.Ordinary()
    ensures CacheIsSafe(practice) <==> practice.Sound()
  {
    hide CacheIsSafe;
    if practice.Sound() { SoundIsSafe(practice); } else { UnsoundIsUnsafe(practice); }
  }
}

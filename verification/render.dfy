/** Rendering a compiled template (src/blogin/haml_render.cpp), as functions giving the
    text written, everything read and bound on the way, and the fragment cache left
    behind. `room` is how many partials may still be nested: 32 less the depth. */
module Render {
  import opened Strings
  import opened Values
  import opened ViewContexts
  import opened Evaluation
  import opened Template
  import Expression

  const MAX_PARTIALS := 32

  /** The templates partials are looked up in, which the section a page is in decides, and
      the text `yield` stands for. */
  datatype Options = Options(partials: Option<map<string, Node>>, body: string)
  {
    /** The template a name finds. */
    function Found(name: string): Option<Node> {
      if partials.Some? && name in partials.value then Some(partials.value[name]) else None
    }
  }

  /** What stays fixed while one page renders. */
  datatype Page = Page(view: View, options: Options)

  /** A fragment is known by where it is written and by the text of what it read. */
  datatype Key = Key(site: Expression.Node, text: string)

  datatype Cache = Cache(entries: map<Key, string>, names: map<Expression.Node, seq<string>>, renders: nat)
  {
    /** An entry is never replaced. */
    function Store(key: Key, html: string): Cache {
      if key in entries then this else this.(entries := entries[key := html])
    }

    /** The names a site read are recorded once. */
    function Remember(site: Expression.Node, read: seq<string>): Cache {
      if site in names then this else this.(names := names[site := read])
    }

    function NoteRender(): Cache { this.(renders := renders + 1) }
  }

  /** Without a cache every fragment renders every time. */
  type Store = Option<Cache>

  datatype Rendered<+T> = Rendered(result: Result<T>, events: seq<Event>, store: Store)

  function Wrote(text: string, store: Store): Rendered<string> { Rendered(Success(text), [], store) }

  function Stopped<T>(problem: Problem, store: Store): Rendered<T> { Rendered(Failure(problem), [], store) }

  /** A step that only evaluated. */
  function Pure<T>(e: Evaluated<T>, store: Store): Rendered<T> { Rendered(e.result, e.events, store) }

  /** `next`, with `events` before it. */
  function Behind<T>(events: seq<Event>, next: Rendered<T>): Rendered<T> {
    Rendered(next.result, events + next.events, next.store)
  }

  /** `next`, after a step that wrote `text`. */
  function Follow(text: string, events: seq<Event>, next: Rendered<string>): Rendered<string> {
    Rendered(if next.result.Failure? then next.result else Success(text + next.result.value),
             events + next.events, next.store)
  }

  /** A step's text, put between two others. */
  function Around(before: string, r: Rendered<string>, after: string): Rendered<string> {
    if r.result.Failure? then r else r.(result := Success(before + r.result.value + after))
  }

  const VOID_TAGS := {
    "area", "base", "br", "col", "embed", "hr", "img", "input", "link", "meta", "param", "source", "track", "wbr"
  }

  /** Literals as they are and holes evaluated, escaped or not. */
  function Interpolate(parts: seq<Segment>, escape: bool, view: View, locals: Locals): (r: Evaluated<string>)
    ensures Owns(r.events, view.values, locals)
  {
    if parts == [] then Done("")
    else
      var first :=
        match parts[0]
        case Literal(text) => Done(text)
        case Hole(value) => HoleText(value, escape, view, locals);
      if first.result.Failure? then first
      else
        var rest := After(first.events, Interpolate(parts[1..], escape, view, locals));
        if rest.result.Failure? then rest else Evaluated(Success(first.result.value + rest.result.value), rest.events)
  }

  function HoleText(n: Expression.Node, escape: bool, view: View, locals: Locals): (r: Evaluated<string>)
    ensures Owns(r.events, view.values, locals)
  {
    var value := Evaluate(n, view, locals);
    if value.result.Failure? then Evaluated(Failure(value.result.problem), value.events)
    else
      var text := ToText(value.result.value, view);
      Evaluated(Success(if escape then Escape(text) else text), value.events)
  }

  // ------------------------------------------------------------------ elements

  datatype Marks = Marks(classes: string, id: string)

  function JoinClass(classes: string, name: string): string {
    if classes == "" then name else classes + " " + name
  }

  function JoinClasses(sofar: string, names: seq<string>): string
    decreases names
  {
    if names == [] then sofar else JoinClasses(JoinClass(sofar, names[0]), names[1..])
  }

  /** The first walk over the attributes: what they add to the classes and the id. */
  function GatherMarks(attributes: seq<Attribute>, marks: Marks, view: View, locals: Locals): (r: Evaluated<Marks>)
    ensures Owns(r.events, view.values, locals)
    decreases attributes
  {
    if attributes == [] then Done(marks)
    else if attributes[0].shorthand then GatherMarks(attributes[1..], marks, view, locals)
    else
      var a := attributes[0];
      var value := Interpolate(a.value, false, view, locals);
      if value.result.Failure? then Evaluated(Failure(value.result.problem), value.events)
      else After(value.events, GatherMarks(attributes[1..], Mark(marks, a.name, value.result.value), view, locals))
  }

  function Mark(marks: Marks, name: string, value: string): Marks {
    if name == "class" then
      if value == "" then marks else marks.(classes := JoinClass(marks.classes, value))
    else if name == "id" then marks.(id := value)
    else marks
  }

  function MarksText(marks: Marks): string {
    (if marks.id == "" then "" else " id=\"" + Escape(marks.id) + "\"")
      + if marks.classes == "" then "" else " class=\"" + Escape(marks.classes) + "\""
  }

  /** The second walk: every attribute but the class and the id, as it is written. */
  function AttributesText(attributes: seq<Attribute>, view: View, locals: Locals): (r: Evaluated<string>)
    ensures Owns(r.events, view.values, locals)
  {
    if attributes == [] then Done("")
    else
      var first := AttributeText(attributes[0], view, locals);
      if first.result.Failure? then first
      else
        var rest := After(first.events, AttributesText(attributes[1..], view, locals));
        if rest.result.Failure? then rest else Evaluated(Success(first.result.value + rest.result.value), rest.events)
  }

  /** An attribute that is one hole is evaluated again, for a boolean or a null. */
  function AttributeText(a: Attribute, view: View, locals: Locals): (r: Evaluated<string>)
    ensures Owns(r.events, view.values, locals)
  {
    if a.name == "class" || a.name == "id" then Done("")
    else if a.shorthand then Done(" " + a.name)
    else
      var value := Interpolate(a.value, false, view, locals);
      if value.result.Failure? then value
      else
        var written := " " + a.name + "=\"" + Escape(value.result.value) + "\"";
        if |a.value| != 1 || a.value[0].Literal? then Evaluated(Success(written), value.events)
        else
          var again := Evaluate(a.value[0].value, view, locals);
          After(value.events, Evaluated(
            match again.result
            case Failure(problem) => Failure(problem)
            case Success(Boolean(b)) => Success(if b then " " + a.name else "")
            case Success(Null) => Success("")
            case Success(_) => Success(written),
            again.events))
  }

  /** Everything an element writes before its children. */
  function OpenTag(content: Content, view: View, locals: Locals): (r: Evaluated<string>)
    ensures Owns(r.events, view.values, locals)
    requires content.Element?
  {
    var marks := GatherMarks(content.attributes, Marks(JoinClasses("", content.classes), content.id), view, locals);
    if marks.result.Failure? then Evaluated(Failure(marks.result.problem), marks.events)
    else
      var rest := After(marks.events, AttributesText(content.attributes, view, locals));
      if rest.result.Failure? then rest
      else Evaluated(Success("<" + content.tag + MarksText(marks.result.value) + rest.result.value), rest.events)
  }

  predicate InlineChild(node: Node)
    requires node.content.Element?
  {
    || node.content.keepsWhitespace
    || (|node.children| == 1 && (node.children[0].content.Text? || node.children[0].content.Output?))
  }

  /** The last line break goes when the child sits on its tag's line. */
  function Trimmed(inline: bool, inner: string): string {
    if inline && inner != "" && inner[|inner| - 1] == '\n' then inner[..|inner| - 1] else inner
  }

  // ------------------------------------------------------------------- filters

  function PartsOf(content: Content): seq<Segment> {
    match content
    case Text(parts) => parts
    case Comment(remark) => [Literal(remark)]
    case _ => []
  }

  function FilterBody(children: seq<Node>, view: View, locals: Locals): (r: Evaluated<string>)
    ensures Owns(r.events, view.values, locals)
  {
    if children == [] then Done("")
    else
      var first := Interpolate(PartsOf(children[0].content), false, view, locals);
      if first.result.Failure? then first
      else
        var rest := After(first.events, FilterBody(children[1..], view, locals));
        if rest.result.Failure? then rest
        else Evaluated(Success(first.result.value + "\n" + rest.result.value), rest.events)
  }

  function FilterText(filter: string, body: string): Result<string> {
    if filter == "plain" then Success(body)
    else if filter == "escaped" then Success(Escape(body))
    else if filter == "javascript" then Success("<script>\n" + body + "</script>\n")
    else if filter == "css" then Success("<style>\n" + body + "</style>\n")
    else Failure(NoSuchFilter)
  }

  function RenderFilter(node: Node, view: View, locals: Locals): (r: Evaluated<string>)
    ensures Owns(r.events, view.values, locals)
    requires node.content.Filter?
  {
    var body := FilterBody(node.children, view, locals);
    if body.result.Failure? then body
    else Evaluated(FilterText(node.content.filter, body.result.value), body.events)
  }

  // ------------------------------------------------------------------ the walk

  /** The children of `parent` from index `i` on. */
  function RenderChildren(parent: Node, i: nat, page: Page, locals: Locals, room: nat, store: Store): (r: Rendered<string>)
    requires i <= |parent.children|
    ensures store.None? ==> r.store.None?
    decreases room, 1, parent, 1, |parent.children| - i, 1
  {
    if i == |parent.children| then Wrote("", store)
    else if parent.children[i].IsHead() then
      var chain := RenderChain(parent, i, false, page, locals, room, store);
      if chain.result.Failure? then Rendered(Failure(chain.result.problem), chain.events, chain.store)
      else
        Follow(chain.result.value.text, chain.events,
               RenderChildren(parent, chain.result.value.next, page, locals, room, chain.store))
    else
      var child := RenderNode(parent.children[i], page, locals, room, store);
      if child.result.Failure? then child
      else Follow(child.result.value, child.events, RenderChildren(parent, i + 1, page, locals, room, child.store))
  }

  datatype Chain = Chain(text: string, next: nat)

  /** Whether a branch is taken: an `else` always, the others by their condition. */
  function BranchTaken(branch: Node, view: View, locals: Locals): (r: Evaluated<bool>)
    ensures Owns(r.events, view.values, locals)
    requires branch.content.Control?
  {
    if branch.content.control.Else? then Done(true)
    else if branch.content.condition.None? then Failed(Unsupported)
    else
      var value := Evaluate(branch.content.condition.value, view, locals);
      if value.result.Failure? then Evaluated(Failure(value.result.problem), value.events)
      else
        var truth := value.result.value.Truthy();
        Evaluated(Success(if branch.content.control.Unless? then !truth else truth), value.events)
  }

  /** A conditional chain from its branch at `i`, and the index it ends at. */
  function RenderChain(parent: Node, i: nat, taken: bool, page: Page, locals: Locals, room: nat, store: Store)
    : (r: Rendered<Chain>)
    requires i < |parent.children| && parent.children[i].IsControl()
    ensures r.result.Success? ==> i < r.result.value.next <= |parent.children|
    ensures store.None? ==> r.store.None?
    decreases room, 1, parent, 1, |parent.children| - i, 0
  {
    var branch := parent.children[i];
    var condition := if taken then Done(false) else BranchTaken(branch, page.view, locals);
    if condition.result.Failure? then Rendered(Failure(condition.result.problem), condition.events, store)
    else
      var body := if condition.result.value then RenderChildren(branch, 0, page, locals, room, store) else Wrote("", store);
      var events := condition.events + body.events;
      if body.result.Failure? then Rendered(Failure(body.result.problem), events, body.store)
      else if i + 1 < |parent.children| && parent.children[i + 1].IsTail() then
        var rest := RenderChain(parent, i + 1, taken || condition.result.value, page, locals, room, body.store);
        Rendered(
          if rest.result.Failure? then rest.result
          else Success(Chain(body.result.value + rest.result.value.text, rest.result.value.next)),
          events + rest.events, rest.store)
      else Rendered(Success(Chain(body.result.value, i + 1)), events, body.store)
  }

  function RenderNode(node: Node, page: Page, locals: Locals, room: nat, store: Store): (r: Rendered<string>)
    ensures store.None? ==> r.store.None?
    decreases room, 1, node, 3
  {
    match node.content
    case Root => RenderChildren(node, 0, page, locals, room, store)
    case Doctype(_) => Wrote("<!DOCTYPE html>\n", store)
    case Comment(_) => Wrote("", store)
    case Text(parts) => Around("", Pure(Interpolate(parts, true, page.view, locals), store), "\n")
    case Output(value, escaped) => RenderOutput(value, escaped, page, locals, room, store)
    case Filter(_) => Pure(RenderFilter(node, page.view, locals), store)
    case Control(_, _, _) => RenderLoop(node, page, locals, room, store)
    case Element(_, _, _, _, _, _) => RenderElement(node, page, locals, room, store)
  }

  function RenderOutput(value: Expression.Node, escaped: bool, page: Page, locals: Locals, room: nat, store: Store)
    : (r: Rendered<string>)
    ensures store.None? ==> r.store.None?
    decreases room, 0, value, 3
  {
    if IsEngineCall(value) then
      var handled := RenderEngineCall(value, page, locals, room, store);
      if handled.result.Failure? then handled
      else handled.(result := Success((if escaped then Escape(handled.result.value) else handled.result.value) + "\n"))
    else if value == Expression.Name("yield") then Rendered(Success(page.options.body + "\n"), [WriteBody], store)
    else Around("", Pure(HoleText(value, escaped, page.view, locals), store), "\n")
  }

  function RenderLoop(node: Node, page: Page, locals: Locals, room: nat, store: Store): (r: Rendered<string>)
    requires node.content.Control?
    ensures store.None? ==> r.store.None?
    decreases room, 1, node, 2, 0
  {
    if !node.content.control.For? then Stopped(OrphanBranch, store)
    else if node.content.condition.None? then Stopped(Unsupported, store)
    else
      var items := Evaluate(node.content.condition.value, page.view, locals);
      if items.result.Failure? then Rendered(Failure(items.result.problem), items.events, store)
      else if !items.result.value.List? then Rendered(Failure(CannotIterate), items.events, store)
      else
        var walked := LoopItems(node, items.result.value.items, page, locals, room, store);
        Rendered(walked.result, items.events + ([Keep({})] + (walked.events + [Keep(locals.Keys)])), walked.store)
  }

  /** The body of a loop for each item, each time over the locals the loop began with. */
  function LoopItems(node: Node, items: seq<Value>, page: Page, saved: Locals, room: nat, store: Store): (r: Rendered<string>)
    requires node.content.Control?
    ensures store.None? ==> r.store.None?
    decreases room, 1, node, 1, |node.children| + 1, 0, |items|
  {
    if items == [] then Wrote("", store)
    else
      var variable := node.content.variable;
      var events := [Keep(saved.Keys), Bind({variable})];
      var body := RenderChildren(node, 0, page, saved[variable := items[0]], room, store);
      if body.result.Failure? then Behind(events, body)
      else Follow(body.result.value, events + body.events, LoopItems(node, items[1..], page, saved, room, body.store))
  }

  function RenderElement(node: Node, page: Page, locals: Locals, room: nat, store: Store): (r: Rendered<string>)
    requires node.content.Element?
    ensures store.None? ==> r.store.None?
    decreases room, 1, node, 2, 0
  {
    var tag := OpenTag(node.content, page.view, locals);
    if tag.result.Failure? then Pure(tag, store)
    else if node.content.selfClosing || node.content.tag in VOID_TAGS then
      Rendered(Success(tag.result.value + " />\n"), tag.events, store)
    else
      var closing := "</" + node.content.tag + ">\n";
      if node.children == [] then Rendered(Success(tag.result.value + ">" + closing), tag.events, store)
      else
        var inline := InlineChild(node);
        var inner := Behind(tag.events, RenderChildren(node, 0, page, locals, room, store));
        if inner.result.Failure? then inner
        else
          inner.(result := Success(tag.result.value + ">" + (if inline then "" else "\n")
                                   + Trimmed(inline, inner.result.value) + closing))
  }

  // ------------------------------------------------- partials and the fragments

  predicate IsCallOf(n: Expression.Node, names: set<string>) {
    n.Call? && n.target.Name? && n.target.name in names
  }

  predicate IsEngineCall(n: Expression.Node) { IsCallOf(n, {"render", "cache-fragment", "cache_fragment"}) }

  /** The value of the first argument called `key`, if there is one. */
  function Named(arguments: seq<Expression.Node>, key: string): (r: Option<Expression.Node>) {
    if arguments == [] then None
    else if arguments[0].NamedArgument? && arguments[0].key == key then Some(arguments[0].target)
    else Named(arguments[1..], key)
  }

  function RenderEngineCall(n: Expression.Node, page: Page, locals: Locals, room: nat, store: Store): (r: Rendered<string>)
    requires IsEngineCall(n)
    ensures store.None? ==> r.store.None?
    decreases room, 0, n, 2
  {
    if n.target.name == "render" then RenderPartialCall(n, page, locals, room, store)
    else RenderCachedFragment(n, page, locals, room, store)
  }

  /** An argument that may be missing. */
  function EvaluateOption(n: Option<Expression.Node>, view: View, locals: Locals): (r: Evaluated<Option<Value>>)
    ensures Owns(r.events, view.values, locals)
  {
    if n.None? then Done(None)
    else
      var value := Evaluate(n.value, view, locals);
      Evaluated(if value.result.Failure? then Failure(value.result.problem) else Success(Some(value.result.value)),
                value.events)
  }

  /** What a `render` call asks for, once its arguments are evaluated. */
  datatype Request = Request(name: string, root: Node, locals: Locals, items: Option<seq<Value>>, alias: string)

  /** The arguments of a `render` call, read against the locals in scope at the call. */
  function ReadRequest(arguments: seq<Expression.Node>, page: Page, locals: Locals, room: nat): (r: Evaluated<Request>)
    ensures Owns(r.events, page.view.values, locals)
  {
    var name := Named(arguments, "partial");
    if name.None? || page.options.partials.None? then Failed(NoPartialNamed)
    else
      var resolved := Evaluate(name.value, page.view, locals);
      if resolved.result.Failure? then Evaluated(Failure(resolved.result.problem), resolved.events)
      else
        var target := resolved.result.value.AsString();
        if target !in page.options.partials.value then Evaluated(Failure(NoSuchPartial), resolved.events)
        else if room == 0 then Evaluated(Failure(PartialsTooDeep), resolved.events)
        else After(resolved.events, ReadScope(target, page.options.partials.value[target], arguments, page.view, locals))
  }

  function ReadScope(name: string, root: Node, arguments: seq<Expression.Node>, view: View, locals: Locals)
    : (r: Evaluated<Request>)
    ensures Owns(r.events, view.values, locals)
  {
    var given := EvaluateOption(Named(arguments, "locals"), view, locals);
    if given.result.Failure? then Evaluated(Failure(given.result.problem), given.events)
    else
      var collection := After(given.events, EvaluateOption(Named(arguments, "collection"), view, locals));
      if collection.result.Failure? then Evaluated(Failure(collection.result.problem), collection.events)
      else
        var alias := After(collection.events, EvaluateOption(Named(arguments, "as"), view, locals));
        if alias.result.Failure? then Evaluated(Failure(alias.result.problem), alias.events)
        else Evaluated(Success(Request(
          name, root,
          if given.result.value.None? then map[] else given.result.value.value.Members(),
          if collection.result.value.None? then None else Some(collection.result.value.value.Items()),
          if alias.result.value.None? then "item" else alias.result.value.value.AsString())), alias.events)
  }

  function RenderPartialCall(n: Expression.Node, page: Page, locals: Locals, room: nat, store: Store): (r: Rendered<string>)
    requires n.Call?
    ensures store.None? ==> r.store.None?
    decreases room, 0, n, 1
  {
    var request := ReadRequest(n.arguments, page, locals, room);
    if request.result.Failure? then Rendered(Failure(request.result.problem), request.events, store)
    else if room == 0 then Rendered(Failure(PartialsTooDeep), request.events, store)
    else
      var inner := RenderPartial(request.result.value, page, room - 1, store);
      Rendered(inner.result,
               request.events + (Entering(request.result.value) + (inner.events + [Keep(locals.Keys)])),
               inner.store)
  }

  /** What a call does before its partial renders. */
  function Entering(request: Request): seq<Event> { [Find(request.name), Keep({}), Bind(request.locals.Keys)] }

  function RenderPartial(request: Request, page: Page, room: nat, store: Store): (r: Rendered<string>)
    ensures store.None? ==> r.store.None?
    decreases room, 3
  {
    if request.items.None? then RenderChildren(request.root, 0, page, request.locals, room, store)
    else RenderItems(request, request.items.value, page, request.locals, room, store)
  }

  /** The partial once for each item, under the name the call gave it. */
  function RenderItems(request: Request, items: seq<Value>, page: Page, locals: Locals, room: nat, store: Store)
    : (r: Rendered<string>)
    ensures store.None? ==> r.store.None?
    decreases room, 2, |items|
  {
    if items == [] then Wrote("", store)
    else
      var scope := locals[request.alias := items[0]];
      var events := [Bind({request.alias})];
      var one := RenderChildren(request.root, 0, page, scope, room, store);
      if one.result.Failure? then Behind(events, one)
      else Follow(one.result.value, events + one.events, RenderItems(request, items[1..], page, scope, room, one.store))
  }

  /** The expression a `cache-fragment` call defers, or none when it gives no block. */
  function FragmentOf(n: Expression.Node): (r: Option<Expression.Node>)
    requires n.Call?
    ensures r.Some? ==> r.value < n
  {
    if |n.arguments| < 2 then None
    else
      var block := n.arguments[|n.arguments| - 1];
      if block.Block? then Some(block.target) else Some(block)
  }

  function RenderCachedFragment(n: Expression.Node, page: Page, locals: Locals, room: nat, store: Store)
    : (r: Rendered<string>)
    requires n.Call?
    ensures store.None? ==> r.store.None?
    decreases room, 0, n, 1
  {
    var fragment := FragmentOf(n);
    if fragment.None? then Stopped(NoBlockGiven, store)
    else if store.None? then RenderFragmentBody(fragment.value, page, locals, room, store)
    else
      var site, cache := fragment.value, store.value;
      var replayed :=
        if site in cache.names then ReplayOf(cache.names[site], page.view.values, locals) else Replayed(None, []);
      var key := KeyOf(replayed, page.view.jsonNumber);
      if key.Some? && Key(site, key.value) in cache.entries then
        Rendered(Success(cache.entries[Key(site, key.value)]), [Open(locals.Keys, |replayed.events|)] + replayed.events, store)
      else
        var body := RenderFragmentBody(site, page, locals, room, store);
        Behind(replayed.events, Opened(locals.Keys, Recorded(site, body, page.view.jsonNumber)))
  }

  /** A recorded fragment, marked where its recording begins. */
  function Opened(scope: set<string>, recorded: Rendered<string>): Rendered<string> {
    Behind([Open(scope, |recorded.events|)], recorded)
  }

  /** A fragment just rendered, put away under what it read, or found there already. */
  function Recorded(site: Expression.Node, body: Rendered<string>, number: real -> string): Rendered<string> {
    if body.result.Failure? || body.store.None? then body
    else
      var recording := Fold(Fresh(number), body.events);
      var key := Key(site, recording.Key());
      var cache := body.store.value.NoteRender();
      var named := if recording.replayable then cache.Remember(site, Names(recording.seen)) else cache;
      if key in named.entries then Rendered(Success(named.entries[key]), body.events, Some(named))
      else Rendered(body.result, body.events, Some(named.Store(key, body.result.value)))
  }

  function RenderFragmentBody(body: Expression.Node, page: Page, locals: Locals, room: nat, store: Store)
    : (r: Rendered<string>)
    ensures store.None? ==> r.store.None?
    decreases room, 0, body, 3
  {
    if IsEngineCall(body) then RenderEngineCall(body, page, locals, room, store)
    else Pure(HoleText(body, false, page.view, locals), store)
  }

  // ------------------------------------------------------------------ a chain, branch by branch

  /** `rest`, after the branches before it wrote `text`. */
  function FollowChain(text: string, events: seq<Event>, rest: Rendered<Chain>): Rendered<Chain> {
    Rendered(if rest.result.Failure? then rest.result
             else Success(Chain(text + rest.result.value.text, rest.result.value.next)),
             events + rest.events, rest.store)
  }

  /** One branch of a chain: its condition, unless an earlier branch was taken, and its
      body if it is. */
  function BranchPart(branch: Node, taken: bool, page: Page, locals: Locals, room: nat, store: Store): (r: Rendered<string>)
    requires branch.content.Control?
    ensures store.None? ==> r.store.None?
  {
    var condition := if taken then Done(false) else BranchTaken(branch, page.view, locals);
    if condition.result.Failure? then Rendered(Failure(condition.result.problem), condition.events, store)
    else if condition.result.value then Behind(condition.events, RenderChildren(branch, 0, page, locals, room, store))
    else Rendered(Success(""), condition.events, store)
  }

  predicate BranchHolds(branch: Node, taken: bool, view: View, locals: Locals)
    requires branch.content.Control?
  {
    taken || BranchTaken(branch, view, locals).result == Success(true)
  }

  lemma ChainStep(parent: Node, i: nat, taken: bool, page: Page, locals: Locals, room: nat, store: Store)
    requires i < |parent.children| && parent.children[i].IsControl()
    ensures var part := BranchPart(parent.children[i], taken, page, locals, room, store);
            var whole := RenderChain(parent, i, taken, page, locals, room, store);
            if part.result.Failure? then whole == Rendered(Failure(part.result.problem), part.events, part.store)
            else if i + 1 < |parent.children| && parent.children[i + 1].IsTail() then
              whole == FollowChain(part.result.value, part.events,
                                   RenderChain(parent, i + 1, BranchHolds(parent.children[i], taken, page.view, locals),
                                               page, locals, room, part.store))
            else whole == Rendered(Success(Chain(part.result.value, i + 1)), part.events, part.store)
  {
    hide RenderChildren, BranchTaken;
    var branch := parent.children[i];
    var condition := if taken then Done(false) else BranchTaken(branch, page.view, locals);
    assert condition.events + [] == condition.events;
  }

  /** One page: a template rendered at depth zero. */
  function RenderPage(root: Node, page: Page, locals: Locals, store: Store): Rendered<string> {
    RenderChildren(root, 0, page, locals, MAX_PARTIALS, store)
  }
}

/** What a page holds: the text each kind of node writes, said of the values its expressions
    have and of an HTML reader that undoes tags and entities. */
module PageText {
  import opened Strings
  import opened Values
  import opened ViewContexts
  import opened Evaluation
  import opened EvaluationLaws
  import opened Template
  import opened Render
  import opened Compiling
  import Highlight
  import Expression

  // ------------------------------------------------------------- text and its markup

  /** A piece of a page that holds no markup, and that a reader takes for the text. */
  ghost predicate Shows(piece: string, text: string) {
    '<' !in piece && '>' !in piece && '"' !in piece && Highlight.Undo(piece) == text
  }

  lemma {:induction false} EscapeShows(text: string)
    ensures Shows(Escape(text), text)
  {
    Highlight.UndoEscape(text, "");
    assert Escape(text) + "" == Escape(text) && text + "" == text;
    NoMarkup(text);
  }

  lemma {:induction false} NoMarkup(text: string)
    ensures forall c | c in Escape(text) :: c != '<' && c != '>' && c != '"'
  {
    if text != "" { NoMarkup(text[1..]); }
  }

  /** The value of an expression, as the text it reads as. */
  ghost predicate ReadsAs(n: Expression.Node, text: string, view: View, locals: Locals) {
    exists v :: Evaluate(n, view, locals).result == Success(v) && Reads(v, text, view)
  }

  /** A part of a template's text and what it writes: a literal itself, a hole its value,
      escaped or not. */
  ghost predicate PartWrites(part: Segment, piece: string, escape: bool, view: View, locals: Locals) {
    match part
    case Literal(text) => piece == text
    case Hole(value) =>
      if escape then exists text :: ReadsAs(value, text, view, locals) && Shows(piece, text)
      else ReadsAs(value, piece, view, locals)
  }

  ghost predicate PartsWrite(parts: seq<Segment>, pieces: seq<string>, escape: bool, view: View, locals: Locals) {
    |pieces| == |parts| && forall i | 0 <= i < |parts| :: PartWrites(parts[i], pieces[i], escape, view, locals)
  }

  lemma HoleWrites(n: Expression.Node, escape: bool, view: View, locals: Locals)
    ensures var r := HoleText(n, escape, view, locals).result;
            if r.Success? then PartWrites(Hole(n), r.value, escape, view, locals)
            else Evaluate(n, view, locals).result == Failure(r.problem)
  {
    var value := Evaluate(n, view, locals).result;
    if value.Success? {
      TextIsHowItReads(value.value, view);
      EscapeShows(ToText(value.value, view));
      assert ReadsAs(n, ToText(value.value, view), view, locals);
    }
  }

  /** The pieces that parts write, as far as all of them have values. */
  lemma {:induction false} PiecesOf(parts: seq<Segment>, escape: bool, view: View, locals: Locals) returns (pieces: seq<string>)
    ensures var r := Interpolate(parts, escape, view, locals).result;
            && |pieces| <= |parts| && PartsWrite(parts[..|pieces|], pieces, escape, view, locals)
            && if |pieces| == |parts| then r == Success(Concat(pieces))
               else var part := parts[|pieces|];
                    part.Hole? && r.Failure? && Evaluate(part.value, view, locals).result == Failure(r.problem)
    decreases parts
  {
    hide HoleText, PartWrites, Evaluate;
    pieces := [];
    if parts != [] {
      if parts[0].Hole? { HoleWrites(parts[0].value, escape, view, locals); } else { LiteralWrites(parts[0], escape, view, locals); }
      var first := if parts[0].Hole? then HoleText(parts[0].value, escape, view, locals).result else Success(parts[0].text);
      if first.Success? {
        var rest := PiecesOf(parts[1..], escape, view, locals);
        pieces := [first.value] + rest;
        assert pieces[1..] == rest && parts[..|pieces|] == [parts[0]] + parts[1..][..|rest|];
      }
    }
  }

  lemma LiteralWrites(part: Segment, escape: bool, view: View, locals: Locals)
    requires part.Literal?
    ensures PartWrites(part, part.text, escape, view, locals)
  {
  }

  // ------------------------------------------------------------- text and output

  /** A line of text writes its literals as they are and, for each hole, a piece with no
      markup in it that reads as the hole's value; or it fails as the first hole that does. */
  lemma TextWrites(node: Node, page: Page, locals: Locals, room: nat, store: Store) returns (pieces: seq<string>)
    requires node.content.Text?
    ensures var parts, r := node.content.parts, RenderNode(node, page, locals, room, store).result;
            && |pieces| <= |parts| && PartsWrite(parts[..|pieces|], pieces, true, page.view, locals)
            && if |pieces| == |parts| then r == Success(Concat(pieces) + "\n")
               else var part := parts[|pieces|];
                    part.Hole? && r.Failure? && Evaluate(part.value, page.view, locals).result == Failure(r.problem)
  {
    hide PartWrites, Evaluate, Interpolate;
    pieces := PiecesOf(node.content.parts, true, page.view, locals);
    assert "" + Concat(pieces) == Concat(pieces);
  }

  /** `= value` writes a piece with no markup in it that reads as the value; `!= value` writes
      the value as it is. */
  lemma OutputWrites(value: Expression.Node, escaped: bool, page: Page, locals: Locals, room: nat, store: Store)
    returns (piece: string)
    requires !IsEngineCall(value) && value != Expression.Name("yield")
    ensures var r := RenderOutput(value, escaped, page, locals, room, store).result;
            if r.Success? then r.value == piece + "\n" && PartWrites(Hole(value), piece, escaped, page.view, locals)
            else Evaluate(value, page.view, locals).result == Failure(r.problem)
  {
    HoleWrites(value, escaped, page.view, locals);
    hide PartWrites, Evaluate, HoleText;
    var r := HoleText(value, escaped, page.view, locals).result;
    piece := if r.Success? then r.value else "";
    assert "" + piece == piece;
  }

  /** `yield` writes the wrapped text as it is, and `=` escapes what a `render` call or a
      fragment gives, where `!=` does not. */
  lemma CallsWrite(value: Expression.Node, escaped: bool, page: Page, locals: Locals, room: nat, store: Store)
    ensures RenderOutput(Expression.Name("yield"), escaped, page, locals, room, store).result == Success(page.options.body + "\n")
    ensures IsEngineCall(value) ==>
              var given := RenderEngineCall(value, page, locals, room, store).result;
              var r := RenderOutput(value, escaped, page, locals, room, store).result;
              if given.Failure? then r == given
              else if !escaped then r == Success(given.value + "\n")
              else r.Success? && exists piece :: r.value == piece + "\n" && Shows(piece, given.value)
  {
    if IsEngineCall(value) {
      var given := RenderEngineCall(value, page, locals, room, store).result;
      hide RenderEngineCall;
      if given.Success? { EscapeShows(given.value); }
      hide Shows;
    }
  }

  /** A fragment writes what its last argument gives, as it is: the block's expression, or an
      expression outright. It has to be given one besides its name. */
  lemma FragmentsWrite(name: string, arguments: seq<Expression.Node>, body: Expression.Node, block: bool, page: Page,
                       locals: Locals, room: nat)
    requires name in ["cache-fragment", "cache_fragment"] && (block || !body.Block?)
    ensures var last := if block then Expression.MakeBlock(body) else body;
            var call := Expression.Call(Expression.Name(name), arguments + [last], 9);
            var r := RenderOutput(call, false, page, locals, room, None).result;
            && IsEngineCall(call)
            && (arguments == [] ==> r == Failure(NoBlockGiven))
            && (arguments != [] && IsEngineCall(body) ==> r == RenderOutput(body, false, page, locals, room, None).result)
            && (arguments != [] && !IsEngineCall(body) && r.Success? ==>
                  exists text :: r.value == text + "\n" && ReadsAs(body, text, page.view, locals))
            && (arguments != [] && !IsEngineCall(body) && r.Failure? ==>
                  Evaluate(body, page.view, locals).result == Failure(r.problem))
  {
    hide RenderPartialCall, Evaluate;
    var last := if block then Expression.MakeBlock(body) else body;
    var call := Expression.Call(Expression.Name(name), arguments + [last], 9);
    assert RenderEngineCall(call, page, locals, room, None) == RenderCachedFragment(call, page, locals, room, None);
    if arguments != [] {
      assert FragmentOf(call) == Some(body);
      assert RenderCachedFragment(call, page, locals, room, None) == RenderFragmentBody(body, page, locals, room, None);
      if !IsEngineCall(body) { HoleWrites(body, false, page.view, locals); }
    }
    hide HoleText, RenderEngineCall;
  }

  lemma PlainNodesWrite(node: Node, page: Page, locals: Locals, room: nat, store: Store)
    ensures node.content.Doctype? ==> RenderNode(node, page, locals, room, store).result == Success("<!DOCTYPE html>\n")
    ensures node.content.Comment? ==> RenderNode(node, page, locals, room, store).result == Success("")
    ensures node.content.Output? ==>
              RenderNode(node, page, locals, room, store)
                == RenderOutput(node.content.value, node.content.escaped, page, locals, room, store)
  {
  }

  // ------------------------------------------------------------- one after another

  /** The children of a node that has no conditional among them write their texts in order,
      up to the first that fails. */
  lemma {:induction false} ChildrenWrite(parent: Node, i: nat, page: Page, locals: Locals, room: nat) returns (texts: seq<string>)
    requires i <= |parent.children| && forall k | i <= k < |parent.children| :: !parent.children[k].IsHead()
    ensures var r := RenderChildren(parent, i, page, locals, room, None).result;
            && i + |texts| <= |parent.children|
            && (forall k | 0 <= k < |texts| ::
                  RenderNode(parent.children[i + k], page, locals, room, None).result == Success(texts[k]))
            && if i + |texts| == |parent.children| then r == Success(Concat(texts))
               else r.Failure? && r == RenderNode(parent.children[i + |texts|], page, locals, room, None).result
    decreases |parent.children| - i
  {
    hide RenderNode;
    texts := [];
    if i < |parent.children| {
      var child := RenderNode(parent.children[i], page, locals, room, None);
      if child.result.Success? {
        var rest := ChildrenWrite(parent, i + 1, page, locals, room);
        texts := [child.result.value] + rest;
        assert texts[1..] == rest;
        forall k | 0 <= k < |texts| ensures RenderNode(parent.children[i + k], page, locals, room, None).result == Success(texts[k]) {
          if k > 0 { assert texts[k] == rest[k - 1] && i + k == i + 1 + (k - 1); }
        }
      }
    }
  }

  /** Whether a branch is taken: an `else` always, an `unless` when its condition is one of
      the false values, the others when it is not. */
  lemma BranchesTaken(branch: Node, view: View, locals: Locals)
    requires branch.content.Control?
    ensures branch.content.control.Else? ==> BranchTaken(branch, view, locals).result == Success(true)
    ensures !branch.content.control.Else? && branch.content.condition.Some? ==>
              var value, taken := Evaluate(branch.content.condition.value, view, locals).result,
                                  BranchTaken(branch, view, locals).result;
              if value.Failure? then taken == Failure(value.problem)
              else taken == Success(if branch.content.control.Unless? then value.value in FALSE_VALUES
                                    else value.value !in FALSE_VALUES)
  {
    hide Evaluate;
    if branch.content.condition.Some? && Evaluate(branch.content.condition.value, view, locals).result.Success? {
      TruthyExactly(Evaluate(branch.content.condition.value, view, locals).result.value);
    }
  }

  /** A loop writes its body once for each item, in order, with the item under the loop's
      name among the locals the loop began with, up to the first time that fails. */
  lemma {:induction false} ItemsWrite(node: Node, items: seq<Value>, page: Page, locals: Locals, room: nat)
    returns (texts: seq<string>)
    requires node.content.Control?
    ensures var r := LoopItems(node, items, page, locals, room, None).result;
            && |texts| <= |items|
            && (forall k | 0 <= k < |texts| :: LoopBody(node, items[k], page, locals, room) == Success(texts[k]))
            && if |texts| == |items| then r == Success(Concat(texts))
               else r.Failure? && r == LoopBody(node, items[|texts|], page, locals, room)
    decreases |items|
  {
    hide RenderChildren;
    texts := [];
    if items != [] {
      var body := LoopBody(node, items[0], page, locals, room);
      if body.Success? {
        var rest := ItemsWrite(node, items[1..], page, locals, room);
        texts := [body.value] + rest;
        assert texts[1..] == rest;
      }
    }
  }

  function LoopBody(node: Node, item: Value, page: Page, locals: Locals, room: nat): Result<string>
    requires node.content.Control?
  {
    RenderChildren(node, 0, page, locals[node.content.variable := item], room, None).result
  }

  lemma LoopWrites(node: Node, items: seq<Value>, page: Page, locals: Locals, room: nat) returns (texts: seq<string>)
    requires node.content.Control? && node.content.control.For? && node.content.condition.Some?
    requires Evaluate(node.content.condition.value, page.view, locals).result == Success(List(items))
    ensures var r := RenderNode(node, page, locals, room, None).result;
            && |texts| <= |items|
            && (forall k | 0 <= k < |texts| :: LoopBody(node, items[k], page, locals, room) == Success(texts[k]))
            && if |texts| == |items| then r == Success(Concat(texts))
               else r.Failure? && r == LoopBody(node, items[|texts|], page, locals, room)
  {
    hide Evaluate, LoopItems, RenderChildren, LoopBody;
    texts := ItemsWrite(node, items, page, locals, room);
    assert RenderNode(node, page, locals, room, None) == RenderLoop(node, page, locals, room, None);
  }

  /** A partial rendered for a collection writes once for each item, in order, with the item
      under the name the call gave it among the locals the call gave. */
  lemma {:induction false} CollectionWrites(request: Request, items: seq<Value>, page: Page, locals: Locals, room: nat)
    returns (texts: seq<string>)
    ensures var r := RenderItems(request, items, page, locals, room, None).result;
            && |texts| <= |items|
            && (forall k | 0 <= k < |texts| :: ItemText(request, items[k], page, locals, room) == Success(texts[k]))
            && if |texts| == |items| then r == Success(Concat(texts))
               else r.Failure? && r == ItemText(request, items[|texts|], page, locals, room)
    decreases |items|
  {
    hide RenderChildren;
    texts := [];
    if items != [] {
      var scope := locals[request.alias := items[0]];
      var one := RenderChildren(request.root, 0, page, scope, room, None);
      if one.result.Success? {
        var rest := CollectionWrites(request, items[1..], page, scope, room);
        texts := [one.result.value] + rest;
        assert texts[1..] == rest;
        forall k | 1 <= k < |items| ensures scope[request.alias := items[k]] == locals[request.alias := items[k]] {}
      }
    }
  }

  function ItemText(request: Request, item: Value, page: Page, locals: Locals, room: nat): Result<string> {
    RenderChildren(request.root, 0, page, locals[request.alias := item], room, None).result
  }

  /** `render(:partial('name'), :locals(given), :collection(items), :as('alias'))`, all but the
      first there or not. */
  datatype Asked = Asked(name: string, given: Option<Expression.Node>, items: Option<Expression.Node>, alias: Option<string>)
  {
    function Arguments(): seq<Expression.Node> {
      Argument("partial", Some(Expression.LiteralString(name))) + Argument("locals", given) + Argument("collection", items)
        + Argument("as", if alias.None? then None else Some(Expression.LiteralString(alias.value)))
    }

    function Call(): Expression.Node { Expression.MakeCall(Expression.Name("render"), Arguments()) }

    function Alias(): string { if alias.None? then "item" else alias.value }
  }

  function Argument(key: string, value: Option<Expression.Node>): seq<Expression.Node> {
    if value.None? then [] else [Expression.MakeNamed(key, value.value)]
  }

  lemma {:induction false} NamedConcat(a: seq<Expression.Node>, b: seq<Expression.Node>, key: string)
    ensures Named(a + b, key) == if Named(a, key).Some? then Named(a, key) else Named(b, key)
    decreases a
  {
    if a == [] {
      assert a + b == b;
    } else {
      assert (a + b)[1..] == a[1..] + b;
      NamedConcat(a[1..], b, key);
    }
  }

  lemma NamedOne(key: string, value: Option<Expression.Node>, wanted: string)
    ensures Named(Argument(key, value), wanted) == if key == wanted then value else None
  {
    if value.Some? { assert Argument(key, value)[1..] == []; }
  }

  lemma NamedAsked(asked: Asked, key: string)
    ensures Named(asked.Arguments(), key) ==
              if key == "partial" then Some(Expression.LiteralString(asked.name))
              else if key == "locals" then asked.given
              else if key == "collection" then asked.items
              else if key == "as" && asked.alias.Some? then Some(Expression.LiteralString(asked.alias.value))
              else None
  {
    var partial, given := Argument("partial", Some(Expression.LiteralString(asked.name))), Argument("locals", asked.given);
    var items := Argument("collection", asked.items);
    var name := if asked.alias.None? then None else Some(Expression.LiteralString(asked.alias.value));
    NamedConcat(partial + given + items, Argument("as", name), key);
    NamedConcat(partial + given, items, key);
    NamedConcat(partial, given, key);
    NamedOne("partial", Some(Expression.LiteralString(asked.name)), key);
    NamedOne("locals", asked.given, key);
    NamedOne("collection", asked.items, key);
    NamedOne("as", name, key);
  }

  /** What a call's arguments have for values: its locals, and the items it is to go over. */
  ghost predicate Answers(asked: Asked, given: Locals, items: Option<seq<Value>>, view: View, locals: Locals) {
    && (if asked.given.None? then given == map[] else Evaluate(asked.given.value, view, locals).result == Success(Object(given)))
    && (asked.items.Some? <==> items.Some?)
    && (items.Some? ==> Evaluate(asked.items.value, view, locals).result == Success(List(items.value)))
  }

  lemma RequestMade(asked: Asked, given: Locals, items: Option<seq<Value>>, page: Page, locals: Locals, room: nat)
    requires page.options.Found(asked.name).Some? && room > 0 && Answers(asked, given, items, page.view, locals)
    ensures ReadRequest(asked.Arguments(), page, locals, room).result
         == Success(Request(asked.name, page.options.Found(asked.name).value, given, items, asked.Alias()))
  {
    var root := page.options.Found(asked.name).value;
    NamedAsked(asked, "partial");
    ScopeRead(asked, given, items, root, page.view, locals);
    assert Evaluate(Expression.LiteralString(asked.name), page.view, locals) == Done(String(asked.name));
    hide Named, Evaluate, Asked.Arguments, ReadScope, Answers;
  }

  lemma ScopeRead(asked: Asked, given: Locals, items: Option<seq<Value>>, root: Node, view: View, locals: Locals)
    requires Answers(asked, given, items, view, locals)
    ensures ReadScope(asked.name, root, asked.Arguments(), view, locals).result
         == Success(Request(asked.name, root, given, items, asked.Alias()))
  {
    NamedAsked(asked, "locals");
    NamedAsked(asked, "collection");
    NamedAsked(asked, "as");
    assert asked.alias.Some? ==>
             Evaluate(Expression.LiteralString(asked.alias.value), view, locals) == Done(String(asked.alias.value));
    hide Named, Evaluate, Asked.Arguments;
  }

  lemma PartialCalled(asked: Asked, given: Locals, items: Option<seq<Value>>, page: Page, locals: Locals, room: nat)
    requires page.options.Found(asked.name).Some? && room > 0 && Answers(asked, given, items, page.view, locals)
    ensures var request := Request(asked.name, page.options.Found(asked.name).value, given, items, asked.Alias());
            && IsEngineCall(asked.Call())
            && RenderEngineCall(asked.Call(), page, locals, room, None).result == RenderPartial(request, page, room - 1, None).result
  {
    RequestMade(asked, given, items, page, locals, room);
    var call := asked.Call();
    hide Answers, ReadRequest, RenderPartial, Asked.Arguments;
    assert RenderEngineCall(call, page, locals, room, None) == RenderPartialCall(call, page, locals, room, None);
  }

  /** Such a call writes the partial of that name, with just the locals it is given; or once
      for each item of its collection, in order, with the item among them, called `item` when
      the call does not say. */
  lemma PartialsWrite(asked: Asked, given: Locals, items: Option<seq<Value>>, page: Page, locals: Locals, room: nat)
    returns (texts: seq<string>)
    requires page.options.Found(asked.name).Some? && room > 0 && Answers(asked, given, items, page.view, locals)
    ensures var root := page.options.Found(asked.name).value;
            var r := RenderEngineCall(asked.Call(), page, locals, room, None).result;
            && IsEngineCall(asked.Call())
            && if items.None? then r == RenderChildren(root, 0, page, given, room - 1, None).result
               else
                 && |texts| <= |items.value|
                 && (forall k | 0 <= k < |texts| ::
                       RenderChildren(root, 0, page, given[asked.Alias() := items.value[k]], room - 1, None).result
                         == Success(texts[k]))
                 && if |texts| == |items.value| then r == Success(Concat(texts))
                    else
                      && r.Failure?
                      && r == RenderChildren(root, 0, page, given[asked.Alias() := items.value[|texts|]], room - 1, None).result
  {
    var root := page.options.Found(asked.name).value;
    PartialCalled(asked, given, items, page, locals, room);
    var request := Request(asked.name, root, given, items, asked.Alias());
    hide Answers, RenderEngineCall, RenderChildren, RenderItems, Asked.Call, IsEngineCall;
    texts := [];
    if items.Some? { texts := CollectionWrites(request, items.value, page, given, room - 1); }
  }

  /** What a call that names no partial, or none there is, is refused for; and one with no room
      left to nest in, which there is for 32. */
  lemma PartialsRefused(asked: Asked, page: Page, locals: Locals, room: nat, store: Store)
    ensures var r := RenderEngineCall(asked.Call(), page, locals, room, store).result;
            && IsEngineCall(asked.Call())
            && (page.options.partials.None? ==> r == Failure(NoPartialNamed))
            && (page.options.partials.Some? && page.options.Found(asked.name).None? ==> r == Failure(NoSuchPartial))
            && (page.options.Found(asked.name).Some? && room == 0 ==> r == Failure(PartialsTooDeep))
    ensures var bare := Expression.MakeCall(Expression.Name("render"), []);
            IsEngineCall(bare) && RenderEngineCall(bare, page, locals, room, store).result == Failure(NoPartialNamed)
    ensures MAX_PARTIALS == 32
  {
    NamedAsked(asked, "partial");
    assert Evaluate(Expression.LiteralString(asked.name), page.view, locals) == Done(String(asked.name));
    hide Evaluate, RenderPartial, ReadScope, Asked.Arguments;
    var call, bare := asked.Call(), Expression.MakeCall(Expression.Name("render"), []);
    assert RenderEngineCall(call, page, locals, room, store) == RenderPartialCall(call, page, locals, room, store);
    assert RenderEngineCall(bare, page, locals, room, store) == RenderPartialCall(bare, page, locals, room, store);
  }

  // ------------------------------------------------------------- filters

  /** The text of a filter's body: each child's text as it is, with a break after it. */
  ghost predicate BodyReads(children: seq<Node>, lines: seq<string>, view: View, locals: Locals) {
    |lines| == |children| && forall i | 0 <= i < |children| :: LineReads(children[i].content, lines[i], view, locals)
  }

  ghost predicate LineReads(content: Content, line: string, view: View, locals: Locals) {
    match content
    case Text(parts) => exists pieces :: PartsWrite(parts, pieces, false, view, locals) && line == Concat(pieces)
    case Comment(remark) => line == remark
    case _ => line == ""
  }

  function Broken(lines: seq<string>): string { if lines == [] then "" else lines[0] + ("\n" + Broken(lines[1..])) }

  lemma LineOf(content: Content, view: View, locals: Locals)
    ensures var r := Interpolate(PartsOf(content), false, view, locals).result;
            r.Success? ==> LineReads(content, r.value, view, locals)
  {
    hide PartWrites, Evaluate, Interpolate;
    var pieces := PiecesOf(PartsOf(content), false, view, locals);
    var r := Interpolate(PartsOf(content), false, view, locals).result;
    if r.Success? {
      assert PartsOf(content)[..|pieces|] == PartsOf(content);
      if content.Comment? {
        assert PartWrites(PartsOf(content)[0], pieces[0], false, view, locals);
        RemarkReads(content.remark, pieces[0], view, locals);
        assert pieces == [pieces[0]] && pieces[1..] == [] && Concat(pieces) == pieces[0] + [];
      }
    }
  }

  lemma RemarkReads(remark: string, piece: string, view: View, locals: Locals)
    requires PartWrites(Literal(remark), piece, false, view, locals)
    ensures piece == remark
  {
  }

  lemma {:induction false} FilterLines(children: seq<Node>, view: View, locals: Locals) returns (lines: seq<string>)
    requires FilterBody(children, view, locals).result.Success?
    ensures BodyReads(children, lines, view, locals) && FilterBody(children, view, locals).result == Success(Broken(lines))
    decreases children
  {
    hide Interpolate, LineReads, PartsOf;
    lines := [];
    if children != [] {
      LineOf(children[0].content, view, locals);
      var first := Interpolate(PartsOf(children[0].content), false, view, locals).result;
      var rest := FilterLines(children[1..], view, locals);
      lines := [first.value] + rest;
      assert lines[1..] == rest && first.value + "\n" + Broken(rest) == first.value + ("\n" + Broken(rest));
    }
  }

  /** The four filters: `plain` writes its lines as they are, `escaped` so that a reader takes
      them for that, and `javascript` and `css` inside their tags; no other name is a filter. */
  lemma FilterWrites(node: Node, page: Page, locals: Locals, room: nat, store: Store) returns (lines: seq<string>)
    requires node.content.Filter? && RenderNode(node, page, locals, room, store).result.Success?
    ensures BodyReads(node.children, lines, page.view, locals)
    ensures var text := RenderNode(node, page, locals, room, store).result.value;
            || (node.content.filter == "plain" && text == Broken(lines))
            || (node.content.filter == "escaped" && Shows(text, Broken(lines)))
            || (node.content.filter == "javascript" && text == "<script>\n" + Broken(lines) + "</script>\n")
            || (node.content.filter == "css" && text == "<style>\n" + Broken(lines) + "</style>\n")
  {
    hide FilterBody, BodyReads, Broken;
    lines := FilterLines(node.children, page.view, locals);
    EscapeShows(Broken(lines));
    hide Shows;
  }

  // ------------------------------------------------------------- reading a tag

  /** An attribute as a reader takes it: its name, and its value if it is given one. */
  datatype Field = Field(name: string, value: Option<string>)

  predicate IsNamePart(c: char) { c !in " =\"<>/" }

  function NotQuote(): char -> bool { c => c != '"' }

  /** The attributes at the front of a text, each behind a space, and what follows them. */
  function ReadFields(s: string): (seq<Field>, string)
    decreases |s|
  {
    if |s| < 2 || s[0] != ' ' || !IsNamePart(s[1]) then ([], s)
    else
      var end := RunEnd(s, 1, IsNamePart);
      var name := s[1..end];
      if "=\"" <= s[end..] then
        var close := RunEnd(s, end + 2, NotQuote());
        if close == |s| then ([], s)
        else
          var (more, rest) := ReadFields(s[close + 1..]);
          ([Field(name, Some(Highlight.Undo(s[end + 2..close])))] + more, rest)
      else if end == 1 then ([], s)
      else
        var (more, rest) := ReadFields(s[end..]);
        ([Field(name, None)] + more, rest)
  }

  datatype Tag = Tag(name: string, fields: seq<Field>, rest: string)

  /** The tag a text opens with, and what follows its attributes. */
  function ReadTag(s: string): Option<Tag> {
    if !("<" <= s) then None
    else
      var end := RunEnd(s, 1, IsNamePart);
      var (fields, rest) := ReadFields(s[end..]);
      Some(Tag(s[1..end], fields, rest))
  }

  predicate AllName(name: string) { forall c | c in name :: IsNamePart(c) }

  predicate IsName(name: string) { name != "" && AllName(name) }

  function FieldText(f: Field): string {
    if f.value.None? then " " + f.name else " " + f.name + "=\"" + Escape(f.value.value) + "\""
  }

  function FieldsText(fields: seq<Field>): string {
    if fields == [] then "" else FieldText(fields[0]) + FieldsText(fields[1..])
  }

  /** What may follow attributes: the end of the tag, or the slash that closes it. */
  predicate EndsTag(rest: string) { rest != "" && (rest[0] == '>' || " /" <= rest) }

  lemma {:induction false} RunsTo(s: string, i: nat, end: nat, p: char -> bool)
    requires i <= end <= |s| && (forall k | i <= k < end :: p(s[k])) && (end < |s| ==> !p(s[end]))
    ensures RunEnd(s, i, p) == end
    decreases end - i
  {
    if i < end { RunsTo(s, i + 1, end, p); }
  }

  /** A name, up to what does not go on with it. */
  lemma NameRead(before: string, name: string, after: string)
    requires |before| == 1 && AllName(name) && after != "" && !IsNamePart(after[0])
    ensures var s := before + (name + after);
            && RunEnd(s, 1, IsNamePart) == 1 + |name| && s[1..1 + |name|] == name && s[1 + |name|..] == after
            && (name != "" ==> IsNamePart(s[1]))
  {
    hide IsNamePart;
    var s := before + (name + after);
    forall k | 1 <= k < 1 + |name| ensures IsNamePart(s[k]) { assert s[k] == name[k - 1] && name[k - 1] in name; }
    if name != "" { assert s[1] == name[0] && name[0] in name; }
    assert s[1 + |name|] == after[0];
    RunsTo(s, 1, 1 + |name|, IsNamePart);
  }

  lemma PieceAt(s: string, at: nat, piece: string, after: string)
    requires at <= |s| && s[at..] == "=\"" + (piece + ("\"" + after))
    ensures var close := at + 2 + |piece|;
            && "=\"" <= s[at..] && close < |s| && s[at + 2..close] == piece && s[close] == '"' && s[close + 1..] == after
  {
    var tail, n := s[at..], |piece|;
    var rest := piece + ("\"" + after);
    assert tail[..2] == "=\"" && tail[2..] == rest;
    assert rest[..n] == piece && rest[n] == '"' && rest[n + 1..] == after;
    assert s[at + 2..] == tail[2..];
    assert s[at + 2..at + 2 + n] == rest[..n] && s[at + 2 + n] == rest[n] && s[at + 2 + n + 1..] == rest[n + 1..];
  }

  lemma ValueRead(s: string, at: nat, value: string, after: string)
    requires at <= |s| && s[at..] == "=\"" + (Escape(value) + ("\"" + after))
    ensures "=\"" <= s[at..]
    ensures var close := at + 2 + |Escape(value)|;
            && close < |s| && RunEnd(s, at + 2, NotQuote()) == close
            && Highlight.Undo(s[at + 2..close]) == value && s[close + 1..] == after
  {
    EscapeShows(value);
    var piece := Escape(value);
    var close := at + 2 + |piece|;
    hide Escape;
    PieceAt(s, at, piece, after);
    forall k | at + 2 <= k < close ensures s[k] != '"' { assert s[k] == s[at + 2..close][k - (at + 2)] && s[k] in piece; }
    RunsTo(s, at + 2, close, NotQuote());
  }

  lemma {:induction false} FieldsRead(fields: seq<Field>, rest: string)
    requires (forall f | f in fields :: IsName(f.name)) && EndsTag(rest)
    ensures ReadFields(FieldsText(fields) + rest) == (fields, rest)
    decreases fields
  {
    hide IsName, ReadFields, FieldText;
    if fields == [] {
      assert FieldsText(fields) + rest == rest;
      NoFields(rest);
    } else {
      var f, more := fields[0], FieldsText(fields[1..]) + rest;
      assert f in fields && forall g | g in fields[1..] :: g in fields;
      FieldsRead(fields[1..], rest);
      assert FieldsText(fields) + rest == FieldText(f) + more;
      MoreStarts(fields[1..], rest);
      FieldRead(f, more);
      assert fields == [f] + fields[1..];
    }
  }

  lemma NoFields(rest: string)
    requires EndsTag(rest)
    ensures ReadFields(rest) == ([], rest)
  {
  }

  lemma MoreStarts(fields: seq<Field>, rest: string)
    requires EndsTag(rest)
    ensures var more := FieldsText(fields) + rest; more != "" && !IsNamePart(more[0]) && more[0] != '='
  {
    if fields == [] { assert FieldsText(fields) + rest == rest; }
  }

  lemma FieldRead(f: Field, more: string)
    requires IsName(f.name) && more != "" && !IsNamePart(more[0]) && more[0] != '='
    ensures ReadFields(FieldText(f) + more) == ([f] + ReadFields(more).0, ReadFields(more).1)
  {
    hide ReadFields, RunEnd, IsNamePart, IsName, Escape;
    var s, end := FieldText(f) + more, 1 + |f.name|;
    if f.value.None? {
      assert s == " " + (f.name + more);
      NameThere(f.name);
      NameRead(" ", f.name, more);
      BareFieldRead(s, end, more);
    } else {
      ValuedText(f, more);
      ValuedRead(f, more, s);
    }
  }

  lemma NameThere(name: string)
    requires IsName(name)
    ensures name != "" && AllName(name)
  {
  }

  lemma ValuedText(f: Field, more: string)
    requires f.value.Some?
    ensures FieldText(f) + more == " " + (f.name + ("=\"" + (Escape(f.value.value) + ("\"" + more))))
  {
    hide Escape;
    var piece := Escape(f.value.value);
    assert " " + f.name + "=\"" + piece + "\"" + more == " " + (f.name + ("=\"" + (piece + ("\"" + more))));
  }

  lemma ValuedRead(f: Field, more: string, s: string)
    requires IsName(f.name) && f.value.Some? && s == " " + (f.name + ("=\"" + (Escape(f.value.value) + ("\"" + more))))
    ensures ReadFields(s) == ([f] + ReadFields(more).0, ReadFields(more).1)
  {
    hide ReadFields, RunEnd, IsName, Escape;
    var end, after := 1 + |f.name|, "=\"" + (Escape(f.value.value) + ("\"" + more));
    assert after[0] == '=';
    NameThere(f.name);
    NameRead(" ", f.name, after);
    ValueRead(s, end, f.value.value, more);
    ValuedFieldRead(s, end, end + 2 + |Escape(f.value.value)|, more);
  }

  lemma BareFieldRead(s: string, end: nat, more: string)
    requires |s| >= 2 && s[0] == ' ' && IsNamePart(s[1]) && RunEnd(s, 1, IsNamePart) == end && 1 < end <= |s|
    requires s[end..] == more && !("=\"" <= more)
    ensures ReadFields(s) == ([Field(s[1..end], None)] + ReadFields(more).0, ReadFields(more).1)
  {
    hide RunEnd, IsNamePart;
  }

  lemma ValuedFieldRead(s: string, end: nat, close: nat, more: string)
    requires |s| >= 2 && s[0] == ' ' && IsNamePart(s[1]) && RunEnd(s, 1, IsNamePart) == end && 1 < end && end + 2 <= close < |s|
    requires "=\"" <= s[end..] && RunEnd(s, end + 2, NotQuote()) == close && s[close + 1..] == more
    ensures ReadFields(s)
         == ([Field(s[1..end], Some(Highlight.Undo(s[end + 2..close])))] + ReadFields(more).0, ReadFields(more).1)
  {
    hide RunEnd, IsNamePart;
  }

  // ------------------------------------------------------------- elements

  /** What each attribute that is given a value has it written as. */
  ghost predicate ValuesRead(attributes: seq<Attribute>, texts: seq<string>, view: View, locals: Locals) {
    && |texts| == |attributes|
    && forall i | 0 <= i < |attributes| && !attributes[i].shorthand :: ValueReads(attributes[i].value, texts[i], view, locals)
  }

  ghost predicate ValueReads(value: seq<Segment>, text: string, view: View, locals: Locals) {
    exists pieces :: PartsWrite(value, pieces, false, view, locals) && text == Concat(pieces)
  }

  predicate GivesValue(a: Attribute, name: string) { a.name == name && !a.shorthand }

  /** The id: the last one given a value, or else the one written with a `#`. */
  function IdGiven(attributes: seq<Attribute>, texts: seq<string>, id: string): string
    requires |texts| == |attributes|
  {
    if attributes == [] then id
    else
      var n := |attributes| - 1;
      if GivesValue(attributes[n], "id") then texts[n] else IdGiven(attributes[..n], texts[..n], id)
  }

  /** The classes given as values, those that are not empty. */
  function ClassesGiven(attributes: seq<Attribute>, texts: seq<string>): seq<string>
    requires |texts| == |attributes|
  {
    if attributes == [] then []
    else
      (if GivesValue(attributes[0], "class") && texts[0] != "" then [texts[0]] else []) + ClassesGiven(attributes[1..], texts[1..])
  }

  /** Words with a space between each two. */
  function Spaced(words: seq<string>): string {
    if words == [] then "" else if |words| == 1 then words[0] else words[0] + " " + Spaced(words[1..])
  }

  /** How the other attributes show: as a name alone, or with its value, or not at all. A value
      that is one expression shows as a name alone when it is true, and not when it is false or
      null. */
  function OthersShown(attributes: seq<Attribute>, texts: seq<string>, view: View, locals: Locals): seq<Field>
    requires |texts| == |attributes|
  {
    if attributes == [] then []
    else OtherShown(attributes[0], texts[0], view, locals) + OthersShown(attributes[1..], texts[1..], view, locals)
  }

  function OtherShown(a: Attribute, text: string, view: View, locals: Locals): seq<Field> {
    if a.name == "class" || a.name == "id" then []
    else if a.shorthand then [Field(a.name, None)]
    else if |a.value| == 1 && a.value[0].Hole? then
      match Evaluate(a.value[0].value, view, locals).result
      case Success(Boolean(true)) => [Field(a.name, None)]
      case Success(Boolean(false)) => []
      case Success(Null) => []
      case _ => [Field(a.name, Some(text))]
    else [Field(a.name, Some(text))]
  }

  function Shown(name: string, value: string): seq<Field> { if value == "" then [] else [Field(name, Some(value))] }

  /** Everything an element shows: its id, its classes, and its other attributes in order. */
  function FieldsShown(content: Content, texts: seq<string>, view: View, locals: Locals): seq<Field>
    requires content.Element? && |texts| == |content.attributes|
  {
    Shown("id", IdGiven(content.attributes, texts, content.id))
      + Shown("class", Spaced(content.classes + ClassesGiven(content.attributes, texts)))
      + OthersShown(content.attributes, texts, view, locals)
  }

  predicate NoEmptyClass(content: Content)
    requires content.Element?
  {
    forall c | c in content.classes :: c != ""
  }

  /** Names a template can have, as its parser reads them. */
  predicate WellNamed(content: Content)
    requires content.Element?
  {
    && AllName(content.tag) && NoEmptyClass(content)
    && forall a | a in content.attributes :: IsName(a.name)
  }

  // The tag as it is written, and then as it is read.

  lemma TextOfValue(value: seq<Segment>, view: View, locals: Locals)
    ensures var r := Interpolate(value, false, view, locals).result;
            r.Success? ==> ValueReads(value, r.value, view, locals)
  {
    hide PartWrites, Evaluate, Interpolate;
    var pieces := PiecesOf(value, false, view, locals);
    if Interpolate(value, false, view, locals).result.Success? { assert value[..|pieces|] == value; }
  }

  /** The text of each value, where the walk over the attributes succeeds. */
  ghost predicate TextsAre(attributes: seq<Attribute>, texts: seq<string>, view: View, locals: Locals) {
    && |texts| == |attributes|
    && forall i | 0 <= i < |attributes| && !attributes[i].shorthand ::
         Interpolate(attributes[i].value, false, view, locals).result == Success(texts[i])
  }

  lemma {:induction false} MarksGathered(attributes: seq<Attribute>, marks: Marks, view: View, locals: Locals)
    returns (texts: seq<string>)
    requires GatherMarks(attributes, marks, view, locals).result.Success?
    ensures TextsAre(attributes, texts, view, locals)
    ensures GatherMarks(attributes, marks, view, locals).result.value
         == Marks(JoinClasses(marks.classes, ClassesGiven(attributes, texts)), IdGiven(attributes, texts, marks.id))
    decreases attributes
  {
    hide Interpolate, Owns, JoinClass;
    texts := [];
    if attributes != [] {
      var a, more := attributes[0], attributes[1..];
      var text := if a.shorthand then "" else Interpolate(a.value, false, view, locals).result.value;
      var next := if a.shorthand then marks else Mark(marks, a.name, text);
      var rest := MarksGathered(more, next, view, locals);
      texts := [text] + rest;
      assert texts[1..] == rest;
      IdFromFront(attributes, texts, marks.id);
      JoinsFirst(a, text, more, rest, marks.classes);
    }
  }

  lemma {:induction false} IdFromFront(attributes: seq<Attribute>, texts: seq<string>, id: string)
    requires |texts| == |attributes| && attributes != []
    ensures IdGiven(attributes, texts, id)
         == IdGiven(attributes[1..], texts[1..], if GivesValue(attributes[0], "id") then texts[0] else id)
    decreases |attributes|
  {
    var n := |attributes| - 1;
    if n > 0 {
      assert attributes[1..][n - 1] == attributes[n] && texts[1..][n - 1] == texts[n];
      assert attributes[1..][..n - 1] == attributes[..n][1..] && texts[1..][..n - 1] == texts[..n][1..];
      if !GivesValue(attributes[n], "id") { IdFromFront(attributes[..n], texts[..n], id); }
    }
  }

  lemma JoinsFirst(a: Attribute, text: string, more: seq<Attribute>, rest: seq<string>, classes: string)
    requires |rest| == |more|
    ensures JoinClasses(classes, ClassesGiven([a] + more, [text] + rest))
         == JoinClasses(if GivesValue(a, "class") && text != "" then JoinClass(classes, text) else classes, ClassesGiven(more, rest))
  {
    assert ([a] + more)[1..] == more && ([text] + rest)[1..] == rest;
    var given := ClassesGiven(more, rest);
    if GivesValue(a, "class") && text != "" {
      assert ([text] + given)[1..] == given;
    } else {
      assert [] + given == given;
    }
  }

  lemma {:induction false} ClassesSpaced(sofar: string, names: seq<string>)
    requires forall n | n in names :: n != ""
    ensures JoinClasses(sofar, names) ==
              if sofar == "" then Spaced(names) else if names == [] then sofar else sofar + " " + Spaced(names)
    decreases names
  {
    if names != [] {
      assert names[0] in names && forall n | n in names[1..] :: n in names;
      var next := JoinClass(sofar, names[0]);
      ClassesSpaced(next, names[1..]);
      if |names| > 1 && sofar != "" {
        assert sofar + " " + names[0] + " " + Spaced(names[1..]) == sofar + " " + (names[0] + " " + Spaced(names[1..]));
      }
    }
  }

  lemma {:induction false} ClassesJoined(sofar: string, a: seq<string>, b: seq<string>)
    ensures JoinClasses(JoinClasses(sofar, a), b) == JoinClasses(sofar, a + b)
    decreases a
  {
    if a == [] {
      assert a + b == b;
    } else {
      assert (a + b)[1..] == a[1..] + b;
      ClassesJoined(JoinClass(sofar, a[0]), a[1..], b);
    }
  }

  lemma {:induction false} ClassesThere(attributes: seq<Attribute>, texts: seq<string>)
    requires |texts| == |attributes|
    ensures forall n | n in ClassesGiven(attributes, texts) :: n != ""
    decreases attributes
  {
    if attributes != [] { ClassesThere(attributes[1..], texts[1..]); }
  }

  lemma MarksShown(marks: Marks)
    ensures MarksText(marks) == FieldsText(Shown("id", marks.id) + Shown("class", marks.classes))
  {
    MarkShown("id", marks.id);
    MarkShown("class", marks.classes);
    FieldsConcat(Shown("id", marks.id), Shown("class", marks.classes));
    hide FieldsText, Shown, Escape;
    assert " id=\"" == " " + "id" + "=\"" && " class=\"" == " " + "class" + "=\"";
  }

  lemma MarkShown(name: string, value: string)
    ensures FieldsText(Shown(name, value)) == if value == "" then "" else " " + name + "=\"" + Escape(value) + "\""
  {
    hide Escape;
    if value != "" { OneField(Field(name, Some(value))); }
  }

  lemma OneField(f: Field)
    ensures FieldsText([f]) == FieldText(f)
  {
    hide FieldText;
    assert [f][1..] == [] && FieldText(f) + "" == FieldText(f);
  }

  lemma {:induction false} FieldsConcat(a: seq<Field>, b: seq<Field>)
    ensures FieldsText(a + b) == FieldsText(a) + FieldsText(b)
    decreases a
  {
    hide FieldText;
    if a == [] {
      assert a + b == b && FieldsText(a) + FieldsText(b) == FieldsText(b);
    } else {
      assert (a + b)[1..] == a[1..] + b;
      FieldsConcat(a[1..], b);
      assert FieldText(a[0]) + (FieldsText(a[1..]) + FieldsText(b)) == (FieldText(a[0]) + FieldsText(a[1..])) + FieldsText(b);
    }
  }

  lemma {:induction false} OthersWritten(attributes: seq<Attribute>, texts: seq<string>, view: View, locals: Locals)
    requires TextsAre(attributes, texts, view, locals) && AttributesText(attributes, view, locals).result.Success?
    ensures AttributesText(attributes, view, locals).result.value == FieldsText(OthersShown(attributes, texts, view, locals))
    decreases attributes
  {
    hide AttributeText, Interpolate, FieldText, OtherShown;
    if attributes != [] {
      OtherWritten(attributes[0], texts[0], view, locals);
      OthersWritten(attributes[1..], texts[1..], view, locals);
      FieldsConcat(OtherShown(attributes[0], texts[0], view, locals), OthersShown(attributes[1..], texts[1..], view, locals));
    }
  }

  lemma OtherWritten(a: Attribute, text: string, view: View, locals: Locals)
    requires !a.shorthand ==> Interpolate(a.value, false, view, locals).result == Success(text)
    requires AttributeText(a, view, locals).result.Success?
    ensures AttributeText(a, view, locals).result.value == FieldsText(OtherShown(a, text, view, locals))
  {
    hide Interpolate, Escape, Evaluate;
    var fields := OtherShown(a, text, view, locals);
    if fields != [] { assert fields[1..] == [] && FieldText(fields[0]) + "" == FieldText(fields[0]); }
  }

  /** The start of an element, whatever its attributes are called: its tag, its id if it has one,
      its classes if it has any, and its other attributes with their values escaped. */
  lemma TagWritten(content: Content, view: View, locals: Locals) returns (texts: seq<string>)
    requires content.Element? && NoEmptyClass(content) && OpenTag(content, view, locals).result.Success?
    ensures ValuesRead(content.attributes, texts, view, locals)
    ensures OpenTag(content, view, locals).result.value
         == "<" + content.tag + FieldsText(FieldsShown(content, texts, view, locals))
  {
    hide GatherMarks, AttributesText, Interpolate, ValueReads, MarksText, FieldsText, Shown, Escape;
    var start := Marks(JoinClasses("", content.classes), content.id);
    var marks := GatherMarks(content.attributes, start, view, locals).result.value;
    texts := MarksGathered(content.attributes, start, view, locals);
    forall i | 0 <= i < |texts| && !content.attributes[i].shorthand
      ensures ValueReads(content.attributes[i].value, texts[i], view, locals)
    {
      TextOfValue(content.attributes[i].value, view, locals);
    }
    OthersWritten(content.attributes, texts, view, locals);
    var given := ClassesGiven(content.attributes, texts);
    ClassesJoined("", content.classes, given);
    ClassesThere(content.attributes, texts);
    ClassesSpaced("", content.classes + given);
    MarksShown(marks);
    var others := OthersShown(content.attributes, texts, view, locals);
    FieldsConcat(Shown("id", marks.id) + Shown("class", marks.classes), others);
    assert "<" + content.tag + MarksText(marks) + FieldsText(others)
        == "<" + content.tag + (MarksText(marks) + FieldsText(others));
  }

  lemma {:induction false} OthersNamed(attributes: seq<Attribute>, texts: seq<string>, view: View, locals: Locals)
    requires |texts| == |attributes| && forall a | a in attributes :: IsName(a.name)
    ensures forall f | f in OthersShown(attributes, texts, view, locals) :: IsName(f.name)
    decreases attributes
  {
    hide IsName, Evaluate;
    if attributes != [] {
      assert attributes[0] in attributes && forall a | a in attributes[1..] :: a in attributes;
      OthersNamed(attributes[1..], texts[1..], view, locals);
    }
  }

  lemma ShownNamed(content: Content, texts: seq<string>, view: View, locals: Locals)
    requires content.Element? && WellNamed(content) && |texts| == |content.attributes|
    ensures forall f | f in FieldsShown(content, texts, view, locals) :: IsName(f.name)
  {
    OthersNamed(content.attributes, texts, view, locals);
    assert IsName("id") && IsName("class");
    hide IsName, OthersShown, IdGiven, ClassesGiven, Spaced;
  }

  lemma TagReads(content: Content, texts: seq<string>, view: View, locals: Locals, rest: string)
    requires content.Element? && WellNamed(content) && |texts| == |content.attributes| && EndsTag(rest)
    ensures var fields := FieldsShown(content, texts, view, locals);
            ReadTag("<" + content.tag + FieldsText(fields) + rest) == Some(Tag(content.tag, fields, rest))
  {
    hide FieldsShown, ReadTag, ReadFields, FieldsText, IsName, IsNamePart, EndsTag;
    var fields := FieldsShown(content, texts, view, locals);
    ShownNamed(content, texts, view, locals);
    FieldsRead(fields, rest);
    MoreStarts(fields, rest);
    TagTaken(content.tag, FieldsText(fields) + rest);
    assert "<" + content.tag + FieldsText(fields) + rest == "<" + (content.tag + (FieldsText(fields) + rest));
  }

  lemma TagTaken(name: string, after: string)
    requires AllName(name) && after != "" && !IsNamePart(after[0])
    ensures ReadTag("<" + (name + after)) == Some(Tag(name, ReadFields(after).0, ReadFields(after).1))
  {
    hide AllName, IsNamePart, RunEnd, ReadFields;
    NameRead("<", name, after);
  }

  /** The elements that HTML gives no closing tag. */
  const HTML_VOID := ["area", "base", "br", "col", "embed", "hr", "img", "input", "link", "meta", "param", "source",
                      "track", "wbr"]

  /** The child is on its tag's line, or the tag keeps its whitespace. */
  predicate OnItsLine(node: Node)
    requires node.content.Element?
  {
    || node.content.keepsWhitespace
    || (|node.children| == 1 && (node.children[0].content.Text? || node.children[0].content.Output?))
  }

  /** A text without the one break it may end in. */
  ghost predicate Cut(inner: string, body: string) {
    inner == body + "\n" || (inner == body && (body == "" || body[|body| - 1] != '\n'))
  }

  /** What comes after an element's attributes. */
  ghost predicate Ends(node: Node, rest: string, page: Page, locals: Locals, room: nat, store: Store)
    requires node.content.Element?
  {
    var content := node.content;
    if content.selfClosing || content.tag in HTML_VOID then rest == " />\n"
    else if node.children == [] then rest == "></" + content.tag + ">\n"
    else
      var inner := RenderChildren(node, 0, page, locals, room, store).result;
      inner.Success?
      && exists body ::
           && (if OnItsLine(node) then Cut(inner.value, body) else body == "\n" + inner.value)
           && rest == ">" + body + "</" + content.tag + ">\n"
  }

  lemma ElementEnds(node: Node, tag: string, page: Page, locals: Locals, room: nat, store: Store) returns (rest: string)
    requires node.content.Element? && OpenTag(node.content, page.view, locals).result == Success(tag)
    requires RenderElement(node, page, locals, room, store).result.Success?
    ensures RenderElement(node, page, locals, room, store).result == Success(tag + rest)
    ensures EndsTag(rest) && Ends(node, rest, page, locals, room, store)
  {
    hide OpenTag, RenderChildren;
    var content := node.content;
    if content.selfClosing || content.tag in HTML_VOID {
      rest := " />\n";
    } else if node.children == [] {
      rest := "></" + content.tag + ">\n";
      assert tag + ">" + ("</" + content.tag + ">\n") == tag + rest;
    } else {
      var inner := RenderChildren(node, 0, page, locals, room, store).result.value;
      var body := if OnItsLine(node) then Trimmed(true, inner) else "\n" + inner;
      assert RenderChildren(node, 0, page, locals, room, store).result == Success(inner);
      Cutting(inner);
      rest := ">" + body + "</" + content.tag + ">\n";
      BodyWritten(tag, OnItsLine(node), inner, content.tag);
      hide Trimmed;
      assert if OnItsLine(node) then Cut(inner, body) else body == "\n" + inner;
    }
  }

  /** What an element writes is read as its tag, with its id, its classes and its attributes as
      their values read; then as nothing more but a slash, for one that closes itself; or as
      what its children write, and the tag closed. */
  lemma ElementWrites(node: Node, page: Page, locals: Locals, room: nat, store: Store) returns (texts: seq<string>, rest: string)
    requires node.content.Element? && WellNamed(node.content) && RenderNode(node, page, locals, room, store).result.Success?
    ensures ValuesRead(node.content.attributes, texts, page.view, locals)
    ensures ReadTag(RenderNode(node, page, locals, room, store).result.value)
         == Some(Tag(node.content.tag, FieldsShown(node.content, texts, page.view, locals), rest))
    ensures Ends(node, rest, page, locals, room, store)
  {
    var content := node.content;
    assert RenderNode(node, page, locals, room, store) == RenderElement(node, page, locals, room, store);
    hide RenderNode, OpenTag, FieldsShown, ReadTag, WellNamed, ValueReads, Ends, EndsTag;
    TagOpens(node, page, locals, room, store);
    texts := TagWritten(content, page.view, locals);
    rest := ElementEnds(node, OpenTag(content, page.view, locals).result.value, page, locals, room, store);
    TagReads(content, texts, page.view, locals, rest);
  }

  lemma TagOpens(node: Node, page: Page, locals: Locals, room: nat, store: Store)
    requires node.content.Element? && RenderElement(node, page, locals, room, store).result.Success?
    ensures OpenTag(node.content, page.view, locals).result.Success?
  {
    hide OpenTag, RenderChildren;
  }

  lemma Cutting(inner: string)
    ensures Cut(inner, Trimmed(true, inner))
  {
    if inner != "" { assert inner == inner[..|inner| - 1] + [inner[|inner| - 1]]; }
  }

  lemma BodyWritten(tag: string, inline: bool, inner: string, name: string)
    ensures tag + ">" + (if inline then "" else "\n") + Trimmed(inline, inner) + ("</" + name + ">\n")
         == tag + (">" + (if inline then Trimmed(true, inner) else "\n" + inner) + "</" + name + ">\n")
  {
    var body := if inline then Trimmed(true, inner) else "\n" + inner;
    assert tag + ">" + (if inline then "" else "\n") + Trimmed(inline, inner) == tag + ">" + body by {
      hide Trimmed;
      if inline { assert tag + ">" + "" == tag + ">"; } else { assert Trimmed(false, inner) == inner by { Untrimmed(inner); } }
    }
    Joined(tag, body, name);
  }

  lemma Untrimmed(inner: string)
    ensures Trimmed(false, inner) == inner
  {
  }

  lemma Joined(tag: string, body: string, name: string)
    ensures tag + ">" + body + ("</" + name + ">\n") == tag + (">" + body + "</" + name + ">\n")
  {
  }
}

/** The renderer itself (src/blogin/haml_render.cpp): the object that writes the page,
    step by step the same as the functions of `Render`, with the context's locals and its
    own depth put back on every way out. */
module Renderers {
  import opened Strings
  import opened Values
  import opened ViewContexts
  import opened Evaluation
  import opened Template
  import opened Render
  import Expression

  /** The fragment cache pages share (src/blogin/template_store.cpp). */
  class FragmentStore {
    var cache: Cache

    constructor ()
      ensures cache == Cache(map[], map[], 0)
    {
      cache := Cache(map[], map[], 0);
    }

    function Find(key: Key): Option<string>
      reads this
    {
      if key in cache.entries then Some(cache.entries[key]) else None
    }

    function ReadsOf(site: Expression.Node): Option<seq<string>>
      reads this
    {
      if site in cache.names then Some(cache.names[site]) else None
    }

    method Keep(key: Key, html: string)
      modifies this
      ensures cache == old(cache).Store(key, html)
    {
      if key !in cache.entries { cache := cache.(entries := cache.entries[key := html]); }
    }

    method RememberReads(site: Expression.Node, names: seq<string>)
      modifies this
      ensures cache == old(cache).Remember(site, names)
    {
      if site !in cache.names { cache := cache.(names := cache.names[site := names]); }
    }

    method NoteRender()
      modifies this
      ensures cache == old(cache).NoteRender()
    {
      cache := cache.(renders := cache.renders + 1);
    }
  }

  lemma FollowFollow(a: string, e: seq<Event>, b: string, f: seq<Event>, next: Rendered<string>)
    ensures Follow(a, e, Follow(b, f, next)) == Follow(a + b, e + f, next)
  {
    assert e + (f + next.events) == (e + f) + next.events;
    if next.result.Success? { assert a + (b + next.result.value) == (a + b) + next.result.value; }
  }

  lemma FollowNothing(next: Rendered<string>)
    ensures Follow("", [], next) == next
  {
    assert [] + next.events == next.events;
    if next.result.Success? { assert "" + next.result.value == next.result.value; }
  }

  lemma FollowChainAgain(a: string, e: seq<Event>, b: string, f: seq<Event>, rest: Rendered<Chain>)
    ensures FollowChain(a, e, FollowChain(b, f, rest)) == FollowChain(a + b, e + f, rest)
  {
    assert e + (f + rest.events) == (e + f) + rest.events;
    if rest.result.Success? { assert a + (b + rest.result.value.text) == (a + b) + rest.result.value.text; }
  }

  /** `next`, after a step that gave `text`. */
  function Adding(text: string, events: seq<Event>, next: Evaluated<string>): Evaluated<string> {
    Evaluated(if next.result.Failure? then next.result else Success(text + next.result.value), events + next.events)
  }

  lemma AddingAgain(a: string, e: seq<Event>, b: string, f: seq<Event>, next: Evaluated<string>)
    ensures Adding(a, e, Adding(b, f, next)) == Adding(a + b, e + f, next)
  {
    assert e + (f + next.events) == (e + f) + next.events;
    if next.result.Success? { assert a + (b + next.result.value) == (a + b) + next.result.value; }
  }

  lemma AddingNothing(next: Evaluated<string>)
    ensures Adding("", [], next) == next
  {
    assert [] + next.events == next.events;
    if next.result.Success? { assert "" + next.result.value == next.result.value; }
  }

  class Renderer {
    const context: ViewContext
    const options: Options
    const fragments: FragmentStore?
    var out: string
    var depth: nat

    constructor (context: ViewContext, options: Options, fragments: FragmentStore?, depth: nat)
      requires depth <= MAX_PARTIALS
      ensures this.context == context && this.options == options && this.fragments == fragments
      ensures out == "" && this.depth == depth
    {
      this.context, this.options, this.fragments := context, options, fragments;
      out := "";
      this.depth := depth;
    }

    ghost function Shared(): set<object> { if fragments == null then {} else {fragments} }

    ghost function Store(): Store
      reads Shared()
    {
      if fragments == null then None else Some(fragments.cache)
    }

    function Page(): Page { Render.Page(context.view, options) }

    ghost function Room(): nat
      reads this
    {
      if depth <= MAX_PARTIALS then MAX_PARTIALS - depth else 0
    }

    /** The state a step leaves, by what its specification read and stored. */
    twostate predicate Leaves<T>(new spec: Rendered<T>)
      reads this, context, Shared()
    {
      && context.locals == old(context.locals) && depth == old(depth)
      && context.recordings == FoldAll(old(context.recordings), spec.events)
      && Store() == spec.store
    }

    /** What a step that writes to the page returns, and what it wrote. */
    twostate predicate Writes(new r: Result<()>, new spec: Rendered<string>)
      reads this
    {
      if spec.result.Failure? then r == Failure(spec.result.problem)
      else r == Success(()) && out == old(out) + spec.result.value
    }

    // ---------------------------------------------------------- values and text

    method Value(n: Expression.Node) returns (r: Result<Value>)
      modifies context`recordings
      ensures var spec := Evaluate(n, context.view, context.locals);
              r == spec.result && context.recordings == FoldAll(old(context.recordings), spec.events)
    {
      r := Run(n, context, n.TrueHeight());
    }

    /** The condition of a branch that is asked. */
    method Decide(branch: Node) returns (r: Result<bool>)
      requires branch.content.Control?
      modifies context`recordings
      ensures var spec := BranchTaken(branch, context.view, context.locals);
              r == spec.result && context.recordings == FoldAll(old(context.recordings), spec.events)
    {
      FoldAllNothing(context.recordings);
      if branch.content.control.Else? { return Success(true); }
      if branch.content.condition.None? { return Failure(Unsupported); }
      var value := Value(branch.content.condition.value);
      if value.Failure? { return Failure(value.problem); }
      var truth := value.value.Truthy();
      return Success(if branch.content.control.Unless? then !truth else truth);
    }

    method InterpolateParts(parts: seq<Segment>, escapeHoles: bool) returns (r: Result<string>)
      modifies context`recordings
      ensures var spec := Interpolate(parts, escapeHoles, context.view, context.locals);
              r == spec.result && context.recordings == FoldAll(old(context.recordings), spec.events)
    {
      hide Evaluate, FoldAll, Owns;
      ghost var view, locals := context.view, context.locals;
      ghost var spec := Interpolate(parts, escapeHoles, view, locals);
      var text := "";
      ghost var done: seq<Event> := [];
      var i := 0;
      FoldAllNothing(context.recordings);
      AddingNothing(spec);
      assert parts[0..] == parts;
      while i < |parts|
        invariant 0 <= i <= |parts|
        invariant spec == Adding(text, done, Interpolate(parts[i..], escapeHoles, view, locals))
        invariant context.recordings == FoldAll(old(context.recordings), done)
      {
        assert parts[i..][0] == parts[i] && parts[i..][1..] == parts[i + 1..];
        ghost var rest := Interpolate(parts[i + 1..], escapeHoles, view, locals);
        match parts[i] {
          case Literal(literal) =>
            AddingAgain(text, done, literal, [], rest);
            assert Interpolate(parts[i..], escapeHoles, view, locals) == Adding(literal, [], rest);
            assert done + [] == done;
            text := text + literal;
          case Hole(hole) =>
            ghost var before := context.recordings;
            ghost var read := Evaluate(hole, view, locals).events;
            var value := Value(hole);
            FoldAllConcat(old(context.recordings), done, read);
            if value.Failure? { return Failure(value.problem); }
            var piece := ToText(value.value, context.view);
            piece := if escapeHoles then Escape(piece) else piece;
            AddingAgain(text, done, piece, read, rest);
            assert Interpolate(parts[i..], escapeHoles, view, locals) == Adding(piece, read, rest);
            text := text + piece;
            done := done + read;
        }
        i := i + 1;
      }
      assert Adding(text, done, Done("")) == Evaluated(Success(text), done) by {
        assert text + "" == text && done + [] == done;
      }
      return Success(text);
    }

    // ---------------------------------------------------------------- the walk

    method RenderChildren(parent: Node) returns (r: Result<()>)
      requires depth <= MAX_PARTIALS
      modifies this, context, Shared()
      ensures var spec := Render.RenderChildren(parent, 0, Page(), old(context.locals), old(Room()), old(Store()));
              Leaves(spec) && Writes(r, spec)
      decreases Room(), 1, parent, 1, |parent.children|, 2
    {
      hide Render.RenderChildren, RenderChain, Render.RenderNode, FoldAll;
      ghost var page, locals, room := Page(), context.locals, Room();
      ghost var spec := Render.RenderChildren(parent, 0, page, locals, room, Store());
      ghost var text := "";
      ghost var done: seq<Event> := [];
      var index := 0;
      FoldAllNothing(context.recordings);
      FollowNothing(spec);
      assert out + "" == out;
      while index < |parent.children|
        invariant 0 <= index <= |parent.children|
        invariant context.locals == locals && depth == old(depth)
        invariant spec == Follow(text, done, Render.RenderChildren(parent, index, page, locals, room, Store()))
        invariant context.recordings == FoldAll(old(context.recordings), done)
        invariant out == old(out) + text
      {
        ghost var store := Store();
        if parent.children[index].IsHead() {
          ghost var chain := RenderChain(parent, index, false, page, locals, room, store);
          ChildrenChain(parent, index, page, locals, room, store);
          FoldAllConcat(old(context.recordings), done, chain.events);
          var consumed := RenderConditional(parent, index);
          if consumed.Failure? { return Failure(consumed.problem); }
          assert old(out) + text + chain.result.value.text == old(out) + (text + chain.result.value.text);
          FollowFollow(text, done, chain.result.value.text, chain.events,
                       Render.RenderChildren(parent, consumed.value, page, locals, room, Store()));
          text := text + chain.result.value.text;
          done := done + chain.events;
          index := consumed.value;
        } else {
          ghost var child := Render.RenderNode(parent.children[index], page, locals, room, store);
          ChildrenNode(parent, index, page, locals, room, store);
          FoldAllConcat(old(context.recordings), done, child.events);
          r := RenderNode(parent.children[index]);
          if r.Failure? { return; }
          assert old(out) + text + child.result.value == old(out) + (text + child.result.value);
          FollowFollow(text, done, child.result.value, child.events,
                       Render.RenderChildren(parent, index + 1, page, locals, room, Store()));
          text := text + child.result.value;
          done := done + child.events;
          index := index + 1;
        }
      }
      ChildrenEnd(parent, page, locals, room, Store());
      assert text + "" == text && done + [] == done;
      return Success(());
    }

    method RenderConditional(parent: Node, start: nat) returns (r: Result<nat>)
      requires depth <= MAX_PARTIALS
      requires start < |parent.children| && parent.children[start].IsHead()
      modifies this, context, Shared()
      ensures var spec := RenderChain(parent, start, false, Page(), old(context.locals), old(Room()), old(Store()));
              && Leaves(spec)
              && if spec.result.Failure? then r == Failure(spec.result.problem)
                 else r == Success(spec.result.value.next) && out == old(out) + spec.result.value.text
      decreases Room(), 1, parent, 1, |parent.children| - start, 1
    {
      hide Render.RenderChildren, RenderChain, Render.RenderNode, FoldAll, BranchTaken, BranchPart, BranchHolds, FollowChain;
      ghost var page, locals, room := Page(), context.locals, Room();
      ghost var spec := RenderChain(parent, start, false, page, locals, room, Store());
      ghost var text := "";
      ghost var done: seq<Event> := [];
      var taken := false;
      var index := start;
      FoldAllNothing(context.recordings);
      FollowChainNothing(spec);
      assert out + "" == out;
      while true
        invariant start <= index < |parent.children| && parent.children[index].IsControl()
        invariant context.locals == locals && depth == old(depth)
        invariant spec == FollowChain(text, done, RenderChain(parent, index, taken, page, locals, room, Store()))
        invariant context.recordings == FoldAll(old(context.recordings), done)
        invariant out == old(out) + text
        decreases |parent.children| - index
      {
        var branch := parent.children[index];
        ghost var store := Store();
        ghost var part := BranchPart(branch, taken, page, locals, room, store);
        ChainProgress(spec, text, done, parent, index, taken, page, locals, room, store);
        FoldAllConcat(old(context.recordings), done, part.events);
        var tried := RenderBranch(branch, taken);
        if tried.Failure? { return Failure(tried.problem); }
        taken := tried.value;
        assert old(out) + text + part.result.value == old(out) + (text + part.result.value);
        text := text + part.result.value;
        done := done + part.events;
        index := index + 1;
        if index >= |parent.children| || !parent.children[index].IsTail() { return Success(index); }
      }
    }

    /** Whether the chain is decided after this branch, whose body is rendered if it decides. */
    method RenderBranch(branch: Node, taken: bool) returns (r: Result<bool>)
      requires depth <= MAX_PARTIALS && branch.content.Control?
      modifies this, context, Shared()
      ensures var part := BranchPart(branch, taken, Page(), old(context.locals), old(Room()), old(Store()));
              && Leaves(part)
              && if part.result.Failure? then r == Failure(part.result.problem)
                 else r == Success(BranchHolds(branch, taken, context.view, old(context.locals)))
                      && out == old(out) + part.result.value
      decreases Room(), 1, branch, 2
    {
      hide Render.RenderChildren, FoldAll, BranchTaken;
      assert out + "" == out;
      FoldAllNothing(context.recordings);
      if taken { return Success(true); }
      ghost var asked := BranchTaken(branch, context.view, context.locals).events;
      FoldAllConcat(context.recordings, asked,
                    Render.RenderChildren(branch, 0, Page(), context.locals, Room(), Store()).events);
      var condition := Decide(branch);
      if condition.Failure? || !condition.value { return condition; }
      var body := RenderChildren(branch);
      return if body.Failure? then Failure(body.problem) else Success(true);
    }

    method RenderNode(node: Node) returns (r: Result<()>)
      requires depth <= MAX_PARTIALS
      modifies this, context, Shared()
      ensures var spec := Render.RenderNode(node, Page(), old(context.locals), old(Room()), old(Store()));
              Leaves(spec) && Writes(r, spec)
      decreases Room(), 1, node, 4
    {
      hide Render.RenderChildren, FoldAll, Interpolate, Render.RenderOutput, Render.RenderLoop, Render.RenderElement, Render.RenderFilter;
      FoldAllNothing(context.recordings);
      match node.content {
        case Root =>
          r := RenderChildren(node);
        case Doctype(_) =>
          out := out + "<!DOCTYPE html>\n";
          return Success(());
        case Comment(_) =>
          assert out + "" == out;
          return Success(());
        case Text(parts) =>
          var text := InterpolateParts(parts, true);
          if text.Failure? { return Failure(text.problem); }
          assert out + text.value + "\n" == out + ("" + text.value + "\n");
          out := out + text.value + "\n";
          return Success(());
        case Output(value, escaped) =>
          r := RenderOutput(value, escaped);
        case Filter(_) =>
          r := RenderFilter(node);
        case Control(_, _, _) =>
          r := RenderLoop(node);
        case Element(_, _, _, _, _, _) =>
          r := RenderElement(node);
      }
    }

    method RenderOutput(value: Expression.Node, escaped: bool) returns (r: Result<()>)
      requires depth <= MAX_PARTIALS
      modifies this, context, Shared()
      ensures var spec := Render.RenderOutput(value, escaped, Page(), old(context.locals), old(Room()), old(Store()));
              Leaves(spec) && Writes(r, spec)
      decreases Room(), 0, value, 3
    {
      hide Render.RenderEngineCall, FoldAll, Evaluate, Escape;
      FoldAllNothing(context.recordings);
      var handled := RenderEngineCall(value);
      if handled.Some? {
        if handled.value.Failure? { return Failure(handled.value.problem); }
        var piece := if escaped then Escape(handled.value.value) else handled.value.value;
        assert out + piece + "\n" == out + (piece + "\n");
        out := out + piece + "\n";
        return Success(());
      }
      if value == Expression.Name("yield") {
        assert out + options.body + "\n" == out + (options.body + "\n");
        assert [WriteBody] + [] == [WriteBody];
        FoldAllIdle(context.recordings, WriteBody, []);
        out := out + options.body + "\n";
        return Success(());
      }
      var found := Value(value);
      if found.Failure? { return Failure(found.problem); }
      var text := ToText(found.value, context.view);
      var piece := if escaped then Escape(text) else text;
      assert out + piece + "\n" == out + ("" + piece + "\n");
      out := out + piece + "\n";
      return Success(());
    }

    method RenderLoop(node: Node) returns (r: Result<()>)
      requires depth <= MAX_PARTIALS && node.content.Control?
      modifies this, context, Shared()
      ensures var spec := Render.RenderLoop(node, Page(), old(context.locals), old(Room()), old(Store()));
              Leaves(spec) && Writes(r, spec)
      decreases Room(), 1, node, 3
    {
      hide LoopItems, FoldAll, Evaluate;
      FoldAllNothing(context.recordings);
      if !node.content.control.For? { return Failure(OrphanBranch); }
      if node.content.condition.None? { return Failure(Unsupported); }
      var items := Value(node.content.condition.value);
      if items.Failure? { return Failure(items.problem); }
      if !items.value.List? { return Failure(CannotIterate); }
      ghost var asked := Evaluate(node.content.condition.value, context.view, context.locals).events;
      ghost var walked := LoopItems(node, items.value.items, Page(), context.locals, Room(), Store());
      FoldAllConcat(old(context.recordings), asked, [Keep({})] + (walked.events + [Keep(context.locals.Keys)]));
      FoldAllConcat(context.recordings, [Keep({})], walked.events + [Keep(context.locals.Keys)]);
      FoldAllConcat(FoldAll(context.recordings, [Keep({})]), walked.events, [Keep(context.locals.Keys)]);
      var saved := context.TakeLocals();
      r := RenderLoopItems(node, items.value.items, saved);
      context.RestoreLocals(saved);
    }

    /** The body of the loop for each item. The locals it leaves are put back by the loop. */
    method RenderLoopItems(node: Node, items: seq<Value>, saved: Locals) returns (r: Result<()>)
      requires depth <= MAX_PARTIALS && node.content.Control?
      modifies this, context, Shared()
      ensures var spec := LoopItems(node, items, Page(), saved, old(Room()), old(Store()));
              && Writes(r, spec) && depth == old(depth) && Store() == spec.store
              && context.recordings == FoldAll(old(context.recordings), spec.events)
      decreases Room(), 1, node, 2
    {
      hide Render.RenderChildren, LoopItems, FoldAll;
      ghost var page, room := Page(), Room();
      ghost var spec := LoopItems(node, items, page, saved, room, Store());
      ghost var text := "";
      ghost var done: seq<Event> := [];
      var i := 0;
      FoldAllNothing(context.recordings);
      FollowNothing(spec);
      assert items[0..] == items && out + "" == out;
      while i < |items|
        invariant 0 <= i <= |items| && depth == old(depth)
        invariant spec == Follow(text, done, LoopItems(node, items[i..], page, saved, room, Store()))
        invariant context.recordings == FoldAll(old(context.recordings), done)
        invariant out == old(out) + text
      {
        assert items[i..][0] == items[i] && items[i..][1..] == items[i + 1..];
        ghost var opening := [Keep(saved.Keys), Bind({node.content.variable})];
        ghost var before := context.recordings;
        ghost var body := Render.RenderChildren(node, 0, page, saved[node.content.variable := items[i]], room, Store());
        LoopStep(node, items[i..], page, saved, room, Store());
        FoldAllConcat(old(context.recordings), done, opening + body.events);
        FoldAllConcat(before, opening, body.events);
        FoldAllPair(before, Keep(saved.Keys), Bind({node.content.variable}));
        context.RestoreLocals(saved);
        context.SetLocal(node.content.variable, items[i]);
        r := RenderChildren(node);
        if r.Failure? { return; }
        assert old(out) + text + body.result.value == old(out) + (text + body.result.value);
        FollowFollow(text, done, body.result.value, opening + body.events,
                     LoopItems(node, items[i + 1..], page, saved, room, Store()));
        text := text + body.result.value;
        done := done + (opening + body.events);
        i := i + 1;
      }
      LoopEnd(node, page, saved, room, Store());
      assert items[i..] == [] && text + "" == text && done + [] == done;
      return Success(());
    }

    method RenderFilter(node: Node) returns (r: Result<()>)
      requires node.content.Filter?
      modifies this`out, context`recordings
      ensures var spec := Render.RenderFilter(node, context.view, context.locals);
              && context.recordings == FoldAll(old(context.recordings), spec.events)
              && WritesOnly(r, spec)
    {
      hide FilterBody, FoldAll, Escape;
      var body := FilterLines(node.children);
      if body.Failure? { return Failure(body.problem); }
      match node.content.filter {
        case "plain" => out := out + body.value;
        case "escaped" => out := out + Escape(body.value);
        case "javascript" =>
          assert out + "<script>\n" + body.value + "</script>\n" == out + ("<script>\n" + body.value + "</script>\n");
          out := out + "<script>\n" + body.value + "</script>\n";
        case "css" =>
          assert out + "<style>\n" + body.value + "</style>\n" == out + ("<style>\n" + body.value + "</style>\n");
          out := out + "<style>\n" + body.value + "</style>\n";
        case _ => return Failure(NoSuchFilter);
      }
      return Success(());
    }

    method FilterLines(children: seq<Node>) returns (r: Result<string>)
      modifies context`recordings
      ensures var spec := FilterBody(children, context.view, context.locals);
              r == spec.result && context.recordings == FoldAll(old(context.recordings), spec.events)
    {
      hide Interpolate, FoldAll, FilterBody, Adding;
      ghost var view, locals := context.view, context.locals;
      ghost var spec := FilterBody(children, view, locals);
      var body := "";
      ghost var done: seq<Event> := [];
      var i := 0;
      FoldAllNothing(context.recordings);
      AddingNothing(spec);
      assert children[0..] == children;
      while i < |children|
        invariant 0 <= i <= |children|
        invariant spec == Adding(body, done, FilterBody(children[i..], view, locals))
        invariant context.recordings == FoldAll(old(context.recordings), done)
      {
        assert children[i..][0] == children[i] && children[i..][1..] == children[i + 1..];
        FilterStep(body, done, children[i..], view, locals);
        ghost var read := Interpolate(PartsOf(children[i].content), false, view, locals).events;
        FoldAllConcat(old(context.recordings), done, read);
        var line := InterpolateParts(PartsOf(children[i].content), false);
        if line.Failure? { return Failure(line.problem); }
        body := body + line.value + "\n";
        done := done + read;
        i := i + 1;
      }
      FilterEnd(body, done, view, locals);
      assert children[i..] == [];
      return Success(body);
    }

    /** What a step that only evaluated and wrote returns. */
    twostate predicate WritesOnly(new r: Result<()>, new spec: Evaluated<string>)
      reads this
    {
      if spec.result.Failure? then r == Failure(spec.result.problem)
      else r == Success(()) && out == old(out) + spec.result.value
    }

    method GatherClassesAndId(content: Content) returns (r: Result<Marks>)
      requires content.Element?
      modifies context`recordings
      ensures var spec := GatherMarks(content.attributes, Marks(JoinClasses("", content.classes), content.id),
                                      context.view, context.locals);
              r == spec.result && context.recordings == FoldAll(old(context.recordings), spec.events)
    {
      hide Interpolate, FoldAll, GatherMarks, JoinClass;
      var classes := "";
      var i := 0;
      assert content.classes[0..] == content.classes;
      while i < |content.classes|
        invariant 0 <= i <= |content.classes|
        invariant JoinClasses(classes, content.classes[i..]) == JoinClasses("", content.classes)
      {
        assert content.classes[i..][0] == content.classes[i] && content.classes[i..][1..] == content.classes[i + 1..];
        classes := JoinClass(classes, content.classes[i]);
        i := i + 1;
      }
      assert content.classes[i..] == [];
      ghost var view, locals := context.view, context.locals;
      var marks := Marks(classes, content.id);
      ghost var spec := GatherMarks(content.attributes, marks, view, locals);
      ghost var done: seq<Event> := [];
      i := 0;
      FoldAllNothing(context.recordings);
      assert content.attributes[0..] == content.attributes && [] + spec.events == spec.events;
      while i < |content.attributes|
        invariant 0 <= i <= |content.attributes|
        invariant spec == After(done, GatherMarks(content.attributes[i..], marks, view, locals))
        invariant context.recordings == FoldAll(old(context.recordings), done)
      {
        var a := content.attributes[i];
        assert content.attributes[i..][0] == a && content.attributes[i..][1..] == content.attributes[i + 1..];
        MarksStep(done, content.attributes[i..], marks, view, locals);
        if !a.shorthand {
          ghost var read := Interpolate(a.value, false, view, locals).events;
          FoldAllConcat(old(context.recordings), done, read);
          var value := InterpolateParts(a.value, false);
          if value.Failure? { return Failure(value.problem); }
          if a.name == "class" {
            if value.value != "" { marks := marks.(classes := JoinClass(marks.classes, value.value)); }
          } else if a.name == "id" {
            marks := marks.(id := value.value);
          }
          done := done + read;
        }
        i := i + 1;
      }
      assert content.attributes[i..] == [];
      MarksEnd(done, marks, view, locals);
      return Success(marks);
    }

    method WriteAttributes(attributes: seq<Attribute>) returns (r: Result<()>)
      modifies this`out, context`recordings
      ensures var spec := AttributesText(attributes, context.view, context.locals);
              context.recordings == FoldAll(old(context.recordings), spec.events) && WritesOnly(r, spec)
    {
      hide AttributeText, FoldAll, AttributesText, Adding;
      ghost var view, locals := context.view, context.locals;
      ghost var spec := AttributesText(attributes, view, locals);
      ghost var text := "";
      ghost var done: seq<Event> := [];
      var i := 0;
      FoldAllNothing(context.recordings);
      AddingNothing(spec);
      assert attributes[0..] == attributes && out + "" == out;
      while i < |attributes|
        invariant 0 <= i <= |attributes|
        invariant spec == Adding(text, done, AttributesText(attributes[i..], view, locals))
        invariant context.recordings == FoldAll(old(context.recordings), done)
        invariant out == old(out) + text
      {
        assert attributes[i..][0] == attributes[i] && attributes[i..][1..] == attributes[i + 1..];
        AttributesStep(text, done, attributes[i..], view, locals);
        ghost var one := AttributeText(attributes[i], view, locals);
        FoldAllConcat(old(context.recordings), done, one.events);
        r := WriteAttribute(attributes[i]);
        if r.Failure? { return; }
        assert old(out) + text + one.result.value == old(out) + (text + one.result.value);
        text := text + one.result.value;
        done := done + one.events;
        i := i + 1;
      }
      AttributesEnd(text, done, view, locals);
      assert attributes[i..] == [];
      return Success(());
    }

    method WriteAttribute(a: Attribute) returns (r: Result<()>)
      modifies this`out, context`recordings
      ensures var spec := AttributeText(a, context.view, context.locals);
              context.recordings == FoldAll(old(context.recordings), spec.events) && WritesOnly(r, spec)
    {
      hide Interpolate, FoldAll, Evaluate, Escape;
      FoldAllNothing(context.recordings);
      assert out + "" == out;
      if a.name == "class" || a.name == "id" { return Success(()); }
      if a.shorthand {
        out := out + (" " + a.name);
        return Success(());
      }
      ghost var read := Interpolate(a.value, false, context.view, context.locals).events;
      var value := InterpolateParts(a.value, false);
      if value.Failure? { return Failure(value.problem); }
      if |a.value| == 1 && a.value[0].Hole? {
        FoldAllConcat(old(context.recordings), read, Evaluate(a.value[0].value, context.view, context.locals).events);
        var again := Value(a.value[0].value);
        if again.Failure? { return Failure(again.problem); }
        if again.value.Boolean? {
          if again.value.boolean { out := out + (" " + a.name); }
          return Success(());
        }
        if again.value.Null? { return Success(()); }
      }
      out := out + (" " + a.name + "=\"" + Escape(value.value) + "\"");
      return Success(());
    }

    method RenderElement(node: Node) returns (r: Result<()>)
      requires depth <= MAX_PARTIALS && node.content.Element?
      modifies this, context, Shared()
      ensures var spec := Render.RenderElement(node, Page(), old(context.locals), old(Room()), old(Store()));
              Leaves(spec) && Writes(r, spec)
      decreases Room(), 1, node, 3
    {
      hide Render.RenderChildren, Render.RenderElement, FoldAll, OpenTag, InlineChild, Trimmed, ElementText, VOID_TAGS, TakenBack;
      ghost var tag := OpenTag(node.content, context.view, context.locals);
      ghost var inner := Render.RenderChildren(node, 0, Page(), context.locals, Room(), Store());
      ElementCases(node, Page(), context.locals, Room(), Store());
      FoldAllConcat(context.recordings, tag.events, inner.events);
      r := WriteOpenTag(node.content);
      if r.Failure? { return; }
      ghost var text := tag.result.value;
      if node.content.selfClosing || node.content.tag in VOID_TAGS {
        assert old(out) + text + " />\n" == old(out) + (text + " />\n");
        out := out + " />\n";
        return Success(());
      }
      out := out + ">";
      var closing := "</" + node.content.tag + ">\n";
      if node.children == [] {
        assert old(out) + text + ">" + closing == old(out) + (text + ">" + closing);
        out := out + closing;
        return Success(());
      }
      var inline := InlineChild(node);
      if !inline { out := out + "\n"; }
      var before := |out|;
      r := RenderChildren(node);
      if r.Failure? { return; }
      ElementWritten(old(out), text, inline, inner.result.value, node.content.tag);
      TakeBackLineBreak(inline, before);
      out := out + closing;
    }

    method TakeBackLineBreak(inline: bool, before: nat)
      modifies this`out
      ensures out == TakenBack(inline, before, old(out))
    {
      if inline && |out| > before && out[|out| - 1] == '\n' { out := out[..|out| - 1]; }
    }

    method WriteOpenTag(content: Content) returns (r: Result<()>)
      requires content.Element?
      modifies this`out, context`recordings
      ensures var spec := OpenTag(content, context.view, context.locals);
              context.recordings == FoldAll(old(context.recordings), spec.events) && WritesOnly(r, spec)
    {
      hide GatherMarks, FoldAll, AttributesText, JoinClasses, MarksText;
      out := out + "<" + content.tag;
      ghost var gathered := GatherMarks(content.attributes, Marks(JoinClasses("", content.classes), content.id),
                                        context.view, context.locals);
      ghost var rest := AttributesText(content.attributes, context.view, context.locals);
      FoldAllConcat(context.recordings, gathered.events, rest.events);
      var marks := GatherClassesAndId(content);
      if marks.Failure? { return Failure(marks.problem); }
      WriteMarks(marks.value);
      r := WriteAttributes(content.attributes);
      if r.Success? {
        FourParts(old(out), "<", content.tag, MarksText(marks.value), rest.result.value);
      }
    }

    method WriteMarks(marks: Marks)
      modifies this`out
      ensures out == old(out) + MarksText(marks)
    {
      hide Escape;
      ghost var id := if marks.id == "" then "" else " id=\"" + Escape(marks.id) + "\"";
      if marks.id != "" { out := out + " id=\"" + Escape(marks.id) + "\""; }
      assert out == old(out) + id;
      if marks.classes != "" { out := out + " class=\"" + Escape(marks.classes) + "\""; }
    }

    // ------------------------------------------------- partials and the fragments

    /** Nothing when the call is not one the engine answers itself. */
    method RenderEngineCall(n: Expression.Node) returns (r: Option<Result<string>>)
      requires depth <= MAX_PARTIALS
      modifies this, context, Shared()
      ensures out == old(out) && (r.Some? <==> IsEngineCall(n))
      ensures r.None? ==> Leaves(Wrote("", old(Store())))
      ensures r.Some? ==>
                var spec := Render.RenderEngineCall(n, Page(), old(context.locals), old(Room()), old(Store()));
                Leaves(spec) && r.value == spec.result
      decreases Room(), 0, n, 2
    {
      hide Render.RenderPartialCall, Render.RenderCachedFragment, FoldAll;
      FoldAllNothing(context.recordings);
      if !n.Call? || !n.target.Name? { return None; }
      if n.target.name == "render" {
        var text := RenderPartialCall(n);
        return Some(text);
      }
      if n.target.name == "cache-fragment" || n.target.name == "cache_fragment" {
        var text := RenderCachedFragment(n);
        return Some(text);
      }
      return None;
    }

    method RenderPartialCall(n: Expression.Node) returns (r: Result<string>)
      requires depth <= MAX_PARTIALS && n.Call?
      modifies this, context, Shared()
      ensures var spec := Render.RenderPartialCall(n, Page(), old(context.locals), old(Room()), old(Store()));
              Leaves(spec) && r == spec.result && out == old(out)
      decreases Room(), 0, n, 1
    {
      hide FoldAll, ReadRequest, Render.RenderPartial, Entering;
      ghost var page, locals, room := Page(), context.locals, Room();
      ghost var asked := ReadRequest(n.arguments, page, locals, room);
      var request := ReadArguments(n.arguments);
      if request.Failure? { return Failure(request.problem); }
      ghost var inner := Render.RenderPartial(request.value, page, room - 1, Store());
      ghost var opening := Entering(request.value);
      FoldAllConcat(old(context.recordings), asked.events, opening + (inner.events + [Keep(locals.Keys)]));
      FoldAllConcat(context.recordings, opening, inner.events + [Keep(locals.Keys)]);
      FoldAllConcat(FoldAll(context.recordings, opening), inner.events, [Keep(locals.Keys)]);
      FoldAllEntering(context.recordings, request.value);
      var saved := context.TakeLocals();
      context.SetLocals(request.value.locals);
      assert map[] + request.value.locals == request.value.locals;
      r := RenderPartial(request.value);
      context.RestoreLocals(saved);
      depth := depth - 1;
    }

    /** The arguments of a `render` call, leaving the depth one further in when the partial
        is to be rendered and as it was when it is not. */
    method ReadArguments(arguments: seq<Expression.Node>) returns (r: Result<Request>)
      requires depth <= MAX_PARTIALS
      modifies this`depth, context`recordings
      ensures var spec := ReadRequest(arguments, Page(), context.locals, old(Room()));
              && context.recordings == FoldAll(old(context.recordings), spec.events) && r == spec.result
      ensures depth == if r.Success? then old(depth) + 1 else old(depth)
      ensures r.Success? ==> old(depth) < MAX_PARTIALS
    {
      hide FoldAll, Evaluate, EvaluateOption;
      FoldAllNothing(context.recordings);
      var name := Named(arguments, "partial");
      if name.None? || options.partials.None? { return Failure(NoPartialNamed); }
      ghost var read := Evaluate(name.value, context.view, context.locals).events;
      var resolved := Value(name.value);
      if resolved.Failure? { return Failure(resolved.problem); }
      var target := resolved.value.AsString();
      if target !in options.partials.value { return Failure(NoSuchPartial); }
      var root := options.partials.value[target];
      depth := depth + 1;
      if depth > MAX_PARTIALS {
        depth := depth - 1;
        return Failure(PartialsTooDeep);
      }
      FoldAllConcat(old(context.recordings), read, ReadScope(target, root, arguments, context.view, context.locals).events);
      r := ReadScopeArguments(target, root, arguments);
      if r.Failure? { depth := depth - 1; }
    }

    method ReadScopeArguments(name: string, root: Node, arguments: seq<Expression.Node>) returns (r: Result<Request>)
      modifies context`recordings
      ensures var spec := ReadScope(name, root, arguments, context.view, context.locals);
              r == spec.result && context.recordings == FoldAll(old(context.recordings), spec.events)
    {
      hide FoldAll, EvaluateOption, Named;
      ghost var view, locals := context.view, context.locals;
      ghost var a := EvaluateOption(Named(arguments, "locals"), view, locals).events;
      ghost var b := EvaluateOption(Named(arguments, "collection"), view, locals).events;
      ghost var c := EvaluateOption(Named(arguments, "as"), view, locals).events;
      FoldAllConcat(context.recordings, a, b);
      FoldAllConcat(context.recordings, a + b, c);
      var given := ValueOption(Named(arguments, "locals"));
      if given.Failure? { return Failure(given.problem); }
      var collection := ValueOption(Named(arguments, "collection"));
      if collection.Failure? { return Failure(collection.problem); }
      var alias := ValueOption(Named(arguments, "as"));
      if alias.Failure? { return Failure(alias.problem); }
      return Success(Request(
        name, root,
        if given.value.None? then map[] else given.value.value.Members(),
        if collection.value.None? then None else Some(collection.value.value.Items()),
        if alias.value.None? then "item" else alias.value.value.AsString()));
    }

    method ValueOption(n: Option<Expression.Node>) returns (r: Result<Option<Value>>)
      modifies context`recordings
      ensures var spec := EvaluateOption(n, context.view, context.locals);
              r == spec.result && context.recordings == FoldAll(old(context.recordings), spec.events)
    {
      FoldAllNothing(context.recordings);
      if n.None? { return Success(None); }
      var value := Value(n.value);
      return if value.Failure? then Failure(value.problem) else Success(Some(value.value));
    }

    /** The partial rendered by renderers of its own, over the locals the call gave. The
        locals it leaves are put back by the call. */
    method RenderPartial(request: Request) returns (r: Result<string>)
      requires depth <= MAX_PARTIALS && context.locals == request.locals
      modifies this, context, Shared()
      ensures var spec := Render.RenderPartial(request, Page(), old(Room()), old(Store()));
              && r == spec.result && out == old(out) && depth == old(depth) && Store() == spec.store
              && context.recordings == FoldAll(old(context.recordings), spec.events)
      decreases Room(), 3
    {
      hide FoldAll, Render.RenderChildren, RenderItems;
      if request.items.None? {
        var nested := new Renderer(context, options, fragments, depth);
        r := nested.RunTemplate(request.root);
        return;
      }
      ghost var page, room := Page(), Room();
      ghost var spec := RenderItems(request, request.items.value, page, context.locals, room, Store());
      var items := request.items.value;
      var text := "";
      ghost var done: seq<Event> := [];
      var i := 0;
      FoldAllNothing(context.recordings);
      FollowNothing(spec);
      assert items[0..] == items;
      while i < |items|
        invariant 0 <= i <= |items| && depth == old(depth) && out == old(out)
        invariant spec == Follow(text, done, RenderItems(request, items[i..], page, context.locals, room, Store()))
        invariant context.recordings == FoldAll(old(context.recordings), done)
      {
        assert items[i..][0] == items[i] && items[i..][1..] == items[i + 1..];
        ghost var scope := context.locals[request.alias := items[i]];
        ghost var one := Render.RenderChildren(request.root, 0, page, scope, room, Store());
        ItemsStep(spec, text, done, request, items[i..], page, context.locals, room, Store());
        FoldAllConcat(old(context.recordings), done, [Bind({request.alias})] + one.events);
        FoldAllConcat(context.recordings, [Bind({request.alias})], one.events);
        context.SetLocal(request.alias, items[i]);
        var nested := new Renderer(context, options, fragments, depth);
        r := nested.RunTemplate(request.root);
        if r.Failure? { return; }
        text := text + r.value;
        done := done + ([Bind({request.alias})] + one.events);
        i := i + 1;
      }
      ItemsEnd(text, done, request, page, context.locals, room, Store());
      assert items[i..] == [];
      return Success(text);
    }

    /** A whole template, from an empty page. */
    method RunTemplate(root: Node) returns (r: Result<string>)
      requires depth <= MAX_PARTIALS && out == ""
      modifies this, context, Shared()
      ensures var spec := Render.RenderChildren(root, 0, Page(), old(context.locals), old(Room()), old(Store()));
              Leaves(spec) && r == spec.result
      decreases Room(), 2
    {
      hide FoldAll, Render.RenderChildren;
      var walked := RenderChildren(root);
      if walked.Failure? { return Failure(walked.problem); }
      ghost var spec := Render.RenderChildren(root, 0, Page(), old(context.locals), old(Room()), old(Store()));
      assert "" + spec.result.value == spec.result.value;
      return Success(out);
    }

    method RenderCachedFragment(n: Expression.Node) returns (r: Result<string>)
      requires depth <= MAX_PARTIALS && n.Call?
      modifies this, context, Shared()
      ensures var spec := Render.RenderCachedFragment(n, Page(), old(context.locals), old(Room()), old(Store()));
              Leaves(spec) && r == spec.result && out == old(out)
      decreases Room(), 0, n, 1
    {
      hide FoldAll, Render.RenderFragmentBody, Recorded, Fold, KeyText, ReplayOf;
      FoldAllNothing(context.recordings);
      var block := FragmentOf(n);
      if block.None? { return Failure(NoBlockGiven); }
      var site := block.value;
      if fragments == null {
        r := RenderFragmentBody(site);
        return;
      }
      ghost var cache := fragments.cache;
      ghost var replayed :=
        if site in cache.names then ReplayOf(cache.names[site], context.view.values, context.locals) else Replayed(None, []);
      var names := fragments.ReadsOf(site);
      if names.Some? {
        var key := context.Replay(names.value);
        if key.Some? {
          var cached := fragments.Find(Key(site, key.value));
          if cached.Some? {
            FoldAllIdle(old(context.recordings), Open(context.locals.Keys, |replayed.events|), replayed.events);
            return Success(cached.value);
          }
        }
      }
      assert context.recordings == FoldAll(old(context.recordings), replayed.events);
      ghost var body := Recorded(site, Render.RenderFragmentBody(site, Page(), context.locals, Room(), Store()),
                                   context.view.jsonNumber);
      FoldAllIdle(FoldAll(old(context.recordings), replayed.events), Open(context.locals.Keys, |body.events|), body.events);
      FoldAllConcat(old(context.recordings), replayed.events, Opened(context.locals.Keys, body).events);
      r := RecordFragment(site);
    }

    /** A fragment rendered with its reads recorded, and put away under them. */
    method RecordFragment(site: Expression.Node) returns (r: Result<string>)
      requires depth <= MAX_PARTIALS && fragments != null
      modifies this, context, Shared()
      ensures var spec := Recorded(site, Render.RenderFragmentBody(site, Page(), old(context.locals), old(Room()), old(Store())),
                                   context.view.jsonNumber);
              Leaves(spec) && r == spec.result && out == old(out)
      decreases Room(), 0, site, 4
    {
      hide FoldAll, Render.RenderFragmentBody, Fold;
      ghost var body := Render.RenderFragmentBody(site, Page(), context.locals, Room(), Store());
      FoldAllPush(context.recordings, Fresh(context.view.jsonNumber), body.events);
      context.BeginRecording();
      r := RenderFragmentBody(site);
      var key := context.EndRecording();
      if r.Failure? { return; }
      fragments.NoteRender();
      if context.replayable { fragments.RememberReads(site, context.readNames); }
      var cached := fragments.Find(Key(site, key));
      if cached.Some? { return Success(cached.value); }
      fragments.Keep(Key(site, key), r.value);
    }

    method RenderFragmentBody(body: Expression.Node) returns (r: Result<string>)
      requires depth <= MAX_PARTIALS
      modifies this, context, Shared()
      ensures var spec := Render.RenderFragmentBody(body, Page(), old(context.locals), old(Room()), old(Store()));
              Leaves(spec) && r == spec.result && out == old(out)
      decreases Room(), 0, body, 3
    {
      hide FoldAll, Render.RenderEngineCall, Evaluate;
      FoldAllNothing(context.recordings);
      var handled := RenderEngineCall(body);
      if handled.Some? { return handled.value; }
      var value := Value(body);
      return if value.Failure? then Failure(value.problem) else Success(ToText(value.value, context.view));
    }
  }

  lemma FoldAllIdle(recordings: seq<Recording>, e: Event, events: seq<Event>)
    requires Idle(e)
    ensures FoldAll(recordings, [e] + events) == FoldAll(recordings, events)
  {
    forall i | 0 <= i < |recordings| ensures FoldAll(recordings, [e] + events)[i] == FoldAll(recordings, events)[i] {
      assert ([e] + events)[1..] == events;
    }
  }

  /** What a call does before its partial renders, as the recordings see it. */
  lemma FoldAllEntering(recordings: seq<Recording>, request: Request)
    ensures FoldAll(recordings, Entering(request))
         == FoldAll(FoldAll(recordings, [Keep({})]), [Bind(request.locals.Keys)])
  {
    hide FoldAll;
    FoldAllPair(recordings, Keep({}), Bind(request.locals.Keys));
    assert Entering(request) == [Find(request.name)] + [Keep({}), Bind(request.locals.Keys)];
    FoldAllIdle(recordings, Find(request.name), [Keep({}), Bind(request.locals.Keys)]);
  }

  lemma FoldAllPush(recordings: seq<Recording>, last: Recording, events: seq<Event>)
    ensures FoldAll(recordings + [last], events) == FoldAll(recordings, events) + [Fold(last, events)]
  {
    hide Fold;
  }

  lemma ItemsStep(spec: Rendered<string>, text: string, done: seq<Event>, request: Request, items: seq<Value>, page: Page,
                  locals: Locals, room: nat, store: Store)
    requires items != [] && spec == Follow(text, done, RenderItems(request, items, page, locals, room, store))
    ensures var scope := locals[request.alias := items[0]];
            var one := RenderChildren(request.root, 0, page, scope, room, store);
            var read := done + ([Bind({request.alias})] + one.events);
            if one.result.Failure? then spec == Rendered(one.result, read, one.store)
            else spec == Follow(text + one.result.value, read, RenderItems(request, items[1..], page, scope, room, one.store))
  {
    hide RenderChildren;
    var scope := locals[request.alias := items[0]];
    var one := RenderChildren(request.root, 0, page, scope, room, store);
    var events := [Bind({request.alias})] + one.events;
    if one.result.Success? {
      var rest := RenderItems(request, items[1..], page, scope, room, one.store);
      FollowFollow(text, done, one.result.value, events, rest);
    }
  }

  lemma ItemsEnd(text: string, done: seq<Event>, request: Request, page: Page, locals: Locals, room: nat, store: Store)
    ensures Follow(text, done, RenderItems(request, [], page, locals, room, store)) == Rendered(Success(text), done, store)
  {
    assert text + "" == text && done + [] == done;
  }

  lemma FourParts(s: string, a: string, b: string, c: string, d: string)
    ensures s + a + b + c + d == s + (a + b + c + d)
  {
  }

  /** An element with children, from the text of its tag to its closing tag. */
  function ElementText(text: string, inline: bool, inner: string, tag: string): string {
    text + ">" + (if inline then "" else "\n") + Trimmed(inline, inner) + ("</" + tag + ">\n")
  }

  /** The page without the last line break, if one was written after `before`. */
  function TakenBack(inline: bool, before: nat, out: string): string {
    if inline && |out| > before && out[|out| - 1] == '\n' then out[..|out| - 1] else out
  }

  lemma ElementWritten(s: string, text: string, inline: bool, inner: string, tag: string)
    ensures var out := if inline then s + text + ">" else s + text + ">" + "\n";
            var grown := out + inner;
            TakenBack(inline, |out|, grown) + ("</" + tag + ">\n") == s + ElementText(text, inline, inner, tag)
  {
    var out := if inline then s + text + ">" else s + text + ">" + "\n";
    assert out == s + text + ">" + (if inline then "" else "\n");
    var grown := out + inner;
    assert TakenBack(inline, |out|, grown) == out + Trimmed(inline, inner);
    FourParts(s, text, ">", if inline then "" else "\n", Trimmed(inline, inner));
  }

  lemma ElementCases(node: Node, page: Page, locals: Locals, room: nat, store: Store)
    requires node.content.Element?
    ensures var tag := OpenTag(node.content, page.view, locals);
            var inner := RenderChildren(node, 0, page, locals, room, store);
            var whole := RenderElement(node, page, locals, room, store);
            if tag.result.Failure? then whole == Rendered(tag.result, tag.events, store)
            else if node.content.selfClosing || node.content.tag in VOID_TAGS then
              whole == Rendered(Success(tag.result.value + " />\n"), tag.events, store)
            else if node.children == [] then
              whole == Rendered(Success(tag.result.value + ">" + ("</" + node.content.tag + ">\n")), tag.events, store)
            else whole == Rendered(
              if inner.result.Failure? then inner.result
              else Success(ElementText(tag.result.value, InlineChild(node), inner.result.value, node.content.tag)),
              tag.events + inner.events, inner.store)
  {
    hide RenderChildren, OpenTag, InlineChild, Trimmed, VOID_TAGS;
  }

  lemma FilterStep(body: string, done: seq<Event>, children: seq<Node>, view: View, locals: Locals)
    requires children != []
    ensures var line := Interpolate(PartsOf(children[0].content), false, view, locals);
            var whole := Adding(body, done, FilterBody(children, view, locals));
            if line.result.Failure? then whole == Evaluated(line.result, done + line.events)
            else whole == Adding(body + line.result.value + "\n", done + line.events, FilterBody(children[1..], view, locals))
  {
    hide Interpolate;
    var line := Interpolate(PartsOf(children[0].content), false, view, locals);
    if line.result.Success? {
      var rest := FilterBody(children[1..], view, locals);
      AddingAgain(body, done, line.result.value + "\n", line.events, rest);
      assert body + (line.result.value + "\n") == body + line.result.value + "\n";
      assert FilterBody(children, view, locals) == Adding(line.result.value + "\n", line.events, rest);
    }
  }

  lemma FilterEnd(body: string, done: seq<Event>, view: View, locals: Locals)
    ensures Adding(body, done, FilterBody([], view, locals)) == Evaluated(Success(body), done)
  {
    assert body + "" == body && done + [] == done;
  }

  lemma MarksStep(done: seq<Event>, attributes: seq<Attribute>, marks: Marks, view: View, locals: Locals)
    requires attributes != []
    ensures var a := attributes[0];
            var value := Interpolate(a.value, false, view, locals);
            var whole := After(done, GatherMarks(attributes, marks, view, locals));
            if a.shorthand then whole == After(done, GatherMarks(attributes[1..], marks, view, locals))
            else if value.result.Failure? then
              whole.result == Failure(value.result.problem) && whole.events == done + value.events
            else whole == After(done + value.events,
                                GatherMarks(attributes[1..], Mark(marks, a.name, value.result.value), view, locals))
  {
    hide Interpolate, Mark;
    var a := attributes[0];
    if !a.shorthand {
      var value := Interpolate(a.value, false, view, locals);
      if value.result.Success? {
        var rest := GatherMarks(attributes[1..], Mark(marks, a.name, value.result.value), view, locals);
        assert done + (value.events + rest.events) == (done + value.events) + rest.events;
      }
    }
  }

  lemma MarksEnd(done: seq<Event>, marks: Marks, view: View, locals: Locals)
    ensures After(done, GatherMarks([], marks, view, locals)) == Evaluated(Success(marks), done)
  {
    assert done + [] == done;
  }

  lemma AttributesStep(text: string, done: seq<Event>, attributes: seq<Attribute>, view: View, locals: Locals)
    requires attributes != []
    ensures var one := AttributeText(attributes[0], view, locals);
            var whole := Adding(text, done, AttributesText(attributes, view, locals));
            if one.result.Failure? then whole == Evaluated(one.result, done + one.events)
            else whole == Adding(text + one.result.value, done + one.events, AttributesText(attributes[1..], view, locals))
  {
    hide AttributeText;
    var one := AttributeText(attributes[0], view, locals);
    if one.result.Success? {
      var rest := AttributesText(attributes[1..], view, locals);
      AddingAgain(text, done, one.result.value, one.events, rest);
      assert AttributesText(attributes, view, locals) == Adding(one.result.value, one.events, rest);
    }
  }

  lemma AttributesEnd(text: string, done: seq<Event>, view: View, locals: Locals)
    ensures Adding(text, done, AttributesText([], view, locals)) == Evaluated(Success(text), done)
  {
    assert text + "" == text && done + [] == done;
  }

  lemma FoldAllPair(recordings: seq<Recording>, a: Event, b: Event)
    ensures FoldAll(FoldAll(recordings, [a]), [b]) == FoldAll(recordings, [a, b])
  {
    hide FoldAll;
    FoldAllConcat(recordings, [a], [b]);
    assert [a] + [b] == [a, b];
  }

  lemma LoopStep(node: Node, items: seq<Value>, page: Page, saved: Locals, room: nat, store: Store)
    requires node.content.Control? && items != []
    ensures var opening := [Keep(saved.Keys), Bind({node.content.variable})];
            var body := RenderChildren(node, 0, page, saved[node.content.variable := items[0]], room, store);
            var whole := LoopItems(node, items, page, saved, room, store);
            if body.result.Failure? then whole == Rendered(body.result, opening + body.events, body.store)
            else whole == Follow(body.result.value, opening + body.events,
                                 LoopItems(node, items[1..], page, saved, room, body.store))
  {
    hide RenderChildren;
  }

  lemma LoopEnd(node: Node, page: Page, saved: Locals, room: nat, store: Store)
    requires node.content.Control?
    ensures LoopItems(node, [], page, saved, room, store) == Wrote("", store)
  {
  }

  lemma FollowChainNothing(rest: Rendered<Chain>)
    ensures FollowChain("", [], rest) == rest
  {
    assert [] + rest.events == rest.events;
    if rest.result.Success? { assert "" + rest.result.value.text == rest.result.value.text; }
  }

  /** The same, with `text` written before it. */
  lemma ChainProgress(spec: Rendered<Chain>, text: string, done: seq<Event>, parent: Node, i: nat, taken: bool,
                      page: Page, locals: Locals, room: nat, store: Store)
    requires i < |parent.children| && parent.children[i].IsControl()
    requires spec == FollowChain(text, done, RenderChain(parent, i, taken, page, locals, room, store))
    ensures var part := BranchPart(parent.children[i], taken, page, locals, room, store);
            if part.result.Failure? then spec == Rendered(Failure(part.result.problem), done + part.events, part.store)
            else if i + 1 < |parent.children| && parent.children[i + 1].IsTail() then
              spec == FollowChain(text + part.result.value, done + part.events,
                                  RenderChain(parent, i + 1, BranchHolds(parent.children[i], taken, page.view, locals),
                                              page, locals, room, part.store))
            else spec == Rendered(Success(Chain(text + part.result.value, i + 1)), done + part.events, part.store)
  {
    hide RenderChain, BranchPart, BranchHolds;
    ChainStep(parent, i, taken, page, locals, room, store);
    var part := BranchPart(parent.children[i], taken, page, locals, room, store);
    if part.result.Success? && i + 1 < |parent.children| && parent.children[i + 1].IsTail() {
      FollowChainAgain(text, done, part.result.value, part.events,
                       RenderChain(parent, i + 1, BranchHolds(parent.children[i], taken, page.view, locals),
                                   page, locals, room, part.store));
    }
  }

  lemma ChildrenEnd(parent: Node, page: Page, locals: Locals, room: nat, store: Store)
    ensures RenderChildren(parent, |parent.children|, page, locals, room, store) == Wrote("", store)
  {
  }

  lemma ChildrenChain(parent: Node, i: nat, page: Page, locals: Locals, room: nat, store: Store)
    requires i < |parent.children| && parent.children[i].IsHead()
    ensures var chain := RenderChain(parent, i, false, page, locals, room, store);
            var whole := RenderChildren(parent, i, page, locals, room, store);
            if chain.result.Failure? then whole == Rendered(Failure(chain.result.problem), chain.events, chain.store)
            else whole == Follow(chain.result.value.text, chain.events,
                                 RenderChildren(parent, chain.result.value.next, page, locals, room, chain.store))
  {
    hide RenderChain, RenderNode;
  }

  lemma ChildrenNode(parent: Node, i: nat, page: Page, locals: Locals, room: nat, store: Store)
    requires i < |parent.children| && !parent.children[i].IsHead()
    ensures var child := RenderNode(parent.children[i], page, locals, room, store);
            var whole := RenderChildren(parent, i, page, locals, room, store);
            if child.result.Failure? then whole == child
            else whole == Follow(child.result.value, child.events, RenderChildren(parent, i + 1, page, locals, room, child.store))
  {
    hide RenderChain, RenderNode;
  }
}

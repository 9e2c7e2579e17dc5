/** Which names a recording holds, exactly; and a template whose loop variable it holds,
    though the loop is inside the fragment. */
module RecordedNames {
  import opened Strings
  import opened Values
  import opened JsonText
  import opened ViewContexts
  import opened Evaluation
  import opened Template
  import opened Render
  import opened RecordingLemmas
  import opened SmallPages
  import Expression

  ghost predicate Records(events: seq<Event>, name: string, number: real -> string) {
    exists x :: x in Fold(Fresh(number), events).seen && x.name == name
  }

  /** The name was bound before `i`, and the locals have not been put back without it since. */
  ghost predicate BoundAt(events: seq<Event>, i: nat, name: string)
    requires i <= |events|
  {
    exists j | 0 <= j < i :: BoundSince(events, j, i, name)
  }

  ghost predicate BoundSince(events: seq<Event>, j: nat, i: nat, name: string)
    requires j < i <= |events|
  {
    && events[j].Bind? && name in events[j].names
    && forall k | j < k < i && events[k].Keep? :: name in events[k].names
  }

  ghost predicate ReadFree(events: seq<Event>, i: nat, name: string)
    requires i < |events|
  {
    events[i].Read? && events[i].name == name && !BoundAt(events, i, name)
  }

  lemma FoldLast(front: seq<Event>, e: Event, number: real -> string)
    ensures Fold(Fresh(number), front + [e]) == Step(Fold(Fresh(number), front), e)
  {
    FoldConcat(Fresh(number), front, [e]);
    FoldRead(Fold(Fresh(number), front), e);
  }

  lemma SplitLast(events: seq<Event>)
    requires events != []
    ensures events == events[..|events| - 1] + [events[|events| - 1]]
  {
  }

  /** What a recording holds bound is what has been bound and not dropped since. */
  lemma {:induction false} BoundExactly(events: seq<Event>, name: string, number: real -> string)
    ensures name in Fold(Fresh(number), events).bound <==> BoundAt(events, |events|, name)
    decreases |events|
  {
    hide Fold;
    if events == [] {
      FoldNothing(Fresh(number));
    } else {
      var n := |events| - 1;
      var front, e := events[..n], events[n];
      SplitLast(events);
      BoundExactly(front, name, number);
      FoldLast(front, e, number);
      if e.Bind? && name in e.names {
        assert BoundSince(events, n, n + 1, name);
      } else {
        forall j | 0 <= j < n
          ensures BoundSince(events, j, n + 1, name) <==> BoundSince(front, j, n, name) && (e.Keep? ==> name in e.names)
        {
          assert forall k | j <= k < n :: front[k] == events[k];
        }
        if BoundAt(events, n + 1, name) {
          var j :| 0 <= j < n + 1 && BoundSince(events, j, n + 1, name);
          assert j < n && BoundSince(front, j, n, name);
        }
        if BoundAt(front, n, name) && (e.Keep? ==> name in e.names) {
          var j :| 0 <= j < n && BoundSince(front, j, n, name);
          assert BoundSince(events, j, n + 1, name);
        }
      }
    }
  }

  lemma BoundBefore(events: seq<Event>, n: nat, i: nat, name: string)
    requires i <= n <= |events|
    ensures BoundAt(events[..n], i, name) <==> BoundAt(events, i, name)
  {
    forall j | 0 <= j < i ensures BoundSince(events[..n], j, i, name) <==> BoundSince(events, j, i, name) {
      assert forall k | j <= k < i :: events[..n][k] == events[k];
    }
  }

  /** A name is recorded if and only if it is read somewhere with no binding of it before
      that, but for those after which the locals were put back without it. */
  lemma {:induction false} RecordedExactly(events: seq<Event>, name: string, number: real -> string)
    ensures Records(events, name, number) <==> exists i | 0 <= i < |events| :: ReadFree(events, i, name)
    decreases |events|
  {
    hide Fold;
    if events == [] {
      FoldNothing(Fresh(number));
    } else {
      var n := |events| - 1;
      var front, e := events[..n], events[n];
      SplitLast(events);
      RecordedExactly(front, name, number);
      FoldLast(front, e, number);
      BoundExactly(front, name, number);
      BoundBefore(events, n, n, name);
      forall i | 0 <= i < n ensures ReadFree(events, i, name) <==> ReadFree(front, i, name) {
        BoundBefore(events, n, i, name);
      }
      StepRecords(Fold(Fresh(number), front), e, name);
      assert Records(events, name, number) <==> Records(front, name, number) || ReadFree(events, n, name);
    }
  }

  lemma StepRecords(r: Recording, e: Event, name: string)
    ensures (exists x :: x in Step(r, e).seen && x.name == name) <==>
            (exists x :: x in r.seen && x.name == name) || (e.Read? && e.name == name && name !in r.bound)
  {
    var s := Step(r, e);
    if e.Read? && e.name !in r.bound {
      var i := IndexOf(r.seen, e.name);
      if i < |r.seen| {
        assert r.seen[i] in r.seen && r.seen[i].name == e.name;
      } else {
        assert s.seen[|r.seen|] == Seen(e.name, e.value);
        assert forall x | x in s.seen :: x in r.seen || x == Seen(e.name, e.value);
        assert forall x | x in r.seen :: x in s.seen;
      }
    }
  }

  // ------------------------------------------------------------- two values of one name

  /** A read that a recording takes note of. */
  ghost predicate Noted(events: seq<Event>, i: nat)
    requires i < |events|
  {
    events[i].Read? && ReadFree(events, i, events[i].name)
  }

  ghost predicate Clash(events: seq<Event>, i: nat, j: nat, number: real -> string)
    requires i < |events| && j < |events|
  {
    && Noted(events, i) && Noted(events, j) && events[i].name == events[j].name
    && Json(events[i].value, number) != Json(events[j].value, number)
  }

  ghost predicate Clashes(events: seq<Event>, number: real -> string) {
    exists i, j | 0 <= i < |events| && 0 <= j < |events| :: Clash(events, i, j, number)
  }

  /** The reads recorded have the name with the same JSON. */
  ghost predicate Holding(seen: seq<Seen>, e: Event, number: real -> string)
    requires e.Read?
  {
    exists x :: x in seen && x.name == e.name && Json(x.value, number) == Json(e.value, number)
  }

  /** What is recorded was read, and while a recording is replayable all that was noted is
      recorded. */
  ghost predicate Faithful(events: seq<Event>, number: real -> string) {
    var r := Fold(Fresh(number), events);
    && Distinct(r.seen)
    && (forall x | x in r.seen :: exists i :: 0 <= i < |events| && Noted(events, i) && Seen(events[i].name, events[i].value) == x)
    && (r.replayable ==> forall i | 0 <= i < |events| && Noted(events, i) :: Holding(r.seen, events[i], number))
    && (!r.replayable ==> Clashes(events, number))
  }

  lemma NotedBefore(events: seq<Event>, n: nat)
    requires n <= |events|
    ensures forall i | 0 <= i < n :: Noted(events[..n], i) <==> Noted(events, i)
  {
    forall i | 0 <= i < n ensures Noted(events[..n], i) <==> Noted(events, i) {
      assert events[..n][i] == events[i];
      if events[i].Read? { BoundBefore(events, n, i, events[i].name); }
    }
  }

  lemma {:induction false} FoldFaithful(events: seq<Event>, number: real -> string)
    ensures Faithful(events, number)
    decreases |events|
  {
    hide Fold, ReadFree;
    if events == [] {
      FoldNothing(Fresh(number));
    } else {
      var n := |events| - 1;
      var front, e := events[..n], events[n];
      FoldFaithful(front, number);
      SplitLast(events);
      FoldLast(front, e, number);
      NotedBefore(events, n);
      NotedLast(events, number);
      StepFaithful(events, Fold(Fresh(number), front), e, number);
    }
  }

  lemma NotedLast(events: seq<Event>, number: real -> string)
    requires events != []
    ensures var n := |events| - 1;
            Noted(events, n) <==> events[n].Read? && events[n].name !in Fold(Fresh(number), events[..n]).bound
  {
    hide Fold;
    var n := |events| - 1;
    if events[n].Read? {
      BoundExactly(events[..n], events[n].name, number);
      BoundBefore(events, n, n, events[n].name);
    }
  }

  lemma {:induction false} StepFaithful(events: seq<Event>, r: Recording, e: Event, number: real -> string)
    requires events != [] && e == events[|events| - 1] && Fold(Fresh(number), events) == Step(r, e)
    requires var n := |events| - 1;
             && r == Fold(Fresh(number), events[..n]) && Faithful(events[..n], number)
             && (forall i | 0 <= i < n :: Noted(events[..n], i) <==> Noted(events, i))
             && (Noted(events, n) <==> e.Read? && e.name !in r.bound)
    ensures Faithful(events, number)
  {
    hide Fold, ReadFree, Json;
    var n, s := |events| - 1, Step(r, e);
    FoldGrows(Fresh(number), events[..n]);
    var front := events[..n];
    assert forall i | 0 <= i < n :: front[i] == events[i];
    StepSeen(r, e);
    forall x | x in s.seen
      ensures exists i :: 0 <= i < |events| && Noted(events, i) && Seen(events[i].name, events[i].value) == x
    {
      if x in r.seen {
        var i :| 0 <= i < n && Noted(front, i) && Seen(front[i].name, front[i].value) == x;
        assert Noted(events, i) && Seen(events[i].name, events[i].value) == x;
      } else {
        assert Noted(events, n) && Seen(events[n].name, events[n].value) == x;
      }
    }
    if s.replayable {
      forall i | 0 <= i < |events| && Noted(events, i) ensures Holding(s.seen, events[i], number) {
        if i < n {
          assert Holding(r.seen, front[i], number);
          var x :| x in r.seen && x.name == front[i].name && Json(x.value, number) == Json(front[i].value, number);
          assert x in s.seen;
        }
      }
    } else {
      if r.replayable {
        var x :| x in r.seen && x.name == e.name && Json(x.value, number) != Json(e.value, number);
        var i :| 0 <= i < n && Noted(front, i) && Seen(front[i].name, front[i].value) == x;
        assert Clash(events, i, n, number);
      } else {
        var i, j :| 0 <= i < n && 0 <= j < n && Clash(front, i, j, number);
        assert Clash(events, i, j, number);
      }
    }
  }

  lemma StepSeen(r: Recording, e: Event)
    requires Distinct(r.seen)
    ensures var s := Step(r, e);
            && Distinct(s.seen) && (forall x | x in r.seen :: x in s.seen)
            && (forall x | x in s.seen && x !in r.seen :: e.Read? && e.name !in r.bound && x == Seen(e.name, e.value))
            && (s.replayable ==> r.replayable && (e.Read? && e.name !in r.bound ==> Holding(s.seen, e, r.number)))
            && (!s.replayable && r.replayable ==>
                  && e.Read? && e.name !in r.bound
                  && exists x :: x in r.seen && x.name == e.name && Json(x.value, r.number) != Json(e.value, r.number))
  {
    hide Json;
    if e.Read? && e.name !in r.bound {
      var s, i := Step(r, e), IndexOf(r.seen, e.name);
      IndexFinds(r.seen, e.name);
      var x := s.seen[i];
      assert x in s.seen && x.name == e.name;
      if i < |r.seen| { assert r.seen[i] in r.seen; }
    }
  }

  /** A recording stays replayable if and only if no name it takes note of was read with two
      values that JSON tells apart. */
  lemma ReplayableExactly(events: seq<Event>, number: real -> string)
    ensures Fold(Fresh(number), events).replayable <==> !Clashes(events, number)
  {
    hide Fold, ReadFree, Json;
    FoldFaithful(events, number);
    var r := Fold(Fresh(number), events);
    if r.replayable {
      forall i, j | 0 <= i < |events| && 0 <= j < |events| ensures !Clash(events, i, j, number) {
        if Noted(events, i) && Noted(events, j) && events[i].name == events[j].name {
          assert Holding(r.seen, events[i], number) && Holding(r.seen, events[j], number);
          SameJson(r.seen, events[i], events[j], number);
        }
      }
    }
  }

  lemma SameJson(seen: seq<Seen>, a: Event, b: Event, number: real -> string)
    requires Distinct(seen) && a.Read? && b.Read? && a.name == b.name
    requires Holding(seen, a, number) && Holding(seen, b, number)
    ensures Json(a.value, number) == Json(b.value, number)
  {
    hide Json;
  }

  // ------------------------------------------------------------- a loop variable recorded

  function ForEach(items: string, variable: string, body: seq<Node>): Node {
    Node(Control(For, Some(Expression.Name(items)), variable), body, 1)
  }

  /** Over `posts`, a loop over `tags` that writes nothing, and then the post. */
  function NestedLoops(): Node {
    Node(Root, [ForEach("posts", "post", [ForEach("tags", "tag", []), Writes(TextOf("post"))])], 1)
  }

  function LoopPage(post: string): Page {
    PlainPage(map["posts" := List([String(post)]), "tags" := List([])], map["p" := NestedLoops()])
  }

  const POST: set<string> := {"post"}

  /** The events of the body of the outer loop, with its one post. */
  function LoopBody(post: string): seq<Event> {
    [Read("tags", List([]), false), Keep({}), Keep(POST), Read("post", String(post), true)]
  }

  function LoopEvents(post: string): seq<Event> {
    [Read("posts", List([String(post)]), false), Keep({}), Keep({}), Bind(POST)] + LoopBody(post) + [Keep({})]
  }

  lemma InnerLoop(post: string, page: Page, locals: Locals, room: nat)
    requires page == LoopPage(post) && locals == map["post" := String(post)]
    ensures RenderNode(ForEach("tags", "tag", []), page, locals, room, None)
         == Rendered(Success(""), [Read("tags", List([]), false), Keep({}), Keep(POST)], None)
  {
    var node := ForEach("tags", "tag", []);
    var read := Read("tags", List([]), false);
    assert Evaluate(Expression.Name("tags"), page.view, locals) == ReadView("tags", page.view);
    assert LoopItems(node, [], page, locals, room, None) == Wrote("", None);
    assert locals.Keys == POST;
    var events := [read] + ([Keep({})] + ([] + [Keep(locals.Keys)]));
    assert events == [read, Keep({}), Keep(POST)];
    hide Evaluate, LoopItems;
    assert RenderLoop(node, page, locals, room, None) == Rendered(Success(""), events, None);
    assert RenderNode(node, page, locals, room, None) == RenderLoop(node, page, locals, room, None);
  }

  lemma PostLine(post: string, page: Page, locals: Locals, room: nat)
    requires page == LoopPage(post) && locals == map["post" := String(post)]
    ensures RenderNode(Writes(TextOf("post")), page, locals, room, None)
         == Rendered(Success(post + "\n"), [Read("post", String(post), true)], None)
  {
    TextOfLocal("post", post, page.view, locals);
    TextLine("post", page, locals, room, None, post, [Read("post", String(post), true)]);
    hide RenderOutput;
  }

  /** A node whose children each write something, one after the other. */
  lemma TwoChildren(node: Node, page: Page, locals: Locals, room: nat, a: Rendered<string>, b: Rendered<string>)
    requires |node.children| == 2 && !node.children[0].IsHead() && !node.children[1].IsHead()
    requires RenderNode(node.children[0], page, locals, room, None) == a && a.result.Success? && a.store == None
    requires RenderNode(node.children[1], page, locals, room, None) == b && b.result.Success? && b.store == None
    ensures RenderChildren(node, 0, page, locals, room, None)
         == Rendered(Success(a.result.value + b.result.value), a.events + b.events, None)
  {
    hide RenderNode;
    assert RenderChildren(node, 2, page, locals, room, None) == Wrote("", None);
    OnlyWrites(b);
    assert RenderChildren(node, 1, page, locals, room, None) == b;
  }

  lemma OnlyWrites(r: Rendered<string>)
    requires r.result.Success? && r.store == None
    ensures Follow(r.result.value, r.events, Wrote("", None)) == r
  {
    assert r.result.value + "" == r.result.value && r.events + [] == r.events;
  }

  lemma OneChild(node: Node, page: Page, locals: Locals, room: nat, r: Rendered<string>)
    requires |node.children| == 1 && !node.children[0].IsHead()
    requires RenderNode(node.children[0], page, locals, room, None) == r && r.result.Success? && r.store == None
    ensures RenderChildren(node, 0, page, locals, room, None) == r
  {
    hide RenderNode;
    assert RenderChildren(node, 1, page, locals, room, None) == Wrote("", None);
    OnlyWrites(r);
  }

  lemma OuterBody(post: string, page: Page, locals: Locals, room: nat)
    requires page == LoopPage(post) && locals == map["post" := String(post)]
    ensures RenderChildren(NestedLoops().children[0], 0, page, locals, room, None)
         == Rendered(Success(post + "\n"), LoopBody(post), None)
  {
    hide RenderNode, RenderChildren;
    var node, line := NestedLoops().children[0], [Read("post", String(post), true)];
    InnerLoop(post, page, locals, room);
    PostLine(post, page, locals, room);
    var a := Rendered(Success(""), [Read("tags", List([]), false), Keep({}), Keep(POST)], None);
    TwoChildren(node, page, locals, room, a, Rendered(Success(post + "\n"), line, None));
    assert "" + (post + "\n") == post + "\n" && a.events + line == LoopBody(post);
  }

  lemma OuterItems(post: string, page: Page, room: nat)
    requires page == LoopPage(post)
    ensures LoopItems(NestedLoops().children[0], [String(post)], page, map[], room, None)
         == Rendered(Success(post + "\n"), [Keep({}), Bind(POST)] + LoopBody(post), None)
  {
    hide RenderChildren;
    var node, none: Locals := NestedLoops().children[0], map[];
    var items, scope := [String(post)], none["post" := String(post)];
    assert scope == map["post" := String(post)] && none.Keys == {} && items[1..] == [];
    OuterBody(post, page, scope, room);
    assert LoopItems(node, [], page, none, room, None) == Wrote("", None);
    var opening := [Keep(none.Keys), Bind({"post"})];
    assert opening == [Keep({}), Bind(POST)];
    OnlyWrites(Rendered(Success(post + "\n"), opening + LoopBody(post), None));
  }

  lemma LoopsRender(post: string, room: nat)
    ensures RenderChildren(NestedLoops(), 0, LoopPage(post), map[], room, None)
         == Rendered(Success(post + "\n"), LoopEvents(post), None)
  {
    hide RenderChildren, LoopItems;
    var page, root := LoopPage(post), NestedLoops();
    var node, none: Locals := root.children[0], map[];
    assert Evaluate(Expression.Name("posts"), page.view, none) == ReadView("posts", page.view);
    OuterItems(post, page, room);
    var read := Read("posts", List([String(post)]), false);
    var walked := [Keep({}), Bind(POST)] + LoopBody(post);
    assert none.Keys == {};
    hide Evaluate;
    assert RenderLoop(node, page, none, room, None)
        == Rendered(Success(post + "\n"), [read] + ([Keep({})] + (walked + [Keep(none.Keys)])), None);
    assert [read] + ([Keep({})] + (walked + [Keep(none.Keys)])) == LoopEvents(post);
    assert RenderNode(node, page, none, room, None) == RenderLoop(node, page, none, room, None);
    hide RenderNode, RenderLoop;
    OneChild(root, page, none, room, Rendered(Success(post + "\n"), LoopEvents(post), None));
  }

  /** A fragment that renders these loops records `post`, which it bound itself: the inner
      loop took the locals and put them back. No page without a `post` of its own can then
      answer what it read. */
  lemma LoopVariableRecorded(post: string)
    ensures var run := RenderFragmentBody(Partial("p"), LoopPage(post), map[], MAX_PARTIALS, None);
            && run.result == Success(post + "\n") && Records(run.events, "post", NoText)
            && forall values: map<string, Value>, locals: Locals | "post" !in values && "post" !in locals ::
                 ReplayOf(Names(Fold(Fresh(NoText), run.events).seen), values, locals).key == None
  {
    hide RenderFragmentBody, RenderChildren, ReplayOf, Names, Fold;
    LoopsRender(post, MAX_PARTIALS - 1);
    PartialRenders("p", None, LoopPage(post), map[], MAX_PARTIALS, None, Rendered(Success(post + "\n"), LoopEvents(post), None));
    var run := RenderFragmentBody(Partial("p"), LoopPage(post), map[], MAX_PARTIALS, None);
    LoopEventsAt(post, run.events);
    assert ReadFree(run.events, 10, "post");
    RecordedExactly(run.events, "post", NoText);
    forall values: map<string, Value>, locals: Locals | "post" !in values && "post" !in locals
      ensures ReplayOf(Names(Fold(Fresh(NoText), run.events).seen), values, locals).key == None
    {
      NoReplay(Fold(Fresh(NoText), run.events).seen, "post", values, locals);
    }
  }

  lemma LoopEventsAt(post: string, events: seq<Event>)
    requires events == CallEvents([], "p", None, LoopEvents(post), map[])
    ensures |events| > 10 && ReadFree(events, 10, "post")
  {
    assert LoopEvents(post)[7] == LoopBody(post)[3];
    assert events[10] == LoopBody(post)[3] == Read("post", String(post), true);
    assert events[8] == LoopBody(post)[1] == Keep({});
    assert events[9] == LoopBody(post)[2] == Keep(POST);
    forall j | 0 <= j < 10 ensures !BoundSince(events, j, 10, "post") {
      if j == 9 { assert !events[9].Bind?; }
    }
  }

  lemma {:induction false} NoReplay(seen: seq<Seen>, name: string, values: map<string, Value>, locals: Locals)
    requires exists x :: x in seen && x.name == name
    requires name !in values && name !in locals
    ensures ReplayOf(Names(seen), values, locals).key == None
    decreases |seen|
  {
    assert Names(seen)[0] == seen[0].name && Names(seen)[1..] == Names(seen[1..]);
    if seen[0].name != name {
      var x :| x in seen && x.name == name;
      assert x in seen[1..];
      NoReplay(seen[1..], name, values, locals);
    }
  }
}

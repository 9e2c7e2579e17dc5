/** What a conditional chain does (src/blogin/haml_render.cpp): the branches up to the
    first whose condition does not answer false decide it, and no later condition is read. */
module Chains {
  import opened Strings
  import opened Values
  import opened ViewContexts
  import opened Evaluation
  import opened Template
  import opened Render

  /** The first index after `i` that is not an `elsif` or an `else`. */
  function ChainEnd(children: seq<Node>, i: nat): (end: nat)
    requires i < |children|
    ensures i < end <= |children|
    ensures forall k | i < k < end :: children[k].IsTail() && children[k].IsControl()
    ensures end < |children| ==> !children[end].IsTail()
    decreases |children| - i
  {
    if i + 1 < |children| && children[i + 1].IsTail() then ChainEnd(children, i + 1) else i + 1
  }

  predicate Refuses(branch: Node, view: View, locals: Locals)
    requires branch.IsControl()
  {
    BranchTaken(branch, view, locals).result == Success(false)
  }

  /** The first branch that does not refuse, or the end of the chain. */
  function Deciding(children: seq<Node>, i: nat, view: View, locals: Locals): (k: nat)
    requires i < |children| && children[i].IsControl()
    ensures i <= k <= ChainEnd(children, i)
    ensures forall j | i <= j < k :: children[j].IsControl() && Refuses(children[j], view, locals)
    ensures k < ChainEnd(children, i) ==> children[k].IsControl() && !Refuses(children[k], view, locals)
    decreases |children| - i
  {
    if !Refuses(children[i], view, locals) then i
    else if i + 1 < |children| && children[i + 1].IsTail() then Deciding(children, i + 1, view, locals)
    else i + 1
  }

  /** What the conditions of the branches from `i` up to `k` read. */
  function ConditionReads(children: seq<Node>, i: nat, k: nat, view: View, locals: Locals): seq<Event>
    requires i <= k <= |children| && forall j | i <= j < k :: children[j].IsControl()
    decreases k - i
  {
    if i == k then []
    else
      assert children[i].IsControl();
      BranchTaken(children[i], view, locals).events + ConditionReads(children, i + 1, k, view, locals)
  }

  /** Once a branch is taken the rest of the chain is only stepped over. */
  lemma {:induction false} TakenChainSteps(parent: Node, i: nat, page: Page, locals: Locals, room: nat, store: Store)
    requires i < |parent.children| && parent.children[i].IsControl()
    ensures RenderChain(parent, i, true, page, locals, room, store)
         == Rendered(Success(Chain("", ChainEnd(parent.children, i))), [], store)
    decreases |parent.children| - i
  {
    hide RenderChildren, BranchTaken;
    assert Done(false).events + [] == [];
    if i + 1 < |parent.children| && parent.children[i + 1].IsTail() {
      TakenChainSteps(parent, i + 1, page, locals, room, store);
      var nothing: seq<Event> := [];
      assert nothing + nothing == nothing && "" + "" == "";
    }
  }

  /** What the chain gives when its deciding branch is `k`. */
  function Decided(parent: Node, i: nat, k: nat, page: Page, locals: Locals, room: nat, store: Store): Rendered<Chain>
    requires i < |parent.children| && parent.children[i].IsControl()
    requires i <= k <= ChainEnd(parent.children, i)
  {
    var end := ChainEnd(parent.children, i);
    if k == end then Rendered(Success(Chain("", end)), ConditionReads(parent.children, i, k, page.view, locals), store)
    else
      var condition := BranchTaken(parent.children[k], page.view, locals);
      var reads_ := ConditionReads(parent.children, i, k + 1, page.view, locals);
      if condition.result.Failure? then Rendered(Failure(condition.result.problem), reads_, store)
      else
        var body := RenderChildren(parent.children[k], 0, page, locals, room, store);
        Rendered(
          if body.result.Failure? then Failure(body.result.problem) else Success(Chain(body.result.value, end)),
          reads_ + body.events, body.store)
  }

  /** A chain goes past its last branch, writes the first branch that is taken and nothing
      else, and reads the conditions up to that branch and none after it. */
  lemma {:induction false} ChainDecides(parent: Node, i: nat, page: Page, locals: Locals, room: nat, store: Store)
    requires i < |parent.children| && parent.children[i].IsControl()
    ensures RenderChain(parent, i, false, page, locals, room, store)
         == Decided(parent, i, Deciding(parent.children, i, page.view, locals), page, locals, room, store)
    decreases |parent.children| - i
  {
    hide RenderChain, RenderChildren, BranchTaken, BranchPart, BranchHolds, Decided;
    ChainStep(parent, i, false, page, locals, room, store);
    if Refuses(parent.children[i], page.view, locals) {
      RefusedPart(parent.children[i], page, locals, room, store);
      if i + 1 < |parent.children| && parent.children[i + 1].IsTail() {
        ChainDecides(parent, i + 1, page, locals, room, store);
        RefusedDecided(parent, i, page, locals, room, store);
      } else {
        LastRefused(parent, i, page, locals, room, store);
      }
    } else {
      var part := BranchPart(parent.children[i], false, page, locals, room, store);
      TakenPart(parent, i, page, locals, room, store);
      if i + 1 < |parent.children| && parent.children[i + 1].IsTail() {
        TakenChainSteps(parent, i + 1, page, locals, room, part.store);
      }
    }
  }

  /** A branch that refuses only reads its condition. */
  lemma RefusedPart(branch: Node, page: Page, locals: Locals, room: nat, store: Store)
    requires branch.IsControl() && Refuses(branch, page.view, locals)
    ensures BranchPart(branch, false, page, locals, room, store)
         == Rendered(Success(""), BranchTaken(branch, page.view, locals).events, store)
    ensures !BranchHolds(branch, false, page.view, locals)
  {
    hide RenderChildren, BranchTaken;
  }

  /** What the chain after a branch that refuses decides is what the chain decides. */
  lemma RefusedDecided(parent: Node, i: nat, page: Page, locals: Locals, room: nat, store: Store)
    requires i + 1 < |parent.children| && parent.children[i].IsControl() && parent.children[i + 1].IsTail()
    requires Refuses(parent.children[i], page.view, locals)
    ensures var k := Deciding(parent.children, i, page.view, locals);
            k == Deciding(parent.children, i + 1, page.view, locals)
            && Decided(parent, i, k, page, locals, room, store)
                 == FollowChain("", BranchTaken(parent.children[i], page.view, locals).events,
                                Decided(parent, i + 1, k, page, locals, room, store))
  {
    hide RenderChildren, BranchTaken;
    var children := parent.children;
    var k, first := Deciding(children, i, page.view, locals), BranchTaken(children[i], page.view, locals).events;
    if k < ChainEnd(children, i) {
      var later := ConditionReads(children, i + 1, k + 1, page.view, locals);
      var body := RenderChildren(children[k], 0, page, locals, room, store);
      assert first + (later + body.events) == (first + later) + body.events;
      assert body.result.Success? ==> "" + body.result.value == body.result.value;
    } else {
      assert "" + "" == "";
    }
  }

  lemma LastRefused(parent: Node, i: nat, page: Page, locals: Locals, room: nat, store: Store)
    requires i < |parent.children| && parent.children[i].IsControl() && Refuses(parent.children[i], page.view, locals)
    requires !(i + 1 < |parent.children| && parent.children[i + 1].IsTail())
    ensures Decided(parent, i, Deciding(parent.children, i, page.view, locals), page, locals, room, store)
         == Rendered(Success(Chain("", i + 1)), BranchTaken(parent.children[i], page.view, locals).events, store)
  {
    hide RenderChildren, BranchTaken;
    OneRead(parent.children, i, page.view, locals);
  }

  lemma OneRead(children: seq<Node>, i: nat, view: View, locals: Locals)
    requires i < |children| && children[i].IsControl()
    ensures ConditionReads(children, i, i + 1, view, locals) == BranchTaken(children[i], view, locals).events
  {
    hide BranchTaken;
    var read := BranchTaken(children[i], view, locals).events;
    assert ConditionReads(children, i + 1, i + 1, view, locals) == [] && read + [] == read;
  }

  /** A chain whose first branch does not refuse is that branch. */
  lemma TakenPart(parent: Node, i: nat, page: Page, locals: Locals, room: nat, store: Store)
    requires i < |parent.children| && parent.children[i].IsControl() && !Refuses(parent.children[i], page.view, locals)
    ensures var part := BranchPart(parent.children[i], false, page, locals, room, store);
            && Deciding(parent.children, i, page.view, locals) == i
            && (part.result.Success? ==> BranchHolds(parent.children[i], false, page.view, locals))
            && Decided(parent, i, i, page, locals, room, store)
                 == Rendered(if part.result.Failure? then Failure(part.result.problem)
                             else Success(Chain(part.result.value, ChainEnd(parent.children, i))), part.events, part.store)
            && (part.result.Success? && i + 1 < |parent.children| && parent.children[i + 1].IsTail() ==>
                  Decided(parent, i, i, page, locals, room, store)
                    == FollowChain(part.result.value, part.events,
                                   Rendered(Success(Chain("", ChainEnd(parent.children, i + 1))), [], part.store)))
  {
    hide RenderChildren, BranchTaken;
    OneRead(parent.children, i, page.view, locals);
    var part := BranchPart(parent.children[i], false, page, locals, room, store);
    assert part.events + [] == part.events;
    assert part.result.Success? ==> part.result.value + "" == part.result.value;
  }
}

/** How indentation becomes a tree (src/blogin/haml.cpp, parse_node): which lines are nodes
    and under which, and which are taken whole into a block. */
module Outline {
  import opened Strings
  import opened Lines
  import opened Template
  import opened Compiling
  import opened Preserved
  import opened Building

  /** How a line takes the lines under it: as its children, or as a block that runs to a
      closing tag or to the end of its indentation. */
  datatype Capture = Children | ToTag(tag: string) | ToIndent

  predicate KeepsBlock(content: Content) {
    (content.Element? && Preserves(content.tag)) || content.Filter?
  }

  function CaptureOf(line: Line): Capture {
    var open_ := UnclosedTag(line.content);
    var node := NodeOf(line.content, line.number);
    if open_ != "" then ToTag(open_)
    else if node.Good? && KeepsBlock(node.value.content) then ToIndent
    else Children
  }

  function NextContent(lines: seq<Line>, from: nat): (next: nat)
    requires from <= |lines|
    ensures from <= next <= |lines| && (next < |lines| ==> !lines[next].blank)
    ensures forall i | from <= i < next :: lines[i].blank
    decreases |lines| - from
  {
    if from < |lines| && lines[from].blank then NextContent(lines, from + 1) else from
  }

  /** The end of the lines from `scan` on that are blank or further in than `indent`, blank
      lines at the end left out. */
  function BlockEnd(lines: seq<Line>, scan: nat, end: nat, indent: nat): (r: nat)
    requires end <= scan <= |lines|
    ensures end <= r <= |lines|
    decreases |lines| - scan
  {
    if scan < |lines| && (lines[scan].blank || lines[scan].indent > indent) then
      BlockEnd(lines, scan + 1, if lines[scan].blank then end else scan + 1, indent)
    else end
  }

  /** Past the line that closes the tag, or the end when nothing does. */
  function MarkupEnd(lines: seq<Line>, from: nat, tag: string): (end: nat)
    requires from <= |lines|
    ensures from <= end <= |lines|
    decreases |lines| - from
  {
    if from == |lines| then from
    else if FindText(lines[from].content, "</" + tag + ">", 0).Some? then from + 1
    else MarkupEnd(lines, from + 1, tag)
  }

  /** A line that is a node, the end of the block it takes, and the nodes under it. */
  datatype Plan = Plan(line: nat, end: nat, children: seq<Plan>)

  function BlockAfter(lines: seq<Line>, at: nat): (end: nat)
    requires at < |lines|
    ensures at < end <= |lines|
  {
    match CaptureOf(lines[at])
    case Children => at + 1
    case ToTag(tag) => MarkupEnd(lines, at + 1, tag)
    case ToIndent => BlockEnd(lines, at + 1, at + 1, lines[at].indent)
  }

  function PlanNode(lines: seq<Line>, at: nat): (r: (Plan, nat))
    requires at < |lines|
    ensures at < r.1 <= |lines|
    decreases |lines| - at, 0
  {
    if CaptureOf(lines[at]).Children? then
      var (children, next) := PlanUnder(lines, at + 1, lines[at].indent);
      (Plan(at, at + 1, children), next)
    else (Plan(at, BlockAfter(lines, at), []), BlockAfter(lines, at))
  }

  /** The nodes from `from` on that are further in than `floor`, and where they end. */
  function PlanUnder(lines: seq<Line>, from: nat, floor: int): (r: (seq<Plan>, nat))
    requires from <= |lines|
    ensures from <= r.1 <= |lines|
    decreases |lines| - from, 1
  {
    var next := NextContent(lines, from);
    if next == |lines| || lines[next].indent <= floor then ([], from)
    else
      var (child, after) := PlanNode(lines, next);
      var (rest, last) := PlanUnder(lines, after, floor);
      ([child] + rest, last)
  }

  /** The nodes at the top of a template. */
  function PlanOf(lines: seq<Line>): seq<Plan> { PlanUnder(lines, 0, -1).0 }

  // ------------------------------------------------------- which lines take a block, and which

  /** A line with an unclosed `pre` or `textarea` tag takes lines to where that is closed; a
      `%pre` or `%textarea` element and a filter take the lines further in; no other takes any. */
  lemma CapturesExactly(line: Line)
    ensures var capture, open_, node := CaptureOf(line), UnclosedTag(line.content), NodeOf(line.content, line.number);
            && (open_ != "" ==> capture == ToTag(open_))
            && (open_ == "" ==>
                  if node.Good? && (node.value.content.Filter?
                                    || (node.value.content.Element? && node.value.content.tag in ["pre", "textarea"]))
                  then capture.ToIndent? else capture.Children?)
  {
    hide NodeOf, UnclosedTag;
  }

  lemma {:induction false} BlockReaches(lines: seq<Line>, scan: nat, end: nat, indent: nat)
    requires end <= scan <= |lines| && forall k | end <= k < scan :: lines[k].blank
    ensures var last := BlockEnd(lines, scan, end, indent);
            && (forall k | end <= k < last :: lines[k].blank || lines[k].indent > indent)
            && (last > end ==> !lines[last - 1].blank)
            && var next := NextContent(lines, last); next < |lines| ==> lines[next].indent <= indent
    decreases |lines| - scan
  {
    if scan < |lines| && (lines[scan].blank || lines[scan].indent > indent) {
      var far := if lines[scan].blank then end else scan + 1;
      BlockReaches(lines, scan + 1, far, indent);
      var last := BlockEnd(lines, scan, end, indent);
      forall k | end <= k < last ensures lines[k].blank || lines[k].indent > indent {
        if k < far { assert k <= scan; }
      }
    } else {
      NextIs(lines, end, scan);
    }
  }

  lemma {:induction false} NextIs(lines: seq<Line>, from: nat, next: nat)
    requires from <= next <= |lines| && (forall k | from <= k < next :: lines[k].blank)
    requires next < |lines| ==> !lines[next].blank
    ensures NextContent(lines, from) == next
    decreases next - from
  {
    if from < next { NextIs(lines, from + 1, next); }
  }

  lemma {:induction false} MarkupReaches(lines: seq<Line>, from: nat, tag: string)
    requires from <= |lines|
    ensures var end, closing := MarkupEnd(lines, from, tag), "</" + tag + ">";
            && (forall k | from <= k < end - 1 :: !Contains(lines[k].content, closing))
            && (end < |lines| ==> end > from && Contains(lines[end - 1].content, closing))
    decreases |lines| - from
  {
    if from < |lines| {
      var closing := "</" + tag + ">";
      ClosesExactly(lines[from].content, closing);
      hide FindText, Contains;
      if FindText(lines[from].content, closing, 0).None? { MarkupReaches(lines, from + 1, tag); }
    }
  }

  lemma ClosesExactly(s: string, what: string)
    ensures FindText(s, what, 0).Some? <==> Contains(s, what)
  {
    FoundExactly(s, what, 0);
  }

  /** A block taken by indentation is the lines further in, as far as they go, blank lines
      among them but not after them. One taken for a tag goes through the first line that
      closes the tag, or to the end when none does. */
  lemma BlocksEnd(lines: seq<Line>, at: nat)
    requires at < |lines|
    ensures var end := BlockAfter(lines, at);
            match CaptureOf(lines[at])
            case Children => end == at + 1
            case ToTag(tag) =>
              var closing := "</" + tag + ">";
              && (forall k | at < k < end - 1 :: !Contains(lines[k].content, closing))
              && (end < |lines| ==> end > at + 1 && Contains(lines[end - 1].content, closing))
            case ToIndent =>
              && (forall k | at < k < end :: lines[k].blank || lines[k].indent > lines[at].indent)
              && (end > at + 1 ==> !lines[end - 1].blank)
              && forall k | end <= k < |lines| && !lines[k].blank && (forall j | end <= j < k :: lines[j].blank) ::
                   lines[k].indent <= lines[at].indent
  {
    hide CaptureOf, Contains;
    match CaptureOf(lines[at]) {
      case Children =>
      case ToTag(tag) => MarkupReaches(lines, at + 1, tag);
      case ToIndent =>
        BlockReaches(lines, at + 1, at + 1, lines[at].indent);
        var end := BlockAfter(lines, at);
        forall k | end <= k < |lines| && !lines[k].blank && (forall j | end <= j < k :: lines[j].blank)
          ensures lines[k].indent <= lines[at].indent
        {
          NextIs(lines, end, k);
        }
    }
  }

  // ------------------------------------------------------- every line used once

  /** The lines from `from` up to `end` that are not blank. */
  function Contents(lines: seq<Line>, from: nat, end: nat): seq<nat>
    requires from <= end <= |lines|
    decreases end - from
  {
    if from == end then []
    else (if lines[from].blank then [] else [from]) + Contents(lines, from + 1, end)
  }

  ghost predicate Fits(plan: Plan, lines: seq<Line>) {
    && plan.line < plan.end <= |lines|
    && forall i | 0 <= i < |plan.children| :: Fits(plan.children[i], lines)
  }

  ghost predicate AllFit(plans: seq<Plan>, lines: seq<Line>) {
    forall i | 0 <= i < |plans| :: Fits(plans[i], lines)
  }

  /** The lines a plan uses: its own, those of its block, then its children's. */
  ghost function Used(plan: Plan, lines: seq<Line>): seq<nat>
    requires Fits(plan, lines)
  {
    [plan.line] + Contents(lines, plan.line + 1, plan.end) + UsedAll(plan.children, lines)
  }

  ghost function UsedAll(plans: seq<Plan>, lines: seq<Line>): seq<nat>
    requires AllFit(plans, lines)
  {
    if plans == [] then [] else Used(plans[0], lines) + UsedAll(plans[1..], lines)
  }

  lemma {:induction false} ContentsJoin(lines: seq<Line>, a: nat, b: nat, c: nat)
    requires a <= b <= c <= |lines|
    ensures Contents(lines, a, c) == Contents(lines, a, b) + Contents(lines, b, c)
    decreases b - a
  {
    if a < b {
      ContentsJoin(lines, a + 1, b, c);
    }
  }

  lemma {:induction false} BlankContents(lines: seq<Line>, a: nat, b: nat)
    requires a <= b <= |lines| && forall i | a <= i < b :: lines[i].blank
    ensures Contents(lines, a, b) == []
    decreases b - a
  {
    if a < b { BlankContents(lines, a + 1, b); }
  }

  lemma {:induction false} NodeUses(lines: seq<Line>, at: nat)
    requires at < |lines| && !lines[at].blank
    ensures var (plan, next) := PlanNode(lines, at);
            Fits(plan, lines) && Used(plan, lines) == Contents(lines, at, next)
    decreases |lines| - at, 0
  {
    hide CaptureOf, Contents, PlanUnder;
    var (plan, next) := PlanNode(lines, at);
    FirstContent(lines, at, next);
    if CaptureOf(lines[at]).Children? {
      UnderUses(lines, at + 1, lines[at].indent);
      NoContents(lines, at + 1);
      assert [at] + [] + UsedAll(plan.children, lines) == [at] + UsedAll(plan.children, lines);
    }
  }

  lemma FirstContent(lines: seq<Line>, at: nat, end: nat)
    requires at < end <= |lines| && !lines[at].blank
    ensures Contents(lines, at, end) == [at] + Contents(lines, at + 1, end)
  {
  }

  lemma NoContents(lines: seq<Line>, at: nat)
    requires at <= |lines|
    ensures Contents(lines, at, at) == []
  {
  }

  lemma {:induction false} UnderUses(lines: seq<Line>, from: nat, floor: int)
    requires from <= |lines|
    ensures var (plans, last) := PlanUnder(lines, from, floor);
            AllFit(plans, lines) && UsedAll(plans, lines) == Contents(lines, from, last)
    decreases |lines| - from, 1
  {
    hide PlanNode, Contents, Used, Fits;
    NoContents(lines, from);
    var next := NextContent(lines, from);
    if next < |lines| && lines[next].indent > floor {
      var (child, after) := PlanNode(lines, next);
      var (rest, last) := PlanUnder(lines, after, floor);
      NodeUses(lines, next);
      UnderUses(lines, after, floor);
      BlankContents(lines, from, next);
      ContentsJoin(lines, from, next, last);
      ContentsJoin(lines, next, after, last);
      assert ([child] + rest)[1..] == rest;
    }
  }

  /** Every line that is not blank is used exactly once and in order, as a node or inside
      the one block that takes it. */
  lemma EveryLineUsed(lines: seq<Line>)
    ensures AllFit(PlanOf(lines), lines) && UsedAll(PlanOf(lines), lines) == Contents(lines, 0, |lines|)
  {
    var (plans, last) := PlanUnder(lines, 0, -1);
    UnderUses(lines, 0, -1);
    RootReachesEnd(lines, 0);
    ContentsJoin(lines, 0, last, |lines|);
    BlankContents(lines, last, |lines|);
  }

  /** Nothing but blank lines follows the last node at the top. */
  lemma {:induction false} RootReachesEnd(lines: seq<Line>, from: nat)
    requires from <= |lines|
    ensures forall i | PlanUnder(lines, from, -1).1 <= i < |lines| :: lines[i].blank
    decreases |lines| - from
  {
    hide PlanNode;
    var next := NextContent(lines, from);
    if next < |lines| { RootReachesEnd(lines, PlanNode(lines, next).1); }
  }

  // ------------------------------------------------------- parents

  /** Each node's line after its parent's, in the order of the lines. */
  function Edges(plans: seq<Plan>, parent: Option<nat>): seq<(Option<nat>, nat)> {
    if plans == [] then []
    else [(parent, plans[0].line)] + Edges(plans[0].children, Some(plans[0].line)) + Edges(plans[1..], parent)
  }

  /** The lines that are nodes. */
  function Heads(plans: seq<Plan>): seq<nat> {
    if plans == [] then [] else [plans[0].line] + Heads(plans[0].children) + Heads(plans[1..])
  }

  ghost predicate AllLines(heads: seq<nat>, lines: seq<Line>) { forall h | h in heads :: h < |lines| }

  lemma PartLines(heads: seq<nat>, lines: seq<Line>)
    requires AllLines(heads, lines) && heads != []
    ensures heads[0] < |lines| && AllLines(heads[1..], lines)
    ensures heads[|heads| - 1] < |lines| && AllLines(heads[..|heads| - 1], lines)
  {
    assert heads[0] in heads && heads[|heads| - 1] in heads;
    var tail, front := heads[1..], heads[..|heads| - 1];
    forall h | h in tail ensures h < |lines| { assert h in heads; }
    forall h | h in front ensures h < |lines| { assert h in heads; }
  }

  /** Where a node `indent` in belongs, by the nodes before it: under the last one that is
      less far in and takes children, except that a block less far in has closed all that
      are not further out than it. */
  ghost function Enclosing(lines: seq<Line>, before: seq<nat>, indent: nat): Option<nat>
    requires AllLines(before, lines)
    decreases |before|
  {
    if before == [] then None
    else
      PartLines(before, lines);
      var last, front := before[|before| - 1], before[..|before| - 1];
      if lines[last].indent >= indent then Enclosing(lines, front, indent)
      else if CaptureOf(lines[last]).Children? then Some(last)
      else Enclosing(lines, front, lines[last].indent)
  }

  /** The edges that `Enclosing` gives, node by node. */
  ghost function Reference(lines: seq<Line>, before: seq<nat>, heads: seq<nat>): seq<(Option<nat>, nat)>
    requires AllLines(before, lines) && AllLines(heads, lines)
    decreases |heads|
  {
    if heads == [] then []
    else
      PartLines(heads, lines);
      [(Enclosing(lines, before, lines[heads[0]].indent), heads[0])]
        + Reference(lines, before + [heads[0]], heads[1..])
  }

  lemma {:induction false} ReferenceConcat(lines: seq<Line>, before: seq<nat>, a: seq<nat>, b: seq<nat>)
    requires AllLines(before, lines) && AllLines(a, lines) && AllLines(b, lines)
    ensures AllLines(a + b, lines) && AllLines(before + a, lines)
    ensures Reference(lines, before, a + b) == Reference(lines, before, a) + Reference(lines, before + a, b)
    decreases |a|
  {
    hide Reference, Enclosing, AllLines;
    LinesTogether(a, b, lines);
    LinesTogether(before, a, lines);
    if a == [] {
      NoReference(lines, before);
      assert a + b == b && before + a == before;
    } else {
      PartLines(a, lines);
      var first, more := [a[0]], a[1..];
      OneLine(a[0], lines);
      LinesTogether(before, first, lines);
      LinesTogether(more, b, lines);
      assert (a + b)[0] == a[0] && (a + b)[1..] == more + b && before + a == (before + first) + more;
      ReferenceFirst(lines, before, a);
      ReferenceFirst(lines, before, a + b);
      ReferenceConcat(lines, before + first, more, b);
    }
  }

  lemma LinesTogether(a: seq<nat>, b: seq<nat>, lines: seq<Line>)
    requires AllLines(a, lines) && AllLines(b, lines)
    ensures AllLines(a + b, lines)
  {
  }

  lemma OneLine(at: nat, lines: seq<Line>)
    requires at < |lines|
    ensures AllLines([at], lines)
  {
  }

  lemma ReferenceFirst(lines: seq<Line>, before: seq<nat>, heads: seq<nat>)
    requires AllLines(before, lines) && AllLines(heads, lines) && heads != []
    ensures heads[0] < |lines| && AllLines(before + [heads[0]], lines) && AllLines(heads[1..], lines)
    ensures Reference(lines, before, heads)
         == [(Enclosing(lines, before, lines[heads[0]].indent), heads[0])] + Reference(lines, before + [heads[0]], heads[1..])
  {
    hide Enclosing;
    PartLines(heads, lines);
  }

  /** Every node in `heads` is at least `indent` in. */
  ghost predicate AllFrom(lines: seq<Line>, heads: seq<nat>, indent: int)
    requires AllLines(heads, lines)
  {
    forall h | h in heads :: lines[h].indent >= indent
  }

  lemma {:induction false} EnclosingSkips(lines: seq<Line>, before: seq<nat>, heads: seq<nat>, indent: nat)
    requires AllLines(before, lines) && AllLines(heads, lines) && AllFrom(lines, heads, indent)
    ensures AllLines(before + heads, lines)
    ensures Enclosing(lines, before + heads, indent) == Enclosing(lines, before, indent)
    decreases |heads|
  {
    if heads == [] {
      assert before + heads == before;
    } else {
      var n := |heads| - 1;
      PartLines(heads, lines);
      assert (before + heads)[..|before + heads| - 1] == before + heads[..n];
      EnclosingSkips(lines, before, heads[..n], indent);
    }
  }

  /** Less far in, but still further in than the parent, the parent is the same. */
  lemma {:induction false} EnclosingLower(lines: seq<Line>, before: seq<nat>, indent: nat, lower: nat)
    requires AllLines(before, lines) && lower <= indent
    requires var p := Enclosing(lines, before, indent); p.Some? ==> p.value < |lines| && lines[p.value].indent < lower
    ensures Enclosing(lines, before, lower) == Enclosing(lines, before, indent)
    decreases |before|
  {
    if before != [] {
      PartLines(before, lines);
      var last, front := before[|before| - 1], before[..|before| - 1];
      if lines[last].indent >= indent {
        EnclosingLower(lines, front, indent, lower);
      } else if lower <= lines[last].indent && !CaptureOf(lines[last]).Children? {
        EnclosingLower(lines, front, lines[last].indent, lower);
      }
    }
  }

  /** What has to hold between siblings: the next line that is further in than `floor` is
      enclosed by the parent. */
  ghost predicate Ready(lines: seq<Line>, from: nat, floor: int, before: seq<nat>, parent: Option<nat>)
    requires from <= |lines| && AllLines(before, lines)
  {
    && (parent.Some? ==> parent.value < |lines| && lines[parent.value].indent <= floor)
    && var next := NextContent(lines, from);
       next < |lines| && lines[next].indent > floor ==> Enclosing(lines, before, lines[next].indent) == parent
  }

  lemma {:induction false} HeadsUnder(lines: seq<Line>, from: nat, floor: int)
    requires from <= |lines|
    ensures var heads := Heads(PlanUnder(lines, from, floor).0);
            AllLines(heads, lines) && AllFrom(lines, heads, floor + 1)
    ensures var next := NextContent(lines, PlanUnder(lines, from, floor).1); next < |lines| ==> lines[next].indent <= floor
    decreases |lines| - from, 1
  {
    hide PlanNode, CaptureOf;
    var next := NextContent(lines, from);
    if next < |lines| && lines[next].indent > floor {
      var (child, after) := PlanNode(lines, next);
      var (rest, last) := PlanUnder(lines, after, floor);
      HeadsAt(lines, next);
      HeadsUnder(lines, after, floor);
      assert ([child] + rest)[1..] == rest && Heads([child] + rest) == [child.line] + Heads(child.children) + Heads(rest);
    }
  }

  lemma {:induction false} HeadsAt(lines: seq<Line>, at: nat)
    requires at < |lines|
    ensures var plan := PlanNode(lines, at).0;
            && plan.line == at && AllLines(Heads(plan.children), lines)
            && AllFrom(lines, Heads(plan.children), lines[at].indent + 1)
    decreases |lines| - at, 0
  {
    hide PlanUnder, CaptureOf;
    if CaptureOf(lines[at]).Children? { HeadsUnder(lines, at + 1, lines[at].indent); }
  }

  /** The subtree at a line: its edges are the reference's, and the siblings after it are
      ready to be placed under the same parent. */
  lemma {:induction false} EdgesAt(lines: seq<Line>, at: nat, floor: int, before: seq<nat>, parent: Option<nat>)
    requires at < |lines| && !lines[at].blank && AllLines(before, lines) && lines[at].indent > floor
    requires Ready(lines, at, floor, before, parent)
    ensures var (plan, after) := PlanNode(lines, at);
            && AllLines(Heads([plan]), lines) && AllLines(before + Heads([plan]), lines)
            && Edges([plan], parent) == Reference(lines, before, Heads([plan]))
            && Ready(lines, after, floor, before + Heads([plan]), parent)
    decreases |lines| - at, 0
  {
    hide PlanUnder, CaptureOf, Enclosing, Reference;
    var (plan, after) := PlanNode(lines, at);
    var under := Heads(plan.children);
    HeadsAt(lines, at);
    HeadsOne(plan);
    assert NextContent(lines, at) == at;
    assert before + ([at] + under) == (before + [at]) + under;
    OneReference(lines, before, at);
    EnclosedBy(lines, before, at);
    if CaptureOf(lines[at]).Children? {
      assert Ready(lines, at + 1, lines[at].indent, before + [at], Some(at));
      EdgesUnder(lines, at + 1, lines[at].indent, before + [at], Some(at));
      ReferenceConcat(lines, before, [at], under);
      HeadsUnder(lines, at + 1, lines[at].indent);
    } else {
      assert under == [] && [at] + under == [at];
    }
    NextReady(lines, at, after, floor, before, under, parent);
  }

  lemma HeadsOne(plan: Plan)
    ensures Heads([plan]) == [plan.line] + Heads(plan.children)
    ensures forall parent :: Edges([plan], parent) == [(parent, plan.line)] + Edges(plan.children, Some(plan.line))
  {
    assert [plan][1..] == [];
    assert Heads([plan]) == [plan.line] + Heads(plan.children) + [];
    forall parent ensures Edges([plan], parent) == [(parent, plan.line)] + Edges(plan.children, Some(plan.line)) {
      assert Edges([plan], parent) == [(parent, plan.line)] + Edges(plan.children, Some(plan.line)) + [];
    }
  }

  lemma OneReference(lines: seq<Line>, before: seq<nat>, at: nat)
    requires at < |lines| && AllLines(before, lines)
    ensures AllLines([at], lines)
    ensures Reference(lines, before, [at]) == [(Enclosing(lines, before, lines[at].indent), at)]
  {
    assert [at][1..] == [];
    assert Reference(lines, before + [at], []) == [];
  }

  /** What a node adds to those before it. */
  lemma EnclosedBy(lines: seq<Line>, before: seq<nat>, at: nat)
    requires at < |lines| && AllLines(before, lines)
    ensures AllLines(before + [at], lines)
    ensures forall indent: nat :: Enclosing(lines, before + [at], indent) ==
              (if lines[at].indent >= indent then Enclosing(lines, before, indent)
               else if CaptureOf(lines[at]).Children? then Some(at)
               else Enclosing(lines, before, lines[at].indent))
  {
    hide CaptureOf;
    assert (before + [at])[..|before + [at]| - 1] == before;
  }

  lemma NextReady(lines: seq<Line>, at: nat, after: nat, floor: int, before: seq<nat>, under: seq<nat>, parent: Option<nat>)
    requires at < after <= |lines| && !lines[at].blank && lines[at].indent > floor
    requires AllLines(before, lines) && AllLines(under, lines) && AllFrom(lines, under, lines[at].indent + 1)
    requires Ready(lines, at, floor, before, parent) && AllLines(before + ([at] + under), lines)
    requires CaptureOf(lines[at]).Children? ==>
               var next := NextContent(lines, after); next < |lines| ==> lines[next].indent <= lines[at].indent
    requires !CaptureOf(lines[at]).Children? ==> under == []
    ensures Ready(lines, after, floor, before + ([at] + under), parent)
  {
    hide CaptureOf, Enclosing;
    assert NextContent(lines, at) == at;
    assert Enclosing(lines, before, lines[at].indent) == parent;
    EnclosedBy(lines, before, at);
    assert before + ([at] + under) == (before + [at]) + under;
    var next := NextContent(lines, after);
    if next < |lines| && lines[next].indent > floor {
      var indent := lines[next].indent;
      if indent <= lines[at].indent {
        EnclosingLower(lines, before, lines[at].indent, indent);
        EnclosingSkips(lines, before + [at], under, indent);
      } else {
        assert (before + [at]) + under == before + [at];
      }
    }
  }

  lemma {:induction false} EdgesUnder(lines: seq<Line>, from: nat, floor: int, before: seq<nat>, parent: Option<nat>)
    requires from <= |lines| && AllLines(before, lines) && Ready(lines, from, floor, before, parent)
    ensures var plans := PlanUnder(lines, from, floor).0;
            && AllLines(Heads(plans), lines)
            && Edges(plans, parent) == Reference(lines, before, Heads(plans))
    decreases |lines| - from, 1
  {
    hide PlanNode, CaptureOf, Enclosing, Reference;
    HeadsUnder(lines, from, floor);
    var next := NextContent(lines, from);
    if next < |lines| && lines[next].indent > floor {
      var (child, after) := PlanNode(lines, next);
      var (rest, last) := PlanUnder(lines, after, floor);
      assert NextContent(lines, next) == next;
      EdgesAt(lines, next, floor, before, parent);
      HeadsOne(child);
      EdgesUnder(lines, after, floor, before + Heads([child]), parent);
      HeadsUnder(lines, after, floor);
      ReferenceConcat(lines, before, Heads([child]), Heads(rest));
      FirstPlan(child, rest, parent);
    } else {
      NoReference(lines, before);
    }
  }

  lemma FirstPlan(child: Plan, rest: seq<Plan>, parent: Option<nat>)
    ensures Heads([child] + rest) == Heads([child]) + Heads(rest)
    ensures Edges([child] + rest, parent) == Edges([child], parent) + Edges(rest, parent)
  {
    HeadsOne(child);
    assert ([child] + rest)[1..] == rest;
  }

  lemma NoReference(lines: seq<Line>, before: seq<nat>)
    requires AllLines(before, lines)
    ensures Reference(lines, before, []) == []
  {
  }

  /** The tree is the one indentation asks for: each node is under the node that encloses
      it, by the lines alone. */
  lemma ParentsFollowIndentation(lines: seq<Line>)
    ensures var heads := Heads(PlanOf(lines));
            AllLines(heads, lines) && Edges(PlanOf(lines), None) == Reference(lines, [], heads)
  {
    EdgesUnder(lines, 0, -1, [], None);
  }

  // ------------------------------------------------------- without blocks

  ghost predicate NoBlocks(lines: seq<Line>) {
    forall i | 0 <= i < |lines| && !lines[i].blank :: CaptureOf(lines[i]).Children?
  }

  /** The last line before `at` that is not blank and is strictly less far in than `indent`. */
  function LastBelow(lines: seq<Line>, at: nat, indent: nat): Option<nat>
    requires at <= |lines|
  {
    if at == 0 then None
    else if !lines[at - 1].blank && lines[at - 1].indent < indent then Some(at - 1)
    else LastBelow(lines, at - 1, indent)
  }

  /** Each line that is not blank, after the last line before it that is less far in. */
  function ByIndentation(lines: seq<Line>, from: nat): seq<(Option<nat>, nat)>
    requires from <= |lines|
    decreases |lines| - from
  {
    if from == |lines| then []
    else
      (if lines[from].blank then [] else [(LastBelow(lines, from, lines[from].indent), from)])
        + ByIndentation(lines, from + 1)
  }

  lemma {:induction false} HeadsAreContents(lines: seq<Line>, from: nat, floor: int)
    requires from <= |lines| && NoBlocks(lines)
    ensures var (plans, last) := PlanUnder(lines, from, floor); Heads(plans) == Contents(lines, from, last)
    decreases |lines| - from, 1
  {
    hide CaptureOf, Contents;
    NoContents(lines, from);
    var next := NextContent(lines, from);
    if next < |lines| && lines[next].indent > floor {
      var (child, after) := PlanNode(lines, next);
      var (rest, last) := PlanUnder(lines, after, floor);
      assert CaptureOf(lines[next]).Children?;
      HeadsAreContents(lines, next + 1, lines[next].indent);
      HeadsAreContents(lines, after, floor);
      BlankContents(lines, from, next);
      FirstContent(lines, next, after);
      ContentsJoin(lines, from, next, last);
      ContentsJoin(lines, next, after, last);
      FirstPlan(child, rest, None);
      HeadsOne(child);
    }
  }

  lemma {:induction false} EnclosingIsLast(lines: seq<Line>, at: nat, indent: nat)
    requires at <= |lines| && NoBlocks(lines)
    ensures AllLines(Contents(lines, 0, at), lines)
    ensures Enclosing(lines, Contents(lines, 0, at), indent) == LastBelow(lines, at, indent)
    decreases at
  {
    hide CaptureOf;
    if at > 0 {
      EnclosingIsLast(lines, at - 1, indent);
      ContentsJoin(lines, 0, at - 1, at);
      NoContents(lines, at);
      var front := Contents(lines, 0, at - 1);
      if lines[at - 1].blank {
        assert front + [] == front;
      } else {
        assert Contents(lines, at - 1, at) == [at - 1];
        EnclosedBy(lines, front, at - 1);
      }
    }
  }

  lemma {:induction false} ReferenceIsIndentation(lines: seq<Line>, from: nat)
    requires from <= |lines| && NoBlocks(lines)
    ensures AllLines(Contents(lines, 0, from), lines) && AllLines(Contents(lines, from, |lines|), lines)
    ensures Reference(lines, Contents(lines, 0, from), Contents(lines, from, |lines|)) == ByIndentation(lines, from)
    decreases |lines| - from
  {
    hide Enclosing, LastBelow, CaptureOf, NoBlocks;
    EnclosingIsLast(lines, from, 0);
    if from < |lines| {
      ReferenceIsIndentation(lines, from + 1);
      ContentsJoin(lines, 0, from, from + 1);
      NoContents(lines, from + 1);
      var before, heads := Contents(lines, 0, from), Contents(lines, from, |lines|);
      if lines[from].blank {
        assert Contents(lines, from, from + 1) == [] && before + [] == before;
        assert heads == Contents(lines, from + 1, |lines|);
      } else {
        assert Contents(lines, from, from + 1) == [from];
        assert heads == [from] + Contents(lines, from + 1, |lines|) && heads[1..] == Contents(lines, from + 1, |lines|);
        EnclosingIsLast(lines, from, lines[from].indent);
      }
    }
  }

  /** Where no line opens a block, every line that is not blank is a node, and its parent is
      the last line before it that is strictly less far in, or the root. */
  lemma IndentationAlone(lines: seq<Line>)
    requires NoBlocks(lines)
    ensures Heads(PlanOf(lines)) == Contents(lines, 0, |lines|)
    ensures Edges(PlanOf(lines), None) == ByIndentation(lines, 0)
  {
    hide CaptureOf;
    var (plans, last) := PlanUnder(lines, 0, -1);
    HeadsAreContents(lines, 0, -1);
    RootReachesEnd(lines, 0);
    ContentsJoin(lines, 0, last, |lines|);
    BlankContents(lines, last, |lines|);
    ParentsFollowIndentation(lines);
    ReferenceIsIndentation(lines, 0);
    NoContents(lines, 0);
  }
}

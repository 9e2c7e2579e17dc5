/** The template parser (src/blogin/haml.cpp): a position moved over the lines, building
    the tree the outline plans. */
module HamlParser {
  import opened Strings
  import opened Lines
  import opened Template
  import opened Compiling
  import opened Interpolation
  import opened Preserved
  import opened Building
  import opened Outline

  /** A block's text joined to the text its line began, or put under it. */
  function WithBlock(node: Node, number: nat, parts: seq<Segment>): Node {
    if node.content.Text? then node.(content := Text(node.content.parts + ([Literal("\n")] + parts)))
    else
      var n := |node.children|;
      if n > 0 && node.children[n - 1].content.Text? then
        node.(children := node.children[..n - 1] + [WithBlock(node.children[n - 1], number, parts)])
      else node.(children := node.children + [Node(Text(parts), [], number)])
  }

  /** The node with the lines after it, up to `end`, as its text. */
  ghost function Attached(node: Node, lines: seq<Line>, at: nat, end: nat): Compiled<Node>
    requires at < end <= |lines| && AllSound(lines)
  {
    if end == at + 1 then Good(node)
    else
      PartSound(lines, at + 1, end);
      match Interpolated(BlockOf(lines[at + 1..end]))
      case Bad(error) => Bad(error)
      case Good(parts) => Good(WithBlock(node, lines[at].number, parts))
  }

  /** A filter's block is text that nothing is read from. */
  ghost function FilterAttached(node: Node, lines: seq<Line>, at: nat, end: nat): Node
    requires at < end <= |lines| && AllSound(lines)
  {
    if end == at + 1 then node
    else
      PartSound(lines, at + 1, end);
      node.(children := node.children + [Node(Text([Literal(BlockOf(lines[at + 1..end]))]), [], lines[at + 1].number)])
  }

  lemma PartSound(lines: seq<Line>, a: nat, b: nat)
    requires a <= b <= |lines| && AllSound(lines)
    ensures AllSound(lines[a..b])
  {
  }

  function Keeping(node: Node): Node {
    if node.content.Element? then node.(content := node.content.(keepsWhitespace := true)) else node
  }

  ghost function AssembleNode(plan: Plan, lines: seq<Line>): Compiled<Node>
    requires Fits(plan, lines) && AllSound(lines)
    decreases plan, 0
  {
    var line := lines[plan.line];
    match NodeOf(line.content, line.number)
    case Bad(error) => Bad(error)
    case Good(node) =>
      match CaptureOf(line)
      case ToTag(_) => Attached(node, lines, plan.line, plan.end)
      case ToIndent =>
        if node.content.Filter? then Good(FilterAttached(node, lines, plan.line, plan.end))
        else Attached(Keeping(node), lines, plan.line, plan.end)
      case Children => Under(node, AssembleAll(plan.children, lines))
  }

  function Under(node: Node, children: Compiled<seq<Node>>): Compiled<Node> {
    match children
    case Bad(error) => Bad(error)
    case Good(nodes) => Good(node.(children := node.children + nodes))
  }

  ghost function AssembleAll(plans: seq<Plan>, lines: seq<Line>): Compiled<seq<Node>>
    requires AllFit(plans, lines) && AllSound(lines)
    decreases plans
  {
    if plans == [] then Good([])
    else
      assert Fits(plans[0], lines);
      match AssembleNode(plans[0], lines)
      case Bad(error) => Bad(error)
      case Good(node) => After([node], AssembleAll(plans[1..], lines))
  }

  function After(first: seq<Node>, rest: Compiled<seq<Node>>): Compiled<seq<Node>> {
    match rest
    case Bad(error) => Bad(error)
    case Good(nodes) => Good(first + nodes)
  }

  lemma AfterTwice(a: seq<Node>, b: seq<Node>, rest: Compiled<seq<Node>>)
    ensures After(a, After(b, rest)) == After(a + b, rest)
  {
    if rest.Good? { assert a + (b + rest.value) == (a + b) + rest.value; }
  }

  lemma AfterBad(first: seq<Node>, error: CompileError)
    ensures After(first, Bad(error)) == Bad(error)
  {
  }

  lemma AfterNothing(rest: Compiled<seq<Node>>)
    ensures After([], rest) == rest
  {
    if rest.Good? { assert [] + rest.value == rest.value; }
  }

  /** The children planned from `from` on, assembled. */
  ghost function ChildrenFrom(lines: seq<Line>, from: nat, floor: int): Compiled<seq<Node>>
    requires from <= |lines| && AllSound(lines)
  {
    UnderUses(lines, from, floor);
    AssembleAll(PlanUnder(lines, from, floor).0, lines)
  }

  ghost function NodeFrom(lines: seq<Line>, at: nat): Compiled<Node>
    requires at < |lines| && !lines[at].blank && AllSound(lines)
  {
    NodeUses(lines, at);
    AssembleNode(PlanNode(lines, at).0, lines)
  }

  /** A whole template. */
  ghost function TemplateOf(source: string): Compiled<Node> {
    match ChildrenFrom(LinesOf(source), 0, -1)
    case Bad(error) => Bad(error)
    case Good(children) => Good(Node(Root, children, 1))
  }

  lemma ChildrenStep(lines: seq<Line>, from: nat, floor: int)
    requires from <= |lines| && AllSound(lines)
    ensures var next := NextContent(lines, from);
            if next == |lines| || lines[next].indent <= floor then
              ChildrenFrom(lines, from, floor) == Good([]) && PlanUnder(lines, from, floor).1 == from
            else
              var after := PlanNode(lines, next).1;
              && PlanUnder(lines, from, floor).1 == PlanUnder(lines, after, floor).1
              && ChildrenFrom(lines, from, floor) ==
                   (match NodeFrom(lines, next)
                    case Bad(error) => Bad(error)
                    case Good(node) => After([node], ChildrenFrom(lines, after, floor)))
  {
    hide PlanNode, AssembleNode, CaptureOf;
    var next := NextContent(lines, from);
    if next < |lines| && lines[next].indent > floor {
      var (child, after) := PlanNode(lines, next);
      var (rest, last) := PlanUnder(lines, after, floor);
      UnderUses(lines, from, floor);
      UnderUses(lines, after, floor);
      NodeUses(lines, next);
      assert ([child] + rest)[1..] == rest;
    }
  }

  lemma NodeCases(lines: seq<Line>, at: nat)
    requires at < |lines| && !lines[at].blank && AllSound(lines)
    ensures var line := lines[at];
            var node := NodeOf(line.content, line.number);
            var capture := CaptureOf(line);
            if node.Bad? then NodeFrom(lines, at) == node
            else if capture.Children? then
              NodeFrom(lines, at) == Under(node.value, ChildrenFrom(lines, at + 1, line.indent))
              && PlanNode(lines, at).1 == PlanUnder(lines, at + 1, line.indent).1
            else
              && PlanNode(lines, at).1 == BlockAfter(lines, at)
              && NodeFrom(lines, at) ==
                   if capture.ToIndent? && node.value.content.Filter? then
                     Good(FilterAttached(node.value, lines, at, BlockAfter(lines, at)))
                   else Attached(if capture.ToIndent? then Keeping(node.value) else node.value, lines, at, BlockAfter(lines, at))
  {
    hide PlanUnder, AssembleAll, CaptureOf, BlockAfter, Attached, FilterAttached, NodeOf;
    NodeUses(lines, at);
    UnderUses(lines, at + 1, lines[at].indent);
  }

  class Parser {
    const lines: seq<Line>
    var position: nat

    constructor (source: string)
      ensures lines == LinesOf(source) && position == 0
    {
      var read_ := SourceLines(source);
      lines := read_;
      position := 0;
    }

    method Parse() returns (r: Compiled<Node>)
      requires AllSound(lines) && position == 0
      modifies this
      ensures r == match ChildrenFrom(lines, 0, -1)
                   case Bad(error) => Bad(error)
                   case Good(children) => Good(Node(Root, children, 1))
    {
      hide ChildrenFrom, NodeFrom, PlanUnder, PlanNode, After;
      var children: seq<Node> := [];
      AfterNothing(ChildrenFrom(lines, 0, -1));
      while true
        invariant position <= |lines|
        invariant ChildrenFrom(lines, 0, -1) == After(children, ChildrenFrom(lines, position, -1))
        decreases |lines| - position
      {
        ChildrenStep(lines, position, -1);
        position := SkipBlank(position);
        if position >= |lines| { break; }
        var child := ParseNode(lines[position].indent);
        if child.Bad? {
          AfterBad(children, child.error);
          return child;
        }
        AfterTwice(children, [child.value], ChildrenFrom(lines, position, -1));
        children := children + [child.value];
      }
      LastAfter(children);
      return Good(Node(Root, children, 1));
    }

    method SkipBlank(from: nat) returns (next: nat)
      requires from <= |lines|
      ensures next == NextContent(lines, from)
    {
      next := from;
      while next < |lines| && lines[next].blank
        invariant from <= next <= |lines| && NextContent(lines, next) == NextContent(lines, from)
      {
        next := next + 1;
      }
    }

    method FindBlockEnd(indent: nat) returns (end: nat)
      requires position <= |lines|
      ensures end == BlockEnd(lines, position, position, indent)
    {
      var scan := position;
      end := position;
      while scan < |lines| && (lines[scan].blank || lines[scan].indent > indent)
        invariant position <= end <= scan <= |lines|
        invariant BlockEnd(lines, scan, end, indent) == BlockEnd(lines, position, position, indent)
      {
        scan := scan + 1;
        if !lines[scan - 1].blank { end := scan; }
      }
    }

    method FindMarkupEnd(tag: string) returns (end: nat)
      requires position <= |lines|
      ensures end == MarkupEnd(lines, position, tag)
    {
      var closing := "</" + tag + ">";
      end := position;
      while end < |lines|
        invariant position <= end <= |lines|
        invariant MarkupEnd(lines, end, tag) == MarkupEnd(lines, position, tag)
      {
        var closes := FindFirst(lines[end].content, closing);
        end := end + 1;
        if closes.Some? { break; }
      }
    }

    method AttachBlock(node: Node, at: nat, end: nat) returns (r: Compiled<Node>)
      requires at < end <= |lines| && position == at + 1 && AllSound(lines)
      modifies this
      ensures r == Attached(node, lines, at, end) && (r.Good? ==> position == end)
    {
      if end <= position { return Good(node); }
      var text := BlockText(lines, position, end);
      var parsed := ParseInterpolated(text);
      if parsed.Bad? { return Bad(parsed.error); }
      position := end;
      if node.content.Text? {
        return Good(node.(content := Text(node.content.parts + ([Literal("\n")] + parsed.value))));
      }
      var n := |node.children|;
      if n > 0 && node.children[n - 1].content.Text? {
        var last := node.children[n - 1];
        var grown := last.(content := Text(last.content.parts + ([Literal("\n")] + parsed.value)));
        assert WithBlock(last, lines[at].number, parsed.value) == grown;
        return Good(node.(children := node.children[..n - 1] + [grown]));
      }
      return Good(node.(children := node.children + [Node(Text(parsed.value), [], lines[at].number)]));
    }

    method AttachFilterBlock(node: Node, at: nat, end: nat) returns (r: Node)
      requires at < end <= |lines| && position == at + 1 && AllSound(lines)
      modifies this
      ensures r == FilterAttached(node, lines, at, end) && position == end
    {
      if end <= position { return node; }
      var text := BlockText(lines, position, end);
      r := node.(children := node.children + [Node(Text([Literal(text)]), [], lines[position].number)]);
      position := end;
    }

    method ParseNode(indent: nat) returns (r: Compiled<Node>)
      requires position < |lines| && !lines[position].blank && lines[position].indent == indent && AllSound(lines)
      modifies this
      ensures r == NodeFrom(lines, old(position))
      ensures r.Good? ==> position == PlanNode(lines, old(position)).1
      decreases |lines| - position, 0
    {
      hide ChildrenFrom, NodeFrom, PlanUnder, PlanNode, After, Attached, FilterAttached, NodeOf, BlockEnd, MarkupEnd;
      ghost var at := position;
      NodeCases(lines, at);
      var line := lines[position];
      position := position + 1;
      var built := Build(line.content, line.number);
      if built.Bad? { return built; }
      var node := built.value;
      var open_ := UnclosedPreservedTag(line.content);
      if open_ != "" {
        var end := FindMarkupEnd(open_);
        r := AttachBlock(node, position - 1, end);
        return;
      }
      if node.content.Element? && Preserves(node.content.tag) {
        node := node.(content := node.content.(keepsWhitespace := true));
        var end := FindBlockEnd(indent);
        r := AttachBlock(node, position - 1, end);
        return;
      }
      if node.content.Filter? {
        var end := FindBlockEnd(indent);
        node := AttachFilterBlock(node, position - 1, end);
        return Good(node);
      }
      r := ParseChildren(node, indent);
    }

    /** Everything indented past the line belongs to it. */
    method ParseChildren(node: Node, indent: nat) returns (r: Compiled<Node>)
      requires position <= |lines| && AllSound(lines)
      modifies this
      ensures r == Under(node, ChildrenFrom(lines, old(position), indent))
      ensures r.Good? ==> position == PlanUnder(lines, old(position), indent).1
      decreases |lines| - position, 1
    {
      hide ChildrenFrom, NodeFrom, PlanUnder, PlanNode, After;
      ghost var start := position;
      var children: seq<Node> := [];
      AfterNothing(ChildrenFrom(lines, start, indent));
      while true
        invariant start <= position <= |lines|
        invariant ChildrenFrom(lines, start, indent) == After(children, ChildrenFrom(lines, position, indent))
        invariant PlanUnder(lines, start, indent).1 == PlanUnder(lines, position, indent).1
        decreases |lines| - position
      {
        ChildrenStep(lines, position, indent);
        var next := SkipBlank(position);
        if next >= |lines| || lines[next].indent <= indent { break; }
        position := next;
        var child := ParseNode(lines[next].indent);
        if child.Bad? {
          AfterBad(children, child.error);
          return child;
        }
        AfterTwice(children, [child.value], ChildrenFrom(lines, position, indent));
        children := children + [child.value];
      }
      LastAfter(children);
      return Good(node.(children := node.children + children));
    }
  }

  lemma LastAfter(children: seq<Node>)
    ensures After(children, Good([])) == Good(children)
  {
    assert children + [] == children;
  }

  // ------------------------------------------------------- the tree is the outline

  predicate Numbered(lines: seq<Line>) { forall i | 0 <= i < |lines| :: lines[i].number == i + 1 }

  /** The block's lines as text, where the line they follow left off: after a break, when it
      had begun a text itself or in its last child, and otherwise as a child of their own. */
  ghost predicate Grows(node: Node, began: Node, parts: seq<Segment>) {
    var n := |began.children|;
    if began.content.Text? then node == began.(content := Text(began.content.parts + [Literal("\n")] + parts))
    else if n > 0 && began.children[n - 1].content.Text? then
      var last := began.children[n - 1];
      node == began.(children := began.children[..n - 1]
                                   + [last.(content := Text(last.content.parts + [Literal("\n")] + parts))])
    else node == began.(children := began.children + [Node(Text(parts), [], began.line)])
  }

  /** The node has all the lines of its block, moved left, as its text: word for word in a
      filter, with their holes compiled elsewhere. */
  ghost predicate Captures(node: Node, began: Node, block: seq<Line>, literal: bool) {
    if block == [] then node == began
    else
      exists rows ::
        && MovedLeft(block, rows)
        && if literal then
             node == began.(children := began.children + [Node(Text([Literal(JoinRows(rows))]), [], block[0].number)])
           else exists parts :: Says(parts, JoinRows(rows)) && Grows(node, began, parts)
  }

  /** The node is what the plan's line says, with the planned nodes after its own children, or
      with the lines of its block. A tag that takes a block keeps its whitespace. */
  ghost predicate Mirrors(node: Node, plan: Plan, lines: seq<Line>)
    decreases plan
  {
    && plan.line < plan.end <= |lines|
    && var line := lines[plan.line];
       var built := NodeOf(line.content, plan.line + 1);
       built.Good?
       && var began, block := built.value, lines[plan.line + 1..plan.end];
          match CaptureOf(line)
          case Children =>
            var n := |began.children|;
            && block == [] && n <= |node.children|
            && node == began.(children := began.children + node.children[n..])
            && MirrorsAll(node.children[n..], plan.children, lines)
          case ToTag(_) => plan.children == [] && Captures(node, began, block, false)
          case ToIndent =>
            && plan.children == []
            && if began.content.Element? then
                 Captures(node, began.(content := began.content.(keepsWhitespace := true)), block, false)
               else Captures(node, began, block, began.content.Filter?)
  }

  ghost predicate MirrorsAll(nodes: seq<Node>, plans: seq<Plan>, lines: seq<Line>)
    decreases plans
  {
    |nodes| == |plans|
    && (plans == [] || (Mirrors(nodes[0], plans[0], lines) && MirrorsAll(nodes[1..], plans[1..], lines)))
  }

  lemma BuiltOnLine(content: string, number: nat)
    ensures var node := NodeOf(content, number); node.Good? ==> node.value.line == number
  {
    hide Trim, Interpolated, ExpressionOf, HeadOf;
  }

  lemma AttachedCaptures(began: Node, lines: seq<Line>, at: nat, end: nat)
    requires at < end <= |lines| && AllSound(lines) && lines[at].number == began.line
    requires Attached(began, lines, at, end).Good?
    ensures Captures(Attached(began, lines, at, end).value, began, lines[at + 1..end], false)
  {
    if end > at + 1 {
      var block := lines[at + 1..end];
      PartSound(lines, at + 1, end);
      var rows := BlockIsRows(block);
      var parts := Interpolated(BlockOf(block)).value;
      CompiledExactly(BlockOf(block), parts);
      hide Interpolated, BlockOf, MovedLeft, Says, JoinRows;
      GrowsWithBlock(began, lines[at].number, parts);
    }
  }

  lemma GrowsWithBlock(began: Node, number: nat, parts: seq<Segment>)
    requires began.line == number
    ensures Grows(WithBlock(began, number, parts), began, parts)
  {
    assert forall a: seq<Segment> :: a + ([Literal("\n")] + parts) == a + [Literal("\n")] + parts;
  }

  lemma FilterCaptures(began: Node, lines: seq<Line>, at: nat, end: nat)
    requires at < end <= |lines| && AllSound(lines)
    ensures Captures(FilterAttached(began, lines, at, end), began, lines[at + 1..end], true)
  {
    if end > at + 1 {
      PartSound(lines, at + 1, end);
      var rows := BlockIsRows(lines[at + 1..end]);
      hide BlockOf, MovedLeft, JoinRows;
    }
  }

  lemma {:induction false} NodeMirrors(plan: Plan, lines: seq<Line>)
    requires Fits(plan, lines) && AllSound(lines) && Numbered(lines) && AssembleNode(plan, lines).Good?
    requires !CaptureOf(lines[plan.line]).Children? ==> plan.children == []
    requires CaptureOf(lines[plan.line]).Children? ==> plan.end == plan.line + 1
    requires AllShaped(plan.children, lines)
    ensures Mirrors(AssembleNode(plan, lines).value, plan, lines)
    decreases plan, 0
  {
    hide CaptureOf, NodeOf, Interpolated, BlockOf, Captures, Attached, FilterAttached;
    var line := lines[plan.line];
    BuiltOnLine(line.content, line.number);
    var began, node := NodeOf(line.content, line.number).value, AssembleNode(plan, lines).value;
    match CaptureOf(line) {
      case Children =>
        AllMirror(plan.children, lines);
        var kids := AssembleAll(plan.children, lines).value;
        assert node.children[|began.children|..] == kids;
      case ToTag(_) => AttachedCaptures(began, lines, plan.line, plan.end);
      case ToIndent =>
        if began.content.Filter? {
          FilterCaptures(began, lines, plan.line, plan.end);
        } else {
          AttachedCaptures(Keeping(began), lines, plan.line, plan.end);
        }
    }
  }

  /** Plans as the outline makes them: a block or children, never both. */
  ghost predicate Shaped(plan: Plan, lines: seq<Line>) {
    && plan.line < |lines|
    && (!CaptureOf(lines[plan.line]).Children? ==> plan.children == [])
    && (CaptureOf(lines[plan.line]).Children? ==> plan.end == plan.line + 1)
    && AllShaped(plan.children, lines)
  }

  ghost predicate AllShaped(plans: seq<Plan>, lines: seq<Line>) {
    plans == [] || (Shaped(plans[0], lines) && AllShaped(plans[1..], lines))
  }

  lemma {:induction false} AllMirror(plans: seq<Plan>, lines: seq<Line>)
    requires AllFit(plans, lines) && AllSound(lines) && Numbered(lines) && AssembleAll(plans, lines).Good?
    requires AllShaped(plans, lines)
    ensures MirrorsAll(AssembleAll(plans, lines).value, plans, lines)
    decreases plans
  {
    hide CaptureOf, NodeOf, AssembleNode, Mirrors;
    if plans != [] {
      assert Fits(plans[0], lines);
      NodeMirrors(plans[0], lines);
      AllMirror(plans[1..], lines);
      var nodes := AssembleAll(plans, lines).value;
      assert nodes[1..] == AssembleAll(plans[1..], lines).value;
    }
  }

  lemma {:induction false} PlanShaped(lines: seq<Line>, at: nat)
    requires at < |lines|
    ensures Shaped(PlanNode(lines, at).0, lines)
    decreases |lines| - at, 0
  {
    hide CaptureOf, PlanUnder;
    if CaptureOf(lines[at]).Children? { UnderShaped(lines, at + 1, lines[at].indent); }
  }

  lemma {:induction false} UnderShaped(lines: seq<Line>, from: nat, floor: int)
    requires from <= |lines|
    ensures AllShaped(PlanUnder(lines, from, floor).0, lines)
    decreases |lines| - from, 1
  {
    hide CaptureOf, PlanNode, Shaped;
    var next := NextContent(lines, from);
    if next < |lines| && lines[next].indent > floor {
      var (child, after) := PlanNode(lines, next);
      PlanShaped(lines, next);
      UnderShaped(lines, after, floor);
      assert ([child] + PlanUnder(lines, after, floor).0)[1..] == PlanUnder(lines, after, floor).0;
    }
  }

  lemma CapturesOnly(node: Node, began: Node, lines: seq<Line>, at: nat, end: nat)
    requires at < end <= |lines| && AllSound(lines) && lines[at].number == began.line
    requires Captures(node, began, lines[at + 1..end], false)
    ensures Attached(began, lines, at, end) == Good(node)
  {
    var block := lines[at + 1..end];
    if block != [] {
      PartSound(lines, at + 1, end);
      var rows :| MovedLeft(block, rows) && exists parts :: Says(parts, JoinRows(rows)) && Grows(node, began, parts);
      var parts :| Says(parts, JoinRows(rows)) && Grows(node, began, parts);
      var known := BlockIsRows(block);
      MovedOneWay(block, rows, known);
      CompiledExactly(BlockOf(block), parts);
      hide Interpolated, BlockOf, MovedLeft, Says, JoinRows;
      GrowsOnly(node, began, lines[at].number, parts);
    }
  }

  lemma GrowsOnly(node: Node, began: Node, number: nat, parts: seq<Segment>)
    requires began.line == number && Grows(node, began, parts)
    ensures node == WithBlock(began, number, parts)
  {
    assert forall a: seq<Segment> :: a + ([Literal("\n")] + parts) == a + [Literal("\n")] + parts;
  }

  lemma FilterCapturesOnly(node: Node, began: Node, lines: seq<Line>, at: nat, end: nat)
    requires at < end <= |lines| && AllSound(lines) && Captures(node, began, lines[at + 1..end], true)
    ensures FilterAttached(began, lines, at, end) == node
  {
    var block := lines[at + 1..end];
    if block != [] {
      PartSound(lines, at + 1, end);
      var rows :| MovedLeft(block, rows)
               && node == began.(children := began.children + [Node(Text([Literal(JoinRows(rows))]), [], block[0].number)]);
      var known := BlockIsRows(block);
      MovedOneWay(block, rows, known);
      hide BlockOf, MovedLeft, JoinRows;
    }
  }

  lemma {:induction false} NodeMirrorsOnly(node: Node, plan: Plan, lines: seq<Line>)
    requires Fits(plan, lines) && AllSound(lines) && Numbered(lines) && Mirrors(node, plan, lines)
    ensures AssembleNode(plan, lines) == Good(node)
    decreases plan, 0
  {
    hide CaptureOf, NodeOf, Interpolated, BlockOf, Captures, Attached, FilterAttached;
    var line := lines[plan.line];
    BuiltOnLine(line.content, line.number);
    var began := NodeOf(line.content, line.number).value;
    match CaptureOf(line) {
      case Children => AllMirrorOnly(node.children[|began.children|..], plan.children, lines);
      case ToTag(_) => CapturesOnly(node, began, lines, plan.line, plan.end);
      case ToIndent =>
        if began.content.Filter? {
          FilterCapturesOnly(node, began, lines, plan.line, plan.end);
        } else {
          CapturesOnly(node, Keeping(began), lines, plan.line, plan.end);
        }
    }
  }

  lemma {:induction false} AllMirrorOnly(nodes: seq<Node>, plans: seq<Plan>, lines: seq<Line>)
    requires AllFit(plans, lines) && AllSound(lines) && Numbered(lines) && MirrorsAll(nodes, plans, lines)
    ensures AssembleAll(plans, lines) == Good(nodes)
    decreases plans
  {
    hide CaptureOf, NodeOf, AssembleNode, Mirrors;
    if plans != [] {
      assert Fits(plans[0], lines);
      NodeMirrorsOnly(nodes[0], plans[0], lines);
      AllMirrorOnly(nodes[1..], plans[1..], lines);
      assert nodes == [nodes[0]] + nodes[1..];
    }
  }

  /** A template compiles to just the tree that is its outline: a node for each planned line,
      just what that line says, under the node of the line it was planned under, in the same
      order; and every block that a line takes is in its node, line by line. It fails just
      when there is no such tree. */
  lemma TemplateMirrors(source: string, tree: Node)
    ensures TemplateOf(source) == Good(tree) <==>
            && tree == Node(Root, tree.children, 1)
            && MirrorsAll(tree.children, PlanOf(LinesOf(source)), LinesOf(source))
  {
    hide PlanUnder, AssembleAll, MirrorsAll, LinesOf;
    var lines, plans := LinesOf(source), PlanOf(LinesOf(source));
    UnderUses(lines, 0, -1);
    UnderShaped(lines, 0, -1);
    if AssembleAll(plans, lines).Good? { AllMirror(plans, lines); }
    if MirrorsAll(tree.children, plans, lines) { AllMirrorOnly(tree.children, plans, lines); }
  }

  // ------------------------------------------------------- which line a failure is of

  /** The failure of the plan's own line, of the block it takes, or of a line under it. */
  ghost predicate Fails(plan: Plan, lines: seq<Line>, error: CompileError)
    decreases plan, 0
  {
    && plan.line < plan.end <= |lines|
    && var line, block := lines[plan.line], lines[plan.line + 1..plan.end];
       var built := NodeOf(line.content, plan.line + 1);
       || built == Bad(error)
       || (built.Good? && if CaptureOf(line).Children? then FailsIn(plan.children, lines, error)
                          else (CaptureOf(line).ToTag? || !built.value.content.Filter?)
                               && exists rows :: MovedLeft(block, rows) && Interpolated(JoinRows(rows)) == Bad(error))
  }

  /** The failure of the first plan that has no node. */
  ghost predicate FailsIn(plans: seq<Plan>, lines: seq<Line>, error: CompileError)
    decreases plans
  {
    plans != [] && if exists node :: Mirrors(node, plans[0], lines) then FailsIn(plans[1..], lines, error)
                   else Fails(plans[0], lines, error)
  }

  lemma AttachedFails(began: Node, lines: seq<Line>, at: nat, end: nat) returns (rows: seq<string>)
    requires at < end <= |lines| && AllSound(lines) && Attached(began, lines, at, end).Bad?
    ensures MovedLeft(lines[at + 1..end], rows)
    ensures Interpolated(JoinRows(rows)) == Bad(Attached(began, lines, at, end).error)
  {
    hide Interpolated, BlockOf, MovedLeft, JoinRows;
    PartSound(lines, at + 1, end);
    rows := BlockIsRows(lines[at + 1..end]);
  }

  lemma {:induction false} NodeFails(plan: Plan, lines: seq<Line>)
    requires Fits(plan, lines) && AllSound(lines) && Numbered(lines) && AssembleNode(plan, lines).Bad?
    requires AllShaped(plan.children, lines)
    ensures Fails(plan, lines, AssembleNode(plan, lines).error)
    decreases plan, 0
  {
    hide CaptureOf, NodeOf, Attached, FailsIn, Mirrors, AssembleAll;
    var line := lines[plan.line];
    var built := NodeOf(line.content, line.number);
    if built.Good? {
      match CaptureOf(line) {
        case Children => AllFail(plan.children, lines);
        case ToTag(_) =>
          var rows := AttachedFails(built.value, lines, plan.line, plan.end);
        case ToIndent =>
          var rows := AttachedFails(Keeping(built.value), lines, plan.line, plan.end);
      }
    }
  }

  lemma {:induction false} AllFail(plans: seq<Plan>, lines: seq<Line>)
    requires AllFit(plans, lines) && AllSound(lines) && Numbered(lines) && AssembleAll(plans, lines).Bad?
    requires AllShaped(plans, lines)
    ensures FailsIn(plans, lines, AssembleAll(plans, lines).error)
    decreases plans
  {
    hide CaptureOf, NodeOf, AssembleNode, Mirrors, Fails;
    assert Fits(plans[0], lines);
    if AssembleNode(plans[0], lines).Good? {
      NodeMirrors(plans[0], lines);
      AllFail(plans[1..], lines);
    } else {
      NodeFails(plans[0], lines);
      if node :| Mirrors(node, plans[0], lines) { NodeMirrorsOnly(node, plans[0], lines); }
    }
  }

  /** A template that does not compile fails with the failure of its first line, in the order
      of the outline, that is no node or takes a block that is no text. */
  lemma FirstFailure(source: string)
    requires TemplateOf(source).Bad?
    ensures FailsIn(PlanOf(LinesOf(source)), LinesOf(source), TemplateOf(source).error)
  {
    hide PlanUnder, AssembleAll, FailsIn, LinesOf;
    UnderUses(LinesOf(source), 0, -1);
    UnderShaped(LinesOf(source), 0, -1);
    AllFail(PlanOf(LinesOf(source)), LinesOf(source));
  }

  /** Compiling a template. */
  method Compile(source: string) returns (r: Compiled<Node>)
    ensures r == TemplateOf(source)
  {
    var parser := new Parser(source);
    r := parser.Parse();
  }
}

/** Which nodes cannot be rendered, and what they fail with (src/blogin/haml_render.cpp). */
module PageRefused {
  import opened Strings
  import opened Values
  import opened ViewContexts
  import opened Evaluation
  import opened Template
  import opened Render
  import opened PageText

  /** Every hole has a value. */
  ghost predicate Valued(parts: seq<Segment>, view: View, locals: Locals) {
    forall part | part in parts && part.Hole? :: Evaluate(part.value, view, locals).result.Success?
  }

  /** Some hole fails with this. */
  ghost predicate FailsWith(parts: seq<Segment>, problem: Problem, view: View, locals: Locals) {
    exists part | part in parts && part.Hole? :: Evaluate(part.value, view, locals).result == Failure(problem)
  }

  lemma {:induction false} HolesValued(parts: seq<Segment>, escape: bool, view: View, locals: Locals)
    ensures var r := Interpolate(parts, escape, view, locals).result;
            if r.Success? then Valued(parts, view, locals) else FailsWith(parts, r.problem, view, locals)
    decreases parts
  {
    hide Evaluate, ToText;
    if parts != [] {
      HolesValued(parts[1..], escape, view, locals);
      assert parts[0] in parts && parts == [parts[0]] + parts[1..];
      forall part | part in parts[1..] ensures part in parts {}
    }
  }

  lemma ValuedExactly(parts: seq<Segment>, escape: bool, view: View, locals: Locals)
    ensures Interpolate(parts, escape, view, locals).result.Success? <==> Valued(parts, view, locals)
    ensures var r := Interpolate(parts, escape, view, locals).result; r.Failure? ==> FailsWith(parts, r.problem, view, locals)
  {
    hide Interpolate, Evaluate;
    HolesValued(parts, escape, view, locals);
  }

  // ------------------------------------------------------------- loops

  /** `elsif` and `else` need an `if` above them, and a loop needs a list. */
  lemma LoopsRefused(node: Node, page: Page, locals: Locals, room: nat, store: Store)
    requires node.content.Control?
    ensures var r := RenderNode(node, page, locals, room, store).result;
            && (!node.content.control.For? ==> r == Failure(OrphanBranch))
            && (node.content.control.For? && node.content.condition.Some? ==>
                  var items := Evaluate(node.content.condition.value, page.view, locals).result;
                  && (items.Failure? ==> r == Failure(items.problem))
                  && (items.Success? && !items.value.List? ==> r == Failure(CannotIterate)))
  {
    hide Evaluate, LoopItems;
  }

  // ------------------------------------------------------------- filters

  /** What a filter's lines are made of. */
  ghost predicate LinesValued(children: seq<Node>, view: View, locals: Locals) {
    forall child | child in children && child.content.Text? :: Valued(child.content.parts, view, locals)
  }

  lemma {:induction false} LinesStand(children: seq<Node>, view: View, locals: Locals)
    ensures FilterBody(children, view, locals).result.Success? <==> LinesValued(children, view, locals)
    decreases children
  {
    hide Interpolate, Valued;
    if children != [] {
      LineStands(children[0].content, view, locals);
      LinesStand(children[1..], view, locals);
      assert children[0] in children && children == [children[0]] + children[1..];
      forall child | child in children[1..] ensures child in children {}
    }
  }

  lemma LineStands(content: Content, view: View, locals: Locals)
    ensures Interpolate(PartsOf(content), false, view, locals).result.Success?
            <==> (content.Text? ==> Valued(content.parts, view, locals))
  {
    ValuedExactly(PartsOf(content), false, view, locals);
  }

  /** A filter is written just when it is one of the four and all its holes have values. */
  lemma FiltersStand(node: Node, page: Page, locals: Locals, room: nat, store: Store)
    requires node.content.Filter?
    ensures RenderNode(node, page, locals, room, store).result.Success? <==>
            && node.content.filter in ["plain", "escaped", "javascript", "css"]
            && LinesValued(node.children, page.view, locals)
  {
    hide FilterBody, LinesValued;
    LinesStand(node.children, page.view, locals);
  }

  // ------------------------------------------------------------- elements

  ghost predicate AllValued(attributes: seq<Attribute>, view: View, locals: Locals) {
    forall a | a in attributes && !a.shorthand :: Valued(a.value, view, locals)
  }

  lemma {:induction false} MarksStand(attributes: seq<Attribute>, marks: Marks, view: View, locals: Locals)
    ensures GatherMarks(attributes, marks, view, locals).result.Success? <==> AllValued(attributes, view, locals)
    decreases attributes
  {
    hide Interpolate, Valued, Mark;
    if attributes != [] {
      var a := attributes[0];
      ValuedExactly(a.value, false, view, locals);
      forall next: Marks { MarksStand(attributes[1..], next, view, locals); }
      assert a in attributes && attributes == [a] + attributes[1..];
      forall b | b in attributes[1..] ensures b in attributes {}
    }
  }

  lemma AttributeStands(a: Attribute, view: View, locals: Locals)
    requires !a.shorthand ==> Valued(a.value, view, locals)
    ensures AttributeText(a, view, locals).result.Success?
  {
    hide Interpolate, Evaluate;
    ValuedExactly(a.value, false, view, locals);
    if |a.value| == 1 { assert a.value[0] in a.value; }
  }

  lemma {:induction false} AttributesStand(attributes: seq<Attribute>, view: View, locals: Locals)
    requires AllValued(attributes, view, locals)
    ensures AttributesText(attributes, view, locals).result.Success?
    decreases attributes
  {
    hide AttributeText, Valued;
    if attributes != [] {
      assert attributes[0] in attributes;
      AttributeStands(attributes[0], view, locals);
      forall b | b in attributes[1..] ensures b in attributes {}
      AttributesStand(attributes[1..], view, locals);
    }
  }

  lemma TagStands(content: Content, view: View, locals: Locals)
    requires content.Element?
    ensures OpenTag(content, view, locals).result.Success? <==> AllValued(content.attributes, view, locals)
  {
    hide AllValued, GatherMarks, AttributesText, MarksText;
    MarksStand(content.attributes, Marks(JoinClasses("", content.classes), content.id), view, locals);
    if AllValued(content.attributes, view, locals) { AttributesStand(content.attributes, view, locals); }
  }

  /** An element is written just when its attributes have values and it takes no children, has
      none, or those are written. */
  lemma ElementsStand(node: Node, page: Page, locals: Locals, room: nat, store: Store)
    requires node.content.Element?
    ensures RenderNode(node, page, locals, room, store).result.Success? <==>
            && AllValued(node.content.attributes, page.view, locals)
            && (node.content.selfClosing || node.content.tag in HTML_VOID || node.children == []
                || RenderChildren(node, 0, page, locals, room, store).result.Success?)
    ensures AllValued(node.content.attributes, page.view, locals) && RenderNode(node, page, locals, room, store).result.Failure? ==>
              RenderNode(node, page, locals, room, store).result == RenderChildren(node, 0, page, locals, room, store).result
  {
    hide OpenTag, RenderChildren, AllValued, Trimmed;
    TagStands(node.content, page.view, locals);
  }
}

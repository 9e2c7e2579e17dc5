/** What a line of a template was written as is what it is built into: control lines by
    their keyword, elements by their tag, marks and attributes. */
module WrittenLines {
  import opened Strings
  import opened Template
  import opened Compiling
  import opened Interpolation
  import opened Preserved
  import opened Attributes
  import opened Building
  import opened AttributeLists
  import Expression

  lemma ControlKind(source: string, number: nat)
    ensures ControlNode(source, number).Good? ==> ControlNode(source, number).value.content.Control?
  {
    hide Trim, ExpressionOf, FindText, RunEnd;
  }

  lemma OtherKinds(content: string, number: nat)
    ensures TextNode(content, number).Good? ==> TextNode(content, number).value.content.Text?
    ensures forall escaped :: OutputNode(content, escaped, number).Good? ==> OutputNode(content, escaped, number).value.content.Output?
    ensures content != "" && content[0] in "%.#" && ElementNode(content, number).Good? ==>
              ElementNode(content, number).value.content.Element?
  {
    hide Trim, Interpolated, ExpressionOf, HeadOf, NodeOf;
  }

  /** The kind of node a line gives is told by what it begins with, each way. */
  lemma LineKinds(content: string, number: nat)
    requires NodeOf(content, number).Good?
    ensures var built := NodeOf(content, number).value.content;
            && (built.Doctype? <==> "!!!" <= content)
            && (built.Comment? <==> "-#" <= content || "/" <= content)
            && (built.Filter? <==> |content| > 1 && content[0] == ':' && IsNameCharacter(content[1]))
            && (built.Control? <==> "-" <= content && !("-#" <= content))
            && (built.Output? <==> "=" <= content || "!=" <= content)
            && (built.Element? <==> content != "" && content[0] in "%.#")
            && (built.Text? ==> "\\" <= content || (content != "" ==> content[0] !in "%.#=/-"))
  {
    hide Trim, TextNode, OutputNode, ControlNode, ElementNode;
    assert "!!!" <= content ==> content[0] == '!' && content[1] == '!';
    assert "!=" <= content ==> content[0] == '!' && content[1] == '=';
    assert "-#" <= content ==> content[0] == '-' && content[1] == '#';
    assert "/" <= content ==> content[0] == '/';
    assert "=" <= content <==> content != "" && content[0] == '=';
    assert "-" <= content <==> content != "" && content[0] == '-';
    OtherKinds(content, number);
    OtherKinds(DropBackslash(content), number);
    if "-" <= content {
      ControlKind(Trim(content[1..]), number);
    } else if StartsOutput(content) {
      OtherKinds(Trim(content[if content[0] == '=' then 1 else 2..]), number);
    }
  }

  // ------------------------------------------------------------- plain lines

  /** A line of text is a node of just that text, and so is any line behind a backslash. */
  lemma {:induction false} TextReadsBack(text: string, parts: seq<Segment>, number: nat)
    ensures NodeOf("\\" + text, number) == Good(Leaf(Template.Text(parts), number)) <==> Says(parts, text)
    ensures text != "" && text[0] !in "!-/:=%.#\\" ==>
              (NodeOf(text, number) == Good(Leaf(Template.Text(parts), number)) <==> Says(parts, text))
  {
    hide Interpolated, Says, ElementNode, ControlNode, OutputNode, Trim;
    CompiledExactly(text, parts);
    var line := "\\" + text;
    assert line[0] == '\\' && line[1..] == text;
  }

  /** A doctype, a comment and a filter are named by what follows their sign. */
  lemma {:induction false} MarkedLinesReadBack(gap: string, text: string, number: nat)
    requires Blanks(gap) && Solid(text)
    ensures NodeOf("!!!" + (gap + text), number) == Good(Leaf(Doctype(text), number))
    ensures NodeOf("-#" + (gap + text), number) == Good(Leaf(Comment(text), number))
    ensures NodeOf("/" + (gap + text), number) == Good(Leaf(Comment(text), number))
    ensures IsNameCharacter(text[0]) ==> NodeOf(":" + text, number) == Good(Leaf(Filter(text), number))
  {
    hide ElementNode, ControlNode, OutputNode, TextNode, Trim, IsNameCharacter;
    SpacedTrims(gap, text);
    SpacedTrims("", text);
    var after := gap + text;
    assert "" + text == text;
    assert ("!!!" + after)[3..] == after && ("-#" + after)[2..] == after && ("/" + after)[1..] == after && (":" + text)[1..] == text;
    assert ("-#" + after)[0] == '-' && ("/" + after)[0] == '/' && (":" + text)[0] == ':' && (":" + text)[1] == text[0];
  }

  /** `= value` is output that is escaped, `!= value` output that is not. */
  lemma {:induction false} OutputReadsBack(escaped: bool, gap: string, source: string, number: nat)
    requires Blanks(gap) && Solid(source)
    ensures NodeOf((if escaped then "=" else "!=") + (gap + source), number) ==
              match ExpressionOf(source)
              case Bad(error) => Bad(error)
              case Good(value) => Good(Leaf(Output(value, escaped), number))
  {
    hide ElementNode, ControlNode, TextNode, Trim, ExpressionOf;
    SpacedTrims(gap, source);
    var after := gap + source;
    var line := (if escaped then "=" else "!=") + after;
    assert line[0] == (if escaped then '=' else '!') && line[if escaped then 1 else 2..] == after;
    assert !escaped ==> line[1] == '=';
  }

  // ------------------------------------------------------------- control lines

  function KeywordOf(kind: ControlKind): string {
    match kind
    case If => "if"
    case Elsif => "elsif"
    case Else => "else"
    case Unless => "unless"
    case For => "for"
  }

  predicate Blanks(s: string) { forall c | c in s :: IsBlank(c) }

  lemma KeywordRead(kind: ControlKind, rest: string)
    requires rest != "" ==> IsBlank(rest[0])
    ensures var source := KeywordOf(kind) + rest;
            var end := |KeywordOf(kind)|;
            RunEnd(source, 0, NotBlank()) == end && source[..end] == KeywordOf(kind) && KindOf(source[..end]) == Some(kind)
            && source[end..] == rest
  {
    var word := KeywordOf(kind);
    var source := word + rest;
    assert forall k | 0 <= k < |word| :: source[k] == word[k];
    assert rest != "" ==> source[|word|] == rest[0];
    var p := NotBlank();
    assert forall k | 0 <= k < |word| :: !IsBlank(word[k]);
    RunEndsAt(source, 0, |word|, p);
  }

  lemma SpacedTrims(gap: string, s: string)
    requires Blanks(gap) && Solid(s)
    ensures Trim(gap + s) == s
  {
    assert Spaces(gap);
    TrimStartAny(gap, s, "");
    assert s + "" == s;
    TrimEndPads(s, "");
  }

  /** `if`, `elsif` and `unless` with the expression after them. */
  lemma {:induction false} ConditionControl(kind: ControlKind, gap: string, source: string, number: nat)
    requires kind.If? || kind.Elsif? || kind.Unless?
    requires Blanks(gap) && gap != "" && Solid(source)
    ensures ControlNode(KeywordOf(kind) + (gap + source), number) ==
              match ExpressionOf(source)
              case Bad(error) => Bad(error)
              case Good(value) => Good(Leaf(Control(kind, Some(value), ""), number))
  {
    hide RunEnd, Trim, ExpressionOf, FindText;
    assert gap[0] in gap;
    KeywordRead(kind, gap + source);
    SpacedTrims(gap, source);
  }

  lemma {:induction false} ElseControl(rest: string, number: nat)
    requires rest != "" ==> IsBlank(rest[0])
    ensures ControlNode("else" + rest, number) == Good(Leaf(Control(Else, None, ""), number))
  {
    hide RunEnd, Trim, ExpressionOf, FindText;
    KeywordRead(Else, rest);
  }

  predicate Arrowless(s: string) { forall k | 0 <= k < |s| :: !StandsAt(s, "->", k) }

  /** `for items -> $name`, the `$` there or not. */
  lemma {:induction false} LoopControl(gap: string, items: string, before: string, after: string, dollar: bool,
                                       name: string, number: nat)
    requires Blanks(gap) && gap != "" && Blanks(before) && Blanks(after)
    requires Solid(items) && Arrowless(items)
    requires Solid(name) && !("$" <= name)
    ensures var line := items + before + "->" + after + (if dollar then "$" else "") + name;
            ControlNode("for" + (gap + line), number) ==
              match ExpressionOf(items)
              case Bad(error) => Bad(error)
              case Good(value) => Good(Leaf(Control(For, Some(value), name), number))
  {
    hide RunEnd, Trim, ExpressionOf, FindText;
    var variable := (if dollar then "$" else "") + name;
    var line := items + before + ("->" + (after + variable));
    assert items + before + "->" + after + (if dollar then "$" else "") + name == line;
    assert gap[0] in gap;
    KeywordRead(For, gap + line);
    LineSolid(items, before + ("->" + after + (if dollar then "$" else "")), name);
    assert items + (before + ("->" + after + (if dollar then "$" else ""))) + name == line;
    SpacedTrims(gap, line);
    LoopParts(items, before, after, dollar, name, number);
  }

  lemma LineSolid(first: string, middle: string, last: string)
    requires Solid(first) && Solid(last)
    ensures Solid(first + middle + last)
  {
    var line := first + middle + last;
    assert line[0] == first[0] && line[|line| - 1] == last[|last| - 1];
  }

  lemma {:induction false} LoopParts(items: string, before: string, after: string, dollar: bool, name: string, number: nat)
    requires Blanks(before) && Blanks(after)
    requires Solid(items) && Arrowless(items)
    requires Solid(name) && !("$" <= name)
    ensures var variable := (if dollar then "$" else "") + name;
            LoopNode(items + before + ("->" + (after + variable)), number) ==
              match ExpressionOf(items)
              case Bad(error) => Bad(error)
              case Good(value) => Good(Leaf(Control(For, Some(value), name), number))
  {
    hide RunEnd, Trim, ExpressionOf, FindText;
    var variable := (if dollar then "$" else "") + name;
    var line, arrow := items + before + ("->" + (after + variable)), |items| + |before|;
    ArrowAt(items, before, after + variable);
    assert line[..arrow] == items + before && line[arrow + 2..] == after + variable;
    TrimsAfter(items, before);
    VariableSolid(dollar, name);
    SpacedTrims(after, variable);
  }

  lemma VariableSolid(dollar: bool, name: string)
    requires Solid(name) && !("$" <= name)
    ensures var variable := (if dollar then "$" else "") + name; Solid(variable) && DropDollar(variable) == name
  {
    var variable := (if dollar then "$" else "") + name;
    assert variable[|variable| - 1] == name[|name| - 1];
    if dollar { assert variable[0] == '$' && variable[1..] == name; } else { assert variable == name; }
  }

  lemma TrimsAfter(s: string, after: string)
    requires Solid(s) && Blanks(after)
    ensures Trim(s + after) == s
  {
    assert Spaces(after);
    TrimStartAny("", s, after);
    assert "" + (s + after) == s + after;
    TrimEndPads(s, after);
  }

  lemma ArrowAt(items: string, before: string, rest: string)
    requires Blanks(before) && Arrowless(items)
    ensures FindText(items + before + ("->" + rest), "->", 0) == Some(|items| + |before|)
  {
    hide *;
    ArrowStands(items, before, rest);
    FirstArrow(items, before, rest, items + before + ("->" + rest), 0);
  }

  /** No arrow from `i` on, before the one that was written. */
  lemma {:induction false} FirstArrow(items: string, before: string, rest: string, line: string, i: nat)
    requires Blanks(before) && Arrowless(items) && line == items + before + ("->" + rest)
    requires i <= |items| + |before| && StandsAt(line, "->", |items| + |before|)
    ensures FindText(line, "->", i) == Some(|items| + |before|)
    decreases |items| + |before| - i
  {
    hide Blanks, Arrowless;
    if i < |items| + |before| {
      NoArrowAt(items, before, rest, i);
      FirstArrow(items, before, rest, line, i + 1);
    }
  }

  lemma ArrowStands(items: string, before: string, rest: string)
    ensures StandsAt(items + before + ("->" + rest), "->", |items| + |before|)
  {
    var line, arrow := items + before + ("->" + rest), |items| + |before|;
    assert line[arrow] == '-' && line[arrow + 1] == '>';
  }

  lemma NoArrowAt(items: string, before: string, rest: string, k: nat)
    requires Blanks(before) && Arrowless(items)
    requires k < |items| + |before|
    ensures !StandsAt(items + before + ("->" + rest), "->", k)
  {
    hide FindText;
    var line := items + before + ("->" + rest);
    if k < |items| {
      assert !StandsAt(items, "->", k);
      if k + 1 < |items| {
        assert line[k..k + 2] == items[k..k + 2];
      } else {
        if before != "" { assert before[0] in before; }
        assert line[k + 1] == if before != "" then before[0] else '-';
        assert line[k..k + 2][1] == line[k + 1];
      }
    } else {
      assert before[k - |items|] in before && line[k] == before[k - |items|];
      assert line[k..k + 2][0] == line[k];
    }
  }

  predicate SaysKind(source: string, kind: ControlKind, rest: string) {
    source == KeywordOf(kind) + rest && (rest != "" ==> IsBlank(rest[0]))
  }

  /** Nothing else is a control. */
  lemma {:induction false} NoKeyword(source: string, number: nat)
    ensures ControlNode(source, number) == Bad(UnknownControl) <==> forall kind, rest :: !SaysKind(source, kind, rest)
  {
    hide Trim, FindText, RunEnd;
    var end := RunEnd(source, 0, NotBlank());
    WordEnds(source, 0);
    var word := source[..end];
    assert source == word + source[end..];
    if KindOf(word).Some? {
      var kind := KindOf(word).value;
      assert KeywordOf(kind) == word;
      assert SaysKind(source, kind, source[end..]);
    }
    forall kind, rest | SaysKind(source, kind, rest) ensures KindOf(word) == Some(kind) {
      KeywordRead(kind, rest);
    }
    OnlyUnknown(source, number);
  }

  lemma OnlyUnknown(source: string, number: nat)
    ensures ControlNode(source, number) == Bad(UnknownControl) <==> KindOf(source[..RunEnd(source, 0, NotBlank())]).None?
  {
    hide Trim, FindText, RunEnd;
  }

  lemma {:induction false} WordEnds(s: string, i: nat)
    requires i <= |s|
    ensures RunEnd(s, i, NotBlank()) < |s| ==> IsBlank(s[RunEnd(s, i, NotBlank())])
    decreases |s| - i
  {
    if i < |s| && !IsBlank(s[i]) { WordEnds(s, i + 1); }
  }

  /** A control line as the template has it, after its dash. */
  lemma {:induction false} DashedLine(gap: string, control: string, number: nat)
    requires Blanks(gap) && Solid(control) && control[0] != '#'
    ensures NodeOf("-" + (gap + control), number) == ControlNode(control, number)
  {
    hide ControlNode, Trim, IsNameCharacter;
    var line := "-" + (gap + control);
    assert line[0] == '-' && line[1..] == gap + control;
    if gap != "" { assert gap[0] in gap && line[1] == gap[0]; } else { assert line[1] == control[0]; }
    SpacedTrims(gap, control);
  }

  lemma {:induction false} KeywordSolid(kind: ControlKind, middle: string, last: string)
    requires Solid(last)
    ensures var control := KeywordOf(kind) + (middle + last); Solid(control) && control[0] != '#'
  {
    LineSolid(KeywordOf(kind), middle, last);
    assert KeywordOf(kind) + middle + last == KeywordOf(kind) + (middle + last);
    assert (KeywordOf(kind) + (middle + last))[0] == KeywordOf(kind)[0];
  }

  /** A line of `if`, `elsif` or `unless` and the expression after it. */
  lemma {:induction false} ConditionReadsBack(dash: string, kind: ControlKind, gap: string, source: string, number: nat)
    requires kind.If? || kind.Elsif? || kind.Unless?
    requires Blanks(dash) && Blanks(gap) && gap != "" && Solid(source)
    ensures NodeOf("-" + (dash + (KeywordOf(kind) + (gap + source))), number) ==
              match ExpressionOf(source)
              case Bad(error) => Bad(error)
              case Good(value) => Good(Leaf(Control(kind, Some(value), ""), number))
  {
    hide NodeOf, ControlNode, ExpressionOf, KeywordOf;
    KeywordSolid(kind, gap, source);
    DashedLine(dash, KeywordOf(kind) + (gap + source), number);
    ConditionControl(kind, gap, source, number);
  }

  /** A line of `else`, whatever comes after a blank. */
  lemma {:induction false} ElseReadsBack(dash: string, rest: string, number: nat)
    requires Blanks(dash) && (rest != "" ==> IsBlank(rest[0]) && !IsSpace(rest[|rest| - 1]))
    ensures NodeOf("-" + (dash + ("else" + rest)), number) == Good(Leaf(Control(Else, None, ""), number))
  {
    hide NodeOf, ControlNode;
    var control := "else" + rest;
    assert control[0] == 'e' && control[|control| - 1] == if rest == "" then 'e' else rest[|rest| - 1];
    DashedLine(dash, control, number);
    ElseControl(rest, number);
  }

  /** A line of `for items -> $name`, the `$` there or not. */
  lemma {:induction false} LoopReadsBack(dash: string, gap: string, items: string, before: string, after: string,
                                         dollar: bool, name: string, number: nat)
    requires Blanks(dash) && Blanks(gap) && gap != "" && Blanks(before) && Blanks(after)
    requires Solid(items) && Arrowless(items)
    requires Solid(name) && !("$" <= name)
    ensures var line := items + before + "->" + after + (if dollar then "$" else "") + name;
            NodeOf("-" + (dash + ("for" + (gap + line))), number) ==
              match ExpressionOf(items)
              case Bad(error) => Bad(error)
              case Good(value) => Good(Leaf(Control(For, Some(value), name), number))
  {
    hide NodeOf, ControlNode, ExpressionOf, Arrowless;
    var middle := before + "->" + after + if dollar then "$" else "";
    var line := items + before + "->" + after + (if dollar then "$" else "") + name;
    LineSolid(items, middle, name);
    assert items + middle + name == line;
    KeywordSolid(For, gap, line);
    DashedLine(dash, "for" + (gap + line), number);
    LoopControl(gap, items, before, after, dollar, name, number);
  }

  /** A line that begins with a dash is refused as unknown if and only if what is after the
      dash begins with no keyword. */
  lemma {:induction false} UnknownExactly(content: string, number: nat)
    requires "-" <= content && !("-#" <= content)
    ensures NodeOf(content, number) == Bad(UnknownControl) <==> forall kind, rest :: !SaysKind(Trim(content[1..]), kind, rest)
  {
    hide ControlNode, Trim, SaysKind, IsNameCharacter;
    NoKeyword(Trim(content[1..]), number);
    assert NodeOf(content, number) == ControlNode(Trim(content[1..]), number);
  }

  // ------------------------------------------------------------- elements

  datatype Sign = Sign(class_: bool, name: string)

  datatype List = List(items: seq<Item>, tail: string, braces: bool)

  /** An element as it is written at the start of a line. */
  datatype Written = Written(tag: Option<string>, signs: seq<Sign>, list: Option<List>, closed: bool)

  function SignsText(signs: seq<Sign>): string {
    if signs == [] then "" else SignText(signs[0]) + SignsText(signs[1..])
  }

  function ListText(list: Option<List>): string {
    match list
    case None => ""
    case Some(l) => (if l.braces then "{" else "(") + (ItemsText(l.items) + l.tail) + (if l.braces then "}" else ")")
  }

  function TagText(tag: Option<string>): string { if tag.None? then "" else "%" + tag.value }

  function Text(w: Written): string {
    TagText(w.tag) + (SignsText(w.signs) + (ListText(w.list) + SlashText(w.closed)))
  }

  function ClassesOf(signs: seq<Sign>): seq<string> {
    if signs == [] then [] else (if signs[0].class_ then [signs[0].name] else []) + ClassesOf(signs[1..])
  }

  /** The last id given, or the one before. */
  function IdOf(signs: seq<Sign>, id: string): string
    decreases signs
  {
    if signs == [] then id else IdOf(signs[1..], if signs[0].class_ then id else signs[0].name)
  }

  function ElementOf(w: Written): Content {
    Element(if w.tag.None? then "div" else w.tag.value, ClassesOf(w.signs), IdOf(w.signs, ""),
            if w.list.None? then [] else Meaning(w.list.value.items, ""), w.closed, false)
  }

  predicate WellSigned(signs: seq<Sign>) {
    forall s | s in signs :: s.name != "" && forall c | c in s.name :: IsNameCharacter(c)
  }

  predicate WellWritten(w: Written) {
    && (w.tag.Some? ==> forall c | c in w.tag.value :: IsTagCharacter(c)) && (w.tag.None? ==> w.signs != [])
    && WellSigned(w.signs) && (w.list.Some? ==> WellListed(w.list.value.items, w.list.value.tail, true, false))
  }

  /** What may come after an element without being part of it. */
  predicate Apart(rest: string) { rest != "" ==> !IsTagCharacter(rest[0]) && rest[0] !in "%.#{(/" }

  function SignText(sign: Sign): string { (if sign.class_ then "." else "#") + sign.name }

  predicate EndsName(rest: string) { rest != "" ==> !IsNameCharacter(rest[0]) && rest[0] != '.' && rest[0] != '#' }

  /** One mark, read where it was written. */
  lemma SignRead(content: string, index: nat, sign: Sign, more: string)
    requires sign.name != "" && forall c | c in sign.name :: IsNameCharacter(c)
    requires index <= |content| && content[index..] == SignText(sign) + more && (more != "" ==> !IsNameCharacter(more[0]))
    ensures var end := index + |SignText(sign)|;
            && index + 1 < end <= |content| && content[index] == (if sign.class_ then '.' else '#')
            && RunEnd(content, index + 1, IsNameCharacter) == end && content[index + 1..end] == sign.name && content[end..] == more
  {
    var end, tail := index + |SignText(sign)|, content[index..];
    assert content[index] == tail[0];
    assert forall k | 1 <= k < |SignText(sign)| :: content[index + k] == tail[k] == sign.name[k - 1];
    forall k | index + 1 <= k < end ensures IsNameCharacter(content[k]) {
      assert content[k] == content[index + (k - index)] == sign.name[k - index - 1] && sign.name[k - index - 1] in sign.name;
    }
    assert content[end..] == tail[|SignText(sign)|..] == more;
    if end < |content| { assert content[end] == more[0]; }
    RunEndsAt(content, index + 1, end, IsNameCharacter);
  }

  lemma NoSigns(content: string, index: nat, classes: seq<string>, id: string)
    requires index <= |content| && (index < |content| ==> content[index] != '.' && content[index] != '#')
    ensures ShorthandFrom(content, index, classes, id) == Good(Shorthand(classes, id, index))
  {
  }

  lemma SignTaken(content: string, index: nat, sign: Sign, classes: seq<string>, id: string)
    requires var end := index + |SignText(sign)|;
             && index + 1 < end <= |content| && content[index] == (if sign.class_ then '.' else '#')
             && RunEnd(content, index + 1, IsNameCharacter) == end && content[index + 1..end] == sign.name
    ensures ShorthandFrom(content, index, classes, id) ==
              ShorthandFrom(content, index + |SignText(sign)|, if sign.class_ then classes + [sign.name] else classes,
                            if sign.class_ then id else sign.name)
  {
    hide RunEnd, SignText;
  }

  /** The first of several marks, and what the others make of it. */
  lemma SignsStep(signs: seq<Sign>, rest: string, classes: seq<string>, id: string)
    requires signs != [] && WellSigned(signs)
    ensures var sign, others := signs[0], signs[1..];
            && WellSigned(others) && sign.name != "" && (forall c | c in sign.name :: IsNameCharacter(c))
            && SignsText(signs) + rest == SignText(sign) + (SignsText(others) + rest)
            && |SignsText(signs)| == |SignText(sign)| + |SignsText(others)|
            && classes + ClassesOf(signs) == (if sign.class_ then classes + [sign.name] else classes) + ClassesOf(others)
            && IdOf(signs, id) == IdOf(others, if sign.class_ then id else sign.name)
  {
    hide IsNameCharacter;
    assert signs[0] in signs && forall s | s in signs[1..] :: s in signs;
  }

  lemma NoMarks(rest: string, classes: seq<string>, id: string)
    ensures SignsText([]) + rest == rest && classes + ClassesOf([]) == classes && IdOf([], id) == id && |SignsText([])| == 0
  {
  }

  lemma {:induction false} SignsPassed(content: string, index: nat, signs: seq<Sign>, rest: string, classes: seq<string>,
                                       id: string)
    requires WellSigned(signs) && index <= |content| && content[index..] == SignsText(signs) + rest
    requires rest != "" ==> !IsNameCharacter(rest[0])
    ensures var end := index + |SignsText(signs)|;
            && end <= |content| && content[end..] == rest
            && ShorthandFrom(content, index, classes, id)
                 == ShorthandFrom(content, end, classes + ClassesOf(signs), IdOf(signs, id))
    decreases signs
  {
    hide *;
    if signs == [] {
      NoMarks(rest, classes, id);
    } else {
      var sign, more := signs[0], SignsText(signs[1..]) + rest;
      SignsStep(signs, rest, classes, id);
      MoreSigns(signs[1..], rest);
      SignRead(content, index, sign, more);
      SignTaken(content, index, sign, classes, id);
      SignsPassed(content, index + |SignText(sign)|, signs[1..], rest, if sign.class_ then classes + [sign.name] else classes,
                  if sign.class_ then id else sign.name);
    }
  }

  lemma SignsRead(content: string, index: nat, signs: seq<Sign>, rest: string, classes: seq<string>, id: string)
    requires WellSigned(signs) && index <= |content| && content[index..] == SignsText(signs) + rest && EndsName(rest)
    ensures ShorthandFrom(content, index, classes, id)
         == Good(Shorthand(classes + ClassesOf(signs), IdOf(signs, id), index + |SignsText(signs)|))
  {
    hide ShorthandFrom, SignsText, WellSigned;
    SignsPassed(content, index, signs, rest, classes, id);
    var end := index + |SignsText(signs)|;
    if rest != "" { assert content[end] == content[end..][0]; }
    NoSigns(content, end, classes + ClassesOf(signs), IdOf(signs, id));
  }

  lemma MoreSigns(signs: seq<Sign>, rest: string)
    requires rest != "" ==> !IsNameCharacter(rest[0])
    ensures var more := SignsText(signs) + rest; more != "" ==> !IsNameCharacter(more[0])
  {
    if signs != [] { assert SignsText(signs)[0] == '.' || SignsText(signs)[0] == '#'; } else { assert SignsText(signs) + rest == rest; }
  }

  lemma TagRead(content: string, tag: Option<string>, rest: string)
    requires content == TagText(tag) + rest && content != ""
    requires tag.Some? ==> forall c | c in tag.value :: IsTagCharacter(c)
    requires rest != "" ==> !IsTagCharacter(rest[0]) && rest[0] != '%'
    ensures TagEnd(content) == |TagText(tag)| && content[TagEnd(content)..] == rest
    ensures tag.Some? ==> content[0] == '%' && content[1..TagEnd(content)] == tag.value
    ensures tag.None? ==> content[0] != '%'
  {
    if tag.Some? {
      var end := |TagText(tag)|;
      forall k | 1 <= k < end ensures IsTagCharacter(content[k]) { assert content[k] == tag.value[k - 1] && tag.value[k - 1] in tag.value; }
      if end < |content| { assert content[end] == rest[0]; }
      RunEndsAt(content, 1, end, IsTagCharacter);
    } else {
      assert content == rest;
    }
  }

  lemma ListRead(content: string, index: nat, list: Option<List>, rest: string)
    requires list.Some? ==> WellListed(list.value.items, list.value.tail, true, false)
    requires index <= |content| && content[index..] == ListText(list) + rest
    requires rest != "" ==> rest[0] != '{' && rest[0] != '('
    ensures ListAt(content, index) == Good((if list.None? then [] else Meaning(list.value.items, ""), index + |ListText(list)|))
  {
    hide *;
    if list.None? {
      NoList(content, index, rest);
    } else {
      var l := list.value;
      ListShape(l);
      TakenAt(content, index, ListText(list), rest);
      ListReadsBack(content, index, l.items, l.tail, l.braces);
      ListTaken(content, index, |ItemsText(l.items) + l.tail|, l.braces, Meaning(l.items, ""));
    }
  }

  lemma NoList(content: string, index: nat, rest: string)
    requires index <= |content| && content[index..] == ListText(None) + rest
    requires rest != "" ==> rest[0] != '{' && rest[0] != '('
    ensures ListAt(content, index) == Good(([], index + |ListText(None)|))
  {
    assert content[index..] == rest;
    if rest != "" { assert content[index] == rest[0]; }
  }

  lemma ListShape(l: List)
    ensures var body := ItemsText(l.items) + l.tail;
            && ListText(Some(l)) == (if l.braces then "{" else "(") + body + (if l.braces then "}" else ")")
            && |ListText(Some(l))| == |body| + 2 && ListText(Some(l))[0] == (if l.braces then '{' else '(')
  {
    hide ItemsText;
  }

  lemma TakenAt(content: string, index: nat, written: string, rest: string)
    requires index <= |content| && content[index..] == written + rest && written != ""
    ensures index + |written| <= |content| && content[index..index + |written|] == written && content[index] == written[0]
  {
    assert content[index..][..|written|] == written;
  }

  lemma ListTaken(content: string, index: nat, length: nat, braces: bool, attributes: seq<Attribute>)
    requires index + length + 1 < |content| && content[index] == if braces then '{' else '('
    requires ListEnd(content, index, if braces then ('{', '}') else ('(', ')'), 0, None) == index + 1 + length
    requires AttributesFrom(content[index + 1..index + 1 + length], 0, "") == Good(attributes)
    ensures ListAt(content, index) == Good((attributes, index + length + 2))
  {
    hide AttributesFrom, ListEnd;
  }

  function SlashText(closed: bool): string { if closed then "/" else "" }

  /** What follows an element's tag, its marks and its list. */
  lemma After(w: Written, rest: string)
    requires WellWritten(w) && Apart(rest)
    ensures var last := SlashText(w.closed) + rest;
            && (last != "" ==> last[0] != '{' && last[0] != '(' && (last[0] == '/' <==> w.closed))
            && EndsName(ListText(w.list) + last)
            && var marks := SignsText(w.signs) + (ListText(w.list) + last);
               && (marks != "" ==> !IsTagCharacter(marks[0]) && marks[0] != '%')
               && (w.tag.None? ==> marks != "" && marks[0] in ".#")
  {
    hide ItemsText;
    var last := SlashText(w.closed) + rest;
    var after := ListText(w.list) + last;
    assert w.closed ==> last[0] == '/';
    assert !w.closed ==> last == rest;
    if w.list.None? { assert after == last; } else { assert after[0] == ListText(w.list)[0] && ListText(w.list)[0] in "{("; }
    if w.signs == [] {
      assert SignsText(w.signs) + after == after;
    } else {
      assert SignsText(w.signs)[0] == SignText(w.signs[0])[0];
    }
  }

  /** An element's line after its tag. */
  lemma Parts(w: Written, rest: string)
    ensures var content, start := Text(w) + rest, |TagText(w.tag)|;
            var marks := SignsText(w.signs) + (ListText(w.list) + (SlashText(w.closed) + rest));
            content == TagText(w.tag) + marks && content[start..] == marks
  {
    hide SignsText, ListText, TagText;
  }

  /** And after its marks, after its list and after its slash. */
  lemma PartsAfter(w: Written, rest: string)
    ensures var content, next := Text(w) + rest, |TagText(w.tag)| + |SignsText(w.signs)|;
            var end, last := next + |ListText(w.list)|, SlashText(w.closed) + rest;
            && end <= |content| && |Text(w)| == end + |SlashText(w.closed)|
            && content[next..] == ListText(w.list) + last && content[end..] == last && content[|Text(w)|..] == rest
  {
    hide SignsText, ListText, TagText, SlashText;
    var content, start := Text(w) + rest, |TagText(w.tag)|;
    var list, last := ListText(w.list), SlashText(w.closed) + rest;
    Parts(w, rest);
    Behind(content, start, SignsText(w.signs), list + last);
    Behind(content, start + |SignsText(w.signs)|, list, last);
  }

  lemma Behind(content: string, at: nat, a: string, b: string)
    requires at <= |content| && content[at..] == a + b
    ensures at + |a| <= |content| && content[at + |a|..] == b
  {
    assert content[at..][|a|..] == b;
  }

  lemma HeadTaken(content: string, tag: string, short: Shorthand, attributes: seq<Attribute>, end: nat)
    requires content != "" && content[0] in "%.#"
    requires tag == if content[0] == '%' then content[1..TagEnd(content)] else "div"
    requires ShorthandFrom(content, TagEnd(content), [], "") == Good(short)
    requires ListAt(content, short.next) == Good((attributes, end))
    ensures HeadOf(content) == Good(HeadFrom(content, tag, short, attributes, end))
  {
    hide ShorthandFrom, ListAt, TagEnd, HeadFrom;
  }

  lemma HeadClosed(content: string, tag: string, short: Shorthand, attributes: seq<Attribute>, end: nat, closed: bool)
    requires end <= |content| && (closed <==> end < |content| && content[end] == '/')
    ensures HeadFrom(content, tag, short, attributes, end)
         == Head(Element(tag, short.classes, short.id, attributes, closed, false), end + if closed then 1 else 0)
  {
  }

  /** The tag and the marks of an element, read where they were written. */
  lemma SignsReadBack(w: Written, rest: string)
    requires WellWritten(w) && Apart(rest)
    ensures var content, start := Text(w) + rest, |TagText(w.tag)|;
            && content != "" && content[0] in "%.#" && TagEnd(content) == start
            && (w.tag.Some? <==> content[0] == '%') && (w.tag.Some? ==> content[1..start] == w.tag.value)
            && ShorthandFrom(content, start, [], "")
                 == Good(Shorthand(ClassesOf(w.signs), IdOf(w.signs, ""), start + |SignsText(w.signs)|))
  {
    hide *;
    var content, start := Text(w) + rest, |TagText(w.tag)|;
    var after := ListText(w.list) + (SlashText(w.closed) + rest);
    Parts(w, rest);
    After(w, rest);
    WrittenParts(w);
    assert w.tag.None? ==> content == SignsText(w.signs) + after;
    TagRead(content, w.tag, SignsText(w.signs) + after);
    SignsRead(content, start, w.signs, after, [], "");
    assert [] + ClassesOf(w.signs) == ClassesOf(w.signs);
  }

  /** An element reads back as its tag, its classes, its id, its attributes and whether it
      closes itself, and what follows it begins where it ends. */
  lemma ElementReadsBack(w: Written, rest: string)
    requires WellWritten(w) && Apart(rest)
    ensures var content := Text(w) + rest;
            && content != "" && content[0] in "%.#"
            && HeadOf(content) == Good(Head(ElementOf(w), |Text(w)|)) && content[|Text(w)|..] == rest
  {
    hide *;
    var content, next := Text(w) + rest, |TagText(w.tag)| + |SignsText(w.signs)|;
    var last, end := SlashText(w.closed) + rest, next + |ListText(w.list)|;
    SignsReadBack(w, rest);
    WrittenParts(w);
    ListReadBack(w, rest);
    var tag := if w.tag.None? then "div" else w.tag.value;
    var short := Shorthand(ClassesOf(w.signs), IdOf(w.signs, ""), next);
    var attributes := if w.list.None? then [] else Meaning(w.list.value.items, "");
    HeadTaken(content, tag, short, attributes, end);
    HeadClosed(content, tag, short, attributes, end, w.closed);
  }

  /** Its list and its slash. */
  lemma ListReadBack(w: Written, rest: string)
    requires WellWritten(w) && Apart(rest)
    ensures var content, next := Text(w) + rest, |TagText(w.tag)| + |SignsText(w.signs)|;
            var end := next + |ListText(w.list)|;
            && end <= |content| && |Text(w)| == end + |SlashText(w.closed)| && content[|Text(w)|..] == rest
            && ListAt(content, next) == Good((if w.list.None? then [] else Meaning(w.list.value.items, ""), end))
            && (w.closed <==> end < |content| && content[end] == '/')
  {
    hide *;
    var content, next := Text(w) + rest, |TagText(w.tag)| + |SignsText(w.signs)|;
    var last, end := SlashText(w.closed) + rest, next + |ListText(w.list)|;
    PartsAfter(w, rest);
    After(w, rest);
    WrittenParts(w);
    ListRead(content, next, w.list, last);
    SlashAt(content, end, last);
  }

  lemma SlashAt(content: string, end: nat, last: string)
    requires end <= |content| && content[end..] == last
    ensures end < |content| <==> last != ""
    ensures end < |content| ==> content[end] == last[0]
  {
  }

  lemma WrittenParts(w: Written)
    requires WellWritten(w)
    ensures (w.tag.Some? ==> forall c | c in w.tag.value :: IsTagCharacter(c)) && WellSigned(w.signs)
    ensures w.list.Some? ==> WellListed(w.list.value.items, w.list.value.tail, true, false)
    ensures |SlashText(w.closed)| == (if w.closed then 1 else 0) && (w.tag.None? ==> TagText(w.tag) == "")
    ensures ElementOf(w) == Element(if w.tag.None? then "div" else w.tag.value, ClassesOf(w.signs), IdOf(w.signs, ""),
                                    if w.list.None? then [] else Meaning(w.list.value.items, ""), w.closed, false)
    ensures w.tag.Some? ==> TagText(w.tag) != "" && TagText(w.tag)[0] == '%'
  {
    hide WellListed, Meaning, ClassesOf, IdOf, IsTagCharacter;
  }

  lemma ElementLine(content: string, number: nat)
    requires content != "" && content[0] in "%.#"
    ensures NodeOf(content, number) == ElementNode(content, number)
  {
    hide ElementNode, TextNode, ControlNode, OutputNode, Trim;
  }

  /** A line of an element and nothing more. */
  lemma BareElementReadsBack(w: Written, number: nat)
    requires WellWritten(w)
    ensures NodeOf(Text(w), number) == Good(Leaf(ElementOf(w), number))
  {
    hide HeadOf, TextNode, NodeOf, Text, ElementOf, WellWritten;
    ElementReadsBack(w, "");
    assert Text(w) + "" == Text(w) && Text(w)[|Text(w)|..] == "";
    ElementLine(Text(w), number);
  }

  /** And with text after it, which becomes its one child, behind a backslash or not. */
  lemma ElementWithTextReadsBack(w: Written, gap: string, escaped: bool, text: string, parts: seq<Segment>, number: nat)
    requires WellWritten(w) && Blanks(gap) && gap != "" && Solid(text)
    requires escaped || (!StartsOutput(text) && text[0] != '\\')
    ensures var node := Node(ElementOf(w), [Leaf(Template.Text(parts), number)], number);
            NodeOf(Text(w) + (gap + if escaped then "\\" + text else text), number) == Good(node) <==> Says(parts, text)
  {
    hide HeadOf, Interpolated, NodeOf, Text, ElementOf, WellWritten, Trim, Says;
    var line := if escaped then "\\" + text else text;
    assert line[0] == (if escaped then '\\' else text[0]) && line[|line| - 1] == text[|text| - 1];
    assert DropBackslash(line) == text by { if escaped { assert line[1..] == text; } }
    assert gap[0] in gap && (gap + line)[0] == gap[0];
    CompiledExactly(text, parts);
    ElementReadsBack(w, gap + line);
    SpacedTrims(gap, line);
    ElementLine(Text(w) + (gap + line), number);
  }

  /** With an expression after it, which becomes its one child. */
  lemma ElementWithOutputReadsBack(w: Written, escaped: bool, gap: string, source: string, number: nat)
    requires WellWritten(w) && Blanks(gap) && Solid(source)
    ensures NodeOf(Text(w) + ((if escaped then "=" else "!=") + (gap + source)), number) ==
              match ExpressionOf(source)
              case Bad(error) => Bad(error)
              case Good(value) => Good(Node(ElementOf(w), [Leaf(Output(value, escaped), number)], number))
  {
    hide HeadOf, ExpressionOf, NodeOf, Text, ElementOf, WellWritten, Trim;
    var sign := if escaped then "=" else "!=";
    var line := sign + (gap + source);
    OutputSolid(sign, gap, source);
    ElementReadsBack(w, line);
    SpacedTrims("", line);
    assert "" + line == line;
    OutputReadsBack(escaped, gap, source, number);
    ElementLine(Text(w) + line, number);
  }

  lemma OutputSolid(sign: string, gap: string, source: string)
    requires sign == "=" || sign == "!="
    requires Solid(source)
    ensures var line := sign + (gap + source); Solid(line) && Apart(line) && StartsOutput(line) && line != ""
  {
    var line := sign + (gap + source);
    assert line[0] == sign[0] && line[|line| - 1] == source[|source| - 1];
    assert sign == "!=" ==> line[1] == '=';
  }
}

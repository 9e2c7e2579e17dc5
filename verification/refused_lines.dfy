/** The lines a template cannot have, and what they are refused for (src/blogin/haml.cpp). */
module RefusedLines {
  import opened Strings
  import opened Template
  import opened Compiling
  import opened Interpolation
  import opened Preserved
  import opened Attributes
  import opened AttributeLists
  import opened Building
  import opened WrittenLines

  /** A line of text is refused just when there is no way to split it. */
  lemma {:induction false} TextRefused(text: string, number: nat)
    ensures NodeOf("\\" + text, number).Good? <==> exists parts :: Says(parts, text)
  {
    hide Interpolated, Says, ElementNode, ControlNode, OutputNode, Trim;
    var line := "\\" + text;
    assert line[0] == '\\' && line[1..] == text;
    assert NodeOf(line, number) == TextNode(text, number);
    if parts :| Says(parts, text) { CompiledExactly(text, parts); }
    if Interpolated(text).Good? { CompiledExactly(text, Interpolated(text).value); }
  }

  /** A loop needs an arrow, and a name after it. */
  lemma {:induction false} LoopRefused(dash: string, gap: string, items: string, before: string, dollar: bool, number: nat)
    requires Blanks(dash) && Blanks(gap) && gap != "" && Blanks(before) && Solid(items) && Arrowless(items)
    ensures NodeOf("-" + (dash + ("for" + (gap + items))), number) == Bad(NoArrow)
    ensures var line := items + (before + (if dollar then "->$" else "->"));
            NodeOf("-" + (dash + ("for" + (gap + line))), number) == Bad(NoLoopName)
  {
    hide NodeOf, ControlNode, LoopNode, Arrowless;
    KeywordSolid(For, gap, items);
    DashedLine(dash, "for" + (gap + items), number);
    ForLine(gap, items, number);
    NoneFound(items, 0);
    var arrow := if dollar then "->$" else "->";
    var line := items + (before + arrow);
    LineSolid(items, before, arrow);
    assert items + before + arrow == line;
    KeywordSolid(For, gap, line);
    DashedLine(dash, "for" + (gap + line), number);
    ForLine(gap, line, number);
    NamelessLoop(items, before, dollar, number);
    assert LoopNode(items, number) == Bad(NoArrow) by { ArrowlessLoop(items, number); }
  }

  lemma ForLine(gap: string, rest: string, number: nat)
    requires Blanks(gap) && gap != "" && Solid(rest)
    ensures ControlNode("for" + (gap + rest), number) == LoopNode(rest, number)
  {
    hide RunEnd, Trim, LoopNode;
    assert gap[0] in gap;
    KeywordRead(For, gap + rest);
    SpacedTrims(gap, rest);
  }

  lemma {:induction false} NoneFound(s: string, i: nat)
    requires Arrowless(s) && i <= |s|
    ensures FindText(s, "->", i).None?
  {
    FoundExactly(s, "->", i);
    if FindText(s, "->", i).Some? { assert StandsAt(s, "->", FindText(s, "->", i).value); }
  }

  lemma ArrowlessLoop(items: string, number: nat)
    requires Arrowless(items)
    ensures LoopNode(items, number) == Bad(NoArrow)
  {
    hide FindText, Trim;
    NoneFound(items, 0);
  }

  lemma NamelessLoop(items: string, before: string, dollar: bool, number: nat)
    requires Blanks(before) && Arrowless(items)
    ensures LoopNode(items + (before + (if dollar then "->$" else "->")), number) == Bad(NoLoopName)
  {
    hide FindText, ExpressionOf;
    var after := if dollar then "$" else "";
    var line, at := items + before + ("->" + after), |items| + |before|;
    assert line == items + (before + (if dollar then "->$" else "->"));
    ArrowAt(items, before, after);
    assert line[at + 2..] == after;
    assert Trim("$") == "$" && DropDollar("$") == "";
  }

  // ------------------------------------------------------------- elements

  /** A tag and marks, and what comes after them. */
  lemma MarksBefore(tag: Option<string>, signs: seq<Sign>, rest: string)
    requires (tag.Some? ==> forall c | c in tag.value :: IsTagCharacter(c)) && WellSigned(signs)
    requires rest != "" && !IsTagCharacter(rest[0]) && rest[0] != '%'
    requires tag.None? && signs == [] ==> rest[0] in ".#"
    ensures var content := TagText(tag) + (SignsText(signs) + rest);
            var end := |TagText(tag)| + |SignsText(signs)|;
            && content != "" && content[0] in "%.#" && end <= |content| && content[end..] == rest
            && ShorthandFrom(content, TagEnd(content), [], "") == ShorthandFrom(content, end, ClassesOf(signs), IdOf(signs, ""))
  {
    hide ShorthandFrom, TagEnd, IsTagCharacter, IsNameCharacter, WellSigned, SignsText, TagText, ClassesOf, IdOf;
    var marks := SignsText(signs) + rest;
    var content := TagText(tag) + marks;
    NoNameCharacter(rest[0]);
    SignsStart(signs, rest);
    TagStart(tag, marks);
    TagRead(content, tag, marks);
    SignsPassed(content, |TagText(tag)|, signs, rest, [], "");
    assert [] + ClassesOf(signs) == ClassesOf(signs);
  }

  lemma NoNameCharacter(c: char)
    ensures !IsTagCharacter(c) ==> !IsNameCharacter(c)
  {
  }

  lemma SignsStart(signs: seq<Sign>, rest: string)
    ensures if signs == [] then SignsText(signs) + rest == rest
            else
              var marks := SignsText(signs) + rest;
              marks != "" && marks[0] in ".#" && !IsTagCharacter(marks[0]) && marks[0] != '%'
  {
    if signs == [] {
      assert SignsText(signs) + rest == rest;
    } else {
      assert (SignsText(signs) + rest)[0] == SignText(signs[0])[0];
    }
  }

  lemma TagStart(tag: Option<string>, marks: string)
    requires marks != ""
    ensures var content := TagText(tag) + marks;
            content != "" && content[|TagText(tag)|..] == marks && if tag.None? then content == marks else content[0] == '%'
  {
    if tag.None? { assert TagText(tag) + marks == marks; }
  }

  lemma HeadRefused(content: string, error: CompileError, number: nat)
    requires content != "" && content[0] in "%.#" && HeadOf(content) == Bad(error)
    ensures NodeOf(content, number) == Bad(error)
  {
    hide HeadOf, TextNode, NodeOf, Trim;
    ElementLine(content, number);
  }

  /** A mark needs a name. */
  lemma MarkRefused(tag: Option<string>, signs: seq<Sign>, mark: char, rest: string, number: nat)
    requires (tag.Some? ==> forall c | c in tag.value :: IsTagCharacter(c)) && WellSigned(signs) && mark in ".#"
    requires rest != "" ==> !IsNameCharacter(rest[0])
    ensures NodeOf(TagText(tag) + (SignsText(signs) + ([mark] + rest)), number) == Bad(NoNameAfterMark)
  {
    hide TagEnd, ListAt, IsNameCharacter, IsTagCharacter, WellSigned, SignsText, TagText, ClassesOf, IdOf, NodeOf;
    MarkIsNoName(mark);
    var after := [mark] + rest;
    MarksBefore(tag, signs, after);
    var content, end := TagText(tag) + (SignsText(signs) + after), |TagText(tag)| + |SignsText(signs)|;
    assert content[end] == content[end..][0] == mark;
    if rest != "" { assert content[end + 1] == content[end..][1] == rest[0]; } else { assert |content[end..]| == 1; }
    assert ShorthandFrom(content, end, ClassesOf(signs), IdOf(signs, "")) == Bad(NoNameAfterMark);
    HeadRefused(content, NoNameAfterMark, number);
  }

  lemma MarkIsNoName(mark: char)
    requires mark in ".#("
    ensures !IsTagCharacter(mark) && mark != '%'
  {
  }

  /** An attribute list needs its bracket, and each attribute in it a name. */
  lemma ListRefused(tag: Option<string>, signs: seq<Sign>, braces: bool, body: string, number: nat)
    requires (tag.Some? ==> forall c | c in tag.value :: IsTagCharacter(c)) && WellSigned(signs) && (tag.Some? || signs != [])
    ensures var content := TagText(tag) + (SignsText(signs) + ((if braces then "{" else "(") + body));
            var from, brackets := |TagText(tag)| + |SignsText(signs)|, if braces then ('{', '}') else ('(', ')');
            (forall i | from <= i < |content| :: !Balances(content, from, i, brackets)) ==>
              NodeOf(content, number) == Bad(UnterminatedAttributes)
  {
    hide TagEnd, IsTagCharacter, WellSigned, SignsText, TagText, ClassesOf, IdOf, NodeOf, Balances, ListEnd, AttributesFrom;
    var after := (if braces then "{" else "(") + body;
    var content := TagText(tag) + (SignsText(signs) + after);
    var from, brackets := |TagText(tag)| + |SignsText(signs)|, if braces then ('{', '}') else ('(', ')');
    MarkIsNoName('(');
    BraceIsNoName();
    assert after[0] == brackets.0;
    MarksBefore(tag, signs, after);
    assert content[from] == content[from..][0] == brackets.0;
    NoSigns(content, from, ClassesOf(signs), IdOf(signs, ""));
    if forall i | from <= i < |content| :: !Balances(content, from, i, brackets) {
      ListEndExactly(content, from, brackets, |content|);
      assert ListAt(content, from) == Bad(UnterminatedAttributes);
      hide ListAt, ShorthandFrom;
      HeadRefused(content, UnterminatedAttributes, number);
    }
  }

  lemma BraceIsNoName()
    ensures !IsTagCharacter('{')
  {
  }

  /** In a list, what begins neither with a quote nor with a character of a name is refused. */
  lemma NamelessRefused(body: string, gap: string, what: string, prefix: string)
    requires body == gap + what && (forall c | c in gap :: IsSeparator(c))
    requires what != "" && !IsSeparator(what[0]) && !IsQuote(what[0]) && !IsNameCharacter(what[0])
    ensures AttributesFrom(body, 0, prefix) == Bad(NoAttributeName)
  {
    hide IsSeparator, IsQuote, IsNameCharacter;
    forall k | 0 <= k < |gap| ensures IsSeparator(body[k]) { assert body[k] == gap[k] && gap[k] in gap; }
    assert body[|gap|] == what[0];
    RunEndsAt(body, 0, |gap|, IsSeparator);
  }
}

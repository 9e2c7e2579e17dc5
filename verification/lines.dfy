/** A template's lines and the blocks made of them (src/blogin/text.cpp,
    src/blogin/haml.cpp). */
module Lines {
  import opened Strings
  import opened Compiling

  // ------------------------------------------------------------- splitting

  function NotNewline(): char -> bool { c => c != '\n' }

  function DropReturn(line: string): string {
    if line != "" && line[|line| - 1] == '\r' then line[..|line| - 1] else line
  }

  /** The lines of a text from `start` on, each without its line break. */
  function LinesFrom(s: string, start: nat): seq<string>
    requires start <= |s|
    decreases |s| - start
  {
    var end := RunEnd(s, start, NotNewline());
    if end == |s| then if start < |s| then [s[start..]] else []
    else [DropReturn(s[start..end])] + LinesFrom(s, end + 1)
  }

  method SplitLines(s: string) returns (lines: seq<string>)
    ensures lines == LinesFrom(s, 0)
  {
    lines := [];
    var start := 0;
    while start <= |s|
      invariant 0 <= start <= |s| && lines + LinesFrom(s, start) == LinesFrom(s, 0)
      decreases |s| - start
    {
      var end := Scan(s, start, NotNewline());
      if end == |s| {
        if start < |s| { lines := lines + [s[start..]]; }
        return;
      }
      lines := lines + [DropReturn(s[start..end])];
      start := end + 1;
    }
  }

  /** Lines written out, each with its line break. */
  function Unlines(lines: seq<string>): string {
    if lines == [] then "" else lines[0] + "\n" + Unlines(lines[1..])
  }

  predicate IsLine(line: string) { '\n' !in line && (line == "" || line[|line| - 1] != '\r') }

  lemma {:induction false} RunToNewline(s: string, i: nat, end: nat)
    requires i <= end < |s| && s[end] == '\n' && forall k | i <= k < end :: s[k] != '\n'
    ensures RunEnd(s, i, NotNewline()) == end
    decreases end - i
  {
    if i < end { RunToNewline(s, i + 1, end); }
  }

  lemma {:induction false} LinesFromUnlines(before: string, lines: seq<string>)
    requires forall line | line in lines :: IsLine(line)
    ensures LinesFrom(before + Unlines(lines), |before|) == lines
    decreases |lines|
  {
    hide IsLine, Unlines, LinesFrom;
    UnlinesParts(lines);
    if lines == [] {
      assert before + "" == before;
      NoLines(before);
    } else {
      var next := before + lines[0] + "\n";
      assert IsLine(lines[0]);
      forall line | line in lines[1..] ensures IsLine(line) { assert line in lines; }
      LinesFromUnlines(next, lines[1..]);
      FirstLine(before, lines[0], Unlines(lines[1..]));
      assert lines == [lines[0]] + lines[1..];
    }
  }

  lemma UnlinesParts(lines: seq<string>)
    ensures Unlines(lines) == if lines == [] then "" else lines[0] + "\n" + Unlines(lines[1..])
  {
  }

  lemma NoLines(s: string)
    ensures LinesFrom(s, |s|) == []
  {
  }

  lemma FirstLine(before: string, line: string, rest: string)
    requires IsLine(line)
    ensures LinesFrom(before + (line + "\n" + rest), |before|)
         == [line] + LinesFrom(before + line + "\n" + rest, |before + line + "\n"|)
  {
    hide LinesFrom, IsLine;
    var s := before + (line + "\n" + rest);
    var end := |before| + |line|;
    assert s[|before|..end] == line && s[end] == '\n';
    LineHolds(s, |before|, end, line);
    assert s == before + line + "\n" + rest && |before + line + "\n"| == end + 1;
    OneLine(s, |before|);
  }

  lemma OneLine(s: string, start: nat)
    requires start <= |s| && RunEnd(s, start, NotNewline()) < |s|
    ensures var end := RunEnd(s, start, NotNewline());
            LinesFrom(s, start) == [DropReturn(s[start..end])] + LinesFrom(s, end + 1)
  {
  }

  lemma LineHolds(s: string, start: nat, end: nat, line: string)
    requires start <= end < |s| && s[start..end] == line && s[end] == '\n' && IsLine(line)
    ensures RunEnd(s, start, NotNewline()) == end && DropReturn(s[start..end]) == line
  {
    forall k | start <= k < end ensures s[k] != '\n' { assert line[k - start] == s[k]; }
    RunToNewline(s, start, end);
  }

  /** Splitting a text into lines undoes writing the lines out. */
  lemma LinesReadBack(lines: seq<string>)
    requires forall line | line in lines :: IsLine(line)
    ensures LinesFrom(Unlines(lines), 0) == lines
  {
    LinesFromUnlines("", lines);
    assert "" + Unlines(lines) == Unlines(lines);
  }

  lemma {:induction false} RunBehind(before: string, s: string, i: nat)
    requires i <= |s|
    ensures RunEnd(before + s, |before| + i, NotNewline()) == |before| + RunEnd(s, i, NotNewline())
    decreases |s| - i
  {
    if i < |s| && s[i] != '\n' { RunBehind(before, s, i + 1); }
  }

  /** The lines of a text do not depend on what comes before it. */
  lemma {:induction false} LinesBehind(before: string, s: string, i: nat)
    requires i <= |s|
    ensures LinesFrom(before + s, |before| + i) == LinesFrom(s, i)
    decreases |s| - i
  {
    RunBehind(before, s, i);
    var end := RunEnd(s, i, NotNewline());
    assert (before + s)[|before| + i..|before| + end] == s[i..end];
    if end < |s| { LinesBehind(before, s, end + 1); } else { assert (before + s)[|before| + i..] == s[i..]; }
  }

  lemma {:induction false} RunToEnd(s: string, i: nat)
    requires i <= |s| && '\n' !in s
    ensures RunEnd(s, i, NotNewline()) == |s|
    decreases |s| - i
  {
    if i < |s| {
      assert s[i] in s;
      RunToEnd(s, i + 1);
    }
  }

  /** A line ends at a break, and a return directly before the break is part of the break; the
      last line needs none, and then keeps its return. */
  lemma LineEnds(line: string, rest: string)
    requires '\n' !in line
    ensures LinesFrom(line + ("\r\n" + rest), 0) == [line] + LinesFrom(rest, 0)
    ensures (line == "" || line[|line| - 1] != '\r') ==> LinesFrom(line + ("\n" + rest), 0) == [line] + LinesFrom(rest, 0)
    ensures LinesFrom(line, 0) == if line == "" then [] else [line]
  {
    hide LinesFrom;
    WithReturn(line, rest);
    if line == "" || line[|line| - 1] != '\r' { EndedLine(line, line, rest); }
    WithoutBreak(line);
  }

  lemma WithReturn(line: string, rest: string)
    requires '\n' !in line
    ensures LinesFrom(line + ("\r\n" + rest), 0) == [line] + LinesFrom(rest, 0)
  {
    hide LinesFrom;
    var raw := line + "\r";
    assert raw[..|raw| - 1] == line;
    EndedLine(line, raw, rest);
    assert raw + ("\n" + rest) == line + ("\r\n" + rest);
  }

  lemma WithoutBreak(line: string)
    requires '\n' !in line
    ensures LinesFrom(line, 0) == if line == "" then [] else [line]
  {
    RunToEnd(line, 0);
    assert line[0..] == line;
  }

  lemma EndedLine(line: string, raw: string, rest: string)
    requires '\n' !in raw && DropReturn(raw) == line
    ensures LinesFrom(raw + ("\n" + rest), 0) == [line] + LinesFrom(rest, 0)
  {
    hide DropReturn;
    var s, end := raw + ("\n" + rest), |raw|;
    assert s[0..end] == raw && s[end] == '\n';
    forall k | 0 <= k < end ensures s[k] != '\n' { assert s[k] == raw[k] && raw[k] in raw; }
    RunToNewline(s, 0, end);
    assert s == (raw + "\n") + rest;
    LinesBehind(raw + "\n", rest, 0);
    OneLine(s, 0);
  }

  // ------------------------------------------------------------- source lines

  /** A line without its indentation and with it. A blank line has neither. */
  datatype Line = Line(indent: nat, content: string, text: string, number: nat, blank: bool)
  {
    /** What the block text takes for granted of a line that is not blank. */
    predicate Sound() { !blank ==> indent < |text| && content == text[indent..] }
  }

  function SourceLine(raw: string, number: nat): (line: Line)
    ensures line.Sound() && line.number == number
  {
    if Trim(raw) == "" then Line(0, "", "", number, true)
    else
      var indent := RunEnd(raw, 0, IsBlank);
      IndentInside(raw);
      Line(indent, TrimEnd(raw[indent..]), TrimEnd(raw), number, false)
  }

  lemma {:induction false} TrimEndTail(s: string, i: nat)
    requires i <= |s| && TrimEnd(s[i..]) != ""
    ensures i < |TrimEnd(s)| && TrimEnd(s[i..]) == TrimEnd(s)[i..]
    decreases |s|
  {
    if IsSpace(s[|s| - 1]) {
      assert s[i..][|s[i..]| - 1] == s[|s| - 1];
      assert s[i..][..|s[i..]| - 1] == s[..|s| - 1][i..];
      TrimEndTail(s[..|s| - 1], i);
    } else {
      assert s[i..][|s[i..]| - 1] == s[|s| - 1];
    }
  }

  lemma {:induction false} BlanksTrimmed(s: string, i: nat)
    requires i <= |s|
    ensures TrimStart(s[i..]) == TrimStart(s[RunEnd(s, i, IsBlank)..])
    decreases |s| - i
  {
    if i < |s| && IsBlank(s[i]) {
      assert s[i..][1..] == s[i + 1..];
      BlanksTrimmed(s, i + 1);
    }
  }

  lemma {:induction false} SpacesTrimmed(s: string)
    requires TrimEnd(s) == ""
    ensures TrimStart(s) == ""
    decreases |s|
  {
    if s != "" {
      AllSpaces(s);
      StartAllSpaces(s);
    }
  }

  lemma {:induction false} AllSpaces(s: string)
    requires TrimEnd(s) == ""
    ensures forall c | c in s :: IsSpace(c)
    decreases |s|
  {
    if s != "" {
      AllSpaces(s[..|s| - 1]);
      forall c | c in s ensures IsSpace(c) {
        assert s == s[..|s| - 1] + [s[|s| - 1]];
      }
    }
  }

  lemma {:induction false} StartAllSpaces(s: string)
    requires forall c | c in s :: IsSpace(c)
    ensures TrimStart(s) == ""
    decreases |s|
  {
    if s != "" {
      assert s[0] in s;
      forall c | c in s[1..] ensures IsSpace(c) { assert c in s; }
      StartAllSpaces(s[1..]);
    }
  }

  lemma IndentInside(raw: string)
    requires Trim(raw) != ""
    ensures var indent := RunEnd(raw, 0, IsBlank);
            indent < |TrimEnd(raw)| && TrimEnd(raw[indent..]) == TrimEnd(raw)[indent..]
  {
    var indent := RunEnd(raw, 0, IsBlank);
    BlanksTrimmed(raw, 0);
    assert raw[0..] == raw;
    if TrimEnd(raw[indent..]) == "" { SpacesTrimmed(raw[indent..]); }
    TrimEndTail(raw, indent);
  }

  lemma {:induction false} EndTrims(s: string, after: string)
    requires Solid(s) && forall c | c in after :: IsSpace(c)
    ensures TrimEnd(s + after) == s
    decreases after
  {
    var t := s + after;
    if after == "" {
      assert t == s;
    } else {
      var n := |after| - 1;
      assert t[..|t| - 1] == s + after[..n] && t[|t| - 1] == after[n] && after[n] in after;
      EndTrims(s, after[..n]);
    }
  }

  lemma {:induction false} StartTrims(s: string)
    requires exists c :: c in s && !IsSpace(c)
    ensures TrimStart(s) != "" && exists c :: c in TrimStart(s) && !IsSpace(c)
    decreases s
  {
    var c :| c in s && !IsSpace(c);
    if IsSpace(s[0]) {
      assert s == [s[0]] + s[1..];
      StartTrims(s[1..]);
    }
  }

  lemma {:induction false} EndLeft(s: string)
    requires exists c :: c in s && !IsSpace(c)
    ensures TrimEnd(s) != ""
    decreases s
  {
    var c :| c in s && !IsSpace(c);
    if IsSpace(s[|s| - 1]) {
      assert s == s[..|s| - 1] + [s[|s| - 1]];
      EndLeft(s[..|s| - 1]);
    }
  }

  lemma {:induction false} BlanksRun(indent: string, rest: string, i: nat)
    requires i <= |indent| && (forall c | c in indent :: IsBlank(c)) && rest != "" && !IsBlank(rest[0])
    ensures RunEnd(indent + rest, i, IsBlank) == |indent|
    decreases |indent| - i
  {
    if i < |indent| {
      assert (indent + rest)[i] == indent[i] && indent[i] in indent;
      BlanksRun(indent, rest, i + 1);
    }
  }

  /** A line of the source is its indentation, counted in characters, and its content, with
      what trails it dropped; a line of spaces alone is blank. */
  lemma LineTaken(indent: string, content: string, after: string, number: nat)
    requires (forall c | c in indent :: IsBlank(c)) && (forall c | c in after :: IsSpace(c))
    ensures Solid(content) ==>
              SourceLine(indent + (content + after), number) == Line(|indent|, content, indent + content, number, false)
    ensures SourceLine(after, number) == Line(0, "", "", number, true)
  {
    StartAllSpaces(after);
    if Solid(content) {
      var raw := indent + (content + after);
      BlanksRun(indent, content + after, 0);
      assert raw[|indent|..] == content + after;
      EndTrims(content, after);
      assert raw[|indent|] == content[0] && raw[|indent|] in raw;
      StartTrims(raw);
      EndLeft(TrimStart(raw));
      IndentInside(raw);
      TextTrims(indent, content, after);
    }
  }

  lemma TextTrims(indent: string, content: string, after: string)
    requires Solid(content) && forall c | c in after :: IsSpace(c)
    ensures TrimEnd(indent + (content + after)) == indent + content
  {
    var raw := indent + (content + after);
    EndTrims(content, after);
    assert raw[|indent|..] == content + after;
    TrimEndTail(raw, |indent|);
    assert TrimEnd(raw)[|indent|..] == content && TrimEnd(raw) <= raw;
    assert TrimEnd(raw)[..|indent|] == raw[..|indent|] == indent;
    assert TrimEnd(raw) == TrimEnd(raw)[..|indent|] + TrimEnd(raw)[|indent|..];
  }

  /** Every line of the source, numbered from one. */
  function NumberedLines(raws: seq<string>): (lines: seq<Line>)
    ensures |lines| == |raws|
    ensures forall i | 0 <= i < |lines| :: lines[i] == SourceLine(raws[i], i + 1)
  {
    seq(|raws|, i requires 0 <= i < |raws| => SourceLine(raws[i], i + 1))
  }

  function LinesOf(source: string): (lines: seq<Line>)
    ensures forall i | 0 <= i < |lines| :: lines[i].Sound() && lines[i].number == i + 1
  {
    NumberedLines(LinesFrom(source, 0))
  }

  method SourceLines(source: string) returns (lines: seq<Line>)
    ensures lines == LinesOf(source)
  {
    hide Trim, TrimEnd;
    lines := [];
    var number := 0;
    var raws := SplitLines(source);
    while number < |raws|
      invariant 0 <= number <= |raws| && |lines| == number
      invariant forall i | 0 <= i < number :: lines[i] == SourceLine(raws[i], i + 1)
    {
      var raw := raws[number];
      number := number + 1;
      if Trim(raw) == "" {
        lines := lines + [Line(0, "", "", number, true)];
        continue;
      }
      var indent := Scan(raw, 0, IsBlank);
      lines := lines + [Line(indent, TrimEnd(raw[indent..]), TrimEnd(raw), number, false)];
    }
  }

  // ------------------------------------------------------------- block text

  /** The least indentation of the lines that are not blank, if there is any. */
  function Base(lines: seq<Line>): (base: Option<nat>)
    ensures base.Some? ==> forall i | 0 <= i < |lines| && !lines[i].blank :: base.value <= lines[i].indent
    ensures base.None? ==> forall i | 0 <= i < |lines| :: lines[i].blank
  {
    if lines == [] then None
    else
      var rest := Base(lines[..|lines| - 1]);
      var last := lines[|lines| - 1];
      if last.blank then rest
      else if rest.None? || last.indent < rest.value then Some(last.indent)
      else rest
  }

  /** A line as a block writes it, moved left by `base`. */
  function Shifted(line: Line, base: nat): string
    requires line.Sound() && (!line.blank ==> base <= line.indent)
  {
    if line.blank then "" else line.text[base..]
  }

  ghost predicate AllSound(lines: seq<Line>) { forall i | 0 <= i < |lines| :: lines[i].Sound() }

  ghost predicate Indented(lines: seq<Line>, base: nat) {
    forall i | 0 <= i < |lines| && !lines[i].blank :: base <= lines[i].indent
  }

  /** The lines of a block joined by line breaks. */
  ghost function Joined(lines: seq<Line>, base: nat): string
    requires AllSound(lines) && Indented(lines, base)
  {
    if lines == [] then ""
    else if |lines| == 1 then Shifted(lines[0], base)
    else Joined(lines[..|lines| - 1], base) + "\n" + Shifted(lines[|lines| - 1], base)
  }

  /** The text of a block that keeps its whitespace, moved as a whole to column zero. */
  ghost function BlockOf(lines: seq<Line>): string
    requires AllSound(lines)
  {
    var base := Base(lines);
    Joined(lines, if base.Some? then base.value else 0)
  }

  method BlockText(lines: seq<Line>, first: nat, last: nat) returns (body: string)
    requires first <= last <= |lines| && AllSound(lines)
    ensures body == BlockOf(lines[first..last])
  {
    hide Joined, Base;
    var base: Option<nat> := None;
    ghost var block := lines[first..last];
    BaseStep(lines, first, first);
    for index := first to last
      invariant base == Base(lines[first..index])
    {
      BaseStep(lines, first, index + 1);
      if !lines[index].blank && (base.None? || lines[index].indent < base.value) {
        base := Some(lines[index].indent);
      }
    }
    var left := if base.Some? then base.value else 0;
    body := "";
    JoinedStep(lines, first, first, left);
    for index := first to last
      invariant Indented(lines[first..index], left)
      invariant body == Joined(lines[first..index], left)
    {
      assert lines[index] == block[index - first];
      JoinedStep(lines, first, index + 1, left);
      if index > first { body := body + "\n"; }
      if !lines[index].blank { body := body + lines[index].text[left..]; }
    }
  }

  lemma BaseStep(lines: seq<Line>, first: nat, index: nat)
    requires first <= index <= |lines|
    ensures index == first ==> Base(lines[first..index]) == None
    ensures first < index ==>
              var before, line := Base(lines[first..index - 1]), lines[index - 1];
              Base(lines[first..index]) ==
                if line.blank then before
                else if before.None? || line.indent < before.value then Some(line.indent)
                else before
  {
    if first < index { assert lines[first..index][..index - first - 1] == lines[first..index - 1]; }
  }

  lemma JoinedStep(lines: seq<Line>, first: nat, index: nat, base: nat)
    requires first <= index <= |lines| && AllSound(lines)
    requires first < index ==> Indented(lines[first..index - 1], base) && Indented(lines[index - 1..index], base)
    ensures Indented(lines[first..index], base)
    ensures index == first ==> Joined(lines[first..index], base) == ""
    ensures first < index ==> lines[index - 1].Sound() && Indented(lines[index - 1..index], base)
    ensures first + 1 == index && !lines[first].blank ==> base <= lines[first].indent
    ensures first < index && !lines[index - 1].blank ==> base <= lines[index - 1].indent
    ensures first + 1 == index ==> Joined(lines[first..index], base) == Shifted(lines[first], base)
    ensures first + 1 < index ==>
              Joined(lines[first..index], base) ==
                Joined(lines[first..index - 1], base) + "\n" + Shifted(lines[index - 1], base)
  {
    if first < index {
      var part := lines[first..index];
      assert part[..|part| - 1] == lines[first..index - 1];
      forall i | 0 <= i < |part| && !part[i].blank ensures base <= part[i].indent {
        if i < |part| - 1 {
          assert part[i] == lines[first..index - 1][i];
        } else {
          assert part[i] == lines[index - 1..index][0];
        }
      }
      assert !lines[index - 1].blank ==> base <= lines[index - 1].indent by {
        assert lines[index - 1] == lines[index - 1..index][0];
      }
    }
  }

  // ------------------------------------------------------------- what a block holds

  /** The least indentation of lines that are not blank; none at all where all are. */
  ghost predicate LeastIndent(lines: seq<Line>, left: nat) {
    && (forall k | 0 <= k < |lines| && !lines[k].blank :: left <= lines[k].indent)
    && if forall k | 0 <= k < |lines| :: lines[k].blank then left == 0
       else exists k | 0 <= k < |lines| :: !lines[k].blank && lines[k].indent == left
  }

  /** A line without its first `left` characters; a blank line is empty. */
  ghost predicate IsRow(line: Line, left: nat, row: string) {
    if line.blank then row == "" else left <= |line.text| && row == line.text[left..]
  }

  /** The lines moved left as far as the least indented of them goes. */
  ghost predicate MovedLeft(lines: seq<Line>, rows: seq<string>) {
    && |rows| == |lines|
    && exists left :: LeastIndent(lines, left) && forall k | 0 <= k < |lines| :: IsRow(lines[k], left, rows[k])
  }

  /** Rows with a break between each two. */
  function JoinRows(rows: seq<string>): string {
    if rows == [] then "" else if |rows| == 1 then rows[0] else rows[0] + ("\n" + JoinRows(rows[1..]))
  }

  lemma {:induction false} JoinLast(rows: seq<string>, row: string)
    requires rows != []
    ensures JoinRows(rows + [row]) == JoinRows(rows) + "\n" + row
    decreases rows
  {
    assert (rows + [row])[1..] == rows[1..] + [row];
    if |rows| == 1 {
      assert (rows + [row])[1..] == [row];
    } else {
      JoinLast(rows[1..], row);
      var rest := JoinRows(rows[1..]);
      assert rows[0] + ("\n" + (rest + "\n" + row)) == rows[0] + ("\n" + rest) + "\n" + row;
    }
  }

  lemma {:induction false} JoinedRows(lines: seq<Line>, left: nat) returns (rows: seq<string>)
    requires AllSound(lines) && Indented(lines, left)
    ensures Joined(lines, left) == JoinRows(rows)
    ensures |rows| == |lines| && forall k | 0 <= k < |lines| :: IsRow(lines[k], left, rows[k])
    decreases lines
  {
    rows := [];
    if lines != [] {
      var n := |lines| - 1;
      var front := JoinedRows(lines[..n], left);
      rows := front + [Shifted(lines[n], left)];
      if n > 0 { JoinLast(front, Shifted(lines[n], left)); } else { assert rows == [Shifted(lines[0], left)]; }
      forall k | 0 <= k < |lines| ensures IsRow(lines[k], left, rows[k]) {
        if k < n { assert lines[..n][k] == lines[k]; }
      }
    }
  }

  lemma {:induction false} BaseIsLeast(lines: seq<Line>)
    ensures var base := Base(lines); LeastIndent(lines, if base.Some? then base.value else 0)
    ensures Base(lines).Some? ==> exists k | 0 <= k < |lines| :: !lines[k].blank && lines[k].indent == Base(lines).value
    decreases lines
  {
    if lines != [] {
      var n := |lines| - 1;
      BaseIsLeast(lines[..n]);
      var base := Base(lines);
      if base.Some? {
        if !lines[n].blank && lines[n].indent == base.value {
          assert !lines[n].blank && lines[n].indent == base.value;
        } else {
          var k :| 0 <= k < n && !lines[..n][k].blank && lines[..n][k].indent == Base(lines[..n]).value;
          assert !lines[k].blank && lines[k].indent == base.value;
        }
      }
    }
  }

  /** A block is its lines moved left, with a break between each two. */
  lemma BlockIsRows(lines: seq<Line>) returns (rows: seq<string>)
    requires AllSound(lines)
    ensures BlockOf(lines) == JoinRows(rows) && MovedLeft(lines, rows)
  {
    BaseIsLeast(lines);
    var base := Base(lines);
    var left := if base.Some? then base.value else 0;
    rows := JoinedRows(lines, left);
    hide Joined, JoinRows;
    assert LeastIndent(lines, left);
  }

  lemma LeastIsOne(lines: seq<Line>, left: nat, other: nat)
    requires LeastIndent(lines, left) && LeastIndent(lines, other)
    ensures left == other
  {
  }

  /** There is one way to move a block left. */
  lemma MovedOneWay(lines: seq<Line>, rows: seq<string>, others: seq<string>)
    requires MovedLeft(lines, rows) && MovedLeft(lines, others)
    ensures rows == others
  {
    var left: nat :| LeastIndent(lines, left) && forall k | 0 <= k < |lines| :: IsRow(lines[k], left, rows[k]);
    var other: nat :| LeastIndent(lines, other) && forall k | 0 <= k < |lines| :: IsRow(lines[k], other, others[k]);
    LeastIsOne(lines, left, other);
    forall k | 0 <= k < |lines| ensures rows[k] == others[k] {
      assert IsRow(lines[k], left, rows[k]) && IsRow(lines[k], left, others[k]);
    }
  }

  // ------------------------------------------------------------- moving a block

  function Blanks(n: nat): string { seq(n, i => ' ') }

  function MovedLine(line: Line, n: nat): Line {
    if line.blank then line
    else line.(indent := line.indent + n, text := Blanks(n) + line.text)
  }

  function Moved(lines: seq<Line>, n: nat): (moved: seq<Line>)
    ensures |moved| == |lines|
  {
    seq(|lines|, i requires 0 <= i < |lines| => MovedLine(lines[i], n))
  }

  lemma MovedSound(lines: seq<Line>, n: nat)
    requires AllSound(lines)
    ensures AllSound(Moved(lines, n))
  {
    forall i | 0 <= i < |lines| ensures MovedLine(lines[i], n).Sound() {
      var line := lines[i];
      if !line.blank { assert (Blanks(n) + line.text)[line.indent + n..] == line.text[line.indent..]; }
    }
  }

  lemma {:induction false} BaseMoves(lines: seq<Line>, n: nat)
    ensures Base(Moved(lines, n)) == var base := Base(lines); if base.None? then None else Some(base.value + n)
  {
    if lines != [] {
      BaseMoves(lines[..|lines| - 1], n);
      assert Moved(lines, n)[..|lines| - 1] == Moved(lines[..|lines| - 1], n);
    }
  }

  lemma {:induction false} JoinedMoves(lines: seq<Line>, base: nat, n: nat)
    requires AllSound(lines) && Indented(lines, base)
    requires AllSound(Moved(lines, n)) && Indented(Moved(lines, n), base + n)
    ensures Joined(Moved(lines, n), base + n) == Joined(lines, base)
    decreases |lines|
  {
    if lines != [] {
      var last := lines[|lines| - 1];
      var front := lines[..|lines| - 1];
      assert Moved(lines, n)[..|lines| - 1] == Moved(front, n);
      assert Moved(lines, n)[|lines| - 1] == MovedLine(last, n);
      if !last.blank { assert (Blanks(n) + last.text)[base + n..] == last.text[base..]; }
      assert Shifted(MovedLine(last, n), base + n) == Shifted(last, base);
      if |lines| > 1 { JoinedMoves(front, base, n); }
    }
  }

  /** Where a block stands does not matter: moved right as a whole, its text is the same. */
  lemma BlockMoves(lines: seq<Line>, n: nat)
    requires AllSound(lines)
    ensures AllSound(Moved(lines, n)) && BlockOf(Moved(lines, n)) == BlockOf(lines)
  {
    MovedSound(lines, n);
    BaseMoves(lines, n);
    var base := Base(lines);
    if base.Some? {
      JoinedMoves(lines, base.value, n);
    } else {
      AllBlank(lines, n);
    }
  }

  lemma {:induction false} AllBlank(lines: seq<Line>, n: nat)
    requires AllSound(lines) && Base(lines).None?
    ensures Moved(lines, n) == lines
  {
    forall i | 0 <= i < |lines| ensures Moved(lines, n)[i] == lines[i] {
      assert lines[i].blank;
    }
  }
}

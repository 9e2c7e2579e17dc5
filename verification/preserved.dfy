/** Preserved tags written as markup (src/blogin/haml.cpp, unclosed_preserved_tag): the tag
    a line opens and does not close. */
module Preserved {
  import opened Strings
  import opened Compiling

  predicate IsNameCharacter(c: char) { IsLetter(c) || IsDigit(c) || c == '-' || c == '_' }

  predicate Preserves(tag: string) { tag == "pre" || tag == "textarea" }

  function NotAngle(): char -> bool { c => c != '<' }

  /** A `<name` or `</name` in a line. */
  datatype Mark = Mark(name: string, closing: bool)

  /** The mark whose `<` is before `index`, and the index after its name. */
  function MarkAt(content: string, index: nat): (Mark, nat)
    requires index <= |content|
    ensures index <= MarkAt(content, index).1 <= |content|
  {
    var closing := index < |content| && content[index] == '/';
    var start := if closing then index + 1 else index;
    var end := RunEnd(content, start, IsNameCharacter);
    (Mark(content[start..end], closing), end)
  }

  /** Every mark from `index` on, in order. */
  function Marks(content: string, index: nat): seq<Mark>
    requires index <= |content|
    decreases |content| - index
  {
    var at := RunEnd(content, index, NotAngle());
    if at == |content| then []
    else
      var (mark, next) := MarkAt(content, at + 1);
      [mark] + Marks(content, next)
  }

  function Track(open_: string, mark: Mark): string {
    if !Preserves(mark.name) then open_
    else if !mark.closing then mark.name
    else if mark.name == open_ then ""
    else open_
  }

  /** The tag left open after all the marks. */
  function Left(open_: string, marks: seq<Mark>): string
    decreases marks
  {
    if marks == [] then open_ else Left(Track(open_, marks[0]), marks[1..])
  }

  function UnclosedTag(content: string): string { Left("", Marks(content, 0)) }

  method UnclosedPreservedTag(content: string) returns (r: string)
    ensures r == UnclosedTag(content)
  {
    r := "";
    var index := 0;
    while true
      invariant 0 <= index <= |content| && Left(r, Marks(content, index)) == UnclosedTag(content)
      decreases |content| - index
    {
      var at := Scan(content, index, NotAngle());
      if at == |content| { return; }
      ghost var mark := MarkAt(content, at + 1).0;
      index := at + 1;
      var closing := index < |content| && content[index] == '/';
      if closing { index := index + 1; }
      var start := index;
      index := Scan(content, index, IsNameCharacter);
      var name := content[start..index];
      assert mark == Mark(name, closing);
      if !Preserves(name) { continue; }
      if !closing {
        r := name;
      } else if name == r {
        r := "";
      }
    }
  }

  /** An opening mark of a preserved tag. */
  predicate Opens(mark: Mark) { Preserves(mark.name) && !mark.closing }

  /** The tag of the mark at `k` is open at the end: no preserved tag opens after it, and
      nothing after it closes it. */
  predicate StaysOpen(marks: seq<Mark>, k: nat)
    requires k < |marks|
  {
    && Opens(marks[k])
    && forall j | k < j < |marks| :: !Opens(marks[j]) && marks[j] != Mark(marks[k].name, true)
  }

  lemma {:induction false} LeftConcat(open_: string, a: seq<Mark>, b: seq<Mark>)
    ensures Left(open_, a + b) == Left(Left(open_, a), b)
    decreases |a|
  {
    if a == [] {
      assert a + b == b;
    } else {
      assert (a + b)[1..] == a[1..] + b;
      LeftConcat(Track(open_, a[0]), a[1..], b);
    }
  }

  /** A line leaves a tag open exactly when its last opening mark is not closed after it,
      and then that is the tag. */
  lemma {:induction false} LeftOpen(marks: seq<Mark>)
    ensures forall k | 0 <= k < |marks| && StaysOpen(marks, k) :: Left("", marks) == marks[k].name
    ensures Left("", marks) != "" ==> exists k | 0 <= k < |marks| :: StaysOpen(marks, k)
    decreases |marks|
  {
    if marks != [] {
      var n := |marks| - 1;
      var front, last := marks[..n], marks[n];
      LeftOpen(front);
      LeftConcat("", front, [last]);
      assert marks == front + [last] && [last][1..] == [];
      assert Left("", marks) == Track(Left("", front), last);
      forall k | 0 <= k < |marks| && StaysOpen(marks, k) ensures Left("", marks) == marks[k].name {
        if k < n {
          assert StaysOpen(front, k);
          assert !Opens(marks[n]) && marks[n] != Mark(marks[k].name, true);
        }
      }
      if Left("", marks) != "" {
        if Opens(last) {
          assert StaysOpen(marks, n);
        } else {
          var k :| 0 <= k < n && StaysOpen(front, k);
          assert StaysOpen(marks, k);
        }
      }
    }
  }

  // ------------------------------------------------------------- marks written out

  /** Text with no mark in it, and the mark after it. */
  datatype Marked = Marked(before: string, mark: Mark)

  function MarkText(mark: Mark): string { (if mark.closing then "</" else "<") + mark.name }

  function MarksText(marked: seq<Marked>, rest: string): string {
    if marked == [] then rest else marked[0].before + (MarkText(marked[0].mark) + MarksText(marked[1..], rest))
  }

  /** Names as marks have them, each followed by what does not go on with it. */
  predicate WellMarked(marked: seq<Marked>, rest: string) {
    if marked == [] then '<' !in rest
    else
      var m, more := marked[0], MarksText(marked[1..], rest);
      && '<' !in m.before && (forall c | c in m.mark.name :: IsNameCharacter(c))
      && (more != "" ==> !IsNameCharacter(more[0]))
      && (m.mark.name == "" && !m.mark.closing && more != "" ==> more[0] != '/')
      && WellMarked(marked[1..], rest)
  }

  lemma {:induction false} RunsTo(s: string, i: nat, end: nat, p: char -> bool)
    requires i <= end <= |s| && (forall k | i <= k < end :: p(s[k])) && (end < |s| ==> !p(s[end]))
    ensures RunEnd(s, i, p) == end
    decreases end - i
  {
    if i < end { RunsTo(s, i + 1, end, p); }
  }

  /** The marks of a line are those it was written with, in order. */
  lemma {:induction false} MarksReadBack(content: string, index: nat, marked: seq<Marked>, rest: string)
    requires index <= |content| && content[index..] == MarksText(marked, rest) && WellMarked(marked, rest)
    ensures |Marks(content, index)| == |marked| && forall k | 0 <= k < |marked| :: Marks(content, index)[k] == marked[k].mark
    decreases |marked|
  {
    hide Marks, MarkAt, IsNameCharacter;
    if marked == [] {
      forall k | index <= k < |content| ensures content[k] != '<' { assert content[k] == rest[k - index] && rest[k - index] in rest; }
      RunsTo(content, index, |content|, NotAngle());
      NoMarks(content, index);
    } else {
      var m, more := marked[0], MarksText(marked[1..], rest);
      var at := index + |m.before|;
      var next := at + |MarkText(m.mark)|;
      TextParts(content, index, m, more);
      forall k | index <= k < at ensures content[k] != '<' {
        assert content[k] == m.before[k - index] && m.before[k - index] in m.before;
      }
      RunsTo(content, index, at, NotAngle());
      MarkRead(content, at + 1, m.mark, more);
      MarksReadBack(content, next, marked[1..], rest);
      FirstMark(content, index);
    }
  }

  lemma NoMarks(content: string, index: nat)
    requires index <= |content| && RunEnd(content, index, NotAngle()) == |content|
    ensures Marks(content, index) == []
  {
  }

  lemma FirstMark(content: string, index: nat)
    requires index <= |content| && RunEnd(content, index, NotAngle()) < |content|
    ensures var (mark, next) := MarkAt(content, RunEnd(content, index, NotAngle()) + 1);
            Marks(content, index) == [mark] + Marks(content, next)
  {
    hide MarkAt, RunEnd;
  }

  lemma TextParts(content: string, index: nat, m: Marked, more: string)
    requires index <= |content| && content[index..] == m.before + (MarkText(m.mark) + more)
    ensures var at := index + |m.before|;
            && at + |MarkText(m.mark)| <= |content| && content[at] == '<'
            && content[at + 1..] == (if m.mark.closing then "/" else "") + (m.mark.name + more)
            && content[at + |MarkText(m.mark)|..] == more
            && forall k | index <= k < at :: content[k] == m.before[k - index]
  {
    var tail, n := content[index..], |m.before|;
    assert tail[n..] == MarkText(m.mark) + more;
    assert content[index + n..] == tail[n..];
    var here := content[index + n..];
    assert here[0] == '<' && here[1..] == (if m.mark.closing then "/" else "") + (m.mark.name + more);
    assert here[|MarkText(m.mark)|..] == more;
  }

  lemma MarkRead(content: string, index: nat, mark: Mark, more: string)
    requires index <= |content| && content[index..] == (if mark.closing then "/" else "") + (mark.name + more)
    requires (forall c | c in mark.name :: IsNameCharacter(c)) && (more != "" ==> !IsNameCharacter(more[0]))
    requires mark.name == "" && !mark.closing && more != "" ==> more[0] != '/'
    ensures MarkAt(content, index) == (mark, index + (if mark.closing then 1 else 0) + |mark.name|)
  {
    var slash := if mark.closing then "/" else "";
    var start := index + |slash|;
    hide IsNameCharacter, RunEnd;
    SlashTaken(content, index, slash, mark.name + more);
    NameEnds(content, start, mark.name, more);
    if !mark.closing { NotSlash(content, index, mark, more); }
  }

  lemma SlashTaken(content: string, index: nat, slash: string, after: string)
    requires index <= |content| && content[index..] == slash + after
    ensures index + |slash| <= |content| && content[index + |slash|..] == after
    ensures slash != "" ==> content[index] == slash[0]
  {
    assert content[index..][|slash|..] == after;
    if slash != "" { assert content[index] == content[index..][0]; }
  }

  lemma NameEnds(content: string, start: nat, name: string, more: string)
    requires start <= |content| && content[start..] == name + more
    requires (forall c | c in name :: IsNameCharacter(c)) && (more != "" ==> !IsNameCharacter(more[0]))
    ensures var end := start + |name|;
            end <= |content| && content[start..end] == name && RunEnd(content, start, IsNameCharacter) == end
  {
    hide IsNameCharacter;
    var end := start + |name|;
    forall k | start <= k < end ensures IsNameCharacter(content[k]) {
      assert content[k] == content[start..][k - start] == name[k - start] && name[k - start] in name;
    }
    assert content[start..][..|name|] == name && content[start..end] == name;
    if end < |content| { assert content[end] == content[start..][|name|] == more[0]; }
    RunsTo(content, start, end, IsNameCharacter);
  }

  lemma NotSlash(content: string, index: nat, mark: Mark, more: string)
    requires index <= |content| && content[index..] == "" + (mark.name + more)
    requires (forall c | c in mark.name :: IsNameCharacter(c)) && (mark.name == "" && more != "" ==> more[0] != '/')
    ensures index < |content| ==> content[index] != '/'
  {
    if index < |content| {
      assert content[index] == content[index..][0];
      if mark.name != "" { assert content[index] == mark.name[0] && mark.name[0] in mark.name; } else { assert mark.name + more == more; }
    }
  }
}

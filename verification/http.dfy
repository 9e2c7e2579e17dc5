/** Reading requests off a connection (src/blogin/http.cpp): a request is its own bytes and
    nothing after them, so requests sent together are read one by one, however they arrive. */
module Http {
  import opened Strings
  import opened Compiling

  const MAXIMUM_REQUEST_SIZE := 64 * 1024

  const BREAK := "\r\n"
  const END_OF_HEADERS := "\r\n\r\n"

  type Headers = map<string, string>

  datatype Request = Request(
    method_: string, target: string, path: string, version: string, headers: Headers, length: nat)

  datatype Parsed = Incomplete | Malformed | Ready(request: Request)

  // ------------------------------------------------------------- one request

  /** The pieces of a text between its line feeds. */
  function SplitFrom(s: string, start: nat): seq<string>
    requires start <= |s|
    decreases |s| - start
  {
    var end := RunEnd(s, start, NotNewline());
    if end == |s| then [s[start..]] else [s[start..end]] + SplitFrom(s, end + 1)
  }

  function NotNewline(): char -> bool { c => c != '\n' }

  /** A header line's name in lower case and its value, unless the name is already there. */
  function AddHeader(stripped: string, headers: Headers): Option<Headers> {
    var colon := FindText(stripped, ":", 0);
    if colon.None? then None
    else
      var name := LowerAll(stripped[..colon.value]);
      Some(if name in headers then headers else headers[name := Trim(stripped[colon.value + 1..])])
  }

  function AddHeaders(lines: seq<string>, headers: Headers): Option<Headers>
    decreases lines
  {
    if lines == [] then Some(headers)
    else if Trim(lines[0]) == "" then AddHeaders(lines[1..], headers)
    else
      var added := AddHeader(Trim(lines[0]), headers);
      if added.None? then None else AddHeaders(lines[1..], added.value)
  }

  function PathOf(target: string): string {
    var query := FindText(target, "?", 0);
    if query.None? then target else target[..query.value]
  }

  /** A request line and its headers, `length` bytes with what ends them. */
  function ParseHead(head: string, length: nat): Parsed {
    var end := FindText(head, BREAK, 0);
    var line := if end.None? then head else head[..end.value];
    var first := FindText(line, " ", 0);
    if first.None? then Malformed
    else
      var second := FindText(line, " ", first.value + 1);
      if second.None? then Malformed
      else
        var name, target := line[..first.value], line[first.value + 1..second.value];
        if name == "" || target == "" then Malformed
        else
          var headers := if end.None? then Some(map[]) else AddHeaders(SplitFrom(head[end.value + 2..], 0), map[]);
          if headers.None? then Malformed
          else Ready(Request(name, target, PathOf(target), Trim(line[second.value + 1..]), headers.value, length))
  }

  /** What a buffer holds so far. */
  function ParseBuffer(buffer: string): Parsed {
    var end := FindText(buffer, END_OF_HEADERS, 0);
    if end.None? then if |buffer| > MAXIMUM_REQUEST_SIZE then Malformed else Incomplete
    else ParseHead(buffer[..end.value], end.value + 4)
  }

  method SplitLines(s: string) returns (lines: seq<string>)
    ensures lines == SplitFrom(s, 0)
  {
    lines := [];
    var start := 0;
    while true
      invariant 0 <= start <= |s| && lines + SplitFrom(s, start) == SplitFrom(s, 0)
      decreases |s| - start
    {
      var end := Scan(s, start, NotNewline());
      if end == |s| { return lines + [s[start..]]; }
      lines := lines + [s[start..end]];
      start := end + 1;
    }
  }

  method ParseRequest(buffer: string) returns (parsed: Parsed)
    ensures parsed == ParseBuffer(buffer)
  {
    hide FindText, Trim, SplitFrom, LowerAll, PathOf;
    var endOfHeaders := FindFirst(buffer, END_OF_HEADERS);
    if endOfHeaders.None? { return if |buffer| > MAXIMUM_REQUEST_SIZE then Malformed else Incomplete; }
    var head := buffer[..endOfHeaders.value];
    var endOfLine := FindFirst(head, BREAK);
    var line := if endOfLine.None? then head else head[..endOfLine.value];
    var first := FindFirst(line, " ");
    if first.None? { return Malformed; }
    var second := FindFirst(line, " ", first.value + 1);
    if second.None? { return Malformed; }
    var name, target := line[..first.value], line[first.value + 1..second.value];
    if name == "" || target == "" { return Malformed; }
    var headers: Headers := map[];
    if endOfLine.Some? {
      var lines := SplitLines(head[endOfLine.value + 2..]);
      assert lines[0..] == lines;
      for i := 0 to |lines|
        invariant AddHeaders(lines[i..], headers) == AddHeaders(lines, map[])
      {
        assert lines[i..][1..] == lines[i + 1..];
        var stripped := Trim(lines[i]);
        if stripped == "" { continue; }
        var colon := FindFirst(stripped, ":");
        if colon.None? { return Malformed; }
        var key := LowerAll(stripped[..colon.value]);
        if key !in headers { headers := headers[key := Trim(stripped[colon.value + 1..])]; }
      }
    }
    return Ready(Request(name, target, PathOf(target), Trim(line[second.value + 1..]), headers, endOfHeaders.value + 4));
  }

  // ------------------------------------------------------------- its own bytes and no more

  lemma {:induction false} FoundEarly(s: string, more: string, what: string, i: nat)
    requires i <= |s| && FindText(s, what, i).Some?
    ensures FindText(s + more, what, i) == FindText(s, what, i)
    decreases |s| - i
  {
    hide FindText;
    FindStep(s, what, i);
    FindStep(s + more, what, i);
    assert (s + more)[i..i + |what|] == s[i..i + |what|];
    if s[i..i + |what|] != what { FoundEarly(s, more, what, i + 1); }
  }

  lemma {:induction false} FoundAlone(s: string, what: string, i: nat)
    requires i <= |s| && FindText(s, what, i).Some?
    ensures var end := FindText(s, what, i).value + |what|; FindText(s[..end], what, i) == FindText(s, what, i)
    decreases |s| - i
  {
    hide FindText;
    var end := FindText(s, what, i).value + |what|;
    FindStep(s, what, i);
    FindStep(s[..end], what, i);
    assert s[..end][i..i + |what|] == s[i..i + |what|];
    if s[i..i + |what|] != what { FoundAlone(s, what, i + 1); }
  }

  /** A request that is ready is what its own bytes say: nothing that comes after them
      changes it, and nothing is needed but them. */
  lemma ReadyIsStable(buffer: string, more: string)
    requires ParseBuffer(buffer).Ready?
    ensures var length := ParseBuffer(buffer).request.length;
            && 0 < length <= |buffer|
            && ParseBuffer(buffer + more) == ParseBuffer(buffer)
            && ParseBuffer(buffer[..length]) == ParseBuffer(buffer)
  {
    hide ParseHead, FindText;
    var end := FindText(buffer, END_OF_HEADERS, 0);
    HeadLength(buffer[..end.value], end.value + 4);
    FoundEarly(buffer, more, END_OF_HEADERS, 0);
    FoundAlone(buffer, END_OF_HEADERS, 0);
    assert (buffer + more)[..end.value] == buffer[..end.value] == buffer[..end.value + 4][..end.value];
  }

  lemma HeadLength(head: string, length: nat)
    ensures var parsed := ParseHead(head, length); parsed.Ready? ==> parsed.request.length == length
  {
    hide FindText;
  }

  // ------------------------------------------------------------- requests written out

  datatype Header = Header(name: string, value: string)

  /** A request as a client writes it, its target a path and the query that may follow. */
  datatype Wire = Wire(method_: string, path: string, query: Option<string>, version: string, headers: seq<Header>)
  {
    function Target(): string { if query.None? then path else path + "?" + query.value }
  }

  predicate NoBreaks(s: string) { '\r' !in s && '\n' !in s }

  /** Text that trimming leaves as it is. */
  predicate Solid(s: string) { s == "" || (!IsSpace(s[0]) && !IsSpace(s[|s| - 1])) }

  predicate WellFormedHeader(h: Header) {
    && NoBreaks(h.name) && NoBreaks(h.value) && h.name != "" && ':' !in h.name && !IsSpace(h.name[0]) && Solid(h.value)
  }

  predicate WellFormed(w: Wire) {
    && w.method_ != "" && NoBreaks(w.method_) && ' ' !in w.method_
    && w.Target() != "" && NoBreaks(w.Target()) && ' ' !in w.Target() && '?' !in w.path
    && NoBreaks(w.version) && Solid(w.version)
    && forall h | h in w.headers :: WellFormedHeader(h)
  }

  function RequestLine(w: Wire): string { w.method_ + " " + w.Target() + " " + w.version }

  function HeaderLine(h: Header): string { h.name + ": " + h.value }

  /** Lines each with its break, then `tail`. */
  function LinesThen(lines: seq<string>, tail: string): string {
    if lines == [] then tail else lines[0] + (BREAK + LinesThen(lines[1..], tail))
  }

  function HeaderLines(headers: seq<Header>): (lines: seq<string>)
    ensures |lines| == |headers|
  {
    seq(|headers|, i requires 0 <= i < |headers| => HeaderLine(headers[i]))
  }

  function LinesOf(w: Wire): seq<string> { [RequestLine(w)] + HeaderLines(w.headers) }

  function Written(w: Wire): string { LinesThen(LinesOf(w), BREAK) }

  /** The headers a request gives, the first of each name. */
  function HeadersOf(headers: seq<Header>, sofar: Headers): Headers
    decreases headers
  {
    if headers == [] then sofar
    else
      var name := LowerAll(headers[0].name);
      HeadersOf(headers[1..], if name in sofar then sofar else sofar[name := headers[0].value])
  }

  function Meant(w: Wire): Request {
    Request(w.method_, w.Target(), w.path, w.version, HeadersOf(w.headers, map[]), |Written(w)|)
  }

  // ------------------------------------------------------------- finding the end

  predicate IsLine(s: string) { s != "" && NoBreaks(s) }

  predicate AllLines(lines: seq<string>) { forall l | l in lines :: IsLine(l) }

  lemma FindMisses(s: string, what: string, i: nat)
    requires i < |s| && (i + |what| <= |s| ==> s[i..i + |what|] != what)
    ensures FindText(s, what, i) == FindText(s, what, i + 1)
  {
  }

  /** Nothing that starts with a break is found inside a line. */
  lemma {:induction false} FindPastLine(line: string, rest: string, what: string, i: nat)
    requires NoBreaks(line) && |what| > 0 && what[0] == '\r' && i <= |line|
    ensures FindText(line + rest, what, i) == FindText(line + rest, what, |line|)
    decreases |line| - i
  {
    hide FindText;
    var s := line + rest;
    if i < |line| {
      assert s[i] == line[i] && line[i] in line;
      if i + |what| <= |s| { assert s[i..i + |what|][0] == s[i]; }
      FindMisses(s, what, i);
      FindPastLine(line, rest, what, i + 1);
    }
  }

  lemma FindStep(s: string, what: string, i: nat)
    requires i <= |s|
    ensures FindText(s, what, i) ==
              if i + |what| > |s| then None
              else if s[i..i + |what|] == what then Some(i)
              else FindText(s, what, i + 1)
  {
  }

  lemma SliceShifts(before: string, s: string, i: nat, n: nat)
    requires i + n <= |s|
    ensures (before + s)[|before| + i..|before| + i + n] == s[i..i + n]
  {
  }

  lemma {:induction false} FindShifted(before: string, s: string, what: string, i: nat)
    requires i <= |s| && what != ""
    ensures FindText(before + s, what, |before| + i) ==
              var r := FindText(s, what, i); if r.None? then None else Some(|before| + r.value)
    decreases |s| - i
  {
    hide *;
    var t := before + s;
    FindStep(s, what, i);
    FindStep(t, what, |before| + i);
    assert |t| == |before| + |s|;
    if i + |what| <= |s| {
      SliceShifts(before, s, i, |what|);
      if s[i..i + |what|] != what { FindShifted(before, s, what, i + 1); }
    }
  }

  lemma Differs(s: string, what: string, i: nat, k: nat)
    requires k < |what| && i + k < |s| && s[i + k] != what[k]
    ensures i + |what| <= |s| ==> s[i..i + |what|] != what
  {
    if i + |what| <= |s| { assert s[i..i + |what|][k] == s[i + k]; }
  }

  /** Two breaks in a row, as what ends the headers. */
  predicate IsDoubleBreak(what: string) {
    |what| == 4 && what[0] == '\r' && what[1] == '\n' && what[2] == '\r' && what[3] == '\n'
  }

  /** Past a break that something other than a break follows. */
  lemma FindPastTwo(s: string, what: string, i: nat)
    requires IsDoubleBreak(what) && i + 2 <= |s| && s[i + 1] == '\n' && (i + 2 < |s| ==> s[i + 2] != '\r')
    ensures FindText(s, what, i) == FindText(s, what, i + 2)
  {
    hide FindText;
    if i + 2 < |s| { Differs(s, what, i, 2); }
    FindMisses(s, what, i);
    Differs(s, what, i + 1, 0);
    FindMisses(s, what, i + 1);
  }

  /** Where the parts of a line, a break and a rest are in the whole. */
  lemma Joints(line: string, brk: string, rest: string, s: string)
    requires s == line + (brk + rest) && |brk| == 2
    ensures s == (line + brk) + rest && |s| == |line| + 2 + |rest|
    ensures s[|line|] == brk[0] && s[|line| + 1] == brk[1] && (rest != "" ==> s[|line| + 2] == rest[0])
  {
  }

  /** A break after a line, when what follows does not begin with one. */
  lemma FindPastBreak(line: string, brk: string, rest: string, what: string, s: string)
    requires s == line + (brk + rest) && |brk| == 2 && brk[1] == '\n' && IsDoubleBreak(what)
    requires NoBreaks(line) && (rest != "" ==> rest[0] != '\r')
    ensures FindText(s, what, 0) == var r := FindText(rest, what, 0); if r.None? then None else Some(|line| + 2 + r.value)
  {
    hide *;
    SameFind(line, brk + rest, what, s);
    AtBreak(line, brk, rest, what, s);
    AfterBreak(line, brk, rest, what, s);
  }

  lemma AtBreak(line: string, brk: string, rest: string, what: string, s: string)
    requires s == line + (brk + rest) && |brk| == 2 && brk[1] == '\n' && IsDoubleBreak(what) && (rest != "" ==> rest[0] != '\r')
    ensures FindText(s, what, |line|) == FindText(s, what, |line| + 2)
  {
    hide *;
    Joints(line, brk, rest, s);
    FindPastTwo(s, what, |line|);
  }

  lemma AfterBreak(line: string, brk: string, rest: string, what: string, s: string)
    requires s == line + (brk + rest) && |brk| == 2 && IsDoubleBreak(what)
    ensures FindText(s, what, |line| + 2) == var r := FindText(rest, what, 0); if r.None? then None else Some(|line| + 2 + r.value)
  {
    hide *;
    Joints(line, brk, rest, s);
    ShiftedFind(line + brk, rest, what, s);
  }

  lemma SameFind(line: string, after: string, what: string, s: string)
    requires s == line + after && NoBreaks(line) && IsDoubleBreak(what)
    ensures FindText(s, what, 0) == FindText(s, what, |line|)
  {
    hide FindText, NoBreaks;
    FindPastLine(line, after, what, 0);
  }

  lemma ShiftedFind(before: string, rest: string, what: string, s: string)
    requires s == before + rest && IsDoubleBreak(what)
    ensures FindText(s, what, |before|) == var r := FindText(rest, what, 0); if r.None? then None else Some(|before| + r.value)
  {
    hide FindText;
    FindShifted(before, rest, what, 0);
  }

  lemma Breaks()
    ensures |BREAK| == 2 && BREAK[0] == '\r' && BREAK[1] == '\n' && IsDoubleBreak(END_OF_HEADERS)
  {
  }

  lemma LinesStep(lines: seq<string>, tail: string)
    requires lines != []
    ensures LinesThen(lines, tail) == lines[0] + (BREAK + LinesThen(lines[1..], tail))
    ensures |LinesThen(lines, tail)| == |lines[0]| + 2 + |LinesThen(lines[1..], tail)|
  {
  }

  lemma NoLines(tail: string)
    ensures LinesThen([], tail) == tail
  {
  }

  lemma {:induction false} EndFound(lines: seq<string>, more: string)
    requires lines != [] && AllLines(lines)
    ensures FindText(LinesThen(lines, BREAK + more), END_OF_HEADERS, 0) == Some(|LinesThen(lines, "")| - 2)
    ensures |LinesThen(lines, BREAK + more)| == |LinesThen(lines, "")| + 2 + |more|
    decreases |lines|
  {
    hide FindText, NoBreaks, BREAK, END_OF_HEADERS, LinesThen;
    Breaks();
    var line, rest := lines[0], lines[1..];
    assert line in lines;
    LinesStep(lines, BREAK + more);
    LinesStep(lines, "");
    LineBare(line);
    if rest == [] {
      NoLines(BREAK + more);
      NoLines("");
      LastLine(line, more);
    } else {
      forall l | l in rest ensures IsLine(l) { assert l in lines; }
      EndFound(rest, more);
      assert rest[0] in rest;
      SolidStart(rest[0]);
      LinesStep(rest, BREAK + more);
      FindPastBreak(line, BREAK, LinesThen(rest, BREAK + more), END_OF_HEADERS, LinesThen(lines, BREAK + more));
    }
  }

  lemma SolidStart(line: string)
    requires IsLine(line)
    ensures line[0] != '\r'
  {
    assert line[0] in line;
  }

  lemma LastLine(line: string, more: string)
    requires IsLine(line)
    ensures FindText(line + (BREAK + (BREAK + more)), END_OF_HEADERS, 0) == Some(|line|)
  {
    hide FindText, IsLine;
    var s := line + (BREAK + (BREAK + more));
    LineBare(line);
    FindPastLine(line, BREAK + (BREAK + more), END_OF_HEADERS, 0);
    assert BREAK + (BREAK + more) == END_OF_HEADERS + more;
    SliceShifts(line, END_OF_HEADERS + more, 0, 4);
    assert (END_OF_HEADERS + more)[0..4] == END_OF_HEADERS;
    FindStep(s, END_OF_HEADERS, |line|);
  }

  lemma LineBare(line: string)
    requires IsLine(line)
    ensures NoBreaks(line)
  {
  }

  // ------------------------------------------------------------- reading the lines

  lemma {:induction false} TrimEndSpaces(s: string, t: string)
    requires s != "" && !IsSpace(s[|s| - 1]) && forall c | c in t :: IsSpace(c)
    ensures TrimEnd(s + t) == s
    decreases |t|
  {
    if t == "" {
      assert s + t == s;
    } else {
      var u := s + t;
      assert u[|u| - 1] == t[|t| - 1] && t[|t| - 1] in t;
      assert u[..|u| - 1] == s + t[..|t| - 1];
      forall c | c in t[..|t| - 1] ensures IsSpace(c) { assert c in t; }
      TrimEndSpaces(s, t[..|t| - 1]);
    }
  }

  lemma TrimSolid(s: string, t: string)
    requires s != "" && Solid(s) && forall c | c in t :: IsSpace(c)
    ensures Trim(s + t) == s
  {
    assert (s + t)[0] == s[0];
    TrimEndSpaces(s, t);
  }

  /** A header line as the parser trims it. */
  function Stripped(h: Header): string { if h.value == "" then h.name + ":" else HeaderLine(h) }

  lemma HeaderTrims(h: Header, t: string)
    requires WellFormedHeader(h) && forall c | c in t :: IsSpace(c)
    ensures Trim(HeaderLine(h) + t) == Stripped(h) && Stripped(h) != ""
  {
    var s := Stripped(h);
    assert s[0] == h.name[0];
    if h.value == "" {
      assert HeaderLine(h) + t == s + (" " + t);
      TrimSolid(s, " " + t);
    } else {
      assert s[|s| - 1] == h.value[|h.value| - 1];
      TrimSolid(s, t);
    }
  }

  lemma {:induction false} FindPastName(name: string, rest: string, c: char, i: nat)
    requires c !in name && i <= |name|
    ensures FindText(name + [c] + rest, [c], i) == Some(|name|)
    decreases |name| - i
  {
    var s := name + [c] + rest;
    assert s[i..i + 1] == [s[i]];
    if i < |name| {
      assert s[i] == name[i] && name[i] in name;
      FindPastName(name, rest, c, i + 1);
    }
  }

  lemma HeaderAdds(h: Header, headers: Headers)
    requires WellFormedHeader(h)
    ensures var name := LowerAll(h.name);
            AddHeader(Stripped(h), headers) == Some(if name in headers then headers else headers[name := h.value])
  {
    hide Trim, FindText, LowerAll;
    var after := if h.value == "" then "" else " " + h.value;
    var s := Stripped(h);
    assert s == h.name + ":" + after;
    FindPastName(h.name, after, ':', 0);
    assert s[..|h.name|] == h.name && s[|h.name| + 1..] == after;
    ValueTrims(h.value);
  }

  lemma ValueTrims(value: string)
    requires Solid(value)
    ensures Trim(if value == "" then "" else " " + value) == value
  {
    if value != "" {
      assert (" " + value)[1..] == value;
      TrimSolid(value, "");
      assert value + "" == value;
    }
  }

  /** Header lines between breaks, without the last break. */
  function Block(headers: seq<Header>): string {
    if headers == [] then ""
    else if |headers| == 1 then HeaderLine(headers[0])
    else HeaderLine(headers[0]) + BREAK + Block(headers[1..])
  }

  lemma {:induction false} RunPast(s: string, i: nat, end: nat)
    requires i <= end <= |s| && (forall k | i <= k < end :: s[k] != '\n') && (end < |s| ==> s[end] == '\n')
    ensures RunEnd(s, i, NotNewline()) == end
    decreases end - i
  {
    if i < end { RunPast(s, i + 1, end); }
  }

  lemma SplitFirst(before: string, line: string, rest: string)
    requires '\n' !in line
    ensures var s := before + line + "\n" + rest;
            |before| <= |s| && SplitFrom(s, |before|) == [line] + SplitFrom(s, |before| + |line| + 1)
    ensures var s := before + line; |before| <= |s| && SplitFrom(s, |before|) == [line]
  {
    var s, t := before + line + "\n" + rest, before + line;
    var i, end := |before|, |before| + |line|;
    assert s[i..end] == line && s[end] == '\n' && t[i..] == line;
    forall k | i <= k < end ensures s[k] != '\n' && t[k] != '\n' { assert s[k] == line[k - i] == t[k] && line[k - i] in line; }
    RunPast(s, i, end);
    RunPast(t, i, end);
  }

  lemma HeaderBare(h: Header)
    requires WellFormedHeader(h)
    ensures IsLine(HeaderLine(h)) && '\n' !in HeaderLine(h) + "\r"
  {
  }

  lemma {:induction false} BlockReads(before: string, headers: seq<Header>, sofar: Headers)
    requires headers != [] && forall h | h in headers :: WellFormedHeader(h)
    ensures AddHeaders(SplitFrom(before + Block(headers), |before|), sofar) == Some(HeadersOf(headers, sofar))
    decreases |headers|
  {
    hide SplitFrom, Trim, WellFormedHeader, AddHeader;
    var h, rest := headers[0], headers[1..];
    assert h in headers;
    HeaderBare(h);
    HeaderTrims(h, "");
    HeaderTrims(h, "\r");
    HeaderAdds(h, sofar);
    var line := HeaderLine(h);
    assert line + "" == line;
    if rest == [] {
      SplitFirst(before, line, "");
      assert [line][1..] == [];
    } else {
      forall g | g in rest ensures WellFormedHeader(g) { assert g in headers; }
      var next := before + (line + "\r") + "\n";
      SplitFirst(before, line + "\r", Block(rest));
      assert before + Block(headers) == before + (line + "\r") + "\n" + Block(rest);
      BlockReads(next, rest, AddHeader(Stripped(h), sofar).value);
      var lines := [line + "\r"] + SplitFrom(next + Block(rest), |next|);
      assert lines[1..] == SplitFrom(next + Block(rest), |next|);
    }
  }

  // ------------------------------------------------------------- reading back a request

  lemma {:induction false} LinesAreBlock(headers: seq<Header>, tail: string)
    requires headers != []
    ensures LinesThen(HeaderLines(headers), tail) == Block(headers) + (BREAK + tail)
    decreases headers
  {
    hide HeaderLine, BREAK, LinesThen;
    var lines, rest := HeaderLines(headers), HeaderLines(headers[1..]);
    assert lines[0] == HeaderLine(headers[0]) && lines[1..] == rest;
    LinesStep(lines, tail);
    if headers[1..] == [] {
      NoLines(tail);
    } else {
      LinesAreBlock(headers[1..], tail);
      var line, block := HeaderLine(headers[0]), Block(headers[1..]);
      assert line + (BREAK + (block + (BREAK + tail))) == (line + BREAK + block) + (BREAK + tail);
    }
  }

  /** The request line and headers, without the breaks that end them. */
  function HeadText(w: Wire): string {
    if w.headers == [] then RequestLine(w) else RequestLine(w) + (BREAK + Block(w.headers))
  }

  lemma RequestLineBare(w: Wire)
    requires WellFormed(w)
    ensures IsLine(RequestLine(w))
  {
  }

  lemma LinesBare(w: Wire)
    requires WellFormed(w)
    ensures AllLines(LinesOf(w))
  {
    hide RequestLine, HeaderLine, IsLine;
    var lines := LinesOf(w);
    RequestLineBare(w);
    forall i | 0 <= i < |lines| ensures IsLine(lines[i]) {
      if i > 0 {
        assert w.headers[i - 1] in w.headers;
        HeaderBare(w.headers[i - 1]);
      }
    }
  }

  lemma WrittenHead(w: Wire)
    ensures Written(w) == HeadText(w) + (BREAK + BREAK)
    ensures LinesThen(LinesOf(w), "") == HeadText(w) + BREAK
  {
    hide RequestLine, Block, BREAK, LinesThen;
    var lines, line := LinesOf(w), RequestLine(w);
    assert lines[0] == line && lines[1..] == HeaderLines(w.headers);
    LinesStep(lines, BREAK);
    LinesStep(lines, "");
    if w.headers == [] {
      NoLines(BREAK);
      NoLines("");
      assert BREAK + "" == BREAK;
    } else {
      LinesAreBlock(w.headers, BREAK);
      LinesAreBlock(w.headers, "");
      var block := Block(w.headers);
      assert line + (BREAK + (block + (BREAK + BREAK))) == (line + (BREAK + block)) + (BREAK + BREAK);
      assert line + (BREAK + (block + (BREAK + ""))) == (line + (BREAK + block)) + BREAK;
    }
  }

  lemma LineSpaces(w: Wire)
    requires WellFormed(w)
    ensures var line, i := RequestLine(w), |w.method_|;
            var j := i + 1 + |w.Target()|;
            && FindText(line, " ", 0) == Some(i) && FindText(line, " ", i + 1) == Some(j)
            && line[..i] == w.method_ && line[i + 1..j] == w.Target() && line[j + 1..] == w.version
  {
    hide FindText, WellFormed, Asks, RequestLine;
    RequestAsks(w);
    AskedAt(RequestLine(w), w.method_, w.Target(), w.version);
  }

  lemma RequestAsks(w: Wire)
    requires WellFormed(w)
    ensures Asks(RequestLine(w), w.method_, w.Target(), w.version)
    ensures |w.method_| + |w.Target()| + 2 <= |RequestLine(w)|
    ensures RequestLine(w)[|w.method_| + 1 + |w.Target()| + 1..] == w.version
  {
    hide Asks;
    TargetThere(w);
    Asked(RequestLine(w), w.method_, w.Target(), w.version);
  }

  lemma Asked(line: string, m: string, t: string, v: string)
    requires m != "" && t != "" && ' ' !in m && ' ' !in t && line == m + " " + t + " " + v
    ensures Asks(line, m, t, v) && |line| == |m| + |t| + |v| + 2 && line[|m| + 1 + |t| + 1..] == v
  {
    var after := t + (" " + v);
    assert m + " " + t + " " + v == m + " " + after;
  }

  lemma FirstBreak(line: string, block: string)
    requires NoBreaks(line)
    ensures FindText(line, BREAK, 0) == None
    ensures var head := line + (BREAK + block);
            FindText(head, BREAK, 0) == Some(|line|) && head[..|line|] == line && head[|line| + 2..] == block
  {
    hide FindText, NoBreaks;
    var head := line + (BREAK + block);
    FindPastLine(line, "", BREAK, 0);
    assert line + "" == line;
    FindStep(line, BREAK, |line|);
    FindPastLine(line, BREAK + block, BREAK, 0);
    assert head[|line|..|line| + 2] == BREAK;
    FindStep(head, BREAK, |line|);
  }

  lemma PathRead(w: Wire)
    requires WellFormed(w)
    ensures PathOf(w.Target()) == w.path
  {
    hide FindText, NoBreaks;
    if w.query.Some? {
      assert w.Target() == w.path + ['?'] + w.query.value;
      FindPastName(w.path, w.query.value, '?', 0);
    } else {
      NotThere(w.path, '?', 0);
    }
  }

  lemma {:induction false} NotThere(s: string, c: char, i: nat)
    requires c !in s && i <= |s|
    ensures FindText(s, [c], i).None?
    decreases |s| - i
  {
    if i < |s| {
      assert s[i..i + 1] == [s[i]] && s[i] in s;
      NotThere(s, c, i + 1);
    }
  }

  lemma HeadParses(w: Wire, length: nat)
    requires WellFormed(w)
    ensures ParseHead(HeadText(w), length) == Ready(Meant(w).(length := length))
  {
    hide FindText, Trim, SplitFrom, AddHeaders, HeadersOf, RequestLine, NoBreaks, Block, LinesThen, WellFormedHeader, PathOf;
    LineSpaces(w);
    PathRead(w);
    TargetThere(w);
    RequestLineBare(w);
    LineBare(RequestLine(w));
    FirstBreak(RequestLine(w), Block(w.headers));
    assert w.version + "" == w.version;
    ValueAlone(w.version);
    if w.headers == [] {
      NoHeaders();
    } else {
      BlockReads("", w.headers, map[]);
      assert "" + Block(w.headers) == Block(w.headers);
    }
  }

  lemma TargetThere(w: Wire)
    requires WellFormed(w)
    ensures w.method_ != "" && w.Target() != "" && ' ' !in w.method_ && ' ' !in w.Target()
  {
  }

  lemma NoHeaders()
    ensures HeadersOf([], map[]) == map[]
  {
  }

  lemma ValueAlone(value: string)
    requires Solid(value)
    ensures Trim(value) == value
  {
    if value != "" {
      TrimSolid(value, "");
      assert value + "" == value;
    }
  }

  /** A request written out is read back as what it means. */
  lemma WrittenReadsBack(w: Wire)
    requires WellFormed(w)
    ensures ParseBuffer(Written(w)) == Ready(Meant(w))
    ensures FindText(Written(w), END_OF_HEADERS, 0) == Some(|Written(w)| - 4) && |Written(w)| >= 4
  {
    hide FindText, ParseHead, LinesThen, HeadText, WellFormed, LinesOf;
    LinesBare(w);
    WrittenHead(w);
    assert LinesOf(w) != [] by { LinesThere(w); }
    EndFound(LinesOf(w), "");
    assert BREAK + "" == BREAK;
    assert Written(w)[..|HeadText(w)|] == HeadText(w);
    HeadParses(w, |Written(w)|);
  }

  lemma LinesThere(w: Wire)
    ensures LinesOf(w) != []
  {
  }

  // ------------------------------------------------------------- what is refused

  /** A line that asks for something: a method, a target and a version, with a space between. */
  predicate Asks(line: string, name: string, target: string, version: string) {
    && line == name + " " + (target + (" " + version)) && name != "" && target != "" && ' ' !in name && ' ' !in target
  }

  /** Every header line that is not blank has a colon. */
  ghost predicate Coloned(lines: seq<string>) { forall l | l in lines :: Trim(l) == "" || ':' in Trim(l) }

  predicate PathIn(target: string, path: string) {
    '?' !in path && (target == path || (path + "?" <= target))
  }

  lemma SpaceFound(line: string, i: nat)
    requires i <= |line|
    ensures var r := FindText(line, " ", i);
            if r.None? then ' ' !in line[i..]
            else i <= r.value < |line| && line[r.value] == ' ' && ' ' !in line[i..r.value]
  {
    MarkFound(line, ' ', i);
  }

  lemma MarkFound(line: string, c: char, i: nat)
    requires i <= |line|
    ensures var r := FindText(line, [c], i);
            if r.None? then c !in line[i..] else i <= r.value < |line| && line[r.value] == c && c !in line[i..r.value]
  {
    FoundExactly(line, [c], i);
    hide FindText;
    var r := FindText(line, [c], i);
    if r.Some? { OneStands(line, c, r.value); }
    forall k | i <= k < (if r.None? then |line| else r.value) ensures line[k] != c {
      OneStands(line, c, k);
    }
  }

  lemma OneStands(s: string, c: char, k: nat)
    ensures StandsAt(s, [c], k) <==> k < |s| && s[k] == c
  {
    if k < |s| { assert s[k..k + 1] == [s[k]]; }
  }

  lemma {:induction false} HeadersAddedExactly(lines: seq<string>, headers: Headers)
    ensures AddHeaders(lines, headers).Some? <==> Coloned(lines)
    decreases lines
  {
    hide Trim, LowerAll;
    if lines != [] {
      MarkFound(Trim(lines[0]), ':', 0);
      assert Trim(lines[0])[0..] == Trim(lines[0]);
      var added := AddHeader(Trim(lines[0]), headers);
      assert added.Some? <==> ':' in Trim(lines[0]);
      HeadersAddedExactly(lines[1..], if added.Some? then added.value else headers);
      HeadersAddedExactly(lines[1..], headers);
      assert lines == [lines[0]] + lines[1..];
    }
  }

  lemma PathExactly(target: string)
    ensures PathIn(target, PathOf(target))
  {
    MarkFound(target, '?', 0);
    var query := FindText(target, "?", 0);
    assert target[0..] == target;
    if query.Some? { assert target[..query.value] + "?" == target[..query.value + 1] && target[0..query.value] == target[..query.value]; }
  }

  /** The first line of what comes before the blank line, and the rest. */
  function HeadParts(head: string): (string, seq<string>) {
    var end := FindText(head, BREAK, 0);
    if end.None? then (head, []) else (head[..end.value], SplitFrom(head[end.value + 2..], 0))
  }

  lemma LineAsks(line: string)
    ensures var first := FindText(line, " ", 0);
            var second := if first.None? then None else FindText(line, " ", first.value + 1);
            if second.None? then forall m, t, v :: !Asks(line, m, t, v)
            else
              var name, target := line[..first.value], line[first.value + 1..second.value];
              if name == "" || target == "" then forall m, t, v :: !Asks(line, m, t, v)
              else Asks(line, name, target, line[second.value + 1..])
  {
    hide FindText, Asks;
    forall m, t, v | Asks(line, m, t, v)
      ensures m != "" && t != "" && FindText(line, " ", 0) == Some(|m|) && FindText(line, " ", |m| + 1) == Some(|m| + 1 + |t|)
              && line[..|m|] == m && line[|m| + 1..|m| + 1 + |t|] == t
    {
      AskedAt(line, m, t, v);
    }
    var first := FindText(line, " ", 0);
    if first.Some? && FindText(line, " ", first.value + 1).Some? { SpacesAsk(line); }
  }

  lemma SpacesAsk(line: string)
    requires var first := FindText(line, " ", 0); first.Some? && FindText(line, " ", first.value + 1).Some?
    ensures var i := FindText(line, " ", 0).value;
            var j := FindText(line, " ", i + 1).value;
            var name, target := line[..i], line[i + 1..j];
            name != "" && target != "" ==> Asks(line, name, target, line[j + 1..])
  {
    hide FindText, Asks;
    SpaceFound(line, 0);
    var i := FindText(line, " ", 0).value;
    SpaceFound(line, i + 1);
    var j := FindText(line, " ", i + 1).value;
    assert line[0..i] == line[..i];
    CutTwice(line, i, j);
  }

  lemma CutTwice(line: string, i: nat, j: nat)
    requires i < j < |line| && line[i] == ' ' && line[j] == ' ' && ' ' !in line[..i] && ' ' !in line[i + 1..j]
    ensures line[..i] != "" && line[i + 1..j] != "" ==> Asks(line, line[..i], line[i + 1..j], line[j + 1..])
  {
    var rest, n := line[i + 1..], j - (i + 1);
    Cut(line, i);
    Cut(rest, n);
    assert rest[..n] == line[i + 1..j] && rest[n + 1..] == line[j + 1..];
  }

  lemma Cut(s: string, i: nat)
    requires i < |s| && s[i] == ' '
    ensures s == s[..i] + " " + s[i + 1..] && s == s[..i] + (" " + s[i + 1..])
  {
  }

  lemma {:induction false} FoundFirst(s: string, what: string, i: nat, k: nat)
    requires i <= k && StandsAt(s, what, k) && forall j | i <= j < k :: !StandsAt(s, what, j)
    ensures FindText(s, what, i) == Some(k)
    decreases k - i
  {
    if i < k {
      assert !StandsAt(s, what, i);
      FoundFirst(s, what, i + 1, k);
    }
  }

  lemma FoundAt(s: string, c: char, i: nat, k: nat)
    requires i <= k < |s| && s[k] == c && forall j | i <= j < k :: s[j] != c
    ensures FindText(s, [c], i) == Some(k)
  {
    assert s[k..k + 1] == [s[k]];
    forall j | i <= j < k ensures !StandsAt(s, [c], j) { assert s[j..j + 1] == [s[j]] && s[j] != c; }
    FoundFirst(s, [c], i, k);
  }

  lemma AskedAt(line: string, m: string, t: string, v: string)
    requires Asks(line, m, t, v)
    ensures m != "" && t != "" && |m| + 1 + |t| < |line|
    ensures FindText(line, " ", 0) == Some(|m|) && FindText(line, " ", |m| + 1) == Some(|m| + 1 + |t|)
    ensures line[..|m|] == m && line[|m| + 1..|m| + 1 + |t|] == t
  {
    AskedParts(line, m, t, v);
    hide Asks, FindText;
    var i, j := |m|, |m| + 1 + |t|;
    NotWithin(line, 0, m, ' ');
    NotWithin(line, i + 1, t, ' ');
    FoundAt(line, ' ', 0, i);
    FoundAt(line, ' ', i + 1, j);
  }

  lemma NotWithin(s: string, i: nat, part: string, c: char)
    requires i + |part| <= |s| && s[i..i + |part|] == part && c !in part
    ensures forall k | i <= k < i + |part| :: s[k] != c
  {
    forall k | i <= k < i + |part| ensures s[k] != c { assert s[k] == s[i..i + |part|][k - i] && part[k - i] in part; }
  }

  lemma AskedParts(line: string, m: string, t: string, v: string)
    requires Asks(line, m, t, v)
    ensures m != "" && t != "" && ' ' !in m && ' ' !in t && |line| == |m| + |t| + |v| + 2
    ensures line[|m|] == ' ' && line[|m| + 1 + |t|] == ' '
    ensures line[..|m|] == m && line[|m| + 1..|m| + 1 + |t|] == t
  {
  }

  /** What comes before a blank line is a request exactly when its first line asks for
      something and its other lines are headers or blank; and then it is what that line asks
      for, with the path its target begins with up to a question mark. */
  lemma AskedExactly(head: string, length: nat)
    ensures var parsed := ParseHead(head, length);
            var (line, lines) := HeadParts(head);
            && (parsed.Ready? <==> (exists m, t, v :: Asks(line, m, t, v)) && Coloned(lines))
            && (parsed.Ready? ==>
                  exists v ::
                    && Asks(line, parsed.request.method_, parsed.request.target, v) && parsed.request.version == Trim(v)
                    && PathIn(parsed.request.target, parsed.request.path))
  {
    hide FindText, SplitFrom, Trim, Asks, AddHeaders, Coloned, PathIn, PathOf;
    var parsed := ParseHead(head, length);
    var (line, lines) := HeadParts(head);
    LineAsks(line);
    HeadersAddedExactly(lines, map[]);
    NoLinesColoned();
    if parsed.Ready? { PathExactly(parsed.request.target); }
  }

  lemma NoLinesColoned()
    ensures Coloned([])
  {
  }

  ghost predicate StandsFirst(s: string, what: string, k: nat) {
    StandsAt(s, what, k) && forall j | 0 <= j < k :: !StandsAt(s, what, j)
  }

  /** And there is something to take apart once a blank line is there; until then there is only
      too much, or not enough. */
  lemma StateExactly(buffer: string)
    ensures var there := exists k: nat :: StandsFirst(buffer, "\r\n\r\n", k);
            if !there then ParseBuffer(buffer) == if |buffer| > 65536 then Malformed else Incomplete
            else !ParseBuffer(buffer).Incomplete?
    ensures forall k: nat | StandsFirst(buffer, "\r\n\r\n", k) :: ParseBuffer(buffer) == ParseHead(buffer[..k], k + 4)
  {
    hide ParseHead, FindText, StandsAt;
    var end := FindText(buffer, END_OF_HEADERS, 0);
    FoundExactly(buffer, END_OF_HEADERS, 0);
    if end.Some? {
      NeverIncomplete(buffer[..end.value], end.value + 4);
      assert StandsFirst(buffer, END_OF_HEADERS, end.value);
    }
    forall k: nat | StandsFirst(buffer, END_OF_HEADERS, k) ensures end == Some(k) { FoundFirst(buffer, END_OF_HEADERS, 0, k); }
  }

  lemma NeverIncomplete(head: string, length: nat)
    ensures !ParseHead(head, length).Incomplete?
  {
    hide FindText;
  }

  // ------------------------------------------------------------- requests sent together

  datatype Ending = Closed(left: string) | Refused(left: string)

  datatype Served = Served(requests: seq<Request>, ending: Ending)

  /** The requests read off a connection whose bytes arrive in these chunks, an empty chunk
      or none closing it. What is already in hand is looked at before more is read. */
  function Serve(buffer: string, chunks: seq<string>): Served
    decreases |chunks|, |buffer|
  {
    match ParseBuffer(buffer)
    case Malformed => Served([], Refused(buffer))
    case Incomplete =>
      if chunks == [] || chunks[0] == "" then Served([], Closed(buffer))
      else Serve(buffer + chunks[0], chunks[1..])
    case Ready(request) =>
      ReadyIsStable(buffer, "");
      var rest := Serve(buffer[request.length..], chunks);
      rest.(requests := [request] + rest.requests)
  }

  lemma ServeStep(buffer: string, chunks: seq<string>)
    ensures match ParseBuffer(buffer)
            case Malformed => Serve(buffer, chunks) == Served([], Refused(buffer))
            case Incomplete =>
              Serve(buffer, chunks) ==
                if chunks == [] || chunks[0] == "" then Served([], Closed(buffer)) else Serve(buffer + chunks[0], chunks[1..])
            case Ready(request) =>
              && 0 < request.length <= |buffer|
              && var rest := Serve(buffer[request.length..], chunks);
                 Serve(buffer, chunks) == rest.(requests := [request] + rest.requests)
  {
    hide ParseBuffer;
    if ParseBuffer(buffer).Ready? { ReadyIsStable(buffer, ""); }
  }

  lemma OneMore(requests: seq<Request>, request: Request, rest: seq<Request>)
    ensures requests + ([request] + rest) == (requests + [request]) + rest && requests + [] == requests
  {
  }

  method ServeConnection(chunks: seq<string>) returns (requests: seq<Request>, ending: Ending)
    ensures Served(requests, ending) == Serve("", chunks)
  {
    hide ParseBuffer, Serve;
    requests := [];
    var buffer := "";
    var next := 0;
    ghost var all := Serve("", chunks);
    assert chunks[0..] == chunks && [] + all.requests == all.requests;
    while true
      invariant 0 <= next <= |chunks|
      invariant var rest := Serve(buffer, chunks[next..]);
                all.ending == rest.ending && all.requests == requests + rest.requests
      decreases |chunks| - next, |buffer|
    {
      var parsed := ParseRequest(buffer);
      ServeStep(buffer, chunks[next..]);
      match parsed {
        case Malformed =>
          assert requests + [] == requests;
          return requests, Refused(buffer);
        case Incomplete =>
          assert requests + [] == requests;
          if next == |chunks| || chunks[next] == "" { return requests, Closed(buffer); }
          assert chunks[next..][0] == chunks[next] && chunks[next..][1..] == chunks[next + 1..];
          buffer := buffer + chunks[next];
          next := next + 1;
        case Ready(request) =>
          OneMore(requests, request, Serve(buffer[request.length..], chunks[next..]).requests);
          buffer := buffer[request.length..];
          requests := requests + [request];
      }
    }
  }

  function Together(chunks: seq<string>): string {
    if chunks == [] then "" else chunks[0] + Together(chunks[1..])
  }

  function AllWritten(wires: seq<Wire>): string {
    if wires == [] then "" else Written(wires[0]) + AllWritten(wires[1..])
  }

  function AllMeant(wires: seq<Wire>): seq<Request> {
    if wires == [] then [] else [Meant(wires[0])] + AllMeant(wires[1..])
  }

  /** Requests no longer than the limit, which a part of one then is not either. */
  ghost predicate Servable(wires: seq<Wire>) {
    forall w | w in wires :: WellFormed(w) && |Written(w)| <= MAXIMUM_REQUEST_SIZE
  }

  ghost predicate Sent(chunks: seq<string>) { forall c | c in chunks :: c != "" }

  /** Part of a request is not a request yet. */
  lemma PartIncomplete(w: Wire, part: string, more: string)
    requires WellFormed(w) && |Written(w)| <= MAXIMUM_REQUEST_SIZE
    requires Written(w) == part + more && more != ""
    ensures ParseBuffer(part) == Incomplete
  {
    hide FindText, ParseHead, Written;
    WrittenReadsBack(w);
    if FindText(part, END_OF_HEADERS, 0).Some? { FoundEarly(part, more, END_OF_HEADERS, 0); }
  }

  lemma {:induction false} ServeAll(wires: seq<Wire>, buffer: string, chunks: seq<string>)
    requires Servable(wires) && Sent(chunks) && buffer + Together(chunks) == AllWritten(wires)
    ensures Serve(buffer, chunks) == Served(AllMeant(wires), Closed(""))
    decreases |chunks|, |buffer|
  {
    hide ParseBuffer, Written, Serve, FindText;
    if wires == [] {
      SomethingSent(chunks);
      assert |buffer + Together(chunks)| == |buffer| + |Together(chunks)|;
      EmptyServed();
    } else {
      var w, rest := wires[0], wires[1..];
      assert w in wires;
      forall v | v in rest ensures WellFormed(v) && |Written(v)| <= MAXIMUM_REQUEST_SIZE { assert v in wires; }
      WrittenReadsBack(w);
      var text := Written(w);
      if |buffer| >= |text| {
        var left := buffer[|text|..];
        assert (buffer + Together(chunks))[..|text|] == text && (buffer + Together(chunks))[|text|..] == AllWritten(rest);
        assert buffer == text + left;
        ReadyIsStable(text, left);
        assert left + Together(chunks) == AllWritten(rest);
        ServeAll(rest, left, chunks);
        ReadyServed(buffer, chunks, Meant(w));
      } else {
        var more := text[|buffer|..];
        assert (buffer + Together(chunks))[..|text|] == text;
        assert text == buffer + more;
        PartIncomplete(w, buffer, more);
        assert chunks != [] && chunks[0] in chunks;
        forall c | c in chunks[1..] ensures c != "" { assert c in chunks; }
        assert buffer + (chunks[0] + Together(chunks[1..])) == (buffer + chunks[0]) + Together(chunks[1..]);
        ServeAll(wires, buffer + chunks[0], chunks[1..]);
        WaitingServed(buffer, chunks);
      }
    }
  }

  lemma SomethingSent(chunks: seq<string>)
    requires Sent(chunks)
    ensures chunks != [] ==> Together(chunks) != ""
  {
    if chunks != [] { assert chunks[0] in chunks; }
  }

  lemma EmptyServed()
    ensures Serve("", []) == Served([], Closed(""))
  {
    assert FindText("", END_OF_HEADERS, 0) == None;
  }

  lemma ReadyServed(buffer: string, chunks: seq<string>, request: Request)
    requires ParseBuffer(buffer) == Ready(request) && request.length <= |buffer|
    ensures var rest := Serve(buffer[request.length..], chunks);
            Serve(buffer, chunks) == rest.(requests := [request] + rest.requests)
  {
    hide ParseBuffer;
  }

  lemma WaitingServed(buffer: string, chunks: seq<string>)
    requires ParseBuffer(buffer) == Incomplete && chunks != [] && chunks[0] != ""
    ensures Serve(buffer, chunks) == Serve(buffer + chunks[0], chunks[1..])
  {
    hide ParseBuffer;
  }

  /** Well-formed requests sent one after another are read as just those requests, with
      nothing left over, into whatever chunks the connection cuts them. */
  lemma RequestsHoweverCut(wires: seq<Wire>, chunks: seq<string>)
    requires Servable(wires) && Sent(chunks) && Together(chunks) == AllWritten(wires)
    ensures Serve("", chunks) == Served(AllMeant(wires), Closed(""))
  {
    assert "" + Together(chunks) == Together(chunks);
    ServeAll(wires, "", chunks);
  }
}

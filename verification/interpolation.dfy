/** Splitting text at its `#{...}` holes (src/blogin/haml.cpp, parse_interpolated), and
    the two facts that make it exact: writing the pieces back gives the text, and the
    pieces of a text are the only ones it could have been written from. */
module Interpolation {
  import opened Strings
  import opened Template
  import opened Compiling
  import Expression

  datatype Piece = Plain(literal: string) | Gap(source: string)

  /** The pieces before the first hole that never closes, and whether there is none. */
  datatype Split = Split(pieces: seq<Piece>, whole: bool)

  /** Where the brace that closes a hole is, `depth` braces deep. */
  function Closing(s: string, depth: nat): (r: Option<nat>)
    requires depth > 0
    ensures r.Some? ==> r.value < |s| && s[r.value] == '}'
  {
    if s == [] then None
    else if s[0] == '}' && depth == 1 then Some(0)
    else
      var rest := Closing(s[1..], if s[0] == '{' then depth + 1 else if s[0] == '}' then depth - 1 else depth);
      if rest.None? then None else Some(rest.value + 1)
  }

  function Flush(literal: string): seq<Piece> { if literal == "" then [] else [Plain(literal)] }

  predicate OpensHole(s: string) { |s| >= 2 && s[0] == '#' && s[1] == '{' }

  /** The pieces of `s`, the literal before it being `literal` so far. */
  function Pieces(literal: string, s: string): Split
    decreases |s|
  {
    if s == [] then Split(Flush(literal), true)
    else if !OpensHole(s) then Pieces(literal + [s[0]], s[1..])
    else
      var end := Closing(s[2..], 1);
      if end.None? then Split([], false)
      else
        var rest := Pieces("", s[2 + end.value + 1..]);
        Split(Flush(literal) + [Gap(s[2..2 + end.value])] + rest.pieces, rest.whole)
  }

  /** The text that pieces are written as. */
  function Emit(pieces: seq<Piece>): string {
    if pieces == [] then ""
    else EmitPiece(pieces[0]) + Emit(pieces[1..])
  }

  function EmitPiece(p: Piece): string {
    match p
    case Plain(literal) => literal
    case Gap(source) => "#{" + source + "}"
  }

  /** Whether a hole opens anywhere in a text. */
  predicate HasOpening(s: string) { s != [] && (OpensHole(s) || HasOpening(s[1..])) }

  /** Braces that close what they open, and no more, `depth` of them open before. */
  predicate Balanced(s: string, depth: nat) {
    if s == [] then depth == 0
    else if s[0] == '{' then Balanced(s[1..], depth + 1)
    else if s[0] == '}' then depth > 0 && Balanced(s[1..], depth - 1)
    else Balanced(s[1..], depth)
  }

  /** Literals that are not empty, open no hole and do not touch, and balanced holes. */
  predicate Proper(pieces: seq<Piece>) {
    pieces == [] ||
    match pieces[0]
    case Plain(literal) =>
      literal != "" && !HasOpening(literal) && (|pieces| == 1 || pieces[1].Gap?) && Proper(pieces[1..])
    case Gap(source) => Balanced(source, 0) && Proper(pieces[1..])
  }

  // ---------------------------------------------------------------- balance

  lemma {:induction false} ClosingBalances(s: string, depth: nat)
    requires depth > 0 && Closing(s, depth).Some?
    ensures Balanced(s[..Closing(s, depth).value], depth - 1)
    decreases s
  {
    var n := Closing(s, depth).value;
    if s[0] != '}' || depth > 1 {
      var deeper := if s[0] == '{' then depth + 1 else if s[0] == '}' then depth - 1 else depth;
      ClosingBalances(s[1..], deeper);
      assert s[..n][1..] == s[1..][..n - 1];
    }
  }

  lemma {:induction false} BalancedCloses(s: string, depth: nat, rest: string)
    requires Balanced(s, depth)
    ensures Closing(s + "}" + rest, depth + 1) == Some(|s|)
    decreases s
  {
    var t := s + "}" + rest;
    if s == [] {
      assert t[0] == '}';
    } else {
      assert t[0] == s[0] && t[1..] == s[1..] + "}" + rest;
      BalancedCloses(s[1..], if s[0] == '{' then depth + 1 else if s[0] == '}' then depth - 1 else depth, rest);
    }
  }

  // ---------------------------------------------------------------- writing back

  lemma {:induction false} EmitConcat(a: seq<Piece>, b: seq<Piece>)
    ensures Emit(a + b) == Emit(a) + Emit(b)
    decreases a
  {
    if a == [] {
      assert a + b == b;
    } else {
      assert (a + b)[1..] == a[1..] + b;
      EmitConcat(a[1..], b);
    }
  }

  lemma EmitFlush(literal: string)
    ensures Emit(Flush(literal)) == literal
  {
    if literal != "" { assert Emit([Plain(literal)]) == literal + Emit([]); }
  }

  lemma {:induction false} PiecesEmit(literal: string, s: string)
    requires Pieces(literal, s).whole
    ensures Emit(Pieces(literal, s).pieces) == literal + s
    decreases |s|
  {
    hide Emit, HasOpening;
    EmitFlush(literal);
    if s != [] {
      if !OpensHole(s) {
        PiecesEmit(literal + [s[0]], s[1..]);
        assert (literal + [s[0]]) + s[1..] == literal + s;
      } else {
        var n := Closing(s[2..], 1).value;
        PiecesEmit("", s[2 + n + 1..]);
        EmitAround(literal, s, n, Pieces("", s[2 + n + 1..]).pieces);
      }
    }
  }

  lemma EmitAround(literal: string, s: string, n: nat, rest: seq<Piece>)
    requires OpensHole(s) && n < |s| - 2 && s[2 + n] == '}'
    requires Emit(rest) == "" + s[2 + n + 1..]
    ensures Emit(Flush(literal) + [Gap(s[2..2 + n])] + rest) == literal + s
  {
    hide Emit, Flush;
    var hole := Gap(s[2..2 + n]);
    EmitFlush(literal);
    EmitConcat(Flush(literal) + [hole], rest);
    EmitConcat(Flush(literal), [hole]);
    EmitOne(hole);
    assert s == "#{" + s[2..2 + n] + "}" + s[2 + n + 1..];
  }

  lemma EmitNothing()
    ensures Emit([]) == ""
  {
  }

  lemma EmitOne(p: Piece)
    ensures Emit([p]) == EmitPiece(p)
  {
    assert EmitPiece(p) + Emit([]) == EmitPiece(p);
  }

  // ---------------------------------------------------------------- the form of the pieces

  /** A literal so far, ahead of the text still to be split: no hole opens in it or across. */
  predicate Clean(literal: string, s: string) {
    !HasOpening(literal) && !(literal != "" && literal[|literal| - 1] == '#' && s != [] && s[0] == '{')
  }

  lemma {:induction false} OpeningAtEnd(literal: string, c: char)
    requires !HasOpening(literal) && !(literal != "" && literal[|literal| - 1] == '#' && c == '{')
    ensures !HasOpening(literal + [c])
    decreases literal
  {
    var t := literal + [c];
    if literal != "" {
      assert t[1..] == literal[1..] + [c];
      OpeningAtEnd(literal[1..], c);
    } else {
      assert t[1..] == [];
    }
  }

  predicate StartsWithGap(pieces: seq<Piece>) { pieces == [] || pieces[0].Gap? }

  lemma ProperFlush(literal: string, rest: seq<Piece>)
    requires !HasOpening(literal) && Proper(rest) && StartsWithGap(rest)
    ensures Proper(Flush(literal) + rest)
  {
    if literal != "" {
      assert (Flush(literal) + rest)[1..] == rest;
    } else {
      assert Flush(literal) + rest == rest;
    }
  }

  lemma {:induction false} PiecesProper(literal: string, s: string)
    requires Pieces(literal, s).whole && Clean(literal, s)
    ensures Proper(Pieces(literal, s).pieces)
    decreases |s|
  {
    if s == [] {
      ProperFlush(literal, []);
      assert Flush(literal) + [] == Flush(literal);
    } else if !OpensHole(s) {
      OpeningAtEnd(literal, s[0]);
      PiecesProper(literal + [s[0]], s[1..]);
    } else {
      var n := Closing(s[2..], 1).value;
      var rest := Pieces("", s[2 + n + 1..]);
      PiecesProper("", s[2 + n + 1..]);
      ClosingBalances(s[2..], 1);
      assert s[2..][..n] == s[2..2 + n];
      var hole := Gap(s[2..2 + n]);
      assert ([hole] + rest.pieces)[1..] == rest.pieces;
      ProperFlush(literal, [hole] + rest.pieces);
      assert Flush(literal) + [hole] + rest.pieces == Flush(literal) + ([hole] + rest.pieces);
    }
  }

  // ---------------------------------------------------------------- reading back

  lemma {:induction false} PiecesRead(literal: string, more: string, pieces: seq<Piece>)
    requires Proper(pieces) && StartsWithGap(pieces)
    requires !HasOpening(more)
    ensures Pieces(literal, more + Emit(pieces)) == Split(Flush(literal + more) + pieces, true)
    decreases |pieces|, 1 + |more|
  {
    hide Emit;
    var s := more + Emit(pieces);
    if more != [] {
      PiecesRead(literal + [more[0]], more[1..], pieces);
      assert s[1..] == more[1..] + Emit(pieces);
      assert (literal + [more[0]]) + more[1..] == literal + more;
      NoOpeningAcross(more, pieces);
    } else if pieces == [] {
      EmitNothing();
      assert s == [] && literal + more == literal && Flush(literal) + [] == Flush(literal);
    } else {
      assert s == Emit(pieces) && literal + more == literal;
      ReadGap(literal, pieces);
    }
  }

  lemma NoOpeningAcross(more: string, pieces: seq<Piece>)
    requires more != [] && !HasOpening(more) && StartsWithGap(pieces)
    ensures !OpensHole(more + Emit(pieces))
  {
    var s := more + Emit(pieces);
    if |more| == 1 && pieces != [] {
      assert Emit(pieces) == "#{" + pieces[0].source + "}" + Emit(pieces[1..]);
      assert s[1] == '#';
    }
  }

  lemma ReadGap(literal: string, pieces: seq<Piece>)
    requires Proper(pieces) && pieces != [] && pieces[0].Gap?
    ensures Pieces(literal, Emit(pieces)) == Split(Flush(literal) + pieces, true)
    decreases |pieces|, 0
  {
    hide Emit, Balanced, Closing, HasOpening;
    var s, source, after := Emit(pieces), pieces[0].source, Emit(pieces[1..]);
    EmitGap(pieces);
    BalancedCloses(source, 0, after);
    ReadRest(pieces[1..]);
    ReadHole(literal, s, source, after);
    assert Flush(literal) + [pieces[0]] + pieces[1..] == Flush(literal) + pieces;
  }

  lemma EmitGap(pieces: seq<Piece>)
    requires pieces != [] && pieces[0].Gap?
    ensures Emit(pieces) == "#{" + (pieces[0].source + "}" + Emit(pieces[1..]))
  {
    assert "#{" + pieces[0].source + "}" + Emit(pieces[1..]) == "#{" + (pieces[0].source + "}" + Emit(pieces[1..]));
  }

  lemma ReadHole(literal: string, s: string, source: string, after: string)
    requires s == "#{" + (source + "}" + after) && Closing(source + "}" + after, 1) == Some(|source|)
    ensures Pieces(literal, s) == var rest := Pieces("", after); Split(Flush(literal) + [Gap(source)] + rest.pieces, rest.whole)
  {
    hide Closing, Flush;
    assert OpensHole(s) && s[2..] == source + "}" + after;
    assert s[2..2 + |source|] == source && s[2 + |source| + 1..] == after;
  }

  lemma ReadRest(pieces: seq<Piece>)
    requires Proper(pieces)
    ensures Pieces("", Emit(pieces)) == Split(pieces, true)
    decreases |pieces|, 2
  {
    hide Balanced, Pieces, Emit, HasOpening, Proper, Flush;
    if pieces != [] && pieces[0].Plain? {
      var literal := pieces[0].literal;
      PlainFirst(pieces);
      PiecesRead("", literal, pieces[1..]);
      assert "" + literal == literal;
    } else {
      NoOpenings();
      PiecesRead("", "", pieces);
      assert "" + Emit(pieces) == Emit(pieces) && [] + pieces == pieces;
    }
  }

  lemma NoOpenings()
    ensures !HasOpening("") && Flush("" + "") == []
  {
  }

  lemma PlainFirst(pieces: seq<Piece>)
    requires Proper(pieces) && pieces != [] && pieces[0].Plain?
    ensures var literal := pieces[0].literal;
            && Proper(pieces[1..]) && StartsWithGap(pieces[1..]) && !HasOpening(literal)
            && Emit(pieces) == literal + Emit(pieces[1..]) && Flush(literal) + pieces[1..] == pieces
  {
    hide HasOpening;
  }

  /** Splitting is exact. It succeeds on just the texts that proper pieces are written as,
      and gives the one list of proper pieces that the text is. */
  lemma SplitExact(content: string)
    ensures var split := Pieces("", content);
            && (split.whole ==> Proper(split.pieces) && Emit(split.pieces) == content)
            && (split.whole <==> exists pieces :: Proper(pieces) && Emit(pieces) == content)
            && forall pieces | Proper(pieces) && Emit(pieces) == content :: split.pieces == pieces
  {
    var split := Pieces("", content);
    if split.whole {
      PiecesProper("", content);
      PiecesEmit("", content);
      assert "" + content == content;
    }
    forall pieces | Proper(pieces) && Emit(pieces) == content ensures split == Split(pieces, true) {
      ReadRest(pieces);
    }
  }

  // ---------------------------------------------------------------- compiling

  function SegmentOf(p: Piece): Compiled<Segment> {
    match p
    case Plain(literal) => Good(Literal(literal))
    case Gap(source) =>
      match ExpressionOf(source)
      case Good(node) => Good(Hole(node))
      case Bad(error) => Bad(error)
  }

  /** The pieces compiled in order, the first error standing for all. */
  function Segments(split: Split): Compiled<seq<Segment>>
    decreases split.pieces
  {
    if split.pieces == [] then if split.whole then Good([]) else Bad(UnterminatedHole)
    else
      match SegmentOf(split.pieces[0])
      case Bad(error) => Bad(error)
      case Good(segment) =>
        match Segments(split.(pieces := split.pieces[1..]))
        case Bad(error) => Bad(error)
        case Good(rest) => Good([segment] + rest)
  }

  /** Text with its holes compiled. */
  function Interpolated(content: string): Compiled<seq<Segment>> { Segments(Pieces("", content)) }

  /** More segments after those already there. */
  function Onto(parts: seq<Segment>, r: Compiled<seq<Segment>>): Compiled<seq<Segment>> {
    match r
    case Bad(error) => Bad(error)
    case Good(more) => Good(parts + more)
  }

  function FlushLiteral(literal: string): seq<Segment> { if literal == "" then [] else [Literal(literal)] }

  lemma HoleStep(parts: seq<Segment>, literal: string, s: string)
    requires s != [] && OpensHole(s)
    ensures var end := Closing(s[2..], 1);
            var whole := Onto(parts, Segments(Pieces(literal, s)));
            if end.None? then whole == Bad(UnterminatedHole)
            else
              var parsed := ExpressionOf(s[2..2 + end.value]);
              whole == if parsed.Bad? then Bad(parsed.error)
                       else Onto(parts + FlushLiteral(literal) + [Hole(parsed.value)], Interpolated(s[2 + end.value + 1..]))
  {
    hide Closing, ExpressionOf, Segments;
    var end := Closing(s[2..], 1);
    if end.None? {
      NoSegments();
    } else {
      var rest := Pieces("", s[2 + end.value + 1..]);
      var gap := Gap(s[2..2 + end.value]);
      var tail := Split([gap] + rest.pieces, rest.whole);
      assert Flush(literal) + [gap] + rest.pieces == Flush(literal) + tail.pieces;
      assert Pieces(literal, s) == Split(Flush(literal) + tail.pieces, rest.whole);
      FlushSegments(literal, tail);
      GapSegments(gap.source, rest);
      OntoAgain(parts, FlushLiteral(literal), Segments(tail));
      if ExpressionOf(gap.source).Good? {
        OntoAgain(parts + FlushLiteral(literal), [Hole(ExpressionOf(gap.source).value)], Segments(rest));
      }
    }
  }

  lemma NoSegments()
    ensures Segments(Split([], false)) == Bad(UnterminatedHole)
  {
  }

  lemma OntoAgain(a: seq<Segment>, b: seq<Segment>, r: Compiled<seq<Segment>>)
    ensures Onto(a, Onto(b, r)) == Onto(a + b, r)
  {
    if r.Good? { assert a + (b + r.value) == (a + b) + r.value; }
  }

  lemma GapSegments(source: string, rest: Split)
    ensures Segments(Split([Gap(source)] + rest.pieces, rest.whole))
         == var parsed := ExpressionOf(source);
            if parsed.Bad? then Bad(parsed.error) else Onto([Hole(parsed.value)], Segments(rest))
  {
    hide ExpressionOf;
    var all := Split([Gap(source)] + rest.pieces, rest.whole);
    assert all.pieces[1..] == rest.pieces && all.(pieces := rest.pieces) == rest;
  }

  lemma OntoNothing(r: Compiled<seq<Segment>>)
    ensures Onto([], r) == r
  {
    if r.Good? { assert [] + r.value == r.value; }
  }

  lemma LiteralStep(literal: string, s: string)
    requires s != ""
    ensures !OpensHole(s) ==> Pieces(literal, s) == Pieces(literal + [s[0]], s[1..])
  {
    hide Closing;
  }

  lemma FlushSegments(literal: string, rest: Split)
    ensures Segments(Split(Flush(literal) + rest.pieces, rest.whole)) == Onto(FlushLiteral(literal), Segments(rest))
  {
    hide ExpressionOf;
    var all := Split(Flush(literal) + rest.pieces, rest.whole);
    if literal == "" {
      assert all == rest;
      if Segments(rest).Good? { assert [] + Segments(rest).value == Segments(rest).value; }
    } else {
      assert all.pieces[1..] == rest.pieces;
      assert SegmentOf(Plain(literal)) == Good(Literal(literal));
    }
  }

  lemma LastSegments(parts: seq<Segment>, literal: string)
    ensures Onto(parts, Segments(Pieces(literal, ""))) == Good(parts + FlushLiteral(literal))
  {
    FlushSegments(literal, Split([], true));
    assert Flush(literal) + [] == Flush(literal) && FlushLiteral(literal) + [] == FlushLiteral(literal);
  }

  function Later(r: Option<nat>, n: nat): Option<nat> { if r.None? then None else Some(r.value + n) }

  function Deeper(c: char, depth: nat): nat
    requires depth > 0
  {
    if c == '{' then depth + 1 else if c == '}' then depth - 1 else depth
  }

  lemma ClosingNothing(depth: nat)
    requires depth > 0
    ensures Closing("", depth) == None
  {
  }

  lemma ClosingStep(content: string, scan: nat, depth: nat)
    requires scan < |content| && depth > 0
    ensures Closing(content[scan..], depth)
         == var deeper := Deeper(content[scan], depth);
            if deeper == 0 then Some(0) else Later(Closing(content[scan + 1..], deeper), 1)
  {
    assert content[scan..][1..] == content[scan + 1..];
  }

  /** The brace that closes the hole opened at `index`, or none. */
  method FindClosing(content: string, index: nat) returns (r: Option<nat>)
    requires index + 2 <= |content|
    ensures Closing(content[index + 2..], 1) == if r.None? then None else Some(r.value - index - 2)
    ensures r.Some? ==> index + 2 <= r.value < |content|
  {
    hide Closing;
    var depth := 1;
    var scan := index + 2;
    ghost var found := Closing(content[index + 2..], 1);
    while scan < |content| && depth > 0
      invariant index + 2 <= scan <= |content| && depth >= 0
      invariant depth > 0 ==> found == Later(Closing(content[scan..], depth), scan - index - 2)
      invariant depth == 0 ==> scan < |content| && found == Some(scan - index - 2)
    {
      ClosingStep(content, scan, depth);
      if content[scan] == '{' {
        depth := depth + 1;
      } else if content[scan] == '}' {
        depth := depth - 1;
      }
      if depth > 0 { scan := scan + 1; }
    }
    if depth > 0 { assert content[scan..] == ""; ClosingNothing(depth); }
    return if depth != 0 then None else Some(scan);
  }

  method ParseInterpolated(content: string) returns (r: Compiled<seq<Segment>>)
    ensures r == Interpolated(content)
  {
    hide Segments, Closing, ExpressionOf, Pieces, Onto;
    var parts: seq<Segment> := [];
    var literal := "";
    var index := 0;
    assert content[0..] == content;
    OntoNothing(Interpolated(content));
    while index < |content|
      invariant 0 <= index <= |content|
      invariant Interpolated(content) == Onto(parts, Segments(Pieces(literal, content[index..])))
    {
      ghost var s := content[index..];
      assert s[1..] == content[index + 1..];
      LiteralStep(literal, s);
      if !(index + 1 < |content| && content[index] == '#' && content[index + 1] == '{') {
        literal := literal + [content[index]];
        index := index + 1;
        continue;
      }
      HoleStep(parts, literal, s);
      assert s[2..] == content[index + 2..];
      var scan := FindClosing(content, index);
      if scan.None? { return Bad(UnterminatedHole); }
      assert s[2..2 + (scan.value - index - 2)] == content[index + 2..scan.value];
      assert s[2 + (scan.value - index - 2) + 1..] == content[scan.value + 1..];
      var parsed := ReadExpression(content[index + 2..scan.value]);
      if parsed.Bad? { return Bad(parsed.error); }
      assert parts + [] == parts;
      if literal != "" { parts := parts + [Literal(literal)]; }
      parts := parts + [Hole(parsed.value)];
      literal := "";
      index := scan.value + 1;
    }
    assert content[index..] == "";
    LastSegments(parts, literal);
    assert parts + [] == parts;
    if literal != "" { parts := parts + [Literal(literal)]; }
    return Good(parts);
  }

  // ---------------------------------------------------------------- what compiled text means

  /** A segment for each piece: a literal itself, a hole the expression it is the source of. */
  ghost predicate Means(parts: seq<Segment>, pieces: seq<Piece>) {
    && |parts| == |pieces|
    && forall i | 0 <= i < |parts| ::
         match pieces[i]
         case Plain(literal) => parts[i] == Literal(literal)
         case Gap(source) => parts[i].Hole? && ExpressionOf(source) == Good(parts[i].value)
  }

  /** The segments are those of the text. */
  ghost predicate Says(parts: seq<Segment>, content: string) {
    exists pieces :: Proper(pieces) && Emit(pieces) == content && Means(parts, pieces)
  }

  lemma {:induction false} SegmentsMean(pieces: seq<Piece>, parts: seq<Segment>)
    ensures Segments(Split(pieces, true)) == Good(parts) <==> Means(parts, pieces)
    decreases pieces
  {
    hide ExpressionOf;
    if pieces == [] {
      assert Means(parts, pieces) <==> parts == [];
    } else if parts != [] {
      SegmentsMean(pieces[1..], parts[1..]);
      MeansFirst(parts, pieces);
      assert parts == [parts[0]] + parts[1..];
      var rest := Segments(Split(pieces[1..], true));
      if rest.Good? && SegmentOf(pieces[0]).Good? {
        assert ([SegmentOf(pieces[0]).value] + rest.value)[1..] == rest.value;
      }
    }
  }

  lemma MeansFirst(parts: seq<Segment>, pieces: seq<Piece>)
    requires parts != [] && pieces != []
    ensures Means(parts, pieces) <==> SegmentOf(pieces[0]) == Good(parts[0]) && Means(parts[1..], pieces[1..])
  {
    hide ExpressionOf;
    if SegmentOf(pieces[0]) == Good(parts[0]) && Means(parts[1..], pieces[1..]) {
      forall i | 1 <= i < |parts|
        ensures match pieces[i]
                case Plain(literal) => parts[i] == Literal(literal)
                case Gap(source) => parts[i].Hole? && ExpressionOf(source) == Good(parts[i].value)
      {
        assert parts[i] == parts[1..][i - 1] && pieces[i] == pieces[1..][i - 1];
      }
    }
  }

  lemma {:induction false} NotWhole(pieces: seq<Piece>)
    ensures Segments(Split(pieces, false)).Bad?
    decreases pieces
  {
    if pieces != [] { NotWhole(pieces[1..]); }
  }

  /** Text compiles to just the segments of the one way it can be split. */
  lemma CompiledExactly(content: string, parts: seq<Segment>)
    ensures Interpolated(content) == Good(parts) <==> Says(parts, content)
  {
    hide Pieces, Proper, Emit, Segments, Means;
    SplitExact(content);
    var split := Pieces("", content);
    SegmentsMean(split.pieces, parts);
    NotWhole(split.pieces);
    assert split == Split(split.pieces, split.whole);
    if Interpolated(content) == Good(parts) {
      assert Proper(split.pieces) && Emit(split.pieces) == content && Means(parts, split.pieces);
    }
    if Says(parts, content) {
      var pieces :| Proper(pieces) && Emit(pieces) == content && Means(parts, pieces);
      ReadRest(pieces);
    }
  }
}

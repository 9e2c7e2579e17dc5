/** The size an image's header gives (src/blogin/assets.cpp), and for a JPEG exactly which
    bytes give one. */
module ImageSizes {
  import opened Strings

  type byte = b: int | 0 <= b < 256

  datatype Size = Size(width: nat, height: nat)

  const LARGEST := 0x4000_0000

  function BigEndian16(bytes: seq<byte>, i: nat): (n: nat)
    requires i + 2 <= |bytes|
    ensures n < 0x1_0000
  {
    bytes[i] as int * 256 + bytes[i + 1] as int
  }

  function Sized(width: nat, height: nat): Option<Size> {
    if width == 0 || height == 0 || width > LARGEST || height > LARGEST then None else Some(Size(width, height))
  }

  predicate IsStartOfFrame(marker: byte) {
    0xC0 <= marker <= 0xCF && marker != 0xC4 && marker != 0xC8 && marker != 0xCC
  }

  /** The walk over a JPEG's segments from `index` on. */
  function SizeFrom(bytes: seq<byte>, index: nat): Option<Size>
    decreases |bytes| - index
  {
    if index + 4 > |bytes| || bytes[index] != 0xFF then None
    else
      var marker := bytes[index + 1];
      if marker == 0xFF then SizeFrom(bytes, index + 1)
      else
        var length := BigEndian16(bytes, index + 2);
        if IsStartOfFrame(marker) then
          if index + 9 > |bytes| then None
          else Sized(BigEndian16(bytes, index + 7), BigEndian16(bytes, index + 5))
        else if length < 2 then None
        else SizeFrom(bytes, index + 2 + length)
  }

  method JpegSize(bytes: seq<byte>) returns (size: Option<Size>)
    ensures size == SizeFrom(bytes, 2)
  {
    var index := 2;
    while index + 4 <= |bytes|
      invariant SizeFrom(bytes, index) == SizeFrom(bytes, 2)
      decreases |bytes| - index
    {
      if bytes[index] != 0xFF { return None; }
      var marker := bytes[index + 1];
      if marker == 0xFF {
        index := index + 1;
        continue;
      }
      var length := BigEndian16(bytes, index + 2);
      if IsStartOfFrame(marker) {
        if index + 9 > |bytes| { return None; }
        return Sized(BigEndian16(bytes, index + 7), BigEndian16(bytes, index + 5));
      }
      if length < 2 { return None; }
      index := index + 2 + length;
    }
    return None;
  }

  // ------------------------------------------------------------- segments written out

  /** A segment that is no frame: fill bytes, a marker, and a payload behind its length. */
  datatype Segment = Segment(fill: nat, marker: byte, payload: seq<byte>)
  {
    predicate WellFormed() { marker != 0xFF && !IsStartOfFrame(marker) && |payload| + 2 < 0x1_0000 }
  }

  /** A frame header: its length, its precision, and the size. */
  datatype Frame = Frame(fill: nat, marker: byte, length: nat, precision: byte, width: nat, height: nat)
  {
    predicate WellFormed() { IsStartOfFrame(marker) && length < 0x1_0000 && width < 0x1_0000 && height < 0x1_0000 }
  }

  function Bytes16(n: nat): (bytes: seq<byte>)
    requires n < 0x1_0000
    ensures |bytes| == 2 && BigEndian16(bytes, 0) == n
  {
    [n / 256, n % 256]
  }

  /** Fill bytes, if any, and the 0xFF every marker begins with. */
  function Marker(fill: nat, marker: byte): (bytes: seq<byte>)
    ensures |bytes| == fill + 2 && (forall i | 0 <= i <= fill :: bytes[i] == 0xFF) && bytes[fill + 1] == marker
  {
    seq(fill + 2, i requires 0 <= i < fill + 2 => if i <= fill then 0xFF else marker)
  }

  function SegmentBytes(s: Segment): seq<byte>
    requires s.WellFormed()
  {
    Marker(s.fill, s.marker) + (Bytes16(|s.payload| + 2) + s.payload)
  }

  function FrameBytes(f: Frame): (bytes: seq<byte>)
    requires f.WellFormed()
    ensures |bytes| == f.fill + 9
  {
    Marker(f.fill, f.marker) + (Bytes16(f.length) + ([f.precision] + (Bytes16(f.height) + Bytes16(f.width))))
  }

  ghost predicate AllWellFormed(segments: seq<Segment>) { forall s | s in segments :: s.WellFormed() }

  function SegmentsBytes(segments: seq<Segment>): seq<byte>
    requires forall s | s in segments :: s.WellFormed()
  {
    if segments == [] then []
    else
      assert segments[0] in segments;
      SegmentBytes(segments[0]) + SegmentsBytes(segments[1..])
  }

  predicate AllFill(bytes: seq<byte>, from: nat, end: nat)
    requires end <= |bytes|
  {
    forall k | from <= k < end :: bytes[k] == 0xFF
  }

  /** Fill bytes are passed over one at a time. */
  lemma {:induction false} FillPassed(bytes: seq<byte>, index: nat, fill: nat)
    requires index + fill + 4 <= |bytes| && AllFill(bytes, index, index + fill + 1)
    ensures SizeFrom(bytes, index) == SizeFrom(bytes, index + fill)
    decreases fill
  {
    if fill > 0 { FillPassed(bytes, index + 1, fill - 1); }
  }

  /** Where the parts of a marker, its length and what follows are in the whole. */
  lemma MarkerParts(before: seq<byte>, fill: nat, marker: byte, length: nat, after: seq<byte>, bytes: seq<byte>)
    requires length < 0x1_0000 && bytes == before + (Marker(fill, marker) + (Bytes16(length) + after))
    ensures var index := |before|;
            && |bytes| == index + fill + 4 + |after| && AllFill(bytes, index, index + fill + 1)
            && bytes[index + fill + 1] == marker && BigEndian16(bytes, index + fill + 2) == length
            && bytes[index + fill + 4..] == after
  {
    var index := |before|;
    var head := Marker(fill, marker);
    forall k | index <= k < index + fill + 1 ensures bytes[k] == 0xFF { assert bytes[k] == head[k - index]; }
    assert bytes[index + fill + 1] == head[fill + 1];
    assert bytes[index + fill + 2] == Bytes16(length)[0] && bytes[index + fill + 3] == Bytes16(length)[1];
  }

  /** A marker at `index` and what it makes of the walk. */
  lemma SizeStep(bytes: seq<byte>, index: nat)
    requires index + 4 <= |bytes| && bytes[index] == 0xFF && bytes[index + 1] != 0xFF
    ensures var length := BigEndian16(bytes, index + 2);
            SizeFrom(bytes, index) ==
              if IsStartOfFrame(bytes[index + 1]) then
                if index + 9 > |bytes| then None else Sized(BigEndian16(bytes, index + 7), BigEndian16(bytes, index + 5))
              else if length < 2 then None
              else SizeFrom(bytes, index + 2 + length)
  {
  }

  lemma SegmentLayout(s: Segment, after: seq<byte>)
    requires s.WellFormed()
    ensures SegmentBytes(s) + after == Marker(s.fill, s.marker) + (Bytes16(|s.payload| + 2) + (s.payload + after))
    ensures |SegmentBytes(s)| == s.fill + 4 + |s.payload|
  {
    hide Marker, Bytes16;
  }

  lemma FrameLayout(f: Frame, after: seq<byte>)
    requires f.WellFormed()
    ensures FrameBytes(f) + after
         == Marker(f.fill, f.marker) + (Bytes16(f.length) + ([f.precision] + (Bytes16(f.height) + (Bytes16(f.width) + after))))
  {
    hide Marker, Bytes16;
  }

  lemma SegmentPassed(before: seq<byte>, s: Segment, after: seq<byte>)
    requires s.WellFormed()
    ensures SizeFrom(before + (SegmentBytes(s) + after), |before|)
         == SizeFrom(before + (SegmentBytes(s) + after), |before| + |SegmentBytes(s)|)
  {
    hide Marker, Bytes16, SizeFrom, SegmentBytes, BigEndian16, IsStartOfFrame;
    var bytes := before + (SegmentBytes(s) + after);
    SegmentLayout(s, after);
    MarkerParts(before, s.fill, s.marker, |s.payload| + 2, s.payload + after, bytes);
    FillPassed(bytes, |before|, s.fill);
    SizeStep(bytes, |before| + s.fill);
  }

  lemma FrameRead(before: seq<byte>, f: Frame, after: seq<byte>)
    requires f.WellFormed()
    ensures SizeFrom(before + (FrameBytes(f) + after), |before|) == Sized(f.width, f.height)
  {
    hide Marker, Bytes16, SizeFrom, FrameBytes, BigEndian16;
    var bytes := before + (FrameBytes(f) + after);
    var tail := [f.precision] + (Bytes16(f.height) + (Bytes16(f.width) + after));
    FrameLayout(f, after);
    MarkerParts(before, f.fill, f.marker, f.length, tail, bytes);
    FillPassed(bytes, |before|, f.fill);
    TailParts(bytes, |before| + f.fill + 4, f, after);
    MarkerIsFrame(f);
    SizeStep(bytes, |before| + f.fill);
  }

  lemma MarkerIsFrame(f: Frame)
    requires f.WellFormed()
    ensures f.marker != 0xFF && IsStartOfFrame(f.marker)
  {
  }

  lemma TailParts(bytes: seq<byte>, at: nat, f: Frame, after: seq<byte>)
    requires f.WellFormed() && at <= |bytes|
    requires bytes[at..] == [f.precision] + (Bytes16(f.height) + (Bytes16(f.width) + after))
    ensures at + 5 <= |bytes| && BigEndian16(bytes, at + 1) == f.height && BigEndian16(bytes, at + 3) == f.width
  {
    var tail := bytes[at..];
    assert tail[1] == Bytes16(f.height)[0] && tail[2] == Bytes16(f.height)[1];
    assert tail[3] == Bytes16(f.width)[0] && tail[4] == Bytes16(f.width)[1];
    assert bytes[at + 1] == tail[1] && bytes[at + 2] == tail[2] && bytes[at + 3] == tail[3] && bytes[at + 4] == tail[4];
  }

  lemma {:induction false} SegmentsRead(before: seq<byte>, segments: seq<Segment>, f: Frame, after: seq<byte>)
    requires AllWellFormed(segments) && f.WellFormed()
    ensures SizeFrom(before + (SegmentsBytes(segments) + (FrameBytes(f) + after)), |before|) == Sized(f.width, f.height)
    decreases segments
  {
    hide SizeFrom, SegmentBytes, FrameBytes;
    var rest := FrameBytes(f) + after;
    if segments == [] {
      assert [] + rest == rest;
      FrameRead(before, f, after);
    } else {
      var s, more := segments[0], segments[1..];
      assert s in segments;
      forall t | t in more ensures t.WellFormed() { assert t in segments; }
      SegmentPassed(before, s, SegmentsBytes(more) + rest);
      SegmentsRead(before + SegmentBytes(s), more, f, after);
      assert before + (SegmentBytes(s) + (SegmentsBytes(more) + rest)) == (before + SegmentBytes(s)) + (SegmentsBytes(more) + rest);
      assert SegmentsBytes(segments) + rest == SegmentBytes(s) + (SegmentsBytes(more) + rest);
    }
  }

  // ------------------------------------------------------------- and only those

  /** The bytes after the first two, taken as segments up to a frame. */
  ghost predicate Reads(bytes: seq<byte>, index: nat, segments: seq<Segment>, f: Frame, after: seq<byte>) {
    && index <= |bytes| && AllWellFormed(segments) && f.WellFormed()
    && bytes[index..] == SegmentsBytes(segments) + (FrameBytes(f) + after)
  }

  /** A fill byte in front of what is read makes its first marker one byte longer. */
  lemma MoreFill(bytes: seq<byte>, index: nat, segments: seq<Segment>, f: Frame, after: seq<byte>)
    requires index < |bytes| && bytes[index] == 0xFF && Reads(bytes, index + 1, segments, f, after)
    ensures exists t, g :: Reads(bytes, index, t, g, after) && g.width == f.width && g.height == f.height
  {
    hide SegmentBytes, FrameBytes;
    assert bytes[index..] == [0xFF] + bytes[index + 1..];
    if segments == [] {
      var g := f.(fill := f.fill + 1);
      FrameGrows(f);
      assert bytes[index..] == [] + (FrameBytes(g) + after);
      assert Reads(bytes, index, [], g, after);
    } else {
      var s := segments[0].(fill := segments[0].fill + 1);
      assert segments[0] in segments;
      SegmentGrows(segments[0]);
      var t := [s] + segments[1..];
      forall u | u in t ensures u.WellFormed() { assert u == s || u in segments; }
      assert t[1..] == segments[1..];
      assert SegmentsBytes(t) == [0xFF] + SegmentsBytes(segments);
      assert bytes[index..] == SegmentsBytes(t) + (FrameBytes(f) + after);
      assert Reads(bytes, index, t, f, after);
    }
  }

  lemma MarkerGrows(fill: nat, marker: byte)
    ensures Marker(fill + 1, marker) == [0xFF] + Marker(fill, marker)
  {
  }

  lemma FrameGrows(f: Frame)
    requires f.WellFormed()
    ensures FrameBytes(f.(fill := f.fill + 1)) == [0xFF] + FrameBytes(f)
  {
    hide Marker, Bytes16;
    MarkerGrows(f.fill, f.marker);
  }

  lemma SegmentGrows(s: Segment)
    requires s.WellFormed()
    ensures SegmentBytes(s.(fill := s.fill + 1)) == [0xFF] + SegmentBytes(s)
  {
    hide Marker, Bytes16;
    MarkerGrows(s.fill, s.marker);
  }

  lemma FrameThere(bytes: seq<byte>, index: nat)
    requires index + 9 <= |bytes| && bytes[index] == 0xFF && IsStartOfFrame(bytes[index + 1])
    ensures var f := Frame(0, bytes[index + 1], BigEndian16(bytes, index + 2), bytes[index + 4],
                           BigEndian16(bytes, index + 7), BigEndian16(bytes, index + 5));
            Reads(bytes, index, [], f, bytes[index + 9..])
  {
    var f := Frame(0, bytes[index + 1], BigEndian16(bytes, index + 2), bytes[index + 4],
                   BigEndian16(bytes, index + 7), BigEndian16(bytes, index + 5));
    assert Marker(0, f.marker) == bytes[index..index + 2];
    TwoBytes(bytes, index + 2);
    TwoBytes(bytes, index + 5);
    TwoBytes(bytes, index + 7);
    assert FrameBytes(f) == bytes[index..index + 9];
    assert bytes[index..] == bytes[index..index + 9] + bytes[index + 9..];
    assert bytes[index..] == SegmentsBytes([]) + (FrameBytes(f) + bytes[index + 9..]);
  }

  lemma TwoBytes(bytes: seq<byte>, i: nat)
    requires i + 2 <= |bytes|
    ensures Bytes16(BigEndian16(bytes, i)) == bytes[i..i + 2]
  {
  }

  lemma SegmentThere(bytes: seq<byte>, index: nat, segments: seq<Segment>, f: Frame, after: seq<byte>)
    requires index + 4 <= |bytes| && bytes[index] == 0xFF && bytes[index + 1] != 0xFF && !IsStartOfFrame(bytes[index + 1])
    requires BigEndian16(bytes, index + 2) >= 2
    requires Reads(bytes, index + 2 + BigEndian16(bytes, index + 2), segments, f, after)
    ensures exists t :: Reads(bytes, index, t, f, after)
  {
    hide FrameBytes;
    var next := index + 2 + BigEndian16(bytes, index + 2);
    var s := Segment(0, bytes[index + 1], bytes[index + 4..next]);
    assert Marker(0, s.marker) == bytes[index..index + 2];
    TwoBytes(bytes, index + 2);
    assert SegmentBytes(s) == bytes[index..next];
    var t := [s] + segments;
    forall u | u in t ensures u.WellFormed() { assert u == s || u in segments; }
    assert t[1..] == segments;
    assert bytes[index..] == bytes[index..next] + bytes[next..];
    assert bytes[index..] == SegmentsBytes(t) + (FrameBytes(f) + after);
    assert Reads(bytes, index, t, f, after);
  }

  lemma {:induction false} SizeHasFrame(bytes: seq<byte>, index: nat)
    requires SizeFrom(bytes, index).Some?
    ensures exists segments, f, after ::
              Reads(bytes, index, segments, f, after) && SizeFrom(bytes, index) == Sized(f.width, f.height)
    decreases |bytes| - index
  {
    hide Reads;
    var marker := bytes[index + 1];
    if marker == 0xFF {
      SizeHasFrame(bytes, index + 1);
      var segments, f, after :| Reads(bytes, index + 1, segments, f, after)
                                && SizeFrom(bytes, index + 1) == Sized(f.width, f.height);
      MoreFill(bytes, index, segments, f, after);
    } else if IsStartOfFrame(marker) {
      FrameThere(bytes, index);
    } else {
      var next := index + 2 + BigEndian16(bytes, index + 2);
      SizeHasFrame(bytes, next);
      var segments, f, after :| Reads(bytes, next, segments, f, after)
                                && SizeFrom(bytes, next) == Sized(f.width, f.height);
      SegmentThere(bytes, index, segments, f, after);
    }
  }

  const FRAME_MARKERS := [0xC0, 0xC1, 0xC2, 0xC3, 0xC5, 0xC6, 0xC7, 0xC9, 0xCA, 0xCB, 0xCD, 0xCE, 0xCF]

  lemma FrameMarkers(marker: byte)
    ensures IsStartOfFrame(marker) <==> marker in FRAME_MARKERS
  {
  }

  /** A JPEG's size is read exactly when its bytes are segments, with any fill, and then a
      frame header with neither a width nor a height of zero; and it is that size. */
  lemma JpegSizeExact(bytes: seq<byte>, size: Size)
    requires |bytes| >= 2
    ensures SizeFrom(bytes, 2) == Some(size) <==>
              exists segments, f, after ::
                Reads(bytes, 2, segments, f, after) && f.width == size.width > 0 && f.height == size.height > 0
  {
    hide SizeFrom, SegmentsBytes, FrameBytes;
    if SizeFrom(bytes, 2) == Some(size) { SizeHasFrame(bytes, 2); }
    forall segments, f, after | Reads(bytes, 2, segments, f, after)
      ensures SizeFrom(bytes, 2) == Sized(f.width, f.height)
    {
      SegmentsRead(bytes[..2], segments, f, after);
      assert bytes == bytes[..2] + bytes[2..];
    }
  }
}

/**
 JPEG files as the standard writes them (ITU-T T.81, Annex B): a start marker,
 bare markers and marker segments, and a scan with all that follows it.  On
 every such file the walk of the sanitiser is a filter of the segments.
 */
module JpegFormat {
  import opened Bytes
  import opened Wrappers
  import opened ImageTypes
  import opened JpegSanitizer
  import ImageSanitizer

  /** RSTn, SOI and TEM stand alone; SOFn are frame headers (ITU-T T.81, table B.1). */
  const ALONE: set<int> := {0x01, 0xd0, 0xd1, 0xd2, 0xd3, 0xd4, 0xd5, 0xd6, 0xd7, 0xd8}
  const FRAMES: set<int> := {0xc0, 0xc1, 0xc2, 0xc3, 0xc5, 0xc6, 0xc7, 0xc9, 0xca, 0xcb, 0xcd, 0xce, 0xcf}

  /** APP1 to APP15 without APP14, and COM. */
  const METADATA: set<int> :=
    {0xe1, 0xe2, 0xe3, 0xe4, 0xe5, 0xe6, 0xe7, 0xe8, 0xe9, 0xea, 0xeb, 0xec, 0xed, 0xef, 0xfe}

  /** A bare marker, or a segment whose length field is implied by its data. */
  datatype Segment = Bare(marker: Byte) | Segment(marker: Byte, data: Buffer) {
    predicate Valid() {
      match this
      case Bare(m) => m in ALONE
      case Segment(m, d) => m !in ALONE && m != 0xda && |d| + 2 < 0x1_0000 && (m in FRAMES ==> 5 <= |d|)
    }
  }

  function Print(s: Segment): Buffer {
    match s
    case Bare(m) => [0xff, m]
    case Segment(m, d) => [0xff, m] + Be16(|d| + 2) + d
  }

  function PrintAll(ss: seq<Segment>): Buffer {
    if ss == [] then [] else Print(ss[0]) + PrintAll(ss[1..])
  }

  /** The start of scan: its header segment, then everything to the end of the file. */
  function Scan(header: Buffer, coded: Buffer): Buffer {
    [0xff, 0xda] + Be16(|header| + 2) + header + coded
  }

  /** The list without the segments of these markers. */
  function Without(ss: seq<Segment>, markers: set<int>): seq<Segment> {
    if ss == [] then []
    else (if ss[0].Segment? && ss[0].marker in markers then [] else [ss[0]]) + Without(ss[1..], markers)
  }

  function LastFrame(ss: seq<Segment>): (f: Option<Buffer>)
    ensures f.Some? ==> exists m: Byte :: Segment(m, f.value) in ss && m in FRAMES
  {
    if ss == [] then None
    else
      var later := LastFrame(ss[1..]);
      if later.Some? then later
      else if ss[0].Segment? && ss[0].marker in FRAMES then
        assert Segment(ss[0].marker, ss[0].data) in ss;
        Some(ss[0].data)
      else None
  }

  ghost predicate AreSegments(ss: seq<Segment>) {
    forall i :: 0 <= i < |ss| ==> ss[i].Valid()
  }

  lemma FrameIsLongEnough(ss: seq<Segment>)
    requires AreSegments(ss) && LastFrame(ss).Some?
    ensures 5 <= |LastFrame(ss).value|
  {
  }

  /** The fields the walk reads of a segment are the ones printed. */
  lemma SegmentReads(pre: Buffer, m: Byte, d: Buffer, more: Buffer)
    requires |d| + 2 < 0x1_0000
    ensures var p := [0xff, m] + Be16(|d| + 2) + d;
      var buf, off := pre + p + more, |pre|;
      && |p| == 4 + |d| && buf[off..off + |p|] == p
      && buf[off] == 0xff && buf[off + 1] == m && ReadBe16(buf, off + 2) == |d| + 2
      && (5 <= |d| ==> Height(buf, off) == ReadBe16(d, 1) && Width(buf, off) == ReadBe16(d, 3))
  {
    hide Be16;
    var len := Be16(|d| + 2);
    var p: Buffer := [0xff, m] + len + d;
    var buf, off := pre + p + more, |pre|;
    assert buf[off..off + |p|] == p;
    assert buf[off + 2] == len[0] && buf[off + 3] == len[1];
    assert forall k :: 0 <= k < |d| ==> buf[off + 4 + k] == d[k];
  }

  lemma BareReads(pre: Buffer, m: Byte, more: Buffer)
    ensures var buf, off := pre + Print(Bare(m)) + more, |pre|;
      buf[off..off + 2] == Print(Bare(m)) && buf[off] == 0xff && buf[off + 1] == m
  {
  }

  /** The walk behind `pre` keeps what is no metadata, and reads the size of the last frame header. */
  ghost predicate Filters(pre: Buffer, ss: seq<Segment>, scan: Buffer) {
    var buf := pre + (PrintAll(ss) + scan);
    && Walk(buf, |pre|).Ok?
    && var s := Walk(buf, |pre|).value;
      && s.kept == PrintAll(Without(ss, METADATA)) + scan
      && (s.header.Some? <==> LastFrame(ss).Some?)
      && (s.header.Some? ==>
          && 5 <= |LastFrame(ss).value|
          && Height(buf, s.header.value.at) == ReadBe16(LastFrame(ss).value, 1)
          && Width(buf, s.header.value.at) == ReadBe16(LastFrame(ss).value, 3))
  }

  lemma {:induction false} WalkFilters(pre: Buffer, ss: seq<Segment>, header: Buffer, coded: Buffer)
    requires AreSegments(ss) && |header| + 2 < 0x1_0000
    ensures Filters(pre, ss, Scan(header, coded))
    decreases |ss|
  {
    hide Filters, Print, Scan;
    if ss == [] {
      ScanIsKept(pre, header, coded);
    } else {
      WalkFilters(pre + Print(ss[0]), ss[1..], header, coded);
      assert [ss[0]] + ss[1..] == ss;
      assert |Scan(header, coded)| >= 4 by { ScanLength(header, coded); }
      OneMore(pre, ss[0], ss[1..], Scan(header, coded));
    }
  }

  lemma ScanLength(header: Buffer, coded: Buffer)
    ensures 4 <= |Scan(header, coded)|
  {
  }

  lemma ScanIsKept(pre: Buffer, header: Buffer, coded: Buffer)
    requires |header| + 2 < 0x1_0000
    ensures Filters(pre, [], Scan(header, coded))
  {
    hide ReadBe16, Be16, Standalone, IsFrame, Dropped;
    var scan := Scan(header, coded);
    var buf := pre + ([] + scan);
    assert buf == pre + ([0xff, 0xda] + Be16(|header| + 2) + header) + coded;
    SegmentReads(pre, 0xda, header, coded);
    ScanIsNoMarker();
    assert buf[|pre|..] == scan && [] + scan == scan;
  }

  lemma OneMore(pre: Buffer, s: Segment, rest: seq<Segment>, scan: Buffer)
    requires s.Valid() && 4 <= |scan| && Filters(pre + Print(s), rest, scan)
    ensures Filters(pre, [s] + rest, scan)
  {
    hide Filters, Standalone, IsFrame, ALONE, FRAMES;
    match s {
      case Bare(m) =>
        MarkerTables(m);
        OneMoreMarker(pre, m, rest, scan);
      case Segment(m, d) => OneMoreSegment(pre, m, d, rest, scan);
    }
  }

  lemma OneMoreMarker(pre: Buffer, m: Byte, rest: seq<Segment>, scan: Buffer)
    requires Standalone(m) && 4 <= |scan| && Filters(pre + Print(Bare(m)), rest, scan)
    ensures Filters(pre, [Bare(m)] + rest, scan)
  {
    hide ReadBe16, Walk, Standalone, Width, Height, Without, LastFrame, PrintAll, Prepend;
    var more := PrintAll(rest) + scan;
    var buf := pre + Print(Bare(m)) + more;
    BareReads(pre, m, more);
    assert Walk(buf, |pre| + 2).Ok?;
    WalksBare(buf, |pre|, m);
    KeptInFront(pre, Bare(m), rest, scan, buf[|pre|..|pre| + 2], true, false);
  }

  lemma OneMoreSegment(pre: Buffer, m: Byte, d: Buffer, rest: seq<Segment>, scan: Buffer)
    requires Segment(m, d).Valid() && Filters(pre + Print(Segment(m, d)), rest, scan)
    ensures Filters(pre, [Segment(m, d)] + rest, scan)
  {
    hide ReadBe16, Be16, Walk, Standalone, IsFrame, Dropped, Width, Height, Filters, PrintAll, Prepend;
    hide ALONE, FRAMES, METADATA;
    var s := Segment(m, d);
    var buf := pre + Print(s) + (PrintAll(rest) + scan);
    SegmentReads(pre, m, d, PrintAll(rest) + scan);
    MarkerTables(m);
    WalksSegment(buf, |pre|, m, d);
    KeptInFront(pre, s, rest, scan, if m in METADATA then [] else Print(s), false, m in FRAMES);
  }

  /** The round that walks over the first segment puts it in front of what the rest gives. */
  lemma KeptInFront(pre: Buffer, s: Segment, rest: seq<Segment>, scan: Buffer, piece: Buffer, bare: bool, frame: bool)
    requires Filters(pre + Print(s), rest, scan)
    requires piece == if s.Segment? && s.marker in METADATA then [] else Print(s)
    requires frame == (s.Segment? && s.marker in FRAMES)
    requires var buf := pre + Print(s) + (PrintAll(rest) + scan);
      && Walk(buf, |pre|) == Prepend(piece, bare, frame, |pre|, Walk(buf, |pre + Print(s)|))
      && (frame ==>
          && 5 <= |s.data|
          && Height(buf, |pre|) == ReadBe16(s.data, 1) && Width(buf, |pre|) == ReadBe16(s.data, 3))
    ensures Filters(pre, [s] + rest, scan)
  {
    hide ReadBe16, Walk, ALONE, FRAMES, METADATA, Width, Height, Without, LastFrame, PrintAll, Print;
    FilterSteps(s, rest, scan);
    var buf := pre + Print(s) + (PrintAll(rest) + scan);
    assert pre + (PrintAll([s] + rest) + scan) == buf;
  }

  lemma WalksBare(buf: Buffer, off: nat, m: Byte)
    requires off + 4 <= |buf| && buf[off] == 0xff && buf[off + 1] == m && Standalone(m) && Walk(buf, off + 2).Ok?
    ensures Walk(buf, off) == Prepend(buf[off..off + 2], true, false, off, Walk(buf, off + 2))
  {
    hide Standalone, Prepend;
  }

  lemma WalksSegment(buf: Buffer, off: nat, m: Byte, d: Buffer)
    requires off + 4 + |d| <= |buf| && buf[off] == 0xff && buf[off + 1] == m && ReadBe16(buf, off + 2) == |d| + 2
    requires !Standalone(m) && m != 0xda && (IsFrame(m) ==> 5 <= |d|)
    ensures var end := off + 4 + |d|;
      Walk(buf, off) == Prepend(if Dropped(m) then [] else buf[off..end], false, IsFrame(m), off, Walk(buf, end))
  {
    hide ReadBe16, Standalone, IsFrame, Dropped, Prepend;
  }

  lemma ScanIsNoMarker()
    ensures !Standalone(0xda) && !IsFrame(0xda)
  {
  }

  /** The ranges of the walk are these markers. */
  lemma MarkerTables(m: int)
    ensures Standalone(m) <==> m in ALONE
    ensures IsFrame(m) <==> m in FRAMES
    ensures Dropped(m) <==> m in METADATA
  {
  }

  lemma FilterSteps(s: Segment, rest: seq<Segment>, scan: Buffer)
    ensures PrintAll([s] + rest) == Print(s) + PrintAll(rest)
    ensures PrintAll(Without([s] + rest, METADATA)) + scan
      == (if s.Segment? && s.marker in METADATA then [] else Print(s)) + (PrintAll(Without(rest, METADATA)) + scan)
    ensures LastFrame([s] + rest) == if LastFrame(rest).Some? then LastFrame(rest)
      else if s.Segment? && s.marker in FRAMES then Some(s.data) else None
  {
    hide Print, METADATA, FRAMES;
    var kept := Without(rest, METADATA);
    assert ([s] + rest)[1..] == rest;
    assert ([s] + kept)[1..] == kept;
    assert [] + kept == kept;
  }

  /**
   Of every JPEG file the sanitiser drops the metadata segments and nothing
   else, and reports the size of the last frame header.
   */
  lemma StripsExactlyMetadata(start: Buffer, ss: seq<Segment>, header: Buffer, coded: Buffer)
    requires |start| == 2 && AreSegments(ss) && |header| + 2 < 0x1_0000
    ensures LastFrame(ss).Some? ==> 5 <= |LastFrame(ss).value|
    ensures Spec(start + (PrintAll(ss) + Scan(header, coded)))
      == match LastFrame(ss)
         case None => Err(Rejected)
         case Some(f) =>
           var width, height := ReadBe16(f, 3), ReadBe16(f, 1);
           var kept := Without(ss,
             {0xe1, 0xe2, 0xe3, 0xe4, 0xe5, 0xe6, 0xe7, 0xe8, 0xe9, 0xea, 0xeb, 0xec, 0xed, 0xef, 0xfe});
           if width == 0 || height == 0 then Err(Rejected)
           else Ok(Sanitized(start + (PrintAll(kept) + Scan(header, coded)), width, height))
  {
    hide Print, Walk, Width, Height, ReadBe16, Scan;
    if LastFrame(ss).Some? { FrameIsLongEnough(ss); }
    WalkFilters(start, ss, header, coded);
    assert Filters(start, ss, Scan(header, coded));
    var buf := start + (PrintAll(ss) + Scan(header, coded));
    assert buf[..2] == start;
  }

  /** A start marker, the segments and the scan. */
  function File(ss: seq<Segment>, header: Buffer, coded: Buffer): Buffer {
    [0xff, 0xd8] + (PrintAll(ss) + Scan(header, coded))
  }

  /**
   The whole operation on a JPEG file that is not too large and of an allowed
   kind: what is handed out is the file without its metadata, if both sides are
   within the limits.
   */
  lemma SanitizedWhole(ss: seq<Segment>, header: Buffer, coded: Buffer, o: ImageSanitizer.Options)
    requires AreSegments(ss) && |header| + 2 < 0x1_0000 && LastFrame(ss).Some?
    requires |File(ss, header, coded)| <= o.maxBytes && ImageSanitizer.Jpeg in o.allowed
    ensures 5 <= |LastFrame(ss).value|
    ensures var file, f := File(ss, header, coded), LastFrame(ss).value;
      var body, width, height := File(Without(ss, METADATA), header, coded), ReadBe16(f, 3), ReadBe16(f, 1);
      ImageSanitizer.Spec(file, o) == if ImageSanitizer.Within(o, width, height)
        then Ok(ImageSanitizer.Image(ImageSanitizer.Jpeg, width, height, body, |file| - |body|)) else Err(Rejected)
  {
    hide ReadBe16, Spec, ImageSanitizer.Spec, ImageSanitizer.HasSignature, File, Without, LastFrame, AreSegments,
      ALONE, FRAMES, METADATA, PrintAll, Scan;
    FrameIsLongEnough(ss);
    FileStripped(ss, header, coded);
    var f := LastFrame(ss).value;
    ImageSanitizer.JpegAccepted(File(ss, header, coded), o,
      File(Without(ss, METADATA), header, coded), ReadBe16(f, 3), ReadBe16(f, 1));
  }

  lemma FileStripped(ss: seq<Segment>, header: Buffer, coded: Buffer)
    requires AreSegments(ss) && |header| + 2 < 0x1_0000 && LastFrame(ss).Some?
    requires 5 <= |LastFrame(ss).value|
    ensures ImageSanitizer.HasSignature(ImageSanitizer.Jpeg, File(ss, header, coded))
    ensures var f := LastFrame(ss).value;
      var width, height := ReadBe16(f, 3), ReadBe16(f, 1);
      Spec(File(ss, header, coded)) == if width == 0 || height == 0 then Err(Rejected)
        else Ok(Sanitized(File(Without(ss, METADATA), header, coded), width, height))
  {
    hide ReadBe16, Spec, PrintAll, Scan, Without, LastFrame, Print;
    StripsExactlyMetadata([0xff, 0xd8], ss, header, coded);
    StartsWithMarker(ss, header, coded);
  }

  lemma StartsWithMarker(ss: seq<Segment>, header: Buffer, coded: Buffer)
    ensures ImageSanitizer.HasSignature(ImageSanitizer.Jpeg, File(ss, header, coded))
  {
    var rest := PrintAll(ss) + Scan(header, coded);
    assert rest[0] == 0xff by {
      if ss != [] { assert PrintAll(ss)[0] == Print(ss[0])[0]; }
    }
    assert ([0xff, 0xd8] + rest)[..3] == [0xff, 0xd8, 0xff];
  }
}

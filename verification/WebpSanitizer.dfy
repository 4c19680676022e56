/**
 The WebP walk of src/common/utils/image-sanitize.ts: drop EXIF and XMP chunks,
 clear their flags in the extended header, rewrite the RIFF size.
 Container: RFC 9649, sections 2.3 and 2.7.
 */
module WebpSanitizer {
  import opened Bytes
  import opened Wrappers
  import opened ImageTypes

  const VP8X: seq<int> := [0x56, 0x50, 0x38, 0x58]
  const VP8: seq<int> := [0x56, 0x50, 0x38, 0x20]
  const VP8L: seq<int> := [0x56, 0x50, 0x38, 0x4c]
  const EXIF: seq<int> := [0x45, 0x58, 0x49, 0x46]
  const XMP: seq<int> := [0x58, 0x4d, 0x50, 0x20]
  const RIFF: Buffer := [0x52, 0x49, 0x46, 0x46]
  const WEBP: Buffer := [0x57, 0x45, 0x42, 0x50]

  /** `flags & ~0x0c`: the EXIF and XMP bits are cleared. */
  function ClearFlags(b: Byte): (r: Byte)
    ensures r / 4 % 4 == 0 && r % 4 == b % 4 && r / 16 == b / 16
  {
    b - b / 4 % 4 * 4
  }

  datatype Size = Size(width: nat, height: nat)

  /** What the walk keeps from some offset on, and the size it ends with. */
  datatype Chunks = Chunks(kept: Buffer, size: Size)

  function ChunkEnd(buf: Buffer, off: nat): nat
    requires off + 8 <= |buf|
  {
    var len := ReadLe32(buf, off + 4);
    var end := off + 8 + len + len % 2;
    if end <= |buf| then end else |buf|
  }

  /** The chunk at `off` as it is kept: its padding with it, flags cleared. */
  function Chunk(buf: Buffer, off: nat): Buffer
    requires off + 8 <= |buf| && off + 8 + ReadLe32(buf, off + 4) <= |buf|
  {
    var chunk := buf[off..ChunkEnd(buf, off)];
    if Ascii4(buf, off) == VP8X && 8 < |chunk| then chunk[8 := ClearFlags(chunk[8])] else chunk
  }

  /** The size after the chunk at `off`, or a read past the buffer. */
  function Measure(buf: Buffer, off: nat, size: Size): Result<Size, Refusal>
    requires off + 8 <= |buf| && off + 8 + ReadLe32(buf, off + 4) <= |buf|
  {
    var tag := Ascii4(buf, off);
    if tag == VP8X then
      if ChunkEnd(buf, off) < off + 18 then Err(OutOfRange)
      else Ok(Size(1 + ReadLe24(buf, off + 12), 1 + ReadLe24(buf, off + 15)))
    else if tag == VP8 && size.width == 0 then
      if |buf| < off + 18 then Err(OutOfRange)
      else Ok(Size(ReadLe16(buf, off + 14) % 0x4000, ReadLe16(buf, off + 16) % 0x4000))
    else if tag == VP8L && size.width == 0 then
      if |buf| < off + 13 then Err(OutOfRange)
      else Ok(Size(ReadLe32(buf, off + 9) % 0x4000 + 1, ReadLe32(buf, off + 9) / 0x4000 % 0x4000 + 1))
    else Ok(size)
  }

  function Walk(buf: Buffer, off: nat, size: Size): Result<Chunks, Refusal>
    decreases |buf| - off
  {
    if off + 8 > |buf| then Ok(Chunks([], size))
    else if off + 8 + ReadLe32(buf, off + 4) > |buf| then Err(Rejected)
    else match Measure(buf, off, size)
      case Err(e) => Err(e)
      case Ok(next) =>
        match Walk(buf, ChunkEnd(buf, off), next)
        case Err(e) => Err(e)
        case Ok(rest) =>
          Ok(Chunks((if Ascii4(buf, off) in {EXIF, XMP} then [] else Chunk(buf, off)) + rest.kept, rest.size))
  }

  function Header(payload: nat): (h: Buffer)
    ensures |h| == 12
  {
    RIFF + Le32(payload + 4) + WEBP
  }

  function Assemble(payload: Buffer, size: Size): Result<Sanitized, Refusal> {
    if size.width == 0 || size.height == 0 then Err(Rejected)
    else if |payload| + 4 >= 0x1_0000_0000 then Err(OutOfRange)
    else Ok(Sanitized(Header(|payload|) + payload, size.width, size.height))
  }

  function Spec(buf: Buffer): Result<Sanitized, Refusal> {
    match Walk(buf, 12, Size(0, 0))
    case Err(e) => Err(e)
    case Ok(c) => Assemble(c.kept, c.size)
  }

  ghost function Finish(buf: Buffer, off: nat, chunks: Buffer, size: Size): Result<Sanitized, Refusal> {
    match Walk(buf, off, size)
    case Err(e) => Err(e)
    case Ok(c) => Assemble(chunks + c.kept, c.size)
  }

  method Sanitize(buf: Buffer) returns (r: Result<Sanitized, Refusal>)
    ensures r == Spec(buf)
  {
    hide ReadLe16, ReadLe24, ReadLe32, Ascii4, Assemble, Measure, Chunk;
    var chunks: Buffer := [];
    var off, size := 12, Size(0, 0);
    assert forall b: Buffer :: [] + b == b;
    while off + 8 <= |buf|
      invariant Finish(buf, off, chunks, size) == Spec(buf)
      decreases |buf| - off
    {
      if off + 8 + ReadLe32(buf, off + 4) > |buf| { return Err(Rejected); }
      var next := Measure(buf, off, size);
      if next.Err? { return Err(next.error); }
      var kept := if Ascii4(buf, off) in {EXIF, XMP} then [] else Chunk(buf, off);
      assert forall b: Buffer :: chunks + (kept + b) == chunks + kept + b;
      chunks := chunks + kept;
      off, size := ChunkEnd(buf, off), next.value;
    }
    assert chunks + [] == chunks;
    r := Assemble(chunks, size);
  }

  // ------------------------------------------------------ What the walk keeps

  ghost predicate IsChunk(c: Buffer) {
    && 8 <= |c|
    && var len := ReadLe32(c, 4); |c| == 8 + len || |c| == 8 + len + len % 2
  }

  /** The chunks of a list that are kept, flags cleared. */
  function Kept(chunks: seq<Buffer>): seq<Buffer> {
    if chunks == [] then []
    else if |chunks[0]| < 8 || Ascii4(chunks[0], 0) in {EXIF, XMP} then Kept(chunks[1..])
    else [KeptChunk(chunks[0])] + Kept(chunks[1..])
  }

  lemma SameFields(a: Buffer, at: nat, b: Buffer, from: nat, n: nat)
    requires at + n <= |a| && from + n <= |b|
    requires forall k :: at <= k < at + n ==> a[k] == b[from + (k - at)]
    ensures 4 <= n ==> Ascii4(a, at) == Ascii4(b, from)
    ensures 8 <= n ==> ReadLe32(a, at + 4) == ReadLe32(b, from + 4)
    ensures 13 <= n ==> ReadLe32(a, at + 9) == ReadLe32(b, from + 9)
    ensures 18 <= n ==> ReadLe16(a, at + 14) == ReadLe16(b, from + 14) && ReadLe16(a, at + 16) == ReadLe16(b, from + 16)
  {
  }

  /** The chunks of a file from `off` on, with their padding. */
  function ChunkList(buf: Buffer, off: nat): seq<Buffer>
    decreases |buf| - off
  {
    if off + 8 > |buf| || off + 8 + ReadLe32(buf, off + 4) > |buf| then []
    else [buf[off..ChunkEnd(buf, off)]] + ChunkList(buf, ChunkEnd(buf, off))
  }

  /** The stray bytes behind the last chunk. */
  function Stray(buf: Buffer, off: nat): Buffer
    decreases |buf| - off
  {
    if off + 8 <= |buf| && off + 8 + ReadLe32(buf, off + 4) <= |buf| then Stray(buf, ChunkEnd(buf, off))
    else if off <= |buf| then buf[off..] else []
  }

  /** One round of the walk over a file that it accepts, and the chunk it is about. */
  lemma OneChunk(buf: Buffer, off: nat, size: Size)
    requires Walk(buf, off, size).Ok? && off + 8 <= |buf|
    ensures off + 8 + ReadLe32(buf, off + 4) <= |buf| && off + 8 <= ChunkEnd(buf, off) <= |buf|
    ensures Measure(buf, off, size).Ok?
    ensures var end := ChunkEnd(buf, off);
      var chunk, next := buf[off..end], Measure(buf, off, size).value;
      && IsChunk(chunk) && Ascii4(chunk, 0) == Ascii4(buf, off) && Walk(buf, end, next).Ok?
      && ChunkList(buf, off) == [chunk] + ChunkList(buf, end) && Stray(buf, off) == Stray(buf, end)
      && var rest := Walk(buf, end, next).value;
        Walk(buf, off, size) == Ok(Chunks(KeptChunk(chunk) + rest.kept, rest.size))
  {
    hide ReadLe32, Ascii4, Measure;
    var end := ChunkEnd(buf, off);
    SameFields(buf[off..end], 0, buf, off, end - off);
  }

  /** What is kept of a chunk. */
  function KeptChunk(c: Buffer): Buffer
    requires 8 <= |c|
  {
    if Ascii4(c, 0) in {EXIF, XMP} then []
    else if Ascii4(c, 0) == VP8X && 8 < |c| then c[8 := ClearFlags(c[8])] else c
  }

  lemma NoChunk(buf: Buffer, off: nat, size: Size)
    requires off <= |buf| < off + 8
    ensures ChunkList(buf, off) == [] && Stray(buf, off) == buf[off..] && Walk(buf, off, size) == Ok(Chunks([], size))
  {
  }

  /** The output payload is exactly the kept chunks, in order, with their metadata flags cleared. */
  lemma {:induction false} KeepsChunksInOrder(buf: Buffer, off: nat, size: Size)
    requires Walk(buf, off, size).Ok? && off <= |buf|
    ensures var chunks := ChunkList(buf, off);
      && (forall c :: c in chunks ==> IsChunk(c))
      && Concat(chunks) + Stray(buf, off) == buf[off..] && |Stray(buf, off)| < 8
      && Walk(buf, off, size).value.kept == Concat(Kept(chunks))
    decreases |buf| - off
  {
    hide Measure, ReadLe32, Ascii4, IsChunk, Concat, Kept, Walk, ChunkList, Stray, ChunkEnd, KeptChunk;
    NoneKept();
    if off + 8 > |buf| {
      NoChunk(buf, off, size);
      assert [] + buf[off..] == buf[off..];
    } else {
      OneChunk(buf, off, size);
      var end, next := ChunkEnd(buf, off), Measure(buf, off, size).value;
      KeepsChunksInOrder(buf, end, next);
      assert buf[off..] == buf[off..end] + buf[end..];
      ChunkInFront(buf[off..end], ChunkList(buf, end), Stray(buf, end));
    }
  }

  lemma NoneKept()
    ensures Concat([]) == [] && Kept([]) == []
  {
  }

  lemma ChunkInFront(chunk: Buffer, rest: seq<Buffer>, stray: Buffer)
    requires 8 <= |chunk|
    ensures Concat([chunk] + rest) + stray == chunk + (Concat(rest) + stray)
    ensures Concat(Kept([chunk] + rest)) == KeptChunk(chunk) + Concat(Kept(rest))
    ensures Kept([chunk] + rest) == (if Ascii4(chunk, 0) in {EXIF, XMP} then [] else [KeptChunk(chunk)]) + Kept(rest)
  {
    hide Ascii4, ClearFlags;
    assert ([chunk] + rest)[1..] == rest;
    assert ([KeptChunk(chunk)] + Kept(rest))[1..] == Kept(rest);
    assert [] + Kept(rest) == Kept(rest) && [] + Concat(Kept(rest)) == Concat(Kept(rest));
  }

  // -------------------------------------------------------------- Stability

  /** The size fields this chunk is read for lie inside it (with its padding). */
  predicate HeaderInside(buf: Buffer, off: nat, size: Size)
    requires off + 8 <= |buf|
  {
    && (Ascii4(buf, off) == VP8 && size.width == 0 ==> off + 18 <= ChunkEnd(buf, off))
    && (Ascii4(buf, off) == VP8L && size.width == 0 ==> off + 13 <= ChunkEnd(buf, off))
  }

  /** Every chunk the walk takes a size from has the fields inside it. */
  predicate HeadersInside(buf: Buffer, off: nat, size: Size)
    decreases |buf| - off
  {
    off + 8 <= |buf| && off + 8 + ReadLe32(buf, off + 4) <= |buf| && Measure(buf, off, size).Ok? ==>
      HeaderInside(buf, off, size) && HeadersInside(buf, ChunkEnd(buf, off), Measure(buf, off, size).value)
  }

  /** There is an extended header, which alone decides the size. */
  predicate HasVp8x(buf: Buffer, off: nat)
    decreases |buf| - off
  {
    off + 8 <= |buf| && (Ascii4(buf, off) == VP8X || HasVp8x(buf, ChunkEnd(buf, off)))
  }

  lemma {:induction false} KnownWidthReadsNoHeader(buf: Buffer, off: nat, size: Size)
    requires 0 < size.width
    ensures HeadersInside(buf, off, size)
    decreases |buf| - off
  {
    hide ReadLe16, ReadLe24, ReadLe32, Ascii4;
    if off + 8 <= |buf| && off + 8 + ReadLe32(buf, off + 4) <= |buf| && Measure(buf, off, size).Ok? {
      KnownWidthReadsNoHeader(buf, ChunkEnd(buf, off), Measure(buf, off, size).value);
    }
  }

  /** A kept chunk behind a prefix is the same chunk, and ends where the rest begins. */
  lemma ReadsChunkAgain(pre: Buffer, buf: Buffer, off: nat, rest: Buffer)
    requires off + 8 <= |buf| && off + 8 + ReadLe32(buf, off + 4) <= |buf|
    requires ChunkEnd(buf, off) == |buf| ==> rest == []
    ensures var c := Chunk(buf, off);
      var body := pre + (c + rest);
      && body == pre + c + rest && 8 <= |c| == ChunkEnd(buf, off) - off
      && Ascii4(body, |pre|) == Ascii4(buf, off) && ReadLe32(body, |pre| + 4) == ReadLe32(buf, off + 4)
      && ChunkEnd(body, |pre|) == |pre| + |c| && |pre| + 8 + ReadLe32(body, |pre| + 4) <= |body|
      && Chunk(body, |pre|) == c
  {
    hide ReadLe32, Ascii4, ClearFlags;
    var c := Chunk(buf, off);
    var body := pre + (c + rest);
    PieceInPlace(pre, c, rest);
    SameFields(body, |pre|, buf, off, 8);
    if Ascii4(buf, off) == VP8X && 8 < |c| {
      ClearTwice(buf[off + 8]);
      assert body[|pre| + 8] == c[8];
    }
  }

  lemma ClearTwice(b: Byte)
    ensures ClearFlags(ClearFlags(b)) == ClearFlags(b)
  {
  }

  lemma MeasuresAgain(pre: Buffer, buf: Buffer, off: nat, rest: Buffer, size: Size)
    requires off + 8 <= |buf| && off + 8 + ReadLe32(buf, off + 4) <= |buf|
    requires ChunkEnd(buf, off) == |buf| ==> rest == []
    requires Measure(buf, off, size).Ok? && HeaderInside(buf, off, size)
    ensures var body := pre + (Chunk(buf, off) + rest);
      |pre| + 8 + ReadLe32(body, |pre| + 4) <= |body| && Measure(body, |pre|, size) == Measure(buf, off, size)
  {
    hide ReadLe16, ReadLe32, Ascii4, ClearFlags, ChunkEnd;
    var c := Chunk(buf, off);
    var body := pre + (c + rest);
    StepForward(buf, off);
    ReadsChunkAgain(pre, buf, off, rest);
    if Ascii4(buf, off) == VP8X {
      assert forall k :: 9 <= k < |c| ==> body[|pre| + k] == c[k] == buf[off + k];
    } else {
      assert forall k :: |pre| <= k < |pre| + |c| ==> body[k] == c[k - |pre|] == buf[off + (k - |pre|)];
      SameFields(body, |pre|, buf, off, |c|);
    }
  }

  lemma {:induction false} NothingBehindTheEnd(buf: Buffer, size: Size)
    ensures Walk(buf, |buf|, size) == Ok(Chunks([], size)) && !HasVp8x(buf, |buf|)
  {
  }

  lemma {:induction false} WalksAgain(pre: Buffer, buf: Buffer, off: nat, size: Size)
    requires Walk(buf, off, size).Ok? && HeadersInside(buf, off, size)
    ensures Walk(pre + Walk(buf, off, size).value.kept, |pre|, size) == Walk(buf, off, size)
    decreases |buf| - off
  {
    hide ReadLe32, Ascii4, ChunkEnd, Chunk, Measure, HeaderInside;
    if off + 8 <= |buf| {
      var end, next := ChunkEnd(buf, off), Measure(buf, off, size).value;
      var rest := Walk(buf, end, next).value;
      StepForward(buf, off);
      if Ascii4(buf, off) in {EXIF, XMP} {
        MetadataMeasuresNothing(buf, off, size);
        WalksAgain(pre, buf, end, next);
        assert [] + rest.kept == rest.kept;
      } else {
        NothingBehindTheEnd(buf, next);
        ReadsChunkAgain(pre, buf, off, rest.kept);
        MeasuresAgain(pre, buf, off, rest.kept, size);
        WalksAgain(pre + Chunk(buf, off), buf, end, next);
      }
    }
  }

  lemma StepForward(buf: Buffer, off: nat)
    requires off + 8 <= |buf| && off + 8 + ReadLe32(buf, off + 4) <= |buf|
    ensures off + 8 <= ChunkEnd(buf, off) <= |buf|
  {
  }

  lemma MetadataMeasuresNothing(buf: Buffer, off: nat, size: Size)
    requires off + 8 <= |buf| && off + 8 + ReadLe32(buf, off + 4) <= |buf| && Ascii4(buf, off) in {EXIF, XMP}
    ensures Measure(buf, off, size) == Ok(size)
  {
    hide ReadLe32, Ascii4;
    assert EXIF[0] != VP8X[0] && XMP[0] != VP8X[0];
    assert EXIF[0] != VP8[0] && XMP[0] != VP8[0];
    assert EXIF[0] != VP8L[0] && XMP[0] != VP8L[0];
  }

  lemma {:induction false} ExtendedHeaderKept(buf: Buffer, off: nat, size: Size)
    requires Walk(buf, off, size).Ok? && HasVp8x(buf, off)
    ensures 18 <= |Walk(buf, off, size).value.kept|
    decreases |buf| - off
  {
    hide ReadLe16, ReadLe24, ReadLe32, Ascii4;
    if Ascii4(buf, off) != VP8X {
      ExtendedHeaderKept(buf, ChunkEnd(buf, off), Measure(buf, off, size).value);
    } else {
      assert EXIF[0] != VP8X[0] && XMP[0] != VP8X[0];
    }
  }

  /** With an extended header the size that comes out does not depend on the one that goes in. */
  lemma {:induction false} WalksAgainExtended(pre: Buffer, buf: Buffer, off: nat, size: Size, other: Size)
    requires Walk(buf, off, size).Ok? && HasVp8x(buf, off)
    ensures Walk(pre + Walk(buf, off, size).value.kept, |pre|, other) == Walk(buf, off, size)
    decreases |buf| - off
  {
    hide ReadLe32, Ascii4, ChunkEnd, Chunk, Measure;
    var end, next := ChunkEnd(buf, off), Measure(buf, off, size).value;
    var rest := Walk(buf, end, next).value;
    StepForward(buf, off);
    NothingBehindTheEnd(buf, next);
    if Ascii4(buf, off) == VP8X {
      assert EXIF[0] != VP8X[0] && XMP[0] != VP8X[0];
      VP8xMeasures(buf, off, size, other);
      KnownWidthReadsNoHeader(buf, end, next);
      ReadsChunkAgain(pre, buf, off, rest.kept);
      MeasuresAgain(pre, buf, off, rest.kept, other);
      WalksAgain(pre + Chunk(buf, off), buf, end, next);
    } else if Ascii4(buf, off) in {EXIF, XMP} {
      MetadataMeasuresNothing(buf, off, size);
      WalksAgainExtended(pre, buf, end, next, other);
      assert [] + rest.kept == rest.kept;
    } else {
      ReadsChunkAgain(pre, buf, off, rest.kept);
      ExtendedHeaderKept(buf, end, next);
      var body := pre + (Chunk(buf, off) + rest.kept);
      RoomToMeasure(body, |pre|, other);
      WalksAgainExtended(pre + Chunk(buf, off), buf, end, next, Measure(body, |pre|, other).value);
    }
  }

  lemma VP8xMeasures(buf: Buffer, off: nat, size: Size, other: Size)
    requires off + 8 <= |buf| && off + 8 + ReadLe32(buf, off + 4) <= |buf| && Ascii4(buf, off) == VP8X
    requires Measure(buf, off, size).Ok?
    ensures Measure(buf, off, other) == Measure(buf, off, size) && 0 < Measure(buf, off, size).value.width
    ensures HeaderInside(buf, off, other)
  {
    hide ReadLe32, Ascii4, ChunkEnd;
    assert VP8X[3] != VP8[3] && VP8X[3] != VP8L[3];
  }

  lemma RoomToMeasure(buf: Buffer, off: nat, size: Size)
    requires off + 18 <= |buf| && off + 8 + ReadLe32(buf, off + 4) <= |buf| && Ascii4(buf, off) != VP8X
    ensures Measure(buf, off, size).Ok?
  {
    hide ReadLe16, ReadLe32, Ascii4;
  }

  lemma {:induction false} KeepsNoMore(buf: Buffer, off: nat, size: Size)
    requires Walk(buf, off, size).Ok? && off <= |buf|
    ensures |Walk(buf, off, size).value.kept| <= |buf| - off
    decreases |buf| - off
  {
    hide ReadLe32, Ascii4, Measure;
    if off + 8 <= |buf| {
      KeepsNoMore(buf, ChunkEnd(buf, off), Measure(buf, off, size).value);
    }
  }

  // ------------------------------------------------------ The exact condition

  /** What the chunk that `b` starts with makes of the size, fields beyond the chunk read from what follows. */
  function SizeRead(b: Buffer, size: Size): Result<Size, Refusal> {
    if |b| < 8 || 8 + ReadLe32(b, 4) > |b| then Err(Rejected) else Measure(b, 0, size)
  }

  /** The size a list of chunks is read to have, when `stray` stands behind them. */
  function Sizes(chunks: seq<Buffer>, stray: Buffer, size: Size): Result<Size, Refusal> {
    if chunks == [] then Ok(size)
    else match SizeRead(Concat(chunks) + stray, size)
      case Err(e) => Err(e)
      case Ok(next) => Sizes(chunks[1..], stray, next)
  }

  /** The chunks of the file without their metadata are read to have the size the file has. */
  predicate SizeSettled(buf: Buffer) {
    var chunks := ChunkList(buf, 12);
    Sizes(Kept(chunks), [], Size(0, 0)) == Sizes(chunks, Stray(buf, 12), Size(0, 0))
  }

  /** Reading a chunk at `off` is reading it at the front of the rest of the file. */
  lemma MeasuresFromHere(buf: Buffer, off: nat, size: Size)
    requires off + 8 <= |buf|
    ensures ReadLe32(buf[off..], 4) == ReadLe32(buf, off + 4)
    ensures off + 8 + ReadLe32(buf, off + 4) <= |buf| ==> SizeRead(buf[off..], size) == Measure(buf, off, size)
  {
    hide ReadLe16, ReadLe24, ReadLe32, Ascii4;
    var b := buf[off..];
    assert forall k :: 0 <= k < |b| ==> b[k] == buf[off + k];
    SameFields(b, 0, buf, off, |b|);
    if off + 18 <= |buf| { SameWide(b, 12, buf, off + 12); }
  }

  lemma SameWide(a: Buffer, i: nat, b: Buffer, j: nat)
    requires i + 6 <= |a| && j + 6 <= |b| && forall k :: i <= k < i + 6 ==> a[k] == b[j + (k - i)]
    ensures ReadLe24(a, i) == ReadLe24(b, j) && ReadLe24(a, i + 3) == ReadLe24(b, j + 3)
  {
    assert a[i] == b[j] && a[i + 1] == b[j + 1] && a[i + 2] == b[j + 2];
    assert a[i + 3] == b[j + 3] && a[i + 4] == b[j + 4] && a[i + 5] == b[j + 5];
  }

  /** The first pass reads the size of the file's own chunks. */
  lemma {:induction false} FirstPass(buf: Buffer, off: nat, size: Size)
    requires Walk(buf, off, size).Ok? && off <= |buf|
    ensures Sizes(ChunkList(buf, off), Stray(buf, off), size) == Ok(Walk(buf, off, size).value.size)
    decreases |buf| - off
  {
    hide Measure, ReadLe32, Ascii4, IsChunk, Concat, Kept, Walk, ChunkList, Stray, ChunkEnd, KeptChunk, SizeRead;
    if off + 8 > |buf| {
      NoChunk(buf, off, size);
    } else {
      OneChunk(buf, off, size);
      var end, next := ChunkEnd(buf, off), Measure(buf, off, size).value;
      KeepsChunksInOrder(buf, off, size);
      MeasuresFromHere(buf, off, size);
      FirstPass(buf, end, next);
    }
  }

  /** Kept chunks fit one behind the other: only the last may lack its padding. */
  ghost predicate Fitting(chunks: seq<Buffer>) {
    && (forall i :: 0 <= i < |chunks| ==>
      IsChunk(chunks[i]) && Ascii4(chunks[i], 0) !in {EXIF, XMP} && Unflagged(chunks[i]))
    && (forall i :: 0 <= i < |chunks| - 1 ==> |chunks[i]| % 2 == 0)
  }

  predicate Unflagged(c: Buffer)
    requires 8 <= |c|
  {
    KeptChunk(c) == c || Ascii4(c, 0) in {EXIF, XMP}
  }

  /** The second pass reads the size of the kept chunks, and keeps them all. */
  lemma {:induction false} SecondPass(pre: Buffer, chunks: seq<Buffer>, size: Size)
    requires Fitting(chunks)
    ensures Walk(pre + Concat(chunks), |pre|, size)
      == match Sizes(chunks, [], size) case Err(e) => Err(e) case Ok(z) => Ok(Chunks(Concat(chunks), z))
    decreases |chunks|
  {
    hide Measure, ReadLe32, Ascii4, IsChunk, Concat, Walk, ChunkEnd, KeptChunk, SizeRead, Unflagged;
    if chunks == [] {
      NoneKept();
      NothingBehindTheEnd(pre, size);
      assert pre + Concat(chunks) == pre;
    } else {
      var c, rest := chunks[0], chunks[1..];
      var buf := pre + Concat(chunks);
      assert chunks == [c] + rest;
      FittingChunk(pre, c, rest);
      MeasuresFromHere(buf, |pre|, size);
      assert buf[|pre|..] == Concat(chunks) == Concat(chunks) + [];
      var next := SizeRead(Concat(chunks), size);
      if next.Ok? {
        SecondPass(pre + c, rest, next.value);
      }
      WalkFits(buf, |pre|, size);
    }
  }

  lemma FittingChunk(pre: Buffer, c: Buffer, rest: seq<Buffer>)
    requires Fitting([c] + rest)
    ensures Fitting(rest) && Concat([c] + rest) == c + Concat(rest)
    ensures var buf, off := pre + Concat([c] + rest), |pre|;
      && buf == (pre + c) + Concat(rest)
      && off + 8 <= |buf| && off + 8 + ReadLe32(buf, off + 4) <= |buf| && ChunkEnd(buf, off) == off + |c|
      && Ascii4(buf, off) !in {EXIF, XMP} && Chunk(buf, off) == c
  {
    hide ReadLe32, Ascii4, ClearFlags;
    var chunks := [c] + rest;
    assert chunks[1..] == rest && chunks[0] == c;
    assert forall i :: 0 <= i < |rest| ==> rest[i] == chunks[i + 1];
    var buf, off := pre + Concat(chunks), |pre|;
    SameFields(buf, off, c, 0, |c|);
    assert rest == [] ==> Concat(rest) == [];
    assert buf[off..off + |c|] == c;
    assert |c| == 8 + ReadLe32(c, 4) || |c| == 8 + ReadLe32(c, 4) + ReadLe32(c, 4) % 2;
  }

  lemma WalkFits(buf: Buffer, off: nat, size: Size)
    requires off + 8 <= |buf| && off + 8 + ReadLe32(buf, off + 4) <= |buf| && Ascii4(buf, off) !in {EXIF, XMP}
    ensures Measure(buf, off, size).Err? ==> Walk(buf, off, size) == Err(Measure(buf, off, size).error)
    ensures Measure(buf, off, size).Ok? ==>
      var rest := Walk(buf, ChunkEnd(buf, off), Measure(buf, off, size).value);
      Walk(buf, off, size)
      == match rest case Err(e) => Err(e) case Ok(c) => Ok(Chunks(Chunk(buf, off) + c.kept, c.size))
  {
    hide Measure, ReadLe32, Ascii4, ChunkEnd, Chunk;
  }

  lemma {:induction false} KeptFit(buf: Buffer, off: nat, size: Size)
    requires Walk(buf, off, size).Ok? && off <= |buf|
    ensures Fitting(Kept(ChunkList(buf, off)))
    ensures off == |buf| ==> ChunkList(buf, off) == []
    decreases |buf| - off
  {
    hide Measure, ReadLe32, Ascii4, IsChunk, Kept, Walk, ChunkList, Stray, ChunkEnd, KeptChunk, Unflagged;
    NoneKept();
    if off + 8 > |buf| {
      NoChunk(buf, off, size);
    } else {
      OneChunk(buf, off, size);
      var end, next := ChunkEnd(buf, off), Measure(buf, off, size).value;
      KeptFit(buf, end, next);
      ChunkInFront(buf[off..end], ChunkList(buf, end), []);
      if Ascii4(buf, off) !in {EXIF, XMP} {
        KeptChunkFits(buf, off);
        FitsInFront(KeptChunk(buf[off..end]), Kept(ChunkList(buf, end)));
      } else {
        assert [] + Kept(ChunkList(buf, end)) == Kept(ChunkList(buf, end));
      }
    }
  }

  lemma FitsInFront(c: Buffer, rest: seq<Buffer>)
    requires Fitting(rest) && IsChunk(c) && Ascii4(c, 0) !in {EXIF, XMP} && Unflagged(c)
      && (rest != [] ==> |c| % 2 == 0)
    ensures Fitting([c] + rest)
  {
    hide Unflagged, Ascii4, IsChunk;
  }

  lemma KeptChunkFits(buf: Buffer, off: nat)
    requires off + 8 <= |buf| && off + 8 + ReadLe32(buf, off + 4) <= |buf| && Ascii4(buf, off) !in {EXIF, XMP}
    ensures var end := ChunkEnd(buf, off);
      && off + 8 <= end && 8 <= |KeptChunk(buf[off..end])|
      && var c := KeptChunk(buf[off..end]);
        && IsChunk(c) && Ascii4(c, 0) == Ascii4(buf, off) && Unflagged(c) && (end < |buf| ==> |c| % 2 == 0)
  {
    hide ReadLe32, Ascii4, KeptChunk, Unflagged;
    var end := ChunkEnd(buf, off);
    var chunk := buf[off..end];
    SameFields(chunk, 0, buf, off, |chunk|);
    KeptIsUnflagged(chunk);
    SameFields(KeptChunk(chunk), 0, chunk, 0, 8);
  }

  /** Keeping a chunk changes at most its flags, and keeping it again nothing. */
  lemma KeptIsUnflagged(chunk: Buffer)
    requires 8 <= |chunk| && Ascii4(chunk, 0) !in {EXIF, XMP}
    ensures var c := KeptChunk(chunk);
      && |c| == |chunk| && (forall k :: 0 <= k < 8 ==> c[k] == chunk[k]) && Unflagged(c)
  {
    hide Ascii4, ClearFlags;
    var c := KeptChunk(chunk);
    SameFields(c, 0, chunk, 0, 8);
    if Ascii4(chunk, 0) == VP8X && 8 < |chunk| {
      ClearTwice(chunk[8]);
      assert c[8 := ClearFlags(c[8])] == c;
    }
  }

  /**
   Sanitising an accepted WebP again changes nothing iff its chunks without the
   metadata are read to have the same size.  That is so when it has an extended
   header, and when every size field that is read lies inside its own chunk.
   */
  lemma SanitizesAgain(buf: Buffer)
    requires 12 <= |buf| && Spec(buf).Ok?
    ensures var r := Spec(buf).value;
      && 12 <= |r.body| <= |buf| && r.body[..4] == RIFF && r.body[8..12] == WEBP
      && ReadLe32(r.body, 4) + 8 == |r.body|
      && (Spec(r.body) == Ok(r) <==> SizeSettled(buf))
      && (var again := Sizes(Kept(ChunkList(buf, 12)), [], Size(0, 0)); again.Err? ==> Spec(r.body) == Err(again.error))
      && (HasVp8x(buf, 12) || HeadersInside(buf, 12, Size(0, 0)) ==> SizeSettled(buf))
  {
    hide Walk, HasVp8x, HeadersInside, ChunkList, Stray, Kept, Sizes, Concat;
    var c := Walk(buf, 12, Size(0, 0)).value;
    var h := Header(|c.kept|);
    var kept := Kept(ChunkList(buf, 12));
    KeepsNoMore(buf, 12, Size(0, 0));
    HeaderFields(|c.kept|, c.kept);
    KeepsChunksInOrder(buf, 12, Size(0, 0));
    FirstPass(buf, 12, Size(0, 0));
    KeptFit(buf, 12, Size(0, 0));
    SecondPass(h, kept, Size(0, 0));
    if HasVp8x(buf, 12) {
      WalksAgainExtended(h, buf, 12, Size(0, 0), Size(0, 0));
    } else if HeadersInside(buf, 12, Size(0, 0)) {
      WalksAgain(h, buf, 12, Size(0, 0));
    }
  }

  // ------------------------------------------------------ The simple layouts

  predicate IsImage(c: Buffer) {
    8 <= |c| && (Ascii4(c, 0) == VP8 || Ascii4(c, 0) == VP8L)
  }

  /** A chunk the size is not read from. */
  predicate IsPlain(c: Buffer) {
    8 <= |c| && !IsImage(c) && Ascii4(c, 0) != VP8X
  }

  /** The chunks from the first image chunk on. */
  function FromImage(chunks: seq<Buffer>): seq<Buffer> {
    if chunks == [] || IsImage(chunks[0]) then chunks else FromImage(chunks[1..])
  }

  predicate AllPlain(chunks: seq<Buffer>) {
    chunks == [] || (IsPlain(chunks[0]) && AllPlain(chunks[1..]))
  }

  /** Exactly one image chunk and no extended header (RFC 9649, sections 2.5 and 2.6). */
  predicate Simple(chunks: seq<Buffer>) {
    && chunks != []
    && if IsImage(chunks[0]) then AllPlain(chunks[1..]) else IsPlain(chunks[0]) && Simple(chunks[1..])
  }

  /** How far the size fields of an image chunk reach. */
  function FieldsEnd(b: Buffer): nat
    requires 4 <= |b|
  {
    if Ascii4(b, 0) == VP8 then 18 else 13
  }

  /** `k`, which starts with the same image chunk as `b`, holds the same size fields, without the scaling bits. */
  predicate FieldsAgree(b: Buffer, k: Buffer)
    requires 4 <= |b| && FieldsEnd(b) <= |b|
  {
    && FieldsEnd(b) <= |k|
    && if Ascii4(b, 0) == VP8 then
         ReadLe16(k, 14) % 0x4000 == ReadLe16(b, 14) % 0x4000 && ReadLe16(k, 16) % 0x4000 == ReadLe16(b, 16) % 0x4000
       else ReadLe32(k, 9) % 0x1000_0000 == ReadLe32(b, 9) % 0x1000_0000
  }

  lemma PlainReadsNothing(chunks: seq<Buffer>, stray: Buffer, size: Size)
    requires chunks != [] && IsChunk(chunks[0]) && IsPlain(chunks[0])
    ensures SizeRead(Concat(chunks) + stray, size) == Ok(size)
  {
    hide ReadLe16, ReadLe24, ReadLe32, Ascii4;
    ChunkLeads(chunks, stray);
  }

  lemma ChunkLeads(chunks: seq<Buffer>, stray: Buffer)
    requires chunks != [] && IsChunk(chunks[0])
    ensures var b := Concat(chunks) + stray;
      8 + ReadLe32(b, 4) <= |b| && Ascii4(b, 0) == Ascii4(chunks[0], 0) && chunks[0] <= b
  {
    hide ReadLe32, Ascii4;
    var c, b := chunks[0], Concat(chunks) + stray;
    assert b == c + (Concat(chunks[1..]) + stray);
    SameFields(b, 0, c, 0, |c|);
  }

  lemma {:induction false} PlainSizes(chunks: seq<Buffer>, stray: Buffer, size: Size)
    requires AllPlain(chunks) && forall i :: 0 <= i < |chunks| ==> IsChunk(chunks[i])
    ensures Sizes(chunks, stray, size) == Ok(size)
  {
    hide SizeRead, IsPlain, IsChunk;
    if chunks != [] {
      PlainReadsNothing(chunks, stray, size);
      PlainSizes(chunks[1..], stray, size);
    }
  }

  lemma {:induction false} SimpleSizes(chunks: seq<Buffer>, stray: Buffer)
    requires Simple(chunks) && forall i :: 0 <= i < |chunks| ==> IsChunk(chunks[i])
    ensures Sizes(chunks, stray, Size(0, 0)) == SizeRead(Concat(FromImage(chunks)) + stray, Size(0, 0))
    ensures FromImage(chunks) != [] && IsImage(FromImage(chunks)[0]) && IsChunk(FromImage(chunks)[0])
  {
    hide SizeRead, IsPlain, IsChunk, IsImage;
    if IsImage(chunks[0]) {
      var first := SizeRead(Concat(chunks) + stray, Size(0, 0));
      if first.Ok? { PlainSizes(chunks[1..], stray, first.value); }
    } else {
      PlainReadsNothing(chunks, stray, Size(0, 0));
      SimpleSizes(chunks[1..], stray);
    }
  }

  lemma KeptKinds(c: Buffer)
    requires IsImage(c) || IsPlain(c)
    ensures KeptChunk(c) == if Ascii4(c, 0) in {EXIF, XMP} then [] else c
    ensures IsImage(c) ==> Ascii4(c, 0) !in {EXIF, XMP}
  {
    hide Ascii4;
    assert EXIF[0] != VP8[0] && XMP[0] != VP8[0] && EXIF[0] != VP8L[0] && XMP[0] != VP8L[0];
    assert VP8X[3] != VP8[3] && VP8X[3] != VP8L[3];
  }

  lemma {:induction false} KeptPlain(chunks: seq<Buffer>)
    requires AllPlain(chunks)
    ensures AllPlain(Kept(chunks))
  {
    hide Ascii4, ClearFlags;
    if chunks != [] {
      KeptPlain(chunks[1..]);
      KeptKinds(chunks[0]);
      ChunkInFront(chunks[0], chunks[1..], []);
      assert chunks == [chunks[0]] + chunks[1..];
      var rest := Kept(chunks[1..]);
      assert ([chunks[0]] + rest)[1..] == rest && [] + rest == rest;
    }
  }

  lemma {:induction false} KeptSimple(chunks: seq<Buffer>)
    requires Simple(chunks)
    ensures Simple(Kept(chunks)) && FromImage(Kept(chunks)) == Kept(FromImage(chunks))
    ensures Kept(FromImage(chunks)) != [] && Kept(FromImage(chunks))[0] == FromImage(chunks)[0]
  {
    hide Ascii4, ClearFlags;
    var c, rest := chunks[0], chunks[1..];
    var kept := Kept(rest);
    KeptKinds(c);
    assert chunks == [c] + rest;
    ChunkInFront(c, rest, []);
    assert ([c] + kept)[1..] == kept && [] + kept == kept;
    if IsImage(c) {
      KeptPlain(rest);
    } else {
      KeptSimple(rest);
    }
  }

  lemma ImageReads(b: Buffer)
    requires 8 <= |b| && 8 + ReadLe32(b, 4) <= |b| && (Ascii4(b, 0) == VP8 || Ascii4(b, 0) == VP8L)
    ensures SizeRead(b, Size(0, 0)) ==
      if |b| < FieldsEnd(b) then Err(OutOfRange)
      else if Ascii4(b, 0) == VP8 then Ok(Size(ReadLe16(b, 14) % 0x4000, ReadLe16(b, 16) % 0x4000))
      else Ok(Size(ReadLe32(b, 9) % 0x4000 + 1, ReadLe32(b, 9) / 0x4000 % 0x4000 + 1))
  {
    hide ReadLe16, ReadLe32, Ascii4;
    assert VP8X[3] != VP8[3] && VP8X[3] != VP8L[3] && VP8[3] != VP8L[3];
  }

  lemma LosslessFields(x: nat, y: nat)
    ensures x % 0x4000 == y % 0x4000 && x / 0x4000 % 0x4000 == y / 0x4000 % 0x4000
      <==> x % 0x1000_0000 == y % 0x1000_0000
  {
    LosslessField(x);
    LosslessField(y);
  }

  lemma LosslessField(x: nat)
    ensures x % 0x1000_0000 == x / 0x4000 % 0x4000 * 0x4000 + x % 0x4000
  {
  }

  /**
   In the simple layouts the second pass changes nothing iff the size fields of
   the image chunk, as far as they lie behind it, are the same in what is kept;
   where they run past the end of that, the output is refused.
   */
  lemma SimpleFilesSettle(buf: Buffer)
    requires 12 <= |buf| && Spec(buf).Ok? && Simple(ChunkList(buf, 12))
    ensures var r, image := Spec(buf).value, FromImage(ChunkList(buf, 12));
      var b, k := Concat(image) + Stray(buf, 12), Concat(Kept(image));
      && 8 <= |b| && FieldsEnd(b) <= |b|
      && (Spec(r.body) == Ok(r) <==> FieldsAgree(b, k))
      && (|k| < FieldsEnd(b) ==> Spec(r.body) == Err(OutOfRange))
  {
    hide Walk, ChunkList, Stray, Kept, Concat, Simple, FromImage, IsChunk, SizeRead, ReadLe16, ReadLe32, Ascii4;
    hide Sizes, HasVp8x, HeadersInside, Spec;
    var chunks, stray := ChunkList(buf, 12), Stray(buf, 12);
    var image := FromImage(chunks);
    var b, k := Concat(image) + stray, Concat(Kept(image));
    SanitizesAgain(buf);
    FirstSize(buf);
    SimpleSizes(chunks, stray);
    KeptSimple(chunks);
    KeptChunksAreChunks(buf);
    SimpleSizes(Kept(chunks), []);
    assert k + [] == k;
    ChunkLeads(image, stray);
    ChunkLeads(Kept(image), []);
    ImageReads(b);
    ImageReads(k);
    if FieldsEnd(b) <= |b| && FieldsEnd(k) <= |k| && Ascii4(b, 0) != VP8 {
      LosslessFields(ReadLe32(b, 9), ReadLe32(k, 9));
    }
  }

  lemma FirstSize(buf: Buffer)
    requires 12 <= |buf| && Spec(buf).Ok?
    ensures Sizes(ChunkList(buf, 12), Stray(buf, 12), Size(0, 0)).Ok?
    ensures forall i :: 0 <= i < |ChunkList(buf, 12)| ==> IsChunk(ChunkList(buf, 12)[i])
  {
    hide Walk, ChunkList, Stray, Kept, Sizes, Concat, IsChunk;
    KeepsChunksInOrder(buf, 12, Size(0, 0));
    FirstPass(buf, 12, Size(0, 0));
    assert forall i :: 0 <= i < |ChunkList(buf, 12)| ==> ChunkList(buf, 12)[i] in ChunkList(buf, 12);
  }

  lemma KeptChunksAreChunks(buf: Buffer)
    requires 12 <= |buf| && Spec(buf).Ok?
    ensures forall i :: 0 <= i < |Kept(ChunkList(buf, 12))| ==> IsChunk(Kept(ChunkList(buf, 12))[i])
  {
    hide Walk, ChunkList, Kept, IsChunk, Ascii4, Unflagged;
    KeptFit(buf, 12, Size(0, 0));
  }

  lemma HeaderFields(n: nat, payload: Buffer)
    requires n + 4 < 0x1_0000_0000
    ensures var body := Header(n) + payload;
      body[..4] == RIFF && body[8..12] == WEBP && ReadLe32(body, 4) == n + 4
  {
    var body := Header(n) + payload;
    assert body[4] == Le32(n + 4)[0] && body[5] == Le32(n + 4)[1] && body[6] == Le32(n + 4)[2]
      && body[7] == Le32(n + 4)[3];
  }

  /**
   A lossy image chunk of four bytes takes its size from the chunk behind it;
   when that one holds metadata, the output cannot be read again.
   */
  lemma ShortHeaderFails(file: Buffer, image: Buffer, exif: Buffer)
    requires |file| == 12 && |image| == 12 && |exif| == 10
    requires Ascii4(image, 0) == VP8 && ReadLe32(image, 4) == 4
    requires Ascii4(exif, 0) == EXIF && ReadLe32(exif, 4) == 2
    requires exif[2] == 0x49 && exif[3] == 0x46 && exif[4] == 2 && exif[5] == 0
    ensures Spec(file + image + exif) == Ok(Sanitized(Header(12) + image, 0x0649, 2))
    ensures Spec(Header(12) + image) == Err(OutOfRange)
  {
    var buf := file + image + exif;
    assert EXIF != VP8 && VP8X != VP8 && VP8L != VP8 && XMP != VP8 && VP8X != EXIF && VP8L != EXIF by {
      assert VP8X[3] != VP8[3] && VP8L[3] != VP8[3] && EXIF[0] != VP8[0] && XMP[0] != VP8[0] && EXIF[0] != VP8X[0]
        && EXIF[0] != VP8L[0];
    }
    ExampleMetadata(file + image, exif, Size(0x0649, 2));
    ImageWithMetadata(file, image, exif);
    ImageAlone(Header(12), image);
  }

  lemma WalkOne(buf: Buffer, off: nat, size: Size, next: Size, rest: Chunks)
    requires off + 8 <= |buf| && off + 8 + ReadLe32(buf, off + 4) <= |buf|
    requires Measure(buf, off, size) == Ok(next) && Walk(buf, ChunkEnd(buf, off), next) == Ok(rest)
    ensures Walk(buf, off, size)
      == Ok(Chunks((if Ascii4(buf, off) in {EXIF, XMP} then [] else Chunk(buf, off)) + rest.kept, rest.size))
  {
    hide ReadLe32, Ascii4, Measure, ChunkEnd, Chunk;
  }

  lemma ExampleMetadata(before: Buffer, exif: Buffer, size: Size)
    requires |exif| == 10 && Ascii4(exif, 0) == EXIF && ReadLe32(exif, 4) == 2
    ensures Walk(before + exif, |before|, size) == Ok(Chunks([], size))
  {
    hide ReadLe32, Ascii4, Measure, Walk, Chunk;
    var buf := before + exif;
    SameFields(buf, |before|, exif, 0, 10);
    MetadataMeasuresNothing(buf, |before|, size);
    NothingBehindTheEnd(buf, size);
    WalkOne(buf, |before|, size, size, Chunks([], size));
    assert EXIF in {EXIF, XMP};
    var none: Buffer := [];
    assert none + none == none;
  }

  lemma ImageAlone(before: Buffer, image: Buffer)
    requires |before| == 12 && |image| == 12 && Ascii4(image, 0) == VP8 && ReadLe32(image, 4) == 4 && VP8X != VP8
    ensures Walk(before + image, 12, Size(0, 0)) == Err(OutOfRange)
  {
    hide ReadLe32, Ascii4, Walk, Measure;
    var buf := before + image;
    SameFields(buf, 12, image, 0, 12);
    MeasureFails(buf, 12);
  }

  lemma ImageWithMetadata(before: Buffer, image: Buffer, exif: Buffer)
    requires |before| == 12 && |image| == 12 && Ascii4(image, 0) == VP8 && ReadLe32(image, 4) == 4
    requires VP8X != VP8 && EXIF != VP8 && XMP != VP8
    requires |exif| == 10 && exif[2] == 0x49 && exif[3] == 0x46 && exif[4] == 2 && exif[5] == 0
    requires Walk(before + image + exif, 24, Size(0x0649, 2)) == Ok(Chunks([], Size(0x0649, 2)))
    ensures Walk(before + image + exif, 12, Size(0, 0)) == Ok(Chunks(image, Size(0x0649, 2)))
  {
    hide ReadLe32, Ascii4, Walk, Measure, EXIF, XMP, VP8, VP8X;
    var buf := before + image + exif;
    SameFields(buf, 12, image, 0, 12);
    assert buf[26] == exif[2] && buf[27] == exif[3] && buf[28] == exif[4] && buf[29] == exif[5];
    ExampleMeasure(buf);
    assert buf[12..24] == image && image + [] == image;
    WalkOne(buf, 12, Size(0, 0), Size(0x0649, 2), Chunks([], Size(0x0649, 2)));
  }

  lemma ExampleMeasure(buf: Buffer)
    requires 30 <= |buf| && ReadLe32(buf, 16) == 4 && Ascii4(buf, 12) == VP8 && VP8X != VP8
    requires buf[26] == 0x49 && buf[27] == 0x46 && buf[28] == 2 && buf[29] == 0
    ensures Measure(buf, 12, Size(0, 0)) == Ok(Size(0x0649, 2))
  {
    hide ReadLe32, Ascii4;
  }

  lemma MeasureFails(buf: Buffer, off: nat)
    requires off + 8 <= |buf| < off + 18 && off + 8 + ReadLe32(buf, off + 4) <= |buf| && Ascii4(buf, off) == VP8
      && VP8X != VP8
    ensures Walk(buf, off, Size(0, 0)) == Err(OutOfRange)
  {
    hide ReadLe32, Ascii4;
  }
}

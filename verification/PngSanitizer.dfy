/**
 The PNG walk of src/common/utils/image-sanitize.ts: keep the chunks that
 affect rendering, drop the rest, read the size from the header chunk.
 Chunk layout: PNG specification, sections 5.3 and 11.2.1.
 */
module PngSanitizer {
  import opened Bytes
  import opened Wrappers
  import opened ImageTypes

  const IHDR: seq<int> := [0x49, 0x48, 0x44, 0x52]
  const IEND: seq<int> := [0x49, 0x45, 0x4e, 0x44]
  const KEEP: set<seq<int>> := {
    IHDR, IEND,
    [0x50, 0x4c, 0x54, 0x45], // PLTE
    [0x49, 0x44, 0x41, 0x54], // IDAT
    [0x74, 0x52, 0x4e, 0x53], // tRNS
    [0x67, 0x41, 0x4d, 0x41], // gAMA
    [0x63, 0x48, 0x52, 0x4d], // cHRM
    [0x73, 0x52, 0x47, 0x42], // sRGB
    [0x73, 0x42, 0x49, 0x54], // sBIT
    [0x62, 0x4b, 0x47, 0x44], // bKGD
    [0x70, 0x48, 0x59, 0x73]  // pHYs
  }

  /** What the walk keeps from some offset on, and where the last header chunk lies. */
  datatype Tail = Tail(kept: Buffer, header: Option<Place>)

  /** The walk from `off` to the end chunk; without one the file is not complete. */
  function Walk(buf: Buffer, off: nat): Result<Tail, Refusal>
    decreases |buf| - off
  {
    if off + 12 > |buf| then Err(Rejected)
    else
      var tag, end := Ascii4(buf, off + 4), off + 12 + ReadBe32(buf, off);
      if end > |buf| then Err(Rejected)
      else if tag == IHDR && off + 16 > |buf| then Err(OutOfRange)
      else if tag == IEND then Ok(Tail(buf[off..end], None))
      else match Walk(buf, end)
        case Err(e) => Err(e)
        case Ok(rest) => Ok(Extend(buf[off..end], tag, off, rest))
  }

  function Extend(chunk: Buffer, tag: seq<int>, off: nat, rest: Tail): Tail {
    var piece := if tag in KEEP then chunk else [];
    var header := if rest.header.Some? then Some(Place(rest.header.value.at, |piece| + rest.header.value.kept))
      else if tag == IHDR then Some(Place(off, 0)) else None;
    Tail(piece + rest.kept, header)
  }

  function Width(buf: Buffer, at: nat): nat {
    if at + 16 <= |buf| then ReadBe32(buf, at + 8) else 0
  }

  function Height(buf: Buffer, at: nat): nat {
    if at + 16 <= |buf| then ReadBe32(buf, at + 12) else 0
  }

  function Spec(buf: Buffer): Result<Sanitized, Refusal>
    requires 8 <= |buf|
  {
    match Walk(buf, 8)
    case Err(e) => Err(e)
    case Ok(t) =>
      if t.header.Some? && Width(buf, t.header.value.at) != 0 && Height(buf, t.header.value.at) != 0
      then Ok(Sanitized(buf[..8] + t.kept, Width(buf, t.header.value.at), Height(buf, t.header.value.at)))
      else Err(Rejected)
  }

  /** What the loop still has to do, given what it has kept and read so far. */
  ghost function Finish(buf: Buffer, off: nat, out: Buffer, width: nat, height: nat): Result<Sanitized, Refusal> {
    match Walk(buf, off)
    case Err(e) => Err(e)
    case Ok(t) =>
      var w, h := if t.header.Some? then Width(buf, t.header.value.at) else width,
                  if t.header.Some? then Height(buf, t.header.value.at) else height;
      if w != 0 && h != 0 then Ok(Sanitized(out + t.kept, w, h)) else Err(Rejected)
  }

  method Sanitize(buf: Buffer) returns (r: Result<Sanitized, Refusal>)
    requires 8 <= |buf|
    ensures r == Spec(buf)
  {
    hide ReadBe32, Ascii4;
    var out := buf[..8];
    var off, width, height, sawEnd := 8, 0, 0, false;
    while off + 12 <= |buf| && !sawEnd
      invariant 8 <= off <= |buf|
      invariant !sawEnd ==> Finish(buf, off, out, width, height) == Spec(buf)
      invariant sawEnd ==>
        Spec(buf) == if width != 0 && height != 0 then Ok(Sanitized(out, width, height)) else Err(Rejected)
      decreases |buf| - off, !sawEnd
    {
      var len := ReadBe32(buf, off);
      var tag := Ascii4(buf, off + 4);
      var end := off + 12 + len;
      if end > |buf| { return Err(Rejected); }
      if tag == IHDR {
        if off + 16 > |buf| { return Err(OutOfRange); }
        width := ReadBe32(buf, off + 8);
        height := ReadBe32(buf, off + 12);
      }
      ghost var before := out;
      if tag in KEEP { out := out + buf[off..end]; }
      assert tag != IEND && Walk(buf, end).Ok? ==>
        before + Extend(buf[off..end], tag, off, Walk(buf, end).value).kept == out + Walk(buf, end).value.kept;
      off := end;
      if tag == IEND { sawEnd := true; }
    }
    if !sawEnd || width == 0 || height == 0 { return Err(Rejected); }
    return Ok(Sanitized(out, width, height));
  }

  // ------------------------------------------------------ What the walk keeps

  ghost predicate IsChunk(c: Buffer) {
    12 <= |c| && |c| == 12 + ReadBe32(c, 0)
  }

  ghost predicate IsEnd(c: Buffer) {
    12 <= |c| && Ascii4(c, 4) == IEND
  }

  function Kept(chunks: seq<Buffer>): seq<Buffer>
  {
    if chunks == [] then []
    else if 12 <= |chunks[0]| && Ascii4(chunks[0], 4) in KEEP then [chunks[0]] + Kept(chunks[1..])
    else Kept(chunks[1..])
  }

  lemma SameFields(a: Buffer, at: nat, b: Buffer, from: nat, n: nat)
    requires at + n <= |a| && from + n <= |b| && a[at..at + n] == b[from..from + n]
    ensures 4 <= n ==> ReadBe32(a, at) == ReadBe32(b, from)
    ensures 8 <= n ==> ReadBe32(a, at + 4) == ReadBe32(b, from + 4) && Ascii4(a, at + 4) == Ascii4(b, from + 4)
  {
    forall k | at <= k < at + n ensures a[k] == b[from + (k - at)] {
      assert a[at..at + n][k - at] == b[from..from + n][k - at];
    }
  }

  /** The chunks of a file from `off` to the first end chunk. */
  function Chunks(buf: Buffer, off: nat): seq<Buffer>
    decreases |buf| - off
  {
    if off + 12 > |buf| || off + 12 + ReadBe32(buf, off) > |buf| then []
    else
      var end := off + 12 + ReadBe32(buf, off);
      [buf[off..end]] + if Ascii4(buf, off + 4) == IEND then [] else Chunks(buf, end)
  }

  /** The output is exactly the kept chunks, in order; the file is the chunks up to the end chunk. */
  lemma {:induction false} KeepsChunksInOrder(buf: Buffer, off: nat)
    requires Walk(buf, off).Ok? && off <= |buf|
    ensures var chunks := Chunks(buf, off);
      && chunks != []
      && (forall c :: c in chunks ==> IsChunk(c))
      && Concat(chunks) <= buf[off..]
      && Walk(buf, off).value.kept == Concat(Kept(chunks))
      && forall i :: 0 <= i < |chunks| ==> (IsEnd(chunks[i]) <==> i == |chunks| - 1)
    decreases |buf| - off
  {
    hide ReadBe32, Ascii4, Kept, Concat, Walk, Chunks, Extend, IsChunk, IsEnd;
    OneChunkMore(buf, off);
    var end := off + 12 + ReadBe32(buf, off);
    var chunk := buf[off..end];
    NoChunks();
    ChunkInFront(chunk, []);
    assert [chunk] + [] == [chunk] && chunk + [] == chunk;
    assert buf[off..][..|chunk|] == chunk;
    if Ascii4(buf, off + 4) != IEND {
      KeepsChunksInOrder(buf, end);
      assert buf[off..] == chunk + buf[end..];
      ChunkInFront(chunk, Chunks(buf, end));
      ExtendKept(chunk, Ascii4(buf, off + 4), off, Walk(buf, end).value);
    }
  }

  /** One round of the walk, and the chunk it is about. */
  lemma OneChunkMore(buf: Buffer, off: nat)
    requires Walk(buf, off).Ok?
    ensures off + 12 <= |buf| && off + 12 + ReadBe32(buf, off) <= |buf|
    ensures var tag, end := Ascii4(buf, off + 4), off + 12 + ReadBe32(buf, off);
      var chunk := buf[off..end];
      && IsChunk(chunk) && Ascii4(chunk, 4) == tag && (IsEnd(chunk) <==> tag == IEND)
      && (tag == IEND ==> Walk(buf, off) == Ok(Tail(chunk, None)) && Chunks(buf, off) == [chunk] && tag in KEEP)
      && (tag != IEND ==>
          && Walk(buf, end).Ok? && Walk(buf, off) == Ok(Extend(chunk, tag, off, Walk(buf, end).value))
          && Chunks(buf, off) == [chunk] + Chunks(buf, end))
  {
    hide ReadBe32, Ascii4, Extend;
    var end := off + 12 + ReadBe32(buf, off);
    SameFields(buf[off..end], 0, buf, off, end - off);
    if Ascii4(buf, off + 4) == IEND { KeptTags(); }
  }

  lemma ExtendKept(chunk: Buffer, tag: seq<int>, off: nat, rest: Tail)
    ensures Extend(chunk, tag, off, rest).kept == (if tag in KEEP then chunk else []) + rest.kept
  {
  }

  lemma NoChunks()
    ensures Concat([]) == [] && Kept([]) == []
  {
  }

  lemma ChunkInFront(chunk: Buffer, rest: seq<Buffer>)
    requires 12 <= |chunk|
    ensures Concat([chunk] + rest) == chunk + Concat(rest)
    ensures Concat(Kept([chunk] + rest)) == (if Ascii4(chunk, 4) in KEEP then chunk else []) + Concat(Kept(rest))
  {
    hide Ascii4;
    var kept := Kept(rest);
    assert ([chunk] + rest)[1..] == rest && ([chunk] + kept)[1..] == kept;
    assert [] + Concat(kept) == Concat(kept);
  }

  // -------------------------------------------------------------- Stability

  lemma {:induction false} KeepsEndChunk(buf: Buffer, off: nat)
    requires Walk(buf, off).Ok?
    ensures var t := Walk(buf, off).value;
      && 12 <= |t.kept|
      && (t.header.Some? ==>
          off <= t.header.value.at && t.header.value.at + 16 <= |buf| && t.header.value.kept + 24 <= |t.kept|)
    decreases |buf| - off
  {
    hide ReadBe32, Ascii4;
    if Ascii4(buf, off + 4) != IEND {
      KeepsEndChunk(buf, off + 12 + ReadBe32(buf, off));
    }
  }

  /** Walking what was kept, behind any prefix, keeps all of it and finds the same header chunk. */
  lemma {:induction false} WalksAgain(pre: Buffer, buf: Buffer, off: nat)
    requires Walk(buf, off).Ok?
    ensures Walk(pre + Walk(buf, off).value.kept, |pre|) == Again(pre, Walk(buf, off).value)
    decreases |buf| - off
  {
    hide ReadBe32, Ascii4, Extend, IsChunk, IsEnd, Chunks, Walk;
    OneChunkMore(buf, off);
    var tag, end := Ascii4(buf, off + 4), off + 12 + ReadBe32(buf, off);
    var chunk := buf[off..end];
    if tag == IEND {
      EndAgain(pre, chunk, buf, off);
    } else {
      var rest := Walk(buf, end).value;
      KeepsEndChunk(buf, end);
      if tag in KEEP {
        WalksAgain(pre + chunk, buf, end);
        KeptAgain(pre, chunk, rest, buf, off);
      } else {
        WalksAgain(pre, buf, end);
        DroppedChunk(chunk, tag, off, rest);
      }
    }
  }

  /** What a second walk behind `pre` should give. */
  ghost function Again(pre: Buffer, t: Tail): Result<Tail, Refusal> {
    Ok(Tail(t.kept, if t.header.Some? then Some(Place(|pre| + t.header.value.kept, t.header.value.kept)) else None))
  }

  lemma EndAgain(pre: Buffer, chunk: Buffer, buf: Buffer, off: nat)
    requires off + 12 <= |buf| && off + 12 + ReadBe32(buf, off) <= |buf|
    requires chunk == buf[off..off + 12 + ReadBe32(buf, off)] && Ascii4(buf, off + 4) == IEND
    ensures Walk(pre + chunk, |pre|) == Again(pre, Tail(chunk, None))
  {
    hide ReadBe32, Ascii4, Extend;
    ReadsChunkAgain(pre, chunk, [], buf, off);
    assert chunk + [] == chunk;
  }

  lemma DroppedChunk(chunk: Buffer, tag: seq<int>, off: nat, rest: Tail)
    requires tag !in KEEP
    ensures Extend(chunk, tag, off, rest) == rest || (rest.header == None && tag == IHDR)
    ensures tag != IHDR
  {
    KeptTags();
    assert [] + rest.kept == rest.kept;
  }

  lemma KeptAgain(pre: Buffer, chunk: Buffer, rest: Tail, buf: Buffer, off: nat)
    requires off + 12 <= |buf| && off + 12 + ReadBe32(buf, off) <= |buf|
    requires chunk == buf[off..off + 12 + ReadBe32(buf, off)]
    requires Ascii4(buf, off + 4) in KEEP && Ascii4(buf, off + 4) != IEND && 12 <= |rest.kept|
    requires Walk(pre + chunk + rest.kept, |pre + chunk|) == Again(pre + chunk, rest)
    ensures var t := Extend(chunk, Ascii4(buf, off + 4), off, rest); Walk(pre + t.kept, |pre|) == Again(pre, t)
  {
    hide ReadBe32, Ascii4, KEEP;
    ReadsChunkAgain(pre, chunk, rest.kept, buf, off);
  }

  /** A kept chunk shows the same length and tag, and ends where the rest begins. */
  lemma ReadsChunkAgain(pre: Buffer, chunk: Buffer, rest: Buffer, buf: Buffer, off: nat)
    requires off + 12 <= |buf| && off + 12 + ReadBe32(buf, off) <= |buf|
      && chunk == buf[off..off + 12 + ReadBe32(buf, off)]
    ensures var body := pre + (chunk + rest);
      && body == pre + chunk + rest
      && ReadBe32(body, |pre|) == ReadBe32(buf, off) && Ascii4(body, |pre| + 4) == Ascii4(buf, off + 4)
      && body[|pre|..|pre| + |chunk|] == chunk
  {
    hide ReadBe32, Ascii4;
    PieceInPlace(pre, chunk, rest);
    SameFields(pre + (chunk + rest), |pre|, buf, off, |chunk|);
  }

  /** The chunks from the last header chunk on; none without a header. */
  function FromLastHeader(chunks: seq<Buffer>): seq<Buffer> {
    if chunks == [] then []
    else
      var later := FromLastHeader(chunks[1..]);
      if later != [] then later
      else if 12 <= |chunks[0]| && Ascii4(chunks[0], 4) == IHDR then chunks else []
  }

  /** The first chunk of a kept kind. */
  function FirstKept(chunks: seq<Buffer>): Buffer {
    if chunks == [] then []
    else if 12 <= |chunks[0]| && Ascii4(chunks[0], 4) in KEEP then chunks[0]
    else FirstKept(chunks[1..])
  }

  /**
   Whether the last header chunk settles the size: it declares at least four
   bytes (with its checksum it then holds the eight size bytes), or the bytes
   it lacks are the same in the chunk behind it and in the next kept chunk.
   */
  predicate HeaderIntact(buf: Buffer) {
    var chunks := FromLastHeader(Chunks(buf, 8));
    |chunks| < 2 || |chunks[0]| < 12 || 4 <= ReadBe32(chunks[0], 0)
    || var lacks := 4 - ReadBe32(chunks[0], 0);
       Subarray(chunks[1], 0, lacks) == Subarray(FirstKept(chunks[1..]), 0, lacks)
  }

  /** In the file and in what is kept of it, the last header chunk is followed by the chunks behind it. */
  lemma {:induction false} HeaderFollowed(buf: Buffer, off: nat)
    requires Walk(buf, off).Ok? && off <= |buf|
    ensures var t, chunks := Walk(buf, off).value, FromLastHeader(Chunks(buf, off));
      && (t.header.Some? <==> chunks != [])
      && (t.header.Some? ==>
          var p := t.header.value;
          && 2 <= |chunks| && IsChunk(chunks[0]) && Ascii4(chunks[0], 4) == IHDR
          && IsChunk(chunks[1]) && IsEnd(chunks[|chunks| - 1])
          && p.at <= |buf| && Concat(chunks) <= buf[p.at..]
          && p.kept <= |t.kept| && Concat(Kept(chunks)) == t.kept[p.kept..])
    decreases |buf| - off
  {
    hide ReadBe32, Ascii4, Kept, Concat, Walk, Chunks, Extend, IsChunk, IsEnd, FromLastHeader;
    OneChunkMore(buf, off);
    var end := off + 12 + ReadBe32(buf, off);
    var chunk := buf[off..end];
    KeepsChunksInOrder(buf, off);
    if Ascii4(buf, off + 4) == IEND {
      EndIsNoHeader(chunk);
    } else {
      HeaderFollowed(buf, end);
      KeepsEndChunk(buf, end);
      KeepsChunksInOrder(buf, end);
      ExtendKeeps(chunk, Ascii4(buf, off + 4), off, Walk(buf, end).value);
      HeaderInFront(chunk, Chunks(buf, end));
    }
  }

  lemma HeaderInFront(chunk: Buffer, rest: seq<Buffer>)
    requires 12 <= |chunk|
    ensures FromLastHeader([chunk] + rest) == if FromLastHeader(rest) != [] then FromLastHeader(rest)
      else if Ascii4(chunk, 4) == IHDR then [chunk] + rest else []
  {
    hide Ascii4;
    assert ([chunk] + rest)[1..] == rest;
  }

  lemma EndIsNoHeader(chunk: Buffer)
    requires 12 <= |chunk| && Ascii4(chunk, 4) == IEND
    ensures FromLastHeader([chunk]) == []
  {
    assert IEND[1] != IHDR[1];
    assert FromLastHeader([chunk][1..]) == [];
  }

  lemma {:induction false} FirstKeptInFront(chunks: seq<Buffer>)
    requires chunks != [] && IsEnd(chunks[|chunks| - 1]) && IEND in KEEP
    ensures 12 <= |FirstKept(chunks)| && FirstKept(chunks) <= Concat(Kept(chunks))
  {
    hide Ascii4, KEEP;
    if !(12 <= |chunks[0]| && Ascii4(chunks[0], 4) in KEEP) {
      FirstKeptInFront(chunks[1..]);
    }
  }

  /** Eight bytes from the ninth on agree iff the bytes behind the common chunk do, as far as they belong to them. */
  lemma BorrowedBytes(chunk: Buffer, a: Buffer, b: Buffer, x: Buffer, y: Buffer)
    requires 12 <= |chunk| && 4 <= |a| && 4 <= |b| && chunk + a <= x && chunk + b <= y
    ensures x[8..16] == y[8..16] <==> 16 <= |chunk| || a[..16 - |chunk|] == b[..16 - |chunk|]
  {
    var n := |chunk|;
    assert x[..n] == chunk == y[..n];
    if n < 16 {
      assert x[8..16] == chunk[8..] + a[..16 - n] && y[8..16] == chunk[8..] + b[..16 - n];
      assert x[8..16][n - 8..] == a[..16 - n] && y[8..16][n - 8..] == b[..16 - n];
    } else {
      assert x[8..16] == chunk[8..16] == y[8..16];
    }
  }

  /** The input's own chunks decide whether the size bytes are followed alike in the output. */
  lemma HeaderIntactInBody(buf: Buffer)
    requires 8 <= |buf| && Spec(buf).Ok?
    ensures var p, body := Walk(buf, 8).value.header.value, Spec(buf).value.body;
      && p.at + 16 <= |buf| && 8 + p.kept + 16 <= |body|
      && (HeaderIntact(buf) <==> buf[p.at + 8..p.at + 16] == body[8 + p.kept + 8..8 + p.kept + 16])
  {
    hide Walk, Width, Height, Chunks, FromLastHeader, FirstKept, Kept, Concat, Ascii4, ReadBe32, KEEP;
    var t, chunks := Walk(buf, 8).value, FromLastHeader(Chunks(buf, 8));
    var p := t.header.value;
    KeepsEndChunk(buf, 8);
    HeaderFollowed(buf, 8);
    KeptTags();
    var first, rest := chunks[0], chunks[1..];
    assert chunks == [first] + rest && rest[|rest| - 1] == chunks[|chunks| - 1];
    ChunkInFront(first, rest);
    FirstKeptInFront(rest);
    ConcatStarts(rest);
    var x, y := buf[p.at..], t.kept[p.kept..];
    assert first + chunks[1] <= x && first + FirstKept(rest) <= y;
    BorrowedBytes(first, chunks[1], FirstKept(rest), x, y);
    assert x[8..16] == buf[p.at + 8..p.at + 16];
    assert y[8..16] == (buf[..8] + t.kept)[8 + p.kept + 8..8 + p.kept + 16];
  }

  lemma KeptTags()
    ensures IHDR in KEEP && IEND in KEEP
  {
  }

  lemma ConcatStarts(parts: seq<Buffer>)
    requires parts != []
    ensures parts[0] <= Concat(parts)
  {
  }

  lemma SizeBytes(a: Buffer, i: nat, b: Buffer, j: nat)
    requires i + 16 <= |a| && j + 16 <= |b|
    ensures a[i + 8..i + 16] == b[j + 8..j + 16] <==> Width(a, i) == Width(b, j) && Height(a, i) == Height(b, j)
  {
    if a[i + 8..i + 16] == b[j + 8..j + 16] {
      SameFields(a, i + 8, b, j + 8, 8);
    }
    if Width(a, i) == Width(b, j) && Height(a, i) == Height(b, j) {
      Be32Injective(a, i + 8, b, j + 8);
      Be32Injective(a, i + 12, b, j + 12);
      assert a[i + 8..i + 16] == a[i + 8..i + 12] + a[i + 12..i + 16];
      assert b[j + 8..j + 16] == b[j + 8..j + 12] + b[j + 12..j + 16];
    }
  }

  lemma {:induction false} KeepsNoMore(buf: Buffer, off: nat)
    requires Walk(buf, off).Ok?
    ensures |Walk(buf, off).value.kept| <= |buf| - off
    decreases |buf| - off
  {
    hide ReadBe32, Ascii4;
    if Ascii4(buf, off + 4) != IEND {
      KeepsNoMore(buf, off + 12 + ReadBe32(buf, off));
    }
  }

  /** Sanitising an accepted PNG again changes nothing, exactly when its header is intact. */
  lemma SanitizesAgain(buf: Buffer)
    requires 8 <= |buf| && Spec(buf).Ok?
    ensures var r := Spec(buf).value;
      8 <= |r.body| <= |buf| && r.body[..8] == buf[..8] && (Spec(r.body) == Ok(r) <==> HeaderIntact(buf))
  {
    hide Walk, Width, Height, Subarray, HeaderIntact;
    var t, body := Walk(buf, 8).value, Spec(buf).value.body;
    var p := t.header.value;
    KeepsEndChunk(buf, 8);
    WalksAgain(buf[..8], buf, 8);
    KeepsNoMore(buf, 8);
    assert body[..8] == buf[..8];
    SizeBytes(buf, p.at, body, 8 + p.kept);
    HeaderIntactInBody(buf);
  }

  lemma ExtendKeeps(chunk: Buffer, tag: seq<int>, off: nat, rest: Tail)
    requires rest.header.Some? ==> rest.header.value.kept <= |rest.kept|
    ensures var t := Extend(chunk, tag, off, rest);
      && (rest.header.Some? ==>
          && t.header.Some? && t.header.value.at == rest.header.value.at
          && Subarray(t.kept, t.header.value.kept, |t.kept|)
            == Subarray(rest.kept, rest.header.value.kept, |rest.kept|))
      && (rest.header == None && t.header.Some? ==>
          tag == IHDR && t.header.value == Place(off, 0) && chunk <= t.kept && Subarray(t.kept, 0, |t.kept|) == t.kept)
      && (t.header.Some? <==> rest.header.Some? || tag == IHDR)
      && t.kept == (if tag in KEEP then chunk else []) + rest.kept
  {
    var t := Extend(chunk, tag, off, rest);
    var piece := if tag in KEEP then chunk else [];
    assert t.kept == piece + rest.kept;
    if rest.header.Some? {
      var k := rest.header.value.kept;
      assert t.kept[|piece| + k..] == rest.kept[k..];
    }
  }

  /** In particular a last header chunk of at least four declared bytes, found where the loop finds it, is enough. */
  lemma LongHeadersAreIntact(buf: Buffer)
    requires 8 <= |buf| && Spec(buf).Ok?
    requires ReadBe32(buf, Walk(buf, 8).value.header.value.at) >= 4
    ensures HeaderIntact(buf)
  {
    hide Walk, ReadBe32, Ascii4, Chunks, FromLastHeader, FirstKept, Kept, Concat;
    var t, chunks := Walk(buf, 8).value, FromLastHeader(Chunks(buf, 8));
    var p := t.header.value;
    KeepsEndChunk(buf, 8);
    HeaderFollowed(buf, 8);
    ConcatStarts(chunks);
    assert chunks[0] == buf[p.at..p.at + |chunks[0]|];
    SameFields(chunks[0], 0, buf, p.at, |chunks[0]|);
  }

  const SHORT_HEADER: Buffer :=
    [0x89, 0x50, 0x4e, 0x47, 0x0d, 0x0a, 0x1a, 0x0a, 0, 0, 0, 0, 0x49, 0x48, 0x44, 0x52, 0, 0, 1, 0]
  const END_CHUNK: Buffer := [0, 0, 0, 0, 0x49, 0x45, 0x4e, 0x44, 0, 0, 0, 0]

  /** A text chunk of 256 bytes. */
  function TextChunk(data: Buffer): Buffer {
    [0, 0, 1, 0, 0x74, 0x45, 0x58, 0x74] + data
  }

  /**
   A header chunk that declares no bytes takes its height from the length of
   the next chunk; when that chunk is dropped, the second pass reads another.
   Here 256 by 256 pixels become 256 by 0, whatever the text says.
   */
  lemma ShortHeaderChanges(data: Buffer)
    requires |data| == 260
    ensures Spec(SHORT_HEADER + TextChunk(data) + END_CHUNK) == Ok(Sanitized(SHORT_HEADER + END_CHUNK, 256, 256))
    ensures Spec(SHORT_HEADER + END_CHUNK) == Err(Rejected)
  {
    hide Walk, ReadBe32, Ascii4, Spec;
    ExampleChunks();
    ExampleTextChunk(data);
    ExampleFile(SHORT_HEADER, TextChunk(data), END_CHUNK);
  }

  lemma ExampleFile(head: Buffer, text: Buffer, end: Buffer)
    requires |head| == 20 && |end| == 12 && |text| == 268 && head[16..] == [0, 0, 1, 0]
    requires ReadBe32(head, 8) == 0 && Ascii4(head, 12) == IHDR && IHDR in KEEP
    requires ReadBe32(text, 0) == 256 && Ascii4(text, 4) !in KEEP
    requires ReadBe32(end, 0) == 0 && Ascii4(end, 4) == IEND
    ensures Spec(head + text + end) == Ok(Sanitized(head + end, 256, 256)) && Spec(head + end) == Err(Rejected)
  {
    hide Walk, ReadBe32, Ascii4;
    ExampleEnd(head + text, end);
    ExampleEnd(head, end);
    ExampleText(head, text, end);
    assert head + (text + end) == head + text + end;
    ExampleHeader(head, text + end, end);
    ExampleHeader(head, end, end);
    ExampleSize(head, text + end, end);
    ExampleSize(head, end, end);
    SameFields(text + end, 0, text, 0, 4);
  }

  lemma ExampleChunks()
    ensures ReadBe32(END_CHUNK, 0) == 0 && Ascii4(END_CHUNK, 4) == IEND
    ensures ReadBe32(SHORT_HEADER, 8) == 0 && Ascii4(SHORT_HEADER, 12) == IHDR && IHDR in KEEP
  {
  }

  lemma ExampleTextChunk(data: Buffer)
    ensures ReadBe32(TextChunk(data), 0) == 256 && Ascii4(TextChunk(data), 4) !in KEEP
  {
    assert Ascii4(TextChunk(data), 4) == [0x74, 0x45, 0x58, 0x74];
    assert forall k :: k in KEEP ==> k[0] != 0x74 || k[1] != 0x45;
  }

  lemma ExampleEnd(before: Buffer, end: Buffer)
    requires |end| == 12 && ReadBe32(end, 0) == 0 && Ascii4(end, 4) == IEND
    ensures Walk(before + end, |before|) == Ok(Tail(end, None))
  {
    hide ReadBe32, Ascii4;
    ReadsChunkAgain(before, end, [], end, 0);
    assert end + [] == end && end[0..] == end;
  }

  lemma ExampleText(head: Buffer, text: Buffer, end: Buffer)
    requires |text| == 268 && ReadBe32(text, 0) == 256 && Ascii4(text, 4) !in KEEP && IHDR in KEEP && IEND in KEEP
    requires Walk(head + text + end, |head + text|) == Ok(Tail(end, None))
    ensures Walk(head + text + end, |head|) == Ok(Tail(end, None))
  {
    hide ReadBe32, Ascii4;
    ReadsChunkAgain(head, text, end, text, 0);
    assert [] + end == end;
  }

  lemma ExampleHeader(head: Buffer, rest: Buffer, end: Buffer)
    requires |head| == 20 && ReadBe32(head, 8) == 0 && Ascii4(head, 12) == IHDR && IHDR in KEEP
    requires 4 <= |rest| && Walk(head + rest, 20) == Ok(Tail(end, None))
    ensures Walk(head + rest, 8) == Ok(Tail(head[8..] + end, Some(Place(8, 0))))
  {
    hide ReadBe32, Ascii4;
    var buf := head + rest;
    assert buf[8..20] == head[8..20] == head[8..];
    SameFields(buf, 8, head, 8, 12);
  }

  lemma ExampleSize(head: Buffer, rest: Buffer, end: Buffer)
    requires |head| == 20 && head[16..] == [0, 0, 1, 0] && 4 <= |rest|
    ensures Width(head + rest, 8) == 256 && Height(head + rest, 8) == ReadBe32(rest, 0)
    ensures (head + rest)[..8] + (head[8..] + end) == head + end
  {
    assert head[16..][0] == head[16] && head[16..][1] == head[17] && head[16..][2] == head[18];
    assert head[16..][3] == head[19];
  }
}

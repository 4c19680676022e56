/**
 WebP files as the standard writes them (RFC 9649, sections 2.3 to 2.7): a RIFF
 header and a list of padded chunks.  On every such file the sanitiser is a
 transformation of that list.
 */
module WebpFormat {
  import opened Bytes
  import opened Wrappers
  import opened ImageTypes
  import opened WebpSanitizer
  import ImageSanitizer

  /** A chunk: its length field is implied, and `pad` is printed behind data of odd length. */
  datatype Piece = Piece(tag: Buffer, data: Buffer, pad: Byte) {
    predicate Valid() {
      && |tag| == 4 && |data| < 0x1_0000_0000
      && (Is("VP8X") || Is("VP8 ") ==> 10 <= |data|)
      && (Is("VP8L") ==> 5 <= |data|)
    }

    predicate Is(name: string) {
      Spells(tag, name)
    }
  }

  function Print(c: Piece): Buffer {
    c.tag + Le32(|c.data|) + c.data + if |c.data| % 2 == 1 then [c.pad] else []
  }

  function PrintAll(cs: seq<Piece>): Buffer {
    if cs == [] then [] else Print(cs[0]) + PrintAll(cs[1..])
  }

  function File(cs: seq<Piece>): Buffer {
    [0x52, 0x49, 0x46, 0x46] + Le32(|PrintAll(cs)| + 4) + [0x57, 0x45, 0x42, 0x50] + PrintAll(cs)
  }

  /** The extended header without its metadata flags; other chunks as they are. */
  function Unflagged(c: Piece): Piece {
    if c.Is("VP8X") && c.data != [] then c.(data := c.data[0 := ClearFlags(c.data[0])]) else c
  }

  function WithoutMetadata(cs: seq<Piece>): seq<Piece> {
    if cs == [] then []
    else (if cs[0].Is("EXIF") || cs[0].Is("XMP ") then [] else [Unflagged(cs[0])]) + WithoutMetadata(cs[1..])
  }

  /** The canvas of an extended header, or the size of a first image chunk. */
  function SizeAfter(c: Piece, size: Size): Size
    requires c.Valid()
  {
    var d := c.data;
    if c.Is("VP8X") then Size(1 + ReadLe24(d, 4), 1 + ReadLe24(d, 7))
    else if c.Is("VP8 ") && size.width == 0 then Size(ReadLe16(d, 6) % 0x4000, ReadLe16(d, 8) % 0x4000)
    else if c.Is("VP8L") && size.width == 0 then
      Size(ReadLe32(d, 1) % 0x4000 + 1, ReadLe32(d, 1) / 0x4000 % 0x4000 + 1)
    else size
  }

  ghost predicate ArePieces(cs: seq<Piece>) {
    forall i :: 0 <= i < |cs| ==> cs[i].Valid()
  }

  function SizeOf(cs: seq<Piece>, size: Size): Size
    requires ArePieces(cs)
  {
    if cs == [] then size else SizeOf(cs[1..], SizeAfter(cs[0], size))
  }

  /** What stands where in a printed chunk. */
  lemma PrintedFields(c: Piece)
    requires c.Valid()
    ensures var p := Print(c);
      && |p| == 8 + |c.data| + |c.data| % 2 && Ascii4(p, 0) == Ascii4(c.tag, 0) && ReadLe32(p, 4) == |c.data|
      && forall k :: 0 <= k < |c.data| ==> p[8 + k] == c.data[k]
  {
    hide Le32;
    var p, len := Print(c), Le32(|c.data|);
    assert p[4] == len[0] && p[5] == len[1] && p[6] == len[2] && p[7] == len[3];
    assert p[0] == c.tag[0] && p[1] == c.tag[1] && p[2] == c.tag[2] && p[3] == c.tag[3];
  }

  lemma PieceReads(pre: Buffer, c: Piece, more: Buffer)
    requires c.Valid()
    ensures var buf, off := pre + Print(c) + more, |pre|;
      && off + 8 + |c.data| <= |buf| && Ascii4(buf, off) == Ascii4(c.tag, 0) && ReadLe32(buf, off + 4) == |c.data|
      && |Print(c)| == 8 + |c.data| + |c.data| % 2
      && ChunkEnd(buf, off) == off + |Print(c)| && buf[off..off + |Print(c)|] == Print(c)
      && forall k :: 0 <= k < |c.data| ==> buf[off + 8 + k] == c.data[k]
  {
    hide ReadLe32, Ascii4, Print;
    var buf, off, p := pre + Print(c) + more, |pre|, Print(c);
    PrintedFields(c);
    assert buf[off..off + |p|] == p;
    forall k | 0 <= k < |p| ensures buf[off + k] == p[k] {
      assert buf[off..off + |p|][k] == p[k];
    }
    SameFields(buf, off, p, 0, |p|);
  }

  lemma PieceMeasures(buf: Buffer, off: nat, c: Piece, size: Size)
    requires c.Valid() && off + 8 + |c.data| <= |buf|
    requires Ascii4(buf, off) == Ascii4(c.tag, 0) && ReadLe32(buf, off + 4) == |c.data|
    requires off + 8 + |c.data| <= ChunkEnd(buf, off)
    requires forall k :: 0 <= k < |c.data| ==> buf[off + 8 + k] == c.data[k]
    ensures Measure(buf, off, size) == Ok(SizeAfter(c, size))
  {
    hide ChunkEnd, Ascii4;
    TagsDiffer();
    KnowsTags(c);
    if 5 <= |c.data| { SameBytes(buf, off + 8, c.data, 1, 4); }
    if 10 <= |c.data| {
      SameBytes(buf, off + 8, c.data, 4, 3);
      SameBytes(buf, off + 8, c.data, 7, 3);
      SameBytes(buf, off + 8, c.data, 6, 2);
      SameBytes(buf, off + 8, c.data, 8, 2);
    }
  }

  lemma SameBytes(buf: Buffer, at: nat, data: Buffer, k: nat, n: nat)
    requires at + |data| <= |buf| && k + n <= |data|
    requires forall i :: 0 <= i < |data| ==> buf[at + i] == data[i]
    ensures 2 <= n ==> ReadLe16(buf, at + k) == ReadLe16(data, k)
    ensures 3 <= n ==> ReadLe24(buf, at + k) == ReadLe24(data, k)
    ensures 4 <= n ==> ReadLe32(buf, at + k) == ReadLe32(data, k)
  {
  }

  lemma TagsDiffer()
    ensures VP8X != VP8 && VP8X != VP8L && VP8 != VP8L && VP8X != EXIF && VP8X != XMP
  {
    assert VP8X[3] != VP8[3] && VP8X[3] != VP8L[3] && VP8[3] != VP8L[3] && VP8X[0] != EXIF[0] && VP8X[0] != XMP[0];
  }

  /** The walk knows the chunks by their names. */
  lemma KnowsTags(c: Piece)
    requires c.Valid()
    ensures (Ascii4(c.tag, 0) == VP8X <==> c.Is("VP8X")) && (Ascii4(c.tag, 0) == VP8 <==> c.Is("VP8 "))
    ensures (Ascii4(c.tag, 0) == VP8L <==> c.Is("VP8L"))
    ensures (Ascii4(c.tag, 0) == EXIF <==> c.Is("EXIF")) && (Ascii4(c.tag, 0) == XMP <==> c.Is("XMP "))
  {
    hide Ascii4, Spells;
    SpellsBytes(c.tag, "VP8X", VP8X);
    SpellsBytes(c.tag, "VP8 ", VP8);
    SpellsBytes(c.tag, "VP8L", VP8L);
    SpellsBytes(c.tag, "EXIF", EXIF);
    SpellsBytes(c.tag, "XMP ", XMP);
  }

  lemma PieceIsKept(buf: Buffer, off: nat, c: Piece)
    requires c.Valid() && off + 8 + |c.data| <= |buf|
    requires Ascii4(buf, off) == Ascii4(c.tag, 0) && ReadLe32(buf, off + 4) == |c.data|
    requires ChunkEnd(buf, off) == off + |Print(c)| && buf[off..off + |Print(c)|] == Print(c)
    ensures Chunk(buf, off) == Print(Unflagged(c))
  {
    hide ChunkEnd, Ascii4, ReadLe32, Le32, ClearFlags;
    KnowsTags(c);
    if c.Is("VP8X") {
      var p, q := Print(c), Print(Unflagged(c));
      assert p[8] == c.data[0];
      assert q == p[8 := ClearFlags(p[8])];
    }
  }

  lemma {:induction false} WalkTransforms(pre: Buffer, cs: seq<Piece>, size: Size)
    requires ArePieces(cs)
    ensures Walk(pre + PrintAll(cs), |pre|, size) == Ok(Chunks(PrintAll(WithoutMetadata(cs)), SizeOf(cs, size)))
    decreases |cs|
  {
    hide Print, ReadLe32, Ascii4, Measure, Chunk, ChunkEnd, SizeAfter, Unflagged, Spells;
    var buf, off := pre + PrintAll(cs), |pre|;
    if cs != [] {
      var c, more := cs[0], PrintAll(cs[1..]);
      assert buf == pre + Print(c) + more && buf == (pre + Print(c)) + more;
      PieceReads(pre, c, more);
      PieceMeasures(buf, off, c, size);
      PieceIsKept(buf, off, c);
      KnowsTags(c);
      var next := SizeAfter(c, size);
      WalkTransforms(pre + Print(c), cs[1..], next);
      WalkOne(buf, off, size, next, Chunks(PrintAll(WithoutMetadata(cs[1..])), SizeOf(cs[1..], next)));
      assert cs == [c] + cs[1..];
      FilterSteps(c, cs[1..]);
    }
  }

  lemma FilterSteps(c: Piece, rest: seq<Piece>)
    ensures PrintAll(WithoutMetadata([c] + rest))
      == (if c.Is("EXIF") || c.Is("XMP ") then [] else Print(Unflagged(c))) + PrintAll(WithoutMetadata(rest))
  {
    hide Print, Unflagged;
    assert ([c] + rest)[1..] == rest;
    assert ([Unflagged(c)] + WithoutMetadata(rest))[1..] == WithoutMetadata(rest);
    assert [] + WithoutMetadata(rest) == WithoutMetadata(rest);
  }

  /**
   Of every WebP file the sanitiser makes the file of its chunks without the
   metadata and without the flags that announce it, and reports its size.
   */
  lemma StripsExactlyMetadata(cs: seq<Piece>)
    requires ArePieces(cs) && |PrintAll(WithoutMetadata(cs))| + 4 < 0x1_0000_0000
    ensures var size := SizeOf(cs, Size(0, 0));
      Spec(File(cs)) == if size.width == 0 || size.height == 0 then Err(Rejected)
        else Ok(Sanitized(File(WithoutMetadata(cs)), size.width, size.height))
  {
    hide Walk, Le32, PrintAll, WithoutMetadata, SizeOf;
    WalkTransforms([0x52, 0x49, 0x46, 0x46] + Le32(|PrintAll(cs)| + 4) + [0x57, 0x45, 0x42, 0x50], cs, Size(0, 0));
  }

  /**
   The whole operation on a WebP file that is not too large and of an allowed
   kind: what is handed out is the file without its metadata, if both sides are
   within the limits.
   */
  lemma SanitizedWhole(cs: seq<Piece>, o: ImageSanitizer.Options)
    requires ArePieces(cs) && |PrintAll(WithoutMetadata(cs))| + 4 < 0x1_0000_0000
    requires |File(cs)| <= o.maxBytes && ImageSanitizer.Webp in o.allowed
    ensures var size, body := SizeOf(cs, Size(0, 0)), File(WithoutMetadata(cs));
      ImageSanitizer.Spec(File(cs), o) == if ImageSanitizer.Within(o, size.width, size.height)
        then Ok(ImageSanitizer.Image(ImageSanitizer.Webp, size.width, size.height, body, |File(cs)| - |body|))
        else Err(Rejected)
  {
    hide Spec, ImageSanitizer.Spec, PrintAll, WithoutMetadata, SizeOf, Le32;
    StripsExactlyMetadata(cs);
    var file := File(cs);
    assert file[..4] == [0x52, 0x49, 0x46, 0x46] && file[8..12] == [0x57, 0x45, 0x42, 0x50];
    var size := SizeOf(cs, Size(0, 0));
    assert ImageSanitizer.HasSignature(ImageSanitizer.Webp, file);
    hide File, ImageSanitizer.HasSignature;
    ImageSanitizer.WebpAccepted(file, o, File(WithoutMetadata(cs)), size.width, size.height);
  }
}

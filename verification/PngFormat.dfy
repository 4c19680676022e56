/**
 PNG files as the standard writes them (PNG specification, section 5.3): a
 signature and a list of chunks.  On every such file the walk of the sanitiser
 is a filter of that list.
 */
module PngFormat {
  import opened Bytes
  import opened Wrappers
  import opened ImageTypes
  import opened PngSanitizer
  import ImageSanitizer

  /** A chunk: type, data and checksum; its length field is implied. */
  datatype Chunk = Chunk(tag: Buffer, data: Buffer, crc: Buffer) {
    predicate Valid() {
      && |tag| == 4 && |crc| == 4 && |data| < 0x1_0000_0000
      && (Spells(tag, "IHDR") ==> 8 <= |data|)
    }
  }

  function Print(c: Chunk): Buffer {
    Be32(|c.data|) + c.tag + c.data + c.crc
  }

  function PrintAll(cs: seq<Chunk>): Buffer {
    if cs == [] then [] else Print(cs[0]) + PrintAll(cs[1..])
  }

  predicate HasType(c: Chunk, names: set<string>) {
    exists name :: name in names && Spells(c.tag, name)
  }

  /** The chunks whose type is one of these, in order. */
  function Typed(cs: seq<Chunk>, names: set<string>): seq<Chunk> {
    if cs == [] then [] else (if HasType(cs[0], names) then [cs[0]] else []) + Typed(cs[1..], names)
  }

  /** The data of the chunks of one type, one behind the other. */
  function Data(cs: seq<Chunk>, name: string): Buffer {
    if cs == [] then [] else (if Spells(cs[0].tag, name) then cs[0].data else []) + Data(cs[1..], name)
  }

  /** The types that affect rendering; every other chunk is metadata. */
  const RENDERED := {"IHDR", "PLTE", "IDAT", "IEND", "tRNS", "gAMA", "cHRM", "sRGB", "sBIT", "bKGD", "pHYs"}

  function LastHeader(cs: seq<Chunk>): (h: Option<Chunk>)
    ensures h.Some? ==> h.value in cs && Spells(h.value.tag, "IHDR")
  {
    if cs == [] then None
    else
      var later := LastHeader(cs[1..]);
      if later.Some? then later else if Spells(cs[0].tag, "IHDR") then Some(cs[0]) else None
  }

  /** Chunks, the end chunk, and whatever stands behind it. */
  function Rest(cs: seq<Chunk>, end: Chunk, behind: Buffer): Buffer {
    PrintAll(cs) + Print(end) + behind
  }

  ghost predicate AreChunks(cs: seq<Chunk>) {
    forall i :: 0 <= i < |cs| ==> cs[i].Valid() && !Spells(cs[i].tag, "IEND")
  }

  lemma ChunkReads(pre: Buffer, c: Chunk, more: Buffer)
    requires c.Valid()
    ensures var buf, off := pre + Print(c) + more, |pre|;
      && |Print(c)| == 12 + |c.data| && ReadBe32(buf, off) == |c.data| && Ascii4(buf, off + 4) == Ascii4(c.tag, 0)
      && buf[off..off + |Print(c)|] == Print(c)
      && (8 <= |c.data| ==>
          ReadBe32(buf, off + 8) == ReadBe32(c.data, 0) && ReadBe32(buf, off + 12) == ReadBe32(c.data, 4))
  {
    hide ReadBe32, Ascii4, Be32;
    var buf, off, p := pre + Print(c) + more, |pre|, Print(c);
    assert buf[off..off + |p|] == p;
    PrintedFields(c);
    SameFields(buf, off, p, 0, |p|);
    if 8 <= |c.data| {
      assert buf[off + 8..off + |p|] == p[8..|p|];
      SameFields(buf, off + 8, p, 8, |p| - 8);
    }
  }

  lemma PrintedFields(c: Chunk)
    requires c.Valid()
    ensures var p := Print(c);
      && |p| == 12 + |c.data| && ReadBe32(p, 0) == |c.data| && Ascii4(p, 4) == Ascii4(c.tag, 0)
      && (8 <= |c.data| ==> ReadBe32(p, 8) == ReadBe32(c.data, 0) && ReadBe32(p, 12) == ReadBe32(c.data, 4))
  {
    hide Be32;
    var p, len := Print(c), Be32(|c.data|);
    assert p[0] == len[0] && p[1] == len[1] && p[2] == len[2] && p[3] == len[3];
    assert forall k :: 0 <= k < |c.data| ==> p[8 + k] == c.data[k];
  }

  lemma {:induction false} WalkFilters(pre: Buffer, cs: seq<Chunk>, end: Chunk, behind: Buffer)
    requires AreChunks(cs) && end.Valid() && Spells(end.tag, "IEND")
    ensures var buf := pre + Rest(cs, end, behind);
      && Walk(buf, |pre|).Ok?
      && var t := Walk(buf, |pre|).value;
        && t.kept == PrintAll(Typed(cs, RENDERED)) + Print(end)
        && (t.header.Some? <==> LastHeader(cs).Some?)
        && (t.header.Some? ==>
            && Width(buf, t.header.value.at) == ReadBe32(LastHeader(cs).value.data, 0)
            && Height(buf, t.header.value.at) == ReadBe32(LastHeader(cs).value.data, 4))
    decreases |cs|
  {
    hide Print, ReadBe32, Ascii4, KEEP, Spells, HasType;
    var buf, off := pre + Rest(cs, end, behind), |pre|;
    if cs == [] {
      assert buf == pre + Print(end) + behind;
      ChunkReads(pre, end, behind);
      KeepsRendered(end);
      assert [] + Print(end) == Print(end);
    } else {
      var c, more := cs[0], Rest(cs[1..], end, behind);
      assert buf == pre + Print(c) + more && buf == (pre + Print(c)) + more;
      ChunkReads(pre, c, more);
      WalkFilters(pre + Print(c), cs[1..], end, behind);
      FilterSteps(c, cs[1..], RENDERED, Print(end));
      KeepsRendered(c);
    }
  }

  lemma FilterSteps(c: Chunk, rest: seq<Chunk>, names: set<string>, end: Buffer)
    ensures PrintAll(Typed([c] + rest, names)) + end
      == (if HasType(c, names) then Print(c) else []) + (PrintAll(Typed(rest, names)) + end)
  {
    hide Print, HasType;
    assert ([c] + rest)[1..] == rest;
    assert ([c] + Typed(rest, names))[1..] == Typed(rest, names);
    assert [] + Typed(rest, names) == Typed(rest, names);
  }

  /** The walk keeps a type iff it is rendered, and knows the header and the end by their names. */
  lemma KeepsRendered(c: Chunk)
    requires c.Valid()
    ensures Ascii4(c.tag, 0) in KEEP <==> HasType(c, RENDERED)
    ensures Ascii4(c.tag, 0) == IHDR <==> Spells(c.tag, "IHDR")
    ensures Ascii4(c.tag, 0) == IEND <==> Spells(c.tag, "IEND")
  {
    hide Ascii4, Spells;
    SpellsBytes(c.tag, "IHDR", [0x49, 0x48, 0x44, 0x52]);
    SpellsBytes(c.tag, "PLTE", [0x50, 0x4c, 0x54, 0x45]);
    SpellsBytes(c.tag, "IDAT", [0x49, 0x44, 0x41, 0x54]);
    SpellsBytes(c.tag, "IEND", [0x49, 0x45, 0x4e, 0x44]);
    SpellsBytes(c.tag, "tRNS", [0x74, 0x52, 0x4e, 0x53]);
    SpellsBytes(c.tag, "gAMA", [0x67, 0x41, 0x4d, 0x41]);
    SpellsBytes(c.tag, "cHRM", [0x63, 0x48, 0x52, 0x4d]);
    SpellsBytes(c.tag, "sRGB", [0x73, 0x52, 0x47, 0x42]);
    SpellsBytes(c.tag, "sBIT", [0x73, 0x42, 0x49, 0x54]);
    SpellsBytes(c.tag, "bKGD", [0x62, 0x4b, 0x47, 0x44]);
    SpellsBytes(c.tag, "pHYs", [0x70, 0x48, 0x59, 0x73]);
    HasRenderedType(c);
  }

  lemma HasRenderedType(c: Chunk)
    ensures HasType(c, RENDERED) <==>
      || Spells(c.tag, "IHDR") || Spells(c.tag, "PLTE") || Spells(c.tag, "IDAT") || Spells(c.tag, "IEND")
      || Spells(c.tag, "tRNS") || Spells(c.tag, "gAMA") || Spells(c.tag, "cHRM") || Spells(c.tag, "sRGB")
      || Spells(c.tag, "sBIT") || Spells(c.tag, "bKGD") || Spells(c.tag, "pHYs")
  {
    hide Spells;
  }

  /**
   Of every PNG file the sanitiser keeps the chunks of the types that affect
   rendering, drops the others and what stands behind the end chunk, and
   reports the size of the last header chunk.
   */
  lemma StripsExactlyMetadata(signature: Buffer, cs: seq<Chunk>, end: Chunk, behind: Buffer)
    requires |signature| == 8 && AreChunks(cs) && end.Valid() && Spells(end.tag, "IEND")
    ensures Spec(signature + PrintAll(cs) + Print(end) + behind)
      == match LastHeader(cs)
         case None => Err(Rejected)
         case Some(h) =>
           var width, height := ReadBe32(h.data, 0), ReadBe32(h.data, 4);
           var kept := Typed(cs,
             {"IHDR", "PLTE", "IDAT", "IEND", "tRNS", "gAMA", "cHRM", "sRGB", "sBIT", "bKGD", "pHYs"});
           if width == 0 || height == 0 then Err(Rejected)
           else Ok(Sanitized(signature + PrintAll(kept) + Print(end), width, height))
  {
    hide Print, Walk, Width, Height, ReadBe32, Spells, HasType;
    WalkFilters(signature, cs, end, behind);
    var buf := signature + Rest(cs, end, behind);
    assert buf == signature + PrintAll(cs) + Print(end) + behind;
    assert buf[..8] == signature;
    assert signature + (PrintAll(Typed(cs, RENDERED)) + Print(end))
      == signature + PrintAll(Typed(cs, RENDERED)) + Print(end);
  }

  /** Two names of which a type has only one. */
  lemma OneName(c: Chunk, a: string, b: string)
    requires Spells(c.tag, a) && Spells(c.tag, b)
    ensures a == b
  {
    assert forall i :: 0 <= i < |a| ==> a[i] == b[i];
  }

  lemma {:induction false} TypedKeepsData(cs: seq<Chunk>, names: set<string>, name: string)
    requires name in names
    ensures Data(Typed(cs, names), name) == Data(cs, name)
    ensures forall c :: c in Typed(cs, names) ==> c in cs && HasType(c, names)
  {
    hide Spells;
    if cs != [] {
      var rest := Typed(cs[1..], names);
      TypedKeepsData(cs[1..], names, name);
      assert ([cs[0]] + rest)[1..] == rest && [] + rest == rest;
      assert cs == [cs[0]] + cs[1..];
      if !HasType(cs[0], names) {
        assert !Spells(cs[0].tag, name);
        assert [] + Data(cs[1..], name) == Data(cs[1..], name);
      }
    }
  }

  /**
   So pixels, palette and transparency are kept byte for byte, and no text,
   EXIF or time chunk survives.
   */
  lemma PixelsSurviveTextDoesNot(signature: Buffer, cs: seq<Chunk>, end: Chunk, behind: Buffer)
    returns (kept: seq<Chunk>)
    requires |signature| == 8 && AreChunks(cs) && end.Valid() && Spells(end.tag, "IEND")
    ensures var r := Spec(signature + PrintAll(cs) + Print(end) + behind);
      r.Ok? ==> r.value.body == signature + PrintAll(kept) + Print(end)
    ensures forall name :: name in {"IDAT", "PLTE", "tRNS"} ==> Data(kept, name) == Data(cs, name)
    ensures forall c, name :: c in kept && name in {"tEXt", "zTXt", "iTXt", "eXIf", "tIME"} ==> !Spells(c.tag, name)
  {
    hide Print, ReadBe32, Spells, Spec;
    StripsExactlyMetadata(signature, cs, end, behind);
    kept := Typed(cs, RENDERED);
    forall name | name in {"IDAT", "PLTE", "tRNS"} ensures Data(kept, name) == Data(cs, name) {
      TypedKeepsData(cs, RENDERED, name);
    }
    TypedKeepsData(cs, RENDERED, "IDAT");
    forall c, name | c in kept && name in {"tEXt", "zTXt", "iTXt", "eXIf", "tIME"} ensures !Spells(c.tag, name) {
      if Spells(c.tag, name) {
        var other :| other in RENDERED && Spells(c.tag, other);
        OneName(c, name, other);
        assert false;
      }
    }
  }

  /**
   The whole operation on a PNG file that is not too large and of an allowed
   kind: what is handed out is the file without its metadata, if both sides are
   within the limits.
   */
  lemma SanitizedWhole(cs: seq<Chunk>, end: Chunk, behind: Buffer, o: ImageSanitizer.Options)
    requires AreChunks(cs) && end.Valid() && Spells(end.tag, "IEND") && LastHeader(cs).Some?
    requires var file := [137, 80, 78, 71, 13, 10, 26, 10] + PrintAll(cs) + Print(end) + behind;
      |file| <= o.maxBytes && ImageSanitizer.Png in o.allowed
    ensures var file: Buffer := [137, 80, 78, 71, 13, 10, 26, 10] + PrintAll(cs) + Print(end) + behind;
      var kept := Typed(cs,
        {"IHDR", "PLTE", "IDAT", "IEND", "tRNS", "gAMA", "cHRM", "sRGB", "sBIT", "bKGD", "pHYs"});
      var body: Buffer := [137, 80, 78, 71, 13, 10, 26, 10] + PrintAll(kept) + Print(end);
      var data := LastHeader(cs).value.data;
      var width, height := ReadBe32(data, 0), ReadBe32(data, 4);
      ImageSanitizer.Spec(file, o) == if ImageSanitizer.Within(o, width, height)
        then Ok(ImageSanitizer.Image(ImageSanitizer.Png, width, height, body, |file| - |body|)) else Err(Rejected)
  {
    hide Print, PrintAll, ReadBe32, Spells, Spec, ImageSanitizer.Spec;
    var signature: Buffer := [137, 80, 78, 71, 13, 10, 26, 10];
    var file := signature + PrintAll(cs) + Print(end) + behind;
    StripsExactlyMetadata(signature, cs, end, behind);
    var data := LastHeader(cs).value.data;
    assert file[..8] == signature;
    ImageSanitizer.PngAccepted(file, o,
      signature + PrintAll(Typed(cs, RENDERED)) + Print(end), ReadBe32(data, 0), ReadBe32(data, 4));
  }
}

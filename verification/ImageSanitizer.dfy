/** `sanitizeImage` of src/common/utils/image-sanitize.ts: sniff the kind, strip it, check the limits. */
module ImageSanitizer {
  import opened Bytes
  import opened Wrappers
  import opened ImageTypes
  import PngSanitizer
  import JpegSanitizer
  import WebpSanitizer

  datatype ImageKind = Png | Jpeg | Webp | Ico

  /** `minSide` 0 stands for an absent minimum. */
  datatype Options = Options(allowed: seq<ImageKind>, maxBytes: nat, maxSide: nat, minSide: nat)

  datatype Image = Image(kind: ImageKind, width: nat, height: nat, body: Buffer, stripped: int)

  const PNG_SIGNATURE: Buffer := [0x89, 0x50, 0x4e, 0x47, 0x0d, 0x0a, 0x1a, 0x0a]

  function Sniff(buf: Buffer): Option<ImageKind> {
    if 8 <= |buf| && buf[..8] == PNG_SIGNATURE then Some(Png)
    else if 3 <= |buf| && buf[0] == 0xff && buf[1] == 0xd8 && buf[2] == 0xff then Some(Jpeg)
    else if 12 <= |buf| && Ascii4(buf, 0) == WebpSanitizer.RIFF && Ascii4(buf, 8) == WebpSanitizer.WEBP then Some(Webp)
    else if 6 <= |buf| && ReadLe16(buf, 0) == 0 && ReadLe16(buf, 2) == 1 && 0 < ReadLe16(buf, 4) then Some(Ico)
    else None
  }

  function Max(a: nat, b: nat): nat {
    if a < b then b else a
  }

  /** A side of an icon; 0 means 256. */
  function Side(b: Byte): nat {
    if b == 0 then 256 else b
  }

  /** The largest entry of an icon directory from entry `i` on. */
  function IcoSize(buf: Buffer, i: nat, n: nat, width: nat, height: nat): Result<Sanitized, Refusal>
    requires i <= n && 6 + 16 * n <= |buf|
    decreases n - i
  {
    if i == n then Ok(Sanitized(buf, width, height))
    else
      var entry := 6 + 16 * i;
      if ReadLe32(buf, entry + 12) + ReadLe32(buf, entry + 8) > |buf| then Err(Rejected)
      else IcoSize(buf, i + 1, n, Max(width, Side(buf[entry])), Max(height, Side(buf[entry + 1])))
  }

  function IcoSpec(buf: Buffer): Result<Sanitized, Refusal>
    requires 6 <= |buf|
  {
    if |buf| < 6 + 16 * ReadLe16(buf, 4) then Err(Rejected) else IcoSize(buf, 0, ReadLe16(buf, 4), 0, 0)
  }

  method SanitizeIco(buf: Buffer) returns (r: Result<Sanitized, Refusal>)
    requires 6 <= |buf|
    ensures r == IcoSpec(buf)
  {
    hide ReadLe16, ReadLe32;
    var n := ReadLe16(buf, 4);
    if |buf| < 6 + n * 16 { return Err(Rejected); }
    var width, height := 0, 0;
    for i := 0 to n
      invariant IcoSize(buf, i, n, width, height) == IcoSpec(buf)
    {
      var w := Side(buf[6 + i * 16]);
      var h := Side(buf[7 + i * 16]);
      var size := ReadLe32(buf, 6 + i * 16 + 8);
      var at := ReadLe32(buf, 6 + i * 16 + 12);
      if at + size > |buf| { return Err(Rejected); }
      width := Max(width, w);
      height := Max(height, h);
    }
    return Ok(Sanitized(buf, width, height));
  }

  function Stripped(kind: ImageKind, buf: Buffer): Result<Sanitized, Refusal>
    requires Sniff(buf) == Some(kind)
  {
    match kind
    case Png => PngSanitizer.Spec(buf)
    case Jpeg => JpegSanitizer.Spec(buf)
    case Webp => WebpSanitizer.Spec(buf)
    case Ico => IcoSpec(buf)
  }

  predicate Sized(o: Options, width: nat, height: nat) {
    width <= o.maxSide && height <= o.maxSide && (o.minSide != 0 ==> o.minSide <= width && o.minSide <= height)
  }

  function Spec(buf: Buffer, o: Options): Result<Image, Refusal> {
    if |buf| > o.maxBytes then Err(Rejected)
    else match Sniff(buf)
      case None => Err(Rejected)
      case Some(kind) =>
        if kind !in o.allowed then Err(Rejected)
        else match Stripped(kind, buf)
          case Err(e) => Err(e)
          case Ok(s) =>
            if Sized(o, s.width, s.height) then Ok(Image(kind, s.width, s.height, s.body, |buf| - |s.body|))
            else Err(Rejected)
  }

  method SanitizeImage(buf: Buffer, o: Options) returns (r: Result<Image, Refusal>)
    ensures r == Spec(buf, o)
  {
    if |buf| > o.maxBytes { return Err(Rejected); }
    var kind := Sniff(buf);
    if kind == None || kind.value !in o.allowed { return Err(Rejected); }
    var s;
    match kind.value {
      case Png => s := PngSanitizer.Sanitize(buf);
      case Jpeg => s := JpegSanitizer.Sanitize(buf);
      case Webp => s := WebpSanitizer.Sanitize(buf);
      case Ico => s := SanitizeIco(buf);
    }
    if s.Err? { return Err(s.error); }
    var image := s.value;
    if image.width > o.maxSide || image.height > o.maxSide { return Err(Rejected); }
    if o.minSide != 0 && (image.width < o.minSide || image.height < o.minSide) { return Err(Rejected); }
    return Ok(Image(kind.value, image.width, image.height, image.body, |buf| - |image.body|));
  }

  /** The byte at `at` of entry `k` stands for this many pixels. */
  predicate Says(buf: Buffer, k: nat, at: nat, side: nat)
    requires at < 16 && 6 + 16 * k + 16 <= |buf|
  {
    var b := buf[6 + 16 * k + at];
    (b == 0 && side == 256) || (b != 0 && side == b)
  }

  /** `side` is the largest of the entries' bytes at `at`, or what it was before. */
  ghost predicate Largest(buf: Buffer, at: nat, i: nat, n: nat, before: nat, side: nat)
    requires i <= n && at < 16 && 6 + 16 * n <= |buf|
  {
    && before <= side
    && (forall k: nat, w: nat :: i <= k < n && Says(buf, k, at, w) ==> w <= side)
    && (side == before || exists k: nat :: i <= k < n && Says(buf, k, at, side))
  }

  lemma LargestOfMore(buf: Buffer, at: nat, i: nat, n: nat, before: nat, side: nat)
    requires i < n && at < 16 && 6 + 16 * n <= |buf|
    requires Largest(buf, at, i + 1, n, Max(before, Side(buf[6 + 16 * i + at])), side)
    ensures Largest(buf, at, i, n, before, side)
  {
    assert Says(buf, i, at, Side(buf[6 + 16 * i + at]));
  }

  /** The image of entry `k` lies inside the file. */
  predicate EntryInside(buf: Buffer, k: nat)
    requires 6 + 16 * k + 16 <= |buf|
  {
    ReadLe32(buf, 6 + 16 * k + 12) + ReadLe32(buf, 6 + 16 * k + 8) <= |buf|
  }

  /** An icon is accepted iff every entry's image lies inside the file; it reports their largest sides. */
  lemma {:induction false} IcoReportsLargest(buf: Buffer, i: nat, n: nat, width: nat, height: nat)
    requires i <= n && 6 + 16 * n <= |buf|
    ensures var r := IcoSize(buf, i, n, width, height);
      && (r.Ok? <==> forall k :: i <= k < n ==> EntryInside(buf, k))
      && (r.Ok? ==>
          && r.value.body == buf
          && Largest(buf, 0, i, n, width, r.value.width) && Largest(buf, 1, i, n, height, r.value.height))
    decreases n - i
  {
    hide ReadLe32, Largest;
    if i == n {
      NoEntries(buf, n, width, height);
    } else {
      var entry := 6 + 16 * i;
      var w, h := Max(width, Side(buf[entry])), Max(height, Side(buf[entry + 1]));
      IcoReportsLargest(buf, i + 1, n, w, h);
      assert EntryInside(buf, i) <==> ReadLe32(buf, entry + 12) + ReadLe32(buf, entry + 8) <= |buf|;
      if IcoSize(buf, i, n, width, height).Ok? {
        var s := IcoSize(buf, i + 1, n, w, h).value;
        assert buf[entry] == buf[6 + 16 * i + 0] && buf[entry + 1] == buf[6 + 16 * i + 1];
        LargestOfMore(buf, 0, i, n, width, s.width);
        LargestOfMore(buf, 1, i, n, height, s.height);
      }
    }
  }

  /**
   The icon as a whole: with as many entries as its header says, it is accepted
   iff the directory and every entry's image lie inside the file.
   */
  lemma IcoAccepted(buf: Buffer)
    requires 6 <= |buf|
    ensures var n, r := buf[4] as int + 0x100 * (buf[5] as int), IcoSpec(buf);
      && (r.Ok? <==> 6 + 16 * n <= |buf| && forall k :: 0 <= k < n ==> EntryInside(buf, k))
      && (r.Ok? ==>
          && r.value.body == buf
          && Largest(buf, 0, 0, n, 0, r.value.width) && Largest(buf, 1, 0, n, 0, r.value.height))
  {
    hide EntryInside, Largest;
    var n := ReadLe16(buf, 4);
    if 6 + 16 * n <= |buf| { IcoReportsLargest(buf, 0, n, 0, 0); }
  }

  lemma NoEntries(buf: Buffer, n: nat, width: nat, height: nat)
    requires 6 + 16 * n <= |buf|
    ensures Largest(buf, 0, n, n, width, width) && Largest(buf, 1, n, n, height, height)
  {
  }

  // ------------------------------------------------------------ Kinds and limits

  /** The signature bytes of each kind. */
  predicate HasSignature(kind: ImageKind, buf: Buffer) {
    match kind
    case Png => 8 <= |buf| && buf[..8] == [137, 'P' as int, 'N' as int, 'G' as int, 13, 10, 26, 10]
    case Jpeg => 3 <= |buf| && buf[..3] == [0xff, 0xd8, 0xff]
    case Webp => 12 <= |buf| && Spells(buf[..4], "RIFF") && Spells(buf[8..12], "WEBP")
    case Ico => 6 <= |buf| && buf[..4] == [0, 0, 1, 0] && buf[4..6] != [0, 0]
  }

  /** No file has two signatures, and the kind found is the one whose signature it has. */
  lemma SniffsSignature(buf: Buffer, kind: ImageKind)
    ensures Sniff(buf) == Some(kind) <==> HasSignature(kind, buf)
  {
    if 8 <= |buf| {
      assert buf[..8] == PNG_SIGNATURE <==> HasSignature(Png, buf) by { PngBytes(buf); }
    }
    if 12 <= |buf| {
      SpellsBytes(buf[..4], "RIFF", WebpSanitizer.RIFF);
      SpellsBytes(buf[8..12], "WEBP", WebpSanitizer.WEBP);
      assert Ascii4(buf, 0) == Ascii4(buf[..4], 0) && Ascii4(buf, 8) == Ascii4(buf[8..12], 0);
    }
  }

  lemma PngBytes(buf: Buffer)
    requires 8 <= |buf|
    ensures buf[..8] == PNG_SIGNATURE <==> HasSignature(Png, buf)
  {
    var b, h := buf[..8], buf[4..8];
    assert b[0] == buf[0] && b[1] == buf[1] && b[2] == buf[2] && b[3] == buf[3];
    assert h[0] == b[4] && h[1] == b[5] && h[2] == b[6] && h[3] == b[7];
    assert buf[1..4][0] == buf[1] && buf[1..4][1] == buf[2] && buf[1..4][2] == buf[3];
  }

  /**
   A file is accepted iff it is within the byte limit, is of an allowed kind,
   parses as that kind, and both its sides are within the pixel limits; it is
   then handed out as parsed.
   */
  lemma AcceptedExactly(buf: Buffer, o: Options, kind: ImageKind)
    requires HasSignature(kind, buf)
    ensures Sniff(buf) == Some(kind)
    ensures Spec(buf, o).Ok? <==>
      && |buf| <= o.maxBytes && kind in o.allowed && Stripped(kind, buf).Ok?
      && var s := Stripped(kind, buf).value;
        && s.width <= o.maxSide && s.height <= o.maxSide
        && (0 < o.minSide ==> o.minSide <= s.width && o.minSide <= s.height)
    ensures Spec(buf, o).Ok? ==>
      var s := Stripped(kind, buf).value;
      Spec(buf, o).value == Image(kind, s.width, s.height, s.body, |buf| - |s.body|)
  {
    hide Stripped, Sniff, HasSignature;
    SniffsSignature(buf, kind);
  }

  /** Both sides, which are not zero, are within the limits. */
  predicate Within(o: Options, width: nat, height: nat) {
    && 0 < width <= o.maxSide && 0 < height <= o.maxSide
    && (0 < o.minSide ==> o.minSide <= width && o.minSide <= height)
  }

  /** A size with a zero side is refused. */
  function Outcome(body: Buffer, width: nat, height: nat): Result<Sanitized, Refusal> {
    if width == 0 || height == 0 then Err(Rejected) else Ok(Sanitized(body, width, height))
  }

  /** What comes of a PNG file whose strip is known. */
  lemma PngAccepted(buf: Buffer, o: Options, body: Buffer, width: nat, height: nat)
    requires HasSignature(Png, buf) && |buf| <= o.maxBytes && Png in o.allowed
    requires PngSanitizer.Spec(buf) == Outcome(body, width, height)
    ensures Spec(buf, o) == if Within(o, width, height)
      then Ok(Image(Png, width, height, body, |buf| - |body|)) else Err(Rejected)
  {
    hide HasSignature, PngSanitizer.Spec, JpegSanitizer.Spec, WebpSanitizer.Spec;
    SniffsSignature(buf, Png);
    hide Sniff;
  }

  /** What comes of a JPEG file whose strip is known. */
  lemma JpegAccepted(buf: Buffer, o: Options, body: Buffer, width: nat, height: nat)
    requires HasSignature(Jpeg, buf) && |buf| <= o.maxBytes && Jpeg in o.allowed
    requires JpegSanitizer.Spec(buf) == Outcome(body, width, height)
    ensures Spec(buf, o) == if Within(o, width, height)
      then Ok(Image(Jpeg, width, height, body, |buf| - |body|)) else Err(Rejected)
  {
    hide HasSignature, PngSanitizer.Spec, JpegSanitizer.Spec, WebpSanitizer.Spec;
    SniffsSignature(buf, Jpeg);
    hide Sniff;
  }

  /** What comes of a WebP file whose strip is known. */
  lemma WebpAccepted(buf: Buffer, o: Options, body: Buffer, width: nat, height: nat)
    requires HasSignature(Webp, buf) && |buf| <= o.maxBytes && Webp in o.allowed
    requires WebpSanitizer.Spec(buf) == Outcome(body, width, height)
    ensures Spec(buf, o) == if Within(o, width, height)
      then Ok(Image(Webp, width, height, body, |buf| - |body|)) else Err(Rejected)
  {
    hide HasSignature, PngSanitizer.Spec, JpegSanitizer.Spec, WebpSanitizer.Spec;
    SniffsSignature(buf, Webp);
    hide Sniff;
  }

  lemma UnknownRefused(buf: Buffer, o: Options)
    requires forall kind :: !HasSignature(kind, buf)
    ensures Spec(buf, o) == Err(Rejected)
  {
    hide Sniff, HasSignature, Stripped;
    if Sniff(buf).Some? { SniffsSignature(buf, Sniff(buf).value); }
  }

  /** The file settles its own size; each kind says on its pieces what that takes. */
  predicate HeaderIntact(kind: ImageKind, buf: Buffer)
    requires Sniff(buf) == Some(kind)
  {
    match kind
    case Png => PngSanitizer.HeaderIntact(buf)
    case Jpeg => JpegSanitizer.HeaderIntact(buf)
    case Webp => WebpSanitizer.SizeSettled(buf)
    case Ico => true
  }

  /** The output is of the same kind, and stripping it again gives it back exactly when the header is intact. */
  lemma StripsAgain(kind: ImageKind, buf: Buffer)
    requires Sniff(buf) == Some(kind) && Stripped(kind, buf).Ok?
    ensures var s := Stripped(kind, buf).value;
      && |s.body| <= |buf| && Sniff(s.body) == Some(kind)
      && (Stripped(kind, s.body) == Ok(s) <==> HeaderIntact(kind, buf))
  {
    hide PngSanitizer.Spec, JpegSanitizer.Spec, WebpSanitizer.Spec, PngSanitizer.HeaderIntact,
      JpegSanitizer.HeaderIntact;
    hide WebpSanitizer.SizeSettled, WebpSanitizer.HasVp8x, WebpSanitizer.HeadersInside, WebpSanitizer.Sizes, ReadLe32;
    match kind {
      case Png => PngSanitizer.SanitizesAgain(buf);
      case Jpeg => JpegSanitizer.SanitizesAgain(buf);
      case Webp =>
        WebpSanitizer.SanitizesAgain(buf);
        SniffsWebp(WebpSanitizer.Spec(buf).value.body);
      case Ico => IcoReportsLargest(buf, 0, ReadLe16(buf, 4), 0, 0);
    }
  }

  lemma SniffsWebp(body: Buffer)
    requires 12 <= |body| && body[..4] == WebpSanitizer.RIFF && body[8..12] == WebpSanitizer.WEBP
    ensures Sniff(body) == Some(Webp)
  {
    assert body[0] == body[..4][0] && body[1] == body[..4][1] && body[2] == body[..4][2] && body[3] == body[..4][3];
    assert body[8] == body[8..12][0] && body[9] == body[8..12][1] && body[10] == body[8..12][2]
      && body[11] == body[8..12][3];
    assert body[..8][0] != PNG_SIGNATURE[0];
  }

  /**
   Sanitising an accepted image again, with the same options, accepts it
   unchanged and strips nothing, exactly when the header is intact.  The output
   is never longer than the input.
   */
  lemma SanitizesAgain(buf: Buffer, o: Options)
    requires Spec(buf, o).Ok?
    ensures var i := Spec(buf, o).value;
      && 0 <= i.stripped == |buf| - |i.body|
      && Sniff(buf) == Some(i.kind)
      && (Spec(i.body, o) == Ok(i.(stripped := 0)) <==> HeaderIntact(i.kind, buf))
  {
    hide Stripped, HeaderIntact, Sniff;
    StripsAgain(Sniff(buf).value, buf);
  }

  /**
   A file of 300 bytes that any caller who takes PNG images of 256 by 256
   pixels accepts, and whose sanitised form the same caller refuses.
   */
  lemma ShortPngIsRefusedLater(data: Buffer, o: Options)
    requires |data| == 260
    requires Png in o.allowed && 300 <= o.maxBytes && 256 <= o.maxSide && o.minSide <= 256
    ensures var head, end := PngSanitizer.SHORT_HEADER, PngSanitizer.END_CHUNK;
      && Spec(head + PngSanitizer.TextChunk(data) + end, o) == Ok(Image(Png, 256, 256, head + end, 268))
      && Spec(head + end, o) == Err(Rejected)
  {
    hide PngSanitizer.Spec;
    PngSanitizer.ShortHeaderChanges(data);
    StartsLikePng(PngSanitizer.TextChunk(data) + PngSanitizer.END_CHUNK);
    StartsLikePng(PngSanitizer.END_CHUNK);
    assert PngSanitizer.SHORT_HEADER + (PngSanitizer.TextChunk(data) + PngSanitizer.END_CHUNK)
      == PngSanitizer.SHORT_HEADER + PngSanitizer.TextChunk(data) + PngSanitizer.END_CHUNK;
  }

  lemma StartsLikePng(rest: Buffer)
    ensures Sniff(PngSanitizer.SHORT_HEADER + rest) == Some(Png) && |PngSanitizer.SHORT_HEADER| == 20
  {
    assert (PngSanitizer.SHORT_HEADER + rest)[..8] == PNG_SIGNATURE;
  }
}

/**
 The JPEG walk of src/common/utils/image-sanitize.ts: drop application
 segments (all but APP0 and APP14) and comments, keep everything from the
 start of scan on.  Markers: ITU-T T.81, Annex B.
 */
module JpegSanitizer {
  import opened Bytes
  import opened Wrappers
  import opened ImageTypes

  predicate Standalone(marker: int) {
    marker == 0xd8 || 0xd0 <= marker <= 0xd7 || marker == 0x01
  }

  predicate IsFrame(marker: int) {
    0xc0 <= marker <= 0xcf && marker != 0xc4 && marker != 0xc8 && marker != 0xcc
  }

  predicate Dropped(marker: int) {
    (0xe1 <= marker <= 0xef && marker != 0xee) || marker == 0xfe
  }

  /** `header` is the last frame header; `loose` says the last thing kept is a bare marker at the very end. */
  datatype Segments = Segments(kept: Buffer, header: Option<Place>, loose: bool)

  /** The walk from `off` to the start of scan or the end of the file. */
  function Walk(buf: Buffer, off: nat): Result<Segments, Refusal>
    decreases |buf| - off
  {
    if off + 4 > |buf| then Ok(Segments([], None, false))
    else if buf[off] != 0xff then Err(Rejected)
    else if Standalone(buf[off + 1]) then Prepend(buf[off..off + 2], true, false, off, Walk(buf, off + 2))
    else
      var marker, end := buf[off + 1], off + 2 + ReadBe16(buf, off + 2);
      if end < off + 4 || end > |buf| then Err(Rejected)
      else if IsFrame(marker) && off + 9 > |buf| then Err(OutOfRange)
      else if marker == 0xda then Ok(Segments(buf[off..], None, false))
      else Prepend(if Dropped(marker) then [] else buf[off..end], false, IsFrame(marker), off, Walk(buf, end))
  }

  function Prepend(piece: Buffer, bare: bool, frame: bool, off: nat, rest: Result<Segments, Refusal>)
    : Result<Segments, Refusal>
  {
    match rest
    case Err(e) => Err(e)
    case Ok(s) =>
      var header := if s.header.Some? then Some(Place(s.header.value.at, |piece| + s.header.value.kept))
        else if frame then Some(Place(off, 0)) else None;
      Ok(Segments(piece + s.kept, header, s.loose || (bare && s.kept == [])))
  }

  function Height(buf: Buffer, at: nat): nat {
    if at + 9 <= |buf| then ReadBe16(buf, at + 5) else 0
  }

  function Width(buf: Buffer, at: nat): nat {
    if at + 9 <= |buf| then ReadBe16(buf, at + 7) else 0
  }

  function Spec(buf: Buffer): Result<Sanitized, Refusal>
    requires 2 <= |buf|
  {
    match Walk(buf, 2)
    case Err(e) => Err(e)
    case Ok(s) =>
      if s.header.Some? && Width(buf, s.header.value.at) != 0 && Height(buf, s.header.value.at) != 0
      then Ok(Sanitized(buf[..2] + s.kept, Width(buf, s.header.value.at), Height(buf, s.header.value.at)))
      else Err(Rejected)
  }

  /** What the loop still has to do, given what it has kept and read so far. */
  ghost function Finish(buf: Buffer, rest: Result<Segments, Refusal>, out: Buffer, width: nat, height: nat)
    : Result<Sanitized, Refusal>
  {
    match rest
    case Err(e) => Err(e)
    case Ok(s) =>
      var w, h := if s.header.Some? then Width(buf, s.header.value.at) else width,
                  if s.header.Some? then Height(buf, s.header.value.at) else height;
      if w != 0 && h != 0 then Ok(Sanitized(out + s.kept, w, h)) else Err(Rejected)
  }

  lemma FinishPrepend(buf: Buffer, piece: Buffer, bare: bool, frame: bool, off: nat,
                      rest: Result<Segments, Refusal>, out: Buffer, width: nat, height: nat)
    ensures Finish(buf, Prepend(piece, bare, frame, off, rest), out, width, height)
      == Finish(buf, rest, out + piece, if frame then Width(buf, off) else width,
                if frame then Height(buf, off) else height)
  {
    hide Width, Height;
    if rest.Ok? {
      assert out + (piece + rest.value.kept) == out + piece + rest.value.kept;
    }
  }

  const DONE: Result<Segments, Refusal> := Ok(Segments([], None, false))

  /** The checks of one round before anything is kept. */
  lemma RoundRefuses(buf: Buffer, off: nat, out: Buffer, width: nat, height: nat)
    requires off + 4 <= |buf|
    ensures var rest := Finish(buf, Walk(buf, off), out, width, height);
      && (buf[off] != 0xff ==> rest == Err(Rejected))
      && (buf[off] == 0xff && !Standalone(buf[off + 1]) ==>
          var len := ReadBe16(buf, off + 2);
          if len < 2 || off + 2 + len > |buf| then rest == Err(Rejected)
          else IsFrame(buf[off + 1]) && off + 9 > |buf| ==> rest == Err(OutOfRange))
  {
    hide ReadBe16, Prepend, Standalone, IsFrame;
  }

  lemma RoundKeepsBare(buf: Buffer, off: nat, out: Buffer, width: nat, height: nat)
    requires off + 4 <= |buf| && buf[off] == 0xff && Standalone(buf[off + 1])
    ensures Finish(buf, Walk(buf, off), out, width, height)
      == Finish(buf, Walk(buf, off + 2), out + buf[off..off + 2], width, height)
  {
    hide Standalone, Finish, Prepend;
    FinishPrepend(buf, buf[off..off + 2], true, false, off, Walk(buf, off + 2), out, width, height);
  }

  lemma RoundTakesSegment(buf: Buffer, off: nat, end: nat, out: Buffer, width: nat, height: nat)
    requires off + 4 <= end <= |buf| && end == off + 2 + ReadBe16(buf, off + 2)
    requires buf[off] == 0xff && !Standalone(buf[off + 1]) && buf[off + 1] != 0xda
    requires IsFrame(buf[off + 1]) ==> off + 9 <= |buf|
    ensures var frame := IsFrame(buf[off + 1]);
      Finish(buf, Walk(buf, off), out, width, height)
      == Finish(buf, Walk(buf, end), if Dropped(buf[off + 1]) then out else out + buf[off..end],
                if frame then Width(buf, off) else width, if frame then Height(buf, off) else height)
  {
    hide ReadBe16, Standalone, IsFrame, Dropped, Finish, Prepend, Width, Height;
    var piece := if Dropped(buf[off + 1]) then [] else buf[off..end];
    FinishPrepend(buf, piece, false, IsFrame(buf[off + 1]), off, Walk(buf, end), out, width, height);
    assert out + [] == out;
  }

  lemma RoundEndsInScan(buf: Buffer, off: nat, end: nat, out: Buffer, width: nat, height: nat)
    requires off + 4 <= end <= |buf| && end == off + 2 + ReadBe16(buf, off + 2)
    requires buf[off] == 0xff && buf[off + 1] == 0xda
    ensures !Standalone(0xda) && !IsFrame(0xda) && !Dropped(0xda)
    ensures Finish(buf, Walk(buf, off), out, width, height)
      == Finish(buf, DONE, out + buf[off..end] + buf[end..], width, height)
  {
    hide ReadBe16, Prepend;
    assert out + buf[off..end] + buf[end..] == out + buf[off..] == out + buf[off..end] + buf[end..] + [];
  }

  lemma RoundsAreOver(buf: Buffer, off: nat, out: Buffer, width: nat, height: nat)
    ensures off + 4 > |buf| ==> Walk(buf, off) == DONE
    ensures Finish(buf, DONE, out, width, height)
      == if width != 0 && height != 0 then Ok(Sanitized(out, width, height)) else Err(Rejected)
  {
    hide ReadBe16;
    assert out + [] == out;
  }

  lemma SpecIsFinish(buf: Buffer)
    requires 2 <= |buf|
    ensures Spec(buf) == Finish(buf, Walk(buf, 2), buf[..2], 0, 0)
  {
    hide Walk, Width, Height;
  }

  method Sanitize(buf: Buffer) returns (r: Result<Sanitized, Refusal>)
    requires 2 <= |buf|
    ensures r == Spec(buf)
  {
    hide ReadBe16, Walk, Finish, Spec, Standalone, IsFrame, Dropped;
    var out := buf[..2];
    var off, width, height, scan := 2, 0, 0, false;
    SpecIsFinish(buf);
    while off + 4 <= |buf| && !scan
      invariant 2 <= off
      invariant Finish(buf, if scan then DONE else Walk(buf, off), out, width, height) == Spec(buf)
      decreases |buf| - off, !scan
    {
      RoundRefuses(buf, off, out, width, height);
      if buf[off] != 0xff { return Err(Rejected); }
      var marker := buf[off + 1];
      if Standalone(marker) {
        RoundKeepsBare(buf, off, out, width, height);
        out := out + buf[off..off + 2];
        off := off + 2;
        continue;
      }
      var len := ReadBe16(buf, off + 2);
      var end := off + 2 + len;
      if len < 2 || end > |buf| { return Err(Rejected); }
      if IsFrame(marker) && off + 9 > |buf| {
        return Err(OutOfRange);
      }
      if marker != 0xda {
        RoundTakesSegment(buf, off, end, out, width, height);
      } else {
        RoundEndsInScan(buf, off, end, out, width, height);
      }
      if IsFrame(marker) {
        height := ReadBe16(buf, off + 5);
        width := ReadBe16(buf, off + 7);
      }
      if !Dropped(marker) { out := out + buf[off..end]; }
      if marker == 0xda {
        out := out + buf[end..];
        scan := true;
      }
      off := end;
    }
    RoundsAreOver(buf, off, out, width, height);
    if width == 0 || height == 0 { return Err(Rejected); }
    return Ok(Sanitized(out, width, height));
  }

  // ------------------------------------------------------ What the walk keeps

  /** One piece of the file before the scan, as the format defines it. */
  ghost predicate IsPiece(p: Buffer) {
    2 <= |p| && p[0] == 0xff && if Standalone(p[1]) then |p| == 2 else 4 <= |p| && |p| == 2 + ReadBe16(p, 2)
  }

  function Kept(pieces: seq<Buffer>): seq<Buffer> {
    if pieces == [] then []
    else if 2 <= |pieces[0]| && Dropped(pieces[0][1]) then Kept(pieces[1..])
    else [pieces[0]] + Kept(pieces[1..])
  }

  lemma SameFields(a: Buffer, at: nat, b: Buffer, from: nat, n: nat)
    requires at + n <= |a| && from + n <= |b| && a[at..at + n] == b[from..from + n]
    ensures 2 <= n ==> a[at] == b[from] && a[at + 1] == b[from + 1]
    ensures 4 <= n ==> ReadBe16(a, at + 2) == ReadBe16(b, from + 2)
    ensures 9 <= n ==> Width(a, at) == Width(b, from) && Height(a, at) == Height(b, from)
  {
    forall k | at <= k < at + n ensures a[k] == b[from + (k - at)] {
      assert a[at..at + n][k - at] == b[from..from + n][k - at];
    }
  }

  /** Whether a piece lies at `off`: the walk neither ends nor reaches the scan there, and it fits into the file. */
  predicate PieceAt(buf: Buffer, off: nat) {
    && off + 4 <= |buf|
    && (Standalone(buf[off + 1]) || (buf[off + 1] != 0xda && 2 <= ReadBe16(buf, off + 2) <= |buf| - off - 2))
  }

  function PieceEnd(buf: Buffer, off: nat): (end: nat)
    requires PieceAt(buf, off)
    ensures off < end <= |buf|
  {
    if Standalone(buf[off + 1]) then off + 2 else off + 2 + ReadBe16(buf, off + 2)
  }

  /** The bare markers and segments of a file from `off` to its scan. */
  function Pieces(buf: Buffer, off: nat): seq<Buffer>
    decreases |buf| - off
  {
    if !PieceAt(buf, off) then [] else [buf[off..PieceEnd(buf, off)]] + Pieces(buf, PieceEnd(buf, off))
  }

  /** What stands behind them: the scan and all that follows, or at most three stray bytes. */
  function Behind(buf: Buffer, off: nat): Buffer
    decreases |buf| - off
  {
    if PieceAt(buf, off) then Behind(buf, PieceEnd(buf, off)) else if off <= |buf| then buf[off..] else []
  }

  /** Only a scan is kept; stray bytes are lost. */
  function KeptBehind(behind: Buffer): Buffer {
    if 4 <= |behind| then behind else []
  }

  /** One round of the walk over a file that it accepts, and the piece it is about. */
  lemma OnePiece(buf: Buffer, off: nat)
    requires Walk(buf, off).Ok? && PieceAt(buf, off)
    ensures var end := PieceEnd(buf, off);
      var piece := buf[off..end];
      && IsPiece(piece) && 2 <= |piece| && piece[1] == buf[off + 1] && Walk(buf, end).Ok?
      && Walk(buf, off) == Prepend(if Dropped(piece[1]) then [] else piece, Standalone(piece[1]), IsFrame(piece[1]),
                                   off, Walk(buf, end))
      && Pieces(buf, off) == [piece] + Pieces(buf, end) && Behind(buf, off) == Behind(buf, end)
  {
    hide ReadBe16, Standalone, IsFrame, Dropped;
    BareIsPlain(buf[off + 1]);
    SameFields(buf[off..PieceEnd(buf, off)], 0, buf, off, PieceEnd(buf, off) - off);
  }

  lemma BareIsPlain(marker: int)
    ensures Standalone(marker) ==> !Dropped(marker) && !IsFrame(marker)
  {
  }

  lemma NoPiece(buf: Buffer, off: nat)
    requires Walk(buf, off).Ok? && off <= |buf| && !PieceAt(buf, off)
    ensures Pieces(buf, off) == [] && Behind(buf, off) == buf[off..]
    ensures Walk(buf, off) == Ok(Segments(KeptBehind(buf[off..]), None, false))
    ensures 4 <= |buf[off..]| ==> buf[off + 1] == 0xda
  {
    hide ReadBe16, Standalone, IsFrame, Dropped, Prepend;
  }

  /**
   The file is its pieces, then either the scan or at most three stray bytes.
   The output is the pieces that are kept, in order, then the scan unchanged.
   */
  lemma {:induction false} KeepsSegmentsInOrder(buf: Buffer, off: nat)
    requires Walk(buf, off).Ok? && off <= |buf|
    ensures var pieces, behind := Pieces(buf, off), Behind(buf, off);
      && (forall p :: p in pieces ==> IsPiece(p))
      && Concat(pieces) + behind == buf[off..]
      && (4 <= |behind| ==> behind[1] == 0xda)
      && Walk(buf, off).value.kept == Concat(Kept(pieces)) + KeptBehind(behind)
    decreases |buf| - off
  {
    hide ReadBe16, Dropped, Standalone, IsFrame, Concat, Kept, IsPiece, Prepend, Walk, Pieces, Behind, PieceAt,
      PieceEnd;
    NoPieces();
    if PieceAt(buf, off) {
      var end := PieceEnd(buf, off);
      OnePiece(buf, off);
      KeepsSegmentsInOrder(buf, end);
      PieceInFront(buf[off..end], Pieces(buf, end), Behind(buf, end));
      PrependKept(buf, off);
      assert buf[off..] == buf[off..end] + buf[end..];
    } else {
      NoPiece(buf, off);
      assert [] + buf[off..] == buf[off..] && [] + KeptBehind(buf[off..]) == KeptBehind(buf[off..]);
    }
  }

  lemma NoPieces()
    ensures Concat([]) == [] && Kept([]) == []
  {
  }

  lemma PrependKept(buf: Buffer, off: nat)
    requires Walk(buf, off).Ok? && PieceAt(buf, off)
    ensures Walk(buf, PieceEnd(buf, off)).Ok?
    ensures Walk(buf, off).value.kept
      == (if Dropped(buf[off + 1]) then [] else buf[off..PieceEnd(buf, off)]) + Walk(buf, PieceEnd(buf, off)).value.kept
  {
    hide Walk, Pieces, Behind, PieceAt, PieceEnd, Dropped;
    OnePiece(buf, off);
  }

  lemma PieceInFront(piece: Buffer, rest: seq<Buffer>, behind: Buffer)
    requires 2 <= |piece|
    ensures Concat([piece] + rest) + behind == piece + (Concat(rest) + behind)
    ensures Concat(Kept([piece] + rest)) + KeptBehind(behind)
      == (if Dropped(piece[1]) then [] else piece) + (Concat(Kept(rest)) + KeptBehind(behind))
  {
    hide Dropped, KeptBehind;
    var kept := Kept(rest);
    assert ([piece] + rest)[1..] == rest && ([piece] + kept)[1..] == kept;
    assert [] + (Concat(kept) + KeptBehind(behind)) == Concat(kept) + KeptBehind(behind);
  }

  // -------------------------------------------------------------- Stability

  /** Nothing is left hanging: no bare marker at the very end, and the last frame header has its nine bytes. */
  predicate Closed(s: Segments) {
    !s.loose && (s.header.Some? ==> s.header.value.kept + 9 <= |s.kept|)
  }

  lemma {:induction false} WalkBounds(buf: Buffer, off: nat)
    requires Walk(buf, off).Ok?
    ensures var s := Walk(buf, off).value;
      && (s.kept == [] || 2 <= |s.kept|)
      && (s.kept != [] ==> s.kept[0] == 0xff)
      && (off <= |buf| ==> |s.kept| <= |buf| - off)
      && (s.header.Some? ==> s.header.value.at + 9 <= |buf| && s.header.value.kept + 4 <= |s.kept|)
      && (s.loose ==> 2 <= |s.kept|)
    decreases |buf| - off
  {
    hide ReadBe16;
    if off + 4 <= |buf| {
      if Standalone(buf[off + 1]) {
        WalkBounds(buf, off + 2);
      } else if buf[off + 1] != 0xda {
        WalkBounds(buf, off + 2 + ReadBe16(buf, off + 2));
      }
    }
  }

  lemma ReadsPieceAgain(pre: Buffer, piece: Buffer, rest: Buffer, buf: Buffer, off: nat)
    requires 2 <= |piece| && off + |piece| <= |buf| && piece == buf[off..off + |piece|]
    ensures var body := pre + (piece + rest);
      && body == pre + piece + rest
      && body[|pre|..|pre| + |piece|] == piece
      && body[|pre|] == buf[off] && body[|pre| + 1] == buf[off + 1]
      && (4 <= |piece| ==> ReadBe16(body, |pre| + 2) == ReadBe16(buf, off + 2))
  {
    hide ReadBe16;
    PieceInPlace(pre, piece, rest);
    SameFields(pre + (piece + rest), |pre|, buf, off, |piece|);
  }

  ghost function Moved(pre: Buffer, s: Segments): Segments {
    var again := if s.header.Some? then Some(Place(|pre| + s.header.value.kept, s.header.value.kept)) else None;
    Segments(s.kept, again, false)
  }

  /** What a second walk over the output gives, behind any prefix. */
  ghost predicate Settles(pre: Buffer, s: Segments) {
    var again := Walk(pre + s.kept, |pre|);
    if Closed(s) then again == Ok(Moved(pre, s)) else again.Err? || |again.value.kept| < |s.kept|
  }

  lemma {:induction false} WalksAgain(pre: Buffer, buf: Buffer, off: nat)
    requires Walk(buf, off).Ok?
    ensures Settles(pre, Walk(buf, off).value)
    decreases |buf| - off
  {
    hide ReadBe16, Standalone, IsFrame, Dropped, Prepend, Walk, Settles;
    if off + 4 > |buf| {
      NothingLeft(pre, buf, off);
    } else {
      var s := Walk(buf, off).value;
      if Standalone(buf[off + 1]) {
        WalkSteps(buf, off);
        WalksAgain(pre + buf[off..off + 2], buf, off + 2);
        BareMarkerAgain(pre, buf, off);
      } else if buf[off + 1] == 0xda {
        ScanAgain(pre, buf, off);
      } else {
        WalkSteps(buf, off);
        var end := off + 2 + ReadBe16(buf, off + 2);
        if Dropped(buf[off + 1]) {
          WalksAgain(pre, buf, end);
          DroppedAgain(pre, buf, off);
        } else {
          WalksAgain(pre + buf[off..end], buf, end);
          SegmentAgain(pre, buf, off);
        }
      }
    }
  }

  lemma WalkSteps(buf: Buffer, off: nat)
    requires Walk(buf, off).Ok? && off + 4 <= |buf|
    requires Standalone(buf[off + 1]) || buf[off + 1] != 0xda
    ensures if Standalone(buf[off + 1]) then Walk(buf, off + 2).Ok?
      else Walk(buf, off + 2 + ReadBe16(buf, off + 2)).Ok? && 2 <= ReadBe16(buf, off + 2)
    ensures !Standalone(buf[off + 1]) ==> off + 2 + ReadBe16(buf, off + 2) <= |buf|
  {
    hide ReadBe16, Standalone, IsFrame, Dropped;
  }

  lemma NothingLeft(pre: Buffer, buf: Buffer, off: nat)
    requires off + 4 > |buf|
    ensures Walk(buf, off).Ok? && Settles(pre, Walk(buf, off).value)
  {
  }

  lemma ScanAgain(pre: Buffer, buf: Buffer, off: nat)
    requires Walk(buf, off).Ok? && off + 4 <= |buf| && !Standalone(buf[off + 1]) && buf[off + 1] == 0xda
    ensures Settles(pre, Walk(buf, off).value)
  {
    hide ReadBe16, Dropped, Prepend;
    var scan := buf[off..];
    assert scan + [] == scan;
    ReadsPieceAgain(pre, scan, [], buf, off);
    assert (pre + scan)[|pre|..] == scan;
  }

  lemma BareMarkerAgain(pre: Buffer, buf: Buffer, off: nat)
    requires Walk(buf, off).Ok? && off + 4 <= |buf| && Standalone(buf[off + 1])
    requires Walk(buf, off + 2).Ok? && Settles(pre + buf[off..off + 2], Walk(buf, off + 2).value)
    ensures Settles(pre, Walk(buf, off).value)
  {
    hide ReadBe16, Standalone, IsFrame, Dropped;
    var rest := Walk(buf, off + 2).value;
    WalkBounds(buf, off + 2);
    ReadsPieceAgain(pre, buf[off..off + 2], rest.kept, buf, off);
  }

  lemma DroppedAgain(pre: Buffer, buf: Buffer, off: nat)
    requires Walk(buf, off).Ok? && off + 4 <= |buf| && !Standalone(buf[off + 1]) && Dropped(buf[off + 1])
    requires var end := off + 2 + ReadBe16(buf, off + 2);
      Walk(buf, end).Ok? && Settles(pre, Walk(buf, end).value)
    ensures Settles(pre, Walk(buf, off).value)
  {
    hide ReadBe16;
    assert [] + Walk(buf, off + 2 + ReadBe16(buf, off + 2)).value.kept
      == Walk(buf, off + 2 + ReadBe16(buf, off + 2)).value.kept;
    assert Walk(buf, off) == Walk(buf, off + 2 + ReadBe16(buf, off + 2));
  }

  lemma SegmentAgain(pre: Buffer, buf: Buffer, off: nat)
    requires Walk(buf, off).Ok? && off + 4 <= |buf|
    requires !Standalone(buf[off + 1]) && !Dropped(buf[off + 1]) && buf[off + 1] != 0xda
    requires var end := off + 2 + ReadBe16(buf, off + 2);
      off + 4 <= end <= |buf| && Walk(buf, end).Ok? && Settles(pre + buf[off..end], Walk(buf, end).value)
    ensures Settles(pre, Walk(buf, off).value)
  {
    hide ReadBe16, Standalone, IsFrame, Dropped, Walk;
    var end := off + 2 + ReadBe16(buf, off + 2);
    var piece, rest := buf[off..end], Walk(buf, end).value;
    WalkBounds(buf, end);
    ReadsPieceAgain(pre, piece, rest.kept, buf, off);
    SegmentStep(buf, off);
    if |pre + (piece + rest.kept)| >= |pre| + 9 || !IsFrame(buf[off + 1]) {
      SegmentStepBack(pre + (piece + rest.kept), |pre|);
    } else {
      FrameCutShort(pre + (piece + rest.kept), |pre|);
    }
  }

  lemma FrameCutShort(buf: Buffer, off: nat)
    requires off + 4 <= |buf| < off + 9 && IsFrame(buf[off + 1]) && !Standalone(buf[off + 1])
    ensures Walk(buf, off).Err?
  {
    hide ReadBe16, Standalone, IsFrame, Dropped;
  }

  lemma SegmentStep(buf: Buffer, off: nat)
    requires Walk(buf, off).Ok? && off + 4 <= |buf|
    requires !Standalone(buf[off + 1]) && !Dropped(buf[off + 1]) && buf[off + 1] != 0xda
    ensures var end := off + 2 + ReadBe16(buf, off + 2);
      off + 4 <= end <= |buf| && buf[off] == 0xff
        && Walk(buf, off) == Prepend(buf[off..end], false, IsFrame(buf[off + 1]), off, Walk(buf, end))
  {
    hide ReadBe16, Standalone, IsFrame, Dropped, Prepend;
  }

  lemma SegmentStepBack(buf: Buffer, off: nat)
    requires off + 4 <= |buf| && buf[off] == 0xff
    requires !Standalone(buf[off + 1]) && !Dropped(buf[off + 1]) && buf[off + 1] != 0xda
    requires off + 4 <= off + 2 + ReadBe16(buf, off + 2) <= |buf| && (IsFrame(buf[off + 1]) ==> off + 9 <= |buf|)
    ensures var end := off + 2 + ReadBe16(buf, off + 2);
      Walk(buf, off) == Prepend(buf[off..end], false, IsFrame(buf[off + 1]), off, Walk(buf, end))
  {
    hide ReadBe16, Standalone, IsFrame, Dropped, Prepend;
  }

  /** The pieces from the last frame header on; none without one. */
  function FromLastFrame(pieces: seq<Buffer>): seq<Buffer> {
    if pieces == [] then []
    else
      var later := FromLastFrame(pieces[1..]);
      if later != [] then later else if 4 <= |pieces[0]| && IsFrame(pieces[0][1]) then pieces else []
  }

  /** Some bare marker has nothing but metadata behind it. */
  predicate EndsBare(pieces: seq<Buffer>) {
    && pieces != []
    && (EndsBare(pieces[1..]) || (2 <= |pieces[0]| && Standalone(pieces[0][1]) && Kept(pieces[1..]) == []))
  }

  /**
   Whether the input settles its own size: it has a scan, or something kept
   behind its last bare marker; and its last frame segment has length at least
   seven, or the size bytes it lacks are the same in what stands behind it in
   the file and in what is kept of that.  (One of length two also lacks the
   byte in front of them, which is not read.)
   */
  predicate HeaderIntact(buf: Buffer) {
    var pieces, behind := Pieces(buf, 2), Behind(buf, 2);
    var frames := FromLastFrame(pieces);
    && (EndsBare(pieces) ==> 4 <= |behind|)
    && (frames == [] || |frames[0]| < 4 || 7 <= ReadBe16(frames[0], 2)
        || var lacks := 7 - ReadBe16(frames[0], 2);
           var skips := if lacks == 5 then 1 else 0;
           Subarray(Concat(frames[1..]) + behind, skips, lacks)
           == Subarray(Concat(Kept(frames[1..])) + KeptBehind(behind), skips, lacks))
  }

  lemma SizeBytes(a: Buffer, i: nat, b: Buffer, j: nat)
    requires i + 9 <= |a| && j + 9 <= |b|
    ensures a[i + 5..i + 9] == b[j + 5..j + 9] <==> Width(a, i) == Width(b, j) && Height(a, i) == Height(b, j)
  {
    if Width(a, i) == Width(b, j) && Height(a, i) == Height(b, j) {
      SameDigits(0, 0, a[i + 5], a[i + 6], 0, 0, b[j + 5], b[j + 6]);
      SameDigits(0, 0, a[i + 7], a[i + 8], 0, 0, b[j + 7], b[j + 8]);
    }
    if a[i + 5..i + 9] == b[j + 5..j + 9] {
      assert a[i + 5] == a[i + 5..i + 9][0] && a[i + 6] == a[i + 5..i + 9][1] && a[i + 7] == a[i + 5..i + 9][2]
        && a[i + 8] == a[i + 5..i + 9][3];
    }
  }

  /** The walk finds a hanging marker where the pieces end in one and no scan follows. */
  lemma {:induction false} BareFollowed(buf: Buffer, off: nat)
    requires Walk(buf, off).Ok? && off <= |buf|
    ensures Walk(buf, off).value.loose <==> EndsBare(Pieces(buf, off)) && |Behind(buf, off)| < 4
    decreases |buf| - off
  {
    hide ReadBe16, Dropped, Standalone, IsFrame, Concat, Kept, IsPiece, Walk, Pieces, Behind, PieceAt, PieceEnd;
    hide EndsBare, KeptBehind;
    if PieceAt(buf, off) {
      var end := PieceEnd(buf, off);
      OnePiece(buf, off);
      BareFollowed(buf, end);
      KeepsSegmentsInOrder(buf, end);
      FrameInFront(buf[off..end], Pieces(buf, end));
      KeptIsNothing(Pieces(buf, end), Behind(buf, end));
    } else {
      NoPiece(buf, off);
      NoFrames();
    }
  }

  /** What `p`, the walk's last frame header, is followed by in the file and in what is kept. */
  ghost predicate Followed(buf: Buffer, p: Place, kept: Buffer, frames: seq<Buffer>, behind: Buffer) {
    && frames != [] && IsPiece(frames[0]) && 4 <= |frames[0]| && IsFrame(frames[0][1])
    && p.at <= |buf| && buf[p.at..] == Concat(frames) + behind
    && p.kept <= |kept| && kept[p.kept..] == Concat(Kept(frames)) + KeptBehind(behind)
  }

  /** The walk's account of the last frame header, in terms of the pieces. */
  lemma {:induction false} FrameFollowed(buf: Buffer, off: nat)
    requires Walk(buf, off).Ok? && off <= |buf|
    ensures var s, frames := Walk(buf, off).value, FromLastFrame(Pieces(buf, off));
      && (s.header.Some? <==> frames != [])
      && (s.header.Some? ==> Followed(buf, s.header.value, s.kept, frames, Behind(buf, off)))
    decreases |buf| - off
  {
    hide ReadBe16, Dropped, Standalone, IsFrame, Concat, Kept, IsPiece, Prepend, Walk, Pieces, Behind, PieceAt,
      PieceEnd;
    hide FromLastFrame, EndsBare, Followed;
    KeepsSegmentsInOrder(buf, off);
    if PieceAt(buf, off) {
      var end := PieceEnd(buf, off);
      var piece := buf[off..end];
      OnePiece(buf, off);
      FrameFollowed(buf, end);
      WalkBounds(buf, end);
      FramesAreKept(piece[1]);
      FrameInFront(piece, Pieces(buf, end));
      var kept := if Dropped(piece[1]) then [] else piece;
      var r := Walk(buf, end).value;
      PrependKeeps(kept, Standalone(piece[1]), IsFrame(piece[1]), off, r);
      if IsFrame(piece[1]) { FrameIsLong(piece); }
      if r.header.Some? {
        FollowedFurther(buf, r.header.value, kept, r.kept, FromLastFrame(Pieces(buf, end)), Behind(buf, end));
      } else if IsFrame(piece[1]) {
        FollowedHere(buf, off, Walk(buf, off).value.kept, Pieces(buf, off), Behind(buf, off));
      }
    } else {
      NoPiece(buf, off);
      NoFrames();
    }
  }

  lemma FollowedFurther(buf: Buffer, p: Place, piece: Buffer, kept: Buffer, frames: seq<Buffer>, behind: Buffer)
    requires Followed(buf, p, kept, frames, behind)
    ensures Followed(buf, Place(p.at, |piece| + p.kept), piece + kept, frames, behind)
  {
    hide IsPiece, IsFrame, Concat, Kept, KeptBehind;
    assert (piece + kept)[|piece| + p.kept..] == kept[p.kept..];
  }

  lemma FollowedHere(buf: Buffer, off: nat, kept: Buffer, frames: seq<Buffer>, behind: Buffer)
    requires off <= |buf| && buf[off..] == Concat(frames) + behind && kept == Concat(Kept(frames)) + KeptBehind(behind)
    requires frames != [] && IsPiece(frames[0]) && 4 <= |frames[0]| && IsFrame(frames[0][1])
    ensures Followed(buf, Place(off, 0), kept, frames, behind)
  {
    assert kept[0..] == kept;
  }

  lemma NoFrames()
    ensures FromLastFrame([]) == [] && !EndsBare([])
  {
  }

  lemma FrameIsLong(piece: Buffer)
    requires IsPiece(piece) && IsFrame(piece[1])
    ensures 4 <= |piece|
  {
    hide ReadBe16;
  }

  lemma FrameInFront(piece: Buffer, rest: seq<Buffer>)
    requires 2 <= |piece|
    ensures FromLastFrame([piece] + rest) == if FromLastFrame(rest) != [] then FromLastFrame(rest)
      else if 4 <= |piece| && IsFrame(piece[1]) then [piece] + rest else []
    ensures EndsBare([piece] + rest) <==> EndsBare(rest) || (Standalone(piece[1]) && Kept(rest) == [])
  {
    hide IsFrame, Standalone;
    assert ([piece] + rest)[1..] == rest;
  }

  lemma {:induction false} KeptIsNothing(pieces: seq<Buffer>, behind: Buffer)
    requires forall p :: p in pieces ==> IsPiece(p)
    ensures Concat(Kept(pieces)) + KeptBehind(behind) == [] <==> Kept(pieces) == [] && |behind| < 4
    ensures EndsBare(pieces) ==> Kept(pieces) != []
  {
    hide Dropped, Standalone, ReadBe16;
    if pieces != [] {
      assert pieces[0] in pieces;
      forall p | p in pieces[1..] ensures IsPiece(p) {
        assert p in pieces;
      }
      KeptIsNothing(pieces[1..], behind);
      BareIsPlain(pieces[0][1]);
    }
  }

  /** Four bytes from the sixth on agree iff what they lack of the common piece does. */
  lemma BorrowedBytes(f: Buffer, a: Buffer, b: Buffer, skips: nat)
    requires 4 <= |f| && 9 <= |f + a| && skips == if |f| == 4 then 1 else 0
    ensures 9 <= |f| || Subarray(a, skips, 9 - |f|) == Subarray(b, skips, 9 - |f|)
      <==> 9 <= |f + b| && (f + a)[5..9] == (f + b)[5..9]
  {
    var n, x, y := |f|, f + a, f + b;
    if n < 9 {
      assert Subarray(a, skips, 9 - n) == a[skips..9 - n];
      if 9 <= |y| {
        assert Subarray(b, skips, 9 - n) == b[skips..9 - n];
        BorrowedTail(f, a, b, skips);
      }
    } else {
      assert x[5..9] == f[5..9] == y[5..9];
    }
  }

  lemma BorrowedTail(f: Buffer, a: Buffer, b: Buffer, skips: nat)
    requires 4 <= |f| < 9 && 9 <= |f + a| && 9 <= |f + b| && skips == if |f| == 4 then 1 else 0
    ensures a[skips..9 - |f|] == b[skips..9 - |f|] <==> (f + a)[5..9] == (f + b)[5..9]
  {
    var n, x, y := |f|, f + a, f + b;
    if 5 <= n {
      assert x[5..9] == f[5..] + a[..9 - n] && y[5..9] == f[5..] + b[..9 - n];
      assert x[5..9][n - 5..] == a[..9 - n] && y[5..9][n - 5..] == b[..9 - n];
      assert a[0..9 - n] == a[..9 - n] && b[0..9 - n] == b[..9 - n];
    } else {
      assert x[5..9] == a[1..5] && y[5..9] == b[1..5];
    }
  }

  /** The input's own pieces decide whether the output is closed and its size bytes are followed alike. */
  lemma HeaderIntactInBody(buf: Buffer)
    requires 2 <= |buf| && Spec(buf).Ok?
    ensures var s, p := Walk(buf, 2).value, Walk(buf, 2).value.header.value;
      && p.at + 9 <= |buf|
      && (HeaderIntact(buf) <==> Closed(s) && buf[p.at + 5..p.at + 9] == s.kept[p.kept + 5..p.kept + 9])
  {
    hide Walk, Width, Height, ReadBe16, Pieces, Behind, FromLastFrame, EndsBare, Concat, Kept, KeptBehind, Subarray;
    hide Standalone, Dropped, IsFrame, IsPiece;
    var s, pieces, behind := Walk(buf, 2).value, Pieces(buf, 2), Behind(buf, 2);
    var p, frames := s.header.value, FromLastFrame(pieces);
    WalkBounds(buf, 2);
    BareFollowed(buf, 2);
    FrameFollowed(buf, 2);
    var f, rest := frames[0], frames[1..];
    assert frames == [f] + rest;
    FramesAreKept(f[1]);
    PieceInFront(f, rest, behind);
    var a, b := Concat(rest) + behind, Concat(Kept(rest)) + KeptBehind(behind);
    var x, y := buf[p.at..], s.kept[p.kept..];
    assert x == f + a && y == f + b;
    FrameLength(f);
    BorrowedBytes(f, a, b, if |f| == 4 then 1 else 0);
    assert x[5..9] == buf[p.at + 5..p.at + 9];
    if 9 <= |y| { assert y[5..9] == s.kept[p.kept + 5..p.kept + 9]; }
  }

  lemma FrameLength(f: Buffer)
    requires IsPiece(f) && IsFrame(f[1])
    ensures |f| == 2 + ReadBe16(f, 2)
  {
    hide ReadBe16;
  }

  /** Sanitising an accepted JPEG again changes nothing, exactly when its header is intact and nothing hangs. */
  lemma SanitizesAgain(buf: Buffer)
    requires 2 <= |buf| && Spec(buf).Ok?
    ensures var r := Spec(buf).value;
      3 <= |r.body| <= |buf| && r.body[..2] == buf[..2] && r.body[2] == 0xff
        && (Spec(r.body) == Ok(r) <==> HeaderIntact(buf))
  {
    hide Walk, Width, Height, Subarray;
    var s, body := Walk(buf, 2).value, Spec(buf).value.body;
    WalkBounds(buf, 2);
    WalksAgain(buf[..2], buf, 2);
    assert body[..2] == buf[..2];
    HeaderIntactInBody(buf);
    if Closed(s) {
      var k := s.header.value.kept;
      assert body[2 + k + 5..2 + k + 9] == s.kept[k + 5..k + 9];
      SizeBytes(buf, s.header.value.at, body, 2 + k);
    }
  }

  lemma FramesAreKept(marker: int)
    ensures IsFrame(marker) ==> !Dropped(marker)
  {
  }

  lemma PrependKeeps(piece: Buffer, bare: bool, frame: bool, off: nat, r: Segments)
    requires r.header.Some? ==> r.header.value.kept + 4 <= |r.kept|
    ensures Prepend(piece, bare, frame, off, Ok(r)).Ok?
    ensures var s := Prepend(piece, bare, frame, off, Ok(r)).value;
      && (!r.loose && r.kept != [] ==> !s.loose && s.kept != [])
      && (r.header.Some? ==> (
          && s.header.Some? && s.header.value.at == r.header.value.at
          && Subarray(s.kept, s.header.value.kept, |s.kept|) == Subarray(r.kept, r.header.value.kept, |r.kept|)))
      && (r.header == None && s.header.Some? ==>
          frame && s.header.value == Place(off, 0) && piece <= s.kept && Subarray(s.kept, 0, |s.kept|) == s.kept)
      && (s.header.Some? <==> r.header.Some? || frame)
      && (s.loose <==> r.loose || (bare && r.kept == []))
      && s.kept == piece + r.kept
  {
    var s := Prepend(piece, bare, frame, off, Ok(r)).value;
    assert s.kept == piece + r.kept;
    if r.header.Some? {
      var k := r.header.value.kept;
      assert s.kept[|piece| + k..] == r.kept[k..];
    }
  }

  /** In particular a file that reaches its scan, with a last frame segment of length seven or more. */
  lemma LongHeadersAreIntact(buf: Buffer)
    requires 2 <= |buf| && Spec(buf).Ok? && 4 <= |Behind(buf, 2)|
    requires var at := Walk(buf, 2).value.header.value.at; at + 4 <= |buf| && ReadBe16(buf, at + 2) >= 7
    ensures HeaderIntact(buf)
  {
    hide Walk, ReadBe16, Pieces, Behind, FromLastFrame, EndsBare, Concat, Kept, KeptBehind, Subarray;
    var p, frames := Walk(buf, 2).value.header.value, FromLastFrame(Pieces(buf, 2));
    FrameFollowed(buf, 2);
    var f, rest := frames[0], frames[1..];
    assert frames == [f] + rest;
    PieceInFront(f, rest, Behind(buf, 2));
    var more := Concat(rest) + Behind(buf, 2);
    assert buf[p.at..] == f + more;
    assert f == (f + more)[..|f|] == buf[p.at..][..|f|] == buf[p.at..p.at + |f|];
    SameFields(f, 0, buf, p.at, |f|);
  }

  /** A file without a scan that ends in a bare marker and two stray bytes loses the marker the second time. */
  lemma HangingMarkerIsLost()
    ensures var buf: Buffer := [0xff, 0xd8, 0xff, 0xc0, 0, 7, 8, 0, 1, 0, 1, 0xff, 0xd0, 0, 0];
      Spec(buf) == Ok(Sanitized(buf[..13], 1, 1)) && Spec(buf[..13]) == Ok(Sanitized(buf[..11], 1, 1))
  {
    hide Spec;
    var buf: Buffer := [0xff, 0xd8, 0xff, 0xc0, 0, 7, 8, 0, 1, 0, 1, 0xff, 0xd0, 0, 0];
    HangingExample(buf);
    HangingExample(buf[..13]);
    assert buf[..13][..11] == buf[..11];
  }

  lemma HangingExample(buf: Buffer)
    requires |buf| == 13 || |buf| == 15
    requires buf[2] == 0xff && buf[3] == 0xc0 && buf[4] == 0 && buf[5] == 7 && buf[7] == 0 && buf[8] == 1
      && buf[9] == 0 && buf[10] == 1
    requires buf[11] == 0xff && buf[12] == 0xd0
    ensures Spec(buf) == Ok(Sanitized(buf[..|buf| - 2], 1, 1))
  {
    hide Walk, ReadBe16;
    FrameRead(buf);
    HangingTail(buf);
    HangingFrame(buf);
    assert buf[..2] + buf[2..|buf| - 2] == buf[..|buf| - 2];
  }

  lemma FrameRead(buf: Buffer)
    requires 11 <= |buf| && buf[4] == 0 && buf[5] == 7 && buf[7] == 0 && buf[8] == 1 && buf[9] == 0 && buf[10] == 1
    ensures ReadBe16(buf, 4) == 7 && Height(buf, 2) == 1 && Width(buf, 2) == 1
  {
  }

  lemma HangingTail(buf: Buffer)
    requires |buf| == 13 || |buf| == 15
    requires buf[11] == 0xff && buf[12] == 0xd0
    ensures Walk(buf, 11) == Ok(Segments(buf[11..|buf| - 2], None, |buf| == 15))
  {
    if |buf| == 15 {
      assert Walk(buf, 13) == Ok(Segments([], None, false));
      assert buf[11..13] + [] == buf[11..13];
    } else {
      assert buf[11..|buf| - 2] == [];
    }
  }

  lemma HangingFrame(buf: Buffer)
    requires |buf| == 13 || |buf| == 15
    requires buf[2] == 0xff && buf[3] == 0xc0 && ReadBe16(buf, 4) == 7
    requires Walk(buf, 11) == Ok(Segments(buf[11..|buf| - 2], None, |buf| == 15))
    ensures Walk(buf, 2) == Ok(Segments(buf[2..|buf| - 2], Some(Place(2, 0)), |buf| == 15))
  {
    hide ReadBe16;
    assert buf[2..11] + buf[11..|buf| - 2] == buf[2..|buf| - 2];
  }
}

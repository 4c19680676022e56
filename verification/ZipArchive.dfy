/**
 The ZIP writer and reader of src/common/utils/zip.ts.  `ZipWriter` prints an
 archive piece by piece, `ReadZip` parses one, and the lemmas say exactly when
 the parser undoes the printer.  Layouts follow the PKWARE APPNOTE, sections
 4.3.7 (local header), 4.3.12 (central record) and 4.3.16 (end record).
 */
module ZipArchive {
  import opened Bytes
  import opened Wrappers
  import Utf8

  /** DEFLATE and CRC-32, which the source takes from the platform. */
  datatype Codec = Codec(deflate: Buffer -> Buffer, inflate: Buffer -> Option<Buffer>, crc: Buffer -> U32)
  {
    ghost predicate Lossless() {
      forall x :: inflate(deflate(x)) == Some(x)
    }
  }

  /** The UTC fields of a JavaScript date. */
  datatype Instant = Instant(year: int, month: int, day: int, hour: int, minute: int, second: int) {
    predicate Valid() {
      1 <= month <= 12 && 1 <= day <= 31 && 0 <= hour < 24 && 0 <= minute < 60 && 0 <= second < 60
    }
  }

  type UtcInstant = t: Instant | t.Valid() witness Instant(1980, 1, 1, 0, 0, 0)

  /** What `add` accepts: text is stored as UTF-8. */
  datatype Content = Text(text: string) | Raw(bytes: Buffer)

  function AsBuffer(content: Content): Buffer {
    match content case Text(text) => Utf8.Encode(text) case Raw(bytes) => bytes
  }

  datatype Entry = Entry(name: string, data: Buffer, at: UtcInstant)

  datatype Failure = NotAZip | OutOfRange | BadData | TooLarge

  // ---------------------------------------------------------------- DOS time

  function DosTime(t: UtcInstant): (r: nat)
    ensures r < 0x1_0000
  {
    t.hour * 0x800 + t.minute * 0x20 + t.second / 2
  }

  /** Sixteen bits only up to the year 2107; the field write throws beyond it. */
  function DosDate(t: UtcInstant): (r: nat)
    ensures r < 0x1_0000 <==> t.year <= 2107
  {
    (DosYear(t) - 1980) * 0x200 + t.month * 0x20 + t.day
  }

  function DosYear(t: UtcInstant): int {
    if t.year < 1980 then 1980 else t.year
  }

  /** The packed stamp gives the fields back: the year from 1980 on, the time to two seconds. */
  lemma DosStampUnpacks(t: UtcInstant)
    ensures var d, s := DosDate(t), DosTime(t);
      && d / 0x200 + 1980 == (if t.year < 1980 then 1980 else t.year) && d / 0x20 % 0x10 == t.month && d % 0x20 == t.day
      && s / 0x800 == t.hour && s / 0x20 % 0x40 == t.minute && s % 0x20 == t.second / 2
  {
    Unpacks(DosYear(t) - 1980, 0x10, t.month, 0x20, t.day);
    Unpacks(t.hour, 0x40, t.minute, 0x20, t.second / 2);
    assert DosDate(t) == ((DosYear(t) - 1980) * 0x10 + t.month) * 0x20 + t.day;
    assert DosTime(t) == (t.hour * 0x40 + t.minute) * 0x20 + t.second / 2;
    assert DosDate(t) / 0x200 == DosDate(t) / 0x20 / 0x10;
    assert DosTime(t) / 0x800 == DosTime(t) / 0x20 / 0x40;
  }

  lemma Unpacks(a: nat, m: nat, b: nat, n: nat, c: nat)
    requires b < m && c < n && (m, n) in {(0x10, 0x20), (0x40, 0x20)}
    ensures var w := (a * m + b) * n + c;
      w / n == a * m + b && w % n == c && w / n / m == a && w / n % m == b
  {
  }

  // ------------------------------------------------------------------ Layout

  const SIGNATURE: Buffer := [0x50, 0x4b, 0x05, 0x06]

  /** The checks the field writes of `add` make (they throw a RangeError); `FitsItsFields` says what they are for. */
  predicate Fits(c: Codec, e: Entry, offset: nat) {
    && |Utf8.Encode(e.name)| < 0x1_0000
    && |c.deflate(e.data)| < 0x1_0000_0000
    && |e.data| < 0x1_0000_0000
    && e.at.year <= 2107
    && offset < 0x1_0000_0000
  }

  function LocalHeader(c: Codec, e: Entry): (h: Buffer)
    ensures |h| == 30
  {
    Le32(0x04034b50) + Le16(20) + Le16(0x0800) + Le16(8) + Le16(DosTime(e.at)) + Le16(DosDate(e.at))
    + Le32(c.crc(e.data)) + Le32(|c.deflate(e.data)|) + Le32(|e.data|) + Le16(|Utf8.Encode(e.name)|) + Le16(0)
  }

  function Local(c: Codec, e: Entry): Buffer {
    LocalHeader(c, e) + Utf8.Encode(e.name) + c.deflate(e.data)
  }

  function CentralHeader(c: Codec, e: Entry, offset: nat): (h: Buffer)
    ensures |h| == 46
  {
    Le32(0x02014b50) + Le16(20) + Le16(20) + Le16(0x0800) + Le16(8) + Le16(DosTime(e.at)) + Le16(DosDate(e.at))
    + Le32(c.crc(e.data)) + Le32(|c.deflate(e.data)|) + Le32(|e.data|) + Le16(|Utf8.Encode(e.name)|)
    + Le16(0) + Le16(0) + Le16(0) + Le16(0) + Le32(0) + Le32(offset)
  }

  function Central(c: Codec, e: Entry, offset: nat): Buffer {
    CentralHeader(c, e, offset) + Utf8.Encode(e.name)
  }

  function EndRecord(count: nat, dirLength: nat, offset: nat): (r: Buffer)
    ensures |r| == 22
  {
    Le32(0x06054b50) + Le16(0) + Le16(0) + Le16(count) + Le16(count) + Le32(dirLength) + Le32(offset) + Le16(0)
  }

  function Locals(c: Codec, es: seq<Entry>): Buffer {
    if es == [] then [] else Locals(c, es[..|es| - 1]) + Local(c, es[|es| - 1])
  }

  function Directory(c: Codec, es: seq<Entry>): Buffer {
    if es == [] then [] else
      Directory(c, es[..|es| - 1]) + Central(c, es[|es| - 1], |Locals(c, es[..|es| - 1])|)
  }

  /** Every entry was accepted by `add`, at the offset the entries before it leave. */
  ghost predicate Written(c: Codec, es: seq<Entry>) {
    forall i :: 0 <= i < |es| ==> Fits(c, es[i], |Locals(c, es[..i])|)
  }

  /** The fields of the end record can hold the count and the sizes of these entries. */
  ghost predicate Closes(c: Codec, es: seq<Entry>) {
    var n, d, o := |es|, |Directory(c, es)|, |Locals(c, es)|;
    var end := EndRecord(n, d, o);
    ReadLe16(end, 8) == ReadLe16(end, 10) == n && ReadLe32(end, 12) == d && ReadLe32(end, 16) == o
  }

  function Archive(c: Codec, es: seq<Entry>): Buffer {
    Locals(c, es) + Directory(c, es) + EndRecord(|es|, |Directory(c, es)|, |Locals(c, es)|)
  }

  /** What was added: the last entry of a name wins. */
  function Contents(es: seq<Entry>): map<string, Buffer> {
    if es == [] then map[] else Contents(es[..|es| - 1])[es[|es| - 1].name := es[|es| - 1].data]
  }

  // ------------------------------------------------------------------ Writer

  class ZipWriter {
    const codec: Codec
    var chunks: seq<Buffer>
    var central: seq<Buffer>
    var offset: nat
    var count: nat
    ghost var entries: seq<Entry>

    /** `offset` is the length of the chunks, and every central record points at its own local header. */
    ghost predicate Valid()
      reads this
    {
      && Written(codec, entries)
      && Concat(chunks) == Locals(codec, entries)
      && Concat(central) == Directory(codec, entries)
      && offset == |Locals(codec, entries)|
      && count == |entries|
    }

    constructor (codec: Codec)
      ensures Valid() && entries == [] && this.codec == codec
    {
      this.codec := codec;
      chunks, central, offset, count := [], [], 0, 0;
      entries := [];
    }

    /**
     A refused field leaves the writer as it was; the size limit is checked
     after the entry has been recorded, so `TooLarge` reports an entry that is in.
     */
    method Add(name: string, content: Content, at: UtcInstant) returns (r: Result<(), Failure>)
      requires Valid()
      modifies this
      ensures Valid()
      ensures var e := Entry(name, if content.Text? then Utf8.Encode(content.text) else content.bytes, at);
        if !Fits(codec, e, old(offset)) then
          r == Err(OutOfRange) && entries == old(entries)
        else
          && entries == old(entries) + [e]
          && r == if offset > 0xffff_fff0 then Err(TooLarge) else Ok(())
    {
      hide Concat, Locals, Directory, LocalHeader, CentralHeader;
      var data := AsBuffer(content);
      var e := Entry(name, data, at);
      var nameBuf := Utf8.Encode(name);
      var compressed := codec.deflate(data);
      if |nameBuf| >= 0x1_0000 || |compressed| >= 0x1_0000_0000 || |data| >= 0x1_0000_0000
         || DosDate(at) >= 0x1_0000 || offset >= 0x1_0000_0000 {
        return Err(OutOfRange);
      }
      var local := LocalHeader(codec, e);
      var dir := CentralHeader(codec, e, offset);
      RecordAppends(codec, entries, e);
      ConcatRecord(chunks, [local, nameBuf, compressed]);
      ConcatRecord(central, [dir, nameBuf]);
      chunks := chunks + [local, nameBuf, compressed];
      central := central + [dir, nameBuf];
      offset := offset + |local| + |nameBuf| + |compressed|;
      count := count + 1;
      entries := entries + [e];
      if offset > 0xffff_fff0 {
        return Err(TooLarge);
      }
      return Ok(());
    }

    method ToBuffer() returns (r: Result<Buffer, Failure>)
      requires Valid()
      ensures r.Ok? <==> Closes(codec, entries)
      ensures r.Ok? <==>
        |entries| < 0x1_0000 && |Directory(codec, entries)| < 0x1_0000_0000 && |Locals(codec, entries)| < 0x1_0000_0000
      ensures r == if r.Ok? then Ok(Archive(codec, entries)) else Err(OutOfRange)
    {
      hide EndRecord;
      ClosesInNumbers(codec, entries);
      var dir := Concat(central);
      if count >= 0x1_0000 || |dir| >= 0x1_0000_0000 || offset >= 0x1_0000_0000 {
        return Err(OutOfRange);
      }
      var end := EndRecord(count, |dir|, offset);
      return Ok(Concat(chunks) + dir + end);
    }
  }

  /** Exactly the numbers of sixteen and thirty-two bits are held by the end record. */
  lemma ClosesInNumbers(c: Codec, es: seq<Entry>)
    ensures Closes(c, es) <==>
      |es| < 0x1_0000 && |Directory(c, es)| < 0x1_0000_0000 && |Locals(c, es)| < 0x1_0000_0000
  {
    hide EndRecord, Locals, Directory;
    if |es| < 0x1_0000 && |Directory(c, es)| < 0x1_0000_0000 && |Locals(c, es)| < 0x1_0000_0000 {
      EndFields(|es|, |Directory(c, es)|, |Locals(c, es)|);
    }
  }

  /** An entry is accepted iff the bytes of its two headers hold its lengths, its offset and its date. */
  lemma FitsItsFields(c: Codec, e: Entry, offset: nat)
    ensures var name, packed, size := |Utf8.Encode(e.name)|, |c.deflate(e.data)|, |e.data|;
      var l, h := LocalHeader(c, e), CentralHeader(c, e, offset);
      Fits(c, e, offset) <==>
        && ReadLe16(l, 12) == DosDate(e.at) && ReadLe32(l, 18) == packed && ReadLe32(l, 22) == size
        && ReadLe16(l, 26) == name
        && ReadLe16(h, 14) == DosDate(e.at) && ReadLe32(h, 20) == packed && ReadLe32(h, 24) == size
        && ReadLe16(h, 28) == name && ReadLe32(h, 42) == offset
  {
    hide LocalHeader, CentralHeader;
    if Fits(c, e, offset) {
      LocalFields(c, e);
      CentralFields(c, e, offset);
    }
  }

  lemma ConcatRecord(parts: seq<Buffer>, more: seq<Buffer>)
    ensures |more| == 2 ==> Concat(parts + more) == Concat(parts) + (more[0] + more[1])
    ensures |more| == 3 ==> Concat(parts + more) == Concat(parts) + (more[0] + more[1] + more[2])
  {
    ConcatAppend(parts, more);
    if |more| == 2 || |more| == 3 {
      assert more[1..][1..] == more[2..];
      assert Concat(more[2..]) == if |more| == 2 then [] else more[2] + Concat(more[2..][1..]);
      assert more[0] + (more[1] + Concat(more[2..])) == more[0] + more[1] + Concat(more[2..]);
    }
  }

  lemma RecordAppends(c: Codec, es: seq<Entry>, e: Entry)
    ensures Locals(c, es + [e]) == Locals(c, es) + Local(c, e)
    ensures Directory(c, es + [e]) == Directory(c, es) + Central(c, e, |Locals(c, es)|)
    ensures Written(c, es) && Fits(c, e, |Locals(c, es)|) ==> Written(c, es + [e])
  {
    hide Local, Central, Fits;
    assert (es + [e])[..|es|] == es;
    forall i | 0 <= i < |es| ensures (es + [e])[..i] == es[..i] {
    }
  }

  // ------------------------------------------------------------------ Reader

  predicate SignatureAt(buf: Buffer, i: nat) {
    i + 4 <= |buf| && buf[i] == 0x50 && buf[i + 1] == 0x4b && buf[i + 2] == 0x05 && buf[i + 3] == 0x06
  }

  /** `buf.lastIndexOf(SIGNATURE)`, searching down from `i`. */
  function LastSignature(buf: Buffer, i: int): (r: int)
    requires -1 <= i
    ensures -1 <= r <= i
    ensures 0 <= r ==> SignatureAt(buf, r)
    ensures forall k: nat :: r < k <= i ==> !SignatureAt(buf, k)
  {
    if i < 0 || SignatureAt(buf, i) then i else LastSignature(buf, i - 1)
  }

  datatype Found = Found(name: string, content: Buffer, next: nat)

  /** One round of the loop of `readZip`: the central record at `p` and the data it points at. */
  function ReadEntry(c: Codec, buf: Buffer, p: nat): Result<Found, Failure> {
    if p + 46 > |buf| then Err(OutOfRange)
    else
      var nameLen := ReadLe16(buf, p + 28);
      var localAt := ReadLe32(buf, p + 42);
      if localAt + 30 > |buf| then Err(OutOfRange)
      else
        var start := localAt + 30 + ReadLe16(buf, localAt + 26) + ReadLe16(buf, localAt + 28);
        var raw := Subarray(buf, start, start + ReadLe32(buf, p + 20));
        var content := if ReadLe16(buf, p + 10) == 8 then c.inflate(raw) else Some(raw);
        if content == None then Err(BadData)
        else
          var next := p + 46 + nameLen + ReadLe16(buf, p + 30) + ReadLe16(buf, p + 32);
          Ok(Found(Utf8.Decode(Subarray(buf, p + 46, p + 46 + nameLen)), content.value, next))
  }

  function ReadEntries(c: Codec, buf: Buffer, p: nat, n: nat, out: map<string, Buffer>)
    : Result<map<string, Buffer>, Failure>
    decreases n
  {
    if n == 0 then Ok(out) else
      match ReadEntry(c, buf, p)
      case Err(f) => Err(f)
      case Ok(e) => ReadEntries(c, buf, e.next, n - 1, out[e.name := e.content])
  }

  function Read(c: Codec, buf: Buffer): Result<map<string, Buffer>, Failure> {
    var endAt := LastSignature(buf, |buf| - 1);
    if endAt < 0 then Err(NotAZip)
    else if endAt + 20 > |buf| then Err(OutOfRange)
    else ReadEntries(c, buf, ReadLe32(buf, endAt + 16), ReadLe16(buf, endAt + 10), map[])
  }

  method ReadZip(c: Codec, buf: Buffer) returns (r: Result<map<string, Buffer>, Failure>)
    ensures r == Read(c, buf)
  {
    hide LastSignature, ReadEntry, ReadLe16, ReadLe32;
    var out: map<string, Buffer> := map[];
    var endAt := LastSignature(buf, |buf| - 1);
    if endAt < 0 { return Err(NotAZip); }
    if endAt + 20 > |buf| { return Err(OutOfRange); }
    var count := ReadLe16(buf, endAt + 10);
    var p := ReadLe32(buf, endAt + 16);
    for i := 0 to count
      invariant ReadEntries(c, buf, p, count - i, out) == Read(c, buf)
    {
      match ReadEntry(c, buf, p) {
        case Err(f) => return Err(f);
        case Ok(e) =>
          out := out[e.name := e.content];
          p := e.next;
      }
    }
    r := Ok(out);
  }

  // -------------------------------------------------------------- Round trip

  /** The reader refuses a file as no archive iff it holds no end signature. */
  lemma NotAZipExactly(c: Codec, buf: Buffer)
    ensures Read(c, buf) == Err(NotAZip) <==> forall i: nat :: !SignatureAt(buf, i)
  {
    hide ReadLe16, ReadLe32, ReadEntries, LastSignature;
    var at := LastSignature(buf, |buf| - 1);
    if at >= 0 {
      assert SignatureAt(buf, at);
      if at + 20 <= |buf| { NeverNotAZip(c, buf, ReadLe32(buf, at + 16), ReadLe16(buf, at + 10), map[]); }
    }
  }

  lemma {:induction false} NeverNotAZip(c: Codec, buf: Buffer, p: nat, n: nat, out: map<string, Buffer>)
    ensures ReadEntries(c, buf, p, n, out) != Err(NotAZip)
    decreases n
  {
    hide ReadEntry;
    EntryIsNoArchive(c, buf, p);
    if n > 0 && ReadEntry(c, buf, p).Ok? {
      var e := ReadEntry(c, buf, p).value;
      NeverNotAZip(c, buf, e.next, n - 1, out[e.name := e.content]);
    }
  }

  lemma EntryIsNoArchive(c: Codec, buf: Buffer, p: nat)
    ensures ReadEntry(c, buf, p) != Err(NotAZip)
  {
    hide ReadLe16, ReadLe32;
  }

  /**
   Whatever program wrote it, the reader finds an entry behind the fields it
   skips: the name, extra and comment of the record, and the name and extra of
   the local header.  Data that is not deflated is taken as it is.
   */
  lemma ReadsForeignEntry(c: Codec, buf: Buffer, p: nat, name: Buffer, localAt: nat, skipped: nat, packed: Buffer)
    requires p + 46 <= |buf| && name <= buf[p + 46..] && ReadLe16(buf, p + 28) == |name|
    requires ReadLe32(buf, p + 42) == localAt && localAt + 30 <= |buf|
    requires ReadLe16(buf, localAt + 26) + ReadLe16(buf, localAt + 28) == skipped
    requires localAt + 30 + skipped <= |buf| && packed <= buf[localAt + 30 + skipped..]
    requires ReadLe32(buf, p + 20) == |packed|
    ensures var content := if ReadLe16(buf, p + 10) == 8 then c.inflate(packed) else Some(packed);
      ReadEntry(c, buf, p) == if content == None then Err(BadData)
        else Ok(Found(Utf8.Decode(name), content.value,
                      p + 46 + |name| + ReadLe16(buf, p + 30) + ReadLe16(buf, p + 32)))
  {
    hide ReadLe16, ReadLe32, Utf8.Decode, Subarray;
    PieceAt(buf, p + 46, name);
    PieceAt(buf, localAt + 30 + skipped, packed);
  }

  lemma PieceAt(buf: Buffer, at: nat, piece: Buffer)
    requires at <= |buf| && piece <= buf[at..]
    ensures Subarray(buf, at, at + |piece|) == piece
  {
    assert buf[at..][..|piece|] == piece && buf[at..at + |piece|] == piece;
  }

  /** Every field of a central record, at its offset in the APPNOTE. */
  ghost predicate IsCentralHeader(h: Buffer, nameLen: nat, packedLen: nat, offset: nat) {
    && |h| == 46
    && ReadLe16(h, 10) == 8 && ReadLe32(h, 20) == packedLen && ReadLe16(h, 28) == nameLen
    && ReadLe16(h, 30) == 0 && ReadLe16(h, 32) == 0 && ReadLe32(h, 42) == offset
  }

  ghost predicate IsLocalHeader(h: Buffer, nameLen: nat) {
    |h| == 30 && ReadLe16(h, 26) == nameLen && ReadLe16(h, 28) == 0
  }

  lemma CentralFields(c: Codec, e: Entry, offset: nat)
    requires Fits(c, e, offset)
    ensures var h := CentralHeader(c, e, offset);
      && IsCentralHeader(h, |Utf8.Encode(e.name)|, |c.deflate(e.data)|, offset)
      && ReadLe32(h, 0) == 0x02014b50 && ReadLe16(h, 4) == ReadLe16(h, 6) == 20 && ReadLe16(h, 8) == 0x0800
      && ReadLe16(h, 12) == DosTime(e.at) && ReadLe16(h, 14) == DosDate(e.at)
      && ReadLe32(h, 16) == c.crc(e.data) && ReadLe32(h, 24) == |e.data|
      && ReadLe16(h, 34) == ReadLe16(h, 36) == 0 && ReadLe32(h, 38) == 0
  {
  }

  lemma LocalFields(c: Codec, e: Entry)
    requires Fits(c, e, 0)
    ensures var h := LocalHeader(c, e);
      && IsLocalHeader(h, |Utf8.Encode(e.name)|)
      && ReadLe32(h, 0) == 0x04034b50 && ReadLe16(h, 4) == 20 && ReadLe16(h, 6) == 0x0800 && ReadLe16(h, 8) == 8
      && ReadLe16(h, 10) == DosTime(e.at) && ReadLe16(h, 12) == DosDate(e.at) && ReadLe32(h, 14) == c.crc(e.data)
      && ReadLe32(h, 18) == |c.deflate(e.data)| && ReadLe32(h, 22) == |e.data|
  {
  }

  /** Entry `i` lies in the archive where the offsets say. */
  lemma {:induction false} EntryPlaces(c: Codec, es: seq<Entry>, i: nat)
    requires i < |es|
    ensures Locals(c, es[..i]) + Local(c, es[i]) <= Locals(c, es)
    ensures Directory(c, es[..i]) + Central(c, es[i], |Locals(c, es[..i])|)
      == Directory(c, es[..i + 1]) <= Directory(c, es)
  {
    hide Local, Central;
    var n := |es| - 1;
    if i == n {
      assert es[..i + 1] == es;
    } else {
      EntryPlaces(c, es[..n], i);
      assert es[..n][..i] == es[..i] && es[..n][..i + 1] == es[..i + 1];
    }
  }

  /** A field read at a header's place in the file is the header's own field. */
  lemma ReadThrough(buf: Buffer, at: nat, h: Buffer, k: nat)
    requires at + |h| <= |buf| && buf[at..at + |h|] == h
    ensures k + 2 <= |h| ==> ReadLe16(buf, at + k) == ReadLe16(h, k)
    ensures k + 4 <= |h| ==> ReadLe32(buf, at + k) == ReadLe32(h, k)
  {
    forall j | 0 <= j < |h| ensures buf[at + j] == h[j] {
      assert buf[at..at + |h|][j] == buf[at + j];
    }
  }

  lemma ReadsOneEntry(c: Codec, buf: Buffer, e: Entry, p: nat, h: Buffer, localAt: nat, l: Buffer)
    requires c.Lossless()
    requires IsCentralHeader(h, |Utf8.Encode(e.name)|, |c.deflate(e.data)|, localAt)
      && IsLocalHeader(l, |Utf8.Encode(e.name)|)
    requires p <= |buf| && h + Utf8.Encode(e.name) <= buf[p..]
    requires localAt <= |buf| && l + Utf8.Encode(e.name) + c.deflate(e.data) <= buf[localAt..]
    ensures ReadEntry(c, buf, p) == Ok(Found(e.name, e.data, p + |h| + |Utf8.Encode(e.name)|))
  {
    hide ReadLe16, ReadLe32;
    hide Utf8.Encode, Utf8.Decode;
    var nameBuf, packed := Utf8.Encode(e.name), c.deflate(e.data);
    Utf8.DecodesEncoded(e.name);
    HeaderPlace(buf, p, h, nameBuf, []);
    HeaderPlace(buf, localAt, l, nameBuf, packed);
    ReadThrough(buf, p, h, 10);
    ReadThrough(buf, p, h, 20);
    ReadThrough(buf, p, h, 28);
    ReadThrough(buf, p, h, 30);
    ReadThrough(buf, p, h, 32);
    ReadThrough(buf, p, h, 42);
    ReadThrough(buf, localAt, l, 26);
    ReadThrough(buf, localAt, l, 28);
  }

  /** Three consecutive pieces of a file, and the slices that give them back. */
  lemma HeaderPlace(buf: Buffer, at: nat, h: Buffer, name: Buffer, data: Buffer)
    requires at <= |buf| && h + name + data <= buf[at..]
    ensures var n := at + |h|;
      && n + |name| + |data| <= |buf| && buf[at..n] == h
      && Subarray(buf, n, n + |name|) == name && Subarray(buf, n + |name|, n + |name| + |data|) == data
  {
    var w, n := h + name + data, |h|;
    assert buf[at..][..|w|] == w;
    assert buf[at..at + n] == w[..n];
    assert buf[at + n..at + n + |name|] == w[n..n + |name|];
    assert buf[at + n + |name|..at + |w|] == w[n + |name|..];
  }

  lemma ReadsNoEntry(c: Codec, buf: Buffer, p: nat, out: map<string, Buffer>)
    ensures ReadEntries(c, buf, p, 0, out) == Ok(out)
  {
  }

  lemma PlacesInFile(buf: Buffer, locals: Buffer, directory: Buffer, a: Buffer, l: Buffer, d: Buffer, r: Buffer)
    requires locals + directory <= buf && a + l <= locals && d + r <= directory
    ensures l <= buf[|a|..] && r <= buf[|locals| + |d|..]
  {
    assert forall k :: 0 <= k < |l| ==> l[k] == (a + l)[|a| + k] == locals[|a| + k] == (locals + directory)[|a| + k];
    assert forall k :: 0 <= k < |r| ==>
      r[k] == (d + r)[|d| + k] == directory[|d| + k] == (locals + directory)[|locals| + |d| + k];
  }

  /** The record of entry `i` leads to its name and content, and to the record behind it. */
  lemma EntryReads(c: Codec, es: seq<Entry>, buf: Buffer, i: nat)
    requires c.Lossless() && Written(c, es) && i < |es|
    requires Locals(c, es) + Directory(c, es) <= buf
    ensures ReadEntry(c, buf, |Locals(c, es)| + |Directory(c, es[..i])|)
      == Ok(Found(es[i].name, es[i].data, |Locals(c, es)| + |Directory(c, es[..i + 1])|))
  {
    hide LocalHeader, CentralHeader, ReadEntry, IsCentralHeader, IsLocalHeader, Locals, Directory, Fits;
    EntryPlaces(c, es, i);
    var e, localAt := es[i], |Locals(c, es[..i])|;
    var p := |Locals(c, es)| + |Directory(c, es[..i])|;
    assert Fits(c, e, localAt);
    FieldsOf(c, e, localAt);
    hide Written;
    PlacesInFile(buf, Locals(c, es), Directory(c, es), Locals(c, es[..i]), Local(c, e), Directory(c, es[..i]),
      Central(c, e, localAt));
    ReadsOneEntry(c, buf, e, p, CentralHeader(c, e, localAt), localAt, LocalHeader(c, e));
  }

  lemma FieldsOf(c: Codec, e: Entry, offset: nat)
    requires Fits(c, e, offset)
    ensures IsCentralHeader(CentralHeader(c, e, offset), |Utf8.Encode(e.name)|, |c.deflate(e.data)|, offset)
    ensures IsLocalHeader(LocalHeader(c, e), |Utf8.Encode(e.name)|)
  {
    hide LocalHeader, CentralHeader;
    CentralFields(c, e, offset);
    LocalFields(c, e);
  }

  lemma {:induction false} ReadsEntriesBack(c: Codec, es: seq<Entry>, buf: Buffer, i: nat)
    requires c.Lossless() && Written(c, es) && i <= |es|
    requires Locals(c, es) + Directory(c, es) <= buf
    ensures ReadEntries(c, buf, |Locals(c, es)| + |Directory(c, es[..i])|, |es| - i, Contents(es[..i]))
      == Ok(Contents(es))
    decreases |es| - i
  {
    hide ReadEntry, Locals, Directory, Written;
    if i == |es| {
      assert es[..i] == es;
      ReadsNoEntry(c, buf, |Locals(c, es)| + |Directory(c, es)|, Contents(es));
    } else {
      EntryReads(c, es, buf, i);
      assert es[..i + 1][..i] == es[..i];
      ReadsEntriesBack(c, es, buf, i + 1);
    }
  }

  /** The end signature occurs again among the counts and sizes behind it. */
  predicate SignatureRecurs(count: nat, dirLength: nat, offset: nat) {
    || (count == 0x4b50 && dirLength % 0x1_0000 == 0x0605)
    || (count / 0x100 == 0x50 && dirLength % 0x100_0000 == 0x06054b)
    || dirLength == 0x06054b50
    || (dirLength / 0x100 == 0x054b50 && offset % 0x100 == 0x06)
    || (dirLength / 0x1_0000 == 0x4b50 && offset % 0x1_0000 == 0x0605)
    || (dirLength / 0x100_0000 == 0x50 && offset % 0x100_0000 == 0x06054b)
    || offset == 0x06054b50
  }

  /** The same, on the bytes of the end record. */
  ghost predicate RecursInBytes(c: Buffer, d: Buffer, o: Buffer)
    requires |c| == 2 && |d| == 4 && |o| == 4
  {
    || (c == [0x50, 0x4b] && d[..2] == [0x05, 0x06])
    || (c[1] == 0x50 && d[..3] == [0x4b, 0x05, 0x06])
    || d == SIGNATURE
    || (d[1..] == [0x50, 0x4b, 0x05] && o[0] == 0x06)
    || (d[2..] == [0x50, 0x4b] && o[..2] == [0x05, 0x06])
    || (d[3] == 0x50 && o[..3] == [0x4b, 0x05, 0x06])
    || o == SIGNATURE
  }

  lemma Le32Parts(n: nat)
    requires n < 0x1_0000_0000
    ensures var b: seq<int> := Le32(n);
      && n % 0x100 == b[0] && n % 0x1_0000 == b[0] + 0x100 * b[1]
        && n % 0x100_0000 == b[0] + 0x100 * b[1] + 0x1_0000 * b[2]
      && n / 0x100 == b[1] + 0x100 * b[2] + 0x1_0000 * b[3] && n / 0x1_0000 == b[2] + 0x100 * b[3]
        && n / 0x100_0000 == b[3]
  {
  }

  lemma RecurrenceInNumbers(count: nat, dirLength: nat, offset: nat)
    requires count < 0x1_0000 && dirLength < 0x1_0000_0000 && offset < 0x1_0000_0000
    ensures SignatureRecurs(count, dirLength, offset) <==> RecursInBytes(Le16(count), Le32(dirLength), Le32(offset))
  {
    var c, d, o := Le16(count), Le32(dirLength), Le32(offset);
    Le32Parts(dirLength);
    Le32Parts(offset);
    assert count / 0x100 == c[1];
    assert (c == [0x50, 0x4b]) == (count == 0x4b50);
    assert (d[..2] == [0x05, 0x06]) == (dirLength % 0x1_0000 == 0x0605);
    assert (d[..3] == [0x4b, 0x05, 0x06]) == (dirLength % 0x100_0000 == 0x06054b);
    assert (d == SIGNATURE) == (dirLength == 0x06054b50);
    assert (d[1..] == [0x50, 0x4b, 0x05]) == (dirLength / 0x100 == 0x054b50);
    assert (d[2..] == [0x50, 0x4b]) == (dirLength / 0x1_0000 == 0x4b50);
    assert (o[..2] == [0x05, 0x06]) == (offset % 0x1_0000 == 0x0605);
    assert (o[..3] == [0x4b, 0x05, 0x06]) == (offset % 0x100_0000 == 0x06054b);
    assert (o == SIGNATURE) == (offset == 0x06054b50);
  }

  lemma RecurrencePlaces(r: Buffer, c: Buffer, d: Buffer, o: Buffer)
    requires |c| == 2 && |d| == 4 && |o| == 4
    requires r == SIGNATURE + [0, 0, 0, 0] + c + c + d + o + [0, 0]
    ensures SignatureAt(r, 0)
    ensures RecursInBytes(c, d, o) <==> exists j: nat :: 0 < j && SignatureAt(r, j)
  {
    assert r[8] == c[0] && r[9] == c[1] && r[10] == c[0] && r[11] == c[1];
    assert r[12] == d[0] && r[13] == d[1] && r[14] == d[2] && r[15] == d[3];
    assert r[16] == o[0] && r[17] == o[1] && r[18] == o[2] && r[19] == o[3];
    if RecursInBytes(c, d, o) {
      assert SignatureAt(r, 10) || SignatureAt(r, 11) || SignatureAt(r, 12) || SignatureAt(r, 13)
        || SignatureAt(r, 14) || SignatureAt(r, 15) || SignatureAt(r, 16);
    }
    forall j: nat | 0 < j && SignatureAt(r, j) ensures RecursInBytes(c, d, o) {
      assert 10 <= j <= 16;
    }
  }

  lemma EarlySignature(r: Buffer, j: nat)
    requires |r| == 22 && r[..8] == SIGNATURE + [0, 0, 0, 0] && SignatureAt(r, j)
    ensures j == 0 || 3 <= j
  {
    assert r[1] == r[..8][1] && r[2] == r[..8][2];
  }

  lemma EndRecordBytes(count: nat, dirLength: nat, offset: nat)
    ensures EndRecord(count, dirLength, offset)
      == SIGNATURE + [0, 0, 0, 0] + Le16(count) + Le16(count) + Le32(dirLength) + Le32(offset) + [0, 0]
  {
    assert Le32(0x06054b50) == SIGNATURE && Le16(0) == [0, 0];
  }

  /** The reader finds the end record it should iff the signature does not recur behind it. */
  lemma EndRecordFound(front: Buffer, count: nat, dirLength: nat, offset: nat)
    requires count < 0x1_0000 && dirLength < 0x1_0000_0000 && offset < 0x1_0000_0000
    ensures var buf := front + EndRecord(count, dirLength, offset);
      var at := LastSignature(buf, |buf| - 1);
      if SignatureRecurs(count, dirLength, offset) then at >= |front| + 3 else at == |front|
  {
    hide EndRecord, Le16, Le32, RecursInBytes, SignatureRecurs, LastSignature;
    var r := EndRecord(count, dirLength, offset);
    var buf := front + r;
    var at := LastSignature(buf, |buf| - 1);
    EndRecordBytes(count, dirLength, offset);
    RecurrenceInNumbers(count, dirLength, offset);
    RecurrencePlaces(r, Le16(count), Le32(dirLength), Le32(offset));
    forall j: nat ensures SignatureAt(buf, |front| + j) <==> SignatureAt(r, j) {
    }
    assert SignatureAt(buf, |front| + 0);
    if SignatureRecurs(count, dirLength, offset) {
      var j: nat :| 0 < j && SignatureAt(r, j);
      assert SignatureAt(buf, |front| + j);
    }
    assert SignatureAt(buf, |front| + (at - |front|));
    assert SignatureAt(r, at - |front|);
    EarlySignature(r, at - |front|);
  }

  /**
   The reader undoes the writer, exactly: for every list of accepted entries,
   the names and contents come back iff the end signature does not recur in
   the trailer, and otherwise the read fails.
   */
  lemma RoundTrip(c: Codec, es: seq<Entry>)
    requires c.Lossless() && Written(c, es) && Closes(c, es)
    ensures Read(c, Archive(c, es))
      == if SignatureRecurs(|es|, |Directory(c, es)|, |Locals(c, es)|) then Err(OutOfRange) else Ok(Contents(es))
  {
    hide Locals, Directory, EndRecord, LastSignature, SignatureRecurs, ReadEntries, ReadLe16, ReadLe32, Contents,
      Written, Closes;
    ClosesInNumbers(c, es);
    var front := Locals(c, es) + Directory(c, es);
    var end := EndRecord(|es|, |Directory(c, es)|, |Locals(c, es)|);
    var buf := Archive(c, es);
    EndRecordFound(front, |es|, |Directory(c, es)|, |Locals(c, es)|);
    if !SignatureRecurs(|es|, |Directory(c, es)|, |Locals(c, es)|) {
      EndFields(|es|, |Directory(c, es)|, |Locals(c, es)|);
      assert buf[|front|..|front| + |end|] == end;
      ReadThrough(buf, |front|, end, 10);
      ReadThrough(buf, |front|, end, 16);
      ReadsEntriesBack(c, es, buf, 0);
      EmptyLists(c, es);
    }
  }

  lemma EmptyLists(c: Codec, es: seq<Entry>)
    ensures Directory(c, es[..0]) == [] && Contents(es[..0]) == map[]
  {
  }

  lemma EndFields(count: nat, dirLength: nat, offset: nat)
    requires count < 0x1_0000 && dirLength < 0x1_0000_0000 && offset < 0x1_0000_0000
    ensures var r := EndRecord(count, dirLength, offset);
      && ReadLe32(r, 0) == 0x06054b50 && ReadLe16(r, 4) == ReadLe16(r, 6) == ReadLe16(r, 20) == 0
      && ReadLe16(r, 8) == ReadLe16(r, 10) == count && ReadLe32(r, 12) == dirLength && ReadLe32(r, 16) == offset
  {
  }

  /** Limits under which no recurrence is possible. */
  lemma SmallArchivesReadBack(c: Codec, es: seq<Entry>)
    requires c.Lossless() && Written(c, es)
    requires |es| < 0x4b50 && |Directory(c, es)| < 0x054b_5000
    requires |Locals(c, es)| < 0x1_0000_0000 && |Locals(c, es)| != 0x06054b50
    ensures Closes(c, es) && Read(c, Archive(c, es)) == Ok(Contents(es))
  {
    ClosesInNumbers(c, es);
    RoundTrip(c, es);
  }

  /** One entry whose packed size puts the directory at offset 0x06054b50 makes an archive that cannot be read. */
  lemma UnreadableArchive(c: Codec, e: Entry)
    requires c.Lossless() && Fits(c, e, 0)
    requires 30 + |Utf8.Encode(e.name)| + |c.deflate(e.data)| == 0x06054b50
    ensures Closes(c, [e]) && Read(c, Archive(c, [e])) == Err(OutOfRange)
  {
    hide LocalHeader, CentralHeader;
    RecordAppends(c, [], e);
    assert [] + [e] == [e];
    ClosesInNumbers(c, [e]);
    RoundTrip(c, [e]);
  }

  /** There is one: stored without packing, with an empty name and so many zero bytes. */
  lemma UnreadableArchiveExists() returns (c: Codec, e: Entry)
    ensures c.Lossless() && Fits(c, e, 0) && Closes(c, [e])
    ensures Read(c, Archive(c, [e])) == Err(OutOfRange)
  {
    hide Archive, Closes;
    c := Codec(x => x, x => Some(x), x => 0);
    e := Entry("", seq(0x06054b50 - 30, i => 0), Instant(2026, 1, 1, 0, 0, 0));
    UnreadableArchive(c, e);
  }
}

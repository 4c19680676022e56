/** Byte buffers and the fixed-width integer fields the binary formats use. */
module Bytes {
  type Byte = b: int | 0 <= b < 0x100
  type U32 = n: int | 0 <= n < 0x1_0000_0000
  type Buffer = seq<Byte>

  /** The low 16 bits, least significant byte first. */
  function Le16(n: nat): (b: Buffer)
    ensures |b| == 2 && (n < 0x1_0000 ==> ReadLe16(b, 0) == n)
  {
    [n % 0x100, n / 0x100 % 0x100]
  }

  /** The low 32 bits, least significant byte first. */
  function Le32(n: nat): (b: Buffer)
    ensures |b| == 4 && (n < 0x1_0000_0000 ==> ReadLe32(b, 0) == n)
  {
    var b := [n % 0x100, n / 0x100 % 0x100, n / 0x1_0000 % 0x100, n / 0x100_0000 % 0x100];
    assert n < 0x1_0000_0000 ==> ReadLe32(b, 0) == n by {
      if n < 0x1_0000_0000 { FourDigits(n); }
    }
    b
  }

  lemma FourDigits(n: nat)
    requires n < 0x1_0000_0000
    ensures n == n % 0x100 + 0x100 * (n / 0x100 % 0x100) + 0x1_0000 * (n / 0x1_0000 % 0x100)
      + 0x100_0000 * (n / 0x100_0000 % 0x100)
  {
    assert n / 0x1_0000 == n / 0x100 / 0x100 && n / 0x100_0000 == n / 0x1_0000 / 0x100;
  }

  /** The same fields, most significant byte first. */
  function Be16(n: nat): (b: Buffer)
    ensures |b| == 2 && (n < 0x1_0000 ==> ReadBe16(b, 0) == n)
  {
    [n / 0x100 % 0x100, n % 0x100]
  }

  function Be32(n: nat): (b: Buffer)
    ensures |b| == 4 && (n < 0x1_0000_0000 ==> ReadBe32(b, 0) == n)
  {
    var b := [n / 0x100_0000 % 0x100, n / 0x1_0000 % 0x100, n / 0x100 % 0x100, n % 0x100];
    assert n < 0x1_0000_0000 ==> ReadBe32(b, 0) == n by {
      if n < 0x1_0000_0000 { FourDigits(n); }
    }
    b
  }

  function ReadLe16(b: Buffer, at: nat): (n: nat)
    requires at + 2 <= |b|
    ensures n < 0x1_0000
  {
    (b[at] as int) + 0x100 * (b[at + 1] as int)
  }

  function ReadLe24(b: Buffer, at: nat): (n: nat)
    requires at + 3 <= |b|
    ensures n < 0x100_0000
  {
    (b[at] as int) + 0x100 * (b[at + 1] as int) + 0x1_0000 * (b[at + 2] as int)
  }

  function ReadLe32(b: Buffer, at: nat): (n: nat)
    requires at + 4 <= |b|
    ensures n < 0x1_0000_0000
  {
    (b[at] as int) + 0x100 * (b[at + 1] as int) + 0x1_0000 * (b[at + 2] as int) + 0x100_0000 * (b[at + 3] as int)
  }

  function ReadBe16(b: Buffer, at: nat): (n: nat)
    requires at + 2 <= |b|
    ensures n < 0x1_0000
  {
    0x100 * (b[at] as int) + (b[at + 1] as int)
  }

  function ReadBe32(b: Buffer, at: nat): (n: nat)
    requires at + 4 <= |b|
    ensures n < 0x1_0000_0000
  {
    0x100_0000 * (b[at] as int) + 0x1_0000 * (b[at + 1] as int) + 0x100 * (b[at + 2] as int) + (b[at + 3] as int)
  }

  /** `buf.subarray(from, to)`: both ends are clamped to the buffer. */
  function Subarray(b: Buffer, from: nat, to: nat): Buffer {
    var hi := if to <= |b| then to else |b|;
    if from <= hi then b[from..hi] else []
  }

  /** The pieces one after another, from the front. */
  function Concat(parts: seq<Buffer>): Buffer {
    if parts == [] then [] else parts[0] + Concat(parts[1..])
  }

  /** Four bytes as `toString('ascii')` shows them: the high bit is masked. */
  function Ascii4(b: Buffer, at: nat): (s: seq<int>)
    requires at + 4 <= |b|
    ensures |s| == 4
  {
    [b[at] % 0x80, b[at + 1] % 0x80, b[at + 2] % 0x80, b[at + 3] % 0x80]
  }

  lemma {:induction false} ConcatAppend(a: seq<Buffer>, b: seq<Buffer>)
    ensures Concat(a + b) == Concat(a) + Concat(b)
  {
    if a == [] {
      assert a + b == b;
    } else {
      assert (a + b)[0] == a[0] && (a + b)[1..] == a[1..] + b;
      ConcatAppend(a[1..], b);
      assert a[0] + (Concat(a[1..]) + Concat(b)) == a[0] + Concat(a[1..]) + Concat(b);
    }
  }

  /** A piece behind a prefix is found again where the prefix ends. */
  lemma PieceInPlace(pre: Buffer, piece: Buffer, rest: Buffer)
    ensures var whole := pre + (piece + rest);
      && whole == pre + piece + rest
      && whole[|pre|..|pre| + |piece|] == piece
  {
  }

  lemma Be32Injective(a: Buffer, i: nat, b: Buffer, j: nat)
    requires i + 4 <= |a| && j + 4 <= |b| && ReadBe32(a, i) == ReadBe32(b, j)
    ensures a[i..i + 4] == b[j..j + 4]
  {
    SameDigits(a[i], a[i + 1], a[i + 2], a[i + 3], b[j], b[j + 1], b[j + 2], b[j + 3]);
  }

  lemma SameDigits(a0: int, a1: int, a2: int, a3: int, b0: int, b1: int, b2: int, b3: int)
    requires 0 <= a0 < 0x100 && 0 <= a1 < 0x100 && 0 <= a2 < 0x100 && 0 <= a3 < 0x100
    requires 0 <= b0 < 0x100 && 0 <= b1 < 0x100 && 0 <= b2 < 0x100 && 0 <= b3 < 0x100
    requires 0x100_0000 * a0 + 0x1_0000 * a1 + 0x100 * a2 + a3 == 0x100_0000 * b0 + 0x1_0000 * b1 + 0x100 * b2 + b3
    ensures a0 == b0 && a1 == b1 && a2 == b2 && a3 == b3
  {
  }
}

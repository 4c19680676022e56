/** UTF-8 (RFC 3629, section 3), as `Buffer.from` and `toString` of the platform use it for names. */
module Utf8 {
  import opened Bytes

  function EncodeChar(c: char): (b: Buffer)
    ensures 1 <= |b| <= 4
  {
    var n := c as int;
    if n < 0x80 then [n]
    else if n < 0x800 then [0xc0 + n / 0x40, Tail(n)]
    else if n < 0x1_0000 then [0xe0 + n / 0x1000, Tail(n / 0x40), Tail(n)]
    else [0xf0 + n / 0x4_0000, Tail(n / 0x1000), Tail(n / 0x40), Tail(n)]
  }

  /** A continuation byte with the low six bits. */
  function Tail(n: nat): (b: Byte) {
    0x80 + n % 0x40
  }

  function Encode(s: string): Buffer {
    if s == [] then [] else EncodeChar(s[0]) + Encode(s[1..])
  }

  /** How many bytes the character that starts with `b` takes. */
  function Width(b: Byte): (n: nat)
    ensures 1 <= n <= 4
  {
    if b < 0xc0 then 1 else if b < 0xe0 then 2 else if b < 0xf0 then 3 else 4
  }

  function Low(b: Byte, bound: nat): nat
    requires 0 < bound
  {
    b as int % bound
  }

  /** The number the first character stands for, -1 if the bytes are cut short or no continuation. */
  function CodePoint(b: Buffer): (n: int)
    requires b != []
  {
    var w := Width(b[0]);
    if |b| < w || (exists i :: 1 <= i < w && b[i] / 0x40 != 2) || 0x80 <= b[0] < 0xc0 then -1
    else if w == 1 then b[0]
    else if w == 2 then Low(b[0], 0x20) * 0x40 + Low(b[1], 0x40)
    else if w == 3 then Low(b[0], 0x10) * 0x1000 + Low(b[1], 0x40) * 0x40 + Low(b[2], 0x40)
    else Low(b[0], 0x10) * 0x4_0000 + Low(b[1], 0x40) * 0x1000 + Low(b[2], 0x40) * 0x40 + Low(b[3], 0x40)
  }

  predicate IsScalar(n: int) {
    0 <= n < 0xd800 || 0xe000 <= n < 0x11_0000
  }

  /** A byte that starts no character reads as the replacement character. */
  function Decode(b: Buffer): string
    decreases |b|
  {
    if b == [] then []
    else
      var n := CodePoint(b);
      if IsScalar(n) && n >= Least(Width(b[0])) then [n as char] + Decode(b[Width(b[0])..])
      else ['\U{FFFD}'] + Decode(b[1..])
  }

  /** The least number written in so many bytes; anything below is an overlong form. */
  function Least(width: nat): nat {
    if width <= 1 then 0 else if width == 2 then 0x80 else if width == 3 then 0x800 else 0x1_0000
  }

  lemma ReadsChar(c: char, rest: Buffer)
    ensures var b := EncodeChar(c) + rest;
      CodePoint(b) == c as int && Width(b[0]) == |EncodeChar(c)| && Least(Width(b[0])) <= c as int && IsScalar(c as int)
  {
    var n := c as int;
    if n < 0x80 {
    } else if n < 0x800 {
      TwoBytes(n);
    } else if n < 0x1_0000 {
      ThreeBytes(n);
    } else {
      FourBytes(n);
    }
  }

  lemma TwoBytes(n: nat)
    requires 0x80 <= n < 0x800
    ensures n == (0xc0 + n / 0x40) % 0x20 * 0x40 + Tail(n) % 0x40 && Tail(n) / 0x40 == 2
  {
    assert (0xc0 + n / 0x40) % 0x20 == n / 0x40;
    assert Tail(n) % 0x40 == n % 0x40;
  }

  lemma ThreeBytes(n: nat)
    requires 0x800 <= n < 0x1_0000
    ensures n == (0xe0 + n / 0x1000) % 0x10 * 0x1000 + Tail(n / 0x40) % 0x40 * 0x40 + Tail(n) % 0x40
    ensures Tail(n) / 0x40 == 2 == Tail(n / 0x40) / 0x40
  {
    assert (0xe0 + n / 0x1000) % 0x10 == n / 0x1000;
    assert n / 0x40 / 0x40 == n / 0x1000;
  }

  lemma FourBytes(n: nat)
    requires 0x1_0000 <= n < 0x11_0000
    ensures n == (0xf0 + n / 0x4_0000) % 0x10 * 0x4_0000 + Tail(n / 0x1000) % 0x40 * 0x1000
      + Tail(n / 0x40) % 0x40 * 0x40 + Tail(n) % 0x40
    ensures Tail(n) / 0x40 == 2 == Tail(n / 0x40) / 0x40 && Tail(n / 0x1000) / 0x40 == 2
  {
    assert (0xf0 + n / 0x4_0000) % 0x10 == n / 0x4_0000;
    assert n / 0x40 / 0x40 == n / 0x1000 && n / 0x1000 / 0x40 == n / 0x4_0000;
  }

  /** The table of RFC 3629, section 3: the marks of the leading and the following bytes, and the bits they carry. */
  lemma EncodesAsTabled(c: char)
    ensures var n: int, b: seq<int> := c as int, EncodeChar(c);
      && (n < 0x80 ==> b == [n])
      && (0x80 <= n < 0x800 ==>
          |b| == 2 && b[0] / 0x20 == 6 && b[1] / 0x40 == 2 && n == b[0] % 0x20 * 0x40 + b[1] % 0x40)
      && (0x800 <= n < 0x1_0000 ==>
          && |b| == 3 && b[0] / 0x10 == 0xe && b[1] / 0x40 == b[2] / 0x40 == 2
          && n == b[0] % 0x10 * 0x1000 + b[1] % 0x40 * 0x40 + b[2] % 0x40)
      && (0x1_0000 <= n ==>
          && |b| == 4 && b[0] / 8 == 0x1e && b[1] / 0x40 == b[2] / 0x40 == b[3] / 0x40 == 2
          && n == b[0] % 8 * 0x4_0000 + b[1] % 0x40 * 0x1000 + b[2] % 0x40 * 0x40 + b[3] % 0x40)
  {
    ReadsChar(c, []);
    assert EncodeChar(c) + [] == EncodeChar(c);
  }

  /** Decoding undoes encoding. */
  lemma {:induction false} DecodesEncoded(s: string)
    ensures Decode(Encode(s)) == s
  {
    hide EncodeChar, CodePoint, Width, Least, IsScalar;
    if s != [] {
      var c, rest := s[0], Encode(s[1..]);
      ReadsChar(c, rest);
      var b := EncodeChar(c) + rest;
      assert b[|EncodeChar(c)|..] == rest;
      DecodesEncoded(s[1..]);
      assert [c] + s[1..] == s;
    }
  }
}

/** Bytes, and 32-bit little-endian integers as memcpy copies them. */
module Bytes {

  type byte = b: int | 0 <= b < 256
  type bytes = seq<byte>

  const TWO31: int := 0x8000_0000
  const TWO32: int := 0x1_0000_0000
  const TWO64: int := 0x1_0000_0000_0000_0000

  type int32 = i: int | -0x8000_0000 <= i < 0x8000_0000

  /** A signed 32-bit sum as two's complement arithmetic leaves it. */
  function Wrap32(i: int): (w: int32)
    ensures (w - i) % TWO32 == 0
    ensures -TWO31 <= i < TWO31 ==> w == i
  {
    var m := i % TWO32;
    if m < TWO31 then m else m - TWO32
  }

  /** A signed integer converted to size_t. */
  function ToSize(i: int): nat {
    i % TWO64
  }

  /** Wrapping twice is wrapping once. */
  lemma WrapSum(a: int, b: int)
    ensures Wrap32(Wrap32(a) + b) == Wrap32(a + b)
  {
    assert (Wrap32(a) + b - (a + b)) % TWO32 == 0;
  }

  lemma SmallIsItself(i: int)
    requires 0 <= i < TWO31
    ensures Wrap32(i) == i && ToSize(i) == i
  {
  }

  /** The four bytes at the start of `s` as an unsigned number, least significant first. */
  function U32(s: bytes): (n: nat)
    requires |s| >= 4
    ensures n < TWO32
  {
    var b0: int, b1: int, b2: int, b3: int := s[0], s[1], s[2], s[3];
    b0 + 0x100 * b1 + 0x1_0000 * b2 + 0x100_0000 * b3
  }

  function I32(s: bytes): int32
    requires |s| >= 4
  {
    Wrap32(U32(s))
  }

  /** The four bytes of `i`, least significant first. */
  function LE32(i: int32): (s: bytes)
    ensures |s| == 4
  {
    var m := i % TWO32;
    [m % 0x100, m / 0x100 % 0x100, m / 0x1_0000 % 0x100, m / 0x100_0000]
  }

  lemma Digits(m: nat)
    requires m < TWO32
    ensures m == m % 0x100 + 0x100 * (m / 0x100 % 0x100)
                 + 0x1_0000 * (m / 0x1_0000 % 0x100) + 0x100_0000 * (m / 0x100_0000)
  {
    assert m / 0x100 == m / 0x100 % 0x100 + 0x100 * (m / 0x1_0000);
    assert m / 0x1_0000 == m / 0x1_0000 % 0x100 + 0x100 * (m / 0x100_0000);
  }

  lemma LE32RoundTrip(i: int32)
    ensures I32(LE32(i)) == i
    ensures U32(LE32(i)) == i % TWO32
  {
    Digits(i % TWO32);
  }

  lemma I32RoundTrip(s: bytes)
    requires |s| == 4
    ensures LE32(I32(s)) == s
  {
    var m := U32(s);
    UnwrapsTo(m);
    DigitsOf(s[0], s[1], s[2], s[3]);
  }

  lemma UnwrapsTo(m: nat)
    requires m < TWO32
    ensures Wrap32(m) % TWO32 == m
  {
  }

  lemma DigitsOf(b0: byte, b1: byte, b2: byte, b3: byte)
    ensures var m: int := b0 as int + 0x100 * (b1 as int) + 0x1_0000 * (b2 as int) + 0x100_0000 * (b3 as int);
            m % 0x100 == b0 && m / 0x100 % 0x100 == b1 && m / 0x1_0000 % 0x100 == b2 && m / 0x100_0000 == b3
  {
    var c0: int, c1: int, c2: int, c3: int := b0, b1, b2, b3;
    LowDigit(c1 + 0x100 * c2 + 0x1_0000 * c3, c0);
    LowDigit(c2 + 0x100 * c3, c1);
    LowDigit(c3, c2);
  }

  /** The last base-256 digit, and what is in front of it at each distance. */
  lemma LowDigit(q: nat, d: nat)
    requires d < 0x100
    ensures (d + 0x100 * q) % 0x100 == d && (d + 0x100 * q) / 0x100 == q
    ensures (d + 0x100 * q) / 0x1_0000 == q / 0x100 && (d + 0x100 * q) / 0x100_0000 == q / 0x1_0000
  {
  }

  /** Least significant byte first. */
  lemma LittleEndian(i: int32)
    ensures var s := LE32(i);
            (s[0] as int) + 256 * (s[1] as int) + 65536 * (s[2] as int) + 16777216 * (s[3] as int) == i % TWO32
  {
    Digits(i % TWO32);
  }

  /** Reading back an integer written in front of anything. */
  lemma ReadBack(i: int32, rest: bytes)
    ensures I32(LE32(i) + rest) == i && (LE32(i) + rest)[4..] == rest
    ensures i >= 0 ==> U32(LE32(i) + rest) == i
  {
    LE32RoundTrip(i);
  }
}

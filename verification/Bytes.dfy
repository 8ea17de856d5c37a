// Byte values and the little-endian integers that the C code reads and writes through casts.
module Bytes {

  type byte = x: int | 0 <= x < 256

  const TWO_TO_THE_32: nat := 0x1_0000_0000

  // Lengths are written as unsigned integers of 32 bits, but read as signed ones.
  const SIGNED_LIMIT: nat := 0x8000_0000

  lemma SignedFits(n: nat)
    requires n < SIGNED_LIMIT
    ensures n < TWO_TO_THE_32
  {
  }

  // Two bytes, low byte first, as LZ4_writeLE16 stores them.
  function LE16(v: nat): (s: seq<byte>)
    requires v < 0x1_0000
    ensures |s| == 2
  {
    [v % 256, v / 256]
  }

  function ReadLE16(s: seq<byte>, i: nat): nat
    requires i + 2 <= |s|
  {
    s[i] as int + 256 * s[i + 1] as int
  }

  // Four bytes, low byte first.
  function LE32(v: nat): (s: seq<byte>)
    requires v < TWO_TO_THE_32
    ensures |s| == 4
  {
    [v % 256, v / 256 % 256, v / 0x1_0000 % 256, v / 0x100_0000]
  }

  function ReadLE32(s: seq<byte>, i: nat): (v: nat)
    requires i + 4 <= |s|
    ensures v < TWO_TO_THE_32
  {
    s[i] as int + 256 * s[i + 1] as int + 0x1_0000 * s[i + 2] as int + 0x100_0000 * s[i + 3] as int
  }

  lemma LE32RoundTrip(v: nat, s: seq<byte>, i: nat)
    requires v < TWO_TO_THE_32 && i + 4 <= |s| && s[i..i + 4] == LE32(v)
    ensures ReadLE32(s, i) == v
  {
    var b := s[i..i + 4];
    assert b[0] == s[i] && b[1] == s[i + 1] && b[2] == s[i + 2] && b[3] == s[i + 3];
    assert v / 256 / 256 == v / 0x1_0000 && v / 0x1_0000 / 256 == v / 0x100_0000;
  }

  // Four bytes are the number that they are read as.
  lemma LE32Back(s: seq<byte>, i: nat)
    requires i + 4 <= |s|
    ensures s[i..i + 4] == LE32(ReadLE32(s, i))
  {
    FourBytes(s[i], s[i + 1], s[i + 2], s[i + 3]);
    assert s[i..i + 4] == [s[i], s[i + 1], s[i + 2], s[i + 3]];
  }

  lemma FourBytes(a: byte, b: byte, c: byte, d: byte)
    ensures var v := a as int + 256 * b as int + 0x1_0000 * c as int + 0x100_0000 * d as int;
      v % 256 == a && v / 256 % 256 == b && v / 0x1_0000 % 256 == c && v / 0x100_0000 == d
  {
    var w: nat, x: nat := b as int + 256 * c as int + 0x1_0000 * d as int, c as int + 256 * d as int;
    var v: nat := a as int + 256 * b as int + 0x1_0000 * c as int + 0x100_0000 * d as int;
    LowByte(a, w);
    LowByte(b, x);
    LowByte(c, d);
    assert v / 256 / 256 == v / 0x1_0000 && v / 0x1_0000 / 256 == v / 0x100_0000;
  }

  lemma LowByte(a: byte, w: nat)
    ensures (a as int + 256 * w) % 256 == a && (a as int + 256 * w) / 256 == w
  {
  }

  lemma LowByteFirst()
    ensures LE16(0x102) == [0x2, 0x1] && LE32(0x1020304) == [0x4, 0x3, 0x2, 0x1]
    ensures ReadLE16([0x2, 0x1], 0) == 0x102 && ReadLE32([0x4, 0x3, 0x2, 0x1], 0) == 0x1020304
  {
  }
}

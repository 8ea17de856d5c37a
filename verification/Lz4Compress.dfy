// LZ4_compress_generic without a dictionary, with its hash table, and the entry points that ac_lz4 uses.
// Whatever the table proposes, the output is a parse of the input.
module Lz4Compress {
  import opened Bytes
  import opened Lz4Format
  import opened Lz4RoundTrip
  import Lz4Copy

  datatype TableType = ClearedTable | ByU32 | ByU16

  const LIMIT_64K := 65547
  const TABLE_SIZE := 8192

  // ---------- hashing ----------

  function ReadLE(src: seq<byte>, p: nat, n: nat): nat
    requires p + n <= |src|
    decreases n
  {
    if n == 0 then 0 else src[p] as int + 256 * ReadLE(src, p + 1, n - 1)
  }

  function Hash4(v: nat): (h: nat)
    ensures h < TABLE_SIZE
  {
    v * 2654435761 % TWO_TO_THE_32 / 0x8_0000
  }

  function Hash5(v: nat): (h: nat)
    ensures h < TABLE_SIZE / 2
  {
    v * 0x100_0000 * 889523592379 % 0x1_0000_0000_0000_0000 / 0x10_0000_0000_0000
  }

  function HashPosition(src: seq<byte>, p: nat, tableType: TableType): (h: nat)
    requires p + 8 <= |src|
    ensures h < TABLE_SIZE
  {
    if tableType.ByU16? then Hash4(ReadLE(src, p, 4)) else Hash5(ReadLE(src, p, 8))
  }

  lemma {:induction false} ReadLESplit(src: seq<byte>, p: nat, n: nat, m: nat)
    requires p + n + m <= |src|
    ensures ReadLE(src, p, n + m) == ReadLE(src, p, n) + Pow256(n) * ReadLE(src, p + n, m)
    decreases n
  {
    if n > 0 {
      ReadLESplit(src, p + 1, n - 1, m);
      var r := ReadLE(src, p + n, m);
      assert Pow256(n) * r == 256 * (Pow256(n - 1) * r) by { Times256(Pow256(n - 1), r); }
    }
  }

  function Pow256(n: nat): nat {
    if n == 0 then 1 else 256 * Pow256(n - 1)
  }

  lemma Times256(a: nat, b: nat)
    ensures (256 * a) * b == 256 * (a * b)
  {
  }

  lemma Wraps64(x: nat, k: nat)
    ensures (x + 0x1_0000_0000_0000_0000 * k) % 0x1_0000_0000_0000_0000 == x % 0x1_0000_0000_0000_0000
  {
  }

  // The longer hash is one of five bytes.
  lemma FiveBytes(low: nat, high: nat)
    ensures Hash5(low + 0x100_0000_0000 * high) == Hash5(low)
  {
    var k := high * 889523592379;
    assert (low + 0x100_0000_0000 * high) * 0x100_0000 * 889523592379 == low * 0x100_0000 * 889523592379 + 0x1_0000_0000_0000_0000 * k;
    Wraps64(low * 0x100_0000 * 889523592379, k);
  }

  // Places where the same five bytes stand, or four for the small table, share an entry.
  lemma SameBytesSameHash(src: seq<byte>, p: nat, q: nat, tableType: TableType)
    requires p + 8 <= |src| && q + 8 <= |src| && SameRun(src, p, q, if tableType.ByU16? then 4 else 5)
    ensures HashPosition(src, p, tableType) == HashPosition(src, q, tableType)
  {
    hide ReadLE, Hash4, Hash5;
    var n := if tableType.ByU16? then 4 else 5;
    SameWord(src, p, q, n);
    if !tableType.ByU16? {
      assert Pow256(5) == 0x100_0000_0000;
      ReadLESplit(src, p, 5, 3);
      ReadLESplit(src, q, 5, 3);
      FiveBytes(ReadLE(src, p, 5), ReadLE(src, p + 5, 3));
      FiveBytes(ReadLE(src, q, 5), ReadLE(src, q + 5, 3));
    }
  }

  lemma {:induction false} SameWord(src: seq<byte>, p: nat, q: nat, n: nat)
    requires p + n <= |src| && q + n <= |src| && SameRun(src, p, q, n)
    ensures ReadLE(src, p, n) == ReadLE(src, q, n)
    decreases n
  {
    if n > 0 {
      RunAt(src, p, q, n, 0);
      assert src[p + 1..p + n] == src[p..p + n][1..] && src[q + 1..q + n] == src[q..q + n][1..];
      SameWord(src, p + 1, q + 1, n - 1);
    }
  }

  // The entries for the number 1, low byte first.
  lemma HashesOfOne()
    ensures HashPosition([1, 0, 0, 0, 0, 0, 0, 0], 0, ByU16) == 5062 && HashPosition([1, 0, 0, 0, 0, 0, 0, 0], 0, ByU32) == 3313
  {
    var src: seq<byte> := [1, 0, 0, 0, 0, 0, 0, 0];
    assert ReadLE(src, 0, 4) == 1 && ReadLE(src, 0, 8) == 1;
  }

  // ---------- LZ4_count ----------

  predicate SameRun(src: seq<byte>, p: nat, q: nat, n: nat)
    requires p + n <= |src| && q + n <= |src|
  {
    src[p..p + n] == src[q..q + n]
  }

  lemma JoinRuns(src: seq<byte>, p: nat, q: nat, n: nat, m: nat)
    requires p + n + m <= |src| && q + n + m <= |src|
    requires SameRun(src, p, q, n) && SameRun(src, p + n, q + n, m)
    ensures SameRun(src, p, q, n + m)
  {
    assert src[p..p + n + m] == src[p..p + n] + src[p + n..p + n + m];
    assert src[q..q + n + m] == src[q..q + n] + src[q + n..q + n + m];
  }

  lemma RunAt(src: seq<byte>, p: nat, q: nat, n: nat, k: nat)
    requires k < n && p + n <= |src| && q + n <= |src| && SameRun(src, p, q, n)
    ensures src[p + k] == src[q + k]
  {
    assert src[p..p + n][k] == src[q..q + n][k];
  }

  lemma EmptyRun(src: seq<byte>, p: nat, q: nat)
    requires p <= |src| && q <= |src|
    ensures SameRun(src, p, q, 0)
  {
  }

  lemma ShorterRun(src: seq<byte>, p: nat, q: nat, n: nat, m: nat)
    requires m <= n && p + n <= |src| && q + n <= |src| && SameRun(src, p, q, n)
    ensures SameRun(src, p, q, m)
  {
    assert src[p..p + m] == src[p..p + n][..m] && src[q..q + m] == src[q..q + n][..m];
  }

  // How many leading bytes two eight-byte words share, which is what LZ4_NbCommonBytes finds in their xor.
  method CommonBytes(src: seq<byte>, p: nat, q: nat) returns (n: nat)
    requires p + 8 <= |src| && q + 8 <= |src| && !SameRun(src, p, q, 8)
    ensures n < 8 && SameRun(src, p, q, n) && src[p + n] != src[q + n]
  {
    n := 0;
    while src[p + n] == src[q + n]
      invariant n < 8 && SameRun(src, p, q, n)
      decreases 8 - n
    {
      JoinRuns(src, p, q, n, 1);
      n := n + 1;
    }
  }

  // Compares eight, then four, two and one bytes at a time; the result is the longest common run.
  method Count(src: seq<byte>, pIn: nat, pMatch: nat, limit: nat) returns (n: nat)
    requires pMatch < pIn <= limit <= |src|
    ensures pIn + n <= limit && SameRun(src, pIn, pMatch, n)
    ensures pIn + n < limit ==> src[pIn + n] != src[pMatch + n]
  {
    hide SameRun;
    n := 0;
    EmptyRun(src, pIn, pMatch);
    while pIn + n + 7 < limit
      invariant pIn + n <= limit && SameRun(src, pIn, pMatch, n)
    {
      if !SameRun(src, pIn + n, pMatch + n, 8) {
        var c := CommonBytes(src, pIn + n, pMatch + n);
        JoinRuns(src, pIn, pMatch, n, c);
        return n + c;
      }
      JoinRuns(src, pIn, pMatch, n, 8);
      n := n + 8;
    }
    var tail := CountTail(src, pIn + n, pMatch + n, limit);
    JoinRuns(src, pIn, pMatch, n, tail);
    n := n + tail;
  }

  lemma RunOfTwo(src: seq<byte>, p: nat, q: nat)
    requires p + 2 <= |src| && q + 2 <= |src|
    ensures SameRun(src, p, q, 2) <==> src[p] == src[q] && src[p + 1] == src[q + 1]
  {
    assert src[p..p + 2] == [src[p], src[p + 1]] && src[q..q + 2] == [src[q], src[q + 1]];
    if SameRun(src, p, q, 2) {
      assert [src[p], src[p + 1]][0] == [src[q], src[q + 1]][0] && [src[p], src[p + 1]][1] == [src[q], src[q + 1]][1];
    }
  }

  lemma RunOfOne(src: seq<byte>, p: nat, q: nat)
    requires p < |src| && q < |src| && src[p] == src[q]
    ensures SameRun(src, p, q, 1)
  {
  }

  method CountTail(src: seq<byte>, p: nat, q: nat, limit: nat) returns (n: nat)
    requires q < p <= limit <= |src| && limit < p + 8
    ensures p + n <= limit && SameRun(src, p, q, n)
    ensures p + n < limit ==> src[p + n] != src[q + n]
  {
    n := 0;
    if p + 3 < limit && SameRun(src, p, q, 4) {
      n := 4;
    }
    n := CountLast(src, p, q, n, limit);
  }

  // Two bytes and one byte at a time, when the next four are known to differ or not to be there.
  method CountLast(src: seq<byte>, p: nat, q: nat, n0: nat, limit: nat) returns (n: nat)
    requires q < p <= limit <= |src| && p + n0 <= limit && SameRun(src, p, q, n0)
    requires limit < p + n0 + 4 || !SameRun(src, p + n0, q + n0, 4)
    ensures p + n <= limit && SameRun(src, p, q, n)
    ensures p + n < limit ==> src[p + n] != src[q + n]
  {
    hide SameRun;
    if p + n0 + 1 < limit {
      RunOfTwo(src, p + n0, q + n0);
      if SameRun(src, p + n0, q + n0, 2) {
        if p + n0 + 3 < limit {
          RunOfTwo(src, p + n0 + 2, q + n0 + 2);
          NotFour(src, p + n0, q + n0);
        }
        JoinRuns(src, p, q, n0, 2);
        n := CountOne(src, p, q, n0 + 2, limit);
        return;
      }
    }
    n := CountOne(src, p, q, n0, limit);
  }

  lemma NotFour(src: seq<byte>, p: nat, q: nat)
    requires p + 4 <= |src| && q + 4 <= |src| && SameRun(src, p, q, 2) && !SameRun(src, p, q, 4)
    ensures !SameRun(src, p + 2, q + 2, 2)
  {
    if SameRun(src, p + 2, q + 2, 2) {
      JoinRuns(src, p, q, 2, 2);
    }
  }

  method CountOne(src: seq<byte>, p: nat, q: nat, n0: nat, limit: nat) returns (n: nat)
    requires q < p <= limit <= |src| && p + n0 <= limit && SameRun(src, p, q, n0)
    requires p + n0 + 1 < limit && src[p + n0] == src[q + n0] ==> src[p + n0 + 1] != src[q + n0 + 1]
    ensures p + n <= limit && SameRun(src, p, q, n)
    ensures p + n < limit ==> src[p + n] != src[q + n]
  {
    hide SameRun;
    n := n0;
    if p + n0 < limit && src[q + n0] == src[p + n0] {
      RunOfOne(src, p + n0, q + n0);
      JoinRuns(src, p, q, n0, 1);
      n := n0 + 1;
    }
  }

  // ---------- writing ----------

  // Lengths as runs of 255 and a remainder, a byte at a time.
  method WriteLength(dest: array<byte>, op0: nat, n: nat, ghost end: nat) returns (op: nat)
    requires op0 + n / 255 + 1 <= end <= dest.Length
    modifies dest
    ensures op == op0 + n / 255 + 1 && dest[..op] == old(dest[..op0]) + LengthBytes(n)
    ensures dest[end..] == old(dest[end..])
  {
    var len := n;
    op := op0;
    while len >= 255
      invariant op + len / 255 == op0 + n / 255
      invariant dest[..op] + LengthBytes(len) == old(dest[..op0]) + LengthBytes(n)
      invariant dest[end..] == old(dest[end..])
    {
      ghost var before := dest[..op];
      dest[op] := 255;
      assert dest[..op + 1] + LengthBytes(len - 255) == before + LengthBytes(len);
      op := op + 1;
      len := len - 255;
    }
    ghost var before := dest[..op];
    dest[op] := len;
    assert dest[..op + 1] == before + LengthBytes(len);
    op := op + 1;
  }

  lemma {:induction false} FullLength(n: nat, m: nat)
    requires 255 * m <= n
    ensures LengthBytes(n) == seq(m, i => 255) + LengthBytes(n - 255 * m)
    decreases m
  {
    if m > 0 {
      FullLength(n - 255, m - 1);
      assert seq(m, i => 255 as byte) == [255] + seq(m - 1, i => 255);
    } else {
      assert seq(0, i => 255 as byte) == [];
    }
  }

  // The same bytes for a match length, four at a time: every write may run three bytes ahead.
  method WriteMatchLength(dest: array<byte>, op0: nat, n: nat, ghost end: nat) returns (op: nat)
    requires op0 + n / 255 + 4 <= end <= dest.Length
    modifies dest
    ensures op == op0 + n / 255 + 1 && dest[..op] == old(dest[..op0]) + LengthBytes(n)
    ensures dest[end..] == old(dest[end..])
  {
    var code := n;
    op := op0;
    ghost var out := dest[..op0];
    Write32(dest, op, end);
    ghost var m := 0;
    while code >= 4 * 255
      invariant op == op0 + 4 * m && code == n - 255 * (4 * m) && op + code / 255 == op0 + n / 255
      invariant dest[..op + 4] == out + seq(4 * m + 4, i => 255)
      invariant dest[end..] == old(dest[end..])
      decreases code
    {
      op := op + 4;
      Write32(dest, op, end);
      code := code - 4 * 255;
      m := m + 1;
    }
    FullLength(n, 4 * m + code / 255);
    assert code % 255 == n - 255 * (4 * m + code / 255);
    op := op + code / 255;
    assert dest[..op] == out + seq(4 * m + code / 255, i => 255);
    dest[op] := code % 255;
    op := op + 1;
    assert dest[..op] == dest[..op - 1] + [code % 255];
  }

  method Write32(dest: array<byte>, op: nat, ghost end: nat)
    requires op + 4 <= end <= dest.Length
    modifies dest
    ensures dest[..op + 4] == old(dest[..op]) + seq(4, i => 255)
    ensures dest[end..] == old(dest[end..])
  {
    dest[op], dest[op + 1], dest[op + 2], dest[op + 3] := 255, 255, 255, 255;
  }

  // A token that carries a literal length and no match length, with the length bytes it needs.
  method WriteRunLength(dest: array<byte>, op0: nat, n: nat, ghost end: nat) returns (op: nat)
    requires op0 + 1 + |Extra(n)| <= end <= dest.Length
    modifies dest
    ensures op == op0 + 1 + |Extra(n)|
    ensures dest[..op] == old(dest[..op0]) + ([16 * Nibble(n) as byte] + Extra(n))
    ensures dest[end..] == old(dest[end..])
  {
    hide LengthBytes;
    ghost var out := dest[..op0];
    op := op0 + 1;
    if n >= RUN_MASK {
      dest[op0] := RUN_MASK * 16;
      assert dest[..op] == out + [RUN_MASK * 16 as byte];
      op := WriteLength(dest, op, n - RUN_MASK, end);
    } else {
      dest[op0] := n * 16;
    }
  }

  // Token and literals of a sequence. In limited mode gives up unless eight more bytes are left.
  method EmitHead(src: seq<byte>, anchor: nat, ip: nat, dest: array<byte>, op0: nat, end: nat, limited: bool)
    returns (ok: bool, op: nat)
    requires anchor <= ip && ip + MFLIMIT <= |src| && op0 <= end <= dest.Length
    requires !limited ==> op0 + 1 + (ip - anchor) + 8 + (ip - anchor) / 255 <= end
    modifies dest
    ensures dest[end..] == old(dest[end..])
    ensures ok <==> !limited || op0 + 1 + (ip - anchor) + 8 + (ip - anchor) / 255 <= end
    ensures !ok ==> dest[..op0] == old(dest[..op0])
    ensures ok ==> op0 < op && op + 7 <= end && dest[..op] == old(dest[..op0]) + SequenceHead(src[anchor..ip], 0)
  {
    hide LengthBytes;
    var litLength := ip - anchor;
    ghost var out := dest[..op0];
    op := op0 + 1;
    if limited && op + litLength + (2 + 1 + LASTLITERALS) + litLength / 255 > end {
      return false, op;
    }
    op := WriteRunLength(dest, op0, litLength, end);
    ghost var head := [16 * Nibble(litLength) as byte] + Extra(litLength);
    Lz4Copy.WildCopyFrom(dest, op, src, anchor, op + litLength, end);
    op := op + litLength;
    ok := true;
    assert dest[..op] == out + head + src[anchor..ip] == out + SequenceHead(src[anchor..ip], 0);
  }

  function WithMatch(out: seq<byte>, token: nat, offset: nat, m: nat): seq<byte>
    requires token < |out| && out[token] % 16 == 0 && offset <= DISTANCE_MAX
  {
    out[token := out[token] + Nibble(m)] + (LE16(offset) + Extra(m))
  }

  // Offset and match length of the sequence whose token is at `token`.
  // The match is as long as it can be: it covers the `known` bytes that already agree.
  method EmitMatch(src: seq<byte>, ip0: nat, match0: nat, ghost known: nat, dest: array<byte>, token: nat, op0: nat,
                   end: nat, limited: bool)
    returns (ok: bool, op: nat, ip: nat)
    requires match0 < ip0 <= match0 + DISTANCE_MAX && ip0 + MFLIMIT <= |src|
    requires MINMATCH <= known && ip0 + known + LASTLITERALS <= |src| && SameRun(src, ip0, match0, known)
    requires token < op0 && op0 + 2 <= end <= dest.Length && dest[token] % 16 == 0
    requires !limited ==> op0 + 2 + (1 + LASTLITERALS) + (|src| - ip0) / 255 + 1 <= end
    modifies dest
    ensures dest[end..] == old(dest[end..])
    ensures ip0 + known <= ip <= |src| - LASTLITERALS && SameRun(src, ip0, match0, ip - ip0)
    ensures ip < |src| - LASTLITERALS ==> src[ip] != src[match0 + (ip - ip0)]
    ensures ok <==> !limited || op0 + 2 + (1 + LASTLITERALS) + (ip - ip0 - MINMATCH + 240) / 255 <= end
    ensures !ok ==> dest[..op0] == old(dest[..op0])
    ensures ok ==> op + 6 <= end && dest[..op] == WithMatch(old(dest[..op0]), token, ip0 - match0, ip - ip0 - MINMATCH)
  {
    hide LengthBytes, SameRun;
    ghost var out := dest[..op0];
    ghost var tail := dest[end..];
    var offset := ip0 - match0;
    dest[op0], dest[op0 + 1] := offset % 256, offset / 256;
    op := op0 + 2;
    assert dest[..op] == out + LE16(offset);
    var m := Count(src, ip0 + MINMATCH, match0 + MINMATCH, |src| - LASTLITERALS);
    ShorterRun(src, ip0, match0, known, MINMATCH);
    JoinRuns(src, ip0, match0, MINMATCH, m);
    ip := ip0 + m + MINMATCH;
    if ip < ip0 + known {
      RunAt(src, ip0, match0, known, ip - ip0);
      assert false;
    }
    if limited && op + (1 + LASTLITERALS) + (m + 240) / 255 > end {
      return false, op, ip;
    }
    ok := true;
    dest[token] := dest[token] + Nibble(m);
    assert dest[..op] == out[token := out[token] + Nibble(m)] + LE16(offset);
    if m >= 15 {
      op := WriteMatchLength(dest, op, m - 15, end);
    }
  }

  method EmitLast(src: seq<byte>, anchor: nat, dest: array<byte>, op0: nat, end: nat, limited: bool)
    returns (ok: bool, op: nat)
    requires anchor <= |src| && op0 <= end <= dest.Length
    requires !limited ==> op0 + (|src| - anchor) + 2 + (|src| - anchor) / 255 <= end
    modifies dest
    ensures dest[end..] == old(dest[end..])
    ensures ok <==> !limited || op0 + (|src| - anchor) + 1 + (|src| - anchor + 240) / 255 <= end
    ensures !ok ==> dest[..op0] == old(dest[..op0])
    ensures ok ==> op0 < op <= end && dest[..op] == old(dest[..op0]) + SequenceHead(src[anchor..], 0)
  {
    hide LengthBytes;
    var lastRun := |src| - anchor;
    ghost var out := dest[..op0];
    ghost var tail := dest[end..];
    if limited && op0 + lastRun + 1 + (lastRun + 255 - RUN_MASK) / 255 > end {
      return false, op0;
    }
    op := WriteRunLength(dest, op0, lastRun, end);
    ghost var head := dest[..op];
    Lz4Copy.CopyFrom(dest, op, src, anchor, lastRun);
    assert dest[end..] == dest[..][end..] == tail;
    assert dest[..op + lastRun] == dest[..][..op + lastRun] == head + src[anchor..];
    op := op + lastRun;
    ok := true;
    assert dest[..op] == out + SequenceHead(src[anchor..], 0);
  }

  // ---------- the parse grows ----------

  // What is written for a sequence, after the token has received the match length.
  lemma WithMatchIsSequence(out: seq<byte>, literals: seq<byte>, offset: nat, m: nat)
    requires offset <= DISTANCE_MAX
    ensures (out + SequenceHead(literals, 0))[|out|] % 16 == 0
    ensures WithMatch(out + SequenceHead(literals, 0), |out|, offset, m)
         == out + EncodeSequence(Sequence(literals, offset, m + MINMATCH))
  {
    hide LengthBytes, LE16, Extra;
    var head := SequenceHead(literals, 0);
    assert head[0 := head[0] + Nibble(m)] == SequenceHead(literals, Nibble(m));
    assert (out + head)[|out| := head[0] + Nibble(m)] == out + head[0 := head[0] + Nibble(m)];
    assert LE16(offset) + Extra(m) == SequenceTail(Sequence(literals, offset, m + MINMATCH));
  }

  lemma RunIsMatchCopy(src: seq<byte>, ip: nat, match0: nat, n: nat)
    requires match0 < ip && ip + n <= |src| && SameRun(src, ip, match0, n)
    ensures MatchCopy(src[..ip], ip - match0, n) == src[..ip + n]
  {
    var s := src[..ip + n];
    forall k | ip <= k < |s|
      ensures s[k] == s[k - (ip - match0)]
    {
      RunAt(src, ip, match0, n, k - ip);
    }
    Lz4Copy.PeriodicIsMatchCopy(src[..ip], ip - match0, s);
  }

  // The parse of src[..anchor], extended by literals up to `ip` and a verified match up to `next`.
  lemma ParseExtends(ss: seq<Sequence>, src: seq<byte>, anchor: nat, ip: nat, match0: nat, next: nat) returns (s: Sequence)
    requires anchor <= ip <= next && match0 < ip <= match0 + DISTANCE_MAX
    requires ip + MFLIMIT <= |src| && ip + MINMATCH <= next && next + LASTLITERALS <= |src|
    requires Parsed(ss, |src|) && Expand(ss) == src[..anchor] && SameRun(src, ip, match0, next - ip)
    ensures s == Sequence(src[anchor..ip], ip - match0, next - ip)
    ensures Parsed(ss + [s], |src|) && Expand(ss + [s]) == src[..next]
    ensures EncodeSequences(ss + [s]) == EncodeSequences(ss) + EncodeSequence(s)
  {
    hide Parsed, Expand, EncodeSequences, MatchCopy, SameRun;
    s := Sequence(src[anchor..ip], ip - match0, next - ip);
    assert src[..anchor] + s.literals == src[..ip];
    RunIsMatchCopy(src, ip, match0, next - ip);
    ParsedSnoc(ss, s, |src|);
  }

  lemma ParsedSnoc(ss: seq<Sequence>, s: Sequence, n: nat)
    requires Parsed(ss, n) && Restricted(s, |Expand(ss)|, n)
    ensures Parsed(ss + [s], n) && Expand(ss + [s]) == MatchCopy(Expand(ss) + s.literals, s.offset, s.matchLength)
    ensures EncodeSequences(ss + [s]) == EncodeSequences(ss) + EncodeSequence(s)
  {
    hide MatchCopy, EncodeSequence, Restricted;
    var more := ss + [s];
    assert more[..|more| - 1] == ss && more[|more| - 1] == s;
  }

  // ---------- data of equal bytes ----------

  // All bytes are the same.
  ghost predicate Flat(src: seq<byte>) {
    forall k | 0 <= k < |src| :: src[k] == src[0]
  }

  lemma {:induction false} FlatWords(src: seq<byte>, p: nat, q: nat, n: nat)
    requires Flat(src) && p + n <= |src| && q + n <= |src|
    ensures ReadLE(src, p, n) == ReadLE(src, q, n)
    decreases n
  {
    if n > 0 { FlatWords(src, p + 1, q + 1, n - 1); }
  }

  lemma FlatHashes(src: seq<byte>, p: nat, q: nat, kind: TableType)
    requires Flat(src) && p + 8 <= |src| && q + 8 <= |src|
    ensures HashPosition(src, p, kind) == HashPosition(src, q, kind)
  {
    FlatWords(src, p, q, 4);
    FlatWords(src, p, q, 8);
  }

  lemma FlatRun(src: seq<byte>, p: nat, q: nat, n: nat)
    requires Flat(src) && p + n <= |src| && q + n <= |src|
    ensures SameRun(src, p, q, n)
  {
    assert forall k | 0 <= k < |src| :: src[k] == src[0];
    assert src[p..p + n] == src[q..q + n];
  }

  // One byte, then copies of it up to the last five.
  function FlatSequence(src: seq<byte>): Sequence
    requires |src| > MFLIMIT
  {
    Sequence(src[0..1], 1, |src| - LASTLITERALS - 1)
  }

  // ---------- the hash table ----------

  // An entry of the table that stands for a place in the block, near enough, with the same four bytes as at ip.
  predicate Fitting(src: seq<byte>, ip: nat, entry: nat, start: nat, kind: TableType)
    requires ip + 4 <= |src| && entry < start + ip
  {
    start <= entry && (kind.ByU16? || start + ip <= entry + DISTANCE_MAX) && SameRun(src, ip, entry - start, 4)
  }

  class Stream {
    const hashTable: array<nat>
    var currentOffset: nat
    var tableType: TableType

    ghost predicate EntriesBelow(limit: nat)
      reads hashTable
    {
      hashTable.Length == TABLE_SIZE && forall h | 0 <= h < TABLE_SIZE :: hashTable[h] < limit
    }

    ghost predicate Valid()
      reads this, hashTable
    {
      && EntriesBelow(if currentOffset == 0 then 1 else currentOffset)
      && (tableType.ClearedTable? ==> currentOffset == 0)
    }

    // LZ4_initStream
    constructor ()
      ensures Valid() && currentOffset == 0 && tableType.ClearedTable? && fresh(hashTable)
    {
      hashTable := new nat[TABLE_SIZE](i => 0);
      currentOffset, tableType := 0, ClearedTable;
    }

    // LZ4_prepareTable: afterwards a table with history is one whose indices still fit.
    method PrepareTable(inputSize: nat, wanted: TableType)
      requires Valid() && !wanted.ClearedTable?
      modifies this, hashTable
      ensures Valid()
      ensures wanted.ByU16? && currentOffset > 0 ==> currentOffset + inputSize < 0xFFFF && inputSize < 4096
      ensures wanted.ByU32? && inputSize >= 4096 ==> currentOffset == 0
      ensures wanted.ByU32? ==> currentOffset <= 0x4000_0000 + 0x1_0000
    {
      if !tableType.ClearedTable? {
        if tableType != wanted
          || (wanted.ByU16? && currentOffset + inputSize >= 0xFFFF)
          || (wanted.ByU32? && currentOffset > 0x4000_0000)
          || inputSize >= 4096
        {
          forall h | 0 <= h < hashTable.Length {
            hashTable[h] := 0;
          }
          currentOffset := 0;
          tableType := ClearedTable;
        }
      }
      if currentOffset != 0 && wanted.ByU32? {
        currentOffset := currentOffset + 0x1_0000;
      }
    }

    // The candidate for position `ip`, which is also entered into the table: accepted only if it lies in the
    // block, near enough, and its first four bytes are really the same.
    method Probe(src: seq<byte>, ip: nat, h: nat, start: nat, kind: TableType, dictSmall: bool) returns (found: bool, match0: nat)
      requires 1 <= ip && ip + MFLIMIT <= |src| && h < TABLE_SIZE && EntriesBelow(start + ip)
      requires (start > 0 ==> dictSmall) && (kind.ByU16? ==> start + ip <= DISTANCE_MAX)
      modifies hashTable
      ensures EntriesBelow(start + ip + 1)
      ensures found <==> Fitting(src, ip, old(hashTable[h]), start, kind)
      ensures found ==> match0 == old(hashTable[h]) - start < ip <= match0 + DISTANCE_MAX && SameRun(src, ip, match0, 4)
    {
      var current := start + ip;
      var matchIndex := hashTable[h];
      hashTable[h] := current;
      if dictSmall && matchIndex < start { return false, 0; }
      if !kind.ByU16? && matchIndex + DISTANCE_MAX < current { return false, 0; }
      match0 := matchIndex - start;
      found := SameRun(src, match0, ip, 4);
    }

    method PutPosition(src: seq<byte>, p: nat, start: nat, kind: TableType)
      requires p + 8 <= |src| && hashTable.Length == TABLE_SIZE
      modifies hashTable
      ensures forall limit | start + p < limit && old(EntriesBelow(limit)) :: EntriesBelow(limit)
      ensures hashTable[HashPosition(src, p, kind)] == start + p
    {
      hashTable[HashPosition(src, p, kind)] := start + p;
    }

    // From `first`, in steps that grow, until a candidate is accepted or the match limit is passed.
    method FindMatch(src: seq<byte>, first: nat, start: nat, kind: TableType, dictSmall: bool, acceleration: nat)
      returns (found: bool, ip: nat, match0: nat)
      requires 1 <= first && first + MFLIMIT <= |src| + 1 && EntriesBelow(start + first) && acceleration >= 1
      requires (start > 0 ==> dictSmall) && (kind.ByU16? ==> start + |src| - MFLIMIT <= DISTANCE_MAX)
      modifies hashTable
      ensures EntriesBelow(start + |src|)
      ensures found ==> first <= ip && ip + MFLIMIT <= |src| && EntriesBelow(start + ip + 1)
      ensures found ==> match0 < ip <= match0 + DISTANCE_MAX && SameRun(src, ip, match0, 4)
      ensures first + MFLIMIT <= |src| && Fitting(src, first, old(hashTable[HashPosition(src, first, kind)]), start, kind) ==>
                found && ip == first && match0 == old(hashTable[HashPosition(src, first, kind)]) - start
    {
      hide HashPosition, SameRun, Fitting;
      var forwardIp: nat := first;
      var forwardH: nat := HashPosition(src, forwardIp, kind);
      var step := 1;
      var searchMatchNb := acceleration * 64;
      while true
        invariant first <= forwardIp && forwardIp + MFLIMIT <= |src| + 1 && forwardH < TABLE_SIZE
        invariant step >= 1 && searchMatchNb >= 64 && EntriesBelow(start + forwardIp)
        invariant forwardH == HashPosition(src, forwardIp, kind)
        invariant if forwardIp == first then step == 1 && hashTable[forwardH] == old(hashTable[HashPosition(src, first, kind)])
                  else first + MFLIMIT <= |src| ==> !Fitting(src, first, old(hashTable[HashPosition(src, first, kind)]), start, kind)
        decreases |src| - forwardIp
      {
        var h := forwardH;
        ip := forwardIp;
        forwardIp := forwardIp + step;
        step := searchMatchNb / 64;
        searchMatchNb := searchMatchNb + 1;
        if forwardIp > |src| - MFLIMIT + 1 { return false, 0, 0; }
        forwardH := HashPosition(src, forwardIp, kind);
        found, match0 := Probe(src, ip, h, start, kind, dictSmall);
        if found { return; }
      }
    }

    // From a sequence whose head is written: its match, then every sequence without literals that follows at
    // once because the very next position has a candidate too.
    method EmitMatches(src: seq<byte>, dest: array<byte>, anchor: nat, ip0: nat, match0: nat, ghost known0: nat, token0: nat,
                       op0: nat, end: nat, limited: bool, start: nat, kind: TableType, dictSmall: bool,
                       ghost out: seq<byte>, ghost ss0: seq<Sequence>)
      returns (ok: bool, op: nat, ip: nat, ghost ss: seq<Sequence>)
      requires Pending(src, dest, anchor, ip0, match0, known0, token0, op0, end, limited, out, ss0)
      requires EntriesBelow(start + ip0 + known0)
      requires (start > 0 ==> dictSmall) && (kind.ByU16? ==> start + |src| - MFLIMIT <= DISTANCE_MAX)
      modifies hashTable, dest
      ensures dest[end..] == old(dest[end..]) && (|out| + Room(|src|) <= end ==> ok)
      ensures EntriesBelow(start + |src|)
      ensures !ok ==> |out| <= dest.Length && dest[..|out|] == out
      ensures ok ==> ip0 + known0 <= ip && op <= end && Parses(src, dest, ip, op, out, ss)
      ensures ok && ip + MFLIMIT <= |src| ==> EntriesBelow(start + ip + 1)
      ensures ok && Flat(src) ==> ip == |src| - LASTLITERALS && anchor <= ip0 && match0 < ip0
      ensures ok && Flat(src) ==> ss == ss0 + [Sequence(src[anchor..ip0], ip0 - match0, |src| - LASTLITERALS - ip0)]
    {
      hide SameRun, HashPosition, Parses, Pending, Fitting, Flat;
      PendingBounds(src, dest, anchor, ip0, match0, known0, token0, op0, end, limited, out, ss0);
      var token: nat, match1: nat, from: nat := token0, match0, anchor;
      ghost var known := known0;
      ip, op, ss := ip0, op0, ss0;
      while true
        invariant ip0 + known0 <= ip + known && ip + known + LASTLITERALS <= |src| && op <= end <= dest.Length && MINMATCH <= known
        invariant Pending(src, dest, from, ip, match1, known, token, op, end, limited, out, ss)
        invariant EntriesBelow(start + ip + known)
        invariant dest[end..] == old(dest[end..])
        invariant Flat(src) ==> ip == ip0 && from == anchor && match1 == match0 && ss == ss0
        decreases |src| - ip
      {
        ok, op, ip, ss := EmitSequence(src, dest, from, ip, match1, known, token, op, end, limited, out, ss);
        if !ok || ip >= |src| - MFLIMIT + 1 { return; }
        PutPosition(src, ip - 2, start, kind);
        var found;
        found, match1 := Probe(src, ip, HashPosition(src, ip, kind), start, kind, dictSmall);
        if !found { return; }
        from, token := ip, op;
        op := EmitEmptyHead(src, dest, ip, match1, op, end, limited, out, ss);
        known := MINMATCH;
      }
    }
  
    // One search, and if it finds a match, everything up to where the next search starts.
    method CompressStep(src: seq<byte>, dest: array<byte>, anchor: nat, ip0: nat, op0: nat, end: nat, limited: bool, start: nat,
                        kind: TableType, dictSmall: bool, acceleration: nat, ghost out: seq<byte>, ghost ss0: seq<Sequence>)
      returns (found: bool, ok: bool, op: nat, ip: nat, ghost ss: seq<Sequence>)
      requires Parses(src, dest, anchor, op0, out, ss0) && anchor <= ip0 && 1 <= ip0 && ip0 + MFLIMIT <= |src| + 1
      requires op0 <= end <= dest.Length && (!limited ==> |out| + |src| + |src| / 255 + 16 <= end)
      requires EntriesBelow(start + ip0) && acceleration >= 1
      requires (start > 0 ==> dictSmall) && (kind.ByU16? ==> start + |src| - MFLIMIT <= DISTANCE_MAX)
      modifies hashTable, dest
      ensures dest[end..] == old(dest[end..]) && (|out| + Room(|src|) <= end ==> ok) && EntriesBelow(start + |src|)
      ensures !ok ==> |out| <= dest.Length && dest[..|out|] == out
      ensures ok && found ==> ip0 < ip && op <= end && Parses(src, dest, ip, op, out, ss)
      ensures ok && found && ip + MFLIMIT <= |src| ==> EntriesBelow(start + ip + 1)
      ensures ok && !found ==> Parses(src, dest, anchor, op0, out, ss0)
      ensures ok && Flat(src) && anchor == 0 && ip0 == 1 && MFLIMIT < |src| && old(hashTable[HashPosition(src, 1, kind)]) == start ==>
                found && ip == |src| - LASTLITERALS && ss == ss0 + [FlatSequence(src)]
    {
      hide SameRun, Expand, Parsed, SequenceHead, EncodeSequences, Pending;
      var match0;
      ok, op, ss := true, op0, ss0;
      ghost var flat := Flat(src) && anchor == 0 && ip0 == 1 && MFLIMIT < |src| && hashTable[HashPosition(src, 1, kind)] == start;
      if flat { FlatFits(src, start, kind); }
      found, ip, match0 := FindMatch(src, ip0, start, kind, dictSmall, acceleration);
      if !found { return; }
      var ip1, match1 := CatchUp(src, anchor, ip, match0);
      HeadBudget(src, anchor, ip1 - anchor, |out|, op0, ss0, end, limited);
      HeadRoom(src, anchor, ip1 - anchor, |out|, op0, ss0, end);
      PrefixOf(src, dest, anchor, op0, out, ss0);
      ok, op := EmitHead(src, anchor, ip1, dest, op0, end, limited);
      if !ok { PrefixOf(src, dest, anchor, op0, out, ss0); return; }
      HeadPends(src, dest, anchor, ip1, match1, ip - ip1 + 4, op0, op, end, limited, out, ss0);
      ok, op, ip, ss := EmitMatches(src, dest, anchor, ip1, match1, ip - ip1 + 4, op0, op, end, limited, start, kind,
                                    dictSmall, out, ss0);
    }

    // The main loop, from the second position on. `out` is what stood in the destination before.
    method MainLoop(src: seq<byte>, dest: array<byte>, base: nat, end: nat, limited: bool, start: nat, kind: TableType,
                    dictSmall: bool, acceleration: nat, ghost out: seq<byte>)
      returns (ok: bool, op: nat, anchor: nat, ghost ss: seq<Sequence>)
      requires MFLIMIT < |src| && Parses(src, dest, 0, base, out, []) && EntriesBelow(start + 1) && acceleration >= 1
      requires base == |out| <= end <= dest.Length && (!limited ==> |out| + |src| + |src| / 255 + 16 <= end)
      requires (start > 0 ==> dictSmall) && (kind.ByU16? ==> start + |src| - MFLIMIT <= DISTANCE_MAX)
      requires hashTable[HashPosition(src, 0, kind)] == start
      modifies hashTable, dest
      ensures dest[end..] == old(dest[end..]) && (|out| + Room(|src|) <= end ==> ok) && EntriesBelow(start + |src|)
      ensures !ok ==> dest[..base] == out
      ensures ok ==> base <= op <= end && Parses(src, dest, anchor, op, out, ss)
      ensures ok && Flat(src) ==> ss == [FlatSequence(src)] && anchor == |src| - LASTLITERALS
    {
      hide Parsed, Expand, EncodeSequences, SequenceHead, Flat, Parses, Fitting;
      var ip: nat;
      ok, op, anchor, ip, ss := true, base, 0, 1, [];
      if Flat(src) { FlatHashes(src, 0, 1, kind); }
      while true
        invariant Flat(src) ==> anchor == 0 && ip == 1 && ss == [] && hashTable[HashPosition(src, 1, kind)] == start
        invariant Parses(src, dest, anchor, op, out, ss) && base <= op <= end && ok
        invariant anchor <= ip && 1 <= ip && ip + MFLIMIT <= |src| + 1 && EntriesBelow(start + ip)
        invariant dest[end..] == old(dest[end..])
        decreases |src| - ip
      {
        var found, op1, ip1;
        ghost var ss1;
        found, ok, op1, ip1, ss1 := CompressStep(src, dest, anchor, ip, op, end, limited, start, kind, dictSmall, acceleration, out, ss);
        if !ok || !found { return; }
        PrefixOf(src, dest, ip1, op1, out, ss1);
        op, anchor, ss := op1, ip1, ss1;
        if ip1 >= |src| - MFLIMIT + 1 { return; }
        ip := ip1 + 1;
      }
    }

    // The result is 0 when nothing was written; otherwise the output is a parse of `src`.
    method CompressGeneric(src: seq<byte>, dest: array<byte>, base: nat, cap: nat, limited: bool, kind: TableType,
                           dictSmall: bool, acceleration: nat)
      returns (r: nat, ghost ss: seq<Sequence>, ghost last: seq<byte>)
      requires Valid() && !kind.ClearedTable? && acceleration >= 1
      requires base + cap <= dest.Length && (!limited ==> CompressBound(|src|) <= cap)
      requires currentOffset > 0 ==> dictSmall
      requires kind.ByU16? ==> currentOffset + |src| < LIMIT_64K
      modifies this, hashTable, dest
      ensures Valid()
      ensures dest[..base] == old(dest[..base]) && dest[base + cap..] == old(dest[base + cap..])
      ensures |src| <= MAX_INPUT_SIZE && Room(|src|) <= cap ==> r > 0
      ensures |src| > MAX_INPUT_SIZE ==> r == 0
      ensures r > 0 ==> r <= cap && IsParse(ss, last, src) && dest[base..base + r] == EncodeBlock(ss, last)
      ensures r > 0 && Flat(src) && MFLIMIT < |src| ==> ss == [FlatSequence(src)] && |last| == LASTLITERALS
    {
      hide Parsed, Expand, EncodeSequences, SequenceHead, Flat;
      r, ss, last := 0, [], [];
      if |src| > MAX_INPUT_SIZE { return; }
      var start, end := currentOffset, base + cap;
      ghost var out := dest[..base];
      currentOffset, tableType := currentOffset + |src|, kind;
      EmptyParse(src, dest, base);
      var op: nat, anchor: nat := base, 0;
      if |src| >= MFLIMIT + 1 {
        var ok;
        PutPosition(src, 0, start, kind);
        ok, op, anchor, ss := MainLoop(src, dest, base, end, limited, start, kind, dictSmall, acceleration, out);
        if !ok { return; }
      }
      assert |src| > 0 ==> EntriesBelow(start + |src|);
      PrefixOf(src, dest, anchor, op, out, ss);
      assert Flat(src) && MFLIMIT < |src| ==> ss == [FlatSequence(src)] && anchor == |src| - LASTLITERALS;
      r, last := FinishBlock(src, dest, base, anchor, op, end, limited, out, ss);
    }

    // LZ4_compress_fast_extState_fastReset on a 64-bit machine.
    method CompressFastReset(src: seq<byte>, dest: array<byte>, base: nat, cap: nat, acceleration0: int)
      returns (r: nat, ghost ss: seq<Sequence>, ghost last: seq<byte>)
      requires Valid() && base + cap <= dest.Length
      modifies this, hashTable, dest
      ensures Valid()
      ensures dest[..base] == old(dest[..base]) && dest[base + cap..] == old(dest[base + cap..])
      ensures |src| <= MAX_INPUT_SIZE && cap >= Room(|src|) ==> r > 0
      ensures |src| > MAX_INPUT_SIZE ==> r == 0
      ensures r > 0 ==> r <= cap && IsParse(ss, last, src) && dest[base..base + r] == EncodeBlock(ss, last)
      ensures r > 0 && Flat(src) && MFLIMIT < |src| ==> ss == [FlatSequence(src)] && |last| == LASTLITERALS
    {
      hide IsParse, EncodeBlock, Flat;
      var acceleration := if acceleration0 < 1 then 1 else acceleration0;
      var limited := cap < CompressBound(|src|);
      if |src| < LIMIT_64K {
        PrepareTable(|src|, ByU16);
        r, ss, last := CompressGeneric(src, dest, base, cap, limited, ByU16, currentOffset > 0, acceleration);
      } else {
        PrepareTable(|src|, ByU32);
        r, ss, last := CompressGeneric(src, dest, base, cap, limited, ByU32, false, acceleration);
      }
    }
  }

  // The last literals; the result is 0 when there is no room for them.
  method FinishBlock(src: seq<byte>, dest: array<byte>, base: nat, anchor: nat, op: nat, end: nat, limited: bool,
                     ghost out: seq<byte>, ghost ss: seq<Sequence>)
    returns (r: nat, ghost last: seq<byte>)
    requires Parses(src, dest, anchor, op, out, ss) && base == |out| <= op <= end <= dest.Length
    requires !limited ==> |out| + |src| + |src| / 255 + 16 <= end
    modifies dest
    ensures dest[end..] == old(dest[end..]) && |out| + r <= end && dest[..|out|] == out
    ensures |out| + Room(|src|) <= end ==> r > 0
    ensures r > 0 ==> IsParse(ss, last, src) && dest[|out|..|out| + r] == EncodeBlock(ss, last) && last == src[anchor..]
  {
    hide Parsed, Expand, EncodeSequences, SequenceHead, IsParse, EncodeBlock;
    HeadBudget(src, anchor, |src| - anchor, |out|, op, ss, end, limited);
    HeadRoom(src, anchor, |src| - anchor, |out|, op, ss, end);
    PrefixOf(src, dest, anchor, op, out, ss);
    r, last := 0, [];
    ghost var before := dest[..op];
    var ok, done := EmitLast(src, anchor, dest, op, end, limited);
    assert !ok ==> dest[..|out|] == dest[..op][..|out|];
    if !ok { return; }
    last := src[anchor..];
    r := done - base;
    BlockWritten(src, dest, anchor, op, done, out, ss);
  }

  // What is written up to `op` is the encoding of a parse of src[..anchor].
  ghost predicate Parses(src: seq<byte>, dest: array<byte>, anchor: nat, op: nat, out: seq<byte>, ss: seq<Sequence>)
    reads dest
  {
    && anchor <= |src| && op <= dest.Length && (ss != [] ==> anchor + LASTLITERALS <= |src|)
    && Parsed(ss, |src|) && Expand(ss) == src[..anchor]
    && dest[..op] == out + EncodeSequences(ss)
  }

  // A parse of src[..anchor] and then the head of a sequence whose match is verified but not yet written.
  ghost predicate Pending(src: seq<byte>, dest: array<byte>, anchor: nat, ip: nat, match0: nat, known: nat, token: nat,
                          op: nat, end: nat, limited: bool, out: seq<byte>, ss: seq<Sequence>)
    reads dest
  {
    && anchor <= ip && match0 < ip <= match0 + DISTANCE_MAX && ip + MFLIMIT <= |src|
    && MINMATCH <= known && ip + known + LASTLITERALS <= |src| && SameRun(src, ip, match0, known)
    && Parsed(ss, |src|) && Expand(ss) == src[..anchor] && token == |out| + |EncodeSequences(ss)|
    && token < op && op + 2 <= end <= dest.Length && (!limited ==> |out| + |src| + |src| / 255 + 16 <= end)
    && dest[..op] == out + EncodeSequences(ss) + SequenceHead(src[anchor..ip], 0)
  }

  lemma PrefixOf(src: seq<byte>, dest: array<byte>, anchor: nat, op: nat, out: seq<byte>, ss: seq<Sequence>)
    requires Parses(src, dest, anchor, op, out, ss)
    ensures |out| <= op <= dest.Length && dest[..|out|] == out
  {
    assert dest[..|out|] == dest[..op][..|out|];
  }

  lemma EmptyParse(src: seq<byte>, dest: array<byte>, base: nat)
    requires base <= dest.Length
    ensures Parses(src, dest, 0, base, dest[..base], [])
  {
  }

  lemma HeadPends(src: seq<byte>, dest: array<byte>, anchor: nat, ip: nat, match0: nat, known: nat, token: nat,
                  op: nat, end: nat, limited: bool, out: seq<byte>, ss: seq<Sequence>)
    requires anchor <= ip && match0 < ip <= match0 + DISTANCE_MAX && ip + MFLIMIT <= |src|
    requires MINMATCH <= known && ip + known + LASTLITERALS <= |src| && SameRun(src, ip, match0, known)
    requires Parsed(ss, |src|) && Expand(ss) == src[..anchor] && token == |out| + |EncodeSequences(ss)|
    requires token < op && op + 2 <= end <= dest.Length && (!limited ==> |out| + |src| + |src| / 255 + 16 <= end)
    requires dest[..op] == out + EncodeSequences(ss) + SequenceHead(src[anchor..ip], 0)
    ensures Pending(src, dest, anchor, ip, match0, known, token, op, end, limited, out, ss)
  {
  }

  // Room for a head, and for the last literals, when the output is not limited.
  lemma HeadBudget(src: seq<byte>, anchor: nat, n: nat, base: nat, op: nat, ss: seq<Sequence>, end: nat, limited: bool)
    requires Parsed(ss, |src|) && anchor + n <= |src| && Expand(ss) == src[..anchor] && op == base + |EncodeSequences(ss)|
    requires !limited ==> base + |src| + |src| / 255 + 16 <= end
    ensures !limited ==> op + n + n / 255 + 16 + (|src| - anchor - n) <= end
  {
    hide Parsed, Expand, EncodeSequences;
    SequencesSize(ss, |src|);
    assert anchor / 255 + n / 255 <= (anchor + n) / 255 <= |src| / 255;
  }

  lemma BlockWritten(src: seq<byte>, dest: array<byte>, anchor: nat, op: nat, done: nat, out: seq<byte>, ss: seq<Sequence>)
    requires anchor <= |src| && op < done <= dest.Length && Parsed(ss, |src|) && Expand(ss) == src[..anchor]
    requires dest[..done] == out + EncodeSequences(ss) + SequenceHead(src[anchor..], 0)
    ensures IsParse(ss, src[anchor..], src)
    ensures |out| <= done && dest[..|out|] == out && dest[|out|..done] == EncodeBlock(ss, src[anchor..])
  {
    hide Parsed, Expand, EncodeSequences, SequenceHead;
    assert src[..anchor] + src[anchor..] == src;
    assert dest[..|out|] == dest[..done][..|out|];
    assert dest[|out|..done] == dest[..done][|out|..];
  }

  lemma PendingBounds(src: seq<byte>, dest: array<byte>, anchor: nat, ip: nat, match0: nat, known: nat, token: nat,
                      op: nat, end: nat, limited: bool, out: seq<byte>, ss: seq<Sequence>)
    requires Pending(src, dest, anchor, ip, match0, known, token, op, end, limited, out, ss)
    ensures MINMATCH <= known && ip + known + LASTLITERALS <= |src| && op <= end <= dest.Length
    ensures !limited ==> |out| + |src| + |src| / 255 + 16 <= end
  {
  }

  method EmitSequence(src: seq<byte>, dest: array<byte>, ghost anchor: nat, ip0: nat, match0: nat, ghost known: nat, token: nat,
                      op0: nat, end: nat, limited: bool, ghost out: seq<byte>, ghost ss0: seq<Sequence>)
    returns (ok: bool, op: nat, ip: nat, ghost ss: seq<Sequence>)
    requires Pending(src, dest, anchor, ip0, match0, known, token, op0, end, limited, out, ss0)
    modifies dest
    ensures dest[end..] == old(dest[end..]) && (|out| + Room(|src|) <= end ==> ok)
    ensures !ok ==> |out| <= op0 && dest[..|out|] == out
    ensures ok ==> ip0 + known <= ip <= |src| - LASTLITERALS && op + 6 <= end && Parses(src, dest, ip, op, out, ss)
    ensures ok ==> anchor <= ip0 && match0 < ip0 && ss == ss0 + [Sequence(src[anchor..ip0], ip0 - match0, ip - ip0)]
    ensures ok && Flat(src) ==> ip == |src| - LASTLITERALS
  {
    hide SameRun, Parsed, Expand, SequenceHead, EncodeSequence, WithMatch;
    MatchBudget(ss0, src, anchor, ip0, |out|, op0, end, limited);
    ghost var encoded := out + EncodeSequences(ss0);
    ghost var offset := ip0 - match0;
    WithMatchIsSequence(encoded, src[anchor..ip0], offset, 0);
    assert dest[token] == dest[..op0][token];
    assert dest[..op0][..|out|] == out;
    ok, op, ip := EmitMatch(src, ip0, match0, known, dest, token, op0, end, limited);
    MatchRoom(ss0, src, anchor, ip0, |out|, op0, end, ip - ip0 - MINMATCH);
    ss := ss0;
    assert !ok ==> dest[..|out|] == dest[..op0][..|out|];
    if ok {
      WithMatchIsSequence(encoded, src[anchor..ip0], offset, ip - ip0 - MINMATCH);
      ghost var s := ParseExtends(ss0, src, anchor, ip0, match0, ip);
      ss := ss0 + [s];
      assert out + EncodeSequences(ss) == encoded + EncodeSequence(s);
    }
  }

  // token = op++; *token = 0
  method EmitEmptyHead(src: seq<byte>, dest: array<byte>, ip: nat, ghost match0: nat, op0: nat, end: nat, ghost limited: bool,
                       ghost out: seq<byte>, ghost ss: seq<Sequence>)
    returns (op: nat)
    requires Parses(src, dest, ip, op0, out, ss) && op0 + 6 <= end <= dest.Length
    requires match0 < ip <= match0 + DISTANCE_MAX && ip + MFLIMIT <= |src| && SameRun(src, ip, match0, MINMATCH)
    requires !limited ==> |out| + |src| + |src| / 255 + 16 <= end
    modifies dest
    ensures dest[end..] == old(dest[end..]) && op == op0 + 1
    ensures Pending(src, dest, ip, ip, match0, MINMATCH, op0, op, end, limited, out, ss)
  {
    hide SameRun, Parsed, Expand, EncodeSequence;
    ghost var before := dest[..op0];
    dest[op0] := 0;
    op := op0 + 1;
    EmptyHeadOf(src, ip);
    assert dest[..op] == before + [0];
  }

  lemma EmptyHeadOf(src: seq<byte>, ip: nat)
    requires ip <= |src|
    ensures SequenceHead(src[ip..ip], 0) == [0]
  {
    assert src[ip..ip] == [];
  }

  // Room for a match after the head of its sequence, when the output is not limited.
  lemma MatchBudget(ss: seq<Sequence>, src: seq<byte>, anchor: nat, ip: nat, base: nat, op: nat, end: nat, limited: bool)
    requires anchor <= ip && ip + MFLIMIT <= |src| && Parsed(ss, |src|) && Expand(ss) == src[..anchor]
    requires op == base + |EncodeSequences(ss)| + |SequenceHead(src[anchor..ip], 0)|
    requires !limited ==> base + |src| + |src| / 255 + 16 <= end
    ensures !limited ==> op + 2 + (1 + LASTLITERALS) + (|src| - ip) / 255 + 1 <= end
  {
    hide SequenceHead, Parsed, Expand, EncodeSequences;
    SequencesSize(ss, |src|);
    HeadSize(src[anchor..ip], anchor);
  }

  // The same when it is, and has the room that the data alone would need.
  lemma MatchRoom(ss: seq<Sequence>, src: seq<byte>, anchor: nat, ip: nat, base: nat, op: nat, end: nat, m: nat)
    requires anchor <= ip && ip + m + MINMATCH + LASTLITERALS <= |src| && Parsed(ss, |src|) && Expand(ss) == src[..anchor]
    requires op == base + |EncodeSequences(ss)| + |SequenceHead(src[anchor..ip], 0)|
    ensures base + Room(|src|) <= end ==> op + 2 + (1 + LASTLITERALS) + (m + 240) / 255 <= end
  {
    hide SequenceHead, Parsed, Expand, EncodeSequences;
    SequencesSize(ss, |src|);
    HeadSize(src[anchor..ip], anchor);
    assert ip / 255 + (m + 240) / 255 <= (ip + m + 240) / 255 <= (|src| + 240) / 255;
  }

  lemma HeadRoom(src: seq<byte>, anchor: nat, n: nat, base: nat, op: nat, ss: seq<Sequence>, end: nat)
    requires Parsed(ss, |src|) && anchor + n <= |src| && Expand(ss) == src[..anchor] && op == base + |EncodeSequences(ss)|
    ensures base + Room(|src|) <= end && anchor + n + MFLIMIT <= |src| ==> op + 1 + n + 8 + n / 255 <= end
    ensures base + Room(|src|) <= end && anchor + n == |src| ==> op + n + 1 + (n + 240) / 255 <= end
  {
    hide Parsed, Expand, EncodeSequences;
    SequencesSize(ss, |src|);
    assert anchor / 255 + n / 255 <= (anchor + n) / 255 <= (|src| + 240) / 255;
    assert anchor / 255 + (n + 240) / 255 <= (anchor + n + 240) / 255;
  }

  // The first position of flat data is a match for the second.
  lemma FlatFits(src: seq<byte>, start: nat, kind: TableType)
    requires Flat(src) && MFLIMIT < |src|
    ensures Fitting(src, 1, start, start, kind)
  {
    FlatRun(src, 1, 0, 4);
  }

  // The match grows backwards over literals that also agree.
  method CatchUp(src: seq<byte>, anchor: nat, ip0: nat, match0: nat) returns (ip: nat, m: nat)
    requires anchor <= ip0 && match0 < ip0 && ip0 + 4 <= |src| && SameRun(src, ip0, match0, 4)
    ensures anchor <= ip <= ip0 && ip - m == ip0 - match0 && SameRun(src, ip, m, ip0 - ip + 4)
  {
    ip, m := ip0, match0;
    while ip > anchor && m > 0 && src[ip - 1] == src[m - 1]
      invariant anchor <= ip <= ip0 && ip - m == ip0 - match0 && SameRun(src, ip, m, ip0 - ip + 4)
    {
      RunOfOne(src, ip - 1, m - 1);
      JoinRuns(src, ip - 1, m - 1, 1, ip0 - ip + 4);
      ip, m := ip - 1, m - 1;
    }
  }
}

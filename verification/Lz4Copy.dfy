// The decoder's copies: memcpy in blocks of eight that may overshoot, and the two small tables that turn
// an offset below 8 into one that block copies can use. All of them are shown to be MatchCopy.
module Lz4Copy {
  import opened Bytes
  import opened Lz4Format

  const INC32TABLE: seq<int> := [0, 1, 2, 1, 0, 4, 4, 4]
  const DEC64TABLE: seq<int> := [0, 0, 0, -1, -4, 1, 2, 3]

  // The distance between write and read positions once the first eight bytes are written.
  function WideOffset(offset: nat): int
    requires offset < 8
  {
    8 + offset - INC32TABLE[offset] + DEC64TABLE[offset]
  }

  // ---------- lemmas ----------

  lemma {:induction false} PeriodicIsMatchCopy(out: seq<byte>, offset: nat, s: seq<byte>)
    requires 0 < offset <= |out| && out <= s
    requires forall k :: |out| <= k < |s| ==> s[k] == s[k - offset]
    ensures s == MatchCopy(out, offset, |s| - |out|)
    decreases |s| - |out|
  {
    if |s| > |out| {
      var next := out + [out[|out| - offset]];
      assert s[|out|] == s[|out| - offset] == out[|out| - offset];
      assert next == s[..|out| + 1];
      PeriodicIsMatchCopy(next, offset, s);
    }
  }

  lemma {:induction false} ZerosAreMatchCopy(out: seq<byte>, s: seq<byte>)
    requires out <= s && forall k :: |out| <= k < |s| ==> s[k] == 0
    ensures s == MatchCopy(out, 0, |s| - |out|)
    decreases |s| - |out|
  {
    if |s| > |out| {
      assert s[|out|] == 0;
      assert out + [0] == s[..|out| + 1];
      ZerosAreMatchCopy(out + [0], s);
    }
  }

  lemma {:induction false} PeriodChain(s: seq<byte>, offset: nat, m: nat, delta: nat)
    requires 0 < offset <= delta <= |s| && m >= 1 && m * offset <= delta
    requires forall k :: |s| - delta + offset <= k < |s| ==> s[k] == s[k - offset]
    ensures s[|s| - m * offset] == s[|s| - offset]
    decreases m
  {
    if m > 1 {
      assert (m - 1) * offset == m * offset - offset;
      assert (m - 1) * offset >= offset;
      PeriodChain(s, offset, m - 1, delta);
      var k := |s| - (m - 1) * offset;
      assert s[k] == s[k - offset];
    }
  }

  // Copying from a multiple of the period is copying from the period.
  lemma {:induction false} WiderPeriod(s: seq<byte>, offset: nat, m: nat, delta: nat, n: nat)
    requires 0 < offset <= delta <= |s| && m >= 1 && m * offset == delta
    requires forall k :: |s| - delta + offset <= k < |s| ==> s[k] == s[k - offset]
    ensures MatchCopy(s, delta, n) == MatchCopy(s, offset, n)
    decreases n
  {
    if n > 0 {
      PeriodChain(s, offset, m, delta);
      WiderPeriod(s + [s[|s| - offset]], offset, m, delta, n - 1);
    }
  }

  // Copying from `delta` continues a copy from `offset` of which `have` bytes are written, whenever
  // `delta` is a multiple of the offset that the written bytes and one period before them cover.
  lemma CopyContinues(out: seq<byte>, offset: nat, have: nat, m: nat, delta: nat, n: nat)
    requires offset <= |out| && 0 < delta <= have + offset
    requires offset > 0 ==> m >= 1 && m * offset == delta
    ensures MatchCopy(MatchCopy(out, offset, have), delta, n) == MatchCopy(out, offset, have + n)
  {
    var s := MatchCopy(out, offset, have);
    MatchCopyCompose(out, offset, have, n);
    if offset == 0 {
      ZeroTail(out, have);
      ZeroPeriod(s, delta, n);
    } else {
      assert m * offset >= offset;
      forall k | |s| - delta + offset <= k < |s|
        ensures s[k] == s[k - offset]
      {
        MatchCopyAt(out, offset, have, k);
      }
      WiderPeriod(s, offset, m, delta, n);
    }
  }

  // inc32table and dec64table choose multiples of the offset: the first for the second four bytes,
  // both together, at least eight, for everything after the first eight bytes.
  lemma WideOffsetIsMultiple(offset: nat) returns (m4: nat, m8: nat)
    requires offset < 8
    ensures 4 <= 4 + offset - INC32TABLE[offset] <= 4 + offset
    ensures 8 <= WideOffset(offset) <= 8 + offset
    ensures offset > 0 ==> m4 >= 1 && m4 * offset == 4 + offset - INC32TABLE[offset]
    ensures offset > 0 ==> m8 >= 1 && m8 * offset == WideOffset(offset)
  {
    m4 := [4, 4, 2, 2, 2, 1, 1, 1][offset];
    m8 := [8, 8, 4, 3, 2, 2, 2, 2][offset];
  }

  lemma {:induction false} ZeroTail(out: seq<byte>, n: nat)
    ensures forall k :: |out| <= k < |out| + n ==> MatchCopy(out, 0, n)[k] == 0
    decreases n
  {
    if n > 0 {
      ZeroTail(out + [0], n - 1);
      var r := MatchCopy(out, 0, n);
      assert out + [0] <= r && r[|out|] == (out + [0])[|out|];
    }
  }

  lemma {:induction false} ZeroPeriod(s: seq<byte>, delta: nat, n: nat)
    requires 0 < delta <= |s| && forall k :: |s| - delta <= k < |s| ==> s[k] == 0
    ensures MatchCopy(s, delta, n) == MatchCopy(s, 0, n)
    decreases n
  {
    if n > 0 {
      ZeroPeriod(s + [0], delta, n - 1);
    }
  }

  // ---------- memcpy ----------

  method CopyFrom(dst: array<byte>, d: nat, src: seq<byte>, s: nat, n: nat)
    requires d + n <= dst.Length && s + n <= |src|
    modifies dst
    ensures dst[..] == old(dst[..d]) + src[s..s + n] + old(dst[d + n..])
  {
    forall i | 0 <= i < n {
      dst[d + i] := src[s + i];
    }
  }

  method CopyWithin(dst: array<byte>, d: nat, s: nat, n: nat)
    requires s + n <= d && d + n <= dst.Length
    modifies dst
    ensures dst[..] == old(dst[..d]) + old(dst[s..s + n]) + old(dst[d + n..])
  {
    forall i | 0 <= i < n {
      dst[d + i] := dst[s + i];
    }
  }

  // ---------- LZ4_wildCopy8 ----------

  // From the compressed input: at least [d, e) is written, nothing at or beyond `end`.
  method WildCopyFrom(dst: array<byte>, d: nat, src: seq<byte>, s: nat, e: nat, ghost end: nat)
    requires d <= e && e + 7 <= end <= dst.Length && d + 8 <= end
    requires s + (e - d) + 7 <= |src| && s + 8 <= |src|
    modifies dst
    ensures dst[..e] == old(dst[..d]) + src[s..s + (e - d)]
    ensures dst[end..] == old(dst[end..])
  {
    var i := d;
    while true
      invariant d <= i <= end && (i == d || i < e)
      invariant dst[..i] == old(dst[..d]) + src[s..s + (i - d)]
      invariant dst[end..] == old(dst[end..])
      decreases e - i
    {
      ghost var before := dst[..];
      CopyFrom(dst, i, src, s + (i - d), 8);
      assert dst[end..] == dst[..][end..] == before[end..];
      assert dst[..i + 8] == dst[..][..i + 8] == before[..i] + src[s + (i - d)..s + (i - d) + 8];
      i := i + 8;
      if i >= e { break; }
    }
    assert dst[..e] == dst[..i][..e];
  }

  // Within the output, from `delta` >= 8 bytes back.
  method WildCopyWithin(dst: array<byte>, d: nat, delta: nat, e: nat, ghost end: nat)
    requires 8 <= delta <= d <= e && e + 7 <= end <= dst.Length && d + 8 <= end
    modifies dst
    ensures dst[..e] == MatchCopy(old(dst[..d]), delta, e - d)
    ensures dst[end..] == old(dst[end..])
  {
    hide MatchCopy;
    var i := d;
    ghost var out := dst[..d];
    while true
      invariant d <= i <= end && (i == d || i < e)
      invariant dst[..i] == MatchCopy(out, delta, i - d)
      invariant dst[end..] == old(dst[end..])
      decreases e - i
    {
      CopyBlock(dst, i, delta, 8, end);
      MatchCopyCompose(out, delta, i - d, 8);
      i := i + 8;
      if i >= e { break; }
    }
    MatchCopyPrefix(out, delta, e - d, i - d);
    assert dst[..e] == dst[..i][..e];
  }

  // memcpy(op, op - delta, n) for n <= delta.
  method CopyBlock(dst: array<byte>, d: nat, delta: nat, n: nat, ghost end: nat)
    requires n <= delta <= d && d + n <= end <= dst.Length
    modifies dst
    ensures dst[..d + n] == MatchCopy(old(dst[..d]), delta, n)
    ensures dst[end..] == old(dst[end..])
  {
    ghost var before := dst[..];
    CopyWithin(dst, d, d - delta, n);
    MatchCopyBlock(before[..d], delta, n);
    assert dst[..d + n] == dst[..][..d + n] == before[..d] + before[d - delta..d - delta + n];
    assert before[..d][d - delta..d - delta + n] == before[d - delta..d - delta + n];
    assert dst[end..] == dst[..][end..] == before[end..];
  }

  // LZ4_write32(op, 0) and the four single-byte copies.
  method FirstFourBytes(dst: array<byte>, op: nat, offset: nat, ghost end: nat)
    requires offset < 8 && offset <= op && op + 4 <= end <= dst.Length
    modifies dst
    ensures dst[..op + 4] == MatchCopy(old(dst[..op]), offset, 4)
    ensures dst[end..] == old(dst[end..])
  {
    ghost var out := dst[..op];
    ghost var tail := dst[end..];
    dst[op], dst[op + 1], dst[op + 2], dst[op + 3] := 0, 0, 0, 0;
    assert dst[..op] == out && dst[end..] == tail;
    var match0 := op - offset;
    var i: nat := 0;
    while i < 4
      invariant i <= 4 && dst[..op] == out && dst[end..] == tail
      invariant offset > 0 ==> dst[..op + i] == MatchCopy(out, offset, i)
      invariant offset == 0 ==> dst[op] == 0 && dst[op + 1] == 0 && dst[op + 2] == 0 && dst[op + 3] == 0
    {
      if offset > 0 { MatchCopyCompose(out, offset, i, 1); }
      ghost var before := dst[..op + i];
      dst[op + i] := dst[match0 + i];
      assert dst[..op + i + 1] == before + [dst[op + i]];
      i := i + 1;
    }
    if offset == 0 {
      ZerosAreMatchCopy(out, dst[..op + 4]);
    }
  }

  // Copies a match of at least four bytes inside the block, as the safe loop does: returns false when
  // the match would reach into the last five bytes of the output.
  method CopyMatch(dst: array<byte>, op: nat, offset: nat, length: nat, cap: nat) returns (ok: bool)
    requires offset <= op && length >= MINMATCH && op + MFLIMIT <= cap <= dst.Length
    modifies dst
    ensures ok <==> op + length <= cap - LASTLITERALS
    ensures ok ==> dst[..op + length] == MatchCopy(old(dst[..op]), offset, length)
    ensures dst[cap..] == old(dst[cap..])
  {
    hide MatchCopy;
    ghost var out := dst[..op];
    var delta := offset;
    ghost var m := 1;
    if offset < 8 {
      FirstFourBytes(dst, op, offset, cap);
      ghost var m4;
      m4, m := WideOffsetIsMultiple(offset);
      CopyBlock(dst, op + 4, 4 + offset - INC32TABLE[offset], 4, cap);
      CopyContinues(out, offset, 4, m4, 4 + offset - INC32TABLE[offset], 4);
      delta := 8 + offset - INC32TABLE[offset] + DEC64TABLE[offset];
    } else {
      CopyBlock(dst, op, offset, 8, cap);
    }
    ok := FinishMatch(dst, op, 8, delta, length, cap);
    if ok {
      CopyContinues(out, offset, 8, m, delta, if length <= 8 then 0 else length - 8);
      MatchCopyPrefix(out, offset, length, if length <= 8 then 8 else length);
      assert length <= 8 ==> dst[..op + length] == dst[..op + 8][..op + length];
    }
  }

  // The rest of a match that ends in the last bytes of the output: in strides, then byte by byte.
  method FinishNearEnd(dst: array<byte>, from: nat, delta: nat, cpy: nat, cap: nat) returns (op: nat)
    requires 8 <= delta <= from && from + 4 <= cap <= dst.Length && cpy <= cap - LASTLITERALS && 7 <= cap
    modifies dst
    ensures from <= op <= cap && cpy <= op
    ensures dst[..op] == MatchCopy(old(dst[..from]), delta, op - from)
    ensures dst[cap..] == old(dst[cap..])
  {
    hide MatchCopy;
    ghost var out := dst[..from];
    NothingCopied(out, delta);
    op := from;
    var copyLimit := cap - 7;
    if op < copyLimit {
      WildCopyWithin(dst, op, delta, copyLimit, cap);
      op := copyLimit;
    }
    while op < cpy
      invariant from <= op <= cap
      invariant dst[..op] == MatchCopy(out, delta, op - from)
      invariant dst[cap..] == old(dst[cap..])
    {
      CopyBlock(dst, op, delta, 1, cap);
      MatchCopyCompose(out, delta, op - from, 1);
      op := op + 1;
    }
  }

  lemma NothingCopied(out: seq<byte>, delta: nat)
    requires delta <= |out|
    ensures MatchCopy(out, delta, 0) == out
  {
  }

  // The rest of the match once its first `have` bytes are written and a distance of `delta` is safe.
  method FinishMatch(dst: array<byte>, op0: nat, have: nat, delta: nat, length: nat, cap: nat) returns (ok: bool)
    requires have == 8 <= delta <= op0 + have && length >= MINMATCH && op0 + MFLIMIT <= cap <= dst.Length
    modifies dst
    ensures ok <==> op0 + length <= cap - LASTLITERALS
    ensures ok && length <= have ==> dst[..op0 + have] == old(dst[..op0 + have])
    ensures ok && length > have ==> dst[..op0 + length] == MatchCopy(old(dst[..op0 + have]), delta, length - have)
    ensures dst[cap..] == old(dst[cap..])
  {
    hide MatchCopy;
    var op := op0 + have;
    var cpy := op0 + length;
    ghost var eight := dst[..op];
    if cpy > cap - (16 - MINMATCH) {
      if cpy > cap - LASTLITERALS { return false; }
      op := FinishNearEnd(dst, op, delta, cpy, cap);
    } else {
      CopyBlock(dst, op, delta, 8, cap);
      op := op + 8;
      if length > 16 {
        WildCopyWithin(dst, op, delta, cpy, cap);
        MatchCopyCompose(eight, delta, 8, cpy - op);
        op := cpy;
      }
    }
    assert dst[..op] == MatchCopy(eight, delta, op - |eight|);
    if length > have {
      MatchCopyPrefix(eight, delta, length - have, op - |eight|);
      assert dst[..cpy] == dst[..op][..cpy];
    } else {
      assert dst[..op0 + have] == dst[..op][..op0 + have];
    }
    ok := true;
  }
}

// The LZ4 block format: what a block is, how it is written, and what it means.
module Lz4Format {
  import opened Bytes

  const MINMATCH := 4
  const LASTLITERALS := 5
  const MFLIMIT := 12
  const RUN_MASK := 15
  const DISTANCE_MAX := 65535
  const MAX_INPUT_SIZE := 0x7E00_0000

  // A run of literals followed by a back reference.
  datatype Sequence = Sequence(literals: seq<byte>, offset: nat, matchLength: nat)

  // ---------- writing ----------

  function LengthBytes(n: nat): (r: seq<byte>)
    ensures |r| == n / 255 + 1
  {
    if n >= 255 then [255] + LengthBytes(n - 255) else [n]
  }

  function Nibble(n: nat): nat {
    if n < RUN_MASK then n else RUN_MASK
  }

  function Extra(n: nat): seq<byte> {
    if n < RUN_MASK then [] else LengthBytes(n - RUN_MASK)
  }

  predicate Writable(s: Sequence) {
    s.offset <= DISTANCE_MAX && s.matchLength >= MINMATCH
  }

  function SequenceHead(literals: seq<byte>, matchNibble: nat): seq<byte>
    requires matchNibble <= 15
  {
    [16 * Nibble(|literals|) + matchNibble] + (Extra(|literals|) + literals)
  }

  function SequenceTail(s: Sequence): seq<byte>
    requires Writable(s)
  {
    LE16(s.offset) + Extra(s.matchLength - MINMATCH)
  }

  function EncodeSequence(s: Sequence): seq<byte>
    requires Writable(s)
  {
    SequenceHead(s.literals, Nibble(s.matchLength - MINMATCH)) + SequenceTail(s)
  }

  function EncodeSequences(ss: seq<Sequence>): seq<byte>
    requires forall s :: s in ss ==> Writable(s)
  {
    if ss == [] then [] else EncodeSequences(ss[..|ss| - 1]) + EncodeSequence(ss[|ss| - 1])
  }

  function EncodeBlock(ss: seq<Sequence>, last: seq<byte>): seq<byte>
    requires forall s :: s in ss ==> Writable(s)
  {
    EncodeSequences(ss) + SequenceHead(last, 0)
  }

  // ---------- meaning ----------

  // Byte-by-byte copy from `offset` bytes back, which may overlap what it is writing.
  // Offset 0 yields zero bytes, as the decoder's LZ4_write32(op, 0) makes it do.
  function MatchCopy(out: seq<byte>, offset: nat, n: nat): (r: seq<byte>)
    requires offset <= |out|
    ensures |r| == |out| + n && out <= r
    decreases n, out
  {
    if n == 0 then out
    else MatchCopy(out + [if offset == 0 then 0 else out[|out| - offset]], offset, n - 1)
  }

  predicate Expandable(ss: seq<Sequence>)
    decreases |ss|, 0
  {
    ss == [] ||
    var i := |ss| - 1;
    Expandable(ss[..i]) && ss[i].offset <= |Expand(ss[..i])| + |ss[i].literals|
  }

  function Expand(ss: seq<Sequence>): seq<byte>
    requires Expandable(ss)
    decreases |ss|, 1
  {
    if ss == [] then []
    else
      var i := |ss| - 1;
      MatchCopy(Expand(ss[..i]) + ss[i].literals, ss[i].offset, ss[i].matchLength)
  }

  // ---------- the parsing restrictions ----------

  // A sequence that may follow `produced` bytes of a block of `n` bytes: its match starts at least
  // twelve bytes before the end and stops at least five before it.
  predicate Restricted(s: Sequence, produced: nat, n: nat) {
    var start := produced + |s.literals|;
    && 1 <= s.offset <= start && s.offset <= DISTANCE_MAX
    && s.matchLength >= MINMATCH
    && start + MFLIMIT <= n
    && start + s.matchLength + LASTLITERALS <= n
  }

  predicate Parsed(ss: seq<Sequence>, n: nat): (b: bool)
    ensures b ==> Expandable(ss) && forall s :: s in ss ==> Writable(s)
    decreases |ss|, 2
  {
    ss == [] ||
    var i := |ss| - 1;
    Parsed(ss[..i], n) && Restricted(ss[i], |Expand(ss[..i])|, n)
  }

  // A parse of `data`: what an encoder may output for it.
  predicate IsParse(ss: seq<Sequence>, last: seq<byte>, data: seq<byte>) {
    Parsed(ss, |data|) && Expand(ss) + last == data
  }

  // ---------- lemmas about copying ----------

  lemma {:induction false} MatchCopyAt(out: seq<byte>, offset: nat, n: nat, k: nat)
    requires 0 < offset <= |out| && |out| <= k < |out| + n
    ensures MatchCopy(out, offset, n)[k] == MatchCopy(out, offset, n)[k - offset]
    decreases n
  {
    var next := out + [out[|out| - offset]];
    var r := MatchCopy(out, offset, n);
    assert r == MatchCopy(next, offset, n - 1);
    if k == |out| {
      assert r[k] == next[k] && r[k - offset] == next[k - offset];
    } else {
      MatchCopyAt(next, offset, n - 1, k);
    }
  }

  lemma {:induction false} MatchCopyCompose(out: seq<byte>, offset: nat, m: nat, n: nat)
    requires offset <= |out|
    ensures MatchCopy(MatchCopy(out, offset, m), offset, n) == MatchCopy(out, offset, m + n)
    decreases m
  {
    if m > 0 {
      MatchCopyCompose(out + [if offset == 0 then 0 else out[|out| - offset]], offset, m - 1, n);
    }
  }

  lemma {:induction false} MatchCopyPrefix(out: seq<byte>, offset: nat, m: nat, n: nat)
    requires offset <= |out| && m <= n
    ensures MatchCopy(out, offset, m) == MatchCopy(out, offset, n)[..|out| + m]
  {
    MatchCopyCompose(out, offset, m, n - m);
  }

  // A copy no longer than the offset does not overlap itself.
  lemma {:induction false} MatchCopyBlock(out: seq<byte>, offset: nat, n: nat)
    requires n <= offset <= |out|
    ensures MatchCopy(out, offset, n) == out + out[|out| - offset..|out| - offset + n]
  {
    if n > 0 {
      MatchCopyBlock(out, offset, n - 1);
      MatchCopyCompose(out, offset, n - 1, 1);
      var o := MatchCopy(out, offset, n - 1);
      assert MatchCopy(o, offset, 1) == o + [o[|o| - offset]];
    }
  }
}

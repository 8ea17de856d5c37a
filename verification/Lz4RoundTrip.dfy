// Every parse of a block decodes back to the block, whatever the matches; and its encoded size is bounded.
module Lz4RoundTrip {
  import opened Bytes
  import opened Lz4Format
  import opened Lz4Decompress
  import opened Slices

  lemma {:induction false} LengthReadsBack(src: seq<byte>, ip: nat, v: nat, limit: int)
    requires At(src, ip, LengthBytes(v)) && ip + |LengthBytes(v)| <= limit <= |src|
    ensures var next := ip + |LengthBytes(v)|; SumLength(src, ip, limit) == Length(v, next, next >= limit)
    decreases v
  {
    hide At;
    AtIndex(src, ip, LengthBytes(v), 0);
    if v >= 255 {
      AtBoth(src, ip, [255], LengthBytes(v - 255));
      LengthReadsBack(src, ip + 1, v - 255, limit);
    }
  }

  // Reading one head: token, literal length and literals.
  lemma HeadReadsBack(src: seq<byte>, ip: nat, literals: seq<byte>, nibble: nat)
    requires nibble <= 15 && |literals| < TWO_TO_THE_32
    requires At(src, ip, SequenceHead(literals, nibble))
    ensures ip < |src| && src[ip] / 16 == Nibble(|literals|) && src[ip] % 16 == nibble
    ensures var next := ip + |SequenceHead(literals, nibble)| - |literals|;
      LiteralRun(src, ip) == Run(|literals|, next) && At(src, next, literals)
  {
    hide LengthBytes, SumLength, At;
    var extra := Extra(|literals|);
    var token: byte := 16 * Nibble(|literals|) + nibble;
    AtIndex(src, ip, SequenceHead(literals, nibble), 0);
    AtBoth(src, ip, [token], extra + literals);
    AtBoth(src, ip + 1, extra, literals);
    AtBound(src, ip + 1 + |extra|, literals);
    if |literals| >= RUN_MASK {
      LengthReadsBack(src, ip + 1, |literals| - RUN_MASK, |src| - RUN_MASK);
    }
  }

  lemma OffsetReadsBack(src: seq<byte>, at: nat, offset: nat)
    requires offset <= DISTANCE_MAX && At(src, at, LE16(offset))
    ensures at + 2 <= |src| && ReadLE16(src, at) == offset
  {
    assert src[at] == src[at..at + 2][0] && src[at + 1] == src[at..at + 2][1];
  }

  lemma MatchLengthReadsBack(src: seq<byte>, ip: nat, m: nat)
    requires m < TWO_TO_THE_32 && ip < |src| && (m >= 15 ==> ip + |Extra(m)| + LASTLITERALS <= |src|)
    requires At(src, ip, Extra(m))
    ensures MatchLength(src, Nibble(m), ip) == Length(m, ip + |Extra(m)|, false)
  {
    hide LengthBytes, SumLength, At;
    if m >= 15 {
      LengthReadsBack(src, ip, m - 15, |src| - LASTLITERALS + 1);
    }
  }

  // ---------- what a decoder lets pass ----------

  // Room on both sides: sixteen more bytes of the block, and thirty-two of the output.
  predicate Roomy(s: Sequence, ip: nat, produced: nat, n: nat, cap: nat) {
    |s.literals| < RUN_MASK && ip + 17 < n && produced + 32 <= cap
  }

  // A sequence at `ip` of a block of `n` bytes, after `produced` bytes of the `cap` that there is room for. With
  // room on both sides a short match at a wide offset may end anywhere; else it stays off both ends.
  predicate Passes(s: Sequence, ip: nat, produced: nat, n: nat, cap: nat)
    requires Writable(s)
  {
    var start, roomy := produced + |s.literals|, Roomy(s, ip, produced, n, cap);
    && s.offset <= start
    && (roomy || (start + MFLIMIT <= cap && ip + |SequenceHead(s.literals, 0)| + 3 + LASTLITERALS <= n))
    && ((roomy && s.matchLength <= 18 && s.offset >= 8)
        || (start + s.matchLength + LASTLITERALS <= cap && (s.matchLength > 18 ==> ip + |EncodeSequence(s)| + LASTLITERALS <= n)))
  }

  // Lengths that 32 bits hold.
  predicate Small(s: Sequence) {
    |s.literals| < TWO_TO_THE_32 && s.matchLength < TWO_TO_THE_32
  }

  predicate AllPass(ss: seq<Sequence>, n: nat, cap: nat): (b: bool)
    ensures b ==> Expandable(ss) && forall s :: s in ss ==> Writable(s)
    decreases |ss|
  {
    ss == [] ||
    var i := |ss| - 1;
    AllPass(ss[..i], n, cap) && Writable(ss[i]) && Small(ss[i]) &&
    Passes(ss[i], |EncodeSequences(ss[..i])|, |Expand(ss[..i])|, n, cap)
  }

  lemma DecodeSequence(src: seq<byte>, ip: nat, out: seq<byte>, s: Sequence, cap: nat)
    requires Writable(s) && Small(s) && Passes(s, ip, |out|, |src|, cap) && At(src, ip, EncodeSequence(s))
    ensures ip + |EncodeSequence(s)| < |src|
    ensures DecodeFrom(src, ip, out, cap)
         == DecodeFrom(src, ip + |EncodeSequence(s)|, MatchCopy(out + s.literals, s.offset, s.matchLength), cap)
  {
    hide DecodeFrom, DecodeMatch, MatchCopy, SequenceTail, At;
    var at := DecodeLiterals(src, ip, out, s, cap);
    DecodeMatchTail(src, ip, at, out + s.literals, s, cap, Roomy(s, ip, |out|, |src|, cap));
  }

  // The literal half: whichever way the checks go, decoding reaches the match.
  lemma DecodeLiterals(src: seq<byte>, ip: nat, out: seq<byte>, s: Sequence, cap: nat) returns (at: nat)
    requires Writable(s) && Small(s) && Passes(s, ip, |out|, |src|, cap) && At(src, ip, EncodeSequence(s))
    ensures ip < at && at + 2 < |src| && src[ip] % 16 == Nibble(s.matchLength - MINMATCH)
    ensures at == ip + |SequenceHead(s.literals, Nibble(s.matchLength - MINMATCH))| && At(src, at, SequenceTail(s))
    ensures DecodeFrom(src, ip, out, cap) == DecodeMatch(src, ip, at, out + s.literals, cap, Roomy(s, ip, |out|, |src|, cap))
  {
    hide DecodeMatch, MatchLength, LengthBytes, LiteralRun, At;
    var head := SequenceHead(s.literals, Nibble(s.matchLength - MINMATCH));
    at := ip + |head|;
    AtBoth(src, ip, head, SequenceTail(s));
    HeadReadsBack(src, ip, s.literals, Nibble(s.matchLength - MINMATCH));
    LiteralsAt(src, at - |s.literals|, s.literals);
  }

  lemma LiteralsAt(src: seq<byte>, ip: nat, literals: seq<byte>)
    requires At(src, ip, literals)
    ensures ip + |literals| <= |src| && src[ip..ip + |literals|] == literals
  {
  }

  // The match half of the same sequence.
  lemma DecodeMatchTail(src: seq<byte>, ip: nat, at: nat, out: seq<byte>, s: Sequence, cap: nat, shortcut: bool)
    requires Writable(s) && s.matchLength < TWO_TO_THE_32 && s.offset <= |out|
    requires (shortcut && s.matchLength <= 18 && s.offset >= 8) || |out| + s.matchLength + LASTLITERALS <= cap
    requires ip < at && at + 2 < |src| && (s.matchLength > 18 ==> at + |SequenceTail(s)| + LASTLITERALS <= |src|)
    requires src[ip] % 16 == Nibble(s.matchLength - MINMATCH) && At(src, at, SequenceTail(s))
    ensures at + |SequenceTail(s)| < |src|
    ensures DecodeMatch(src, ip, at, out, cap, shortcut)
         == DecodeFrom(src, at + |SequenceTail(s)|, MatchCopy(out, s.offset, s.matchLength), cap)
  {
    hide MatchCopy, MatchLength, DecodeFrom, LengthBytes, At;
    var m := s.matchLength - MINMATCH;
    AtBoth(src, at, LE16(s.offset), Extra(m));
    OffsetReadsBack(src, at, s.offset);
    MatchLengthReadsBack(src, at + 2, m);
    if Nibble(m) != 15 { ShortMatchLength(src, m, at + 2); }
  }

  lemma ShortMatchLength(src: seq<byte>, m: nat, ip: nat)
    requires Nibble(m) != 15 && ip < |src|
    ensures m == Nibble(m) && MatchLength(src, Nibble(m), ip) == Length(m, ip, false)
  {
  }

  lemma {:induction false} PassAt(ss: seq<Sequence>, k: nat, n: nat, cap: nat)
    requires k < |ss| && AllPass(ss, n, cap)
    ensures AllPass(ss[..k], n, cap) && AllPass(ss[..k + 1], n, cap) && Writable(ss[k]) && Small(ss[k])
    ensures Passes(ss[k], |EncodeSequences(ss[..k])|, |Expand(ss[..k])|, n, cap)
    ensures ss[k].offset <= |Expand(ss[..k])| + |ss[k].literals|
    ensures Expand(ss[..k + 1]) == MatchCopy(Expand(ss[..k]) + ss[k].literals, ss[k].offset, ss[k].matchLength)
    decreases |ss|
  {
    hide EncodeSequence, SequenceHead, MatchCopy;
    var i := |ss| - 1;
    if k == i {
      assert ss[..k + 1] == ss;
    } else {
      PassAt(ss[..i], k, n, cap);
      assert ss[..i][..k] == ss[..k] && ss[..i][..k + 1] == ss[..k + 1];
    }
  }

  lemma {:induction false} DecodeSequences(src: seq<byte>, ss: seq<Sequence>, k: nat, last: seq<byte>, nibble: nat, cap: nat)
    requires k <= |ss| && nibble <= 15 && AllPass(ss, |src|, cap)
    requires src == EncodeSequences(ss) + SequenceHead(last, nibble)
    ensures AllPass(ss[..k], |src|, cap) && |EncodeSequences(ss[..k])| < |src| && |EncodeSequences(ss)| < |src|
    ensures DecodeFrom(src, |EncodeSequences(ss[..k])|, Expand(ss[..k]), cap)
         == DecodeFrom(src, |EncodeSequences(ss)|, Expand(ss), cap)
    decreases |ss| - k
  {
    hide Passes, AllPass, MatchCopy, EncodeSequence, SequenceHead, DecodeFrom, Expand, At;
    EncodedAt(ss, |ss|, last, nibble);
    EncodedAt(ss, k, last, nibble);
    if k == |ss| {
      assert ss[..k] == ss;
    } else {
      DecodeSequences(src, ss, k + 1, last, nibble, cap);
      PassAt(ss, k, |src|, cap);
      EncodedAt(ss, k + 1, last, nibble);
      DecodeSequence(src, |EncodeSequences(ss[..k])|, Expand(ss[..k]), ss[k], cap);
    }
  }

  // Where each sequence stands in the encoded block, and that at least a token and the last literals
  // follow it.
  lemma {:induction false} EncodedAt(ss: seq<Sequence>, k: nat, last: seq<byte>, nibble: nat)
    requires k <= |ss| && nibble <= 15 && (forall s :: s in ss ==> Writable(s))
    ensures var src := EncodeSequences(ss) + SequenceHead(last, nibble);
      && |EncodeSequences(ss[..k])| <= |EncodeSequences(ss)|
      && |EncodeSequences(ss[..k])| + 1 + |last| <= |src|
      && (k < |ss| ==> At(src, |EncodeSequences(ss[..k])|, EncodeSequence(ss[k])))
      && (k < |ss| ==> EncodeSequences(ss[..k + 1]) == EncodeSequences(ss[..k]) + EncodeSequence(ss[k]))
      && (k == |ss| ==> At(src, |EncodeSequences(ss)|, SequenceHead(last, nibble)))
    decreases |ss|
  {
    hide EncodeSequence, SequenceHead;
    HeadLength(last, nibble);
    if k == |ss| {
      assert ss[..k] == ss;
      AtSuffix(EncodeSequences(ss), SequenceHead(last, nibble), []);
    } else {
      var i := |ss| - 1;
      var init := ss[..i];
      if k < i {
        EncodedAt(init, k, last, nibble);
        EncodedAt(init, k + 1, last, nibble);
        assert init[..k] == ss[..k] && init[..k + 1] == ss[..k + 1];
        AtMiddle(EncodeSequences(init), EncodeSequence(ss[i]), SequenceHead(last, nibble), |EncodeSequences(ss[..k])|, EncodeSequence(ss[k]));
      } else {
        assert ss[..k + 1] == ss;
        AtSuffix(EncodeSequences(init), EncodeSequence(ss[i]), SequenceHead(last, nibble));
      }
    }
  }

  lemma HeadLength(last: seq<byte>, nibble: nat)
    requires nibble <= 15
    ensures |SequenceHead(last, nibble)| >= 1 + |last|
  {
  }

  lemma AtSuffix(a: seq<byte>, b: seq<byte>, c: seq<byte>)
    ensures At(a + b + c, |a|, b)
    ensures c == [] ==> At(a + b, |a|, b)
  {
  }

  // A position inside `a` is not moved by putting something between `a` and what follows it.
  lemma AtMiddle(a: seq<byte>, b: seq<byte>, c: seq<byte>, ip: nat, code: seq<byte>)
    requires At(a + c, ip, code) && ip + |code| <= |a|
    ensures At(a + b + c, ip, code)
  {
    assert (a + b + c)[ip..ip + |code|] == (a + c)[ip..ip + |code|];
  }

  // The last literals are recognised as such: they are not followed by anything.
  lemma DecodeLast(src: seq<byte>, at: nat, out: seq<byte>, last: seq<byte>, nibble: nat, cap: nat)
    requires nibble <= 15 && |last| < TWO_TO_THE_32 && |out| + |last| <= cap
    requires at + |SequenceHead(last, nibble)| == |src| && At(src, at, SequenceHead(last, nibble)) && at < |src|
    ensures DecodeFrom(src, at, out, cap) == Done(out + last)
  {
    hide DecodeMatch, LengthBytes;
    HeadReadsBack(src, at, last, nibble);
    var run := LiteralRun(src, at);
    assert src[run.next..] == src[run.next..run.next + run.length];
  }

  // A block of sequences that pass is decoded to what they stand for.
  lemma PassingDecodes(ss: seq<Sequence>, last: seq<byte>, nibble: nat, src: seq<byte>, cap: nat)
    requires AllPass(ss, |src|, cap) && nibble <= 15 && src == EncodeSequences(ss) + SequenceHead(last, nibble)
    requires |last| < TWO_TO_THE_32 && |Expand(ss)| + |last| <= cap && (cap == 0 ==> nibble == 0)
    ensures Decode(src, cap) == Done(Expand(ss) + last)
  {
    hide MatchCopy, DecodeFrom, SequenceHead, EncodeSequence, At, Passes;
    if cap > 0 {
      assert ss[..0] == [];
      DecodeSequences(src, ss, 0, last, nibble, cap);
      EncodedAt(ss, |ss|, last, nibble);
      DecodeLast(src, |EncodeSequences(ss)|, Expand(ss), last, nibble, cap);
    } else {
      Expands(ss);
      EmptyHead();
    }
  }

  lemma Expands(ss: seq<Sequence>)
    requires Expandable(ss) && forall s :: s in ss ==> Writable(s)
    ensures ss != [] ==> |Expand(ss)| >= MINMATCH
  {
    hide MatchCopy;
    if ss != [] {
      assert ss[|ss| - 1] in ss;
    }
  }

  // Sequences that keep the end-of-block limits pass.
  lemma {:induction false} ParsedPass(ss: seq<Sequence>, n: nat, size: nat, cap: nat)
    requires Parsed(ss, n) && n <= cap && n < TWO_TO_THE_32 && |EncodeSequences(ss)| + 1 + LASTLITERALS <= size
    ensures AllPass(ss, size, cap)
    decreases |ss|
  {
    hide MatchCopy, SequenceHead, SequenceTail;
    if ss != [] {
      var i := |ss| - 1;
      ParsedPass(ss[..i], n, size, cap);
      TokenOnly(ss[i]);
    }
  }

  // The nibble of a token does not change the length of its head.
  lemma TokenOnly(s: Sequence)
    requires Writable(s)
    ensures |EncodeSequence(s)| >= |SequenceHead(s.literals, 0)| + 2
  {
  }

  // The law of the codec: any parse of `data`, decoded with room for it, gives `data` back.
  lemma RoundTrip(ss: seq<Sequence>, last: seq<byte>, data: seq<byte>, cap: nat)
    requires IsParse(ss, last, data) && |data| <= cap && |data| <= MAX_INPUT_SIZE
    ensures Decode(EncodeBlock(ss, last), cap) == Done(data)
  {
    hide MatchCopy, DecodeFrom, SequenceHead, EncodeSequence, At, Passes;
    var src := EncodeBlock(ss, last);
    HeadLength(last, 0);
    if ss != [] {
      var i := |ss| - 1;
      assert |Expand(ss)| == |Expand(ss[..i])| + |ss[i].literals| + ss[i].matchLength;
      ParsedPass(ss, |data|, |src|, cap);
    }
    PassingDecodes(ss, last, 0, src, cap);
  }

  lemma EmptyHead()
    ensures SequenceHead([], 0) == [0]
  {
  }

  // ---------- size ----------

  function CompressBound(n: nat): nat {
    if n > MAX_INPUT_SIZE then 0 else n + n / 255 + 16
  }

  // A sequence never costs more than one byte in 255 beyond what it stands for: its three fixed bytes are
  // paid for by the four bytes of the shortest match.
  lemma SequenceSize(s: Sequence, produced: nat)
    requires Writable(s)
    ensures var next := produced + |s.literals| + s.matchLength;
      produced + produced / 255 + |EncodeSequence(s)| <= next + next / 255
  {
    hide LengthBytes, Nibble;
  }

  lemma {:induction false} SequencesSize(ss: seq<Sequence>, n: nat)
    requires Parsed(ss, n)
    ensures |EncodeSequences(ss)| <= |Expand(ss)| + |Expand(ss)| / 255
    decreases |ss|
  {
    if ss != [] {
      hide EncodeSequence, MatchCopy;
      var i := |ss| - 1;
      SequencesSize(ss[..i], n);
      SequenceSize(ss[i], |Expand(ss[..i])|);
    }
  }

  lemma HeadSize(last: seq<byte>, produced: nat)
    ensures var n := produced + |last|; produced + produced / 255 + |SequenceHead(last, 0)| <= n + n / 255 + 2
  {
    hide LengthBytes, Nibble;
  }

  // No parse of `data` is longer than LZ4_compressBound allows; fourteen of its sixteen spare bytes are
  // never needed by the output itself.
  lemma BlockSize(ss: seq<Sequence>, last: seq<byte>, data: seq<byte>)
    requires IsParse(ss, last, data) && |data| <= MAX_INPUT_SIZE
    ensures |EncodeBlock(ss, last)| + 14 <= CompressBound(|data|)
  {
    hide SequenceHead, Parsed, MatchCopy;
    SequencesSize(ss, |data|);
    HeadSize(last, |Expand(ss)|);
  }

  // What a block needs that no sequence shortens: token, length bytes and the data itself.
  function Room(n: nat): nat {
    n + 1 + (n + 240) / 255
  }

  lemma RoomIsBound(n: nat)
    requires n <= MAX_INPUT_SIZE
    ensures Room(n) + 14 <= CompressBound(n)
  {
  }

  lemma LiteralSize(data: seq<byte>)
    ensures |SequenceHead(data, 0)| == Room(|data|)
  {
  }

  // Four bytes that stand in the data twice.
  ghost predicate Repeats(data: seq<byte>, p: nat, q: nat) {
    p < q && q + MINMATCH <= |data| && data[p..p + MINMATCH] == data[q..q + MINMATCH]
  }

  // Every sequence of a parse is about such bytes, so that data without them is its own only parse.
  lemma ParseOfUnlike(ss: seq<Sequence>, last: seq<byte>, data: seq<byte>)
    requires IsParse(ss, last, data) && forall p: nat, q: nat :: !Repeats(data, p, q)
    ensures ss == [] && |EncodeBlock(ss, last)| == Room(|data|)
  {
    if ss != [] {
      var p, q := LastRepeats(ss, last, data);
      assert false;
    }
    LiteralSize(last);
  }

  lemma LastRepeats(ss: seq<Sequence>, last: seq<byte>, data: seq<byte>) returns (p: nat, q: nat)
    requires IsParse(ss, last, data) && ss != []
    ensures Repeats(data, p, q)
  {
    hide MatchCopy, Parsed, Expand, IsParse;
    var out, s := LastParsed(ss, last, data);
    q := |out|;
    p := q - s.offset;
    MatchCopyAt(out, s.offset, s.matchLength, q);
    MatchCopyAt(out, s.offset, s.matchLength, q + 1);
    MatchCopyAt(out, s.offset, s.matchLength, q + 2);
    MatchCopyAt(out, s.offset, s.matchLength, q + 3);
    assert data[p..p + MINMATCH] == [data[p], data[p + 1], data[p + 2], data[p + 3]];
    assert data[q..q + MINMATCH] == [data[q], data[q + 1], data[q + 2], data[q + 3]];
  }

  lemma LastParsed(ss: seq<Sequence>, last: seq<byte>, data: seq<byte>) returns (out: seq<byte>, s: Sequence)
    requires IsParse(ss, last, data) && ss != []
    ensures 1 <= s.offset <= |out| && s.matchLength >= MINMATCH
    ensures var r := MatchCopy(out, s.offset, s.matchLength); |r| <= |data| && forall k | 0 <= k < |r| :: data[k] == r[k]
  {
    hide MatchCopy;
    s := ss[|ss| - 1];
    out := Expand(ss[..|ss| - 1]) + s.literals;
    assert MatchCopy(out, s.offset, s.matchLength) == Expand(ss);
  }
}

// Which blocks the decoder accepts: exactly the encodings of sequences that pass, and nothing cut off or added.
module Lz4Sound {
  import opened Bytes
  import opened Lz4Format
  import opened Lz4Decompress
  import opened Lz4RoundTrip
  import opened Slices
  import Lz4Copy

  // ---------- reading is writing ----------

  // A length that does not end in the middle is written as it was read.
  lemma {:induction false} SumIsLength(src: seq<byte>, ip: nat, limit: int)
    requires ip < |src| && limit <= |src|
    ensures var r := SumLength(src, ip, limit);
      && r.sum <= 255 * (r.next - ip)
      && (src[r.next - 1] != 255 ==> src[ip..r.next] == LengthBytes(r.sum))
      && (src[r.next - 1] == 255 ==> r.limitHit && r.next >= limit && r.sum >= 255)
    decreases |src| - ip
  {
    if ip + 1 < limit && src[ip] == 255 {
      SumIsLength(src, ip + 1, limit);
      var r := SumLength(src, ip + 1, limit);
      assert src[ip..r.next] == [src[ip]] + src[ip + 1..r.next];
    } else {
      assert src[ip..ip + 1] == [src[ip]];
    }
  }

  // Longer lengths wrap around: LengthBytes(v) is read as v modulo 2^32.
  lemma LengthWraps(v: nat, rest: seq<byte>)
    ensures var src := LengthBytes(v) + rest; ReadLength(src, 0, |src|).sum == v % TWO_TO_THE_32
  {
    var src := LengthBytes(v) + rest;
    assert At(src, 0, LengthBytes(v));
    LengthReadsBack(src, 0, v, |src|);
  }

  // So short that none does.
  predicate NoWrap(src: seq<byte>) {
    255 * |src| < TWO_TO_THE_32
  }

  lemma HeadIsWritten(src: seq<byte>, ip: nat)
    requires NoWrap(src) && ip < |src| && LiteralRun(src, ip).Run? && LiteralRun(src, ip).next + LiteralRun(src, ip).length <= |src|
    ensures var run := LiteralRun(src, ip);
      var at := run.next + run.length;
      src[ip..at] == SequenceHead(src[run.next..at], src[ip] % 16)
  {
    hide LiteralRun, Extra, Nibble;
    var run := LiteralRun(src, ip);
    var at := run.next + run.length;
    RunIsWritten(src, ip);
    assert src[ip..at] == [src[ip]] + (src[ip + 1..run.next] + src[run.next..at]);
  }

  lemma RunIsWritten(src: seq<byte>, ip: nat)
    requires NoWrap(src) && ip < |src| && LiteralRun(src, ip).Run? && LiteralRun(src, ip).next + LiteralRun(src, ip).length <= |src|
    ensures var run := LiteralRun(src, ip); src[ip + 1..run.next] == Extra(run.length) && Nibble(run.length) == src[ip] / 16
  {
    hide LengthBytes, SumLength;
    if src[ip] / 16 == RUN_MASK {
      SumIsLength(src, ip + 1, |src| - RUN_MASK);
    }
  }

  lemma MatchIsWritten(src: seq<byte>, nibble: nat, at: nat)
    requires NoWrap(src) && nibble <= 15 && at + 2 < |src| && !MatchLength(src, nibble, at + 2).limitHit
    ensures var l := MatchLength(src, nibble, at + 2);
      && Nibble(l.sum) == nibble && ReadLE16(src, at) <= DISTANCE_MAX
      && src[at..l.next] == LE16(ReadLE16(src, at)) + Extra(l.sum)
      && (l.sum >= 15 ==> l.next + LASTLITERALS <= |src|)
  {
    hide LengthBytes, SumLength;
    var l := MatchLength(src, nibble, at + 2);
    assert src[at..l.next] == [src[at], src[at + 1]] + src[at + 2..l.next];
    if nibble == 15 {
      SumIsLength(src, at + 2, |src| - LASTLITERALS + 1);
    }
  }

  // ---------- what is accepted is a parse ----------

  // What is left of the block is taken for the last literals.
  predicate Ending(src: seq<byte>, ip: nat, produced: nat, cap: nat)
    requires ip < |src|
  {
    var run := LiteralRun(src, ip);
    run.Run? && !Shortcut(src, ip, produced, cap)
    && (produced + run.length > cap - MFLIMIT || run.next + run.length > |src| - (2 + 1 + LASTLITERALS))
  }

  lemma EndIsWritten(src: seq<byte>, ip: nat, out: seq<byte>, cap: nat) returns (last: seq<byte>)
    requires NoWrap(src) && ip < |src| && Ending(src, ip, |out|, cap) && DecodeFrom(src, ip, out, cap).Done?
    ensures src[ip..] == SequenceHead(last, src[ip] % 16) && DecodeFrom(src, ip, out, cap) == Done(out + last)
    ensures |out| + |last| <= cap && |last| < TWO_TO_THE_32
  {
    hide LiteralRun, LengthBytes, DecodeMatch;
    var run := LiteralRun(src, ip);
    last := src[run.next..];
    HeadIsWritten(src, ip);
    assert src[ip..|src|] == src[ip..] && src[run.next..|src|] == last;
  }

  // Any other sequence of an accepted block passes.
  lemma SequenceIsWritten(src: seq<byte>, ip: nat, out: seq<byte>, cap: nat) returns (s: Sequence)
    requires NoWrap(src) && ip < |src| && !Ending(src, ip, |out|, cap) && DecodeFrom(src, ip, out, cap).Done?
    ensures Writable(s) && Small(s) && Passes(s, ip, |out|, |src|, cap) && s.offset <= |out| + |s.literals|
    ensures var ip1 := ip + |EncodeSequence(s)|;
      && ip1 < |src| && src[ip..ip1] == EncodeSequence(s)
      && DecodeFrom(src, ip, out, cap) == DecodeFrom(src, ip1, MatchCopy(out + s.literals, s.offset, s.matchLength), cap)
  {
    hide LengthBytes, DecodeMatch, MatchLength, ReadLength, MatchCopy;
    var run, nibble := LiteralRun(src, ip), src[ip] % 16;
    var at := run.next + run.length;
    var shortcut := Shortcut(src, ip, |out|, cap);
    assert DecodeFrom(src, ip, out, cap) == DecodeMatch(src, ip, at, out + src[run.next..at], cap, shortcut);
    HeadIsWritten(src, ip);
    s := MatchIsRead(src, ip, at, out, src[run.next..at], cap, shortcut);
    HeadThenMatch(src, ip, at, s);
  }

  // The match half, behind literals that end at `at`.
  lemma MatchIsRead(src: seq<byte>, ip: nat, at: nat, out: seq<byte>, literals: seq<byte>, cap: nat, shortcut: bool) returns (s: Sequence)
    requires NoWrap(src) && ip < at && at + 2 < |src| && DecodeMatch(src, ip, at, out + literals, cap, shortcut).Done?
    requires |literals| < |src|
    ensures Writable(s) && Small(s) && s.literals == literals && s.offset <= |out| + |literals|
    ensures Nibble(s.matchLength - MINMATCH) == src[ip] % 16
    ensures var ip1 := at + |SequenceTail(s)|;
      && ip1 < |src| && src[at..ip1] == SequenceTail(s)
      && DecodeMatch(src, ip, at, out + literals, cap, shortcut)
           == DecodeFrom(src, ip1, MatchCopy(out + literals, s.offset, s.matchLength), cap)
      && (s.matchLength > 18 ==> ip1 + LASTLITERALS <= |src|)
    ensures (shortcut && s.matchLength <= 18 && s.offset >= 8) || |out| + |literals| + s.matchLength + LASTLITERALS <= cap
  {
    hide LengthBytes, MatchLength, MatchCopy, DecodeFrom;
    var nibble := src[ip] % 16;
    if nibble != 15 {
      ShortIsRead(src, nibble, at);
    }
    MatchIsWritten(src, nibble, at);
    MatchFits(src, nibble, at);
    s := Sequence(literals, ReadLE16(src, at), MatchLength(src, nibble, at + 2).sum + MINMATCH);
  }

  lemma ShortIsRead(src: seq<byte>, nibble: nat, at: nat)
    requires nibble < 15 && at + 2 < |src|
    ensures MatchLength(src, nibble, at + 2) == Length(nibble, at + 2, false)
  {
  }

  lemma MatchFits(src: seq<byte>, nibble: nat, at: nat)
    requires NoWrap(src) && nibble <= 15 && at + 2 < |src|
    ensures MatchLength(src, nibble, at + 2).sum + MINMATCH < TWO_TO_THE_32
  {
    hide SumLength, LengthBytes;
    if nibble == 15 { SumIsLength(src, at + 2, |src| - LASTLITERALS + 1); }
  }

  lemma HeadThenMatch(src: seq<byte>, ip: nat, at: nat, s: Sequence)
    requires Writable(s) && ip < at <= |src| && at + |SequenceTail(s)| <= |src|
    requires src[ip..at] == SequenceHead(s.literals, Nibble(s.matchLength - MINMATCH)) && src[at..at + |SequenceTail(s)|] == SequenceTail(s)
    ensures ip + |EncodeSequence(s)| == at + |SequenceTail(s)| && src[ip..ip + |EncodeSequence(s)|] == EncodeSequence(s)
    ensures |SequenceHead(s.literals, 0)| == at - ip
  {
    hide LengthBytes, SequenceTail;
    assert src[ip..at + |SequenceTail(s)|] == src[ip..at] + src[at..at + |SequenceTail(s)|];
  }

  lemma PassSnoc(ss: seq<Sequence>, s: Sequence, n: nat, cap: nat)
    requires AllPass(ss, n, cap) && Writable(s) && Small(s) && Passes(s, |EncodeSequences(ss)|, |Expand(ss)|, n, cap)
    ensures AllPass(ss + [s], n, cap) && s.offset <= |Expand(ss) + s.literals|
    ensures Expand(ss + [s]) == MatchCopy(Expand(ss) + s.literals, s.offset, s.matchLength)
    ensures EncodeSequences(ss + [s]) == EncodeSequences(ss) + EncodeSequence(s)
  {
    hide MatchCopy, EncodeSequence, SequenceHead;
    var more := ss + [s];
    assert more[..|more| - 1] == ss && more[|more| - 1] == s;
  }

  lemma {:induction false} AcceptedFrom(src: seq<byte>, ip: nat, ss: seq<Sequence>, cap: nat)
    returns (all: seq<Sequence>, last: seq<byte>, nibble: nat)
    requires NoWrap(src) && ip < |src| && AllPass(ss, |src|, cap) && src[..ip] == EncodeSequences(ss)
    requires DecodeFrom(src, ip, Expand(ss), cap).Done?
    ensures AllPass(all, |src|, cap) && nibble <= 15 && src == EncodeSequences(all) + SequenceHead(last, nibble)
    ensures DecodeFrom(src, ip, Expand(ss), cap) == Done(Expand(all) + last)
    ensures |Expand(all)| + |last| <= cap && |last| < TWO_TO_THE_32
    decreases |src| - ip
  {
    hide DecodeFrom, AllPass, Expand, EncodeSequences, EncodeSequence, SequenceHead, Passes, Ending, MatchCopy;
    if Ending(src, ip, |Expand(ss)|, cap) {
      last := EndIsWritten(src, ip, Expand(ss), cap);
      all, nibble := ss, src[ip] % 16;
      assert src == src[..ip] + src[ip..];
    } else {
      var s := SequenceIsWritten(src, ip, Expand(ss), cap);
      var ip1 := ip + |EncodeSequence(s)|;
      PassSnoc(ss, s, |src|, cap);
      assert src[..ip1] == src[..ip] + src[ip..ip1];
      SomethingWritten(s);
      all, last, nibble := AcceptedFrom(src, ip1, ss + [s], cap);
    }
  }

  lemma SomethingWritten(s: Sequence)
    requires Writable(s)
    ensures |EncodeSequence(s)| > 0
  {
  }

  // ---------- exactly the parses that pass ----------

  ghost predicate Accepts(src: seq<byte>, cap: nat, out: seq<byte>, ss: seq<Sequence>, last: seq<byte>, nibble: nat) {
    && AllPass(ss, |src|, cap) && nibble <= 15 && (cap == 0 ==> nibble == 0)
    && src == EncodeSequences(ss) + SequenceHead(last, nibble)
    && out == Expand(ss) + last && |out| <= cap && |last| < TWO_TO_THE_32
  }

  // The decoder accepts a block exactly when the whole of it is written from sequences that pass and last literals,
  // which fit, and gives what they stand for. Of the last token it does not look at the match length.
  lemma DecodesExactly(src: seq<byte>, cap: nat, out: seq<byte>)
    requires NoWrap(src)
    ensures Decode(src, cap) == Done(out) <==> exists ss, last, nibble :: Accepts(src, cap, out, ss, last, nibble)
  {
    hide Accepts, DecodeFrom;
    if Decode(src, cap) == Done(out) {
      var ss, last, nibble := AcceptedParse(src, cap, out);
      assert Accepts(src, cap, out, ss, last, nibble);
    }
    forall ss, last, nibble | Accepts(src, cap, out, ss, last, nibble)
      ensures Decode(src, cap) == Done(out)
    {
      ParseAccepted(src, cap, out, ss, last, nibble);
    }
  }

  lemma ParseAccepted(src: seq<byte>, cap: nat, out: seq<byte>, ss: seq<Sequence>, last: seq<byte>, nibble: nat)
    requires Accepts(src, cap, out, ss, last, nibble)
    ensures Decode(src, cap) == Done(out)
  {
    hide Decode, AllPass, Expand, EncodeSequences, SequenceHead;
    PassingDecodes(ss, last, nibble, src, cap);
  }

  lemma AcceptedParse(src: seq<byte>, cap: nat, out: seq<byte>) returns (ss: seq<Sequence>, last: seq<byte>, nibble: nat)
    requires NoWrap(src) && Decode(src, cap) == Done(out)
    ensures Accepts(src, cap, out, ss, last, nibble)
  {
    hide DecodeFrom;
    if cap == 0 {
      ss, last, nibble := [], [], 0;
    } else {
      assert src[..0] == [];
      ss, last, nibble := AcceptedFrom(src, 0, [], cap);
    }
  }

  // A block that is cut off behind the offset of its first match.
  lemma CutOffIsRefused()
    ensures Decode([0x30, 97, 98, 99, 3, 0], 64).Malformed?
  {
  }

  // The layout in one example: seven times the first letter and then the others, as a match of six bytes behind one
  // literal, and the last literals.
  lemma BlockExample()
    ensures Decode([0x12, 97, 1, 0, 0x50, 98, 99, 100, 101, 102], 64) == Done([97, 97, 97, 97, 97, 97, 97, 98, 99, 100, 101, 102])
  {
    hide AllPass, Expand, EncodeSequences, SequenceHead, Decode;
    var last: seq<byte>, seven: seq<byte> := [98, 99, 100, 101, 102], [97, 97, 97, 97, 97, 97, 97];
    var s := ExampleSequence(seven);
    ExamplePasses(s, seven);
    ExampleHead(last);
    PassingDecodes([s], last, 0, [0x12, 97, 1, 0, 0x50, 98, 99, 100, 101, 102], 64);
  }

  lemma ExampleHead(last: seq<byte>)
    requires last == [98, 99, 100, 101, 102]
    ensures SequenceHead(last, 0) == [0x50, 98, 99, 100, 101, 102]
  {
  }

  lemma ExamplePasses(s: Sequence, seven: seq<byte>)
    requires s.literals == [97] && s.offset == 1 && s.matchLength == 6 && Writable(s)
    requires EncodeSequence(s) == [0x12, 97, 1, 0] && |SequenceHead(s.literals, 0)| == 2 && MatchCopy(s.literals, 1, 6) == seven
    ensures AllPass([s], 10, 64) && EncodeSequences([s]) == [0x12, 97, 1, 0] && Expand([s]) == seven
  {
    hide EncodeSequence, SequenceHead, MatchCopy;
    assert [s][..0] == [] && [s][0] == s;
    assert EncodeSequences([s]) == EncodeSequences([]) + EncodeSequence(s);
    assert Expand([]) + s.literals == s.literals;
  }

  lemma ExampleSequence(seven: seq<byte>) returns (s: Sequence)
    requires seven == [97, 97, 97, 97, 97, 97, 97]
    ensures s.literals == [97] && s.offset == 1 && s.matchLength == 6
    ensures Writable(s) && EncodeSequence(s) == [0x12, 97, 1, 0] && |SequenceHead(s.literals, 0)| == 2
    ensures MatchCopy(s.literals, 1, 6) == seven
  {
    s := Sequence([97], 1, 6);
    Lz4Copy.PeriodicIsMatchCopy(s.literals, 1, seven);
  }
}

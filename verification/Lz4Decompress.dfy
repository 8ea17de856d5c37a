// LZ4_decompress_safe: the decoder's meaning as a function of the compressed bytes, the loop that
// refines it, and the proof that it inverts every block that respects the parsing restrictions.
module Lz4Decompress {
  import opened Bytes
  import opened Lz4Format
  import Lz4Copy

  datatype Outcome = Malformed | Done(out: seq<byte>)

  // A length read by read_variable_length: its value in 32 bits, where reading stopped, and whether it
  // stopped because the limit was reached (loop_error).
  datatype Length = Length(sum: nat, next: nat, limitHit: bool)

  // The bytes are added up without wrap-around here; see ReadLength.
  function SumLength(src: seq<byte>, ip: nat, limit: int): (r: Length)
    requires ip < |src| && limit <= |src|
    ensures ip < r.next <= |src|
    ensures !r.limitHit ==> r.next < limit
    decreases |src| - ip
  {
    if ip + 1 >= limit then Length(src[ip], ip + 1, true)
    else if src[ip] == 255 then
      var rest := SumLength(src, ip + 1, limit);
      rest.(sum := 255 + rest.sum)
    else Length(src[ip], ip + 1, false)
  }

  // `length` is a 32-bit unsigned accumulator.
  function ReadLength(src: seq<byte>, ip: nat, limit: int): (r: Length)
    requires ip < |src| && limit <= |src|
    ensures ip < r.next <= |src|
    ensures !r.limitHit ==> r.next < limit
  {
    var r := SumLength(src, ip, limit);
    r.(sum := r.sum % TWO_TO_THE_32)
  }

  // The shortcut applies to short literal runs away from both ends; it skips the end-of-block checks.
  predicate Shortcut(src: seq<byte>, ip: nat, produced: nat, cap: nat)
    requires ip < |src|
  {
    src[ip] / 16 != RUN_MASK && ip + 1 < |src| - 16 && produced <= cap - 32
  }

  // Decoding from the token at `ip` with `out` already produced, into a buffer of `cap` bytes.
  function DecodeFrom(src: seq<byte>, ip: nat, out: seq<byte>, cap: nat): Outcome
    requires ip < |src|
    decreases |src| - ip
  {
    var shortcut := Shortcut(src, ip, |out|, cap);
    var literals := LiteralRun(src, ip);
    if literals.None? then Malformed
    else
      var length, ip2 := literals.length, literals.next;
      if !shortcut && (|out| + length > cap - MFLIMIT || ip2 + length > |src| - (2 + 1 + LASTLITERALS)) then
        if ip2 + length != |src| || |out| + length > cap then Malformed else Done(out + src[ip2..])
      else
        DecodeMatch(src, ip, ip2 + length, out + src[ip2..ip2 + length], cap, shortcut)
  }

  datatype Run = None | Run(length: nat, next: nat)

  function LiteralRun(src: seq<byte>, ip: nat): (r: Run)
    requires ip < |src|
    ensures r.Run? ==> ip < r.next <= |src|
  {
    if src[ip] / 16 != RUN_MASK then Run(src[ip] / 16, ip + 1)
    else if ip + 1 >= |src| - RUN_MASK then None
    else
      var r := ReadLength(src, ip + 1, |src| - RUN_MASK);
      Run(RUN_MASK + r.sum, r.next)
  }

  function MatchLength(src: seq<byte>, nibble: nat, ip: nat): (r: Length)
    requires ip < |src|
    ensures ip <= r.next <= |src| && (!r.limitHit ==> r.next < |src|)
  {
    if nibble != 15 then Length(nibble, ip, false)
    else
      var r := ReadLength(src, ip, |src| - LASTLITERALS + 1);
      r.(sum := 15 + r.sum)
  }

  // The match half of the sequence whose token is at `ip`; its offset is at `at`.
  function DecodeMatch(src: seq<byte>, ip: nat, at: nat, out: seq<byte>, cap: nat, shortcut: bool): Outcome
    requires ip < at && at + 2 < |src|
    decreases |src| - ip, 0
  {
    var offset := ReadLE16(src, at);
    var nibble := src[ip] % 16;
    if shortcut && nibble != 15 && offset >= 8 && offset <= |out| then
      DecodeFrom(src, at + 2, MatchCopy(out, offset, nibble + MINMATCH), cap)
    else
      var l := MatchLength(src, nibble, at + 2);
      if l.limitHit || offset > |out| || |out| + l.sum + MINMATCH > cap - LASTLITERALS then Malformed
      else DecodeFrom(src, l.next, MatchCopy(out, offset, l.sum + MINMATCH), cap)
  }

  function Decode(src: seq<byte>, cap: nat): Outcome {
    if cap == 0 then (if src == [0] then Done([]) else Malformed)
    else if src == [] then Malformed
    else DecodeFrom(src, 0, [], cap)
  }

  // ---------- the loop ----------

  method ReadVariableLength(src: seq<byte>, ip0: nat, limit: int) returns (length: nat, ip: nat, limitHit: bool)
    requires ip0 < |src| && limit <= |src|
    ensures Length(length, ip, limitHit) == ReadLength(src, ip0, limit)
  {
    length, ip := 0, ip0;
    ghost var sum: nat := 0;
    while true
      invariant ip0 <= ip < |src| && length == sum % TWO_TO_THE_32
      invariant var rest := SumLength(src, ip, limit);
        SumLength(src, ip0, limit) == rest.(sum := sum + rest.sum)
      decreases |src| - ip
    {
      var s := src[ip];
      ip := ip + 1;
      WrappedSum(sum, s);
      length := (length + s) % TWO_TO_THE_32;
      sum := sum + s;
      if ip >= limit { return length, ip, true; }
      if s != 255 { break; }
    }
    limitHit := false;
  }

  lemma WrappedSum(a: nat, b: nat)
    ensures (a % TWO_TO_THE_32 + b) % TWO_TO_THE_32 == (a + b) % TWO_TO_THE_32
  {
  }

  // LZ4_decompress_safe into the first `cap` bytes of `dst`: it accepts exactly the inputs that Decode
  // accepts, leaves Decode's output, and never touches the buffer beyond `cap` nor reads past `src`.
  method DecompressSafe(src: seq<byte>, dst: array<byte>, cap: nat) returns (r: int)
    requires cap <= dst.Length
    modifies dst
    ensures dst[cap..] == old(dst[cap..])
    ensures r < 0 <==> Decode(src, cap).Malformed?
    ensures Decode(src, cap).Done? ==> r == |Decode(src, cap).out| <= cap && dst[..r] == Decode(src, cap).out
  {
    if cap == 0 {
      return if |src| == 1 && src[0] == 0 then 0 else -1;
    }
    if |src| == 0 { return -1; }
    var ip: nat, op: nat := 0, 0;
    assert dst[..op] == [];
    while true
      invariant ip < |src| && op <= cap
      invariant DecodeFrom(src, ip, dst[..op], cap) == Decode(src, cap)
      invariant dst[cap..] == old(dst[cap..])
      decreases |src| - ip
    {
      hide DecodeFrom, DecodeMatch, Decode;
      var token := src[ip];
      ghost var token0 := ip;
      var status, shortcut;
      status, ip, op, shortcut := LiteralStep(src, dst, ip, op, cap);
      match status {
        case Error => return -1 - ip;
        case Finished => return op;
        case Proceed =>
      }
      var ok;
      ok, ip, op := MatchStep(src, dst, token0, ip, op, cap, token % 16, shortcut);
      if !ok { return -1 - ip; }
    }
  }

  datatype Status = Error | Finished | Proceed

  // The literals of the sequence at `ip0`.
  method LiteralStep(src: seq<byte>, dst: array<byte>, ip0: nat, op0: nat, cap: nat)
    returns (status: Status, ip: nat, op: nat, shortcut: bool)
    requires ip0 < |src| && op0 <= cap <= dst.Length
    modifies dst
    ensures dst[cap..] == old(dst[cap..])
    ensures shortcut == Shortcut(src, ip0, op0, cap) && op <= cap
    ensures status.Error? ==> DecodeFrom(src, ip0, old(dst[..op0]), cap).Malformed?
    ensures status.Finished? ==> DecodeFrom(src, ip0, old(dst[..op0]), cap) == Done(dst[..op])
    ensures status.Proceed? ==>
      ip0 < ip && ip + 2 < |src| && op + MFLIMIT <= cap && (shortcut ==> op + 18 <= cap) &&
      DecodeFrom(src, ip0, old(dst[..op0]), cap) == DecodeMatch(src, ip0, ip, dst[..op], cap, shortcut)
  {
    hide DecodeMatch, ReadLength;
    ip, op := ip0, op0;
    ghost var out := dst[..op];
    ghost var tail := dst[cap..];
    var length: nat := src[ip] / 16;
    ip := ip + 1;
    shortcut := length != RUN_MASK && ip < |src| - (14 + 2) && op <= cap - (14 + 18);
    if shortcut {
      Lz4Copy.CopyFrom(dst, op, src, ip, 16);
      assert dst[cap..] == dst[..][cap..] == tail;
      assert dst[..op + length] == dst[..][..op + length] == out + src[ip..ip + length];
      return Proceed, ip + length, op + length, true;
    }
    if length == RUN_MASK {
      if ip >= |src| - RUN_MASK { return Error, ip, op, false; }
      var more, limitHit;
      more, ip, limitHit := ReadVariableLength(src, ip, |src| - RUN_MASK);
      length := length + more;
    }
    var cpy := op + length;
    if cpy > cap - MFLIMIT || ip + length > |src| - (2 + 1 + LASTLITERALS) {
      if ip + length != |src| || cpy > cap { return Error, ip, op, false; }
      Lz4Copy.CopyFrom(dst, op, src, ip, length);
      assert dst[cap..] == dst[..][cap..] == tail;
      assert dst[..cpy] == dst[..][..cpy] == out + src[ip..ip + length];
      assert src[ip..ip + length] == src[ip..];
      return Finished, ip + length, cpy, false;
    }
    Lz4Copy.WildCopyFrom(dst, op, src, ip, cpy, cap);
    return Proceed, ip + length, cpy, false;
  }

  // The match of the sequence whose token is at `token0`; its offset is at `at`.
  method MatchStep(src: seq<byte>, dst: array<byte>, ghost token0: nat, at: nat, op0: nat, cap: nat, nibble: nat, shortcut: bool)
    returns (ok: bool, ip: nat, op: nat)
    requires token0 < at && at + 2 < |src| && nibble == src[token0] % 16
    requires op0 + MFLIMIT <= cap <= dst.Length && (shortcut ==> op0 + 18 <= cap)
    modifies dst
    ensures dst[cap..] == old(dst[cap..]) && op <= cap
    ensures !ok ==> DecodeMatch(src, token0, at, old(dst[..op0]), cap, shortcut).Malformed?
    ensures ok ==> token0 < ip < |src|
    ensures ok ==> DecodeMatch(src, token0, at, old(dst[..op0]), cap, shortcut) == DecodeFrom(src, ip, dst[..op], cap)
  {
    hide DecodeFrom, MatchCopy, ReadLength;
    op := op0;
    var offset := src[at] as int + 256 * src[at + 1] as int;
    ip := at + 2;
    var length := nibble;
    if shortcut && length != 15 && offset >= 8 && offset <= op {
      ShortcutMatch(dst, op, offset, length + MINMATCH, cap);
      return true, ip, op + length + MINMATCH;
    }
    if length == 15 {
      var more, limitHit;
      more, ip, limitHit := ReadVariableLength(src, ip, |src| - LASTLITERALS + 1);
      if limitHit { return false, ip, op; }
      length := length + more;
    }
    length := length + MINMATCH;
    if offset > op { return false, ip, op; }
    ok := Lz4Copy.CopyMatch(dst, op, offset, length, cap);
    if ok { op := op + length; }
  }

  // The shortcut's second stage: eighteen bytes in three pieces, whatever the length.
  method ShortcutMatch(dst: array<byte>, op: nat, offset: nat, length: nat, cap: nat)
    requires 8 <= offset <= op && length <= 18 && op + 18 <= cap <= dst.Length
    modifies dst
    ensures dst[..op + length] == MatchCopy(old(dst[..op]), offset, length)
    ensures dst[cap..] == old(dst[cap..])
  {
    hide MatchCopy;
    ghost var out := dst[..op];
    Lz4Copy.CopyBlock(dst, op, offset, 8, cap);
    Lz4Copy.CopyBlock(dst, op + 8, offset, 8, cap);
    MatchCopyCompose(out, offset, 8, 8);
    Lz4Copy.CopyBlock(dst, op + 16, offset, 2, cap);
    MatchCopyCompose(out, offset, 16, 2);
    MatchCopyPrefix(out, offset, length, 18);
    assert dst[..op + length] == dst[..op + 18][..op + length];
  }
}

// Buffered writing and reading of files: no buffer size shows.
module Buffered {
  import opened Bytes
  import opened Options

  // ---------- writing ----------

  class Out {
    const buffer: array<byte>
    var pos: nat
    var file: seq<byte>

    ghost predicate Valid()
      reads this
    {
      pos <= buffer.Length
    }

    // All bytes written so far, in the file or still in the buffer.
    ghost function Written(): seq<byte>
      requires Valid()
      reads this, buffer
    {
      file + buffer[..pos]
    }

    constructor (size: nat)
      ensures Valid() && fresh(buffer) && buffer.Length == size && Written() == []
    {
      buffer := new byte[size](_ => 0);
      pos, file := 0, [];
    }

    method Write(d: seq<byte>)
      requires Valid()
      modifies this, buffer
      ensures Valid() && Written() == old(Written()) + d
    {
      if d == [] { return; }
      if pos + |d| < buffer.Length {
        Copy(buffer, pos, d);
        pos := pos + |d|;
        assert file + (old(buffer[..pos]) + d) == file + old(buffer[..pos]) + d;
        return;
      }
      WriteThrough(d);
    }

    // More than the buffer has room for: it is filled and written out, then what is left of d.
    method WriteThrough(d: seq<byte>)
      requires Valid() && pos + |d| >= buffer.Length
      modifies this, buffer
      ensures Valid() && Written() == old(Written()) + d
    {
      var diff := buffer.Length - pos;
      var first, rest := d[..diff], d[diff..];
      ghost var head := buffer[..pos];
      Copy(buffer, pos, first);
      assert buffer[..] == buffer[..pos + |first|] == head + first;
      Regroup(file, head, first, rest, d);
      file := file + buffer[..];
      pos := 0;
      if |rest| >= buffer.Length {
        file := file + rest;
        assert buffer[..pos] == [];
      } else {
        Copy(buffer, 0, rest);
        pos := |rest|;
        assert buffer[..pos] == rest;
      }
    }

    method Flush()
      requires Valid()
      modifies this
      ensures Valid() && file == old(Written()) && Written() == file
    {
      file := file + buffer[..pos];
      pos := 0;
    }

    // A length of four bytes, then the record.
    method WritePrefix(d: seq<byte>)
      requires Valid() && |d| < TWO_TO_THE_32
      modifies this, buffer
      ensures Valid() && Written() == old(Written()) + Prefixed(d)
    {
      ghost var before := Written();
      Write(LE32(|d|));
      Write(d);
      assert before + LE32(|d|) + d == before + Prefixed(d);
    }

    // The record, then the delimiter.
    method WriteDelimiter(d: seq<byte>, delim: byte)
      requires Valid()
      modifies this, buffer
      ensures Valid() && Written() == old(Written()) + Delimited(delim, d)
    {
      ghost var before := Written();
      Write(d);
      Write([delim]);
      assert before + d + [delim] == before + Delimited(delim, d);
    }
  }

  lemma Regroup(file: seq<byte>, head: seq<byte>, first: seq<byte>, rest: seq<byte>, d: seq<byte>)
    requires d == first + rest
    ensures file + (head + first) + rest == file + head + d
  {
  }

  // memcpy
  method Copy(buffer: array<byte>, at: nat, d: seq<byte>)
    requires at + |d| <= buffer.Length
    modifies buffer
    ensures buffer[..at] == old(buffer[..at]) && buffer[at..at + |d|] == d
    ensures buffer[at + |d|..] == old(buffer[at + |d|..])
    ensures buffer[..at + |d|] == old(buffer[..at]) + d
  {
    forall k | 0 <= k < |d| {
      buffer[at + k] := d[k];
    }
  }

  function Prefixed(d: seq<byte>): seq<byte>
    requires |d| < TWO_TO_THE_32
  {
    LE32(|d|) + d
  }

  function Delimited(delim: byte, d: seq<byte>): seq<byte> {
    d + [delim]
  }

  // ---------- reading ----------

  // The first n bytes, or all there are.
  function Take(s: seq<byte>, n: nat): seq<byte> {
    if n <= |s| then s[..n] else s
  }

  function Drop(s: seq<byte>, n: nat): seq<byte> {
    if n <= |s| then s[n..] else []
  }

  function Min(a: nat, b: nat): nat {
    if a <= b then a else b
  }

  lemma Cut(r: seq<byte>, s: seq<byte>, t: seq<byte>)
    ensures (r + s + t)[..|r|] == r && (r + s + t)[|r|..] == s + t
  {
  }

  // A buffer that grew by the next n bytes of the file: the same is left.
  lemma Filled(head: seq<byte>, file: seq<byte>, fpos: nat, n: nat, pos: nat, grown: seq<byte>)
    requires fpos + n <= |file| && pos <= |head| && grown == head + file[fpos..fpos + n]
    ensures head[pos..] + file[fpos..] == grown[pos..] + file[fpos + n..]
  {
    assert file[fpos..] == file[fpos..fpos + n] + file[fpos + n..];
    assert grown[pos..] == head[pos..] + file[fpos..fpos + n];
  }

  lemma Taken(head: seq<byte>, rest: seq<byte>, n: nat, len: nat)
    requires n <= |rest| && |head| + n <= len && (|head| + n == len || n == |rest|)
    ensures Take(head + rest, len) == head + rest[..n] && Drop(head + rest, len) == rest[n..]
  {
    assert rest == rest[..n] + rest[n..];
    assert head + rest == (head + rest[..n]) + rest[n..];
  }

  class In {
    const file: seq<byte>
    var fpos: nat
    // One byte more than `capacity`, for a zero byte.
    const buffer: array<byte>
    const capacity: nat
    // Whether a plain char is signed where the library is built.
    const signed: bool
    var size: nat
    var pos: nat
    var used: nat
    var eof: bool
    // Where a zero byte stands in for `zero`.
    var zerop: Option<nat>
    var zero: byte

    ghost predicate Valid()
      reads this, buffer
    {
      && pos <= used <= size <= capacity && capacity >= 256 && buffer.Length == capacity + 1 && fpos <= |file|
      && (eof ==> fpos == |file|) && (!eof ==> size == capacity)
      && (zerop.Some? ==> pos <= zerop.value + 1 && zerop.value <= capacity && buffer[zerop.value] == 0)
    }

    // The buffer with the zero byte undone.
    ghost function Real(): seq<byte>
      requires Valid()
      reads this, buffer
    {
      if zerop.Some? then buffer[..][zerop.value := zero] else buffer[..]
    }

    // What has not been read.
    ghost function Left(): seq<byte>
      requires Valid()
      reads this, buffer
    {
      Real()[pos..used] + file[fpos..]
    }

    constructor (file: seq<byte>, bufferSize: nat, signed: bool)
      ensures Valid() && fresh(buffer) && this.file == file && this.signed == signed && capacity >= 256 && Left() == file
    {
      var c := if bufferSize < 256 then 256 else bufferSize;
      this.file, this.signed, capacity, buffer := file, signed, c, new byte[c + 1](_ => 0);
      fpos, size, pos, used, eof, zerop, zero := 0, c, 0, 0, false, None, 0;
      new;
      FillBlocks();
    }

    // As many bytes from the file as there is room for.
    method FillBlocks()
      requires Valid() && zerop.None?
      modifies this`fpos, this`size, this`used, this`eof, buffer
      ensures Valid() && Left() == old(Left()) && pos == old(pos)
      ensures eof || used == size
      ensures fpos - old(fpos) == used - old(used)
    {
      hide Real, Left;
      if eof { return; }
      LeftIs();
      var bytes := size - used;
      var n := Min(bytes, |file| - fpos);
      ghost var head := buffer[..used];
      Copy(buffer, used, file[fpos..fpos + n]);
      Filled(head, file, fpos, n, pos, buffer[..used + n]);
      assert buffer[..used + n][pos..] == buffer[pos..used + n] && head[pos..] == old(buffer[pos..used]);
      used, fpos := used + n, fpos + n;
      if n < bytes {
        eof, size := true, used;
      }
      LeftIs();
    }

    // memmove
    method ResetBlock()
      requires Valid() && zerop.None?
      modifies this`pos, this`used, buffer
      ensures Valid() && Left() == old(Left()) && pos == 0
    {
      forall k | 0 <= k < used - pos {
        buffer[k] := buffer[pos + k];
      }
      assert buffer[..used - pos] == old(buffer[pos..used]);
      used, pos := used - pos, 0;
    }

    method CleanupLastRead()
      requires Valid()
      modifies this`zerop, buffer
      ensures Valid() && zerop.None? && Left() == old(Left()) && Real() == old(Real())
    {
      if zerop.Some? {
        buffer[zerop.value] := zero;
        zerop := None;
      }
    }

    // The bytes that were just passed, with a zero byte behind them for now.
    method Hand(from: nat, len: nat) returns (r: seq<byte>)
      requires Valid() && zerop.None? && from + len <= used && (from + len == pos || from + len + 1 == pos)
      modifies this`zerop, this`zero, buffer
      ensures Valid() && Left() == old(Left()) && r == old(buffer[from..from + len])
      ensures buffer[from + len] == 0 && buffer[from..from + len] == r && zerop == Some(from + len)
    {
      zerop, zero := Some(from + len), buffer[from + len];
      buffer[from + len] := 0;
      r := buffer[from..from + len];
      assert Real() == old(buffer[..]);
    }

    // Exactly len bytes, or none when fewer are left.
    method Read(len: nat) returns (r: Option<seq<byte>>)
      requires Valid() && len <= capacity
      modifies this, buffer
      ensures Valid()
      ensures if |old(Left())| >= len then r == Some(old(Left())[..len]) && Left() == old(Left())[len..]
              else r == None && Left() == []
    {
      CleanupLastRead();
      ghost var left := Left();
      assert |left| == (used - pos) + (|file| - fpos);
      if pos + len > used {
        if eof {
          pos := used;
          return None;
        }
        ResetBlock();
        FillBlocks();
        assert Left() == left && |left| == used + (|file| - fpos);
        if len > used {
          pos := used;
          return None;
        }
      }
      var d := Pass(len);
      r := Some(d);
    }

    // The next bytes of the buffer.
    method Pass(len: nat) returns (r: seq<byte>)
      requires Valid() && zerop.None? && pos + len <= used
      modifies this`pos
      ensures Valid() && pos == old(pos) + len && r == buffer[old(pos)..pos]
      ensures |old(Left())| >= len && r == old(Left())[..len] && Left() == old(Left())[len..]
    {
      r := buffer[pos..pos + len];
      pos := pos + len;
      assert buffer[old(pos)..used] == r + buffer[pos..used];
      Cut(r, buffer[pos..used], file[fpos..]);
    }

    // Up to len bytes, fewer only when the file ends, with a zero byte behind them.
    method Readz(len: nat) returns (r: seq<byte>)
      requires Valid() && len < SIGNED_LIMIT
      modifies this, buffer
      ensures Valid() && r == Take(old(Left()), len) && Left() == Drop(old(Left()), len)
    {
      CleanupLastRead();
      ghost var left := Left();
      assert |left| == (used - pos) + (|file| - fpos);
      if pos + len <= used {
        r := PassZ(len);
      } else if eof {
        assert left[..used - pos] == left && left[used - pos..] == [];
        r := PassZ(used - pos);
      } else if len > size {
        r := ReadLarge(len);
      } else {
        ResetBlock();
        FillBlocks();
        assert Left() == left && |left| == used + (|file| - fpos);
        var n := Min(len, used);
        assert n < len ==> left[..n] == left && left[n..] == [];
        r := PassZ(n);
      }
    }

    method PassZ(len: nat) returns (r: seq<byte>)
      requires Valid() && zerop.None? && pos + len <= used
      modifies this`pos, this`zerop, this`zero, buffer
      ensures Valid() && |old(Left())| >= len && r == old(Left())[..len] && Left() == old(Left())[len..]
      ensures |r| == len && buffer[old(pos)..old(pos) + len] == r && buffer[old(pos) + len] == 0
    {
      r := Pass(len);
      r := Hand(pos - len, len);
    }

    // More than the buffer holds: what it has, and the rest straight from the file.
    method ReadLarge(len: nat) returns (r: seq<byte>)
      requires Valid() && zerop.None? && !eof && pos + len > used && len > size
      modifies this`pos, this`used, this`fpos, this`eof
      ensures Valid() && r == Take(old(Left()), len) && Left() == Drop(old(Left()), len)
    {
      hide Real, Left, Take, Drop;
      LeftIs();
      r := buffer[pos..used];
      var bytes := len - |r|;
      var n := Min(bytes, |file| - fpos);
      Taken(r, file[fpos..], n, len);
      assert file[fpos..][..n] == file[fpos..fpos + n] && file[fpos..][n..] == file[fpos + n..];
      r := r + file[fpos..fpos + n];
      pos, used, fpos := 0, 0, fpos + n;
      if n < bytes { eof := true; }
      LeftIs();
      assert buffer[0..0] + file[fpos..] == file[fpos..];
    }

    // The first delimiter in the buffer from p on, or the end of what is there. Quotes are looked at first, and
    // without CSV they are only stepped over.
    method Scan(delim: byte, from: nat) returns (p: nat)
      requires Valid() && zerop.None? && from <= used
      ensures from <= p <= used && !Stops(buffer[from..p], delim, signed)
      ensures p < used ==> Findable(delim, signed) && buffer[p] == delim
    {
      p := from;
      while p < used
        invariant from <= p <= used && !Stops(buffer[from..p], delim, signed)
      {
        assert buffer[from..p + 1] == buffer[from..p] + [buffer[p]];
        if buffer[p] == QUOTE {
          p := p + 1;
        } else if PlainChar(buffer[p], signed) != delim {
          p := p + 1;
        } else {
          return;
        }
      }
    }

    // The bytes up to the delimiter, which is passed too; none when the file ends before one.
    method ReadDelimited(delim: byte) returns (r: Option<seq<byte>>)
      requires Valid()
      modifies this, buffer
      ensures Valid()
      ensures ReadsField(old(Left()), delim, signed, r, Left())
    {
      hide ReadsField, Left, Real;
      CleanupLastRead();
      LeftIs();
      var p := Scan(delim, pos);
      if p < used {
        var d := PassField(delim, p);
        return Some(d);
      }
      if eof {
        NoField(delim, signed, buffer[pos..used], file[fpos..]);
        pos := used;
        LeftIs();
        return None;
      }
      if pos > 0 {
        r := ReadRefilled(delim);
      } else {
        r := ReadAcross(delim);
      }
    }

    // Nothing in the buffer so far: it is moved to the front, filled up, and searched from where it ended.
    method ReadRefilled(delim: byte) returns (r: Option<seq<byte>>)
      requires Valid() && zerop.None? && !eof && !Stops(buffer[pos..used], delim, signed)
      modifies this, buffer
      ensures Valid()
      ensures ReadsField(old(Left()), delim, signed, r, Left())
    {
      hide ReadsField, Left, Real;
      ghost var left, head := Left(), buffer[pos..used];
      LeftIs();
      ResetBlock();
      LeftIs();
      var was := used;
      FillBlocks();
      LeftIs();
      KeptHead(head, left, buffer[0..used], file[fpos..]);
      var p := Scan(delim, was);
      StillNone(head, was, p, delim);
      assert Left() == left;
      if p < used {
        var d := PassField(delim, p);
        return Some(d);
      }
      if eof {
        NoBlock([], delim);
        assert [] + left == left;
        pos := used;
        LeftIs();
        return None;
      }
      r := ReadAcross(delim);
    }

    lemma StillNone(head: seq<byte>, was: nat, p: nat, delim: byte)
      requires Valid() && pos == 0 && was == |head| <= p <= used && buffer[0..used][..was] == head
      requires !Stops(head, delim, signed) && !Stops(buffer[was..p], delim, signed)
      ensures !Stops(buffer[..p], delim, signed) && !Stops(buffer[pos..p], delim, signed)
    {
      assert buffer[..p] == head + buffer[was..p] && buffer[0..p] == buffer[..p];
    }

    // A field that ends inside the buffer, at p.
    method PassField(delim: byte, p: nat) returns (r: seq<byte>)
      requires Valid() && zerop.None? && pos <= p < used && buffer[p] == delim && Findable(delim, signed) && !Stops(buffer[pos..p], delim, signed)
      modifies this`pos, this`zerop, this`zero, buffer
      ensures Valid() && ReadsField(old(Left()), delim, signed, Some(r), Left())
      ensures buffer[p] == 0
    {
      hide ReadsField, Left, Real;
      LeftIs();
      ghost var field, rest := buffer[pos..p], buffer[p + 1..used] + file[fpos..];
      FieldFound(field, delim, signed, buffer[p + 1..used], file[fpos..]);
      assert buffer[pos..used] == field + [delim] + buffer[p + 1..used];
      var len := p - pos;
      pos := p + 1;
      LeftIs();
      r := Hand(p - len, len);
    }

    // No delimiter in the whole buffer: blocks are gathered until there is one.
    method ReadAcross(delim: byte) returns (r: Option<seq<byte>>)
      requires Valid() && zerop.None? && !eof && pos == 0 && !Stops(buffer[..used], delim, signed)
      modifies this, buffer
      ensures Valid()
      ensures ReadsField(old(Left()), delim, signed, r, Left())
    {
      hide ReadsField, Left, Real;
      ghost var left := Left();
      var bh: seq<byte> := [];
      while true
        invariant Valid() && zerop.None? && !eof && pos == 0 && !Stops(buffer[..used], delim, signed) && !Stops(bh, delim, signed)
        invariant left == bh + Left()
        decreases |file| - fpos
      {
        bh := TakeBlock(bh);
        FillBlocks();
        var p := Scan(delim, 0);
        if p < used {
          r := Some(bh + buffer[..p]);
          LastBlock(bh, delim, p);
          pos := p + 1;
          LeftIs();
          return;
        }
        if eof {
          NoBlock(bh, delim);
          pos := used;
          LeftIs();
          return None;
        }
      }
    }

    lemma LeftIs()
      requires Valid() && zerop.None?
      ensures Left() == buffer[pos..used] + file[fpos..]
      ensures eof && pos == used ==> Left() == []
    {
    }

    // The whole buffer joins what was gathered.
    method TakeBlock(bh0: seq<byte>) returns (bh: seq<byte>)
      requires Valid() && zerop.None? && pos == 0
      modifies this`used
      ensures Valid() && used == 0 && bh == bh0 + buffer[..old(used)] && bh0 + old(Left()) == bh + Left()
    {
      bh := bh0 + buffer[..used];
      Regrouped(bh0, buffer[..used], file[fpos..]);
      used := 0;
      assert buffer[0..used] == [];
    }

    lemma LastBlock(bh: seq<byte>, delim: byte, p: nat)
      requires Valid() && zerop.None? && pos == 0 && p < used && buffer[p] == delim && Findable(delim, signed) && !Stops(buffer[..p], delim, signed) && !Stops(bh, delim, signed)
      ensures ReadsField(bh + Left(), delim, signed, Some(bh + buffer[..p]), buffer[p + 1..used] + file[fpos..])
    {
      hide ReadsField;
      FieldFound(bh + buffer[..p], delim, signed, buffer[p + 1..used], file[fpos..]);
      assert buffer[0..used] == buffer[..p] + [delim] + buffer[p + 1..used];
      FieldGathered(bh, buffer[..p], delim, buffer[p + 1..used], file[fpos..]);
    }

    lemma NoBlock(bh: seq<byte>, delim: byte)
      requires Valid() && zerop.None? && pos == 0 && eof && !Stops(buffer[..used], delim, signed) && !Stops(bh, delim, signed)
      ensures ReadsField(bh + Left(), delim, signed, None, [])
    {
      assert file[fpos..] == [];
      assert bh + Left() == bh + buffer[..used] + [];
      NoField(delim, signed, bh + buffer[..used], []);
    }
  }

  const QUOTE: byte := 34

  // A byte as a plain char, promoted to an integer.
  function PlainChar(c: byte, signed: bool): int {
    if signed && c >= 128 then c - 256 else c
  }

  // Eight bits: the byte itself, or the number from -128 to 127 that leaves the same remainder.
  lemma EightBits(c: byte)
    ensures PlainChar(c, false) == c
    ensures -128 <= PlainChar(c, true) <= 127 && (PlainChar(c, true) - c) % 256 == 0
  {
  }

  // Delimiters that a scan can come upon: not the quote, which is stepped over, nor one from 128 on where no plain
  // char has such a value.
  predicate Findable(delim: byte, signed: bool) {
    delim != QUOTE && (signed ==> delim < 128)
  }

  predicate Stops(s: seq<byte>, delim: byte, signed: bool) {
    Findable(delim, signed) && delim in s
  }

  // What reading a field gives and leaves.
  ghost predicate ReadsField(left: seq<byte>, delim: byte, signed: bool, r: Option<seq<byte>>, left1: seq<byte>) {
    if Stops(left, delim, signed) then r == Some(left[..IndexOf(left, delim)]) && left1 == left[IndexOf(left, delim) + 1..]
    else r == None && left1 == []
  }

  lemma FieldFound(field: seq<byte>, delim: byte, signed: bool, more: seq<byte>, rest: seq<byte>)
    requires Findable(delim, signed) && !Stops(field, delim, signed)
    ensures ReadsField(field + [delim] + more + rest, delim, signed, Some(field), more + rest)
  {
    assert field + [delim] + more + rest == field + [delim] + (more + rest);
    FirstField(field, delim, signed, more + rest);
  }

  lemma FirstField(field: seq<byte>, delim: byte, signed: bool, rest: seq<byte>)
    requires Findable(delim, signed) && !Stops(field, delim, signed)
    ensures ReadsField(field + [delim] + rest, delim, signed, Some(field), rest)
  {
    var s := [delim] + rest;
    assert field + [delim] + rest == field + s;
    IndexBehind(field, s, delim);
  }

  lemma NoField(delim: byte, signed: bool, s: seq<byte>, rest: seq<byte>)
    requires !Stops(s, delim, signed) && rest == []
    ensures ReadsField(s + rest, delim, signed, None, [])
  {
    assert s + rest == s;
  }

  lemma Regrouped(a: seq<byte>, b: seq<byte>, c: seq<byte>)
    ensures a + (b + c) == (a + b) + ([] + c)
  {
  }

  lemma FieldGathered(bh: seq<byte>, field: seq<byte>, delim: byte, more: seq<byte>, rest: seq<byte>)
    ensures bh + ((field + [delim] + more) + rest) == (bh + field) + [delim] + more + rest
  {
  }

  // Where c is first, or the length.
  function IndexOf(s: seq<byte>, c: byte): (i: nat)
    ensures i <= |s| && (c in s <==> i < |s|) && (i < |s| ==> s[i] == c) && c !in s[..i]
  {
    if s == [] || s[0] == c then 0
    else
      assert s == [s[0]] + s[1..];
      var i := 1 + IndexOf(s[1..], c);
      assert s[..i] == [s[0]] + s[1..][..i - 1];
      i
  }

  lemma {:induction false} IndexIs(s: seq<byte>, c: byte, i: nat)
    requires i <= |s| && c !in s[..i] && (i < |s| ==> s[i] == c)
    ensures IndexOf(s, c) == i
  {
    if i > 0 {
      assert s[..i][0] == s[0] && s[1..][..i - 1] == s[..i][1..];
      IndexIs(s[1..], c, i - 1);
    }
  }

  lemma IndexBehind(a: seq<byte>, s: seq<byte>, c: byte)
    requires c !in a
    ensures IndexOf(a + s, c) == |a| + IndexOf(s, c)
    ensures s != [] && s[0] == c ==> IndexOf(a + s, c) == |a| && (a + s)[..|a|] == a && (a + s)[|a| + 1..] == s[1..]
  {
    var i := IndexOf(s, c);
    assert (a + s)[..|a| + i] == a + s[..i];
    IndexIs(a + s, c, |a| + i);
  }

  // Text that was moved to the front of the buffer still heads what is left.
  lemma KeptHead(head: seq<byte>, left: seq<byte>, front: seq<byte>, rest: seq<byte>)
    requires left == front + rest && |head| <= |front| && |head| <= |left| && head == left[..|head|]
    ensures front[..|head|] == head
  {
    assert front[..|head|] == left[..|head|];
  }

  // ---------- records through files ----------

  // Records that can be read back.
  type Short = d: seq<byte> | |d| < SIGNED_LIMIT

  function AllPrefixed(records: seq<Short>): seq<byte> {
    if records == [] then [] else Prefixed(records[0]) + AllPrefixed(records[1..])
  }

  function AllDelimited(delim: byte, records: seq<seq<byte>>): seq<byte> {
    if records == [] then [] else Delimited(delim, records[0]) + AllDelimited(delim, records[1..])
  }

  // The record at the front of s: its length, then its bytes; none when some are missing.
  function PrefixAt(s: seq<byte>): Option<seq<byte>> {
    if |s| < 4 || |s| - 4 < ReadLE32(s, 0) then None else Some(s[4..4 + ReadLE32(s, 0)])
  }

  method AdvancePrefix(input: In) returns (r: Option<seq<byte>>)
    requires input.Valid() && (|input.Left()| >= 4 ==> ReadLE32(input.Left(), 0) < SIGNED_LIMIT)
    modifies input, input.buffer
    ensures input.Valid() && r == PrefixAt(old(input.Left()))
    ensures r.Some? ==> input.Left() == old(input.Left())[4 + |r.value|..]
  {
    hide In.Valid, In.Left;
    ghost var left := input.Left();
    RoomForFour(input);
    var l := input.Read(4);
    if l.None? { return None; }
    var length := ReadLE32(l.value, 0);
    assert length == ReadLE32(left, 0);
    ghost var rest := left[4..];
    var d: seq<byte> := [];
    if length > 0 {
      d := input.Readz(length);
      if |d| != length { return None; }
    }
    r := Some(d);
    assert rest[..length] == left[4..4 + length] && rest[length..] == left[4 + length..];
  }

  lemma RoomForFour(input: In)
    requires input.Valid()
    ensures input.capacity >= 4
  {
  }

  // A record written with its length reads back, and what follows it is left.
  lemma PrefixReads(d: seq<byte>, rest: seq<byte>)
    requires |d| < TWO_TO_THE_32
    ensures PrefixAt(Prefixed(d) + rest) == Some(d) && (Prefixed(d) + rest)[4 + |d|..] == rest
    ensures ReadLE32(Prefixed(d) + rest, 0) == |d|
  {
    var s := Prefixed(d) + rest;
    assert s[0..4] == LE32(|d|);
    LE32RoundTrip(|d|, s, 0);
    assert s[4..4 + |d|] == d;
  }

  // Records written one by one and read one by one: the same records, whatever the buffer sizes.
  method ThroughPrefixFile(records: seq<Short>, outSize: nat, inSize: nat) returns (back: seq<seq<byte>>)
    ensures back == records
  {
    var file := WriteAllPrefixed(records, outSize);
    back := ReadAllPrefixed(file, records, inSize);
  }

  method WriteAllPrefixed(records: seq<Short>, outSize: nat) returns (file: seq<byte>)
    ensures file == AllPrefixed(records)
  {
    hide *;
    var out := new Out(outSize);
    var i := 0;
    assert records[..0] == [];
    NonePrefixed([], 0);
    assert out.Written() == AllPrefixed(records[..i]);
    while i < |records|
      invariant i <= |records| && out.Valid() && fresh(out) && fresh(out.buffer)
      invariant out.Written() == AllPrefixed(records[..i])
    {
      SignedFits(|records[i]|);
      PrefixedMore(records[..i], records[i]);
      out.WritePrefix(records[i]);
      assert records[..i + 1] == records[..i] + [records[i]];
      i := i + 1;
    }
    out.Flush();
    assert records[..i] == records;
    file := out.file;
  }

  method ReadAllPrefixed(file: seq<byte>, ghost records: seq<Short>, inSize: nat) returns (back: seq<seq<byte>>)
    requires file == AllPrefixed(records)
    ensures back == records
  {
    hide *;
    var input := new In(file, inSize, false);
    back := [];
    assert records[|back|..] == records;
    while true
      invariant |back| <= |records| && back == records[..|back|] && input.Valid() && fresh(input) && fresh(input.buffer)
      invariant input.Left() == AllPrefixed(records[|back|..])
      decreases |records| - |back|
    {
      ghost var k := |back|;
      PrefixOfAll(records, k);
      if k < |records| { Started(AllPrefixed(records[k..]), records[k], AllPrefixed(records[k + 1..])); }
      var r := AdvancePrefix(input);
      if r.None? {
        assert records[..|records|] == records;
        return;
      }
      back := back + [r.value];
      assert records[..k + 1] == records[..k] + [records[k]];
    }
  }

  ghost predicate StartsWith(left: seq<byte>, d: seq<byte>, rest: seq<byte>) {
    && |left| >= 4 && ReadLE32(left, 0) < SIGNED_LIMIT && PrefixAt(left).Some? && PrefixAt(left).value == d
    && |left| >= 4 + |d| && left[4 + |d|..] == rest
  }

  lemma Started(left: seq<byte>, d: seq<byte>, rest: seq<byte>)
    requires StartsWith(left, d, rest)
    ensures |left| >= 4 && ReadLE32(left, 0) < SIGNED_LIMIT && PrefixAt(left).Some? && PrefixAt(left).value == d
    ensures |left| >= 4 + |d| && left[4 + |d|..] == rest
  {
  }

  // What is left of a file of records starts with the next one, or is empty.
  lemma PrefixOfAll(records: seq<Short>, k: nat)
    requires k <= |records|
    ensures k == |records| ==> AllPrefixed(records[k..]) == [] && PrefixAt(AllPrefixed(records[k..])) == None
    ensures k < |records| ==> StartsWith(AllPrefixed(records[k..]), records[k], AllPrefixed(records[k + 1..]))
  {
    if k < |records| {
      OnePrefixed(records, k);
      PrefixReads(records[k], AllPrefixed(records[k + 1..]));
    } else {
      NonePrefixed(records, k);
    }
  }

  lemma {:induction false} PrefixedMore(records: seq<Short>, d: Short)
    ensures AllPrefixed(records + [d]) == AllPrefixed(records) + Prefixed(d)
  {
    if records == [] {
      assert (records + [d])[1..] == [];
    } else {
      assert (records + [d])[1..] == records[1..] + [d];
      PrefixedMore(records[1..], d);
    }
  }

  lemma OnePrefixed(records: seq<Short>, i: nat)
    requires i < |records|
    ensures AllPrefixed(records[i..]) == Prefixed(records[i]) + AllPrefixed(records[i + 1..])
  {
    assert records[i..][0] == records[i] && records[i..][1..] == records[i + 1..];
  }

  lemma NonePrefixed(records: seq<Short>, i: nat)
    requires i == |records|
    ensures AllPrefixed(records[i..]) == []
  {
  }

  // The same for records that end with a delimiter, exactly when no record contains it and a scan can come upon it.
  method ThroughDelimitedFile(records: seq<seq<byte>>, delim: byte, signed: bool, outSize: nat, inSize: nat)
    returns (back: seq<seq<byte>>)
    ensures back == records <==> records == [] || (Findable(delim, signed) && forall d | d in records :: delim !in d)
    ensures !Findable(delim, signed) ==> back == []
  {
    var file := WriteAllDelimited(records, delim, outSize);
    back := ReadAllDelimited(file, delim, signed, inSize);
    FieldsAreRecords(records, delim, signed);
    if !Findable(delim, signed) { NotFindable(file, delim, signed); }
  }

  // Letters behind quotes for delimiters come back as nothing.
  method QuoteDelimiterLoses(outSize: nat, inSize: nat, signed: bool) returns (back: seq<seq<byte>>)
    ensures back == [] && back != [[97]]
  {
    back := ThroughDelimitedFile([[97]], 34, signed, outSize, inSize);
  }

  method WriteAllDelimited(records: seq<seq<byte>>, delim: byte, outSize: nat) returns (file: seq<byte>)
    ensures file == AllDelimited(delim, records)
  {
    hide *;
    var out := new Out(outSize);
    var i := 0;
    assert records[..0] == [];
    NoneDelimited(delim, [], 0);
    assert out.Written() == AllDelimited(delim, records[..i]);
    while i < |records|
      invariant i <= |records| && out.Valid() && fresh(out) && fresh(out.buffer)
      invariant out.Written() == AllDelimited(delim, records[..i])
    {
      DelimitedMore(delim, records[..i], records[i]);
      out.WriteDelimiter(records[i], delim);
      assert records[..i + 1] == records[..i] + [records[i]];
      i := i + 1;
    }
    out.Flush();
    assert records[..i] == records;
    file := out.file;
  }

  // What a scan cuts a file into; what follows the last delimiter is left out.
  function FieldsOf(s: seq<byte>, delim: byte, signed: bool): seq<seq<byte>> {
    if !Stops(s, delim, signed) then []
    else [s[..IndexOf(s, delim)]] + FieldsOf(s[IndexOf(s, delim) + 1..], delim, signed)
  }

  method ReadAllDelimited(file: seq<byte>, delim: byte, signed: bool, inSize: nat) returns (back: seq<seq<byte>>)
    ensures back == FieldsOf(file, delim, signed)
  {
    hide *;
    var input := new In(file, inSize, signed);
    back := [];
    while true
      invariant input.Valid() && fresh(input) && fresh(input.buffer) && input.signed == signed
      invariant back + FieldsOf(input.Left(), delim, signed) == FieldsOf(file, delim, signed)
      decreases |input.Left()|
    {
      ghost var left := input.Left();
      var r := input.ReadDelimited(delim);
      OneField(left, delim, signed, r, input.Left());
      if r.None? { return; }
      assert back + ([r.value] + FieldsOf(input.Left(), delim, signed)) == back + [r.value] + FieldsOf(input.Left(), delim, signed);
      back := back + [r.value];
    }
  }

  lemma OneField(left: seq<byte>, delim: byte, signed: bool, r: Option<seq<byte>>, left1: seq<byte>)
    requires ReadsField(left, delim, signed, r, left1)
    ensures r.None? ==> FieldsOf(left, delim, signed) == []
    ensures r.Some? ==> FieldsOf(left, delim, signed) == [r.value] + FieldsOf(left1, delim, signed) && |left1| < |left|
  {
  }

  lemma NotFindable(s: seq<byte>, delim: byte, signed: bool)
    requires !Findable(delim, signed)
    ensures FieldsOf(s, delim, signed) == []
  {
  }

  ghost function Times(s: seq<byte>, c: byte): nat {
    multiset(s)[c]
  }

  lemma TimesOf(a: seq<byte>, c: byte, b: seq<byte>)
    ensures Times(a + [c] + b, c) == Times(a, c) + 1 + Times(b, c)
    ensures Times(a, c) == 0 <==> c !in a
  {
    assert c in multiset(a) <==> c in a;
  }

  // As many fields as delimiters.
  lemma {:induction false} FieldsCounted(s: seq<byte>, delim: byte, signed: bool)
    requires Findable(delim, signed)
    ensures |FieldsOf(s, delim, signed)| == Times(s, delim)
    decreases |s|
  {
    if delim in s {
      var i := IndexOf(s, delim);
      assert s == s[..i] + [delim] + s[i + 1..];
      TimesOf(s[..i], delim, s[i + 1..]);
      FieldsCounted(s[i + 1..], delim, signed);
    } else {
      TimesOf(s, delim, []);
    }
  }

  // Records that contain the delimiter make more fields.
  lemma {:induction false} DelimitersCounted(records: seq<seq<byte>>, delim: byte)
    ensures Times(AllDelimited(delim, records), delim) >= |records|
    ensures (exists d | d in records :: delim in d) ==> Times(AllDelimited(delim, records), delim) > |records|
  {
    if records != [] {
      var d, rest := records[0], AllDelimited(delim, records[1..]);
      DelimitersCounted(records[1..], delim);
      TimesOf(d, delim, rest);
      assert forall x | x in records :: x == d || x in records[1..];
    }
  }

  // Records without the delimiter are the fields.
  lemma {:induction false} FieldsRead(records: seq<seq<byte>>, delim: byte, signed: bool)
    requires Findable(delim, signed) && forall d | d in records :: delim !in d
    ensures FieldsOf(AllDelimited(delim, records), delim, signed) == records
  {
    if records != [] {
      var d, rest := records[0], AllDelimited(delim, records[1..]);
      assert d in records && AllDelimited(delim, records) == d + [delim] + rest;
      FirstField(d, delim, signed, rest);
      OneField(d + [delim] + rest, delim, signed, Some(d), rest);
      FieldsRead(records[1..], delim, signed);
    }
  }

  lemma FieldsAreRecords(records: seq<seq<byte>>, delim: byte, signed: bool)
    ensures FieldsOf(AllDelimited(delim, records), delim, signed) == records <==>
      records == [] || (Findable(delim, signed) && forall d | d in records :: delim !in d)
  {
    var file := AllDelimited(delim, records);
    if !Findable(delim, signed) {
      NotFindable(file, delim, signed);
    } else if forall d | d in records :: delim !in d {
      FieldsRead(records, delim, signed);
    } else {
      FieldsCounted(file, delim, signed);
      DelimitersCounted(records, delim);
    }
  }

  lemma {:induction false} DelimitedMore(delim: byte, records: seq<seq<byte>>, d: seq<byte>)
    ensures AllDelimited(delim, records + [d]) == AllDelimited(delim, records) + Delimited(delim, d)
  {
    if records == [] {
      assert (records + [d])[1..] == [];
    } else {
      assert (records + [d])[1..] == records[1..] + [d];
      DelimitedMore(delim, records[1..], d);
    }
  }

  lemma NoneDelimited(delim: byte, records: seq<seq<byte>>, i: nat)
    requires i == |records|
    ensures AllDelimited(delim, records[i..]) == []
  {
  }
}

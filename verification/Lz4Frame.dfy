// ac_lz4: blocks with a size word, raw storage for data that does not shrink, and optional checksums.
module Lz4Frame {
  import opened Bytes
  import opened Lz4Format
  import opened Lz4Compress
  import opened Lz4Decompress
  import opened Lz4RoundTrip
  import Lz4Copy

  const RAW_FLAG: nat := 0x8000_0000

  type uint32 = x: int | 0 <= x < 0x1_0000_0000

  // Which checksums a frame carries, and XXH32 with seed 0, of which nothing is assumed.
  datatype Settings = Settings(blockChecksum: bool, contentChecksum: bool, xxh32: seq<byte> -> uint32)
  {
    function Trailer(payload: seq<byte>): seq<byte> {
      if blockChecksum then LE32(xxh32(payload)) else []
    }

    function HeaderSize(): nat {
      if blockChecksum then 8 else 4
    }
  }

  datatype Stored = Raw | Compressed(ss: seq<Sequence>, last: seq<byte>) | Lost

  // What ac_lz4_compress_block may leave in the destination for `src`.
  ghost predicate IsBlock(block: seq<byte>, src: seq<byte>, how: Stored, settings: Settings) {
    match how
    case Raw =>
      |src| < RAW_FLAG && block == LE32(|src| + RAW_FLAG) + src + settings.Trailer(src)
    case Compressed(ss, last) =>
      IsParse(ss, last, src) && 0 < |EncodeBlock(ss, last)| < |src| <= MAX_INPUT_SIZE &&
      block == LE32(|EncodeBlock(ss, last)|) + EncodeBlock(ss, last) + settings.Trailer(EncodeBlock(ss, last))
    case Lost =>
      src != [] && block == LE32(0) + settings.Trailer([])
  }

  datatype Opened = Rejected | Content(data: seq<byte>)

  // What ac_lz4_decompress makes of a payload with its trailer.
  function Open(body: seq<byte>, compressed: bool, cap: nat, settings: Settings): Opened {
    if settings.blockChecksum && |body| < 4 then Rejected
    else
      var payload := if settings.blockChecksum then body[..|body| - 4] else body;
      if settings.blockChecksum && ReadLE32(body, |body| - 4) != settings.xxh32(payload) then Rejected
      else if !compressed then Content(payload)
      else match Decode(payload, cap) { case Malformed => Rejected case Done(out) => Content(out) }
  }

  // Reading a block as a caller does: the size word first, whose high bit says that it is raw.
  function ReadBlock(block: seq<byte>, cap: nat, settings: Settings): Opened {
    if |block| < 4 then Rejected
    else
      var word := ReadLE32(block, 0);
      Open(block[4..], word < RAW_FLAG, cap, settings)
  }

  class Codec {
    const settings: Settings
    const level: int
    const stream: Stream
    // What XXH32_update has been given so far.
    var hashed: seq<byte>

    ghost predicate Valid()
      reads stream, stream.hashTable
    {
      stream.Valid()
    }

    constructor (settings: Settings, level: int)
      ensures Valid() && this.settings == settings && this.level == level && hashed == []
    {
      this.settings, this.level, hashed := settings, level, [];
      stream := new Stream();
    }

    // ac_lz4_compress_block, for the levels below LZ4HC_CLEVEL_MIN.
    method CompressBlock(src: seq<byte>, dest: array<byte>, destLen: nat) returns (size: nat, ghost how: Stored)
      requires Valid() && settings.HeaderSize() <= destLen <= dest.Length && |src| < RAW_FLAG
      modifies this, stream, stream.hashTable, dest
      ensures Valid() && hashed == if settings.contentChecksum then old(hashed) + src else old(hashed)
      ensures size <= destLen && IsBlock(dest[..size], src, how, settings)
      ensures |src| <= MAX_INPUT_SIZE && destLen - settings.HeaderSize() >= Room(|src|) ==> !how.Lost?
      ensures src != [] && destLen <= settings.HeaderSize() + 1 ==> how.Lost?
      ensures src != [] && Unlike(src) && destLen - settings.HeaderSize() < Room(|src|) ==> how.Lost?
      ensures Flat(src) && MFLIMIT < |src| <= MAX_INPUT_SIZE && destLen - settings.HeaderSize() >= Room(|src|) ==>
                how.Compressed? && size == settings.HeaderSize() + 10 + |Extra(|src| - 10)|
    {
      hide IsParse, EncodeBlock, LE32, Room, Unlike, Flat, Extra;
      if settings.contentChecksum {
        hashed := hashed + src;
      }
      stream.PrepareTable(0, ByU32);
      var acceleration := if level < 0 then -level + 1 else 1;
      var r;
      ghost var ss, last;
      r, ss, last := stream.CompressFastReset(src, dest, 4, destLen - settings.HeaderSize(), acceleration);
      if r > 0 && src != [] { OneByteLoses(ss, last, src); }
      if r > 0 { UnlikeNeedsRoom(ss, last, src); }
      if r > 0 && Flat(src) && MFLIMIT < |src| { FlatSize(ss, last, src); }
      if r >= |src| {
        how := Raw;
        r := |src|;
        PutRaw(src, dest);
        size := PutTrailer(dest, r, src, settings);
      } else {
        how := if r == 0 then Lost else Compressed(ss, last);
        ghost var payload := dest[4..4 + r];
        PutWord(dest, r, r);
        size := PutTrailer(dest, r, payload, settings);
      }
    }

    // Writing a block and reading it: with the room of the data itself, its size and a length, nothing is lost; and
    // data in which nothing repeats needs it all.
    method WriteAndRead(src: seq<byte>, dest: array<byte>, destLen: nat, cap: nat) returns (back: Opened)
      requires Valid() && settings.HeaderSize() <= destLen <= dest.Length && |src| <= MAX_INPUT_SIZE && |src| <= cap
      modifies this, stream, stream.hashTable, dest
      ensures Valid() && (back == Content(src) || back == Rejected)
      ensures destLen - settings.HeaderSize() >= Room(|src|) ==> back == Content(src)
      ensures src != [] && Unlike(src) ==> (back == Content(src) <==> destLen - settings.HeaderSize() >= Room(|src|))
    {
      hide IsBlock, ReadBlock, Room, Unlike;
      var size, how := CompressBlock(src, dest, destLen);
      back := ReadBlock(dest[..size], cap, settings);
      BlockRoundTrip(dest[..size], src, how, cap, settings);
    }

    // ac_lz4_decompress: -500 for a checksum mismatch, another negative number for a malformed payload.
    method Decompress(body: seq<byte>, dest: array<byte>, destLen: nat, compressed: bool) returns (r: int)
      requires destLen <= dest.Length && (settings.blockChecksum ==> |body| >= 4)
      requires !compressed ==> |body| <= dest.Length
      modifies this`hashed, dest
      ensures r < 0 <==> Open(body, compressed, destLen, settings).Rejected?
      ensures r >= 0 ==> r <= dest.Length && dest[..r] == Open(body, compressed, destLen, settings).data
      ensures hashed == if settings.contentChecksum && r >= 0 then old(hashed) + dest[..r] else old(hashed)
    {
      hide Decode;
      var src := body;
      if settings.blockChecksum {
        var checksum := ReadLE32(body, |body| - 4);
        src := body[..|body| - 4];
        if settings.xxh32(src) != checksum { return -500; }
      }
      r := |src|;
      if compressed {
        r := DecompressSafe(src, dest, destLen);
      } else {
        Lz4Copy.CopyFrom(dest, 0, src, 0, |src|);
        assert dest[..r] == dest[..][..r] == src;
      }
      if r < 0 { return; }
      if settings.contentChecksum {
        hashed := hashed + dest[..r];
      }
    }
  }

  method WriteLE32(dest: array<byte>, at: nat, v: nat)
    requires at + 4 <= dest.Length && v < TWO_TO_THE_32
    modifies dest
    ensures dest[..at + 4] == old(dest[..at]) + LE32(v)
    ensures dest[at + 4..] == old(dest[at + 4..])
  {
    dest[at], dest[at + 1], dest[at + 2], dest[at + 3] := v % 256, v / 256 % 256, v / 0x1_0000 % 256, v / 0x100_0000;
  }

  method PutWord(dest: array<byte>, word: nat, r: nat)
    requires word < TWO_TO_THE_32 && 4 + r <= dest.Length
    modifies dest
    ensures dest[..4 + r] == LE32(word) + old(dest[4..4 + r])
  {
    ghost var payload := dest[4..4 + r];
    WriteLE32(dest, 0, word);
    assert dest[4..4 + r] == dest[4..][..r] == payload;
    assert dest[..4 + r] == dest[..4] + dest[4..4 + r];
  }

  method PutRaw(src: seq<byte>, dest: array<byte>)
    requires |src| < RAW_FLAG && 4 + |src| <= dest.Length
    modifies dest
    ensures dest[..4 + |src|] == LE32(|src| + RAW_FLAG) + src
  {
    WriteLE32(dest, 0, |src| + RAW_FLAG);
    ghost var word := dest[..4];
    Lz4Copy.CopyFrom(dest, 4, src, 0, |src|);
    assert dest[..4 + |src|] == dest[..][..4 + |src|] == word + src;
  }

  // The checksum of the `r` payload bytes behind the size word, if blocks carry one.
  method PutTrailer(dest: array<byte>, r: nat, ghost payload: seq<byte>, settings: Settings) returns (size: nat)
    requires settings.HeaderSize() + r <= dest.Length && dest[4..4 + r] == payload
    modifies dest
    ensures size == settings.HeaderSize() + r
    ensures dest[..size] == old(dest[..4 + r]) + settings.Trailer(payload)
  {
    size := 4 + r;
    if settings.blockChecksum {
      WriteLE32(dest, 4 + r, settings.xxh32(dest[4..4 + r]));
      size := 8 + r;
    }
  }

  // ---------- what a block gives back ----------

  lemma OpenWithTrailer(payload: seq<byte>, compressed: bool, cap: nat, settings: Settings)
    ensures Open(payload + settings.Trailer(payload), compressed, cap, settings)
         == if !compressed then Content(payload)
            else match Decode(payload, cap) { case Malformed => Rejected case Done(out) => Content(out) }
  {
    hide Decode;
    var body := payload + settings.Trailer(payload);
    if settings.blockChecksum {
      assert body[..|body| - 4] == payload;
      LE32RoundTrip(settings.xxh32(payload), body, |payload|);
    } else {
      assert body == payload;
    }
  }

  lemma ReadWithWord(word: nat, payload: seq<byte>, cap: nat, settings: Settings)
    requires word < TWO_TO_THE_32
    ensures ReadBlock(LE32(word) + payload + settings.Trailer(payload), cap, settings)
         == if word >= RAW_FLAG then Content(payload)
            else match Decode(payload, cap) { case Malformed => Rejected case Done(out) => Content(out) }
  {
    hide Decode, Open, LE32;
    var block := LE32(word) + payload + settings.Trailer(payload);
    LE32Length(word);
    assert block[0..4] == LE32(word);
    LE32RoundTrip(word, block, 0);
    assert block[4..] == payload + settings.Trailer(payload);
    OpenWithTrailer(payload, word < RAW_FLAG, cap, settings);
  }

  lemma LE32Length(v: nat)
    requires v < TWO_TO_THE_32
    ensures |LE32(v)| == 4
  {
  }

  // A body is opened exactly when it is a payload with its own checksum, if blocks carry one, and the payload is the
  // data itself or decodes to it.
  lemma OpensExactly(body: seq<byte>, compressed: bool, cap: nat, settings: Settings, data: seq<byte>)
    ensures Open(body, compressed, cap, settings) == Content(data) <==>
      exists payload :: IsPayload(body, payload, settings) && if compressed then Decode(payload, cap) == Done(data) else data == payload
  {
    hide Decode, LE32, ReadLE32;
    if settings.blockChecksum && |body| >= 4 {
      var p := body[..|body| - 4];
      assert body == p + body[|body| - 4..|body|];
      LE32Back(body, |body| - 4);
    }
    if Open(body, compressed, cap, settings) == Content(data) {
      var p := if settings.blockChecksum then body[..|body| - 4] else body;
      assert IsPayload(body, p, settings);
    }
    forall payload | IsPayload(body, payload, settings)
      ensures Open(body, compressed, cap, settings) == Content(data) <==> if compressed then Decode(payload, cap) == Done(data) else data == payload
    {
      OpenWithTrailer(payload, compressed, cap, settings);
    }
  }

  ghost predicate IsPayload(body: seq<byte>, payload: seq<byte>, settings: Settings) {
    body == payload + if settings.blockChecksum then LE32(settings.xxh32(payload)) else []
  }

  // The law of the frame: a block gives its source back if and only if the compressor did not run out of
  // room. A lost block reads as malformed.
  lemma BlockRoundTrip(block: seq<byte>, src: seq<byte>, how: Stored, cap: nat, settings: Settings)
    requires IsBlock(block, src, how, settings) && |src| <= cap
    ensures ReadBlock(block, cap, settings) == Content(src) <==> !how.Lost?
    ensures how.Lost? ==> ReadBlock(block, cap, settings) == Rejected
  {
    hide ReadBlock, EncodeBlock;
    match how
    case Raw => ReadWithWord(|src| + RAW_FLAG, src, cap, settings);
    case Compressed(ss, last) =>
      RoundTrip(ss, last, src, cap);
      ReadWithWord(|EncodeBlock(ss, last)|, EncodeBlock(ss, last), cap, settings);
    case Lost =>
      assert LE32(0) + settings.Trailer([]) == LE32(0) + [] + settings.Trailer([]);
      ReadWithWord(0, [], cap, settings);
  }

  // Nowhere are four bytes the same as four others.
  ghost predicate Unlike(src: seq<byte>) {
    forall p: nat, q: nat :: !Repeats(src, p, q)
  }

  lemma UnlikeNeedsRoom(ss: seq<Sequence>, last: seq<byte>, src: seq<byte>)
    requires IsParse(ss, last, src)
    ensures Unlike(src) ==> |EncodeBlock(ss, last)| == Room(|src|)
  {
    if Unlike(src) { ParseOfUnlike(ss, last, src); }
  }

  // Data of equal bytes shrinks to ten bytes and the bytes of its length.
  lemma FlatSize(ss: seq<Sequence>, last: seq<byte>, src: seq<byte>)
    requires MFLIMIT < |src| && ss == [FlatSequence(src)] && |last| == LASTLITERALS
    ensures Writable(ss[0]) && |EncodeBlock(ss, last)| == 10 + |Extra(|src| - 10)| < |src|
  {
    hide LengthBytes, EncodeSequence;
    assert ss[..0] == [];
    assert EncodeSequences(ss) == EncodeSequences(ss[..0]) + EncodeSequence(ss[0]);
    OneFlat(src);
    assert |SequenceHead(last, 0)| == 6;
  }

  lemma OneFlat(src: seq<byte>)
    requires MFLIMIT < |src|
    ensures |EncodeSequence(FlatSequence(src))| == 4 + |Extra(|src| - 10)|
  {
    hide LengthBytes;
  }

  // No parse of a non-empty source fits in one byte.
  lemma OneByteLoses(ss: seq<Sequence>, last: seq<byte>, src: seq<byte>)
    requires IsParse(ss, last, src) && src != []
    ensures |EncodeBlock(ss, last)| > 1
  {
    if ss != [] {
      assert ss[|ss| - 1] in ss;
      SizeOfSequence(ss[|ss| - 1]);
    }
  }

  lemma SizeOfSequence(s: Sequence)
    requires Writable(s)
    ensures |EncodeSequence(s)| >= 3
  {
  }

  // The size words in two examples: the highest bit marks a block stored raw; a checksum follows the payload.
  lemma SizeWords(h: seq<byte> -> uint32)
    requires h([97]) == 0x1020304
    ensures IsBlock([1, 0, 0, 0x80, 97], [97], Raw, Settings(false, false, h))
    ensures IsBlock([1, 0, 0, 0x80, 97, 4, 3, 2, 1], [97], Raw, Settings(true, false, h))
  {
  }
}

// How the index packs the occurrences of a term, and how it reads them back.
module PostingCodec {
  import opened Bytes
  import opened Slices

  // One occurrence of a term, in the order of ids and positions.
  datatype Entry = Entry(id: nat, position: nat, value: int)

  const ID_LIMIT: nat := 0x1000_0000
  const POSITION_LIMIT: nat := 0x4000
  const GROUP_LIMIT: nat := 4194304

  predicate ValidEntry(e: Entry) {
    1 <= e.id < ID_LIMIT && e.position < POSITION_LIMIT && -0x8000_0000 <= e.value < 0x8000_0000
  }

  ghost predicate ValidEntries(e: seq<Entry>) {
    (forall k | 0 <= k < |e| :: ValidEntry(e[k])) && forall i, j | 0 <= i <= j < |e| :: e[i].id <= e[j].id
  }

  // ---------- numbers ----------

  // A signed integer as the 32 bits it is stored in.
  function Bits32(v: int): nat
    requires -0x8000_0000 <= v < 0x8000_0000
  {
    if v >= 0 then v else v + TWO_TO_THE_32
  }

  function Signed32(n: nat): int {
    if n < 0x8000_0000 then n else n - TWO_TO_THE_32
  }

  // ---------- packing ----------

  // Fourteen bits of position and two for the size of the value, then the value.
  function HitBytes(e: Entry): (b: seq<byte>)
    requires ValidEntry(e)
    ensures 2 <= |b| <= 6
  {
    if e.value == 0 then LE16(e.position)
    else if 0 < e.value < 256 then LE16(e.position + 0x4000) + [e.value]
    else if 0 < e.value < 0x1_0000 then LE16(e.position + 0x8000) + LE16(e.value)
    else LE16(e.position + 0xC000) + LE32(Bits32(e.value))
  }

  function HitsBytes(run: seq<Entry>): (b: seq<byte>)
    requires forall k | 0 <= k < |run| :: ValidEntry(run[k])
    ensures |b| >= 2 * |run|
  {
    if run == [] then [] else HitBytes(run[0]) + HitsBytes(run[1..])
  }

  // A document with one value and no position.
  predicate IsPlain(run: seq<Entry>) {
    |run| == 1 && run[0].position == 0
  }

  // The occurrences in one document, with a length that 32 bits can hold.
  ghost predicate RunFits(run: seq<Entry>) {
    run != [] && (forall k | 0 <= k < |run| :: ValidEntry(run[k])) && |HitsBytes(run)| <= TWO_TO_THE_32
  }

  // All occurrences in one document: twelve bits of id and four that say what follows.
  function PostingBytes(run: seq<Entry>): (b: seq<byte>)
    requires RunFits(run)
    ensures |b| >= 2
  {
    var sid, v := run[0].id % 4096 * 16, run[0].value;
    if IsPlain(run) then
      if 0 <= v < 5 then LE16(sid + v)
      else if 0 <= v < 256 then LE16(sid + 5) + [v]
      else if 0 <= v < 0x1_0000 then LE16(sid + 6) + LE16(v)
      else LE16(sid + 7) + LE32(Bits32(v))
    else
      var hits := HitsBytes(run);
      if |hits| - 1 > 7 then LE16(sid + 8) + LE32(|hits| - 1) + hits
      else LE16(sid + 8 + (|hits| - 1)) + hits
  }

  // Where the first run of one id ends.
  function IdRun(e: seq<Entry>): (j: nat)
    requires e != []
    ensures 0 < j <= |e| && (forall k | 0 <= k < j :: e[k].id == e[0].id) && (j < |e| ==> e[j].id != e[0].id)
  {
    if |e| > 1 && e[1].id == e[0].id then 1 + IdRun(e[1..]) else 1
  }

  // Where the first run of one group ends.
  function GroupRun(e: seq<Entry>): (j: nat)
    requires e != []
    ensures 0 < j <= |e| && (forall k | 0 <= k < j :: e[k].id / 4096 == e[0].id / 4096)
    ensures j < |e| ==> e[j].id / 4096 != e[0].id / 4096
  {
    if |e| > 1 && e[1].id / 4096 == e[0].id / 4096 then 1 + GroupRun(e[1..]) else 1
  }

  // Lengths that are written in 32 bits fit.
  ghost predicate Fits(e: seq<Entry>)
    decreases |e|
  {
    e != [] ==> RunFits(e[..IdRun(e)]) && Fits(e[IdRun(e)..])
  }

  function IdsBytes(e: seq<Entry>): seq<byte>
    requires Fits(e)
    decreases |e|
  {
    if e == [] then [] else PostingBytes(e[..IdRun(e)]) + IdsBytes(e[IdRun(e)..])
  }

  // One, two or three bytes of length, marked by the two highest bits.
  function LengthBytes(n: nat): seq<byte>
    requires n < GROUP_LIMIT
  {
    if n <= 63 then [n]
    else if n <= 16383 then [n / 256 + 64, n % 256]
    else [n / 0x1_0000 + 128] + LE16(n % 0x1_0000)
  }

  // Groups are small enough for their lengths.
  ghost predicate GroupsFit(e: seq<Entry>)
    decreases |e|
  {
    e != [] ==> Fits(e[..GroupRun(e)]) && |IdsBytes(e[..GroupRun(e)])| < GROUP_LIMIT && e[0].id < ID_LIMIT && GroupsFit(e[GroupRun(e)..])
  }

  function GroupBytes(run: seq<Entry>): seq<byte>
    requires run != [] && Fits(run) && |IdsBytes(run)| < GROUP_LIMIT
  {
    LE16(run[0].id / 4096) + LengthBytes(|IdsBytes(run)|) + IdsBytes(run)
  }

  function GroupsBytes(e: seq<Entry>): seq<byte>
    requires GroupsFit(e)
    decreases |e|
  {
    if e == [] then [] else GroupBytes(e[..GroupRun(e)]) + GroupsBytes(e[GroupRun(e)..])
  }

  // ---------- the encoder's loops ----------

  lemma {:induction false} IdRunIs(s: seq<Entry>, m: nat)
    requires 0 < m <= |s| && (forall k | 0 <= k < m :: s[k].id == s[0].id) && (m < |s| ==> s[m].id != s[0].id)
    ensures IdRun(s) == m
  {
    if |s| > 1 && s[1].id == s[0].id { IdRunIs(s[1..], m - 1); }
  }

  method IdRunEnd(e: seq<Entry>, cur: nat) returns (p: nat)
    requires cur < |e|
    ensures p == cur + IdRun(e[cur..]) && cur < p <= |e|
  {
    p := cur + 1;
    while p < |e| && e[p].id == e[cur].id
      invariant cur < p <= |e| && forall k | cur <= k < p :: e[k].id == e[cur].id
    {
      p := p + 1;
    }
    IdRunIs(e[cur..], p - cur);
  }

  lemma {:induction false} GroupRunIs(s: seq<Entry>, m: nat)
    requires 0 < m <= |s| && (forall k | 0 <= k < m :: s[k].id / 4096 == s[0].id / 4096) && (m < |s| ==> s[m].id / 4096 != s[0].id / 4096)
    ensures GroupRun(s) == m
  {
    if |s| > 1 && s[1].id / 4096 == s[0].id / 4096 { GroupRunIs(s[1..], m - 1); }
  }

  method GroupRunEnd(e: seq<Entry>, cur: nat) returns (p: nat)
    requires cur < |e|
    ensures p == cur + GroupRun(e[cur..]) && cur < p <= |e|
  {
    p := cur + 1;
    while p < |e| && e[p].id / 4096 == e[cur].id / 4096
      invariant cur < p <= |e| && forall k | cur <= k < p :: e[k].id / 4096 == e[cur].id / 4096
    {
      p := p + 1;
    }
    GroupRunIs(e[cur..], p - cur);
  }

  method EncodeTerm(e: seq<Entry>) returns (out: seq<byte>)
    requires GroupsFit(e)
    ensures out == GroupsBytes(e)
  {
    hide *;
    out := [];
    var p: nat := 0;
    assert e[0..] == e;
    while p < |e|
      invariant p <= |e| && GroupsFit(e[p..]) && out + GroupsBytes(e[p..]) == GroupsBytes(e)
    {
      var cur := p;
      p := GroupRunEnd(e, cur);
      OneGroup(e, cur, p);
      var group := EncodeGroup(e[cur..p]);
      Assoc(out, GroupBytes(e[cur..p]), GroupsBytes(e[p..]));
      out := out + (LE16(e[cur].id / 4096) + LengthBytes(|group|) + group);
    }
    NoGroups(e, p);
  }

  lemma OneGroup(e: seq<Entry>, cur: nat, p: nat)
    requires cur < |e| && GroupsFit(e[cur..]) && p == cur + GroupRun(e[cur..])
    ensures p <= |e| && GroupsFit(e[p..]) && Fits(e[cur..p]) && cur < p && |IdsBytes(e[cur..p])| < GROUP_LIMIT
    ensures GroupsBytes(e[cur..]) == GroupBytes(e[cur..p]) + GroupsBytes(e[p..])
    ensures GroupBytes(e[cur..p]) == LE16(e[cur].id / 4096) + LengthBytes(|IdsBytes(e[cur..p])|) + IdsBytes(e[cur..p])
    ensures e[cur].id / 4096 < 0x1_0000
  {
    hide Fits, IdsBytes, LE16, LengthBytes;
    var s := e[cur..];
    assert s[..p - cur] == e[cur..p] && s[p - cur..] == e[p..] && e[cur..p][0] == s[0];
  }

  lemma NoGroups(e: seq<Entry>, p: nat)
    requires p == |e|
    ensures GroupsFit(e[p..]) && GroupsBytes(e[p..]) == []
  {
  }

  method EncodeGroup(e: seq<Entry>) returns (out: seq<byte>)
    requires Fits(e)
    ensures out == IdsBytes(e)
  {
    hide *;
    out := [];
    var p: nat := 0;
    assert e[0..] == e;
    while p < |e|
      invariant p <= |e| && Fits(e[p..]) && out + IdsBytes(e[p..]) == IdsBytes(e)
    {
      var cur := p;
      p := IdRunEnd(e, cur);
      OneId(e, cur, p);
      var posting := EncodePosting(e[cur..p]);
      Assoc(out, PostingBytes(e[cur..p]), IdsBytes(e[p..]));
      out := out + posting;
    }
    NoIds(e, p);
  }

  lemma OneId(e: seq<Entry>, cur: nat, p: nat)
    requires cur < |e| && Fits(e[cur..]) && p == cur + IdRun(e[cur..])
    ensures p <= |e| && Fits(e[p..]) && cur < p && RunFits(e[cur..p])
    ensures IdsBytes(e[cur..]) == PostingBytes(e[cur..p]) + IdsBytes(e[p..])
  {
    hide PostingBytes;
    var s := e[cur..];
    assert s[..p - cur] == e[cur..p] && s[p - cur..] == e[p..];
  }

  lemma NoIds(e: seq<Entry>, p: nat)
    requires p == |e|
    ensures Fits(e[p..]) && IdsBytes(e[p..]) == []
  {
  }

  // One document.
  method EncodePosting(run: seq<Entry>) returns (out: seq<byte>)
    requires RunFits(run)
    ensures out == PostingBytes(run)
  {
    var sid, v := run[0].id % 4096 * 16, run[0].value;
    if |run| == 1 && run[0].position == 0 {
      if 0 <= v < 0x1_0000 {
        if v < 256 {
          if v < 5 {
            out := LE16(sid + v);
          } else {
            out := LE16(sid + 5) + [v];
          }
        } else {
          out := LE16(sid + 6) + LE16(v);
        }
      } else {
        out := LE16(sid + 7) + LE32(Bits32(v));
      }
    } else {
      var sum := SumOfSizes(run);
      sum := sum - 1;
      out := if sum > 7 then LE16(sid + 8) + LE32(sum) else LE16(sid + 8 + sum);
      var hits := EncodeHits(run);
      out := out + hits;
    }
  }

  // How many bytes the occurrences take, added up before they are written.
  method SumOfSizes(run: seq<Entry>) returns (sum: nat)
    requires forall k | 0 <= k < |run| :: ValidEntry(run[k])
    ensures sum == |HitsBytes(run)|
  {
    sum := 0;
    var p3: nat := 0;
    assert run[0..] == run;
    while p3 < |run|
      invariant p3 <= |run| && sum + |HitsBytes(run[p3..])| == |HitsBytes(run)|
    {
      var v := run[p3].value;
      assert run[p3..][1..] == run[p3 + 1..];
      sum := sum + if v == 0 then 2 else if 0 < v < 0x1_0000 then (if v < 256 then 3 else 4) else 6;
      p3 := p3 + 1;
    }
  }

  method EncodeHits(run: seq<Entry>) returns (out: seq<byte>)
    requires forall k | 0 <= k < |run| :: ValidEntry(run[k])
    ensures out == HitsBytes(run)
  {
    out := [];
    var p3: nat := 0;
    assert run[0..] == run;
    while p3 < |run|
      invariant p3 <= |run| && out + HitsBytes(run[p3..]) == HitsBytes(run)
    {
      assert run[p3..][0] == run[p3] && run[p3..][1..] == run[p3 + 1..];
      Assoc(out, HitBytes(run[p3]), HitsBytes(run[p3 + 1..]));
      out := out + HitBytes(run[p3]);
      p3 := p3 + 1;
    }
    assert run[p3..] == [];
  }

  // ---------- reading ----------

  // What the reader shows of one document.
  datatype Shown = Shown(id: nat, value: int, span: seq<byte>)

  function ShownOf(run: seq<Entry>): Shown
    requires RunFits(run)
  {
    if IsPlain(run) then Shown(run[0].id, run[0].value, []) else Shown(run[0].id, 0, HitsBytes(run))
  }

  lemma LE16At(b: seq<byte>, p: nat, v: nat)
    requires v < 0x1_0000 && At(b, p, LE16(v))
    ensures p + 2 <= |b| && ReadLE16(b, p) == v
  {
    AtIndex(b, p, LE16(v), 0);
    AtIndex(b, p, LE16(v), 1);
  }

  lemma LE32At(b: seq<byte>, p: nat, v: nat)
    requires v < TWO_TO_THE_32 && At(b, p, LE32(v))
    ensures p + 4 <= |b| && ReadLE32(b, p) == v
  {
    LE32RoundTrip(v, b, p);
  }

  // advance_id at p, in a group whose first id is gid: what is shown, and where the next document starts.
  method ReadPosting(b: seq<byte>, p: nat, gid: nat, ghost run: seq<Entry>) returns (s: Shown, q: nat)
    requires RunFits(run) && At(b, p, PostingBytes(run)) && gid == run[0].id / 4096 * 4096
    ensures s == ShownOf(run) && q == p + |PostingBytes(run)|
  {
    PostingHead(b, p, run);
    var id := ReadLE16(b, p);
    var control := id % 16;
    var at := p + 2;
    var n := id / 16 + gid;
    if control >= 8 {
      control := control - 8;
      if control == 0 {
        control := ReadLE32(b, at);
        at := at + 4;
      }
      control := control + 1;
      s, q := Shown(n, 0, b[at..at + control]), at + control;
    } else {
      var value: int := control;
      if control == 5 {
        value := b[at];
        at := at + 1;
      } else if control == 6 {
        value := ReadLE16(b, at);
        at := at + 2;
      } else if control == 7 {
        value := Signed32(ReadLE32(b, at));
        at := at + 4;
      }
      s, q := Shown(n, value, []), at;
    }
  }

  // The first two bytes, and what follows them in each case.
  lemma PostingHead(b: seq<byte>, p: nat, run: seq<Entry>)
    requires RunFits(run) && At(b, p, PostingBytes(run))
    ensures p + 2 <= |b| && ReadLE16(b, p) / 16 == run[0].id % 4096
    ensures IsPlain(run) ==> PlainAt(b, p, ReadLE16(b, p) % 16, run[0].value, |PostingBytes(run)|)
    ensures !IsPlain(run) ==> HitsAt(b, p, ReadLE16(b, p) % 16, HitsBytes(run), |PostingBytes(run)|)
  {
    var sid, v := run[0].id % 4096 * 16, run[0].value;
    if IsPlain(run) {
      if 0 <= v < 5 {
        LE16At(b, p, sid + v);
      } else if 0 <= v < 256 {
        AtBoth(b, p, LE16(sid + 5), [v]);
        LE16At(b, p, sid + 5);
        AtIndex(b, p + 2, [v], 0);
      } else if 0 <= v < 0x1_0000 {
        AtBoth(b, p, LE16(sid + 6), LE16(v));
        LE16At(b, p, sid + 6);
        LE16At(b, p + 2, v);
      } else {
        AtBoth(b, p, LE16(sid + 7), LE32(Bits32(v)));
        LE16At(b, p, sid + 7);
        LE32At(b, p + 2, Bits32(v));
      }
    } else {
      NotPlainHead(b, p, run);
    }
  }

  lemma NotPlainHead(b: seq<byte>, p: nat, run: seq<Entry>)
    requires RunFits(run) && At(b, p, PostingBytes(run)) && !IsPlain(run)
    ensures p + 2 <= |b| && ReadLE16(b, p) / 16 == run[0].id % 4096
    ensures HitsAt(b, p, ReadLE16(b, p) % 16, HitsBytes(run), |PostingBytes(run)|)
  {
    hide LE16, LE32, At, HitBytes, ReadLE16, HitsAt, HitsBytes;
    var sid, hits := run[0].id % 4096 * 16, HitsBytes(run);
    if |hits| - 1 > 7 {
      LongHits(b, p, sid, hits);
    } else {
      ShortHits(b, p, sid, hits);
    }
  }

  lemma LongHits(b: seq<byte>, p: nat, sid: nat, hits: seq<byte>)
    requires sid % 16 == 0 && sid < 0x1_0000 && 8 < |hits| <= TWO_TO_THE_32 && At(b, p, LE16(sid + 8) + LE32(|hits| - 1) + hits)
    ensures p + 2 <= |b| && ReadLE16(b, p) == sid + 8 && HitsAt(b, p, 8, hits, 6 + |hits|)
  {
    var n := |hits| - 1;
    hide LE16, LE32, At, ReadLE32, ReadLE16;
    Assoc(LE16(sid + 8), LE32(n), hits);
    AtBoth(b, p, LE16(sid + 8), LE32(n) + hits);
    AtBoth(b, p + 2, LE32(n), hits);
    LE16At(b, p, sid + 8);
    LE32At(b, p + 2, n);
    AtBound(b, p + 6, hits);
  }

  lemma ShortHits(b: seq<byte>, p: nat, sid: nat, hits: seq<byte>)
    requires sid % 16 == 0 && sid < 0x1_0000 && 2 <= |hits| <= 8 && At(b, p, LE16(sid + 8 + (|hits| - 1)) + hits)
    ensures p + 2 <= |b| && ReadLE16(b, p) == sid + 8 + (|hits| - 1) && HitsAt(b, p, 8 + (|hits| - 1), hits, 2 + |hits|)
  {
    var m := sid + 8 + (|hits| - 1);
    hide LE16, LE32, At, ReadLE32, ReadLE16;
    AtBoth(b, p, LE16(m), hits);
    LE16At(b, p, m);
    AtBound(b, p + 2, hits);
  }

  ghost predicate PlainAt(b: seq<byte>, p: nat, control: nat, v: int, size: nat) {
    if 0 <= v < 5 then control == v && size == 2
    else if 0 <= v < 256 then control == 5 && size == 3 && p + 3 <= |b| && b[p + 2] == v
    else if 0 <= v < 0x1_0000 then control == 6 && size == 4 && p + 4 <= |b| && ReadLE16(b, p + 2) == v
    else control == 7 && size == 6 && p + 6 <= |b| && Signed32(ReadLE32(b, p + 2)) == v
  }

  ghost predicate HitsAt(b: seq<byte>, p: nat, control: nat, hits: seq<byte>, size: nat) {
    if |hits| - 1 > 7 then
      control == 8 && size == 6 + |hits| && p + size <= |b| && ReadLE32(b, p + 2) == |hits| - 1 && b[p + 6..p + size] == hits
    else control == 8 + (|hits| - 1) && control > 8 && size == 2 + |hits| && p + size <= |b| && b[p + 2..p + size] == hits
  }
}

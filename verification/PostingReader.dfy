// Walking through the packed occurrences of a term, document by document.
module PostingReader {
  import opened Bytes
  import opened Slices
  import opened PostingCodec

  // In order of ids, all of them valid.
  ghost predicate InOrder(e: seq<Entry>) {
    forall i, j | 0 <= i <= j < |e| :: e[i].id <= e[j].id
  }

  // The first entry from `id` on, or the end.
  function FirstFrom(e: seq<Entry>, id: nat): (k: nat)
    ensures k <= |e| && (k < |e| ==> e[k].id >= id) && forall i | 0 <= i < k :: e[i].id < id
  {
    if e == [] || e[0].id >= id then 0 else 1 + FirstFrom(e[1..], id)
  }

  // `rest` is what remains of `all` after entries below `id`.
  ghost predicate Seeks(all: seq<Entry>, id: nat, rest: seq<Entry>) {
    |rest| <= |all| && rest == all[|all| - |rest|..] && forall i | 0 <= i < |all| - |rest| :: all[i].id < id
  }

  // The first document of `all` is shown, and `rest` comes after it.
  ghost predicate Shows(all: seq<Entry>, s: Shown, rest: seq<Entry>) {
    all != [] && RunFits(all[..IdRun(all)]) && s == ShownOf(all[..IdRun(all)]) && rest == all[IdRun(all)..]
  }

  // The first document from `id` on is shown, or there is none.
  ghost predicate Lands(all: seq<Entry>, id: nat, ok: bool, s: Shown, rest: seq<Entry>) {
    ok == (FirstFrom(all, id) < |all|) && (ok ==> Shows(all[FirstFrom(all, id)..], s, rest))
  }

  lemma {:induction false} FirstFromIs(e: seq<Entry>, id: nat, k: nat)
    requires k <= |e| && (k < |e| ==> e[k].id >= id) && forall i | 0 <= i < k :: e[i].id < id
    ensures FirstFrom(e, id) == k
  {
    if k > 0 { FirstFromIs(e[1..], id, k - 1); }
  }

  lemma SeeksThenLands(all: seq<Entry>, id: nat, rest: seq<Entry>, ok: bool, s: Shown, rest1: seq<Entry>)
    requires Seeks(all, id, rest) && Lands(rest, id, ok, s, rest1)
    ensures Lands(all, id, ok, s, rest1)
  {
    var d, k := |all| - |rest|, FirstFrom(rest, id);
    FirstFromIs(all, id, d + k);
    assert rest[k..] == all[d + k..];
  }

  lemma SeeksTwice(all: seq<Entry>, id: nat, rest: seq<Entry>, rest1: seq<Entry>)
    requires Seeks(all, id, rest) && Seeks(rest, id, rest1)
    ensures Seeks(all, id, rest1)
  {
  }

  lemma LandsHere(all: seq<Entry>, id: nat, s: Shown, rest: seq<Entry>)
    requires Shows(all, s, rest) && s.id >= id
    ensures Lands(all, id, true, s, rest)
  {
    FirstFromIs(all, id, 0);
    assert all[0..] == all;
  }

  // A document below `id` has been passed.
  lemma SeeksOne(all: seq<Entry>, id: nat, s: Shown, rest: seq<Entry>)
    requires Shows(all, s, rest) && s.id < id
    ensures Seeks(all, id, rest)
  {
  }

  // ---------- placed bytes ----------

  // The rest of a group lies between p and ep.
  ghost predicate GroupPlaced(data: seq<byte>, p: nat, ep: nat, gid: nat, here: seq<Entry>) {
    && Fits(here) && At(data, p, IdsBytes(here)) && p + |IdsBytes(here)| == ep
    && forall k | 0 <= k < |here| :: here[k].id / 4096 * 4096 == gid
  }

  // Groups lie from gp to the end.
  ghost predicate LaterPlaced(data: seq<byte>, gp: nat, later: seq<Entry>) {
    GroupsFit(later) && At(data, gp, GroupsBytes(later)) && gp + |GroupsBytes(later)| == |data|
  }

  // The length of a group in its one, two or three bytes.
  ghost predicate LengthIs(data: seq<byte>, at: nat, n: nat, size: nat) {
    at + size <= |data| && size >= 1 &&
    if n <= 63 then size == 1 && data[at] == n
    else if n <= 16383 then size == 2 && data[at] == n / 256 + 64 && data[at + 1] == n % 256
    else size == 3 && data[at] == n / 0x1_0000 + 128 && ReadLE16(data, at + 1) == n % 0x1_0000
  }

  lemma LengthPlaced(data: seq<byte>, at: nat, n: nat)
    requires n < GROUP_LIMIT && At(data, at, LengthBytes(n))
    ensures LengthIs(data, at, n, |LengthBytes(n)|)
  {
    AtIndex(data, at, LengthBytes(n), 0);
    if n > 16383 {
      AtBoth(data, at, [n / 0x1_0000 + 128], LE16(n % 0x1_0000));
      LE16At(data, at + 1, n % 0x1_0000);
    } else if n > 63 {
      AtIndex(data, at, LengthBytes(n), 1);
    }
  }

  lemma GroupHead(data: seq<byte>, gp: nat, later: seq<Entry>) returns (j: nat, n: nat, size: nat)
    requires LaterPlaced(data, gp, later) && later != []
    ensures j == GroupRun(later) && gp + 2 <= |data| && ReadLE16(data, gp) == later[0].id / 4096
    ensures n < GROUP_LIMIT && LengthIs(data, gp + 2, n, size) && later[0].id < ID_LIMIT
    ensures GroupPlaced(data, gp + 2 + size, gp + 2 + size + n, later[0].id / 4096 * 4096, later[..j])
    ensures LaterPlaced(data, gp + 2 + size + n, later[j..])
  {
    j := GroupRun(later);
    assert later[0..] == later && later[0..j] == later[..j];
    hide At, Fits, IdsBytes, GroupsBytes, GroupBytes, GroupsFit, ReadLE16, LE16, LengthBytes, LengthIs;
    OneGroup(later, 0, j);
    n, size := GroupBytesAt(data, gp, later[..j], GroupsBytes(later[j..]));
  }

  // A group, and what follows it.
  lemma GroupBytesAt(data: seq<byte>, gp: nat, run: seq<Entry>, rest: seq<byte>) returns (n: nat, size: nat)
    requires run != [] && Fits(run) && |IdsBytes(run)| < GROUP_LIMIT && run[0].id < ID_LIMIT
    requires At(data, gp, GroupBytes(run) + rest)
    ensures n == |IdsBytes(run)| < GROUP_LIMIT && LengthIs(data, gp + 2, n, size)
    ensures |GroupBytes(run)| == 2 + size + n
    ensures gp + 2 <= |data| && ReadLE16(data, gp) == run[0].id / 4096
    ensures At(data, gp + 2 + size, IdsBytes(run)) && At(data, gp + 2 + size + n, rest)
  {
    hide At, ReadLE16, LE16, LengthIs, LengthBytes, IdsBytes, Fits;
    var ids := IdsBytes(run);
    n := |ids|;
    var l := LengthBytes(n);
    size := |l|;
    var g := LE16(run[0].id / 4096);
    assert GroupBytes(run) == g + l + ids;
    AtBoth(data, gp, g + l + ids, rest);
    AtBoth(data, gp, g + l, ids);
    AtBoth(data, gp, g, l);
    LE16At(data, gp, run[0].id / 4096);
    LengthPlaced(data, gp + 2, n);
  }

  lemma NoBytesNoEntries(data: seq<byte>, p: nat, ep: nat, gid: nat, here: seq<Entry>)
    requires GroupPlaced(data, p, ep, gid, here)
    ensures p <= ep <= |data| && (p == ep <==> here == [])
  {
    if here != [] { OneId(here, 0, IdRun(here)); assert here[0..] == here; }
  }

  lemma NoBytesNoGroups(data: seq<byte>, gp: nat, later: seq<Entry>)
    requires LaterPlaced(data, gp, later)
    ensures gp <= |data| && (gp == |data| <==> later == [])
  {
    if later != [] { OneGroup(later, 0, GroupRun(later)); assert later[0..] == later; }
  }

  lemma FirstId(here: seq<Entry>, run: seq<Entry>, rest: seq<Entry>)
    requires Fits(here) && here != [] && run == here[..IdRun(here)] && rest == here[IdRun(here)..]
    ensures RunFits(run) && Fits(rest) && IdsBytes(here) == PostingBytes(run) + IdsBytes(rest)
  {
    assert here[0..] == here && here[0..IdRun(here)] == run;
    hide PostingBytes, RunFits;
    OneId(here, 0, IdRun(here));
  }

  lemma IdHead(data: seq<byte>, p: nat, ep: nat, gid: nat, here: seq<Entry>, run: seq<Entry>, rest: seq<Entry>)
    requires GroupPlaced(data, p, ep, gid, here) && here != [] && run == here[..IdRun(here)] && rest == here[IdRun(here)..]
    ensures RunFits(run) && At(data, p, PostingBytes(run)) && run != [] && run[0] == here[0] && gid == here[0].id / 4096 * 4096
    ensures GroupPlaced(data, p + |PostingBytes(run)|, ep, gid, rest)
  {
    hide At, PostingBytes, Fits, IdsBytes, RunFits;
    FirstId(here, run, rest);
    AtBoth(data, p, PostingBytes(run), IdsBytes(rest));
  }

  // ---------- the reader ----------

  // Beyond the id shown, in order; later groups have higher numbers once a group has been read.
  ghost predicate Ordered(id: nat, gid: nat, here: seq<Entry>, later: seq<Entry>) {
    && InOrder(here + later) && (forall k | 0 <= k < |here + later| :: (here + later)[k].id > id)
    && (if id > 0 || here != [] then forall k | 0 <= k < |later| :: later[k].id / 4096 * 4096 > gid else gid == 0)
  }

  lemma GroupOrdered(id: nat, gid: nat, here: seq<Entry>, later: seq<Entry>)
    requires Ordered(id, gid, here, later) && later != []
    ensures Ordered(id, later[0].id / 4096 * 4096, later[..GroupRun(later)], later[GroupRun(later)..])
    ensures later[..GroupRun(later)] + later[GroupRun(later)..] == later
  {
    hide Ordered, InOrder;
    var j := GroupRun(later);
    assert later[..j] + later[j..] == later;
    LaterInOrder(id, gid, here, later);
    LaterGroups(later, j);
    OrderedOnce(id, later[0].id / 4096 * 4096, later[..j], later[j..], later);
  }

  lemma OrderedOnce(id: nat, gid: nat, a: seq<Entry>, b: seq<Entry>, later: seq<Entry>)
    requires a != [] && a + b == later && InOrder(later) && forall k | 0 <= k < |later| :: later[k].id > id
    requires forall k | 0 <= k < |b| :: b[k].id / 4096 * 4096 > gid
    ensures Ordered(id, gid, a, b)
  {
  }

  lemma LaterGroups(later: seq<Entry>, j: nat)
    requires InOrder(later) && later != [] && j == GroupRun(later)
    ensures forall k | 0 <= k < |later| - j :: later[j..][k].id / 4096 * 4096 > later[0].id / 4096 * 4096
  {
    forall k | 0 <= k < |later| - j
      ensures later[j..][k].id / 4096 * 4096 > later[0].id / 4096 * 4096
    {
      GroupGrows(later[0].id, later[j].id, later[j + k].id);
    }
  }

  lemma LaterInOrder(id: nat, gid: nat, here: seq<Entry>, later: seq<Entry>)
    requires Ordered(id, gid, here, later)
    ensures InOrder(later) && forall k | 0 <= k < |later| :: later[k].id > id
  {
    assert forall k | 0 <= k < |later| :: later[k] == (here + later)[|here| + k];
  }

  lemma GroupGrows(x: nat, y: nat, z: nat)
    requires x <= y <= z && x / 4096 != y / 4096
    ensures z / 4096 * 4096 > x / 4096 * 4096
  {
  }

  lemma IdOrdered(id: nat, gid: nat, here: seq<Entry>, later: seq<Entry>)
    requires Ordered(id, gid, here, later) && here != []
    requires forall k | 0 <= k < |here| :: here[k].id / 4096 * 4096 == gid
    ensures Ordered(here[0].id, gid, here[IdRun(here)..], later)
    ensures IdRun(here + later) == IdRun(here) && (here + later)[IdRun(here)..] == here[IdRun(here)..] + later
    ensures (here + later)[..IdRun(here)] == here[..IdRun(here)]
  {
    assert later != [] ==> later[0].id / 4096 * 4096 > gid && here[|here| - 1].id / 4096 * 4096 == gid;
    FirstRunOf(here, later);
    BeyondFirst(here + later);
    assert (here + later)[0] == here[0];
  }

  // Behind the first document all ids are greater.
  lemma BeyondFirst(all: seq<Entry>)
    requires InOrder(all) && all != []
    ensures InOrder(all[IdRun(all)..]) && forall k | 0 <= k < |all[IdRun(all)..]| :: all[IdRun(all)..][k].id > all[0].id
  {
    var j := IdRun(all);
    forall k | 0 <= k < |all| - j
      ensures all[j..][k].id > all[0].id
    {
      assert all[0].id <= all[j].id <= all[j + k].id && all[j].id != all[0].id;
    }
  }

  lemma IdShown(data: seq<byte>, p: nat, ep: nat, id: nat, gid: nat, here: seq<Entry>, later: seq<Entry>, run: seq<Entry>, rest: seq<Entry>)
    requires GroupPlaced(data, p, ep, gid, here) && Ordered(id, gid, here, later) && here != []
    requires run == here[..IdRun(here)] && rest == here[IdRun(here)..] && RunFits(run)
    ensures Ordered(here[0].id, gid, rest, later) && Shows(here + later, ShownOf(run), rest + later)
    ensures ShownOf(run).id == here[0].id > id && |rest| < |here|
  {
    hide Fits, IdsBytes, HitsBytes, At;
    IdOrdered(id, gid, here, later);
    assert (here + later)[0] == here[0];
  }

  lemma AtStart(data: seq<byte>, e: seq<Entry>)
    requires GroupsFit(e) && ValidEntries(e) && data == GroupsBytes(e)
    ensures GroupPlaced(data, 0, 0, 0, []) && LaterPlaced(data, 0, e) && Ordered(0, 0, [], e) && [] + e == e
  {
    hide GroupsFit, GroupsBytes;
    assert [] + e == e;
    assert data[0..|data|] == data;
  }

  class ImageTerm {
    const data: seq<byte>
    var p: nat
    var ep: nat
    var gp: nat
    var gid: nat
    var shown: Shown
    // What is left of the group, and the groups after it.
    ghost var here: seq<Entry>
    ghost var later: seq<Entry>

    ghost predicate Valid()
      reads this
    {
      GroupPlaced(data, p, ep, gid, here) && LaterPlaced(data, gp, later) && Ordered(shown.id, gid, here, later)
    }

    // The documents still to come.
    ghost function Rest(): seq<Entry>
      reads this
    {
      here + later
    }

    constructor (data: seq<byte>, ghost e: seq<Entry>)
      requires GroupsFit(e) && ValidEntries(e) && data == GroupsBytes(e)
      ensures Valid() && Rest() == e && this.data == data && shown.id == 0
    {
      this.data, p, ep, gp, gid, shown := data, 0, 0, 0, 0, Shown(0, 0, []);
      here, later := [], e;
      new;
      AtStart(data, e);
    }

    // advance_group: what is left of the current group is dropped.
    method AdvanceGroup()
      requires Valid() && later != []
      modifies this
      ensures Valid() && here != [] && shown == old(shown) && Rest() == old(later) && |later| < |old(later)|
      ensures gid == old(later)[0].id / 4096 * 4096
    {
      hide GroupPlaced, LaterPlaced, Ordered, LengthIs, ReadLE16;
      ghost var j, n, size := GroupHead(data, gp, later);
      GroupOrdered(shown.id, gid, here, later);
      LengthReads(data, gp + 2, n, size);
      var g := ReadLE16(data, gp);
      var at := gp + 2;
      var len: nat := data[at];
      if len / 64 == 0 {
        at := at + 1;
      } else if len / 64 == 1 {
        len := len % 64 * 256 + data[at + 1];
        at := at + 2;
      } else {
        len := len % 64 * 0x1_0000 + ReadLE16(data, at + 1);
        at := at + 3;
      }
      p, ep, gp, gid := at, at + len, at + len, g * 4096;
      here, later := later[..j], later[j..];
    }

    // advance_id
    method AdvanceId()
      requires Valid() && here != []
      modifies this`p, this`shown, this`here
      ensures Valid() && Shows(old(Rest()), shown, Rest()) && shown.id == old(here)[0].id && |here| < |old(here)|
      ensures shown.id > old(shown.id)
    {
      hide At, PostingBytes, Fits, IdsBytes, LaterPlaced, Ordered, RunFits, GroupPlaced, ShownOf, Shows, IdRun;
      ghost var run, rest := here[..IdRun(here)], here[IdRun(here)..];
      IdHead(data, p, ep, gid, here, run, rest);
      IdShown(data, p, ep, shown.id, gid, here, later, run, rest);
      shown, p := ReadPosting(data, p, gid, run);
      here := rest;
    }

    method Advance() returns (ok: bool)
      requires Valid()
      modifies this
      ensures Valid() && (ok <==> old(Rest()) != [])
      ensures ok ==> Shows(old(Rest()), shown, Rest())
      ensures !ok ==> shown == old(shown) && Rest() == []
    {
      hide GroupPlaced, LaterPlaced, Ordered, Shows;
      NoBytesNoEntries(data, p, ep, gid, here);
      NoBytesNoGroups(data, gp, later);
      if p >= ep {
        if gp >= |data| { return false; }
        assert here + later == later;
        AdvanceGroup();
      }
      AdvanceId();
      ok := true;
    }

    // Nothing was read yet, and `id` lies in the group that the reader takes itself to be in.
    predicate Unread(id: nat)
      reads this
    {
      shown.id == 0 && p >= ep && id < 4096
    }

    // The first document from `id` on, unless the one shown is there already. Before anything was read, the first
    // document is shown without a look at its id when `id` lies in the first group.
    method AdvanceTo(id: nat) returns (ok: bool)
      requires Valid() && id < ID_LIMIT
      modifies this
      ensures Valid()
      ensures id <= old(shown.id) ==> ok && shown == old(shown) && Rest() == old(Rest())
      ensures id > old(shown.id) && ok ==> if old(Unread(id)) then Shows(old(Rest()), shown, Rest()) else Lands(old(Rest()), id, true, shown, Rest())
      ensures id > old(shown.id) && !ok ==> FirstFrom(old(Rest()), id) == |old(Rest())|
    {
      hide GroupPlaced, LaterPlaced, Ordered, Shows, Lands, Seeks, FirstFrom;
      if id <= shown.id { return true; }
      ghost var all := Rest();
      SeeksAll(all, id);
      if gid < id / 4096 * 4096 {
        ok := SkipGroups(id);
        if !ok { return false; }
        ghost var rest := Rest();
        AdvanceId();
        if id / 4096 * 4096 < gid {
          FirstInGroup(rest, id, shown, Rest(), gid);
          SeeksThenLands(all, id, rest, true, shown, Rest());
          return true;
        }
        if id <= shown.id {
          LandsHere(rest, id, shown, Rest());
          SeeksThenLands(all, id, rest, true, shown, Rest());
          return true;
        }
        SeeksOne(rest, id, shown, Rest());
        SeeksTwice(all, id, rest, Rest());
      }
      ghost var rest := Rest();
      ghost var unread := Unread(id);
      ok := SeekInGroup(id);
      if ok {
        if !unread { SeeksThenLands(all, id, rest, true, shown, Rest()); }
      } else {
        SeeksNowhere(all, id, rest);
      }
    }

    // Groups before that of `id` are passed; false if there are no others.
    method SkipGroups(id: nat) returns (ok: bool)
      requires Valid() && shown.id < id && gid < id / 4096 * 4096
      modifies this
      ensures Valid() && shown == old(shown)
      ensures ok ==> Seeks(old(Rest()), id, Rest()) && here != [] && gid >= id / 4096 * 4096 && gid == here[0].id / 4096 * 4096
      ensures !ok ==> FirstFrom(old(Rest()), id) == |old(Rest())|
    {
      hide GroupPlaced, LaterPlaced, Ordered, Seeks, FirstFrom;
      ghost var all := Rest();
      SeeksAll(all, id);
      while gid < id / 4096 * 4096
        invariant Valid() && Seeks(all, id, Rest()) && shown == old(shown)
        invariant gid < id / 4096 * 4096 || (here != [] && gid == here[0].id / 4096 * 4096)
        decreases |later|
      {
        NoBytesNoGroups(data, gp, later);
        GroupBelow(data, p, ep, gid, here, later, id);
        SeeksTwice(all, id, Rest(), later);
        if gp >= |data| {
          NothingSought(all, id, later);
          return false;
        }
        AdvanceGroup();
      }
      ok := true;
    }

    // In the current group, whose number is not below that of `id`, and if need be at the front of the next one.
    method SeekInGroup(id: nat) returns (ok: bool)
      requires Valid() && shown.id < id && gid >= id / 4096 * 4096
      modifies this
      ensures Valid()
      ensures ok ==> if old(Unread(id)) then Shows(old(Rest()), shown, Rest()) else Lands(old(Rest()), id, true, shown, Rest())
      ensures !ok ==> FirstFrom(old(Rest()), id) == |old(Rest())|
    {
      hide GroupPlaced, LaterPlaced, Ordered, Seeks, FirstFrom, Shows, Lands;
      ghost var all := Rest();
      ghost var before := all;
      ghost var unread := Unread(id);
      SeeksAll(all, id);
      NoBytesNoEntries(data, p, ep, gid, here);
      UnreadIs(shown.id, gid, here, later, id);
      while id > shown.id && p < ep
        invariant Valid() && gid == old(gid) && p <= ep && (p == ep <==> here == [])
        invariant if unread then shown.id == 0 && here == [] && Rest() == all else shown.id > 0 || here != []
        invariant Seeks(all, id, before)
        invariant if id > shown.id then before == Rest() else Shows(before, shown, Rest())
        decreases |here|
      {
        before := Rest();
        AdvanceId();
        NoBytesNoEntries(data, p, ep, gid, here);
        if id > shown.id {
          SeeksOne(before, id, shown, Rest());
          SeeksTwice(all, id, before, Rest());
          before := Rest();
        }
      }
      if id <= shown.id {
        LandsHere(before, id, shown, Rest());
        SeeksThenLands(all, id, before, true, shown, Rest());
        return true;
      }
      NoBytesNoGroups(data, gp, later);
      assert here + later == later;
      if gp >= |data| {
        NothingSought(all, id, before);
        return false;
      }
      if !unread { NextGroupBeyond(shown.id, gid, here, later, id); }
      AdvanceGroup();
      before := Rest();
      AdvanceId();
      if !unread {
        LandsHere(before, id, shown, Rest());
        SeeksThenLands(all, id, before, true, shown, Rest());
      }
      ok := true;
    }
  }

  // In the group of `id`, with nothing left of it, and nothing shown: that is the start.
  lemma UnreadIs(shownId: nat, gid: nat, here: seq<Entry>, later: seq<Entry>, id: nat)
    requires Ordered(shownId, gid, here, later) && gid >= id / 4096 * 4096
    ensures shownId == 0 && here == [] ==> id < 4096
  {
  }

  // The document that is shown unseen is the right one exactly when it is not before `id`.
  lemma LandsIfBeyond(all: seq<Entry>, id: nat, s: Shown, rest: seq<Entry>)
    requires Shows(all, s, rest)
    ensures Lands(all, id, true, s, rest) <==> s.id >= id
  {
    if s.id >= id {
      LandsHere(all, id, s, rest);
    } else {
      assert all[0].id < id;
    }
  }

  lemma NextGroupBeyond(shownId: nat, gid: nat, here: seq<Entry>, later: seq<Entry>, id: nat)
    requires Ordered(shownId, gid, here, later) && shownId > 0 && later != [] && gid >= id / 4096 * 4096
    ensures later[0].id >= id
  {
  }

  lemma FirstInGroup(rest: seq<Entry>, id: nat, s: Shown, rest1: seq<Entry>, gid: nat)
    requires Shows(rest, s, rest1) && gid == rest[0].id / 4096 * 4096 && id / 4096 * 4096 < gid
    ensures Lands(rest, id, true, s, rest1)
  {
    assert s.id >= id;
    LandsHere(rest, id, s, rest1);
  }

  lemma SeeksNowhere(all: seq<Entry>, id: nat, rest: seq<Entry>)
    requires Seeks(all, id, rest) && FirstFrom(rest, id) == |rest|
    ensures FirstFrom(all, id) == |all|
  {
    FirstFromIs(all, id, |all|);
  }

  // The three ways to write a length read back.
  lemma LengthReads(data: seq<byte>, at: nat, n: nat, size: nat)
    requires n < GROUP_LIMIT && LengthIs(data, at, n, size)
    ensures at < |data|
    ensures data[at] as int / 64 == 0 ==> size == 1 && data[at] == n
    ensures data[at] as int / 64 == 1 ==> size == 2 && at + 1 < |data| && data[at] as int % 64 * 256 + data[at + 1] as int == n
    ensures data[at] as int / 64 >= 2 ==>
      size == 3 && at + 3 <= |data| && data[at] as int % 64 * 0x1_0000 + ReadLE16(data, at + 1) == n
  {
  }

  lemma SeeksAll(all: seq<Entry>, id: nat)
    ensures Seeks(all, id, all)
  {
  }

  // A group with a number below that of `id` is dropped.
  lemma GroupBelow(data: seq<byte>, p: nat, ep: nat, gid: nat, here: seq<Entry>, later: seq<Entry>, id: nat)
    requires GroupPlaced(data, p, ep, gid, here) && gid < id / 4096 * 4096
    ensures Seeks(here + later, id, later)
  {
    hide Fits, At, IdsBytes;
    assert forall k | 0 <= k < |here| :: (here + later)[k] == here[k];
  }

  lemma NothingSought(all: seq<Entry>, id: nat, rest: seq<Entry>)
    requires Seeks(all, id, rest) && rest == []
    ensures FirstFrom(all, id) == |all|
  {
    FirstFromIs(all, id, |all|);
  }

  // ---------- there and back ----------

  // The documents of a term, one for each run of an id.
  ghost function Documents(e: seq<Entry>): seq<Shown>
    requires Fits(e)
    decreases |e|
  {
    if e == [] then [] else [ShownOf(e[..IdRun(e)])] + Documents(e[IdRun(e)..])
  }

  lemma {:induction false} GroupsThenIds(e: seq<Entry>)
    requires GroupsFit(e)
    ensures Fits(e)
    decreases |e|
  {
    if e != [] {
      hide Fits, GroupsFit;
      var a, b := FirstGroup(e);
      GroupsThenIds(b);
      JoinFits(a, b);
    }
  }

  lemma FirstGroup(e: seq<Entry>) returns (a: seq<Entry>, b: seq<Entry>)
    requires GroupsFit(e) && e != []
    ensures a + b == e && |b| < |e| && Fits(a) && GroupsFit(b) && a != [] && (b != [] ==> a[|a| - 1].id != b[0].id)
  {
    hide Fits, IdsBytes;
    var j := GroupRun(e);
    a, b := e[..j], e[j..];
    GroupsDiffer(e, j);
  }

  lemma GroupsDiffer(e: seq<Entry>, j: nat)
    requires e != [] && j == GroupRun(e)
    ensures j < |e| ==> e[..j][|e[..j]| - 1].id != e[j..][0].id
  {
  }

  // A group and what follows it, whose first id is another one.
  lemma {:induction false} JoinFits(a: seq<Entry>, b: seq<Entry>)
    requires Fits(a) && Fits(b) && (a != [] && b != [] ==> a[|a| - 1].id != b[0].id)
    ensures Fits(a + b)
    decreases |a|
  {
    if a == [] {
      assert a + b == b;
    } else {
      hide RunFits;
      var j := IdRun(a);
      FirstRunOf(a, b);
      JoinFits(a[j..], b);
    }
  }

  lemma FirstRunOf(a: seq<Entry>, b: seq<Entry>)
    requires a != [] && (b != [] ==> a[|a| - 1].id != b[0].id)
    ensures IdRun(a + b) == IdRun(a) && (a + b)[..IdRun(a)] == a[..IdRun(a)] && (a + b)[IdRun(a)..] == a[IdRun(a)..] + b
  {
    var j, all := IdRun(a), a + b;
    RunInJoin(a, b, j);
    hide IdRun;
    IdRunIs(all, j);
    SplitJoin(a, b, j);
  }

  lemma SplitJoin(a: seq<Entry>, b: seq<Entry>, j: nat)
    requires j <= |a|
    ensures (a + b)[..j] == a[..j] && (a + b)[j..] == a[j..] + b
  {
  }

  lemma RunInJoin(a: seq<Entry>, b: seq<Entry>, j: nat)
    requires a != [] && j == IdRun(a) && (b != [] ==> a[|a| - 1].id != b[0].id)
    ensures 0 < j <= |a + b| && forall k | 0 <= k < j :: (a + b)[k].id == (a + b)[0].id
    ensures j < |a + b| ==> (a + b)[j].id != (a + b)[0].id
  {
  }

  // Packing a term and walking through it shows all its documents in order.
  method PackAndRead(e: seq<Entry>) returns (docs: seq<Shown>)
    requires GroupsFit(e) && ValidEntries(e)
    ensures Fits(e) && docs == Documents(e)
    ensures Occurrences(docs) == e && forall i, j | 0 <= i < j < |docs| :: docs[i].id < docs[j].id
  {
    GroupsThenIds(e);
    docs := PackAndWalk(e);
    NothingLost(e);
    OnceEach(e);
  }

  method PackAndWalk(e: seq<Entry>) returns (docs: seq<Shown>)
    requires GroupsFit(e) && ValidEntries(e) && Fits(e)
    ensures docs == Documents(e)
  {
    hide *;
    var data := EncodeTerm(e);
    var t := new ImageTerm(data, e);
    docs := [];
    ghost var rest := e;
    while true
      invariant t.Valid() && fresh(t) && rest == t.Rest() && Fits(rest) && docs + Documents(rest) == Documents(e)
      decreases |rest|
    {
      var ok := t.Advance();
      if !ok {
        NoDocuments();
        return;
      }
      ghost var rest1 := t.Rest();
      OneDocument(rest, t.shown, rest1);
      docs, rest := docs + [t.shown], rest1;
    }
  }

  lemma NoDocuments()
    ensures Documents([]) == []
  {
  }

  lemma OneDocument(all: seq<Entry>, s: Shown, rest: seq<Entry>)
    requires Fits(all) && Shows(all, s, rest)
    ensures Fits(rest) && Documents(all) == [s] + Documents(rest) && |rest| < |all|
  {
  }

  // ---------- the spans ----------

  datatype Hits = Hits(hits: seq<(nat, int)>) | Cut

  function Behind(h: (nat, int), r: Hits): Hits {
    if r.Hits? then Hits([h] + r.hits) else r
  }

  // Positions and values as a span holds them: fourteen bits, two for the size of the value, the value.
  function ReadHits(b: seq<byte>): Hits
    decreases |b|
  {
    if b == [] then Hits([])
    else if |b| < 2 then Cut
    else
      var n := ReadLE16(b, 0);
      var at, size := n % 0x4000, n / 0x4000;
      if size == 0 then Behind((at, 0), ReadHits(b[2..]))
      else if size == 1 && |b| >= 3 then Behind((at, b[2] as int), ReadHits(b[3..]))
      else if size == 2 && |b| >= 4 then Behind((at, ReadLE16(b, 2)), ReadHits(b[4..]))
      else if size == 3 && |b| >= 6 then Behind((at, Signed32(ReadLE32(b, 2))), ReadHits(b[6..]))
      else Cut
  }

  function HitsOf(run: seq<Entry>): seq<(nat, int)> {
    seq(|run|, k requires 0 <= k < |run| => (run[k].position, run[k].value))
  }

  // A span holds exactly the positions and values that went in.
  lemma {:induction false} SpanReadsBack(run: seq<Entry>)
    requires forall k | 0 <= k < |run| :: ValidEntry(run[k])
    ensures ReadHits(HitsBytes(run)) == Hits(HitsOf(run))
    decreases |run|
  {
    if run != [] {
      var h, rest := HitBytes(run[0]), HitsBytes(run[1..]);
      SpanReadsBack(run[1..]);
      HitReads(run[0], rest);
      assert HitsOf(run) == [(run[0].position, run[0].value)] + HitsOf(run[1..]);
    } else {
      assert HitsOf(run) == [];
    }
  }

  lemma HitReads(e: Entry, rest: seq<byte>)
    requires ValidEntry(e)
    ensures ReadHits(HitBytes(e) + rest) == Behind((e.position, e.value), ReadHits(rest))
  {
    var b, h := HitBytes(e) + rest, HitBytes(e);
    assert b[0..|h|] == h && b[|h|..] == rest;
    assert At(b, 0, h);
    HitHead(b, e);
  }

  // The two bytes at the front, and the value behind them.
  lemma HitHead(b: seq<byte>, e: Entry)
    requires ValidEntry(e) && At(b, 0, HitBytes(e))
    ensures |b| >= |HitBytes(e)| && ReadLE16(b, 0) % 0x4000 == e.position
    ensures e.value == 0 ==> |HitBytes(e)| == 2 && ReadLE16(b, 0) / 0x4000 == 0
    ensures 0 < e.value < 256 ==> |HitBytes(e)| == 3 && ReadLE16(b, 0) / 0x4000 == 1 && b[2] == e.value
    ensures 256 <= e.value < 0x1_0000 ==> |HitBytes(e)| == 4 && ReadLE16(b, 0) / 0x4000 == 2 && ReadLE16(b, 2) == e.value
    ensures e.value < 0 || e.value >= 0x1_0000 ==>
      |HitBytes(e)| == 6 && ReadLE16(b, 0) / 0x4000 == 3 && Signed32(ReadLE32(b, 2)) == e.value
  {
    hide At, LE16, LE32, ReadLE16, ReadLE32;
    if e.value == 0 {
      LE16At(b, 0, e.position);
    } else if 0 < e.value < 256 {
      var v: byte := e.value;
      AtBoth(b, 0, LE16(e.position + 0x4000), [v]);
      LE16At(b, 0, e.position + 0x4000);
      AtIndex(b, 2, [v], 0);
    } else if 0 < e.value < 0x1_0000 {
      AtBoth(b, 0, LE16(e.position + 0x8000), LE16(e.value));
      LE16At(b, 0, e.position + 0x8000);
      LE16At(b, 2, e.value);
    } else {
      AtBoth(b, 0, LE16(e.position + 0xC000), LE32(Bits32(e.value)));
      LE16At(b, 0, e.position + 0xC000);
      LE32At(b, 2, Bits32(e.value));
    }
  }

  // ---------- nothing is lost ----------

  // The occurrences that a document stands for: one without position, or those of its span.
  function OccurrencesOf(s: Shown): seq<Entry> {
    if s.span == [] then [Entry(s.id, 0, s.value)]
    else match ReadHits(s.span)
         case Hits(hits) => seq(|hits|, k requires 0 <= k < |hits| => Entry(s.id, hits[k].0, hits[k].1))
         case Cut => []
  }

  function Occurrences(docs: seq<Shown>): seq<Entry> {
    if docs == [] then [] else OccurrencesOf(docs[0]) + Occurrences(docs[1..])
  }

  lemma OneUnpacked(run: seq<Entry>)
    requires RunFits(run) && forall k | 0 <= k < |run| :: run[k].id == run[0].id
    ensures OccurrencesOf(ShownOf(run)) == run
  {
    hide HitsBytes, ReadHits;
    SpanReadsBack(run);
    if !IsPlain(run) {
      SomeHits(run);
    }
  }

  lemma SomeHits(run: seq<Entry>)
    requires RunFits(run)
    ensures HitsBytes(run) != []
  {
  }

  // The documents shown stand for exactly the occurrences that were packed.
  lemma {:induction false} NothingLost(e: seq<Entry>)
    requires Fits(e)
    ensures Occurrences(Documents(e)) == e
    decreases |e|
  {
    hide RunFits, OccurrencesOf, ShownOf;
    if e != [] {
      var j := IdRun(e);
      OneUnpacked(e[..j]);
      NothingLost(e[j..]);
      assert Documents(e) == [ShownOf(e[..j])] + Documents(e[j..]);
      assert e == e[..j] + e[j..];
    }
  }

  // Each document is shown once, in order.
  lemma {:induction false} OnceEach(e: seq<Entry>)
    requires Fits(e) && InOrder(e)
    ensures forall i, j | 0 <= i < j < |Documents(e)| :: Documents(e)[i].id < Documents(e)[j].id
    ensures forall i | 0 <= i < |Documents(e)| :: e != [] && Documents(e)[i].id >= e[0].id
    decreases |e|
  {
    hide RunFits;
    if e != [] {
      var j := IdRun(e);
      BeyondFirst(e);
      OnceEach(e[j..]);
      var docs, rest := Documents(e), Documents(e[j..]);
      assert docs == [ShownOf(e[..j])] + rest && docs[0].id == e[0].id;
      assert forall i | 1 <= i < |docs| :: docs[i] == rest[i - 1];
      assert forall i | 0 <= i < |rest| :: rest[i].id >= e[j..][0].id > e[0].id;
    } else {
      assert Documents(e) == [];
    }
  }
}

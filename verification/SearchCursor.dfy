// Block, OR and AND cursors over postings. advance gives the next match; advance_to may, below an OR, give a
// match short of the id that was asked for, and everything is still enumerated exactly once.
module SearchCursor {
  import opened Postings
  import MinHeap

  // A cursor as its fields stand between calls. `Dead` is one that was turned into the empty cursor. A term
  // cursor is primed: its first advance only hands out the id it already stands on.
  datatype Cursor =
    | Dead
    | Block(groups: seq<Group>, next: nat, group: Group, p: nat, current: nat, primed: bool)
    | Or(children: seq<Cursor>, started: bool, active: seq<nat>, heap: seq<nat>, current: nat)
    | And(children: seq<Cursor>, current: nat)

  function Cur(c: Cursor): nat {
    if c.Dead? then 0 else c.current
  }

  // The ids of a block cursor that lie ahead.
  function Ahead(c: Cursor): seq<nat>
    requires c.Block? && c.p <= |c.group.low| && c.next <= |c.groups|
  {
    Ids(c.group)[c.p..] + Flat(c.groups[c.next..])
  }

  // advance would hand out the current id again.
  predicate Repeats(c: Cursor) {
    match c
    case Dead => false
    case Block(_, _, _, _, _, primed) => primed
    case Or(_, _, _, _, _) => false
    case And(children, current) => current != 0 && children != [] && Repeats(children[0])
  }

  // Not used yet.
  predicate Fresh(c: Cursor) {
    match c
    case Dead => true
    case Block(_, _, _, _, _, primed) => primed
    case Or(children, started, _, _, current) => !started && current == 0 && forall k | k in children :: Fresh(k)
    case And(children, current) => current == 0 && forall k | k in children :: Fresh(k)
  }

  // Matches beyond the current id.
  ghost predicate InRest(c: Cursor, x: nat)
    decreases c, 0
  {
    match c
    case Dead => false
    case Block(groups, next, group, p, _, _) => p <= |group.low| && next <= |groups| && x in Ahead(c)
    case Or(children, started, active, heap, _) =>
      if !started then exists i | 0 <= i < |children| :: Pending(children[i], x)
      else exists i | 0 <= i < |children| ::
             (i in active && InRest(children[i], x)) || (MinHeap.InHeap(heap, i) && Reachable(children[i], x))
    case And(children, current) =>
      children != [] &&
      if current == 0 then forall i | 0 <= i < |children| :: Reachable(children[i], x)
      else forall i | 0 <= i < |children| :: InRest(children[i], x)
  }

  // What advance still hands out.
  ghost predicate Pending(c: Cursor, x: nat)
    decreases c, 1
  {
    InRest(c, x) || (Repeats(c) && x == Cur(c))
  }

  // What advance_to can still reach.
  ghost predicate Reachable(c: Cursor, x: nat)
    decreases c, 1
  {
    InRest(c, x) || (Cur(c) != 0 && x == Cur(c))
  }

  function Currents(cs: seq<Cursor>): seq<int> {
    seq(|cs|, i requires 0 <= i < |cs| => Cur(cs[i]))
  }

  ghost predicate Valid(c: Cursor) {
    match c
    case Dead => true
    case Block(_, _, _, _, _, _) => ValidBlock(c)
    case Or(children, started, active, heap, current) =>
      && (forall k | k in children :: Valid(k))
      && if !started then current == 0 && active == [] && heap == [0] && forall k | k in children :: Fresh(k)
         else ValidOr(children, active, heap, current)
    case And(children, current) =>
      && children != [] && (forall k | k in children :: Valid(k))
      && if current == 0 then forall k | k in children :: Fresh(k)
         else forall k | k in children :: !k.Dead? && Cur(k) == current < ID_LIMIT
  }

  ghost predicate Beyond(current: nat, s: seq<nat>) {
    Increasing(s) && forall k | 0 <= k < |s| :: current < s[k] < ID_LIMIT
  }

  lemma BeyondDrops(current: nat, s: seq<nat>, d: nat)
    requires Beyond(current, s) && d <= |s|
    ensures Beyond(current, s[d..])
    ensures d < |s| ==> Beyond(s[d], s[d + 1..]) && current < s[d] < ID_LIMIT
  {
  }

  ghost predicate ValidBlock(c: Cursor)
    requires c.Block?
  {
    && c.next <= |c.groups| && c.p <= |c.group.low| && ValidGroup(c.group)
    && (forall k | c.next <= k < |c.groups| :: ValidGroup(c.groups[k]))
    && BasesIncrease([c.group] + c.groups[c.next..])
    && 1 <= c.current < ID_LIMIT && GroupOf(c.current) == c.group.base
    && Beyond(c.current, Ahead(c))
  }

  // Children stand in the heap beyond the current id, or are active and stand on it; the others are used up.
  ghost predicate ValidOr(children: seq<Cursor>, active: seq<nat>, heap: seq<nat>, current: nat) {
    && active != [] && 0 < current < ID_LIMIT && Waits(children, heap) && Apart(children, active, heap)
    && (forall e | e in active :: e < |children| && UnderWay(children[e]) && Cur(children[e]) == current)
    && (forall e: nat | MinHeap.InHeap(heap, e) :: e < |children| && current < Cur(children[e]))
  }

  // The heap holds children that are under way, each at most once.
  ghost predicate Waits(children: seq<Cursor>, heap: seq<nat>) {
    && MinHeap.IsHeap(heap, Currents(children))
    && (forall e: nat | MinHeap.InHeap(heap, e) :: e < |children| && UnderWay(children[e]) && MinHeap.Content(heap)[e] == 1)
  }

  // A list of children, each at most once, that are not in the heap.
  ghost predicate Apart(children: seq<Cursor>, list: seq<nat>, heap: seq<nat>) {
    && (forall e | e in list :: e < |children| && !MinHeap.InHeap(heap, e))
    && (forall i, j | 0 <= i < j < |list| :: list[i] != list[j])
  }

  predicate UnderWay(c: Cursor) {
    !c.Dead? && Cur(c) > 0 && !Repeats(c)
  }

  // No OR cursor inside.
  predicate NoOr(c: Cursor) {
    match c
    case Dead => true
    case Block(_, _, _, _, _, _) => true
    case Or(_, _, _, _, _) => false
    case And(children, _) => forall k | k in children :: NoOr(k)
  }

  // Below such a cursor advance_to keeps the strong promise: the new current id is at least `id`.
  ghost predicate Sharp(c: Cursor, id: nat, c1: Cursor) {
    NoOr(c) ==> NoOr(c1) && (c1.Dead? || Cur(c1) >= id)
  }

  // ---------- measures ----------

  function Height(c: Cursor): nat {
    match c
    case Dead => 0
    case Block(_, _, _, _, _, _) => 0
    case Or(children, _, _, _, _) => 1 + Heights(children)
    case And(children, _) => 1 + Heights(children)
  }

  function Heights(cs: seq<Cursor>): nat {
    if cs == [] then 0 else (var a, b := Height(cs[0]), Heights(cs[1..]); if a > b then a else b)
  }

  // How much a cursor can still move.
  function Left(c: Cursor): nat {
    match c
    case Dead => 0
    case Block(groups, next, group, p, _, primed) =>
      1 + (if primed then 1 else 0) + if p <= |group.low| && next <= |groups| then |Ahead(c)| else 0
    case Or(children, started, _, _, _) => (if started then 1 else 2) + LeftAll(children)
    case And(children, current) => (if current != 0 then 1 else 2) + LeftAll(children)
  }

  function LeftAll(cs: seq<Cursor>): nat {
    if cs == [] then 0 else Left(cs[0]) + LeftAll(cs[1..])
  }

  lemma {:induction false} HeightOfMember(cs: seq<Cursor>, i: nat)
    requires i < |cs|
    ensures Height(cs[i]) <= Heights(cs)
  {
    if i > 0 {
      assert cs[i] == cs[1..][i - 1];
      HeightOfMember(cs[1..], i - 1);
    }
  }

  lemma {:induction false} UpdateMeasures(cs: seq<Cursor>, i: nat, c: Cursor)
    requires i < |cs|
    ensures LeftAll(cs[i := c]) == LeftAll(cs) - Left(cs[i]) + Left(c)
    ensures Height(c) <= Height(cs[i]) ==> Heights(cs[i := c]) <= Heights(cs)
  {
    if i == 0 {
      assert cs[i := c] == [c] + cs[1..];
    } else {
      assert cs[i := c][1..] == cs[1..][i - 1 := c];
      UpdateMeasures(cs[1..], i - 1, c);
    }
  }

  // ---------- what a move means ----------

  // advance: exactly the pending matches stay reachable, the least of them being the new current id.
  ghost predicate Advanced(c: Cursor, c1: Cursor, r: nat) {
    && Valid(c1) && Height(c1) <= Height(c) && Cur(c1) == r && (r == 0 <==> c1.Dead?)
    && (!c.Dead? ==> Left(c1) < Left(c)) && (r != 0 ==> UnderWay(c1))
    && forall x: nat :: Reachable(c1, x) <==> Pending(c, x)
  }

  // advance_to beyond the current id: what stays reachable was ahead, and no match from `id` on is lost. That
  // the new current id is at least `id` is not promised.
  ghost predicate AdvancedTo(c: Cursor, id: nat, c1: Cursor, r: nat) {
    && Valid(c1) && Height(c1) <= Height(c) && Cur(c1) == r && (r == 0 <==> c1.Dead?)
    && (!c.Dead? ==> Left(c1) < Left(c)) && (UnderWay(c) && r != 0 ==> UnderWay(c1))
    && (forall x: nat | Reachable(c1, x) :: InRest(c, x))
    && (forall x: nat | InRest(c, x) && x >= id :: Reachable(c1, x))
  }

  // ---------- bounds ----------

  // Everything ahead lies beyond the current id and is a 27-bit id.
  lemma {:induction false} RestBeyond(c: Cursor, x: nat)
    requires Valid(c) && InRest(c, x)
    ensures Cur(c) < x < ID_LIMIT
    decreases c, 0
  {
    match c
    case Dead =>
    case Block(_, _, _, _, _, _) =>
      var k :| 0 <= k < |Ahead(c)| && Ahead(c)[k] == x;
    case Or(children, started, active, heap, current) =>
      if !started {
        var i :| 0 <= i < |children| && Pending(children[i], x);
        PendingBeyond(children[i], x);
      } else {
        var i :| 0 <= i < |children| && ((i in active && InRest(children[i], x)) || (MinHeap.InHeap(heap, i) && Reachable(children[i], x)));
        if InRest(children[i], x) { RestBeyond(children[i], x); }
        assert ValidOr(children, active, heap, current);
        ReachableBelow(children[i], x);
      }
    case And(children, current) =>
      if current == 0 {
        assert Reachable(children[0], x);
        ReachableBelow(children[0], x);
      } else {
        RestBeyond(children[0], x);
      }
  }

  lemma {:induction false} ReachableBelow(c: Cursor, x: nat)
    requires Valid(c) && Reachable(c, x)
    ensures Cur(c) <= x && 0 < x < ID_LIMIT
    decreases c, 1
  {
    if InRest(c, x) { RestBeyond(c, x); } else { CurBelow(c); }
  }

  lemma {:induction false} PendingBeyond(c: Cursor, x: nat)
    requires Valid(c) && Pending(c, x)
    ensures 0 < x < ID_LIMIT
    decreases c, 1
  {
    if InRest(c, x) { RestBeyond(c, x); } else { RepeatsCurrent(c); CurBelow(c); }
  }

  lemma CurBelow(c: Cursor)
    requires Valid(c)
    ensures Cur(c) < ID_LIMIT
  {
    if c.And? && c.current != 0 {
      assert c.children[0] in c.children;
    }
  }

  lemma RepeatsCurrent(c: Cursor)
    requires Valid(c) && Repeats(c)
    ensures Cur(c) > 0
  {
  }

  // ---------- block cursors ----------

  // advance_group
  function NextGroup(c: Cursor): Cursor
    requires c.Block? && c.next < |c.groups|
  {
    c.(group := c.groups[c.next], p := 0, next := c.next + 1)
  }

  // Reading the posting at `p`.
  function ReadPosting(c: Cursor): Cursor
    requires c.Block? && c.p < |c.group.low|
  {
    c.(current := c.group.base + c.group.low[c.p], p := c.p + 1)
  }

  // Between moves: everything but the relation of the current id to its group.
  ghost predicate Scanning(c: Cursor) {
    && c.Block? && c.next <= |c.groups| && c.p <= |c.group.low| && ValidGroup(c.group)
    && (forall k | c.next <= k < |c.groups| :: ValidGroup(c.groups[k]))
    && BasesIncrease([c.group] + c.groups[c.next..])
    && Beyond(c.current, Ahead(c))
    && 1 <= c.current < ID_LIMIT
  }

  lemma NextGroupAhead(c: Cursor)
    requires Scanning(c) && c.next < |c.groups|
    ensures Scanning(NextGroup(c)) && Ahead(c) == Ids(c.group)[c.p..] + Ahead(NextGroup(c))
    ensures c.p == |c.group.low| ==> Ahead(NextGroup(c)) == Ahead(c)
    ensures 0 < |c.groups[c.next].low| && c.group.base < NextGroup(c).group.base
  {
    var g := c.groups[c.next];
    var bases := [c.group] + c.groups[c.next..];
    assert [g] + c.groups[c.next + 1..] == bases[1..];
    assert bases[0].base < bases[1].base;
    assert Flat(c.groups[c.next..]) == Ids(g) + Flat(c.groups[c.next + 1..]) by {
      assert c.groups[c.next..][0] == g && c.groups[c.next..][1..] == c.groups[c.next + 1..];
    }
    assert Ahead(NextGroup(c)) == Ids(g) + Flat(c.groups[c.next + 1..]);
    var d := |c.group.low| - c.p;
    assert Ahead(c)[d..] == Ahead(NextGroup(c));
    BeyondDrops(c.current, Ahead(c), d);
  }

  // Reading the posting at `p`: it was the next one ahead.
  lemma ReadPostingAhead(c: Cursor)
    requires Scanning(c) && c.p < |c.group.low|
    ensures Ahead(c) == [ReadPosting(c).current] + Ahead(ReadPosting(c))
    ensures ValidBlock(ReadPosting(c)) && ReadPosting(c).current > c.current
  {
    var c1 := ReadPosting(c);
    assert Ids(c.group)[c.p..] == [c1.current] + Ids(c.group)[c.p + 1..];
    assert Ahead(c) == [c1.current] + Ahead(c1);
    assert Ahead(c)[1..] == Ahead(c1);
    BeyondDrops(c.current, Ahead(c), 0);
    GroupOfMember(c.group, c.p);
  }

  lemma GroupOfMember(g: Group, k: nat)
    requires ValidGroup(g) && k < |g.low| && g.base + g.low[k] < ID_LIMIT
    ensures GroupOf(g.base + g.low[k]) == g.base
  {
  }

  method AdvanceBlock(c: Cursor) returns (c1: Cursor, r: nat)
    requires Valid(c) && c.Block?
    ensures Advanced(c, c1, r)
  {
    if c.primed {
      c1, r := c.(primed := false), c.current;
      assert Ahead(c1) == Ahead(c);
      return;
    }
    c1 := c;
    if c1.p >= |c1.group.low| {
      if c1.next >= |c1.groups| {
        assert Ahead(c) == [];
        return Dead, 0;
      }
      NextGroupAhead(c1);
      c1 := NextGroup(c1);
    }
    assert Ahead(c1) == Ahead(c);
    ReadPostingAhead(c1);
    c1 := ReadPosting(c1);
    r := c1.current;
    assert forall x: nat :: x in Ahead(c) <==> x == r || x in Ahead(c1);
  }

  method AdvanceBlockTo(c: Cursor, id: nat) returns (c1: Cursor, r: nat)
    requires Valid(c) && c.Block? && id < ID_LIMIT
    ensures id <= Cur(c) ==> c1 == c && r == Cur(c)
    ensures id > Cur(c) ==> AdvancedTo(c, id, c1, r)
    ensures Sharp(c, id, c1)
  {
    if id <= c.current { return c, c.current; }
    hide Ahead, Beyond, ValidGroup, BasesIncrease, GroupOf, Suffix;
    var gid := GroupOf(id);
    c1 := c;
    SuffixWhole(Ahead(c), id);
    while c1.group.base < gid
      invariant Scanning(c1) && c1.primed == c.primed && c1.current == c.current
      invariant Suffix(Ahead(c), Ahead(c1), id) && c1.group.base >= c.group.base
      invariant c1 == c || c1.p == 0
      decreases |c1.groups| - c1.next
    {
      if c1.next >= |c1.groups| {
        GroupBelow(c1, id);
        NothingFrom(c, c1, id);
        return Dead, 0;
      }
      NextGroupAhead(c1);
      GroupDropped(c, c1, id);
      c1 := NextGroup(c1);
    }
    c1, r := ReadFrom(c, c1, id);
  }

  lemma SuffixWhole(a: seq<nat>, id: nat)
    ensures Suffix(a, a, id)
  {
  }

  // Nothing from `id` on remains.
  lemma NothingFrom(c: Cursor, c1: Cursor, id: nat)
    requires c.Block? && c.p <= |c.group.low| && c.next <= |c.groups|
    requires c1.Block? && c1.p <= |c1.group.low| && c1.next <= |c1.groups|
    requires Suffix(Ahead(c), Ahead(c1), id) && forall x | x in Ahead(c1) :: x < id
    ensures AdvancedTo(c, id, Dead, 0)
  {
    SuffixKeeps(Ahead(c), Ahead(c1), id);
  }

  // `b` is what remains of `a` after dropping ids below `id`.
  ghost predicate Suffix(a: seq<nat>, b: seq<nat>, id: nat) {
    |b| <= |a| && b == a[|a| - |b|..] && forall k | 0 <= k < |a| - |b| :: a[k] < id
  }

  // Dropping the rest of a group whose number is below that of `id`.
  lemma GroupDropped(c: Cursor, c1: Cursor, id: nat)
    requires id < ID_LIMIT && c.Block? && c.p <= |c.group.low| && c.next <= |c.groups|
    requires Scanning(c1) && c1.next < |c1.groups| && c1.group.base < GroupOf(id)
    requires Ahead(c1) == Ids(c1.group)[c1.p..] + Ahead(NextGroup(c1)) && Suffix(Ahead(c), Ahead(c1), id)
    ensures Suffix(Ahead(c), Ahead(NextGroup(c1)), id)
  {
    var a, b, d := Ahead(c), Ahead(c1), Ahead(NextGroup(c1));
    var n := |a| - |b|;
    forall k | 0 <= k < |a| - |d|
      ensures a[k] < id
    {
      if k >= n {
        assert a[k] == b[k - n] == Ids(c1.group)[c1.p + (k - n)];
      }
    }
  }

  lemma GroupBelow(c: Cursor, id: nat)
    requires Scanning(c) && id < ID_LIMIT && c.next == |c.groups| && c.group.base < GroupOf(id)
    ensures forall x | x in Ahead(c) :: x < id
  {
    assert Ahead(c) == Ids(c.group)[c.p..];
  }

  lemma SuffixKeeps(a: seq<nat>, b: seq<nat>, id: nat)
    requires Suffix(a, b, id)
    ensures forall x | x in b :: x in a
    ensures forall x | x in a && x >= id :: x in b
  {
    var n := |a| - |b|;
    forall x | x in a && x >= id
      ensures x in b
    {
      var k :| 0 <= k < |a| && a[k] == x;
      assert b[k - n] == x;
    }
  }

  lemma SkipPosting(c0: Cursor, c: Cursor, id: nat)
    requires c0.Block? && c0.p <= |c0.group.low| && c0.next <= |c0.groups|
    requires Scanning(c) && id < ID_LIMIT && c.group.base == GroupOf(id) && Suffix(Ahead(c0), Ahead(c), id)
    requires c.p < |c.group.low| && c.group.low[c.p] < id % GROUP_SIZE
    ensures Scanning(c.(p := c.p + 1)) && Suffix(Ahead(c0), Ahead(c.(p := c.p + 1)), id)
  {
    var c1 := c.(p := c.p + 1);
    var first := Ids(c.group)[c.p];
    assert Ids(c.group)[c.p..] == [first] + Ids(c.group)[c.p + 1..];
    assert Ahead(c) == [first] + Ahead(c1);
    assert Ahead(c)[1..] == Ahead(c1);
    BeyondDrops(c.current, Ahead(c), 1);
    assert first == c.group.base + c.group.low[c.p] < id;
  }

  lemma FirstNotBelow(c: Cursor, id: nat)
    requires Scanning(c) && c.p < |c.group.low| && id < ID_LIMIT
    requires c.group.base > GroupOf(id) || (c.group.base == GroupOf(id) && c.group.low[c.p] >= id % GROUP_SIZE)
    ensures ReadPosting(c).current >= id
  {
  }

  // The scan inside the group of `id`, and the next group when that group has no more.
  method ReadFrom(ghost c0: Cursor, c: Cursor, id: nat) returns (c1: Cursor, r: nat)
    requires Valid(c0) && c0.Block? && c0.current < id < ID_LIMIT
    requires Scanning(c) && c.primed == c0.primed && c.current == c0.current
    requires Suffix(Ahead(c0), Ahead(c), id) && c.group.base >= GroupOf(id)
    requires c.p == |c.group.low| ==> c.group.base == GroupOf(id)
    ensures AdvancedTo(c0, id, c1, r) && Sharp(c0, id, c1)
  {
    hide Ahead, Beyond, ValidGroup, BasesIncrease, GroupOf, Suffix, AdvancedTo;
    c1 := c;
    if c1.group.base == GroupOf(id) {
      var low := id % GROUP_SIZE;
      while c1.p < |c1.group.low| && c1.group.low[c1.p] < low
        invariant c1.Block? && c1.p <= |c1.group.low| && c1 == c.(p := c1.p) && Scanning(c1)
        invariant Suffix(Ahead(c0), Ahead(c1), id)
      {
        SkipPosting(c0, c1, id);
        c1 := c1.(p := c1.p + 1);
      }
    }
    if c1.p >= |c1.group.low| {
      if c1.next >= |c1.groups| {
        NothingAhead(c1);
        NothingFrom(c0, c1, id);
        return Dead, 0;
      }
      NextGroupAhead(c1);
      c1 := NextGroup(c1);
    }
    FirstNotBelow(c1, id);
    LandsOn(c0, c1, id);
    c1 := ReadPosting(c1);
    r := c1.current;
  }

  lemma NothingAhead(c: Cursor)
    requires c.Block? && c.p == |c.group.low| && c.next == |c.groups|
    ensures Ahead(c) == []
  {
  }

  lemma LandsOn(c0: Cursor, c: Cursor, id: nat)
    requires Valid(c0) && c0.Block? && Scanning(c) && c.primed == c0.primed && c.p < |c.group.low|
    requires Suffix(Ahead(c0), Ahead(c), id)
    ensures AdvancedTo(c0, id, ReadPosting(c), ReadPosting(c).current)
  {
    ReadPostingAhead(c);
    SuffixKeeps(Ahead(c0), Ahead(c), id);
    var c1 := ReadPosting(c);
    forall x: nat
      ensures x in Ahead(c) <==> Reachable(c1, x)
    {
      assert x in Ahead(c) <==> x == c1.current || x in Ahead(c1);
    }
    forall x: nat | InRest(c0, x) && x >= id
      ensures Reachable(c1, x)
    {
      assert x in Ahead(c);
    }
  }

  // ---------- AND cursors ----------

  // Every child can still reach x.
  ghost predicate AllReach(cs: seq<Cursor>, x: nat) {
    forall j | 0 <= j < |cs| :: Reachable(cs[j], x)
  }

  ghost predicate AllValid(cs: seq<Cursor>) {
    forall k | k in cs :: Valid(k)
  }

  // The round starts by moving a live child on.
  ghost predicate Leaves(cs: seq<Cursor>, first: nat, candidate: nat) {
    first < |cs| && candidate > Cur(cs[first]) && !cs[first].Dead?
  }

  // The round that brings all children to one id, from child `first` and candidate `candidate` on. Nothing
  // that every child can reach, from `floor` on, is lost.
  method Align(cs0: seq<Cursor>, first: nat, candidate: nat, ghost floor: nat) returns (cs: seq<Cursor>, id: nat)
    requires AllValid(cs0) && first <= |cs0| && candidate < ID_LIMIT
    requires candidate != 0 ==> forall j | 0 <= j < first :: Cur(cs0[j]) == candidate
    requires forall x: nat | x >= floor && AllReach(cs0, x) :: 0 < candidate <= x
    ensures AllValid(cs) && |cs| == |cs0| && Heights(cs) <= Heights(cs0) && LeftAll(cs) <= LeftAll(cs0) && id < ID_LIMIT
    ensures forall j, x: nat | 0 <= j < |cs| && Reachable(cs[j], x) :: Reachable(cs0[j], x)
    ensures forall x: nat | x >= floor && AllReach(cs0, x) :: id != 0 && AllReach(cs, x) && x >= id
    ensures id != 0 ==> candidate != 0 && forall j | 0 <= j < |cs| :: Cur(cs[j]) == id
    ensures forall j | 0 <= j < |cs| :: cs[j] == cs0[j] || cs[j].Dead? || (UnderWay(cs0[j]) ==> UnderWay(cs[j]))
    ensures (forall k | k in cs0 :: NoOr(k)) ==> (forall k | k in cs :: NoOr(k)) && (id != 0 ==> id >= candidate)
    ensures Leaves(cs0, first, candidate) ==>
      LeftAll(cs) < LeftAll(cs0) && forall x: nat | Reachable(cs[first], x) :: InRest(cs0[first], x)
    decreases Heights(cs0), 3
  {
    hide Valid, Reachable, InRest, Pending, UnderWay, NoOr, Left, Height, Heights, LeftAll, AllReach;
    cs, id := cs0, candidate;
    var i: nat := first;
    while id != 0 && i < |cs|
      invariant i <= |cs| == |cs0| && AllValid(cs) && Heights(cs) <= Heights(cs0) && LeftAll(cs) <= LeftAll(cs0)
      invariant id < ID_LIMIT && (candidate == 0 ==> id == 0)
      invariant forall j, x: nat | 0 <= j < |cs| && Reachable(cs[j], x) :: Reachable(cs0[j], x)
      invariant forall x: nat | x >= floor && AllReach(cs0, x) :: 0 < id <= x && AllReach(cs, x)
      invariant id != 0 ==> forall j | 0 <= j < i :: Cur(cs[j]) == id
      invariant forall j | 0 <= j < |cs| :: cs[j] == cs0[j] || cs[j].Dead? || (UnderWay(cs0[j]) ==> UnderWay(cs[j]))
      invariant (forall k | k in cs0 :: NoOr(k)) ==> (forall k | k in cs :: NoOr(k)) && (id != 0 ==> id >= candidate)
      invariant Leaves(cs0, first, candidate) ==>
        (cs == cs0 && id == candidate && i == first) ||
        (LeftAll(cs) < LeftAll(cs0) && forall x: nat | Reachable(cs[first], x) :: InRest(cs0[first], x))
      decreases LeftAll(cs), if id == 0 then 0 else ID_LIMIT - id, |cs| - i
    {
      HeightOfMember(cs, i);
      var c, id2 := AdvanceTo(cs[i], id);
      AlignStep(cs0, cs, i, id, floor, c, id2);
      UpdateMeasures(cs, i, c);
      assert cs[i := c][i] == c && forall j | 0 <= j < |cs| && j != i :: cs[i := c][j] == cs[j];
      cs := cs[i := c];
      if id2 == id {
        i := i + 1;
      } else {
        i, id := 0, id2;
      }
    }
  }

  // One child's move inside a round.
  lemma AlignStep(cs0: seq<Cursor>, cs: seq<Cursor>, i: nat, id: nat, floor: nat, c: Cursor, id2: nat)
    requires i < |cs| == |cs0| && AllValid(cs) && 0 < id < ID_LIMIT
    requires forall j, x: nat | 0 <= j < |cs| && Reachable(cs[j], x) :: Reachable(cs0[j], x)
    requires forall x: nat | x >= floor && AllReach(cs0, x) :: 0 < id <= x && AllReach(cs, x)
    requires if id <= Cur(cs[i]) then c == cs[i] && id2 == Cur(cs[i]) else AdvancedTo(cs[i], id, c, id2)
    ensures AllValid(cs[i := c]) && id2 < ID_LIMIT && Cur(c) == id2
    ensures forall j, x: nat | 0 <= j < |cs| && Reachable(cs[i := c][j], x) :: Reachable(cs0[j], x)
    ensures forall x: nat | x >= floor && AllReach(cs0, x) :: 0 < id2 <= x && AllReach(cs[i := c], x)
    ensures (cs[i].Dead? ==> c.Dead?) && forall x: nat | Reachable(c, x) :: Reachable(cs[i], x)
    ensures LeftAll(cs[i := c]) < LeftAll(cs) || (LeftAll(cs[i := c]) == LeftAll(cs) && (id2 == 0 || id2 >= id))
  {
    assert Valid(cs[i]) && Valid(c);
    CurBelow(c);
    UpdateMeasures(cs, i, c);
    if cs[i].Dead? && id2 != 0 {
      assert Reachable(c, id2);
    }
    forall x: nat | x >= floor && AllReach(cs0, x)
      ensures 0 < id2 <= x && AllReach(cs[i := c], x)
    {
      assert Reachable(cs[i], x);
      assert Reachable(c, x);
      ReachableBelow(c, x);
    }
  }

  // Moving a cursor on, to the next match or towards an id.
  method Advance(c: Cursor) returns (c1: Cursor, r: nat)
    requires Valid(c)
    ensures Advanced(c, c1, r)
    decreases Height(c), 2
  {
    match c
    case Dead => c1, r := Dead, 0;
    case Block(_, _, _, _, _, _) => c1, r := AdvanceBlock(c);
    case And(children, current) => c1, r := AdvanceAnd(c);
    case Or(_, _, _, _, _) => c1, r := AdvanceOr(c);
  }

  method AdvanceTo(c: Cursor, id: nat) returns (c1: Cursor, r: nat)
    requires Valid(c) && 0 < id < ID_LIMIT
    ensures if id <= Cur(c) then c1 == c && r == Cur(c) else AdvancedTo(c, id, c1, r)
    ensures Sharp(c, id, c1)
    decreases Height(c), 2
  {
    match c
    case Dead => c1, r := Dead, 0;
    case Block(_, _, _, _, _, _) => c1, r := AdvanceBlockTo(c, id);
    case And(children, current) => c1, r := AdvanceAndTo(c, id);
    case Or(_, _, _, _, _) => c1, r := AdvanceOrTo(c, id);
  }

  // Fresh cursors hand out all that they can reach.
  lemma FreshPending(c: Cursor, x: nat)
    requires Valid(c) && Fresh(c)
    ensures Pending(c, x) <==> Reachable(c, x)
  {
  }

  // A live AND cursor can reach what all its children can.
  lemma AndReaches(c: Cursor, x: nat)
    requires Valid(c) && c.And? && c.current != 0
    ensures Reachable(c, x) <==> AllReach(c.children, x)
  {
    var cs := c.children;
    assert forall j | 0 <= j < |cs| :: cs[j] in cs;
    if AllReach(cs, x) && x != c.current {
      forall j | 0 <= j < |cs|
        ensures InRest(cs[j], x)
      {
        assert Reachable(cs[j], x);
      }
    }
  }

  // What it hands out: what its first child hands out and the others can reach.
  lemma AndPending(c: Cursor, x: nat)
    requires Valid(c) && c.And?
    ensures Pending(c, x) <==> Pending(c.children[0], x) && forall j | 1 <= j < |c.children| :: Reachable(c.children[j], x)
  {
    var cs := c.children;
    assert forall j | 0 <= j < |cs| :: cs[j] in cs;
    if c.current == 0 {
      FreshPending(cs[0], x);
    } else if Pending(cs[0], x) && forall j | 1 <= j < |cs| :: Reachable(cs[j], x) {
      if InRest(cs[0], x) {
        RestBeyond(cs[0], x);
        forall j | 0 <= j < |cs|
          ensures InRest(cs[j], x)
        {
          assert j > 0 ==> Reachable(cs[j], x);
        }
      }
    }
  }

  method AdvanceAnd(c: Cursor) returns (c1: Cursor, r: nat)
    requires Valid(c) && c.And?
    ensures Advanced(c, c1, r)
    decreases Height(c), 1
  {
    hide Valid, Pending, Reachable, InRest;
    AndParts(c);
    HeightOfMember(c.children, 0);
    var first, id := Advance(c.children[0]);
    UpdateMeasures(c.children, 0, first);
    var cs0 := c.children[0 := first];
    AndFirst(c, first, id, cs0);
    var cs;
    cs, id := Align(cs0, 1, id, 0);
    if id == 0 {
      forall x: nat
        ensures !Pending(c, x) && !Reachable(Dead, x)
      {
        AndFirstPending(c, first, cs0, x);
        DeadReaches(x);
      }
      DeadValid();
      return Dead, 0;
    }
    c1, r := And(cs, id), id;
    AndAdvanced(c, first, cs0, cs, id);
  }

  lemma DeadReaches(x: nat)
    ensures !Reachable(Dead, x)
  {
  }

  lemma DeadValid()
    ensures Valid(Dead) && Height(Dead) == 0
  {
  }

  lemma AndParts(c: Cursor)
    requires Valid(c) && c.And?
    ensures c.children != [] && AllValid(c.children)
    ensures c.current != 0 ==> forall k | k in c.children :: !k.Dead? && Cur(k) == c.current
  {
  }

  // The children once the first one has moved.
  ghost predicate FirstMoved(c: Cursor, first: Cursor, cs0: seq<Cursor>) {
    c.And? && c.children != [] && cs0 == c.children[0 := first]
  }

  lemma AndFirst(c: Cursor, first: Cursor, id: nat, cs0: seq<Cursor>)
    requires Valid(c) && FirstMoved(c, first, cs0) && Advanced(c.children[0], first, id)
    ensures AllValid(cs0) && id < ID_LIMIT && Cur(cs0[0]) == id && |cs0| == |c.children|
    ensures forall x: nat | AllReach(cs0, x) :: 0 < id <= x
  {
    CurBelow(first);
    forall x: nat | AllReach(cs0, x)
      ensures 0 < id <= x
    {
      assert Reachable(cs0[0], x);
      ReachableBelow(first, x);
      if id == 0 { DeadReaches(x); }
    }
  }

  lemma AndFirstPending(c: Cursor, first: Cursor, cs0: seq<Cursor>, x: nat)
    requires Valid(c) && FirstMoved(c, first, cs0) && (Reachable(first, x) <==> Pending(c.children[0], x))
    ensures Pending(c, x) <==> AllReach(cs0, x)
  {
    hide Pending, Reachable, Valid;
    AndPending(c, x);
    assert cs0[0] == first && forall j | 1 <= j < |cs0| :: cs0[j] == c.children[j];
  }

  lemma AndAdvanced(c: Cursor, first: Cursor, cs0: seq<Cursor>, cs: seq<Cursor>, id: nat)
    requires Valid(c) && FirstMoved(c, first, cs0) && Advanced(c.children[0], first, Cur(first)) && 0 < id < ID_LIMIT
    requires AllValid(cs) && |cs| == |cs0| && Heights(cs) <= Heights(cs0) && LeftAll(cs) <= LeftAll(cs0) && !first.Dead?
    requires forall j | 0 <= j < |cs| :: Cur(cs[j]) == id
    requires forall j, x: nat | 0 <= j < |cs| && Reachable(cs[j], x) :: Reachable(cs0[j], x)
    requires forall x: nat | AllReach(cs0, x) :: AllReach(cs, x)
    requires UnderWay(first) ==> UnderWay(cs[0])
    ensures Advanced(c, And(cs, id), id)
  {
    var c1 := And(cs, id);
    AndMeasures(c, first, cs0, cs, id);
    AndValid(cs, id);
    forall x: nat
      ensures Reachable(c1, x) <==> Pending(c, x)
    {
      hide Pending, InRest, Valid, UnderWay, Height, Left, LeftAll, Heights;
      assert AllReach(cs, x) ==> AllReach(cs0, x) by { hide Reachable; }
      AndReaches(c1, x);
      AndFirstPending(c, first, cs0, x);
    }
  }

  lemma AndMeasures(c: Cursor, first: Cursor, cs0: seq<Cursor>, cs: seq<Cursor>, id: nat)
    requires Valid(c) && FirstMoved(c, first, cs0) && Advanced(c.children[0], first, Cur(first)) && id > 0 && cs != []
    requires Heights(cs) <= Heights(cs0) && LeftAll(cs) <= LeftAll(cs0) && !first.Dead?
    ensures Height(And(cs, id)) <= Height(c) && Left(And(cs, id)) < Left(c)
  {
    hide Reachable, Pending;
    UpdateMeasures(c.children, 0, first);
    if c.children[0].Dead? { DeadStays(c.children[0], first); }
  }

  lemma DeadStays(c: Cursor, c1: Cursor)
    requires Advanced(c, c1, Cur(c1)) && c.Dead?
    ensures c1.Dead?
  {
    assert Reachable(c1, Cur(c1)) ==> Pending(c, Cur(c1));
  }

  lemma AndValid(cs: seq<Cursor>, id: nat)
    requires cs != [] && AllValid(cs) && 0 < id < ID_LIMIT && forall j | 0 <= j < |cs| :: Cur(cs[j]) == id
    ensures Valid(And(cs, id))
  {
  }

  method AdvanceAndTo(c: Cursor, id0: nat) returns (c1: Cursor, r: nat)
    requires Valid(c) && c.And? && 0 < id0 < ID_LIMIT
    ensures if id0 <= Cur(c) then c1 == c && r == Cur(c) else AdvancedTo(c, id0, c1, r)
    ensures Sharp(c, id0, c1)
    decreases Height(c), 1
  {
    hide Valid, Pending, Reachable, InRest;
    if id0 <= c.current { return c, c.current; }
    AndParts(c);
    var cs, id := Align(c.children, 0, id0, id0);
    if id == 0 {
      forall x: nat
        ensures !(InRest(c, x) && x >= id0) && !Reachable(Dead, x)
      {
        if InRest(c, x) { AndRestReaches(c, x); }
        DeadReaches(x);
      }
      DeadValid();
      return Dead, 0;
    }
    c1, r := And(cs, id), id;
    AndAdvancedTo(c, id0, cs, id);
  }

  lemma AndRestReaches(c: Cursor, x: nat)
    requires Valid(c) && c.And? && InRest(c, x)
    ensures AllReach(c.children, x)
  {
  }

  lemma AndAdvancedTo(c: Cursor, id0: nat, cs: seq<Cursor>, id: nat)
    requires Valid(c) && c.And? && c.current < id0 && 0 < id < ID_LIMIT
    requires AllValid(cs) && |cs| == |c.children| && Heights(cs) <= Heights(c.children) && LeftAll(cs) <= LeftAll(c.children)
    requires forall j | 0 <= j < |cs| :: Cur(cs[j]) == id
    requires forall j, x: nat | 0 <= j < |cs| && Reachable(cs[j], x) :: Reachable(c.children[j], x)
    requires forall x: nat | x >= id0 && AllReach(c.children, x) :: AllReach(cs, x)
    requires UnderWay(c.children[0]) ==> UnderWay(cs[0])
    requires Leaves(c.children, 0, id0) ==>
      LeftAll(cs) < LeftAll(c.children) && forall x: nat | Reachable(cs[0], x) :: InRest(c.children[0], x)
    ensures AdvancedTo(c, id0, And(cs, id), id)
  {
    hide Pending;
    var c1 := And(cs, id);
    assert forall j | 0 <= j < |cs| :: c.children[j] in c.children;
    assert forall k | k in cs :: !k.Dead? && Cur(k) == id;
    forall x: nat | Reachable(c1, x)
      ensures InRest(c, x)
    {
      AndReaches(c1, x);
      forall j | 0 <= j < |cs|
        ensures Reachable(c.children[j], x)
      {
        assert Reachable(cs[j], x);
      }
      if c.current != 0 {
        assert InRest(c.children[0], x);
        RestBeyond(c.children[0], x);
      }
    }
    forall x: nat | InRest(c, x) && x >= id0
      ensures Reachable(c1, x)
    {
      AndRestReaches(c, x);
      AndReaches(c1, x);
    }
  }

  // ---------- OR cursors ----------

  // One child's move: by advance when `id` is 0, else by advance_to.
  ghost predicate Moved(c: Cursor, id: nat, c1: Cursor) {
    if id == 0 then Advanced(c, c1, Cur(c1)) else AdvancedTo(c, id, c1, Cur(c1)) && Sharp(c, id, c1)
  }

  // Children may be moved on: all of them by advance, those that stand before `id` by advance_to.
  ghost predicate MayMove(c: Cursor, id: nat) {
    Valid(c) && id < ID_LIMIT && (id != 0 ==> UnderWay(c) && Cur(c) < id)
  }

  // What the loop over the active children does: each one in `list` has moved, the live ones are in the heap.
  ghost predicate AllMoved(cs0: seq<Cursor>, list: seq<nat>, heap0: seq<nat>, id: nat, cs: seq<Cursor>, heap: seq<nat>) {
    && |cs| == |cs0| && Waits(cs, heap)
    && (forall e: nat | e < |cs| && e !in list :: cs[e] == cs0[e])
    && (forall e | e in list :: e < |cs| && Moved(cs0[e], id, cs[e]))
    && (forall e: nat :: MinHeap.InHeap(heap, e) <==> MinHeap.InHeap(heap0, e) || (e in list && e < |cs| && !cs[e].Dead?))
  }

  method MoveAll(cs0: seq<Cursor>, list: seq<nat>, heap0: seq<nat>, id: nat) returns (cs: seq<Cursor>, heap: seq<nat>)
    requires AllValid(cs0) && Waits(cs0, heap0) && Apart(cs0, list, heap0)
    requires forall e | e in list :: e < |cs0| && MayMove(cs0[e], id)
    ensures AllMoved(cs0, list, heap0, id, cs, heap) && AllValid(cs)
    ensures Heights(cs) <= Heights(cs0) && LeftAll(cs) <= LeftAll(cs0)
    ensures list != [] ==> list[0] < |cs0| && (!cs0[list[0]].Dead? ==> LeftAll(cs) < LeftAll(cs0))
    decreases Heights(cs0), 4
  {
    hide AllMoved, Waits, Apart, MayMove, UnderWay, Valid;
    NoneMoved(cs0, heap0, id);
    cs, heap := cs0, heap0;
    var i := 0;
    while i < |list|
      invariant i <= |list|
      invariant AllMoved(cs0, list[..i], heap0, id, cs, heap) && AllValid(cs) && |cs| == |cs0|
      invariant Heights(cs) <= Heights(cs0) && LeftAll(cs) <= LeftAll(cs0)
      invariant i > 0 ==> list[0] < |cs0| && (!cs0[list[0]].Dead? ==> LeftAll(cs) < LeftAll(cs0))
    {
      cs, heap := MoveOne(cs0, list, i, heap0, id, cs, heap);
      i := i + 1;
    }
    assert list[..i] == list;
  }

  lemma NoneMoved(cs0: seq<Cursor>, heap0: seq<nat>, id: nat)
    requires Waits(cs0, heap0)
    ensures AllMoved(cs0, [], heap0, id, cs0, heap0)
  {
  }

  method MoveOne(ghost cs0: seq<Cursor>, list: seq<nat>, i: nat, ghost heap0: seq<nat>, id: nat, cs: seq<Cursor>, heap: seq<nat>)
    returns (cs1: seq<Cursor>, heap1: seq<nat>)
    requires i < |list| && AllMoved(cs0, list[..i], heap0, id, cs, heap) && Apart(cs0, list, heap0) && AllValid(cs)
    requires forall e | e in list :: e < |cs0| && MayMove(cs0[e], id)
    ensures AllMoved(cs0, list[..i + 1], heap0, id, cs1, heap1) && AllValid(cs1) && |cs1| == |cs|
    ensures Heights(cs1) <= Heights(cs) && LeftAll(cs1) <= LeftAll(cs)
    ensures list[i] < |cs0| && (!cs0[list[i]].Dead? ==> LeftAll(cs1) < LeftAll(cs))
    decreases Heights(cs), 3
  {
    hide AllMoved, Waits, Apart, Moved, Advanced, AdvancedTo, Sharp, MayMove, Valid, UnderWay, Left, Height, Heights, LeftAll, MinHeap.InHeap;
    var e := list[i];
    NotYetMoved(cs0, list, i, heap0, id, cs, heap);
    HeightOfMember(cs, e);
    var c1, r;
    if id == 0 {
      c1, r := Advance(cs[e]);
    } else {
      c1, r := AdvanceTo(cs[e], id);
    }
    IsMoved(cs[e], id, c1, r);
    UpdateMeasures(cs, e, c1);
    KeysKept(cs, heap, e, c1);
    cs1, heap1 := cs[e := c1], heap;
    if r != 0 {
      heap1 := MinHeap.Push(heap, Currents(cs1), e);
    }
    OneMoved(cs0, list, i, heap0, id, cs, heap, c1, heap1);
  }

  lemma NotYetMoved(cs0: seq<Cursor>, list: seq<nat>, i: nat, heap0: seq<nat>, id: nat, cs: seq<Cursor>, heap: seq<nat>)
    requires i < |list| && AllMoved(cs0, list[..i], heap0, id, cs, heap) && Apart(cs0, list, heap0)
    requires forall e | e in list :: e < |cs0| && MayMove(cs0[e], id)
    ensures list[i] < |cs| && |cs| == |cs0| && cs[list[i]] == cs0[list[i]] && MayMove(cs[list[i]], id) && Valid(cs[list[i]])
    ensures !MinHeap.InHeap(heap, list[i]) && Waits(cs, heap)
  {
    assert list[i] !in list[..i];
  }

  lemma IsMoved(c: Cursor, id: nat, c1: Cursor, r: nat)
    requires MayMove(c, id)
    requires if id == 0 then Advanced(c, c1, r) else (id > Cur(c) ==> AdvancedTo(c, id, c1, r)) && Sharp(c, id, c1)
    ensures Moved(c, id, c1) && Valid(c1) && Height(c1) <= Height(c) && Left(c1) <= Left(c) && (r == 0 <==> c1.Dead?)
    ensures !c.Dead? ==> Left(c1) < Left(c)
    ensures !c1.Dead? ==> UnderWay(c1)
  {
    if id == 0 && c.Dead? { DeadStays(c, c1); }
  }

  lemma KeysKept(cs: seq<Cursor>, heap: seq<nat>, e: nat, c1: Cursor)
    requires Waits(cs, heap) && !MinHeap.InHeap(heap, e) && e < |cs|
    ensures Waits(cs[e := c1], heap) && MinHeap.IsHeap(heap, Currents(cs[e := c1]))
  {
    MinHeap.OtherKeys(heap, Currents(cs), Currents(cs[e := c1]));
  }

  lemma OneMoved(cs0: seq<Cursor>, list: seq<nat>, i: nat, heap0: seq<nat>, id: nat, cs: seq<Cursor>, heap: seq<nat>, c1: Cursor, heap1: seq<nat>)
    requires i < |list| && AllMoved(cs0, list[..i], heap0, id, cs, heap) && Apart(cs0, list, heap0)
    requires list[i] < |cs| == |cs0|
    requires Moved(cs0[list[i]], id, c1) && (!c1.Dead? ==> UnderWay(c1)) && Waits(cs[list[i] := c1], heap)
    requires !MinHeap.InHeap(heap, list[i])
    requires c1.Dead? ==> heap1 == heap
    requires !c1.Dead? ==> |heap1| >= 1 && |heap| >= 1 && MinHeap.IsHeap(heap1, Currents(cs[list[i] := c1]))
    requires !c1.Dead? ==> MinHeap.Content(heap1) == MinHeap.Content(heap) + multiset{list[i]}
    ensures AllMoved(cs0, list[..i + 1], heap0, id, cs[list[i] := c1], heap1)
  {
    hide Moved, MinHeap.IsHeap, UnderWay, MinHeap.Content;
    var e := list[i];
    assert list[..i + 1] == list[..i] + [e] && e !in list[..i];
  }

  // Taking the least child and those that stand on the same id off the heap.
  method PopLeast(cs: seq<Cursor>, heap0: seq<nat>) returns (active: seq<nat>, heap: seq<nat>, current: nat)
    requires AllValid(cs) && Waits(cs, heap0) && |heap0| > 1
    ensures ValidOr(cs, active, heap, current)
    ensures forall e: nat :: MinHeap.InHeap(heap0, e) <==> e in active || MinHeap.InHeap(heap, e)
  {
    var e;
    e, heap := MinHeap.Pop(heap0, Currents(cs));
    active, current := [e], Cur(cs[e]);
    PopOne(cs, [], heap0, e, heap, 0);
    CurBelow(cs[e]);
    while |heap| > 1 && Cur(cs[heap[1]]) == current
      invariant |heap| >= 1 && active != [] && Popped(cs, active, heap, current)
      invariant forall e: nat :: MinHeap.InHeap(heap0, e) <==> e in active || MinHeap.InHeap(heap, e)
      decreases |heap|
    {
      ghost var heap1 := heap;
      e, heap := MinHeap.Pop(heap, Currents(cs));
      PopOne(cs, active, heap1, e, heap, current);
      active := active + [e];
    }
    RootBeyond(cs, active, heap, current);
  }

  // Part of the way: no child in the heap stands before the current id.
  ghost predicate Popped(cs: seq<Cursor>, active: seq<nat>, heap: seq<nat>, current: nat) {
    && Waits(cs, heap) && Apart(cs, active, heap)
    && (forall e | e in active :: e < |cs| && UnderWay(cs[e]) && Cur(cs[e]) == current)
    && (forall e: nat | MinHeap.InHeap(heap, e) :: e < |cs| && current <= Cur(cs[e]))
  }

  lemma PopOne(cs: seq<Cursor>, active: seq<nat>, heap0: seq<nat>, e: nat, heap: seq<nat>, current: nat)
    requires Popped(cs, active, heap0, current) && |heap0| > 1 && |heap| >= 1 && e < |cs|
    requires MinHeap.IsHeap(heap, Currents(cs)) && MinHeap.Content(heap0) == MinHeap.Content(heap) + multiset{e}
    requires forall x | x in MinHeap.Content(heap0) :: x < |cs| && Cur(cs[e]) <= Cur(cs[x])
    requires active == [] || current == Cur(cs[e])
    ensures Popped(cs, active + [e], heap, Cur(cs[e])) && |heap| < |heap0|
    ensures forall x: nat :: MinHeap.InHeap(heap0, x) <==> x == e || MinHeap.InHeap(heap, x)
  {
    assert |MinHeap.Content(heap0)| == |MinHeap.Content(heap)| + 1;
    assert MinHeap.InHeap(heap0, e);
  }

  lemma RootBeyond(cs: seq<Cursor>, active: seq<nat>, heap: seq<nat>, current: nat)
    requires Popped(cs, active, heap, current) && active != [] && 0 < current < ID_LIMIT && |heap| >= 1
    requires |heap| > 1 ==> heap[1] < |cs| && Cur(cs[heap[1]]) != current
    ensures ValidOr(cs, active, heap, current)
  {
    forall e: nat | MinHeap.InHeap(heap, e)
      ensures current < Cur(cs[e])
    {
      MinHeap.LeastInContent(heap, Currents(cs), e);
      assert heap[1] == heap[1..][0];
      assert MinHeap.InHeap(heap, heap[1]);
    }
  }

  // After the pops the cursor can reach what the children in the heap could.
  lemma OrReaches(cs: seq<Cursor>, heap0: seq<nat>, active: seq<nat>, heap: seq<nat>, current: nat, x: nat)
    requires AllValid(cs) && ValidOr(cs, active, heap, current)
    requires forall e: nat :: MinHeap.InHeap(heap0, e) <==> e in active || MinHeap.InHeap(heap, e)
    ensures Reachable(Or(cs, true, active, heap, current), x) <==>
      exists e: nat | e < |cs| :: MinHeap.InHeap(heap0, e) && Reachable(cs[e], x)
  {
    var c := Or(cs, true, active, heap, current);
    if x == current {
      assert active[0] in active;
      assert Reachable(cs[active[0]], x);
    } else if e: nat :| e < |cs| && MinHeap.InHeap(heap0, e) && Reachable(cs[e], x) {
      assert e in active ==> InRest(cs[e], x);
    }
    if InRest(c, x) {
      var e :| 0 <= e < |cs| && ((e in active && InRest(cs[e], x)) || (MinHeap.InHeap(heap, e) && Reachable(cs[e], x)));
      assert MinHeap.InHeap(heap0, e) && Reachable(cs[e], x);
    }
  }

  // The children of an OR cursor that its next move moves on.
  function Movers(c: Cursor): seq<nat>
    requires c.Or?
  {
    if c.started then c.active else seq(|c.children|, k => k)
  }

  lemma MoversMay(c: Cursor, id: nat)
    requires Valid(c) && c.Or? && id < ID_LIMIT && (id != 0 ==> c.started && c.current < id)
    ensures AllValid(c.children) && Waits(c.children, c.heap) && Apart(c.children, Movers(c), c.heap)
    ensures forall e | e in Movers(c) :: e < |c.children| && MayMove(c.children[e], id)
    ensures c.started ==> Movers(c) != [] && Movers(c)[0] < |c.children| && !c.children[Movers(c)[0]].Dead?
  {
    if c.started {
      assert c.active[0] in c.active;
    }
  }

  // What a move of an OR cursor gives, from what the moves of its children gave.
  lemma OrMoved(c: Cursor, id: nat, cs: seq<Cursor>, heap: seq<nat>, x: nat)
    requires Valid(c) && c.Or? && id < ID_LIMIT && (id != 0 ==> c.started && c.current < id)
    requires AllMoved(c.children, Movers(c), c.heap, id, cs, heap)
    ensures (exists e: nat | e < |cs| :: MinHeap.InHeap(heap, e) && Reachable(cs[e], x)) ==> InRest(c, x)
    ensures InRest(c, x) && x >= id ==> exists e: nat | e < |cs| :: MinHeap.InHeap(heap, e) && Reachable(cs[e], x)
  {
    MoversMay(c, id);
    if e: nat :| e < |cs| && MinHeap.InHeap(heap, e) && Reachable(cs[e], x) {
      OrMovedBack(c, id, cs, heap, x, e);
    }
    if InRest(c, x) && x >= id {
      OrMovedOn(c, id, cs, heap, x);
    }
  }

  lemma OrMovedBack(c: Cursor, id: nat, cs: seq<Cursor>, heap: seq<nat>, x: nat, e: nat)
    requires Valid(c) && c.Or? && id < ID_LIMIT && (id != 0 ==> c.started && c.current < id)
    requires AllMoved(c.children, Movers(c), c.heap, id, cs, heap)
    requires e < |cs| && MinHeap.InHeap(heap, e) && Reachable(cs[e], x)
    ensures InRest(c, x)
  {
    MoversMay(c, id);
    if e in Movers(c) {
      assert Moved(c.children[e], id, cs[e]);
    } else {
      assert cs[e] == c.children[e] && MinHeap.InHeap(c.heap, e);
    }
  }

  lemma OrMovedOn(c: Cursor, id: nat, cs: seq<Cursor>, heap: seq<nat>, x: nat)
    requires Valid(c) && c.Or? && id < ID_LIMIT && (id != 0 ==> c.started && c.current < id)
    requires AllMoved(c.children, Movers(c), c.heap, id, cs, heap) && InRest(c, x) && x >= id
    ensures exists e: nat | e < |cs| :: MinHeap.InHeap(heap, e) && Reachable(cs[e], x)
  {
    MoversMay(c, id);
    var e :| 0 <= e < |c.children| && if !c.started then Pending(c.children[e], x) else
      (e in c.active && InRest(c.children[e], x)) || (MinHeap.InHeap(c.heap, e) && Reachable(c.children[e], x));
    if e in Movers(c) {
      assert Moved(c.children[e], id, cs[e]);
      assert Reachable(cs[e], x);
      DeadReaches(x);
    } else {
      assert cs[e] == c.children[e];
    }
  }

  // A child that waits in the heap stands before `id`.
  ghost predicate Lags(c: Cursor, id: nat)
    requires c.Or?
  {
    exists e: nat | e < |c.children| :: MinHeap.InHeap(c.heap, e) && Cur(c.children[e]) < id
  }

  // With children that keep the strong promise, a waiting child that lags is the one way to fall short of `id`.
  lemma ShortIfLagging(c: Cursor, id: nat, cs: seq<Cursor>, heap0: seq<nat>, active: seq<nat>, heap: seq<nat>, current: nat)
    requires Valid(c) && c.Or? && c.started && c.current < id < ID_LIMIT && ValidOr(cs, active, heap, current)
    requires AllMoved(c.children, Movers(c), c.heap, id, cs, heap0)
    requires forall e: nat :: MinHeap.InHeap(heap0, e) <==> e in active || MinHeap.InHeap(heap, e)
    requires forall k | k in c.children :: NoOr(k)
    ensures current < id <==> Lags(c, id)
  {
    hide Moved, Valid, Waits;
    MoversMay(c, id);
    var e := active[0];
    assert e in active && MinHeap.InHeap(heap0, e) && UnderWay(cs[e]);
    if e in c.active {
      LandsFrom(c.children[e], id, cs[e]);
    } else {
      assert cs[e] == c.children[e];
    }
    if Lags(c, id) {
      var e: nat :| e < |c.children| && MinHeap.InHeap(c.heap, e) && Cur(c.children[e]) < id;
      assert cs[e] == c.children[e] && MinHeap.InHeap(heap0, e);
    }
  }

  lemma LandsFrom(c: Cursor, id: nat, c1: Cursor)
    requires Moved(c, id, c1) && NoOr(c) && UnderWay(c1) && id > 0
    ensures Cur(c1) >= id
  {
  }

  lemma NoneLags(c: Cursor, id: nat, cs: seq<Cursor>, heap0: seq<nat>)
    requires c.Or? && AllMoved(c.children, Movers(c), c.heap, id, cs, heap0) && forall e: nat :: !MinHeap.InHeap(heap0, e)
    ensures !Lags(c, id)
  {
  }

  // The shared end of both moves: the least live child decides, or nothing is left.
  method Settle(ghost c: Cursor, ghost id: nat, cs: seq<Cursor>, heap0: seq<nat>) returns (c1: Cursor, r: nat)
    requires Valid(c) && c.Or? && id < ID_LIMIT && (id != 0 ==> c.started && c.current < id)
    requires AllMoved(c.children, Movers(c), c.heap, id, cs, heap0) && AllValid(cs)
    requires Heights(cs) <= Heights(c.children) && LeftAll(cs) <= LeftAll(c.children)
    requires c.started ==> LeftAll(cs) < LeftAll(c.children)
    ensures Moved(c, id, c1) && r == Cur(c1)
    ensures !c1.Dead? ==> c1.Or? && c1.started
    ensures id > 0 && (forall k | k in c.children :: NoOr(k)) ==> (0 < r < id <==> Lags(c, id))
  {
    hide Lags, AllMoved, Valid, AllValid, Reachable, InRest, Pending, Movers, ValidOr, Waits, Apart, MinHeap.InHeap;
    DeadValid();
    SettleParts(c, id, cs, heap0);
    if |heap0| == 1 {
      c1, r := Dead, 0;
      NoneLags(c, id, cs, heap0);
      forall x: nat
        ensures !Reachable(c1, x) && !(InRest(c, x) && x >= id)
      {
        DeadReaches(x);
        OrMoved(c, id, cs, heap0, x);
      }
    } else {
      var active, heap, current := PopLeast(cs, heap0);
      c1, r := Or(cs, true, active, heap, current), current;
      OrValid(cs, active, heap, current);
      if id > 0 && forall k | k in c.children :: NoOr(k) {
        ShortIfLagging(c, id, cs, heap0, active, heap, current);
      }
      forall x: nat
        ensures Reachable(c1, x) ==> InRest(c, x)
        ensures InRest(c, x) && x >= id ==> Reachable(c1, x)
      {
        OrMoved(c, id, cs, heap0, x);
        OrReaches(cs, heap0, active, heap, current, x);
      }
    }
    OrPending(c);
  }

  lemma OrPending(c: Cursor)
    requires c.Or?
    ensures forall x: nat :: Pending(c, x) <==> InRest(c, x)
  {
  }

  lemma OrValid(cs: seq<Cursor>, active: seq<nat>, heap: seq<nat>, current: nat)
    requires AllValid(cs) && ValidOr(cs, active, heap, current)
    ensures Valid(Or(cs, true, active, heap, current)) && current > 0
  {
  }

  lemma SettleParts(c: Cursor, id: nat, cs: seq<Cursor>, heap0: seq<nat>)
    requires c.Or? && AllMoved(c.children, Movers(c), c.heap, id, cs, heap0)
    ensures |cs| == |c.children| && Waits(cs, heap0) && |heap0| >= 1
    ensures |heap0| == 1 ==> forall e: nat :: !MinHeap.InHeap(heap0, e)
  {
  }

  method AdvanceOr(c: Cursor) returns (c1: Cursor, r: nat)
    requires Valid(c) && c.Or?
    ensures Advanced(c, c1, r) && (!c1.Dead? ==> c1.Or? && c1.started)
    decreases Height(c), 0
  {
    hide AllMoved, Waits, Apart, MayMove, Valid, AllValid, Movers, Pending, Reachable, InRest;
    MoversMay(c, 0);
    var cs, heap := MoveAll(c.children, Movers(c), c.heap, 0);
    c1, r := Settle(c, 0, cs, heap);
  }

  method AdvanceOrTo(c: Cursor, id: nat) returns (c1: Cursor, r: nat)
    requires Valid(c) && c.Or? && 0 < id < ID_LIMIT
    ensures if id <= Cur(c) then c1 == c && r == Cur(c) else AdvancedTo(c, id, c1, r)
    ensures Sharp(c, id, c1)
    decreases Height(c), 1
  {
    if c.started {
      c1, r := AdvanceStartedTo(c, id);
      return;
    }
    c1, r := AdvanceOr(c);
    OrPending(c);
    if 0 < r < id {
      var c2 := c1;
      c1, r := AdvanceStartedTo(c2, id);
      TwoMoves(c, c2, id, c1, r);
    }
  }

  method AdvanceStartedTo(c: Cursor, id: nat) returns (c1: Cursor, r: nat)
    requires Valid(c) && c.Or? && c.started && 0 < id < ID_LIMIT
    ensures if id <= Cur(c) then c1 == c && r == Cur(c) else AdvancedTo(c, id, c1, r)
    ensures Sharp(c, id, c1)
    ensures id > c.current && (forall k | k in c.children :: NoOr(k)) ==> (0 < r < id <==> Lags(c, id))
    decreases Height(c), 0
  {
    hide AllMoved, Waits, Apart, MayMove, Valid, AllValid, Movers, Pending, Reachable, InRest;
    if id <= c.current { return c, c.current; }
    MoversMay(c, id);
    var cs, heap := MoveAll(c.children, Movers(c), c.heap, id);
    c1, r := Settle(c, id, cs, heap);
  }

  lemma TwoMoves(c: Cursor, c2: Cursor, id: nat, c1: Cursor, r: nat)
    requires c.Or? && Advanced(c, c2, Cur(c2)) && AdvancedTo(c2, id, c1, r) && !c2.Dead? && Cur(c2) < id
    ensures AdvancedTo(c, id, c1, r)
  {
    OrPending(c);
    assert forall x: nat | x >= id && Cur(c2) < id && Reachable(c2, x) :: InRest(c2, x);
  }
}

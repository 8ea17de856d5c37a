// Trees of AND and OR over terms: what driving their cursor hands out is the set that the tree means.
module SearchQuery {
  import opened Postings
  import opened SearchCursor
  import MinHeap

  datatype Query = Term(groups: seq<Group>) | AnyOf(parts: seq<Query>) | AllOf(parts: seq<Query>)

  // Terms hold valid postings, and an AND has at least one part.
  ghost predicate WellFormed(q: Query) {
    match q
    case Term(groups) => ValidGroups(groups)
    case AnyOf(parts) => forall p | p in parts :: WellFormed(p)
    case AllOf(parts) => parts != [] && forall p | p in parts :: WellFormed(p)
  }

  // The ids that a query stands for.
  predicate Satisfies(q: Query, x: nat) {
    match q
    case Term(groups) => x in Flat(groups)
    case AnyOf(parts) => exists i | 0 <= i < |parts| :: Satisfies(parts[i], x)
    case AllOf(parts) => forall i | 0 <= i < |parts| :: Satisfies(parts[i], x)
  }

  // The cursor as it is set up. A term cursor has read its first posting already.
  function Open(q: Query): Cursor {
    match q
    case Term(groups) =>
      if groups == [] || groups[0].low == [] then Dead
      else Block(groups, 1, groups[0], 1, groups[0].base + groups[0].low[0], true)
    case AnyOf(parts) => Or(OpenAll(parts), false, [], [0], 0)
    case AllOf(parts) => And(OpenAll(parts), 0)
  }

  function OpenAll(parts: seq<Query>): seq<Cursor> {
    seq(|parts|, i requires 0 <= i < |parts| => Open(parts[i]))
  }

  lemma TermOpens(groups: seq<Group>, x: nat)
    requires ValidGroups(groups)
    ensures Valid(Open(Term(groups))) && Fresh(Open(Term(groups)))
    ensures Reachable(Open(Term(groups)), x) <==> x in Flat(groups)
  {
    hide Increasing, BasesIncrease, GroupOf;
    if groups != [] {
      assert groups[0] in groups;
      var c := Open(Term(groups));
      FlatHead(groups);
      HeadBeyond(Flat(groups));
      GroupsOf(groups);
      assert Flat(groups)[1..] == Ahead(c);
      assert forall y: nat :: y in Flat(groups) <==> y == c.current || y in Ahead(c);
    }
  }

  lemma FlatHead(groups: seq<Group>)
    requires groups != [] && groups[0].low != []
    ensures Flat(groups) == [groups[0].base + groups[0].low[0]] + (Ids(groups[0])[1..] + Flat(groups[1..]))
  {
    var a, rest, h := Ids(groups[0]), Flat(groups[1..]), groups[0].base + groups[0].low[0];
    assert Flat(groups) == a + rest;
    hide Flat;
    assert a[0] == h;
    assert a + rest == [h] + (a[1..] + rest);
  }

  lemma HeadBeyond(s: seq<nat>)
    requires Increasing(s) && s != [] && forall x | x in s :: 1 <= x < ID_LIMIT
    ensures Beyond(s[0], s[1..]) && 1 <= s[0] < ID_LIMIT
  {
    assert forall k | 0 <= k < |s| :: s[k] in s;
  }

  lemma GroupsOf(groups: seq<Group>)
    requires groups != [] && ValidGroups(groups)
    ensures ValidGroup(groups[0]) && GroupOf(groups[0].base + groups[0].low[0]) == groups[0].base
    ensures BasesIncrease([groups[0]] + groups[1..]) && forall k | 1 <= k < |groups| :: ValidGroup(groups[k])
  {
    assert [groups[0]] + groups[1..] == groups && groups[0] in groups;
    FlatHead(groups);
    assert Flat(groups)[0] in Flat(groups);
    GroupOfMember(groups[0], 0);
  }

  lemma {:induction false} Opens(q: Query, x: nat)
    requires WellFormed(q)
    ensures Valid(Open(q)) && Fresh(Open(q)) && (Reachable(Open(q), x) <==> Satisfies(q, x))
  {
    match q
    case Term(groups) => TermOpens(groups, x);
    case AnyOf(parts) =>
      forall i | 0 <= i < |parts|
        ensures Valid(Open(parts[i])) && Fresh(Open(parts[i]))
        ensures Pending(Open(parts[i]), x) <==> Satisfies(parts[i], x)
      {
        Opens(parts[i], x);
        FreshPending(Open(parts[i]), x);
      }
      AnyOpens(parts, x);
    case AllOf(parts) =>
      forall i | 0 <= i < |parts|
        ensures Valid(Open(parts[i])) && Fresh(Open(parts[i])) && (Reachable(Open(parts[i]), x) <==> Satisfies(parts[i], x))
      {
        Opens(parts[i], x);
      }
      var cs := OpenAll(parts);
      assert forall i | 0 <= i < |parts| :: cs[i] == Open(parts[i]);
      assert InRest(Open(q), x) <==> forall i | 0 <= i < |cs| :: Reachable(cs[i], x);
  }

  lemma AnyOpens(parts: seq<Query>, x: nat)
    requires forall i | 0 <= i < |parts| :: Pending(Open(parts[i]), x) <==> Satisfies(parts[i], x)
    ensures InRest(Open(AnyOf(parts)), x) <==> Satisfies(AnyOf(parts), x)
  {
    var cs := OpenAll(parts);
    assert forall i | 0 <= i < |parts| :: cs[i] == Open(parts[i]);
    if Satisfies(AnyOf(parts), x) {
      var i :| 0 <= i < |parts| && Satisfies(parts[i], x);
      assert Pending(cs[i], x);
    }
  }

  // Driving a cursor by advance until it gives 0: every id that it may hand out, in increasing order, once.
  method Drive(c0: Cursor) returns (ids: seq<nat>)
    requires Valid(c0)
    ensures Increasing(ids)
    ensures forall x: nat :: x in ids <==> Pending(c0, x)
  {
    hide Valid, Pending, Reachable, InRest, Left;
    var c, id := Advance(c0);
    ids := [];
    while id != 0
      invariant Valid(c) && Cur(c) == id && (id == 0 <==> c.Dead?) && (id != 0 ==> UnderWay(c))
      invariant Increasing(ids) && forall x | x in ids :: x < id || id == 0
      invariant forall x: nat :: x in ids || Reachable(c, x) <==> Pending(c0, x)
      decreases Left(c)
    {
      var c1, id1 := Advance(c);
      HandsOutOnce(c, c1, id1);
      assert forall k | 0 <= k < |ids| :: ids[k] in ids;
      ids, c, id := ids + [id], c1, id1;
    }
    NothingReachable();
  }

  lemma NothingReachable()
    ensures forall x: nat :: !Reachable(Dead, x)
  {
  }

  // A cursor that does not repeat moves strictly on.
  lemma HandsOutOnce(c: Cursor, c1: Cursor, r: nat)
    requires Valid(c) && UnderWay(c) && Advanced(c, c1, r)
    ensures r == 0 || r > Cur(c)
    ensures forall x: nat :: Reachable(c, x) <==> x == Cur(c) || Reachable(c1, x)
  {
    if r != 0 {
      assert Reachable(c1, r);
      RestBeyond(c, r);
    }
  }

  // The query's own cursor hands out exactly its matches.
  method Matches(q: Query) returns (ids: seq<nat>)
    requires WellFormed(q)
    ensures Increasing(ids)
    ensures forall x: nat :: x in ids <==> Satisfies(q, x)
  {
    Opens(q, 0);
    ids := Drive(Open(q));
    forall x: nat
      ensures x in ids <==> Satisfies(q, x)
    {
      Opens(q, x);
      FreshPending(Open(q), x);
    }
  }

  lemma TailMembers(a: seq<nat>)
    requires Increasing(a) && a != []
    ensures forall x :: x in a[1..] <==> x in a && x != a[0]
  {
    forall x
      ensures x in a[1..] <==> x in a && x != a[0]
    {
      if x in a && x != a[0] {
        var k :| 0 <= k < |a| && a[k] == x;
        assert a[1..][k - 1] == x;
      }
    }
  }

  // There is one such list.
  lemma {:induction false} OneList(a: seq<nat>, b: seq<nat>)
    requires Increasing(a) && Increasing(b) && forall x :: x in a <==> x in b
    ensures a == b
  {
    assert (a == [] || a[0] in a) && (b == [] || b[0] in b);
    if a != [] {
      var j :| 0 <= j < |a| && a[j] == b[0];
      var k :| 0 <= k < |b| && b[k] == a[0];
      assert a[0] == b[0];
      TailMembers(a);
      TailMembers(b);
      OneList(a[1..], b[1..]);
    }
  }

  // After advance_to, advance hands the same id out again exactly when the cursor repeats: a term cursor that
  // was never advanced, alone or as the first part of ANDs, keeps its first hand-out.
  lemma HandsOutAgain(c: Cursor, c1: Cursor, r: nat)
    requires Valid(c) && !c.Dead? && Cur(c) > 0 && Advanced(c, c1, r)
    ensures r == Cur(c) <==> Repeats(c)
  {
    if r == Cur(c) {
      assert Reachable(c1, r) && Pending(c, r);
      if InRest(c, r) { RestBeyond(c, r); }
    }
    if Repeats(c) {
      assert Pending(c, Cur(c)) && Reachable(c1, Cur(c));
      ReachableBelow(c1, Cur(c));
      assert Reachable(c1, r) && Pending(c, r);
      if InRest(c, r) { RestBeyond(c, r); }
    }
  }

  // An OR of the ids {1, 10} and {2} that stands on 1.
  const LOW: Cursor := Block([], 0, Group(0, [1, 10]), 1, 1, false)
  const HIGH: Cursor := Block([], 0, Group(0, [2]), 1, 2, false)

  function OneTwoTen(): Cursor {
    Or([LOW, HIGH], true, [0], [0, 1], 1)
  }

  lemma LeavesAre()
    ensures Valid(LOW) && Valid(HIGH) && Ahead(LOW) == [10] && Ahead(HIGH) == []
  {
    assert Ids(Group(0, [1, 10])) == [1, 10];
    assert Ids(Group(0, [2])) == [2];
  }

  lemma HeapOfOne(heap: seq<nat>, e: nat, x: nat)
    requires heap == [0, e]
    ensures MinHeap.InHeap(heap, x) <==> x == e
    ensures MinHeap.Content(heap)[e] == 1
  {
    assert heap[1..] == [e];
  }

  lemma OneTwoTenValid()
    ensures Valid(OneTwoTen()) && Lags(OneTwoTen(), 10)
  {
    hide ValidBlock, MinHeap.InHeap, Ahead;
    LeavesAre();
    var c := OneTwoTen();
    forall e: nat
      ensures MinHeap.InHeap(c.heap, e) <==> e == 1
      ensures MinHeap.Content(c.heap)[1] == 1
    {
      HeapOfOne(c.heap, 1, e);
    }
    assert Currents(c.children) == [1, 2];
    assert ValidOr(c.children, c.active, c.heap, c.current);
  }

  lemma OneTwoTenRest(x: nat)
    requires InRest(OneTwoTen(), x)
    ensures x == 2 || x == 10
  {
    hide Ahead;
    LeavesAre();
    HeapOfOne(OneTwoTen().heap, 1, 0);
  }

  // Asked for 10 it gives 2.
  method OrFallsShort() returns (c: Cursor, r: nat)
    ensures Valid(c) && c.Or? && Cur(c) == 1 && r == 2
  {
    hide Valid, InRest, Lags;
    OneTwoTenValid();
    c := OneTwoTen();
    var c1;
    c1, r := AdvanceStartedTo(c, 10);
    assert Reachable(c1, r);
    OneTwoTenRest(r);
  }
}

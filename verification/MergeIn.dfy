// Several sorted inputs read as one, through a heap of their current records.
module MergeIn {
  import opened Records
  import opened Options
  import opened RecordsIn
  import MinHeap

  // What each input still holds, its current record first.
  type Ins = seq<seq<Record>>

  function Heads(key: Order, ins: Ins): (r: seq<int>)
    ensures |r| == |ins|
  {
    seq(|ins|, e requires 0 <= e < |ins| => if ins[e] == [] then 0 else key(ins[e][0]))
  }

  ghost predicate AllSorted(key: Order, ins: Ins) {
    forall e | 0 <= e < |ins| :: Sorted(key, ins[e])
  }

  ghost predicate AllStrict(key: Order, ins: Ins) {
    forall e | 0 <= e < |ins| :: StrictlySorted(key, ins[e])
  }

  // The heap holds inputs that are not used up, each at most once.
  ghost predicate Waits(key: Order, ins: Ins, heap: seq<nat>) {
    && MinHeap.IsHeap(heap, Heads(key, ins))
    && (forall e: nat | MinHeap.InHeap(heap, e) :: e < |ins| && ins[e] != [] && MinHeap.Content(heap)[e] == 1)
  }

  // Inputs that are not used up are in the heap or active, none in both or twice.
  ghost predicate Shares(ins: Ins, heap: seq<nat>, active: seq<nat>) {
    && (forall e | e in active :: e < |ins| && ins[e] != [] && !MinHeap.InHeap(heap, e))
    && (forall i, j | 0 <= i < j < |active| :: active[i] != active[j])
    && (forall e: nat | e < |ins| && ins[e] != [] :: e in active || MinHeap.InHeap(heap, e))
  }

  // What has not been handed out: the current records of active inputs have.
  function Left(ins: Ins, active: seq<nat>): Ins {
    seq(|ins|, e requires 0 <= e < |ins| => if e in active && ins[e] != [] then ins[e][1..] else ins[e])
  }

  ghost function Total(ins: Ins): multiset<Record> {
    if ins == [] then multiset{} else multiset(ins[0]) + Total(ins[1..])
  }

  lemma {:induction false} TotalMember(ins: Ins, x: Record)
    ensures x in Total(ins) <==> exists e | 0 <= e < |ins| :: x in ins[e]
  {
    if ins != [] {
      var rest := ins[1..];
      TotalMember(rest, x);
      if x in ins[0] {
      } else if x in Total(rest) {
        var e :| 0 <= e < |rest| && x in rest[e];
        assert x in ins[e + 1];
      } else {
        forall e | 0 <= e < |ins|
          ensures x !in ins[e]
        {
          assert e > 0 ==> ins[e] == rest[e - 1];
        }
      }
    }
  }

  lemma {:induction false} TotalUpdate(ins: Ins, e: nat, s: seq<Record>)
    requires e < |ins|
    ensures Total(ins[e := s]) + multiset(ins[e]) == Total(ins) + multiset(s)
  {
    if e == 0 {
      assert ins[e := s][1..] == ins[1..];
    } else {
      assert ins[e := s][1..] == ins[1..][e - 1 := s];
      TotalUpdate(ins[1..], e - 1, s);
      var a, b := Total(ins[1..][e - 1 := s]), Total(ins[1..]);
      assert ins[1..][e - 1] == ins[e];
      assert a + multiset(ins[e]) == b + multiset(s);
      assert multiset(ins[0]) + a + multiset(ins[e]) == multiset(ins[0]) + (a + multiset(ins[e]));
    }
  }

  lemma {:induction false} TotalAppend(ins: Ins, s: seq<Record>)
    ensures Total(ins + [s]) == Total(ins) + multiset(s)
  {
    if ins == [] {
      assert (ins + [s])[1..] == [];
    } else {
      assert (ins + [s])[1..] == ins[1..] + [s];
      TotalAppend(ins[1..], s);
    }
  }

  // ---------- active inputs go back to the heap ----------

  // Between two of them: those from i on are still active.
  ghost predicate Moving(key: Order, ins: Ins, heap: seq<nat>, active: seq<nat>, i: nat) {
    i <= |active| && AllSorted(key, ins) && Waits(key, ins, heap) && Shares(ins, heap, active[i..])
  }

  // Either past their current records, which have been handed out, or as they are.
  method MoveActiveToHeap(key: Order, ins0: Ins, heap0: seq<nat>, active: seq<nat>, advance: bool) returns (ins: Ins, heap: seq<nat>)
    requires AllSorted(key, ins0) && Waits(key, ins0, heap0) && Shares(ins0, heap0, active)
    ensures AllSorted(key, ins) && Waits(key, ins, heap) && Shares(ins, heap, [])
    ensures advance ==> ins == Left(ins0, active)
    ensures !advance ==> ins == ins0
    ensures AllStrict(key, ins0) ==> AllStrict(key, ins)
  {
    hide Waits, Shares, AllSorted, AllStrict, Left, Moving, MinHeap.IsHeap, MinHeap.InHeap, Heads;
    MovingStarts(key, ins0, heap0, active);
    ins, heap := ins0, heap0;
    var i: nat := 0;
    assert active[0..] == active;
    while i < |active|
      invariant i <= |active| && Moving(key, ins, heap, active, i)
      invariant advance ==> Left(ins, active[i..]) == Left(ins0, active)
      invariant !advance ==> ins == ins0
      invariant AllStrict(key, ins0) ==> AllStrict(key, ins)
    {
      var e := active[i];
      IsActive(key, ins, heap, active, i);
      var s := if advance then ins[e][1..] else ins[e];
      var heap1 := heap;
      KeysKept(key, ins, heap, e, s);
      if s != [] {
        heap1 := MinHeap.Push(heap, Heads(key, ins[e := s]), e);
      }
      OneMoved(key, ins, heap, active, i, s, heap1);
      if advance { LeftKept(ins, active, i); }
      assert !advance ==> ins[e := s] == ins;
      ins, heap := ins[e := s], heap1;
      i := i + 1;
    }
    assert active[i..] == [];
    MovingEnds(key, ins, heap, active);
    LeftNone(ins);
  }

  lemma LeftNone(ins: Ins)
    ensures Left(ins, []) == ins
  {
  }

  lemma MovingStarts(key: Order, ins: Ins, heap: seq<nat>, active: seq<nat>)
    requires AllSorted(key, ins) && Waits(key, ins, heap) && Shares(ins, heap, active)
    ensures Moving(key, ins, heap, active, 0)
  {
    assert active[0..] == active;
  }

  lemma MovingEnds(key: Order, ins: Ins, heap: seq<nat>, active: seq<nat>)
    requires Moving(key, ins, heap, active, |active|)
    ensures AllSorted(key, ins) && Waits(key, ins, heap) && Shares(ins, heap, [])
  {
    assert active[|active|..] == [];
  }

  lemma IsActive(key: Order, ins: Ins, heap: seq<nat>, active: seq<nat>, i: nat)
    requires Moving(key, ins, heap, active, i) && i < |active|
    ensures active[i] < |ins| && ins[active[i]] != [] && !MinHeap.InHeap(heap, active[i]) && Waits(key, ins, heap)
    ensures active[i] !in active[i + 1..]
  {
    var list := active[i..];
    assert list[0] == active[i] && active[i + 1..] == list[1..] && list[0] in list;
    assert forall j | 1 <= j < |list| :: list[j] != list[0];
  }

  lemma KeysKept(key: Order, ins: Ins, heap: seq<nat>, e: nat, s: seq<Record>)
    requires Waits(key, ins, heap) && !MinHeap.InHeap(heap, e) && e < |ins|
    ensures Waits(key, ins[e := s], heap) && MinHeap.IsHeap(heap, Heads(key, ins[e := s])) && |heap| >= 1
  {
    var ins1 := ins[e := s];
    forall x: nat | MinHeap.InHeap(heap, x)
      ensures x < |ins| && ins1[x] == ins[x] && Heads(key, ins1)[x] == Heads(key, ins)[x]
    {
      assert x != e;
    }
    MinHeap.OtherKeys(heap, Heads(key, ins), Heads(key, ins1));
  }

  lemma OneMoved(key: Order, ins: Ins, heap: seq<nat>, active: seq<nat>, i: nat, s: seq<Record>, heap1: seq<nat>)
    requires i < |active| && Moving(key, ins, heap, active, i)
    requires active[i] < |ins| && (s == ins[active[i]] || (ins[active[i]] != [] && s == ins[active[i]][1..]))
    requires Waits(key, ins[active[i] := s], heap)
    requires s == [] ==> heap1 == heap
    requires s != [] ==> |heap1| >= 1 && |heap| >= 1 && MinHeap.IsHeap(heap1, Heads(key, ins[active[i] := s]))
    requires s != [] ==> MinHeap.Content(heap1) == MinHeap.Content(heap) + multiset{active[i]}
    ensures Moving(key, ins[active[i] := s], heap1, active, i + 1)
    ensures AllStrict(key, ins) ==> AllStrict(key, ins[active[i] := s])
  {
    hide MinHeap.IsHeap, Waits, Sorted, StrictlySorted, Shares, Moving;
    IsActive(key, ins, heap, active, i);
    OneMovedWaits(key, ins[active[i] := s], heap, active[i], heap1);
    OneMovedShares(key, ins, heap, active, i, s, heap1);
    OneMovedSorted(key, ins, heap, active, i, s);
    MovingIs(key, ins[active[i] := s], heap1, active, i + 1);
  }

  lemma MovingIs(key: Order, ins: Ins, heap: seq<nat>, active: seq<nat>, i: nat)
    requires i <= |active| && AllSorted(key, ins) && Waits(key, ins, heap) && Shares(ins, heap, active[i..])
    ensures Moving(key, ins, heap, active, i)
  {
  }

  lemma OneMovedSorted(key: Order, ins: Ins, heap: seq<nat>, active: seq<nat>, i: nat, s: seq<Record>)
    requires i < |active| && Moving(key, ins, heap, active, i)
    requires active[i] < |ins| && (s == ins[active[i]] || (ins[active[i]] != [] && s == ins[active[i]][1..]))
    ensures AllSorted(key, ins[active[i] := s])
    ensures AllStrict(key, ins) ==> AllStrict(key, ins[active[i] := s])
  {
    hide Waits, Shares;
    var t := ins[active[i]];
    assert Sorted(key, t) && (AllStrict(key, ins) ==> StrictlySorted(key, t));
  }

  lemma OneMovedWaits(key: Order, ins: Ins, heap: seq<nat>, e: nat, heap1: seq<nat>)
    requires Waits(key, ins, heap) && !MinHeap.InHeap(heap, e) && e < |ins|
    requires ins[e] == [] ==> heap1 == heap
    requires ins[e] != [] ==> |heap1| >= 1 && |heap| >= 1 && MinHeap.IsHeap(heap1, Heads(key, ins))
    requires ins[e] != [] ==> MinHeap.Content(heap1) == MinHeap.Content(heap) + multiset{e}
    ensures Waits(key, ins, heap1) && |heap1| >= 1
    ensures forall x: nat :: MinHeap.InHeap(heap1, x) <==> MinHeap.InHeap(heap, x) || (x == e && ins[e] != [])
  {
    hide MinHeap.IsHeap;
    if ins[e] != [] {
      assert forall x: nat :: MinHeap.InHeap(heap1, x) <==> MinHeap.InHeap(heap, x) || x == e;
    } else {
      HeapNonEmpty(heap, Heads(key, ins));
    }
  }

  lemma HeapNonEmpty(heap: seq<nat>, keys: seq<int>)
    requires MinHeap.IsHeap(heap, keys)
    ensures |heap| >= 1
  {
  }

  lemma OneMovedShares(key: Order, ins: Ins, heap: seq<nat>, active: seq<nat>, i: nat, s: seq<Record>, heap1: seq<nat>)
    requires i < |active| && Moving(key, ins, heap, active, i) && active[i] < |ins|
    requires ins[active[i]] != []
    requires forall x: nat :: MinHeap.InHeap(heap1, x) <==> MinHeap.InHeap(heap, x) || (x == active[i] && s != [])
    ensures Shares(ins[active[i] := s], heap1, active[i + 1..])
  {
    hide AllSorted, Waits, MinHeap.InHeap;
    var e := active[i];
    var list := active[i..];
    assert list == [e] + active[i + 1..] && list[0] == e && active[i + 1..] == list[1..];
    assert forall j | 1 <= j < |list| :: list[j] != list[0];
    assert forall x | x in active[i + 1..] :: x in list && x != e;
  }

  lemma LeftKept(ins: Ins, active: seq<nat>, i: nat)
    requires i < |active| && active[i] < |ins| && ins[active[i]] != [] && active[i] !in active[i + 1..]
    ensures Left(ins[active[i] := ins[active[i]][1..]], active[i + 1..]) == Left(ins, active[i..])
  {
    assert active[i..] == [active[i]] + active[i + 1..];
  }

  // ---------- the least current record ----------

  // Active inputs stand on records of one key k, the others on keys from k on; `group` is what was handed out.
  ghost predicate Grouped(key: Order, ins: Ins, heap: seq<nat>, active: seq<nat>, group: seq<Record>, k: int) {
    && AllSorted(key, ins) && Waits(key, ins, heap) && Shares(ins, heap, active) && |group| == |active|
    && (forall j | 0 <= j < |active| :: active[j] < |ins| && ins[active[j]] != [] && group[j] == ins[active[j]][0] && key(group[j]) == k)
    && (forall e: nat | MinHeap.InHeap(heap, e) && e < |ins| && ins[e] != [] :: k <= key(ins[e][0]))
    && Total(ins) == Total(Left(ins, active)) + multiset(group)
  }

  lemma PopOne(key: Order, ins: Ins, heap0: seq<nat>, active: seq<nat>, group: seq<Record>, e: nat, heap: seq<nat>, k: int)
    requires Grouped(key, ins, heap0, active, group, k) && |heap0| > 1 && |heap| >= 1 && e < |ins| && ins[e] != []
    requires MinHeap.IsHeap(heap, Heads(key, ins)) && MinHeap.Content(heap0) == MinHeap.Content(heap) + multiset{e}
    requires forall x: nat | x in MinHeap.Content(heap0) :: x < |ins| && Heads(key, ins)[e] <= Heads(key, ins)[x]
    requires active == [] || key(ins[e][0]) == k
    ensures Grouped(key, ins, heap, active + [e], group + [ins[e][0]], key(ins[e][0])) && |heap| < |heap0|
  {
    hide MinHeap.IsHeap, AllSorted, Waits, Shares, Total, Left;
    assert |MinHeap.Content(heap0)| == |MinHeap.Content(heap)| + 1;
    PopShares(key, ins, heap0, active, e, heap);
    PopLeft(ins, active, e);
    var r := ins[e][0];
    assert multiset(group + [r]) == multiset(group) + multiset{r};
    forall x: nat | MinHeap.InHeap(heap, x) && x < |ins| && ins[x] != []
      ensures key(r) <= key(ins[x][0])
    {
      assert x in MinHeap.Content(heap0);
      assert Heads(key, ins)[e] <= Heads(key, ins)[x];
    }
  }

  lemma PopShares(key: Order, ins: Ins, heap0: seq<nat>, active: seq<nat>, e: nat, heap: seq<nat>)
    requires Waits(key, ins, heap0) && Shares(ins, heap0, active) && |heap0| >= 1 && |heap| >= 1
    requires MinHeap.IsHeap(heap, Heads(key, ins)) && MinHeap.Content(heap0) == MinHeap.Content(heap) + multiset{e}
    ensures Waits(key, ins, heap) && Shares(ins, heap, active + [e]) && e !in active
  {
    hide MinHeap.IsHeap;
    assert MinHeap.InHeap(heap0, e) && !MinHeap.InHeap(heap, e);
    assert forall x: nat :: MinHeap.InHeap(heap0, x) <==> MinHeap.InHeap(heap, x) || x == e;
  }

  lemma Balance(a: multiset<Record>, b: multiset<Record>, h: multiset<Record>, t: multiset<Record>)
    requires b + (h + t) == a + t
    ensures a == b + h
  {
    forall x: Record
      ensures a[x] == (b + h)[x]
    {
      assert (b + (h + t))[x] == (a + t)[x];
    }
  }

  lemma PopLeft(ins: Ins, active: seq<nat>, e: nat)
    requires e < |ins| && ins[e] != [] && e !in active
    ensures Total(Left(ins, active)) == Total(Left(ins, active + [e])) + multiset{ins[e][0]}
  {
    var a, b := Left(ins, active), Left(ins, active + [e]);
    forall x | 0 <= x < |ins|
      ensures b[x] == a[e := ins[e][1..]][x]
    {
      assert x in active + [e] <==> x in active || x == e;
    }
    assert b == a[e := ins[e][1..]] && a[e] == ins[e];
    hide Left;
    TotalUpdate(a, e, ins[e][1..]);
    assert ins[e] == [ins[e][0]] + ins[e][1..];
    assert multiset(ins[e]) == multiset{ins[e][0]} + multiset(ins[e][1..]);
    Balance(Total(a), Total(b), multiset{ins[e][0]}, multiset(ins[e][1..]));
  }

  // Only records beyond k wait.
  ghost predicate AllBeyond(key: Order, ins: Ins, heap: seq<nat>, k: int) {
    forall e: nat | MinHeap.InHeap(heap, e) && e < |ins| && ins[e] != [] :: k < key(ins[e][0])
  }

  // All further inputs that stand on k become active; the first one that does not is put back.
  method TakeEqual(key: Order, ins: Ins, heap0: seq<nat>, active0: seq<nat>, group0: seq<Record>, ghost k: int)
    returns (heap: seq<nat>, active: seq<nat>, group: seq<Record>)
    requires Grouped(key, ins, heap0, active0, group0, k) && group0 != []
    ensures Grouped(key, ins, heap, active, group, k) && AllBeyond(key, ins, heap, k)
    ensures group != [] && group[0] == group0[0]
  {
    hide Grouped, Waits, Shares, AllSorted, Left, Total, MinHeap.IsHeap;
    heap, active, group := heap0, active0, group0;
    GroupedParts(key, ins, heap, active, group, k);
    while |heap| > 1
      invariant Grouped(key, ins, heap, active, group, k) && MinHeap.IsHeap(heap, Heads(key, ins)) && |heap| >= 1
      invariant group != [] && group[0] == group0[0] && key(group[0]) == k
      decreases |heap|
    {
      var e, heap1 := MinHeap.Pop(heap, Heads(key, ins));
      Popped(key, ins, heap, active, group, k, e, heap1);
      if key(ins[e][0]) == key(group[0]) {
        PopOne(key, ins, heap, active, group, e, heap1, k);
        heap, active, group := heap1, active + [e], group + [ins[e][0]];
      } else {
        var heap2 := MinHeap.Push(heap1, Heads(key, ins), e);
        PutBack(key, ins, heap, active, group, k, e, heap2);
        heap := heap2;
        return;
      }
    }
    NoneBeyond(key, ins, heap, k);
  }

  lemma GroupedParts(key: Order, ins: Ins, heap: seq<nat>, active: seq<nat>, group: seq<Record>, k: int)
    requires Grouped(key, ins, heap, active, group, k)
    ensures MinHeap.IsHeap(heap, Heads(key, ins)) && |heap| >= 1
    ensures AllSorted(key, ins) && Waits(key, ins, heap) && Shares(ins, heap, active)
    ensures Total(ins) == Total(Left(ins, active)) + multiset(group)
    ensures forall x | x in group :: key(x) == k
  {
  }

  lemma Popped(key: Order, ins: Ins, heap: seq<nat>, active: seq<nat>, group: seq<Record>, k: int, e: nat, heap1: seq<nat>)
    requires Grouped(key, ins, heap, active, group, k) && |heap| >= 1 && |heap1| >= 1 && e < |ins|
    requires MinHeap.Content(heap) == MinHeap.Content(heap1) + multiset{e} && MinHeap.IsHeap(heap1, Heads(key, ins))
    ensures ins[e] != [] && k <= key(ins[e][0]) && |heap1| >= 1 && Heads(key, ins)[e] == key(ins[e][0])
    ensures forall x: nat | x in MinHeap.Content(heap) :: x < |ins|
  {
    assert MinHeap.InHeap(heap, e);
    assert forall x: nat | x in MinHeap.Content(heap) :: MinHeap.InHeap(heap, x);
  }

  lemma PutBack(key: Order, ins: Ins, heap: seq<nat>, active: seq<nat>, group: seq<Record>, k: int, e: nat, heap2: seq<nat>)
    requires Grouped(key, ins, heap, active, group, k) && |heap| >= 1 && |heap2| >= 1 && e < |ins| && ins[e] != []
    requires MinHeap.IsHeap(heap2, Heads(key, ins)) && MinHeap.Content(heap2) == MinHeap.Content(heap) && key(ins[e][0]) > k
    requires forall x: nat | x in MinHeap.Content(heap) :: x < |ins| && Heads(key, ins)[e] <= Heads(key, ins)[x]
    ensures Grouped(key, ins, heap2, active, group, k) && AllBeyond(key, ins, heap2, k)
  {
    assert forall x: nat :: MinHeap.InHeap(heap2, x) <==> MinHeap.InHeap(heap, x);
    assert forall x: nat | MinHeap.InHeap(heap, x) :: x in MinHeap.Content(heap);
  }

  lemma NoneBeyond(key: Order, ins: Ins, heap: seq<nat>, k: int)
    requires |heap| == 1
    ensures AllBeyond(key, ins, heap, k)
  {
  }

  // Nothing that is left comes before the current records; after them, if all inputs have each key once and no
  // waiting input stands on k.
  lemma LeftBeyond(key: Order, ins: Ins, heap: seq<nat>, active: seq<nat>, group: seq<Record>, k: int)
    requires Grouped(key, ins, heap, active, group, k)
    ensures forall x | x in Total(Left(ins, active)) :: k <= key(x)
    ensures AllStrict(key, ins) && AllBeyond(key, ins, heap, k) ==>
      forall x | x in Total(Left(ins, active)) :: k < key(x)
  {
    forall x | x in Total(Left(ins, active))
      ensures k <= key(x)
      ensures AllStrict(key, ins) && AllBeyond(key, ins, heap, k) ==> k < key(x)
    {
      TotalMember(Left(ins, active), x);
      var e: nat :| e < |ins| && x in Left(ins, active)[e];
      assert ins[e] != [];
      if e in active {
        var j :| 0 <= j < |active| && active[j] == e;
        assert key(ins[e][0]) == k;
        var i :| 0 <= i < |ins[e]| - 1 && ins[e][1..][i] == x;
        assert x == ins[e][i + 1];
      } else {
        var i :| 0 <= i < |ins[e]| && ins[e][i] == x;
        assert MinHeap.InHeap(heap, e) && key(ins[e][0]) <= key(x);
      }
    }
  }

  lemma WaitsHeap(key: Order, ins: Ins, heap: seq<nat>)
    requires Waits(key, ins, heap)
    ensures |heap| >= 1 && MinHeap.IsHeap(heap, Heads(key, ins))
  {
  }

  lemma NoneWait(key: Order, ins: Ins, heap: seq<nat>)
    requires Waits(key, ins, heap) && Shares(ins, heap, []) && |heap| == 1
    ensures Total(ins) == multiset{}
  {
    forall x
      ensures x !in Total(ins)
    {
      TotalMember(ins, x);
    }
  }

  lemma Added(key: Order, ins: Ins, heap: seq<nat>, records: seq<Record>)
    requires AllSorted(key, ins) && Waits(key, ins, heap) && Shares(ins, heap, []) && Sorted(key, records)
    ensures AllSorted(key, ins + [records]) && Waits(key, ins + [records], heap)
    ensures MinHeap.IsHeap(heap, Heads(key, ins + [records]))
    ensures records == [] ==> Shares(ins + [records], heap, [])
    ensures !MinHeap.InHeap(heap, |ins|)
  {
    MinHeap.OtherKeys(heap, Heads(key, ins), Heads(key, ins + [records]));
  }

  lemma AddedPushed(key: Order, ins: Ins, heap: seq<nat>, records: seq<Record>, heap1: seq<nat>)
    requires Waits(key, ins, heap) && Shares(ins, heap, []) && records != [] && Waits(key, ins + [records], heap)
    requires !MinHeap.InHeap(heap, |ins|)
    requires |heap| >= 1 && |heap1| >= 1 && MinHeap.Content(heap1) == MinHeap.Content(heap) + multiset{|ins|}
    requires MinHeap.IsHeap(heap1, Heads(key, ins + [records]))
    ensures Waits(key, ins + [records], heap1) && Shares(ins + [records], heap1, [])
  {
    hide MinHeap.IsHeap;
    assert forall x: nat :: MinHeap.InHeap(heap1, x) <==> MinHeap.InHeap(heap, x) || x == |ins|;
  }

  lemma FirstPopped(key: Order, ins: Ins, heap0: seq<nat>, e: nat, heap: seq<nat>)
    requires AllSorted(key, ins) && Waits(key, ins, heap0) && Shares(ins, heap0, []) && |heap0| > 1 && |heap| >= 1 && e < |ins|
    requires MinHeap.IsHeap(heap, Heads(key, ins)) && MinHeap.Content(heap0) == MinHeap.Content(heap) + multiset{e}
    requires forall x: nat | x in MinHeap.Content(heap0) :: x < |ins| && Heads(key, ins)[e] <= Heads(key, ins)[x]
    ensures ins[e] != [] && Grouped(key, ins, heap, [e], [ins[e][0]], key(ins[e][0]))
  {
    assert MinHeap.InHeap(heap0, e);
    LeftNone(ins);
    ghost var k := Heads(key, ins)[e];
    assert Grouped(key, ins, heap0, [], [], k) by {
      assert forall x: nat | MinHeap.InHeap(heap0, x) :: x in MinHeap.Content(heap0);
    }
    PopOne(key, ins, heap0, [], [], e, heap, k);
    assert [] + [e] == [e] && [] + [ins[e][0]] == [ins[e][0]];
  }

  // ---------- the merging input ----------

  class ExtIn {
    const key: Order
    const keepFirst: bool
    var ins: Ins
    var heap: seq<nat>
    var active: seq<nat>

    ghost predicate Valid()
      reads this
    {
      AllSorted(key, ins) && Waits(key, ins, heap) && Shares(ins, heap, active)
    }

    // The records that are still to come.
    ghost function Pending(): multiset<Record>
      reads this
    {
      Total(Left(ins, active))
    }

    constructor (key: Order, keepFirst: bool)
      ensures Valid() && this.key == key && this.keepFirst == keepFirst && ins == [] && active == [] && Pending() == multiset{}
    {
      this.key, this.keepFirst, ins, heap, active := key, keepFirst, [], [0], [];
    }

    // One more sorted input. Records that active inputs stand on are to come once more.
    method Add(records: seq<Record>)
      requires Valid() && Sorted(key, records)
      modifies this
      ensures Valid() && active == [] && ins == old(ins) + [records]
      ensures old(active) == [] ==> Pending() == old(Pending()) + multiset(records)
    {
      LeftNone(ins);
      LeftNone(ins + [records]);
      TotalAppend(ins, records);
      ghost var ins0 := ins;
      ins, heap := MoveActiveToHeap(key, ins, heap, active, false);
      active := [];
      Added(key, ins, heap, records);
      if records != [] {
        ghost var heap0 := heap;
        heap := MinHeap.Push(heap, Heads(key, ins + [records]), |ins|);
        AddedPushed(key, ins, heap0, records, heap);
      }
      ins := ins + [records];
    }

    // The least record to come, if any.
    method Advance() returns (r: Option<Record>)
      requires Valid()
      modifies this
      ensures Valid() && (r.None? ==> active == [] && Pending() == multiset{} == old(Pending()))
      ensures r.Some? ==> old(Pending()) == Pending() + multiset{r.value} && forall x | x in Pending() :: key(r.value) <= key(x)
      ensures r.Some? ==> |active| == 1 && Grouped(key, ins, heap, active, [r.value], key(r.value))
      ensures AllStrict(key, old(ins)) ==> AllStrict(key, ins)
    {
      hide AllSorted, Waits, Shares, Left, Total, Grouped, AllStrict, MinHeap.IsHeap, MinHeap.Content, Heads;
      ins, heap := MoveActiveToHeap(key, ins, heap, active, true);
      active := [];
      LeftNone(ins);
      WaitsHeap(key, ins, heap);
      if |heap| == 1 {
        NoneWait(key, ins, heap);
        return None;
      }
      var e;
      var heap0 := heap;
      e, heap := MinHeap.Pop(heap, Heads(key, ins));
      FirstPopped(key, ins, heap0, e, heap);
      active := [e];
      r := Some(ins[e][0]);
      GroupedParts(key, ins, heap, active, [r.value], key(r.value));
      LeftBeyond(key, ins, heap, active, [r.value], key(r.value));
    }

    // All inputs that stand on the least key, with their current records.
    method AdvanceUnique() returns (group: seq<Record>)
      requires Valid()
      modifies this
      ensures Valid() && old(Pending()) == Pending() + multiset(group)
      ensures group == [] ==> Pending() == multiset{}
      ensures forall x | x in group :: key(x) == key(group[0])
      ensures group != [] ==> forall x | x in Pending() :: key(group[0]) <= key(x)
      ensures group != [] && AllStrict(key, old(ins)) ==> forall x | x in Pending() :: key(group[0]) < key(x)
      ensures AllStrict(key, old(ins)) ==> AllStrict(key, ins)
    {
      var first := Advance();
      if first.None? { return []; }
      ghost var k := key(first.value);
      heap, active, group := TakeEqual(key, ins, heap, active, [first.value], k);
      GroupedParts(key, ins, heap, active, group, k);
      LeftBeyond(key, ins, heap, active, group, k);
    }

    // The next record that this input hands out, for the records `taken`.
    method Next() returns (r: Option<Record>, ghost taken: multiset<Record>)
      requires Valid() && (keepFirst ==> AllStrict(key, ins))
      modifies this
      ensures Valid() && (keepFirst ==> AllStrict(key, ins)) && old(Pending()) == Pending() + taken
      ensures r.None? ==> old(Pending()) == Pending() == taken == multiset{}
      ensures r.Some? ==> Takes(key, keepFirst, r.value, taken, Pending()) && |taken| > 0
    {
      hide Grouped, Waits, Shares, AllSorted, AllStrict, Left, Total;
      if !keepFirst {
        r := Advance();
        taken := if r.None? then multiset{} else multiset{r.value};
        return;
      }
      var group := AdvanceUnique();
      taken := multiset(group);
      if group == [] { return None, multiset{}; }
      assert group[0] in group;
      RunKept(key, group);
      r := Some(group[0]);
    }
  }

  // r stands for the records `taken`, and the records that are left come after it.
  ghost predicate Takes(key: Order, keepFirst: bool, r: Record, taken: multiset<Record>, left: multiset<Record>) {
    && (if keepFirst then SameKeys(key, multiset{r}, taken) else taken == multiset{r})
    && (forall x | x in left :: key(r) <= key(x))
    && (keepFirst ==> forall x | x in left :: key(r) < key(x))
  }

  // All that is left in the input, in order.
  method ReadAll(input: ExtIn) returns (out: seq<Record>)
    requires input.Valid() && (input.keepFirst ==> AllStrict(input.key, input.ins))
    modifies input
    ensures Drained(input.key, input.keepFirst, old(input.Pending()), out)
  {
    hide *;
    out := [];
    ghost var taken: multiset<Record> := multiset{};
    ghost var given := input.Pending();
    NothingDrained(input.key, input.keepFirst);
    NothingBehind(input.key, input.keepFirst, given);
    assert multiset([]) == taken;
    while true
      invariant input.Valid() && (input.keepFirst ==> AllStrict(input.key, input.ins))
      invariant given == input.Pending() + taken && Drained(input.key, input.keepFirst, taken, out)
      invariant Behind(input.key, input.keepFirst, out, input.Pending())
      decreases |input.Pending()|
    {
      ghost var left := input.Pending();
      var r;
      ghost var more;
      r, more := input.Next();
      if r.None? {
        assert left == multiset{} && given == taken;
        return;
      }
      OneMore(input.key, input.keepFirst, taken, out, r.value, more, left, input.Pending());
      Shifted(given, input.Pending(), more, taken);
      out, taken := out + [r.value], taken + more;
    }
  }

  lemma Shifted(given: multiset<Record>, left: multiset<Record>, more: multiset<Record>, taken: multiset<Record>)
    requires given == (left + more) + taken
    ensures given == left + (taken + more) && |left + more| == |left| + |more|
  {
  }

  lemma NothingBehind(key: Order, keepFirst: bool, left: multiset<Record>)
    ensures Behind(key, keepFirst, [], left)
  {
  }

  // What was handed out comes before what is left.
  ghost predicate Behind(key: Order, keepFirst: bool, out: seq<Record>, left: multiset<Record>) {
    out != [] ==> forall x | x in left :: if keepFirst then key(out[|out| - 1]) < key(x) else key(out[|out| - 1]) <= key(x)
  }

  lemma OneMore(key: Order, keepFirst: bool, taken: multiset<Record>, out: seq<Record>, r: Record, more: multiset<Record>,
                left0: multiset<Record>, left: multiset<Record>)
    requires Drained(key, keepFirst, taken, out) && Takes(key, keepFirst, r, more, left) && left0 == left + more
    requires Behind(key, keepFirst, out, left0) && |more| > 0
    ensures Drained(key, keepFirst, taken + more, out + [r]) && Behind(key, keepFirst, out + [r], left)
  {
    assert multiset(out + [r]) == multiset(out) + multiset{r};
    if keepFirst {
      assert r in multiset{r} && r in more;
      SameKeysAdd(key, multiset(out), taken, multiset{r}, more);
      StrictlyAppends(key, out, r);
    } else {
      assert r in more;
      SortedAppends(key, out, r);
    }
  }
}

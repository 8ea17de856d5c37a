// The binary heap that the OR cursor and the merging input share: 1-based, entry 0 unused, ordered by the
// keys of the entries.
module MinHeap {

  // `keys[e]` is the key of entry e.
  ghost predicate Entries(heap: seq<nat>, keys: seq<int>) {
    |heap| >= 1 && forall i | 1 <= i < |heap| :: heap[i] < |keys|
  }

  ghost predicate IsHeap(heap: seq<nat>, keys: seq<int>) {
    && Entries(heap, keys)
    && forall j {:trigger heap[j]} | 2 <= j < |heap| :: keys[heap[j / 2]] <= keys[heap[j]]
  }

  // All entries with how often they occur.
  ghost function Content(heap: seq<nat>): multiset<nat>
    requires |heap| >= 1
  {
    multiset(heap[1..])
  }

  ghost predicate InHeap(heap: seq<nat>, e: nat) {
    |heap| >= 1 && e in Content(heap)
  }

  // A heap whose entries are changed nowhere stays one under other keys.
  lemma OtherKeys(heap: seq<nat>, keys: seq<int>, keys1: seq<int>)
    requires IsHeap(heap, keys) && forall e: nat | InHeap(heap, e) && e < |keys| :: e < |keys1| && keys1[e] == keys[e]
    ensures IsHeap(heap, keys1)
  {
    forall k | 1 <= k < |heap|
      ensures heap[k] < |keys1| && keys1[heap[k]] == keys[heap[k]]
    {
      assert heap[1..][k - 1] == heap[k];
      assert InHeap(heap, heap[k]);
    }
    assert forall k {:trigger heap[k]} | 1 <= k < |heap| :: keys1[heap[k]] == keys[heap[k]];
  }

  function Swapped(heap: seq<nat>, i: nat, j: nat): (r: seq<nat>)
    requires i < |heap| && j < |heap|
    ensures |r| == |heap| && r[i] == heap[j] && r[j] == heap[i]
    ensures forall k | 0 <= k < |heap| && k != i && k != j :: r[k] == heap[k]
  {
    heap[i := heap[j]][j := heap[i]]
  }

  lemma SwapKeepsContent(heap: seq<nat>, i: nat, j: nat)
    requires 1 <= i < |heap| && 1 <= j < |heap|
    ensures Content(Swapped(heap, i, j)) == Content(heap)
  {
    var s := heap[1..];
    var s1: seq<nat> := s[i - 1 := heap[j]];
    assert Swapped(heap, i, j)[1..] == s1[j - 1 := heap[i]];
  }

  // The root carries the least key.
  lemma {:induction false} RootIsLeast(heap: seq<nat>, keys: seq<int>, j: nat)
    requires IsHeap(heap, keys) && 1 <= j < |heap|
    ensures keys[heap[1]] <= keys[heap[j]]
    decreases j
  {
    if j > 1 {
      assert keys[heap[j / 2]] <= keys[heap[j]];
      RootIsLeast(heap, keys, j / 2);
    }
  }

  lemma LeastInContent(heap: seq<nat>, keys: seq<int>, e: nat)
    requires IsHeap(heap, keys) && e in Content(heap)
    ensures |heap| > 1 && e < |keys| && keys[heap[1]] <= keys[e]
  {
    assert e in heap[1..];
    var i :| 0 <= i < |heap[1..]| && heap[1..][i] == e;
    RootIsLeast(heap, keys, i + 1);
  }

  // Order holds except between i and its parent, and across i.
  ghost predicate HeapButUp(heap: seq<nat>, keys: seq<int>, i: nat) {
    && Entries(heap, keys)
    && (forall j {:trigger heap[j]} | 2 <= j < |heap| && j != i :: keys[heap[j / 2]] <= keys[heap[j]])
    && (forall j {:trigger heap[j]} | 4 <= j < |heap| && j / 2 == i :: keys[heap[i / 2]] <= keys[heap[j]])
  }

  // Order holds except between i and its children, and across i.
  ghost predicate HeapButDown(heap: seq<nat>, keys: seq<int>, i: nat) {
    && Entries(heap, keys)
    && (forall j {:trigger heap[j]} | 2 <= j < |heap| && j / 2 != i :: keys[heap[j / 2]] <= keys[heap[j]])
    && (forall j {:trigger heap[j]} | 4 <= j < |heap| && j / 2 == i :: keys[heap[i / 2]] <= keys[heap[j]])
  }

  method Push(heap: seq<nat>, keys: seq<int>, e: nat) returns (r: seq<nat>)
    requires IsHeap(heap, keys) && e < |keys|
    ensures |r| >= 1 && IsHeap(r, keys) && Content(r) == Content(heap) + multiset{e}
  {
    r := heap + [e];
    assert r[1..] == heap[1..] + [e];
    var i := |heap|;
    var j := i / 2;
    while j > 0 && keys[r[i]] < keys[r[j]]
      invariant 1 <= i < |r| == |heap| + 1 && j == i / 2
      invariant HeapButUp(r, keys, i) && Content(r) == Content(heap) + multiset{e}
    {
      SwapKeepsContent(r, i, j);
      SwapUp(r, keys, i);
      r := Swapped(r, i, j);
      i := j;
      j := j / 2;
    }
  }

  lemma SwapUp(heap: seq<nat>, keys: seq<int>, i: nat)
    requires 2 <= i < |heap| && HeapButUp(heap, keys, i) && keys[heap[i]] < keys[heap[i / 2]]
    ensures HeapButUp(Swapped(heap, i, i / 2), keys, i / 2)
  {
    var r, p := Swapped(heap, i, i / 2), i / 2;
    forall j | 2 <= j < |r| && j != p
      ensures keys[r[j / 2]] <= keys[r[j]]
    {
      assert heap[j] == heap[j] && heap[p] == heap[p];
    }
    forall j | 4 <= j < |r| && j / 2 == p
      ensures keys[r[p / 2]] <= keys[r[j]]
    {
      assert heap[j] == heap[j] && heap[p] == heap[p];
    }
  }

  // c is the child of i with the smaller key, or lies beyond the end when i has no child.
  ghost predicate LeastChild(heap: seq<nat>, keys: seq<int>, i: nat, c: nat) {
    && Entries(heap, keys) && 1 <= i && 2 * i <= c <= 2 * i + 1 && (c >= |heap| ==> 2 * i >= |heap|)
    && (c < |heap| ==> forall j {:trigger heap[j]} | 2 * i <= j <= 2 * i + 1 && j < |heap| :: keys[heap[c]] <= keys[heap[j]])
  }

  method SmallerChild(heap: seq<nat>, keys: seq<int>, i: nat) returns (c: nat)
    requires Entries(heap, keys) && 1 <= i
    ensures LeastChild(heap, keys, i, c)
  {
    c := 2 * i;
    var k := c + 1;
    if k < |heap| && keys[heap[k]] < keys[heap[c]] {
      c := k;
    }
  }

  method Pop(heap: seq<nat>, keys: seq<int>) returns (e: nat, r: seq<nat>)
    requires IsHeap(heap, keys) && |heap| > 1
    ensures |r| >= 1 && e < |keys| && IsHeap(r, keys) && Content(heap) == Content(r) + multiset{e}
    ensures forall x | x in Content(heap) :: x < |keys| && keys[e] <= keys[x]
  {
    forall x | x in Content(heap)
      ensures x < |keys| && keys[heap[1]] <= keys[x]
    {
      LeastInContent(heap, keys, x);
    }
    e := heap[1];
    var num := |heap| - 2;
    r := heap[1 := heap[num + 1]][..num + 1];
    PopContent(heap);
    LastAtRoot(heap, keys);
    r := SiftDown(r, keys);
  }

  lemma LastAtRoot(heap: seq<nat>, keys: seq<int>)
    requires IsHeap(heap, keys) && |heap| > 1
    ensures HeapButDown(heap[1 := heap[|heap| - 1]][..|heap| - 1], keys, 1)
  {
    var r := heap[1 := heap[|heap| - 1]][..|heap| - 1];
    forall j | 2 <= j < |r| && j / 2 != 1
      ensures keys[r[j / 2]] <= keys[r[j]]
    {
      assert heap[j] == heap[j];
    }
  }

  method SiftDown(heap: seq<nat>, keys: seq<int>) returns (r: seq<nat>)
    requires HeapButDown(heap, keys, 1)
    ensures IsHeap(r, keys) && Content(r) == Content(heap)
  {
    hide HeapButDown, LeastChild, Content, Entries, IsHeap;
    r := heap;
    var i := 1;
    DownEntries(r, keys, i);
    var j := SmallerChild(r, keys, i);
    ChildRange(r, keys, i, j);
    while j < |r| && keys[r[j]] < keys[r[i]]
      invariant 1 <= i && i < j && i <= j && |r| == |heap| >= 1 && Entries(r, keys)
      invariant j < |r| ==> r[i] < |keys| && r[j] < |keys|
      invariant HeapButDown(r, keys, i) && LeastChild(r, keys, i, j) && Content(r) == Content(heap)
      decreases |r| - i
    {
      SwapKeepsContent(r, i, j);
      SwapDown(r, keys, i, j);
      r := Swapped(r, i, j);
      i := j;
      DownEntries(r, keys, i);
      j := SmallerChild(r, keys, i);
      ChildRange(r, keys, i, j);
    }
    HeapAgain(r, keys, i, j);
  }

  lemma DownEntries(heap: seq<nat>, keys: seq<int>, i: nat)
    requires HeapButDown(heap, keys, i)
    ensures Entries(heap, keys) && |heap| >= 1
  {
  }

  lemma ChildRange(heap: seq<nat>, keys: seq<int>, i: nat, c: nat)
    requires LeastChild(heap, keys, i, c)
    ensures i < c && (c < |heap| ==> heap[i] < |keys| && heap[c] < |keys|)
  {
  }

  lemma PopContent(heap: seq<nat>)
    requires |heap| > 1
    ensures Content(heap) == Content(heap[1 := heap[|heap| - 1]][..|heap| - 1]) + multiset{heap[1]}
  {
    var s := heap[1..];
    var n := |s|;
    var r := heap[1 := heap[|heap| - 1]][..|heap| - 1];
    assert s == s[..n - 1] + [s[n - 1]];
    if n > 1 {
      assert s[..n - 1] == [s[0]] + s[1..n - 1];
      assert r[1..] == [s[n - 1]] + s[1..n - 1];
    } else {
      assert r[1..] == [];
    }
  }

  lemma SwapDown(heap: seq<nat>, keys: seq<int>, i: nat, c: nat)
    requires c < |heap| && HeapButDown(heap, keys, i) && LeastChild(heap, keys, i, c) && keys[heap[c]] < keys[heap[i]]
    ensures HeapButDown(Swapped(heap, i, c), keys, c)
  {
    var r := Swapped(heap, i, c);
    forall j | 2 <= j < |r| && j / 2 != c
      ensures keys[r[j / 2]] <= keys[r[j]]
    {
      assert heap[j] == heap[j] && heap[i] == heap[i] && heap[c] == heap[c];
    }
    forall j | 4 <= j < |r| && j / 2 == c
      ensures keys[r[c / 2]] <= keys[r[j]]
    {
      assert heap[j] == heap[j];
    }
  }

  lemma HeapAgain(heap: seq<nat>, keys: seq<int>, i: nat, c: nat)
    requires HeapButDown(heap, keys, i) && LeastChild(heap, keys, i, c)
    requires c < |heap| ==> keys[heap[i]] <= keys[heap[c]]
    ensures IsHeap(heap, keys)
  {
    forall j | 2 <= j < |heap|
      ensures keys[heap[j / 2]] <= keys[heap[j]]
    {
      assert heap[j] == heap[j];
    }
  }
}

// Reading an array of records, one by one or one for each run of equal keys.
module RecordsIn {
  import opened Options
  import opened Bytes
  import opened Records

  class In {
    const key: Order
    const records: seq<Record>
    const keepFirst: bool
    var rp: nat

    ghost predicate Valid()
      reads this
    {
      rp <= |records|
    }

    constructor (key: Order, records: seq<Record>, keepFirst: bool)
      ensures Valid() && this.key == key && this.records == records && this.keepFirst == keepFirst && rp == 0
    {
      this.key, this.records, this.keepFirst, rp := key, records, keepFirst, 0;
    }

    // The next record, with all that follow it and have its key when runs are reduced to their first record.
    method Advance() returns (r: Option<Record>)
      requires Valid()
      modifies this`rp
      ensures Valid() && (r.None? <==> old(rp) == |records|) && (r.None? ==> rp == old(rp))
      ensures r.Some? ==> old(rp) < rp && r.value == records[old(rp)]
      ensures r.Some? && !keepFirst ==> rp == old(rp) + 1
      ensures r.Some? && keepFirst ==> forall k | old(rp) <= k < rp :: key(records[k]) == key(r.value)
      ensures r.Some? && keepFirst && rp < |records| ==> key(records[rp]) != key(r.value)
    {
      if rp >= |records| { return None; }
      r := Some(records[rp]);
      if !keepFirst {
        rp := rp + 1;
        return;
      }
      var p := rp + 1;
      while p < |records| && key(records[p]) == key(records[rp])
        invariant rp < p <= |records| && forall k | rp <= k < p :: key(records[k]) == key(records[rp])
      {
        p := p + 1;
      }
      rp := p;
    }
  }

  // What a drained input may give for the records `given`: all of them in order, or one for each key.
  ghost predicate Drained(key: Order, keepFirst: bool, given: multiset<Record>, out: seq<Record>) {
    if keepFirst then StrictlySorted(key, out) && SameKeys(key, multiset(out), given)
    else Sorted(key, out) && multiset(out) == given
  }

  method Drain(key: Order, records: seq<Record>, keepFirst: bool) returns (out: seq<Record>)
    requires Sorted(key, records)
    ensures Drained(key, keepFirst, multiset(records), out)
  {
    hide Drained, Sorted;
    var input := new In(key, records, keepFirst);
    out := [];
    NothingDrained(key, keepFirst);
    assert records[..0] == [];
    while true
      invariant input.Valid() && fresh(input)
      invariant input.key == key && input.records == records && input.keepFirst == keepFirst
      invariant Drained(key, keepFirst, multiset(records[..input.rp]), out)
      invariant out != [] ==> 0 < input.rp && key(out[|out| - 1]) <= key(records[input.rp - 1])
      invariant out != [] && keepFirst && input.rp < |records| ==> key(out[|out| - 1]) < key(records[input.rp])
      decreases |records| - input.rp
    {
      ghost var p := input.rp;
      var r := input.Advance();
      if r.None? {
        assert records[..input.rp] == records;
        return;
      }
      InOrder(key, records, p);
      OneDrained(key, records, keepFirst, p, input.rp, out);
      out := out + [r.value];
    }
  }

  lemma NothingDrained(key: Order, keepFirst: bool)
    ensures Drained(key, keepFirst, multiset([]), [])
  {
  }

  lemma OneDrained(key: Order, records: seq<Record>, keepFirst: bool, p: nat, q: nat, out: seq<Record>)
    requires Sorted(key, records) && p < q <= |records| && Drained(key, keepFirst, multiset(records[..p]), out)
    requires out != [] ==> 0 < p && key(out[|out| - 1]) <= key(records[p - 1])
    requires out != [] && keepFirst ==> key(out[|out| - 1]) < key(records[p])
    requires if keepFirst then forall k | p <= k < q :: key(records[k]) == key(records[p]) else q == p + 1
    ensures Drained(key, keepFirst, multiset(records[..q]), out + [records[p]])
  {
    hide Sorted, StrictlySorted, SameKeys;
    var run := records[p..q];
    assert records[..q] == records[..p] + run;
    if keepFirst {
      assert forall r | r in run :: key(r) == key(records[p]);
      assert run[0] == records[p];
      RunKept(key, run);
      SameKeysAdd(key, multiset(out), multiset(records[..p]), multiset{records[p]}, multiset(run));
      StrictlyAppends(key, out, records[p]);
    } else {
      assert run == [records[p]];
      if out != [] { InOrder(key, records, p - 1); }
      SortedAppends(key, out, records[p]);
    }
  }

  lemma InOrder(key: Order, records: seq<Record>, p: nat)
    requires Sorted(key, records) && p < |records|
    ensures forall q | p <= q < |records| :: key(records[p]) <= key(records[q])
  {
  }

  lemma RunKept(key: Order, run: seq<Record>)
    requires run != [] && forall r | r in run :: key(r) == key(run[0])
    ensures SameKeys(key, multiset{run[0]}, multiset(run))
  {
    assert run[0] in multiset{run[0]} && run[0] in run;
  }
}

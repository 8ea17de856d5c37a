// Sorting more records than fit in memory: records gather in a buffer that fills from both ends, full buffers
// are sorted and written to files, and the files are merged.
module ExternalSort {
  import opened Bytes
  import opened Records
  import opened Options
  import opened RecordsIn
  import opened MergeIn

  // A record array entry at the front of the buffer: where its data lies at the back.
  datatype Header = Header(at: nat, len: nat)

  const HEADER_SIZE: nat := 16

  // Each record lies directly before the one written before it, with a zero byte behind its data.
  ghost predicate Laid(buffer: seq<byte>, headers: seq<Header>, ep: nat) {
    && (forall i | 0 <= i < |headers| ::
          headers[i].at + headers[i].len + 1 == (if i == 0 then |buffer| else headers[i - 1].at) && headers[i].at >= ep)
    && (forall i | 0 <= i < |headers| :: headers[i].at + headers[i].len < |buffer|)
    && (forall i | 0 <= i < |headers| && headers[i].at + headers[i].len < |buffer| :: buffer[headers[i].at + headers[i].len] == 0)
    && ep == if headers == [] then |buffer| else headers[|headers| - 1].at
  }

  function DataOf(buffer: seq<byte>, h: Header): Record {
    if h.at + h.len <= |buffer| then buffer[h.at..h.at + h.len] else []
  }

  function InBuffer(buffer: seq<byte>, headers: seq<Header>): seq<Record> {
    seq(|headers|, i requires 0 <= i < |headers| => DataOf(buffer, headers[i]))
  }

  // Every file is in order, and without repeated keys when only first records are kept.
  ghost predicate FilesSorted(key: Order, keepFirst: bool, files: Ins) {
    forall f | 0 <= f < |files| :: Sorted(key, files[f]) && (keepFirst ==> StrictlySorted(key, files[f]))
  }

  // Files and buffer account for all records written.
  ghost predicate Accounts(key: Order, keepFirst: bool, held: multiset<Record>, written: multiset<Record>) {
    if keepFirst then SameKeys(key, held, written) else held == written
  }

  class SortedOut {
    const key: Order
    const keepFirst: bool
    const buffer: array<byte>
    var headers: seq<Header>
    var ep: nat
    var files: Ins
    var inCalled: bool
    ghost var written: seq<Record>

    ghost predicate Valid()
      reads this, buffer
    {
      && HEADER_SIZE * |headers| <= ep <= buffer.Length && Laid(buffer[..], headers, ep)
      && FilesSorted(key, keepFirst, files)
      && Accounts(key, keepFirst, Total(files) + multiset(InBuffer(buffer[..], headers)), multiset(written))
    }

    constructor (key: Order, keepFirst: bool, size: nat)
      ensures Valid() && fresh(buffer) && buffer.Length == size && written == [] && !inCalled
      ensures this.key == key && this.keepFirst == keepFirst
    {
      this.key, this.keepFirst := key, keepFirst;
      buffer := new byte[size](_ => 0);
      headers, ep, files, inCalled, written := [], size, [], false, [];
      new;
      NothingWritten(key, keepFirst, buffer[..]);
    }

    // The sorted records of the buffer, which is empty afterwards.
    method InFromBuffer() returns (records: seq<Record>)
      requires Valid()
      modifies this`headers, this`ep
      ensures records == [] <==> old(headers) == []
      ensures Sorted(key, records) && multiset(records) == multiset(InBuffer(buffer[..], old(headers)))
      ensures headers == [] && ep == buffer.Length
    {
      records := SortRecords(key, InBuffer(buffer[..], headers));
      assert |multiset(records)| == |records| && |multiset(InBuffer(buffer[..], headers))| == |headers|;
      headers, ep := [], buffer.Length;
    }

    // A full buffer becomes a file.
    method WriteSorted()
      requires Valid()
      modifies this`headers, this`ep, this`files
      ensures Valid() && headers == [] && ep == buffer.Length
    {
      if headers == [] { return; }
      ghost var held := InBuffer(buffer[..], headers);
      var records := InFromBuffer();
      var out := Drain(key, records, keepFirst);
      FileAdded(key, keepFirst, files, held, out, written, buffer[..]);
      files := files + [out];
    }

    // A record that the whole buffer cannot hold becomes a file of its own.
    method WriteOneRecord(d: Record)
      requires Valid() && headers == []
      modifies this`files, this`written
      ensures Valid() && written == old(written) + [d]
    {
      OneFile(key, keepFirst, files, written, d, buffer[..]);
      files := files + [[d]];
      written := written + [d];
    }

    method Write(d: Record) returns (ok: bool)
      requires Valid()
      modifies this`headers, this`ep, this`files, this`written, buffer
      ensures Valid() && ok == (|d| < TWO_TO_THE_32)
      ensures written == if ok then old(written) + [d] else old(written)
    {
      hide Laid, FilesSorted, Accounts, InBuffer, Total;
      if |d| > 0xffff_ffff { return false; }
      var length := |d| + HEADER_SIZE + 5;
      if HEADER_SIZE * |headers| + length > ep {
        WriteSorted();
        if length > ep {
          WriteOneRecord(d);
          return true;
        }
      }
      ghost var b0 := buffer[..];
      buffer[ep - 1] := 0;
      var at := ep - 1 - |d|;
      forall k | 0 <= k < |d| {
        buffer[at + k] := d[k];
      }
      Placed(key, keepFirst, b0, buffer[..], headers, ep, d, at, Total(files), written);
      headers, ep := headers + [Header(at, |d|)], at;
      written := written + [d];
      ok := true;
    }

    // All records in order, once: from memory if nothing was spilled, else from the merged files.
    method ReadSorted() returns (r: Option<seq<Record>>)
      requires Valid()
      modifies this`headers, this`ep, this`files, this`inCalled
      ensures r.None? <==> old(inCalled)
      ensures inCalled && (old(inCalled) || Drained(key, keepFirst, multiset(written), r.value))
    {
      hide Laid, InBuffer, Drained, Accounts, FilesSorted;
      if inCalled { return None; }
      inCalled := true;
      if files == [] {
        ghost var held := InBuffer(buffer[..], headers);
        assert Total(files) + multiset(held) == multiset(held);
        var records := InFromBuffer();
        var out := Drain(key, records, keepFirst);
        AllDrained(key, keepFirst, multiset(held), multiset(written), out);
        return Some(out);
      }
      WriteSorted();
      NoneInBuffer(buffer[..]);
      assert Total(files) + multiset(InBuffer(buffer[..], headers)) == Total(files);
      var out := MergeFiles(key, keepFirst, files);
      AllDrained(key, keepFirst, Total(files), multiset(written), out);
      r := Some(out);
    }
  }

  method MergeFiles(key: Order, keepFirst: bool, files: Ins) returns (out: seq<Record>)
    requires FilesSorted(key, keepFirst, files)
    ensures Drained(key, keepFirst, Total(files), out)
  {
    hide *;
    var input := new ExtIn(key, keepFirst);
    var i := 0;
    while i < |files|
      invariant i <= |files| && input.Valid() && fresh(input) && input.key == key && input.keepFirst == keepFirst
      invariant input.ins == files[..i] && input.active == []
    {
      FileSorted(key, keepFirst, files, i);
      input.Add(files[i]);
      assert files[..i + 1] == files[..i] + [files[i]];
      i := i + 1;
    }
    assert files[..i] == files;
    LeftNone(files);
    Strict(key, keepFirst, files);
    PendingIs(input);
    out := ReadAll(input);
  }

  lemma PendingIs(input: ExtIn)
    ensures input.Pending() == Total(Left(input.ins, input.active))
  {
  }

  lemma NothingWritten(key: Order, keepFirst: bool, b: seq<byte>)
    ensures Laid(b, [], |b|) && FilesSorted(key, keepFirst, [])
    ensures Accounts(key, keepFirst, Total([]) + multiset(InBuffer(b, [])), multiset([]))
  {
  }

  lemma NoneInBuffer(b: seq<byte>)
    ensures InBuffer(b, []) == []
  {
  }

  lemma FileSorted(key: Order, keepFirst: bool, files: Ins, f: nat)
    requires FilesSorted(key, keepFirst, files) && f < |files|
    ensures Sorted(key, files[f])
  {
  }

  lemma Strict(key: Order, keepFirst: bool, files: Ins)
    requires FilesSorted(key, keepFirst, files)
    ensures keepFirst ==> AllStrict(key, files)
  {
  }

  // The buffer's records, sorted and reduced, are as good as they were in the buffer.
  lemma FileAdded(key: Order, keepFirst: bool, files: Ins, held: seq<Record>, out: seq<Record>, written: seq<Record>, b: seq<byte>)
    requires FilesSorted(key, keepFirst, files) && Drained(key, keepFirst, multiset(held), out)
    requires Accounts(key, keepFirst, Total(files) + multiset(held), multiset(written))
    ensures FilesSorted(key, keepFirst, files + [out]) && Laid(b, [], |b|)
    ensures Accounts(key, keepFirst, Total(files + [out]) + multiset(InBuffer(b, [])), multiset(written))
  {
    TotalAppend(files, out);
    NoneInBuffer(b);
    if keepFirst { StrictIsSorted(key, out); }
    assert Total(files + [out]) + multiset(InBuffer(b, [])) == Total(files) + multiset(out);
    if keepFirst {
      SameKeysSelf(key, Total(files));
      SameKeysAdd(key, Total(files), Total(files), multiset(out), multiset(held));
      SameKeysTwice(key, Total(files) + multiset(out), Total(files) + multiset(held), multiset(written));
    }
  }

  lemma StrictIsSorted(key: Order, s: seq<Record>)
    requires StrictlySorted(key, s)
    ensures Sorted(key, s)
  {
  }

  lemma SameKeysSelf(key: Order, m: multiset<Record>)
    ensures SameKeys(key, m, m)
  {
  }

  lemma OneFile(key: Order, keepFirst: bool, files: Ins, written: seq<Record>, d: Record, b: seq<byte>)
    requires FilesSorted(key, keepFirst, files)
    requires Accounts(key, keepFirst, Total(files) + multiset(InBuffer(b, [])), multiset(written))
    ensures FilesSorted(key, keepFirst, files + [[d]])
    ensures Accounts(key, keepFirst, Total(files + [[d]]) + multiset(InBuffer(b, [])), multiset(written + [d]))
  {
    TotalAppend(files, [d]);
    NoneInBuffer(b);
    assert Total(files) + multiset(InBuffer(b, [])) == Total(files);
    assert Total(files + [[d]]) + multiset(InBuffer(b, [])) == Total(files) + multiset{d};
    AccountsMore(key, keepFirst, Total(files), multiset(written), d);
    assert multiset(written + [d]) == multiset(written) + multiset{d};
  }

  lemma AccountsMore(key: Order, keepFirst: bool, held: multiset<Record>, written: multiset<Record>, d: Record)
    requires Accounts(key, keepFirst, held, written)
    ensures Accounts(key, keepFirst, held + multiset{d}, written + multiset{d})
  {
    if keepFirst {
      SameKeysSelf(key, multiset{d});
      SameKeysAdd(key, held, written, multiset{d}, multiset{d});
    }
  }

  // A record written below `ep` harms none of those above.
  lemma Placed(key: Order, keepFirst: bool, b0: seq<byte>, b: seq<byte>, headers: seq<Header>, ep: nat, d: Record, at: nat,
               filed: multiset<Record>, written: seq<Record>)
    requires |b| == |b0| && ep <= |b| && at + |d| + 1 == ep && Laid(b0, headers, ep)
    requires b[ep - 1] == 0 && b[at..ep - 1] == d && forall k | ep <= k < |b| :: b[k] == b0[k]
    requires Accounts(key, keepFirst, filed + multiset(InBuffer(b0, headers)), multiset(written))
    ensures Laid(b, headers + [Header(at, |d|)], at)
    ensures Accounts(key, keepFirst, filed + multiset(InBuffer(b, headers + [Header(at, |d|)])), multiset(written + [d]))
  {
    var h := Header(at, |d|);
    LaidMore(b0, b, headers, ep, h);
    Undisturbed(b0, b, headers, ep);
    assert DataOf(b, h) == d;
    assert InBuffer(b, headers + [h]) == InBuffer(b0, headers) + [d];
    AccountsMore(key, keepFirst, filed + multiset(InBuffer(b0, headers)), multiset(written), d);
    assert multiset(written + [d]) == multiset(written) + multiset{d};
    assert filed + multiset(InBuffer(b0, headers) + [d]) == filed + multiset(InBuffer(b0, headers)) + multiset{d};
  }

  lemma LaidMore(b0: seq<byte>, b: seq<byte>, headers: seq<Header>, ep: nat, h: Header)
    requires |b| == |b0| && ep <= |b| && h.at + h.len + 1 == ep && Laid(b0, headers, ep)
    requires b[ep - 1] == 0 && forall k | ep <= k < |b| :: b[k] == b0[k]
    ensures Laid(b, headers + [h], h.at)
  {
    assert forall i | 0 <= i < |headers| :: headers[i].at + headers[i].len >= ep;
  }

  lemma Undisturbed(b0: seq<byte>, b: seq<byte>, headers: seq<Header>, ep: nat)
    requires |b| == |b0| && ep <= |b| && Laid(b0, headers, ep) && forall k | ep <= k < |b| :: b[k] == b0[k]
    ensures InBuffer(b, headers) == InBuffer(b0, headers)
  {
    forall i | 0 <= i < |headers|
      ensures DataOf(b, headers[i]) == DataOf(b0, headers[i])
    {
      assert headers[i].at >= ep;
    }
  }

  // Order and content of what was read, in terms of what was written.
  lemma AllDrained(key: Order, keepFirst: bool, held: multiset<Record>, written: multiset<Record>, out: seq<Record>)
    requires Drained(key, keepFirst, held, out) && Accounts(key, keepFirst, held, written)
    ensures Drained(key, keepFirst, written, out)
  {
    if keepFirst { SameKeysTwice(key, multiset(out), held, written); }
  }

  // Any records that can be read back from a file, through a buffer of any size: sorted, and a permutation; or one for each key, strictly sorted.
  method SortAll(key: Order, keepFirst: bool, size: nat, records: seq<Record>) returns (out: seq<Record>)
    requires forall r | r in records :: |r| < SIGNED_LIMIT
    ensures Drained(key, keepFirst, multiset(records), out)
  {
    hide *;
    var h := new SortedOut(key, keepFirst, size);
    var i := 0;
    while i < |records|
      invariant i <= |records| && h.Valid() && fresh(h) && fresh(h.buffer) && !h.inCalled
      invariant h.key == key && h.keepFirst == keepFirst && h.written == records[..i]
    {
      SignedFits(|records[i]|);
      var ok := h.Write(records[i]);
      assert records[..i + 1] == records[..i] + [records[i]];
      i := i + 1;
    }
    assert records[..i] == records;
    var r := h.ReadSorted();
    out := r.value;
  }
}

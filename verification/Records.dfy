// Records, their order, and lists of them in that order.
module Records {
  import opened Bytes

  // A record is its bytes. The compare callback orders records by an integer key: any order on the finitely many
  // records of a run can be written that way.
  type Record = seq<byte>
  type Order = Record -> int

  ghost predicate Sorted(key: Order, s: seq<Record>) {
    forall i, j | 0 <= i <= j < |s| :: key(s[i]) <= key(s[j])
  }

  ghost predicate StrictlySorted(key: Order, s: seq<Record>) {
    forall i, j | 0 <= i < j < |s| :: key(s[i]) < key(s[j])
  }

  // Some record of `m` has the key k.
  ghost predicate HasKey(key: Order, m: multiset<Record>, k: int) {
    exists r | r in m :: key(r) == k
  }

  // Records kept and records given: every one kept was given, every key given was kept.
  ghost predicate SameKeys(key: Order, kept: multiset<Record>, given: multiset<Record>) {
    && (forall r | r in kept :: r in given)
    && (forall r | r in given :: HasKey(key, kept, key(r)))
  }

  lemma SortedAppends(key: Order, s: seq<Record>, r: Record)
    requires Sorted(key, s) && (s != [] ==> key(s[|s| - 1]) <= key(r))
    ensures Sorted(key, s + [r])
  {
  }

  lemma StrictlyAppends(key: Order, s: seq<Record>, r: Record)
    requires StrictlySorted(key, s) && (s != [] ==> key(s[|s| - 1]) < key(r))
    ensures StrictlySorted(key, s + [r])
  {
  }

  lemma SameKeysAdd(key: Order, a: multiset<Record>, b: multiset<Record>, a1: multiset<Record>, b1: multiset<Record>)
    requires SameKeys(key, a, b) && SameKeys(key, a1, b1)
    ensures SameKeys(key, a + a1, b + b1)
  {
    forall r | r in b + b1
      ensures HasKey(key, a + a1, key(r))
    {
      if r in b {
        var x :| x in a && key(x) == key(r);
        assert x in a + a1;
      } else {
        var x :| x in a1 && key(x) == key(r);
        assert x in a + a1;
      }
    }
  }

  lemma SameKeysTwice(key: Order, a: multiset<Record>, b: multiset<Record>, c: multiset<Record>)
    requires SameKeys(key, a, b) && SameKeys(key, b, c)
    ensures SameKeys(key, a, c)
  {
    forall r | r in c
      ensures HasKey(key, a, key(r))
    {
      var x :| x in b && key(x) == key(r);
      assert HasKey(key, a, key(x));
    }
  }

  // ---------- sorting in memory ----------

  // Any sort does; which of several records with one key comes first is not said.
  method SortRecords(key: Order, s: seq<Record>) returns (r: seq<Record>)
    ensures Sorted(key, r) && multiset(r) == multiset(s)
  {
    r := [];
    var i := 0;
    while i < |s|
      invariant i <= |s| && Sorted(key, r) && multiset(r) == multiset(s[..i])
    {
      assert s[..i + 1] == s[..i] + [s[i]];
      r := Insert(key, r, s[i]);
      i := i + 1;
    }
    assert s[..i] == s;
  }

  method Insert(key: Order, s: seq<Record>, x: Record) returns (r: seq<Record>)
    requires Sorted(key, s)
    ensures Sorted(key, r) && multiset(r) == multiset(s) + multiset{x}
  {
    var k: nat := |s|;
    while k > 0 && key(s[k - 1]) > key(x)
      invariant k <= |s| && forall j | k <= j < |s| :: key(s[j]) > key(x)
    {
      k := k - 1;
    }
    r := s[..k] + [x] + s[k..];
    Inserted(key, s, x, k);
    SameAndOne(s, x, k);
  }

  lemma SameAndOne(s: seq<Record>, x: Record, k: nat)
    requires k <= |s|
    ensures multiset(s[..k] + [x] + s[k..]) == multiset(s) + multiset{x}
  {
    assert s == s[..k] + s[k..];
  }

  lemma Inserted(key: Order, s: seq<Record>, x: Record, k: nat)
    requires Sorted(key, s) && k <= |s| && (k > 0 ==> key(s[k - 1]) <= key(x))
    requires forall j | k <= j < |s| :: key(s[j]) > key(x)
    ensures Sorted(key, s[..k] + [x] + s[k..])
  {
    var r := s[..k] + [x] + s[k..];
    assert forall j | 0 <= j < k :: key(s[j]) <= key(s[k - 1]);
    forall i, j | 0 <= i <= j < |r|
      ensures key(r[i]) <= key(r[j])
    {
      assert r[i] == if i < k then s[i] else if i == k then x else s[i - 1];
      assert r[j] == if j < k then s[j] else if j == k then x else s[j - 1];
    }
  }
}

// Sets of document ids as words of 64 bits, and the cursor that walks through one.
module BitSet {

  // The bitwise operators on unsigned words, bit by bit from the lowest.
  const WORD_LIMIT: nat := 0x1_0000_0000_0000_0000

  type word = w: nat | w < WORD_LIMIT

  function Pow2(k: nat): (p: nat)
    ensures p >= 1
  {
    if k == 0 then 1 else 2 * Pow2(k - 1)
  }

  predicate Bit(w: nat, k: nat) {
    if k == 0 then w % 2 == 1 else Bit(w / 2, k - 1)
  }

  function And(v: nat, w: nat): (r: nat)
    ensures r <= v && r <= w
  {
    if v == 0 || w == 0 then 0 else (if v % 2 == 1 && w % 2 == 1 then 1 else 0) + 2 * And(v / 2, w / 2)
  }

  function Or(v: nat, w: nat): nat {
    if v == 0 then w else if w == 0 then v else (if v % 2 == 1 || w % 2 == 1 then 1 else 0) + 2 * Or(v / 2, w / 2)
  }

  function Complement(w: word): (r: word) {
    WORD_LIMIT - 1 - w
  }

  // Is id in the set that the words hold?
  predicate Has(items: seq<word>, id: nat) {
    id / 64 < |items| && Bit(items[id / 64], id % 64)
  }

  // ---------- bits ----------

  lemma {:induction false} NoBits(k: nat)
    ensures !Bit(0, k)
  {
    if k > 0 { NoBits(k - 1); }
  }

  lemma {:induction false} BitsOf(v: nat, w: nat, k: nat)
    ensures Bit(And(v, w), k) <==> Bit(v, k) && Bit(w, k)
    ensures Bit(Or(v, w), k) <==> Bit(v, k) || Bit(w, k)
  {
    NoBits(k);
    if k > 0 && v > 0 && w > 0 { BitsOf(v / 2, w / 2, k - 1); }
  }

  lemma {:induction false} OrBelow(v: nat, w: nat, n: nat)
    requires v < Pow2(n) && w < Pow2(n)
    ensures Or(v, w) < Pow2(n)
  {
    if n > 0 && v > 0 && w > 0 { OrBelow(v / 2, w / 2, n - 1); }
  }

  lemma Width()
    ensures Pow2(64) == WORD_LIMIT
  {
    assert Pow2(4) == 16;
    PowerSum(4, 4);
    PowerSum(8, 8);
    PowerSum(16, 16);
    PowerSum(32, 32);
  }

  lemma {:induction false} PowerSum(i: nat, j: nat)
    ensures Pow2(i + j) == Pow2(i) * Pow2(j)
  {
    if i > 0 { PowerSum(i - 1, j); }
  }

  lemma OrWord(v: word, w: word)
    ensures Or(v, w) < WORD_LIMIT
  {
    Width();
    OrBelow(v, w, 64);
  }

  // Complementing n bits.
  lemma {:induction false} BitOfComplement(w: nat, n: nat, k: nat)
    requires w < Pow2(n)
    ensures Bit(Pow2(n) - 1 - w, k) <==> k < n && !Bit(w, k)
  {
    NoBits(k);
    if n > 0 && k > 0 {
      assert (Pow2(n) - 1 - w) / 2 == Pow2(n - 1) - 1 - w / 2;
      BitOfComplement(w / 2, n - 1, k - 1);
    }
  }

  lemma ComplementBits(w: word, k: nat)
    requires k < 64
    ensures Bit(Complement(w), k) <==> !Bit(w, k)
  {
    Width();
    BitOfComplement(w, 64, k);
  }

  lemma {:induction false} BitOfPow2(j: nat, k: nat)
    ensures Bit(Pow2(j), k) <==> j == k
  {
    if k > 0 {
      if j == 0 { NoBits(k - 1); } else { BitOfPow2(j - 1, k - 1); }
    }
  }

  // n low bits.
  lemma {:induction false} BitOfMask(n: nat, k: nat)
    ensures Bit(Pow2(n) - 1, k) <==> k < n
  {
    NoBits(k);
    if n > 0 && k > 0 {
      assert (Pow2(n) - 1) / 2 == Pow2(n - 1) - 1;
      BitOfMask(n - 1, k - 1);
    }
  }

  lemma {:induction false} SomeBit(w: nat, n: nat)
    requires 0 < w < Pow2(n)
    ensures exists k | 0 <= k < n :: Bit(w, k)
  {
    if w % 2 == 1 {
      assert Bit(w, 0);
    } else {
      SomeBit(w / 2, n - 1);
      var k :| 0 <= k < n - 1 && Bit(w / 2, k);
      assert Bit(w, k + 1);
    }
  }

  // ---------- counting ----------

  function Popcount(w: nat): nat {
    if w == 0 then 0 else w % 2 + Popcount(w / 2)
  }

  // n & (n - 1) has one bit less.
  lemma {:induction false} OneBitLess(w: nat)
    requires w > 0
    ensures Popcount(And(w, w - 1)) == Popcount(w) - 1
  {
    if w % 2 == 1 {
      AndSelf(w / 2);
      assert w > 1 ==> And(w, w - 1) == 2 * And(w / 2, w / 2);
      assert And(w, w - 1) == 2 * (w / 2);
    } else {
      OneBitLess(w / 2);
      assert (w - 1) / 2 == w / 2 - 1;
      assert And(w, w - 1) == 2 * And(w / 2, w / 2 - 1);
    }
  }

  lemma {:induction false} AndSelf(w: nat)
    ensures And(w, w) == w
  {
    if w > 0 { AndSelf(w / 2); }
  }

  // The bits of a word, moved up by `at` places.
  function BitsFrom(w: nat, at: nat): set<nat> {
    if w == 0 then {} else (if w % 2 == 1 then {at} else {}) + BitsFrom(w / 2, at + 1)
  }

  lemma {:induction false} BitsFromAre(w: nat, at: nat, id: nat)
    ensures id in BitsFrom(w, at) <==> id >= at && Bit(w, id - at)
    decreases w
  {
    if w == 0 {
      if id >= at { NoBits(id - at); }
    } else {
      BitsFromAre(w / 2, at + 1, id);
    }
  }

  lemma {:induction false} BitsFromSize(w: nat, at: nat)
    ensures |BitsFrom(w, at)| == Popcount(w)
    decreases w
  {
    if w > 0 {
      BitsFromSize(w / 2, at + 1);
      BitsFromAre(w / 2, at + 1, at);
    }
  }

  // All ids in the set.
  function Members(items: seq<word>): set<nat> {
    if items == [] then {} else Members(items[..|items| - 1]) + BitsFrom(items[|items| - 1], 64 * (|items| - 1))
  }

  lemma {:induction false} MembersAre(items: seq<word>, id: nat)
    ensures id in Members(items) <==> Has(items, id)
  {
    if items != [] {
      var n := |items| - 1;
      var init := items[..n];
      MembersAre(init, id);
      BitsFromAre(items[n], 64 * n, id);
      if id >= 64 * n && Bit(items[n], id - 64 * n) { BitsStay(items[n], id - 64 * n); }
    }
  }

  // A word has bits below 64 only.
  lemma BitsStay(w: word, k: nat)
    requires Bit(w, k)
    ensures k < 64
  {
    Width();
    BitBelow(w, 64, k);
  }

  lemma {:induction false} BitBelow(w: nat, n: nat, k: nat)
    requires w < Pow2(n) && Bit(w, k)
    ensures k < n
  {
    NoBits(k);
    if n > 0 && k > 0 { BitBelow(w / 2, n - 1, k - 1); }
  }

  method Count(items: array<word>) returns (count: nat)
    ensures count == |Members(items[..])|
  {
    var p := 0;
    count := 0;
    assert items[..0] == [];
    while p < items.Length
      invariant p <= items.Length && count == |Members(items[..p])|
    {
      var n: nat := items[p];
      ghost var before := count;
      while n != 0
        invariant count + Popcount(n) == before + Popcount(items[p])
        decreases n
      {
        OneBitLess(n);
        n := And(n, n - 1);
        count := count + 1;
      }
      OneWordMore(items[..p], items[p]);
      assert items[..p + 1] == items[..p] + [items[p]];
      p := p + 1;
    }
    assert items[..p] == items[..];
  }

  lemma OneWordMore(items: seq<word>, w: word)
    ensures |Members(items + [w])| == |Members(items)| + Popcount(w)
  {
    assert (items + [w])[..|items|] == items;
    var more := BitsFrom(w, 64 * |items|);
    BitsFromSize(w, 64 * |items|);
    forall id | id in more
      ensures id !in Members(items)
    {
      BitsFromAre(w, 64 * |items|, id);
      MembersAre(items, id);
    }
    assert Members(items) !! more;
  }

  // ---------- the set ----------

  // Is id in the set once all words are complemented, the last one under its mask?
  predicate Inverted(items: seq<word>, lastMask: word, id: nat) {
    id / 64 < |items| && !Has(items, id) && (id / 64 == |items| - 1 ==> Bit(lastMask, id % 64))
  }

  // The words, and the mask of the last one.
  class Set {
    const items: array<word>
    const lastMask: word

    // An empty set for ids below `num`; the last word has num & 63 of them.
    constructor (num: nat)
      ensures fresh(items) && items.Length == num / 64 + 1 && forall id: nat :: !Has(items[..], id)
      ensures lastMask == Pow2(num % 64) - 1
    {
      var mask: nat, n := 0, num % 64;
      while n != 0
        invariant 0 <= n <= num % 64 && mask + 1 == Pow2(num % 64 - n)
      {
        mask := mask * 2 + 1;
        n := n - 1;
      }
      MaskFits(num % 64);
      items := new word[num / 64 + 1](_ => 0);
      lastMask := mask;
      new;
      forall id: nat
        ensures !Has(items[..], id)
      {
        NoBits(id % 64);
      }
    }

    // A copy of the words. The mask is left at zero.
    constructor Copy(src: Set)
      ensures fresh(items) && items[..] == src.items[..] && lastMask == 0
    {
      items := new word[src.items.Length](i requires 0 <= i < src.items.Length reads src.items => src.items[i]);
      lastMask := 0;
      new;
      assert items[..] == src.items[..];
    }

    method Add(id: nat)
      modifies items
      ensures forall x: nat :: Has(items[..], x) <==> Has(old(items[..]), x) || (x == id && id / 64 < items.Length)
    {
      if id / 64 >= items.Length { return; }
      var mask := Pow2(id % 64);
      PowFits(id % 64);
      OrWord(items[id / 64], mask);
      var w := items[id / 64];
      items[id / 64] := Or(w, mask);
      forall x: nat
        ensures Has(items[..], x) <==> Has(old(items[..]), x) || x == id
      {
        BitsOf(w, mask, x % 64);
        BitOfPow2(id % 64, x % 64);
      }
    }

    method Remove(id: nat)
      modifies items
      ensures forall x: nat :: Has(items[..], x) <==> Has(old(items[..]), x) && x != id
    {
      if id / 64 >= items.Length { return; }
      var mask := Pow2(id % 64);
      PowFits(id % 64);
      var w := items[id / 64];
      items[id / 64] := And(w, Complement(mask));
      forall x: nat
        ensures Has(items[..], x) <==> Has(old(items[..]), x) && x != id
      {
        BitsOf(w, Complement(mask), x % 64);
        ComplementBits(mask, x % 64);
        BitOfPow2(id % 64, x % 64);
      }
    }

    method Contains(id: nat) returns (r: bool)
      ensures r == Has(items[..], id)
    {
      if id / 64 >= items.Length { return false; }
      r := And(items[id / 64], Pow2(id % 64)) != 0;
      OneBitAnd(items[id / 64], id % 64);
    }

    // Words in step: what one loop does to one pair of words.
    method Intersect(other: Set)
      requires other.items.Length >= items.Length
      modifies items
      ensures forall x: nat :: Has(items[..], x) <==> Has(old(items[..]), x) && Has(old(other.items[..]), x)
    {
      var p := 0;
      while p < items.Length
        invariant p <= items.Length && (other.items != items ==> other.items[..] == old(other.items[..]))
        invariant forall k | 0 <= k < p :: items[k] == And(old(items[k]), old(other.items[k]))
        invariant forall k | p <= k < items.Length :: items[k] == old(items[k])
      {
        items[p] := And(items[p], other.items[p]);
        p := p + 1;
      }
      forall x: nat
        ensures Has(items[..], x) <==> Has(old(items[..]), x) && Has(old(other.items[..]), x)
      {
        if x / 64 < items.Length { BitsOf(old(items[x / 64]), old(other.items[x / 64]), x % 64); }
      }
    }

    // Ids beyond the last word of this set are not taken over.
    method Unite(other: Set)
      requires other.items.Length >= items.Length
      modifies items
      ensures forall x: nat :: Has(items[..], x) <==> Has(old(items[..]), x) || (Has(old(other.items[..]), x) && x / 64 < items.Length)
    {
      var p := 0;
      while p < items.Length
        invariant p <= items.Length && (other.items != items ==> other.items[..] == old(other.items[..]))
        invariant forall k | 0 <= k < p :: items[k] == Or(old(items[k]), old(other.items[k]))
        invariant forall k | p <= k < items.Length :: items[k] == old(items[k])
      {
        OrWord(items[p], other.items[p]);
        items[p] := Or(items[p], other.items[p]);
        p := p + 1;
      }
      forall x: nat
        ensures Has(items[..], x) <==> Has(old(items[..]), x) || (Has(old(other.items[..]), x) && x / 64 < items.Length)
      {
        if x / 64 < items.Length { BitsOf(old(items[x / 64]), old(other.items[x / 64]), x % 64); }
      }
    }

    method Subtract(other: Set)
      requires other.items.Length >= items.Length
      modifies items
      ensures forall x: nat :: Has(items[..], x) <==> Has(old(items[..]), x) && !Has(old(other.items[..]), x)
    {
      var p := 0;
      while p < items.Length
        invariant p <= items.Length && (other.items != items ==> other.items[..] == old(other.items[..]))
        invariant forall k | 0 <= k < p :: items[k] == And(old(items[k]), Complement(old(other.items[k])))
        invariant forall k | p <= k < items.Length :: items[k] == old(items[k])
      {
        items[p] := And(items[p], Complement(other.items[p]));
        p := p + 1;
      }
      forall x: nat
        ensures Has(items[..], x) <==> Has(old(items[..]), x) && !Has(old(other.items[..]), x)
      {
        if x / 64 < items.Length {
          BitsOf(old(items[x / 64]), Complement(old(other.items[x / 64])), x % 64);
          ComplementBits(old(other.items[x / 64]), x % 64);
        }
      }
    }

    // All ids that the mask lets through change sides.
    method Invert()
      modifies items
      ensures forall x: nat :: Has(items[..], x) <==> Inverted(old(items[..]), lastMask, x)
    {
      var p := 0;
      while p < items.Length
        invariant p <= items.Length
        invariant forall k | 0 <= k < p :: items[k] == Complement(old(items[k]))
        invariant forall k | p <= k < items.Length :: items[k] == old(items[k])
      {
        items[p] := Complement(items[p]);
        p := p + 1;
      }
      if 0 < items.Length {
        items[p - 1] := And(items[p - 1], lastMask);
      }
      forall x: nat
        ensures Has(items[..], x) <==> Inverted(old(items[..]), lastMask, x)
      {
        if x / 64 < items.Length {
          ComplementBits(old(items[x / 64]), x % 64);
          BitsOf(Complement(old(items[x / 64])), lastMask, x % 64);
        }
      }
    }
  }

  lemma PowFits(k: nat)
    requires k < 64
    ensures Pow2(k) < WORD_LIMIT
  {
    Width();
    PowGrows(k, 64);
  }

  lemma {:induction false} PowGrows(j: nat, k: nat)
    requires j < k
    ensures Pow2(j) < Pow2(k)
  {
    if j < k - 1 { PowGrows(j, k - 1); }
  }

  lemma MaskFits(n: nat)
    requires n < 64
    ensures Pow2(n) - 1 < WORD_LIMIT
  {
    PowFits(n);
  }

  lemma {:induction false} OneBitAnd(w: nat, k: nat)
    ensures And(w, Pow2(k)) != 0 <==> Bit(w, k)
  {
    if w == 0 {
      NoBits(k);
    } else if k > 0 {
      OneBitAnd(w / 2, k - 1);
    }
  }

  // Inverting a set under its own mask: the ids below its size change sides.
  lemma MaskIsSize(items: seq<word>, num: nat, x: nat)
    requires |items| == num / 64 + 1
    ensures Pow2(num % 64) - 1 < WORD_LIMIT
    ensures Inverted(items, Pow2(num % 64) - 1, x) <==> x < num && !Has(items, x)
  {
    MaskFits(num % 64);
    BitOfMask(num % 64, x % 64);
  }

  // Inverting a copy, whose mask is zero, does the same iff all ids of the last word below the size are members:
  // those are lost.
  lemma InvertedCopy(items: seq<word>, num: nat)
    requires |items| == num / 64 + 1
    ensures (forall x: nat :: Inverted(items, 0, x) <==> x < num && !Has(items, x)) <==>
      forall x: nat | num - num % 64 <= x < num :: Has(items, x)
  {
    forall x: nat
      ensures Inverted(items, 0, x) <==> x < num - num % 64 && !Has(items, x)
    {
      NoBits(x % 64);
    }
  }

  // The copy of an empty set for one id, inverted, is empty still.
  lemma CopyLosesOne()
    ensures !Inverted([0], 0, 0) && Inverted([0], 1, 0)
  {
    NoBits(0);
  }
}

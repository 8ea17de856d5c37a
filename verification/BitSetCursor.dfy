// Walking through a bit set, and taking one set from another with cursors.
module BitSetCursor {
  import opened BitSet

  // Nothing of the set lies in [from, to).
  ghost predicate NoneIn(items: seq<word>, from: nat, to: nat) {
    forall x: nat | from <= x < to :: !Has(items, x)
  }

  ghost predicate NoneFrom(items: seq<word>, from: nat) {
    forall x: nat | from <= x :: !Has(items, x)
  }

  // r is the least member from `from` on, or 0 if there is none.
  ghost predicate IsNext(items: seq<word>, from: nat, r: nat) {
    if r == 0 then NoneFrom(items, from) else from <= r && Has(items, r) && NoneIn(items, from, r)
  }

  // Shifting by a variable amount, one place at a time.
  function Shifted(w: nat, m: nat): nat {
    if m == 0 then w else Shifted(w / 2, m - 1)
  }

  lemma {:induction false} BitShifted(w: nat, m: nat, k: nat)
    ensures Bit(Shifted(w, m), k) <==> Bit(w, m + k)
  {
    if m > 0 { BitShifted(w / 2, m - 1, k); }
  }

  lemma {:induction false} ShiftedMore(w: nat, m: nat)
    ensures Shifted(w, m + 1) == Shifted(w, m) / 2
  {
    if m > 0 { ShiftedMore(w / 2, m - 1); }
  }

  lemma {:induction false} ShiftedBelow(w: nat, m: nat, n: nat)
    requires m <= n && w < Pow2(n)
    ensures Shifted(w, m) < Pow2(n - m)
  {
    if m > 0 { ShiftedBelow(w / 2, m - 1, n - 1); }
  }

  lemma TopBit(w: word)
    ensures Shifted(w, 63) <= 1
  {
    Width();
    ShiftedBelow(w, 63, 64);
    assert Pow2(1) == 2;
  }

  // Where the word has its first bit from `mask0` on.
  method FirstBit(w: word, mask0: nat) returns (mask: nat)
    requires mask0 < 64 && Shifted(w, mask0) != 0
    ensures mask0 <= mask < 64 && Bit(w, mask) && forall k | mask0 <= k < mask :: !Bit(w, k)
  {
    mask := mask0;
    var item: nat := Shifted(w, mask);
    while item % 2 == 0 && mask < 63
      invariant mask0 <= mask < 64 && item == Shifted(w, mask) && item != 0
      invariant forall k | mask0 <= k < mask :: !Bit(w, k)
    {
      BitShifted(w, mask, 0);
      ShiftedMore(w, mask);
      mask := mask + 1;
      item := item / 2;
    }
    TopBit(w);
    BitShifted(w, mask, 0);
  }

  // No bits are left when nothing is left of the shifted word.
  lemma NothingShifted(w: word, m: nat)
    requires Shifted(w, m) == 0
    ensures forall k: nat | m <= k :: !Bit(w, k)
  {
    forall k: nat | m <= k
      ensures !Bit(w, k)
    {
      BitShifted(w, m, k - m);
      NoBits(k - m);
    }
  }

  method NextFrom(items: array<word>, from: nat) returns (r: nat)
    requires from >= 1
    ensures IsNext(items[..], from, r)
  {
    var id, block, mask := from, from / 64, from % 64;
    if block >= items.Length { return 0; }
    if Shifted(items[block], mask) != 0 {
      var m := FirstBit(items[block], mask);
      r := id + (m - mask);
      InWord(items[..], block, mask, m);
      return;
    }
    NothingShifted(items[block], mask);
    var p := block + 1;
    id := id + (64 - mask);
    assert NoneIn(items[..], from, id) by {
      forall x: nat | from <= x < id ensures !Has(items[..], x) { assert x / 64 == block && x % 64 >= mask; }
    }
    while p < items.Length && items[p] == 0
      invariant block < p <= items.Length && id == 64 * p && NoneIn(items[..], from, id)
    {
      forall x: nat | id <= x < id + 64
        ensures !Has(items[..], x)
      {
        NoBits(x % 64);
      }
      id := id + 64;
      p := p + 1;
    }
    if p == items.Length { return 0; }
    var m := FirstBit(items[p], 0);
    r := id + m;
    InWord(items[..], p, 0, m);
  }

  lemma InWord(items: seq<word>, block: nat, mask: nat, m: nat)
    requires block < |items| && mask <= m < 64 && Bit(items[block], m) && forall k | mask <= k < m :: !Bit(items[block], k)
    ensures Has(items, 64 * block + m) && NoneIn(items, 64 * block + mask, 64 * block + m)
  {
    forall x: nat | 64 * block + mask <= x < 64 * block + m
      ensures !Has(items, x)
    {
      assert x / 64 == block && mask <= x % 64 < m;
    }
  }

  // ---------- the cursor ----------

  // Once used up it stands on 0. It opens on the first id and is primed: its first advance hands that id out.
  class SetCursor {
    const items: array<word>
    var current: nat
    var primed: bool
    // Nothing lies between here and the current id.
    ghost var floor: nat

    ghost predicate Valid()
      reads this, items
    {
      && 1 <= floor && (current == 0 ==> NoneFrom(items[..], floor))
      && (current > 0 ==> floor <= current && Has(items[..], current) && NoneIn(items[..], floor, current))
    }

    // Where advance looks from.
    ghost function Start(): nat
      reads this
    {
      if current == 0 then floor else if primed then current else current + 1
    }

    constructor (items: array<word>)
      ensures Valid() && this.items == items && primed && floor == 1 && Start() >= 1
      ensures NoneIn(items[..], 1, Start()) && (current == 0 ==> NoneFrom(items[..], 1))
    {
      this.items := items;
      new;
      current := NextFrom(items, 1);
      primed, floor := true, 1;
    }

    method Advance() returns (r: nat)
      requires Valid()
      modifies this
      ensures Valid() && IsNext(items[..], old(Start()), r) && r == current && !primed
      ensures floor <= old(Start()) && (r == 0 ==> floor == old(Start()))
    {
      if current == 0 || primed {
        primed := false;
        return current;
      }
      floor := current + 1;
      current := NextFrom(items, current + 1);
      r := current;
    }

    // The least id from `id` on, when the cursor has not passed it.
    method AdvanceTo(id: nat) returns (r: nat)
      requires Valid() && id >= 1
      modifies this
      ensures Valid() && r == current && primed == old(primed)
      ensures id >= old(floor) ==> IsNext(items[..], id, r) && floor <= id
      ensures id <= old(current) ==> r == old(current) && floor == old(floor)
      ensures old(current) == 0 ==> r == 0 && floor == old(floor)
      ensures 0 < old(current) < id ==> floor == id
    {
      if current == 0 || id <= current { return current; }
      floor := id;
      if id / 64 < items.Length && And(items[id / 64], Pow2(id % 64)) != 0 {
        OneBitAnd(items[id / 64], id % 64);
        current := id;
        return id;
      }
      if id / 64 < items.Length { OneBitAnd(items[id / 64], id % 64); }
      assert !Has(items[..], id);
      current := NextFrom(items, id + 1);
      r := current;
    }
  }

  // ---------- NOT ----------

  // In the positive set and not in the negative one.
  ghost predicate Differs(pos: seq<word>, neg: seq<word>, x: nat) {
    Has(pos, x) && !Has(neg, x)
  }

  ghost predicate IsNextDifference(pos: seq<word>, neg: seq<word>, from: nat, r: nat) {
    if r == 0 then forall x: nat | from <= x :: !Differs(pos, neg, x)
    else from <= r && Differs(pos, neg, r) && forall x: nat | from <= x < r :: !Differs(pos, neg, x)
  }

  class NotCursor {
    const pos: SetCursor
    const neg: SetCursor
    // The negative cursor is used up: only the positive one is moved from now on.
    var posOnly: bool
    var current: nat

    ghost predicate Valid()
      reads this, pos, pos.items, neg, neg.items
    {
      && pos != neg && pos.Valid() && neg.Valid() && pos.Start() >= 1
      && (if posOnly then NoneFrom(neg.items[..], pos.Start()) else neg.floor <= pos.Start())
      && (pos.current == current || (pos.primed && pos.floor == 1 && current == 0))
    }

    constructor (p: array<word>, n: array<word>)
      ensures Valid() && fresh(pos) && fresh(neg) && pos.items == p && neg.items == n && current == 0
      ensures NoneIn(p[..], 1, pos.Start()) && pos.Start() >= 1
    {
      pos := new SetCursor(p);
      neg := new SetCursor(n);
      posOnly, current := false, 0;
    }

    method Advance() returns (r: nat)
      requires Valid()
      modifies this, pos, neg
      ensures Valid() && IsNextDifference(pos.items[..], neg.items[..], old(pos.Start()), r)
      ensures r > 0 ==> pos.Start() == r + 1
      ensures r == current
    {
      hide NoneIn, NoneFrom, Has;
      ghost var start := pos.Start();
      while true
        invariant Valid() && start <= pos.Start()
        invariant NoneDiffer(pos.items[..], neg.items[..], start, pos.Start())
        decreases 64 * pos.items.Length + 64 - pos.Start()
      {
        var id;
        ghost var from := pos.Start();
        id := pos.Advance();
        if id == 0 {
          current := 0;
          AllPassed(pos.items[..], neg.items[..], start, from);
          return 0;
        }
        InsideWords(pos.items[..], id);
        if posOnly {
          NegativeLater(neg.items[..], from, id);
          Passed(pos.items[..], neg.items[..], start, from, id);
          current := id;
          return id;
        }
        var id2 := neg.AdvanceTo(id);
        if id2 != id {
          Passed(pos.items[..], neg.items[..], start, from, id);
          NegativeBeyond(neg.items[..], id, id2);
          current := id;
          if id2 == 0 { posOnly := true; }
          return id;
        }
        Skipped(pos.items[..], neg.items[..], start, from, id);
        // Between the moves only; overwritten before anyone sees it.
        current := id;
      }
    }

    // The next difference from `id` on, unless the cursor stands there already or is used up.
    method AdvanceTo(id0: nat) returns (r: nat)
      requires Valid() && id0 >= 1
      modifies this, pos, neg
      ensures Valid()
      ensures id0 <= old(current) ==> r == old(current)
      ensures id0 > old(current) && old(pos.current) == 0 ==> r == 0
      ensures id0 > old(current) && old(pos.current) != 0 ==> IsNextDifference(pos.items[..], neg.items[..], id0, r)
    {
      hide NoneIn, NoneFrom, Has;
      if id0 <= current { return current; }
      ghost var start, alive := pos.Start(), pos.current != 0;
      var id := pos.AdvanceTo(id0);
      assert start <= pos.Start();
      if posOnly { NegativeLater(neg.items[..], start, pos.Start()); }
      if id == 0 {
        current := 0;
        if alive { AllPassed(pos.items[..], neg.items[..], id0, id0); }
        return 0;
      }
      assert alive && start <= id;
      if posOnly {
        NegativeLater(neg.items[..], start, id);
        Passed(pos.items[..], neg.items[..], id0, id0, id);
        current := id;
        return id;
      }
      var id2 := neg.AdvanceTo(id);
      if id2 == id {
        current := id;
        Skipped(pos.items[..], neg.items[..], id0, id0, id);
        r := Advance();
        Joined(pos.items[..], neg.items[..], id0, id, r);
        return;
      }
      Passed(pos.items[..], neg.items[..], id0, id0, id);
      NegativeBeyond(neg.items[..], id, id2);
      current := id;
      if id2 == 0 { posOnly := true; }
      r := id;
    }
  }

  ghost predicate NoneDiffer(pos: seq<word>, neg: seq<word>, from: nat, to: nat) {
    forall x: nat | from <= x < to :: !Differs(pos, neg, x)
  }

  // No positive id from `from` on.
  lemma AllPassed(pos: seq<word>, neg: seq<word>, start: nat, from: nat)
    requires NoneDiffer(pos, neg, start, from) && NoneFrom(pos, from)
    ensures IsNextDifference(pos, neg, start, 0)
  {
  }

  // A positive id that the negative set does not have.
  lemma Passed(pos: seq<word>, neg: seq<word>, start: nat, from: nat, id: nat)
    requires start <= from && NoneDiffer(pos, neg, start, from) && id != 0 && IsNext(pos, from, id)
    ensures !Has(neg, id) ==> IsNextDifference(pos, neg, start, id)
  {
  }

  // A positive id that it has.
  lemma Skipped(pos: seq<word>, neg: seq<word>, start: nat, from: nat, id: nat)
    requires start <= from && NoneDiffer(pos, neg, start, from) && id != 0 && IsNext(pos, from, id) && Has(neg, id)
    ensures NoneDiffer(pos, neg, start, id + 1) && NoneDiffer(pos, neg, start, id)
  {
  }

  lemma NegativeBeyond(neg: seq<word>, id: nat, id2: nat)
    requires IsNext(neg, id, id2) && id2 != id
    ensures !Has(neg, id) && (id2 == 0 ==> NoneFrom(neg, id) && NoneFrom(neg, id + 1))
  {
  }

  lemma NegativeLater(neg: seq<word>, from: nat, id: nat)
    requires NoneFrom(neg, from) && from <= id
    ensures !Has(neg, id) && NoneFrom(neg, id) && NoneFrom(neg, id + 1)
  {
  }

  lemma Joined(pos: seq<word>, neg: seq<word>, start: nat, from: nat, r: nat)
    requires start <= from && NoneDiffer(pos, neg, start, from + 1)
    requires IsNextDifference(pos, neg, from, r) || IsNextDifference(pos, neg, from + 1, r)
    ensures IsNextDifference(pos, neg, start, r)
  {
  }

  lemma InsideWords(items: seq<word>, id: nat)
    requires Has(items, id)
    ensures id < 64 * |items|
  {
  }

  // Driving the NOT cursor of two sets gives the ids from 1 on that the first has and the second has not.
  method Difference(pos: array<word>, neg: array<word>) returns (ids: seq<nat>)
    ensures forall i, j | 0 <= i < j < |ids| :: ids[i] < ids[j]
    ensures forall x: nat :: x in ids <==> x >= 1 && Differs(pos[..], neg[..], x)
  {
    hide Has, NoneIn, NoneFrom;
    var c := new NotCursor(pos, neg);
    NoneYet(pos[..], neg[..], c.pos.Start());
    ids := [];
    ghost var at := c.pos.Start();
    while true
      invariant c.Valid() && fresh(c) && fresh(c.pos) && fresh(c.neg) && c.pos.items == pos && c.neg.items == neg
      invariant at == c.pos.Start() >= 1 && forall x | x in ids :: x < at
      invariant forall i, j | 0 <= i < j < |ids| :: ids[i] < ids[j]
      invariant forall x: nat :: x in ids <==> 1 <= x < at && Differs(pos[..], neg[..], x)
      decreases 64 * pos.Length + 64 - at
    {
      var r := c.Advance();
      if r == 0 { return; }
      InsideWords(pos[..], r);
      assert forall i | 0 <= i < |ids| :: ids[i] in ids;
      ids := ids + [r];
      at := c.pos.Start();
    }
  }

  lemma NoneYet(pos: seq<word>, neg: seq<word>, at: nat)
    requires NoneIn(pos, 1, at)
    ensures forall x: nat | 1 <= x < at :: !Differs(pos, neg, x)
  {
  }
}

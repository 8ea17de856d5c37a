// The phrase cursor: an AND over the terms that stops only at documents in which the terms stand in a row.
module PhraseCursor {
  import opened Postings
  import opened SearchCursor
  import opened SearchQuery
  import opened Phrases

  // The word positions of each term in each document.
  type Positions = map<nat, seq<seq<nat>>>

  // `starts` is the buffer of positions, kept between moves.
  datatype Phrase = Phrase(terms: Cursor, starts: seq<nat>)

  // The phrase occurs in document x.
  ghost predicate Occurs(pos: Positions, x: nat) {
    x in pos && exists s: nat :: IsStart(pos[x], s)
  }

  ghost predicate HasPositions(pos: Positions, c: Cursor) {
    forall x: nat | Reachable(c, x) :: x in pos && ValidPositions(pos[x])
  }

  // The cursor is used up, or stands on a document in which the phrase occurs, with all its starts.
  ghost predicate Stands(p: Phrase, pos: Positions, r: nat) {
    && Valid(p.terms) && Cur(p.terms) == r && (r == 0 <==> p.terms.Dead?)
    && (r != 0 ==> r in pos && AreStarts(pos[r], p.starts) && p.starts != [])
  }

  method AdvancePhrase(p: Phrase, pos: Positions) returns (p1: Phrase, r: nat)
    requires Valid(p.terms) && HasPositions(pos, p.terms)
    ensures Stands(p1, pos, r) && (!p.terms.Dead? ==> Left(p1.terms) < Left(p.terms)) && (r != 0 ==> UnderWay(p1.terms))
    ensures forall x: nat | Reachable(p1.terms, x) :: Pending(p.terms, x)
    ensures forall x: nat | Occurs(pos, x) && Pending(p.terms, x) :: Reachable(p1.terms, x)
  {
    hide *;
    var c := p.terms;
    while true
      invariant Valid(c) && (c == p.terms || (UnderWay(c) && Left(c) < Left(p.terms)))
      invariant HasPositions(pos, c)
      invariant forall x: nat | Pending(c, x) :: Pending(p.terms, x)
      invariant forall x: nat | Occurs(pos, x) && Pending(p.terms, x) :: Pending(c, x)
      decreases Left(c), if c.Dead? then 0 else 1
    {
      var c1, id := Advance(c);
      OneMove(pos, c, c1, id);
      if id == 0 {
        EndOfPhrase(c1, pos);
        return Phrase(c1, p.starts), 0;
      }
      var found, starts := FindPhrases(pos[id]);
      if found {
        OnPhrase(c1, id, pos, starts);
        return Phrase(c1, starts), id;
      }
      NotHere(pos, c1, id);
      c := c1;
    }
  }

  lemma OneMove(pos: Positions, c: Cursor, c1: Cursor, id: nat)
    requires HasPositions(pos, c) && Advanced(c, c1, id)
    ensures HasPositions(pos, c1) && Valid(c1) && (id != 0 ==> id in pos && ValidPositions(pos[id]) && UnderWay(c1))
    ensures Cur(c1) == id && (id == 0 <==> c1.Dead?)
    ensures !c.Dead? ==> Left(c1) < Left(c)
    ensures id != 0 ==> !c.Dead?
    ensures forall x: nat :: Reachable(c1, x) <==> Pending(c, x)
  {
    assert forall x: nat | Reachable(c1, x) :: Pending(c, x) && Reachable(c, x);
    if id != 0 {
      assert Reachable(c1, id);
    }
  }

  lemma EndOfPhrase(c1: Cursor, pos: Positions)
    requires c1.Dead?
    ensures forall starts :: Stands(Phrase(c1, starts), pos, 0)
  {
  }

  lemma OnPhrase(c1: Cursor, id: nat, pos: Positions, starts: seq<nat>)
    requires Valid(c1) && Cur(c1) == id != 0 && id in pos && AreStarts(pos[id], starts) && !c1.Dead?
    requires exists s: nat :: IsStart(pos[id], s)
    ensures Stands(Phrase(c1, starts), pos, id)
  {
    var s: nat :| IsStart(pos[id], s);
    assert s in starts;
  }

  // Where the phrase does not occur nothing is lost by moving on.
  lemma NotHere(pos: Positions, c1: Cursor, id: nat)
    requires Cur(c1) == id && UnderWay(c1) && id in pos && !exists s: nat :: IsStart(pos[id], s)
    ensures forall x: nat | Occurs(pos, x) && Reachable(c1, x) :: Pending(c1, x)
    ensures forall x: nat | Pending(c1, x) :: Reachable(c1, x)
  {
  }

  // Towards an id. Where the AND lands on a document without the phrase, the search goes on by advance.
  method AdvancePhraseTo(p: Phrase, pos: Positions, id: nat) returns (p1: Phrase, r: nat)
    requires Valid(p.terms) && HasPositions(pos, p.terms) && 0 < id < ID_LIMIT
    requires Cur(p.terms) != 0 ==> Stands(p, pos, Cur(p.terms))
    ensures id <= Cur(p.terms) ==> p1 == p && r == Cur(p.terms)
    ensures Stands(p1, pos, r)
    ensures id > Cur(p.terms) ==> forall x: nat | Reachable(p1.terms, x) :: InRest(p.terms, x)
    ensures id > Cur(p.terms) ==> forall x: nat | Occurs(pos, x) && InRest(p.terms, x) && x >= id :: Reachable(p1.terms, x)
  {
    hide *;
    if id <= Cur(p.terms) { CurAlive(p.terms); return p, Cur(p.terms); }
    var c, id1 := AdvanceTo(p.terms, id);
    OneMoveTo(pos, p.terms, id, c, id1);
    if id1 == 0 {
      EndOfPhrase(c, pos);
      return Phrase(c, p.starts), 0;
    }
    var found, starts := FindPhrases(pos[id1]);
    if found {
      OnPhrase(c, id1, pos, starts);
      return Phrase(c, starts), id1;
    }
    p1, r := AdvancePhrase(Phrase(c, starts), pos);
    PassedBy(pos, c, id1);
  }

  lemma CurAlive(c: Cursor)
    ensures Cur(c) > 0 ==> !c.Dead?
  {
  }

  lemma OneMoveTo(pos: Positions, c: Cursor, id: nat, c1: Cursor, id1: nat)
    requires HasPositions(pos, c) && AdvancedTo(c, id, c1, id1)
    ensures HasPositions(pos, c1) && Valid(c1) && (id1 != 0 ==> id1 in pos && ValidPositions(pos[id1]))
    ensures Cur(c1) == id1 && (id1 == 0 <==> c1.Dead?)
    ensures forall x: nat | Reachable(c1, x) :: InRest(c, x)
    ensures forall x: nat | InRest(c, x) && x >= id :: Reachable(c1, x)
  {
    assert forall x: nat | Reachable(c1, x) :: InRest(c, x) && Reachable(c, x);
    if id1 != 0 {
      assert Reachable(c1, id1);
    }
  }

  lemma PassedBy(pos: Positions, c: Cursor, id: nat)
    requires Valid(c) && Cur(c) == id && id in pos && !exists s: nat :: IsStart(pos[id], s)
    ensures forall x: nat | Occurs(pos, x) && Reachable(c, x) :: Pending(c, x)
    ensures forall x: nat | Pending(c, x) :: Reachable(c, x)
  {
  }

  // Driving the phrase cursor gives the documents that hold all terms and the phrase, in order, each once.
  method PhraseMatches(q: Query, pos: Positions) returns (ids: seq<nat>)
    requires WellFormed(q) && forall x: nat | Satisfies(q, x) :: x in pos && ValidPositions(pos[x])
    ensures Increasing(ids)
    ensures forall x: nat :: x in ids <==> Satisfies(q, x) && Occurs(pos, x)
  {
    hide *;
    OpensAll(q, pos);
    var p, id := AdvancePhrase(Phrase(Open(q), []), pos);
    ids := [];
    StillPlaced(q, pos, p.terms);
    while id != 0
      invariant Stands(p, pos, id) && HasPositions(pos, p.terms) && (id != 0 ==> UnderWay(p.terms))
      invariant Increasing(ids) && forall x | x in ids :: Occurs(pos, x) && Satisfies(q, x) && (id == 0 || x < id)
      invariant forall x: nat | Reachable(p.terms, x) :: Satisfies(q, x)
      invariant forall x: nat | Satisfies(q, x) && Occurs(pos, x) :: x in ids || Reachable(p.terms, x)
      decreases Left(p.terms)
    {
      StandsAlive(p, pos, id);
      var p1, id1 := AdvancePhrase(p, pos);
      NextPhrase(p, pos, id, p1, id1);
      Grows(ids, id);
      ids, p, id := ids + [id], p1, id1;
    }
    UsedUp(p, pos);
  }

  lemma OpensAll(q: Query, pos: Positions)
    requires WellFormed(q) && forall x: nat | Satisfies(q, x) :: x in pos && ValidPositions(pos[x])
    ensures Valid(Open(q)) && HasPositions(pos, Open(q))
    ensures forall x: nat :: Pending(Open(q), x) <==> Satisfies(q, x)
  {
    hide Valid, Reachable, Pending, InRest, Satisfies, ValidPositions, Open, WellFormed, Fresh;
    Opens(q, 0);
    forall x: nat
      ensures Pending(Open(q), x) <==> Satisfies(q, x)
      ensures Reachable(Open(q), x) <==> Satisfies(q, x)
    {
      Opens(q, x);
      FreshPending(Open(q), x);
    }
  }

  lemma StillPlaced(q: Query, pos: Positions, c: Cursor)
    requires forall x: nat | Satisfies(q, x) :: x in pos && ValidPositions(pos[x])
    requires forall x: nat | Reachable(c, x) :: Satisfies(q, x)
    ensures HasPositions(pos, c) && Increasing([])
  {
  }

  lemma StandsAlive(p: Phrase, pos: Positions, id: nat)
    requires Stands(p, pos, id) && id != 0
    ensures Valid(p.terms) && !p.terms.Dead? && Reachable(p.terms, id) && Occurs(pos, id)
  {
    assert p.starts[0] in p.starts;
  }

  lemma NextPhrase(p: Phrase, pos: Positions, id: nat, p1: Phrase, id1: nat)
    requires Stands(p, pos, id) && HasPositions(pos, p.terms) && UnderWay(p.terms) && Stands(p1, pos, id1)
    requires forall x: nat | Reachable(p1.terms, x) :: Pending(p.terms, x)
    requires forall x: nat | Occurs(pos, x) && Pending(p.terms, x) :: Reachable(p1.terms, x)
    ensures HasPositions(pos, p1.terms) && (id1 != 0 ==> id < id1)
    ensures forall x: nat | Reachable(p1.terms, x) :: Reachable(p.terms, x)
    ensures forall x: nat | Occurs(pos, x) && Reachable(p.terms, x) :: x == id || Reachable(p1.terms, x)
  {
    hide Valid, InRest;
    assert forall x: nat | Reachable(p1.terms, x) :: Reachable(p.terms, x);
    if id1 != 0 {
      assert Reachable(p1.terms, id1) && InRest(p.terms, id1);
      RestBeyond(p.terms, id1);
    }
  }

  lemma Grows(ids: seq<nat>, id: nat)
    requires Increasing(ids) && forall x | x in ids :: x < id
    ensures Increasing(ids + [id])
  {
    assert forall k | 0 <= k < |ids| :: ids[k] in ids;
  }

  lemma UsedUp(p: Phrase, pos: Positions)
    requires Stands(p, pos, 0)
    ensures forall x: nat :: !Reachable(p.terms, x)
  {
    hide Valid;
  }
}

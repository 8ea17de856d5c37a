// Phrase search: where the terms of a phrase stand next to each other, and the cursor over the documents in
// which they do.
module Phrases {
  import opened Postings
  import opened SearchCursor

  const POSITION_LIMIT: nat := 0x1_0000

  // One strictly increasing list of 16-bit positions for every term.
  ghost predicate ValidPositions(pos: seq<seq<nat>>) {
    pos != [] && forall j | 0 <= j < |pos| :: Increasing(pos[j]) && forall k | 0 <= k < |pos[j]| :: pos[j][k] < POSITION_LIMIT
  }

  // Term j of the phrase stands j places after s, for every j.
  ghost predicate IsStart(pos: seq<seq<nat>>, s: nat) {
    forall j | 0 <= j < |pos| :: s + j in pos[j]
  }

  // The increasing list of all starts.
  ghost predicate AreStarts(pos: seq<seq<nat>>, starts: seq<nat>) {
    Increasing(starts) && forall s: nat :: s in starts <==> IsStart(pos, s)
  }

  ghost predicate StandsFrom(list: seq<nat>, from: nat, x: nat) {
    exists k | from <= k < |list| :: list[k] == x
  }

  // s is still to be found from the pointers on.
  ghost predicate Ahead(pos: seq<seq<nat>>, wp: seq<nat>, s: nat)
    requires |wp| == |pos|
  {
    forall j | 0 <= j < |pos| :: StandsFrom(pos[j], wp[j], s + j)
  }

  // Between matches: the starts found so far lie before the pointers, all others lie ahead.
  ghost predicate Found(pos: seq<seq<nat>>, wp: seq<nat>, starts: seq<nat>) {
    && pos != [] && |wp| == |pos| && (forall j | 0 <= j < |pos| :: wp[j] <= |pos[j]|)
    && Increasing(starts) && (forall s | s in starts :: IsStart(pos, s))
    && (forall s: nat | IsStart(pos, s) :: s in starts || Ahead(pos, wp, s))
    && (forall s | s in starts :: wp[0] < |pos[0]| ==> s < pos[0][wp[0]])
  }

  // Inside a round: whatever lies ahead is at least `candidate`, and the first i pointers stand on it.
  ghost predicate Round(pos: seq<seq<nat>>, wp: seq<nat>, starts: seq<nat>, candidate: nat, i: nat) {
    && ValidPositions(pos) && |wp| == |pos| && i <= |pos| && (forall j | 0 <= j < |pos| :: wp[j] <= |pos[j]|)
    && Increasing(starts) && (forall s | s in starts :: IsStart(pos, s) && s < candidate)
    && (forall s: nat | IsStart(pos, s) && s !in starts :: s >= candidate && Ahead(pos, wp, s))
    && (forall j | 0 <= j < i :: wp[j] < |pos[j]| && pos[j][wp[j]] == candidate + j)
    && candidate < POSITION_LIMIT
  }

  method FindPhrases(pos: seq<seq<nat>>) returns (found: bool, starts: seq<nat>)
    requires ValidPositions(pos)
    ensures AreStarts(pos, starts) && (found <==> exists s: nat :: IsStart(pos, s))
  {
    hide *;
    var n := |pos|;
    var wp := new nat[n](_ => 0);
    starts := [];
    Positions(pos);
    AllAhead(pos, wp[..]);
    while wp[0] < |pos[0]|
      invariant wp.Length == n && Found(pos, wp[..], starts)
      decreases |pos[0]| - wp[0]
    {
      var min_pos: nat := pos[0][wp[0]];
      var i: nat := 1;
      RoundStarts(pos, wp[..], starts, min_pos);
      ghost var wp0 := wp[0];
      while i < n
        invariant wp.Length == n && wp0 <= wp[0] && i <= n
        invariant Round(pos, wp[..], starts, min_pos, i)
        decreases POSITION_LIMIT - min_pos, n - i
      {
        while wp[i] < |pos[i]| && pos[i][wp[i]] < min_pos + i
          invariant wp.Length == n && wp0 <= wp[0]
          invariant Round(pos, wp[..], starts, min_pos, i)
          decreases |pos[i]| - wp[i]
        {
          SkipPosition(pos, wp[..], starts, min_pos, i);
          ghost var wp1 := wp[..][i := wp[i] + 1];
          wp[i] := wp[i] + 1;
          assert wp[..] == wp1;
        }
        if wp[i] >= |pos[i]| {
          NoneAhead(pos, wp[..], starts, min_pos, i);
          return starts != [], starts;
        }
        if pos[i][wp[i]] > min_pos + i {
          RaiseCandidate(pos, wp[..], starts, min_pos, i);
          RoundBounds(pos, wp[..], starts, pos[i][wp[i]] - i, 0);
          min_pos := pos[i][wp[i]] - i;
          i := 0;
        } else {
          OneMore(pos, wp[..], starts, min_pos, i);
          i := i + 1;
        }
      }
      Matched(pos, wp[..], starts, min_pos);
      starts := starts + [min_pos];
      ghost var wp1 := wp[..][0 := wp[0] + 1];
      wp[0] := wp[0] + 1;
      assert wp[..] == wp1;
    }
    FirstEnds(pos, wp[..], starts);
    found := starts != [];
  }

  lemma Positions(pos: seq<seq<nat>>)
    requires ValidPositions(pos)
    ensures pos != []
  {
  }

  lemma AllAhead(pos: seq<seq<nat>>, wp: seq<nat>)
    requires ValidPositions(pos) && |wp| == |pos| && forall j | 0 <= j < |wp| :: wp[j] == 0
    ensures Found(pos, wp, [])
  {
    forall s: nat | IsStart(pos, s)
      ensures Ahead(pos, wp, s)
    {
      forall j | 0 <= j < |pos|
        ensures StandsFrom(pos[j], wp[j], s + j)
      {
        assert s + j in pos[j];
        var k :| 0 <= k < |pos[j]| && pos[j][k] == s + j;
      }
    }
  }

  lemma RoundStarts(pos: seq<seq<nat>>, wp: seq<nat>, starts: seq<nat>, candidate: nat)
    requires ValidPositions(pos) && Found(pos, wp, starts) && wp[0] < |pos[0]| && candidate == pos[0][wp[0]]
    ensures Round(pos, wp, starts, candidate, 1)
  {
    forall s: nat | IsStart(pos, s) && s !in starts
      ensures s >= candidate
    {
      assert Ahead(pos, wp, s) && StandsFrom(pos[0], wp[0], s + 0);
      var k :| wp[0] <= k < |pos[0]| && pos[0][k] == s + 0;
    }
  }

  lemma SkipPosition(pos: seq<seq<nat>>, wp: seq<nat>, starts: seq<nat>, candidate: nat, i: nat)
    requires i < |pos| && Round(pos, wp, starts, candidate, i) && wp[i] < |pos[i]| && pos[i][wp[i]] < candidate + i
    ensures Round(pos, wp[i := wp[i] + 1], starts, candidate, i)
  {
    var wp1 := wp[i := wp[i] + 1];
    forall s: nat | IsStart(pos, s) && s !in starts
      ensures Ahead(pos, wp1, s)
    {
      assert Ahead(pos, wp, s);
      forall j | 0 <= j < |pos|
        ensures StandsFrom(pos[j], wp1[j], s + j)
      {
        assert StandsFrom(pos[j], wp[j], s + j);
        var k :| wp[j] <= k < |pos[j]| && pos[j][k] == s + j;
        assert wp1[j] <= k;
      }
    }
  }

  lemma AheadHas(pos: seq<seq<nat>>, wp: seq<nat>, s: nat, j: nat)
    requires |wp| == |pos| && j < |pos| && Ahead(pos, wp, s)
    ensures wp[j] < |pos[j]|
  {
    assert StandsFrom(pos[j], wp[j], s + j);
  }

  lemma OneMore(pos: seq<seq<nat>>, wp: seq<nat>, starts: seq<nat>, candidate: nat, i: nat)
    requires i < |pos| && Round(pos, wp, starts, candidate, i) && wp[i] < |pos[i]| && pos[i][wp[i]] == candidate + i
    ensures Round(pos, wp, starts, candidate, i + 1)
  {
  }

  lemma RoundBounds(pos: seq<seq<nat>>, wp: seq<nat>, starts: seq<nat>, candidate: nat, i: nat)
    requires Round(pos, wp, starts, candidate, i)
    ensures candidate < POSITION_LIMIT && forall j | 0 <= j < |pos| :: wp[j] <= |pos[j]|
  {
  }

  lemma NoneAhead(pos: seq<seq<nat>>, wp: seq<nat>, starts: seq<nat>, candidate: nat, i: nat)
    requires i < |pos| && Round(pos, wp, starts, candidate, i) && wp[i] >= |pos[i]|
    ensures AreStarts(pos, starts) && (starts != [] <==> exists s: nat :: IsStart(pos, s))
  {
    forall s: nat | IsStart(pos, s)
      ensures s in starts
    {
      if s !in starts { AheadHas(pos, wp, s, i); }
    }
    assert starts != [] ==> starts[0] in starts;
  }

  lemma RaiseCandidate(pos: seq<seq<nat>>, wp: seq<nat>, starts: seq<nat>, candidate: nat, i: nat)
    requires i < |pos| && Round(pos, wp, starts, candidate, i) && wp[i] < |pos[i]| && pos[i][wp[i]] > candidate + i
    ensures Round(pos, wp, starts, pos[i][wp[i]] - i, 0)
  {
    forall s: nat | IsStart(pos, s) && s !in starts
      ensures s >= pos[i][wp[i]] - i
    {
      assert Ahead(pos, wp, s) && StandsFrom(pos[i], wp[i], s + i);
      var k :| wp[i] <= k < |pos[i]| && pos[i][k] == s + i;
    }
  }

  lemma Matched(pos: seq<seq<nat>>, wp: seq<nat>, starts: seq<nat>, candidate: nat)
    requires Round(pos, wp, starts, candidate, |pos|)
    ensures Found(pos, wp[0 := wp[0] + 1], starts + [candidate]) && wp[0] < |pos[0]|
  {
    var wp1, starts1 := wp[0 := wp[0] + 1], starts + [candidate];
    assert forall k | 0 <= k < |starts| :: starts[k] in starts;
    assert IsStart(pos, candidate) by {
      assert forall j | 0 <= j < |pos| :: pos[j][wp[j]] == candidate + j;
    }
    forall s: nat | IsStart(pos, s) && s !in starts1
      ensures Ahead(pos, wp1, s)
    {
      assert Ahead(pos, wp, s);
      forall j | 0 <= j < |pos|
        ensures StandsFrom(pos[j], wp1[j], s + j)
      {
        assert StandsFrom(pos[j], wp[j], s + j);
        var k :| wp[j] <= k < |pos[j]| && pos[j][k] == s + j;
        assert candidate in starts1 && pos[0][wp[0]] == candidate + 0;
        assert j == 0 ==> k != wp[0];
        assert wp1[j] <= k && pos[j][k] == s + j;
      }
    }
  }

  lemma FirstEnds(pos: seq<seq<nat>>, wp: seq<nat>, starts: seq<nat>)
    requires ValidPositions(pos) && Found(pos, wp, starts) && wp[0] >= |pos[0]|
    ensures AreStarts(pos, starts) && (starts != [] <==> exists s: nat :: IsStart(pos, s))
  {
    forall s: nat | IsStart(pos, s)
      ensures s in starts
    {
      if s !in starts { AheadHas(pos, wp, s, 0); }
    }
    assert starts != [] ==> starts[0] in starts;
  }
}

// Graphs without cycles have orders of completion, with late partitions as late as can be.
module ScheduleOrder {
  import opened ScheduleGraph
  import opened ScheduleLoss

  // ---------- numbers that follow heights ----------

  ghost predicate Follows(num: map<Link, nat>, h: Link -> nat) {
    && (forall x, y | x in num && y in num && num[x] == num[y] :: x == y)
    && (forall x, y | x in num && y in num && num[x] < num[y] :: h(x) <= h(y))
    && (forall x | x in num :: 1 <= num[x] <= |num|)
  }

  lemma {:induction false} Highest(s: set<Link>, h: Link -> nat) returns (m: Link)
    requires s != {}
    ensures m in s && forall x | x in s :: h(x) <= h(m)
  {
    m :| m in s;
    if s != {m} {
      var k := Highest(s - {m}, h);
      m := if h(k) > h(m) then k else m;
    }
  }

  lemma {:induction false} Numbering(s: set<Link>, h: Link -> nat) returns (num: map<Link, nat>)
    ensures num.Keys == s && Follows(num, h)
  {
    if s == {} {
      num := map[];
    } else {
      var m := Highest(s, h);
      var rest := Numbering(s - {m}, h);
      assert |rest| == |rest.Keys| == |s| - 1;
      num := rest[m := |s|];
      assert num.Keys == s && |num| == |s|;
    }
  }

  // ---------- the order ----------

  ghost function Greatest(s: set<nat>): (m: nat)
    ensures forall x | x in s :: x <= m
    ensures if s == {} then m == 0 else m in s
  {
    if s == {} then 0
    else
      var x :| x in s;
      var m := Greatest(s - {x});
      assert s == {x} + (s - {x});
      if x > m then x else m
  }

  ghost function Reals(g: Graph): set<Link>
    requires g.WellFormed()
  {
    set l | l in g.Links() && Real(g, l)
  }

  // Those with nothing to do come with the last of their dependencies.
  ghost function Place(g: Graph, rank: seq<nat>, num: map<Link, nat>, l: Link): nat
    requires g.WellFormed() && g.Ranked(rank) && g.IsLink(l) && forall x | Real(g, x) :: x in num
    decreases rank[l.task]
  {
    if Real(g, l) then num[l]
    else Greatest(set d | d in g.Links() && g.DependsOn(l, d) :: Place(g, rank, num, d))
  }

  lemma PlaceOfNothing(g: Graph, rank: seq<nat>, num: map<Link, nat>, l: Link)
    requires g.WellFormed() && g.Ranked(rank) && Nothing(g, l) && forall x | Real(g, x) :: x in num
    ensures forall d | g.DependsOn(l, d) :: Place(g, rank, num, d) <= Place(g, rank, num, l)
    ensures Place(g, rank, num, l) == 0 || exists d :: g.DependsOn(l, d) && g.IsLink(d) && Place(g, rank, num, d) == Place(g, rank, num, l)
  {
    var places := set d | d in g.Links() && g.DependsOn(l, d) :: Place(g, rank, num, d);
    assert Place(g, rank, num, l) == Greatest(places);
    forall d | g.DependsOn(l, d)
      ensures Place(g, rank, num, d) in places
    {
      assert d in g.Links();
    }
  }

  lemma PlaceOfReal(g: Graph, rank: seq<nat>, num: map<Link, nat>, l: Link)
    requires g.WellFormed() && g.Ranked(rank) && Real(g, l) && forall x | Real(g, x) :: x in num
    ensures Place(g, rank, num, l) == num[l]
  {
  }

  // Dependencies go up in height.
  ghost predicate Climbs(g: Graph, h: Link -> nat)
    requires g.WellFormed()
  {
    forall l, d | g.DependsOn(l, d) :: h(d) < h(l)
  }

  lemma ClimbsAt(g: Graph, h: Link -> nat, l: Link, d: Link)
    requires g.WellFormed() && Climbs(g, h) && g.DependsOn(l, d)
    ensures h(d) < h(l)
  {
  }

  // What is lower comes before.
  lemma {:induction false} PlaceBelow(g: Graph, rank: seq<nat>, num: map<Link, nat>, h: Link -> nat, d: Link, x: Link)
    requires g.WellFormed() && g.Ranked(rank) && (forall x | Real(g, x) :: x in num) && Follows(num, h) && Climbs(g, h)
    requires g.IsLink(d) && Real(g, x) && h(d) < h(x)
    ensures Place(g, rank, num, d) < Place(g, rank, num, x)
    decreases rank[d.task]
  {
    hide Graph.DependsOn, Graph.Mirrored, Graph.Ranked, Place, Follows, Climbs;
    PlaceOfReal(g, rank, num, x);
    FollowsAt(num, h, x, x);
    if Real(g, d) {
      PlaceOfReal(g, rank, num, d);
      FollowsAt(num, h, d, x);
    } else {
      PlaceOfNothing(g, rank, num, d);
      if Place(g, rank, num, d) != 0 {
        var t :| g.DependsOn(d, t) && g.IsLink(t) && Place(g, rank, num, t) == Place(g, rank, num, d);
        LowerRankOf(g, rank, d, t);
        ClimbsAt(g, h, d, t);
        PlaceBelow(g, rank, num, h, t, x);
      }
    }
  }

  function Total(rank: seq<nat>): nat {
    if rank == [] then 1 else rank[0] + Total(rank[1..])
  }

  lemma {:induction false} AboveAll(rank: seq<nat>, t: nat)
    requires t < |rank|
    ensures rank[t] < Total(rank)
  {
    if t > 0 {
      AboveAll(rank[1..], t - 1);
    } else {
      TotalPositive(rank[1..]);
    }
  }

  lemma {:induction false} TotalPositive(rank: seq<nat>)
    ensures Total(rank) > 0
  {
    if rank != [] {
      TotalPositive(rank[1..]);
    }
  }

  function Height(rank: seq<nat>, late: set<Link>, l: Link): nat {
    if l.task >= |rank| then 0 else rank[l.task] + if l in late then Total(rank) else 0
  }

  ghost predicate ClosedUp(g: Graph, late: set<Link>)
    requires g.WellFormed()
  {
    forall l, d | g.DependsOn(l, d) && d in late :: l in late
  }

  // An order of all partitions in which everything late that has something to do comes after everything else.
  lemma OrderExists(g: Graph, rank: seq<nat>, late: set<Link>) returns (order: map<Link, nat>)
    requires g.WellFormed() && g.Ranked(rank) && ClosedUp(g, late)
    ensures Ordered(g, order) && forall l :: l in order <==> g.IsLink(l)
    ensures forall d, x | g.IsLink(d) && d !in late && Real(g, x) && x in late :: order[d] < order[x]
  {
    hide Ordered, Graph.WellFormed, Graph.Ranked, Place, Follows;
    var h := l => Height(rank, late, l);
    HeightClimbs(g, rank, late);
    var num := Numbering(Reals(g), h);
    order := map l | l in g.Links() :: Place(g, rank, num, l);
    PlacesAreOrdered(g, rank, num, h, order);
    forall d, x | g.IsLink(d) && d !in late && Real(g, x) && x in late
      ensures order[d] < order[x]
    {
      LateIsHigher(g, rank, late, d, x);
      PlaceBelow(g, rank, num, h, d, x);
    }
  }

  lemma LateIsHigher(g: Graph, rank: seq<nat>, late: set<Link>, d: Link, x: Link)
    requires g.WellFormed() && g.Ranked(rank) && g.IsLink(d) && d !in late && g.IsLink(x) && x in late
    ensures Height(rank, late, d) < Height(rank, late, x)
  {
    AboveAll(rank, d.task);
  }

  lemma HeightClimbs(g: Graph, rank: seq<nat>, late: set<Link>)
    requires g.WellFormed() && g.Ranked(rank) && ClosedUp(g, late)
    ensures Climbs(g, l => Height(rank, late, l))
  {
    forall l, d | g.DependsOn(l, d)
      ensures Height(rank, late, d) < Height(rank, late, l)
    {
      hide Graph.DependsOn;
      LowerRankOf(g, rank, l, d);
    }
  }

  lemma LowerRankOf(g: Graph, rank: seq<nat>, l: Link, d: Link)
    requires g.WellFormed() && g.Ranked(rank) && g.DependsOn(l, d)
    ensures |rank| == |g.counts| && g.IsLink(d) && g.IsLink(l) && rank[d.task] < rank[l.task]
  {
  }

  lemma PlacesAreOrdered(g: Graph, rank: seq<nat>, num: map<Link, nat>, h: Link -> nat, order: map<Link, nat>)
    requires g.WellFormed() && g.Ranked(rank) && num.Keys == Reals(g) && Follows(num, h) && Climbs(g, h)
    requires order == map l | l in g.Links() :: Place(g, rank, num, l)
    ensures Ordered(g, order)
  {
    hide Graph.Mirrored, Graph.Ranked, Graph.DependsOn, Follows;
    forall l | l in order
      ensures InOrder(g, order, l)
    {
      PlaceIsInOrder(g, rank, num, h, order, l);
    }
    forall x, y | x in order && y in order && order[x] == order[y] && Real(g, x) && Real(g, y)
      ensures x == y
    {
      FollowsAt(num, h, x, y);
    }
  }

  lemma FollowsAt(num: map<Link, nat>, h: Link -> nat, x: Link, y: Link)
    requires Follows(num, h) && x in num && y in num
    ensures num[x] >= 1 && (num[x] == num[y] ==> x == y) && (h(x) < h(y) ==> num[x] < num[y])
  {
  }

  lemma PlaceIsInOrder(g: Graph, rank: seq<nat>, num: map<Link, nat>, h: Link -> nat, order: map<Link, nat>, l: Link)
    requires g.WellFormed() && g.Ranked(rank) && num.Keys == Reals(g) && Follows(num, h) && Climbs(g, h)
    requires order == (map l | l in g.Links() :: Place(g, rank, num, l)) && g.IsLink(l)
    ensures InOrder(g, order, l)
  {
    hide Graph.Mirrored, Graph.Ranked, Graph.DependsOn, Follows, Place;
    forall d | g.DependsOn(l, d)
      ensures d in order && order[d] == Place(g, rank, num, d)
    {
      LowerRankOf(g, rank, l, d);
      assert d in g.Links();
    }
    if Real(g, l) {
      PlaceOfReal(g, rank, num, l);
      FollowsAt(num, h, l, l);
      forall d | g.DependsOn(l, d)
        ensures order[d] < order[l]
      {
        PlaceBelow(g, rank, num, h, d, l);
      }
    } else {
      PlaceOfNothing(g, rank, num, l);
      if order[l] != 0 {
        var d :| g.DependsOn(l, d) && Place(g, rank, num, d) == Place(g, rank, num, l);
        assert Triggers(g, order, d, l);
      }
    }
  }
}

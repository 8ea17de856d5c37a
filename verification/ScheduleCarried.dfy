// Whether a partition executes in every run in which another one does.
module ScheduleCarried {
  import opened ScheduleGraph
  import opened Scheduler
  import opened ScheduleSystem
  import opened ScheduleStale
  import opened ScheduleLoss
  import opened ScheduleCalm
  import opened ScheduleOrder

  // Whenever `a` executes and `e` finishes, `e` has executed too.
  ghost predicate AlwaysFollows(g: Graph, a: Link, e: Link)
    requires g.WellFormed()
  {
    forall states, events, times, clock: nat, j: nat, k: nat :: !Loses(g, states, events, times, clock, a, e, j, k)
  }

  // The exact condition, on every graph without cycles: `e` can be spared iff some order of completion has a calm
  // set with `e` in it and `a` outside.
  lemma FollowsExactly(g: Graph, rank: seq<nat>, a: Link, e: Link)
    requires g.WellFormed() && g.Ranked(rank) && Real(g, a) && Real(g, e)
    ensures AlwaysFollows(g, a, e) <==> forall order, calm :: !Losable(g, order, calm, a, e)
  {
    hide Loses, Losable, Graph.WellFormed, Graph.Ranked;
    forall states, events, times, clock: nat, j: nat, k: nat | Loses(g, states, events, times, clock, a, e, j, k)
      ensures exists order, calm :: Losable(g, order, calm, a, e)
    {
      LosingIsLosable(g, states, events, times, clock, a, e, j, k);
      assert Losable(g, OrderOf(states), Old(states, clock), a, e);
    }
    forall order, calm | Losable(g, order, calm, a, e)
      ensures !AlwaysFollows(g, a, e)
    {
      LosableIsNotFollowed(g, rank, order, calm, a, e);
    }
  }

  lemma LosableIsNotFollowed(g: Graph, rank: seq<nat>, order: map<Link, nat>, calm: set<Link>, a: Link, e: Link)
    requires g.WellFormed() && g.Ranked(rank) && Losable(g, order, calm, a, e) && Real(g, a) && Real(g, e)
    ensures !AlwaysFollows(g, a, e)
  {
    hide Loses, Losable, Graph.WellFormed, Graph.Ranked;
    var states, events, j, k := LosableLoses(g, rank, order, calm, a, e);
    assert Loses(g, states, events, UpToDate(g, a), CLOCK, a, e, j, k);
  }

  // ---------- what is always carried on ----------

  ghost predicate OnlyDependency(g: Graph, l: Link, d: Link)
    requires g.WellFormed()
  {
    g.DependsOn(l, d) && forall x | g.DependsOn(l, x) :: x == d
  }

  // That `d` is newer always gets through to `l`.
  ghost predicate Carries(g: Graph, l: Link, d: Link)
    requires g.WellFormed()
  {
    if Real(g, l) then Sees(g, l, d) else OnlyDependency(g, l, d)
  }

  ghost predicate CarryPath(g: Graph, path: seq<Link>, a: Link, e: Link)
    requires g.WellFormed()
  {
    |path| >= 1 && path[0] == a && path[|path| - 1] == e && forall i | 0 <= i < |path| - 1 :: Carries(g, path[i + 1], path[i])
  }

  // Staleness propagates over a whole run: if a runner executed, so does the runner of everything that a path
  // carries it to, once that finishes.
  lemma StalenessPropagates(g: Graph, states: seq<System>, events: seq<Event>, times: Times, clock: nat,
                            path: seq<Link>, a: Link, e: Link, j: nat, k: nat)
    requires g.WellFormed() && Run(g, states, events) && Opened(g, states[0].core, clock) && Timely(g, states, events, times, clock)
    requires CarryPath(g, path, a, e) && ExecutedAt(g, states, events, times, j, a) && FinishesAt(states, events, k, e)
    ensures ExecutedAt(g, states, events, times, k, e)
  {
    hide Run, Opened, Timely, ExecutedAt, FinishesAt, Graph.WellFormed, CarryPath, Carries, Ordered, Calm;
    if !ExecutedAt(g, states, events, times, k, e) {
      LosingIsLosable(g, states, events, times, clock, a, e, j, k);
      PathEnds(g, path, a, e);
      CalmBack(g, OrderOf(states), Old(states, clock), path, a, e, 0);
      assert false;
    }
  }

  lemma PathEnds(g: Graph, path: seq<Link>, a: Link, e: Link)
    requires g.WellFormed() && CarryPath(g, path, a, e)
    ensures |path| >= 1 && path[0] == a
  {
  }

  // Along a path, the calm ones are calm from the start.
  lemma {:induction false} CalmBack(g: Graph, order: map<Link, nat>, calm: set<Link>, path: seq<Link>, a: Link, e: Link, i: nat)
    requires g.WellFormed() && Calm(g, order, calm) && CarryPath(g, path, a, e) && e in calm && i < |path|
    ensures path[i] in calm
    decreases |path| - i
  {
    if i < |path| - 1 {
      CalmBack(g, order, calm, path, a, e, i + 1);
      assert StaysCalm(g, order, calm, path[i + 1]) && Carries(g, path[i + 1], path[i]);
    }
  }

  // Tasks that do nothing stand for a single partition each.
  ghost predicate Passing(g: Graph)
    requires g.WellFormed()
  {
    forall l | Nothing(g, l) :: exists d :: OnlyDependency(g, l, d)
  }

  // Where they do, with partial dependencies between tasks of any counts: `e` always follows `a` iff a path carries
  // it there.
  lemma FollowsByPath(g: Graph, rank: seq<nat>, a: Link, e: Link)
    requires g.WellFormed() && g.Ranked(rank) && Passing(g) && Real(g, a) && Real(g, e)
    ensures AlwaysFollows(g, a, e) <==> exists path :: CarryPath(g, path, a, e)
  {
    hide Loses, Losable, Graph.WellFormed, Graph.Ranked, Passing, CarryPath;
    if path :| CarryPath(g, path, a, e) {
      forall states, events, times, clock: nat, j: nat, k: nat
        ensures !Loses(g, states, events, times, clock, a, e, j, k)
      {
        CarriedIsNotLost(g, states, events, times, clock, path, a, e, j, k);
      }
    } else {
      var order := OrderExists(g, rank, {});
      NotCarriedIsCalm(g, order, a, e);
      LosableIsNotFollowed(g, rank, order, NotCarried(g, a), a, e);
    }
  }

  lemma CarriedIsNotLost(g: Graph, states: seq<System>, events: seq<Event>, times: Times, clock: nat,
                         path: seq<Link>, a: Link, e: Link, j: nat, k: nat)
    requires g.WellFormed() && CarryPath(g, path, a, e)
    ensures !Loses(g, states, events, times, clock, a, e, j, k)
  {
    hide Run, Opened, Timely, ExecutedAt, FinishesAt, Graph.WellFormed, CarryPath;
    if Loses(g, states, events, times, clock, a, e, j, k) {
      StalenessPropagates(g, states, events, times, clock, path, a, e, j, k);
      assert false;
    }
  }

  ghost function NotCarried(g: Graph, a: Link): set<Link>
    requires g.WellFormed()
  {
    set x | x in g.Links() && !exists path :: CarryPath(g, path, a, x)
  }

  lemma CarriesOn(g: Graph, a: Link, d: Link, l: Link)
    requires g.WellFormed() && Carries(g, l, d) && g.IsLink(l) && l in NotCarried(g, a) && g.IsLink(d)
    ensures d in NotCarried(g, a)
  {
    hide Graph.WellFormed, Carries, CarryPath;
    if path :| CarryPath(g, path, a, d) {
      PathOn(g, path, a, d, l);
      assert false;
    }
  }

  lemma PathOn(g: Graph, path: seq<Link>, a: Link, d: Link, l: Link)
    requires g.WellFormed() && CarryPath(g, path, a, d) && Carries(g, l, d)
    ensures CarryPath(g, path + [l], a, l)
  {
  }

  lemma NotCarriedIsCalm(g: Graph, order: map<Link, nat>, a: Link, e: Link)
    requires g.WellFormed() && Passing(g) && Ordered(g, order) && (forall l | g.IsLink(l) :: l in order)
    requires Real(g, a) && Real(g, e) && !exists path :: CarryPath(g, path, a, e)
    ensures Losable(g, order, NotCarried(g, a), a, e)
  {
    hide Graph.WellFormed, Ordered, CarryPath;
    assert CarryPath(g, [a], a, a) by { PathToItself(g, a); }
    forall l | l in NotCarried(g, a)
      ensures StaysCalm(g, order, NotCarried(g, a), l)
    {
      if Real(g, l) {
        forall d | Sees(g, l, d)
          ensures d in NotCarried(g, a)
        {
          CarriesOn(g, a, d, l);
        }
      } else {
        assert Nothing(g, l);
        var d :| OnlyDependency(g, l, d);
        OnlyTriggers(g, order, l, d);
        CarriesOn(g, a, d, l);
      }
    }
  }

  lemma PathToItself(g: Graph, a: Link)
    requires g.WellFormed()
    ensures CarryPath(g, [a], a, a)
  {
  }

  lemma OnlyTriggers(g: Graph, order: map<Link, nat>, l: Link, d: Link)
    requires g.WellFormed() && Ordered(g, order) && l in order && Nothing(g, l) && OnlyDependency(g, l, d)
    ensures g.IsLink(d)
    ensures Triggers(g, order, d, l)
  {
    assert InOrder(g, order, l);
  }

  // ---------- what gets lost ----------

  ghost predicate NeedPath(g: Graph, path: seq<Link>, a: Link, e: Link)
    requires g.WellFormed()
  {
    |path| >= 1 && path[0] == a && path[|path| - 1] == e && forall i | 0 <= i < |path| - 1 :: g.DependsOn(path[i + 1], path[i])
  }

  // `e` depends on `a` through any chain, or is `a`.
  ghost predicate Reaches(g: Graph, a: Link, e: Link)
    requires g.WellFormed()
  {
    exists path :: NeedPath(g, path, a, e)
  }

  lemma ReachesItself(g: Graph, a: Link)
    requires g.WellFormed()
    ensures Reaches(g, a, a)
  {
    assert NeedPath(g, [a], a, a);
  }

  lemma ReachesOn(g: Graph, a: Link, d: Link, l: Link)
    requires g.WellFormed() && Reaches(g, a, d) && g.DependsOn(l, d)
    ensures Reaches(g, a, l)
  {
    hide Graph.WellFormed, Graph.DependsOn;
    var path :| NeedPath(g, path, a, d);
    assert NeedPath(g, path + [l], a, l);
  }

  lemma ReachesNothingFree(g: Graph, a: Link, e: Link)
    requires g.WellFormed() && a != e && forall d :: !g.DependsOn(e, d)
    ensures !Reaches(g, a, e)
  {
    hide Graph.DependsOn, Graph.WellFormed, NeedPath;
    if path :| NeedPath(g, path, a, e) {
      LastNeed(g, path, a, e);
      assert false;
    }
  }

  lemma LastNeed(g: Graph, path: seq<Link>, a: Link, e: Link)
    requires g.WellFormed() && NeedPath(g, path, a, e)
    ensures a == e || exists d :: g.DependsOn(e, d)
  {
    if |path| > 1 {
      assert g.DependsOn(path[|path| - 2 + 1], path[|path| - 2]);
    }
  }

  lemma LastCarry(g: Graph, path: seq<Link>, a: Link, e: Link)
    requires g.WellFormed() && CarryPath(g, path, a, e)
    ensures a == e || exists d :: Carries(g, e, d)
  {
    if |path| > 1 {
      assert Carries(g, path[|path| - 2 + 1], path[|path| - 2]);
    }
  }

  ghost function Above(g: Graph, l: Link): set<Link>
    requires g.WellFormed()
  {
    set x | x in g.Links() && Reaches(g, l, x)
  }

  lemma AboveIsClosed(g: Graph, d: Link)
    requires g.WellFormed()
    ensures ClosedUp(g, Above(g, d))
  {
    hide Graph.Mirrored, Reaches, Graph.DependsOn;
    forall l, x | g.DependsOn(l, x) && x in Above(g, d)
      ensures l in Above(g, d)
    {
      ReachesOn(g, d, x, l);
      DependentIsLink(g, l, x);
    }
  }

  lemma DependentIsLink(g: Graph, l: Link, d: Link)
    requires g.WellFormed() && g.DependsOn(l, d)
    ensures g.IsLink(l) && g.IsLink(d)
  {
  }

  // A partition `n` with nothing to do that can complete with `d`, which may be up to date although `a`, another
  // dependency of `n`, executes: whoever looks at `n` to learn about `a` may not execute.
  lemma LostBehind(g: Graph, rank: seq<nat>, n: Link, a: Link, d: Link, e: Link)
    requires g.WellFormed() && g.Ranked(rank) && (forall l | Nothing(g, l) :: exists x :: g.DependsOn(l, x))
    requires Nothing(g, n) && Real(g, a) && Real(g, d) && Real(g, e) && g.DependsOn(n, a) && g.DependsOn(n, d) && g.DependsOn(e, n)
    requires !Reaches(g, a, d) && forall x | g.DependsOn(n, x) && x != d :: !Reaches(g, d, x)
    requires forall x | Sees(g, e, x) && x != n :: !Reaches(g, a, x)
    ensures !AlwaysFollows(g, a, e)
  {
    hide Graph.WellFormed, Graph.Ranked, Reaches, Graph.DependsOn, Losable, AlwaysFollows, Sees;
    AboveIsClosed(g, d);
    var order := OrderExists(g, rank, Above(g, d));
    BehindIsCalm(g, rank, order, n, a, d, e);
    LosableIsNotFollowed(g, rank, order, Behind(g, n, a, e), a, e);
  }

  ghost function Behind(g: Graph, n: Link, a: Link, e: Link): set<Link>
    requires g.WellFormed()
  {
    (set x | x in g.Links() && !Reaches(g, a, x)) + {n, e}
  }

  lemma BehindIsCalm(g: Graph, rank: seq<nat>, order: map<Link, nat>, n: Link, a: Link, d: Link, e: Link)
    requires g.WellFormed() && g.Ranked(rank) && (forall l | Nothing(g, l) :: exists x :: g.DependsOn(l, x))
    requires Nothing(g, n) && Real(g, a) && Real(g, d) && Real(g, e) && g.DependsOn(n, a) && g.DependsOn(n, d) && g.DependsOn(e, n)
    requires !Reaches(g, a, d) && forall x | g.DependsOn(n, x) && x != d :: !Reaches(g, d, x)
    requires forall x | Sees(g, e, x) && x != n :: !Reaches(g, a, x)
    requires Ordered(g, order) && forall l :: l in order <==> g.IsLink(l)
    requires forall x, y | g.IsLink(x) && x !in Above(g, d) && Real(g, y) && y in Above(g, d) :: order[x] < order[y]
    ensures Losable(g, order, Behind(g, n, a, e), a, e)
  {
    hide Graph.Mirrored, Graph.Ranked, Reaches, Graph.DependsOn, Sees, Ordered;
    var calm := Behind(g, n, a, e);
    ReachesItself(g, a);
    LowerRankOf(g, rank, n, a);
    LowerRankOf(g, rank, e, n);
    forall l | l in calm
      ensures StaysCalm(g, order, calm, l)
    {
      if l == n {
        LastTriggers(g, order, n, d);
        DependentIsLink(g, n, d);
      } else if Real(g, l) {
        forall x | Sees(g, l, x)
          ensures x in calm
        {
          SeenIsNeeded(g, l, x);
          DependentIsLink(g, l, x);
          if l != e && Reaches(g, a, x) {
            ReachesOn(g, a, x, l);
            assert false;
          }
        }
      } else {
        assert Nothing(g, l);
        var x := AnyTriggers(g, order, l);
        DependentIsLink(g, l, x);
        if Reaches(g, a, x) {
          ReachesOn(g, a, x, l);
          assert false;
        }
      }
    }
  }

  lemma LastTriggers(g: Graph, order: map<Link, nat>, n: Link, d: Link)
    requires g.WellFormed() && Ordered(g, order) && n in order && Nothing(g, n) && Real(g, d) && g.DependsOn(n, d)
    requires forall x | g.DependsOn(n, x) && x != d :: !Reaches(g, d, x)
    requires forall x, y | g.IsLink(x) && x !in Above(g, d) && Real(g, y) && y in Above(g, d) :: x in order && y in order && order[x] < order[y]
    ensures Triggers(g, order, d, n)
  {
    hide Graph.Mirrored, Reaches;
    assert InOrder(g, order, n) && InOrder(g, order, d);
    ReachesItself(g, d);
    assert d in Above(g, d);
    var t :| Triggers(g, order, t, n);
    if t != d {
      assert false;
    }
  }

  lemma AnyTriggers(g: Graph, order: map<Link, nat>, l: Link) returns (d: Link)
    requires g.WellFormed() && Ordered(g, order) && l in order && Nothing(g, l) && exists x :: g.DependsOn(l, x)
    ensures Triggers(g, order, d, l)
  {
    assert InOrder(g, order, l);
    if order[l] == 0 {
      d :| g.DependsOn(l, d);
    } else {
      d :| Triggers(g, order, d, l);
    }
  }

  // Two tasks with a partition each, a third that does nothing and depends on both, and a fourth that
  // depends on the third: the fourth may not execute although the first does.
  const DIAMOND := Graph(1, [1, 1, 1, 1], [[], [], [0, 1], [2]], [[], [], [], []],
                         [[2], [2], [3], []], [[], [], [], []], [false, false, true, false])

  lemma LostThroughDoNothing()
    ensures var a, n, e := Link(0, 0), Link(2, 0), Link(3, 0);
      DIAMOND.WellFormed() && DIAMOND.DependsOn(n, a) && DIAMOND.DependsOn(e, n) && !AlwaysFollows(DIAMOND, a, e)
  {
    var a, d, n, e := Link(0, 0), Link(1, 0), Link(2, 0), Link(3, 0);
    hide Reaches, AlwaysFollows, Graph.WellFormed, Graph.Ranked, Graph.DependsOn, Nothing, Real, Sees;
    DiamondLinks();
    DiamondNeeds();
    ReachesNothingFree(DIAMOND, a, d);
    ReachesNothingFree(DIAMOND, d, a);
    LostBehind(DIAMOND, [0, 0, 1, 2], n, a, d, e);
  }

  lemma DiamondLinks()
    ensures DIAMOND.WellFormed() && forall l :: DIAMOND.IsLink(l) <==> l.part == 0 && l.task < 4
  {
  }

  lemma DiamondNeeds()
    requires DIAMOND.WellFormed()
    ensures var a, d, n, e := Link(0, 0), Link(1, 0), Link(2, 0), Link(3, 0);
      && DIAMOND.DependsOn(n, a) && DIAMOND.DependsOn(n, d) && DIAMOND.DependsOn(e, n)
      && (forall l, x | DIAMOND.DependsOn(l, x) :: (l == n && (x == a || x == d)) || (l == e && x == n))
      && (forall x | Sees(DIAMOND, e, x) :: x == n)
      && (forall l | Nothing(DIAMOND, l) :: l == n) && Nothing(DIAMOND, n) && Real(DIAMOND, a) && Real(DIAMOND, d) && Real(DIAMOND, e)
      && DIAMOND.Ranked([0, 0, 1, 2])
  {
    hide Graph.WellFormed;
  }

  // A task with two partitions depends partially on one with a single partition: the second partition waits for it,
  // but does not look at it.
  const STAND_IN := Graph(2, [1, 2], [[], []], [[], [0]], [[], []], [[1], []], [false, false])

  lemma LostBehindStandIn()
    ensures var a, e0, e1 := Link(0, 0), Link(1, 0), Link(1, 1);
      STAND_IN.WellFormed() && STAND_IN.DependsOn(e0, a) && STAND_IN.DependsOn(e1, a) &&
      AlwaysFollows(STAND_IN, a, e0) && !AlwaysFollows(STAND_IN, a, e1)
  {
    var a, e0, e1 := Link(0, 0), Link(1, 0), Link(1, 1);
    hide AlwaysFollows, Graph.WellFormed, Graph.Ranked, Graph.DependsOn, Real, Sees, Carries, Passing;
    StandInLinks();
    StandInNeeds();
    FollowsByPath(STAND_IN, [0, 1], a, e0);
    FollowsByPath(STAND_IN, [0, 1], a, e1);
    assert CarryPath(STAND_IN, [a, e0], a, e0);
    if path :| CarryPath(STAND_IN, path, a, e1) {
      LastCarry(STAND_IN, path, a, e1);
      assert false;
    }
  }

  lemma StandInLinks()
    ensures STAND_IN.WellFormed()
  {
  }

  lemma StandInNeeds()
    requires STAND_IN.WellFormed()
    ensures var a, e0, e1 := Link(0, 0), Link(1, 0), Link(1, 1);
      && STAND_IN.DependsOn(e0, a) && STAND_IN.DependsOn(e1, a) && Carries(STAND_IN, e0, a)
      && (forall d :: !Carries(STAND_IN, e1, d)) && Passing(STAND_IN) && STAND_IN.Ranked([0, 1])
      && Real(STAND_IN, a) && Real(STAND_IN, e0) && Real(STAND_IN, e1)
  {
    hide Graph.WellFormed;
  }
}

// A run for every order of completion: one worker finishes the partitions in that order, and the calm ones never
// execute.
module ScheduleCalm {
  import opened ScheduleGraph
  import opened Scheduler
  import opened ScheduleSystem
  import opened ScheduleStale
  import opened ScheduleLoss

  // Everything is up to date, and only `a` has a reason to run.
  const ACK := 5
  const CLOCK := 100

  function UpToDate(g: Graph, a: Link): Times {
    Times(map l | l in g.Links() :: ACK, {a})
  }

  ghost predicate RealsUpTo(g: Graph, order: map<Link, nat>, c: Core, i: nat)
    requires g.WellFormed()
  {
    forall l | l in order && Real(g, l) :: l in c.completed <==> order[l] <= i
  }

  ghost predicate Quiet(calm: set<Link>, c: Core) {
    forall l | l in calm && l in c.completed :: c.completed[l] == ACK
  }

  // One worker, between two partitions: everything up to place i is completed, and nothing beyond it.
  ghost predicate Between(g: Graph, order: map<Link, nat>, s: System, i: nat)
    requires g.WellFormed()
  {
    && s.pcs == [Deciding] && !s.done && Inv(g, s) && s.core.running == {} && (forall l | l in s.core.available :: Real(g, l))
    && RealsUpTo(g, order, s.core, i)
  }

  // The partitions with nothing to do are where the order has them.
  lemma {:induction false} Fills(g: Graph, rank: seq<nat>, order: map<Link, nat>, s: System, i: nat, l: Link)
    requires g.WellFormed() && g.Ranked(rank) && Ordered(g, order) && Between(g, order, s, i) && l in order && g.IsLink(l)
    ensures l in s.core.completed <==> order[l] <= i
    decreases rank[l.task]
  {
    if Nothing(g, l) {
      assert InOrder(g, order, l);
      if l in s.core.completed {
        if order[l] != 0 {
          var d :| Triggers(g, order, d, l);
          CompletedIsReady(g, s, l);
          LowerRank(g, rank, l, d);
          Fills(g, rank, order, s, i, d);
        }
      } else if order[l] <= i {
        forall d | g.DependsOn(l, d)
          ensures d in s.core.completed.Keys
        {
          LowerRank(g, rank, l, d);
          Fills(g, rank, order, s, i, d);
        }
        ReadyIsNotLeft(g, s, l);
      }
    }
  }

  lemma ReadyIsNotLeft(g: Graph, s: System, l: Link)
    requires g.WellFormed() && Inv(g, s) && g.IsLink(l) && g.Ready(l, s.core.completed.Keys)
    ensures l in s.core.available || l in s.core.running || l in s.core.completed
  {
  }

  // A calm partition completes with a calm one that has something to do.
  lemma {:induction false} CalmTrigger(g: Graph, rank: seq<nat>, order: map<Link, nat>, calm: set<Link>, l: Link) returns (x: Link)
    requires g.WellFormed() && g.Ranked(rank) && Ordered(g, order) && Calm(g, order, calm) && l in calm && g.IsLink(l)
    ensures l in order && x in order && x in calm && Real(g, x) && order[x] == order[l] >= 1
    decreases rank[l.task]
  {
    assert InOrder(g, order, l) && StaysCalm(g, order, calm, l);
    if Real(g, l) {
      x := l;
    } else {
      var d :| d in calm && Triggers(g, order, d, l);
      LowerRank(g, rank, l, d);
      x := CalmTrigger(g, rank, order, calm, d);
    }
  }

  // Nobody that a calm partition looks at is newer.
  lemma CalmIsUpToDate(g: Graph, order: map<Link, nat>, calm: set<Link>, c: Core, a: Link, x: Link)
    requires g.WellFormed() && Calm(g, order, calm) && Quiet(calm, c) && x in calm && Real(g, x) && a !in calm
    ensures !NeedsToRun(g, c, UpToDate(g, a), x)
  {
    var times := UpToDate(g, a);
    assert StaysCalm(g, order, calm, x) && times.Ack(x) == ACK;
    forall u: nat, p: nat | g.IsLink(Link(u, p)) && Sees(g, x, Link(u, p))
      ensures AckOrCompleted(g, c, times, u, p) <= ACK
    {
      assert Link(u, p) in calm;
    }
    forall u: nat | u in g.partial[x.task]
      ensures AckOrCompleted(g, c, times, u, x.part) <= ACK
    {
      assert g.IsLink(Link(u, x.part)) ==> Sees(g, x, Link(u, x.part));
    }
    forall u: nat, p: nat | u in g.full[x.task] && g.IsTask(u) && p < g.counts[u]
      ensures AckOrCompleted(g, c, times, u, p) <= ACK
    {
      assert Sees(g, x, Link(u, p));
    }
  }

  // What is completed by place i and was not by the place before completes at place i, the calm ones with a calm one.
  lemma QuietUpTo(g: Graph, rank: seq<nat>, order: map<Link, nat>, calm: set<Link>, s: System, i: nat, s2: System, x: Link, when: nat)
    requires g.WellFormed() && g.Ranked(rank) && Ordered(g, order) && Calm(g, order, calm)
    requires Between(g, order, s, i) && Between(g, order, s2, i + 1) && Quiet(calm, s.core)
    requires x in order && Real(g, x) && order[x] == i + 1 && (x in calm ==> when == ACK)
    requires forall l | l in s2.core.completed :: s2.core.completed[l] == if l in s.core.completed then s.core.completed[l] else when
    ensures Quiet(calm, s2.core)
  {
    hide Inv, Calm, Graph.WellFormed;
    forall l | l in calm && l in s2.core.completed && l !in s.core.completed
      ensures s2.core.completed[l] == ACK
    {
      LinkCompleted(g, s2, l);
      var y := CalmTrigger(g, rank, order, calm, l);
      Fills(g, rank, order, s2, i + 1, l);
      Fills(g, rank, order, s, i, l);
      assert x == y;
    }
  }

  lemma LinkCompleted(g: Graph, s: System, l: Link)
    requires g.WellFormed() && Inv(g, s) && l in s.core.completed
    ensures g.IsLink(l)
  {
  }

  // The schedule as the setup leaves it: nothing but what does nothing is completed.
  lemma Opening(g: Graph, rank: seq<nat>, order: map<Link, nat>, calm: set<Link>) returns (s: System)
    requires g.WellFormed() && g.Ranked(rank) && Ordered(g, order) && Calm(g, order, calm)
    ensures Start(g, s) && Opened(g, s.core, CLOCK) && Between(g, order, s, 0) && Quiet(calm, s.core)
  {
    hide Placed, Safe, Settled, Inv, Graph.Mirrored, Calm, Ordered;
    var c := OpenCore(g);
    s := System(c, false, [Deciding]);
    OpeningBetween(g, order, s);
    forall l | l in calm
      ensures l !in c.completed
    {
      if l in c.completed {
        LinkCompleted(g, s, l);
        var x := CalmTrigger(g, rank, order, calm, l);
        Fills(g, rank, order, s, 0, l);
        assert false;
      }
    }
  }

  lemma OpeningBetween(g: Graph, order: map<Link, nat>, s: System)
    requires g.WellFormed() && Start(g, s) && Opened(g, s.core, CLOCK) && Ordered(g, order) && s.pcs == [Deciding]
    ensures Between(g, order, s, 0)
  {
    hide Placed, Safe, Settled, Graph.Mirrored, Graph.DependsOn;
    forall l | l in order && Real(g, l)
      ensures order[l] >= 1 && l !in s.core.completed
    {
      assert InOrder(g, order, l);
    }
  }

  lemma OpenCore(g: Graph) returns (c: Core)
    requires g.WellFormed()
    ensures Placed(g, c) && Safe(g, c) && Settled(g, c, {}) && c.running == {} && Opened(g, c, CLOCK)
  {
    var c0 := Core(g.Links(), {}, {}, map[]);
    c := CascadeExists(g, c0, CLOCK);
    CascadeKeeps(g, c0, c, CLOCK);
  }

  function WhenDone(needed: bool): nat {
    if needed then CLOCK else ACK
  }

  // Two steps: the worker takes the partition at the next place and finishes it.
  lemma FinishNext(g: Graph, rank: seq<nat>, order: map<Link, nat>, calm: set<Link>, a: Link, s: System, i: nat, x: Link)
    returns (s1: System, when: nat, s2: System)
    requires g.WellFormed() && g.Ranked(rank) && Ordered(g, order) && Calm(g, order, calm) && a !in calm
    requires Between(g, order, s, i) && Quiet(calm, s.core) && x in order && Real(g, x) && order[x] == i + 1
    ensures Step(g, s, Decide(0, Take(x)), s1) && Step(g, s1, Finish(0, when), s2)
    ensures TimelyStep(g, s1, Finish(0, when), UpToDate(g, a), CLOCK)
    ensures Between(g, order, s2, i + 1) && Quiet(calm, s2.core)
  {
    hide Inv, Ordered, Calm, Quiet, Graph.Mirrored, NeedsToRun;
    NextIsAvailable(g, rank, order, s, i, x);
    s1 := System(Unlinked(s.core, x), false, [Running(x)]);
    assert s.pcs[0 := Running(x)] == [Running(x)];
    assert Step(g, s, Decide(0, Take(x)), s1);
    StepKeepsInv(g, s, Decide(0, Take(x)), s1);
    when := WhenDone(NeedsToRun(g, s1.core, UpToDate(g, a), x));
    if x in calm {
      QuietTaken(calm, s.core, x);
      CalmIsUpToDate(g, order, calm, s1.core, a, x);
    }
    s2 := FinishTaken(g, order, s, i, x, s1, when);
    QuietUpTo(g, rank, order, calm, s, i, s2, x, when);
    assert UpToDate(g, a).Ack(x) == ACK;
  }

  lemma QuietTaken(calm: set<Link>, c: Core, x: Link)
    requires Quiet(calm, c)
    ensures Quiet(calm, Unlinked(c, x))
  {
  }

  lemma NextIsAvailable(g: Graph, rank: seq<nat>, order: map<Link, nat>, s: System, i: nat, x: Link)
    requires g.WellFormed() && g.Ranked(rank) && Ordered(g, order) && Between(g, order, s, i)
    requires x in order && Real(g, x) && order[x] == i + 1
    ensures x in s.core.available && x !in s.core.completed
  {
    assert InOrder(g, order, x);
    forall d | g.DependsOn(x, d)
      ensures d in s.core.completed.Keys
    {
      Fills(g, rank, order, s, i, d);
    }
    ReadyIsNotLeft(g, s, x);
  }

  lemma FinishTaken(g: Graph, order: map<Link, nat>, s: System, i: nat, x: Link, s1: System, when: nat) returns (s2: System)
    requires g.WellFormed() && Ordered(g, order) && Between(g, order, s, i) && x in order && Real(g, x) && order[x] == i + 1
    requires s1 == System(Unlinked(s.core, x), false, [Running(x)]) && Inv(g, s1)
    requires x in s.core.available && x !in s.core.completed
    ensures Step(g, s1, Finish(0, when), s2) && Between(g, order, s2, i + 1)
    ensures forall l | l in s2.core.completed :: s2.core.completed[l] == if l in s.core.completed then s.core.completed[l] else when
  {
    hide Inv, Step, Graph.Mirrored, Cascaded, Ordered, InOrder, RealsUpTo;
    s2 := FinishAlone(g, s1, x, when);
    StepKeepsInv(g, s1, Finish(0, when), s2);
    CascadedFrom(g, s.core, x, when, s2.core);
    PlacesAfter(g, order, s.core, i, x, s2.core);
  }

  lemma FinishAlone(g: Graph, s1: System, x: Link, when: nat) returns (s2: System)
    requires g.WellFormed() && Inv(g, s1) && s1.pcs == [Running(x)] && !s1.done
    ensures Step(g, s1, Finish(0, when), s2) && s2.pcs == [Deciding] && !s2.done
    ensures Cascaded(g, Complete(s1.core, x, when), s2.core, when)
  {
    hide Placed, Safe, Settled, Graph.Mirrored, Graph.Ready, Cascaded;
    RunnerRuns(g, s1, 0);
    LinkedPlaced(g, s1.core, x, when);
    var c := CascadeExists(g, Complete(s1.core, x, when), when);
    s2 := System(c, false, [Deciding]);
    assert WakeAll(s1.pcs) == s1.pcs && s1.pcs[0 := Deciding] == [Deciding];
  }

  lemma CascadedFrom(g: Graph, c0: Core, x: Link, when: nat, c: Core)
    requires g.WellFormed() && c0.running == {} && x in c0.available && Cascaded(g, Complete(Unlinked(c0, x), x, when), c, when)
    requires forall l | l in c0.available :: Real(g, l)
    ensures c.running == {} && (forall l | l in c.available :: Real(g, l))
    ensures forall l :: l in c.completed && Real(g, l) <==> (l in c0.completed || l == x) && Real(g, l)
    ensures x in c0.completed || x in c.completed
    ensures forall l | l in c.completed :: c.completed[l] == if l in c0.completed && l != x then c0.completed[l] else when
  {
    hide Graph.Ready, Graph.Mirrored;
  }

  lemma PlacesAfter(g: Graph, order: map<Link, nat>, c0: Core, i: nat, x: Link, c: Core)
    requires g.WellFormed() && Ordered(g, order) && RealsUpTo(g, order, c0, i) && x in order && Real(g, x) && order[x] == i + 1
    requires forall l :: l in c.completed && Real(g, l) <==> (l in c0.completed || l == x) && Real(g, l)
    ensures RealsUpTo(g, order, c, i + 1)
  {
    forall l | l in order && Real(g, l)
      ensures l in c.completed <==> order[l] <= i + 1
    {
      assert order[l] == i + 1 ==> l == x;
    }
  }

  lemma RunLonger(g: Graph, states: seq<System>, events: seq<Event>, times: Times, clock: nat, e: Event, s1: System)
    requires g.WellFormed() && Run(g, states, events) && Timely(g, states, events, times, clock)
    requires Step(g, states[|events|], e, s1) && (e.Finish? ==> TimelyStep(g, states[|events|], e, times, clock))
    ensures Run(g, states + [s1], events + [e]) && Timely(g, states + [s1], events + [e], times, clock)
  {
    hide Step, TimelyStep, Start;
    var states1, events1 := states + [s1], events + [e];
    forall k | 0 <= k < |events1|
      ensures Step(g, states1[k], events1[k], states1[k + 1])
    {
      if k < |events| {
        assert states1[k] == states[k] && states1[k + 1] == states[k + 1] && events1[k] == events[k];
      }
    }
    assert Run(g, states1, events1);
    forall k | 0 <= k < |events1| && events1[k].Finish?
      ensures TimelyStep(g, states1[k], events1[k], times, clock)
    {
      if k < |events| {
        assert states1[k] == states[k] && events1[k] == events[k];
      }
    }
  }

  // The run up to place i.
  lemma {:induction false} RunUpTo(g: Graph, rank: seq<nat>, order: map<Link, nat>, calm: set<Link>, a: Link, i: nat)
    returns (states: seq<System>, events: seq<Event>)
    requires g.WellFormed() && g.Ranked(rank) && Ordered(g, order) && Calm(g, order, calm) && a !in calm
    ensures Run(g, states, events) && Opened(g, states[0].core, CLOCK) && Timely(g, states, events, UpToDate(g, a), CLOCK)
    ensures Between(g, order, states[|events|], i) && Quiet(calm, states[|events|].core)
  {
    hide Between, Quiet, Ordered, Calm, Step, Start, TimelyStep, Graph.Mirrored, Real;
    if i == 0 {
      var s := Opening(g, rank, order, calm);
      states, events := [s], [];
    } else {
      states, events := RunUpTo(g, rank, order, calm, a, i - 1);
      var s := states[|events|];
      if x :| x in order && Real(g, x) && order[x] == i {
        var s1, when, s2 := FinishNext(g, rank, order, calm, a, s, i - 1, x);
        RunLonger(g, states, events, UpToDate(g, a), CLOCK, Decide(0, Take(x)), s1);
        states, events := states + [s1], events + [Decide(0, Take(x))];
        RunLonger(g, states, events, UpToDate(g, a), CLOCK, Finish(0, when), s2);
        states, events := states + [s2], events + [Finish(0, when)];
      } else {
        NobodyNext(g, order, s, i);
      }
    }
  }

  lemma NobodyNext(g: Graph, order: map<Link, nat>, s: System, i: nat)
    requires g.WellFormed() && i > 0 && Between(g, order, s, i - 1)
    requires forall x | x in order && Real(g, x) :: order[x] != i
    ensures Between(g, order, s, i)
  {
  }

  // From an order with a calm partition `e` and one that is not, `a`, to a run in which `a` executes and `e` does not.
  lemma LosableLoses(g: Graph, rank: seq<nat>, order: map<Link, nat>, calm: set<Link>, a: Link, e: Link)
    returns (states: seq<System>, events: seq<Event>, j: nat, k: nat)
    requires g.WellFormed() && g.Ranked(rank) && Losable(g, order, calm, a, e) && Real(g, a) && Real(g, e)
    ensures Loses(g, states, events, UpToDate(g, a), CLOCK, a, e, j, k)
  {
    hide Between, Quiet, Ordered, Calm, Step, Start, TimelyStep, Graph.Mirrored, NeedsToRun;
    CalmHasPlace(g, order, calm, e);
    var n := if order[a] < order[e] then order[e] else order[a];
    states, events := RunUpTo(g, rank, order, calm, a, n);
    var s := states[|events|];
    PlaceReached(g, order, calm, s, n, a);
    PlaceReached(g, order, calm, s, n, e);
    j := FinishedBefore(g, states, events, |events|, a);
    k := FinishedBefore(g, states, events, |events|, e);
    ToRunNow(g, states[j].core, a);
    assert TimelyStep(g, states[k], events[k], UpToDate(g, a), CLOCK);
    NotRunQuietly(g, states[k], events[k], a, e);
  }

  lemma CalmHasPlace(g: Graph, order: map<Link, nat>, calm: set<Link>, e: Link)
    requires g.WellFormed() && Calm(g, order, calm) && e in calm
    ensures e in order
  {
  }

  lemma PlaceReached(g: Graph, order: map<Link, nat>, calm: set<Link>, s: System, n: nat, l: Link)
    requires g.WellFormed() && Between(g, order, s, n) && Quiet(calm, s.core) && l in order && Real(g, l) && order[l] <= n
    ensures l in s.core.completed && (l in calm ==> s.core.completed[l] == ACK)
  {
  }

  lemma ToRunNow(g: Graph, c: Core, a: Link)
    requires g.WellFormed() && g.IsLink(a)
    ensures NeedsToRun(g, c, UpToDate(g, a), a)
  {
  }

  lemma NotRunQuietly(g: Graph, s: System, e: Event, a: Link, l: Link)
    requires g.WellFormed() && e.Finish? && TimelyStep(g, s, e, UpToDate(g, a), CLOCK) && s.pcs[e.thread] == Running(l) && e.when == ACK
    ensures !NeedsToRun(g, s.core, UpToDate(g, a), l)
  {
  }
}

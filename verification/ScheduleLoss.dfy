// Which partitions always execute when another one does: staleness can get lost behind tasks that do nothing and
// behind partial dependencies on tasks with fewer partitions.
module ScheduleLoss {
  import opened ScheduleGraph
  import opened Scheduler
  import opened ScheduleSystem
  import opened ScheduleStale

  // A partition that no worker takes: it only passes completion on.
  ghost predicate Nothing(g: Graph, l: Link)
    requires g.WellFormed()
  {
    g.IsLink(l) && g.doNothing[l.task]
  }

  ghost predicate Real(g: Graph, l: Link)
    requires g.WellFormed()
  {
    g.IsLink(l) && !g.doNothing[l.task]
  }

  // How the setup leaves a schedule: what is completed did nothing, and is marked with the time of the setup.
  ghost predicate Opened(g: Graph, c: Core, clock: nat)
    requires g.WellFormed()
  {
    (forall l | l in c.available :: Real(g, l)) && (forall l | l in c.completed :: Nothing(g, l) && c.completed[l] >= clock)
  }

  // A run in which `a` executes and `e` finishes without executing.
  ghost predicate Loses(g: Graph, states: seq<System>, events: seq<Event>, times: Times, clock: nat, a: Link, e: Link, j: nat, k: nat)
    requires g.WellFormed()
  {
    && Run(g, states, events) && Opened(g, states[0].core, clock) && Timely(g, states, events, times, clock)
    && ExecutedAt(g, states, events, times, j, a) && FinishesAt(states, events, k, e)
    && !ExecutedAt(g, states, events, times, k, e)
  }

  // ---------- orders of completion ----------

  // An order of completion: partitions with something to do one by one, each after its dependencies; the others
  // together with the last of their dependencies, or at the start when they have none.
  ghost predicate Ordered(g: Graph, order: map<Link, nat>)
    requires g.WellFormed()
  {
    && (forall l | l in order :: InOrder(g, order, l))
    && (forall x, y | x in order && y in order && order[x] == order[y] && Real(g, x) && Real(g, y) :: x == y)
  }

  ghost predicate InOrder(g: Graph, order: map<Link, nat>, l: Link)
    requires g.WellFormed() && l in order
  {
    && g.IsLink(l)
    && (forall d | g.DependsOn(l, d) :: d in order && if Real(g, l) then order[d] < order[l] else order[d] <= order[l])
    && if Real(g, l) then order[l] >= 1 else order[l] == 0 || exists d :: Triggers(g, order, d, l)
  }

  // `d` is a last dependency of `l`.
  ghost predicate Triggers(g: Graph, order: map<Link, nat>, d: Link, l: Link)
    requires g.WellFormed() && l in order
  {
    g.DependsOn(l, d) && d in order && order[d] == order[l]
  }

  // Partitions that are not touched by what executes: all that they look at is up to date; those with nothing to do
  // take their time from such a one.
  ghost predicate Calm(g: Graph, order: map<Link, nat>, calm: set<Link>)
    requires g.WellFormed()
  {
    forall l | l in calm :: l in order && StaysCalm(g, order, calm, l)
  }

  ghost predicate StaysCalm(g: Graph, order: map<Link, nat>, calm: set<Link>, l: Link)
    requires g.WellFormed() && l in order
  {
    if Real(g, l) then forall d | Sees(g, l, d) :: d in calm
    else exists d | d in calm :: Triggers(g, order, d, l)
  }

  ghost predicate Losable(g: Graph, order: map<Link, nat>, calm: set<Link>, a: Link, e: Link)
    requires g.WellFormed()
  {
    Ordered(g, order) && Calm(g, order, calm) && a in order && a !in calm && e in calm
  }

  // ---------- a run that loses has such an order ----------

  // The first state in which `l` is completed.
  ghost function First(states: seq<System>, l: Link, k: nat): (r: nat)
    requires k < |states| && l in states[k].core.completed
    ensures r <= k && l in states[r].core.completed && (r > 0 ==> l !in states[r - 1].core.completed)
  {
    if k == 0 || l !in states[k - 1].core.completed then k else First(states, l, k - 1)
  }

  ghost function OrderOf(states: seq<System>): map<Link, nat>
    requires |states| > 0
  {
    var completed := states[|states| - 1].core.completed;
    map l | l in completed :: First(states, l, |states| - 1)
  }

  lemma FirstIsBefore(g: Graph, states: seq<System>, events: seq<Event>, l: Link, i: nat)
    requires g.WellFormed() && Run(g, states, events) && i <= |events| && l in states[i].core.completed
    ensures l in OrderOf(states) && OrderOf(states)[l] <= i
  {
    hide Step, Start;
    CompletedPersists(g, states, events, i, |events|, l);
    var r := First(states, l, |events|);
    if i < r {
      CompletedPersists(g, states, events, i, r - 1, l);
    }
  }

  // No worker ever holds a partition that has nothing to do.
  lemma {:induction false} NothingIsTaken(g: Graph, states: seq<System>, events: seq<Event>, k: nat, clock: nat)
    requires g.WellFormed() && Run(g, states, events) && Opened(g, states[0].core, clock) && k <= |events|
    ensures forall l | l in states[k].core.available || l in states[k].core.running :: Real(g, l)
  {
    if k > 0 {
      NothingIsTaken(g, states, events, k - 1, clock);
      RunKeepsInv(g, states, events, k - 1);
      StepTakesReal(g, states[k - 1], events[k - 1], states[k]);
    }
  }

  lemma StepTakesReal(g: Graph, s: System, e: Event, s1: System)
    requires g.WellFormed() && Inv(g, s) && Step(g, s, e, s1)
    requires forall l | l in s.core.available || l in s.core.running :: Real(g, l)
    ensures forall l | l in s1.core.available || l in s1.core.running :: Real(g, l)
  {
    hide Safe, Settled, Graph.Ready, Graph.Mirrored;
  }

  // How a partition that was not completed at the start came to be: by the step before the first state that has it.
  lemma CompletedBy(g: Graph, states: seq<System>, events: seq<Event>, clock: nat, l: Link) returns (r: nat)
    requires g.WellFormed() && Run(g, states, events) && Opened(g, states[0].core, clock)
    requires l in OrderOf(states) && OrderOf(states)[l] > 0
    ensures r == OrderOf(states)[l] - 1 && r < |events| && events[r].Finish? && events[r].thread < |states[r].pcs|
    ensures l !in states[r].core.completed && l in states[r + 1].core.completed && states[r + 1].core.completed[l] == events[r].when
    ensures g.IsLink(l) && Inv(g, states[r]) && Inv(g, states[r + 1]) && Step(g, states[r], events[r], states[r + 1])
    ensures Real(g, l) ==> states[r].pcs[events[r].thread] == Running(l)
    ensures Nothing(g, l) ==> l in states[r].core.waiting
  {
    hide Step, Inv, Start, Graph.WellFormed;
    r := First(states, l, |events|) - 1;
    RunKeepsInv(g, states, events, r);
    RunKeepsInv(g, states, events, r + 1);
    assert Step(g, states[r], events[r], states[r + 1]);
    NewlyCompleted(g, states[r], events[r], states[r + 1], l);
    NothingIsTaken(g, states, events, r, clock);
    if states[r].pcs[events[r].thread] == Running(l) {
      RunnerRuns(g, states[r], events[r].thread);
    }
  }

  lemma RunnerRuns(g: Graph, s: System, i: nat)
    requires g.WellFormed() && Inv(g, s) && i < |s.pcs| && s.pcs[i].Running?
    ensures s.pcs[i].link in s.core.running
  {
  }

  lemma LosingIsOrdered(g: Graph, states: seq<System>, events: seq<Event>, clock: nat)
    requires g.WellFormed() && Run(g, states, events) && Opened(g, states[0].core, clock)
    ensures Ordered(g, OrderOf(states))
  {
    hide Step, Inv, Start, Graph.Mirrored, Graph.DependsOn, First, InOrder, OrderOf;
    var order := OrderOf(states);
    forall l | l in order
      ensures InOrder(g, order, l)
    {
      RunIsInOrder(g, states, events, clock, l);
    }
    forall x, y | x in order && y in order && order[x] == order[y] && Real(g, x) && Real(g, y)
      ensures x == y
    {
      RealLater(g, states, events, clock, x);
      var r := CompletedBy(g, states, events, clock, x);
      var q := CompletedBy(g, states, events, clock, y);
    }
  }

  lemma RealLater(g: Graph, states: seq<System>, events: seq<Event>, clock: nat, l: Link)
    requires g.WellFormed() && Run(g, states, events) && Opened(g, states[0].core, clock) && l in OrderOf(states) && Real(g, l)
    ensures OrderOf(states)[l] > 0
  {
  }

  lemma RunIsInOrder(g: Graph, states: seq<System>, events: seq<Event>, clock: nat, l: Link)
    requires g.WellFormed() && Run(g, states, events) && Opened(g, states[0].core, clock) && l in OrderOf(states)
    ensures InOrder(g, OrderOf(states), l)
  {
    hide Step, Inv, Start, Graph.Mirrored, Graph.DependsOn, First, OrderOf;
    var order := OrderOf(states);
    if order[l] == 0 {
      RunKeepsInv(g, states, events, 0);
      FirstIs(states, l);
      CompletedIsReady(g, states[0], l);
      forall d | g.DependsOn(l, d)
        ensures d in order && order[d] == 0
      {
        FirstIsBefore(g, states, events, d, 0);
      }
    } else {
      var r := CompletedBy(g, states, events, clock, l);
      if Real(g, l) {
        RealIsLater(g, states, events, l, r);
      } else {
        NothingIsTriggered(g, states, events, l, r);
      }
    }
  }

  lemma FirstIs(states: seq<System>, l: Link)
    requires |states| > 0 && l in OrderOf(states)
    ensures l in states[OrderOf(states)[l]].core.completed
  {
  }

  lemma CompletedIsReady(g: Graph, s: System, l: Link)
    requires g.WellFormed() && Inv(g, s) && l in s.core.completed
    ensures g.IsLink(l) && forall d | g.DependsOn(l, d) :: d in s.core.completed
  {
    assert g.Ready(l, s.core.completed.Keys);
  }

  lemma WaitingIsNotReady(g: Graph, s: System, l: Link) returns (d: Link)
    requires g.WellFormed() && Inv(g, s) && l in s.core.waiting
    ensures g.DependsOn(l, d) && d !in s.core.completed
  {
    d := IncompleteDependency(g, s.core, l);
  }

  lemma RealIsLater(g: Graph, states: seq<System>, events: seq<Event>, l: Link, r: nat)
    requires g.WellFormed() && Run(g, states, events) && l in OrderOf(states) && OrderOf(states)[l] == r + 1 && Real(g, l)
    requires r < |events| && events[r].thread < |states[r].pcs| && states[r].pcs[events[r].thread] == Running(l)
    ensures InOrder(g, OrderOf(states), l)
  {
    hide Step, Inv, Start, Graph.Mirrored, Graph.DependsOn, First, OrderOf;
    RunKeepsInv(g, states, events, r);
    forall d | g.DependsOn(l, d)
      ensures d in OrderOf(states) && OrderOf(states)[d] <= r
    {
      DependencyCompleted(g, states[r], events[r].thread, d);
      FirstIsBefore(g, states, events, d, r);
    }
  }

  lemma NothingIsTriggered(g: Graph, states: seq<System>, events: seq<Event>, l: Link, r: nat)
    requires g.WellFormed() && Run(g, states, events) && l in OrderOf(states) && OrderOf(states)[l] == r + 1 && Nothing(g, l)
    requires r < |events| && l in states[r].core.waiting && l in states[r + 1].core.completed
    ensures InOrder(g, OrderOf(states), l)
  {
    hide Step, Inv, Start, Graph.Mirrored, Graph.DependsOn, First, OrderOf;
    var order := OrderOf(states);
    RunKeepsInv(g, states, events, r);
    RunKeepsInv(g, states, events, r + 1);
    CompletedIsReady(g, states[r + 1], l);
    forall d | g.DependsOn(l, d)
      ensures d in order && order[d] <= r + 1
    {
      FirstIsBefore(g, states, events, d, r + 1);
    }
    var d := WaitingIsNotReady(g, states[r], l);
    NotYet(g, states, events, d, r);
    assert Triggers(g, order, d, l);
  }

  lemma NotYet(g: Graph, states: seq<System>, events: seq<Event>, d: Link, r: nat)
    requires g.WellFormed() && Run(g, states, events) && r <= |events| && d in OrderOf(states) && d !in states[r].core.completed
    ensures OrderOf(states)[d] > r
  {
    hide Step, Start;
    var f := OrderOf(states)[d];
    FirstIs(states, d);
    if f <= r {
      CompletedPersists(g, states, events, f, r, d);
    }
  }

  // What was marked with an old time.
  ghost function Old(states: seq<System>, clock: nat): set<Link>
    requires |states| > 0
  {
    var completed := states[|states| - 1].core.completed;
    set l | l in completed && completed[l] < clock
  }

  lemma OldSince(g: Graph, states: seq<System>, events: seq<Event>, clock: nat, l: Link, i: nat)
    requires g.WellFormed() && Run(g, states, events) && i <= |events| && l in states[i].core.completed
    ensures l in Old(states, clock) <==> states[i].core.completed[l] < clock
  {
    hide Step, Start;
    CompletedPersists(g, states, events, i, |events|, l);
  }

  lemma OldIsCalm(g: Graph, states: seq<System>, events: seq<Event>, times: Times, clock: nat, l: Link)
    requires g.WellFormed() && Run(g, states, events) && Opened(g, states[0].core, clock) && Timely(g, states, events, times, clock)
    requires l in Old(states, clock)
    ensures l in OrderOf(states) && StaysCalm(g, OrderOf(states), Old(states, clock), l)
  {
    hide Step, Inv, Start, Graph.Mirrored, Graph.DependsOn, First, OrderOf, NeedsToRun, Old;
    OldOrdered(g, states, events, clock, l);
    var order := OrderOf(states);
    var r := CompletedBy(g, states, events, clock, l);
    OldSince(g, states, events, clock, l, r + 1);
    if Real(g, l) {
      AckBeforeClock(times, l, clock);
      forall d | Sees(g, l, d)
        ensures d in Old(states, clock)
      {
        SeenIsNeeded(g, l, d);
        DependencyCompleted(g, states[r], events[r].thread, d);
        assert TimelyStep(g, states[r], events[r], times, clock);
        if states[r].core.completed[d] > times.Ack(l) {
          NewerMeansStale(g, states[r].core, times, l, d);
          assert false;
        }
        OldSince(g, states, events, clock, d, r);
      }
    } else {
      NothingIsTriggered(g, states, events, l, r);
      var d :| Triggers(g, order, d, l);
      var q := CompletedBy(g, states, events, clock, d);
      OldSince(g, states, events, clock, d, r + 1);
    }
  }

  lemma OldOrdered(g: Graph, states: seq<System>, events: seq<Event>, clock: nat, l: Link)
    requires g.WellFormed() && Run(g, states, events) && Opened(g, states[0].core, clock) && l in Old(states, clock)
    ensures l in OrderOf(states) && OrderOf(states)[l] > 0
  {
    hide Step, Start;
    FirstIs(states, l);
    if OrderOf(states)[l] == 0 {
      CompletedPersists(g, states, events, 0, |events|, l);
    }
  }

  lemma LosingIsLosable(g: Graph, states: seq<System>, events: seq<Event>, times: Times, clock: nat, a: Link, e: Link, j: nat, k: nat)
    requires g.WellFormed() && Loses(g, states, events, times, clock, a, e, j, k)
    ensures |states| > 0 && Losable(g, OrderOf(states), Old(states, clock), a, e)
  {
    hide Step, Inv, Start, Graph.Mirrored, Graph.DependsOn, First, OrderOf, NeedsToRun, Old, StaysCalm, Ordered;
    LosingIsOrdered(g, states, events, clock);
    forall l | l in Old(states, clock)
      ensures l in OrderOf(states) && StaysCalm(g, OrderOf(states), Old(states, clock), l)
    {
      OldIsCalm(g, states, events, times, clock, l);
    }
    FinishedIsMarked(g, states, events, j, a);
    FinishedIsMarked(g, states, events, k, e);
    FirstIsBefore(g, states, events, a, j + 1);
    OldSince(g, states, events, clock, a, j + 1);
    OldSince(g, states, events, clock, e, k + 1);
    AckBeforeClock(times, e, clock);
    assert TimelyStep(g, states[j], events[j], times, clock) && TimelyStep(g, states[k], events[k], times, clock);
  }

  lemma FinishedIsMarked(g: Graph, states: seq<System>, events: seq<Event>, k: nat, l: Link)
    requires g.WellFormed() && Run(g, states, events) && FinishesAt(states, events, k, l)
    ensures l in states[k + 1].core.completed && states[k + 1].core.completed[l] == events[k].when
  {
    hide Step, Inv, Start;
    RunKeepsInv(g, states, events, k);
    assert Step(g, states[k], events[k], states[k + 1]);
    FinishMarks(g, states[k], events[k], states[k + 1]);
  }
}

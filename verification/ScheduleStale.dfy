// Which runners execute: acknowledgement times, and how a partition that ran makes everything that depends on
// it run again.
module ScheduleStale {
  import opened ScheduleGraph
  import opened Scheduler
  import opened ScheduleSystem

  // The acknowledgement file times read at the start (0 for no file), and the partitions that run for other
  // reasons: run_everytime, --force, or an input file newer than the acknowledgement.
  datatype Times = Times(acks: map<Link, nat>, always: set<Link>)
  {
    function Ack(l: Link): nat {
      if l in acks then acks[l] else 0
    }
  }

  // get_ack_time_for_task_and_partition: 0 beyond the task's last partition.
  function AckOrCompleted(g: Graph, c: Core, times: Times, t: nat, part: nat): nat {
    var l := Link(t, part);
    if !g.IsLink(l) then 0
    else
      var completed := if l in c.completed then c.completed[l] else 0;
      if times.Ack(l) > completed then times.Ack(l) else completed
  }

  // worker_needs_to_run
  predicate NeedsToRun(g: Graph, c: Core, times: Times, l: Link)
    requires |g.full| == |g.partial| == |g.counts| && g.IsLink(l)
  {
    || times.Ack(l) == 0
    || l in times.always
    || (exists u | u in g.full[l.task] && g.IsTask(u) ::
          exists p | 0 <= p < g.counts[u] :: AckOrCompleted(g, c, times, u, p) > times.Ack(l))
    || (exists u | u in g.partial[l.task] :: AckOrCompleted(g, c, times, u, l.part) > times.Ack(l))
  }

  // The clock never shows a time at or before an old acknowledgement; a partition that does not need to run
  // keeps its old time.
  ghost predicate Timely(g: Graph, states: seq<System>, events: seq<Event>, times: Times, clock: nat)
    requires g.WellFormed() && Run(g, states, events)
  {
    && clock > 0 && (forall l | l in times.acks :: times.acks[l] < clock)
    && forall k | 0 <= k < |events| && events[k].Finish? :: TimelyStep(g, states[k], events[k], times, clock)
  }

  ghost predicate TimelyStep(g: Graph, s: System, e: Event, times: Times, clock: nat)
    requires g.WellFormed() && e.Finish?
  {
    && e.thread < |s.pcs| && s.pcs[e.thread].Running? && g.IsLink(s.pcs[e.thread].link)
    && var l := s.pcs[e.thread].link;
       if NeedsToRun(g, s.core, times, l) then e.when >= clock else e.when == times.Ack(l)
  }

  ghost predicate FinishesAt(states: seq<System>, events: seq<Event>, k: nat, l: Link) {
    && k < |events| < |states| && events[k].Finish? && events[k].thread < |states[k].pcs|
    && states[k].pcs[events[k].thread] == Running(l)
  }

  // The runner of `l` executed, in the step that ends at `k`.
  ghost predicate ExecutedAt(g: Graph, states: seq<System>, events: seq<Event>, times: Times, k: nat, l: Link)
    requires g.WellFormed()
  {
    FinishesAt(states, events, k, l) && g.IsLink(l) && NeedsToRun(g, states[k].core, times, l)
  }

  // What looking at dependencies from `l` comes upon: not a partner that stands in for a missing partition.
  predicate Sees(g: Graph, l: Link, d: Link)
    requires g.WellFormed()
  {
    g.IsLink(l) && g.IsLink(d) && (d.task in g.full[l.task] || (d.task in g.partial[l.task] && d.part == l.part))
  }

  lemma {:induction false} CompletedPersists(g: Graph, states: seq<System>, events: seq<Event>, j: nat, k: nat, l: Link)
    requires g.WellFormed() && Run(g, states, events) && j <= k <= |events| && l in states[j].core.completed
    ensures l in states[k].core.completed && states[k].core.completed[l] == states[j].core.completed[l]
    decreases k - j
  {
    hide Step, Inv, Start;
    if j < k {
      CompletedPersists(g, states, events, j, k - 1, l);
      RunKeepsInv(g, states, events, k - 1);
      CompletedStays(g, states[k - 1], events[k - 1], states[k], l);
    }
  }

  lemma CompletedStays(g: Graph, s: System, e: Event, s1: System, l: Link)
    requires g.WellFormed() && Inv(g, s) && Step(g, s, e, s1) && l in s.core.completed
    ensures l in s1.core.completed && s1.core.completed[l] == s.core.completed[l]
  {
    hide Safe, Settled, Graph.WellFormed, Graph.Ready;
  }

  // A partition with something to do that is completed during a run was finished by a thread, at the time it is
  // marked with.
  lemma {:induction false} FinishedBefore(g: Graph, states: seq<System>, events: seq<Event>, k: nat, l: Link) returns (j: nat)
    requires g.WellFormed() && Run(g, states, events) && k <= |events| && g.IsLink(l) && !g.doNothing[l.task]
    requires l !in states[0].core.completed && l in states[k].core.completed
    ensures j < k && FinishesAt(states, events, j, l) && states[k].core.completed[l] == events[j].when
  {
    hide Step, Inv, Start, Graph.WellFormed;
    RunKeepsInv(g, states, events, k - 1);
    assert Step(g, states[k - 1], events[k - 1], states[k]);
    if l in states[k - 1].core.completed {
      CompletedStays(g, states[k - 1], events[k - 1], states[k], l);
      j := FinishedBefore(g, states, events, k - 1, l);
    } else {
      j := k - 1;
      NewlyCompleted(g, states[j], events[j], states[k], l);
    }
  }

  // The others are completed while they wait, at the time of the partition that released them.
  lemma NewlyCompleted(g: Graph, s: System, e: Event, s1: System, l: Link)
    requires g.WellFormed() && Inv(g, s) && Step(g, s, e, s1) && l !in s.core.completed && l in s1.core.completed
    ensures e.Finish? && e.thread < |s.pcs| && s1.core.completed[l] == e.when && g.IsLink(l)
    ensures s.pcs[e.thread] == Running(l) || (l in s.core.waiting && g.doNothing[l.task])
  {
    hide Safe, Settled, Graph.Ready, Graph.Mirrored;
  }

  // A dependency that completed after the acknowledgement makes whoever sees it need to run.
  lemma NewerMeansStale(g: Graph, c: Core, times: Times, l: Link, d: Link)
    requires g.WellFormed() && Sees(g, l, d) && d in c.completed && c.completed[d] > times.Ack(l)
    ensures NeedsToRun(g, c, times, l)
  {
    assert AckOrCompleted(g, c, times, d.task, d.part) > times.Ack(l);
  }

  // One step: what sees a partition whose runner executed has its own runner executed.
  lemma DependentExecutes(g: Graph, states: seq<System>, events: seq<Event>, times: Times, clock: nat, j: nat, d: Link, k: nat, l: Link)
    requires g.WellFormed() && Run(g, states, events) && Timely(g, states, events, times, clock)
    requires ExecutedAt(g, states, events, times, j, d) && FinishesAt(states, events, k, l) && Sees(g, l, d)
    ensures j < k && ExecutedAt(g, states, events, times, k, l)
  {
    hide Step, Inv, Start, NeedsToRun, Graph.WellFormed;
    RunKeepsInv(g, states, events, j);
    RunKeepsInv(g, states, events, k);
    SeenIsNeeded(g, l, d);
    DependencyCompleted(g, states[k], events[k].thread, d);
    NotYetCompleted(g, states[j], events[j].thread);
    if k <= j {
      CompletedPersists(g, states, events, k, j, d);
    }
    FinishMarks(g, states[j], events[j], states[j + 1]);
    CompletedPersists(g, states, events, j + 1, k, d);
    LinkOf(g, states[k], events[k].thread);
    AckBeforeClock(times, l, clock);
    NewerMeansStale(g, states[k].core, times, l, d);
  }

  lemma SeenIsNeeded(g: Graph, l: Link, d: Link)
    requires g.WellFormed() && Sees(g, l, d)
    ensures g.DependsOn(l, d)
  {
  }

  lemma AckBeforeClock(times: Times, l: Link, clock: nat)
    requires clock > 0 && forall l | l in times.acks :: times.acks[l] < clock
    ensures times.Ack(l) < clock
  {
  }

  lemma FinishMarks(g: Graph, s: System, e: Event, s1: System)
    requires g.WellFormed() && Inv(g, s) && Step(g, s, e, s1) && e.Finish?
    ensures s.pcs[e.thread].link in s1.core.completed && s1.core.completed[s.pcs[e.thread].link] == e.when
  {
    NotYetCompleted(g, s, e.thread);
  }

  lemma LinkOf(g: Graph, s: System, i: nat)
    requires g.WellFormed() && Inv(g, s) && i < |s.pcs| && s.pcs[i].Running?
    ensures g.IsLink(s.pcs[i].link)
  {
  }

  lemma DependencyCompleted(g: Graph, s: System, i: nat, d: Link)
    requires g.WellFormed() && Inv(g, s) && i < |s.pcs| && s.pcs[i].Running? && g.DependsOn(s.pcs[i].link, d)
    ensures d in s.core.completed
  {
    RunningIsReady(g, s, i);
    assert d in s.core.completed.Keys;
  }

  lemma RunningIsReady(g: Graph, s: System, i: nat)
    requires g.WellFormed() && Inv(g, s) && i < |s.pcs| && s.pcs[i].Running?
    ensures g.IsLink(s.pcs[i].link) && g.Ready(s.pcs[i].link, s.core.completed.Keys)
  {
  }

  lemma NotYetCompleted(g: Graph, s: System, i: nat)
    requires g.WellFormed() && Inv(g, s) && i < |s.pcs| && s.pcs[i].Running?
    ensures s.pcs[i].link !in s.core.completed
  {
  }

  lemma FinishesOnce(g: Graph, states: seq<System>, events: seq<Event>, j: nat, k: nat, l: Link)
    requires g.WellFormed() && Run(g, states, events) && FinishesAt(states, events, j, l) && FinishesAt(states, events, k, l)
    ensures j == k
  {
    var a, b := if j < k then j else k, if j < k then k else j;
    if a < b {
      RunKeepsInv(g, states, events, a);
      RunKeepsInv(g, states, events, b);
      assert Step(g, states[a], events[a], states[a + 1]);
      CompletedPersists(g, states, events, a + 1, b, l);
      NotYetCompleted(g, states[b], events[b].thread);
    }
  }

  // ---------- when a partition executes ----------

  // Something that `l` looks at is newer than its acknowledgement: completed later, or acknowledged later itself.
  ghost predicate NewerSeen(g: Graph, c: Core, acks: map<Link, nat>, l: Link)
    requires g.WellFormed() && l in acks
  {
    exists d :: Sees(g, l, d) && ((d in c.completed && c.completed[d] > acks[l]) || (d in acks && acks[d] > acks[l]))
  }

  // In every run: a partition that finishes is marked with a new time exactly when it has no acknowledgement, or
  // runs always, or looks at something newer; else with its acknowledgement.
  lemma MarkedExactly(g: Graph, states: seq<System>, events: seq<Event>, times: Times, clock: nat, k: nat, l: Link)
    requires g.WellFormed() && Run(g, states, events) && Timely(g, states, events, times, clock) && FinishesAt(states, events, k, l)
    ensures l in states[k + 1].core.completed
    ensures var when := states[k + 1].core.completed[l];
      if l !in times.acks || times.acks[l] == 0 || l in times.always || NewerSeen(g, states[k].core, times.acks, l) then when >= clock
      else when == times.acks[l] < clock
  {
    hide Inv, Step, Start, NewerSeen, Graph.Mirrored, NeedsToRun;
    RunKeepsInv(g, states, events, k);
    LinkOf(g, states[k], events[k].thread);
    assert Step(g, states[k], events[k], states[k + 1]);
    FinishMarks(g, states[k], events[k], states[k + 1]);
    assert TimelyStep(g, states[k], events[k], times, clock);
    NeedsExactly(g, states[k].core, times, l);
  }

  lemma NeedsExactly(g: Graph, c: Core, times: Times, l: Link)
    requires g.WellFormed() && g.IsLink(l)
    ensures NeedsToRun(g, c, times, l) <==>
      l !in times.acks || times.acks[l] == 0 || l in times.always || NewerSeen(g, c, times.acks, l)
  {
    hide Graph.Mirrored;
    if l in times.acks && times.acks[l] != 0 {
      if d :| Sees(g, l, d) && ((d in c.completed && c.completed[d] > times.acks[l]) || (d in times.acks && times.acks[d] > times.acks[l])) {
        assert AckOrCompleted(g, c, times, d.task, d.part) > times.Ack(l);
      }
      forall u: nat, p: nat | AckOrCompleted(g, c, times, u, p) > times.Ack(l) && Sees(g, l, Link(u, p))
        ensures NewerSeen(g, c, times.acks, l)
      {
      }
    }
  }

  // So with no acknowledgements at all, whatever finishes has executed.
  lemma FirstRunExecutesAll(g: Graph, states: seq<System>, events: seq<Event>, times: Times, clock: nat, k: nat, l: Link)
    requires g.WellFormed() && Run(g, states, events) && Timely(g, states, events, times, clock) && FinishesAt(states, events, k, l)
    requires times.acks == map[]
    ensures ExecutedAt(g, states, events, times, k, l) && states[k + 1].core.completed[l] >= clock
  {
    hide Inv, Step, Start, NewerSeen, Graph.Mirrored, NeedsToRun;
    MarkedExactly(g, states, events, times, clock, k, l);
    RunKeepsInv(g, states, events, k);
    LinkOf(g, states[k], events[k].thread);
    NeedsExactly(g, states[k].core, times, l);
  }
}

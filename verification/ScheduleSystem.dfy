// Worker threads over the shared state: every critical section is one step. What holds in every reachable
// state, why no thread is left asleep, and why every run without failures ends with everything completed.
module ScheduleSystem {
  import opened ScheduleGraph
  import opened Scheduler

  // Where a thread is: about to ask for work, asleep on the condition variable, woken and about to look
  // again, running a partition, about to mark the schedule as done, or gone.
  datatype Pc = Deciding | Sleeping | Woken | Running(link: Link) | Exiting | Exited

  datatype System = System(core: Core, done: bool, pcs: seq<Pc>)

  // A thread decides; the condition variable wakes it for no reason; its partition completes; its runner
  // fails; it marks the schedule as done and goes.
  datatype Event = Decide(thread: nat, decision: Decision) | Wake(thread: nat) | Finish(thread: nat, when: nat)
                 | Fail(thread: nat) | Exit(thread: nat)

  function After(d: Decision): Pc {
    match d
    case Sleep => Sleeping
    case Take(l) => Running(l)
    case Leave => Exiting
  }

  function WakeAll(pcs: seq<Pc>): (r: seq<Pc>)
    ensures |r| == |pcs|
  {
    seq(|pcs|, i requires 0 <= i < |pcs| => if pcs[i].Sleeping? then Woken else pcs[i])
  }

  ghost predicate Step(g: Graph, s: System, e: Event, s1: System)
    requires g.WellFormed()
  {
    && e.thread < |s.pcs|
    && match e
       case Decide(i, d) =>
         && (s.pcs[i].Deciding? || s.pcs[i].Woken?)
         && Decides(s.core, s.done, s.pcs[i].Deciding?, d, s1.core)
         && s1.done == s.done && s1.pcs == s.pcs[i := After(d)]
       case Wake(i) => s.pcs[i].Sleeping? && s1 == s.(pcs := s.pcs[i := Woken])
       case Finish(i, when) =>
         && s.pcs[i].Running?
         && Cascaded(g, Complete(s.core, s.pcs[i].link, when), s1.core, when) && Settled(g, s1.core, {})
         && s1.done == s.done
         && s1.pcs == (if Broadcasts(s.core, s1.core, s.done) then WakeAll(s.pcs) else s.pcs)[i := Deciding]
       case Fail(i) => s.pcs[i].Running? && s1 == s.(pcs := s.pcs[i := Exiting])
       case Exit(i) =>
         && s.pcs[i].Exiting? && s1.core == s.core && s1.done
         && s1.pcs == (if s.done then s.pcs else WakeAll(s.pcs))[i := Exited]
  }

  ghost predicate Start(g: Graph, s: System)
    requires g.WellFormed()
  {
    && Placed(g, s.core) && Safe(g, s.core) && Settled(g, s.core, {}) && s.core.running == {}
    && !s.done && |s.pcs| >= 1 && forall i | 0 <= i < |s.pcs| :: s.pcs[i].Deciding?
  }

  // ---------- safety, failures included ----------

  // No two threads run the same partition, nor one that is not out for running; nobody sleeps while there is
  // work or after the end; threads go only after the end.
  ghost predicate Threads(s: System) {
    && (forall i | 0 <= i < |s.pcs| && s.pcs[i].Running? :: s.pcs[i].link in s.core.running)
    && (forall i, j | 0 <= i < j < |s.pcs| && s.pcs[i].Running? && s.pcs[j].Running? :: s.pcs[i].link != s.pcs[j].link)
    && (forall i | 0 <= i < |s.pcs| && s.pcs[i].Sleeping? :: !s.done && s.core.available == {})
    && (forall i | 0 <= i < |s.pcs| && s.pcs[i].Exited? :: s.done)
  }

  ghost predicate Inv(g: Graph, s: System)
    requires g.WellFormed()
  {
    Placed(g, s.core) && Safe(g, s.core) && Settled(g, s.core, {}) && Threads(s) && |s.pcs| >= 1
  }

  lemma StepKeepsInv(g: Graph, s: System, e: Event, s1: System)
    requires g.WellFormed() && Inv(g, s) && Step(g, s, e, s1)
    ensures Inv(g, s1) && |s1.pcs| == |s.pcs|
  {
    hide Placed, Safe, Cascaded, Graph.WellFormed, Graph.Ready;
    match e
    case Decide(i, d) =>
      if d.Take? {
        UnlinkedPlaced(g, s.core, d.link);
        SafeStarted(g, s.core, d.link);
        TakeKeepsSettled(g, s.core, d.link);
      }
    case Finish(i, when) =>
      FinishKeepsPlaces(g, s, i, when, s1);
      FinishKeepsThreads(g, s, i, when, s1);
    case _ =>
  }

  lemma TakeKeepsSettled(g: Graph, c: Core, l: Link)
    requires g.WellFormed() && Settled(g, c, {})
    ensures Settled(g, Unlinked(c, l), {})
  {
  }

  lemma FinishKeepsPlaces(g: Graph, s: System, i: nat, when: nat, s1: System)
    requires g.WellFormed() && Inv(g, s) && Step(g, s, Finish(i, when), s1)
    ensures Placed(g, s1.core) && Safe(g, s1.core) && Settled(g, s1.core, {})
  {
    CompletionKeeps(g, s.core, s.pcs[i].link, when);
    CascadeKeeps(g, Complete(s.core, s.pcs[i].link, when), s1.core, when);
  }

  lemma FinishKeepsThreads(g: Graph, s: System, i: nat, when: nat, s1: System)
    requires g.WellFormed() && Inv(g, s) && Step(g, s, Finish(i, when), s1)
    ensures Threads(s1)
  {
    hide Placed, Safe, Settled, Graph.WellFormed, Graph.Ready;
    assert s1.core.running == s.core.running - {s.pcs[i].link};
    forall j | 0 <= j < |s1.pcs| && s1.pcs[j].Sleeping?
      ensures !s1.done && s1.core.available == {}
    {
      assert s.pcs[j].Sleeping?;
    }
  }

  // ---------- runs ----------

  // states[k + 1] follows states[k] by events[k].
  ghost predicate Run(g: Graph, states: seq<System>, events: seq<Event>)
    requires g.WellFormed()
  {
    && |states| == |events| + 1 && Start(g, states[0])
    && forall k | 0 <= k < |events| :: Step(g, states[k], events[k], states[k + 1])
  }

  lemma {:induction false} RunKeepsInv(g: Graph, states: seq<System>, events: seq<Event>, k: nat)
    requires g.WellFormed() && Run(g, states, events) && k <= |events|
    ensures Inv(g, states[k]) && |states[k].pcs| == |states[0].pcs|
  {
    if k > 0 {
      RunKeepsInv(g, states, events, k - 1);
      StepKeepsInv(g, states[k - 1], events[k - 1], states[k]);
    }
  }

  // Whatever has left the waiting and available places never comes back to them.
  lemma {:induction false} StartedStays(g: Graph, states: seq<System>, events: seq<Event>, j: nat, k: nat, l: Link)
    requires g.WellFormed() && Run(g, states, events) && j <= k <= |events|
    requires l !in states[j].core.waiting && l !in states[j].core.available
    ensures l !in states[k].core.waiting && l !in states[k].core.available
    decreases k - j
  {
    if j < k {
      StartedStays(g, states, events, j, k - 1, l);
      assert Step(g, states[k - 1], events[k - 1], states[k]);
    }
  }

  // In every run, failures included: a partition is started only after all its dependencies have completed,
  // and at most once.
  lemma StartedOnceAndReady(g: Graph, states: seq<System>, events: seq<Event>, j: nat, k: nat, l: Link)
    requires g.WellFormed() && Run(g, states, events) && j <= k < |events|
    requires events[k].Decide? && events[k].decision == Take(l)
    ensures forall d | g.DependsOn(l, d) :: d in states[k].core.completed
    ensures j < k && events[j].Decide? ==> events[j].decision != Take(l)
  {
    RunKeepsInv(g, states, events, k);
    assert Step(g, states[k], events[k], states[k + 1]);
    SafeStarted(g, states[k].core, l);
    if j < k && events[j].Decide? && events[j].decision == Take(l) {
      RunKeepsInv(g, states, events, j);
      assert Step(g, states[j], events[j], states[j + 1]);
      UnlinkedPlaced(g, states[j].core, l);
      StartedStays(g, states, events, j + 1, k, l);
    }
  }

  // ---------- no deadlock ----------

  predicate Awake(pc: Pc) {
    !pc.Sleeping? && !pc.Exited?
  }

  ghost predicate SomeAwake(s: System) {
    exists i :: 0 <= i < |s.pcs| && Awake(s.pcs[i])
  }

  ghost predicate HasRunner(s: System, l: Link) {
    exists i :: 0 <= i < |s.pcs| && s.pcs[i] == Running(l)
  }

  ghost predicate Drained(c: Core) {
    c.available == {} && c.waiting == {}
  }

  // What also holds while no runner fails: everything that is out for running has its thread; threads leave,
  // and the schedule is done, only when nothing is waiting or available; and if threads sleep while nothing is
  // waiting any more, somebody is still up to end it.
  ghost predicate Lively(s: System) {
    && (forall l | l in s.core.running :: HasRunner(s, l))
    && (forall i | 0 <= i < |s.pcs| && s.pcs[i].Exiting? :: s.done || Drained(s.core))
    && (s.done ==> Drained(s.core))
    && (forall i | 0 <= i < |s.pcs| && s.pcs[i].Sleeping? :: s.core.waiting != {} || SomeAwake(s))
  }

  lemma StepKeepsLively(g: Graph, s: System, e: Event, s1: System)
    requires g.WellFormed() && Inv(g, s) && Lively(s) && Step(g, s, e, s1) && !e.Fail?
    ensures Lively(s1)
  {
    hide Placed, Safe, Settled, Graph.WellFormed, Graph.Ready;
    match e
    case Decide(i, d) => DecideKeepsLively(g, s, i, d, s1);
    case Wake(i) =>
      RunnersStay(s, i, s1);
      assert Awake(s1.pcs[i]);
    case Finish(i, when) => FinishKeepsLively(g, s, i, when, s1);
    case Exit(i) =>
      RunnersStay(s, i, s1);
      assert Drained(s1.core);
      forall j | 0 <= j < |s1.pcs|
        ensures !s1.pcs[j].Sleeping?
      {
      }
  }

  // A step of thread i that does not start or finish anything leaves every runner where it is.
  lemma RunnersStay(s: System, i: nat, s1: System)
    requires i < |s.pcs| == |s1.pcs| && !s.pcs[i].Running?
    requires forall j | 0 <= j < |s.pcs| && s.pcs[j].Running? :: s1.pcs[j] == s.pcs[j]
    ensures forall l | HasRunner(s, l) :: HasRunner(s1, l)
  {
    forall l | HasRunner(s, l)
      ensures HasRunner(s1, l)
    {
      var j :| 0 <= j < |s.pcs| && s.pcs[j] == Running(l);
      assert s1.pcs[j] == Running(l);
    }
  }

  lemma DecideKeepsLively(g: Graph, s: System, i: nat, d: Decision, s1: System)
    requires g.WellFormed() && Inv(g, s) && Lively(s) && Step(g, s, Decide(i, d), s1)
    ensures Lively(s1)
  {
    hide Placed, Safe, Settled, Graph.WellFormed, Graph.Ready;
    RunnersStay(s, i, s1);
    assert s1.pcs[i] == After(d);
    forall l | l in s1.core.running
      ensures HasRunner(s1, l)
    {
      if l !in s.core.running {
        assert s1.pcs[i] == Running(l);
      }
    }
    forall j | 0 <= j < |s1.pcs| && s1.pcs[j].Sleeping?
      ensures s1.core.waiting != {} || SomeAwake(s1)
    {
      if !d.Sleep? {
        assert Awake(s1.pcs[i]);
      }
    }
  }

  lemma FinishKeepsLively(g: Graph, s: System, i: nat, when: nat, s1: System)
    requires g.WellFormed() && Inv(g, s) && Lively(s) && Step(g, s, Finish(i, when), s1)
    ensures Lively(s1)
  {
    hide Placed, Safe, Settled, Graph.WellFormed, Graph.Ready;
    var l := s.pcs[i].link;
    forall x | x in s1.core.running
      ensures HasRunner(s1, x)
    {
      assert x != l && HasRunner(s, x);
      var j :| 0 <= j < |s.pcs| && s.pcs[j] == Running(x);
      assert s1.pcs[j] == Running(x);
    }
    assert s1.pcs[i].Deciding? && Awake(s1.pcs[i]);
    assert Drained(s.core) ==> Drained(s1.core);
    forall j | 0 <= j < |s1.pcs| && s1.pcs[j].Exiting?
      ensures s1.done || Drained(s1.core)
    {
      assert s.pcs[j].Exiting?;
    }
  }

  lemma RunnerIsAwake(s: System, l: Link)
    requires HasRunner(s, l)
    ensures SomeAwake(s)
  {
    var i :| 0 <= i < |s.pcs| && s.pcs[i] == Running(l);
    assert Awake(s.pcs[i]);
  }

  // What holds while runners may fail: what is out for running has its thread, or somebody is about to announce the
  // end; and if threads sleep while nothing is waiting any more, somebody is up.
  ghost predicate Watched(s: System) {
    && (forall l | l in s.core.running && !s.done :: HasRunner(s, l) || SomeExiting(s))
    && (forall i | 0 <= i < |s.pcs| && s.pcs[i].Sleeping? :: s.core.waiting != {} || SomeAwake(s))
  }

  ghost predicate SomeExiting(s: System) {
    exists i :: 0 <= i < |s.pcs| && s.pcs[i].Exiting?
  }

  lemma ExitingIsAwake(s: System)
    requires SomeExiting(s)
    ensures SomeAwake(s)
  {
    var i :| 0 <= i < |s.pcs| && s.pcs[i].Exiting?;
    assert Awake(s.pcs[i]);
  }

  lemma StepKeepsWatched(g: Graph, s: System, e: Event, s1: System)
    requires g.WellFormed() && Inv(g, s) && Watched(s) && Step(g, s, e, s1)
    ensures Watched(s1)
  {
    hide Placed, Safe, Settled, Cascaded, Graph.WellFormed, Graph.Ready, HasRunner, SomeExiting, SomeAwake;
    forall l | l in s1.core.running && !s1.done
      ensures HasRunner(s1, l) || SomeExiting(s1)
    {
      StepKeepsRunner(g, s, e, s1, l);
    }
    forall i | 0 <= i < |s1.pcs| && s1.pcs[i].Sleeping?
      ensures s1.core.waiting != {} || SomeAwake(s1)
    {
      StepKeepsSomeAwake(g, s, e, s1, i);
    }
  }

  lemma StepKeepsRunner(g: Graph, s: System, e: Event, s1: System, l: Link)
    requires g.WellFormed() && Inv(g, s) && Watched(s) && Step(g, s, e, s1) && l in s1.core.running && !s1.done
    ensures HasRunner(s1, l) || SomeExiting(s1)
  {
    hide Placed, Safe, Settled, Graph.WellFormed, Graph.Ready;
    var i := e.thread;
    if e.Fail? {
      assert s1.pcs[i].Exiting?;
    } else if s1.pcs[i] != Running(l) {
      assert l in s.core.running && (e.Finish? ==> s.pcs[i] != Running(l));
      if HasRunner(s, l) {
        var j :| 0 <= j < |s.pcs| && s.pcs[j] == Running(l);
        assert s1.pcs[j] == Running(l);
      } else {
        var j :| 0 <= j < |s.pcs| && s.pcs[j].Exiting?;
        assert s1.pcs[j].Exiting?;
      }
    }
  }

  lemma StepKeepsSomeAwake(g: Graph, s: System, e: Event, s1: System, i: nat)
    requires g.WellFormed() && Inv(g, s) && Watched(s) && Step(g, s, e, s1) && i < |s1.pcs| && s1.pcs[i].Sleeping?
    ensures s1.core.waiting != {} || SomeAwake(s1)
  {
    hide Placed, Safe, Settled, Cascaded, Graph.WellFormed, Graph.Ready;
    if !(e.Decide? && e.decision.Sleep?) && !e.Exit? {
      assert Awake(s1.pcs[e.thread]);
    }
  }

  lemma {:induction false} RunKeepsWatched(g: Graph, states: seq<System>, events: seq<Event>, k: nat)
    requires g.WellFormed() && Run(g, states, events) && k <= |events|
    ensures Watched(states[k])
  {
    if k > 0 {
      RunKeepsWatched(g, states, events, k - 1);
      RunKeepsInv(g, states, events, k - 1);
      StepKeepsWatched(g, states[k - 1], events[k - 1], states[k]);
    }
  }

  // With no cycle among the dependencies and nothing running or available, nothing waits.
  lemma {:induction false} NothingLeftWaiting(g: Graph, c: Core, rank: seq<nat>, l: Link)
    requires g.WellFormed() && g.Ranked(rank) && Placed(g, c) && Settled(g, c, {})
    requires c.running == {} && c.available == {} && g.IsLink(l)
    ensures l in c.completed
    decreases rank[l.task]
  {
    if l in c.waiting {
      var d := IncompleteDependency(g, c, l);
      LowerRank(g, rank, l, d);
      NothingLeftWaiting(g, c, rank, d);
    }
  }

  lemma IncompleteDependency(g: Graph, c: Core, l: Link) returns (d: Link)
    requires g.WellFormed() && Settled(g, c, {}) && l in c.waiting
    ensures g.DependsOn(l, d) && d !in c.completed
  {
    d :| g.DependsOn(l, d) && d !in c.completed.Keys;
  }

  lemma LowerRank(g: Graph, rank: seq<nat>, l: Link, d: Link)
    requires g.WellFormed() && g.Ranked(rank) && g.DependsOn(l, d)
    ensures g.IsLink(d) && rank[d.task] < rank[l.task]
  {
  }

  // No deadlock: as long as a thread is left, one of them is awake.
  lemma SomebodyIsAwake(g: Graph, s: System, rank: seq<nat>)
    requires g.WellFormed() && g.Ranked(rank) && Inv(g, s) && Watched(s)
    ensures SomeAwake(s) || forall i | 0 <= i < |s.pcs| :: s.pcs[i].Exited?
  {
    hide HasRunner, SomeAwake, SomeExiting;
    if s.done {
      assert forall i | 0 <= i < |s.pcs| :: !s.pcs[i].Sleeping?;
    } else if l :| l in s.core.running {
      if HasRunner(s, l) {
        RunnerIsAwake(s, l);
      } else {
        ExitingIsAwake(s);
      }
    } else if l :| l in s.core.waiting {
      if s.core.available == {} {
        NothingLeftWaiting(g, s.core, rank, l);
      }
    }
    if i :| 0 <= i < |s.pcs| && Awake(s.pcs[i]) {
      AwakeIs(s, i);
    }
  }

  lemma AwakeIs(s: System, i: nat)
    requires i < |s.pcs| && Awake(s.pcs[i])
    ensures SomeAwake(s)
  {
  }

  // Once all threads are gone, everything is completed.
  lemma AllGoneAllCompleted(g: Graph, s: System)
    requires g.WellFormed() && Inv(g, s) && Lively(s) && forall i | 0 <= i < |s.pcs| :: s.pcs[i].Exited?
    ensures forall l | g.IsLink(l) :: l in s.core.completed
  {
    hide HasRunner;
    assert s.pcs[0].Exited?;
    if l :| l in s.core.running {
      RunnerIsAwake(s, l);
    }
  }

  // ---------- every awake thread can move ----------

  lemma {:induction false} CascadeExists(g: Graph, c: Core, when: nat) returns (c1: Core)
    requires g.WellFormed() && Placed(g, c)
    ensures Cascaded(g, c, c1, when) && Settled(g, c1, {})
    decreases |c.waiting|
  {
    if l :| l in c.waiting && g.Ready(l, c.completed.Keys) {
      UnlinkedPlaced(g, c, l);
      var mid := Unlinked(c, l);
      LinkedPlaced(g, mid, l, when);
      mid := if g.doNothing[l.task] then Complete(mid, l, when) else ToAvailable(mid, l);
      c1 := CascadeExists(g, mid, when);
      assert mid.running == c.running;
      OneGrounded(g, c, l, mid);
      ReadyGrows(g, l, c.completed.Keys, mid.completed.Keys);
      assert Cascaded(g, c, mid, when);
      CascadedTransitive(g, c, mid, c1, when);
    } else {
      c1 := c;
    }
  }

  lemma AwakeThreadMoves(g: Graph, s: System, i: nat) returns (e: Event, s1: System)
    requires g.WellFormed() && Inv(g, s) && i < |s.pcs| && Awake(s.pcs[i])
    ensures Step(g, s, e, s1) && !e.Wake? && !e.Fail? && e.thread == i
  {
    if s.pcs[i].Running? {
      var l := s.pcs[i].link;
      LinkedPlaced(g, s.core, l, 1);
      var c1 := CascadeExists(g, Complete(s.core, l, 1), 1);
      e := Finish(i, 1);
      s1 := System(c1, s.done, (if Broadcasts(s.core, c1, s.done) then WakeAll(s.pcs) else s.pcs)[i := Deciding]);
    } else if s.pcs[i].Exiting? {
      e := Exit(i);
      s1 := System(s.core, true, (if s.done then s.pcs else WakeAll(s.pcs))[i := Exited]);
    } else {
      var d, c1 := Leave, s.core;
      if !(s.pcs[i].Deciding? && s.done) {
        if l :| l in s.core.available {
          d, c1 := Take(l), Unlinked(s.core, l);
        } else if !s.done && s.core.waiting != {} {
          d := Sleep;
        }
      }
      e := Decide(i, d);
      s1 := System(c1, s.done, s.pcs[i := After(d)]);
    }
  }

  // ---------- every run ends ----------

  function Rank(pc: Pc): nat {
    match pc
    case Deciding => 2
    case Woken => 2
    case Running(_) => 2
    case Sleeping => 1
    case Exiting => 1
    case Exited => 0
  }

  function Ranks(pcs: seq<Pc>): nat {
    if pcs == [] then 0 else Rank(pcs[0]) + Ranks(pcs[1..])
  }

  // The work still to be done, and whether the end is still to be announced.
  function Work(s: System): nat {
    3 * |s.core.waiting| + 2 * |s.core.available| + |s.core.running| + if s.done then 0 else 1
  }

  function Measure(s: System): nat {
    Work(s) * (2 * |s.pcs| + 1) + Ranks(s.pcs)
  }

  lemma {:induction false} RanksBound(pcs: seq<Pc>)
    ensures Ranks(pcs) <= 2 * |pcs|
  {
    if pcs != [] {
      RanksBound(pcs[1..]);
    }
  }

  lemma {:induction false} RanksUpdate(pcs: seq<Pc>, i: nat, pc: Pc)
    requires i < |pcs|
    ensures Ranks(pcs[i := pc]) == Ranks(pcs) - Rank(pcs[i]) + Rank(pc)
  {
    if i == 0 {
      assert pcs[i := pc] == [pc] + pcs[1..];
    } else {
      assert pcs[i := pc][1..] == pcs[1..][i - 1 := pc];
      RanksUpdate(pcs[1..], i - 1, pc);
    }
  }

  lemma CascadeLessWork(g: Graph, c0: Core, c1: Core, when: nat)
    requires g.WellFormed() && Placed(g, c0) && Cascaded(g, c0, c1, when)
    ensures 3 * |c1.waiting| + 2 * |c1.available| <= 3 * |c0.waiting| + 2 * |c0.available|
  {
    var moved := c0.waiting - c1.waiting;
    var freed := set l | l in moved && !g.doNothing[l.task];
    assert c0.waiting == c1.waiting + moved && |c0.waiting| == |c1.waiting| + |moved|;
    assert c1.available == c0.available + freed;
    SubsetSize(freed, moved);
  }

  lemma FinishLowersWork(g: Graph, s: System, i: nat, when: nat, s1: System)
    requires g.WellFormed() && Inv(g, s) && Step(g, s, Finish(i, when), s1)
    ensures Work(s1) < Work(s)
  {
    hide Cascaded, Graph.WellFormed, Settled, Safe;
    var l := s.pcs[i].link;
    LinkedPlaced(g, s.core, l, when);
    CascadeLessWork(g, Complete(s.core, l, when), s1.core, when);
    CascadeRuns(g, Complete(s.core, l, when), s1.core, when);
    assert |s.core.running - {l}| == |s.core.running| - 1;
  }

  lemma CascadeRuns(g: Graph, c0: Core, c1: Core, when: nat)
    requires g.WellFormed() && Cascaded(g, c0, c1, when)
    ensures c1.running == c0.running
  {
  }

  lemma TakeLowersWork(g: Graph, s: System, i: nat, l: Link, s1: System)
    requires g.WellFormed() && Inv(g, s) && Step(g, s, Decide(i, Take(l)), s1)
    ensures Work(s1) < Work(s)
  {
    hide Graph.WellFormed, Settled, Safe;
    UnlinkedPlaced(g, s.core, l);
  }

  lemma LessWorkLowersMeasure(s: System, s1: System)
    requires Work(s1) < Work(s) && |s1.pcs| == |s.pcs|
    ensures Measure(s1) < Measure(s)
  {
    RanksBound(s1.pcs);
    LessTimes(Work(s1), Work(s), 2 * |s.pcs| + 1);
  }

  lemma LessTimes(a: nat, b: nat, n: nat)
    requires a < b
    ensures a * n + n <= b * n
  {
    assert b * n == (b - 1) * n + n;
    assert (b - 1) * n >= a * n;
  }

  // Every step but a spurious wake-up lowers the measure; a spurious wake-up raises it by one.
  lemma StepLowersMeasure(g: Graph, s: System, e: Event, s1: System)
    requires g.WellFormed() && Inv(g, s) && Step(g, s, e, s1)
    ensures if e.Wake? then Measure(s1) == Measure(s) + 1 else Measure(s1) < Measure(s)
  {
    hide Placed, Safe, Settled, Cascaded, Graph.WellFormed, Threads, Ranks;
    var i := e.thread;
    if e.Finish? {
      FinishLowersWork(g, s, i, e.when, s1);
      LessWorkLowersMeasure(s, s1);
    } else if e.Decide? && e.decision.Take? {
      TakeLowersWork(g, s, i, e.decision.link, s1);
      LessWorkLowersMeasure(s, s1);
    } else if e.Exit? && !s.done {
      LessWorkLowersMeasure(s, s1);
    } else {
      RanksUpdate(s.pcs, i, s1.pcs[i]);
    }
  }

  function Wakes(events: seq<Event>): nat {
    if events == [] then 0 else Wakes(events[..|events| - 1]) + if events[|events| - 1].Wake? then 1 else 0
  }

  ghost predicate NoFailure(events: seq<Event>) {
    forall k | 0 <= k < |events| :: !events[k].Fail?
  }

  lemma {:induction false} RunKeepsLively(g: Graph, states: seq<System>, events: seq<Event>, k: nat)
    requires g.WellFormed() && Run(g, states, events) && NoFailure(events) && k <= |events|
    ensures Lively(states[k])
  {
    if k > 0 {
      RunKeepsLively(g, states, events, k - 1);
      RunKeepsInv(g, states, events, k - 1);
      StepKeepsLively(g, states[k - 1], events[k - 1], states[k]);
    }
  }

  // A run has no more steps than the measure of its start allows, spurious wake-ups aside.
  lemma {:induction false} RunsAreShort(g: Graph, states: seq<System>, events: seq<Event>, k: nat)
    requires g.WellFormed() && Run(g, states, events) && k <= |events|
    ensures Measure(states[k]) + k <= Measure(states[0]) + 2 * Wakes(events[..k])
  {
    hide Step, Inv, Start, Measure, Graph.WellFormed;
    if k > 0 {
      RunsAreShort(g, states, events, k - 1);
      RunKeepsInv(g, states, events, k - 1);
      StepLowersMeasure(g, states[k - 1], events[k - 1], states[k]);
      assert events[..k][..k - 1] == events[..k - 1];
    }
  }

  // With no cycle among the dependencies, every run, whichever runners fail, can go on without anyone being woken
  // for no reason until all threads have gone.
  lemma RunsEnd(g: Graph, states: seq<System>, events: seq<Event>, rank: seq<nat>) returns (e: Event, next: System)
    requires g.WellFormed() && g.Ranked(rank) && Run(g, states, events)
    ensures var last := states[|events|];
      (Step(g, last, e, next) && !e.Wake? && !e.Fail?) || forall i | 0 <= i < |last.pcs| :: last.pcs[i].Exited?
  {
    hide Inv, Watched, Step, Start;
    var last := states[|events|];
    RunKeepsInv(g, states, events, |events|);
    RunKeepsWatched(g, states, events, |events|);
    SomebodyIsAwake(g, last, rank);
    if SomeAwake(last) {
      var i :| 0 <= i < |last.pcs| && Awake(last.pcs[i]);
      e, next := AwakeThreadMoves(g, last, i);
    } else {
      e, next := Exit(0), last;
    }
  }

  // The main result: with no cycle among the dependencies and no failing runner, a run either can go on,
  // without anyone being woken for no reason, or all threads have gone and every partition is completed.
  lemma RunsComplete(g: Graph, states: seq<System>, events: seq<Event>, rank: seq<nat>) returns (e: Event, next: System)
    requires g.WellFormed() && g.Ranked(rank) && Run(g, states, events) && NoFailure(events)
    ensures var last := states[|events|];
      (Step(g, last, e, next) && !e.Wake? && !e.Fail?) ||
      ((forall i | 0 <= i < |last.pcs| :: last.pcs[i].Exited?) && forall l | g.IsLink(l) :: l in last.core.completed)
  {
    hide Inv, Lively, Step, Start;
    var last := states[|events|];
    e, next := RunsEnd(g, states, events, rank);
    if forall i | 0 <= i < |last.pcs| :: last.pcs[i].Exited? {
      RunKeepsInv(g, states, events, |events|);
      RunKeepsLively(g, states, events, |events|);
      AllGoneAllCompleted(g, last);
    }
  }

  // `done` is announced only when nothing is waiting or available.
  lemma DoneOnlyWhenDrained(g: Graph, states: seq<System>, events: seq<Event>, k: nat)
    requires g.WellFormed() && Run(g, states, events) && NoFailure(events) && k <= |events| && states[k].done
    ensures states[k].core.waiting == {} && states[k].core.available == {}
  {
    RunKeepsLively(g, states, events, k);
  }

  // After the end has been announced, a worker that comes back for work leaves, whatever is available; so all that
  // is still taken goes to threads that were asleep before.
  lemma AfterTheEnd(g: Graph, states: seq<System>, events: seq<Event>, j: nat, k: nat)
    requires g.WellFormed() && Run(g, states, events) && j <= k < |events| && states[j].done
    requires events[k].Decide? && events[k].thread < |states[k].pcs| && states[k].pcs[events[k].thread].Deciding?
    ensures events[k].decision == Leave && states[k].done
  {
    DoneStays(g, states, events, j, k);
    assert Step(g, states[k], events[k], states[k + 1]);
  }

  lemma {:induction false} DoneStays(g: Graph, states: seq<System>, events: seq<Event>, j: nat, k: nat)
    requires g.WellFormed() && Run(g, states, events) && j <= k <= |events| && states[j].done
    ensures states[k].done
    decreases k - j
  {
    if j < k {
      DoneStays(g, states, events, j, k - 1);
      assert Step(g, states[k - 1], events[k - 1], states[k]);
    }
  }
}

// Cycles among the dependencies: a graph has a rank or partitions that wait for one another, and those keep every
// run without failures from ending.
module ScheduleCycles {
  import opened ScheduleGraph
  import opened Scheduler
  import opened ScheduleSystem

  // The tasks in `done` have ranks, and depend only on tasks in `done`.
  ghost predicate RankedSoFar(g: Graph, rank: seq<nat>, done: set<nat>)
    requires g.WellFormed()
  {
    && |rank| == |g.counts|
    && (forall t | t in done :: g.IsTask(t) && rank[t] < |done| && forall u: nat | Needs(g, t, u) :: u in done && rank[u] < rank[t])
  }

  ghost predicate Needs(g: Graph, t: nat, u: nat)
    requires g.WellFormed()
  {
    g.IsTask(t) && (u in g.full[t] || u in g.partial[t])
  }

  ghost predicate Stuck(g: Graph, done: set<nat>, t: nat)
    requires g.WellFormed()
  {
    exists u: nat :: Needs(g, t, u) && u !in done
  }

  ghost function Below(n: nat): (s: set<nat>)
    ensures forall t: nat :: t in s <==> t < n
  {
    if n == 0 then {} else Below(n - 1) + {n - 1}
  }

  lemma {:induction false} RankOn(g: Graph, rank0: seq<nat>, done: set<nat>) returns (rank: seq<nat>, s: set<Link>)
    requires g.WellFormed() && RankedSoFar(g, rank0, done)
    ensures g.Ranked(rank) || (s != {} && Cyclic(g, s))
    decreases |Below(|g.counts|) - done|
  {
    hide Graph.WellFormed, Cyclic, RankedSoFar, Graph.Ranked, Stuck;
    rank, s := rank0, {};
    if t: nat :| g.IsTask(t) && t !in done && !Stuck(g, done, t) {
      RankOne(g, rank0, done, t);
      assert Below(|g.counts|) - done == (Below(|g.counts|) - (done + {t})) + {t};
      rank, s := RankOn(g, rank0[t := |done|], done + {t});
    } else if t: nat :| g.IsTask(t) && t !in done {
      s := LinksOutside(g, done);
      OutsideIsCyclic(g, done, t);
    } else {
      AllRanked(g, rank0, done);
    }
  }

  lemma RankOne(g: Graph, rank: seq<nat>, done: set<nat>, t: nat)
    requires g.WellFormed() && RankedSoFar(g, rank, done) && g.IsTask(t) && t !in done && !Stuck(g, done, t)
    ensures |rank| == |g.counts| && RankedSoFar(g, rank[t := |done|], done + {t})
  {
    hide Graph.WellFormed, Needs;
  }

  lemma AllRanked(g: Graph, rank: seq<nat>, done: set<nat>)
    requires g.WellFormed() && RankedSoFar(g, rank, done) && forall t: nat | g.IsTask(t) :: t in done
    ensures g.Ranked(rank)
  {
    forall t: nat, u: nat | g.IsTask(t) && g.IsTask(u) && (u in g.full[t] || u in g.partial[t])
      ensures rank[u] < rank[t]
    {
      assert Needs(g, t, u);
    }
  }

  ghost function LinksOutside(g: Graph, done: set<nat>): set<Link>
    requires g.WellFormed()
  {
    set l | l in g.Links() && l.task !in done
  }

  lemma OutsideIsCyclic(g: Graph, done: set<nat>, t: nat)
    requires g.WellFormed() && g.IsTask(t) && t !in done
    requires forall x: nat | g.IsTask(x) && x !in done :: Stuck(g, done, x)
    ensures LinksOutside(g, done) != {} && Cyclic(g, LinksOutside(g, done))
  {
    hide Graph.WellFormed, Within, Needs, Graph.DependsOn, Stuck;
    FirstPart(g, t);
    assert Link(t, 0) in LinksOutside(g, done);
    forall l | l in LinksOutside(g, done)
      ensures Within(g, LinksOutside(g, done), l)
    {
      var u := StuckOn(g, done, l.task);
      var d := LinkNeeded(g, l, u);
      WithinBy(g, LinksOutside(g, done), l, d);
    }
  }

  lemma StuckOn(g: Graph, done: set<nat>, t: nat) returns (u: nat)
    requires g.WellFormed() && Stuck(g, done, t)
    ensures Needs(g, t, u) && u !in done
  {
    u :| Needs(g, t, u) && u !in done;
  }

  lemma FirstPart(g: Graph, t: nat)
    requires g.WellFormed() && g.IsTask(t)
    ensures g.IsLink(Link(t, 0))
  {
  }

  lemma WithinBy(g: Graph, s: set<Link>, l: Link, d: Link)
    requires g.WellFormed() && g.DependsOn(l, d) && d in s
    ensures Within(g, s, l)
  {
  }

  lemma LinkNeeded(g: Graph, l: Link, u: nat) returns (d: Link)
    requires g.WellFormed() && g.IsLink(l) && Needs(g, l.task, u)
    ensures g.IsLink(d) && d.task == u && g.DependsOn(l, d)
  {
    assert g.Mirrored(g.full, g.revFull, l.task) && g.Mirrored(g.partial, g.revPartial, l.task);
    d := Link(u, if u in g.full[l.task] then 0 else g.Partner(u, l.part));
  }

  // Either there is a rank, or there are partitions that wait for one another.
  lemma RankOrCycle(g: Graph) returns (rank: seq<nat>, s: set<Link>)
    requires g.WellFormed()
    ensures g.Ranked(rank) || (s != {} && Cyclic(g, s))
  {
    rank, s := RankOn(g, seq(|g.counts|, i => 0), {});
  }

  // Not both.
  lemma {:induction false} NotInCycle(g: Graph, rank: seq<nat>, s: set<Link>, l: Link)
    requires g.WellFormed() && g.Ranked(rank) && Cyclic(g, s) && g.IsLink(l)
    ensures l !in s
    decreases rank[l.task]
  {
    if l in s {
      assert Within(g, s, l);
      var d :| d in s && g.DependsOn(l, d);
      LowerRank(g, rank, l, d);
      NotInCycle(g, rank, s, d);
    }
  }

  // Partitions that wait for one another at the start do so ever after, failures or not.
  lemma {:induction false} CycleWaits(g: Graph, states: seq<System>, events: seq<Event>, s: set<Link>, k: nat)
    requires g.WellFormed() && Run(g, states, events) && Cyclic(g, s) && k <= |events|
    requires forall l | l in s :: l !in states[0].core.completed
    ensures s <= states[k].core.waiting
  {
    hide Graph.WellFormed, Inv, Cyclic, Step;
    if k == 0 {
      RunKeepsInv(g, states, events, 0);
      forall l | l in s
        ensures l in states[0].core.waiting
      {
        StartsWaiting(g, states[0], s, l);
      }
    } else {
      CycleWaits(g, states, events, s, k - 1);
      RunKeepsInv(g, states, events, k - 1);
      StepKeepsCycle(g, states[k - 1], events[k - 1], states[k], s);
    }
  }

  lemma StartsWaiting(g: Graph, s0: System, s: set<Link>, l: Link)
    requires g.WellFormed() && Inv(g, s0) && Cyclic(g, s) && l in s && forall x | x in s :: x !in s0.core.completed
    ensures l in s0.core.waiting
  {
    assert Within(g, s, l);
    var d :| d in s && g.DependsOn(l, d);
    assert d !in s0.core.completed.Keys;
  }

  lemma StepKeepsCycle(g: Graph, s0: System, e: Event, s1: System, s: set<Link>)
    requires g.WellFormed() && Inv(g, s0) && Step(g, s0, e, s1) && Cyclic(g, s) && s <= s0.core.waiting
    ensures s <= s1.core.waiting
  {
    hide Graph.WellFormed, Safe, Settled, Cyclic;
  }

  // So without failures such a run never ends: nobody announces the end, and no thread goes.
  lemma CycleNeverEnds(g: Graph, states: seq<System>, events: seq<Event>, s: set<Link>, k: nat)
    requires g.WellFormed() && Run(g, states, events) && NoFailure(events) && Cyclic(g, s) && s != {} && k <= |events|
    requires forall l | l in s :: l !in states[0].core.completed
    ensures !states[k].done && forall i | 0 <= i < |states[k].pcs| :: !states[k].pcs[i].Exiting? && !states[k].pcs[i].Exited?
  {
    hide Graph.WellFormed, Cyclic, Step, Placed, Safe, Settled, HasRunner, SomeAwake;
    CycleWaits(g, states, events, s, k);
    RunKeepsInv(g, states, events, k);
    RunKeepsLively(g, states, events, k);
  }
}

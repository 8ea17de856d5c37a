// Tasks, their partitions and their dependencies, and the states a partition goes through.
module ScheduleGraph {

  // One partition of one task: what the scheduler links into its lists.
  datatype Link = Link(task: nat, part: nat)

  // Dependencies by task, in both directions; `counts` is the number of partitions of each task.
  datatype Graph = Graph(partitions: nat, counts: seq<nat>, full: seq<seq<nat>>, partial: seq<seq<nat>>,
                         revFull: seq<seq<nat>>, revPartial: seq<seq<nat>>, doNothing: seq<bool>)
  {
    predicate IsTask(t: nat) {
      t < |counts|
    }

    // A task has one partition or all of them; reverse links mirror the dependencies.
    ghost predicate WellFormed() {
      && partitions >= 1
      && |full| == |partial| == |revFull| == |revPartial| == |doNothing| == |counts|
      && (forall t: nat | IsTask(t) :: counts[t] == 1 || counts[t] == partitions)
      && (forall t: nat | IsTask(t) :: Mirrored(full, revFull, t) && Mirrored(partial, revPartial, t))
      && (forall t: nat | IsTask(t) :: Mirrored(revFull, full, t) && Mirrored(revPartial, partial, t))
    }

    ghost predicate Mirrored(a: seq<seq<nat>>, b: seq<seq<nat>>, t: nat)
      requires |a| == |b| == |counts| && IsTask(t)
    {
      forall u | u in a[t] :: IsTask(u) && t in b[u]
    }

    predicate IsLink(l: Link) {
      IsTask(l.task) && l.part < counts[l.task]
    }

    function Links(): (s: set<Link>)
      ensures forall l :: l in s <==> IsLink(l)
    {
      set t, p | 0 <= t < |counts| && 0 <= p < counts[t] :: Link(t, p)
    }

    predicate HasDependencies(t: nat)
      requires |full| == |partial| == |counts| && IsTask(t)
    {
      full[t] != [] || partial[t] != []
    }

    function WithTask(partitioned: bool, nothing: bool): Graph {
      Graph(partitions, counts + [if partitioned then partitions else 1], full + [[]], partial + [[]],
            revFull + [[]], revPartial + [[]], doNothing + [nothing])
    }

    // add_task_link, at the head unless it is there already.
    function AddLink(links: seq<seq<nat>>, t: nat, u: nat): seq<seq<nat>>
      requires t < |links|
    {
      if u in links[t] then links else links[t := [u] + links[t]]
    }

    function WithDependency(t: nat, d: nat, isPartial: bool): Graph
      requires |full| == |partial| == |revFull| == |revPartial| == |counts| && IsTask(t) && IsTask(d)
    {
      if isPartial then this.(partial := AddLink(partial, t, d), revPartial := AddLink(revPartial, d, t))
      else this.(full := AddLink(full, t, d), revFull := AddLink(revFull, d, t))
    }

    ghost function TaskLinks(us: seq<nat>): set<Link> {
      set l | l in Links() && l.task in us
    }

    ghost function PartLinks(us: seq<nat>, part: nat): set<Link> {
      set l | l in Links() && l.task in us && l.part == part
    }

    ghost function LinksFrom(u: nat, from: nat): set<Link> {
      set l | l in Links() && l.task == u && l.part >= from
    }

    // The partition of `d` that partition `part` of another task partially depends on.
    function Partner(d: nat, part: nat): nat
      requires IsTask(d)
    {
      if part < counts[d] then part else 0
    }

    // `l` cannot start before `d` is completed.
    predicate DependsOn(l: Link, d: Link)
      requires |full| == |partial| == |counts|
    {
      && IsLink(l) && IsLink(d)
      && (d.task in full[l.task] || (d.task in partial[l.task] && d.part == Partner(d.task, l.part)))
    }

    ghost predicate Ready(l: Link, completed: set<Link>)
      requires |full| == |partial| == |counts|
    {
      forall d | DependsOn(l, d) :: d in completed
    }

    // A rank that every dependency lowers, which exists exactly when dependencies have no cycle.
    ghost predicate Ranked(rank: seq<nat>)
      requires |full| == |partial| == |counts|
    {
      |rank| == |counts| &&
      forall t: nat, u: nat | IsTask(t) && IsTask(u) && (u in full[t] || u in partial[t]) :: rank[u] < rank[t]
    }
  }

  // Where every partition stands. `completed` also remembers when.
  datatype Core = Core(waiting: set<Link>, available: set<Link>, running: set<Link>, completed: map<Link, nat>)

  // Every partition is in exactly one place.
  ghost predicate Placed(g: Graph, c: Core) {
    && (forall l | g.IsLink(l) :: l in c.waiting || l in c.available || l in c.running || l in c.completed)
    && (forall l | l in c.waiting :: g.IsLink(l) && l !in c.available && l !in c.running && l !in c.completed)
    && (forall l | l in c.available :: g.IsLink(l) && l !in c.running && l !in c.completed)
    && (forall l | l in c.running :: g.IsLink(l) && l !in c.completed)
    && (forall l | l in c.completed :: g.IsLink(l))
  }

  // What may run, runs or has run has all its dependencies completed.
  ghost predicate Safe(g: Graph, c: Core)
    requires g.WellFormed()
  {
    forall l | g.IsLink(l) && l !in c.waiting :: g.Ready(l, c.completed.Keys)
  }

  // No wakeup is lost: a waiting partition outside `pending` still has an incomplete dependency.
  ghost predicate Settled(g: Graph, c: Core, pending: set<Link>)
    requires g.WellFormed()
  {
    forall l | l in c.waiting && l !in pending :: !g.Ready(l, c.completed.Keys)
  }

  function Unlinked(c: Core, l: Link): Core {
    c.(available := c.available - {l}, waiting := c.waiting - {l}, running := c.running + {l})
  }

  function ToWaiting(c: Core, l: Link): Core {
    c.(running := c.running - {l}, waiting := c.waiting + {l})
  }

  function ToAvailable(c: Core, l: Link): Core {
    c.(running := c.running - {l}, available := c.available + {l})
  }

  lemma UnlinkedPlaced(g: Graph, c: Core, l: Link)
    requires Placed(g, c) && (l in c.available || l in c.waiting)
    ensures Placed(g, Unlinked(c, l)) && g.IsLink(l) && l !in c.running && l !in c.completed
    ensures l in c.available ==> c.waiting - {l} == c.waiting && |c.available - {l}| == |c.available| - 1
    ensures l in c.waiting ==> c.available - {l} == c.available && |c.waiting - {l}| == |c.waiting| - 1
  {
  }

  lemma LinkedPlaced(g: Graph, c: Core, l: Link, when: nat)
    requires Placed(g, c) && l in c.running
    ensures g.IsLink(l) && l !in c.waiting && l !in c.available && l !in c.completed
    ensures Placed(g, ToWaiting(c, l)) && Placed(g, ToAvailable(c, l)) && Placed(g, Complete(c, l, when))
    ensures |c.waiting + {l}| == |c.waiting| + 1 && |c.available + {l}| == |c.available| + 1
    ensures Complete(c, l, when).completed.Keys == c.completed.Keys + {l}
  {
  }

  function Complete(c: Core, l: Link, when: nat): Core {
    c.(running := c.running - {l}, completed := c.completed[l := when])
  }

  // Nothing has run, and exactly the partitions of tasks with dependencies wait.
  ghost predicate AtRest(g: Graph, c: Core)
    requires g.WellFormed()
  {
    && c.running == {} && c.completed == map[]
    && (forall l | g.IsLink(l) :: l in c.waiting <==> g.HasDependencies(l.task))
  }

  lemma RestIsSafe(g: Graph, c: Core)
    requires g.WellFormed() && forall l | g.IsLink(l) && l !in c.waiting :: !g.HasDependencies(l.task)
    ensures Safe(g, c)
  {
  }

  lemma RestIsSettled(g: Graph, c: Core)
    requires g.WellFormed() && Placed(g, c) && AtRest(g, c)
    ensures Settled(g, c, {})
  {
    forall l | l in c.waiting
      ensures !g.Ready(l, c.completed.Keys)
    {
      assert g.Mirrored(g.full, g.revFull, l.task) && g.Mirrored(g.partial, g.revPartial, l.task);
      if g.full[l.task] != [] {
        var d := g.full[l.task][0];
        assert d in g.full[l.task] && g.DependsOn(l, Link(d, 0));
      } else {
        var d := g.partial[l.task][0];
        assert d in g.partial[l.task] && g.DependsOn(l, Link(d, g.Partner(d, l.part)));
      }
    }
  }

  // Partitions that wait for one another.
  ghost predicate Cyclic(g: Graph, s: set<Link>)
    requires g.WellFormed()
  {
    forall l | l in s :: Within(g, s, l)
  }

  ghost predicate Within(g: Graph, s: set<Link>, l: Link)
    requires g.WellFormed()
  {
    g.IsLink(l) && exists d :: d in s && g.DependsOn(l, d)
  }

  // Whatever waits for one another goes on waiting.
  ghost predicate Grounded(g: Graph, c0: Core, c1: Core)
    requires g.WellFormed()
  {
    forall s | Cyclic(g, s) && s <= c0.waiting :: s <= c1.waiting
  }

  // What a completion cascade may do: partitions stop waiting, each with its dependencies completed; those
  // that do nothing are completed at once, the others become available.
  ghost predicate Cascaded(g: Graph, c0: Core, c1: Core, when: nat)
    requires g.WellFormed()
  {
    var moved := c0.waiting - c1.waiting;
    && c1.waiting <= c0.waiting && c1.running == c0.running && Grounded(g, c0, c1)
    && (forall l | l in moved :: g.IsLink(l) && g.Ready(l, c1.completed.Keys))
    && (forall l :: l in c1.available <==> l in c0.available || (l in moved && !g.doNothing[l.task]))
    && (forall l :: l in c1.completed <==> l in c0.completed || (l in moved && g.doNothing[l.task]))
    && (forall l | l in c1.completed :: c1.completed[l] == if l in c0.completed then c0.completed[l] else when)
  }

  lemma ReadyGrows(g: Graph, l: Link, a: set<Link>, b: set<Link>)
    requires g.WellFormed() && a <= b && g.Ready(l, a)
    ensures g.Ready(l, b)
  {
  }

  lemma CascadedReflexive(g: Graph, c: Core, when: nat)
    requires g.WellFormed()
    ensures Cascaded(g, c, c, when)
  {
  }

  lemma CascadedTransitive(g: Graph, c0: Core, c1: Core, c2: Core, when: nat)
    requires g.WellFormed() && Cascaded(g, c0, c1, when) && Cascaded(g, c1, c2, when)
    ensures Cascaded(g, c0, c2, when)
  {
    forall l | l in c0.waiting - c2.waiting
      ensures g.IsLink(l) && g.Ready(l, c2.completed.Keys)
    {
      if l !in c1.waiting {
        ReadyGrows(g, l, c1.completed.Keys, c2.completed.Keys);
      }
    }
  }

  // A cascade keeps every partition in one place and nothing ahead of its dependencies.
  lemma CascadeKeeps(g: Graph, c0: Core, c1: Core, when: nat)
    requires g.WellFormed() && Placed(g, c0) && Safe(g, c0) && Cascaded(g, c0, c1, when)
    ensures Placed(g, c1) && Safe(g, c1)
  {
    forall l | g.IsLink(l) && l !in c1.waiting
      ensures g.Ready(l, c1.completed.Keys)
    {
      if l !in c0.waiting {
        ReadyGrows(g, l, c0.completed.Keys, c1.completed.Keys);
      }
    }
  }

  lemma CompletionKeeps(g: Graph, c: Core, l: Link, when: nat)
    requires g.WellFormed() && Placed(g, c) && Safe(g, c) && l in c.running
    ensures Placed(g, Complete(c, l, when)) && Safe(g, Complete(c, l, when))
  {
    var c1 := Complete(c, l, when);
    forall x | g.IsLink(x) && x !in c1.waiting
      ensures g.Ready(x, c1.completed.Keys)
    {
      ReadyGrows(g, x, c.completed.Keys, c1.completed.Keys);
    }
  }

  // Completing `l` can only make ready what depends on it. This is where partition counts of 1 or N matter:
  // while some partition of l's task is incomplete, only the same partition of a partial dependent can be.
  lemma NewlyReady(g: Graph, c: Core, l: Link, when: nat, x: Link)
    requires g.WellFormed() && g.IsLink(l) && g.IsLink(x)
    requires !g.Ready(x, c.completed.Keys) && g.Ready(x, Complete(c, l, when).completed.Keys)
    ensures x.task in g.revFull[l.task] || x.task in g.revPartial[l.task]
    ensures (exists p :: 0 <= p < g.counts[l.task] && Link(l.task, p) !in Complete(c, l, when).completed)
      ==> x.task in g.revPartial[l.task] && x.part == l.part
  {
    var d :| g.DependsOn(x, d) && d !in c.completed.Keys;
    assert d == l;
    assert g.Mirrored(g.full, g.revFull, x.task) && g.Mirrored(g.partial, g.revPartial, x.task);
    if p :| 0 <= p < g.counts[l.task] && Link(l.task, p) !in Complete(c, l, when).completed {
      var missing := Link(l.task, p);
      assert missing != l;
      if l.task in g.full[x.task] {
        assert g.DependsOn(x, missing);
        assert false;
      }
      assert g.counts[l.task] == g.partitions;
      assert g.counts[x.task] <= g.partitions;
    }
  }

  lemma FewerWaiting(g: Graph, c0: Core, c1: Core, when: nat)
    requires g.WellFormed() && Cascaded(g, c0, c1, when)
    ensures |c1.waiting| <= |c0.waiting|
  {
    SubsetSize(c1.waiting, c0.waiting);
  }

  lemma SubsetSize<T>(a: set<T>, b: set<T>)
    requires a <= b
    ensures |a| <= |b|
  {
    assert b == a + (b - a);
  }

  lemma DependentsMirrored(g: Graph, l: Link)
    requires g.WellFormed() && g.IsLink(l)
    ensures forall u | u in g.revFull[l.task] || u in g.revPartial[l.task] :: g.IsTask(u)
  {
    assert g.Mirrored(g.revFull, g.full, l.task) && g.Mirrored(g.revPartial, g.partial, l.task);
  }

  lemma SettledAfterAll(g: Graph, c: Core, l: Link, when: nat, pending: set<Link>)
    requires g.WellFormed() && Placed(g, c) && Settled(g, c, pending) && g.IsLink(l)
    ensures Settled(g, Complete(c, l, when), pending + g.TaskLinks(g.revPartial[l.task]) + g.TaskLinks(g.revFull[l.task]))
  {
    forall x | x in c.waiting && x !in pending && g.Ready(x, Complete(c, l, when).completed.Keys)
      ensures x.task in g.revFull[l.task] || x.task in g.revPartial[l.task]
    {
      NewlyReady(g, c, l, when, x);
    }
  }

  lemma SettledAfterSome(g: Graph, c: Core, l: Link, when: nat, pending: set<Link>)
    requires g.WellFormed() && Placed(g, c) && Settled(g, c, pending) && g.IsLink(l)
    requires exists p :: 0 <= p < g.counts[l.task] && Link(l.task, p) !in Complete(c, l, when).completed
    ensures Settled(g, Complete(c, l, when), pending + g.PartLinks(g.revPartial[l.task], l.part))
  {
    forall x | x in c.waiting && x !in pending && g.Ready(x, Complete(c, l, when).completed.Keys)
      ensures x.task in g.revPartial[l.task] && x.part == l.part
    {
      NewlyReady(g, c, l, when, x);
    }
  }

  // A partition that does nothing: it stops waiting, is completed, and what follows is one cascade.
  lemma FreedByCascade(g: Graph, c0: Core, l: Link, when: nat, c1: Core)
    requires g.WellFormed() && Placed(g, c0) && l in c0.waiting && g.doNothing[l.task] && g.Ready(l, c0.completed.Keys)
    requires Cascaded(g, Complete(Unlinked(c0, l), l, when), c1, when)
    ensures Cascaded(g, c0, c1, when)
  {
    var mid := Complete(Unlinked(c0, l), l, when);
    assert mid.running == c0.running;
    OneGrounded(g, c0, l, mid);
    ReadyGrows(g, l, c0.completed.Keys, mid.completed.Keys);
    CascadedTransitive(g, c0, mid, c1, when);
  }

  // A partition that can start is not among those that wait for one another.
  lemma OneGrounded(g: Graph, c0: Core, l: Link, c1: Core)
    requires g.WellFormed() && Placed(g, c0) && g.Ready(l, c0.completed.Keys) && c1.waiting == c0.waiting - {l}
    ensures Grounded(g, c0, c1)
  {
    forall s | Cyclic(g, s) && s <= c0.waiting
      ensures l !in s
    {
      if l in s {
        CyclicIsNotReady(g, c0, s, l);
        assert false;
      }
    }
  }

  lemma CyclicIsNotReady(g: Graph, c: Core, s: set<Link>, l: Link)
    requires g.WellFormed() && Placed(g, c) && Cyclic(g, s) && s <= c.waiting && l in s
    ensures !g.Ready(l, c.completed.Keys)
  {
    assert Within(g, s, l);
  }

  lemma FreedAvailable(g: Graph, c: Core, l: Link, when: nat)
    requires g.WellFormed() && Placed(g, c) && Safe(g, c) && l in c.waiting && !g.doNothing[l.task] && g.Ready(l, c.completed.Keys)
    ensures Cascaded(g, c, ToAvailable(Unlinked(c, l), l), when)
    ensures Safe(g, ToAvailable(Unlinked(c, l), l))
  {
    OneGrounded(g, c, l, ToAvailable(Unlinked(c, l), l));
  }

  lemma SafeUnlinked(g: Graph, c: Core, l: Link)
    requires g.WellFormed() && Safe(g, c) && g.Ready(l, c.completed.Keys)
    ensures Safe(g, Unlinked(c, l))
  {
  }

  lemma SafeStarted(g: Graph, c: Core, l: Link)
    requires g.WellFormed() && Placed(g, c) && Safe(g, c) && l in c.available
    ensures Safe(g, Unlinked(c, l)) && g.Ready(l, c.completed.Keys)
  {
  }
}

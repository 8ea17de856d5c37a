// The scheduler's shared state: per-partition lists, counters and flags, the operations that relink
// partitions, and the recursive completion cascade.
module Scheduler {
  import opened Options
  import opened ScheduleGraph

  // What a thread does that asks for work: sleep on the condition variable, take a partition, or leave.
  datatype Decision = Sleep | Take(link: Link) | Leave

  ghost predicate Decides(c: Core, done: bool, entering: bool, d: Decision, c1: Core) {
    match d
    case Sleep => !done && c.available == {} && c.waiting != {} && c1 == c
    case Take(l) => !(entering && done) && l in c.available && c1 == Unlinked(c, l)
    case Leave => c1 == c && ((entering && done) || (c.available == {} && (done || c.waiting == {})))
  }

  // Sleeping threads are woken when there is work again after there was none, or to leave.
  ghost predicate Broadcasts(c0: Core, c1: Core, done: bool) {
    (c0.available == {} && c1.available != {}) || done
  }

  // One list of tasks for each partition number.
  type Lists = seq<seq<nat>>

  ghost predicate NoDuplicates(s: seq<nat>) {
    forall i, j | 0 <= i < j < |s| :: s[i] != s[j]
  }

  // The lists hold exactly the partitions in `links`.
  ghost predicate Holds(lists: Lists, links: set<Link>, n: nat) {
    && |lists| == n
    && (forall p | 0 <= p < n :: NoDuplicates(lists[p]))
    && (forall p: nat, t | p < n :: t in lists[p] <==> Link(t, p) in links)
    && (forall l | l in links :: l.part < n)
  }

  function Without(s: seq<nat>, t: nat): (r: seq<nat>) {
    if s == [] then [] else if s[0] == t then s[1..] else [s[0]] + Without(s[1..], t)
  }

  function Push(lists: Lists, l: Link): Lists
    requires l.part < |lists|
  {
    lists[l.part := [l.task] + lists[l.part]]
  }

  function Drop(lists: Lists, l: Link): Lists
    requires l.part < |lists|
  {
    lists[l.part := Without(lists[l.part], l.task)]
  }

  // One list has the task at its head now; the others are as they were.
  ghost predicate Pushed(lists: Lists, l: Link, lists1: Lists) {
    && l.part < |lists| == |lists1| && lists1[l.part] == [l.task] + lists[l.part]
    && forall p | 0 <= p < |lists| && p != l.part :: lists1[p] == lists[p]
  }

  // One list has lost the task, the rest of it in order; the others are as they were.
  ghost predicate Dropped(lists: Lists, l: Link, lists1: Lists) {
    && l.part < |lists| == |lists1| && (exists i | 0 <= i < |lists[l.part]| :: RemovedAt(lists[l.part], i, l.task, lists1[l.part]))
    && forall p | 0 <= p < |lists| && p != l.part :: lists1[p] == lists[p]
  }

  ghost predicate RemovedAt(s: seq<nat>, i: nat, t: nat, r: seq<nat>) {
    i < |s| && s[i] == t && r == s[..i] + s[i + 1..]
  }

  lemma {:induction false} WithoutKeepsOrder(s: seq<nat>, t: nat) returns (i: nat)
    requires t in s
    ensures RemovedAt(s, i, t, Without(s, t))
  {
    if s[0] == t {
      i := 0;
    } else {
      i := WithoutKeepsOrder(s[1..], t);
      assert s[1..][i] == s[i + 1] && s[..i + 1] == [s[0]] + s[1..][..i] && s[1..][i + 1..] == s[i + 2..];
      i := i + 1;
    }
  }

  lemma DropDrops(lists: Lists, l: Link)
    requires l.part < |lists| && l.task in lists[l.part]
    ensures Dropped(lists, l, Drop(lists, l))
  {
    var i := WithoutKeepsOrder(lists[l.part], l.task);
    assert RemovedAt(lists[l.part], i, l.task, Drop(lists, l)[l.part]);
  }

  lemma PushPushes(lists: Lists, l: Link)
    requires l.part < |lists|
    ensures Pushed(lists, l, Push(lists, l))
  {
  }

  lemma {:induction false} WithoutRemoves(s: seq<nat>, t: nat)
    requires NoDuplicates(s)
    ensures NoDuplicates(Without(s, t)) && forall x :: x in Without(s, t) <==> x in s && x != t
  {
    if s != [] {
      assert s == [s[0]] + s[1..];
      assert NoDuplicates(s[1..]);
      WithoutRemoves(s[1..], t);
      assert s[0] !in s[1..];
    }
  }

  lemma PushHolds(lists: Lists, links: set<Link>, n: nat, l: Link)
    requires Holds(lists, links, n) && l !in links && l.part < n
    ensures Holds(Push(lists, l), links + {l}, n)
  {
    assert l.task !in lists[l.part];
    assert NoDuplicates([l.task] + lists[l.part]);
  }

  lemma DropHolds(lists: Lists, links: set<Link>, n: nat, l: Link)
    requires Holds(lists, links, n) && l in links
    ensures Holds(Drop(lists, l), links - {l}, n)
  {
    WithoutRemoves(lists[l.part], l.task);
  }

  // The flags of every link outside `limbo` say where it is.
  ghost predicate FlagsAgree(waitingOnOthers: set<Link>, completedAt: map<Link, nat>, c: Core, limbo: set<Link>) {
    && (forall l | l !in limbo :: l in waitingOnOthers <==> l in c.waiting)
    && (forall l | l !in limbo :: l in completedAt <==> l in c.completed)
    && (forall l | l in c.completed :: l in completedAt && completedAt[l] == c.completed[l])
  }

  // Each partition stands on the list for its number and its state, and on no other; the counters are the
  // total lengths of the available and of the waiting lists.
  ghost predicate ListsAgree(av: Lists, fin: Lists, com: Lists, numAvailable: nat, numTasksToRun: nat, c: Core, n: nat) {
    && Holds(av, c.available, n) && Holds(fin, c.waiting, n) && Holds(com, c.completed.Keys, n)
    && numAvailable == |c.available| && numTasksToRun == |c.waiting|
  }

  lemma ListsUnlinked(av: Lists, fin: Lists, com: Lists, na: nat, nt: nat, g: Graph, c: Core, l: Link)
    requires ListsAgree(av, fin, com, na, nt, c, g.partitions) && Placed(g, c) && (l in c.available || l in c.waiting)
    ensures l.part < |av| && l.part < |fin|
    ensures l in c.waiting ==> nt > 0 && ListsAgree(av, Drop(fin, l), com, na, nt - 1, Unlinked(c, l), g.partitions)
    ensures l in c.available ==> na > 0 && ListsAgree(Drop(av, l), fin, com, na - 1, nt, Unlinked(c, l), g.partitions)
  {
    hide Drop, Holds;
    UnlinkedPlaced(g, c, l);
    ListSizes(av, fin, com, na, nt, c, g.partitions);
    if l in c.waiting {
      InRange(fin, c.waiting, g.partitions, l);
      DropHolds(fin, c.waiting, g.partitions, l);
    } else {
      InRange(av, c.available, g.partitions, l);
      DropHolds(av, c.available, g.partitions, l);
    }
  }

  // The list that the flags of `l` name: where link_state puts it.
  function Relinked(waitingOnOthers: set<Link>, completedAt: map<Link, nat>, c: Core, l: Link): Core {
    if l in waitingOnOthers then ToWaiting(c, l)
    else if l in completedAt then Complete(c, l, completedAt[l])
    else ToAvailable(c, l)
  }

  lemma ListsRelinked(av: Lists, fin: Lists, com: Lists, na: nat, nt: nat, w: set<Link>, done: map<Link, nat>,
                      g: Graph, c: Core, l: Link)
    requires ListsAgree(av, fin, com, na, nt, c, g.partitions) && g.WellFormed() && Placed(g, c) && l in c.running
    ensures l.part < |av| == |fin| == |com|
    ensures l in w ==> ListsAgree(av, Push(fin, l), com, na, nt + 1, Relinked(w, done, c, l), g.partitions)
    ensures l !in w && l in done ==> ListsAgree(av, fin, Push(com, l), na, nt, Relinked(w, done, c, l), g.partitions)
    ensures l !in w && l !in done ==> ListsAgree(Push(av, l), fin, com, na + 1, nt, Relinked(w, done, c, l), g.partitions)
  {
    hide Push, Holds, Graph.WellFormed;
    LinkedPlaced(g, c, l, if l in done then done[l] else 0);
    PartInRange(g, l);
    ListSizes(av, fin, com, na, nt, c, g.partitions);
    PushHolds(fin, c.waiting, g.partitions, l);
    PushHolds(av, c.available, g.partitions, l);
    PushHolds(com, c.completed.Keys, g.partitions, l);
  }

  lemma ListSizes(av: Lists, fin: Lists, com: Lists, na: nat, nt: nat, c: Core, n: nat)
    requires ListsAgree(av, fin, com, na, nt, c, n)
    ensures |av| == |fin| == |com| == n
  {
  }

  lemma InRange(lists: Lists, links: set<Link>, n: nat, l: Link)
    requires Holds(lists, links, n) && l in links
    ensures l.part < n
  {
  }

  lemma FlagsUnlinked(w: set<Link>, done: map<Link, nat>, g: Graph, c: Core, l: Link)
    requires FlagsAgree(w, done, c, {}) && Placed(g, c) && (l in c.available || l in c.waiting)
    ensures FlagsAgree(w, done, Unlinked(c, l), {l}) && (l in w <==> l in c.waiting)
  {
  }

  lemma FlagsRelinked(w: set<Link>, done: map<Link, nat>, g: Graph, c: Core, l: Link)
    requires FlagsAgree(w, done, c, {l}) && Placed(g, c) && l in c.running && (l in w ==> l !in done)
    ensures FlagsAgree(w, done, Relinked(w, done, c, l), {}) && Placed(g, Relinked(w, done, c, l))
  {
  }

  // Flags of a partition in limbo may change.
  lemma FlagsFree(w: set<Link>, done: map<Link, nat>, c: Core, l: Link, when: nat)
    requires FlagsAgree(w, done, c, {l}) && l !in c.completed
    ensures FlagsAgree(w - {l}, done, c, {l}) && FlagsAgree(w - {l}, done[l := when], c, {l})
    ensures l !in c.waiting && l !in done ==> FlagsAgree(w - {l}, done, c, {})
  {
  }

  // Limbo only widens what the flags may say, and ends when they are right again.
  lemma FlagsOfLimbo(w: set<Link>, done: map<Link, nat>, c: Core, l: Link)
    ensures FlagsAgree(w, done, c, {}) ==> FlagsAgree(w, done, c, {l})
    ensures FlagsAgree(w, done, c, {l}) && l !in w && l !in done && l !in c.waiting && l !in c.completed
      ==> FlagsAgree(w, done, c, {})
  {
  }

  // Raising the waiting flag of a partition in limbo.
  lemma FlagsRaised(w: set<Link>, done: map<Link, nat>, c: Core, l: Link)
    requires FlagsAgree(w, done, c, {l})
    ensures FlagsAgree(w + {l}, done, c, {l})
  {
  }

  function NewLinks(t: nat, from: nat, to: nat): set<Link> {
    set p | from <= p < to :: Link(t, p)
  }

  lemma NewLinksStart(t: nat, count: nat, available: set<Link>)
    ensures available + NewLinks(t, 0, 0) == available
  {
  }

  lemma NewLinksStep(t: nat, i: nat, count: nat, available: set<Link>)
    requires i < count
    ensures Link(t, i) in NewLinks(t, i, count) && NewLinks(t, i, count) - {Link(t, i)} == NewLinks(t, i + 1, count)
    ensures available + NewLinks(t, 0, i) + {Link(t, i)} == available + NewLinks(t, 0, i + 1)
  {
  }

  lemma ListsOfNew(av: Lists, fin: Lists, com: Lists, na: nat, nt: nat, w: set<Link>, done: map<Link, nat>, g: Graph, c: Core,
                   partitioned: bool, doNothing: bool)
    requires ListsAgree(av, fin, com, na, nt, c, g.partitions) && FlagsAgree(w, done, c, {}) && Placed(g, c)
    ensures var t := |g.counts|; var c1 := c.(running := NewLinks(t, 0, if partitioned then g.partitions else 1));
      ListsAgree(av, fin, com, na, nt, c1, g.partitions) && FlagsAgree(w, done, c1, {})
  {
  }

  // A new task: its partitions, on no list yet, fit into the state.
  lemma TaskAdded(g: Graph, c: Core, partitioned: bool, doNothing: bool)
    requires g.WellFormed() && Placed(g, c) && Safe(g, c) && AtRest(g, c)
    ensures var g1 := g.WithTask(partitioned, doNothing);
      var c1 := c.(running := NewLinks(|g.counts|, 0, if partitioned then g.partitions else 1));
      g1.partitions == g.partitions && g1.WellFormed() && Placed(g1, c1) && Safe(g1, c1)
  {
    var g1 := g.WithTask(partitioned, doNothing);
    forall t: nat | g1.IsTask(t)
      ensures g1.Mirrored(g1.full, g1.revFull, t) && g1.Mirrored(g1.partial, g1.revPartial, t)
      ensures g1.Mirrored(g1.revFull, g1.full, t) && g1.Mirrored(g1.revPartial, g1.partial, t)
    {
      if g.IsTask(t) {
        assert g.Mirrored(g.full, g.revFull, t) && g.Mirrored(g.partial, g.revPartial, t);
        assert g.Mirrored(g.revFull, g.full, t) && g.Mirrored(g.revPartial, g.partial, t);
      }
    }
    RestIsSafe(g1, c.(running := NewLinks(|g.counts|, 0, if partitioned then g.partitions else 1)));
  }

  lemma TaskAtRest(g: Graph, c: Core, partitioned: bool, doNothing: bool, c1: Core)
    requires g.WellFormed() && Placed(g, c) && AtRest(g, c) && g.WithTask(partitioned, doNothing).WellFormed()
    requires var n := if partitioned then g.partitions else 1;
      c1 == c.(running := NewLinks(|g.counts|, n, n), available := c.available + NewLinks(|g.counts|, 0, n))
    ensures AtRest(g.WithTask(partitioned, doNothing), c1)
  {
  }

  lemma SafeRelinked(g: Graph, c: Core, l: Link)
    requires g.WellFormed() && Safe(g, c) && l in c.running && l !in c.waiting
    ensures Safe(g, ToAvailable(c, l))
  {
  }

  lemma DependencyAdded(g: Graph, t: nat, d: nat, partial: bool)
    requires g.WellFormed() && g.IsTask(t) && g.IsTask(d)
    ensures var g1 := g.WithDependency(t, d, partial); g1.WellFormed() && g1.partitions == g.partitions && g1.counts == g.counts
  {
    var g1 := g.WithDependency(t, d, partial);
    forall u: nat | g1.IsTask(u)
      ensures g1.Mirrored(g1.full, g1.revFull, u) && g1.Mirrored(g1.partial, g1.revPartial, u)
      ensures g1.Mirrored(g1.revFull, g1.full, u) && g1.Mirrored(g1.revPartial, g1.partial, u)
    {
      assert g.Mirrored(g.full, g.revFull, u) && g.Mirrored(g.partial, g.revPartial, u);
      assert g.Mirrored(g.revFull, g.full, u) && g.Mirrored(g.revPartial, g.partial, u);
      assert g.Mirrored(g.full, g.revFull, t) && g.Mirrored(g.partial, g.revPartial, t);
      assert g.Mirrored(g.revFull, g.full, d) && g.Mirrored(g.revPartial, g.partial, d);
    }
  }

  // What a dependency adds: `t` also has `d` in one of its lists, and nothing else changes; each partition of `t`
  // then waits for all partitions of `d`, or for the one of its own number, with the first standing in for a
  // missing one.
  ghost predicate OneDependency(g: Graph, t: nat, d: nat, partial: bool, g1: Graph)
    requires g.WellFormed() && g1.WellFormed() && g.IsTask(t) && g.IsTask(d)
  {
    && g1.partitions == g.partitions && g1.counts == g.counts && g1.doNothing == g.doNothing
    && (forall v: nat, u: nat | v < |g.counts| :: u in g1.full[v] <==> u in g.full[v] || (v == t && u == d && !partial))
    && (forall v: nat, u: nat | v < |g.counts| :: u in g1.partial[v] <==> u in g.partial[v] || (v == t && u == d && partial))
    && (forall l, x :: g1.DependsOn(l, x) <==> g.DependsOn(l, x) || NewlyNeeded(g, t, d, partial, l, x))
  }

  ghost predicate NewlyNeeded(g: Graph, t: nat, d: nat, partial: bool, l: Link, x: Link)
    requires g.IsTask(t) && g.IsTask(d)
  {
    && l.task == t && l.part < g.counts[t] && x.task == d && x.part < g.counts[d]
    && (partial ==> x.part == if l.part < g.counts[d] then l.part else 0)
  }

  // Nothing is in a list twice.
  ghost predicate Once(links: seq<seq<nat>>) {
    forall t | 0 <= t < |links| :: NoDuplicates(links[t])
  }

  lemma DependencyMeans(g: Graph, t: nat, d: nat, partial: bool, g1: Graph)
    requires g.WellFormed() && g1.WellFormed() && g.IsTask(t) && g.IsTask(d) && g1 == g.WithDependency(t, d, partial)
    ensures OneDependency(g, t, d, partial, g1)
    ensures Once(g.full) && Once(g.partial) ==> Once(g1.full) && Once(g1.partial)
  {
    hide Graph.Mirrored;
    assert forall u: nat :: u in g1.full[t] <==> u in g.full[t] || (u == d && !partial);
    assert forall u: nat :: u in g1.partial[t] <==> u in g.partial[t] || (u == d && partial);
  }

  // A task more, at the end: with one partition or all of them, and without dependencies.
  ghost predicate OneTask(g: Graph, partitioned: bool, doNothing: bool, g1: Graph)
    requires g.WellFormed() && g1.WellFormed()
  {
    var t := |g.counts|;
    && |g1.counts| == t + 1 && g1.partitions == g.partitions
    && g1.counts[t] == (if partitioned then g.partitions else 1) && g1.doNothing[t] == doNothing
    && g1.full[t] == g1.partial[t] == []
    && (forall v: nat | v < t :: g1.counts[v] == g.counts[v] && g1.doNothing[v] == g.doNothing[v])
    && (forall v: nat | v < t :: g1.full[v] == g.full[v] && g1.partial[v] == g.partial[v])
    && (forall l, x :: g1.DependsOn(l, x) <==> g.DependsOn(l, x))
  }

  lemma TaskMeans(g: Graph, partitioned: bool, doNothing: bool, g1: Graph)
    requires g.WellFormed() && g1.WellFormed() && g1 == g.WithTask(partitioned, doNothing)
    ensures OneTask(g, partitioned, doNothing, g1)
    ensures Once(g.full) && Once(g.partial) ==> Once(g1.full) && Once(g1.partial)
  {
    forall l, x | g1.DependsOn(l, x)
      ensures g.DependsOn(l, x)
    {
      if l.task < |g.counts| {
        assert g.Mirrored(g.full, g.revFull, l.task) && g.Mirrored(g.partial, g.revPartial, l.task);
      }
    }
  }

  lemma SamePlaces(g: Graph, g1: Graph, c: Core)
    requires Placed(g, c) && g1.counts == g.counts
    ensures Placed(g1, c)
  {
    assert forall l :: g1.IsLink(l) <==> g.IsLink(l);
  }

  lemma DependencyAtRest(g: Graph, c: Core, t: nat, d: nat, partial: bool, c1: Core)
    requires g.WellFormed() && g.IsTask(t) && g.IsTask(d) && AtRest(g, c)
    requires var g1 := g.WithDependency(t, d, partial); g1.WellFormed() && g1.counts == g.counts
    requires c1.running == {} && c1.completed == map[]
    requires forall l :: l in c1.waiting <==>
      l in c.waiting || (Link(t, 0) !in c.waiting && l.task == t && l.part < g.counts[t])
    ensures AtRest(g.WithDependency(t, d, partial), c1) && Safe(g.WithDependency(t, d, partial), c1)
  {
    var g1 := g.WithDependency(t, d, partial);
    assert g.IsLink(Link(t, 0));
    forall l | g1.IsLink(l)
      ensures l in c1.waiting <==> g1.HasDependencies(l.task)
    {
      assert g.IsLink(l);
    }
    RestIsSafe(g1, c1);
  }

  // Setup has passed the partitions of tasks before `t` and those of `t` before `i`.
  ghost predicate SetUp(g: Graph, now: nat, c0: Core, c: Core, t: nat, i: nat)
    requires g.WellFormed() && Placed(g, c)
  {
    && Settled(g, c, {}) && c.running == {}
    && (forall l | l in c.available && g.doNothing[l.task] :: l.task > t || (l.task == t && l.part >= i))
    && (forall l | l in c.completed :: g.doNothing[l.task] && c.completed[l] == now)
    && (forall l | l in c0.available && g.IsLink(l) && !g.doNothing[l.task] :: l in c.available)
  }

  lemma NothingRuns(g: Graph, c: Core)
    requires g.WellFormed() && Placed(g, c) && AtRest(g, c)
    ensures c.running == {} && c.completed == map[]
  {
  }

  lemma NextTask(g: Graph, now: nat, c0: Core, c: Core, t: nat)
    requires g.WellFormed() && Placed(g, c) && g.IsTask(t)
    requires SetUp(g, now, c0, c, t, g.counts[t]) || (!g.doNothing[t] && SetUp(g, now, c0, c, t, 0))
    ensures SetUp(g, now, c0, c, t + 1, 0)
  {
  }

  lemma LastTask(g: Graph, now: nat, c0: Core, c: Core)
    requires g.WellFormed() && Placed(g, c0) && Placed(g, c) && SetUp(g, now, c0, c, |g.counts|, 0)
    ensures c.running == {} && Settled(g, c, {})
    ensures forall l | l in c.available :: !g.doNothing[l.task]
    ensures forall l | l in c.completed :: g.doNothing[l.task] && c.completed[l] == now
    ensures forall l | l in c0.available && !g.doNothing[l.task] :: l in c.available
  {
  }

  lemma SafeAvailable(g: Graph, c: Core, l: Link)
    requires g.WellFormed() && Placed(g, c) && Safe(g, c)
    ensures l in c.available ==> g.Ready(l, c.completed.Keys)
  {
  }

  lemma SetUpSettled(g: Graph, now: nat, c0: Core, c: Core, l: Link)
    requires g.WellFormed() && Placed(g, c) && SetUp(g, now, c0, c, l.task, l.part)
    ensures Settled(g, c, {}) && Settled(g, Unlinked(c, l), {})
  {
  }

  lemma SetUpCompleted(g: Graph, c0: Core, c: Core, l: Link, now: nat, c1: Core)
    requires g.WellFormed() && Placed(g, c) && Placed(g, c1) && SetUp(g, now, c0, c, l.task, l.part)
    requires l in c.available && g.doNothing[l.task] && Settled(g, c1, {})
    requires Cascaded(g, Complete(Unlinked(c, l), l, now), c1, now)
    ensures SetUp(g, now, c0, c1, l.task, l.part + 1)
  {
  }

  lemma SetUpSkipped(g: Graph, now: nat, c0: Core, c: Core, l: Link)
    requires g.WellFormed() && Placed(g, c) && SetUp(g, now, c0, c, l.task, l.part) && l !in c.available
    ensures SetUp(g, now, c0, c, l.task, l.part + 1)
  {
  }

  class Schedule {
    var graph: Graph
    // The flags of each link: waiting_on_others, and the completion time (absent while it is 0).
    var waitingOnOthers: set<Link>
    var completedAt: map<Link, nat>
    var availableTasks: Lists
    var tasksToFinish: Lists
    var completedTasks: Lists
    var numAvailable: nat
    var numTasksToRun: nat
    var done: bool
    // Where every partition is; a partition that is on no list counts as running.
    ghost var core: Core

    // The flags, lists and counters agree with `core`, except that the flags of `limbo`, which is on no
    // list, may be about to change.
    ghost predicate Consistent(limbo: set<Link>)
      reads this
    {
      && graph.WellFormed() && Placed(graph, core) && limbo <= core.running
      && ListsAgree(availableTasks, tasksToFinish, completedTasks, numAvailable, numTasksToRun, core, graph.partitions)
      && FlagsAgree(waitingOnOthers, completedAt, core, limbo)
    }

    ghost predicate Valid()
      reads this
    {
      Consistent({}) && Safe(graph, core)
    }

    // unlink_state: takes the partition off the list that its flags name.
    method UnlinkState(l: Link)
      requires Consistent({}) && (l in core.available || l in core.waiting)
      modifies this
      ensures Consistent({l}) && unchanged(`graph, `done, `waitingOnOthers, `completedAt)
      ensures core == Unlinked(old(core), l) && completedTasks == old(completedTasks)
      ensures if l in waitingOnOthers then Dropped(old(tasksToFinish), l, tasksToFinish) && availableTasks == old(availableTasks)
              else Dropped(old(availableTasks), l, availableTasks) && tasksToFinish == old(tasksToFinish)
    {
      hide Placed, ListsAgree, Drop, FlagsAgree, Graph.WellFormed, Graph.IsLink, Unlinked, Dropped;
      ListedThere(l);
      FlagsUnlinked(waitingOnOthers, completedAt, graph, core, l);
      UnlinkedPlaced(graph, core, l);
      ListsUnlinked(availableTasks, tasksToFinish, completedTasks, numAvailable, numTasksToRun, graph, core, l);
      if l in waitingOnOthers {
        DropDrops(tasksToFinish, l);
        tasksToFinish := Drop(tasksToFinish, l);
        numTasksToRun := numTasksToRun - 1;
      } else {
        DropDrops(availableTasks, l);
        availableTasks := Drop(availableTasks, l);
        numAvailable := numAvailable - 1;
      }
      core := Unlinked(core, l);
      UnlinkedRuns(old(core), l);
    }

    lemma ListedThere(l: Link)
      requires Consistent({}) && (l in core.available || l in core.waiting)
      ensures l in waitingOnOthers <==> l in core.waiting
      ensures l in core.waiting ==> l.part < |tasksToFinish| && l.task in tasksToFinish[l.part]
      ensures l in core.available ==> l.part < |availableTasks| && l.task in availableTasks[l.part]
    {
      PartInRange(graph, l);
    }

    // link_state: puts the partition at the head of the list that its flags name.
    method LinkState(l: Link)
      requires Consistent({l}) && (l in waitingOnOthers ==> l !in completedAt)
      modifies this
      ensures Consistent({}) && unchanged(`graph, `done, `waitingOnOthers, `completedAt)
      ensures core == Relinked(waitingOnOthers, completedAt, old(core), l)
      ensures if l in waitingOnOthers then Pushed(old(tasksToFinish), l, tasksToFinish) else tasksToFinish == old(tasksToFinish)
      ensures if l !in waitingOnOthers && l in completedAt then Pushed(old(completedTasks), l, completedTasks)
              else completedTasks == old(completedTasks)
      ensures if l !in waitingOnOthers && l !in completedAt then Pushed(old(availableTasks), l, availableTasks)
              else availableTasks == old(availableTasks)
    {
      hide Placed, ListsAgree, Push, FlagsAgree, Relinked, Graph.WellFormed, Graph.IsLink, Pushed;
      ListsInRange(l);
      FlagsRelinked(waitingOnOthers, completedAt, graph, core, l);
      ListsRelinked(availableTasks, tasksToFinish, completedTasks, numAvailable, numTasksToRun, waitingOnOthers,
                    completedAt, graph, core, l);
      core := Relinked(waitingOnOthers, completedAt, core, l);
      if l in waitingOnOthers {
        PushPushes(tasksToFinish, l);
        tasksToFinish := Push(tasksToFinish, l);
        numTasksToRun := numTasksToRun + 1;
      } else if l in completedAt {
        PushPushes(completedTasks, l);
        completedTasks := Push(completedTasks, l);
      } else {
        PushPushes(availableTasks, l);
        availableTasks := Push(availableTasks, l);
        numAvailable := numAvailable + 1;
      }
    }

    lemma ListsInRange(l: Link)
      requires Consistent({l})
      ensures l.part < |tasksToFinish| && l.part < |completedTasks| && l.part < |availableTasks|
    {
      PartInRange(graph, l);
    }

    // ---------- configuration ----------

    // Before anything has run: exactly the partitions of tasks with dependencies wait.
    ghost predicate Configured()
      reads this
    {
      Valid() && !done && AtRest(graph, core)
    }

    // ac_schedule_init
    constructor (partitions: nat)
      requires partitions >= 1
      ensures Configured() && graph.partitions == partitions && graph.counts == []
    {
      graph := Graph(partitions, [], [], [], [], [], []);
      waitingOnOthers, completedAt := {}, map[];
      availableTasks := seq(partitions, p => []);
      tasksToFinish, completedTasks := seq(partitions, p => []), seq(partitions, p => []);
      numAvailable, numTasksToRun, done := 0, 0, false;
      core := Core({}, {}, {}, map[]);
    }

    // ac_schedule_task, for a name that is not there yet: one partition or all of them, all available.
    method AddTask(partitioned: bool, doNothing: bool) returns (t: nat)
      requires Configured()
      modifies this
      ensures Configured() && t == |old(graph).counts| && graph == old(graph).WithTask(partitioned, doNothing)
      ensures OneTask(old(graph), partitioned, doNothing, graph)
      ensures Once(old(graph).full) && Once(old(graph).partial) ==> Once(graph.full) && Once(graph.partial)
    {
      hide ListsAgree, FlagsAgree, Placed, Safe, AtRest, NewLinks, Graph.WellFormed, Graph.WithTask, OneTask, Once;
      t := |graph.counts|;
      ghost var g0, c0 := graph, core;
      TaskAdded(graph, core, partitioned, doNothing);
      TaskMeans(graph, partitioned, doNothing, graph.WithTask(partitioned, doNothing));
      ListsOfNew(availableTasks, tasksToFinish, completedTasks, numAvailable, numTasksToRun, waitingOnOthers, completedAt,
                 graph, core, partitioned, doNothing);
      var count := if partitioned then graph.partitions else 1;
      NewLinksStart(t, count, c0.available);
      graph := graph.WithTask(partitioned, doNothing);
      core := core.(running := NewLinks(t, 0, count));
      for i := 0 to count
        invariant Consistent({}) && Safe(graph, core) && !done && graph == g0.WithTask(partitioned, doNothing)
        invariant core == c0.(running := NewLinks(t, i, count), available := c0.available + NewLinks(t, 0, i))
      {
        NewLinksStep(t, i, count, c0.available);
        LinkNew(Link(t, i));
      }
      TaskAtRest(g0, c0, partitioned, doNothing, core);
    }

    // A partition with clear flags goes on the available list.
    method LinkNew(l: Link)
      requires Valid() && l in core.running
      modifies this
      ensures Valid() && unchanged(`graph, `done) && core == ToAvailable(old(core), l)
    {
      hide ListsAgree, FlagsAgree, Safe, Graph.WellFormed;
      ghost var c0 := core;
      CompletedFlag(l);
      FlagsOfLimbo(waitingOnOthers, completedAt, core, l);
      LinkState(l);
      SafeRelinked(graph, c0, l);
    }

    // _ac_task_dependency for one name that was found: links both ways, and `t` waits from now on.
    method AddDependency(t: nat, d: nat, partial: bool)
      requires Configured() && graph.IsTask(t) && graph.IsTask(d)
      modifies this
      ensures Configured() && graph == old(graph).WithDependency(t, d, partial)
      ensures OneDependency(old(graph), t, d, partial, graph)
      ensures Once(old(graph).full) && Once(old(graph).partial) ==> Once(graph.full) && Once(graph.partial)
    {
      hide ListsAgree, FlagsAgree, Graph.WithDependency, OneDependency, Once;
      ghost var g0, c0 := graph, core;
      DependencyAdded(graph, t, d, partial);
      DependencyMeans(graph, t, d, partial, graph.WithDependency(t, d, partial));
      graph := graph.WithDependency(t, d, partial);
      SamePlaces(g0, graph, core);
      CompletedFlag(Link(t, 0));
      if Link(t, 0) !in waitingOnOthers {
        for i := 0 to graph.counts[t]
          invariant Consistent({}) && graph == g0.WithDependency(t, d, partial) && !done
          invariant core.running == {} && core.completed == map[]
          invariant forall l :: l in core.waiting <==> l in c0.waiting || (l.task == t && l.part < i)
        {
          MoveToWaiting(Link(t, i));
        }
      }
      DependencyAtRest(g0, c0, t, d, partial, core);
    }

    method MoveToWaiting(l: Link)
      requires Consistent({}) && graph.IsLink(l) && core.running == {} && core.completed == map[]
      modifies this
      ensures Consistent({}) && unchanged(`graph, `done)
      ensures core.waiting == old(core.waiting) + {l} && core.running == {} && core.completed == map[]
    {
      hide ListsAgree, FlagsAgree, Graph.WellFormed;
      CompletedFlag(l);
      if l !in waitingOnOthers {
        UnlinkState(l);
        FlagsRaised(waitingOnOthers, completedAt, core, l);
        waitingOnOthers := waitingOnOthers + {l};
        LinkState(l);
      }
    }

    // The end of schedule_setup: tasks that do nothing are completed as soon as nothing holds them back, so
    // that none of them is left for a worker.
    method Setup(now: nat)
      requires Configured()
      modifies this
      ensures Valid() && Settled(graph, core, {}) && core.running == {} && unchanged(`graph, `done)
      ensures forall l | l in core.available :: !graph.doNothing[l.task]
      ensures forall l | l in core.completed :: graph.doNothing[l.task] && core.completed[l] == now
      ensures forall l | l in old(core.available) && !graph.doNothing[l.task] :: l in core.available
    {
      hide ListsAgree, FlagsAgree, Placed, Safe, Settled, AtRest, Graph.Mirrored, Graph.Ready;
      RestIsSettled(graph, core);
      NothingRuns(graph, core);
      ghost var c0 := core;
      for t := 0 to |graph.counts|
        invariant Valid() && unchanged(`graph, `done) && SetUp(graph, now, c0, core, t, 0)
      {
        if graph.doNothing[t] {
          for i := 0 to graph.counts[t]
            invariant Valid() && unchanged(`graph, `done) && SetUp(graph, now, c0, core, t, i)
          {
            SetUpOne(Link(t, i), now, c0);
          }
        }
        NextTask(graph, now, c0, core, t);
      }
      LastTask(graph, now, c0, core);
    }

    method SetUpOne(l: Link, now: nat, ghost c0: Core)
      requires Valid() && graph.IsLink(l) && graph.doNothing[l.task] && SetUp(graph, now, c0, core, l.task, l.part)
      modifies this
      ensures Valid() && unchanged(`graph, `done) && SetUp(graph, now, c0, core, l.task, l.part + 1)
    {
      hide ListsAgree, FlagsAgree, Placed, Safe, SetUp, Graph.WellFormed;
      ghost var c1 := core;
      SafeAvailable(graph, core, l);
      SetUpSettled(graph, now, c0, core, l);
      PartInRange(graph, l);
      var ready := IsDependenciesComplete(l);
      if ready {
        var w := TakeWorker(Some(l.task), l.part);
        if w.Some? {
          FlagsOfLimbo(waitingOnOthers, completedAt, core, l);
          MarkTaskComplete(l, now, {});
          SetUpCompleted(graph, c0, c1, l, now, core);
          return;
        }
      }
      SetUpSkipped(graph, now, c0, core, l);
    }

    predicate IsCompleted(l: Link)
      reads this
    {
      l !in waitingOnOthers && l in completedAt
    }

    lemma CompletedFlag(l: Link)
      requires Consistent({})
      ensures IsCompleted(l) <==> l in core.completed
      ensures l in completedAt <==> l in core.completed
      ensures l in waitingOnOthers <==> l in core.waiting
    {
    }

    // is_task_complete
    method IsTaskComplete(t: nat) returns (r: bool)
      requires Consistent({}) && graph.IsTask(t)
      ensures r <==> forall p | 0 <= p < graph.counts[t] :: Link(t, p) in core.completed
    {
      hide Placed, ListsAgree, FlagsAgree, IsCompleted, Graph.WellFormed;
      for i := 0 to graph.counts[t]
        invariant forall p | 0 <= p < i :: Link(t, p) in core.completed
      {
        CompletedFlag(Link(t, i));
        if !IsCompleted(Link(t, i)) { return false; }
      }
      return true;
    }

    // is_worker_complete: a partition beyond the task's last stands for its first.
    predicate IsWorkerComplete(t: nat, part: nat)
      requires graph.IsTask(t)
      reads this
    {
      IsCompleted(Link(t, if part >= graph.counts[t] then 0 else part))
    }

    // is_dependencies_complete
    method IsDependenciesComplete(l: Link) returns (r: bool)
      requires Consistent({}) && graph.IsLink(l)
      ensures r <==> graph.Ready(l, core.completed.Keys)
    {
      hide Placed, ListsAgree, FlagsAgree, IsCompleted;
      var full, partial := graph.full[l.task], graph.partial[l.task];
      assert graph.Mirrored(graph.full, graph.revFull, l.task) && graph.Mirrored(graph.partial, graph.revPartial, l.task);
      for i := 0 to |full|
        invariant forall d | graph.DependsOn(l, d) && d.task in full[..i] :: d in core.completed
      {
        assert full[i] in full;
        var complete := IsTaskComplete(full[i]);
        if !complete {
          ghost var p :| 0 <= p < graph.counts[full[i]] && Link(full[i], p) !in core.completed;
          assert graph.DependsOn(l, Link(full[i], p));
          return false;
        }
      }
      r := IsPartialComplete(l, partial);
    }

    method IsPartialComplete(l: Link, partial: seq<nat>) returns (r: bool)
      requires Consistent({}) && graph.IsLink(l) && partial == graph.partial[l.task]
      requires forall d | graph.DependsOn(l, d) && d.task in graph.full[l.task] :: d in core.completed
      ensures r <==> graph.Ready(l, core.completed.Keys)
    {
      hide Placed, ListsAgree, FlagsAgree, IsCompleted;
      assert graph.Mirrored(graph.partial, graph.revPartial, l.task);
      for i := 0 to |partial|
        invariant forall d | graph.DependsOn(l, d) && d.task in partial[..i] :: d in core.completed
      {
        assert partial[i] in partial;
        ghost var partner := Link(partial[i], graph.Partner(partial[i], l.part));
        assert graph.DependsOn(l, partner);
        CompletedFlag(partner);
        if !IsWorkerComplete(partial[i], l.part) { return false; }
      }
      return true;
    }

    // The flags and the list of a partition that completes.
    method FinishLink(l: Link, when: nat)
      requires Consistent({l}) && Safe(graph, core) && l in core.running
      modifies this
      ensures Valid() && unchanged(`graph, `done) && core == Complete(old(core), l, when)
    {
      hide ListsAgree, FlagsAgree, Placed, Safe, Graph.WellFormed;
      LinkedPlaced(graph, core, l, when);
      CompletionKeeps(graph, core, l, when);
      FlagsFree(waitingOnOthers, completedAt, core, l, when);
      waitingOnOthers := waitingOnOthers - {l};
      completedAt := completedAt[l := when];
      LinkState(l);
    }

    // A waiting partition comes off its list and stops waiting.
    method Release(l: Link)
      requires Valid() && l in core.waiting && graph.Ready(l, core.completed.Keys)
      modifies this
      ensures Consistent({l}) && Safe(graph, core) && unchanged(`graph, `done) && core == Unlinked(old(core), l)
      ensures l !in waitingOnOthers && l !in completedAt && l in core.running && |core.waiting| < |old(core.waiting)|
    {
      hide ListsAgree, FlagsAgree, Placed, Safe, Graph.WellFormed;
      ghost var c0 := core;
      UnlinkedPlaced(graph, core, l);
      CompletedFlag(l);
      UnlinkState(l);
      FlagsFree(waitingOnOthers, completedAt, core, l, 0);
      waitingOnOthers := waitingOnOthers - {l};
      SafeUnlinked(graph, c0, l);
    }

    method IsPartiallyComplete(t: nat) returns (r: bool)
      requires Consistent({}) && graph.IsTask(t)
      ensures r <==> exists p :: 0 <= p < graph.counts[t] && Link(t, p) !in core.completed
    {
      hide Placed, ListsAgree, FlagsAgree, Graph.WellFormed;
      for i := 0 to graph.counts[t]
        invariant forall p | 0 <= p < i :: Link(t, p) in core.completed
      {
        CompletedFlag(Link(t, i));
        if Link(t, i) !in completedAt { return true; }
      }
      return false;
    }

    // mark_task_complete: `l` is on no list. `pending` are the partitions that callers have still to check.
    method MarkTaskComplete(l: Link, when: nat, ghost pending: set<Link>)
      requires Consistent({l}) && Safe(graph, core) && Settled(graph, core, pending) && l in core.running
      modifies this
      ensures Valid() && unchanged(`graph, `done) && Settled(graph, core, pending)
      ensures Cascaded(graph, Complete(old(core), l, when), core, when)
      decreases |core.waiting|, 4
    {
      hide ListsAgree, FlagsAgree, Placed, Settled, Cascaded, Safe, Graph.Mirrored, Graph.Ready;
      ghost var c0 := core;
      var t := l.task;
      LinkedPlaced(graph, core, l, when);
      FinishLink(l, when);
      DependentsMirrored(graph, l);
      var partiallyComplete := IsPartiallyComplete(t);
      if !partiallyComplete {
        SettledAfterAll(graph, c0, l, when, pending);
        CheckTasks(graph.revFull[t], when, pending + graph.TaskLinks(graph.revPartial[t]));
        ghost var c1 := core;
        FewerWaiting(graph, Complete(c0, l, when), c1, when);
        CheckTasks(graph.revPartial[t], when, pending);
        CascadedTransitive(graph, Complete(c0, l, when), c1, core, when);
      } else {
        SettledAfterSome(graph, c0, l, when, pending);
        CheckPartition(graph.revPartial[t], l.part, when, pending);
      }
    }

    // Every partition of each of the tasks.
    method CheckTasks(us: seq<nat>, when: nat, ghost pending: set<Link>)
      requires Valid() && (forall u | u in us :: graph.IsTask(u)) && Settled(graph, core, pending + graph.TaskLinks(us))
      modifies this
      ensures Valid() && unchanged(`graph, `done) && Settled(graph, core, pending)
      ensures Cascaded(graph, old(core), core, when)
      decreases |core.waiting|, 3
    {
      hide Placed, Safe, ListsAgree, FlagsAgree, Cascaded, Graph.WellFormed, Graph.Ready;
      ghost var c0 := core;
      CascadedReflexive(graph, core, when);
      for i := 0 to |us|
        invariant Valid() && unchanged(`graph, `done) && |core.waiting| <= |c0.waiting|
        invariant Settled(graph, core, pending + graph.TaskLinks(us[i..]))
        invariant Cascaded(graph, c0, core, when)
      {
        ghost var c1 := core;
        ghost var later := pending + graph.TaskLinks(us[i + 1..]);
        assert us[i] in us && us[i..] == [us[i]] + us[i + 1..];
        assert pending + graph.TaskLinks(us[i..]) == later + graph.LinksFrom(us[i], 0);
        CheckPartitions(us[i], when, later);
        CascadedTransitive(graph, c0, c1, core, when);
        FewerWaiting(graph, c0, core, when);
      }
      assert pending + graph.TaskLinks(us[|us|..]) == pending;
    }

    method CheckPartitions(u: nat, when: nat, ghost pending: set<Link>)
      requires Valid() && graph.IsTask(u) && Settled(graph, core, pending + graph.LinksFrom(u, 0))
      modifies this
      ensures Valid() && unchanged(`graph, `done) && Settled(graph, core, pending)
      ensures Cascaded(graph, old(core), core, when)
      decreases |core.waiting|, 2
    {
      hide Placed, Safe, ListsAgree, FlagsAgree, Cascaded, Graph.WellFormed, Graph.Ready;
      ghost var c0 := core;
      CascadedReflexive(graph, core, when);
      for i := 0 to graph.counts[u]
        invariant Valid() && unchanged(`graph, `done) && |core.waiting| <= |c0.waiting|
        invariant Settled(graph, core, pending + graph.LinksFrom(u, i))
        invariant Cascaded(graph, c0, core, when)
      {
        ghost var c1 := core;
        ghost var later := pending + graph.LinksFrom(u, i + 1);
        assert pending + graph.LinksFrom(u, i) == later + {Link(u, i)};
        CheckTask(Link(u, i), when, later);
        CascadedTransitive(graph, c0, c1, core, when);
        FewerWaiting(graph, c0, core, when);
      }
      assert pending + graph.LinksFrom(u, graph.counts[u]) == pending;
    }

    // The same partition of each of the tasks, where it exists.
    method CheckPartition(us: seq<nat>, part: nat, when: nat, ghost pending: set<Link>)
      requires Valid() && (forall u | u in us :: graph.IsTask(u))
      requires Settled(graph, core, pending + graph.PartLinks(us, part))
      modifies this
      ensures Valid() && unchanged(`graph, `done) && Settled(graph, core, pending)
      ensures Cascaded(graph, old(core), core, when)
      decreases |core.waiting|, 2
    {
      hide Placed, Safe, ListsAgree, FlagsAgree, Cascaded, Graph.WellFormed, Graph.Ready;
      ghost var c0 := core;
      CascadedReflexive(graph, core, when);
      for i := 0 to |us|
        invariant Valid() && unchanged(`graph, `done) && |core.waiting| <= |c0.waiting|
        invariant Settled(graph, core, pending + graph.PartLinks(us[i..], part))
        invariant Cascaded(graph, c0, core, when)
      {
        ghost var c1 := core;
        ghost var later := pending + graph.PartLinks(us[i + 1..], part);
        assert us[i] in us && us[i..] == [us[i]] + us[i + 1..];
        if part < graph.counts[us[i]] {
          assert pending + graph.PartLinks(us[i..], part) == later + {Link(us[i], part)};
          CheckTask(Link(us[i], part), when, later);
          CascadedTransitive(graph, c0, c1, core, when);
          FewerWaiting(graph, c0, core, when);
        } else {
          assert pending + graph.PartLinks(us[i..], part) == later;
        }
      }
      assert pending + graph.PartLinks(us[|us|..], part) == pending;
    }

    // check_task: a waiting partition whose dependencies are complete stops waiting.
    method CheckTask(l: Link, when: nat, ghost pending: set<Link>)
      requires Valid() && Settled(graph, core, pending + {l})
      modifies this
      ensures Valid() && unchanged(`graph, `done) && Settled(graph, core, pending)
      ensures Cascaded(graph, old(core), core, when)
      decreases |core.waiting|, 0
    {
      hide ListsAgree, FlagsAgree, Placed, Safe, Cascaded, Graph.Mirrored, Graph.Ready;
      ghost var c0 := core;
      CascadedReflexive(graph, core, when);
      CompletedFlag(l);
      if l in waitingOnOthers {
        UnlinkedPlaced(graph, core, l);
        var ready := IsDependenciesComplete(l);
        if ready {
          Release(l);
          if graph.doNothing[l.task] {
            MarkTaskComplete(l, when, pending);
            FreedByCascade(graph, c0, l, when, core);
          } else {
            LinkState(l);
            FreedAvailable(graph, c0, l, when);
          }
        }
      }
    }
  
    // ---------- taking and completing ----------

    // take_worker: the first available partition of that number, of the given task if there is one.
    method TakeWorker(task: Option<nat>, part: nat) returns (w: Option<Link>)
      requires Valid() && part < graph.partitions
      modifies this
      ensures Valid() && unchanged(`graph, `done)
      ensures w.Some? ==> w.value in old(core.available) && w.value.part == part && core == Unlinked(old(core), w.value)
      ensures w.Some? && task.Some? ==> w.value.task == task.value
      ensures w.None? ==> core == old(core)
      ensures w.None? ==> forall l | l in core.available && l.part == part :: task.Some? && l.task != task.value
      ensures |old(availableTasks)| == graph.partitions
      ensures w.Some? ==> exists i: nat :: FirstOf(old(availableTasks[part]), task, i) && old(availableTasks[part])[i] == w.value.task
    {
      hide ListsAgree, FlagsAgree, Placed, Safe, Graph.WellFormed, Graph.Ready, FirstOf;
      ghost var c0 := core;
      AvailableList(part);
      var avail := availableTasks[part];
      var i := FirstEntry(avail, task);
      if i == |avail| {
        forall l | l in core.available && l.part == part
          ensures task.Some? && l.task != task.value
        {
          assert l == Link(l.task, part) && l.task in avail;
        }
        return None;
      }
      var l := Link(avail[i], part);
      assert avail[i] in avail && l in core.available;
      CompletedFlag(l);
      UnlinkedPlaced(graph, core, l);
      UnlinkState(l);
      FlagsOfLimbo(waitingOnOthers, completedAt, core, l);
      SafeStarted(graph, c0, l);
      w := Some(l);
    }

    lemma AvailableList(part: nat)
      requires Consistent({}) && part < graph.partitions
      ensures |availableTasks| == graph.partitions
      ensures forall t :: t in availableTasks[part] <==> Link(t, part) in core.available
    {
    }

    // get_next_worker, from taking the mutex (or waking with it) to sleeping or giving it back.
    method GetNextWorker(entering: bool, first: nat) returns (d: Decision)
      requires Valid() && first < graph.partitions
      modifies this
      ensures Valid() && unchanged(`graph, `done)
      ensures Decides(old(core), done, entering, d, core)
    {
      hide ListsAgree, FlagsAgree, Placed, Safe, Graph.WellFormed, Graph.Ready;
      if entering && done { return Leave; }
      Counted();
      if !done && numAvailable == 0 && numTasksToRun > 0 { return Sleep; }
      if numAvailable > 0 {
        var w := TakeAnyWorker(first);
        return Take(w.value);
      }
      d := Leave;
    }

    lemma Counted()
      requires Consistent({})
      ensures numAvailable == |core.available| && numTasksToRun == |core.waiting|
    {
    }

    method TakeAnyWorker(first: nat) returns (w: Option<Link>)
      requires Valid() && first < graph.partitions
      modifies this
      ensures Valid() && unchanged(`graph, `done)
      ensures w.Some? ==> w.value in old(core.available) && core == Unlinked(old(core), w.value)
      ensures w.None? ==> old(core.available) == {}
      ensures w.Some? ==> exists p: nat :: FirstInTurn(old(core.available), p, first, graph.partitions, w.value.part)
    {
      hide ListsAgree, FlagsAgree, Safe, Graph.Ready, Rotated, FirstOf;
      var n := graph.partitions;
      ghost var c0 := core;
      for p := 0 to n
        invariant Valid() && unchanged(`graph, `done) && core == c0
        invariant forall l, q | l in core.available && 0 <= q < p :: l.part != Rotated(q, first, n)
      {
        w := TakeWorker(None, Rotated(p, first, n));
        if w.Some? {
          assert FirstInTurn(c0.available, p, first, n, w.value.part);
          return;
        }
      }
      EveryPartVisited(graph, core.available, first);
      w := None;
    }

    // worker_complete, with no task selection: whether to wake every sleeping thread.
    method WorkerComplete(l: Link, when: nat) returns (broadcast: bool)
      requires Valid() && Settled(graph, core, {}) && l in core.running
      modifies this
      ensures Valid() && unchanged(`graph, `done) && Settled(graph, core, {})
      ensures Cascaded(graph, Complete(old(core), l, when), core, when)
      ensures broadcast == Broadcasts(old(core), core, done)
      ensures broadcast <==> (old(core.available) == {} && core.available != {}) || done
    {
      hide FlagsAgree, Placed, Safe, Settled, Cascaded;
      var before := numAvailable;
      Counted();
      FlagsOfLimbo(waitingOnOthers, completedAt, core, l);
      MarkTaskComplete(l, when, {});
      Counted();
      broadcast := (before == 0 && numAvailable > 0) || done;
    }

    // mark_as_done
    method MarkAsDone() returns (broadcast: bool)
      requires Valid()
      modifies `done
      ensures Valid() && done && broadcast == !old(done)
    {
      broadcast := !done;
      done := true;
    }
  }

  // Another task was asked for.
  predicate Skips(task: Option<nat>, t: nat) {
    task.Some? && t != task.value
  }

  // The first entry of a list that is the task asked for, or of any task.
  predicate FirstOf(list: seq<nat>, task: Option<nat>, i: nat) {
    i < |list| && !Skips(task, list[i]) && forall j | 0 <= j < i :: Skips(task, list[j])
  }

  method FirstEntry(list: seq<nat>, task: Option<nat>) returns (i: nat)
    ensures i <= |list| && (i < |list| ==> FirstOf(list, task, i) && (task.Some? ==> list[i] == task.value))
    ensures i == |list| ==> forall j | 0 <= j < |list| :: Skips(task, list[j])
  {
    i := 0;
    while i < |list| && task.Some? && list[i] != task.value
      invariant i <= |list| && forall j | 0 <= j < i :: Skips(task, list[j])
    {
      i := i + 1;
    }
  }

  // Going round from `first`, the p-th number is `part`, and no number before it has anything available.
  ghost predicate FirstInTurn(available: set<Link>, p: nat, first: nat, n: nat, part: nat) {
    p < n && first < n && part == Rotated(p, first, n) && forall l, q: nat | l in available && q < p :: l.part != Rotated(q, first, n)
  }

  // (p + first) % n for numbers below n
  function Rotated(p: nat, first: nat, n: nat): (r: nat)
    requires p < n && first < n
    ensures r < n && r == (p + first) % n
  {
    Wraps(p + first, n);
    if p + first < n then p + first else p + first - n
  }

  lemma TwoTimes(q: nat, n: nat)
    requires q >= 2
    ensures q * n >= 2 * n
  {
  }

  lemma Wraps(x: nat, n: nat)
    requires n > 0 && x < 2 * n
    ensures x % n == if x < n then x else x - n
  {
    var q := x / n;
    assert x == q * n + x % n;
    assert q * n >= 2 * n || q < 2 by { if q >= 2 { TwoTimes(q, n); } }
    assert q == 0 ==> q * n == 0;
    assert q == 1 ==> q * n == n;
  }

  // Starting anywhere and going round visits every partition number.
  lemma EveryPartVisited(g: Graph, links: set<Link>, first: nat)
    requires g.WellFormed() && first < g.partitions && forall l | l in links :: g.IsLink(l)
    requires forall l, q | l in links && 0 <= q < g.partitions :: l.part != Rotated(q, first, g.partitions)
    ensures links == {}
  {
    hide Rotated, Graph.WellFormed;
    if l :| l in links {
      PartInRange(g, l);
      var q := RotatedTo(l.part, first, g.partitions);
    }
  }

  lemma RotatedTo(part: nat, first: nat, n: nat) returns (q: nat)
    requires part < n && first < n
    ensures q < n && part == Rotated(q, first, n)
  {
    q := if part >= first then part - first else part + n - first;
  }

  lemma UnlinkedRuns(c: Core, l: Link)
    ensures {l} <= Unlinked(c, l).running
  {
  }

  lemma PartInRange(g: Graph, l: Link)
    requires g.WellFormed() && g.IsLink(l)
    ensures l.part < g.partitions
  {
  }
}

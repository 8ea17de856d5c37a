// Posting groups as block cursors read them: up to 4096 consecutive ids share a group.
module Postings {

  const GROUP_SIZE: nat := 4096
  const ID_LIMIT: nat := 0x800_0000

  // `base` is the group number shifted by twelve bits, `low` the last twelve bits of each id.
  datatype Group = Group(base: nat, low: seq<nat>)

  function Ids(g: Group): seq<nat> {
    seq(|g.low|, k requires 0 <= k < |g.low| => g.base + g.low[k])
  }

  function Flat(groups: seq<Group>): seq<nat> {
    if groups == [] then [] else Ids(groups[0]) + Flat(groups[1..])
  }

  ghost predicate Increasing(s: seq<nat>) {
    forall i, j | 0 <= i < j < |s| :: s[i] < s[j]
  }

  ghost predicate ValidGroup(g: Group) {
    && g.base % GROUP_SIZE == 0 && g.base < ID_LIMIT && g.low != []
    && forall k | 0 <= k < |g.low| :: g.low[k] < GROUP_SIZE
  }

  ghost predicate BasesIncrease(groups: seq<Group>) {
    forall i, j | 0 <= i < j < |groups| :: groups[i].base < groups[j].base
  }

  // What the index stores for a term: non-empty groups, one for each number, whose ids, all from 1 on, increase.
  ghost predicate ValidGroups(groups: seq<Group>) {
    && (forall g | g in groups :: ValidGroup(g)) && BasesIncrease(groups)
    && Increasing(Flat(groups)) && forall x | x in Flat(groups) :: 1 <= x < ID_LIMIT
  }

  // id & 0x7fff000, for ids of 27 bits
  function GroupOf(id: nat): (r: nat)
    requires id < ID_LIMIT
    ensures r <= id < r + GROUP_SIZE && r % GROUP_SIZE == 0
  {
    id / GROUP_SIZE * GROUP_SIZE
  }
}

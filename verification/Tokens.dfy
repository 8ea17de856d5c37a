// Search expressions: ORs are lifted, NOTs gathered, and the rest is ANDed. The rewritten tree, read as cursors
// are opened for it, means what the list of tokens said.
module Tokens {

  datatype Kind = Paren | AnyOf | ButNot

  // A phrase in double quotes is left alone by all rewriting and stands as a leaf.
  datatype Token =
    | Leaf(word: string)
    | Or
    | Not
    | Group(kind: Kind, children: seq<Token>)

  // Which documents a leaf finds is not looked into.
  type Lookup = (string, nat) -> bool

  // An OR mark, or the word.
  predicate IsOr(t: Token) {
    t.Or? || (t.Leaf? && |t.word| == 2 && t.word[0] in "oO" && t.word[1] in "rR")
  }

  predicate IsNot(t: Token) {
    t.Not? || (t.Leaf? && |t.word| == 3 && t.word[0] in "nN" && t.word[1] in "oO" && t.word[2] in "tT")
  }

  // Besides the marks, these words in small and capital letters, and no others.
  lemma MarkWords(w: string)
    ensures IsOr(Leaf(w)) <==> w in {"or", "oR", "Or", "OR"}
    ensures IsNot(Leaf(w)) <==> w in {"not", "noT", "nOt", "nOT", "Not", "NoT", "NOt", "NOT"}
    ensures IsOr(Or) && !IsOr(Not) && IsNot(Not) && !IsNot(Or) && forall k, c :: !IsOr(Group(k, c)) && !IsNot(Group(k, c))
  {
    if |w| == 2 { assert w == [w[0], w[1]]; }
    if |w| == 3 { assert w == [w[0], w[1], w[2]]; }
  }

  // ---------- the meaning of a finished tree ----------

  // As cursors are opened: parentheses intersect, OR nodes unite, and a NOT node takes its first child away
  // from its second.
  predicate Finds(lookup: Lookup, t: Token, x: nat) {
    match t
    case Leaf(word) => lookup(word, x)
    case Or => lookup("or", x)
    case Not => lookup("not", x)
    case Group(Paren, children) => forall c | c in children :: Finds(lookup, c, x)
    case Group(AnyOf, children) => exists c | c in children :: Finds(lookup, c, x)
    case Group(ButNot, children) => |children| >= 2 && Finds(lookup, children[1], x) && !Finds(lookup, children[0], x)
  }

  // A mark that was left over stands for its word.
  lemma MarksLeftOver(lookup: Lookup, x: nat)
    ensures Finds(lookup, Or, x) == Finds(lookup, Leaf("or"), x) && Finds(lookup, Not, x) == Finds(lookup, Leaf("not"), x)
    ensures Says(lookup, Or, x) == Says(lookup, Leaf("or"), x) && Says(lookup, Not, x) == Says(lookup, Leaf("not"), x)
  {
  }

  // ---------- the meaning of a list of tokens ----------

  // After reading tokens from the left: an earlier branch was found; the branch since the last OR is found so
  // far; a NOT waits for what it applies to.
  datatype Reading = Reading(found: bool, ok: bool, pend: bool)

  predicate Says(lookup: Lookup, t: Token, x: nat)
    decreases t, 0
  {
    match t
    case Leaf(word) => lookup(word, x)
    case Or => lookup("or", x)
    case Not => lookup("not", x)
    case Group(Paren, children) => ListSays(lookup, children, x)
    case Group(AnyOf, children) => exists c | c in children :: Says(lookup, c, x)
    case Group(ButNot, children) => |children| >= 2 && Says(lookup, children[1], x) && !Says(lookup, children[0], x)
  }

  function Read(lookup: Lookup, list: seq<Token>, x: nat): Reading
    decreases list, 0
  {
    if list == [] then Reading(false, true, false)
    else ReadOne(lookup, Read(lookup, list[..|list| - 1], x), list[|list| - 1], x)
  }

  function ReadOne(lookup: Lookup, s: Reading, t: Token, x: nat): Reading
    decreases t, 1
  {
    if s.pend then Reading(s.found, s.ok && !Says(lookup, t, x), false)
    else if IsOr(t) then Reading(s.found || s.ok, true, false)
    else if IsNot(t) then Reading(s.found, s.ok, true)
    else Reading(s.found, s.ok && Says(lookup, t, x), false)
  }

  // One of the branches between ORs is found: all of its tokens are, except those behind a NOT, which are not.
  predicate ListSays(lookup: Lookup, list: seq<Token>, x: nat)
    decreases list, 1
  {
    var s := Read(lookup, list, x);
    s.found || s.ok
  }

  // ---------- well-formed lists ----------

  // After reading tokens from the left: all is well so far; the branch since the last OR has something positive;
  // a NOT waits.
  datatype Shape = Shape(good: bool, pos: bool, pend: bool)

  predicate NoNot(t: Token) {
    !IsNot(t) && match t
                 case Group(_, children) => forall c | c in children :: NoNot(c)
                 case _ => true
  }

  // `ors`: before ORs are lifted, when there are OR marks and no OR nodes.
  predicate ItemOk(t: Token, ors: bool)
    decreases t, 0
  {
    !IsOr(t) && !IsNot(t) &&
    match t
    case Group(Paren, children) => WellFormed(children, ors)
    case Group(AnyOf, children) => !ors && forall c | c in children :: ItemOk(c, ors)
    case Group(ButNot, children) => false
    case _ => true
  }

  function Check(list: seq<Token>, ors: bool): Shape
    decreases list, 0
  {
    if list == [] then Shape(true, false, false)
    else CheckOne(Check(list[..|list| - 1], ors), list[|list| - 1], ors)
  }

  function CheckOne(s: Shape, t: Token, ors: bool): Shape
    decreases t, 1
  {
    if s.pend then Shape(s.good && ItemOk(t, ors) && NoNot(t), s.pos, false)
    else if IsOr(t) then Shape(s.good && ors && s.pos, false, false)
    else if IsNot(t) then Shape(s.good, s.pos, true)
    else Shape(s.good && ItemOk(t, ors), true, false)
  }

  // Every branch has something positive, every NOT something to apply to that holds no NOT itself.
  predicate WellFormed(list: seq<Token>, ors: bool)
    decreases list, 1
  {
    var s := Check(list, ors);
    s.good && s.pos && !s.pend
  }

  lemma CheckMore(list: seq<Token>, t: Token, ors: bool)
    ensures Check(list + [t], ors) == CheckOne(Check(list, ors), t, ors)
  {
    assert (list + [t])[..|list|] == list;
  }

  lemma ReadMore(lookup: Lookup, list: seq<Token>, t: Token, x: nat)
    ensures Read(lookup, list + [t], x) == ReadOne(lookup, Read(lookup, list, x), t, x)
  {
    assert (list + [t])[..|list|] == list;
  }

  // Prefixes of a well-formed list are well so far, and no OR ends it.
  lemma {:induction false} PrefixGood(list: seq<Token>, ors: bool, i: nat)
    requires Check(list, ors).good && i <= |list|
    ensures Check(list[..i], ors).good
    decreases |list| - i
  {
    if i < |list| {
      PrefixGood(list, ors, i + 1);
      assert list[..i + 1] == list[..i] + [list[i]];
      CheckMore(list[..i], list[i], ors);
    } else {
      assert list[..i] == list;
    }
  }

  // ---------- expressions without OR ----------

  predicate NoOr(t: Token) {
    !IsOr(t) && (t.Group? ==> t.kind == Paren && forall c | c in t.children :: NoOr(c))
  }

  predicate NoOrs(list: seq<Token>) {
    forall t | t in list :: NoOr(t)
  }

  // ---------- lifting ORs ----------

  // The branches gathered so far and the one being read, with their own children done, say what the tokens
  // read so far say.
  ghost predicate Lifting(lookup: Lookup, read: seq<Token>, bh: seq<seq<Token>>, cur: seq<Token>, noNot: bool) {
    && Check(cur, false) == Shape(true, Check(read, true).pos, Check(read, true).pend)
    && (forall b | b in bh :: WellFormed(b, false))
    && (forall x: nat :: Read(lookup, cur, x) == Reading(false, Read(lookup, read, x).ok, Read(lookup, read, x).pend))
    && (forall x: nat :: Read(lookup, read, x).found <==> exists b | b in bh :: ListSays(lookup, b, x))
    && (noNot ==> NoNots(cur) && forall b | b in bh :: NoNots(b))
  }

  // All tokens of the list are free of NOTs.
  predicate NoNots(list: seq<Token>) {
    forall t | t in list :: NoNot(t)
  }

  // A token and the same with its children done.
  ghost predicate Alike(lookup: Lookup, t0: Token, t: Token) {
    && IsOr(t) == IsOr(t0) && IsNot(t) == IsNot(t0)
    && (ItemOk(t0, true) ==> ItemOk(t, false) && forall x: nat :: Says(lookup, t, x) == Says(lookup, t0, x))
    && (ItemOk(t0, true) && NoNot(t0) ==> NoNot(t))
  }

  method FixOrs(list: seq<Token>, ghost lookup: Lookup) returns (r: seq<Token>)
    ensures WellFormed(list, true) ==> WellFormed(r, false) && forall x: nat :: ListSays(lookup, r, x) == ListSays(lookup, list, x)
    ensures WellFormed(list, true) && NoNots(list) ==> NoNots(r)
    ensures NoOrs(list) ==> r == list
    decreases list
  {
    hide *;
    var bh: seq<seq<Token>> := [];
    var all: seq<Token> := [];
    var cur: seq<Token> := [];
    var i := 0;
    ghost var good, noNot, noOr := WellFormed(list, true), NoNots(list), NoOrs(list);
    LiftingStarts(lookup, noNot);
    assert list[..0] == [];
    while i < |list|
      invariant i <= |list| && |all| == i && forall k | 0 <= k < |bh| :: bh[k] != []
      invariant good ==> Lifting(lookup, list[..i], bh, cur, noNot) && (bh == [] ==> cur == all)
      invariant noOr ==> bh == [] && all == list[..i]
    {
      var t := list[i];
      if noOr { OneNoOr(list, i); }
      if t.Group? && t.children != [] {
        var c := FixOrs(t.children, lookup);
        GroupAlike(lookup, t, c);
        t := Group(t.kind, c);
      } else {
        SameAlike(lookup, t);
      }
      if good { OneLifted(lookup, list, i, bh, cur, t, noNot); }
      all := all + [t];
      if IsOr(t) {
        if i + 1 < |list| && cur != [] {
          bh := bh + [cur];
        }
        cur := [];
      } else {
        cur := cur + [t];
      }
      i := i + 1;
    }
    assert list[..i] == list;
    if noOr && list != [] { OneNoOr(list, |list| - 1); }
    if bh == [] {
      // A last OR is cut off, unless another one stands before it.
      r := if |all| >= 2 && IsOr(all[|all| - 1]) && !IsOr(all[|all| - 2]) then all[..|all| - 1] else all;
      if good { NothingLifted(lookup, list, cur, noNot); }
    } else {
      var t := Lift(if cur != [] then bh + [cur] else bh);
      if good { AllLifted(lookup, list, bh, cur, noNot, t); }
      r := [t];
    }
  }

  lemma OneNoOr(list: seq<Token>, i: nat)
    requires NoOrs(list) && i < |list|
    ensures !IsOr(list[i]) && (list[i].Group? ==> NoOrs(list[i].children) && !IsOr(Group(list[i].kind, list[i].children)))
    ensures list[..i + 1] == list[..i] + [list[i]]
  {
    assert list[i] in list && NoOr(list[i]);
  }

  function Branch(b: seq<Token>): Token
    requires b != []
  {
    if |b| > 1 then Group(Paren, b) else b[0]
  }

  function Branches(starts: seq<seq<Token>>): seq<Token>
    requires forall k | 0 <= k < |starts| :: starts[k] != []
  {
    seq(|starts|, i requires 0 <= i < |starts| => Branch(starts[i]))
  }

  // An OR node over the branches; those of several tokens in parentheses.
  method Lift(starts: seq<seq<Token>>) returns (t: Token)
    requires forall k | 0 <= k < |starts| :: starts[k] != []
    ensures t == Group(AnyOf, Branches(starts))
  {
    var children: seq<Token> := [];
    var i := 0;
    while i < |starts|
      invariant i <= |starts| && |children| == i && forall k | 0 <= k < i :: children[k] == Branch(starts[k])
    {
      children := children + [if |starts[i]| > 1 then Group(Paren, starts[i]) else starts[i][0]];
      i := i + 1;
    }
    assert children == Branches(starts);
    t := Group(AnyOf, children);
  }

  lemma LiftingStarts(lookup: Lookup, noNot: bool)
    ensures Lifting(lookup, [], [], [], noNot)
  {
  }

  lemma SameAlike(lookup: Lookup, t: Token)
    requires !t.Group? || t.children == []
    ensures Alike(lookup, t, t)
  {
    assert !WellFormed([], true);
  }

  lemma GroupAlike(lookup: Lookup, t: Token, c: seq<Token>)
    requires t.Group?
    requires WellFormed(t.children, true) ==> WellFormed(c, false) && forall x: nat :: ListSays(lookup, c, x) == ListSays(lookup, t.children, x)
    requires WellFormed(t.children, true) && NoNots(t.children) ==> NoNots(c)
    ensures Alike(lookup, t, Group(t.kind, c))
  {
    assert NoNot(t) ==> NoNots(t.children);
    assert NoNots(c) ==> NoNot(Group(t.kind, c));
    if ItemOk(t, true) {
      assert t.kind == Paren;
    }
  }

  lemma OneLifted(lookup: Lookup, list: seq<Token>, i: nat, bh: seq<seq<Token>>, cur: seq<Token>, t: Token, noNot: bool)
    requires i < |list| && WellFormed(list, true) && noNot == NoNots(list)
    requires Lifting(lookup, list[..i], bh, cur, noNot) && Alike(lookup, list[i], t)
    ensures IsOr(t) ==> i + 1 < |list| && cur != [] && Lifting(lookup, list[..i + 1], bh + [cur], [], noNot)
    ensures !IsOr(t) ==> Lifting(lookup, list[..i + 1], bh, cur + [t], noNot)
  {
    var read, t0 := list[..i], list[i];
    assert list[..i + 1] == read + [t0];
    PrefixGood(list, true, i + 1);
    CheckMore(read, t0, true);
    if IsOr(t) {
      assert i + 1 == |list| ==> list[..i + 1] == list;
      OrLifted(lookup, read, t0, bh, cur, noNot);
    } else {
      ItemLifted(lookup, read, t0, bh, cur, t, noNot);
    }
  }

  lemma OrLifted(lookup: Lookup, read: seq<Token>, t0: Token, bh: seq<seq<Token>>, cur: seq<Token>, noNot: bool)
    requires Lifting(lookup, read, bh, cur, noNot) && IsOr(t0) && CheckOne(Check(read, true), t0, true).good
    ensures cur != [] && Lifting(lookup, read + [t0], bh + [cur], [], noNot) && !CheckOne(Check(read, true), t0, true).pos
  {
    CheckMore(read, t0, true);
    forall x: nat
      ensures Read(lookup, read + [t0], x) == Reading(exists b | b in bh + [cur] :: ListSays(lookup, b, x), true, false)
    {
      ReadMore(lookup, read, t0, x);
      assert forall b | b in bh + [cur] :: b in bh || b == cur;
      assert cur in bh + [cur] && forall b | b in bh :: b in bh + [cur];
      assert ListSays(lookup, cur, x) == Read(lookup, read, x).ok;
    }
  }

  lemma ItemLifted(lookup: Lookup, read: seq<Token>, t0: Token, bh: seq<seq<Token>>, cur: seq<Token>, t: Token, noNot: bool)
    requires Lifting(lookup, read, bh, cur, noNot) && !IsOr(t0) && CheckOne(Check(read, true), t0, true).good
    requires Alike(lookup, t0, t) && (noNot ==> NoNot(t0))
    ensures Lifting(lookup, read + [t0], bh, cur + [t], noNot)
  {
    CheckMore(read, t0, true);
    CheckMore(cur, t, false);
    forall x: nat
      ensures Read(lookup, read + [t0], x).found == Read(lookup, read, x).found
      ensures Read(lookup, cur + [t], x) == Reading(false, Read(lookup, read + [t0], x).ok, Read(lookup, read + [t0], x).pend)
    {
      ReadMore(lookup, read, t0, x);
      ReadMore(lookup, cur, t, x);
    }
  }

  lemma NothingLifted(lookup: Lookup, list: seq<Token>, cur: seq<Token>, noNot: bool)
    requires WellFormed(list, true) && Lifting(lookup, list, [], cur, noNot) && noNot == NoNots(list)
    ensures WellFormed(cur, false) && cur != [] && !IsOr(cur[|cur| - 1])
    ensures forall x: nat :: ListSays(lookup, cur, x) == ListSays(lookup, list, x)
    ensures noNot ==> NoNots(cur)
  {
    assert Check([], false) == Shape(true, false, false);
    if cur != [] {
      var s, t := Check(cur[..|cur| - 1], false), cur[|cur| - 1];
      assert CheckOne(s, t, false) == Check(cur, false);
      assert CheckOne(s, t, false).good;
      assert !(!s.pend && IsOr(t));
      assert s.pend ==> ItemOk(t, false);
    }
  }

  lemma AllLifted(lookup: Lookup, list: seq<Token>, bh: seq<seq<Token>>, cur: seq<Token>, noNot: bool, t: Token)
    requires WellFormed(list, true) && Lifting(lookup, list, bh, cur, noNot) && noNot == NoNots(list) && bh != []
    requires forall k | 0 <= k < |bh| :: bh[k] != []
    requires cur != [] ==> t == Group(AnyOf, Branches(bh + [cur]))
    ensures WellFormed([t], false) && (noNot ==> NoNots([t]))
    ensures forall x: nat :: ListSays(lookup, [t], x) == ListSays(lookup, list, x)
  {
    assert cur != [];
    var starts := bh + [cur];
    var kids := Branches(starts);
    assert forall b | b in starts :: WellFormed(b, false) && (noNot ==> NoNots(b));
    forall k | 0 <= k < |starts|
      ensures ItemOk(kids[k], false) && (noNot ==> NoNot(kids[k]))
      ensures forall x: nat :: Says(lookup, kids[k], x) == ListSays(lookup, starts[k], x)
    {
      assert starts[k] in starts;
      BranchSays(lookup, starts[k]);
    }
    assert forall c | c in kids :: ItemOk(c, false) && (noNot ==> NoNot(c));
    assert ItemOk(t, false);
    CheckMore([], t, false);
    assert [] + [t] == [t];
    forall x: nat
      ensures ListSays(lookup, [t], x) == ListSays(lookup, list, x)
    {
      ReadMore(lookup, [], t, x);
      assert Says(lookup, t, x) <==> exists k | 0 <= k < |starts| :: Says(lookup, kids[k], x);
      assert ListSays(lookup, list, x) <==> exists b | b in starts :: ListSays(lookup, b, x) by {
        assert forall b | b in starts :: b in bh || b == cur;
        assert cur in starts && forall b | b in bh :: b in starts;
        assert ListSays(lookup, cur, x) == Read(lookup, list, x).ok;
      }
    }
  }

  lemma BranchSays(lookup: Lookup, b: seq<Token>)
    requires WellFormed(b, false) && b != []
    ensures ItemOk(Branch(b), false) && (NoNots(b) ==> NoNot(Branch(b)))
    ensures forall x: nat :: Says(lookup, Branch(b), x) == ListSays(lookup, b, x)
  {
    if |b| == 1 {
      assert b == [] + [b[0]];
      CheckMore([], b[0], false);
      forall x: nat
        ensures Says(lookup, b[0], x) == ListSays(lookup, b, x)
      {
        ReadMore(lookup, [], b[0], x);
      }
    }
  }

  // ---------- gathering NOTs ----------

  // What NOT applies to is not rewritten: without NOTs and OR marks it means as a tree what it said.
  lemma {:induction false} NoNotFinds(lookup: Lookup, t: Token, x: nat)
    requires ItemOk(t, false) && NoNot(t)
    ensures Finds(lookup, t, x) == Says(lookup, t, x)
    decreases t, 0
  {
    match t
    case Group(Paren, children) =>
      NoNotsFind(lookup, children, x);
      assert children[..|children|] == children;
    case Group(AnyOf, children) =>
      forall c | c in children
        ensures Finds(lookup, c, x) == Says(lookup, c, x)
      {
        NoNotFinds(lookup, c, x);
      }
    case Group(ButNot, _) =>
    case Leaf(_) =>
    case Or =>
    case Not =>
  }

  lemma {:induction false} NoNotsFind(lookup: Lookup, list: seq<Token>, x: nat)
    requires Check(list, false).good && NoNots(list)
    ensures Read(lookup, list, x) == Reading(false, forall c | c in list :: Finds(lookup, c, x), false)
    ensures !Check(list, false).pend
    decreases list, 1
  {
    if list != [] {
      var init, t := list[..|list| - 1], list[|list| - 1];
      assert list == init + [t];
      NoNotsFind(lookup, init, x);
      assert t in list && NoNot(t) && !IsNot(t);
      assert Check(list, false) == CheckOne(Check(init, false), t, false);
      assert CheckOne(Check(init, false), t, false).good && !Check(init, false).pend;
      assert !IsOr(t);
      NoNotFinds(lookup, t, x);
      assert forall c | c in list :: c in init || c == t;
    }
  }

  // The positive tokens and those behind NOTs that were gathered so far say what the tokens read so far say.
  ghost predicate Gathering(lookup: Lookup, read: seq<Token>, others: seq<Token>, nots: seq<Token>) {
    && !Check(read, false).pend && (Check(read, false).pos <==> others != [])
    && forall x: nat :: Read(lookup, read, x) ==
         Reading(false, (forall c | c in others :: Finds(lookup, c, x)) && !exists c | c in nots :: Finds(lookup, c, x), false)
  }

  // Every token finds as a tree what it said, its own children being done.
  ghost predicate Kept(lookup: Lookup, list: seq<Token>, r: seq<Token>) {
    |r| == |list| && forall i, x: nat | 0 <= i < |list| :: Finds(lookup, r[i], x) == Says(lookup, list[i], x)
  }

  ghost predicate Items(list: seq<Token>) {
    forall t | t in list :: ItemOk(t, false)
  }

  method FixNots(list: seq<Token>, ghost lookup: Lookup) returns (r: seq<Token>)
    ensures WellFormed(list, false) ==> r != [] && forall x: nat :: (forall c | c in r :: Finds(lookup, c, x)) == ListSays(lookup, list, x)
    ensures Items(list) ==> Kept(lookup, list, r)
    ensures OneNot(list) ==> r == [Group(ButNot, [list[2], list[0]])]
    decreases list
  {
    hide *;
    var nots: seq<Token> := [];
    var others: seq<Token> := [];
    var all: seq<Token> := [];
    var i := 0;
    ghost var good, items, three := WellFormed(list, false), Items(list), OneNot(list);
    if three { OneNotIs(list); }
    GatheringStarts(lookup);
    assert list[..0] == [];
    while i < |list|
      invariant i <= |list|
      invariant good ==> Gathering(lookup, list[..i], others, nots) && (nots == [] ==> all == others)
      invariant items ==> Kept(lookup, list[..i], all) && nots == []
      invariant three ==> |list| == 3 && list[0].Leaf? && !IsNot(list[0]) && IsNot(list[1]) && i != 2
      invariant three ==> others == (if i == 0 then [] else [list[0]]) && nots == if i < 3 then [] else [list[2]]
    {
      var t := list[i];
      if t.Group? && t.children != [] {
        var c := FixNots(t.children, lookup);
        GroupDone(lookup, t, c);
        t := Group(t.kind, c);
      } else {
        LeafDone(lookup, t);
      }
      if good { OneGathered(lookup, list, i, others, nots, t); }
      if items { OneKept(lookup, list, i, all, t); }
      all := all + [t];
      if IsNot(list[i]) {
        if i + 1 < |list| {
          nots := nots + [list[i + 1]];
          all := all + [list[i + 1]];
          i := i + 1;
        }
      } else {
        others := others + [t];
      }
      i := i + 1;
    }
    assert list[..|list|] == list;
    if nots != [] && others != [] {
      var neg := if |nots| > 1 then Group(AnyOf, nots) else nots[0];
      var pos := if |others| > 1 then Group(Paren, others) else others[0];
      r := [Group(ButNot, [neg, pos])];
      if good { AllGathered(lookup, list, others, nots, neg, pos); }
    } else {
      r := all;
      if good { NothingGathered(lookup, list, others, nots); }
    }
  }

  // A word, a NOT and what it applies to.
  ghost predicate OneNot(list: seq<Token>) {
    |list| == 3 && list[0].Leaf? && !IsNot(list[0]) && !IsOr(list[0]) && IsNot(list[1])
  }

  lemma OneNotIs(list: seq<Token>)
    requires OneNot(list)
    ensures |list| == 3 && list[0].Leaf? && !IsNot(list[0]) && IsNot(list[1])
  {
  }

  // A token whose children are done finds what it said.
  ghost predicate Done(lookup: Lookup, t0: Token, t: Token) {
    ItemOk(t0, false) ==> forall x: nat :: Finds(lookup, t, x) == Says(lookup, t0, x)
  }

  lemma GatheringStarts(lookup: Lookup)
    ensures Gathering(lookup, [], [], []) && Kept(lookup, [], [])
  {
  }

  lemma LeafDone(lookup: Lookup, t: Token)
    requires !t.Group? || t.children == []
    ensures Done(lookup, t, t)
  {
    assert !WellFormed([], false);
  }

  lemma GroupDone(lookup: Lookup, t: Token, c: seq<Token>)
    requires t.Group?
    requires WellFormed(t.children, false) ==>
      forall x: nat :: (forall d | d in c :: Finds(lookup, d, x)) == ListSays(lookup, t.children, x)
    requires Items(t.children) ==> Kept(lookup, t.children, c)
    ensures Done(lookup, t, Group(t.kind, c))
  {
    if ItemOk(t, false) && t.kind == AnyOf {
      assert Items(t.children);
      forall x: nat
        ensures Finds(lookup, Group(AnyOf, c), x) == Says(lookup, t, x)
      {
        assert Says(lookup, t, x) <==> exists i | 0 <= i < |t.children| :: Says(lookup, t.children[i], x);
        assert Finds(lookup, Group(AnyOf, c), x) <==> exists i | 0 <= i < |c| :: Finds(lookup, c[i], x);
      }
    }
  }

  lemma OneGathered(lookup: Lookup, list: seq<Token>, i: nat, others: seq<Token>, nots: seq<Token>, t: Token)
    requires i < |list| && WellFormed(list, false) && Gathering(lookup, list[..i], others, nots) && Done(lookup, list[i], t)
    ensures IsNot(list[i]) ==> i + 1 < |list| && Gathering(lookup, list[..i + 2], others, nots + [list[i + 1]])
    ensures !IsNot(list[i]) ==> Gathering(lookup, list[..i + 1], others + [t], nots)
  {
    hide *;
    var read, t0 := list[..i], list[i];
    assert list[..i + 1] == read + [t0];
    WellIsGood(list);
    PrefixGood(list, false, i + 1);
    if IsNot(t0) {
      NothingPends(lookup, read, others, nots);
      NotIsNotLast(list, i);
      var t1 := list[i + 1];
      assert list[..i + 2] == list[..i + 1] + [t1];
      PrefixGood(list, false, i + 2);
      NegativeGathered(lookup, read, t0, t1, others, nots);
    } else {
      PositiveGathered(lookup, read, t0, t, others, nots);
    }
  }

  lemma WellIsGood(list: seq<Token>)
    requires WellFormed(list, false)
    ensures Check(list, false).good
  {
  }

  lemma NothingPends(lookup: Lookup, read: seq<Token>, others: seq<Token>, nots: seq<Token>)
    requires Gathering(lookup, read, others, nots)
    ensures !Check(read, false).pend
  {
  }

  lemma NotIsNotLast(list: seq<Token>, i: nat)
    requires i < |list| && WellFormed(list, false) && !Check(list[..i], false).pend && IsNot(list[i])
    ensures i + 1 < |list|
  {
    assert list[..i + 1] == list[..i] + [list[i]];
    CheckMore(list[..i], list[i], false);
    assert !IsOr(list[i]);
    assert list[..|list|] == list;
  }

  lemma NegativeGathered(lookup: Lookup, read: seq<Token>, t0: Token, t1: Token, others: seq<Token>, nots: seq<Token>)
    requires Gathering(lookup, read, others, nots) && IsNot(t0)
    requires Check(read + [t0] + [t1], false).good
    ensures Gathering(lookup, read + [t0] + [t1], others, nots + [t1])
  {
    CheckMore(read, t0, false);
    CheckMore(read + [t0], t1, false);
    assert !IsOr(t0);
    forall x: nat
      ensures Read(lookup, read + [t0] + [t1], x) == Reading(false,
                (forall c | c in others :: Finds(lookup, c, x)) && !exists c | c in nots + [t1] :: Finds(lookup, c, x), false)
    {
      ReadMore(lookup, read, t0, x);
      ReadMore(lookup, read + [t0], t1, x);
      NoNotFinds(lookup, t1, x);
      assert t1 in nots + [t1] && (forall c | c in nots :: c in nots + [t1]) && forall c | c in nots + [t1] :: c in nots || c == t1;
    }
  }

  lemma PositiveGathered(lookup: Lookup, read: seq<Token>, t0: Token, t: Token, others: seq<Token>, nots: seq<Token>)
    requires Gathering(lookup, read, others, nots) && !IsNot(t0) && Done(lookup, t0, t)
    requires Check(read + [t0], false).good
    ensures Gathering(lookup, read + [t0], others + [t], nots)
  {
    CheckMore(read, t0, false);
    forall x: nat
      ensures Read(lookup, read + [t0], x) == Reading(false,
                (forall c | c in others + [t] :: Finds(lookup, c, x)) && !exists c | c in nots :: Finds(lookup, c, x), false)
    {
      ReadMore(lookup, read, t0, x);
      assert t in others + [t] && (forall c | c in others :: c in others + [t]) && forall c | c in others + [t] :: c in others || c == t;
    }
  }

  lemma OneKept(lookup: Lookup, list: seq<Token>, i: nat, all: seq<Token>, t: Token)
    requires i < |list| && Items(list) && Kept(lookup, list[..i], all) && Done(lookup, list[i], t)
    ensures Kept(lookup, list[..i + 1], all + [t]) && !IsNot(list[i])
  {
    assert list[i] in list;
    assert ItemOk(list[i], false);
  }

  lemma NothingGathered(lookup: Lookup, list: seq<Token>, others: seq<Token>, nots: seq<Token>)
    requires WellFormed(list, false) && Gathering(lookup, list, others, nots)
    ensures others != []
    ensures nots == [] ==> forall x: nat :: (forall c | c in others :: Finds(lookup, c, x)) == ListSays(lookup, list, x)
  {
  }

  lemma AllGathered(lookup: Lookup, list: seq<Token>, others: seq<Token>, nots: seq<Token>, neg: Token, pos: Token)
    requires WellFormed(list, false) && Gathering(lookup, list, others, nots) && nots != [] && others != []
    requires neg == if |nots| > 1 then Group(AnyOf, nots) else nots[0]
    requires pos == if |others| > 1 then Group(Paren, others) else others[0]
    ensures forall x: nat :: (forall c | c in [Group(ButNot, [neg, pos])] :: Finds(lookup, c, x)) == ListSays(lookup, list, x)
  {
    var t := Group(ButNot, [neg, pos]);
    forall x: nat
      ensures (forall c | c in [t] :: Finds(lookup, c, x)) == ListSays(lookup, list, x)
    {
      assert t in [t];
      assert Finds(lookup, pos, x) == forall c | c in others :: Finds(lookup, c, x);
      assert Finds(lookup, neg, x) == exists c | c in nots :: Finds(lookup, c, x) by { assert nots[0] in nots; }
      assert Finds(lookup, t, x) == (Finds(lookup, pos, x) && !Finds(lookup, neg, x));
    }
  }

  // ---------- all together ----------

  method GroupAnd(list: seq<Token>) returns (t: Token)
    requires list != []
    ensures forall lookup: Lookup, x: nat :: Finds(lookup, t, x) == forall c | c in list :: Finds(lookup, c, x)
  {
    if |list| == 1 { return list[0]; }
    t := Group(Paren, list);
  }

  // The tree of a well-formed expression finds what its list of tokens says.
  method Rewrite(list: seq<Token>, ghost lookup: Lookup) returns (r: seq<Token>)
    requires list != []
    ensures WellFormed(list, true) ==> |r| == 1 && forall x: nat :: Finds(lookup, r[0], x) == ListSays(lookup, list, x)
    ensures NoOrs(list) && OneNot(list) ==>
      |r| == 1 && forall l: Lookup, x: nat :: Finds(l, r[0], x) == Finds(l, Group(ButNot, [list[2], list[0]]), x)
  {
    hide *;
    var a := FixOrs(list, lookup);
    var b := FixNots(a, lookup);
    if b == [] { return []; }
    assert b[0] in b && (|b| == 1 ==> forall c | c in b :: c == b[0]);
    var t := GroupAnd(b);
    r := [t];
  }

  // ---------- NOT behind NOT ----------

  // The lookup by which every word finds everything.
  const EVERYWHERE: Lookup := (word: string, x: nat) => true

  // Where everything is found, an expression without OR says so unless it has a NOT.
  lemma {:induction false} SaidEverywhere(t: Token, x: nat)
    requires ItemOk(t, false) && NoOr(t)
    ensures Says(EVERYWHERE, t, x) <==> NoNot(t)
    decreases t, 0
  {
    if t.Group? {
      ReadEverywhere(t.children, x);
      assert t.children[..|t.children|] == t.children;
    }
  }

  ghost predicate Denied(list: seq<Token>, pend: bool)
    requires pend ==> list != []
  {
    !NoNots(if pend then list[..|list| - 1] else list)
  }

  lemma {:induction false} ReadEverywhere(list: seq<Token>, x: nat)
    requires Check(list, false).good && NoOrs(list)
    ensures var s := Read(EVERYWHERE, list, x);
      s.pend == Check(list, false).pend && !s.found && (s.pend ==> list != [] && IsNot(list[|list| - 1])) && s.ok == !Denied(list, s.pend)
    decreases list, 1
  {
    if list != [] {
      var init, t := list[..|list| - 1], list[|list| - 1];
      assert list == init + [t] && t in list && NoOr(t);
      assert Check(list, false) == CheckOne(Check(init, false), t, false);
      assert forall c | c in init :: c in list;
      ReadEverywhere(init, x);
      assert forall c | c in list :: c in init || c == t;
      if Check(init, false).pend {
        SaidEverywhere(t, x);
        assert init[|init| - 1] in list;
      } else if !IsNot(t) {
        SaidEverywhere(t, x);
      }
    }
  }

  // As a tree it is found there in any case.
  lemma {:induction false} FoundEverywhere(t: Token, x: nat)
    requires NoOr(t)
    ensures Finds(EVERYWHERE, t, x)
  {
    if t.Group? {
      forall c | c in t.children
        ensures Finds(EVERYWHERE, c, x)
      {
        FoundEverywhere(c, x);
      }
    }
  }

  // What stands behind a NOT is not rewritten: without ORs in it, the tree of a word and a NOT means what the list
  // says, for every lookup, exactly when it holds no NOT itself.
  method NotBehindNot(word: Token, mark: Token, t: Token, ghost lookup: Lookup) returns (r: seq<Token>)
    requires word.Leaf? && NoOr(word) && !IsNot(word) && IsNot(mark) && NoOr(mark) && ItemOk(t, false) && NoOr(t)
    ensures |r| == 1
    ensures (forall l: Lookup, x: nat :: Finds(l, r[0], x) == ListSays(l, [word, mark, t], x)) <==> NoNot(t)
  {
    hide *;
    var list := [word, mark, t];
    ThreeOrs(word, mark, t);
    r := Rewrite(list, lookup);
    ghost var tree := Group(ButNot, [t, word]);
    assert list[2] == t && list[0] == word;
    OperandExactly(word, mark, t);
    SameFinds(r[0], tree, [word, mark, t]);
  }

  lemma SameFinds(r: Token, tree: Token, list: seq<Token>)
    requires forall l: Lookup, x: nat :: Finds(l, r, x) == Finds(l, tree, x)
    ensures (forall l: Lookup, x: nat :: Finds(l, r, x) == ListSays(l, list, x)) <==>
      forall l: Lookup, x: nat :: Finds(l, tree, x) == ListSays(l, list, x)
  {
    hide *;
  }

  lemma ThreeOrs(word: Token, mark: Token, t: Token)
    requires word.Leaf? && NoOr(word) && !IsNot(word) && IsNot(mark) && NoOr(mark) && NoOr(t)
    ensures NoOrs([word, mark, t]) && OneNot([word, mark, t])
  {
  }

  lemma ThreeSay(lookup: Lookup, word: Token, mark: Token, t: Token, x: nat)
    requires word.Leaf? && NoOr(word) && !IsNot(word) && IsNot(mark) && NoOr(mark)
    ensures ListSays(lookup, [word, mark, t], x) <==> lookup(word.word, x) && !Says(lookup, t, x)
  {
    assert [word, mark, t] == [] + [word] + [mark] + [t];
    ReadMore(lookup, [], word, x);
    ReadMore(lookup, [] + [word], mark, x);
    ReadMore(lookup, [] + [word] + [mark], t, x);
  }

  lemma OperandExactly(word: Token, mark: Token, t: Token)
    requires word.Leaf? && NoOr(word) && !IsNot(word) && IsNot(mark) && NoOr(mark) && ItemOk(t, false) && NoOr(t)
    ensures (forall l: Lookup, x: nat :: Finds(l, Group(ButNot, [t, word]), x) == ListSays(l, [word, mark, t], x)) <==> NoNot(t)
  {
    var tree := Group(ButNot, [t, word]);
    forall l: Lookup, x: nat
      ensures ListSays(l, [word, mark, t], x) <==> l(word.word, x) && !Says(l, t, x)
      ensures Finds(l, tree, x) <==> l(word.word, x) && !Finds(l, t, x)
      ensures NoNot(t) ==> Finds(l, t, x) == Says(l, t, x)
    {
      ThreeSay(l, word, mark, t, x);
      if NoNot(t) { NoNotFinds(l, t, x); }
    }
    SaidEverywhere(t, 0);
    FoundEverywhere(t, 0);
    if !NoNot(t) {
      assert Finds(EVERYWHERE, tree, 0) != ListSays(EVERYWHERE, [word, mark, t], 0);
    }
  }

  // With ORs an operand may hold a NOT and mean the same all the same: (a or a not b) is a.
  lemma OrHidesNot(lookup: Lookup, x: nat)
    ensures var t := Group(AnyOf, [Leaf("a"), Group(Paren, [Leaf("a"), Not, Leaf("b")])]);
      !NoNot(t) && Finds(lookup, t, x) == Says(lookup, t, x) == lookup("a", x)
  {
    var a, b := Leaf("a"), Leaf("b");
    var inner := Group(Paren, [a, Not, b]);
    var t := Group(AnyOf, [a, inner]);
    assert t.children[0] == a && t.children[1] == inner && inner.children[0] == a && inner.children[1] == Not;
    assert forall c | c in t.children :: c == a || c == inner;
    assert !NoNot(Not) && !NoNot(inner);
    ThreeSay(lookup, a, Not, b, x);
    assert Says(lookup, inner, x) == (lookup("a", x) && !lookup("b", x));
    assert Finds(lookup, inner, x) ==> Finds(lookup, a, x);
    assert Says(lookup, a, x) == Finds(lookup, a, x) == lookup("a", x);
    assert a in t.children;
  }
}

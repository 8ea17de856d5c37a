// Pieces of sequences at their places.
module Slices {

  // `s` stands in `b` at p.
  ghost predicate At<T>(b: seq<T>, p: nat, s: seq<T>) {
    p + |s| <= |b| && b[p..p + |s|] == s
  }

  lemma AtBoth<T>(b: seq<T>, p: nat, s: seq<T>, t: seq<T>)
    requires At(b, p, s + t)
    ensures At(b, p, s) && At(b, p + |s|, t)
  {
    var st := b[p..p + |s + t|];
    assert st[..|s|] == s && st[|s|..] == t;
    assert b[p..p + |s|] == st[..|s|];
    assert b[p + |s|..p + |s| + |t|] == st[|s|..];
  }

  lemma AtIndex<T>(b: seq<T>, p: nat, s: seq<T>, k: nat)
    requires At(b, p, s) && k < |s|
    ensures p + k < |b| && b[p + k] == s[k]
  {
    assert b[p..p + |s|][k] == b[p + k];
  }

  lemma AtTail<T>(b: seq<T>, p: nat, s: seq<T>, k: nat)
    requires At(b, p, s) && k <= |s|
    ensures At(b, p + k, s[k..])
  {
    assert s == s[..k] + s[k..];
    AtBoth(b, p, s[..k], s[k..]);
  }

  lemma AtBound<T>(b: seq<T>, p: nat, s: seq<T>)
    requires At(b, p, s)
    ensures p + |s| <= |b| && b[p..p + |s|] == s
  {
  }

  lemma Assoc<T>(r: seq<T>, s: seq<T>, t: seq<T>)
    ensures (r + s) + t == r + (s + t)
  {
  }
}

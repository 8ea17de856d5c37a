// What the parser accepts: whatever it reads is a text of the tree that it gives.
module JsonSound {
  import Bytes
  import opened Json
  import opened JsonGrammar
  import opened JsonRoundTrip

  // From p to q stand only space, horizontal tab, line feed and carriage return (RFC 8259 section 2).
  predicate Gap(b: string, p: nat, q: nat) {
    p <= q <= |b| && forall k | p <= k < q :: b[k] == ' ' || b[k] == '\t' || b[k] == '\n' || b[k] == '\r'
  }

  // ---------- texts ----------

  // From p to q stands a text of the value. Its strings and numbers are where the tree says.
  ghost predicate IsText(b: string, p: nat, q: nat, j: Tree)
    requires p < q <= |b|
    decreases j, 4
  {
    var t := b[p..q];
    match j
    case Leaf(Text, s) => q - p >= 2 && s == Span(p + 1, q - p - 2) && b[p] == '"' && b[q - 1] == '"' && WellEscaped(b[p + 1..q - 1])
    case Leaf(Number, s) => s == Span(p, q - p) && Whole(t) && t != "0" && t != "-0"
    case Leaf(Decimal, s) => s == Span(p, q - p) && exists k | 0 <= k < |t| :: PointAt(t, k)
    case Leaf(Binary, s) => s.at == p + 6 && s.len < LENGTH_LIMIT && q == p + 6 + s.len && b[p..p + 6] == "nb" + LengthBytes(s.len)
    case Literal(Null) => t == "null"
    case Literal(True) => t == "true"
    case Literal(False) => t == "false"
    case Literal(Zero) => t == "0" || t == "-0"
    case Array(items) => b[p] == '[' && ItemsFrom(b, p + 1, q, items)
    case Object(members) => b[p] == '{' && MembersFrom(b, p + 1, q, members)
  }

  // Inside an array: a gap, and the closing bracket or a value.
  ghost predicate ItemsFrom(b: string, p: nat, q: nat, items: seq<Tree>)
    requires p <= q <= |b|
    decreases items, 2
  {
    exists s: nat :: Gap(b, p, s) && s < q && ItemsAt(b, s, q, items)
  }

  ghost predicate ItemsAt(b: string, s: nat, q: nat, items: seq<Tree>)
    requires s < q <= |b|
    decreases items, 1
  {
    if items == [] then s + 1 == q && b[s] == ']' else exists e: nat :: ItemAt(b, s, e, q, items)
  }

  // An item from s to e, and what follows it: a gap, and the closing bracket or a comma, which may be the last.
  ghost predicate ItemAt(b: string, s: nat, e: nat, q: nat, items: seq<Tree>)
    requires s < q <= |b| && items != []
    decreases items, 0
  {
    s < e < q && IsText(b, s, e, items[0]) && AfterItem(b, e, q, items[1..])
  }

  ghost predicate AfterItem(b: string, e: nat, q: nat, rest: seq<Tree>)
    requires e <= q <= |b|
    decreases rest, 3
  {
    exists m: nat :: Gap(b, e, m) && m < q &&
      if b[m] == ',' then ItemsFrom(b, m + 1, q, rest) else b[m] == ']' && m + 1 == q && rest == []
  }

  // Inside an object: a gap, and the closing bracket or a member.
  ghost predicate MembersFrom(b: string, p: nat, q: nat, members: seq<Member<Span>>)
    requires p <= q <= |b|
    decreases members, 2
  {
    exists s: nat :: Gap(b, p, s) && s < q && MembersAt(b, s, q, members)
  }

  ghost predicate MembersAt(b: string, s: nat, q: nat, members: seq<Member<Span>>)
    requires s < q <= |b|
    decreases members, 1
  {
    if members == [] then s + 1 == q && b[s] == '}' else exists v: nat, e: nat :: MemberAt(b, s, v, e, q, members)
  }

  // A key in quotes at s, its value from v to e, and what follows it.
  ghost predicate MemberAt(b: string, s: nat, v: nat, e: nat, q: nat, members: seq<Member<Span>>)
    requires s < q <= |b| && members != []
    decreases members, 0
  {
    && s < v < e < q && KeyAt(b, s, v, members[0].key) && ValueText(b, v, e, members[0])
    && AfterMemberText(b, e, q, members[1..])
  }

  ghost predicate AfterMemberText(b: string, e: nat, q: nat, rest: seq<Member<Span>>)
    requires e <= q <= |b|
    decreases rest, 3
  {
    exists m: nat :: Gap(b, e, m) && m < q &&
      if b[m] == ',' then MembersFrom(b, m + 1, q, rest) else b[m] == '}' && m + 1 == q && rest == []
  }

  ghost predicate ValueText(b: string, v: nat, e: nat, m: Member<Span>)
    requires v < e <= |b|
    decreases m, 5
  {
    IsText(b, v, e, m.value)
  }

  // A key in quotes, whatever else up to the first colon, and a gap.
  ghost predicate KeyAt(b: string, s: nat, v: nat, key: Span) {
    && key.at == s + 1 && key.at + key.len < v <= |b|
    && b[s] == '"' && WellEscaped(b[key.at..key.at + key.len]) && b[key.at + key.len] == '"'
    && exists c: nat :: key.at + key.len < c < v && b[c] == ':' && ':' !in b[key.at + key.len..c] && Gap(b, c + 1, v)
  }

  // ---------- scalars ----------

  ghost predicate Sound(b: string, p: nat, r: Parsed) {
    r.Good? ==> p < r.p <= |b| && IsText(b, p, r.p, r.v)
  }

  lemma TextSound(b: string, p: nat)
    requires Terminated(b) && p < |b| - 1 && b[p] == '"' && TextEnd(b, p + 1) < |b| - 1
    ensures var q := TextEnd(b, p + 1); WellEscaped(b[p + 1..q]) && b[q] == '"'
  {
    var q := TextEnd(b, p + 1);
    var s := b[p + 1..q];
    assert b[p + 1..p + 1 + |s + "\""|] == s + "\"";
    assert Slashes(b, p + 1) == 0;
    TextEndsWhere(b, p + 1, s);
  }

  lemma NumberSound(b: string, s: nat, p: nat)
    requires Terminated(b) && s < p < |b| && (p == s + 1 || (p == s + 2 && b[s] == '-')) && '1' <= b[p - 1] <= '9'
    ensures Sound(b, s, NumberFrom(b, s, p))
  {
    var q := DigitsEnd(b, p);
    WholeSound(b, s, p, q);
    if b[q] == '.' { DecimalSound(b, s, q); }
  }

  lemma WholeSound(b: string, s: nat, p: nat, q: nat)
    requires s < p <= q <= |b| && (p == s + 1 || (p == s + 2 && b[s] == '-')) && Digit(b[p - 1])
    requires (forall k | p <= k < q :: Digit(b[k])) && (b[p - 1] == '0' ==> q == p)
    ensures Whole(b[s..q]) && (b[p - 1] != '0' ==> b[s..q] != "0" && b[s..q] != "-0")
  {
    var t := b[s..q];
    if p == s + 2 { assert t[1..] == b[s + 1..q]; }
    assert t[p - 1 - s] == b[p - 1];
  }

  // The point stands at k.
  lemma DecimalSound(b: string, s: nat, k: nat)
    requires Terminated(b) && s < k < |b| - 1 && b[k] == '.' && Whole(b[s..k])
    ensures Sound(b, s, DecimalFrom(b, s, k + 1))
  {
    var r := DecimalFrom(b, s, k + 1);
    if r.Good? {
      var t := b[s..r.p];
      assert t[..k - s] == b[s..k] && t[k - s] == '.' && t[k - s + 1..] == b[k + 1..r.p];
      assert PointAt(t, k - s);
    }
  }

  lemma ZeroSound(b: string, s: nat, p: nat)
    requires Terminated(b) && s < p < |b| && (p == s + 1 || (p == s + 2 && b[s] == '-')) && b[p - 1] == '0'
    ensures Sound(b, s, ZeroFrom(b, s, p))
  {
    WholeSound(b, s, p, p);
    assert b[s..p] == if p == s + 1 then "0" else "-0";
    if p + 1 < |b| - 1 && b[p] == '.' { DecimalSound(b, s, p); }
  }

  lemma WordSound(b: string, p: nat, w: string, lit: Lit)
    requires Terminated(b) && p < |b| - 1 && '\0' !in w && WordFrom(b, p + 1, w, lit).Good?
    ensures var r := WordFrom(b, p + 1, w, lit); b[p..r.p] == [b[p]] + w && r.v == Literal(lit) && p < r.p <= |b|
  {
    var r := WordFrom(b, p + 1, w, lit);
    assert b[p..r.p] == [b[p]] + b[p + 1..r.p];
  }

  lemma BinarySound(b: string, p: nat)
    requires Terminated(b) && p + 1 < |b| - 1 && b[p] == 'n' && b[p + 1] == 'b' && forall k | 0 <= k < |b| :: b[k] < 256 as char
    ensures Sound(b, p, BinaryFrom(b, p + 2))
  {
    var r := BinaryFrom(b, p + 2);
    if r.Good? {
      var n := LengthAt(b, p + 2);
      LengthBack(b, p + 2, n);
      assert b[p..p + 6] == ['n', 'b'] + b[p + 2..p + 6];
    }
  }

  lemma LengthBack(b: string, p: nat, n: nat)
    requires p + 4 <= |b| && n == LengthAt(b, p) && forall k | p <= k < p + 4 :: b[k] < 256 as char
    ensures n < LENGTH_LIMIT && b[p..p + 4] == LengthBytes(n)
  {
    Bytes.FourBytes(b[p] as int, b[p + 1] as int, b[p + 2] as int, b[p + 3] as int);
    assert b[p..p + 4] == [b[p], b[p + 1], b[p + 2], b[p + 3]];
  }

  // ---------- values ----------

  // One character is one byte.
  predicate OneByte(b: string) {
    forall k | 0 <= k < |b| :: b[k] < 256 as char
  }

  lemma ScalarSound(b: string, p: nat, keyed: bool)
    requires Terminated(b) && p < |b| - 1 && OneByte(b)
    ensures Sound(b, p, Scalar(b, p, keyed))
  {
    hide ZeroFrom, NumberFrom, BinaryFrom, WordFrom, TextEnd;
    var c := b[p];
    if c == '"' {
      if TextEnd(b, p + 1) < |b| - 1 { TextSound(b, p); }
    } else if c == '-' {
      if b[p + 1] == '0' { ZeroSound(b, p, p + 2); } else if Digit(b[p + 1]) { NumberSound(b, p, p + 2); }
    } else if c == '0' {
      ZeroSound(b, p, p + 1);
    } else if Digit(c) {
      NumberSound(b, p, p + 1);
    } else if c == 't' {
      if WordFrom(b, p + 1, "rue", True).Good? { WordSound(b, p, "rue", True); }
    } else if c == 'f' {
      if WordFrom(b, p + 1, "alse", False).Good? { WordSound(b, p, "alse", False); }
    } else if c == 'n' {
      if b[p + 1] == 'b' {
        if p + 1 < |b| - 1 { BinarySound(b, p); }
      } else if WordFrom(b, p + 1, "ull", Null).Good? {
        WordSound(b, p, "ull", Null);
      }
    }
  }

  lemma {:induction false} ValueSound(b: string, p: nat, keyed: bool)
    requires Terminated(b) && p < |b| - 1 && OneByte(b)
    ensures Sound(b, p, ValueAt(b, p, keyed))
    decreases |b| - p, 0
  {
    hide Scalar;
    if b[p] == '{' {
      MembersSound(b, p + 1, []);
    } else if b[p] == '[' {
      ElementsSound(b, p + 1, []);
    } else {
      ScalarSound(b, p, keyed);
    }
  }

  // An array that is read on from p, with items already.
  ghost predicate ArraySound(b: string, p: nat, acc: seq<Tree>, r: Parsed, inside: bool) {
    r.Good? ==>
      && p < r.p <= |b| && r.v.Array? && acc <= r.v.items
      && if inside then ItemsFrom(b, p, r.p, r.v.items[|acc|..]) else AfterItem(b, p, r.p, r.v.items[|acc|..])
  }

  lemma LongerGap(b: string, p: nat, q: nat)
    requires Gap(b, p + 1, q) && p < |b| && Space(b[p])
    ensures Gap(b, p, q)
  {
  }

  lemma {:induction false} ElementsSound(b: string, p: nat, acc: seq<Tree>)
    requires Terminated(b) && p < |b| && OneByte(b)
    ensures ArraySound(b, p, acc, Elements(b, p, acc), true)
    decreases |b| - p, 1
  {
    hide ValueAt, AfterElement, IsText;
    var r := Elements(b, p, acc);
    if p == |b| - 1 {
    } else if Space(b[p]) {
      ElementsSound(b, p + 1, acc);
      if r.Good? { ItemsLater(b, p, r.p, r.v.items[|acc|..]); }
    } else if b[p] == ']' {
      assert acc[|acc|..] == [] && Gap(b, p, p) && ItemsAt(b, p, p + 1, []);
    } else {
      ValueSound(b, p, false);
      var x := ValueAt(b, p, false);
      if x.Good? {
        AfterElementSound(b, x.p, acc + [x.v]);
        if r.Good? { ItemFirst(b, p, x.p, r.p, x.v, r.v.items[|acc|..], r.v.items[|acc| + 1..]); }
      }
    }
  }

  lemma ItemsLater(b: string, p: nat, q: nat, items: seq<Tree>)
    requires p + 1 < q <= |b| && Space(b[p]) && ItemsFrom(b, p + 1, q, items)
    ensures ItemsFrom(b, p, q, items)
  {
    hide ItemsAt;
    var s: nat :| Gap(b, p + 1, s) && s < q && ItemsAt(b, s, q, items);
    LongerGap(b, p, s);
  }

  lemma ItemFirst(b: string, p: nat, e: nat, q: nat, v: Tree, items: seq<Tree>, rest: seq<Tree>)
    requires p < e < q <= |b| && IsText(b, p, e, v) && AfterItem(b, e, q, rest) && items == [v] + rest
    ensures ItemsFrom(b, p, q, items)
  {
    hide IsText, AfterItem;
    assert Gap(b, p, p) && items[0] == v && items[1..] == rest;
    assert ItemAt(b, p, e, q, items);
    assert ItemsAt(b, p, q, items);
  }

  lemma {:induction false} AfterElementSound(b: string, p: nat, acc: seq<Tree>)
    requires Terminated(b) && p < |b| && OneByte(b)
    ensures ArraySound(b, p, acc, AfterElement(b, p, acc), false)
    decreases |b| - p, 1
  {
    hide Elements, ItemsFrom;
    var r := AfterElement(b, p, acc);
    if b[p] == ',' {
      ElementsSound(b, p + 1, acc);
      assert Gap(b, p, p);
    } else if b[p] == ']' {
      assert Gap(b, p, p);
    } else if Space(b[p]) {
      AfterElementSound(b, p + 1, acc);
      if r.Good? { AfterItemLater(b, p, r.p, r.v.items[|acc|..]); }
    }
  }

  lemma AfterItemLater(b: string, p: nat, q: nat, rest: seq<Tree>)
    requires p + 1 < q <= |b| && Space(b[p]) && AfterItem(b, p + 1, q, rest)
    ensures AfterItem(b, p, q, rest)
  {
    hide ItemsFrom;
    var m: nat :| Gap(b, p + 1, m) && m < q && if b[m] == ',' then ItemsFrom(b, m + 1, q, rest) else b[m] == ']' && m + 1 == q && rest == [];
    LongerGap(b, p, m);
  }

  ghost predicate ObjectSound(b: string, p: nat, acc: seq<Member<Span>>, r: Parsed, inside: bool) {
    r.Good? ==>
      && p < r.p <= |b| && r.v.Object? && acc <= r.v.members
      && if inside then MembersFrom(b, p, r.p, r.v.members[|acc|..]) else AfterMemberText(b, p, r.p, r.v.members[|acc|..])
  }

  lemma {:induction false} MembersSound(b: string, p: nat, acc: seq<Member<Span>>)
    requires Terminated(b) && p < |b| && OneByte(b)
    ensures ObjectSound(b, p, acc, Members(b, p, acc), true)
    decreases |b| - p, 1
  {
    hide MemberValue, IsText, ColonFrom, TextEnd;
    var r := Members(b, p, acc);
    if p == |b| - 1 {
    } else if b[p] == '"' {
      var q := TextEnd(b, p + 1);
      var key := Span(p + 1, q - (p + 1));
      var c := ColonFrom(b, q + 1);
      MemberValueSound(b, c + 1, acc, key);
      if r.Good? {
        var v, e, rest := TakenMember(b, c + 1, r.p, acc, key, r.v.members);
        ColonIs(b, q + 1);
        TextSound(b, p);
        KeyIs(b, p, q, c, v, key);
        MemberFirst(b, p, v, e, r.p, r.v.members[|acc|..], rest);
      }
    } else if Space(b[p]) {
      MembersSound(b, p + 1, acc);
      if r.Good? { MembersLater(b, p, r.p, r.v.members[|acc|..]); }
    } else if b[p] == '}' {
      assert acc[|acc|..] == [] && Gap(b, p, p) && MembersAt(b, p, p + 1, []);
    }
  }

  // A member whose value is to come: a gap, the value, and what follows.
  ghost predicate MemberSound(b: string, p: nat, v: nat, e: nat, q: nat, acc: seq<Member<Span>>, key: Span, members: seq<Member<Span>>) {
    && p <= v < e < q <= |b| && Gap(b, p, v) && |acc| < |members| && acc == members[..|acc|] && members[|acc|].key == key
    && IsText(b, v, e, members[|acc|].value) && AfterMemberText(b, e, q, members[|acc| + 1..])
  }

  ghost predicate ValuesSound(b: string, p: nat, acc: seq<Member<Span>>, key: Span, r: Parsed) {
    r.Good? ==> r.v.Object? && exists v: nat, e: nat :: MemberSound(b, p, v, e, r.p, acc, key, r.v.members)
  }

  lemma TakenMember(b: string, p: nat, q: nat, acc: seq<Member<Span>>, key: Span, members: seq<Member<Span>>)
    returns (v: nat, e: nat, rest: seq<Member<Span>>)
    requires exists v: nat, e: nat :: MemberSound(b, p, v, e, q, acc, key, members)
    ensures MemberSound(b, p, v, e, q, acc, key, members) && rest == members[|acc| + 1..]
  {
    v, e :| MemberSound(b, p, v, e, q, acc, key, members);
    rest := members[|acc| + 1..];
  }

  lemma {:induction false} MemberValueSound(b: string, p: nat, acc: seq<Member<Span>>, key: Span)
    requires Terminated(b) && OneByte(b)
    ensures ValuesSound(b, p, acc, key, MemberValue(b, p, acc, key))
    decreases if p < |b| then |b| - p else 0, 1
  {
    hide ValueAt, AfterMember, IsText, AfterMemberText;
    var r := MemberValue(b, p, acc, key);
    if p >= |b| - 1 {
    } else if Space(b[p]) {
      MemberValueSound(b, p + 1, acc, key);
      if r.Good? {
        var v, e, rest := TakenMember(b, p + 1, r.p, acc, key, r.v.members);
        LongerGap(b, p, v);
        assert MemberSound(b, p, v, e, r.p, acc, key, r.v.members);
      }
    } else {
      ValueSound(b, p, true);
      var x := ValueAt(b, p, true);
      if x.Good? {
        AfterMemberSound(b, x.p, acc + [Member(key, x.v)]);
        if r.Good? {
          assert Gap(b, p, p) && (acc + [Member(key, x.v)])[|acc|] == Member(key, x.v);
          assert MemberSound(b, p, p, x.p, r.p, acc, key, r.v.members);
        }
      }
    }
  }

  lemma {:induction false} AfterMemberSound(b: string, p: nat, acc: seq<Member<Span>>)
    requires Terminated(b) && p < |b| && OneByte(b)
    ensures ObjectSound(b, p, acc, AfterMember(b, p, acc), false)
    decreases |b| - p, 1
  {
    hide Members, MembersFrom;
    var r := AfterMember(b, p, acc);
    if b[p] == ',' {
      MembersSound(b, p + 1, acc);
      assert Gap(b, p, p);
    } else if b[p] == '}' {
      assert Gap(b, p, p);
    } else if Space(b[p]) {
      AfterMemberSound(b, p + 1, acc);
      if r.Good? { AfterMemberLater(b, p, r.p, r.v.members[|acc|..]); }
    }
  }

  lemma AfterMemberLater(b: string, p: nat, q: nat, rest: seq<Member<Span>>)
    requires p + 1 < q <= |b| && Space(b[p]) && AfterMemberText(b, p + 1, q, rest)
    ensures AfterMemberText(b, p, q, rest)
  {
    hide MembersFrom;
    var m: nat :| Gap(b, p + 1, m) && m < q && if b[m] == ',' then MembersFrom(b, m + 1, q, rest) else b[m] == '}' && m + 1 == q && rest == [];
    LongerGap(b, p, m);
  }

  lemma MembersLater(b: string, p: nat, q: nat, members: seq<Member<Span>>)
    requires p + 1 < q <= |b| && Space(b[p]) && MembersFrom(b, p + 1, q, members)
    ensures MembersFrom(b, p, q, members)
  {
    hide MembersAt;
    var s: nat :| Gap(b, p + 1, s) && s < q && MembersAt(b, s, q, members);
    LongerGap(b, p, s);
  }

  lemma {:induction false} ColonIs(b: string, p: nat)
    requires Terminated(b) && ColonFrom(b, p) + 1 < |b|
    ensures p <= ColonFrom(b, p) && b[ColonFrom(b, p)] == ':' && ':' !in b[p..ColonFrom(b, p)]
    decreases |b| - p
  {
    var c := ColonFrom(b, p);
    if c > p {
      ColonIs(b, p + 1);
      assert b[p..c] == [b[p]] + b[p + 1..c];
    }
  }

  lemma KeyIs(b: string, p: nat, q: nat, c: nat, v: nat, key: Span)
    requires p < q < c < v <= |b| && b[p] == '"' && b[q] == '"' && key == Span(p + 1, q - (p + 1)) && WellEscaped(b[p + 1..q])
    requires b[c] == ':' && ':' !in b[q + 1..c] && Gap(b, c + 1, v)
    ensures KeyAt(b, p, v, key)
  {
    assert b[q..c] == [b[q]] + b[q + 1..c];
  }

  lemma MemberFirst(b: string, p: nat, v: nat, e: nat, q: nat, members: seq<Member<Span>>, rest: seq<Member<Span>>)
    requires p < v < e < q <= |b| && members != [] && KeyAt(b, p, v, members[0].key) && IsText(b, v, e, members[0].value)
    requires AfterMemberText(b, e, q, rest) && rest == members[1..]
    ensures MembersFrom(b, p, q, members)
  {
    hide IsText, AfterMemberText, KeyAt;
    assert ValueText(b, v, e, members[0]);
    assert MemberAt(b, p, v, e, q, members);
    assert Gap(b, p, p) && MembersAt(b, p, q, members);
  }

  // ---------- documents ----------

  // A text that is accepted has, after a gap, a text of its tree. What follows is not looked at.
  lemma {:induction false} TopSound(b: string, p: nat)
    requires Terminated(b) && p < |b| && OneByte(b) && Top(b, p).Good?
    ensures exists s: nat :: Gap(b, p, s) && s < Top(b, p).p <= |b| && IsText(b, s, Top(b, p).p, Top(b, p).v)
    decreases |b| - p
  {
    hide ValueAt, IsText;
    if Space(b[p]) {
      TopSound(b, p + 1);
      var s: nat :| Gap(b, p + 1, s) && s < Top(b, p + 1).p <= |b| && IsText(b, s, Top(b, p + 1).p, Top(b, p + 1).v);
      LongerGap(b, p, s);
    } else {
      ValueSound(b, p, false);
      assert Gap(b, p, p);
    }
  }

  lemma DocumentSound(b: string)
    requires Terminated(b) && OneByte(b) && Document(b).Good?
    ensures exists s: nat :: Gap(b, 0, s) && s < Document(b).p <= |b| && IsText(b, s, Document(b).p, Document(b).v)
  {
    hide IsText, Top;
    TopSound(b, 0);
  }

  // ---------- texts that the printer never writes ----------

  lemma NullIsRead()
    ensures Document("[null]\0") == Good(Array([Literal(Null)]), 6)
  {
    var b := "[null]\0";
    var items: seq<Tree> := [Literal(Null)];
    assert ValueAt(b, 1, false) == Good(items[0], 5);
    assert [] + items == items;
    assert AfterElement(b, 5, items) == Good(Array(items), 6);
  }

  lemma MinusZeroIsRead()
    ensures Document("-0\0") == Good(Literal(Zero), 2) && Document("-0.5\0") == Good(Leaf(Decimal, Span(0, 4)), 4)
  {
    assert Scalar("-0\0", 0, false) == Good(Literal(Zero), 2);
    var b := "-0.5\0";
    assert DigitsEnd(b, 4) == 4;
    assert DecimalFrom(b, 0, 3) == Good(Leaf(Decimal, Span(0, 4)), 4);
    assert Scalar(b, 0, false) == Good(Leaf(Decimal, Span(0, 4)), 4);
  }

  // A comma may be left over, and what follows the value is not looked at.
  lemma LastCommaIsRead()
    ensures Document("[1,]x\0") == Good(Array([Leaf(Number, Span(1, 1))]), 4)
  {
    var b := "[1,]x\0";
    var items: seq<Tree> := [Leaf(Number, Span(1, 1))];
    assert DigitsEnd(b, 2) == 2;
    assert ValueAt(b, 1, false) == Good(items[0], 2);
    assert [] + items == items;
    assert Elements(b, 3, items) == Good(Array(items), 4);
  }

  // Something may stand between a key and its colon.
  lemma KeyAndMoreIsRead()
    ensures Document("{\"a\"x:1,}\0") == Good(Object([Member(Span(2, 1), Leaf(Number, Span(6, 1)))]), 9)
  {
    var b := "{\"a\"x:1,}\0";
    var members: seq<Member<Span>> := [Member(Span(2, 1), Leaf(Number, Span(6, 1)))];
    assert TextEnd(b, 2) == 3 && ColonFrom(b, 4) == 5;
    assert DigitsEnd(b, 7) == 7;
    assert ValueAt(b, 6, true) == Good(members[0].value, 7);
    assert [] + members == members;
    assert Members(b, 8, members) == Good(Object(members), 9);
  }

  // ---------- where a text is given up ----------

  // Behind the character that cannot stand there.
  lemma RefusedBehind()
    ensures Document("x\0") == Bad(1) && Document("-x\0") == Bad(2) && Document("1.x\0") == Bad(3) && Document("trux\0") == Bad(4)
    ensures Document("[tru]\0") == Bad(5) && Document("{x}\0") == Bad(2)
  {
  }

  // At the character, behind a value.
  lemma RefusedAt()
    ensures Document("[1 2]\0") == Bad(3)
  {
    var b := "[1 2]\0";
    var one: Tree := Leaf(Number, Span(1, 1));
    assert DigitsEnd(b, 2) == 2;
    assert ValueAt(b, 1, false) == Good(one, 2);
    assert AfterElement(b, 2, [one]) == Bad(3);
  }

  lemma RefusedUnclosed()
    ensures Document("[1\0") == Bad(2)
  {
    var b := "[1\0";
    var one: Tree := Leaf(Number, Span(1, 1));
    assert DigitsEnd(b, 2) == 2;
    assert ValueAt(b, 1, false) == Good(one, 2);
    assert AfterElement(b, 2, [one]) == Bad(2);
  }

  lemma RefusedInObject()
    ensures Document("{\"a\":1 2}\0") == Bad(7)
  {
  }

  // At the end of the text, where something is missing; an empty text and one without a colon one place later.
  lemma RefusedAtEnd()
    ensures Document("\0") == Bad(1) && Document(" \0") == Bad(1) && Document("[\0") == Bad(1) && Document("{\0") == Bad(1)
    ensures Document("\"ab\0") == Bad(3) && Document("nb\0") == Bad(2)
  {
  }

  lemma RefusedWithoutColon()
    ensures Document("{\"a\" 1}\0") == Bad(8)
  {
  }

  // A word inside an object that would end the text is given up behind its first letter.
  lemma RefusedWord()
    ensures Document("{\"a\":true\0") == Bad(6)
  {
  }

  lemma RefusedLongWord()
    ensures Document("{\"a\":false\0") == Bad(6)
  {
  }
}

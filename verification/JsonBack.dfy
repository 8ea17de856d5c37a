// Where printing and parsing again is the identity, and where it is not.
module JsonBack {
  import opened Json
  import opened JsonGrammar
  import opened JsonParse
  import opened JsonRoundTrip
  import opened JsonSpaced
  import opened Slices

  // ---------- how much text a tree needs ----------

  // The least number of characters from which the parser builds the tree.
  function Weight(j: Json<string>): nat {
    match j
    case Leaf(Text, s) => |s| + 2
    case Leaf(Binary, s) => |s| + 6
    case Leaf(_, s) => |s|
    case Literal(lit) => if lit == Null then 4 else |Word(lit)|
    case Object(members) => if members == [] then 2 else 1 + MembersWeight(members)
    case Array(items) => if items == [] then 2 else 1 + ItemsWeight(items)
  }

  function ItemsWeight(items: seq<Json<string>>): nat {
    if items == [] then 0 else Weight(items[0]) + 1 + ItemsWeight(items[1..])
  }

  function MemberWeight(m: Member<string>): nat {
    |m.key| + 4 + Weight(m.value)
  }

  function MembersWeight(members: seq<Member<string>>): nat {
    if members == [] then 0 else MemberWeight(members[0]) + MembersWeight(members[1..])
  }

  lemma {:induction false} ItemsWeightMore(items: seq<Json<string>>, j: Json<string>)
    ensures ItemsWeight(items + [j]) == ItemsWeight(items) + Weight(j) + 1
  {
    if items != [] {
      assert (items + [j])[1..] == items[1..] + [j];
      ItemsWeightMore(items[1..], j);
    }
  }

  lemma {:induction false} MembersWeightMore(members: seq<Member<string>>, m: Member<string>)
    ensures MembersWeight(members + [m]) == MembersWeight(members) + MemberWeight(m)
  {
    if members != [] {
      assert (members + [m])[1..] == members[1..] + [m];
      MembersWeightMore(members[1..], m);
    }
  }

  // ---------- printing ----------

  // A printed tree is never longer than its weight, and shorter if it holds a null.
  lemma {:induction false} PrintWeight(j: Json<string>)
    requires Printable(j)
    ensures |Print(j)| <= Weight(j) && (!NoNull(j) ==> |Print(j)| < Weight(j))
    decreases j, 1
  {
    match j
    case Object(members) => PrintMembersWeight(members);
    case Array(items) => PrintItemsWeight(items);
    case Leaf(_, _) =>
    case Literal(_) =>
  }

  lemma {:induction false} PrintItemsWeight(items: seq<Json<string>>)
    requires forall i | i in items :: Printable(i)
    ensures items == [] ==> PrintItems(items) == ""
    ensures items != [] ==> |PrintItems(items)| + 1 <= ItemsWeight(items)
    ensures (exists i | i in items :: !NoNull(i)) ==> |PrintItems(items)| + 1 < ItemsWeight(items)
    decreases items, 0
  {
    if items != [] {
      PrintWeight(items[0]);
      assert forall i | i in items[1..] :: i in items;
      PrintItemsWeight(items[1..]);
      assert forall i | i in items :: i == items[0] || i in items[1..];
    }
  }

  lemma {:induction false} PrintMembersWeight(members: seq<Member<string>>)
    requires forall m | m in members :: PrintableMember(m)
    ensures members == [] ==> PrintMembers(members) == ""
    ensures members != [] ==> |PrintMembers(members)| + 1 <= MembersWeight(members)
    ensures (exists m | m in members :: !NoNull(m.value)) ==> |PrintMembers(members)| + 1 < MembersWeight(members)
    decreases members, 0
  {
    if members != [] {
      PrintMemberWeight(members[0]);
      assert forall m | m in members[1..] :: m in members;
      PrintMembersWeight(members[1..]);
      assert forall m | m in members :: m == members[0] || m in members[1..];
    }
  }

  lemma {:induction false} PrintMemberWeight(m: Member<string>)
    requires PrintableMember(m)
    ensures |PrintMember(m)| + 1 <= MemberWeight(m) && (!NoNull(m.value) ==> |PrintMember(m)| + 1 < MemberWeight(m))
    decreases m, 2
  {
    PrintWeight(m.value);
  }

  // ---------- parsing ----------

  // Whatever is read from p on weighs no more than the text it was read from.
  ghost predicate Weighs(b: string, p: nat, r: Parsed) {
    r.Good? ==> r.p >= p && Weight(Read(b, r.v)) <= r.p - p
  }

  lemma ScalarWeighs(b: string, p: nat, keyed: bool)
    requires Terminated(b) && p < |b| - 1
    ensures Weighs(b, p, Scalar(b, p, keyed))
  {
  }

  lemma {:induction false} ValueWeighs(b: string, p: nat, keyed: bool)
    requires Terminated(b) && p < |b| - 1
    ensures Weighs(b, p, ValueAt(b, p, keyed))
    decreases |b| - p, 0
  {
    if b[p] == '{' {
      MembersWeigh(b, p + 1, []);
    } else if b[p] == '[' {
      ElementsWeigh(b, p + 1, []);
    } else {
      ScalarWeighs(b, p, keyed);
    }
  }

  // An array that is read on from p: its items weigh no more than those read before and the text from p on.
  ghost predicate ArrayWeighs(b: string, p: nat, acc: seq<Tree>, spare: nat, r: Parsed) {
    r.Good? ==> p < r.p && r.v.Array? && ItemsWeight(ReadItems(b, r.v.items)) + spare <= ItemsWeight(ReadItems(b, acc)) + (r.p - p)
  }

  lemma {:induction false} ElementsWeigh(b: string, p: nat, acc: seq<Tree>)
    requires Terminated(b) && p < |b|
    ensures ArrayWeighs(b, p, acc, 0, Elements(b, p, acc))
    decreases |b| - p, 1
  {
    hide ValueAt, AfterElement, Read, ReadItems;
    if p == |b| - 1 || b[p] == ']' {
    } else if Space(b[p]) {
      ElementsWeigh(b, p + 1, acc);
    } else {
      ValueWeighs(b, p, false);
      var r := ValueAt(b, p, false);
      if r.Good? {
        AfterElementWeighs(b, r.p, acc + [r.v]);
        ReadItemsMore(b, acc, r.v);
        ItemsWeightMore(ReadItems(b, acc), Read(b, r.v));
      }
    }
  }

  lemma {:induction false} AfterElementWeighs(b: string, p: nat, acc: seq<Tree>)
    requires Terminated(b) && p < |b|
    ensures ArrayWeighs(b, p, acc, 1, AfterElement(b, p, acc))
    decreases |b| - p, 1
  {
    hide Elements, ReadItems;
    if b[p] == ',' {
      ElementsWeigh(b, p + 1, acc);
    } else if Space(b[p]) {
      AfterElementWeighs(b, p + 1, acc);
    }
  }

  ghost predicate ObjectWeighs(b: string, p: nat, acc: seq<Member<Span>>, spare: nat, r: Parsed) {
    r.Good? ==>
      p < r.p && r.v.Object? &&
      MembersWeight(ReadMembers(b, r.v.members)) + spare <= MembersWeight(ReadMembers(b, acc)) + (r.p - p)
  }

  lemma {:induction false} MembersWeigh(b: string, p: nat, acc: seq<Member<Span>>)
    requires Terminated(b) && p < |b|
    ensures ObjectWeighs(b, p, acc, 0, Members(b, p, acc))
    decreases |b| - p, 1
  {
    hide MemberValue, ReadMembers;
    if p == |b| - 1 || b[p] == '}' {
    } else if b[p] == '"' {
      var q := TextEnd(b, p + 1);
      var key := Span(p + 1, q - (p + 1));
      MemberValueWeighs(b, ColonFrom(b, q + 1) + 1, acc, key);
    } else if Space(b[p]) {
      MembersWeigh(b, p + 1, acc);
    }
  }

  // The key and its quotes and colon have been read already.
  lemma {:induction false} MemberValueWeighs(b: string, p: nat, acc: seq<Member<Span>>, key: Span)
    requires Terminated(b)
    ensures var r := MemberValue(b, p, acc, key);
      r.Good? ==>
        p < r.p && r.v.Object? &&
        MembersWeight(ReadMembers(b, r.v.members)) <= MembersWeight(ReadMembers(b, acc)) + key.len + 3 + (r.p - p)
    decreases if p < |b| then |b| - p else 0, 1
  {
    hide ValueAt, AfterMember, Read, ReadMembers;
    if p >= |b| - 1 {
    } else if Space(b[p]) {
      MemberValueWeighs(b, p + 1, acc, key);
    } else {
      ValueWeighs(b, p, true);
      var r := ValueAt(b, p, true);
      if r.Good? {
        var m := Member(key, r.v);
        AfterMemberWeighs(b, r.p, acc + [m]);
        ReadMembersMore(b, acc, m);
        MembersWeightMore(ReadMembers(b, acc), ReadMember(b, m));
      }
    }
  }

  lemma {:induction false} AfterMemberWeighs(b: string, p: nat, acc: seq<Member<Span>>)
    requires Terminated(b) && p < |b|
    ensures ObjectWeighs(b, p, acc, 1, AfterMember(b, p, acc))
    decreases |b| - p, 1
  {
    hide Members, ReadMembers;
    if b[p] == ',' {
      MembersWeigh(b, p + 1, acc);
    } else if Space(b[p]) {
      AfterMemberWeighs(b, p + 1, acc);
    }
  }

  lemma {:induction false} TopWeighs(b: string, p: nat)
    requires Terminated(b) && p < |b|
    ensures Weighs(b, p, Top(b, p)) && (Top(b, p).Good? ==> Top(b, p).p < |b|)
    decreases |b| - p
  {
    if p < |b| - 1 {
      if Space(b[p]) {
        TopWeighs(b, p + 1);
      } else if b[p] != ']' {
        ValueWeighs(b, p, false);
      }
    }
  }

  // ---------- there and back ----------

  ghost predicate ComesBack(j: Json<string>)
    requires Printable(j)
  {
    var b := Print(j) + ['\0'];
    var r := Document(b);
    r.Good? && Read(b, r.v) == j
  }

  lemma NullIsLost(j: Json<string>)
    requires Printable(j) && ComesBack(j)
    ensures NoNull(j)
  {
    var b := Print(j) + ['\0'];
    PrintWeight(j);
    TopWeighs(b, 0);
  }

  // A bare binary value is refused, since nothing follows it.
  lemma BareIsRefused(j: Json<string>)
    requires Printable(j) && Bare(j)
    ensures Document(Print(j) + ['\0']) == Bad(6)
  {
    var b := Print(j) + ['\0'];
    assert b[..|Print(j)|] == Print(j);
    AtIndex(b, 0, Print(j), 0);
    BinaryPrinted(b, 0, j.s, false);
  }

  // The tree comes back exactly when it holds no null and is no bare binary value.
  lemma ThereAndBack(j: Json<string>)
    requires Printable(j)
    ensures ComesBack(j) <==> NoNull(j) && !Bare(j)
  {
    if NoNull(j) && !Bare(j) {
      PrintIsText(j, []);
      assert DocumentText(j, NO_GAPS) == Print(j);
      SpacedReads(j, NO_GAPS);
    } else if NoNull(j) {
      BareIsRefused(j);
    } else if ComesBack(j) {
      NullIsLost(j);
    }
  }

  // ---------- the tree as its user reads it ----------

  // A key is a C string: it ends with its first NUL.
  function CString(b: string, at: nat): string
    decreases |b| - at
  {
    if at >= |b| || b[at] == '\0' then "" else [b[at]] + CString(b, at + 1)
  }

  function ReadBack(b: string, j: Tree): Json<string> {
    match j
    case Leaf(kind, s) => Leaf(kind, Slice(b, s))
    case Literal(lit) => Literal(lit)
    case Object(members) => Object(seq(|members|, i requires 0 <= i < |members| => MemberBack(b, members[i])))
    case Array(items) => Array(seq(|items|, i requires 0 <= i < |items| => ReadBack(b, items[i])))
  }

  function MemberBack(b: string, m: Member<Span>): Member<string> {
    Member(CString(b, m.key.at), ReadBack(b, m.value))
  }

  lemma {:induction false} CStringIs(b: string, s: Span)
    requires s.at + s.len < |b| && b[s.at + s.len] == '\0' && '\0' !in Slice(b, s)
    ensures CString(b, s.at) == Slice(b, s)
    decreases s.len
  {
    if s.len > 0 {
      var rest := Span(s.at + 1, s.len - 1);
      assert Slice(b, s) == [b[s.at]] + Slice(b, rest);
      CStringIs(b, rest);
    }
  }

  predicate KeysClean(j: Json<string>) {
    match j
    case Leaf(_, _) => true
    case Literal(_) => true
    case Object(members) => forall m | m in members :: '\0' !in m.key && KeysClean(m.value)
    case Array(items) => forall i | i in items :: KeysClean(i)
  }

  // In the buffer that the parser has written its NULs into, the tree still reads as the text said.
  lemma {:induction false} StillReads(b: string, cur: string, j: Tree)
    requires |cur| == |b| && Held(b, cur, j, |b|) && KeysClean(Read(b, j))
    ensures ReadBack(cur, j) == Read(b, j)
  {
    match j
    case Leaf(_, s) =>
    case Literal(_) =>
    case Object(members) =>
      forall i | 0 <= i < |members|
        ensures MemberBack(cur, members[i]) == ReadMember(b, members[i])
      {
        var m := members[i];
        assert MemberHeld(b, cur, m, |b|);
        assert ReadMembers(b, members)[i] == ReadMember(b, m);
        assert ReadMember(b, m) in ReadMembers(b, members);
        CStringIs(cur, m.key);
        StillReads(b, cur, m.value);
      }
    case Array(items) =>
      forall i | 0 <= i < |items|
        ensures ReadBack(cur, items[i]) == Read(b, items[i])
      {
        assert ReadItems(b, items)[i] == Read(b, items[i]);
        assert Read(b, items[i]) in ReadItems(b, items);
        StillReads(b, cur, items[i]);
      }
  }

  lemma {:induction false} PrintableKeys(j: Json<string>)
    requires Printable(j)
    ensures KeysClean(j)
  {
    match j
    case Leaf(_, _) =>
    case Literal(_) =>
    case Object(members) =>
      forall m | m in members
        ensures '\0' !in m.key && KeysClean(m.value)
      {
        assert PrintableMember(m);
        PrintableKeys(m.value);
      }
    case Array(items) =>
      forall i | i in items ensures KeysClean(i) { PrintableKeys(i); }
  }

  // The printer's text through the parser, read from the buffer that the parser leaves.
  method PrintAndParse(j: Json<string>) returns (r: Parsed, back: Json<string>)
    requires Printable(j)
    ensures NoNull(j) && !Bare(j) ==> r.Good? && back == j
    ensures Bare(j) ==> r == Bad(6)
  {
    hide Printable, Held, Document, Read, ReadBack, KeysClean, NoNull, Print;
    var text := DumpToBuffer("", j);
    var b := text + ['\0'];
    assert text == Print(j);
    var buf := new char[|b|](i requires 0 <= i < |b| => b[i]);
    assert buf[..] == b;
    r := Parse(buf);
    back := if r.Good? then ReadBack(buf[..], r.v) else j;
    ThereAndBack(j);
    if Bare(j) { BareIsRefused(j); }
    PrintableKeys(j);
    if r.Good? && Read(b, r.v) == j {
      StillReads(b, buf[..], r.v);
    }
  }

  // The same for a text with any blanks around its parts.
  method ParseSpaced(j: Json<string>, gaps: Gaps) returns (r: Parsed, back: Json<string>)
    requires Printable(j) && NoNull(j) && AllBlank(gaps) && (Bare(j) ==> gaps([1]) != "")
    ensures r.Good? && back == j
  {
    hide Printable, Held, Document, Read, ReadBack, KeysClean, NoNull, DocumentText, AllBlank;
    var b := DocumentText(j, gaps) + ['\0'];
    var buf := new char[|b|](i requires 0 <= i < |b| => b[i]);
    assert buf[..] == b;
    SpacedReads(j, gaps);
    PrintableKeys(j);
    r := Parse(buf);
    StillReads(b, buf[..], r.v);
    back := ReadBack(buf[..], r.v);
  }
}

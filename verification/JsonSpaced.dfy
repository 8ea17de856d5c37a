// Text with spaces: a tree written with any blanks around its parts is read back, as is the text of the printer,
// which has none.
module JsonSpaced {
  import opened Json
  import opened JsonGrammar
  import opened JsonRoundTrip
  import opened Slices

  // The white space of RFC 8259 section 2: space, horizontal tab, line feed and carriage return.
  predicate Blank(s: string) {
    forall k | 0 <= k < |s| :: s[k] == ' ' || s[k] == '\t' || s[k] == '\n' || s[k] == '\r'
  }

  // What stands in each gap. A gap is named by the way down to it: the numbers of the parts passed on the way to its
  // container, the number of a part, and which of the gaps around that part it is.
  type Gaps = seq<nat> -> string

  ghost predicate AllBlank(gaps: Gaps) {
    forall at :: Blank(gaps(at))
  }

  // ---------- the writer ----------

  // With gaps before and after every value, key, colon, comma and bracket.
  function Text(j: Json<string>, gaps: Gaps, at: seq<nat>): string
    requires Printable(j)
    decreases j, 1
  {
    match j
    case Object(members) => "{" + if members == [] then gaps(at + [0, 0]) + "}" else MembersText(members, gaps, at, 0)
    case Array(items) => "[" + if items == [] then gaps(at + [0, 0]) + "]" else ItemsText(items, gaps, at, 0)
    case _ => Print(j)
  }

  // From an item on, with the bracket that closes the array.
  function ItemsText(items: seq<Json<string>>, gaps: Gaps, at: seq<nat>, n: nat): string
    requires items != [] && forall i | i in items :: Printable(i)
    decreases items, 0
  {
    gaps(at + [n, 0]) + (Text(items[0], gaps, at + [n]) + (gaps(at + [n, 1]) +
      if |items| == 1 then "]" else "," + ItemsText(items[1..], gaps, at, n + 1)))
  }

  function MembersText(members: seq<Member<string>>, gaps: Gaps, at: seq<nat>, n: nat): string
    requires members != [] && forall m | m in members :: PrintableMember(m)
    decreases members, 0
  {
    gaps(at + [n, 0]) + (("\"" + members[0].key + "\"") + (gaps(at + [n, 1]) + (":" + (gaps(at + [n, 2]) +
      (ValueText(members[0], gaps, at + [n]) + (gaps(at + [n, 3]) +
        if |members| == 1 then "}" else "," + MembersText(members[1..], gaps, at, n + 1)))))))
  }

  function ValueText(m: Member<string>, gaps: Gaps, at: seq<nat>): string
    requires PrintableMember(m)
    decreases m, 2
  {
    Text(m.value, gaps, at)
  }

  function DocumentText(j: Json<string>, gaps: Gaps): string
    requires Printable(j)
  {
    gaps([0]) + (Text(j, gaps, []) + gaps([1]))
  }

  // ---------- the printer has no gaps ----------

  const NO_GAPS: Gaps := (at: seq<nat>) => ""

  lemma {:induction false} PrintIsText(j: Json<string>, at: seq<nat>)
    requires Printable(j)
    ensures Text(j, NO_GAPS, at) == Print(j)
    decreases j, 1
  {
    match j
    case Object(members) => if members != [] { PrintIsMembers(members, at, 0); }
    case Array(items) => if items != [] { PrintIsItems(items, at, 0); }
    case Leaf(_, _) =>
    case Literal(_) =>
  }

  lemma {:induction false} PrintIsItems(items: seq<Json<string>>, at: seq<nat>, n: nat)
    requires items != [] && forall i | i in items :: Printable(i)
    ensures ItemsText(items, NO_GAPS, at, n) == PrintItems(items) + "]"
    decreases items, 0
  {
    hide Text, ItemsText, Print, NO_GAPS;
    var tail := ItemsTail(items, NO_GAPS, at, n);
    NoGaps(at, n);
    PrintIsText(items[0], at + [n]);
    WithoutGaps(Print(items[0]), tail);
    if |items| > 1 {
      PrintIsItems(items[1..], at, n + 1);
      Regrouped(Print(items[0]), PrintItems(items[1..]), "]");
    }
  }

  lemma NoGaps(at: seq<nat>, n: nat)
    ensures forall k: nat :: NO_GAPS(at + [n, k]) == ""
  {
  }

  lemma WithoutGaps(v: string, tail: string)
    ensures "" + (v + ("" + tail)) == v + tail
  {
  }

  lemma Regrouped(v: string, more: string, close: string)
    ensures v + ("," + (more + close)) == (v + ("," + more)) + close
  {
  }

  lemma {:induction false} PrintIsMembers(members: seq<Member<string>>, at: seq<nat>, n: nat)
    requires members != [] && forall m | m in members :: PrintableMember(m)
    ensures MembersText(members, NO_GAPS, at, n) == PrintMembers(members) + "}"
    decreases members, 0
  {
    hide Text, MembersText, Print, PrintMember, NO_GAPS;
    var m := members[0];
    var tail, v := MembersTail(members, NO_GAPS, at, n);
    NoGaps(at, n);
    PrintIsValue(m, at + [n]);
    KeyWithoutGaps(m.key, v, tail);
    if |members| > 1 {
      PrintIsMembers(members[1..], at, n + 1);
      Regrouped(PrintMember(m), PrintMembers(members[1..]), "}");
    }
  }

  lemma KeyWithoutGaps(key: string, v: string, tail: string)
    ensures "" + (("\"" + key + "\"") + ("" + (":" + ("" + (v + ("" + tail)))))) == "\"" + key + "\":" + v + tail
  {
  }

  lemma {:induction false} PrintIsValue(m: Member<string>, at: seq<nat>)
    requires PrintableMember(m)
    ensures PrintMember(m) == "\"" + m.key + "\":" + Text(m.value, NO_GAPS, at)
    decreases m, 2
  {
    PrintIsText(m.value, at);
  }

  // ---------- gaps are passed over ----------

  lemma {:induction false} ElementsPass(b: string, p: nat, gap: string, acc: seq<Tree>)
    requires Terminated(b) && At(b, p, gap) && Blank(gap) && p + |gap| < |b| - 1
    ensures Elements(b, p, acc) == Elements(b, p + |gap|, acc)
    decreases |gap|
  {
    if gap != "" {
      AtIndex(b, p, gap, 0);
      AtTail(b, p, gap, 1);
      ElementsPass(b, p + 1, gap[1..], acc);
    }
  }

  lemma {:induction false} AfterElementPass(b: string, p: nat, gap: string, acc: seq<Tree>)
    requires Terminated(b) && At(b, p, gap) && Blank(gap) && p + |gap| < |b|
    ensures AfterElement(b, p, acc) == AfterElement(b, p + |gap|, acc)
    decreases |gap|
  {
    if gap != "" {
      AtIndex(b, p, gap, 0);
      AtTail(b, p, gap, 1);
      AfterElementPass(b, p + 1, gap[1..], acc);
    }
  }

  lemma {:induction false} MembersPass(b: string, p: nat, gap: string, acc: seq<Member<Span>>)
    requires Terminated(b) && At(b, p, gap) && Blank(gap) && p + |gap| < |b| - 1
    ensures Members(b, p, acc) == Members(b, p + |gap|, acc)
    decreases |gap|
  {
    if gap != "" {
      AtIndex(b, p, gap, 0);
      AtTail(b, p, gap, 1);
      MembersPass(b, p + 1, gap[1..], acc);
    }
  }

  lemma {:induction false} ColonPass(b: string, p: nat, gap: string)
    requires Terminated(b) && At(b, p, gap) && Blank(gap) && p + |gap| < |b| - 1 && b[p + |gap|] == ':'
    ensures ColonFrom(b, p) == p + |gap|
    decreases |gap|
  {
    if gap != "" {
      AtIndex(b, p, gap, 0);
      AtTail(b, p, gap, 1);
      ColonPass(b, p + 1, gap[1..]);
    }
  }

  lemma {:induction false} MemberValuePass(b: string, p: nat, gap: string, acc: seq<Member<Span>>, key: Span)
    requires Terminated(b) && At(b, p, gap) && Blank(gap) && p + |gap| < |b| - 1
    ensures MemberValue(b, p, acc, key) == MemberValue(b, p + |gap|, acc, key)
    decreases |gap|
  {
    if gap != "" {
      AtIndex(b, p, gap, 0);
      AtTail(b, p, gap, 1);
      MemberValuePass(b, p + 1, gap[1..], acc, key);
    }
  }

  lemma {:induction false} AfterMemberPass(b: string, p: nat, gap: string, acc: seq<Member<Span>>)
    requires Terminated(b) && At(b, p, gap) && Blank(gap) && p + |gap| < |b|
    ensures AfterMember(b, p, acc) == AfterMember(b, p + |gap|, acc)
    decreases |gap|
  {
    if gap != "" {
      AtIndex(b, p, gap, 0);
      AtTail(b, p, gap, 1);
      AfterMemberPass(b, p + 1, gap[1..], acc);
    }
  }

  lemma {:induction false} TopPass(b: string, p: nat, gap: string)
    requires Terminated(b) && At(b, p, gap) && Blank(gap) && p + |gap| < |b| - 1
    ensures Top(b, p) == Top(b, p + |gap|)
    decreases |gap|
  {
    if gap != "" {
      AtIndex(b, p, gap, 0);
      AtTail(b, p, gap, 1);
      TopPass(b, p + 1, gap[1..]);
    }
  }

  // ---------- values ----------

  // Where a written value may stand: binary values and words inside objects must not end the text.
  ghost predicate Stands(b: string, p: nat, j: Json<string>, gaps: Gaps, at: seq<nat>, keyed: bool) {
    && Printable(j) && NoNull(j) && AllBlank(gaps) && At(b, p, Text(j, gaps, at)) && Follows(b, p + |Text(j, gaps, at)|)
    && (keyed || (j.Leaf? && j.kind == Binary) ==> p + |Text(j, gaps, at)| < |b| - 1)
  }

  lemma FirstChar(j: Json<string>, gaps: Gaps, at: seq<nat>)
    requires Printable(j) && NoNull(j)
    ensures var t := Text(j, gaps, at);
      && t != "" && t[0] !in " \t\n\r" && t[0] != ']' && t[0] != '\0'
      && (t[0] == '{' <==> j.Object?) && (t[0] == '[' <==> j.Array?)
  {
    if j.Leaf? && j.kind == Decimal {
      var k :| 0 <= k < |j.s| && PointAt(j.s, k);
      WholeDigits(j.s[..k]);
    } else if j.Leaf? && j.kind == Number {
      WholeDigits(j.s);
    }
  }

  lemma {:induction false} ValueRead(b: string, p: nat, j: Json<string>, gaps: Gaps, at: seq<nat>, keyed: bool)
    requires Terminated(b) && Stands(b, p, j, gaps, at, keyed)
    ensures p < |b| - 1 && Returns(b, p, ValueAt(b, p, keyed), j, |Text(j, gaps, at)|)
    decreases j, 1
  {
    hide At, Elements, Members, Follows, Scalar, AllBlank, Printable, NoNull, Print, MembersText, ItemsText, Read;
    FirstChar(j, gaps, at);
    AtIndex(b, p, Text(j, gaps, at), 0);
    match j
    case Object(members) => ObjectRead(b, p, members, gaps, at);
    case Array(items) => ArrayRead(b, p, items, gaps, at);
    case Leaf(_, _) => ScalarPrinted(b, p, j, keyed);
    case Literal(_) => ScalarPrinted(b, p, j, keyed);
  }

  lemma {:induction false} ArrayRead(b: string, p: nat, items: seq<Json<string>>, gaps: Gaps, at: seq<nat>)
    requires Terminated(b) && Stands(b, p, Array(items), gaps, at, false)
    ensures p < |b| - 1 && Returns(b, p, Elements(b, p + 1, []), Array(items), |Text(Array(items), gaps, at)|)
    decreases Array(items), 0
  {
    hide At, AllBlank, Blank, ItemsText;
    BlankGap(gaps, at + [0, 0]);
    if items == [] {
      AtBoth(b, p, "[", gaps(at + [0, 0]) + "]");
      ClosedAt(b, p + 1, gaps(at + [0, 0]), "]");
      ElementsPass(b, p + 1, gaps(at + [0, 0]), []);
      assert ReadItems(b, []) == [];
    } else {
      AtBoth(b, p, "[", ItemsText(items, gaps, at, 0));
      ItemsRead(b, p + 1, items, gaps, at, 0, []);
    }
  }

  lemma BlankGap(gaps: Gaps, at: seq<nat>)
    requires AllBlank(gaps)
    ensures Blank(gaps(at))
  {
  }

  // A gap, and one character.
  lemma ClosedAt(b: string, p: nat, gap: string, close: string)
    requires At(b, p, gap + close) && |close| == 1
    ensures At(b, p, gap) && p + |gap| < |b| && b[p + |gap|] == close[0]
  {
    AtBoth(b, p, gap, close);
    AtIndex(b, p + |gap|, close, 0);
  }

  // A gap, a value, a gap and what closes or goes on.
  ghost predicate PartAt(b: string, p: nat, g0: string, v: string, g1: string, tail: string) {
    && At(b, p, g0) && At(b, p + |g0|, v) && At(b, p + |g0| + |v|, g1) && At(b, p + |g0| + |v| + |g1|, tail)
    && Follows(b, p + |g0| + |v|)
  }

  lemma PartsOf(b: string, p: nat, g0: string, v: string, g1: string, tail: string)
    requires At(b, p, g0 + (v + (g1 + tail))) && Blank(g1) && tail != "" && tail[0] in ",]}"
    ensures PartAt(b, p, g0, v, g1, tail) && b[p + |g0| + |v| + |g1|] == tail[0]
  {
    hide At;
    AtBoth(b, p, g0, v + (g1 + tail));
    AtBoth(b, p + |g0|, v, g1 + tail);
    AtBoth(b, p + |g0| + |v|, g1, tail);
    AtIndex(b, p + |g0| + |v|, g1 + tail, 0);
    AtIndex(b, p + |g0| + |v| + |g1|, tail, 0);
  }

  lemma {:induction false} ItemsRead(b: string, p: nat, items: seq<Json<string>>, gaps: Gaps, at: seq<nat>, n: nat, acc: seq<Tree>)
    requires Terminated(b) && AllBlank(gaps) && items != [] && (forall i | i in items :: Printable(i) && NoNull(i))
    requires At(b, p, ItemsText(items, gaps, at, n)) && p + |ItemsText(items, gaps, at, n)| < |b|
    ensures p < |b| - 1
    ensures Returns(b, p, Elements(b, p, acc), Array(ReadItems(b, acc) + items), |ItemsText(items, gaps, at, n)|)
    decreases items, 0
  {
    hide Text, ItemsText, Printable, NoNull, At, ReadItems, Read, ValueAt, AllBlank, Blank, Follows, Elements;
    var j, rest := items[0], items[1..];
    assert j in items && forall i | i in rest :: i in items;
    var tail := ItemsTail(items, gaps, at, n);
    var g0, v, g1 := gaps(at + [n, 0]), Text(j, gaps, at + [n]), gaps(at + [n, 1]);
    BlankGap(gaps, at + [n, 0]);
    BlankGap(gaps, at + [n, 1]);
    PartsOf(b, p, g0, v, g1, tail);
    FirstChar(j, gaps, at + [n]);
    ElementsPass(b, p, g0, acc);
    ValueRead(b, p + |g0|, j, gaps, at + [n], false);
    var q := p + |g0| + |v|;
    var x := ElementTaken(b, p + |g0|, j, gaps, at + [n], acc);
    AfterElementPass(b, q, g1, acc + [x]);
    if |items| == 1 {
      AfterLastItem(b, q + |g1|, acc + [x]);
      assert ReadItems(b, acc) + [j] == ReadItems(b, acc) + items;
    } else {
      AfterItemComma(b, q + |g1|, acc + [x]);
      AtBoth(b, q + |g1|, ",", ItemsText(rest, gaps, at, n + 1));
      ItemsRead(b, q + |g1| + 1, rest, gaps, at, n + 1, acc + [x]);
      assert ReadItems(b, acc) + [j] + rest == ReadItems(b, acc) + items;
    }
  }

  lemma AfterLastItem(b: string, q: nat, acc: seq<Tree>)
    requires Terminated(b) && q < |b| && b[q] == ']'
    ensures AfterElement(b, q, acc) == Good(Array(acc), q + 1) && Read(b, Array(acc)) == Array(ReadItems(b, acc))
  {
  }

  lemma AfterItemComma(b: string, q: nat, acc: seq<Tree>)
    requires Terminated(b) && q + 1 < |b| && b[q] == ','
    ensures AfterElement(b, q, acc) == Elements(b, q + 1, acc)
  {
  }

  lemma ItemsTail(items: seq<Json<string>>, gaps: Gaps, at: seq<nat>, n: nat) returns (tail: string)
    requires items != [] && forall i | i in items :: Printable(i)
    ensures forall i | i in items[1..] :: Printable(i)
    ensures tail == if |items| == 1 then "]" else "," + ItemsText(items[1..], gaps, at, n + 1)
    ensures tail != "" && tail[0] in ",]}"
    ensures ItemsText(items, gaps, at, n) == gaps(at + [n, 0]) + (Text(items[0], gaps, at + [n]) + (gaps(at + [n, 1]) + tail))
  {
    assert forall i | i in items[1..] :: i in items;
    tail := if |items| == 1 then "]" else "," + ItemsText(items[1..], gaps, at, n + 1);
  }

  // A value that an array takes.
  lemma ElementTaken(b: string, p: nat, j: Json<string>, gaps: Gaps, at: seq<nat>, acc: seq<Tree>) returns (v: Tree)
    requires Terminated(b) && Stands(b, p, j, gaps, at, false) && p < |b| - 1
    requires Returns(b, p, ValueAt(b, p, false), j, |Text(j, gaps, at)|)
    ensures Elements(b, p, acc) == AfterElement(b, p + |Text(j, gaps, at)|, acc + [v])
    ensures ReadItems(b, acc + [v]) == ReadItems(b, acc) + [j]
  {
    hide At, Text, ReadItems, ValueAt, AllBlank;
    FirstChar(j, gaps, at);
    AtIndex(b, p, Text(j, gaps, at), 0);
    v := ValueAt(b, p, false).v;
    ReadItemsMore(b, acc, v);
  }

  lemma {:induction false} ObjectRead(b: string, p: nat, members: seq<Member<string>>, gaps: Gaps, at: seq<nat>)
    requires Terminated(b) && Stands(b, p, Object(members), gaps, at, false)
    ensures p < |b| - 1 && Returns(b, p, Members(b, p + 1, []), Object(members), |Text(Object(members), gaps, at)|)
    decreases Object(members), 0
  {
    hide At, AllBlank, Blank, MembersText;
    BlankGap(gaps, at + [0, 0]);
    if members == [] {
      AtBoth(b, p, "{", gaps(at + [0, 0]) + "}");
      ClosedAt(b, p + 1, gaps(at + [0, 0]), "}");
      MembersPass(b, p + 1, gaps(at + [0, 0]), []);
      assert ReadMembers(b, []) == [];
    } else {
      AtBoth(b, p, "{", MembersText(members, gaps, at, 0));
      MembersRead(b, p + 1, members, gaps, at, 0, []);
    }
  }

  // A gap, a key in quotes, a gap, a colon, and the rest.
  ghost predicate KeyAt(b: string, p: nat, g0: string, key: string, g1: string, rest: string) {
    && At(b, p, g0) && At(b, p + |g0|, "\"" + key + "\"") && At(b, p + |g0| + |key| + 2, g1)
    && p + |g0| + |key| + 2 + |g1| < |b| && b[p + |g0| + |key| + 2 + |g1|] == ':'
    && At(b, p + |g0| + |key| + |g1| + 3, rest)
  }

  lemma KeyOf(b: string, p: nat, g0: string, key: string, g1: string, rest: string)
    requires At(b, p, g0 + (("\"" + key + "\"") + (g1 + (":" + rest))))
    ensures KeyAt(b, p, g0, key, g1, rest)
  {
    hide At;
    var k := "\"" + key + "\"";
    AtBoth(b, p, g0, k + (g1 + (":" + rest)));
    AtBoth(b, p + |g0|, k, g1 + (":" + rest));
    AtBoth(b, p + |g0| + |k|, g1, ":" + rest);
    AtFirst(b, p + |g0| + |k| + |g1|, ":", rest);
  }

  // Passing a key and its colon.
  lemma KeyRead(b: string, p: nat, g0: string, s: string, g1: string, rest: string, acc: seq<Member<Span>>) returns (key: Span)
    requires Terminated(b) && KeyAt(b, p, g0, s, g1, rest) && Blank(g0) && Blank(g1) && WellEscaped(s)
    requires p + |g0| + |s| + |g1| + 3 < |b| - 1
    ensures Members(b, p, acc) == MemberValue(b, p + |g0| + |s| + |g1| + 3, acc, key) && Slice(b, key) == s
  {
    hide At, Blank, WellEscaped, Slice, TextEnd, ColonFrom, MemberValue;
    MembersPass(b, p, g0, acc);
    var q := p + |g0|;
    KeyPrinted(b, q, s);
    ColonPass(b, q + |s| + 2, g1);
    key := Span(q + 1, |s|);
  }

  lemma {:induction false} MembersRead(b: string, p: nat, members: seq<Member<string>>, gaps: Gaps, at: seq<nat>, n: nat,
                                      acc: seq<Member<Span>>)
    requires Terminated(b) && AllBlank(gaps) && members != [] && (forall m | m in members :: PrintableMember(m) && NoNull(m.value))
    requires At(b, p, MembersText(members, gaps, at, n)) && p + |MembersText(members, gaps, at, n)| < |b|
    ensures p < |b| - 1
    ensures Returns(b, p, Members(b, p, acc), Object(ReadMembers(b, acc) + members), |MembersText(members, gaps, at, n)|)
    decreases members, 0
  {
    hide *;
    var m, rest := members[0], members[1..];
    var x, q := OneMember(b, p, members, gaps, at, n, acc);
    if |members| == 1 {
      AfterLast(b, q, acc + [x]);
      ObjectIs(b, q + 1, acc + [x], ReadMembers(b, acc) + members, p);
    } else {
      AfterComma(b, q, acc + [x]);
      AtBoth(b, q, ",", MembersText(rest, gaps, at, n + 1));
      MembersRead(b, q + 1, rest, gaps, at, n + 1, acc + [x]);
      assert ReadMembers(b, acc) + [m] + rest == ReadMembers(b, acc) + members;
      ReturnsFrom(b, q + 1, Members(b, q + 1, acc + [x]), Object(ReadMembers(b, acc) + members), |MembersText(rest, gaps, at, n + 1)|, p);
    }
  }

  lemma ObjectIs(b: string, q: nat, acc: seq<Member<Span>>, all: seq<Member<string>>, p: nat)
    requires p <= q && ReadMembers(b, acc) == all
    ensures Returns(b, p, Good(Object(acc), q), Object(all), q - p)
  {
  }

  lemma ReturnsFrom(b: string, q: nat, r: Parsed, j: Json<string>, n: nat, p: nat)
    requires Returns(b, q, r, j, n) && p <= q
    ensures Returns(b, p, r, j, q - p + n)
  {
  }

  // The first of the members: then comes the closing bracket, or a comma and the others.
  lemma {:induction false} OneMember(b: string, p: nat, members: seq<Member<string>>, gaps: Gaps, at: seq<nat>, n: nat,
                                    acc: seq<Member<Span>>) returns (x: Member<Span>, q: nat)
    requires Terminated(b) && AllBlank(gaps) && members != [] && (forall m | m in members :: PrintableMember(m) && NoNull(m.value))
    requires At(b, p, MembersText(members, gaps, at, n)) && p + |MembersText(members, gaps, at, n)| < |b|
    ensures (forall m | m in members[1..] :: PrintableMember(m) && NoNull(m.value)) && p < q < |b| - 1
    ensures Members(b, p, acc) == AfterMember(b, q, acc + [x]) && ReadMembers(b, acc + [x]) == ReadMembers(b, acc) + [members[0]]
    ensures if |members| == 1 then b[q] == '}' && q + 1 == p + |MembersText(members, gaps, at, n)|
            else b[q] == ',' && At(b, q, "," + MembersText(members[1..], gaps, at, n + 1)) &&
                 q + 1 + |MembersText(members[1..], gaps, at, n + 1)| == p + |MembersText(members, gaps, at, n)|
    decreases members[0], 3
  {
    hide Text, ValueText, MembersText, PrintableMember, Printable, NoNull, At, ReadMembers, ValueAt, AllBlank, Blank, Follows, Members, MemberValue, AfterMember;
    var m := members[0];
    assert m in members && forall x | x in members[1..] :: x in members;
    var tail, v := MembersTail(members, gaps, at, n);
    var g0, g1, g2, g3 := gaps(at + [n, 0]), gaps(at + [n, 1]), gaps(at + [n, 2]), gaps(at + [n, 3]);
    BlankGaps(gaps, at, n);
    KeyOf(b, p, g0, m.key, g1, g2 + (v + (g3 + tail)));
    var key := KeyRead(b, p, g0, m.key, g1, g2 + (v + (g3 + tail)), acc);
    var pv := p + |g0| + |m.key| + |g1| + 3;
    PartsOf(b, pv, g2, v, g3, tail);
    x := MemberRead(b, pv, m, key, gaps, at + [n], g2, v, g3, tail, acc);
    q := pv + |g2| + |v| + |g3|;
  }

  lemma AfterLast(b: string, q: nat, acc: seq<Member<Span>>)
    requires Terminated(b) && q < |b| && b[q] == '}'
    ensures AfterMember(b, q, acc) == Good(Object(acc), q + 1)
  {
  }

  lemma AfterComma(b: string, q: nat, acc: seq<Member<Span>>)
    requires Terminated(b) && q + 1 < |b| && b[q] == ','
    ensures AfterMember(b, q, acc) == Members(b, q + 1, acc)
  {
  }

  lemma BlankGaps(gaps: Gaps, at: seq<nat>, n: nat)
    requires AllBlank(gaps)
    ensures Blank(gaps(at + [n, 0])) && Blank(gaps(at + [n, 1])) && Blank(gaps(at + [n, 2])) && Blank(gaps(at + [n, 3]))
  {
  }

  lemma MembersTail(members: seq<Member<string>>, gaps: Gaps, at: seq<nat>, n: nat) returns (tail: string, v: string)
    requires members != [] && forall m | m in members :: PrintableMember(m)
    ensures forall m | m in members[1..] :: PrintableMember(m)
    ensures Printable(members[0].value) && WellEscaped(members[0].key) && v == Text(members[0].value, gaps, at + [n])
    ensures tail == if |members| == 1 then "}" else "," + MembersText(members[1..], gaps, at, n + 1)
    ensures tail != "" && tail[0] in ",]}"
    ensures MembersText(members, gaps, at, n) ==
      gaps(at + [n, 0]) + (("\"" + members[0].key + "\"") + (gaps(at + [n, 1]) + (":" + (gaps(at + [n, 2]) + (v + (gaps(at + [n, 3]) + tail))))))
  {
    assert members[0] in members && forall m | m in members[1..] :: m in members;
    tail := if |members| == 1 then "}" else "," + MembersText(members[1..], gaps, at, n + 1);
    v := ValueText(members[0], gaps, at + [n]);
  }

  // A value that an object takes, with its gaps.
  lemma {:induction false} MemberRead(b: string, p: nat, m: Member<string>, key: Span, gaps: Gaps, at: seq<nat>, g2: string, v: string,
                                     g3: string, tail: string, acc: seq<Member<Span>>) returns (x: Member<Span>)
    requires Terminated(b) && PrintableMember(m) && NoNull(m.value) && AllBlank(gaps) && Blank(g2) && Blank(g3)
    requires v == Text(m.value, gaps, at) && PartAt(b, p, g2, v, g3, tail) && tail != "" && p + |g2| + |v| + |g3| + |tail| < |b|
    requires Slice(b, key) == m.key
    ensures MemberValue(b, p, acc, key) == AfterMember(b, p + |g2| + |v| + |g3|, acc + [x])
    ensures ReadMembers(b, acc + [x]) == ReadMembers(b, acc) + [m]
    decreases m, 2
  {
    hide At, Text, Slice, Printable, NoNull, WellEscaped, AfterMember, ValueAt, Read, ReadMembers, AllBlank, Blank, Follows;
    FirstChar(m.value, gaps, at);
    MemberValuePass(b, p, g2, acc, key);
    var pv := p + |g2|;
    AtIndex(b, pv, v, 0);
    ValueRead(b, pv, m.value, gaps, at, true);
    x := Member(key, ValueAt(b, pv, true).v);
    AfterMemberPass(b, pv + |v|, g3, acc + [x]);
    ReadMembersMore(b, acc, x);
  }

  // ---------- documents ----------

  // A binary value on its own.
  predicate Bare(j: Json<string>) {
    j.Leaf? && j.kind == Binary
  }

  // Whatever blanks are chosen, a text is read back as its tree. A binary value on its own needs one behind it.
  lemma SpacedReads(j: Json<string>, gaps: Gaps)
    requires Printable(j) && NoNull(j) && AllBlank(gaps) && (Bare(j) ==> gaps([1]) != "")
    ensures var b := DocumentText(j, gaps) + ['\0']; Document(b).Good? && Read(b, Document(b).v) == j
  {
    hide At, Text, Printable, NoNull, AllBlank, Blank, Follows, ValueAt, Read;
    var b := DocumentText(j, gaps) + ['\0'];
    var g0, v, g1 := gaps([0]), Text(j, gaps, []), gaps([1]);
    BlankGap(gaps, [0]);
    BlankGap(gaps, [1]);
    FirstChar(j, gaps, []);
    DocumentParts(b, g0, v, g1);
    TopPass(b, 0, g0);
    ValueRead(b, |g0|, j, gaps, [], false);
    AtIndex(b, |g0|, v, 0);
  }

  lemma DocumentParts(b: string, g0: string, v: string, g1: string)
    requires b == g0 + (v + g1) + ['\0'] && Blank(g1)
    ensures At(b, 0, g0) && At(b, |g0|, v) && Follows(b, |g0| + |v|)
  {
    assert b[0..|g0|] == g0 && b[|g0|..|g0| + |v|] == v;
  }
}

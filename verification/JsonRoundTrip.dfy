// What a tree of spans says, and reading printed strings, numbers, words and binary values where they stand.
module JsonRoundTrip {
  import opened Json
  import opened JsonGrammar
  import opened JsonParse
  import opened Slices

  // ---------- what a tree of spans says ----------

  function Slice(b: string, s: Span): (r: string)
    ensures |r| <= s.len
  {
    if s.at + s.len <= |b| then b[s.at..s.at + s.len] else ""
  }

  function Read(b: string, j: Tree): Json<string> {
    match j
    case Leaf(kind, s) => Leaf(kind, Slice(b, s))
    case Literal(lit) => Literal(lit)
    case Object(members) => Object(ReadMembers(b, members))
    case Array(items) => Array(ReadItems(b, items))
  }

  function ReadMember(b: string, m: Member<Span>): Member<string> {
    Member(Slice(b, m.key), Read(b, m.value))
  }

  function ReadMembers(b: string, members: seq<Member<Span>>): seq<Member<string>> {
    seq(|members|, i requires 0 <= i < |members| => ReadMember(b, members[i]))
  }

  function ReadItems(b: string, items: seq<Tree>): seq<Json<string>> {
    seq(|items|, i requires 0 <= i < |items| => Read(b, items[i]))
  }

  lemma AtSlice(b: string, p: nat, s: string)
    requires At(b, p, s)
    ensures Slice(b, Span(p, |s|)) == s
  {
  }

  // ---------- strings ----------

  // The parser's backward count of backslashes agrees with reading escapes from the left: the string ends at
  // its own closing quote exactly when it is well escaped.
  lemma {:induction false} TextEndsWhere(b: string, p: nat, s: string)
    requires Terminated(b) && At(b, p, s + "\"") && p + |s| < |b| - 1 && Slashes(b, p) % 2 == 0
    ensures TextEnd(b, p) == p + |s| <==> WellEscaped(s)
    decreases |s|
  {
    hide At, Terminated;
    AtIndex(b, p, s + "\"", |s|);
    if s != [] {
      AtIndex(b, p, s + "\"", 0);
      AtTail(b, p, s + "\"", 1);
      assert (s + "\"")[1..] == s[1..] + "\"";
      if s[0] == '\\' {
        AtIndex(b, p, s + "\"", 1);
        assert Slashes(b, p + 1) == 1 + Slashes(b, p);
        assert TextEnd(b, p) == TextEnd(b, p + 2);
        if |s| >= 2 {
          AtTail(b, p, s + "\"", 2);
          assert (s + "\"")[2..] == s[2..] + "\"";
          TextEndsWhere(b, p + 2, s[2..]);
        }
      } else if s[0] != '"' {
        TextEndsWhere(b, p + 1, s[1..]);
      }
    }
  }

  lemma TextPrinted(b: string, p: nat, s: string, keyed: bool)
    requires Terminated(b) && At(b, p, "\"" + s + "\"") && p + |s| + 2 < |b| && WellEscaped(s)
    ensures b[p] == '"' && TextEnd(b, p + 1) == p + 1 + |s| && Slice(b, Span(p + 1, |s|)) == s
    ensures Scalar(b, p, keyed) == Good(Leaf(Text, Span(p + 1, |s|)), p + |s| + 2)
  {
    assert "\"" + s + "\"" == "\"" + (s + "\"");
    hide At, Slice, WellEscaped;
    AtBoth(b, p, "\"", s + "\"");
    AtIndex(b, p, "\"", 0);
    assert Slashes(b, p + 1) == 0;
    TextEndsWhere(b, p + 1, s);
    AtBoth(b, p + 1, s, "\"");
    AtSlice(b, p + 1, s);
  }

  // ---------- numbers, words and binary values ----------

  lemma {:induction false} DigitsTo(b: string, p: nat, s: string)
    requires Terminated(b) && At(b, p, s) && Digits(s) && p + |s| < |b| && !Digit(b[p + |s|])
    ensures DigitsEnd(b, p) == p + |s|
    decreases |s|
  {
    if s != [] {
      AtIndex(b, p, s, 0);
      AtTail(b, p, s, 1);
      DigitsTo(b, p + 1, s[1..]);
    }
  }

  // What may follow a value: no character that could belong to a number.
  predicate Follows(b: string, p: nat) {
    p < |b| && !Digit(b[p]) && b[p] != '.'
  }

  // The sign and the first digit of a number.
  function Sign(s: string): nat {
    if s != "" && s[0] == '-' then 1 else 0
  }

  lemma NumberHead(s: string)
    requires Printable(Leaf(Number, s))
    ensures Sign(s) < |s| && Digit(s[Sign(s)]) && s[Sign(s)] != '0' && Digits(s[Sign(s) + 1..])
  {
    WholeDigits(s);
    assert |s| == Sign(s) + 1 ==> s == s[..Sign(s)] + [s[Sign(s)]];
  }

  lemma NumberPrinted(b: string, p: nat, s: string, keyed: bool)
    requires Terminated(b) && Printable(Leaf(Number, s)) && At(b, p, s) && Follows(b, p + |s|)
    ensures p < |b| - 1 && Scalar(b, p, keyed) == Good(Leaf(Number, Span(p, |s|)), p + |s|)
  {
    var d := Sign(s);
    NumberHead(s);
    AtIndex(b, p, s, 0);
    AtIndex(b, p, s, d);
    AtTail(b, p, s, d + 1);
    DigitsTo(b, p + d + 1, s[d + 1..]);
  }

  lemma DecimalTail(b: string, p: nat, s: string, k: nat)
    requires Terminated(b) && PointAt(s, k) && At(b, p, s) && Follows(b, p + |s|)
    ensures DecimalFrom(b, p, p + k + 1) == Good(Leaf(Decimal, Span(p, |s|)), p + |s|) && b[p + k] == '.'
  {
    AtIndex(b, p, s, k);
    AtIndex(b, p, s, k + 1);
    AtTail(b, p, s, k + 2);
    var t := s[k + 1..];
    assert s[k + 1] == t[0] && s[k + 2..] == t[1..];
    DigitsTo(b, p + k + 2, s[k + 2..]);
  }

  lemma DecimalHead(b: string, p: nat, s: string, k: nat)
    requires Terminated(b) && PointAt(s, k) && At(b, p, s) && b[p + k] == '.'
    ensures Sign(s) < k && Digit(s[Sign(s)]) && b[p + Sign(s)] == s[Sign(s)] && b[p] == s[0]
    ensures if s[Sign(s)] == '0' then k == Sign(s) + 1 else DigitsEnd(b, p + Sign(s) + 1) == p + k
  {
    var d, w := Sign(s), s[..k];
    WholeDigits(w);
    AtIndex(b, p, s, 0);
    AtIndex(b, p, s, d);
    assert s == w + s[k..];
    AtBoth(b, p, w, s[k..]);
    if s[d] != '0' {
      AtTail(b, p, w, d + 1);
      DigitsTo(b, p + d + 1, w[d + 1..]);
    }
  }

  lemma DecimalPrinted(b: string, p: nat, s: string, keyed: bool)
    requires Terminated(b) && Printable(Leaf(Decimal, s)) && At(b, p, s) && Follows(b, p + |s|)
    ensures p < |b| - 1 && Scalar(b, p, keyed) == Good(Leaf(Decimal, Span(p, |s|)), p + |s|)
  {
    var k :| 0 <= k < |s| && PointAt(s, k);
    DecimalTail(b, p, s, k);
    DecimalHead(b, p, s, k);
    hide At, PointAt, DecimalFrom, DigitsEnd, Printable;
    assert p + |s| < |b|;
  }

  lemma WholeDigits(w: string)
    requires Whole(w)
    ensures Sign(w) < |w| && Digits(w[Sign(w)..]) && Digits(w[Sign(w) + 1..]) && Digit(w[Sign(w)])
    ensures w[Sign(w)] == '0' ==> |w| == Sign(w) + 1
  {
    var u := w[Sign(w)..];
    assert u[0] == w[Sign(w)];
    assert w[Sign(w) + 1..] == u[1..];
  }

  lemma {:induction false} WordRead(b: string, p: nat, w: string, lit: Lit)
    requires Terminated(b) && At(b, p, w) && p + |w| < |b| && '\0' !in w
    ensures WordFrom(b, p, w, lit) == Good(Literal(lit), p + |w|)
    decreases |w|
  {
    if w != "" {
      AtIndex(b, p, w, 0);
      AtTail(b, p, w, 1);
      WordRead(b, p + 1, w[1..], lit);
    }
  }

  lemma WordPrinted(b: string, p: nat, lit: Lit, keyed: bool)
    requires Terminated(b) && lit != Null && At(b, p, Word(lit)) && Follows(b, p + |Word(lit)|)
    requires keyed ==> p + |Word(lit)| < |b| - 1
    ensures p < |b| - 1 && Scalar(b, p, keyed) == Good(Literal(lit), p + |Word(lit)|)
  {
    hide At, WordFrom;
    var w := Word(lit);
    AtIndex(b, p, w, 0);
    AtTail(b, p, w, 1);
    if lit == Zero {
      assert |w| == 1;
    } else {
      var t := if lit == True then "rue" else "alse";
      assert w[1..] == t;
      WordRead(b, p + 1, t, lit);
    }
  }

  lemma LengthRead(n: nat, b: string, p: nat)
    requires n < LENGTH_LIMIT && At(b, p, LengthBytes(n))
    ensures LengthAt(b, p) == n
  {
    var l := LengthBytes(n);
    AtIndex(b, p, l, 0);
    AtIndex(b, p, l, 1);
    AtIndex(b, p, l, 2);
    AtIndex(b, p, l, 3);
    assert n / 256 / 256 == n / 0x1_0000 && n / 0x1_0000 / 256 == n / 0x100_0000;
  }

  lemma BinaryPrinted(b: string, p: nat, s: string, keyed: bool)
    requires Terminated(b) && |s| < LENGTH_LIMIT && At(b, p, "nb" + LengthBytes(|s|) + s) && p + |s| + 6 < |b|
    ensures Scalar(b, p, keyed) ==
      if p + |s| + 6 < |b| - 1 then Good(Leaf(Binary, Span(p + 6, |s|)), p + |s| + 6) else Bad(p + 6)
    ensures Slice(b, Span(p + 6, |s|)) == s
  {
    var h := "nb" + LengthBytes(|s|);
    AtBoth(b, p, h, s);
    AtBoth(b, p, "nb", LengthBytes(|s|));
    AtIndex(b, p, "nb", 0);
    AtIndex(b, p, "nb", 1);
    LengthRead(|s|, b, p + 2);
  }

  // ---------- one value ----------

  // Reading at p gives j back and ends with it.
  ghost predicate Returns(b: string, p: nat, r: Parsed, j: Json<string>, n: nat) {
    r.Good? && r.p == p + n && Read(b, r.v) == j
  }

  // Binary values and words inside objects must not end the text.
  lemma ScalarPrinted(b: string, p: nat, j: Json<string>, keyed: bool)
    requires Terminated(b) && (j.Leaf? || j.Literal?) && Printable(j) && NoNull(j)
    requires At(b, p, Print(j)) && Follows(b, p + |Print(j)|)
    requires keyed || (j.Leaf? && j.kind == Binary) ==> p + |Print(j)| < |b| - 1
    ensures p < |b| - 1 && Returns(b, p, Scalar(b, p, keyed), j, |Print(j)|)
  {
    hide At, Scalar, Whole, PointAt, Slice, Digits;
    match j
    case Leaf(Text, s) => TextPrinted(b, p, s, keyed);
    case Leaf(Number, s) => AtSlice(b, p, s); NumberPrinted(b, p, s, keyed);
    case Leaf(Decimal, s) => AtSlice(b, p, s); DecimalPrinted(b, p, s, keyed);
    case Leaf(Binary, s) => BinaryPrinted(b, p, s, keyed);
    case Literal(lit) => WordPrinted(b, p, lit, keyed);
  }

  lemma KeyPrinted(b: string, p: nat, s: string)
    requires Terminated(b) && At(b, p, "\"" + s + "\"") && p + |s| + 2 < |b| && WellEscaped(s)
    ensures b[p] == '"' && TextEnd(b, p + 1) == p + 1 + |s| && Slice(b, Span(p + 1, |s|)) == s
  {
    TextPrinted(b, p, s, true);
  }

  lemma AtFirst(b: string, p: nat, s: string, t: string)
    requires At(b, p, s + t) && |s| == 1
    ensures p < |b| && b[p] == s[0] && At(b, p + 1, t)
  {
    AtBoth(b, p, s, t);
    AtIndex(b, p, s, 0);
  }

  lemma ReadItemsMore(b: string, acc: seq<Tree>, v: Tree)
    ensures ReadItems(b, acc + [v]) == ReadItems(b, acc) + [Read(b, v)]
  {
  }

  lemma ReadMembersMore(b: string, acc: seq<Member<Span>>, m: Member<Span>)
    ensures ReadMembers(b, acc + [m]) == ReadMembers(b, acc) + [ReadMember(b, m)]
  {
  }
}

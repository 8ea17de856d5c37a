// The language that the parser accepts, as a recursive reader without any state: which tree each text stands
// for, and where a text that is none is given up. `b` is the text with the NUL that follows it.
module JsonGrammar {
  import opened Json

  datatype Span = Span(at: nat, len: nat)

  type Tree = Json<Span>

  // `Unopened`: a closing bracket where no array is open, which the parser does not survive.
  datatype Parsed = Good(v: Tree, p: nat) | Bad(at: nat) | Unopened

  ghost predicate Terminated(b: string) {
    b != [] && b[|b| - 1] == '\0'
  }

  predicate Space(c: char) {
    c == ' ' || c == '\t' || c == '\r' || c == '\n'
  }

  // How many backslashes stand directly before q.
  function Slashes(b: string, q: nat): (n: nat)
    requires q <= |b|
    ensures n <= q
  {
    if q == 0 || b[q - 1] != '\\' then 0 else 1 + Slashes(b, q - 1)
  }

  // The first quote from p on that does not follow an odd number of backslashes, or the end of the text.
  function TextEnd(b: string, p: nat): (q: nat)
    requires b != [] && p < |b|
    ensures p <= q < |b| && (q < |b| - 1 ==> b[q] == '"')
    decreases |b| - p
  {
    if p == |b| - 1 || (b[p] == '"' && Slashes(b, p) % 2 == 0) then p else TextEnd(b, p + 1)
  }

  // The first colon from p on, or the end of the text.
  function ColonFrom(b: string, p: nat): (q: nat)
    requires b != []
    ensures p <= q && (p < |b| ==> q < |b|)
    decreases |b| - p
  {
    if p >= |b| - 1 || b[p] == ':' then p else ColonFrom(b, p + 1)
  }

  function DigitsEnd(b: string, p: nat): (q: nat)
    requires Terminated(b) && p < |b|
    ensures p <= q < |b| && !Digit(b[q]) && forall k | p <= k < q :: Digit(b[k])
    decreases |b| - p
  {
    if Digit(b[p]) then DigitsEnd(b, p + 1) else p
  }

  // A number that starts at s, from its digits at p on.
  function NumberFrom(b: string, s: nat, p: nat): (r: Parsed)
    requires Terminated(b) && s < p < |b|
    ensures Extent(b, s, r)
  {
    var q := DigitsEnd(b, p);
    if b[q] == '.' then DecimalFrom(b, s, q + 1) else Good(Leaf(Number, Span(s, q - s)), q)
  }

  // The digits after the point, at p.
  function DecimalFrom(b: string, s: nat, p: nat): (r: Parsed)
    requires Terminated(b) && s < p < |b|
    ensures Extent(b, s, r)
  {
    if !Digit(b[p]) then Bad(p + 1)
    else
      var q := DigitsEnd(b, p + 1);
      Good(Leaf(Decimal, Span(s, q - s)), q)
  }

  // After a leading zero. A point that is the last character of the text is not looked at.
  function ZeroFrom(b: string, s: nat, p: nat): (r: Parsed)
    requires Terminated(b) && s < p < |b|
    ensures Extent(b, s, r)
  {
    if p + 1 < |b| - 1 && b[p] == '.' then DecimalFrom(b, s, p + 1) else Good(Literal(Zero), p)
  }

  // The rest of a word, letter by letter.
  function WordFrom(b: string, p: nat, w: string, lit: Lit): (r: Parsed)
    requires Terminated(b) && p < |b| && '\0' !in w
    ensures r.Good? ==> r.v == Literal(lit) && p <= r.p < |b| && r.p == p + |w| && b[p..r.p] == w
    ensures !r.Unopened?
    decreases |w|
  {
    if w == "" then Good(Literal(lit), p)
    else if b[p] != w[0] then Bad(p + 1)
    else WordFrom(b, p + 1, w[1..], lit)
  }

  // A length of four bytes, low byte first, then that many bytes, and still some text after them.
  function BinaryFrom(b: string, p: nat): (r: Parsed)
    requires Terminated(b) && p < |b|
    ensures Extent(b, p, r)
  {
    if p + 3 >= |b| - 1 then Bad(p)
    else
      var n := LengthAt(b, p);
      if p + 4 + n >= |b| - 1 then Bad(p + 4)
      else Good(Leaf(Binary, Span(p + 4, n)), p + 4 + n)
  }

  function LengthAt(b: string, p: nat): nat
    requires p + 4 <= |b|
  {
    b[p] as int + 256 * b[p + 1] as int + 0x1_0000 * b[p + 2] as int + 0x100_0000 * b[p + 3] as int
  }

  // A value moves on, stays inside the text, and lies between where it started and where it ended.
  ghost predicate Extent(b: string, p: nat, r: Parsed) {
    !r.Unopened? && (r.Good? ==> p < r.p < |b| && Within(r.v, p, r.p))
  }

  // Strings, keys and numbers end before `to`, with room for the NUL that is put behind them when they end
  // at `to`.
  ghost predicate Within(j: Tree, from: nat, to: nat) {
    match j
    case Leaf(kind, s) => from <= s.at && s.at + s.len <= to && (kind == Text ==> s.at + s.len < to)
    case Literal(_) => true
    case Object(members) => forall m | m in members :: from <= m.key.at && m.key.at + m.key.len < to && Within(m.value, from, to)
    case Array(items) => forall i | i in items :: Within(i, from, to)
  }

  // The value at p that is no object and no array. Inside an object the words must not end the text.
  function Scalar(b: string, p: nat, keyed: bool): (r: Parsed)
    requires Terminated(b) && p < |b| - 1
    ensures Extent(b, p, r)
  {
    var c := b[p];
    if c == '"' then
      var q := TextEnd(b, p + 1);
      if q == |b| - 1 then Bad(q) else Good(Leaf(Text, Span(p + 1, q - (p + 1))), q + 1)
    else if c == '-' then
      if b[p + 1] == '0' then ZeroFrom(b, p, p + 2)
      else if Digit(b[p + 1]) then NumberFrom(b, p, p + 2)
      else Bad(p + 2)
    else if c == '0' then ZeroFrom(b, p, p + 1)
    else if Digit(c) then NumberFrom(b, p, p + 1)
    else if c == 't' then
      if keyed && p + 4 >= |b| - 1 then Bad(p + 1) else WordFrom(b, p + 1, "rue", True)
    else if c == 'f' then
      if keyed && p + 5 >= |b| - 1 then Bad(p + 1) else WordFrom(b, p + 1, "alse", False)
    else if c == 'n' then
      if b[p + 1] == 'b' then BinaryFrom(b, p + 2) else WordFrom(b, p + 1, "ull", Null)
    else Bad(p + 1)
  }

  // The value at p.
  function ValueAt(b: string, p: nat, keyed: bool): (r: Parsed)
    requires Terminated(b) && p < |b| - 1
    ensures !r.Unopened? && (r.Good? ==> p < r.p < |b|)
    decreases |b| - p, 0
  {
    if b[p] == '{' then Members(b, p + 1, [])
    else if b[p] == '[' then Elements(b, p + 1, [])
    else Scalar(b, p, keyed)
  }

  // Inside an array, where a value may start.
  function Elements(b: string, p: nat, items: seq<Tree>): (r: Parsed)
    requires Terminated(b) && p < |b|
    ensures !r.Unopened? && (r.Good? ==> p < r.p < |b|)
    decreases |b| - p, 1
  {
    if p == |b| - 1 then Bad(p)
    else if Space(b[p]) then Elements(b, p + 1, items)
    else if b[p] == ']' then Good(Array(items), p + 1)
    else
      var r := ValueAt(b, p, false);
      if r.Good? then AfterElement(b, r.p, items + [r.v]) else r
  }

  // Inside an array, after a value.
  function AfterElement(b: string, p: nat, items: seq<Tree>): (r: Parsed)
    requires Terminated(b) && p < |b|
    ensures !r.Unopened? && (r.Good? ==> p < r.p < |b|)
    decreases |b| - p, 1
  {
    if b[p] == ',' then Elements(b, p + 1, items)
    else if b[p] == ']' then Good(Array(items), p + 1)
    else if Space(b[p]) then AfterElement(b, p + 1, items)
    else Bad(p)
  }

  // Inside an object, where a key may start.
  function Members(b: string, p: nat, members: seq<Member<Span>>): (r: Parsed)
    requires Terminated(b) && p < |b|
    ensures !r.Unopened? && (r.Good? ==> p < r.p < |b|)
    decreases |b| - p, 1
  {
    if p == |b| - 1 then Bad(p)
    else if b[p] == '"' then
      var q := TextEnd(b, p + 1);
      MemberValue(b, ColonFrom(b, q + 1) + 1, members, Span(p + 1, q - (p + 1)))
    else if Space(b[p]) then Members(b, p + 1, members)
    else if b[p] == '}' then Good(Object(members), p + 1)
    else Bad(p + 1)
  }

  // Inside an object, after a key and its colon.
  function MemberValue(b: string, p: nat, members: seq<Member<Span>>, key: Span): (r: Parsed)
    requires Terminated(b)
    ensures !r.Unopened? && (r.Good? ==> p < r.p < |b|)
    decreases if p < |b| then |b| - p else 0, 1
  {
    if p >= |b| - 1 then Bad(p)
    else if Space(b[p]) then MemberValue(b, p + 1, members, key)
    else
      var r := ValueAt(b, p, true);
      if r.Good? then AfterMember(b, r.p, members + [Member(key, r.v)]) else r
  }

  // Inside an object, after a value.
  function AfterMember(b: string, p: nat, members: seq<Member<Span>>): (r: Parsed)
    requires Terminated(b) && p < |b|
    ensures !r.Unopened? && (r.Good? ==> p < r.p < |b|)
    decreases |b| - p, 1
  {
    if b[p] == ',' then Members(b, p + 1, members)
    else if b[p] == '}' then Good(Object(members), p + 1)
    else if Space(b[p]) then AfterMember(b, p + 1, members)
    else Bad(p)
  }

  // The whole text, from p on. What follows the first value is not looked at.
  function Top(b: string, p: nat): (r: Parsed)
    requires Terminated(b) && p < |b|
    decreases |b| - p
  {
    if p == |b| - 1 then Bad(p)
    else if Space(b[p]) then Top(b, p + 1)
    else if b[p] == ']' then Unopened
    else ValueAt(b, p, false)
  }

  // An empty text is reported one place late.
  function Document(b: string): (r: Parsed)
    requires Terminated(b)
  {
    if |b| == 1 then Bad(1) else Top(b, 0)
  }

  // The first character from p on that is not space is the closing bracket at q.
  ghost predicate ClosesAt(b: string, p: nat, q: nat) {
    p <= q < |b| - 1 && b[q] == ']' && forall k | p <= k < q :: Space(b[k])
  }

  lemma {:induction false} TopUnopened(b: string, p: nat)
    requires Terminated(b) && p < |b|
    ensures Top(b, p).Unopened? <==> exists q :: ClosesAt(b, p, q)
    decreases |b| - p
  {
    if p < |b| - 1 && Space(b[p]) {
      var p1 := p + 1;
      TopUnopened(b, p1);
      assert forall q | ClosesAt(b, p1, q) :: ClosesAt(b, p, q);
      assert forall q | ClosesAt(b, p, q) :: ClosesAt(b, p1, q);
    } else {
      assert ClosesAt(b, p, p) <==> p < |b| - 1 && b[p] == ']';
      assert forall q | ClosesAt(b, p, q) :: q == p;
    }
  }

  // The parser follows a missing array exactly when a text starts, spaces aside, with a closing bracket.
  lemma UnopenedExactly(b: string)
    requires Terminated(b)
    ensures Document(b).Unopened? <==> exists q :: ClosesAt(b, 0, q)
  {
    hide Top;
    TopUnopened(b, 0);
  }

  lemma LoneBracket()
    ensures Document("]\0").Unopened?
  {
    UnopenedExactly("]\0");
    assert ClosesAt("]\0", 0, 0);
  }
}

// JSON trees and their text. A char stands for one byte of the C program.
module Json {

  datatype Kind = Text | Number | Decimal | Binary
  datatype Lit = Null | False | Zero | True

  // `S` says where contents live: a place in the parsed buffer, or the characters themselves.
  datatype Json<S> =
    | Leaf(kind: Kind, s: S)
    | Literal(lit: Lit)
    | Object(members: seq<Member<S>>)
    | Array(items: seq<Json<S>>)

  datatype Member<S> = Member(key: S, value: Json<S>)

  // Escapes are read from the left, two characters each; no bare quote, no escape cut off.
  predicate WellEscaped(s: string) {
    s == [] ||
    (s[0] != '"' && if s[0] == '\\' then |s| >= 2 && WellEscaped(s[2..]) else WellEscaped(s[1..]))
  }

  predicate Digit(c: char) {
    '0' <= c <= '9'
  }

  predicate Digits(s: string) {
    forall k | 0 <= k < |s| :: Digit(s[k])
  }

  // The part before a decimal point: 0, or digits that do not start with 0; a minus sign may lead.
  predicate Whole(s: string) {
    s != [] && if s[0] == '-' then Unsigned(s[1..]) else Unsigned(s)
  }

  predicate Unsigned(s: string) {
    s != [] && Digits(s) && (s[0] == '0' ==> |s| == 1)
  }

  // The point stands at k, between a whole part and more digits.
  predicate PointAt(s: string, k: nat) {
    0 < k < |s| - 1 && s[k] == '.' && Whole(s[..k]) && Digits(s[k + 1..])
  }

  const LENGTH_LIMIT: nat := 0x1_0000_0000

  // Contents that the printer can write out as they stand.
  predicate Printable(j: Json<string>) {
    match j
    case Leaf(Text, s) => WellEscaped(s)
    case Leaf(Number, s) => Whole(s) && s != "0" && s != "-0"
    case Leaf(Decimal, s) => exists k | 0 <= k < |s| :: PointAt(s, k)
    case Leaf(Binary, s) => |s| < LENGTH_LIMIT
    case Literal(_) => true
    case Object(members) => forall m | m in members :: PrintableMember(m)
    case Array(items) => forall i | i in items :: Printable(i)
  }

  // A key is read back up to its first NUL.
  predicate PrintableMember(m: Member<string>) {
    WellEscaped(m.key) && '\0' !in m.key && Printable(m.value)
  }

  predicate NoNull(j: Json<string>) {
    match j
    case Leaf(_, _) => true
    case Literal(lit) => lit != Null
    case Object(members) => forall m | m in members :: NoNull(m.value)
    case Array(items) => forall i | i in items :: NoNull(i)
  }

  // ---------- the printer ----------

  // The four bytes of a length as they lie in memory, low byte first.
  function LengthBytes(n: nat): string
    requires n < LENGTH_LIMIT
  {
    [(n % 256) as char, (n / 256 % 256) as char, (n / 0x1_0000 % 256) as char, (n / 0x100_0000) as char]
  }

  // A null leaves no trace: its type number lies below those that are printed as their text.
  function Print(j: Json<string>): string
    requires Printable(j)
  {
    match j
    case Leaf(Text, s) => "\"" + s + "\""
    case Leaf(Binary, s) => "nb" + LengthBytes(|s|) + s
    case Leaf(_, s) => s
    case Literal(lit) => Word(lit)
    case Object(members) => "{" + PrintMembers(members) + "}"
    case Array(items) => "[" + PrintItems(items) + "]"
  }

  function Word(lit: Lit): string {
    match lit
    case Null => ""
    case False => "false"
    case Zero => "0"
    case True => "true"
  }

  function PrintMembers(members: seq<Member<string>>): string
    requires forall m | m in members :: PrintableMember(m)
  {
    if members == [] then ""
    else PrintMember(members[0]) + if |members| == 1 then "" else "," + PrintMembers(members[1..])
  }

  function PrintMember(m: Member<string>): string
    requires PrintableMember(m)
  {
    "\"" + m.key + "\":" + Print(m.value)
  }

  function PrintItems(items: seq<Json<string>>): string
    requires forall i | i in items :: Printable(i)
  {
    if items == [] then ""
    else Print(items[0]) + if |items| == 1 then "" else "," + PrintItems(items[1..])
  }

  // Appending the text of a tree to a buffer, as the printer walks it.
  method DumpToBuffer(bh: string, j: Json<string>) returns (r: string)
    requires Printable(j)
    ensures r == bh + Print(j)
    decreases j, 1
  {
    match j
    case Leaf(Text, s) => r := bh + ("\"" + s + "\"");
    case Leaf(Binary, s) => r := bh + ("nb" + LengthBytes(|s|) + s);
    case Leaf(Number, s) => r := bh + s;
    case Leaf(Decimal, s) => r := bh + s;
    case Literal(lit) => r := bh + Word(lit);
    case Object(members) => r := DumpObject(bh, members);
    case Array(items) => r := DumpArray(bh, items);
  }

  method DumpObject(bh: string, members: seq<Member<string>>) returns (r: string)
    requires forall m | m in members :: PrintableMember(m)
    ensures r == bh + ("{" + PrintMembers(members) + "}")
    decreases members, 0
  {
    hide Print, Printable, WellEscaped, PrintMember, PrintableMember;
    r := bh + "{";
    var n: nat := 0;
    while n < |members|
      invariant n <= |members| && r + PrintMembers(members[n..]) == bh + ("{" + PrintMembers(members))
    {
      MembersHead(members[n..]);
      assert members[n..][0] == members[n] && members[n..][1..] == members[n + 1..];
      ghost var r0 := r;
      assert members[n] in members;
      r := DumpMember(r, members[n]);
      if n + 1 < |members| {
        r := r + ",";
      }
      assert r + PrintMembers(members[n + 1..]) == r0 + PrintMembers(members[n..]);
      n := n + 1;
    }
    assert members[n..] == [];
    assert r == bh + ("{" + PrintMembers(members));
    r := r + "}";
  }

  method DumpMember(bh: string, m: Member<string>) returns (r: string)
    requires PrintableMember(m)
    ensures r == bh + PrintMember(m)
    decreases m, 2
  {
    r := bh + ("\"" + m.key + "\":");
    r := DumpToBuffer(r, m.value);
  }

  lemma MembersHead(members: seq<Member<string>>)
    requires members != [] && forall m | m in members :: PrintableMember(m)
    ensures PrintMembers(members) ==
      PrintMember(members[0]) + ((if |members| == 1 then "" else ",") + PrintMembers(members[1..]))
  {
    assert |members| == 1 ==> members[1..] == [];
  }

  lemma ItemsHead(items: seq<Json<string>>)
    requires items != [] && forall i | i in items :: Printable(i)
    ensures PrintItems(items) == Print(items[0]) + ((if |items| == 1 then "" else ",") + PrintItems(items[1..]))
  {
    assert |items| == 1 ==> items[1..] == [];
  }

  method DumpArray(bh: string, items: seq<Json<string>>) returns (r: string)
    requires forall i | i in items :: Printable(i)
    ensures r == bh + ("[" + PrintItems(items) + "]")
    decreases items, 0
  {
    hide Print, Printable;
    r := bh + "[";
    var n: nat := 0;
    while n < |items|
      invariant n <= |items| && r + PrintItems(items[n..]) == bh + ("[" + PrintItems(items))
    {
      ItemsHead(items[n..]);
      assert items[n..][0] == items[n] && items[n..][1..] == items[n + 1..];
      ghost var r0 := r;
      r := DumpToBuffer(r, items[n]);
      if n + 1 < |items| {
        r := r + ",";
      }
      assert r + PrintItems(items[n + 1..]) == r0 + PrintItems(items[n..]);
      n := n + 1;
    }
    assert items[n..] == [];
    assert r == bh + ("[" + PrintItems(items));
    r := r + "]";
  }
}

// The parser: one loop over the labels of the C function, with the chain of open containers as a stack, that
// writes NULs into the text behind keys, strings and numbers. It computes what the grammar says, and leaves
// everything that the tree points at readable.
module JsonParse {
  import opened Json
  import opened JsonGrammar

  // An open container. `Keyed` is an object whose next value is being read.
  datatype Frame =
    | InArray(items: seq<Tree>)
    | InObject(members: seq<Member<Span>>)
    | Keyed(members: seq<Member<Span>>, key: Span)

  // Where the parser stands: at one of its labels, with `ch` read already after a value. The innermost
  // container is the last one.
  datatype State =
    | StartKey(stack: seq<Frame>, p: nat)
    | StartKeyObject(stack: seq<Frame>, p: nat)
    | LookForKey(stack: seq<Frame>, p: nat, ch: char)
    | StartValue(stack: seq<Frame>, p: nat)
    | LookForNext(stack: seq<Frame>, p: nat, ch: char)
    | Done(r: Parsed)

  function Outer(stack: seq<Frame>): seq<Frame>
    requires stack != []
  {
    stack[..|stack| - 1]
  }

  function Inner(stack: seq<Frame>): Frame
    requires stack != []
  {
    stack[|stack| - 1]
  }

  // ---------- what a state stands for ----------

  // The containers around a value that has been read are read to their ends.
  function Resume(b: string, stack: seq<Frame>, r: Parsed): Parsed
    requires Terminated(b) && (r.Good? ==> r.p < |b|)
    decreases |stack|
  {
    if !r.Good? || stack == [] then r
    else
      match Inner(stack)
      case InArray(items) => Resume(b, Outer(stack), AfterElement(b, r.p, items + [r.v]))
      case Keyed(members, key) => Resume(b, Outer(stack), AfterMember(b, r.p, members + [Member(key, r.v)]))
      case InObject(_) => r
  }

  // What the rest of the run yields.
  function Outcome(b: string, st: State): Parsed
    requires Terminated(b) && Placed(b, st)
  {
    match st
    case StartKey(stack, p) => Resume(b, Outer(stack), Members(b, p, Inner(stack).members))
    case StartKeyObject(stack, p) =>
      Resume(b, Outer(stack), MemberValue(b, p, Inner(stack).members, Inner(stack).key))
    case LookForKey(stack, p, _) => Resume(b, Outer(stack), AfterMember(b, p, Inner(stack).members))
    case StartValue(stack, p) =>
      if stack == [] then Top(b, p) else Resume(b, Outer(stack), Elements(b, p, Inner(stack).items))
    case LookForNext(stack, p, _) => Resume(b, Outer(stack), AfterElement(b, p, Inner(stack).items))
    case Done(r) => r
  }

  // The innermost container fits the label.
  predicate Placed(b: string, st: State) {
    match st
    case StartKey(stack, p) => stack != [] && Inner(stack).InObject? && p < |b|
    case StartKeyObject(stack, p) => stack != [] && Inner(stack).Keyed? && p <= |b| + 1
    case LookForKey(stack, p, _) => stack != [] && Inner(stack).InObject? && p < |b|
    case StartValue(stack, p) => p < |b| && (stack == [] || Inner(stack).InArray?)
    case LookForNext(stack, p, _) => stack != [] && Inner(stack).InArray? && p < |b|
    case Done(_) => true
  }

  // ---------- the buffer ----------

  // The span lies before `d`, unharmed, with a NUL behind it.
  ghost predicate SpanHeld(b: string, cur: string, s: Span, d: nat) {
    s.at + s.len < d <= |cur| == |b| && cur[s.at..s.at + s.len] == b[s.at..s.at + s.len] && cur[s.at + s.len] == '\0'
  }

  // So does everything a tree points at; binary contents have no NUL.
  ghost predicate Held(b: string, cur: string, j: Tree, d: nat) {
    match j
    case Leaf(Binary, s) => s.at + s.len <= d <= |cur| == |b| && cur[s.at..s.at + s.len] == b[s.at..s.at + s.len]
    case Leaf(_, s) => SpanHeld(b, cur, s, d)
    case Literal(_) => true
    case Object(members) => forall m | m in members :: MemberHeld(b, cur, m, d)
    case Array(items) => forall i | i in items :: Held(b, cur, i, d)
  }

  ghost predicate MemberHeld(b: string, cur: string, m: Member<Span>, d: nat) {
    SpanHeld(b, cur, m.key, d) && Held(b, cur, m.value, d)
  }

  ghost predicate FrameHeld(b: string, cur: string, f: Frame, d: nat) {
    match f
    case InArray(items) => forall i | i in items :: Held(b, cur, i, d)
    case InObject(members) => forall m | m in members :: MemberHeld(b, cur, m, d)
    case Keyed(members, key) => SpanHeld(b, cur, key, d) && forall m | m in members :: MemberHeld(b, cur, m, d)
  }

  ghost predicate StackHeld(b: string, cur: string, stack: seq<Frame>, d: nat) {
    && (forall f | f in stack :: FrameHeld(b, cur, f, d))
    && (forall k | 0 <= k < |stack| - 1 :: !stack[k].InObject?)
  }

  // From `from` on the buffer still reads as it was given.
  ghost predicate Untouched(b: string, cur: string, from: nat) {
    |cur| == |b| && forall k | from <= k < |b| :: cur[k] == b[k]
  }

  ghost predicate Inv(b: string, cur: string, st: State) {
    && Terminated(b) && Placed(b, st) && |cur| == |b|
    && match st
       case StartKey(stack, p) => StackHeld(b, cur, stack, p) && Untouched(b, cur, p)
       case StartKeyObject(stack, p) => (p < |b| ==> StackHeld(b, cur, stack, p)) && Untouched(b, cur, p)
       case LookForKey(stack, p, ch) => StackHeld(b, cur, stack, p + 1) && Untouched(b, cur, p + 1) && ch == b[p]
       case StartValue(stack, p) => StackHeld(b, cur, stack, p) && Untouched(b, cur, p)
       case LookForNext(stack, p, ch) => StackHeld(b, cur, stack, p + 1) && Untouched(b, cur, p + 1) && ch == b[p]
       case Done(r) => r.Good? ==> Held(b, cur, r.v, |b|)
  }

  // Writes from `d` on harm nothing.
  lemma {:induction false} HeldKept(b: string, cur: string, cur1: string, j: Tree, d: nat, d1: nat)
    requires Held(b, cur, j, d) && d <= d1 <= |cur1| == |cur| == |b| && cur1[..d] == cur[..d]
    ensures Held(b, cur1, j, d1)
  {
    match j
    case Leaf(_, s) => SliceKept(cur, cur1, d, s);
    case Literal(_) =>
    case Object(members) =>
      forall m | m in members
        ensures MemberHeld(b, cur1, m, d1)
      {
        assert MemberHeld(b, cur, m, d);
        SliceKept(cur, cur1, d, m.key);
        HeldKept(b, cur, cur1, m.value, d, d1);
      }
    case Array(items) =>
      forall i | i in items
        ensures Held(b, cur1, i, d1)
      {
        HeldKept(b, cur, cur1, i, d, d1);
      }
  }

  lemma SliceKept(cur: string, cur1: string, d: nat, s: Span)
    requires d <= |cur1| == |cur| && cur1[..d] == cur[..d]
    ensures s.at + s.len <= d ==> cur1[s.at..s.at + s.len] == cur[s.at..s.at + s.len]
    ensures s.at + s.len < d ==> cur1[s.at + s.len] == cur[s.at + s.len]
  {
    assert forall k | 0 <= k < d :: cur1[k] == cur1[..d][k] == cur[..d][k] == cur[k];
  }

  lemma StackKept(b: string, cur: string, cur1: string, stack: seq<Frame>, d: nat, d1: nat)
    requires StackHeld(b, cur, stack, d) && d <= d1 <= |cur1| == |cur| == |b| && cur1[..d] == cur[..d]
    ensures StackHeld(b, cur1, stack, d1)
  {
    forall f | f in stack
      ensures FrameHeld(b, cur1, f, d1)
    {
      assert FrameHeld(b, cur, f, d);
      match f
      case InArray(items) =>
        forall i | i in items ensures Held(b, cur1, i, d1) { HeldKept(b, cur, cur1, i, d, d1); }
      case InObject(members) => MembersKept(b, cur, cur1, members, d, d1);
      case Keyed(members, key) =>
        SliceKept(cur, cur1, d, key);
        MembersKept(b, cur, cur1, members, d, d1);
    }
  }

  lemma MembersKept(b: string, cur: string, cur1: string, members: seq<Member<Span>>, d: nat, d1: nat)
    requires forall m | m in members :: MemberHeld(b, cur, m, d)
    requires d <= d1 <= |cur1| == |cur| == |b| && cur1[..d] == cur[..d]
    ensures forall m | m in members :: MemberHeld(b, cur1, m, d1)
  {
    forall m | m in members
      ensures MemberHeld(b, cur1, m, d1)
    {
      assert MemberHeld(b, cur, m, d);
      SliceKept(cur, cur1, d, m.key);
      HeldKept(b, cur, cur1, m.value, d, d1);
    }
  }

  // ---------- scanning ----------

  // The closing quote: one that follows an even number of backslashes, counted backwards.
  method ScanText(buf: array<char>, ghost b: string, p: nat) returns (q: nat)
    requires Terminated(b) && 0 < p < |b| && buf.Length == |b| && b[p - 1] == '"'
    requires Untouched(b, buf[..], p - 1)
    ensures q == TextEnd(b, p)
  {
    q := p;
    var ep := buf.Length - 1;
    while true
      invariant p <= q <= ep && TextEnd(b, p) == TextEnd(b, q)
      decreases ep - q
    {
      while q < ep && buf[q] != '"'
        invariant p <= q <= ep && TextEnd(b, p) == TextEnd(b, q)
      {
        q := q + 1;
      }
      if q >= ep { return; }
      var slashes := CountBack(buf, b, p, q);
      if slashes % 2 == 0 { return; }
      q := q + 1;
    }
  }

  method CountBack(buf: array<char>, ghost b: string, ghost p: nat, q: nat) returns (n: nat)
    requires 0 < p <= q < |b| == buf.Length && b[p - 1] == '"' && Untouched(b, buf[..], p - 1)
    ensures n == Slashes(b, q)
  {
    var backtrack := q - 1;
    while buf[backtrack] == '\\'
      invariant p - 1 <= backtrack < q && Slashes(b, q) == (q - 1 - backtrack) + Slashes(b, backtrack + 1)
      decreases backtrack
    {
      backtrack := backtrack - 1;
    }
    n := q - 1 - backtrack;
  }

  // ---------- values that are no containers ----------

  // What reading a value from p leaves behind.
  ghost predicate Reads(b: string, cur0: string, cur: string, p: nat, r: Parsed, ch: char) {
    && |cur| == |cur0| == |b| && p <= |b| && cur[..p] == cur0[..p]
    && (r.Good? ==> p < r.p < |b| && Untouched(b, cur, r.p + 1) && ch == b[r.p] && Held(b, cur, r.v, r.p + 1))
  }

  lemma Ends(b: string, cur0: string, cur: string, s: nat, q: nat, kind: Kind, p: nat, p1: nat)
    requires s <= q <= p1 < |b| && p <= s && p < p1 && q < |b| && Untouched(b, cur0, p) && kind != Binary
    requires cur == cur0[q := '\0']
    ensures Reads(b, cur0, cur, p, Good(Leaf(kind, Span(s, q - s)), p1), b[p1])
  {
    assert cur[s..q] == b[s..q];
    assert cur[..p] == cur0[..p];
  }

  // *p = 0
  method Terminate(buf: array<char>, q: nat)
    requires q < buf.Length
    modifies buf
    ensures buf[..] == old(buf[..])[q := '\0']
  {
    buf[q] := '\0';
  }

  method ReadText(buf: array<char>, ghost b: string, p: nat) returns (r: Parsed, ch: char)
    requires Terminated(b) && p < |b| - 1 && buf.Length == |b| && Untouched(b, buf[..], p) && b[p] == '"'
    modifies buf
    ensures r == Scalar(b, p, true) == Scalar(b, p, false) && Reads(b, old(buf[..]), buf[..], p, r, ch)
  {
    var q := ScanText(buf, b, p + 1);
    if q >= buf.Length - 1 { return Bad(q), '\0'; }
    ch := buf[q + 1];
    Terminate(buf, q);
    Ends(b, old(buf[..]), buf[..], p + 1, q, Text, p, q + 1);
    r := Good(Leaf(Text, Span(p + 1, q - (p + 1))), q + 1);
  }

  method SkipDigits(buf: array<char>, ghost b: string, p: nat) returns (q: nat)
    requires Terminated(b) && p < |b| == buf.Length && Untouched(b, buf[..], p)
    ensures q == DigitsEnd(b, p)
  {
    q := p;
    while Digit(buf[q])
      invariant p <= q < |b| && DigitsEnd(b, p) == DigitsEnd(b, q)
      decreases |b| - q
    {
      q := q + 1;
    }
  }

  method ReadNumber(buf: array<char>, ghost b: string, s: nat, p: nat) returns (r: Parsed, ch: char)
    requires Terminated(b) && s < p < |b| == buf.Length && Untouched(b, buf[..], s)
    modifies buf
    ensures r == NumberFrom(b, s, p) && Reads(b, old(buf[..]), buf[..], s, r, ch)
  {
    var q := SkipDigits(buf, b, p);
    ch := buf[q];
    if ch == '.' {
      r, ch := ReadDecimal(buf, b, s, q + 1);
      return;
    }
    Terminate(buf, q);
    Ends(b, old(buf[..]), buf[..], s, q, Number, s, q);
    r := Good(Leaf(Number, Span(s, q - s)), q);
  }

  method ReadDecimal(buf: array<char>, ghost b: string, s: nat, p: nat) returns (r: Parsed, ch: char)
    requires Terminated(b) && s < p < |b| == buf.Length && Untouched(b, buf[..], s)
    modifies buf
    ensures r == DecimalFrom(b, s, p) && Reads(b, old(buf[..]), buf[..], s, r, ch)
  {
    ch := buf[p];
    if !Digit(ch) { return Bad(p + 1), ch; }
    var q := SkipDigits(buf, b, p + 1);
    ch := buf[q];
    Terminate(buf, q);
    Ends(b, old(buf[..]), buf[..], s, q, Decimal, s, q);
    r := Good(Leaf(Decimal, Span(s, q - s)), q);
  }

  method ReadZero(buf: array<char>, ghost b: string, s: nat, p: nat) returns (r: Parsed, ch: char)
    requires Terminated(b) && s < p < |b| == buf.Length && Untouched(b, buf[..], s)
    modifies buf
    ensures r == ZeroFrom(b, s, p) && Reads(b, old(buf[..]), buf[..], s, r, ch)
  {
    ch := buf[p];
    if p + 1 < buf.Length - 1 && ch == '.' {
      r, ch := ReadDecimal(buf, b, s, p + 1);
    } else {
      r := Good(Literal(Zero), p);
    }
  }

  method ReadWord(buf: array<char>, ghost b: string, p: nat, w: string, lit: Lit) returns (r: Parsed, ch: char)
    requires Terminated(b) && 0 < p < |b| == buf.Length && Untouched(b, buf[..], p) && '\0' !in w
    ensures r == WordFrom(b, p, w, lit) && Reads(b, buf[..], buf[..], p - 1, r, ch)
  {
    var i := 0;
    while i < |w|
      invariant i <= |w| && p + i < |b| && WordFrom(b, p, w, lit) == WordFrom(b, p + i, w[i..], lit)
    {
      assert w[i..][0] == w[i] && w[i..][1..] == w[i + 1..] && w[i] in w;
      if buf[p + i] != w[i] { return Bad(p + i + 1), '\0'; }
      i := i + 1;
    }
    assert w[i..] == "";
    r, ch := Good(Literal(lit), p + i), buf[p + i];
  }

  method ReadBinary(buf: array<char>, ghost b: string, p: nat) returns (r: Parsed, ch: char)
    requires Terminated(b) && 0 < p < |b| == buf.Length && Untouched(b, buf[..], p)
    ensures r == BinaryFrom(b, p) && Reads(b, buf[..], buf[..], p - 1, r, ch)
  {
    ch := '\0';
    if p + 3 >= buf.Length - 1 { return Bad(p), ch; }
    var n: nat := buf[p] as int + 256 * buf[p + 1] as int + 0x1_0000 * buf[p + 2] as int + 0x100_0000 * buf[p + 3] as int;
    assert n == LengthAt(b, p);
    if p + 4 + n >= buf.Length - 1 { return Bad(p + 4), ch; }
    r, ch := Good(Leaf(Binary, Span(p + 4, n)), p + 4 + n), buf[p + 4 + n];
    assert buf[..][p + 4..p + 4 + n] == b[p + 4..p + 4 + n];
  }

  method ReadScalar(buf: array<char>, ghost b: string, p: nat, keyed: bool) returns (r: Parsed, ch: char)
    requires Terminated(b) && p < |b| - 1 && buf.Length == |b| && Untouched(b, buf[..], p)
    modifies buf
    ensures r == Scalar(b, p, keyed) && Reads(b, old(buf[..]), buf[..], p, r, ch)
  {
    hide Reads, Held;
    var c, ep := buf[p], buf.Length - 1;
    ch := '\0';
    if c == '"' {
      r, ch := ReadText(buf, b, p);
    } else if c == '-' {
      if buf[p + 1] == '0' {
        r, ch := ReadZero(buf, b, p, p + 2);
      } else if Digit(buf[p + 1]) {
        r, ch := ReadNumber(buf, b, p, p + 2);
      } else {
        r := Bad(p + 2);
        BadReads(b, buf[..], p, p + 2, ch);
      }
    } else if c == '0' {
      r, ch := ReadZero(buf, b, p, p + 1);
    } else if Digit(c) {
      r, ch := ReadNumber(buf, b, p, p + 1);
    } else if (c == 't' && keyed && p + 4 >= ep) || (c == 'f' && keyed && p + 5 >= ep) {
      r := Bad(p + 1);
      BadReads(b, buf[..], p, p + 1, ch);
    } else if c == 't' {
      r, ch := ReadWord(buf, b, p + 1, "rue", True);
    } else if c == 'f' {
      r, ch := ReadWord(buf, b, p + 1, "alse", False);
    } else if c == 'n' && buf[p + 1] == 'b' {
      r, ch := ReadBinary(buf, b, p + 2);
      ReadsMore(b, buf[..], p + 1, p, r, ch);
    } else if c == 'n' {
      r, ch := ReadWord(buf, b, p + 1, "ull", Null);
    } else {
      r := Bad(p + 1);
      BadReads(b, buf[..], p, p + 1, ch);
    }
  }

  lemma BadReads(b: string, cur: string, p: nat, at: nat, ch: char)
    requires p <= |b| == |cur|
    ensures Reads(b, cur, cur, p, Bad(at), ch)
  {
  }

  lemma ReadsMore(b: string, cur: string, p1: nat, p: nat, r: Parsed, ch: char)
    requires Reads(b, cur, cur, p1, r, ch) && p <= p1
    ensures Reads(b, cur, cur, p, r, ch)
  {
  }

  // ---------- the labels ----------

  // Where the parser goes once a value is complete: the container around it takes the value, or the run ends.
  function After(stack: seq<Frame>, v: Tree, p: nat, ch: char): State {
    if stack == [] || Inner(stack).InObject? then Done(Good(v, p))
    else if Inner(stack).InArray? then LookForNext(Outer(stack) + [Taken(Inner(stack), v)], p, ch)
    else LookForKey(Outer(stack) + [Taken(Inner(stack), v)], p, ch)
  }

  // Containers that wait for a value, and a value for them, hold in the buffer.
  ghost predicate ValueHeld(b: string, cur: string, stack: seq<Frame>, v: Tree, p: nat) {
    && Terminated(b) && p < |b| && Untouched(b, cur, p + 1) && StackHeld(b, cur, stack, p + 1)
    && (stack != [] ==> !Inner(stack).InObject?) && Held(b, cur, v, p + 1)
  }

  lemma AfterValue(b: string, cur: string, stack: seq<Frame>, v: Tree, p: nat)
    requires ValueHeld(b, cur, stack, v, p)
    ensures Inv(b, cur, After(stack, v, p, b[p]))
    ensures Outcome(b, After(stack, v, p, b[p])) == Resume(b, stack, Good(v, p))
  {
    hide Held;
    if stack == [] {
      HeldKept(b, cur, cur, v, p + 1, |b|);
    } else {
      var f := Taken(Inner(stack), v);
      assert FrameHeld(b, cur, Inner(stack), p + 1);
      TakenHeld(b, cur, Inner(stack), v, p + 1);
      Replaced(b, cur, stack, f, p + 1);
      assert Inner(Outer(stack) + [f]) == f;
    }
  }

  // A container that waited takes the value.
  function Taken(f: Frame, v: Tree): Frame {
    match f
    case InArray(items) => InArray(items + [v])
    case Keyed(members, key) => InObject(members + [Member(key, v)])
    case InObject(_) => f
  }

  lemma TakenHeld(b: string, cur: string, f: Frame, v: Tree, d: nat)
    requires FrameHeld(b, cur, f, d) && Held(b, cur, v, d)
    ensures FrameHeld(b, cur, Taken(f, v), d)
  {
  }

  // The innermost container gives way to another one.
  lemma Replaced(b: string, cur: string, stack: seq<Frame>, f: Frame, d: nat)
    requires stack != [] && StackHeld(b, cur, stack, d) && FrameHeld(b, cur, f, d)
    ensures StackHeld(b, cur, Outer(stack) + [f], d) && Outer(Outer(stack) + [f]) == Outer(stack)
    ensures StackHeld(b, cur, Outer(stack), d) && (Outer(stack) != [] ==> !Inner(Outer(stack)).InObject?)
  {
    assert forall g | g in Outer(stack) :: g in stack;
  }

  lemma Pushed(b: string, cur: string, stack: seq<Frame>, f: Frame, d: nat)
    requires StackHeld(b, cur, stack, d) && (stack != [] ==> !Inner(stack).InObject?) && FrameHeld(b, cur, f, d)
    ensures StackHeld(b, cur, stack + [f], d) && Outer(stack + [f]) == stack
  {
  }

  function Measure(b: string, st: State): int {
    if st.Done? then 0 else |b| + 3 - st.p
  }

  // A step goes on in the same run.
  ghost predicate Steps(b: string, cur: string, st: State, st1: State) {
    && Terminated(b) && Placed(b, st) && Inv(b, cur, st1) && Outcome(b, st1) == Outcome(b, st)
    && (st1.Done? || (!st.Done? && st.p < st1.p))
  }

  // Where a value is due, the outcome hangs on that value alone.
  lemma ValueDue(b: string, st: State)
    requires Terminated(b) && Placed(b, st) && (st.StartValue? || st.StartKeyObject?) && st.p < |b| - 1 && !Space(b[st.p])
    requires st.StartValue? ==> b[st.p] != ']'
    ensures Outcome(b, st) == Resume(b, st.stack, ValueAt(b, st.p, st.StartKeyObject?))
  {
    var r := ValueAt(b, st.p, st.StartKeyObject?);
    if st.stack != [] && !r.Good? {
      assert Resume(b, Outer(st.stack), r) == r;
    }
  }

  // A value has been read where one was due.
  lemma ValueRead(b: string, cur0: string, cur: string, st: State, r: Parsed)
    requires Inv(b, cur0, st) && (st.StartValue? || st.StartKeyObject?) && st.p < |b| - 1 && !Space(b[st.p])
    requires (st.StartValue? ==> b[st.p] != ']') && b[st.p] != '{' && b[st.p] != '['
    requires r == Scalar(b, st.p, st.StartKeyObject?)
    requires r.Good? ==> Reads(b, cur0, cur, st.p, r, b[r.p])
    requires |cur| == |b|
    ensures Steps(b, cur, st, if r.Good? then After(st.stack, r.v, r.p, b[r.p]) else Done(r))
  {
    ValueDue(b, st);
    if r.Good? {
      StackKept(b, cur0, cur, st.stack, st.p, r.p + 1);
      AfterValue(b, cur, st.stack, r.v, r.p);
    }
  }

  // A container opens where a value was due.
  lemma Opened(b: string, cur: string, st: State, f: Frame)
    requires Inv(b, cur, st) && (st.StartValue? || st.StartKeyObject?) && st.p < |b| - 1
    requires (b[st.p] == '{' && f == InObject([])) || (b[st.p] == '[' && f == InArray([]))
    ensures Steps(b, cur, st, if f.InObject? then StartKey(st.stack + [f], st.p + 1) else StartValue(st.stack + [f], st.p + 1))
  {
    hide Scalar, Terminated;
    ValueDue(b, st);
    StackKept(b, cur, cur, st.stack, st.p, st.p + 1);
    Pushed(b, cur, st.stack, f, st.p + 1);
    assert Inner(st.stack + [f]) == f;
  }

  // The innermost container ends at p - 1.
  lemma Closed(b: string, cur: string, stack: seq<Frame>, v: Tree, p: nat)
    requires Terminated(b) && 0 < p < |b| && stack != [] && StackHeld(b, cur, stack, p) && Untouched(b, cur, p)
    requires match Inner(stack)
             case InArray(items) => v == Array(items)
             case InObject(members) => v == Object(members)
             case Keyed(_, _) => false
    ensures Inv(b, cur, After(Outer(stack), v, p, b[p]))
    ensures Outcome(b, After(Outer(stack), v, p, b[p])) == Resume(b, Outer(stack), Good(v, p))
  {
    assert FrameHeld(b, cur, Inner(stack), p);
    HeldKept(b, cur, cur, v, p, p + 1);
    StackKept(b, cur, cur, stack, p, p + 1);
    Replaced(b, cur, stack, Inner(stack), p + 1);
    AfterValue(b, cur, Outer(stack), v, p);
  }

  lemma SpaceSkipped(b: string, cur: string, st: State)
    requires Inv(b, cur, st) && !st.Done? && st.p < |b| - 1 && Space(b[st.p])
    ensures Steps(b, cur, st, match st
                              case StartKey(stack, p) => StartKey(stack, p + 1)
                              case StartKeyObject(stack, p) => StartKeyObject(stack, p + 1)
                              case LookForKey(stack, p, _) => LookForKey(stack, p + 1, b[p + 1])
                              case StartValue(stack, p) => StartValue(stack, p + 1)
                              case LookForNext(stack, p, _) => LookForNext(stack, p + 1, b[p + 1]))
  {
    var d := if st.LookForKey? || st.LookForNext? then st.p + 1 else st.p;
    StackKept(b, cur, cur, st.stack, d, d + 1);
  }

  method StepStartKey(buf: array<char>, ghost b: string, st: State) returns (st1: State)
    requires st.StartKey? && Inv(b, buf[..], st) && buf.Length == |b|
    modifies buf
    ensures Steps(b, buf[..], st, st1)
  {
    var ep := buf.Length - 1;
    if st.p >= ep { return Done(Bad(st.p)); }
    var ch := buf[st.p];
    if ch == '"' {
      st1 := ReadKey(buf, b, st);
    } else if Space(ch) {
      SpaceSkipped(b, buf[..], st);
      st1 := StartKey(st.stack, st.p + 1);
    } else if ch == '}' {
      var v := Object(Inner(st.stack).members);
      StackKept(b, buf[..], buf[..], st.stack, st.p, st.p + 1);
      Closed(b, buf[..], st.stack, v, st.p + 1);
      st1 := After(Outer(st.stack), v, st.p + 1, buf[st.p + 1]);
    } else {
      st1 := Done(Bad(st.p + 1));
    }
  }

  method ReadKey(buf: array<char>, ghost b: string, st: State) returns (st1: State)
    requires st.StartKey? && Inv(b, buf[..], st) && buf.Length == |b| && st.p < |b| - 1 && b[st.p] == '"'
    modifies buf
    ensures Steps(b, buf[..], st, st1)
  {
    hide StackHeld, FrameHeld;
    ghost var cur0 := buf[..];
    var p, ep := st.p + 1, buf.Length - 1;
    var q := ScanText(buf, b, p);
    if q < ep {
      Terminate(buf, q);
    }
    var c := q + 1;
    while c < ep && buf[c] != ':'
      invariant q < c && c <= |b| && (c < |b| || c == q + 1) && ColonFrom(b, q + 1) == ColonFrom(b, c)
      decreases ep - c
    {
      c := c + 1;
    }
    var f := Keyed(Inner(st.stack).members, Span(p, q - p));
    st1 := StartKeyObject(Outer(st.stack) + [f], c + 1);
    assert Outer(st1.stack) == Outer(st.stack) && Inner(st1.stack) == f;
    if c + 1 < |b| {
      KeyKept(b, cur0, buf[..], st.stack, st.p, f, q, c + 1);
    }
  }

  lemma KeyKept(b: string, cur0: string, cur: string, stack: seq<Frame>, p: nat, f: Frame, q: nat, d: nat)
    requires stack != [] && Inner(stack).InObject? && StackHeld(b, cur0, stack, p) && Untouched(b, cur0, p)
    requires p < q < d <= |b| == |cur0| && cur == cur0[q := '\0'] && f == Keyed(Inner(stack).members, Span(p + 1, q - (p + 1)))
    ensures StackHeld(b, cur, Outer(stack) + [f], d)
  {
    assert cur[..p] == cur0[..p];
    StackKept(b, cur0, cur, stack, p, d);
    assert FrameHeld(b, cur, Inner(stack), d);
    assert cur[p + 1..q] == b[p + 1..q];
    Replaced(b, cur, stack, f, d);
  }

  method StepStartKeyObject(buf: array<char>, ghost b: string, st: State) returns (st1: State)
    requires st.StartKeyObject? && Inv(b, buf[..], st) && buf.Length == |b|
    modifies buf
    ensures Steps(b, buf[..], st, st1)
  {
    if st.p >= buf.Length - 1 { return Done(Bad(st.p)); }
    st1 := StepValue(buf, b, st);
  }

  method StepStartValue(buf: array<char>, ghost b: string, st: State) returns (st1: State)
    requires st.StartValue? && Inv(b, buf[..], st) && buf.Length == |b|
    modifies buf
    ensures Steps(b, buf[..], st, st1)
  {
    if st.p >= buf.Length - 1 { return Done(Bad(st.p)); }
    if buf[st.p] == ']' {
      if st.stack == [] { return Done(Unopened); }
      var v := Array(Inner(st.stack).items);
      StackKept(b, buf[..], buf[..], st.stack, st.p, st.p + 1);
      Closed(b, buf[..], st.stack, v, st.p + 1);
      st1 := After(Outer(st.stack), v, st.p + 1, buf[st.p + 1]);
    } else {
      st1 := StepValue(buf, b, st);
    }
  }

  // The cases that both labels at which a value starts have.
  method StepValue(buf: array<char>, ghost b: string, st: State) returns (st1: State)
    requires Inv(b, buf[..], st) && (st.StartValue? || st.StartKeyObject?) && buf.Length == |b| && st.p < |b| - 1
    requires st.StartValue? ==> b[st.p] != ']'
    modifies buf
    ensures Steps(b, buf[..], st, st1)
  {
    var ch := buf[st.p];
    if Space(ch) {
      SpaceSkipped(b, buf[..], st);
      st1 := if st.StartValue? then StartValue(st.stack, st.p + 1) else StartKeyObject(st.stack, st.p + 1);
    } else if ch == '{' {
      Opened(b, buf[..], st, InObject([]));
      st1 := StartKey(st.stack + [InObject([])], st.p + 1);
    } else if ch == '[' {
      Opened(b, buf[..], st, InArray([]));
      st1 := StartValue(st.stack + [InArray([])], st.p + 1);
    } else {
      ghost var cur0 := buf[..];
      var r;
      r, ch := ReadScalar(buf, b, st.p, st.StartKeyObject?);
      ValueRead(b, cur0, buf[..], st, r);
      st1 := if r.Good? then After(st.stack, r.v, r.p, ch) else Done(r);
    }
  }

  method StepLook(buf: array<char>, ghost b: string, st: State) returns (st1: State)
    requires (st.LookForKey? || st.LookForNext?) && Inv(b, buf[..], st) && buf.Length == |b|
    ensures Steps(b, buf[..], st, st1)
  {
    hide StackHeld, FrameHeld;
    var p, inner := st.p, Inner(st.stack);
    if st.ch == ',' {
      st1 := if st.LookForKey? then StartKey(st.stack, p + 1) else StartValue(st.stack, p + 1);
    } else if st.ch == (if st.LookForKey? then '}' else ']') {
      var v := if st.LookForKey? then Object(inner.members) else Array(inner.items);
      Closed(b, buf[..], st.stack, v, p + 1);
      st1 := After(Outer(st.stack), v, p + 1, buf[p + 1]);
    } else if Space(st.ch) {
      SpaceSkipped(b, buf[..], st);
      st1 := if st.LookForKey? then LookForKey(st.stack, p + 1, buf[p + 1]) else LookForNext(st.stack, p + 1, buf[p + 1]);
    } else {
      st1 := Done(Bad(p));
    }
  }

  // The whole run, for every text: the grammar's result, with all that the tree points at in place.
  method Parse(buf: array<char>) returns (r: Parsed)
    requires Terminated(buf[..])
    modifies buf
    ensures r == Document(old(buf[..]))
    ensures r.Good? ==> Held(old(buf[..]), buf[..], r.v, buf.Length)
  {
    hide Inv, Outcome, Held;
    ghost var b := buf[..];
    if buf.Length == 1 { return Bad(1); }
    var st := if buf[0] != '{' then StartValue([], 0) else StartKey([InObject([])], 1);
    Starts(b, st);
    while !st.Done?
      invariant |b| == buf.Length && Inv(b, buf[..], st) && Placed(b, st) && Outcome(b, st) == Document(b)
      decreases Measure(b, st), !st.Done?
    {
      InvPlaced(b, buf[..], st);
      if st.StartKey? {
        st := StepStartKey(buf, b, st);
      } else if st.StartKeyObject? {
        st := StepStartKeyObject(buf, b, st);
      } else if st.StartValue? {
        st := StepStartValue(buf, b, st);
      } else {
        st := StepLook(buf, b, st);
      }
      InvPlaced(b, buf[..], st);
    }
    RunDone(b, buf[..], st);
    r := st.r;
  }

  lemma InvPlaced(b: string, cur: string, st: State)
    requires Inv(b, cur, st)
    ensures Placed(b, st) && (!st.Done? ==> st.p < |b| + 3)
  {
  }

  lemma Starts(b: string, st: State)
    requires Terminated(b) && |b| > 1 && st == if b[0] != '{' then StartValue([], 0) else StartKey([InObject([])], 1)
    ensures Inv(b, b, st) && Outcome(b, st) == Document(b)
  {
    if b[0] == '{' {
      assert Outer(st.stack) == [];
    }
  }

  lemma RunDone(b: string, cur: string, st: State)
    requires Inv(b, cur, st) && st.Done?
    ensures Outcome(b, st) == st.r && (st.r.Good? ==> Held(b, cur, st.r.v, |b|))
  {
  }
}

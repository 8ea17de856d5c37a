// CSV fields: quoting them, and splitting a line in place (RFC 4180 section 2).
module Csv {
  import opened Slices

  // ---------- encoding ----------

  predicate NeedsQuotes(delim: char, s: string) {
    exists k | 0 <= k < |s| :: s[k] == delim || s[k] == '\n' || s[k] == '"'
  }

  // Every quote twice.
  function Doubled(s: string): (r: string)
    ensures |r| == |s| + Quotes(s)
  {
    if s == "" then "" else (if s[0] == '"' then "\"\"" else [s[0]]) + Doubled(s[1..])
  }

  function Quotes(s: string): nat {
    if s == "" then 0 else (if s[0] == '"' then 1 else 0) + Quotes(s[1..])
  }

  function Encoded(delim: char, s: string): string {
    if NeedsQuotes(delim, s) then "\"" + Doubled(s) + "\"" else s
  }

  function Joined(delim: char, fields: seq<string>): string
    requires fields != []
  {
    if |fields| == 1 then Encoded(delim, fields[0]) else Encoded(delim, fields[0]) + [delim] + Joined(delim, fields[1..])
  }

  lemma {:induction false} DoubledMore(s: string, c: char)
    ensures Doubled(s + [c]) == Doubled(s) + if c == '"' then "\"\"" else [c]
    ensures Quotes(s + [c]) == Quotes(s) + if c == '"' then 1 else 0
  {
    if s == "" {
      assert s + [c] == [c] && [c][1..] == "";
    } else {
      assert (s + [c])[1..] == s[1..] + [c];
      DoubledMore(s[1..], c);
    }
  }

  // A field is written as it is exactly when it has no delimiter, line feed or quote; else in quotes.
  lemma EncodedPlain(delim: char, s: string)
    ensures Encoded(delim, s) == s <==> delim !in s && '\n' !in s && '"' !in s
    ensures Encoded(delim, s) != s ==> |Encoded(delim, s)| == |s| + Quotes(s) + 2 && Encoded(delim, s)[0] == '"'
  {
  }

  // The buffer has room for the quotes that were counted, two more around the field, and the NUL.
  method Encode(delim: char, s: string) returns (r: string)
    ensures r == Encoded(delim, s)
  {
    var p: nat := 0;
    while p < |s| && s[p] != delim && s[p] != '\n' && s[p] != '"'
      invariant p <= |s| && !NeedsQuotes(delim, s[..p])
    {
      p := p + 1;
    }
    assert s[..|s|] == s;
    if p == |s| { return s; }
    assert NeedsQuotes(delim, s);
    var num: nat := 0;
    p := 0;
    while p < |s|
      invariant p <= |s| && num == Quotes(s[..p])
    {
      assert s[..p + 1] == s[..p] + [s[p]];
      DoubledMore(s[..p], s[p]);
      if s[p] == '"' { num := num + 1; }
      p := p + 1;
    }
    assert s[..p] == s;
    r := Quoted(s, num);
  }

  method Quoted(s: string, num: nat) returns (r: string)
    requires num == Quotes(s)
    ensures r == "\"" + Doubled(s) + "\""
  {
    hide Quotes, Doubled;
    var res := new char[|s| + 3 + num](_ => '\0');
    ghost var out := Begun(s);
    Set(res, 0, '"');
    var wp, p := 1, 0;
    assert s[..0] == "";
    while p < |s|
      invariant 0 <= p <= |s| && 1 <= wp == 1 + p + Quotes(s[..p]) && Quotes(s[..p]) <= num
      invariant res.Length == |s| + 3 + num && res[..wp] == out && Opened(s, p, out)
    {
      QuotesSoFar(s, p + 1);
      OneDoubled(s, p, out);
      out := out + if s[p] == '"' then "\"\"" else [s[p]];
      if s[p] == '"' {
        Set(res, wp, '"');
        wp := wp + 1;
      }
      Set(res, wp, s[p]);
      wp := wp + 1;
      p := p + 1;
    }
    assert s[..p] == s;
    Set(res, wp, '"');
    r := res[..wp + 1];
    assert r == out + "\"";
    Closed(s, p, out);
  }

  ghost predicate Opened(s: string, p: nat, out: string) {
    p <= |s| && out == "\"" + Doubled(s[..p])
  }

  lemma Begun(s: string) returns (out: string)
    ensures out == ['"'] && Opened(s, 0, out) && Quotes("") == 0
  {
    out := ['"'];
    assert s[..0] == "";
  }

  lemma OneDoubled(s: string, p: nat, out: string)
    requires p < |s| && Opened(s, p, out)
    ensures Opened(s, p + 1, out + if s[p] == '"' then "\"\"" else [s[p]])
    ensures Quotes(s[..p + 1]) == Quotes(s[..p]) + if s[p] == '"' then 1 else 0
  {
    hide Doubled;
    assert s[..p + 1] == s[..p] + [s[p]];
    DoubledMore(s[..p], s[p]);
  }

  lemma Closed(s: string, p: nat, out: string)
    requires Opened(s, p, out) && p == |s|
    ensures out + "\"" == "\"" + Doubled(s) + "\""
  {
    assert s[..p] == s;
  }

  lemma {:induction false} QuotesSoFar(s: string, p: nat)
    requires p <= |s|
    ensures Quotes(s[..p]) <= Quotes(s)
  {
    if p > 0 {
      assert s[..p][1..] == s[1..][..p - 1];
      QuotesSoFar(s[1..], p - 1);
    }
  }

  // ---------- splitting ----------

  // The fields from p on, the first of which has `cur` already. None: a quote is left open, and the scan runs
  // off the end. `b` is the line with its NUL.
  datatype Fields = Some(fields: seq<string>) | None

  function Behind(f: string, r: Fields): Fields {
    if r.Some? then Some([f] + r.fields) else r
  }

  function Split(delim: char, b: string, p: nat, cur: string, quoted: bool): (r: Fields)
    ensures r.Some? ==> r.fields != []
    decreases |b| - p
  {
    if p >= |b| then None
    else if quoted then
      if b[p] == '\0' then None
      else if b[p] != '"' then Split(delim, b, p + 1, cur + [b[p]], true)
      else if p + 1 < |b| && b[p + 1] == '"' then Split(delim, b, p + 2, cur + "\"", true)
      else Split(delim, b, p + 1, cur, false)
    else if b[p] == '\0' then Some([cur])
    else if b[p] == '"' then Split(delim, b, p + 1, cur, true)
    else if b[p] == delim then Behind(cur, Split(delim, b, p + 1, "", false))
    else Split(delim, b, p + 1, cur + [b[p]], false)
  }

  // A C string: one NUL, at the end.
  ghost predicate IsCString(b: string) {
    b != [] && b[|b| - 1] == '\0' && forall k | 0 <= k < |b| - 1 :: b[k] != '\0'
  }

  lemma QuotesFrom(b: string, p: nat)
    requires p < |b|
    ensures Quotes(b[p..]) == (if b[p] == '"' then 1 else 0) + Quotes(b[p + 1..])
  {
    assert b[p..][1..] == b[p + 1..];
  }

  // A line can be split exactly when its quotes are even in number: no quote is left open.
  lemma {:induction false} SplitsWhenEven(delim: char, b: string, p: nat, cur: string, quoted: bool)
    requires IsCString(b) && delim != '"' && delim != '\0' && p < |b|
    ensures Split(delim, b, p, cur, quoted).Some? <==> (Quotes(b[p..]) + if quoted then 1 else 0) % 2 == 0
    decreases |b| - p
  {
    hide Quotes;
    if b[p] == '\0' {
      NulIsLast(b, p);
    } else {
      NotNul(b, p);
      QuotesFrom(b, p);
      if quoted && b[p] == '"' && b[p + 1] == '"' {
        NotNul(b, p + 1);
        QuotesFrom(b, p + 1);
        SplitsWhenEven(delim, b, p + 2, cur + "\"", true);
      } else if b[p] == '"' {
        SplitsWhenEven(delim, b, p + 1, cur, !quoted);
      } else if !quoted && b[p] == delim {
        SplitsWhenEven(delim, b, p + 1, "", false);
      } else {
        SplitsWhenEven(delim, b, p + 1, cur + [b[p]], quoted);
      }
    }
  }

  lemma NulIsLast(b: string, p: nat)
    requires IsCString(b) && p < |b| && b[p] == '\0'
    ensures p == |b| - 1 && Quotes(b[p..]) == 0
  {
    assert b[p..] == ['\0'] && b[p..][1..] == "";
  }

  lemma NotNul(b: string, p: nat)
    requires IsCString(b) && p < |b| && b[p] != '\0'
    ensures p + 1 < |b|
  {
  }

  lemma LineSplits(delim: char, b: string)
    requires IsCString(b) && delim != '"' && delim != '\0'
    ensures Split(delim, b, 0, "", false).Some? <==> Quotes(b) % 2 == 0
  {
    assert b[0..] == b;
    SplitsWhenEven(delim, b, 0, "", false);
  }

  // A lone quote is left open.
  lemma LoneQuote(delim: char)
    requires delim != '"' && delim != '\0'
    ensures Split(delim, "\"\0", 0, "", false).None?
  {
    assert "\"\0"[1..] == "\0" && "\0"[1..] == "";
    LineSplits(delim, "\"\0");
  }

  // The number of fields still to come, or 0.
  function Count(r: Fields): nat {
    if r.Some? then |r.fields| else 0
  }

  lemma {:induction false} CountIgnoresContent(delim: char, b: string, p: nat, cur: string, cur1: string, quoted: bool)
    ensures Split(delim, b, p, cur, quoted).Some? <==> Split(delim, b, p, cur1, quoted).Some?
    ensures Count(Split(delim, b, p, cur, quoted)) == Count(Split(delim, b, p, cur1, quoted))
    decreases |b| - p
  {
    if p < |b| {
      if quoted {
        CountIgnoresContent(delim, b, p + 1, cur + [b[p]], cur1 + [b[p]], true);
        CountIgnoresContent(delim, b, p + 2, cur + "\"", cur1 + "\"", true);
        CountIgnoresContent(delim, b, p + 1, cur, cur1, false);
      } else {
        CountIgnoresContent(delim, b, p + 1, cur, cur1, true);
        CountIgnoresContent(delim, b, p + 1, cur + [b[p]], cur1 + [b[p]], false);
      }
    }
  }

  // The first pass.
  method CountFields(delim: char, buf: array<char>) returns (ok: bool, num: nat)
    requires IsCString(buf[..]) && delim != '"' && delim != '\0'
    ensures ok <==> Quotes(buf[..]) % 2 == 0
    ensures ok <==> Split(delim, buf[..], 0, "", false).Some?
    ensures num == Count(Split(delim, buf[..], 0, "", false)) || !ok
  {
    ghost var b := buf[..];
    LineSplits(delim, b);
    hide Quotes;
    num := 1;
    var p: nat := 0;
    while buf[p] != '\0'
      invariant p < |b| == buf.Length && num >= 1
      invariant Split(delim, b, 0, "", false).Some? <==> Split(delim, b, p, "", false).Some?
      invariant Split(delim, b, 0, "", false).Some? ==>
        Count(Split(delim, b, 0, "", false)) == num - 1 + Count(Split(delim, b, p, "", false))
      decreases |b| - p
    {
      if buf[p] == '"' {
        p := p + 1;
        p := SkipQuoted(delim, buf, b, p);
        if buf[p] == '\0' { return false, 0; }
        CountIgnoresContent(delim, b, p + 1, "", "", false);
      } else if buf[p] == delim {
        num := num + 1;
      } else {
        CountIgnoresContent(delim, b, p + 1, "" + [b[p]], "", false);
      }
      p := p + 1;
    }
    ok := true;
  }

  // From inside quotes to the quote that ends them, or to the NUL.
  method SkipQuoted(delim: char, buf: array<char>, ghost b: string, p0: nat) returns (p: nat)
    requires b == buf[..] && IsCString(b) && p0 < |b|
    ensures p0 <= p < |b| && (b[p] == '\0' || b[p] == '"')
    ensures b[p] == '\0' ==> Split(delim, b, p0, "", true).None?
    ensures b[p] == '"' ==> p + 1 < |b| && Same(Split(delim, b, p0, "", true), Split(delim, b, p + 1, "", false))
  {
    p := p0;
    while true
      invariant p0 <= p < |b| && Same(Split(delim, b, p0, "", true), Split(delim, b, p, "", true))
      decreases |b| - p
    {
      while buf[p] != '\0' && buf[p] != '"'
        invariant p0 <= p < |b| && Same(Split(delim, b, p0, "", true), Split(delim, b, p, "", true))
        decreases |b| - p
      {
        CountIgnoresContent(delim, b, p + 1, "" + [b[p]], "", true);
        p := p + 1;
      }
      if buf[p] == '\0' || buf[p + 1] != '"' { return; }
      CountIgnoresContent(delim, b, p + 2, "" + "\"", "", true);
      p := p + 2;
    }
  }

  ghost predicate Same(r: Fields, s: Fields) {
    (r.Some? <==> s.Some?) && Count(r) == Count(s)
  }

  // ---------- the second pass ----------

  ghost predicate FieldAt(buf: string, at: nat, f: string) {
    at + |f| < |buf| && buf[at..at + |f|] == f && buf[at + |f|] == '\0'
  }

  // The line is read up to s and written up to wp, never further; `done` are the fields before the last start.
  ghost predicate Between(b: string, buf: string, done: seq<string>, starts: seq<nat>, cur: string, s: nat, wp: nat) {
    && |buf| == |b| && |starts| == |done| + 1 && starts[|done|] <= wp <= s <= |b| && buf[starts[|done|]..wp] == cur
    && (forall k | s <= k < |b| :: buf[k] == b[k])
    && (forall i | 0 <= i < |done| :: starts[i] + |done[i]| < starts[|done|] && FieldAt(buf, starts[i], done[i]))
  }

  function Prepend(done: seq<string>, r: Fields): Fields {
    if r.Some? then Some(done + r.fields) else r
  }

  lemma FieldStays(buf: string, buf1: string, at: nat, f: string, wp: nat)
    requires FieldAt(buf, at, f) && at + |f| < wp <= |buf| == |buf1| && buf1[..wp] == buf[..wp]
    ensures FieldAt(buf1, at, f)
  {
    assert forall k | 0 <= k < wp :: buf1[k] == buf1[..wp][k] == buf[..wp][k] == buf[k];
  }

  // *wp++ = c, with the reading position beyond.
  lemma OnePut(b: string, buf: string, done: seq<string>, starts: seq<nat>, cur: string, s: nat, wp: nat, c: char, s1: nat)
    requires Between(b, buf, done, starts, cur, s, wp) && s < s1 <= |b|
    ensures Between(b, buf[wp := c], done, starts, cur + [c], s1, wp + 1)
  {
    var buf1 := buf[wp := c];
    assert buf1[..wp] == buf[..wp];
    assert buf1[starts[|done|]..wp + 1] == buf[starts[|done|]..wp] + [c];
    forall i | 0 <= i < |done|
      ensures FieldAt(buf1, starts[i], done[i])
    {
      FieldStays(buf, buf1, starts[i], done[i], wp);
    }
  }

  // *wp = 0: the current field is complete.
  lemma OneField(b: string, buf: string, done: seq<string>, starts: seq<nat>, cur: string, s: nat, wp: nat)
    requires Between(b, buf, done, starts, cur, s, wp) && s < |b|
    ensures Between(b, buf[wp := '\0'], done + [cur], starts + [s + 1], "", s + 1, s + 1)
    ensures FieldAt(buf[wp := '\0'], starts[|done|], cur)
  {
    var buf1 := buf[wp := '\0'];
    assert buf1[..wp] == buf[..wp];
    assert buf1[starts[|done|]..wp] == buf[starts[|done|]..wp];
    forall i | 0 <= i < |done|
      ensures FieldAt(buf1, starts[i], done[i])
    {
      FieldStays(buf, buf1, starts[i], done[i], wp);
    }
  }

  lemma Moved(b: string, buf: string, done: seq<string>, starts: seq<nat>, cur: string, s: nat, wp: nat, s1: nat)
    requires Between(b, buf, done, starts, cur, s, wp) && s <= s1 <= |b|
    ensures Between(b, buf, done, starts, cur, s1, wp)
  {
  }

  // Inside quotes, up to the quote that ends them.
  method CopyQuoted(delim: char, buf: array<char>, ghost b: string, ghost done: seq<string>, starts: seq<nat>, ghost cur0: string,
                    s0: nat, wp0: nat) returns (s: nat, wp: nat, ghost cur: string)
    requires Between(b, buf[..], done, starts, cur0, s0, wp0) && Split(delim, b, s0, cur0, true).Some?
    modifies buf
    ensures Between(b, buf[..], done, starts, cur, s, wp) && s0 <= s < |b| && b[s] == '"'
    ensures Split(delim, b, s0, cur0, true) == Split(delim, b, s + 1, cur, false)
  {
    hide Between;
    s, wp, cur := s0, wp0, cur0;
    while true
      invariant Between(b, buf[..], done, starts, cur, s, wp) && s0 <= s
      invariant Split(delim, b, s0, cur0, true) == Split(delim, b, s, cur, true)
      decreases |b| - s
    {
      InBounds(b, buf[..], done, starts, cur, s, wp);
      if buf[s] != '"' {
        OnePut(b, buf[..], done, starts, cur, s, wp, buf[s], s + 1);
        cur := cur + [buf[s]];
        Set(buf, wp, buf[s]);
        s, wp := s + 1, wp + 1;
      } else if s + 1 < buf.Length && buf[s + 1] == '"' {
        OnePut(b, buf[..], done, starts, cur, s, wp, '"', s + 2);
        cur := cur + "\"";
        Set(buf, wp, '"');
        s, wp := s + 2, wp + 1;
      } else {
        return;
      }
    }
  }

  lemma InBounds(b: string, buf: string, done: seq<string>, starts: seq<nat>, cur: string, s: nat, wp: nat)
    requires Between(b, buf, done, starts, cur, s, wp)
    ensures |buf| == |b| && wp <= s <= |b| && |starts| == |done| + 1 && forall k | s <= k < |b| :: buf[k] == b[k]
  {
  }

  method Set(buf: array<char>, wp: nat, c: char)
    requires wp < buf.Length
    modifies buf
    ensures buf[..] == old(buf[..])[wp := c]
  {
    buf[wp] := c;
  }

  // Splitting a line in place: every field starts where it is said to and ends with a NUL; the count of the
  // first pass is right. Nothing is split when a quote is left open.
  method SplitCsv(delim: char, buf: array<char>) returns (ok: bool, num: nat, starts: seq<nat>)
    requires IsCString(buf[..]) && delim != '"' && delim != '\0'
    modifies buf
    ensures ok <==> Quotes(old(buf[..])) % 2 == 0
    ensures ok <==> Split(delim, old(buf[..]), 0, "", false).Some?
    ensures ok ==>
      var fields := Split(delim, old(buf[..]), 0, "", false).fields;
      num == |starts| == |fields| && forall i | 0 <= i < num :: FieldAt(buf[..], starts[i], fields[i])
  {
    hide Between, FieldAt, Quotes;
    ghost var b := buf[..];
    ok, num := CountFields(delim, buf);
    if !ok { return false, 0, []; }
    ghost var all := Split(delim, b, 0, "", false);
    ghost var done: seq<string>, cur := [], "";
    var s: nat, wp: nat := 0, 0;
    starts := [0];
    AtStart(b);
    while buf[s] != '\0'
      invariant Between(b, buf[..], done, starts, cur, s, wp) && |b| == buf.Length && s < |b|
      invariant Split(delim, b, s, cur, false).Some? && all == Prepend(done, Split(delim, b, s, cur, false))
      decreases |b| - s
    {
      InBounds(b, buf[..], done, starts, cur, s, wp);
      if buf[s] == '"' {
        Moved(b, buf[..], done, starts, cur, s, wp, s + 1);
        s, wp, cur := CopyQuoted(delim, buf, b, done, starts, cur, s + 1, wp);
        Moved(b, buf[..], done, starts, cur, s, wp, s + 1);
        s := s + 1;
      } else if buf[s] == delim {
        OneField(b, buf[..], done, starts, cur, s, wp);
        Set(buf, wp, '\0');
        s := s + 1;
        starts := starts + [s];
        OneSplit(done, cur, Split(delim, b, s, "", false));
        done, cur := done + [cur], "";
        wp := s;
      } else {
        OnePut(b, buf[..], done, starts, cur, s, wp, buf[s], s + 1);
        cur := cur + [buf[s]];
        Set(buf, wp, buf[s]);
        s, wp := s + 1, wp + 1;
      }
      SomeInside(delim, b, s, cur);
    }
    InBounds(b, buf[..], done, starts, cur, s, wp);
    OneField(b, buf[..], done, starts, cur, s, wp);
    Set(buf, wp, '\0');
    AllFields(b, buf[..], done, starts, cur, s);
    assert all == Some(done + [cur]);
  }

  lemma AtStart(b: string)
    requires b != []
    ensures Between(b, b, [], [0], "", 0, 0)
  {
  }

  lemma OneSplit(done: seq<string>, cur: string, r: Fields)
    ensures Prepend(done, Behind(cur, r)) == Prepend(done + [cur], r)
  {
    if r.Some? { assert done + ([cur] + r.fields) == (done + [cur]) + r.fields; }
  }

  lemma SomeInside(delim: char, b: string, s: nat, cur: string)
    requires Split(delim, b, s, cur, false).Some?
    ensures s < |b|
  {
  }

  lemma AllFields(b: string, buf: string, done: seq<string>, starts: seq<nat>, cur: string, s: nat)
    requires Between(b, buf, done + [cur], starts + [s + 1], "", s + 1, s + 1) && |starts| == |done| + 1
    ensures forall i | 0 <= i < |starts| :: FieldAt(buf, starts[i], (done + [cur])[i])
  {
    hide FieldAt;
    var starts1, done1 := starts + [s + 1], done + [cur];
    forall i | 0 <= i < |starts|
      ensures FieldAt(buf, starts[i], done1[i])
    {
      assert starts1[i] == starts[i] && FieldAt(buf, starts1[i], done1[i]);
    }
  }

  // ---------- there and back ----------

  // Joined fields without NULs split into the same fields.
  lemma {:induction false} PlainReads(delim: char, b: string, p: nat, cur: string, s: string)
    requires At(b, p, s) && !NeedsQuotes(delim, s) && '\0' !in s && delim != '"'
    ensures Split(delim, b, p, cur, false) == Split(delim, b, p + |s|, cur + s, false)
    decreases |s|
  {
    if s == "" {
      assert cur + s == cur;
    } else {
      assert s == [s[0]] + s[1..];
      AtBoth(b, p, [s[0]], s[1..]);
      AtIndex(b, p, [s[0]], 0);
      PlainReads(delim, b, p + 1, cur + [s[0]], s[1..]);
      assert cur + [s[0]] + s[1..] == cur + s;
    }
  }

  lemma {:induction false} DoubledReads(delim: char, b: string, p: nat, cur: string, s: string)
    requires At(b, p, Doubled(s)) && '\0' !in s
    ensures Split(delim, b, p, cur, true) == Split(delim, b, p + |Doubled(s)|, cur + s, true)
    decreases |s|
  {
    hide At;
    if s == "" {
      assert cur + s == cur;
    } else {
      var e := if s[0] == '"' then "\"\"" else [s[0]];
      AtBoth(b, p, e, Doubled(s[1..]));
      AtIndex(b, p, e, 0);
      AtIndex(b, p, e, |e| - 1);
      DoubledReads(delim, b, p + |e|, cur + [s[0]], s[1..]);
      assert cur + [s[0]] + s[1..] == cur + s;
    }
  }

  // A part in quotes, anywhere in a field, stands for its content.
  lemma QuotedReads(delim: char, b: string, p: nat, cur: string, s: string)
    requires At(b, p, "\"" + Doubled(s) + "\"") && '\0' !in s && p + |Doubled(s)| + 2 < |b| && b[p + |Doubled(s)| + 2] != '"'
    ensures Split(delim, b, p, cur, false) == Split(delim, b, p + |Doubled(s)| + 2, cur + s, false)
  {
    hide At;
    var d := Doubled(s);
    Assoc("\"", d, "\"");
    AtBoth(b, p, "\"", d + "\"");
    AtBoth(b, p + 1, d, "\"");
    AtIndex(b, p, "\"", 0);
    AtIndex(b, p + 1 + |d|, "\"", 0);
    assert Split(delim, b, p, cur, false) == Split(delim, b, p + 1, cur, true);
    DoubledReads(delim, b, p + 1, cur, s);
  }

  lemma EncodedReads(delim: char, b: string, p: nat, s: string)
    requires At(b, p, Encoded(delim, s)) && '\0' !in s && delim != '"' && p + |Encoded(delim, s)| < |b|
    requires b[p + |Encoded(delim, s)|] != '"'
    ensures Split(delim, b, p, "", false) == Split(delim, b, p + |Encoded(delim, s)|, s, false)
  {
    hide At, NeedsQuotes;
    assert "" + s == s;
    if NeedsQuotes(delim, s) {
      QuotedReads(delim, b, p, "", s);
    } else {
      PlainReads(delim, b, p, "", s);
    }
  }

  lemma {:induction false} JoinedReads(delim: char, b: string, p: nat, fields: seq<string>)
    requires fields != [] && (forall f | f in fields :: '\0' !in f) && delim != '"' && delim != '\0'
    requires At(b, p, Joined(delim, fields) + "\0")
    ensures Split(delim, b, p, "", false) == Some(fields)
    decreases |fields|
  {
    hide At, Encoded;
    var e := Encoded(delim, fields[0]);
    assert fields[0] in fields;
    if |fields| == 1 {
      AtBoth(b, p, e, "\0");
      AtIndex(b, p + |e|, "\0", 0);
      EncodedReads(delim, b, p, fields[0]);
      assert fields == [fields[0]];
    } else {
      var rest := fields[1..];
      var more := Joined(delim, rest) + "\0";
      assert Joined(delim, fields) == e + [delim] + Joined(delim, rest);
      Assoc(e + [delim], Joined(delim, rest), "\0");
      Assoc(e, [delim], more);
      AtBoth(b, p, e, [delim] + more);
      AtBoth(b, p + |e|, [delim], more);
      AtIndex(b, p + |e|, [delim], 0);
      EncodedReads(delim, b, p, fields[0]);
      JoinedReads(delim, b, p + |e| + 1, rest);
      assert fields == [fields[0]] + rest;
    }
  }

  // For every non-empty list of fields without NULs.
  lemma SplitUndoesJoin(delim: char, fields: seq<string>)
    requires fields != [] && (forall f | f in fields :: '\0' !in f) && delim != '"' && delim != '\0'
    ensures Split(delim, Joined(delim, fields) + "\0", 0, "", false) == Some(fields)
  {
    var b := Joined(delim, fields) + "\0";
    assert b[0..|b|] == b;
    JoinedReads(delim, b, 0, fields);
  }

  // ---------- lines stay lines ----------

  lemma {:induction false} QuotesJoined(s: string, t: string)
    ensures Quotes(s + t) == Quotes(s) + Quotes(t)
  {
    if s == "" {
      assert s + t == t;
    } else {
      assert (s + t)[1..] == s[1..] + t;
      QuotesJoined(s[1..], t);
    }
  }

  // Between doubled quotes and other characters the quotes are even in number.
  lemma {:induction false} DoubledEven(s: string, k: nat)
    requires k <= |Doubled(s)| && (k < |Doubled(s)| ==> Doubled(s)[k] != '"')
    ensures Quotes(Doubled(s)[..k]) % 2 == 0
  {
    if k > 0 {
      var e := if s[0] == '"' then "\"\"" else [s[0]];
      var rest := Doubled(s[1..]);
      assert Doubled(s) == e + rest;
      assert k >= |e|;
      assert Doubled(s)[..k] == e + rest[..k - |e|];
      QuotesJoined(e, rest[..k - |e|]);
      assert Quotes(e) == if s[0] == '"' then 2 else 0 by {
        assert e[1..] == if s[0] == '"' then "\"" else "";
        assert s[0] == '"' ==> e[1..][1..] == "";
      }
      DoubledEven(s[1..], k - |e|);
    }
  }

  // A line feed stands behind an odd number of quotes.
  ghost predicate Enclosed(s: string) {
    forall k | 0 <= k < |s| && s[k] == '\n' :: Quotes(s[..k]) % 2 == 1
  }

  lemma EncodedEncloses(delim: char, s: string)
    requires delim != '\n'
    ensures Enclosed(Encoded(delim, s)) && Quotes(Encoded(delim, s)) % 2 == 0
  {
    if NeedsQuotes(delim, s) {
      var d := Doubled(s);
      var e := "\"" + d + "\"";
      forall k | 0 <= k < |e| && e[k] == '\n'
        ensures Quotes(e[..k]) % 2 == 1
      {
        assert e[..k] == "\"" + d[..k - 1];
        QuotesJoined("\"", d[..k - 1]);
        assert Quotes("\"") == 1 by { assert "\""[1..] == ""; }
        DoubledEven(s, k - 1);
      }
      DoubledEven(s, |d|);
      assert d[..|d|] == d && "\""[1..] == "";
      QuotesJoined("\"" + d, "\"");
      QuotesJoined("\"", d);
    } else {
      NoQuotes(delim, s);
    }
  }

  lemma {:induction false} NoQuotes(delim: char, s: string)
    requires !NeedsQuotes(delim, s)
    ensures Quotes(s) == 0
  {
    if s != "" {
      assert forall k | 0 <= k < |s[1..]| :: s[1..][k] == s[k + 1];
      NoQuotes(delim, s[1..]);
    }
  }

  lemma EnclosedJoined(s: string, t: string)
    requires Enclosed(s) && Enclosed(t) && Quotes(s) % 2 == 0
    ensures Enclosed(s + t) && Quotes(s + t) == Quotes(s) + Quotes(t)
  {
    forall k | 0 <= k < |s + t| && (s + t)[k] == '\n'
      ensures Quotes((s + t)[..k]) % 2 == 1
    {
      if k < |s| {
        assert (s + t)[..k] == s[..k];
      } else {
        assert (s + t)[..k] == s + t[..k - |s|];
        QuotesJoined(s, t[..k - |s|]);
      }
    }
    QuotesJoined(s, t);
  }

  // Every line feed of a joined line stands inside quotes, so that lines can be told apart.
  lemma {:induction false} LineFeedsInside(delim: char, fields: seq<string>)
    requires fields != [] && delim != '\n' && delim != '"'
    ensures Enclosed(Joined(delim, fields)) && Quotes(Joined(delim, fields)) % 2 == 0
  {
    hide Quotes, Enclosed, Encoded;
    EncodedEncloses(delim, fields[0]);
    if |fields| > 1 {
      OneDelimiter(delim);
      EnclosedJoined(Encoded(delim, fields[0]), [delim]);
      LineFeedsInside(delim, fields[1..]);
      EnclosedJoined(Encoded(delim, fields[0]) + [delim], Joined(delim, fields[1..]));
    }
  }

  lemma OneDelimiter(delim: char)
    requires delim != '\n' && delim != '"'
    ensures Enclosed([delim]) && Quotes([delim]) == 0
  {
    assert [delim][1..] == "";
  }
}

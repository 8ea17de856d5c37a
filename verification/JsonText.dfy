// Escaping of strings and its undoing, with \u escapes turned into UTF-8 (RFC 8259 section 7, RFC 3629 section 3).
module JsonText {
  import opened Options
  import opened Json

  // ---------- encoding ----------

  // The letter that stands for c behind a backslash, or NUL if c stands for itself.
  function Short(c: char): char {
    match c
    case '"' => '"'
    case '\\' => '\\'
    case '/' => '/'
    case '\U{0008}' => 'b'
    case '\U{000C}' => 'f'
    case '\n' => 'n'
    case '\r' => 'r'
    case '\t' => 't'
    case _ => '\0'
  }

  function Escape(c: char): string {
    if Short(c) == '\0' then [c] else ['\\', Short(c)]
  }

  function Encode(s: string): (r: string)
    ensures |s| <= |r| <= 2 * |s|
  {
    if s == "" then "" else Escape(s[0]) + Encode(s[1..])
  }

  lemma {:induction false} EncodeMore(s: string, c: char)
    ensures Encode(s + [c]) == Encode(s) + Escape(c)
  {
    if s != "" {
      assert (s + [c])[1..] == s[1..] + [c];
      EncodeMore(s[1..], c);
    }
  }

  // A string without special characters and NULs is handed back as it is; else the rest is copied with escapes.
  method EncodeText(s: string) returns (r: string)
    ensures r == Encode(s)
  {
    var p := 0;
    while p < |s| && s[p] != '\0' && Short(s[p]) == '\0'
      invariant p <= |s| && Encode(s[..p]) == s[..p]
    {
      assert s[..p + 1] == s[..p] + [s[p]];
      EncodeMore(s[..p], s[p]);
      p := p + 1;
    }
    assert s[..|s|] == s;
    if p == |s| { return s; }
    r := s[..p];
    while p < |s|
      invariant p <= |s| && r == Encode(s[..p])
    {
      assert s[..p + 1] == s[..p] + [s[p]];
      EncodeMore(s[..p], s[p]);
      r := r + Escape(s[p]);
      p := p + 1;
    }
  }

  // The encoded form never ends a string early.
  lemma {:induction false} EncodedIsWellEscaped(s: string)
    ensures WellEscaped(Encode(s)) && ('\0' !in s ==> '\0' !in Encode(s))
  {
    if s != "" {
      var rest := Encode(s[1..]);
      EncodedIsWellEscaped(s[1..]);
      if Short(s[0]) == '\0' {
        assert Encode(s)[1..] == rest;
      } else {
        assert Encode(s)[2..] == rest;
      }
    }
  }

  // ---------- \u escapes ----------

  function Hex(c: char): Option<nat> {
    if '0' <= c <= '9' then Some(c as int - '0' as int)
    else if 'A' <= c <= 'F' then Some(c as int - 'A' as int + 10)
    else if 'a' <= c <= 'f' then Some(c as int - 'a' as int + 10)
    else None
  }

  // Behind the end stands the NUL that ends the string.
  function Peek(s: string, k: nat): char {
    if k < |s| then s[k] else '\0'
  }

  // Four hexadecimal digits from k on.
  function Hex4(s: string, k: nat): (r: Option<nat>)
    ensures r.Some? ==> r.value < 0x1_0000 && k + 4 <= |s|
  {
    var a, b, c, d := Hex(Peek(s, k)), Hex(Peek(s, k + 1)), Hex(Peek(s, k + 2)), Hex(Peek(s, k + 3));
    if a.None? || b.None? || c.None? || d.None? then None
    else Some(((a.value * 16 + b.value) * 16 + c.value) * 16 + d.value)
  }

  const HIGH: nat := 0xD800
  const LOW: nat := 0xDC00
  const PAST: nat := 0xE000

  // The code point of the escape whose digits start at k, and the place after it. A first half of a pair must
  // be followed by an escaped second half.
  function CodePoint(s: string, k: nat): (r: Option<(nat, nat)>)
    ensures r.Some? ==> r.value.0 < 0x11_0000 && k + 4 <= r.value.1 <= |s|
  {
    var h := Hex4(s, k);
    if h.None? then None
    else if HIGH <= h.value < LOW then
      if Peek(s, k + 4) != '\\' || Peek(s, k + 5) != 'u' then None
      else
        var l := Hex4(s, k + 6);
        if l.None? || l.value < LOW || l.value >= PAST then None
        else Some(((h.value - HIGH) * 0x400 + (l.value - LOW) + 0x1_0000, k + 10))
    else Some((h.value, k + 4))
  }

  function Utf8(c: nat): (r: string)
    requires c < 0x11_0000
    ensures 1 <= |r| <= 4
  {
    if c < 0x80 then [c as char]
    else if c < 0x800 then [(c / 64 + 0xC0) as char, (c % 64 + 0x80) as char]
    else if c < 0x1_0000 then [(c / 4096 + 0xE0) as char, (c / 64 % 64 + 0x80) as char, (c % 64 + 0x80) as char]
    else
      [(c / 0x4_0000 + 0xF0) as char, (c / 4096 % 64 + 0x80) as char, (c / 64 % 64 + 0x80) as char, (c % 64 + 0x80) as char]
  }

  // ---------- decoding ----------

  // `Overrun`: fewer than six characters are left where six are copied.
  datatype Decoded = Plain(s: string) | Overrun

  function Behind(r: string, d: Decoded): Decoded {
    if d.Plain? then Plain(r + d.s) else d
  }

  // What a letter behind a backslash stands for; other letters vanish with it.
  function Long(c: char): string {
    match c
    case '"' => "\""
    case '\\' => "\\"
    case '/' => "/"
    case 'b' => "\U{0008}"
    case 'f' => "\U{000C}"
    case 'n' => "\n"
    case 'r' => "\r"
    case 't' => "\t"
    case _ => ""
  }

  // The text from p on.
  function DecodeFrom(s: string, p: nat): Decoded
    decreases |s| - p
  {
    if p >= |s| then Plain("")
    else if s[p] != '\\' then Behind([s[p]], DecodeFrom(s, p + 1))
    else if Peek(s, p + 1) != 'u' then Behind(Long(Peek(s, p + 1)), DecodeFrom(s, p + 2))
    else
      var u := CodePoint(s, p + 2);
      if u.Some? then Behind(Utf8(u.value.0), DecodeFrom(s, u.value.1))
      else if p + 6 > |s| then Overrun
      else Behind(s[p..p + 6], DecodeFrom(s, p + 6))
  }

  function Decode(s: string): Decoded {
    DecodeFrom(s, 0)
  }

  // Counting escapes as two characters, those with a `u` as six: one with a `u` goes beyond the end.
  predicate CutShort(s: string, p: nat)
    decreases |s| - p
  {
    p < |s| &&
    if s[p] != '\\' then CutShort(s, p + 1)
    else if Peek(s, p + 1) != 'u' then CutShort(s, p + 2)
    else p + 6 > |s| || CutShort(s, p + 6)
  }

  // Exactly then the decoder reads past the string, whatever the digits are and whether halves pair up.
  lemma {:induction false} OverrunsWhenCut(s: string, p: nat)
    ensures DecodeFrom(s, p).Overrun? <==> CutShort(s, p)
    decreases |s| - p
  {
    hide Utf8, Long, Hex4;
    if p < |s| {
      if s[p] != '\\' {
        OverrunsWhenCut(s, p + 1);
      } else if Peek(s, p + 1) != 'u' {
        OverrunsWhenCut(s, p + 2);
      } else if p + 6 <= |s| {
        OverrunsWhenCut(s, p + 6);
        if CodePoint(s, p + 2).Some? {
          OverrunsWhenCut(s, CodePoint(s, p + 2).value.1);
        }
      }
    }
  }

  // A string where four characters stand behind every `\u` is decoded.
  lemma {:induction false} NotCutShort(s: string, p: nat)
    requires forall k | 0 <= k < |s| - 1 && s[k] == '\\' && s[k + 1] == 'u' :: k + 6 <= |s|
    ensures !CutShort(s, p)
    decreases |s| - p
  {
    if p < |s| {
      if s[p] != '\\' {
        NotCutShort(s, p + 1);
      } else if Peek(s, p + 1) != 'u' {
        NotCutShort(s, p + 2);
      } else {
        NotCutShort(s, p + 6);
      }
    }
  }

  lemma CutEscape()
    ensures Decode("\\u").Overrun?
  {
    OverrunsWhenCut("\\u", 0);
  }

  method DecodeText(s: string) returns (r: Decoded)
    ensures r == Decode(s)
    ensures r.Overrun? <==> CutShort(s, 0)
  {
    OverrunsWhenCut(s, 0);
    hide *;
    Unmoved(s);
    var p := 0;
    while p < |s| && s[p] != '\\'
      invariant p <= |s| && Decode(s) == Behind(s[..p], DecodeFrom(s, p))
    {
      assert s[..p + 1] == s[..p] + [s[p]];
      DecodeOne(s, p, s[..p]);
      p := p + 1;
    }
    assert s[..|s|] == s;
    EndOf(s, |s|, s[..p]);
    if p == |s| { return Plain(s); }
    var rp := s[..p];
    while p < |s|
      invariant p <= |s| + 1 && Decode(s) == Behind(rp, DecodeFrom(s, p))
      decreases |s| - p
    {
      var ch := s[p];
      DecodeOne(s, p, rp);
      if ch != '\\' {
        rp := rp + [ch];
        p := p + 1;
      } else {
        ch := Peek(s, p + 1);
        if ch != 'u' {
          rp := rp + Long(ch);
          p := p + 2;
        } else {
          var u := CodePoint(s, p + 2);
          if u.Some? {
            rp := rp + Utf8(u.value.0);
            p := u.value.1;
          } else if p + 6 > |s| {
            return Overrun;
          } else {
            rp := rp + s[p..p + 6];
            p := p + 6;
          }
        }
      }
    }
    EndOf(s, p, rp);
    r := Plain(rp);
  }

  lemma Unmoved(s: string)
    ensures Decode(s) == Behind(s[..0], DecodeFrom(s, 0))
  {
  }

  lemma EndOf(s: string, p: nat, rp: string)
    requires p >= |s|
    ensures Behind(rp, DecodeFrom(s, p)) == Plain(rp)
  {
  }

  // One character or escape, behind what was decoded.
  lemma DecodeOne(s: string, p: nat, rp: string)
    requires p < |s|
    ensures s[p] != '\\' ==> Behind(rp, DecodeFrom(s, p)) == Behind(rp + [s[p]], DecodeFrom(s, p + 1))
    ensures s[p] == '\\' && Peek(s, p + 1) != 'u' ==>
      Behind(rp, DecodeFrom(s, p)) == Behind(rp + Long(Peek(s, p + 1)), DecodeFrom(s, p + 2))
    ensures s[p] == '\\' && Peek(s, p + 1) == 'u' ==>
      match CodePoint(s, p + 2)
      case Some(u) => p + 6 <= u.1 <= |s| && u.0 < 0x11_0000 && Behind(rp, DecodeFrom(s, p)) == Behind(rp + Utf8(u.0), DecodeFrom(s, u.1))
      case None =>
        Behind(rp, DecodeFrom(s, p)) == if p + 6 > |s| then Overrun else Behind(rp + s[p..p + 6], DecodeFrom(s, p + 6))
  {
    hide Long, Utf8, CodePoint, Peek;
    if s[p] != '\\' {
      BehindTwice(rp, [s[p]], DecodeFrom(s, p + 1));
    } else if Peek(s, p + 1) != 'u' {
      BehindTwice(rp, Long(Peek(s, p + 1)), DecodeFrom(s, p + 2));
    } else if CodePoint(s, p + 2).Some? {
      var u := CodePoint(s, p + 2).value;
      BehindTwice(rp, Utf8(u.0), DecodeFrom(s, u.1));
    } else if p + 6 <= |s| {
      BehindTwice(rp, s[p..p + 6], DecodeFrom(s, p + 6));
    }
  }

  lemma BehindTwice(a: string, b: string, d: Decoded)
    ensures Behind(a, Behind(b, d)) == Behind(a + b, d)
  {
    if d.Plain? { assert a + (b + d.s) == a + b + d.s; }
  }

  // ---------- decoding undoes encoding ----------

  lemma {:induction false} DecodeUndoes(all: string, p: nat, s: string)
    requires p <= |all| && all[p..] == Encode(s)
    ensures DecodeFrom(all, p) == Plain(s)
    decreases |s|
  {
    hide Escape, Short, Long;
    if s != "" {
      var e, rest := Escape(s[0]), s[1..];
      EscapeMeans(s[0]);
      assert all[p..][..|e|] == e && all[p + |e|..] == all[p..][|e|..] == Encode(rest);
      assert forall k | 0 <= k < |e| :: all[p + k] == all[p..][k] == e[k];
      DecodeUndoes(all, p + |e|, rest);
      assert [s[0]] + rest == s;
    }
  }

  lemma EscapeMeans(c: char)
    ensures 1 <= |Escape(c)| <= 2
    ensures |Escape(c)| == 1 ==> Escape(c) == [c] && c != '\\'
    ensures |Escape(c)| == 2 ==> Escape(c)[0] == '\\' && Escape(c)[1] != 'u' && Long(Escape(c)[1]) == [c]
  {
  }

  // For every string.
  lemma DecodeEncode(s: string)
    ensures Decode(Encode(s)) == Plain(s)
  {
    assert Encode(s)[0..] == Encode(s);
    DecodeUndoes(Encode(s), 0, s);
  }

  // ---------- UTF-8 ----------

  // One code point at the front of s, read as RFC 3629 section 4 has it: shortest forms, no surrogates.
  function ReadUtf8(s: string): Option<(nat, nat)> {
    var a, b, c, d := Peek(s, 0) as int, Peek(s, 1) as int - 0x80, Peek(s, 2) as int - 0x80, Peek(s, 3) as int - 0x80;
    if s == "" then None
    else if a < 0x80 then Some((a, 1))
    else if 0xC2 <= a <= 0xDF && |s| >= 2 && 0 <= b < 64 then Some(((a - 0xC0) * 64 + b, 2))
    else if 0xE0 <= a <= 0xEF && |s| >= 3 && 0 <= b < 64 && 0 <= c < 64 then
      var x := ((a - 0xE0) * 64 + b) * 64 + c;
      if x < 0x800 || HIGH <= x < PAST then None else Some((x, 3))
    else if 0xF0 <= a <= 0xF4 && |s| >= 4 && 0 <= b < 64 && 0 <= c < 64 && 0 <= d < 64 then
      var x := (((a - 0xF0) * 64 + b) * 64 + c) * 64 + d;
      if x < 0x1_0000 || x >= 0x11_0000 then None else Some((x, 4))
    else None
  }

  function CharOf(c: nat, n: nat): Option<(nat, nat)> {
    Some((c, n))
  }

  predicate Surrogate(c: nat) {
    HIGH <= c < PAST
  }

  // Valid UTF-8 comes out exactly for the code points that are no surrogates, and it reads back.
  lemma Utf8Reads(c: nat, rest: string)
    requires c < 0x11_0000
    ensures ReadUtf8(Utf8(c) + rest) == if Surrogate(c) then None else CharOf(c, |Utf8(c)|)
  {
    var u := Utf8(c);
    var s := u + rest;
    assert forall k | 0 <= k < |u| :: Peek(s, k) == u[k];
    if c >= 0x800 {
      assert c / 64 / 64 == c / 4096;
      if c >= 0x1_0000 { assert c / 4096 / 64 == c / 0x4_0000; }
    }
  }

  const LOWER := "0123456789abcdef"
  const UPPER := "0123456789ABCDEF"

  // The digit for v, of either case.
  predicate IsDigit(c: char, v: nat) {
    v < 16 && (c == LOWER[v] || c == UPPER[v])
  }

  // h is v, written with four hexadecimal digits, of either case each.
  predicate Digits4(h: string, v: nat) {
    && |h| == 4 && v < 0x1_0000
    && IsDigit(h[0], v / 4096) && IsDigit(h[1], v / 256 % 16) && IsDigit(h[2], v / 16 % 16) && IsDigit(h[3], v % 16)
  }

  lemma DigitRead(c: char, v: nat)
    ensures Hex(c) == Some(v) <==> IsDigit(c, v)
  {
    assert LOWER == ['0', '1', '2', '3', '4', '5', '6', '7', '8', '9', 'a', 'b', 'c', 'd', 'e', 'f'];
    assert UPPER == ['0', '1', '2', '3', '4', '5', '6', '7', '8', '9', 'A', 'B', 'C', 'D', 'E', 'F'];
  }

  // Four digits are read exactly as they are written.
  lemma Digits4Read(s: string, k: nat, v: nat)
    ensures Hex4(s, k) == Some(v) <==> k + 4 <= |s| && Digits4(s[k..k + 4], v)
  {
    hide Hex, IsDigit;
    DigitRead(Peek(s, k), v / 4096);
    DigitRead(Peek(s, k + 1), v / 256 % 16);
    DigitRead(Peek(s, k + 2), v / 16 % 16);
    DigitRead(Peek(s, k + 3), v % 16);
    if Hex4(s, k) == Some(v) {
      FourDigits(s, k, v);
    } else if k + 4 <= |s| && Digits4(s[k..k + 4], v) {
      assert s[k..k + 4] == [s[k], s[k + 1], s[k + 2], s[k + 3]];
      FromDigits(v);
    }
  }

  lemma FromDigits(v: nat)
    requires v < 0x1_0000
    ensures ((v / 4096 * 16 + v / 256 % 16) * 16 + v / 16 % 16) * 16 + v % 16 == v
  {
    assert v / 16 / 16 == v / 256 && v / 256 / 16 == v / 4096;
  }

  lemma FourDigits(s: string, k: nat, v: nat)
    requires Hex4(s, k) == Some(v)
    ensures k + 4 <= |s| && Digits4(s[k..k + 4], v)
  {
    hide IsDigit;
    var a, b, c, d := Hex(Peek(s, k)).value, Hex(Peek(s, k + 1)).value, Hex(Peek(s, k + 2)).value, Hex(Peek(s, k + 3)).value;
    DigitRead(s[k], a);
    DigitRead(s[k + 1], b);
    DigitRead(s[k + 2], c);
    DigitRead(s[k + 3], d);
    DigitsOf(a, b, c, d);
  }

  lemma DigitsOf(a: nat, b: nat, c: nat, d: nat)
    requires a < 16 && b < 16 && c < 16 && d < 16
    ensures var v := ((a * 16 + b) * 16 + c) * 16 + d; v / 4096 == a && v / 256 % 16 == b && v / 16 % 16 == c && v % 16 == d
  {
  }

  lemma Hex4At(s: string, k: nat, h: string, v: nat)
    requires Digits4(h, v) && k + 4 <= |s| && s[k..k + 4] == h
    ensures Hex4(s, k) == Some(v)
  {
    Digits4Read(s, k, v);
  }

  // Any other character among the four leaves an escape as it stands.
  lemma NoDigitStays(s: string, p: nat, k: nat)
    requires p + 6 <= |s| && s[p] == '\\' && s[p + 1] == 'u' && 2 <= k < 6 && s[p + k] !in LOWER && s[p + k] !in UPPER
    ensures DecodeFrom(s, p) == Behind(s[p..p + 6], DecodeFrom(s, p + 6))
  {
    hide Utf8, Hex4;
    if Hex4(s, p + 2).Some? {
      NoDigitRead(s, p + 2, k - 2);
      assert false;
    }
  }

  lemma NoDigitRead(s: string, k: nat, i: nat)
    requires k + 4 <= |s| && i < 4 && s[k + i] !in LOWER && s[k + i] !in UPPER
    ensures Hex4(s, k).None?
  {
    hide Hex4, Digits4, LOWER, UPPER;
    assert s[k..k + 4][i] == s[k + i];
    if Hex4(s, k).Some? {
      var v := Hex4(s, k).value;
      Digits4Read(s, k, v);
      DigitsIn(s[k..k + 4], v, i);
      assert false;
    }
  }

  lemma DigitsIn(h: string, v: nat, i: nat)
    requires Digits4(h, v) && i < 4
    ensures |h| == 4 && (h[i] in LOWER || h[i] in UPPER)
  {
    hide IsDigit;
    DigitIn(h[0], v / 4096);
    DigitIn(h[1], v / 256 % 16);
    DigitIn(h[2], v / 16 % 16);
    DigitIn(h[3], v % 16);
  }

  lemma DigitIn(c: char, v: nat)
    requires IsDigit(c, v)
    ensures c in LOWER || c in UPPER
  {
  }

  // An escape of a code point below 0x10000 that is no first half of a pair stands for its UTF-8 form. (A
  // second half that stands alone is let through.)
  lemma ShortEscape(t: string, h: string, v: nat, rest: string)
    requires Digits4(h, v) && !(HIGH <= v < LOW)
    ensures DecodeFrom(t + ("\\u" + h) + rest, |t|) == Behind(Utf8(v), DecodeFrom(t + ("\\u" + h) + rest, |t| + 6))
  {
    var s, k := t + ("\\u" + h) + rest, |t|;
    assert s[k] == '\\' && s[k + 1] == 'u' && s[k + 2..k + 6] == h;
    Hex4At(s, k + 2, h, v);
  }

  // Two escaped halves stand for the UTF-8 form of the code point that they make up.
  lemma PairEscape(t: string, h: string, l: string, c: nat, rest: string)
    requires 0x1_0000 <= c < 0x11_0000
    requires Digits4(h, HIGH + (c - 0x1_0000) / 0x400) && Digits4(l, LOW + (c - 0x1_0000) % 0x400)
    ensures DecodeFrom(t + ("\\u" + h + "\\u" + l) + rest, |t|) ==
      Behind(Utf8(c), DecodeFrom(t + ("\\u" + h + "\\u" + l) + rest, |t| + 12))
  {
    hide Utf8, CodePoint, Hex4, Digits4;
    var e := "\\u" + h + "\\u" + l;
    var s, k := t + e + rest, |t|;
    Digits4Length(h, HIGH + (c - 0x1_0000) / 0x400);
    Digits4Length(l, LOW + (c - 0x1_0000) % 0x400);
    assert s[k..k + 12] == e;
    assert forall i | 0 <= i < 12 :: s[k + i] == e[i];
    assert s[k + 2..k + 6] == h && s[k + 8..k + 12] == l;
    Hex4At(s, k + 2, h, HIGH + (c - 0x1_0000) / 0x400);
    Hex4At(s, k + 8, l, LOW + (c - 0x1_0000) % 0x400);
    PairCode(s, k + 2, c);
  }

  lemma Digits4Length(h: string, v: nat)
    requires Digits4(h, v)
    ensures |h| == 4
  {
  }

  lemma PairCode(s: string, k: nat, c: nat)
    requires 0x1_0000 <= c < 0x11_0000 && k + 10 <= |s| && s[k + 4] == '\\' && s[k + 5] == 'u'
    requires Hex4(s, k) == Some(HIGH + (c - 0x1_0000) / 0x400) && Hex4(s, k + 6) == Some(LOW + (c - 0x1_0000) % 0x400)
    ensures CodePoint(s, k).Some? && CodePoint(s, k).value.0 == c && CodePoint(s, k).value.1 == k + 10
  {
    hide Hex4;
  }

  // The second half of a pair, w, is escaped at the front of `rest`.
  ghost predicate LowHalfAt(rest: string, w: nat) {
    |rest| >= 6 && rest[0] == '\\' && rest[1] == 'u' && LOW <= w < PAST && Digits4(rest[2..6], w)
  }

  // A first half and a second half behind it make up their code point; without a second half, whatever else follows,
  // the first stays as it is.
  lemma FirstHalf(t: string, h: string, v: nat, rest: string)
    requires Digits4(h, v) && HIGH <= v < LOW
    ensures var s, k := t + ("\\u" + h) + rest, |t|;
      && (forall w: nat | LowHalfAt(rest, w) ::
            DecodeFrom(s, k) == Behind(Utf8((v - HIGH) * 0x400 + (w - LOW) + 0x1_0000), DecodeFrom(s, k + 12)))
      && ((forall w: nat :: !LowHalfAt(rest, w)) ==> DecodeFrom(s, k) == Behind("\\u" + h, DecodeFrom(s, k + 6)))
  {
    hide Utf8, Hex4, Digits4;
    Digits4Length(h, v);
    var e := "\\u" + h;
    var s, k := t + e + rest, |t|;
    assert s[k..k + 6] == e && s[k + 2..k + 6] == h;
    assert s[k] == '\\' && s[k + 1] == 'u';
    Hex4At(s, k + 2, h, v);
    SamePeeks(s, k + 6, rest);
    forall w: nat
      ensures Hex4(s, k + 8) == Some(w) <==> |rest| >= 6 && Digits4(rest[2..6], w)
    {
      Digits4Read(rest, 2, w);
    }
    assert Peek(s, k + 6) == Peek(rest, 0) && Peek(s, k + 7) == Peek(rest, 1);
    if Peek(s, k + 6) == '\\' && Peek(s, k + 7) == 'u' && Hex4(s, k + 8).Some? {
      var w := Hex4(s, k + 8).value;
      assert LOW <= w < PAST ==> LowHalfAt(rest, w);
    }
  }

  lemma SamePeeks(s: string, k: nat, rest: string)
    requires k + |rest| == |s| && s[k..] == rest
    ensures Peek(s, k) == Peek(rest, 0) && Peek(s, k + 1) == Peek(rest, 1) && Hex4(s, k + 2) == Hex4(rest, 2)
  {
    forall i: nat
      ensures Peek(s, k + i) == Peek(rest, i)
    {
      assert i < |rest| ==> s[k..][i] == s[k + i];
    }
    assert Peek(s, k + 2) == Peek(rest, 2) && Peek(s, k + 3) == Peek(rest, 3) && Peek(s, k + 4) == Peek(rest, 4) && Peek(s, k + 5) == Peek(rest, 5);
  }

  // ---------- the short escapes ----------

  // RFC 8259 section 7: the characters, by their numbers, that have an escape of two characters, and its letter.
  predicate HasEscape(c: char, e: char) {
    match c as int
    case 0x22 => e == '"'
    case 0x5C => e == '\\'
    case 0x2F => e == '/'
    case 0x8 => e == 'b'
    case 0xC => e == 'f'
    case 0xA => e == 'n'
    case 0xD => e == 'r'
    case 0x9 => e == 't'
    case _ => false
  }

  ghost predicate EscapeLetter(e: char) {
    exists c :: HasEscape(c, e)
  }

  lemma ShortIs(c: char, e: char)
    ensures HasEscape(c, e) <==> Short(c) == e != '\0'
    ensures HasEscape(c, e) ==> e != 'u'
  {
  }

  lemma LongIs(c: char, e: char)
    ensures HasEscape(c, e) <==> Long(e) == [c]
    ensures Long(e) == "" || EscapeLetter(e)
  {
    if Long(e) != "" {
      assert HasEscape(Long(e)[0], e);
    }
  }

  // Each is written as its escape and read from it.
  lemma EscapeReads(c: char, e: char, s: string, p: nat)
    requires HasEscape(c, e)
    ensures Encode([c]) == ['\\', e]
    ensures p + 2 <= |s| && s[p] == '\\' && s[p + 1] == e ==> DecodeFrom(s, p) == Behind([c], DecodeFrom(s, p + 2))
  {
    hide HasEscape, Short, Long;
    ShortIs(c, e);
    LongIs(c, e);
    EncodeOne(c);
  }

  // All others are written as they are, and an escape of any other letter but `u` vanishes.
  lemma NoEscape(c: char, s: string, p: nat)
    ensures (forall e :: !HasEscape(c, e)) ==> Encode([c]) == [c]
    ensures p + 2 <= |s| && s[p] == '\\' && s[p + 1] != 'u' && !EscapeLetter(s[p + 1]) ==>
      DecodeFrom(s, p) == DecodeFrom(s, p + 2)
  {
    hide HasEscape, Short, Long;
    ShortIs(c, Short(c));
    EncodeOne(c);
    if p + 2 <= |s| { LongIs(c, s[p + 1]); }
    NothingBehind(DecodeFrom(s, p + 2));
  }

  lemma EncodeOne(c: char)
    ensures Encode([c]) == Escape(c)
  {
    assert [c][1..] == "" && Escape(c) + "" == Escape(c);
  }

  lemma NothingBehind(d: Decoded)
    ensures Behind("", d) == d
  {
    if d.Plain? { assert "" + d.s == d.s; }
  }
}

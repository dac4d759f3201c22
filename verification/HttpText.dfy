// Bytes, C strings in a buffer, and the C library functions the parser calls.

module HttpText {

  const NUL: char := '\0'
  const CR: char := '\r'
  const LF: char := '\n'

  predicate IsBlank(c: char) { c == ' ' || c == '\t' }

  // ---------- C strings ----------

  /** The position of the first NUL at or after p, or the end of the buffer. */
  function TextEnd(buf: string, p: nat): (e: nat)
    requires p <= |buf|
    ensures p <= e <= |buf|
    ensures forall i | p <= i < e :: buf[i] != NUL
    ensures e < |buf| ==> buf[e] == NUL
    decreases |buf| - p
  {
    if p == |buf| || buf[p] == NUL then p else TextEnd(buf, p + 1)
  }

  /** The C string that starts at p. */
  function CString(buf: string, p: nat): (text: string)
    requires p <= |buf|
    ensures |text| == TextEnd(buf, p) - p && NUL !in text
  {
    buf[p..TextEnd(buf, p)]
  }

  lemma CStringIs(buf: string, p: nat, e: nat)
    requires p <= e <= |buf| && (e < |buf| ==> buf[e] == NUL)
    requires forall i | p <= i < e :: buf[i] != NUL
    ensures TextEnd(buf, p) == e && CString(buf, p) == buf[p..e]
  {
  }

  /** A C string that ends before position c is made of the bytes before c. */
  lemma CStringWithin(a: string, b: string, p: nat, c: nat)
    requires p < c <= |a| && c <= |b| && a[..c] == b[..c]
    requires exists i :: p <= i < c && a[i] == NUL
    ensures TextEnd(a, p) == TextEnd(b, p) < c && CString(a, p) == CString(b, p)
  {
    var e := TextEnd(a, p);
    assert e < c;
    assert forall i | 0 <= i < c :: a[i] == a[..c][i] == b[..c][i] == b[i];
    assert TextEnd(b, p) == e;
    assert a[p..e] == b[p..e];
  }

  lemma CStringSuffix(buf: string, p: nat, q: nat)
    requires p <= |buf| && p <= q <= TextEnd(buf, p)
    ensures TextEnd(buf, q) == TextEnd(buf, p) && CString(buf, q) == CString(buf, p)[q - p..]
  {
    CStringIs(buf, q, TextEnd(buf, p));
  }

  /** A NUL stored inside a C string makes two of it. */
  lemma CStringSplit(buf: string, p: nat, k: nat)
    requires p <= |buf| && k < |CString(buf, p)|
    ensures var cut, text := buf[p + k := NUL], CString(buf, p);
      && CString(cut, p) == text[..k]
      && CString(cut, p + k + 1) == text[k + 1..]
      && TextEnd(cut, p + k + 1) == TextEnd(buf, p)
  {
    var cut, e := buf[p + k := NUL], TextEnd(buf, p);
    CStringIs(cut, p, p + k);
    CStringIs(cut, p + k + 1, e);
    assert cut[p + k + 1..e] == buf[p..e][k + 1..];
    assert cut[p..p + k] == buf[p..e][..k];
  }

  lemma Slices(s: string, i: nat, j: nat)
    requires i + j <= |s|
    ensures s[i..][j..] == s[i + j..] && s[..i + j][i..] == s[i..i + j]
  {
  }

  // ---------- strpbrk, strspn, strchr ----------

  /** The first blank, or the length. */
  function FirstBlank(s: string): (k: nat)
    ensures k <= |s|
    ensures forall i | 0 <= i < k :: !IsBlank(s[i])
    ensures k < |s| ==> IsBlank(s[k])
  {
    if s == "" || IsBlank(s[0]) then 0 else 1 + FirstBlank(s[1..])
  }

  /** How many blanks the string starts with. */
  function BlankSpan(s: string): (k: nat)
    ensures k <= |s|
    ensures forall i | 0 <= i < k :: IsBlank(s[i])
    ensures k < |s| ==> !IsBlank(s[k])
  {
    if s == "" || !IsBlank(s[0]) then 0 else 1 + BlankSpan(s[1..])
  }

  function SkipBlanks(s: string): string { s[BlankSpan(s)..] }

  /** The first slash, or the length. */
  function FirstSlash(s: string): (k: nat)
    ensures k <= |s|
    ensures forall i | 0 <= i < k :: s[i] != '/'
    ensures k < |s| ==> s[k] == '/'
  {
    if s == "" || s[0] == '/' then 0 else 1 + FirstSlash(s[1..])
  }

  // ---------- strcasecmp, strncasecmp ----------

  function Lower(c: char): char {
    if 'A' <= c <= 'Z' then (c as int + 32) as char else c
  }

  predicate SameNoCase(a: string, b: string) {
    |a| == |b| && forall i | 0 <= i < |a| :: Lower(a[i]) == Lower(b[i])
  }

  /** Two bytes are taken for the same if they are, or are an ASCII letter in its two cases. */
  lemma {:induction false} NoCaseIs(a: string, b: string)
    ensures SameNoCase(a, b) <==> |a| == |b| && forall i | 0 <= i < |a| ::
      a[i] == b[i] ||
      ('A' <= a[i] <= 'Z' && b[i] as int - a[i] as int == 32) || ('a' <= a[i] <= 'z' && a[i] as int - b[i] as int == 32)
  {
    forall x: char, y: char
      ensures Lower(x) == Lower(y) <==>
        x == y || ('A' <= x <= 'Z' && y as int - x as int == 32) || ('a' <= x <= 'z' && x as int - y as int == 32)
    {
    }
  }

  predicate StartsNoCase(s: string, prefix: string): (r: bool)
    ensures r ==> |prefix| <= |s|
  {
    |prefix| <= |s| && SameNoCase(s[..|prefix|], prefix)
  }

  // ---------- atol, then conversion to int ----------

  predicate IsDigit(c: char) { '0' <= c <= '9' }

  predicate IsSpace(c: char) { c == ' ' || '\t' <= c <= '\r' }

  function SkipSpace(s: string): string {
    if s != "" && IsSpace(s[0]) then SkipSpace(s[1..]) else s
  }

  /** The value of the digits the string starts with, read after the value so far. */
  function DigitsValue(s: string, value: nat): nat {
    if s != "" && IsDigit(s[0]) then DigitsValue(s[1..], 10 * value + (s[0] as int - '0' as int)) else value
  }

  const LONG_MAX: int := 0x7fff_ffff_ffff_ffff
  const INT_MAX: int := 0x7fff_ffff

  /** atol of a 64-bit long, which saturates. */
  function Atol(s: string): int {
    var t := SkipSpace(s);
    if t != "" && t[0] == '-' then
      var v := -(DigitsValue(t[1..], 0) as int);
      if v < -LONG_MAX - 1 then -LONG_MAX - 1 else v
    else
      var v := if t != "" && t[0] == '+' then DigitsValue(t[1..], 0) else DigitsValue(t, 0);
      if v > LONG_MAX then LONG_MAX else v
  }

  /** Assigning a long to a 32-bit int keeps the low 32 bits. */
  function ToInt(v: int): (r: int)
    ensures -INT_MAX - 1 <= r <= INT_MAX && (v - r) % 0x1_0000_0000 == 0
    ensures -INT_MAX - 1 <= v <= INT_MAX ==> r == v
  {
    var w := v % 0x1_0000_0000;
    if w > INT_MAX then w - 0x1_0000_0000 else w
  }

  /** The decimal form of n. */
  function Decimal(n: nat): (s: string)
    ensures s != "" && forall i | 0 <= i < |s| :: IsDigit(s[i])
  {
    var d := ('0' as int + n % 10) as char;
    if n < 10 then [d] else Decimal(n / 10) + [d]
  }

  // ---------- what reading a number gives ----------

  function TenTo(k: nat): nat { if k == 0 then 1 else 10 * TenTo(k - 1) }

  predicate AllDigits(d: string) { forall i | 0 <= i < |d| :: '0' <= d[i] <= '9' }

  /** Every digit times its power of ten. */
  function PlaceValue(d: string): int
    requires AllDigits(d)
  {
    if d == "" then 0 else (d[0] as int - '0' as int) * TenTo(|d| - 1) + PlaceValue(d[1..])
  }

  /** What isspace accepts. */
  predicate AllWhite(s: string) {
    forall i | 0 <= i < |s| :: s[i] in {' ', '\t', '\n', 11 as char, 12 as char, '\r'}
  }

  predicate NoDigitFirst(s: string) { s != "" ==> !('0' <= s[0] <= '9') }

  lemma Spread(value: int, x: int, p: int)
    ensures (10 * value + x) * p == value * (10 * p) + x * p
  {
  }

  lemma {:induction false} DigitsValueIs(d: string, tail: string, value: nat)
    requires AllDigits(d) && NoDigitFirst(tail)
    ensures DigitsValue(d + tail, value) == value * TenTo(|d|) + PlaceValue(d)
    decreases |d|
  {
    var s := d + tail;
    if d == "" {
      assert s == tail;
    } else {
      var x, p := d[0] as int - '0' as int, TenTo(|d| - 1);
      assert s[0] == d[0] && s[1..] == d[1..] + tail;
      DigitsValueIs(d[1..], tail, 10 * value + x);
      assert DigitsValue(s, value) == DigitsValue(s[1..], 10 * value + x);
      assert PlaceValue(d) == x * p + PlaceValue(d[1..]) && TenTo(|d|) == 10 * p;
      hide *;
      Spread(value, x, p);
    }
  }

  lemma {:induction false} SpacesSkipped(w: string, s: string)
    requires AllWhite(w) && (s != "" ==> !IsSpace(s[0]))
    ensures SkipSpace(w + s) == s
    decreases |w|
  {
    var t := w + s;
    if w == "" {
      assert t == s;
    } else {
      assert t[0] == w[0] && t[1..] == w[1..] + s;
      SpacesSkipped(w[1..], s);
    }
  }

  function Saturated(v: int): int {
    if v > 0x7fff_ffff_ffff_ffff then 0x7fff_ffff_ffff_ffff
    else if v < -0x8000_0000_0000_0000 then -0x8000_0000_0000_0000 else v
  }

  /**
   * White space, a sign, digits, and what ends the number; with neither sign
   * nor digit, no white space or sign is left.
   */
  predicate NumberShape(w: string, sign: string, d: string, tail: string) {
    && AllWhite(w) && sign in ["", "+", "-"] && AllDigits(d) && NoDigitFirst(tail)
    && (sign == d == "" && tail != "" ==> !AllWhite(tail[..1]) && tail[0] != '+' && tail[0] != '-')
  }

  /** The number that such a text says, as a long. */
  function NumberSaid(sign: string, d: string): int
    requires AllDigits(d)
  {
    Saturated(if sign == "-" then -PlaceValue(d) else PlaceValue(d))
  }

  /** atol reads the digits behind white space and a sign, whatever ends them. */
  lemma {:induction false} AtolIs(w: string, sign: string, d: string, tail: string)
    requires NumberShape(w, sign, d, tail)
    ensures Atol(w + sign + d + tail) == NumberSaid(sign, d)
  {
    hide DigitsValue, PlaceValue, TenTo, SkipSpace;
    var rest := sign + d + tail;
    assert w + sign + d + tail == w + rest;
    assert rest != "" ==> !IsSpace(rest[0]) by {
      if sign == "" && d == "" && tail != "" { assert rest[0] == tail[0] == tail[..1][0]; }
    }
    SpacesSkipped(w, rest);
    DigitsValueIs(d, tail, 0);
    if sign == "" {
      assert rest == d + tail;
      assert rest != "" ==> rest[0] != '-' && rest[0] != '+';
    } else {
      assert rest[0] == sign[0] && rest[1..] == d + tail;
    }
  }

  lemma {:induction false} PlaceValueAppend(d: string, c: char)
    requires AllDigits(d) && IsDigit(c)
    ensures AllDigits(d + [c]) && PlaceValue(d + [c]) == 10 * PlaceValue(d) + (c as int - '0' as int)
    decreases |d|
  {
    var s := d + [c];
    assert AllDigits(s);
    if d == "" {
      assert s[1..] == "" && TenTo(0) == 1;
    } else {
      var x, p := d[0] as int - '0' as int, TenTo(|d| - 1);
      assert s[0] == d[0] && s[1..] == d[1..] + [c];
      PlaceValueAppend(d[1..], c);
      assert PlaceValue(d) == x * p + PlaceValue(d[1..]);
      assert PlaceValue(s) == x * (10 * p) + PlaceValue(s[1..]) by { assert TenTo(|s| - 1) == 10 * p; }
      Tenfold(x, p);
    }
  }

  lemma Tenfold(x: int, p: int)
    ensures x * (10 * p) == 10 * (x * p)
  {
  }

  /** The decimal form of a number says that number. */
  lemma {:induction false} DecimalValue(n: nat)
    ensures PlaceValue(Decimal(n)) == n
  {
    var d := ('0' as int + n % 10) as char;
    if n < 10 {
      assert [d][1..] == "" && TenTo(0) == 1;
    } else {
      DecimalValue(n / 10);
      PlaceValueAppend(Decimal(n / 10), d);
    }
  }

  /** The leading blanks of a run followed by a text that does not start with one. */
  lemma {:induction false} BlanksThenText(blanks: string, s: string)
    requires forall i | 0 <= i < |blanks| :: IsBlank(blanks[i])
    requires s != "" ==> !IsBlank(s[0])
    ensures BlankSpan(blanks + s) == |blanks| && SkipBlanks(blanks + s) == s
  {
    var t := blanks + s;
    assert forall i | 0 <= i < |blanks| :: t[i] == blanks[i];
    assert s != "" ==> t[|blanks|] == s[0];
    assert t[|blanks|..] == s;
  }

  /** The text before the first blank. */
  lemma {:induction false} WordThenBlank(word: string, rest: string)
    requires forall i | 0 <= i < |word| :: !IsBlank(word[i])
    requires rest != "" && IsBlank(rest[0])
    ensures FirstBlank(word + rest) == |word|
  {
    var t := word + rest;
    assert forall i | 0 <= i < |word| :: t[i] == word[i];
    assert t[|word|] == rest[0];
  }
}

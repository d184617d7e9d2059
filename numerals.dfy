/** The pieces of Python's text-to-number conversion the watcher relies on:
    `str.strip()`, `int(text)` and `float(text)`, the latter read in
    integer cents (minor units of the real). */
module Numerals {
  import opened Results

  /** The characters `str.isspace()` accepts. */
  predicate IsSpace(c: char) {
    c == ' ' || '\t' <= c <= '\r' || '\U{1C}' <= c <= '\U{1F}'
    || c == '\U{85}' || c == '\U{A0}' || c == '\U{1680}'
    || '\U{2000}' <= c <= '\U{200A}' || c == '\U{2028}' || c == '\U{2029}'
    || c == '\U{202F}' || c == '\U{205F}' || c == '\U{3000}'
  }

  /** The two sets of characters that surrounding-whitespace removal skips.
      `str.strip()` skips every `str.isspace()` character. `int()` and
      `float()` first turn non-ASCII whitespace into a space and then skip
      only the C library's whitespace, so the ASCII information separators
      U+001C to U+001F stop them. */
  datatype Whitespace = StrWhitespace | NumberWhitespace

  predicate IsBlank(w: Whitespace, c: char) {
    IsSpace(c) && (w == NumberWhitespace ==> !('\U{1C}' <= c <= '\U{1F}'))
  }

  /** `s.lstrip()`, or the whitespace `int()` and `float()` skip in front. */
  function StripLeft(w: Whitespace, s: string): string {
    if s != [] && IsBlank(w, s[0]) then StripLeft(w, s[1..]) else s
  }

  /** `s.rstrip()`, or the whitespace `int()` and `float()` skip behind. */
  function StripRight(w: Whitespace, s: string): string {
    if s != [] && IsBlank(w, s[|s| - 1]) then StripRight(w, s[..|s| - 1]) else s
  }

  /** `s.lstrip()` is the suffix of `s` after its leading whitespace. */
  lemma {:induction false} StripLeftSuffix(w: Whitespace, s: string)
    ensures var r := StripLeft(w, s);
      && |r| <= |s| && r == s[|s| - |r|..]
      && (r == [] || !IsBlank(w, r[0]))
      && forall i :: 0 <= i < |s| - |r| ==> IsBlank(w, s[i])
  {
    if s != [] && IsBlank(w, s[0]) {
      var t := s[1..];
      StripLeftSuffix(w, t);
      var r := StripLeft(w, t);
      assert StripLeft(w, s) == r;
      assert t[|t| - |r|..] == s[|s| - |r|..];
      forall i | 0 <= i < |s| - |r| ensures IsBlank(w, s[i]) {
        if i > 0 {
          assert s[i] == t[i - 1];
        }
      }
    }
  }

  /** `s.rstrip()` is the prefix of `s` before its trailing whitespace. */
  lemma {:induction false} StripRightPrefix(w: Whitespace, s: string)
    ensures var r := StripRight(w, s);
      && |r| <= |s| && r == s[..|r|]
      && (r == [] || !IsBlank(w, r[|r| - 1]))
      && forall i :: |r| <= i < |s| ==> IsBlank(w, s[i])
  {
    if s != [] && IsBlank(w, s[|s| - 1]) {
      var t := s[..|s| - 1];
      StripRightPrefix(w, t);
      var r := StripRight(w, t);
      assert StripRight(w, s) == r;
      assert t[..|r|] == s[..|r|];
      forall i | |r| <= i < |s| ensures IsBlank(w, s[i]) {
        if i < |t| {
          assert s[i] == t[i];
        }
      }
    }
  }

  /** `s.strip()`, or both ends as `int()` and `float()` skip them. */
  function Strip(w: Whitespace, s: string): string {
    StripRight(w, StripLeft(w, s))
  }

  /** `s.strip()` is the slice of `s` that neither begins nor ends with
      whitespace, left after removing only whitespace on either side. */
  lemma StripSlice(w: Whitespace, s: string)
    ensures var r, lead := Strip(w, s), |s| - |StripLeft(w, s)|;
      && 0 <= lead && lead + |r| <= |s| && r == s[lead..lead + |r|]
      && (r == [] || (!IsBlank(w, r[0]) && !IsBlank(w, r[|r| - 1])))
      && (forall i :: 0 <= i < lead ==> IsBlank(w, s[i]))
      && (forall i :: lead + |r| <= i < |s| ==> IsBlank(w, s[i]))
  {
    var l := StripLeft(w, s);
    StripLeftSuffix(w, s);
    StripRightPrefix(w, l);
    var r := StripRight(w, l);
    var lead := |s| - |l|;
    assert r == l[..|r|];
    assert l == s[lead..];
    if r != [] {
      assert r[0] == l[0];
    }
    forall i | lead + |r| <= i < |s| ensures IsBlank(w, s[i]) {
      assert s[i] == l[i - lead];
    }
  }

  /** Text that begins and ends with a non-space character is its own strip. */
  lemma StripUnpadded(w: Whitespace, s: string)
    requires s != [] && !IsBlank(w, s[0]) && !IsBlank(w, s[|s| - 1])
    ensures Strip(w, s) == s
  {
  }

  predicate IsDigit(c: char) {
    '0' <= c <= '9'
  }

  predicate AllDigits(s: string) {
    forall i :: 0 <= i < |s| ==> IsDigit(s[i])
  }

  function DigitChar(d: nat): (c: char)
    requires d < 10
    ensures IsDigit(c)
  {
    ('0' as int + d) as char
  }

  /** The number a string of decimal digits denotes, most significant first. */
  function DigitsValue(s: string): nat
    requires AllDigits(s)
  {
    if s == [] then 0 else DigitsValue(s[..|s| - 1]) * 10 + (s[|s| - 1] as int - '0' as int)
  }

  /** Appending a digit shifts the value one decimal place. */
  lemma DigitsValueSnoc(s: string, c: char)
    requires AllDigits(s) && IsDigit(c)
    ensures AllDigits(s + [c])
    ensures DigitsValue(s + [c]) == DigitsValue(s) * 10 + (c as int - '0' as int)
  {
    assert (s + [c])[..|s + [c]| - 1] == s;
  }

  /** `str(n)` for a natural number: its shortest decimal numeral, which
      denotes `n` again. */
  function DecimalString(n: nat): (s: string)
    ensures |s| >= 1 && AllDigits(s)
    ensures DigitsValue(s) == n
    ensures s[0] != '0' || n == 0
  {
    if n < 10 then [DigitChar(n)]
    else
      var prefix := DecimalString(n / 10);
      var s := prefix + [DigitChar(n % 10)];
      assert s[..|s| - 1] == prefix;
      s
  }

  /** `str(i)` for any integer. */
  function IntString(i: int): (s: string)
    ensures |s| >= 1
    ensures i >= 0 <==> IsDigit(s[0])
  {
    if i < 0 then "-" + DecimalString(-i) else DecimalString(i)
  }

  /** The text after an optional leading `+` or `-`. */
  function Unsigned(t: string): string {
    if t != [] && (t[0] == '+' || t[0] == '-') then t[1..] else t
  }

  predicate Negative(t: string) {
    t != [] && t[0] == '-'
  }

  /** `int(text)` in base 10: surrounding whitespace, an optional sign, then
      one or more decimal digits; anything else raises `ValueError` (None). */
  function ParseInt(text: string): Option<int> {
    SignedInt(Strip(NumberWhitespace, text))
  }

  function SignedInt(t: string): Option<int> {
    var body := Unsigned(t);
    if body != [] && AllDigits(body) then
      var magnitude: int := DigitsValue(body);
      Some(if Negative(t) then -magnitude else magnitude)
    else None
  }

  /** `int` reads back every numeral `str` writes, with or without a sign,
      with or without whitespace on either side. */
  lemma {:induction false} ParseIntDecimal(n: nat, sign: string, lead: string, trail: string)
    requires sign == "" || sign == "+" || sign == "-"
    requires forall i :: 0 <= i < |lead| ==> IsBlank(NumberWhitespace, lead[i])
    requires forall i :: 0 <= i < |trail| ==> IsBlank(NumberWhitespace, trail[i])
    ensures ParseInt(lead + (sign + DecimalString(n)) + trail) == Some(if sign == "-" then -(n as int) else n as int)
  {
    var d := DecimalString(n);
    var core := sign + d;
    assert core[|core| - 1] == d[|d| - 1];
    StripPadded(NumberWhitespace, lead, core, trail);
    SignedIntDecimal(n, sign);
  }

  /** `int` reads any non-empty digit string, leading zeros included, with
      an optional sign, as the number the digits denote. */
  lemma ParseIntDigits(sign: string, d: string)
    requires sign == "" || sign == "+" || sign == "-"
    requires d != [] && AllDigits(d)
    ensures ParseInt(sign + d) == Some(if sign == "-" then -(DigitsValue(d) as int) else DigitsValue(d) as int)
  {
    var core := sign + d;
    assert core[|core| - 1] == d[|d| - 1];
    StripUnpadded(NumberWhitespace, core);
    assert Unsigned(core) == d by {
      if sign != "" { assert core[1..] == d; }
    }
  }

  lemma SignedIntDecimal(n: nat, sign: string)
    requires sign == "" || sign == "+" || sign == "-"
    ensures SignedInt(sign + DecimalString(n)) == Some(if sign == "-" then -(n as int) else n as int)
  {
    var d := DecimalString(n);
    var core := sign + d;
    assert Unsigned(core) == d by {
      if sign != "" { assert core[1..] == d; }
    }
    assert Negative(core) <==> sign == "-";
  }

  /** Stripping removes whitespace padding around unpadded text. */
  lemma {:induction false} StripPadded(w: Whitespace, lead: string, core: string, trail: string)
    requires forall i :: 0 <= i < |lead| ==> IsBlank(w, lead[i])
    requires forall i :: 0 <= i < |trail| ==> IsBlank(w, trail[i])
    requires core != [] && !IsBlank(w, core[0]) && !IsBlank(w, core[|core| - 1])
    ensures Strip(w, lead + core + trail) == core
  {
    var text := lead + core + trail;
    StripLeftPadded(w, lead, core + trail);
    assert text == lead + (core + trail);
    StripRightPadded(w, core, trail);
  }

  lemma {:induction false} StripLeftPadded(w: Whitespace, pad: string, rest: string)
    requires forall i :: 0 <= i < |pad| ==> IsBlank(w, pad[i])
    requires rest != [] && !IsBlank(w, rest[0])
    ensures StripLeft(w, pad + rest) == rest
  {
    if pad != [] {
      assert (pad + rest)[1..] == pad[1..] + rest;
      StripLeftPadded(w, pad[1..], rest);
    }
  }

  lemma {:induction false} StripRightPadded(w: Whitespace, core: string, pad: string)
    requires forall i :: 0 <= i < |pad| ==> IsBlank(w, pad[i])
    requires core != [] && !IsBlank(w, core[|core| - 1])
    ensures StripRight(w, core + pad) == core
  {
    if pad != [] {
      var text := core + pad;
      assert text[..|text| - 1] == core + pad[..|pad| - 1];
      StripRightPadded(w, core, pad[..|pad| - 1]);
    } else {
      assert core + pad == core;
    }
  }

  /** The index of the first `c` in `s`, or `|s|` when there is none. */
  function IndexOf(s: string, c: char): (k: nat)
    ensures k <= |s|
    ensures k < |s| ==> s[k] == c
    ensures forall i :: 0 <= i < k ==> s[i] != c
  {
    if s == [] || s[0] == c then 0 else 1 + IndexOf(s[1..], c)
  }

  /** The cents contributed by the digits after the point: the first two,
      with a missing second digit read as 0; later digits are below a cent. */
  function FracCents(f: string): (c: nat)
    requires AllDigits(f)
    ensures c < 100
  {
    if |f| == 0 then 0
    else if |f| == 1 then
      DigitsValueSnoc([], f[0]);
      assert [] + [f[0]] == f;
      DigitsValue(f) * 10
    else
      DigitsValueSnoc([], f[0]);
      DigitsValueSnoc([f[0]], f[1]);
      assert [] + [f[0]] == [f[0]] && [f[0]] + [f[1]] == f[..2];
      DigitsValue(f[..2])
  }

  /** `float(text) * 100` for the plain decimal forms: surrounding whitespace,
      an optional sign, digits with at most one `.`, and at least one digit
      in all; anything else raises `ValueError` (None). */
  function ParseCents(text: string): Option<int> {
    var t := Strip(NumberWhitespace, text);
    match UnsignedCents(Unsigned(t))
    case None => None
    case Some(magnitude) =>
      var m: int := magnitude;
      Some(if Negative(t) then -m else m)
  }

  /** The cents an unsigned decimal numeral denotes, split at its first `.`. */
  function UnsignedCents(body: string): Option<nat> {
    var k := IndexOf(body, '.');
    DecimalParts(body[..k], if k < |body| then body[k + 1..] else [])
  }

  /** The cents of a whole part and a fraction part, which must both be
      digits (a second `.` is refused here) and not both empty. */
  function DecimalParts(whole: string, frac: string): Option<nat> {
    if AllDigits(whole) && AllDigits(frac) && |whole| + |frac| > 0
    then Some(DigitsValue(whole) * 100 + FracCents(frac))
    else None
  }

  /** Two digits for a number below 100, with a leading zero if needed. */
  function TwoDigits(n: nat): (s: string)
    requires n < 100
    ensures |s| == 2 && AllDigits(s)
  {
    [DigitChar(n / 10), DigitChar(n % 10)]
  }

  /** A cent amount written with a `.` before the last two digits, as
      `float` reads it. */
  function CentsText(c: nat): string {
    DecimalString(c / 100) + "." + TwoDigits(c % 100)
  }

  /** A whole part, a point and a fraction part, all digits, read as cents. */
  lemma {:induction false} ParseCentsParts(w: string, f: string)
    requires w != [] && AllDigits(w) && AllDigits(f)
    ensures ParseCents(w + "." + f) == Some(DigitsValue(w) * 100 + FracCents(f))
  {
    var text := w + "." + f;
    assert text[0] == w[0] && IsDigit(text[0]);
    assert IsDigit(text[|text| - 1]) || text[|text| - 1] == '.';
    StripUnpadded(NumberWhitespace, text);
    assert Unsigned(text) == text && !Negative(text);
    var k := IndexOf(text, '.');
    assert k == |w| by {
      assert text[|w|] == '.';
      assert forall i :: 0 <= i < |w| ==> text[i] == w[i];
    }
    assert text[..k] == w;
    assert text[k + 1..] == f;
    assert UnsignedCents(text) == Some(DigitsValue(w) * 100 + FracCents(f));
  }

  /** Two digits read as a fraction give back their number of cents. */
  lemma TwoDigitsCents(m: nat)
    requires m < 100
    ensures FracCents(TwoDigits(m)) == m
  {
    var f := TwoDigits(m);
    DigitsValueSnoc([], f[0]);
    DigitsValueSnoc([f[0]], f[1]);
    assert [] + [f[0]] == [f[0]] && [f[0]] + [f[1]] == f[..2];
  }

  /** Reading a written amount back gives the same number of cents. */
  lemma {:induction false} ParseCentsText(c: nat)
    ensures ParseCents(CentsText(c)) == Some(c)
  {
    var q, r := c / 100, c % 100;
    var w, f := DecimalString(q), TwoDigits(r);
    assert ParseCents(w + "." + f) == Some(c) by {
      TwoDigitsCents(r);
      ParseCentsParts(w, f);
    }
    assert CentsText(c) == w + "." + f;
  }
}

/** Reading the price and discount labels of a catalog row: the pt-BR price
    text ("R$ 1.234,56") is rewritten into a plain decimal numeral and read
    in cents; the discount label ("-50%") is read as a whole percentage. */
module Prices {
  import opened Results
  import opened Numerals

  /** The text a failed `int(...)` or `float(...)` was given. */
  datatype ValueError = ValueError(text: string)

  /** `s.replace('R$', '')`: occurrences are found left to right without
      overlapping. */
  function DeleteCurrency(s: string): string {
    if |s| >= 2 && s[0] == 'R' && s[1] == '$' then DeleteCurrency(s[2..])
    else if s == [] then []
    else [s[0]] + DeleteCurrency(s[1..])
  }

  /** Deleting the currency symbol removes whole `R$` pairs and nothing
      else. */
  lemma {:induction false} DeleteCurrencyRemovesPairs(s: string)
    ensures var r := DeleteCurrency(s);
      && multiset(r) <= multiset(s)
      && (forall c :: c != 'R' && c != '$' ==> multiset(r)[c] == multiset(s)[c])
      && multiset(s)['R'] - multiset(r)['R'] == multiset(s)['$'] - multiset(r)['$']
  {
    var r := DeleteCurrency(s);
    forall c
      ensures multiset(r)[c] <= multiset(s)[c]
      ensures c != 'R' && c != '$' ==> multiset(r)[c] == multiset(s)[c]
    {
      DeleteCurrencyCount(s, c);
    }
    DeleteCurrencyBalance(s);
  }

  /** The count of one character never grows, and only `R` and `$` lose
      copies. */
  lemma {:induction false} DeleteCurrencyCount(s: string, c: char)
    ensures multiset(DeleteCurrency(s))[c] <= multiset(s)[c]
    ensures c != 'R' && c != '$' ==> multiset(DeleteCurrency(s))[c] == multiset(s)[c]
  {
    if |s| >= 2 && s[0] == 'R' && s[1] == '$' {
      var t := s[2..];
      assert s == "R$" + t;
      DeleteCurrencyPair(t);
      DeleteCurrencyCount(t, c);
    } else if s != [] {
      var t := s[1..];
      assert s == [s[0]] + t;
      DeleteCurrencyKeep(s[0], t);
      DeleteCurrencyCount(t, c);
    }
  }

  /** As many `R` as `$` are deleted. */
  lemma {:induction false} DeleteCurrencyBalance(s: string)
    ensures multiset(s)['R'] + multiset(DeleteCurrency(s))['$'] == multiset(s)['$'] + multiset(DeleteCurrency(s))['R']
  {
    if |s| >= 2 && s[0] == 'R' && s[1] == '$' {
      var t := s[2..];
      assert s == "R$" + t;
      DeleteCurrencyPair(t);
      DeleteCurrencyBalance(t);
    } else if s != [] {
      var t := s[1..];
      assert s == [s[0]] + t;
      DeleteCurrencyKeep(s[0], t);
      DeleteCurrencyBalance(t);
    }
  }

  /** A leading `R$` is deleted. */
  lemma DeleteCurrencyPair(t: string)
    ensures DeleteCurrency("R$" + t) == DeleteCurrency(t)
  {
    assert ("R$" + t)[2..] == t;
  }

  /** A leading character that does not start `R$` is kept. */
  lemma DeleteCurrencyKeep(c: char, t: string)
    requires !(c == 'R' && t != [] && t[0] == '$')
    ensures DeleteCurrency([c] + t) == [c] + DeleteCurrency(t)
  {
    assert ([c] + t)[1..] == t;
  }

  /** `s` holds the currency symbol `R$` somewhere. */
  predicate HoldsCurrency(s: string) {
    exists i :: 0 <= i < |s| - 1 && s[i] == 'R' && s[i + 1] == '$'
  }

  /** Each deleted symbol shortens the text; without one, nothing changes. */
  lemma {:induction false} DeleteCurrencyShortens(s: string)
    ensures |DeleteCurrency(s)| <= |s|
    ensures HoldsCurrency(s) ==> |DeleteCurrency(s)| < |s|
    ensures !HoldsCurrency(s) ==> DeleteCurrency(s) == s
  {
    if |s| >= 2 && s[0] == 'R' && s[1] == '$' {
      DeleteCurrencyShortens(s[2..]);
      assert s[0] == 'R' && s[0 + 1] == '$';
    } else if s != [] {
      var t := s[1..];
      DeleteCurrencyShortens(t);
      if HoldsCurrency(s) {
        var i :| 0 <= i < |s| - 1 && s[i] == 'R' && s[i + 1] == '$';
        assert t[i - 1] == 'R' && t[i - 1 + 1] == '$';
      } else {
        forall j | 0 <= j < |t| - 1 ensures !(t[j] == 'R' && t[j + 1] == '$') {
          assert t[j] == s[j + 1] && t[j + 1] == s[j + 1 + 1];
        }
        assert [s[0]] + t == s;
      }
    }
  }

  /** Deleting the currency symbol changes the text exactly when the text
      holds one. */
  lemma DeleteCurrencyUnchanged(s: string)
    ensures DeleteCurrency(s) == s <==> !HoldsCurrency(s)
  {
    DeleteCurrencyShortens(s);
  }

  /** Every `R$` is deleted: the text on either side of one is rewritten as
      if the symbol had never been there. */
  lemma {:induction false} DeleteCurrencyAround(a: string, b: string)
    ensures DeleteCurrency(a + "R$" + b) == DeleteCurrency(a) + DeleteCurrency(b)
  {
    if a == [] {
      assert a + "R$" + b == "R$" + b;
      DeleteCurrencyPair(b);
    } else if |a| >= 2 && a[0] == 'R' && a[1] == '$' {
      DeleteCurrencyAround(a[2..], b);
      DeleteCurrencyAroundPair(a, b);
    } else {
      DeleteCurrencyAround(a[1..], b);
      assert a == [a[0]] + a[1..];
      DeleteCurrencyAroundKeep(a[0], a[1..], b);
    }
  }

  lemma DeleteCurrencyAroundPair(a: string, b: string)
    requires |a| >= 2 && a[0] == 'R' && a[1] == '$'
    requires DeleteCurrency(a[2..] + "R$" + b) == DeleteCurrency(a[2..]) + DeleteCurrency(b)
    ensures DeleteCurrency(a + "R$" + b) == DeleteCurrency(a) + DeleteCurrency(b)
  {
    var rest := a[2..];
    assert a == "R$" + rest;
    assert a + "R$" + b == "R$" + (rest + "R$" + b);
    DeleteCurrencyPair(rest + "R$" + b);
    DeleteCurrencyPair(rest);
  }

  lemma DeleteCurrencyAroundKeep(c: char, rest: string, b: string)
    requires !(c == 'R' && rest != [] && rest[0] == '$')
    requires DeleteCurrency(rest + "R$" + b) == DeleteCurrency(rest) + DeleteCurrency(b)
    ensures DeleteCurrency([c] + rest + "R$" + b) == DeleteCurrency([c] + rest) + DeleteCurrency(b)
  {
    var tail := rest + "R$" + b;
    assert [c] + rest + "R$" + b == [c] + tail;
    if rest == [] {
      assert tail[0] == 'R';
    } else {
      assert tail[0] == rest[0];
    }
    DeleteCurrencyKeep(c, tail);
    DeleteCurrencyKeep(c, rest);
  }

  /** Text without a `$` holds no currency symbol to delete. */
  lemma {:induction false} DeleteCurrencyNoDollar(s: string)
    requires '$' !in s
    ensures DeleteCurrency(s) == s
  {
    if s != [] {
      DeleteCurrencyNoDollar(s[1..]);
      assert s == [s[0]] + s[1..];
    }
  }

  /** `s.replace(c, '')`. */
  function DeleteChar(s: string, c: char): string {
    if s == [] then [] else (if s[0] == c then [] else [s[0]]) + DeleteChar(s[1..], c)
  }

  /** Deleting a character removes every copy of it and nothing else. */
  lemma {:induction false} DeleteCharRemovesAll(s: string, c: char)
    ensures c !in DeleteChar(s, c)
    ensures multiset(DeleteChar(s, c)) == multiset(s)[c := 0]
  {
    if s != [] {
      assert s == [s[0]] + s[1..];
      DeleteCharRemovesAll(s[1..], c);
    }
  }

  /** `s.replace(a, b)` for single characters: same length, each `a` becomes
      `b`, every other character stays where it is. */
  function ReplaceChar(s: string, a: char, b: char): string {
    if s == [] then [] else [if s[0] == a then b else s[0]] + ReplaceChar(s[1..], a, b)
  }

  /** Replacing a character keeps the length and changes each copy of it
      in place, and nothing else. */
  lemma {:induction false} ReplaceCharPointwise(s: string, a: char, b: char)
    ensures |ReplaceChar(s, a, b)| == |s|
    ensures forall i :: 0 <= i < |s| ==> ReplaceChar(s, a, b)[i] == (if s[i] == a then b else s[i])
  {
    if s != [] {
      ReplaceCharPointwise(s[1..], a, b);
    }
  }

  /** The price label's text, as `get_text(strip=True)` yields it, with the
      currency symbol and the thousands separators deleted and the decimal
      comma turned into a point. */
  function RewritePrice(text: string): string {
    ReplaceChar(DeleteChar(DeleteCurrency(Strip(StrWhitespace, text)), '.'), ',', '.')
  }

  /** The rewritten price text holds no comma. */
  lemma NoCommaAfterRewrite(text: string)
    ensures ',' !in RewritePrice(text)
  {
    ReplaceCharPointwise(DeleteChar(DeleteCurrency(Strip(StrWhitespace, text)), '.'), ',', '.');
  }

  /** `s.lower() == "gratuito"`, the label of a free item. Folding ASCII
      letters alone decides it: no other character lowers to one of these
      eight letters. */
  predicate IsGratuito(s: string) {
    |s| == 8 && forall i :: 0 <= i < 8 ==> LowerAscii(s[i]) == "gratuito"[i]
  }

  /** `c.lower()` for an ASCII letter; other characters stay. */
  function LowerAscii(c: char): char {
    if 'A' <= c <= 'Z' then (c as int - 'A' as int + 'a' as int) as char else c
  }

  /** Only ASCII letters lower to a lower-case ASCII letter. */
  lemma LowerAsciiLetter(c: char)
    requires 'a' <= LowerAscii(c) <= 'z'
    ensures 'a' <= c <= 'z' || 'A' <= c <= 'Z'
  {
  }

  /** The price before the discount, in cents; no label reads as 0. The text
      has no free sentinel and no empty case: anything `float` refuses
      raises. */
  function ParseOriginalPrice(tag: Option<string>): Result<int, ValueError> {
    match tag
    case None => Ok(0)
    case Some(text) =>
      var r := RewritePrice(text);
      match ParseCents(r)
      case None => Err(ValueError(r))
      case Some(c) => Ok(c)
  }

  /** The price after the discount, in cents; no label, a free label and a
      label left empty by the rewriting all read as 0. */
  function ParseFinalPrice(tag: Option<string>): Result<int, ValueError> {
    match tag
    case None => Ok(0)
    case Some(text) =>
      var r := RewritePrice(text);
      if IsGratuito(r) then Ok(0)
      else if r == [] then Ok(0)
      else match ParseCents(r)
        case None => Err(ValueError(r))
        case Some(c) => Ok(c)
  }

  /** The discount label "-N%" with every `-` and `%` deleted, read by `int`;
      no label reads as 0. */
  function ParseDiscount(tag: Option<string>): Result<int, ValueError> {
    match tag
    case None => Ok(0)
    case Some(text) =>
      var r := DiscountDigits(text);
      match ParseInt(r)
      case None => Err(ValueError(r))
      case Some(n) => Ok(n)
  }

  /** The discount label's text with every `-` and `%` deleted. */
  function DiscountDigits(text: string): string {
    DeleteChar(DeleteChar(Strip(StrWhitespace, text), '-'), '%')
  }

  /** A discount label as the store writes it reads as its percentage. */
  lemma {:induction false} DiscountLabel(n: nat)
    ensures ParseDiscount(Some("-" + DecimalString(n) + "%")) == Ok(n)
  {
    var d := DecimalString(n);
    DiscountDigitsOfLabel(d);
    ParseIntDecimal(n, "", "", "");
    assert [] + ([] + d) + [] == d;
  }

  lemma {:induction false} DiscountDigitsOfLabel(d: string)
    requires d != [] && AllDigits(d)
    ensures DiscountDigits("-" + d + "%") == d
  {
    var text := "-" + d + "%";
    assert text[0] == '-' && text[|text| - 1] == '%';
    StripUnpadded(StrWhitespace, text);
    assert text == "-" + (d + "%");
    assert '-' !in d + "%" && '%' !in d by {
      forall i | 0 <= i < |d| ensures (d + "%")[i] == d[i] && IsDigit(d[i]) { }
    }
    var noDash := DeleteChar(text, '-');
    assert noDash == d + "%" by {
      DeleteCharConcat("-", d + "%", '-');
      NoCharUnchanged(d + "%", '-');
      assert DeleteChar("-", '-') == [];
    }
    assert DeleteChar(noDash, '%') == d by {
      DeleteCharConcat(d, "%", '%');
      NoCharUnchanged(d, '%');
      assert DeleteChar("%", '%') == [];
    }
  }

  lemma {:induction false} DeleteCharConcat(a: string, b: string, c: char)
    ensures DeleteChar(a + b, c) == DeleteChar(a, c) + DeleteChar(b, c)
  {
    if a != [] {
      assert (a + b)[1..] == a[1..] + b;
      DeleteCharConcat(a[1..], b, c);
    } else {
      assert a + b == b;
    }
  }

  lemma {:induction false} NoCharUnchanged(s: string, c: char)
    requires c !in s
    ensures DeleteChar(s, c) == s
  {
    if s != [] {
      NoCharUnchanged(s[1..], c);
    }
  }

  /** The digits of a whole number with a `.` before every group of three
      from the right, as the pt-BR locale groups thousands. */
  function Grouped(ds: string): string
    decreases |ds|
  {
    if |ds| <= 3 then ds else Grouped(ds[..|ds| - 3]) + "." + ds[|ds| - 3..]
  }

  /** Deleting the points of a grouped numeral gives back its digits. */
  lemma {:induction false} UngroupDigits(ds: string)
    requires AllDigits(ds)
    ensures DeleteChar(Grouped(ds), '.') == ds
    decreases |ds|
  {
    if |ds| <= 3 {
      NoCharUnchanged(ds, '.');
    } else {
      var hi, lo := ds[..|ds| - 3], ds[|ds| - 3..];
      assert Grouped(ds) == Grouped(hi) + ("." + lo);
      assert DeleteChar(Grouped(hi) + ("." + lo), '.')
          == DeleteChar(Grouped(hi), '.') + DeleteChar("." + lo, '.') by {
        DeleteCharConcat(Grouped(hi), "." + lo, '.');
      }
      assert DeleteChar(Grouped(hi), '.') == hi by {
        UngroupDigits(hi);
      }
      assert DeleteChar("." + lo, '.') == lo by {
        DeleteCharConcat(".", lo, '.');
        assert '.' !in lo;
        NoCharUnchanged(lo, '.');
      }
      assert hi + lo == ds;
    }
  }

  /** A price as the store's pt-BR pages write it: the currency symbol, a
      space, the units grouped in thousands, a comma and two cent digits. */
  function BrlText(c: nat, space: char): string {
    "R$" + [space] + Grouped(DecimalString(c / 100)) + "," + TwoDigits(c % 100)
  }

  /** Rewriting a pt-BR price leaves the plain numeral `float` reads, behind
      the space that followed the currency symbol. */
  lemma {:induction false} RewriteBrlText(c: nat, space: char)
    requires IsSpace(space)
    ensures RewritePrice(BrlText(c, space)) == [space] + CentsText(c)
  {
    var w := DecimalString(c / 100);
    var f := TwoDigits(c % 100);
    var rest := Grouped(w) + "," + f;
    CurrencyOfBrlText(c, space);
    assert Strip(StrWhitespace, BrlText(c, space)) == BrlText(c, space);
    var dotless := [space] + w + "," + f;
    DotsOfBrlText(w, f, space);
    CommaOfBrlText(c, space);
  }

  /** Stripping and deleting the currency symbol leave the space and what
      follows it. */
  lemma CurrencyOfBrlText(c: nat, space: char)
    requires IsSpace(space)
    ensures Strip(StrWhitespace, BrlText(c, space)) == BrlText(c, space)
    ensures DeleteCurrency(BrlText(c, space))
      == [space] + Grouped(DecimalString(c / 100)) + "," + TwoDigits(c % 100)
  {
    var w := DecimalString(c / 100);
    var f := TwoDigits(c % 100);
    var g := Grouped(w);
    var tail := [space] + g + "," + f;
    var text := BrlText(c, space);
    assert text == "R$" + tail;
    assert Strip(StrWhitespace, text) == text by {
      assert text[0] == 'R' && text[|text| - 1] == f[1];
      StripUnpadded(StrWhitespace, text);
    }
    assert DeleteCurrency(tail) == tail by {
      GroupedChars(w);
      BrlTailNoDollar(space, g, f);
      DeleteCurrencyNoDollar(tail);
    }
    assert DeleteCurrency(text) == DeleteCurrency(tail) by {
      assert text[2..] == tail;
    }
  }

  /** What follows "R$" in a written amount holds no `$`. */
  lemma BrlTailNoDollar(space: char, g: string, f: string)
    requires space != '$' && AllDigits(f)
    requires forall i :: 0 <= i < |g| ==> IsDigit(g[i]) || g[i] == '.'
    ensures '$' !in [space] + g + "," + f
  {
    var tail := [space] + g + "," + f;
    forall i | 0 <= i < |tail| ensures tail[i] != '$' {
      if 0 < i <= |g| {
        assert tail[i] == g[i - 1];
      } else if i > |g| + 1 {
        assert tail[i] == f[i - |g| - 2];
      }
    }
  }

  /** Deleting the thousands separators leaves the plain digits. */
  lemma DotsOfBrlText(w: string, f: string, space: char)
    requires w != [] && AllDigits(w) && |f| == 2 && AllDigits(f)
    requires space != '.'
    ensures DeleteChar([space] + Grouped(w) + "," + f, '.') == [space] + w + "," + f
  {
    var g, tail := Grouped(w), "," + f;
    assert [space] + g + "," + f == [space] + (g + tail);
    assert DeleteChar([space] + (g + tail), '.') == DeleteChar([space], '.') + DeleteChar(g + tail, '.') by {
      DeleteCharConcat([space], g + tail, '.');
    }
    assert DeleteChar([space], '.') == [space] by {
      NoCharUnchanged([space], '.');
    }
    assert DeleteChar(g + tail, '.') == DeleteChar(g, '.') + DeleteChar(tail, '.') by {
      DeleteCharConcat(g, tail, '.');
    }
    assert DeleteChar(g, '.') == w by {
      UngroupDigits(w);
    }
    assert DeleteChar(tail, '.') == tail by {
      assert '.' !in tail;
      NoCharUnchanged(tail, '.');
    }
    assert [space] + (w + tail) == [space] + w + "," + f;
  }

  /** Turning the decimal comma into a point gives the numeral `float` reads. */
  lemma CommaOfBrlText(c: nat, space: char)
    requires space != ','
    ensures ReplaceChar([space] + DecimalString(c / 100) + "," + TwoDigits(c % 100), ',', '.')
      == [space] + CentsText(c)
  {
    var w := DecimalString(c / 100);
    var f := TwoDigits(c % 100);
    var dotless := [space] + w + "," + f;
    var r := ReplaceChar(dotless, ',', '.');
    var target := [space] + CentsText(c);
    ReplaceCharPointwise(dotless, ',', '.');
    assert |r| == |target|;
    forall i | 0 <= i < |r| ensures r[i] == target[i] {
      if i == 0 {
      } else if i <= |w| {
        assert dotless[i] == w[i - 1] && target[i] == w[i - 1];
      } else if i == |w| + 1 {
      } else {
        assert dotless[i] == f[i - |w| - 2] && target[i] == f[i - |w| - 2];
      }
    }
  }

  /** A grouped numeral holds only digits and points. */
  lemma {:induction false} GroupedChars(ds: string)
    requires AllDigits(ds)
    ensures forall i :: 0 <= i < |Grouped(ds)| ==> IsDigit(Grouped(ds)[i]) || Grouped(ds)[i] == '.'
    decreases |ds|
  {
    if |ds| > 3 {
      GroupedChars(ds[..|ds| - 3]);
    }
  }

  /** A leading space before a numeral does not change what `float` reads. */
  lemma ParseCentsLeadingSpace(c: nat, space: char)
    requires IsBlank(NumberWhitespace, space)
    ensures ParseCents([space] + CentsText(c)) == Some(c)
  {
    var t := CentsText(c);
    assert t[0] == DecimalString(c / 100)[0];
    assert t[|t| - 1] == TwoDigits(c % 100)[1];
    LeadingSpaceStrips(space, t);
    ParseCentsSameStrip([space] + t, t);
    ParseCentsText(c);
  }

  /** `float` reads only what `strip()` leaves. */
  lemma ParseCentsSameStrip(a: string, b: string)
    requires Strip(NumberWhitespace, a) == Strip(NumberWhitespace, b)
    ensures ParseCents(a) == ParseCents(b)
  {
  }

  /** A leading space does not change what `float` keeps of a text that
      neither begins nor ends with whitespace. */
  lemma LeadingSpaceStrips(space: char, t: string)
    requires IsBlank(NumberWhitespace, space)
    requires t != [] && !IsBlank(NumberWhitespace, t[0]) && !IsBlank(NumberWhitespace, t[|t| - 1])
    ensures Strip(NumberWhitespace, [space] + t) == Strip(NumberWhitespace, t)
  {
    StripLeftPadded(NumberWhitespace, [space], t);
    StripUnpadded(NumberWhitespace, t);
    StripRightPadded(NumberWhitespace, t, []);
    assert t + [] == t;
  }

  /** Every pt-BR price the store writes reads back as its cents, both as
      the original and as the final price, whenever the character after the
      currency symbol is whitespace that `float` skips. */
  lemma {:induction false} BrlPriceRoundTrip(c: nat, space: char)
    requires IsBlank(NumberWhitespace, space)
    ensures ParseOriginalPrice(Some(BrlText(c, space))) == Ok(c)
    ensures ParseFinalPrice(Some(BrlText(c, space))) == Ok(c)
  {
    RewriteBrlText(c, space);
    ParseCentsLeadingSpace(c, space);
    var r := RewritePrice(BrlText(c, space));
    assert !IsGratuito(r) by {
      assert r[0] == space;
      assert LowerAscii(space) == space;
    }
  }

  /** A missing label reads as 0 for all three fields. */
  lemma MissingLabelsReadZero()
    ensures ParseDiscount(None) == Ok(0)
    ensures ParseOriginalPrice(None) == Ok(0)
    ensures ParseFinalPrice(None) == Ok(0)
  {
  }

  /** Text that is already stripped and holds no `$`, `.` or `,` goes
      through the price rewriting unchanged. */
  lemma RewritePlain(text: string)
    requires text != [] && !IsSpace(text[0]) && !IsSpace(text[|text| - 1])
    requires '$' !in text && '.' !in text && ',' !in text
    ensures RewritePrice(text) == text
  {
    StripUnpadded(StrWhitespace, text);
    DeleteCurrencyNoDollar(text);
    NoCharUnchanged(text, '.');
    ReplaceCharPointwise(text, ',', '.');
  }

  /** Text with no digit at its start and no point is refused by `float`. */
  lemma NotANumber(r: string)
    requires r != [] && !IsDigit(r[0]) && r[0] != '+' && r[0] != '-' && r[0] != '.'
    requires !IsBlank(NumberWhitespace, r[0]) && !IsBlank(NumberWhitespace, r[|r| - 1]) && '.' !in r
    ensures ParseCents(r) == None
  {
    StripUnpadded(NumberWhitespace, r);
    assert Unsigned(r) == r;
    assert IndexOf(r, '.') == |r|;
    assert r[..|r|] == r;
    assert !AllDigits(r);
  }

  /** A label whose rewritten text is the free sentinel reads as 0 as a
      final price; as an original price `float` refuses it. */
  lemma FreeSentinelOnlyForFinalPrice(text: string)
    requires IsGratuito(RewritePrice(text))
    ensures ParseFinalPrice(Some(text)) == Ok(0)
    ensures ParseOriginalPrice(Some(text)) == Err(ValueError(RewritePrice(text)))
  {
    var r := RewritePrice(text);
    forall i | 0 <= i < |r| ensures 'a' <= r[i] <= 'z' || 'A' <= r[i] <= 'Z' {
      assert 'a' <= "gratuito"[i] <= 'z';
      LowerAsciiLetter(r[i]);
    }
    NotANumber(r);
  }

  /** "Gratuito" itself is the free sentinel. */
  lemma GratuitoLabel(text: string)
    requires text == "Gratuito"
    ensures RewritePrice(text) == text
    ensures ParseFinalPrice(Some(text)) == Ok(0)
    ensures ParseOriginalPrice(Some(text)) == Err(ValueError(text))
  {
    RewritePlain(text);
    assert IsGratuito(text);
    FreeSentinelOnlyForFinalPrice(text);
  }

  /** A label that the rewriting empties reads as 0 as a final price; as an
      original price `float("")` refuses it. */
  lemma EmptyOnlyForFinalPrice(text: string)
    requires RewritePrice(text) == []
    ensures ParseFinalPrice(Some(text)) == Ok(0)
    ensures ParseOriginalPrice(Some(text)) == Err(ValueError(""))
  {
    assert Strip(NumberWhitespace, []) == [];
    assert IndexOf([], '.') == 0;
    assert UnsignedCents([]) == None;
  }

  /** A bare currency symbol rewrites to nothing. */
  lemma CurrencyOnlyLabel()
    ensures RewritePrice("R$") == []
    ensures ParseFinalPrice(Some("R$")) == Ok(0)
    ensures ParseOriginalPrice(Some("R$")) == Err(ValueError(""))
  {
    var text := "R$";
    StripUnpadded(StrWhitespace, text);
    assert DeleteCurrency(text) == [] by {
      assert text[2..] == [];
    }
    EmptyOnlyForFinalPrice(text);
  }

  /** An ASCII information separator after the currency symbol survives
      `strip()` and the rewriting but stops `float`: such a price raises. */
  lemma {:induction false} SeparatorAfterCurrencyRaises(c: nat, sep: char)
    requires '\U{1C}' <= sep <= '\U{1F}'
    ensures ParseOriginalPrice(Some(BrlText(c, sep))) == Err(ValueError([sep] + CentsText(c)))
    ensures ParseFinalPrice(Some(BrlText(c, sep))) == Err(ValueError([sep] + CentsText(c)))
  {
    RewriteBrlText(c, sep);
    var t := CentsText(c);
    var r := [sep] + t;
    assert t[|t| - 1] == TwoDigits(c % 100)[1];
    assert ParseCents(r) == None by {
      StripUnpadded(NumberWhitespace, r);
      assert Unsigned(r) == r;
      var k := IndexOf(r, '.');
      assert k > 0 && r[..k][0] == sep;
    }
    assert !IsGratuito(r) by {
      assert LowerAscii(r[0]) == sep;
    }
  }

  /** The pt-BR writing of 123456 cents. */
  lemma SampleBrlText()
    ensures BrlText(123456, ' ') == "R$ 1.234,56"
  {
    var n := 123456;
    var ds, cents := DecimalString(n / 100), TwoDigits(n % 100);
    assert ds == "1234" by {
      SampleDecimalString();
    }
    assert Grouped(ds) == "1.234" by {
      SampleGrouped();
    }
    assert cents == "56" by {
      SampleTwoDigits();
    }
    assert BrlText(n, ' ') == "R$" + " " + "1.234" + "," + "56";
  }

  lemma SampleGrouped()
    ensures Grouped("1234") == "1.234"
  {
    var ds := "1234";
    assert ds[..1] == "1" && ds[1..] == "234";
    assert Grouped("1") == "1";
  }

  lemma SampleTwoDigits()
    ensures TwoDigits(56) == "56"
  {
    assert DigitChar(5) == '5' && DigitChar(6) == '6';
  }

  /** The digits of 1234. */
  lemma SampleDecimalString()
    ensures DecimalString(1234) == "1234"
  {
    var n := 1234;
    DecimalStringStep(1, "", '1');
    DecimalStringStep(12, "1", '2');
    DecimalStringStep(123, "12", '3');
    DecimalStringStep(1234, "123", '4');
  }

  /** One more digit of a decimal numeral. */
  lemma DecimalStringStep(n: nat, prefix: string, c: char)
    requires n < 10 ==> prefix == []
    requires n >= 10 ==> DecimalString(n / 10) == prefix
    requires c == DigitChar(n % 10)
    ensures DecimalString(n) == prefix + [c]
  {
  }

  /** "R$ 1.234,56" reads as 123456 cents, as original and as final price. */
  lemma SampleBrlPrice()
    ensures ParseOriginalPrice(Some("R$ 1.234,56")) == Ok(123456)
    ensures ParseFinalPrice(Some("R$ 1.234,56")) == Ok(123456)
  {
    SampleBrlText();
    BrlPriceRoundTrip(123456, ' ');
  }

  /** Deleting `R$` once can bring a new `R$` together, so the rewritten
      text may still hold the currency symbol (and then `float` refuses it). */
  lemma CurrencySymbolCanSurvive()
    ensures DeleteCurrency("RR$$") == "R$"
    ensures RewritePrice("RR$$") == "R$"
    ensures ParseOriginalPrice(Some("RR$$")) == Err(ValueError("R$"))
  {
    var text := "RR$$";
    assert DeleteCurrency(text[1..]) == "$" by {
      assert text[1..][2..] == "$";
    }
    StripUnpadded(StrWhitespace, text);
    assert RewritePrice(text) == "R$" by {
      NoCharUnchanged("R$", '.');
      ReplaceCharPointwise("R$", ',', '.');
    }
    NotANumber("R$");
  }
}

/** Money as integer cents (the ledger's amounts are Numeric(12, 2)), the parser for
    typed-in amounts, and the percentage arithmetic of the summaries and alerts. */
module Money {
  import opened Outcomes
  import opened Text

  /** Position of the first '.' in s, or |s| when there is none. */
  function IndexOfDot(s: string): (k: nat)
    ensures k <= |s|
    ensures forall i :: 0 <= i < k ==> s[i] != '.'
    ensures k < |s| ==> s[k] == '.'
  {
    if |s| == 0 || s[0] == '.' then 0 else 1 + IndexOfDot(s[1..])
  }

  /** Cents denoted by up to two fraction digits ("5" is 50 cents, "05" is 5). */
  function FractionCents(frac: string): (c: nat)
    requires AllDigits(frac) && |frac| <= 2
    ensures c < 100
  {
    if |frac| == 0 then 0
    else if |frac| == 1 then 10 * DigitValue(frac[0])
    else 10 * DigitValue(frac[0]) + DigitValue(frac[1])
  }

  /** The amount texts the ledger reads: an optional sign, then ASCII digits with at most
      one '.', at most two digits after it and at least one digit in all. */
  predicate AmountText(s: string) {
    if |s| > 0 && (s[0] == '+' || s[0] == '-') then UnsignedAmountText(s[1..])
    else UnsignedAmountText(s)
  }

  predicate UnsignedAmountText(u: string) {
    && |u| > 0 && u != "."
    && (forall i :: 0 <= i < |u| ==> IsDigit(u[i]) || u[i] == '.')
    && (forall i, j :: 0 <= i < j < |u| && u[i] == '.' ==> u[j] != '.' && j - i <= 2)
  }

  /** An unsigned decimal "digits[.digits]" with at least one digit and at most two
      fraction digits, in cents. */
  function ParseUnsignedCents(s: string): (r: Option<nat>)
    ensures r.Some? ==> |s| > 0 && (IsDigit(s[0]) || s[0] == '.')
  {
    var k := IndexOfDot(s);
    var whole := s[..k];
    var frac := if k < |s| then s[k + 1..] else "";
    if AllDigits(whole) && AllDigits(frac) && |frac| <= 2 && |whole| + |frac| > 0 then
      assert k > 0 ==> s[0] == whole[0];
      Some(DigitsValue(whole) * 100 + FractionCents(frac))
    else None
  }

  /** The unsigned reader accepts exactly the unsigned amount texts. */
  lemma UnsignedAcceptance(s: string)
    ensures ParseUnsignedCents(s).Some? <==> UnsignedAmountText(s)
  {
    var k := IndexOfDot(s);
    var whole := s[..k];
    var frac := if k < |s| then s[k + 1..] else "";
    UnsignedAccepted(s, k, whole, frac);
    UnsignedRejected(s, k, whole, frac);
  }

  /** Digits, then optionally a dot and at most two digits, form an amount text. */
  lemma UnsignedAccepted(s: string, k: nat, whole: string, frac: string)
    requires k == IndexOfDot(s) && whole == s[..k] && frac == (if k < |s| then s[k + 1..] else "")
    ensures AllDigits(whole) && AllDigits(frac) && |frac| <= 2 && |whole| + |frac| > 0
            ==> UnsignedAmountText(s)
  {
    if AllDigits(whole) && AllDigits(frac) && |frac| <= 2 && |whole| + |frac| > 0 {
      assert |s| == |whole| + (if k < |s| then 1 + |frac| else 0);
      forall i | 0 <= i < k ensures IsDigit(s[i]) {
        assert s[i] == whole[i];
      }
      forall j | k < j < |s| ensures IsDigit(s[j]) {
        assert s[j] == frac[j - k - 1];
      }
    }
  }

  /** Every amount text splits at its dot into digits and at most two fraction digits. */
  lemma UnsignedRejected(s: string, k: nat, whole: string, frac: string)
    requires k == IndexOfDot(s) && whole == s[..k] && frac == (if k < |s| then s[k + 1..] else "")
    ensures UnsignedAmountText(s)
            ==> AllDigits(whole) && AllDigits(frac) && |frac| <= 2 && |whole| + |frac| > 0
  {
    if UnsignedAmountText(s) {
      DigitsBeforeDot(s, k);
      if k < |s| {
        DigitsAfterDot(s, k);
        LoneDot(s);
      }
    }
  }

  /** A one-character string holding a dot is the string ".". */
  lemma LoneDot(s: string)
    ensures |s| == 1 && s[0] == '.' ==> s == "."
  {
    if |s| == 1 && s[0] == '.' {
      assert s == [s[0]];
    }
  }

  /** Before the first dot an amount text has only digits. */
  lemma DigitsBeforeDot(s: string, k: nat)
    requires k == IndexOfDot(s) && UnsignedAmountText(s)
    ensures AllDigits(s[..k])
  {
    forall i | 0 <= i < k ensures IsDigit(s[..k][i]) {
      assert s[..k][i] == s[i] && s[i] != '.';
    }
  }

  /** After its one dot an amount text has at most two characters, all digits. */
  lemma DigitsAfterDot(s: string, k: nat)
    requires k < |s| && s[k] == '.' && UnsignedAmountText(s)
    ensures AllDigits(s[k + 1..]) && |s| - k - 1 <= 2
  {
    forall j | k < j < |s| ensures IsDigit(s[j]) && j - k <= 2 {
      assert s[k] == '.' && s[j] != '.';
    }
    var f := s[k + 1..];
    forall m | 0 <= m < |f| ensures IsDigit(f[m]) {
      assert f[m] == s[k + 1 + m];
    }
    if k + 1 < |s| {
      var j := |s| - 1;
      assert IsDigit(s[j]) && j - k <= 2;
    }
  }

  /** Decimal(s) for an optionally signed decimal with at most two fraction digits, in cents. */
  function ParseDecimalCents(s: string): (r: Option<int>)
    ensures |s| == 0 ==> r.None?
    ensures r.Some? ==> !IsSpace(s[0])
    ensures r.Some? <==> AmountText(s)
  {
    if |s| > 0 && (s[0] == '+' || s[0] == '-') then
      UnsignedAcceptance(s[1..]);
      match ParseUnsignedCents(s[1..])
      case None => None
      case Some(v) => Some(if s[0] == '-' then -(v as int) else v as int)
    else
      UnsignedAcceptance(s);
      match ParseUnsignedCents(s)
      case None => None
      case Some(v) => Some(v)
  }

  /** The module's `_parse_amount`: absent or empty input gives None, otherwise the
      stripped text is read as a decimal amount. */
  function ParseAmount(v: Option<string>): (r: Option<int>)
    ensures v.None? || v == Some("") ==> r.None?
    ensures v.Some? && AllSpace(v.value) ==> r.None?
    ensures r.Some? <==> v.Some? && AmountText(Trim(v.value))
  {
    match v
    case None => None
    case Some(text) => if text == "" then None else ParseDecimalCents(Trim(text))
  }

  /** An amount written with two decimals, as the ledger displays it ("-12.05"). */
  function FormatCents(c: int): (r: string)
    ensures |r| > 0
  {
    if c < 0 then "-" + FormatUnsigned(-c) else FormatUnsigned(c)
  }

  function FormatUnsigned(m: nat): (r: string)
    ensures |r| > 0 && IsDigit(r[0]) && IsDigit(r[|r| - 1])
  {
    var w := NatToDigits(m / 100);
    var f := FixedDigits(m % 100, 2);
    var r := w + "." + f;
    assert r[0] == w[0] && r[|r| - 1] == f[1];
    r
  }

  lemma UnsignedRoundTrip(m: nat)
    ensures ParseUnsignedCents(FormatUnsigned(m)) == Some(m)
  {
    var w, f := NatToDigits(m / 100), FixedDigits(m % 100, 2);
    ParseParts(w, f);
    DigitsRoundTrip(m / 100);
    FractionOfFixed(m % 100);
  }

  /** Whole digits, a dot and at most two fraction digits are read back part by part. */
  lemma ParseParts(w: string, f: string)
    requires AllDigits(w) && AllDigits(f) && |f| <= 2 && |w| > 0
    ensures ParseUnsignedCents(w + "." + f) == Some(DigitsValue(w) * 100 + FractionCents(f))
  {
    DotAfterDigits(w, f);
    var s := w + "." + f;
    ParseAtDot(s, |w|);
  }

  /** A dot and one or two digits, with no whole part, read as those cents. */
  lemma ParseFractionOnly(f: string)
    requires AllDigits(f) && 0 < |f| <= 2
    ensures ParseUnsignedCents("." + f) == Some(FractionCents(f))
  {
    var s := "." + f;
    assert IndexOfDot(s) == 0;
    assert s[1..] == f;
  }

  /** A text whose first dot at k has digits on both sides reads as those two parts. */
  lemma ParseAtDot(s: string, k: nat)
    requires k < |s| && k == IndexOfDot(s)
    requires AllDigits(s[..k]) && AllDigits(s[k + 1..]) && |s| - k - 1 <= 2 && |s| > 1
    ensures ParseUnsignedCents(s) == Some(DigitsValue(s[..k]) * 100 + FractionCents(s[k + 1..]))
  {
  }

  /** Digits written one after the other: the first part is shifted by the second's length. */
  lemma {:induction false} DigitsAppend(w: string, f: string)
    requires AllDigits(w) && AllDigits(f)
    ensures AllDigits(w + f)
    ensures DigitsValue(w + f) == DigitsValue(w) * Pow10(|f|) + DigitsValue(f)
  {
    if |f| > 0 {
      var p := f[..|f| - 1];
      assert (w + f)[..|w + f| - 1] == w + p;
      assert (w + f)[|w + f| - 1] == f[|f| - 1];
      DigitsAppend(w, p);
      ShiftOneDigit(DigitsValue(w), Pow10(|p|), DigitsValue(p), DigitValue(f[|f| - 1]));
    } else {
      assert w + f == w;
    }
  }

  lemma ShiftOneDigit(a: nat, p: nat, b: nat, c: nat)
    ensures (a * p + b) * 10 + c == a * (10 * p) + (b * 10 + c)
  {
  }

  /** "w.f" with at most two fraction digits denotes w + f / 10^|f| units, in cents. */
  lemma UnsignedDottedValue(w: string, f: string)
    requires AllDigits(w) && AllDigits(f) && |f| <= 2 && |w| + |f| > 0
    ensures var r := ParseUnsignedCents(w + "." + f);
      r.Some? && r.value * Pow10(|f|) == 100 * DigitsValue(w + f)
  {
    DottedParts(w, f);
    var v := ParseUnsignedCents(w + "." + f).value;
    DigitsAppend(w, f);
    FractionScale(f);
    CentsScale(v, DigitsValue(w), FractionCents(f), Pow10(|f|), DigitsValue(f), DigitsValue(w + f));
  }

  /** With or without a whole part, "w.f" reads as w units and the fraction's cents. */
  lemma DottedParts(w: string, f: string)
    requires AllDigits(w) && AllDigits(f) && |f| <= 2 && |w| + |f| > 0
    ensures ParseUnsignedCents(w + "." + f) == Some(DigitsValue(w) * 100 + FractionCents(f))
  {
    if |w| > 0 {
      ParseParts(w, f);
    } else {
      assert w == [];
      assert DigitsValue(w) == 0;
      assert w + "." + f == "." + f;
      ParseFractionOnly(f);
    }
  }

  /** The fraction digits, scaled by 10^|f|, are 100 times the number they spell. */
  lemma FractionScale(f: string)
    requires AllDigits(f) && |f| <= 2
    ensures FractionCents(f) * Pow10(|f|) == 100 * DigitsValue(f)
  {
    if |f| == 2 {
      assert f[..1] == [f[0]];
      assert Pow10(2) == 100;
    } else if |f| == 1 {
      assert Pow10(1) == 10;
    }
  }

  lemma CentsScale(v: nat, a: nat, c: nat, p: nat, b: nat, d: nat)
    requires v == a * 100 + c && c * p == 100 * b && d == a * p + b
    ensures v * p == 100 * d
  {
    assert v * p == a * 100 * p + c * p;
  }

  /** Digits without a dot denote whole units. */
  lemma UnsignedWholeValue(w: string)
    requires |w| > 0 && AllDigits(w)
    ensures ParseUnsignedCents(w) == Some(100 * DigitsValue(w))
  {
    assert w[..|w|] == w;
    assert ParseUnsignedCents(w) == Some(DigitsValue(w[..|w|]) * 100) by {
      IndexOfDotAtEnd(w);
      ParseNoDot(w);
    }
  }

  /** A text without a dot is read as its digits alone. */
  lemma ParseNoDot(s: string)
    requires IndexOfDot(s) == |s| && AllDigits(s[..|s|]) && |s| > 0
    ensures ParseUnsignedCents(s) == Some(DigitsValue(s[..|s|]) * 100)
  {
  }

  lemma IndexOfDotAtEnd(w: string)
    requires AllDigits(w)
    ensures IndexOfDot(w) == |w|
  {
    assert forall i :: 0 <= i < |w| ==> w[i] != '.';
  }

  /** A sign in front of an unsigned amount negates it or leaves it as it is. */
  lemma DecimalSigned(sign: string, u: string, v: nat)
    requires SignText(sign) && ParseUnsignedCents(u) == Some(v)
    ensures ParseDecimalCents(sign + u) == Some(Signed(sign, v))
  {
    if sign == "" {
      assert sign + u == u;
    } else {
      assert (sign + u)[1..] == u;
      assert (sign + u)[0] == sign[0];
    }
  }

  /** The amount field strips whitespace around a text with non-blank ends first. */
  lemma AmountPadded(pre: string, t: string, post: string)
    requires AllSpace(pre) && AllSpace(post)
    requires |t| > 0 && !IsSpace(t[0]) && !IsSpace(t[|t| - 1])
    ensures ParseAmount(Some(pre + t + post)) == ParseDecimalCents(t)
  {
    TrimSurrounded(pre, t, post);
  }

  /** An amount typed as digits, a dot and at most two fraction digits, behind an optional
      sign and with any whitespace around it, has the value the digits denote: scaled by
      10^|f| it is 100 times the digits read without the dot. */
  lemma ParseAmountDotted(pre: string, sign: string, w: string, f: string, post: string)
    requires AllSpace(pre) && AllSpace(post) && SignText(sign)
    requires AllDigits(w) && AllDigits(f) && |f| <= 2 && |w| + |f| > 0
    ensures var r := ParseAmount(Some(pre + sign + w + "." + f + post));
      r.Some? && Signed(sign, r.value) * Pow10(|f|) == 100 * DigitsValue(w + f)
  {
    var u := w + "." + f;
    var t := sign + u;
    RegroupDotted(pre, sign, w, f, post);
    assert ParseAmount(Some(pre + t + post)) == ParseDecimalCents(t) by {
      DottedEnds(sign, w, f);
      AmountPadded(pre, t, post);
    }
    UnsignedDottedValue(w, f);
    var v := ParseUnsignedCents(u).value;
    assert ParseDecimalCents(t) == Some(Signed(sign, v)) by {
      DecimalSigned(sign, u, v);
    }
    SignedScale(sign, Signed(sign, v), v, Pow10(|f|), DigitsValue(w + f));
  }

  lemma RegroupDotted(pre: string, sign: string, w: string, f: string, post: string)
    ensures pre + sign + w + "." + f + post == pre + (sign + (w + "." + f)) + post
  {
    Regroup(pre, sign + w, "." + f, post);
    Regroup(pre, sign, w + "." + f, post);
    assert sign + w + "." + f == sign + w + ("." + f);
    assert sign + w + ("." + f) == sign + (w + "." + f);
  }

  /** Undoing the sign of a signed value recovers the scaled magnitude. */
  lemma SignedScale(sign: string, r: int, v: int, p: int, d: int)
    requires r == Signed(sign, v) && v * p == 100 * d
    ensures Signed(sign, r) * p == 100 * d
  {
    SignedTwice(sign, v);
  }

  /** A signed "w.f" starts with a sign, digit or dot and ends with a digit or the dot. */
  lemma DottedEnds(sign: string, w: string, f: string)
    requires SignText(sign) && AllDigits(w) && AllDigits(f)
    ensures var t := sign + w + "." + f; |t| > 0 && !IsSpace(t[0]) && !IsSpace(t[|t| - 1])
  {
    var u := w + "." + f;
    var t := sign + u;
    assert sign + w + "." + f == t;
    assert u[0] == if |w| > 0 then w[0] else '.';
    assert t[0] == if sign == "" then u[0] else sign[0];
    assert u[|u| - 1] == if |f| > 0 then f[|f| - 1] else '.';
    assert t[|t| - 1] == u[|u| - 1];
  }

  /** An amount typed as digits alone, behind an optional sign and with any whitespace
      around it, is that many whole units. */
  lemma ParseAmountWhole(pre: string, sign: string, w: string, post: string)
    requires AllSpace(pre) && AllSpace(post) && SignText(sign)
    requires |w| > 0 && AllDigits(w)
    ensures ParseAmount(Some(pre + sign + w + post)) == Some(Signed(sign, 100 * DigitsValue(w)))
  {
    var t := sign + w;
    assert pre + sign + w + post == pre + t + post by {
      Regroup(pre, sign, w, post);
    }
    assert ParseAmount(Some(pre + t + post)) == ParseDecimalCents(t) by {
      SignedDigitsEnds(sign, w);
      AmountPadded(pre, t, post);
    }
    assert ParseDecimalCents(t) == Some(Signed(sign, 100 * DigitsValue(w))) by {
      UnsignedWholeValue(w);
      DecimalSigned(sign, w, 100 * DigitsValue(w));
    }
  }

  /** The first dot of digits, dot, rest is the one after the digits, and the slices
      around it are the two parts. */
  lemma DotAfterDigits(w: string, f: string)
    requires AllDigits(w)
    ensures IndexOfDot(w + "." + f) == |w|
    ensures (w + "." + f)[..|w|] == w && (w + "." + f)[|w| + 1..] == f
  {
    var s := w + "." + f;
    assert forall i :: 0 <= i < |w| ==> s[i] == w[i];
    assert s[|w|] == '.';
    IndexOfDotAt(s, |w|);
    assert s[..|w|] == w && s[|w| + 1..] == f;
  }

  lemma FractionOfFixed(n: nat)
    requires n < 100
    ensures FractionCents(FixedDigits(n, 2)) == n
  {
    var f := FixedDigits(n, 2);
    assert f[..1] == [f[0]];
    assert DigitsValue(f) == DigitsValue(f[..1]) * 10 + DigitValue(f[1]);
  }

  lemma IndexOfDotAt(s: string, k: nat)
    requires k < |s| && s[k] == '.'
    requires forall i :: 0 <= i < k ==> IsDigit(s[i])
    ensures IndexOfDot(s) == k
  {
  }

  lemma DecimalNegative(u: string, c: int)
    requires c < 0 && ParseUnsignedCents(u) == Some(-c)
    ensures ParseDecimalCents("-" + u) == Some(c)
  {
    assert ("-" + u)[1..] == u;
  }

  lemma DecimalNonNegative(u: string, m: nat)
    requires ParseUnsignedCents(u) == Some(m) && IsDigit(u[0])
    ensures ParseDecimalCents(u) == Some(m)
  {
  }

  lemma DecimalOfFormatted(c: int)
    ensures ParseDecimalCents(FormatCents(c)) == Some(c)
    ensures !IsSpace(FormatCents(c)[0]) && !IsSpace(FormatCents(c)[|FormatCents(c)| - 1])
  {
    if c < 0 {
      NegativeFormatted(c);
    } else {
      NonNegativeFormatted(c);
    }
    FormattedEnds(c);
  }

  lemma NegativeFormatted(c: int)
    requires c < 0
    ensures ParseDecimalCents(FormatCents(c)) == Some(c)
  {
    FormatNegative(c);
    UnsignedRoundTrip(-c);
    DecimalNegative(FormatUnsigned(-c), c);
  }

  lemma FormatNegative(c: int)
    requires c < 0
    ensures FormatCents(c) == "-" + FormatUnsigned(-c)
  {
  }

  lemma NonNegativeFormatted(c: int)
    requires c >= 0
    ensures ParseDecimalCents(FormatCents(c)) == Some(c)
  {
    UnsignedRoundTrip(c);
    DecimalNonNegative(FormatUnsigned(c), c);
  }

  /** A formatted amount starts with a sign or a digit and ends with a digit. */
  lemma FormattedEnds(c: int)
    ensures var s := FormatCents(c); !IsSpace(s[0]) && !IsSpace(s[|s| - 1])
  {
    if c < 0 {
      var u := FormatUnsigned(-c);
      assert FormatCents(c) == "-" + u;
      assert ("-" + u)[|u|] == u[|u| - 1];
    }
  }

  /** Every amount the ledger can display reads back as the same number of cents. */
  lemma ParseFormatCents(c: int)
    ensures ParseAmount(Some(FormatCents(c))) == Some(c)
  {
    DecimalOfFormatted(c);
    TrimUnpadded(FormatCents(c));
  }

  /** An amount as the ledger displays it, with any whitespace around it, reads back as
      the same number of cents. */
  lemma ParsePaddedCents(pre: string, c: int, post: string)
    requires AllSpace(pre) && AllSpace(post)
    ensures ParseAmount(Some(pre + FormatCents(c) + post)) == Some(c)
  {
    DecimalOfFormatted(c);
    TrimSurrounded(pre, FormatCents(c), post);
  }

  /** part / whole * 100 rounded to one decimal place, as an integer number of tenths of
      a percent (halves round up). */
  function RoundedTenthsPercent(part: int, whole: int): (r: int)
    requires whole > 0
    ensures -whole <= 2 * (1000 * part - r * whole) <= whole
  {
    var q := (2000 * part + whole) / (2 * whole);
    var rem := (2000 * part + whole) % (2 * whole);
    assert 2000 * part + whole == q * (2 * whole) + rem;
    q
  }

  /** The one-decimal rounding is exact when the share is a whole number of tenths. */
  lemma RoundedTenthsExact(part: int, whole: int, tenths: int)
    requires whole > 0 && 1000 * part == tenths * whole
    ensures RoundedTenthsPercent(part, whole) == tenths
  {
    var r := RoundedTenthsPercent(part, whole);
    var d := tenths - r;
    assert 1000 * part - r * whole == d * whole;
    if d <= -1 {
      assert (-d) * whole >= whole by { MulAtLeast(-d, whole); }
    }
  }

  lemma MulAtLeast(d: int, w: int)
    requires d >= 1 && w > 0
    ensures d * w >= w
  {
  }

  /** part / whole * 100 >= pct, with exact arithmetic, for a positive whole. */
  predicate AtLeastPercent(part: int, whole: int, pct: real) {
    (part as real) * 100.0 >= pct * (whole as real)
  }
}

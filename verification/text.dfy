/** String helpers shared by the parsers: whitespace trimming, decimal digits,
    integer parsing, ASCII case folding and substring search. */
module Text {
  import opened Outcomes

  /** The characters Python's str.strip() removes, restricted to the Latin-1 range. */
  predicate IsSpace(c: char) {
    c == ' ' || c == '\t' || c == '\n' || c == '\r' || c == '\U{000B}' || c == '\U{000C}'
    || ('\U{001C}' <= c <= '\U{001F}') || c == '\U{0085}' || c == '\U{00A0}'
  }

  predicate AllSpace(s: string) {
    forall k :: 0 <= k < |s| ==> IsSpace(s[k])
  }

  /** Number of whitespace characters at the start of s. */
  function LeadingSpaces(s: string): (n: nat)
    ensures n <= |s|
    ensures AllSpace(s[..n])
    ensures n < |s| ==> !IsSpace(s[n])
  {
    if |s| > 0 && IsSpace(s[0]) then
      var n := 1 + LeadingSpaces(s[1..]);
      assert s[..n] == [s[0]] + s[1..][..n - 1];
      n
    else 0
  }

  /** Length of s once the whitespace at its end is dropped. */
  function TrailingEnd(s: string): (n: nat)
    ensures n <= |s|
    ensures AllSpace(s[n..])
    ensures n > 0 ==> !IsSpace(s[n - 1])
  {
    if |s| > 0 && IsSpace(s[|s| - 1]) then
      var n := TrailingEnd(s[..|s| - 1]);
      assert s[n..] == s[..|s| - 1][n..] + [s[|s| - 1]];
      n
    else |s|
  }

  /** Python's str.strip(): the string without its leading and trailing whitespace. */
  function Trim(s: string): (r: string)
    ensures |r| <= |s|
    ensures |r| > 0 ==> !IsSpace(r[0]) && !IsSpace(r[|r| - 1])
    ensures LeadingSpaces(s) + |r| <= |s|
    ensures r == s[LeadingSpaces(s)..LeadingSpaces(s) + |r|]
    ensures AllSpace(s[..LeadingSpaces(s)]) && AllSpace(s[LeadingSpaces(s) + |r|..])
    ensures r == [] <==> AllSpace(s)
  {
    var lead := LeadingSpaces(s);
    var stop := TrailingEnd(s[lead..]);
    TrimBounds(s, lead, stop);
    TrimEmpty(s, lead, stop);
    s[lead..lead + stop]
  }

  /** The kept middle has no whitespace at its ends, and only whitespace lies around it. */
  lemma TrimBounds(s: string, lead: nat, stop: nat)
    requires lead == LeadingSpaces(s) && stop == TrailingEnd(s[lead..])
    ensures lead + stop <= |s|
    ensures stop > 0 ==> !IsSpace(s[lead..lead + stop][0]) && !IsSpace(s[lead..lead + stop][stop - 1])
    ensures AllSpace(s[lead + stop..])
  {
    assert s[lead + stop..] == s[lead..][stop..];
    if stop > 0 {
      assert s[lead..lead + stop][stop - 1] == s[lead..][stop - 1];
    }
  }

  /** Nothing is kept exactly when the whole string is whitespace. */
  lemma TrimEmpty(s: string, lead: nat, stop: nat)
    requires lead == LeadingSpaces(s) && stop == TrailingEnd(s[lead..])
    ensures stop == 0 <==> AllSpace(s)
  {
    if stop == 0 {
      assert s[lead..][0..] == s[lead..];
      AllSpaceJoin(s, lead);
    } else if lead < |s| {
      assert !IsSpace(s[lead]);
    }
  }

  lemma AllSpaceJoin(s: string, k: nat)
    requires k <= |s| && AllSpace(s[..k]) && AllSpace(s[k..])
    ensures AllSpace(s)
  {
    forall i | 0 <= i < |s| ensures IsSpace(s[i]) {
      if i < k {
        assert s[i] == s[..k][i];
      } else {
        assert s[i] == s[k..][i - k];
      }
    }
  }

  /** Trimming twice is trimming once. */
  lemma TrimIdempotent(s: string)
    ensures Trim(Trim(s)) == Trim(s)
  {
    var t := Trim(s);
    if |t| > 0 {
      assert LeadingSpaces(t) == 0;
      assert TrailingEnd(t) == |t|;
      assert t[0..][..|t|] == t;
    }
  }

  predicate IsDigit(c: char) {
    '0' <= c <= '9'
  }

  predicate AllDigits(s: string) {
    forall k :: 0 <= k < |s| ==> IsDigit(s[k])
  }

  function DigitValue(c: char): (d: nat)
    requires IsDigit(c)
    ensures d < 10
  {
    (c as int) - ('0' as int)
  }

  function DigitChar(d: nat): (c: char)
    requires d < 10
    ensures IsDigit(c) && DigitValue(c) == d
  {
    (('0' as int) + d) as char
  }

  /** The natural number a string of decimal digits denotes (the empty string denotes 0). */
  function DigitsValue(s: string): (n: nat)
    requires AllDigits(s)
    ensures n < Pow10(|s|)
  {
    if |s| == 0 then 0 else DigitsValue(s[..|s| - 1]) * 10 + DigitValue(s[|s| - 1])
  }

  /** Shortest decimal spelling of n. */
  function NatToDigits(n: nat): (r: string)
    ensures |r| > 0 && AllDigits(r)
  {
    if n < 10 then [DigitChar(n)] else NatToDigits(n / 10) + [DigitChar(n % 10)]
  }

  lemma {:induction false} DigitsRoundTrip(n: nat)
    ensures DigitsValue(NatToDigits(n)) == n
  {
    if n >= 10 {
      var r := NatToDigits(n);
      assert r[..|r| - 1] == NatToDigits(n / 10);
      DigitsRoundTrip(n / 10);
    }
  }

  function Pow10(k: nat): (p: nat)
    ensures p >= 1
  {
    if k == 0 then 1 else 10 * Pow10(k - 1)
  }

  /** The decimal spelling of n padded with zeros to exactly `width` digits. */
  function FixedDigits(n: nat, width: nat): (r: string)
    requires n < Pow10(width)
    ensures |r| == width && AllDigits(r)
    ensures DigitsValue(r) == n
  {
    if width == 0 then []
    else
      var r := FixedDigits(n / 10, width - 1) + [DigitChar(n % 10)];
      assert r[..|r| - 1] == FixedDigits(n / 10, width - 1);
      r
  }

  /** A string of digits is the zero-padded spelling of its own value. */
  lemma {:induction false} FixedOfDigits(t: string)
    requires AllDigits(t)
    ensures FixedDigits(DigitsValue(t), |t|) == t
  {
    if |t| > 0 {
      var p := t[..|t| - 1];
      var c := t[|t| - 1];
      FixedOfDigits(p);
      LastDigit(DigitsValue(p), c);
      assert t == p + [c];
    }
  }

  /** Appending a digit to v: the quotient by ten gives v back, the remainder the digit. */
  lemma LastDigit(v: nat, c: char)
    requires IsDigit(c)
    ensures (v * 10 + DigitValue(c)) / 10 == v && DigitChar((v * 10 + DigitValue(c)) % 10) == c
  {
  }

  /** Text int() can read once stripped: at least one digit, possibly after one leading sign. */
  predicate IntSpelling(t: string) {
    && |t| > 0
    && (IsDigit(t[0]) || (|t| > 1 && (t[0] == '+' || t[0] == '-')))
    && forall i :: 0 < i < |t| ==> IsDigit(t[i])
  }

  /** An optional sign written in front of a number. */
  predicate SignText(sign: string) {
    sign == "" || sign == "+" || sign == "-"
  }

  /** The value n carries behind the given sign. */
  function Signed(sign: string, n: int): int {
    if sign == "-" then -n else n
  }

  /** Applying the same sign twice gives the value back. */
  lemma SignedTwice(sign: string, n: int)
    ensures Signed(sign, Signed(sign, n)) == n
  {
  }

  /** Regrouping a text written around a middle part. */
  lemma Regroup(pre: string, a: string, b: string, post: string)
    ensures pre + a + b + post == pre + (a + b) + post
  {
  }

  /** The two shapes of an int() spelling: a sign and then digits, or digits alone. */
  lemma IntSpellingShapes(t: string)
    ensures IntSpelling(t) <==>
      || (|t| > 1 && (t[0] == '+' || t[0] == '-') && AllDigits(t[1..]))
      || (|t| > 0 && AllDigits(t))
  {
    if |t| > 1 {
      assert forall i :: 0 <= i < |t| - 1 ==> t[1..][i] == t[i + 1];
    }
  }

  /** Python's int() applied to a string: surrounding whitespace, an optional sign, then
      at least one decimal digit. (Digit-group underscores are not modelled.) */
  function ParseInt(s: string): (r: Option<int>)
    ensures r.Some? ==> |Trim(s)| > 0
    ensures AllSpace(s) ==> r.None?
    ensures r.Some? <==> IntSpelling(Trim(s))
    ensures r.Some? && r.value < 0 ==> Trim(s)[0] == '-'
  {
    var t := Trim(s);
    IntSpellingShapes(t);
    if |t| > 0 && (t[0] == '+' || t[0] == '-') then
      if |t| > 1 && AllDigits(t[1..]) then
        var magnitude: int := DigitsValue(t[1..]);
        Some(if t[0] == '-' then -magnitude else magnitude)
      else None
    else if |t| > 0 && AllDigits(t) then Some(DigitsValue(t))
    else None
  }

  /** Digits behind an optional sign, with any whitespace around them, read as their value
      (leading zeros included). */
  lemma ParseIntSpelled(pre: string, sign: string, d: string, post: string)
    requires AllSpace(pre) && AllSpace(post) && SignText(sign)
    requires |d| > 0 && AllDigits(d)
    ensures ParseInt(pre + sign + d + post) == Some(Signed(sign, DigitsValue(d)))
  {
    var t := sign + d;
    assert pre + sign + d + post == pre + t + post by {
      Regroup(pre, sign, d, post);
    }
    assert ParseInt(pre + t + post) == ParseInt(t) by {
      SignedDigitsEnds(sign, d);
      ParseIntPadded(pre, t, post);
    }
    assert ParseInt(t) == Some(Signed(sign, DigitsValue(d))) by {
      SignedDigitsEnds(sign, d);
      TrimUnpadded(t);
      ParseSignedDigits(sign, d);
    }
  }

  /** Whitespace around a non-blank text does not change what int() reads. */
  lemma ParseIntPadded(pre: string, t: string, post: string)
    requires AllSpace(pre) && AllSpace(post)
    requires |t| > 0 && !IsSpace(t[0]) && !IsSpace(t[|t| - 1])
    ensures ParseInt(pre + t + post) == ParseInt(t)
  {
    TrimSurrounded(pre, t, post);
    TrimUnpadded(t);
    ParseIntOfTrimmed(pre + t + post, t);
  }

  /** A signed digit string starts and ends with a non-blank character. */
  lemma SignedDigitsEnds(sign: string, d: string)
    requires SignText(sign) && |d| > 0 && AllDigits(d)
    ensures var t := sign + d; |t| > 0 && !IsSpace(t[0]) && !IsSpace(t[|t| - 1])
  {
    var t := sign + d;
    assert t[|t| - 1] == d[|d| - 1];
    assert t[0] == if sign == "" then d[0] else sign[0];
  }

  /** int() looks only at the stripped text. */
  lemma ParseIntOfTrimmed(s: string, t: string)
    requires Trim(s) == t && Trim(t) == t
    ensures ParseInt(s) == ParseInt(t)
  {
  }

  /** A signed digit string with nothing around it reads as its value. */
  lemma ParseSignedDigits(sign: string, d: string)
    requires SignText(sign) && |d| > 0 && AllDigits(d) && Trim(sign + d) == sign + d
    ensures ParseInt(sign + d) == Some(Signed(sign, DigitsValue(d)))
  {
    if sign == "" {
      assert sign + d == d;
      ParseUnsigned(d);
    } else if sign == "-" {
      ParseMinusDigits(sign + d, d);
    } else {
      ParsePlusDigits(sign + d, d);
    }
  }

  lemma ParseMinusDigits(t: string, d: string)
    requires |t| > 1 && t[0] == '-' && t[1..] == d && AllDigits(d) && Trim(t) == t
    ensures ParseInt(t) == Some(-(DigitsValue(d) as int))
  {
  }

  lemma ParsePlusDigits(t: string, d: string)
    requires |t| > 1 && t[0] == '+' && t[1..] == d && AllDigits(d) && Trim(t) == t
    ensures ParseInt(t) == Some(DigitsValue(d))
  {
  }

  /** Python's str() of an integer. */
  function FormatInt(n: int): (r: string)
    ensures |r| > 0
  {
    if n < 0 then "-" + NatToDigits(-n) else NatToDigits(n)
  }

  /** A string with no whitespace at either end is its own trimming. */
  lemma TrimUnpadded(s: string)
    requires |s| > 0 && !IsSpace(s[0]) && !IsSpace(s[|s| - 1])
    ensures Trim(s) == s
  {
    assert LeadingSpaces(s) == 0;
    assert TrailingEnd(s) == |s|;
    assert s[0..][..|s|] == s;
  }

  /** Any whitespace around a string with non-blank ends is stripped off again. */
  lemma TrimSurrounded(pre: string, r: string, post: string)
    requires AllSpace(pre) && AllSpace(post)
    requires |r| > 0 && !IsSpace(r[0]) && !IsSpace(r[|r| - 1])
    ensures Trim(pre + r + post) == r
  {
    var s := pre + r + post;
    assert s == pre + (r + post);
    LeadingOverSpaces(pre, r + post);
    assert s[|pre|..] == r + post;
    TrailingOverSpaces(r, post);
    assert (r + post)[..|r|] == r;
  }

  /** Leading whitespace is counted up to the first non-blank character. */
  lemma {:induction false} LeadingOverSpaces(pre: string, x: string)
    requires AllSpace(pre) && |x| > 0 && !IsSpace(x[0])
    ensures LeadingSpaces(pre + x) == |pre|
  {
    if |pre| == 0 {
      assert pre + x == x;
    } else {
      assert (pre + x)[1..] == pre[1..] + x;
      LeadingOverSpaces(pre[1..], x);
    }
  }

  /** Trailing whitespace is dropped back to the last non-blank character. */
  lemma {:induction false} TrailingOverSpaces(x: string, post: string)
    requires AllSpace(post) && |x| > 0 && !IsSpace(x[|x| - 1])
    ensures TrailingEnd(x + post) == |x|
  {
    if |post| == 0 {
      assert x + post == x;
    } else {
      var s := x + post;
      assert s[..|s| - 1] == x + post[..|post| - 1];
      TrailingOverSpaces(x, post[..|post| - 1]);
    }
  }

  /** int(str(n)) == n. */
  lemma ParseFormatInt(n: int)
    ensures ParseInt(FormatInt(n)) == Some(n)
  {
    if n < 0 {
      var m: nat := -n;
      assert FormatInt(n) == "-" + NatToDigits(m);
      ParseNegative(m);
    } else {
      assert FormatInt(n) == NatToDigits(n);
      ParseNonNegative(n);
    }
  }

  lemma ParseNonNegative(n: nat)
    ensures ParseInt(NatToDigits(n)) == Some(n)
  {
    var r := NatToDigits(n);
    assert IsDigit(r[0]) && IsDigit(r[|r| - 1]);
    TrimUnpadded(r);
    DigitsRoundTrip(n);
    ParseUnsigned(r);
  }

  /** Digits with nothing around them parse to their value. */
  lemma ParseUnsigned(t: string)
    requires Trim(t) == t && |t| > 0 && AllDigits(t)
    ensures ParseInt(t) == Some(DigitsValue(t))
  {
    assert IsDigit(t[0]);
  }

  lemma ParseNegative(m: nat)
    requires m > 0
    ensures ParseInt("-" + NatToDigits(m)) == Some(-(m as int))
  {
    var d := NatToDigits(m);
    var r := "-" + d;
    assert r[1..] == d;
    assert IsDigit(r[|r| - 1]) by { assert r[|r| - 1] == d[|d| - 1]; }
    TrimUnpadded(r);
    DigitsRoundTrip(m);
    ParseSigned(r);
  }

  /** A minus sign followed by digits, with nothing around it, parses to the negated digits. */
  lemma ParseSigned(t: string)
    requires Trim(t) == t && |t| > 1 && t[0] == '-' && AllDigits(t[1..])
    ensures ParseInt(t) == Some(-(DigitsValue(t[1..]) as int))
  {
  }

  /** ASCII lower-casing of one character. */
  function LowerChar(c: char): char {
    if 'A' <= c <= 'Z' then ((c as int) + 32) as char else c
  }

  /** Case-insensitive comparison of names (the SQL `ilike` without wildcards). */
  predicate SameIgnoringCase(a: string, b: string) {
    |a| == |b| && forall k :: 0 <= k < |a| ==> LowerChar(a[k]) == LowerChar(b[k])
  }

  lemma SameIgnoringCaseIsEquivalence(a: string, b: string, c: string)
    ensures SameIgnoringCase(a, a)
    ensures SameIgnoringCase(a, b) ==> SameIgnoringCase(b, a)
    ensures SameIgnoringCase(a, b) && SameIgnoringCase(b, c) ==> SameIgnoringCase(a, c)
  {
  }

  predicate StartsWith(s: string, prefix: string) {
    |prefix| <= |s| && s[..|prefix|] == prefix
  }

  /** Substring test: needle occurs somewhere in s. */
  predicate Contains(s: string, needle: string)
    decreases |s|
  {
    StartsWith(s, needle) || (|s| > 0 && Contains(s[1..], needle))
  }

  /** Contains means: the needle occurs at some offset. */
  lemma {:induction false} ContainsAt(s: string, needle: string, i: nat)
    requires i + |needle| <= |s| && s[i..i + |needle|] == needle
    ensures Contains(s, needle)
    decreases i
  {
    if i > 0 {
      assert s[1..][i - 1..i - 1 + |needle|] == needle;
      ContainsAt(s[1..], needle, i - 1);
    }
  }

  /** Appending text keeps every substring that was already there. */
  lemma {:induction false} ContainsAppend(s: string, t: string, needle: string)
    requires Contains(s, needle)
    ensures Contains(s + t, needle)
    decreases |s|
  {
    if StartsWith(s, needle) {
      assert (s + t)[..|needle|] == s[..|needle|];
    } else {
      assert (s + t)[1..] == s[1..] + t;
      ContainsAppend(s[1..], t, needle);
    }
  }

  /** Lexicographic order by character code: ORDER BY under a binary collation. */
  predicate LexLe(a: string, b: string)
    decreases |a|
  {
    |a| == 0 || (|b| > 0 && (a[0] < b[0] || (a[0] == b[0] && LexLe(a[1..], b[1..]))))
  }

  /** Any two strings compare, comparison chains, and only equal strings tie. */
  lemma {:induction false} LexLeIsTotalOrder(a: string, b: string, c: string)
    ensures LexLe(a, b) || LexLe(b, a)
    ensures LexLe(a, b) && LexLe(b, a) ==> a == b
    ensures LexLe(a, b) && LexLe(b, c) ==> LexLe(a, c)
    decreases |a|
  {
    if |a| > 0 && |b| > 0 && |c| > 0 {
      LexLeIsTotalOrder(a[1..], b[1..], c[1..]);
      if LexLe(a, b) && LexLe(b, a) {
        assert a == [a[0]] + a[1..] && b == [b[0]] + b[1..];
      }
    } else if |a| > 0 && |b| > 0 {
      LexLeIsTotalOrder(a[1..], b[1..], b[1..]);
      if LexLe(a, b) && LexLe(b, a) {
        assert a == [a[0]] + a[1..] && b == [b[0]] + b[1..];
      }
    }
  }
}

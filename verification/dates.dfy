/** Calendar dates as Python's datetime.date sees them: the proleptic Gregorian
    calendar, years 1 to 9999, ISO "YYYY-MM-DD" text. */
module Dates {
  import opened Outcomes
  import opened Text

  datatype Date = Date(year: int, month: int, day: int)

  predicate IsLeapYear(y: int) {
    y % 4 == 0 && (y % 100 != 0 || y % 400 == 0)
  }

  /** calendar.monthrange(y, m)[1]. */
  function DaysInMonth(y: int, m: int): (n: int)
    requires 1 <= m <= 12
    ensures 28 <= n <= 31
    ensures m in {1, 3, 5, 7, 8, 10, 12} ==> n == 31
    ensures m in {4, 6, 9, 11} ==> n == 30
    ensures m == 2 ==> n == (if IsLeapYear(y) then 29 else 28)
  {
    if m == 2 then (if IsLeapYear(y) then 29 else 28)
    else if m == 4 || m == 6 || m == 9 || m == 11 then 30
    else 31
  }

  /** Days in the months of year y before month m. */
  function DaysBeforeMonth(y: int, m: int): (n: nat)
    requires 1 <= m <= 13
  {
    if m == 1 then 0 else DaysBeforeMonth(y, m - 1) + DaysInMonth(y, m - 1)
  }

  /** The twelve months make a year of 365 days, or 366 in a leap year. */
  lemma YearLength(y: int)
    ensures DaysBeforeMonth(y, 13) == if IsLeapYear(y) then 366 else 365
  {
    var feb := DaysInMonth(y, 2);
    assert DaysBeforeMonth(y, 2) == 31;
    assert DaysBeforeMonth(y, 3) == 31 + feb;
    assert DaysBeforeMonth(y, 4) == 62 + feb;
    assert DaysBeforeMonth(y, 5) == 92 + feb;
    assert DaysBeforeMonth(y, 6) == 123 + feb;
    assert DaysBeforeMonth(y, 7) == 153 + feb;
    assert DaysBeforeMonth(y, 8) == 184 + feb;
    assert DaysBeforeMonth(y, 9) == 215 + feb;
    assert DaysBeforeMonth(y, 10) == 245 + feb;
    assert DaysBeforeMonth(y, 11) == 276 + feb;
    assert DaysBeforeMonth(y, 12) == 306 + feb;
    assert DaysBeforeMonth(y, 13) == 337 + feb;
  }

  /** What the date constructor accepts. */
  predicate ValidDate(d: Date) {
    1 <= d.year <= 9999 && 1 <= d.month <= 12 && 1 <= d.day <= DaysInMonth(d.year, d.month)
  }

  /** Chronological order (`<=` on dates). */
  predicate DateLe(a: Date, b: Date) {
    a.year < b.year
    || (a.year == b.year && (a.month < b.month || (a.month == b.month && a.day <= b.day)))
  }

  lemma DateLeIsTotalOrder(a: Date, b: Date, c: Date)
    ensures DateLe(a, a)
    ensures DateLe(a, b) || DateLe(b, a)
    ensures DateLe(a, b) && DateLe(b, a) ==> a == b
    ensures DateLe(a, b) && DateLe(b, c) ==> DateLe(a, c)
  {
  }

  /** date.isoformat(). */
  function FormatIsoDate(d: Date): (r: string)
    requires ValidDate(d)
    ensures |r| == 10 && r[4] == '-' && r[7] == '-'
  {
    FixedDigits(d.year, 4) + "-" + FixedDigits(d.month, 2) + "-" + FixedDigits(d.day, 2)
  }

  /** date.fromisoformat() on the "YYYY-MM-DD" form: None where Python raises ValueError. */
  function ParseIsoDate(s: string): (r: Option<Date>)
    ensures r.Some? ==> ValidDate(r.value)
    ensures r.Some? ==> |s| == 10 && s[4] == '-' && s[7] == '-'
    ensures r.Some? ==> FormatIsoDate(r.value) == s
  {
    if |s| == 10 && s[4] == '-' && s[7] == '-'
       && AllDigits(s[..4]) && AllDigits(s[5..7]) && AllDigits(s[8..])
    then
      var d := Date(DigitsValue(s[..4]), DigitsValue(s[5..7]), DigitsValue(s[8..]));
      if 1 <= d.year && 1 <= d.month <= 12 && 1 <= d.day <= DaysInMonth(d.year, d.month)
      then
        IsoSpelling(s);
        Some(d)
      else None
    else None
  }

  /** Ten characters "dddd-dd-dd" are the padded spelling of their three numbers. */
  lemma IsoSpelling(s: string)
    requires |s| == 10 && s[4] == '-' && s[7] == '-'
    requires AllDigits(s[..4]) && AllDigits(s[5..7]) && AllDigits(s[8..])
    ensures FixedDigits(DigitsValue(s[..4]), 4) + "-" + FixedDigits(DigitsValue(s[5..7]), 2) + "-"
            + FixedDigits(DigitsValue(s[8..]), 2) == s
  {
    FixedOfDigits(s[..4]);
    FixedOfDigits(s[5..7]);
    FixedOfDigits(s[8..]);
    assert s == s[..4] + "-" + s[5..7] + "-" + s[8..];
  }

  /** fromisoformat(isoformat(d)) == d. */
  lemma ParseFormatDate(d: Date)
    requires ValidDate(d)
    ensures ParseIsoDate(FormatIsoDate(d)) == Some(d)
  {
    var y, m, dd := FixedDigits(d.year, 4), FixedDigits(d.month, 2), FixedDigits(d.day, 2);
    var r := FormatIsoDate(d);
    assert r == y + "-" + m + "-" + dd;
    assert r[..4] == y;
    assert r[5..7] == m;
    assert r[8..] == dd;
  }

  /** The module's `_parse_date`: absent or empty input gives None, otherwise the
      stripped text is read as an ISO date. */
  function ParseDate(v: Option<string>): (r: Option<Date>)
    ensures r.Some? ==> ValidDate(r.value)
    ensures v.None? || v == Some("") ==> r.None?
    ensures v.Some? && v.value != "" && AllSpace(v.value) ==> r.None?
    ensures r.Some? ==> v.Some? && FormatIsoDate(r.value) == Trim(v.value)
  {
    match v
    case None => None
    case Some(text) => if text == "" then None else ParseIsoDate(Trim(text))
  }

  /** Every valid date survives being written out and parsed back, whatever whitespace
      surrounds it. */
  lemma ParseDateFormatted(d: Date, pre: string, post: string)
    requires ValidDate(d) && AllSpace(pre) && AllSpace(post)
    ensures ParseDate(Some(pre + FormatIsoDate(d) + post)) == Some(d)
  {
    FormattedDateEnds(d);
    TrimSurrounded(pre, FormatIsoDate(d), post);
    ParseFormatDate(d);
  }

  /** An ISO date starts and ends with a digit. */
  lemma FormattedDateEnds(d: Date)
    requires ValidDate(d)
    ensures var r := FormatIsoDate(d); IsDigit(r[0]) && IsDigit(r[9])
  {
    var r := FormatIsoDate(d);
    assert r[0] == FixedDigits(d.year, 4)[0];
    assert r[9] == FixedDigits(d.day, 2)[1];
  }

  /** First and last day of a month, as get_monthly_summary resolves them. */
  function MonthStart(y: int, m: int): (d: Date)
    requires 1 <= y <= 9999 && 1 <= m <= 12
    ensures ValidDate(d) && d.day == 1
  {
    Date(y, m, 1)
  }

  function MonthEnd(y: int, m: int): (d: Date)
    requires 1 <= y <= 9999 && 1 <= m <= 12
    ensures ValidDate(d)
  {
    Date(y, m, DaysInMonth(y, m))
  }

  /** The inclusive range [MonthStart, MonthEnd] holds exactly the valid dates of that month. */
  lemma MonthRangeIsMonth(y: int, m: int, d: Date)
    requires 1 <= y <= 9999 && 1 <= m <= 12
    requires ValidDate(d)
    ensures DateLe(MonthStart(y, m), d) && DateLe(d, MonthEnd(y, m)) <==> d.year == y && d.month == m
  {
  }

  /** February ends on the 29th exactly in leap years. */
  lemma FebruaryEnd(y: int)
    requires 1 <= y <= 9999
    ensures MonthEnd(y, 2).day == (if IsLeapYear(y) then 29 else 28)
    ensures IsLeapYear(y) ==> ValidDate(Date(y, 2, 29))
    ensures !IsLeapYear(y) ==> !ValidDate(Date(y, 2, 29))
  {
  }
}

/**
  Calendar dates as the report uses them: `convert_datestring_to_date`
  (the first YYYY-MM-DD in a timestamp, parsed as a proleptic Gregorian
  date), the whole-day difference `(todays_date - d).days`, and the ISO form
  `str(date)` in which a date lands in a CSV cell.
 */
module Dates {
  import opened Base

  datatype Date = Date(year: int, month: int, day: int)

  predicate IsLeap(y: int) { y % 4 == 0 && (y % 100 != 0 || y % 400 == 0) }

  function DaysInMonth(y: int, m: int): (n: int)
    requires 1 <= m <= 12
    ensures 28 <= n <= 31
  {
    if m == 2 then (if IsLeap(y) then 29 else 28)
    else if m == 4 || m == 6 || m == 9 || m == 11 then 30
    else 31
  }

  /** The dates Python's `date` can hold: years 1 to 9999, real months and days. */
  predicate IsCalendarDate(d: Date) {
    1 <= d.year <= 9999 && 1 <= d.month <= 12 && 1 <= d.day <= DaysInMonth(d.year, d.month)
  }

  type CalendarDate = d: Date | IsCalendarDate(d) witness Date(1970, 1, 1)

  /** Strictly earlier in the calendar. */
  predicate Before(a: Date, b: Date) {
    a.year < b.year
    || (a.year == b.year && a.month < b.month)
    || (a.year == b.year && a.month == b.month && a.day < b.day)
  }

  function YearLength(y: int): int { if IsLeap(y) then 366 else 365 }

  /** Days in the years before `y`, counted from 1 January of year 1. */
  function DaysBeforeYear(y: int): int
    requires 1 <= y
  {
    var p := y - 1;
    p * 365 + p / 4 - p / 100 + p / 400
  }

  /** Days in the months of year `y` before month `m`. */
  function DaysBeforeMonth(y: int, m: int): int
    requires 1 <= m <= 12
  {
    [0, 31, 59, 90, 120, 151, 181, 212, 243, 273, 304, 334][m - 1]
      + (if m > 2 && IsLeap(y) then 1 else 0)
  }

  /** Python's `date.toordinal()`: 1 January of year 1 is day 1. */
  function Ordinal(d: CalendarDate): int
  {
    DaysBeforeYear(d.year) + DaysBeforeMonth(d.year, d.month) + d.day
  }

  /** `(today - d).days`: the whole days from `d` to `today`. */
  function DaysSince(today: CalendarDate, d: CalendarDate): int
  {
    Ordinal(today) - Ordinal(d)
  }

  lemma DaysBeforeYearStep(y: int)
    requires 1 <= y
    ensures DaysBeforeYear(y + 1) == DaysBeforeYear(y) + YearLength(y)
  {
    assert y / 4 - (y - 1) / 4 == if y % 4 == 0 then 1 else 0;
    assert y / 100 - (y - 1) / 100 == if y % 100 == 0 then 1 else 0;
    assert y / 400 - (y - 1) / 400 == if y % 400 == 0 then 1 else 0;
  }

  /** A whole earlier year ends no later than a later year begins. */
  lemma {:induction false} DaysBeforeYearMonotone(a: int, b: int)
    requires 1 <= a < b
    ensures DaysBeforeYear(a) + YearLength(a) <= DaysBeforeYear(b)
  {
    DaysBeforeYearStep(b - 1);
    if a < b - 1 {
      DaysBeforeYearMonotone(a, b - 1);
    }
  }

  lemma DaysBeforeMonthStep(y: int, m: int)
    requires 1 <= m <= 12
    ensures DaysBeforeMonth(y, m) + DaysInMonth(y, m)
            == if m == 12 then YearLength(y) else DaysBeforeMonth(y, m + 1)
  {
  }

  /** A whole earlier month ends no later than a later month of the same year begins. */
  lemma {:induction false} DaysBeforeMonthMonotone(y: int, a: int, b: int)
    requires 1 <= a < b <= 12
    ensures DaysBeforeMonth(y, a) + DaysInMonth(y, a) <= DaysBeforeMonth(y, b)
  {
    DaysBeforeMonthStep(y, b - 1);
    if a < b - 1 {
      DaysBeforeMonthMonotone(y, a, b - 1);
    }
  }

  /** Ordinals follow the calendar: an earlier date has a smaller ordinal. */
  lemma OrdinalMonotone(a: CalendarDate, b: CalendarDate)
    requires Before(a, b)
    ensures Ordinal(a) < Ordinal(b)
  {
    if a.year < b.year {
      DaysBeforeMonthStep(a.year, a.month);
      if a.month < 12 {
        DaysBeforeMonthMonotone(a.year, a.month, 12);
        DaysBeforeMonthStep(a.year, 12);
      }
      DaysBeforeYearMonotone(a.year, b.year);
    } else if a.month < b.month {
      DaysBeforeMonthMonotone(a.year, a.month, b.month);
    }
  }

  /** The calendar day after `d`; 31 December 9999 has none. */
  function NextDay(d: CalendarDate): CalendarDate
    requires d.year < 9999 || d.month < 12 || d.day < 31
  {
    if d.day < DaysInMonth(d.year, d.month) then Date(d.year, d.month, d.day + 1)
    else if d.month < 12 then Date(d.year, d.month + 1, 1)
    else Date(d.year + 1, 1, 1)
  }

  /** Ordinals count days: the next calendar day has the next ordinal. */
  lemma OrdinalNextDay(d: CalendarDate)
    requires d.year < 9999 || d.month < 12 || d.day < 31
    ensures Before(d, NextDay(d))
    ensures Ordinal(NextDay(d)) == Ordinal(d) + 1
  {
    if d.day == DaysInMonth(d.year, d.month) {
      DaysBeforeMonthStep(d.year, d.month);
      if d.month == 12 {
        DaysBeforeYearStep(d.year);
      }
    }
  }

  /** `(today - d).days` counts whole days: the day after `d` is one day nearer to `today`. */
  lemma DaysSinceNextDay(today: CalendarDate, d: CalendarDate)
    requires d.year < 9999 || d.month < 12 || d.day < 31
    ensures DaysSince(today, d) == DaysSince(today, NextDay(d)) + 1
  {
    OrdinalNextDay(d);
  }

  /**
    The sign of the days-since-last-hit column: 0 exactly when the last hit was
    today, positive exactly when it was before today, negative exactly when the
    recorded date lies after today.
   */
  lemma DaysSinceSign(today: CalendarDate, d: CalendarDate)
    ensures DaysSince(today, d) == 0 <==> d == today
    ensures DaysSince(today, d) > 0 <==> Before(d, today)
    ensures DaysSince(today, d) < 0 <==> Before(today, d)
  {
    if Before(d, today) {
      OrdinalMonotone(d, today);
    } else if Before(today, d) {
      OrdinalMonotone(today, d);
    } else {
      assert d == today;
    }
  }

  /** Where `\d{4}-\d{2}-\d{2}` matches `s` (ASCII digits). */
  predicate DatePatternAt(s: string, i: nat) {
    && i + 10 <= |s|
    && IsDigit(s[i]) && IsDigit(s[i + 1]) && IsDigit(s[i + 2]) && IsDigit(s[i + 3])
    && s[i + 4] == '-'
    && IsDigit(s[i + 5]) && IsDigit(s[i + 6])
    && s[i + 7] == '-'
    && IsDigit(s[i + 8]) && IsDigit(s[i + 9])
  }

  /** `re.search`: the leftmost position at or after `from` where the pattern matches. */
  function FindDatePattern(s: string, from: nat): (r: Option<nat>)
    ensures r.Some? ==> from <= r.value && DatePatternAt(s, r.value)
    ensures forall j: nat :: from <= j && (r.None? || j < r.value) ==> !DatePatternAt(s, j)
    decreases |s| - from
  {
    if |s| < from + 10 then None
    else if DatePatternAt(s, from) then Some(from)
    else FindDatePattern(s, from + 1)
  }

  /** `'%04d'`, `'%02d'`: fixed-width zero-padded decimal. */
  function Digits4(n: nat): (r: string)
    requires n < 10000
    ensures |r| == 4 && forall i :: 0 <= i < 4 ==> IsDigit(r[i])
  {
    [DigitChar(n / 1000), DigitChar(n / 100 % 10), DigitChar(n / 10 % 10), DigitChar(n % 10)]
  }

  function Digits2(n: nat): (r: string)
    requires n < 100
    ensures |r| == 2 && IsDigit(r[0]) && IsDigit(r[1])
  {
    [DigitChar(n / 10), DigitChar(n % 10)]
  }

  /** `str(d)`, i.e. `d.isoformat()`: YYYY-MM-DD. */
  function FormatDate(d: CalendarDate): (r: string)
    ensures |r| == 10 && DatePatternAt(r, 0)
  {
    Digits4(d.year) + "-" + Digits2(d.month) + "-" + Digits2(d.day)
  }

  /** The value of the `width` digits of `s` starting at `i`. */
  function NumberAt(s: string, i: nat, width: nat): nat
    requires i + width <= |s|
    requires forall k :: i <= k < i + width ==> IsDigit(s[k])
  {
    DigitsValue(s[i..i + width])
  }

  lemma DigitsValueSnoc(s: string, c: char)
    requires forall i :: 0 <= i < |s| ==> IsDigit(s[i])
    requires IsDigit(c)
    ensures DigitsValue(s + [c]) == DigitsValue(s) * 10 + DigitValue(c)
  {
    assert (s + [c])[..|s|] == s;
  }

  lemma SplitDigits4(n: nat)
    requires n < 10000
    ensures n == 1000 * (n / 1000) + 100 * (n / 100 % 10) + 10 * (n / 10 % 10) + n % 10
  {
    assert n / 1000 * 10 + n / 100 % 10 == n / 100;
    assert n / 100 * 10 + n / 10 % 10 == n / 10;
    assert n / 10 * 10 + n % 10 == n;
  }

  lemma Digits4Value(n: nat)
    requires n < 10000
    ensures DigitsValue(Digits4(n)) == n
  {
    DigitsValue4(DigitChar(n / 1000), DigitChar(n / 100 % 10), DigitChar(n / 10 % 10), DigitChar(n % 10));
    SplitDigits4(n);
  }

  lemma Digits2Value(n: nat)
    requires n < 100
    ensures DigitsValue(Digits2(n)) == n
  {
    var a, b := DigitChar(n / 10), DigitChar(n % 10);
    assert Digits2(n) == [a] + [b];
    DigitsValueSnoc([], a);
    assert [] + [a] == [a];
    DigitsValueSnoc([a], b);
  }

  /** Reading a date back from a window of digits that `FormatDate` wrote. */
  lemma FormatDateFields(d: CalendarDate, s: string, i: nat)
    requires i + 10 <= |s| && s[i..i + 10] == FormatDate(d)
    ensures DatePatternAt(s, i)
    ensures NumberAt(s, i, 4) == d.year
    ensures NumberAt(s, i + 5, 2) == d.month
    ensures NumberAt(s, i + 8, 2) == d.day
  {
    var f := FormatDate(d);
    assert forall k :: 0 <= k < 10 ==> s[i + k] == f[k];
    assert s[i..i + 4] == f[..4] == Digits4(d.year);
    assert s[i + 5..i + 7] == f[5..7] == Digits2(d.month);
    assert s[i + 8..i + 10] == f[8..10] == Digits2(d.day);
    Digits4Value(d.year);
    Digits2Value(d.month);
    Digits2Value(d.day);
  }

  /** The date whose digits stand at a match, before any calendar check. */
  function DateAt(s: string, i: nat): Date
    requires DatePatternAt(s, i)
  {
    Date(NumberAt(s, i, 4), NumberAt(s, i + 5, 2), NumberAt(s, i + 8, 2))
  }

  /**
    `convert_datestring_to_date`: the first YYYY-MM-DD in `s` as a date. No
    match, or a match that is no calendar date (month 13, 30 February, year 0),
    is an error.
   */
  function ConvertDatestring(s: string): (r: Result<CalendarDate>)
    ensures r == Failure(DateNotFound) <==> forall j: nat :: !DatePatternAt(s, j)
    ensures r.Failure? ==> r.error == DateNotFound || r.error == DateInvalid
    ensures r.Success? ==>
      exists i: nat :: DatePatternAt(s, i) && r.value == DateAt(s, i)
        && forall j: nat :: j < i ==> !DatePatternAt(s, j)
    ensures (exists i: nat :: DatePatternAt(s, i) && IsCalendarDate(DateAt(s, i))
               && forall j: nat :: j < i ==> !DatePatternAt(s, j))
            ==> r.Success?
  {
    match FindDatePattern(s, 0)
    case None => Failure(DateNotFound)
    case Some(i) =>
      var d := DateAt(s, i);
      if IsCalendarDate(d) then Success(d) else Failure(DateInvalid)
  }

  /**
    A server timestamp that starts with the ISO date of `d` (as in
    "2024-01-15T00:00:00Z") converts back to `d`; this is also how the cells
    written by `FormatDate` read back.
   */
  lemma ConvertFormatted(d: CalendarDate, rest: string)
    ensures ConvertDatestring(FormatDate(d) + rest) == Success(d)
  {
    var s := FormatDate(d) + rest;
    assert s[0..10] == FormatDate(d);
    FormatDateFields(d, s, 0);
    assert FindDatePattern(s, 0) == Some(0);
    assert DateAt(s, 0) == d;
  }

  lemma DigitCharValue(c: char)
    requires IsDigit(c)
    ensures DigitChar(DigitValue(c)) == c
  {
  }

  lemma DigitsValue4(p: char, q: char, r: char, t: char)
    requires IsDigit(p) && IsDigit(q) && IsDigit(r) && IsDigit(t)
    ensures DigitsValue([p, q, r, t])
            == 1000 * DigitValue(p) + 100 * DigitValue(q) + 10 * DigitValue(r) + DigitValue(t)
  {
    DigitsValueSnoc([], p);
    assert [] + [p] == [p];
    DigitsValueSnoc([p], q);
    assert [p] + [q] == [p, q];
    DigitsValueSnoc([p, q], r);
    assert [p, q] + [r] == [p, q, r];
    DigitsValueSnoc([p, q, r], t);
    assert [p, q, r] + [t] == [p, q, r, t];
  }

  lemma DigitsValue2(p: char, q: char)
    requires IsDigit(p) && IsDigit(q)
    ensures DigitsValue([p, q]) == 10 * DigitValue(p) + DigitValue(q)
  {
    DigitsValueSnoc([], p);
    assert [] + [p] == [p];
    DigitsValueSnoc([p], q);
    assert [p] + [q] == [p, q];
  }

  lemma DivModDigits4(a: nat, b: nat, c: nat, d: nat)
    requires a < 10 && b < 10 && c < 10 && d < 10
    ensures var n := 1000 * a + 100 * b + 10 * c + d;
      n < 10000 && n / 1000 == a && n / 100 % 10 == b && n / 10 % 10 == c && n % 10 == d
  {
    var n := 1000 * a + 100 * b + 10 * c + d;
    assert n == 10 * (100 * a + 10 * b + c) + d;
    assert n / 10 == 100 * a + 10 * b + c && n % 10 == d;
    assert n / 10 == 10 * (10 * a + b) + c;
    assert n / 10 % 10 == c;
    assert n == 100 * (10 * a + b) + (10 * c + d);
    assert n / 100 == 10 * a + b;
    assert n == 1000 * a + (100 * b + 10 * c + d);
    assert n / 1000 == a;
  }

  lemma DivModDigits2(a: nat, b: nat)
    requires a < 10 && b < 10
    ensures var n := 10 * a + b; n < 100 && n / 10 == a && n % 10 == b
  {
  }

  lemma Digits4OfDigits(a: nat, b: nat, c: nat, d: nat)
    requires a < 10 && b < 10 && c < 10 && d < 10
    ensures 1000 * a + 100 * b + 10 * c + d < 10000
    ensures Digits4(1000 * a + 100 * b + 10 * c + d) == [DigitChar(a), DigitChar(b), DigitChar(c), DigitChar(d)]
  {
    DivModDigits4(a, b, c, d);
  }

  /** Re-printing four digits read as a number gives back the same characters. */
  lemma Digits4OfValue(w: string)
    requires |w| == 4 && forall i :: 0 <= i < 4 ==> IsDigit(w[i])
    ensures DigitsValue(w) < 10000 && Digits4(DigitsValue(w)) == w
  {
    assert w == [w[0], w[1], w[2], w[3]];
    var a, b, c, d := DigitValue(w[0]), DigitValue(w[1]), DigitValue(w[2]), DigitValue(w[3]);
    DigitsValue4(w[0], w[1], w[2], w[3]);
    Digits4OfDigits(a, b, c, d);
    DigitCharValue(w[0]);
    DigitCharValue(w[1]);
    DigitCharValue(w[2]);
    DigitCharValue(w[3]);
  }

  lemma Digits2OfValue(p: char, q: char)
    requires IsDigit(p) && IsDigit(q)
    ensures DigitsValue([p, q]) < 100 && Digits2(DigitsValue([p, q])) == [p, q]
  {
    DigitsValue2(p, q);
    DivModDigits2(DigitValue(p), DigitValue(q));
    DigitCharValue(p);
    DigitCharValue(q);
  }

  /** A match that is a calendar date prints back as the text it was read from. */
  lemma FormatDateAt(s: string, i: nat)
    requires DatePatternAt(s, i) && IsCalendarDate(DateAt(s, i))
    ensures s[i..i + 10] == FormatDate(DateAt(s, i))
  {
    var d := DateAt(s, i);
    var y, m, dd := s[i..i + 4], s[i + 5..i + 7], s[i + 8..i + 10];
    Digits4OfValue(y);
    assert Digits4(d.year) == y;
    assert m == [s[i + 5], s[i + 6]];
    Digits2OfValue(s[i + 5], s[i + 6]);
    assert Digits2(d.month) == m;
    assert dd == [s[i + 8], s[i + 9]];
    Digits2OfValue(s[i + 8], s[i + 9]);
    assert Digits2(d.day) == dd;
    assert s[i..i + 10] == y + "-" + m + "-" + dd;
  }

  /**
    The DATE_LAST_HIT and MODIFIED_DATE cells show exactly the date text of the
    server's timestamp: printing a converted date gives back the first match.
   */
  lemma FormatConverted(s: string)
    requires ConvertDatestring(s).Success?
    ensures FindDatePattern(s, 0).Some?
    ensures var i := FindDatePattern(s, 0).value;
      s[i..i + 10] == FormatDate(ConvertDatestring(s).value)
  {
    FormatDateAt(s, FindDatePattern(s, 0).value);
  }
}

/**
  Proleptic-Gregorian calendar arithmetic on day numbers counted from
  1970-01-01 (day 0), in integers only.  `DaysToDate` is the civil-from-days
  direction used when a `utcDay` value becomes a calendar date; `DateToDays`
  is its inverse.
 */
module CivilDate {

  datatype Date = Date(year: int, month: int, day: int)

  predicate IsLeapYear(y: int) {
    y % 4 == 0 && (y % 100 != 0 || y % 400 == 0)
  }

  function DaysInYear(y: int): int {
    if IsLeapYear(y) then 366 else 365
  }

  function DaysInMonth(y: int, m: int): int
    requires 1 <= m <= 12
  {
    if m == 2 then (if IsLeapYear(y) then 29 else 28)
    else if m == 4 || m == 6 || m == 9 || m == 11 then 30
    else 31
  }

  predicate ValidDate(d: Date) {
    1 <= d.month <= 12 && 1 <= d.day <= DaysInMonth(d.year, d.month)
  }

  /** Lexicographic order on (year, month, day): the calendar order. */
  predicate Before(a: Date, b: Date) {
    a.year < b.year
    || (a.year == b.year && a.month < b.month)
    || (a.year == b.year && a.month == b.month && a.day < b.day)
  }

  /** Number of leap years among the years before `y`, counted from year 1
      (negative below year 1; Dafny's `/` rounds towards minus infinity here). */
  function LeapsBefore(y: int): int {
    (y - 1) / 4 - (y - 1) / 100 + (y - 1) / 400
  }

  /** Days from 1970-01-01 to January 1st of year `y` (negative before 1970). */
  function DaysBeforeYear(y: int): int {
    365 * (y - 1970) + LeapsBefore(y) - LeapsBefore(1970)
  }

  /** Days from January 1st of year `y` to the first day of month `m`. */
  function DaysBeforeMonth(y: int, m: int): int
    requires 1 <= m <= 12
  {
    var leap := if m > 2 && IsLeapYear(y) then 1 else 0;
    leap + (
      if m == 1 then 0 else if m == 2 then 31 else if m == 3 then 59
      else if m == 4 then 90 else if m == 5 then 120 else if m == 6 then 151
      else if m == 7 then 181 else if m == 8 then 212 else if m == 9 then 243
      else if m == 10 then 273 else if m == 11 then 304 else 334)
  }

  /** The day number of a calendar date. */
  function DateToDays(d: Date): int
    requires ValidDate(d)
  {
    DaysBeforeYear(d.year) + DaysBeforeMonth(d.year, d.month) + d.day - 1
  }

  lemma DivStep(y: int, k: int)
    requires k == 4 || k == 100 || k == 400
    ensures y / k - (y - 1) / k == if y % k == 0 then 1 else 0
  {
  }

  /** Consecutive years are `DaysInYear` apart. */
  lemma YearStep(y: int)
    ensures DaysBeforeYear(y + 1) == DaysBeforeYear(y) + DaysInYear(y)
  {
    DivStep(y, 4);
    DivStep(y, 100);
    DivStep(y, 400);
  }

  lemma {:induction false} YearsMonotone(a: int, b: int)
    requires a <= b
    ensures DaysBeforeYear(a) <= DaysBeforeYear(b)
    ensures a < b ==> DaysBeforeYear(a) + DaysInYear(a) <= DaysBeforeYear(b)
    decreases b - a
  {
    if a < b {
      YearStep(a);
      YearsMonotone(a + 1, b);
    }
  }

  /** Consecutive months are `DaysInMonth` apart, and December ends the year. */
  lemma MonthStep(y: int, m: int)
    requires 1 <= m <= 12
    ensures m < 12 ==> DaysBeforeMonth(y, m + 1) == DaysBeforeMonth(y, m) + DaysInMonth(y, m)
    ensures m == 12 ==> DaysInYear(y) == DaysBeforeMonth(y, m) + DaysInMonth(y, m)
  {
  }

  lemma {:induction false} MonthsMonotone(y: int, a: int, b: int)
    requires 1 <= a < b <= 12
    ensures DaysBeforeMonth(y, a) + DaysInMonth(y, a) <= DaysBeforeMonth(y, b)
    decreases b - a
  {
    MonthStep(y, a);
    if a + 1 < b {
      MonthsMonotone(y, a + 1, b);
    }
  }

  lemma DayWithinYear(d: Date)
    requires ValidDate(d)
    ensures 0 <= DaysBeforeMonth(d.year, d.month) + d.day - 1 < DaysInYear(d.year)
  {
    if d.month < 12 {
      MonthsMonotone(d.year, d.month, 12);
    }
    MonthStep(d.year, 12);
  }

  /** Walks whole years from `y` until `offset` (days after January 1st of
      `y`) falls inside one year; returns that year and the offset in it. */
  function YearAndOffset(y: int, offset: int): (r: (int, int))
    ensures DaysBeforeYear(r.0) + r.1 == DaysBeforeYear(y) + offset
    ensures 0 <= r.1 < DaysInYear(r.0)
    decreases if offset < 0 then 1 else 0, if offset < 0 then -offset else offset
  {
    if offset < 0 then
      YearStep(y - 1);
      YearAndOffset(y - 1, offset + DaysInYear(y - 1))
    else if offset < DaysInYear(y) then
      (y, offset)
    else
      YearStep(y);
      YearAndOffset(y + 1, offset - DaysInYear(y))
  }

  /** Walks whole months from month `m` of year `y` until `offset` (days
      after the first of month `m`) falls inside one month. */
  function MonthAndOffset(y: int, m: int, offset: int): (r: (int, int))
    requires 1 <= m <= 12
    requires 0 <= offset < DaysInYear(y) - DaysBeforeMonth(y, m)
    ensures m <= r.0 <= 12 && 0 <= r.1 < DaysInMonth(y, r.0)
    ensures DaysBeforeMonth(y, r.0) + r.1 == DaysBeforeMonth(y, m) + offset
    decreases 12 - m
  {
    MonthStep(y, m);
    if offset < DaysInMonth(y, m) then
      (m, offset)
    else
      MonthAndOffset(y, m + 1, offset - DaysInMonth(y, m))
  }

  /** The calendar date `days` days after 1970-01-01. */
  function DaysToDate(days: int): (r: Date)
    ensures ValidDate(r)
    ensures DateToDays(r) == days
  {
    var (y, offset) := YearAndOffset(1970, days);
    var (m, d) := MonthAndOffset(y, 1, offset);
    Date(y, m, d + 1)
  }

  /** A later calendar date has a larger day number. */
  lemma DateToDaysMonotone(a: Date, b: Date)
    requires ValidDate(a) && ValidDate(b)
    requires Before(a, b)
    ensures DateToDays(a) < DateToDays(b)
  {
    if a.year < b.year {
      DayWithinYear(a);
      YearsMonotone(a.year, b.year);
    } else if a.month < b.month {
      MonthsMonotone(a.year, a.month, b.month);
    }
  }

  lemma DateToDaysInjective(a: Date, b: Date)
    requires ValidDate(a) && ValidDate(b)
    requires DateToDays(a) == DateToDays(b)
    ensures a == b
  {
    if Before(a, b) {
      DateToDaysMonotone(a, b);
    } else if Before(b, a) {
      DateToDaysMonotone(b, a);
    }
  }

  /** `DaysToDate` inverts `DateToDays`: every valid date is reached from
      exactly its own day number. */
  lemma DateRoundTrip(d: Date)
    requires ValidDate(d)
    ensures DaysToDate(DateToDays(d)) == d
  {
    DateToDaysInjective(DaysToDate(DateToDays(d)), d);
  }

  /** Day numbers map to calendar dates in strictly increasing order. */
  lemma DaysToDateStrictlyIncreasing(d1: int, d2: int)
    requires d1 < d2
    ensures Before(DaysToDate(d1), DaysToDate(d2))
  {
    var a, b := DaysToDate(d1), DaysToDate(d2);
    if !Before(a, b) {
      if a == b {
      } else {
        DateToDaysMonotone(b, a);
      }
    }
  }

  /** A day lies between the first days of its year and of the next. */
  lemma YearBounds(days: int)
    ensures DaysBeforeYear(DaysToDate(days).year) <= days < DaysBeforeYear(DaysToDate(days).year + 1)
  {
    var r := DaysToDate(days);
    DayWithinYear(r);
    YearStep(r.year);
  }

  /** The year of `DaysToDate(days)` is at least `lo` exactly when `days` is
      not before the first day of `lo`. */
  lemma YearAtLeast(days: int, lo: int)
    ensures lo <= DaysToDate(days).year <==> DaysBeforeYear(lo) <= days
  {
    var y := DaysToDate(days).year;
    YearBounds(days);
    if y < lo {
      YearsMonotone(y + 1, lo);
    } else {
      YearsMonotone(lo, y);
    }
  }

  /** The year of `DaysToDate(days)` lies in `lo..hi` exactly when `days` lies
      between the first day of `lo` and the last day of `hi`. */
  lemma YearRange(days: int, lo: int, hi: int)
    requires lo <= hi
    ensures lo <= DaysToDate(days).year <= hi
        <==> DaysBeforeYear(lo) <= days < DaysBeforeYear(hi + 1)
  {
    YearAtLeast(days, lo);
    YearAtLeast(days, hi + 1);
  }
}

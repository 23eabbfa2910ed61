/**
  `utc_day_to_date`: a `utcDay` value (days since 1970-01-01) becomes the
  `YYYY-MM-DD` text of that UTC day.  The conversion goes through a POSIX
  timestamp (`utc_day * 86400`) and `datetime.fromtimestamp`, which only
  represents years 1 through 9999 and raises for any other day; a timestamp
  that is a whole number of days always lands on midnight, so only the date
  part of the result matters.
 */
module DateFormat {
  import opened Wrappers
  import opened CivilDate

  /** The first and last day numbers `datetime` can represent:
      0001-01-01 and 9999-12-31. */
  const MinDay := -719162
  const MaxDay := 2932896

  function Digit(n: int): char
    requires 0 <= n <= 9
  {
    ('0' as int + n) as char
  }

  predicate IsDigit(c: char) {
    '0' <= c <= '9'
  }

  function DigitValue(c: char): int
    requires IsDigit(c)
  {
    c as int - '0' as int
  }

  lemma DigitFacts(n: int)
    requires 0 <= n <= 9
    ensures IsDigit(Digit(n)) && DigitValue(Digit(n)) == n
  {
  }

  /** `n` written with exactly two decimal digits, zero-padded. */
  function Pad2(n: int): (s: string)
    requires 0 <= n <= 99
    ensures |s| == 2
  {
    [Digit(n / 10), Digit(n % 10)]
  }

  /** `n` written with exactly four decimal digits, zero-padded. */
  function Pad4(n: int): (s: string)
    requires 0 <= n <= 9999
    ensures |s| == 4
  {
    Pad2(n / 100) + Pad2(n % 100)
  }

  predicate AllDigits(s: string) {
    forall k :: 0 <= k < |s| ==> IsDigit(s[k])
  }

  /** The number written by two decimal digits. */
  function Value2(s: string): int
    requires |s| == 2 && AllDigits(s)
  {
    DigitValue(s[0]) * 10 + DigitValue(s[1])
  }

  /** The number written by four decimal digits. */
  function Value4(s: string): int
    requires |s| == 4 && AllDigits(s)
  {
    Value2(s[..2]) * 100 + Value2(s[2..])
  }

  lemma Pad2Value(n: int)
    requires 0 <= n <= 99
    ensures AllDigits(Pad2(n)) && Value2(Pad2(n)) == n
  {
    DigitFacts(n / 10);
    DigitFacts(n % 10);
  }

  lemma Pad4Value(n: int)
    requires 0 <= n <= 9999
    ensures AllDigits(Pad4(n)) && Value4(Pad4(n)) == n
  {
    Pad2Value(n / 100);
    Pad2Value(n % 100);
    var s := Pad4(n);
    assert s[..2] == Pad2(n / 100);
    assert s[2..] == Pad2(n % 100);
  }

  predicate Formattable(d: Date) {
    ValidDate(d) && 0 <= d.year <= 9999
  }

  /** The `-MM-DD` part of a formatted date. */
  function MonthDay(month: int, day: int): (s: string)
    requires 0 <= month <= 99 && 0 <= day <= 99
    ensures |s| == 6
  {
    "-" + Pad2(month) + "-" + Pad2(day)
  }

  /** `strftime("%Y-%m-%d")` of a date. */
  function FormatDate(d: Date): (s: string)
    requires Formattable(d)
    ensures |s| == 10 && s[4] == '-' && s[7] == '-'
  {
    Pad4(d.year) + MonthDay(d.month, d.day)
  }

  /** Reads `YYYY-MM-DD` back into a date; `None` for any other text or an
      impossible date such as `2023-02-30`. */
  function ParseDate(s: string): (r: Option<Date>)
    ensures r.Some? ==> Formattable(r.value)
  {
    if |s| == 10 && s[4] == '-' && s[7] == '-'
       && AllDigits(s[0..4]) && AllDigits(s[5..7]) && AllDigits(s[8..10])
    then
      var d := Date(Value4(s[0..4]), Value2(s[5..7]), Value2(s[8..10]));
      if Formattable(d) then Some(d) else None
    else
      None
  }

  /** Python's string comparison: lexicographic by code point. */
  predicate LexLess(a: string, b: string) {
    if |a| == 0 then |b| > 0
    else if |b| == 0 then false
    else a[0] < b[0] || (a[0] == b[0] && LexLess(a[1..], b[1..]))
  }

  lemma ParseFormat(d: Date)
    requires Formattable(d)
    ensures ParseDate(FormatDate(d)) == Some(d)
  {
    var s := FormatDate(d);
    assert s[0..4] == Pad4(d.year);
    assert s[5..7] == Pad2(d.month);
    assert s[8..10] == Pad2(d.day);
    Pad4Value(d.year);
    Pad2Value(d.month);
    Pad2Value(d.day);
  }

  /** Text after an equal-length prefix compares as the prefixes do, and
      after a common prefix as the rest does. */
  lemma {:induction false} LexLessConcat(x: string, y: string, u: string, v: string)
    requires |x| == |y|
    requires LexLess(x, y) || (x == y && LexLess(u, v))
    ensures LexLess(x + u, y + v)
    decreases |x|
  {
    if |x| == 0 {
      assert x + u == u && y + v == v;
    } else {
      assert (x + u)[1..] == x[1..] + u;
      assert (y + v)[1..] == y[1..] + v;
      if x[0] == y[0] {
        LexLessConcat(x[1..], y[1..], u, v);
      }
    }
  }

  lemma Pad2Order(a: int, b: int)
    requires 0 <= a < b <= 99
    ensures LexLess(Pad2(a), Pad2(b))
  {
    var pa, pb := Pad2(a), Pad2(b);
    assert pa[1..] == [Digit(a % 10)];
    assert pb[1..] == [Digit(b % 10)];
  }

  lemma Pad4Order(a: int, b: int)
    requires 0 <= a < b <= 9999
    ensures LexLess(Pad4(a), Pad4(b))
  {
    if a / 100 < b / 100 {
      Pad2Order(a / 100, b / 100);
      LexLessConcat(Pad2(a / 100), Pad2(b / 100), Pad2(a % 100), Pad2(b % 100));
    } else {
      Pad2Order(a % 100, b % 100);
      LexLessConcat(Pad2(a / 100), Pad2(b / 100), Pad2(a % 100), Pad2(b % 100));
    }
  }

  /** Formatting preserves calendar order: sorting the text sorts the dates. */
  lemma FormatOrder(a: Date, b: Date)
    requires Formattable(a) && Formattable(b)
    requires Before(a, b)
    ensures LexLess(FormatDate(a), FormatDate(b))
  {
    var ta, tb := MonthDay(a.month, a.day), MonthDay(b.month, b.day);
    assert FormatDate(a) == Pad4(a.year) + ta;
    assert FormatDate(b) == Pad4(b.year) + tb;
    if a.year < b.year {
      Pad4Order(a.year, b.year);
    } else {
      MonthDayOrder(a.month, a.day, b.month, b.day);
    }
    LexLessConcat(Pad4(a.year), Pad4(b.year), ta, tb);
  }

  /** An earlier month, or the same month and an earlier day, gives an
      earlier `-MM-DD`. */
  lemma MonthDayOrder(m1: int, d1: int, m2: int, d2: int)
    requires 0 <= m1 <= 99 && 0 <= d1 <= 99 && 0 <= m2 <= 99 && 0 <= d2 <= 99
    requires m1 < m2 || (m1 == m2 && d1 < d2)
    ensures LexLess(MonthDay(m1, d1), MonthDay(m2, d2))
  {
    var p1, p2 := Pad2(m1), Pad2(m2);
    var r1, r2 := "-" + Pad2(d1), "-" + Pad2(d2);
    if m1 < m2 {
      Pad2Order(m1, m2);
    } else {
      Pad2Order(d1, d2);
      LexLessConcat("-", "-", Pad2(d1), Pad2(d2));
    }
    LexLessConcat(p1, p2, r1, r2);
    LexLessConcat("-", "-", p1 + r1, p2 + r2);
    assert MonthDay(m1, d1) == "-" + (p1 + r1);
    assert MonthDay(m2, d2) == "-" + (p2 + r2);
  }

  /** `MinDay` and `MaxDay` are the first and last days of years 1 to 9999. */
  lemma RangeEnds()
    ensures DaysBeforeYear(1) == MinDay
    ensures DaysBeforeYear(10000) == MaxDay + 1
  {
    assert LeapsBefore(1) == 0;
    assert LeapsBefore(1970) == 477;
    assert LeapsBefore(10000) == 2424;
  }

  /** `utc_day_to_date`: the `YYYY-MM-DD` text of day `utcDay`, or `None`
      where `datetime` raises because the year is outside 1..9999. */
  function UtcDayToDate(utcDay: int): (r: Option<string>)
    ensures r.Some? <==> MinDay <= utcDay <= MaxDay
    ensures r.Some? ==> |r.value| == 10
    ensures r.Some? ==> ParseDate(r.value) == Some(DaysToDate(utcDay))
  {
    YearRange(utcDay, 1, 9999);
    RangeEnds();
    var d := DaysToDate(utcDay);
    if 1 <= d.year <= 9999 then
      ParseFormat(d);
      Some(FormatDate(d))
    else
      None
  }

  /** The day number of a `YYYY-MM-DD` text, when it names a real date. */
  function ParseDay(s: string): Option<int> {
    match ParseDate(s)
    case Some(d) => Some(DateToDays(d))
    case None => None
  }

  /** Reading the text back gives the day number it was made from. */
  lemma UtcDayRoundTrip(utcDay: int)
    requires MinDay <= utcDay <= MaxDay
    ensures UtcDayToDate(utcDay).Some?
    ensures ParseDay(UtcDayToDate(utcDay).value) == Some(utcDay)
  {
  }

  /** Later days give lexicographically larger text. */
  lemma UtcDayToDateStrictlyIncreasing(d1: int, d2: int)
    requires MinDay <= d1 < d2 <= MaxDay
    ensures LexLess(UtcDayToDate(d1).value, UtcDayToDate(d2).value)
  {
    UtcDayToDateFormats(d1);
    UtcDayToDateFormats(d2);
    DaysToDateStrictlyIncreasing(d1, d2);
    FormatOrder(DaysToDate(d1), DaysToDate(d2));
  }

  /** Day 0 is the epoch itself. */
  lemma EpochDay()
    ensures UtcDayToDate(0) == Some("1970-01-01")
  {
    DateRoundTrip(Date(1970, 1, 1));
    assert FormatDate(Date(1970, 1, 1)) == "1970-01-01";
  }

  /** December 31st, 9999 is day `MaxDay`. */
  lemma LastDayNumber()
    ensures DateToDays(Date(9999, 12, 31)) == MaxDay
  {
    assert LeapsBefore(9999) == 2424 && LeapsBefore(1970) == 477;
    assert DaysBeforeYear(9999) == MaxDay - 364;
  }

  /** January 1st, 0001 is day `MinDay`. */
  lemma FirstDayNumber()
    ensures DateToDays(Date(1, 1, 1)) == MinDay
  {
    assert LeapsBefore(1) == 0 && LeapsBefore(1970) == 477;
    assert DaysBeforeYear(1) == MinDay;
  }

  /** In range, the text is the formatted calendar date of the day. */
  lemma UtcDayToDateFormats(utcDay: int)
    requires MinDay <= utcDay <= MaxDay
    ensures DaysToDate(utcDay).year <= 9999
    ensures UtcDayToDate(utcDay) == Some(FormatDate(DaysToDate(utcDay)))
  {
    YearRange(utcDay, 1, 9999);
    RangeEnds();
  }

  lemma FormatLastDay()
    ensures FormatDate(Date(9999, 12, 31)) == "9999-12-31"
  {
    assert Pad2(12) == "12" && Pad2(31) == "31";
    assert Pad4(9999) == "9999";
  }

  lemma FormatFirstDay()
    ensures FormatDate(Date(1, 1, 1)) == "0001-01-01"
  {
    assert Pad2(1) == "01";
    assert Pad4(1) == "0001";
  }

  /** The last representable day, and the day after it. */
  lemma LastDay()
    ensures UtcDayToDate(MaxDay) == Some("9999-12-31")
    ensures UtcDayToDate(MaxDay + 1) == None
  {
    LastDayNumber();
    DateRoundTrip(Date(9999, 12, 31));
    UtcDayToDateFormats(MaxDay);
    FormatLastDay();
  }

  /** The first representable day, and the day before it. */
  lemma FirstDay()
    ensures UtcDayToDate(MinDay) == Some("0001-01-01")
    ensures UtcDayToDate(MinDay - 1) == None
  {
    FirstDayNumber();
    DateRoundTrip(Date(1, 1, 1));
    UtcDayToDateFormats(MinDay);
    FormatFirstDay();
  }
}

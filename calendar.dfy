/** Proleptic Gregorian dates as Python's `datetime.date` has them: years
    1 to 9999, the leap-year rule, the order of dates and the day count
    behind `date - date`. */
module Calendar {
  import opened Base

  const MinYear: int := 1
  const MaxYear: int := 9999

  datatype Date = Date(year: int, month: int, day: int)

  /** Divisible by 4 and not by 100, or divisible by 400. */
  predicate IsLeapYear(y: int) {
    y % 4 == 0 && (y % 100 != 0 || y % 400 == 0)
  }

  /** The month-length table of `add_month` (scraping_auto.py), which is
      also the table `datetime.date` checks days against. */
  function DaysInMonth(y: int, m: int): (n: int)
    requires 1 <= m <= 12
    ensures 28 <= n <= 31
    ensures n == 29 <==> m == 2 && IsLeapYear(y)
    ensures n == 28 <==> m == 2 && !IsLeapYear(y)
  {
    [31, if IsLeapYear(y) then 29 else 28, 31, 30, 31, 30, 31, 31, 30, 31, 30, 31][m - 1]
  }

  /** The dates `datetime.date(year, month, day)` constructs without raising. */
  predicate Valid(d: Date) {
    && MinYear <= d.year <= MaxYear
    && 1 <= d.month <= 12
    && 1 <= d.day <= DaysInMonth(d.year, d.month)
  }

  /** Python's `a < b` on dates: by year, then month, then day. */
  predicate Before(a: Date, b: Date) {
    || a.year < b.year
    || (a.year == b.year && a.month < b.month)
    || (a.year == b.year && a.month == b.month && a.day < b.day)
  }

  function Earlier(a: Date, b: Date): (r: Date)
    ensures r == a || r == b
    ensures !Before(a, r) && !Before(b, r)
  {
    if Before(b, a) then b else a
  }

  function DaysInYear(y: int): (n: int)
    ensures n == 365 || n == 366
  {
    if IsLeapYear(y) then 366 else 365
  }

  /** Days in the years 1 .. y-1. */
  function DaysBeforeYear(y: int): (n: nat)
    requires y >= MinYear
  {
    if y == MinYear then 0 else DaysBeforeYear(y - 1) + DaysInYear(y - 1)
  }

  /** Days in the months 1 .. m-1 of year y. */
  function DaysBeforeMonth(y: int, m: int): (n: nat)
    requires 1 <= m <= 13
  {
    if m == 1 then 0 else DaysBeforeMonth(y, m - 1) + DaysInMonth(y, m - 1)
  }

  /** `d.toordinal()`: 0001-01-01 is day 1. `(b - a).days` is
      `DayNumber(b) - DayNumber(a)`. */
  function DayNumber(d: Date): (n: int)
    requires Valid(d)
    ensures n >= 1
  {
    DaysBeforeYear(d.year) + DaysBeforeMonth(d.year, d.month) + d.day
  }

  lemma YearLength(y: int)
    ensures DaysBeforeMonth(y, 13) == DaysInYear(y)
  {
    assert DaysBeforeMonth(y, 2) == 31;
    assert DaysBeforeMonth(y, 3) == 31 + DaysInMonth(y, 2);
    assert DaysBeforeMonth(y, 4) == 62 + DaysInMonth(y, 2);
    assert DaysBeforeMonth(y, 5) == 92 + DaysInMonth(y, 2);
    assert DaysBeforeMonth(y, 6) == 123 + DaysInMonth(y, 2);
    assert DaysBeforeMonth(y, 7) == 153 + DaysInMonth(y, 2);
    assert DaysBeforeMonth(y, 8) == 184 + DaysInMonth(y, 2);
    assert DaysBeforeMonth(y, 9) == 215 + DaysInMonth(y, 2);
    assert DaysBeforeMonth(y, 10) == 245 + DaysInMonth(y, 2);
    assert DaysBeforeMonth(y, 11) == 276 + DaysInMonth(y, 2);
    assert DaysBeforeMonth(y, 12) == 306 + DaysInMonth(y, 2);
  }

  lemma {:induction false} MonthsAccumulate(y: int, m1: int, m2: int)
    requires 1 <= m1 < m2 <= 13
    ensures DaysBeforeMonth(y, m1) + DaysInMonth(y, m1) <= DaysBeforeMonth(y, m2)
  {
    if m2 > m1 + 1 {
      MonthsAccumulate(y, m1, m2 - 1);
    }
  }

  lemma {:induction false} YearsAccumulate(y1: int, y2: int)
    requires MinYear <= y1 < y2
    ensures DaysBeforeYear(y1) + DaysInYear(y1) <= DaysBeforeYear(y2)
  {
    if y2 > y1 + 1 {
      YearsAccumulate(y1, y2 - 1);
    }
  }

  /** A date's day number is at most the number of days before the next
      year starts: every day of a year falls before the next year. */
  lemma {:induction false} DayBeforeNextYear(d: Date)
    requires Valid(d)
    ensures DayNumber(d) <= DaysBeforeYear(d.year + 1)
  {
    if d.month < 12 {
      MonthsAccumulate(d.year, d.month, 12);
    }
    YearLength(d.year);
  }

  /** Comparing dates is comparing their day numbers, in both directions,
      and distinct valid dates have distinct day numbers. */
  lemma {:induction false} DayNumberOrder(a: Date, b: Date)
    requires Valid(a) && Valid(b)
    ensures Before(a, b) <==> DayNumber(a) < DayNumber(b)
    ensures a == b <==> DayNumber(a) == DayNumber(b)
  {
    if a.year < b.year {
      DayBeforeNextYear(a);
      if a.year + 1 < b.year {
        YearsAccumulate(a.year + 1, b.year);
      }
    } else if b.year < a.year {
      DayBeforeNextYear(b);
      if b.year + 1 < a.year {
        YearsAccumulate(b.year + 1, a.year);
      }
    } else if a.month < b.month {
      MonthsAccumulate(a.year, a.month, b.month);
    } else if b.month < a.month {
      MonthsAccumulate(b.year, b.month, a.month);
    }
  }

  /** Within one month, day numbers are as far apart as the days. */
  lemma SameMonthDistance(a: Date, b: Date)
    requires Valid(a) && Valid(b) && a.year == b.year && a.month == b.month
    ensures DayNumber(b) - DayNumber(a) == b.day - a.day
  {
  }

  lemma StepDiv(n: int)
    requires n >= 1
    ensures n / 4 - (n - 1) / 4 == (if n % 4 == 0 then 1 else 0)
    ensures n / 100 - (n - 1) / 100 == (if n % 100 == 0 then 1 else 0)
    ensures n / 400 - (n - 1) / 400 == (if n % 400 == 0 then 1 else 0)
  {
  }

  lemma LeapIndicator(n: int)
    ensures DaysInYear(n) == 365 + (if n % 4 == 0 then 1 else 0) - (if n % 100 == 0 then 1 else 0)
                                 + (if n % 400 == 0 then 1 else 0)
  {
    if n % 400 == 0 {
      var q := n / 400;
      assert n == 100 * (4 * q) + 0;
      assert n == 4 * (100 * q) + 0;
    } else if n % 100 == 0 {
      var q := n / 100;
      assert n == 4 * (25 * q) + 0;
    }
  }

  /** The recursive year count agrees with the closed form CPython's
      `datetime` module uses for `toordinal`:
      365 * (y-1) + (y-1)/4 - (y-1)/100 + (y-1)/400. */
  lemma {:induction false} DaysBeforeYearClosedForm(y: int)
    requires y >= MinYear
    ensures DaysBeforeYear(y) == 365 * (y - 1) + (y - 1) / 4 - (y - 1) / 100 + (y - 1) / 400
  {
    if y > MinYear {
      var n := y - 1;
      DaysBeforeYearClosedForm(n);
      StepDiv(n);
      LeapIndicator(n);
      assert 365 * n == 365 * (n - 1) + 365;
    }
  }

  /** `d.strftime("%Y-%m-%d")` for the four-digit years this model handles. */
  function Iso(d: Date): (s: string)
    requires Valid(d)
    ensures |s| == 10 && s[4] == '-' && s[7] == '-'
    ensures AllDigits(s[..4]) && AllDigits(s[5..7]) && AllDigits(s[8..])
  {
    ZeroPad(d.year, 4) + "-" + ZeroPad(d.month, 2) + "-" + ZeroPad(d.day, 2)
  }

  /** The three fields of `Iso(d)` read back as the year, month and day. */
  lemma IsoFields(d: Date)
    requires Valid(d)
    ensures DigitsValue(Iso(d)[..4]) == d.year
    ensures DigitsValue(Iso(d)[5..7]) == d.month
    ensures DigitsValue(Iso(d)[8..]) == d.day
  {
    var s := Iso(d);
    assert s[..4] == ZeroPad(d.year, 4);
    assert s[5..7] == ZeroPad(d.month, 2);
    assert s[8..] == ZeroPad(d.day, 2);
    ZeroPadValue(d.year, 4);
    ZeroPadValue(d.month, 2);
    ZeroPadValue(d.day, 2);
  }
}

/**
 * Calendar arithmetic of the year-progress wallpaper: the Gregorian leap-year
 * rule, the length of a year, and the 1-based ordinal of a UTC calendar date.
 *
 * The source obtains the ordinal by subtracting two UTC-midnight timestamps
 * built by `Date.UTC` and dividing by the length of a day in milliseconds. UTC
 * has no daylight-saving shifts, so that difference is always a whole number
 * of days: the days in the months before the date's month plus the days
 * already gone in it, counted in the calendar of the year `Date.UTC` reads
 * (UtcYear). This module computes it that way, from month lengths.
 */
module Calendar {

  /** A UTC calendar date. `month` is 1-based (January is 1). */
  datatype Date = Date(year: int, month: int, day: int)

  /**
   * The Gregorian leap-year rule. JavaScript's `%` truncates toward zero and
   * Dafny's is Euclidean, but the two agree on whether the remainder is zero,
   * which is all the rule looks at, so negative years behave alike.
   */
  function IsLeapYear(y: int): (leap: bool)
    ensures leap ==> y % 4 == 0
    ensures y % 4 == 0 && y % 100 != 0 ==> leap
    ensures y % 100 == 0 ==> (leap <==> y % 400 == 0)
  {
    (y % 4 == 0 && y % 100 != 0) || y % 400 == 0
  }

  /** The number of days in year `y`, as the entry point chooses it. */
  function YearLength(y: int): (n: int)
    ensures n == 365 || n == 366
    ensures n == 366 <==> IsLeapYear(y)
  {
    if IsLeapYear(y) then 366 else 365
  }

  /** Centuries are leap years only when divisible by 400. */
  lemma LeapYearExamples()
    ensures IsLeapYear(2000) && YearLength(2000) == 366
    ensures IsLeapYear(2024) && YearLength(2024) == 366
    ensures !IsLeapYear(1900) && YearLength(1900) == 365
    ensures !IsLeapYear(2023) && YearLength(2023) == 365
  {
  }

  /** The number of days in month `m` of year `y`. */
  function DaysInMonth(y: int, m: int): (n: int)
    requires 1 <= m <= 12
    ensures 28 <= n <= 31
    ensures n == 29 <==> m == 2 && IsLeapYear(y)
  {
    if m == 2 then (if IsLeapYear(y) then 29 else 28)
    else if m == 4 || m == 6 || m == 9 || m == 11 then 30
    else 31
  }

  /** A date that exists in the proleptic Gregorian calendar, as the UTC date of a JavaScript `Date` does. */
  predicate ValidDate(d: Date) {
    1 <= d.month <= 12 && 1 <= d.day <= DaysInMonth(d.year, d.month)
  }

  /** The number of days of year `y` that lie in the months before month `m`. */
  function DaysBeforeMonth(y: int, m: int): (n: int)
    requires 1 <= m <= 13
    ensures 28 * (m - 1) <= n <= 31 * (m - 1)
    decreases m
  {
    if m == 1 then 0 else DaysBeforeMonth(y, m - 1) + DaysInMonth(y, m - 1)
  }

  /** The twelve months together make up exactly the year length. */
  lemma MonthsFillYear(y: int)
    ensures DaysBeforeMonth(y, 13) == YearLength(y)
  {
    var feb := DaysInMonth(y, 2);
    assert DaysBeforeMonth(y, 3) == 31 + feb;
    assert DaysBeforeMonth(y, 5) == 31 + feb + 31 + 30;
    assert DaysBeforeMonth(y, 7) == 31 + feb + 31 + 30 + 31 + 30;
    assert DaysBeforeMonth(y, 9) == 31 + feb + 31 + 30 + 31 + 30 + 31 + 31;
    assert DaysBeforeMonth(y, 11) == 31 + feb + 31 + 30 + 31 + 30 + 31 + 31 + 30 + 31;
    assert DaysBeforeMonth(y, 13) == 31 + feb + 31 + 30 + 31 + 30 + 31 + 31 + 30 + 31 + 30 + 31;
  }

  /** Every month before month `b` lies wholly before the start of month `b`. */
  lemma {:induction false} MonthEndsBefore(y: int, a: int, b: int)
    requires 1 <= a < b <= 13
    ensures DaysBeforeMonth(y, a) + DaysInMonth(y, a) <= DaysBeforeMonth(y, b)
    decreases b
  {
    if b > a + 1 {
      MonthEndsBefore(y, a, b - 1);
    }
  }

  /**
   * Months before month `m` are one day longer in year `a` than in year `b`
   * when only `a` is a leap year (and `m` comes after February), one day
   * shorter when only `b` is, and as long otherwise.
   */
  lemma {:induction false} LeapDayShift(a: int, b: int, m: int)
    requires 1 <= m <= 13
    ensures DaysBeforeMonth(a, m) - DaysBeforeMonth(b, m)
      == if m <= 2 then 0 else (if IsLeapYear(a) then 1 else 0) - (if IsLeapYear(b) then 1 else 0)
    decreases m
  {
    if m > 1 {
      LeapDayShift(a, b, m - 1);
    }
  }

  /**
   * The year `Date.UTC` counts in when given year `y`: it reads the years 0
   * to 99 as 1900 to 1999. Only year 0 is then counted in a calendar with a
   * different leap rule (1900 is a common year).
   */
  function UtcYear(y: int): (u: int)
    ensures 0 <= y <= 99 ==> u == 1900 + y
    ensures y != 0 ==> IsLeapYear(u) == IsLeapYear(y)
    ensures y == 0 ==> IsLeapYear(y) && !IsLeapYear(u)
  {
    if 0 <= y <= 99 then 1900 + y else y
  }

  /**
   * Whole days from 00:00 UTC on January 1 to 00:00 UTC on date `d`: the
   * quotient of the two timestamps' difference by one day. Both timestamps
   * come from `Date.UTC` on the date's year, month and day; `Date.UTC` adds
   * the day of the month to the start of the month without normalising it,
   * so the difference is counted in the calendar of UtcYear(d.year). In
   * every year but 0 this is the number of days before `d` in its own year.
   */
  function ElapsedDays(d: Date): (n: int)
    requires ValidDate(d)
    ensures 0 <= n < YearLength(d.year)
    ensures d.year != 0 ==> n == DaysBeforeMonth(d.year, d.month) + d.day - 1
  {
    MonthsFillYear(d.year);
    MonthEndsBefore(d.year, d.month, 13);
    LeapDayShift(UtcYear(d.year), d.year, d.month);
    DaysBeforeMonth(UtcYear(d.year), d.month) + (d.day - 1)
  }

  /** The 1-based ordinal day of `d` (January 1 is day 1). */
  function DayOfYear(d: Date): (n: int)
    requires ValidDate(d)
    ensures 1 <= n <= YearLength(d.year)
    ensures d.year != 0 ==> n == DaysBeforeMonth(d.year, d.month) + d.day
  {
    ElapsedDays(d) + 1
  }

  /**
   * In year 0 the ordinal is counted in 1900's calendar: February 29 and
   * March 1 share ordinal 60, and December 31 is day 365 of a 366-day year.
   */
  lemma YearZeroOrdinals()
    ensures ValidDate(Date(0, 2, 29)) && ValidDate(Date(0, 3, 1)) && ValidDate(Date(0, 12, 31))
    ensures DayOfYear(Date(0, 2, 29)) == 60 && DayOfYear(Date(0, 3, 1)) == 60
    ensures DayOfYear(Date(0, 12, 31)) == 365 && YearLength(0) == 366
  {
    MonthsFillYear(1900);
  }

  /**
   * January 1 is day 1, and (outside year 0) December 31 is the last day of
   * the year.
   */
  lemma YearEnds(y: int)
    ensures DayOfYear(Date(y, 1, 1)) == 1
    ensures y != 0 ==> DayOfYear(Date(y, 12, 31)) == YearLength(y)
  {
    MonthsFillYear(y);
  }

  /** `d1` comes strictly before `d2` within one year. */
  predicate Precedes(d1: Date, d2: Date) {
    d1.month < d2.month || (d1.month == d2.month && d1.day < d2.day)
  }

  /** The ordinal strictly increases through the year and tells dates apart. */
  lemma OrdinalOrder(d1: Date, d2: Date)
    requires ValidDate(d1) && ValidDate(d2) && d1.year == d2.year && d1.year != 0
    ensures Precedes(d1, d2) <==> DayOfYear(d1) < DayOfYear(d2)
    ensures DayOfYear(d1) == DayOfYear(d2) <==> d1 == d2
  {
    if d1.month < d2.month {
      MonthEndsBefore(d1.year, d1.month, d2.month);
    } else if d2.month < d1.month {
      MonthEndsBefore(d1.year, d2.month, d1.month);
    }
  }

  /** The calendar day after `d`. */
  function NextDay(d: Date): (e: Date)
    requires ValidDate(d)
    ensures ValidDate(e)
    ensures e.year == d.year ==> Precedes(d, e)
    ensures e.year != d.year ==> e == Date(d.year + 1, 1, 1)
  {
    if d.day < DaysInMonth(d.year, d.month) then Date(d.year, d.month, d.day + 1)
    else if d.month < 12 then Date(d.year, d.month + 1, 1)
    else Date(d.year + 1, 1, 1)
  }

  /** Advancing one calendar day within a year advances the ordinal by exactly one. */
  lemma ConsecutiveDays(d: Date)
    requires ValidDate(d) && NextDay(d).year == d.year && d.year != 0
    ensures DayOfYear(NextDay(d)) == DayOfYear(d) + 1
  {
  }

  /** The day before a new year is the last ordinal of its year. */
  lemma YearRollsOver(d: Date)
    requires ValidDate(d) && NextDay(d).year != d.year
    ensures d.year != 0 ==> DayOfYear(d) == YearLength(d.year)
    ensures DayOfYear(NextDay(d)) == 1
  {
    MonthsFillYear(d.year);
  }

  /**
   * The date of year `y` that falls `k` days into the months from `m` on
   * (`k` is 1-based).
   */
  function DateInMonths(y: int, m: int, k: int): (d: Date)
    requires 1 <= m <= 12
    requires 1 <= k <= DaysBeforeMonth(y, 13) - DaysBeforeMonth(y, m)
    ensures ValidDate(d) && d.year == y && m <= d.month
    ensures DaysBeforeMonth(y, d.month) + d.day == DaysBeforeMonth(y, m) + k
    decreases 12 - m
  {
    if k <= DaysInMonth(y, m) then Date(y, m, k)
    else DateInMonths(y, m + 1, k - DaysInMonth(y, m))
  }

  /** The date of year `y` whose ordinal is `n`: the inverse of DayOfYear. */
  function FromOrdinal(y: int, n: int): (d: Date)
    requires 1 <= n <= YearLength(y) && y != 0
    ensures ValidDate(d) && d.year == y
    ensures DayOfYear(d) == n
  {
    MonthsFillYear(y);
    DateInMonths(y, 1, n)
  }

  /** Each date of a year is recovered from its ordinal. */
  lemma OrdinalRoundTrip(d: Date)
    requires ValidDate(d) && d.year != 0
    ensures FromOrdinal(d.year, DayOfYear(d)) == d
  {
    OrdinalOrder(FromOrdinal(d.year, DayOfYear(d)), d);
  }
}

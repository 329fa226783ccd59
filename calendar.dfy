/**
 * The proleptic Gregorian calendar that `moment` uses for local dates.
 * Days are numbered from 1 January of year 0 (day 0); an instant is a
 * number of minutes since midnight starting that day, so the calendar
 * date of an instant is the date of its day number.
 */
module Calendar {

  datatype Date = Date(year: nat, month: nat, day: nat)  // month is 1-based here

  const MinutesPerDay: nat := 1440

  predicate IsLeapYear(y: nat) {
    y % 4 == 0 && (y % 100 != 0 || y % 400 == 0)
  }

  function YearLength(y: nat): nat {
    if IsLeapYear(y) then 366 else 365
  }

  function DaysInMonth(y: nat, m: nat): (n: nat)
    requires 1 <= m <= 12
    ensures 28 <= n <= 31
  {
    if m == 2 then (if IsLeapYear(y) then 29 else 28)
    else if m == 4 || m == 6 || m == 9 || m == 11 then 30
    else 31
  }

  /** A real calendar date: month 1..12 and a day that exists in that month. */
  predicate ValidDate(d: Date) {
    1 <= d.month <= 12 && 1 <= d.day <= DaysInMonth(d.year, d.month)
  }

  function DaysBeforeYear(y: nat): nat {
    if y == 0 then 0 else DaysBeforeYear(y - 1) + YearLength(y - 1)
  }

  function DaysBeforeMonth(y: nat, m: nat): nat
    requires 1 <= m <= 13
  {
    if m == 1 then 0 else DaysBeforeMonth(y, m - 1) + DaysInMonth(y, m - 1)
  }

  lemma MonthsFillYear(y: nat)
    ensures DaysBeforeMonth(y, 13) == YearLength(y)
  {
    var feb := DaysInMonth(y, 2);
    assert DaysBeforeMonth(y, 1) == 0;
    assert DaysBeforeMonth(y, 2) == 31;
    assert DaysBeforeMonth(y, 3) == 31 + feb;
    assert DaysBeforeMonth(y, 5) == 92 + feb;
    assert DaysBeforeMonth(y, 7) == 153 + feb;
    assert DaysBeforeMonth(y, 9) == 215 + feb;
    assert DaysBeforeMonth(y, 11) == 276 + feb;
    assert DaysBeforeMonth(y, 13) == 337 + feb;
  }

  /** The day number of a valid date. */
  function DayNumber(d: Date): nat
    requires ValidDate(d)
  {
    DaysBeforeYear(d.year) + DaysBeforeMonth(d.year, d.month) + d.day - 1
  }

  /** The date of a day number: the inverse of `DayNumber`. */
  function DateOf(n: nat): (d: Date)
    ensures ValidDate(d) && DayNumber(d) == n
  {
    DateFromYear(0, n)
  }

  /** The date `n` days after 1 January of year `y`. */
  function DateFromYear(y: nat, n: nat): (d: Date)
    ensures ValidDate(d) && DayNumber(d) == DaysBeforeYear(y) + n
    decreases n
  {
    if n < YearLength(y) then
      MonthsFillYear(y);
      DateFromMonth(y, 1, n)
    else
      DateFromYear(y + 1, n - YearLength(y))
  }

  /** The date `n` days after the first day of month `m` of year `y`. */
  function DateFromMonth(y: nat, m: nat, n: nat): (d: Date)
    requires 1 <= m <= 12 && DaysBeforeMonth(y, m) + n < DaysBeforeMonth(y, 13)
    ensures ValidDate(d) && d.year == y
    ensures DaysBeforeMonth(y, d.month) + d.day - 1 == DaysBeforeMonth(y, m) + n
    decreases 12 - m
  {
    if n < DaysInMonth(y, m) then Date(y, m, n + 1)
    else DateFromMonth(y, m + 1, n - DaysInMonth(y, m))
  }

  lemma {:induction false} DaysBeforeMonthMonotonic(y: nat, m: nat, m': nat)
    requires 1 <= m <= m' <= 13
    ensures DaysBeforeMonth(y, m) <= DaysBeforeMonth(y, m')
    decreases m' - m
  {
    if m < m' {
      DaysBeforeMonthMonotonic(y, m, m' - 1);
    }
  }

  /** Two dates of one year with the same number of days before them are the same date. */
  lemma DayOfYearUnique(d: Date, d': Date)
    requires ValidDate(d) && ValidDate(d') && d.year == d'.year
    requires DaysBeforeMonth(d.year, d.month) + d.day == DaysBeforeMonth(d.year, d'.month) + d'.day
    ensures d == d'
  {
    if d.month < d'.month {
      DaysBeforeMonthMonotonic(d.year, d.month + 1, d'.month);
    } else if d'.month < d.month {
      DaysBeforeMonthMonotonic(d.year, d'.month + 1, d.month);
    }
  }

  lemma {:induction false} DaysBeforeYearMonotonic(y: nat, y': nat)
    requires y <= y'
    ensures DaysBeforeYear(y) <= DaysBeforeYear(y')
    decreases y' - y
  {
    if y < y' {
      DaysBeforeYearMonotonic(y, y' - 1);
    }
  }

  lemma {:induction false} DateFromYearAt(y0: nat, n: nat, d: Date)
    requires ValidDate(d) && y0 <= d.year && DaysBeforeYear(y0) + n == DayNumber(d)
    ensures DateFromYear(y0, n) == d
    decreases d.year - y0
  {
    MonthsFillYear(y0);
    if y0 < d.year {
      DaysBeforeYearMonotonic(y0 + 1, d.year);
      DateFromYearAt(y0 + 1, n - YearLength(y0), d);
    } else {
      DaysBeforeMonthMonotonic(y0, d.month + 1, 13);
      DayOfYearUnique(DateFromMonth(y0, 1, n), d);
    }
  }

  /** Day numbers and valid dates are in one-to-one correspondence. */
  lemma DateOfDayNumber(d: Date)
    requires ValidDate(d)
    ensures DateOf(DayNumber(d)) == d
  {
    DateFromYearAt(0, DayNumber(d), d);
  }

  lemma DayNumberInjective(d1: Date, d2: Date)
    requires ValidDate(d1) && ValidDate(d2) && DayNumber(d1) == DayNumber(d2)
    ensures d1 == d2
  {
    DateOfDayNumber(d1);
    DateOfDayNumber(d2);
  }

  /** The day number of an instant given in minutes (always rounded down). */
  function DayOf(instant: nat): nat {
    instant / MinutesPerDay
  }

  /** The calendar date of an instant, as `moment` formats it. */
  function DateOfInstant(instant: nat): Date {
    DateOf(DayOf(instant))
  }
}

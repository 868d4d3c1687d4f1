/**
 * The proleptic Gregorian calendar that Go's time package uses, as
 * arithmetic on day counts. Day 0 is 1970-01-01.
 */
module Calendar {

  datatype Date = Date(year: int, month: int, day: int)

  predicate IsLeapYear(y: int) {
    y % 4 == 0 && (y % 100 != 0 || y % 400 == 0)
  }

  function DaysInYear(y: int): (n: int)
    ensures 365 <= n <= 366
  {
    if IsLeapYear(y) then 366 else 365
  }

  function DaysInMonth(y: int, m: int): (n: int)
    requires 1 <= m <= 12
    ensures 28 <= n <= 31
  {
    if m == 2 then (if IsLeapYear(y) then 29 else 28)
    else if m == 4 || m == 6 || m == 9 || m == 11 then 30
    else 31
  }

  /** Days in the months of year `y` before month `m`. */
  function DaysBeforeMonth(y: int, m: int): (n: int)
    requires 1 <= m <= 12
    ensures 0 <= n
  {
    [0, 31, 59, 90, 120, 151, 181, 212, 243, 273, 304, 334][m - 1]
      + (if m > 2 && IsLeapYear(y) then 1 else 0)
  }

  predicate IsValidDate(d: Date) {
    1 <= d.month <= 12 && 1 <= d.day <= DaysInMonth(d.year, d.month)
  }

  /** Day number of 1 January of year `y`. */
  function YearStart(y: int): (n: int)
    decreases if y < 1970 then 1970 - y else y - 1970
  {
    if y == 1970 then 0
    else if y > 1970 then YearStart(y - 1) + DaysInYear(y - 1)
    else YearStart(y + 1) - DaysInYear(y)
  }

  /**
   * Day number of a date. Like Go's `time.Date`, the day of the month may
   * lie outside the month; it then counts on into the neighbouring days.
   */
  function DaysFromCivil(d: Date): (n: int)
    requires 1 <= d.month <= 12
  {
    YearStart(d.year) + DaysBeforeMonth(d.year, d.month) + d.day - 1
  }

  lemma YearStartStep(y: int)
    ensures YearStart(y + 1) == YearStart(y) + DaysInYear(y)
  {
  }

  lemma MonthStep(y: int, m: int)
    requires 1 <= m <= 12
    ensures m < 12 ==> DaysBeforeMonth(y, m + 1) == DaysBeforeMonth(y, m) + DaysInMonth(y, m)
    ensures m == 12 ==> DaysBeforeMonth(y, m) + DaysInMonth(y, m) == DaysInYear(y)
  {
  }

  lemma {:induction false} MonthsOrdered(y: int, m: int, m': int)
    requires 1 <= m < m' <= 12
    ensures DaysBeforeMonth(y, m) + DaysInMonth(y, m) <= DaysBeforeMonth(y, m')
    decreases m' - m
  {
    MonthStep(y, m);
    if m + 1 < m' {
      MonthsOrdered(y, m + 1, m');
    }
  }

  lemma MonthWithinYear(y: int, m: int)
    requires 1 <= m <= 12
    ensures DaysBeforeMonth(y, m) + DaysInMonth(y, m) <= DaysInYear(y)
  {
    MonthStep(y, 12);
    if m < 12 {
      MonthsOrdered(y, m, 12);
    }
  }

  lemma {:induction false} YearsOrdered(y: int, y': int)
    requires y < y'
    ensures YearStart(y) + DaysInYear(y) <= YearStart(y')
    decreases y' - y
  {
    YearStartStep(y);
    if y + 1 < y' {
      YearsOrdered(y + 1, y');
      YearStartStep(y + 1);
    }
  }

  /**
   * Finds the year holding the day `n` days after 1 January of `y`, and
   * that day's position within its year.
   */
  function FindYear(y: int, n: int): (r: (int, int))
    ensures 0 <= r.1 < DaysInYear(r.0)
    ensures YearStart(r.0) + r.1 == YearStart(y) + n
    decreases if n < 0 then 1 else 0, if n < 0 then -n else n
  {
    if n < 0 then
      YearStartStep(y - 1);
      FindYear(y - 1, n + DaysInYear(y - 1))
    else if n >= DaysInYear(y) then
      YearStartStep(y);
      FindYear(y + 1, n - DaysInYear(y))
    else
      (y, n)
  }

  /** Finds, from month `m` on, the month of year `y` holding day `k` of the year. */
  function FindMonth(y: int, k: int, m: int): (r: int)
    requires 1 <= m <= 12
    requires DaysBeforeMonth(y, m) <= k < DaysInYear(y)
    ensures m <= r <= 12
    ensures DaysBeforeMonth(y, r) <= k < DaysBeforeMonth(y, r) + DaysInMonth(y, r)
    decreases 12 - m
  {
    MonthStep(y, m);
    if m == 12 || k < DaysBeforeMonth(y, m) + DaysInMonth(y, m) then m
    else FindMonth(y, k, m + 1)
  }

  /** The valid date whose day number is `n`. */
  function CivilFromDays(n: int): (d: Date)
    ensures IsValidDate(d)
    ensures DaysFromCivil(d) == n
  {
    var (y, k) := FindYear(1970, n);
    var m := FindMonth(y, k, 1);
    Date(y, m, k - DaysBeforeMonth(y, m) + 1)
  }

  /** Distinct valid dates have distinct day numbers. */
  lemma DaysFromCivilInjective(a: Date, b: Date)
    requires IsValidDate(a) && IsValidDate(b)
    requires DaysFromCivil(a) == DaysFromCivil(b)
    ensures a == b
  {
    MonthWithinYear(a.year, a.month);
    MonthWithinYear(b.year, b.month);
    if a.year < b.year {
      YearsOrdered(a.year, b.year);
    } else if b.year < a.year {
      YearsOrdered(b.year, a.year);
    } else if a.month < b.month {
      MonthsOrdered(a.year, a.month, b.month);
    } else if b.month < a.month {
      MonthsOrdered(a.year, b.month, a.month);
    }
  }

  /** Converting a valid date to its day number and back gives the date again. */
  lemma CivilFromDaysOfDate(d: Date)
    requires IsValidDate(d)
    ensures CivilFromDays(DaysFromCivil(d)) == d
  {
    DaysFromCivilInjective(CivilFromDays(DaysFromCivil(d)), d);
  }

  /** The calendar day after `d`, by the rules of months and leap years. */
  function NextDate(d: Date): (r: Date)
    requires IsValidDate(d)
    ensures IsValidDate(r)
    ensures DaysFromCivil(r) == DaysFromCivil(d) + 1
  {
    MonthStep(d.year, d.month);
    YearStartStep(d.year);
    if d.day < DaysInMonth(d.year, d.month) then Date(d.year, d.month, d.day + 1)
    else if d.month < 12 then Date(d.year, d.month + 1, 1)
    else Date(d.year + 1, 1, 1)
  }

  /** The date of day `n + 1` is the calendar successor of the date of day `n`. */
  lemma CivilFromDaysSucc(n: int)
    ensures CivilFromDays(n + 1) == NextDate(CivilFromDays(n))
  {
    CivilFromDaysOfDate(NextDate(CivilFromDays(n)));
  }
}

/**
  The proleptic Gregorian calendar as Python's `datetime(year, month, day)`
  accepts it: years 1 to 9999, months 1 to 12, and the days of the month
  under the Gregorian leap-year rule.
*/
module Calendar {

  /** `datetime.MINYEAR` and `datetime.MAXYEAR`. */
  const MinYear: int := 1
  const MaxYear: int := 9999

  datatype Date = Date(year: int, month: int, day: int)

  /** Every fourth year, except centuries not divisible by 400. */
  predicate IsLeapYear(y: int)
  {
    y % 4 == 0 && (y % 100 != 0 || y % 400 == 0)
  }

  function DaysInMonth(y: int, m: int): (n: int)
    requires 1 <= m <= 12
    ensures 28 <= n <= 31
    ensures m == 2 ==> (n == 29 <==> IsLeapYear(y))
    ensures m != 2 ==> n >= 30
  {
    if m == 2 then (if IsLeapYear(y) then 29 else 28)
    else if m == 4 || m == 6 || m == 9 || m == 11 then 30
    else 31
  }

  /** The dates `datetime` constructs instead of raising `ValueError`. */
  predicate ValidDate(d: Date)
  {
    && MinYear <= d.year <= MaxYear
    && 1 <= d.month <= 12
    && 1 <= d.day <= DaysInMonth(d.year, d.month)
  }

  /** The number of days in the months before month `m` of year `y`. */
  function DaysBefore(y: int, m: int): int
    requires 1 <= m <= 13
    decreases m
  {
    if m == 1 then 0 else DaysBefore(y, m - 1) + DaysInMonth(y, m - 1)
  }

  /** The twelve months add up to 366 days in a leap year and 365 otherwise. */
  lemma YearLength(y: int)
    ensures DaysBefore(y, 13) == if IsLeapYear(y) then 366 else 365
  {
    assert DaysBefore(y, 3) == 31 + DaysInMonth(y, 2);
    assert DaysBefore(y, 7) == DaysBefore(y, 3) + 31 + 30 + 31 + 30;
    assert DaysBefore(y, 13) == DaysBefore(y, 7) + 31 + 31 + 30 + 31 + 30 + 31;
  }

  /**
    The Gregorian rule and not the Julian one: the centuries 1900 and 2100
    have a 28-day February, the century 2000 and the year 2016 a 29-day one.
  */
  lemma GregorianLeapYears()
    ensures !IsLeapYear(1900) && !IsLeapYear(2100) && IsLeapYear(2000) && IsLeapYear(2016)
    ensures DaysInMonth(1900, 2) == 28 && DaysInMonth(2100, 2) == 28
    ensures DaysInMonth(2000, 2) == 29 && DaysInMonth(2016, 2) == 29
  {
  }
}

/**
 * The proleptic Gregorian calendar as Python's `datetime.date` accepts it:
 * years 1 to 9999, months 1 to 12, and days up to the length of the month,
 * with February having 29 days exactly in leap years.
 */
module Calendar {

  datatype Date = Date(year: int, month: int, day: int)

  /** `datetime.MINYEAR` and `datetime.MAXYEAR`. */
  const MinYear := 1
  const MaxYear := 9999

  /** The Gregorian rule: every fourth year, except centuries not divisible by 400. */
  predicate IsLeapYear(y: int) {
    y % 4 == 0 && (y % 100 != 0 || y % 400 == 0)
  }

  function DaysInMonth(y: int, m: int): (n: int)
    requires 1 <= m <= 12
    ensures 28 <= n <= 31
    ensures m == 2 ==> (n == 29 <==> IsLeapYear(y)) && (n == 28 <==> !IsLeapYear(y))
    ensures m != 2 ==> n >= 30
  {
    if m == 2 then (if IsLeapYear(y) then 29 else 28)
    else if m == 4 || m == 6 || m == 9 || m == 11 then 30
    else 31
  }

  /** The dates `datetime.date(year, month, day)` constructs without raising `ValueError`. */
  predicate IsValidDate(d: Date) {
    && MinYear <= d.year <= MaxYear
    && 1 <= d.month <= 12
    && 1 <= d.day <= DaysInMonth(d.year, d.month)
  }

  /** Days in months 1..m of year y. */
  function DaysBeforeEndOf(y: int, m: int): int
    requires 0 <= m <= 12
  {
    if m == 0 then 0 else DaysBeforeEndOf(y, m - 1) + DaysInMonth(y, m)
  }

  /** The month lengths add up to the length of the Gregorian year. */
  lemma YearLength(y: int)
    ensures DaysBeforeEndOf(y, 12) == if IsLeapYear(y) then 366 else 365
  {
    var feb := DaysInMonth(y, 2);
    assert DaysBeforeEndOf(y, 1) == 31;
    assert DaysBeforeEndOf(y, 2) == 31 + feb;
    assert DaysBeforeEndOf(y, 3) == 62 + feb;
    assert DaysBeforeEndOf(y, 4) == 92 + feb;
    assert DaysBeforeEndOf(y, 5) == 123 + feb;
    assert DaysBeforeEndOf(y, 6) == 153 + feb;
    assert DaysBeforeEndOf(y, 7) == 184 + feb;
    assert DaysBeforeEndOf(y, 8) == 215 + feb;
    assert DaysBeforeEndOf(y, 9) == 245 + feb;
    assert DaysBeforeEndOf(y, 10) == 276 + feb;
    assert DaysBeforeEndOf(y, 11) == 306 + feb;
  }
}

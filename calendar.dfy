// Calendar dates as java.time models them: the ISO-8601 proleptic Gregorian
// calendar, years from -999,999,999 to 999,999,999.
module Calendar {

  const MinYear := -999_999_999
  const MaxYear := 999_999_999

  datatype Date = Date(year: int, month: int, day: int)

  /** The Gregorian leap-year rule of IsoChronology.isLeapYear. Java tests
      `year & 3` and a truncating `%`; for a test against zero both agree
      with Dafny's Euclidean `%`, negative years included. */
  predicate IsLeapYear(year: int) {
    year % 4 == 0 && (year % 100 != 0 || year % 400 == 0)
  }

  function LengthOfMonth(year: int, month: int): (n: int)
    requires 1 <= month <= 12
    ensures 28 <= n <= 31
    ensures n == 29 <==> month == 2 && IsLeapYear(year)
    ensures n == 28 <==> month == 2 && !IsLeapYear(year)
  {
    if month == 2 then (if IsLeapYear(year) then 29 else 28)
    else if month == 4 || month == 6 || month == 9 || month == 11 then 30
    else 31
  }

  predicate IsValidYear(year: int) {
    MinYear <= year <= MaxYear
  }

  /** What YearMonth.of(year, month) accepts. */
  predicate IsValidYearMonth(year: int, month: int) {
    IsValidYear(year) && 1 <= month <= 12
  }

  /** What LocalDate.of(year, month, day) accepts. */
  predicate IsValidDate(d: Date) {
    IsValidYearMonth(d.year, d.month) && 1 <= d.day <= LengthOfMonth(d.year, d.month)
  }

  /** A java.time.LocalDate: every value is a real calendar day. */
  type LocalDate = d: Date | IsValidDate(d) witness Date(1970, 1, 1)

  /** YearMonth.atDay(1). */
  function FirstDayOfMonth(year: int, month: int): (d: LocalDate)
    requires IsValidYearMonth(year, month)
    ensures d.year == year && d.month == month && d.day == 1
  {
    Date(year, month, 1)
  }

  /** YearMonth.atEndOfMonth(). */
  function LastDayOfMonth(year: int, month: int): (d: LocalDate)
    requires IsValidYearMonth(year, month)
    ensures d.year == year && d.month == month
  {
    Date(year, month, LengthOfMonth(year, month))
  }

  /** No valid day of the month comes after atEndOfMonth(). */
  lemma LastDayIsLast(year: int, month: int, day: int)
    requires IsValidYearMonth(year, month) && IsValidDate(Date(year, month, day))
    ensures day <= LastDayOfMonth(year, month).day
  {
  }

  /** Chronological order (LocalDate.isBefore). */
  predicate Before(a: Date, b: Date) {
    a.year < b.year ||
    (a.year == b.year && (a.month < b.month || (a.month == b.month && a.day < b.day)))
  }

  /** a <= b in chronological order. */
  predicate NotAfter(a: Date, b: Date) {
    !Before(b, a)
  }

  /** SQL `x BETWEEN start AND end`: inclusive at both ends, empty when start > end. */
  predicate InRange(x: Date, start: Date, end: Date) {
    NotAfter(start, x) && NotAfter(x, end)
  }

  /** LocalDate.plusDays(1), without the range check at the last supported day. */
  function NextDay(d: LocalDate): (n: Date)
    ensures Before(d, n)
  {
    if d.day < LengthOfMonth(d.year, d.month) then Date(d.year, d.month, d.day + 1)
    else if d.month < 12 then Date(d.year, d.month + 1, 1)
    else Date(d.year + 1, 1, 1)
  }

  lemma BeforeIsStrictTotalOrder(a: Date, b: Date, c: Date)
    ensures !Before(a, a)
    ensures Before(a, b) ==> !Before(b, a)
    ensures Before(a, b) && Before(b, c) ==> Before(a, c)
    ensures a != b ==> Before(a, b) || Before(b, a)
  {
  }

  /** No calendar day lies strictly between a day and the next one. */
  lemma NothingBetweenDayAndNext(b: LocalDate, x: LocalDate)
    ensures Before(b, x) <==> NotAfter(NextDay(b), x)
  {
    if b.day == LengthOfMonth(b.year, b.month) && b.month == 12 {
      assert LengthOfMonth(b.year, 12) == 31;
    }
  }

  /** An inclusive range [a, c] splits at any day b in it into [a, b] and
      [b + 1 day, c], and no day falls in both halves. */
  lemma {:induction false} RangeSplitsAtDay(x: LocalDate, a: Date, b: LocalDate, c: Date)
    requires NotAfter(a, b) && NotAfter(b, c)
    ensures InRange(x, a, c) <==> InRange(x, a, b) || InRange(x, NextDay(b), c)
    ensures !(InRange(x, a, b) && InRange(x, NextDay(b), c))
  {
    NothingBetweenDayAndNext(b, x);
  }

  /** The day after the end of a month is the first day of the next one. */
  lemma {:induction false} DayAfterMonthEnd(year: int, month: int)
    requires IsValidYearMonth(year, month) && month < 12
    ensures NextDay(LastDayOfMonth(year, month)) == FirstDayOfMonth(year, month + 1)
  {
  }

  /** A year is the twelve months from January 1 to December 31. */
  lemma YearBounds(year: int)
    requires IsValidYear(year)
    ensures FirstDayOfMonth(year, 1) == Date(year, 1, 1)
    ensures LastDayOfMonth(year, 12) == Date(year, 12, 31)
  {
  }
}

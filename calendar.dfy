/** Calendar dates and wall-clock readings, as moment presents them:
    a year, a month 1..12 (what `format('MM')` prints), a day of the month,
    and for a reading of the clock the hour 0..23 and the minute 0..59. */
module Calendar {

  datatype Date = Date(year: int, month: int, day: int)

  /** A reading of the clock in one fixed zone (`moment.tz('Asia/Jakarta')`
      in controller.js, the process zone in functions.js). */
  datatype Moment = Moment(date: Date, hour: int, minute: int)

  /** Gregorian leap years. Only comparisons of `%` with zero are used, on
      which Dafny's Euclidean remainder and JavaScript's truncating one agree. */
  predicate IsLeapYear(y: int) {
    y % 4 == 0 && (y % 100 != 0 || y % 400 == 0)
  }

  function DaysInMonth(y: int, m: int): (n: int)
    requires 1 <= m <= 12
    ensures 28 <= n <= 31
    ensures n == 29 <==> m == 2 && IsLeapYear(y)
  {
    if m == 2 then (if IsLeapYear(y) then 29 else 28)
    else if m == 4 || m == 6 || m == 9 || m == 11 then 30
    else 31
  }

  /** A date that exists in the Gregorian calendar. */
  predicate ValidDate(d: Date) {
    1 <= d.month <= 12 && 1 <= d.day <= DaysInMonth(d.year, d.month)
  }

  /** moment's `a.isSame(b, 'day')` once both instants are read in the same
      zone: the same calendar day, year included. */
  predicate SameDay(a: Date, b: Date) {
    a == b
  }

  /** The same day of the year, whatever the years are. */
  predicate SameMonthAndDay(a: Date, b: Date) {
    a.month == b.month && a.day == b.day
  }

  /** Which day check a birthday gate makes: `WholeDate` is moment's
      `isSame(…, 'day')`, as both notifiers have it; `MonthAndDay` is the
      check a yearly birthday needs. */
  datatype DayRule = WholeDate | MonthAndDay

  /** February 29 exists exactly in leap years, so a check on month and day
      never matches it in the other years. */
  lemma LeapDayExistsOnlyInLeapYears(y: int)
    ensures ValidDate(Date(y, 2, 29)) <==> IsLeapYear(y)
  {
  }
}

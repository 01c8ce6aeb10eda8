/** Proleptic Gregorian dates and clock times, as Python's datetime module
    represents them (years 1 to 9999, second precision). */
module Calendar {

  datatype Date = Date(year: int, month: int, day: int)

  /** Time of day with second precision (datetime.time without microseconds). */
  datatype ClockTime = ClockTime(hour: int, minute: int, second: int)

  /** A calendar date together with a time of day, as seconds since midnight. */
  datatype DateTime = DateTime(date: Date, seconds: int)

  predicate IsLeapYear(year: int) {
    year % 4 == 0 && (year % 100 != 0 || year % 400 == 0)
  }

  function DaysInMonth(year: int, month: int): (n: int)
    requires 1 <= month <= 12
    ensures 28 <= n <= 31
    ensures n == 29 <==> month == 2 && IsLeapYear(year)
  {
    if month == 2 then (if IsLeapYear(year) then 29 else 28)
    else if month == 4 || month == 6 || month == 9 || month == 11 then 30
    else 31
  }

  /** The dates datetime.date accepts: MINYEAR 1 to MAXYEAR 9999, real days of the month. */
  predicate ValidDate(d: Date) {
    1 <= d.year <= 9999 && 1 <= d.month <= 12 && 1 <= d.day <= DaysInMonth(d.year, d.month)
  }

  predicate ValidClock(t: ClockTime) {
    0 <= t.hour < 24 && 0 <= t.minute < 60 && 0 <= t.second < 60
  }

  /** A value of Python's datetime.date: always a valid date. */
  type CivilDate = d: Date | ValidDate(d) witness Date(1, 1, 1)

  /** A value of Python's datetime.time (microsecond 0): always a valid clock reading. */
  type CivilTime = t: ClockTime | ValidClock(t) witness ClockTime(0, 0, 0)

  function SecondsOfDay(t: ClockTime): int {
    t.hour * 3600 + t.minute * 60 + t.second
  }

  /** A key whose integer order is the chronological order of valid dates. */
  function DateKey(d: Date): int {
    d.year * 512 + d.month * 32 + d.day
  }

  predicate DateLe(a: Date, b: Date) {
    DateKey(a) <= DateKey(b)
  }

  predicate DateLt(a: Date, b: Date) {
    DateKey(a) < DateKey(b)
  }

  /** Number of whole months from January of year 0 to the month of d. */
  function MonthIndex(d: Date): int {
    d.year * 12 + d.month - 1
  }

  /** A key whose integer order is the chronological order of date-times. */
  function DateTimeKey(t: DateTime): int {
    DateKey(t.date) * 86400 + t.seconds
  }

  /** DateKey orders valid dates by year, then month, then day, and tells them apart. */
  lemma DateOrderIsLexicographic(a: Date, b: Date)
    requires ValidDate(a) && ValidDate(b)
    ensures DateLt(a, b) <==>
              a.year < b.year
              || (a.year == b.year && a.month < b.month)
              || (a.year == b.year && a.month == b.month && a.day < b.day)
    ensures DateKey(a) == DateKey(b) <==> a == b
  {
  }

  /** On a valid date, a date is on or after the first day of a month exactly
      when its month is that month or a later one. */
  lemma {:induction false} OnOrAfterMonthStart(d: Date, first: Date)
    requires ValidDate(d) && ValidDate(first) && first.day == 1
    ensures DateLe(first, d) <==> MonthIndex(first) <= MonthIndex(d)
  {
    DateOrderIsLexicographic(first, d);
    DateOrderIsLexicographic(d, first);
  }

  /** Within one calendar day the date-time order is the order of the times. */
  lemma SameDayOrder(a: DateTime, b: DateTime)
    requires a.date == b.date
    ensures DateTimeKey(a) < DateTimeKey(b) <==> a.seconds < b.seconds
  {
  }
}

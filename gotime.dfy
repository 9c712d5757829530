/** Times as whole seconds since the Unix epoch (UTC), and the one date layout the
    front matter uses, Go's "2006-01-02". */
module GoTime {

  type Time = int

  /** Go's `t.After(u)`: strictly later. */
  predicate After(t: Time, u: Time) {
    t > u
  }

  /** Go's zero `time.Time`, 0001-01-01 00:00:00 UTC. */
  const ZeroTime: Time := -62135596800

  const SecondsPerDay: int := 86400

  predicate IsDigit(c: char) {
    '0' <= c <= '9'
  }

  function DigitValue(c: char): nat
    requires IsDigit(c)
  {
    c as int - '0' as int
  }

  /** The shape YYYY-MM-DD: ten characters, digits except for the two dashes. */
  predicate HasDateShape(s: string) {
    |s| == 10 && s[4] == '-' && s[7] == '-'
    && IsDigit(s[0]) && IsDigit(s[1]) && IsDigit(s[2]) && IsDigit(s[3])
    && IsDigit(s[5]) && IsDigit(s[6]) && IsDigit(s[8]) && IsDigit(s[9])
  }

  function YearOf(s: string): int
    requires HasDateShape(s)
  {
    DigitValue(s[0]) * 1000 + DigitValue(s[1]) * 100 + DigitValue(s[2]) * 10 + DigitValue(s[3])
  }

  function MonthOf(s: string): int
    requires HasDateShape(s)
  {
    DigitValue(s[5]) * 10 + DigitValue(s[6])
  }

  function DayOf(s: string): int
    requires HasDateShape(s)
  {
    DigitValue(s[8]) * 10 + DigitValue(s[9])
  }

  /** The Gregorian leap-year rule, as Go's `isLeap`. */
  predicate IsLeap(year: int) {
    year % 4 == 0 && (year % 100 != 0 || year % 400 == 0)
  }

  /** Go's `daysIn(month, year)`. */
  function DaysIn(month: int, year: int): (n: int)
    requires 1 <= month <= 12
    ensures 28 <= n <= 31
    ensures month == 2 ==> (n == 29 <==> IsLeap(year))
  {
    if month == 2 then (if IsLeap(year) then 29 else 28)
    else if month == 4 || month == 6 || month == 9 || month == 11 then 30
    else 31
  }

  /** `time.Parse("2006-01-02", s)` succeeds: the shape is right, the month is 1..12 and
      the day exists in that month of that year. */
  predicate IsCalendarDate(s: string) {
    HasDateShape(s) && 1 <= MonthOf(s) <= 12 && 1 <= DayOf(s) <= DaysIn(MonthOf(s), YearOf(s))
  }

  /** `d.Format(time.RFC3339)` of the parsed date: midnight UTC of the same day. */
  function DateRFC3339(s: string): (r: string)
    requires IsCalendarDate(s)
    ensures |r| == 20 && r[..10] == s
  {
    s + "T00:00:00Z"
  }

  /** Days from 0001-01-01 to the first day of `year` (negative before year 1). */
  function DaysBeforeYear(year: int): int {
    var y := year - 1;
    365 * y + y / 4 - y / 100 + y / 400
  }

  /** Days from the first of January to the first of `month`. */
  function DaysBeforeMonth(month: int, year: int): int
    requires 1 <= month <= 13
    decreases month
  {
    if month == 1 then 0 else DaysBeforeMonth(month - 1, year) + DaysIn(month - 1, year)
  }

  /** The instant `time.Parse("2006-01-02", s)` yields: midnight UTC of that day. */
  function DateUnix(s: string): Time
    requires IsCalendarDate(s)
  {
    var days := DaysBeforeYear(YearOf(s)) + DaysBeforeMonth(MonthOf(s), YearOf(s)) + DayOf(s) - 1;
    (days - DaysBeforeYear(1970)) * SecondsPerDay
  }

  /** The first day of year 1 parses to Go's zero time: a valid "0001-01-01" cannot be
      told apart from a failed parse by its value. */
  lemma FirstDayIsZeroTime()
    ensures IsCalendarDate("0001-01-01") && DateUnix("0001-01-01") == ZeroTime
  {
    var s := "0001-01-01";
    assert s[0] == '0' && s[1] == '0' && s[2] == '0' && s[3] == '1' && s[4] == '-';
    assert s[5] == '0' && s[6] == '1' && s[7] == '-' && s[8] == '0' && s[9] == '1';
    assert YearOf(s) == 1 && MonthOf(s) == 1 && DayOf(s) == 1;
    assert DaysBeforeYear(1) == 0;
    assert DaysBeforeYear(1970) == 719162;
  }
}

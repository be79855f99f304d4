/**
 * Calendar arithmetic on UTC instants.  An instant is a number of seconds
 * since 1970-01-01T00:00:00Z (the unit the trading terminal reports deal
 * times in); a date is a number of days since 1970-01-01.  These functions
 * stand for `datetime.fromtimestamp(t, tz=timezone.utc)` followed by
 * `.date()`, `.hour`, `.weekday()`, and SQL's EXTRACT(MONTH/YEAR ...).
 */
module Calendar {

  type Time = nat
  type Day = int
  type Hour = h: int | 0 <= h < 24
  type Month = m: int | 1 <= m <= 12 witness 1

  const SecondsPerDay: nat := 86400
  const SecondsPerHour: nat := 3600

  /** The date of an instant: the day whose 24 hours contain it. */
  function DayOf(t: Time): (d: nat)
    ensures d * SecondsPerDay <= t < (d + 1) * SecondsPerDay
  {
    t / SecondsPerDay
  }

  /** The hour of day of an instant, as `datetime.hour` gives it. */
  function HourOf(t: Time): (h: Hour)
    ensures DayOf(t) * SecondsPerDay + h * SecondsPerHour <= t
    ensures t < DayOf(t) * SecondsPerDay + (h + 1) * SecondsPerHour
  {
    (t % SecondsPerDay) / SecondsPerHour
  }

  /** Python's `weekday()`: Monday is 0 and Sunday is 6; 1970-01-01 was a Thursday. */
  function WeekdayOf(t: Time): (w: int)
    ensures 0 <= w < 7
    ensures t < SecondsPerDay ==> w == 3
  {
    (DayOf(t) + 3) % 7
  }

  /** The next day is the next weekday, Sunday wrapping round to Monday. */
  lemma WeekdayNextDay(t: Time)
    ensures WeekdayOf(t + SecondsPerDay) == (WeekdayOf(t) + 1) % 7
  {
    assert DayOf(t + SecondsPerDay) == DayOf(t) + 1;
  }

  predicate IsLeap(y: int) {
    y % 4 == 0 && (y % 100 != 0 || y % 400 == 0)
  }

  function DaysInYear(y: int): nat {
    if IsLeap(y) then 366 else 365
  }

  function DaysInMonth(y: int, m: Month): nat {
    if m == 2 then (if IsLeap(y) then 29 else 28)
    else if m == 4 || m == 6 || m == 9 || m == 11 then 30
    else 31
  }

  /** The day number of 1 January of year `y`. */
  function YearStart(y: int): nat
    requires y >= 1970
  {
    if y == 1970 then 0 else YearStart(y - 1) + DaysInYear(y - 1)
  }

  /** The number of days of year `y` before the first of month `m`. */
  function MonthStart(y: int, m: Month): nat {
    if m == 1 then 0 else MonthStart(y, m - 1) + DaysInMonth(y, m - 1)
  }

  /** The twelve months fill the year. */
  lemma MonthsFillYear(y: int)
    ensures MonthStart(y, 12) + DaysInMonth(y, 12) == DaysInYear(y)
  {
    var feb := DaysInMonth(y, 2);
    assert MonthStart(y, 2) == 31;
    assert MonthStart(y, 3) == 31 + feb;
    assert MonthStart(y, 4) == 62 + feb;
    assert MonthStart(y, 5) == 92 + feb;
    assert MonthStart(y, 6) == 123 + feb;
    assert MonthStart(y, 7) == 153 + feb;
    assert MonthStart(y, 8) == 184 + feb;
    assert MonthStart(y, 9) == 215 + feb;
    assert MonthStart(y, 10) == 245 + feb;
    assert MonthStart(y, 11) == 276 + feb;
    assert MonthStart(y, 12) == 306 + feb;
  }

  /** The year containing the date `d` days after 1 January of `y`, and the day within that year. */
  function YearAndOffset(y: int, d: nat): (r: (int, nat))
    ensures r.0 >= y && r.1 < DaysInYear(r.0)
    ensures y >= 1970 ==> YearStart(r.0) + r.1 == YearStart(y) + d
    decreases d
  {
    if d < DaysInYear(y) then (y, d) else YearAndOffset(y + 1, d - DaysInYear(y))
  }

  /** The month containing day `d` of year `y`, counting from month `m`. */
  function MonthFrom(y: int, m: Month, d: nat): (r: Month)
    ensures m <= r
    ensures MonthStart(y, m) + d < DaysInYear(y) ==>
      MonthStart(y, r) <= MonthStart(y, m) + d < MonthStart(y, r) + DaysInMonth(y, r)
    decreases 12 - m
  {
    if m == 12 then MonthsFillYear(y); m
    else if d < DaysInMonth(y, m) then m
    else MonthFrom(y, m + 1, d - DaysInMonth(y, m))
  }

  /** The calendar year of an instant (`ExtractYear`): the year whose days contain the instant's date. */
  function YearOf(t: Time): (y: nat)
    ensures y >= 1970
    ensures YearStart(y) <= DayOf(t) < YearStart(y) + DaysInYear(y)
  {
    YearAndOffset(1970, DayOf(t)).0
  }

  /** The calendar month of an instant (`ExtractMonth`): the month of its year whose days contain its date. */
  function MonthOf(t: Time): (m: Month)
    ensures var y := YearOf(t);
            YearStart(y) + MonthStart(y, m) <= DayOf(t) < YearStart(y) + MonthStart(y, m) + DaysInMonth(y, m)
  {
    var yd := YearAndOffset(1970, DayOf(t));
    MonthFrom(yd.0, 1, yd.1)
  }
}

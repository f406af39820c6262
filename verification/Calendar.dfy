/**
 The Gregorian calendar, as the reference that HTTP dates are measured against: broken-down
 time in UTC and seconds since 1970.
 */
module Calendar {

  /** Full year, month 0..11, day of the month 1..31. */
  datatype Tm = Tm(year: int, mon: int, mday: int, hour: int, min: int, sec: int)

  predicate Leap(y: int) {
    y % 4 == 0 && (y % 100 != 0 || y % 400 == 0)
  }

  function MonthLen(y: int, m: int): int {
    if m == 1 then (if Leap(y) then 29 else 28)
    else if m == 3 || m == 5 || m == 8 || m == 10 then 30
    else 31
  }

  function YearLen(y: int): int {
    if Leap(y) then 366 else 365
  }

  /** Days from the start of 1970 to the start of year `y`. */
  function DaysBeforeYear(y: int): nat
    requires y >= 1970
    decreases y
  {
    if y == 1970 then 0 else DaysBeforeYear(y - 1) + YearLen(y - 1)
  }

  /** Days from the start of year `y` to the start of month `m`. */
  function DaysBeforeMonth(y: int, m: int): nat
    requires 0 <= m <= 12
    decreases m
  {
    if m == 0 then 0 else DaysBeforeMonth(y, m - 1) + MonthLen(y, m - 1)
  }

  predicate ValidTm(tm: Tm) {
    && tm.year >= 1970 && 0 <= tm.mon < 12 && 1 <= tm.mday <= MonthLen(tm.year, tm.mon)
    && 0 <= tm.hour < 24 && 0 <= tm.min < 60 && 0 <= tm.sec < 60
  }

  function Days(tm: Tm): int
    requires tm.year >= 1970 && 0 <= tm.mon < 12
  {
    DaysBeforeYear(tm.year) + DaysBeforeMonth(tm.year, tm.mon) + tm.mday - 1
  }

  function Epoch(tm: Tm): int
    requires tm.year >= 1970 && 0 <= tm.mon < 12
  {
    ((Days(tm) * 24 + tm.hour) * 60 + tm.min) * 60 + tm.sec
  }

  lemma MonthStarts(y: int)
    ensures DaysBeforeMonth(y, 1) == 31
    ensures var f := MonthLen(y, 1);
      && DaysBeforeMonth(y, 2) == 31 + f && DaysBeforeMonth(y, 3) == 62 + f && DaysBeforeMonth(y, 4) == 92 + f
      && DaysBeforeMonth(y, 5) == 123 + f && DaysBeforeMonth(y, 6) == 153 + f && DaysBeforeMonth(y, 7) == 184 + f
      && DaysBeforeMonth(y, 8) == 215 + f && DaysBeforeMonth(y, 9) == 245 + f && DaysBeforeMonth(y, 10) == 276 + f
      && DaysBeforeMonth(y, 11) == 306 + f && DaysBeforeMonth(y, 12) == 337 + f
  {
    assert DaysBeforeMonth(y, 4) == DaysBeforeMonth(y, 3) + 30;
    assert DaysBeforeMonth(y, 6) == DaysBeforeMonth(y, 5) + 30;
    assert DaysBeforeMonth(y, 8) == DaysBeforeMonth(y, 7) + 31;
    assert DaysBeforeMonth(y, 10) == DaysBeforeMonth(y, 9) + 31;
  }

  /** The month and day of the month of day `d` of year `y`, searching from month `m`. */
  function MonthDay(y: int, m: int, d: nat): (r: (int, int))
    requires 0 <= m < 12 && d < DaysBeforeMonth(y, 12) - DaysBeforeMonth(y, m)
    ensures 0 <= r.0 < 12 && 1 <= r.1 <= MonthLen(y, r.0)
    ensures DaysBeforeMonth(y, r.0) + r.1 - 1 == DaysBeforeMonth(y, m) + d
    decreases 12 - m
  {
    if d < MonthLen(y, m) then (m, d + 1) else MonthDay(y, m + 1, d - MonthLen(y, m))
  }

  /** The year and the day in the year of day `d` counted from the start of year `y`. */
  function YearDay(y: int, d: nat): (r: (int, nat))
    requires y >= 1970
    ensures r.0 >= y && r.1 < YearLen(r.0)
    ensures DaysBeforeYear(r.0) + r.1 == DaysBeforeYear(y) + d
    decreases d
  {
    if d < YearLen(y) then (y, d) else YearDay(y + 1, d - YearLen(y))
  }

  /** Hour, minute and second of second `s` of a day. */
  function Clock(s: nat): (r: (int, int, int))
    requires s < 86400
    ensures 0 <= r.0 < 24 && 0 <= r.1 < 60 && 0 <= r.2 < 60 && s == (r.0 * 60 + r.1) * 60 + r.2
  {
    var minutes := s / 60;
    (minutes / 60, minutes % 60, s % 60)
  }

  function Date(days: nat): (r: (int, int, int))
    ensures r.0 >= 1970 && 0 <= r.1 < 12 && 1 <= r.2 <= MonthLen(r.0, r.1)
    ensures DaysBeforeYear(r.0) + DaysBeforeMonth(r.0, r.1) + r.2 - 1 == days
  {
    var (year, yday) := YearDay(1970, days);
    MonthStarts(year);
    var (mon, mday) := MonthDay(year, 0, yday);
    (year, mon, mday)
  }

  /** gmtime_r */
  function Gmtime(t: nat): (tm: Tm)
    ensures ValidTm(tm) && Epoch(tm) == t
  {
    var (year, mon, mday) := Date(t / 86400);
    var (hour, min, sec) := Clock(t % 86400);
    Tm(year, mon, mday, hour, min, sec)
  }

  /** Day of the week, Sunday = 0; day 0 was a Thursday. */
  function Weekday(t: nat): (r: nat)
    ensures r < 7
  {
    (t / 86400 + 4) % 7
  }

  lemma WeekdayAdvances(t: nat)
    ensures t < 86400 ==> Weekday(t) == 4
    ensures Weekday(t + 86400) == if Weekday(t) == 6 then 0 else Weekday(t) + 1
  {
    assert (t + 86400) / 86400 == t / 86400 + 1;
  }
}

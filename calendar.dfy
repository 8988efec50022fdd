/** `get_limit_dates` and the part of Python's `datetime` it relies on: the
    proleptic Gregorian ordinal and the conversion of a naive local time to a
    Unix timestamp under a fixed UTC offset. */
module Calendar {
  import opened Wrappers

  const SecondsPerDay := 86400
  /** The ordinal of 1970-01-01 when 0001-01-01 has ordinal 1. */
  const EpochOrdinal := 719163
  /** The hour of the last day at which a month's window ends (`hour=12`). */
  const RefHour := 12

  predicate IsLeap(y: int) {
    y % 4 == 0 && (y % 100 != 0 || y % 400 == 0)
  }

  function DaysInYear(y: int): int {
    if IsLeap(y) then 366 else 365
  }

  function DaysInMonth(y: int, m: int): (n: int)
    requires 1 <= m <= 12
    ensures 28 <= n <= 31
  {
    if m == 2 then (if IsLeap(y) then 29 else 28)
    else if m == 4 || m == 6 || m == 9 || m == 11 then 30
    else 31
  }

  /** Days in the years before `y` (`_days_before_year`). */
  function DaysBeforeYear(y: int): int {
    var p := y - 1;
    p * 365 + p / 4 - p / 100 + p / 400
  }

  /** Days in the months of year `y` before month `m`: the cumulative table
      `_DAYS_BEFORE_MONTH` plus the leap day after February. */
  function DaysBeforeMonth(y: int, m: int): int
    requires 1 <= m <= 12
  {
    [0, 31, 59, 90, 120, 151, 181, 212, 243, 273, 304, 334][m - 1] + (if m > 2 && IsLeap(y) then 1 else 0)
  }

  /** `date(y, m, d).toordinal()` */
  function Ordinal(y: int, m: int, d: int): int
    requires 1 <= m <= 12
  {
    DaysBeforeYear(y) + DaysBeforeMonth(y, m) + d
  }

  /** Seconds from 1970-01-01 00:00:00 to the given wall-clock time, both read
      on the same clock. */
  function LocalSeconds(y: int, m: int, d: int, hh: int, mm: int, ss: int): int
    requires 1 <= m <= 12
  {
    (Ordinal(y, m, d) - EpochOrdinal) * 86400 + hh * 3600 + mm * 60 + ss
  }

  /** The closed window of Unix seconds requested for one month. */
  datatype Window = Window(start: int, end: int)

  /** `get_limit_dates(year, month, hour)`. Naive datetimes are read in a local
      zone that is `utcOffset` seconds ahead of UTC. `None` where one of the two
      `datetime(...)` calls raises: a month outside 1..12, a year outside
      1..9999, an hour outside 0..23, or December 9999 (whose next January
      does not exist). */
  function LimitDates(year: int, month: int, hour: int, utcOffset: int): (r: Option<Window>)
    ensures r.None? <==> !(1 <= year <= 9999 && 1 <= month <= 12 && 0 <= hour < 24)
                          || (year == 9999 && month == 12)
    ensures r.Some? ==> r.value.start + utcOffset == LocalSeconds(year, month, 1, 0, 0, 0)
  {
    if !(1 <= year <= 9999 && 1 <= month <= 12 && 0 <= hour < 24) then None
    else
      var start := LocalSeconds(year, month, 1, 0, 0, 0) - utcOffset;
      var (ny, nm) := NextMonth(year, month);
      if ny > 9999 then None
      else Some(Window(start, LocalSeconds(ny, nm, 1, hour, 59, 59) - SecondsPerDay - utcOffset))
  }

  /** The window ends at `hour:59:59` on the last day of the month, read on the
      local clock. */
  lemma WindowEnd(year: int, month: int, hour: int, utcOffset: int)
    requires LimitDates(year, month, hour, utcOffset).Some?
    ensures LimitDates(year, month, hour, utcOffset).value.end + utcOffset
            == LocalSeconds(year, month, DaysInMonth(year, month), hour, 59, 59)
  {
    NextMonthOrdinal(year, month);
  }

  /** The month after (year, month), with December rolling over to January. */
  function NextMonth(year: int, month: int): (int, int) {
    if month != 12 then (year, month + 1) else (year + 1, 1)
  }

  /** The table counts the days of the months before: each month starts
      `DaysInMonth` days after the one before it, and the year ends after
      December's 31 days. */
  lemma DaysBeforeMonthCounts(y: int, m: int)
    requires 1 <= m <= 12
    ensures m < 12 ==> DaysBeforeMonth(y, m + 1) == DaysBeforeMonth(y, m) + DaysInMonth(y, m)
    ensures m == 12 ==> DaysBeforeMonth(y, m) + DaysInMonth(y, m) == DaysInYear(y)
  {
  }

  /** `q / k` grows by one exactly when `q` is a multiple of `k`. */
  lemma DivStep(q: int, k: int)
    requires k == 4 || k == 100 || k == 400
    ensures q / k - (q - 1) / k == if q % k == 0 then 1 else 0
  {
  }

  /** A year after `y` starts `DaysInYear(y)` days after `y` does. */
  lemma DaysBeforeNextYear(y: int)
    ensures DaysBeforeYear(y + 1) == DaysBeforeYear(y) + DaysInYear(y)
  {
    DivStep(y, 4);
    DivStep(y, 100);
    DivStep(y, 400);
  }

  /** The first day of the next month comes `DaysInMonth` days after the first
      day of this one, December included. */
  lemma NextMonthOrdinal(year: int, month: int)
    requires 1 <= month <= 12
    ensures var (ny, nm) := NextMonth(year, month);
            1 <= nm <= 12 && Ordinal(ny, nm, 1) == Ordinal(year, month, 1) + DaysInMonth(year, month)
  {
    DaysBeforeMonthCounts(year, month);
    if month == 12 {
      DaysBeforeNextYear(year);
    }
  }

  /** Consecutive months' windows: the next window starts one day after this one's
      end minus the anchor time of day, so only an anchor of 23:59:59 makes them
      meet; with the default anchor of 12:59:59 the last 39600 seconds of every
      month fall in no window. */
  lemma ConsecutiveWindows(year: int, month: int, hour: int, utcOffset: int)
    requires LimitDates(year, month, hour, utcOffset).Some?
    requires LimitDates(NextMonth(year, month).0, NextMonth(year, month).1, hour, utcOffset).Some?
    ensures var w := LimitDates(year, month, hour, utcOffset).value;
            var n := LimitDates(NextMonth(year, month).0, NextMonth(year, month).1, hour, utcOffset).value;
            && n.start - w.end == SecondsPerDay - (hour * 3600 + 3599)
            && (n.start == w.end + 1 <==> hour == 23)
  {
    NextMonthOrdinal(year, month);
  }

  /** January 2020 in UTC with the default anchor: the window ends at
      2020-01-31 12:59:59. */
  lemma January2020()
    ensures LimitDates(2020, 1, RefHour, 0) == Some(Window(1577836800, 1580475599))
  {
  }
}

/**
  The pieces of .NET's `DateTime` and Gregorian calendar that the controller relies on:
  the proleptic Gregorian calendar over years 1..9999, the day of the year, the day of the
  week, week-of-year numbering under the "first day" rule with weeks starting on Monday,
  and `AddMonths`. Everything is integer arithmetic; no ambient culture is consulted.
 */
module Calendar {
  import opened Wrappers

  /** Range of years a .NET `DateTime` can hold. */
  const MinYear: int := 1
  const MaxYear: int := 9999

  /** 100-nanosecond ticks in one day: the resolution of a `DateTime`'s time of day. */
  const TicksPerDay: int := 864_000_000_000

  /** `System.DayOfWeek` numbers the days Sunday = 0 .. Saturday = 6. */
  const Sunday: int := 0
  const Monday: int := 1
  const Tuesday: int := 2
  const Wednesday: int := 3
  const Thursday: int := 4
  const Friday: int := 5
  const Saturday: int := 6

  /** Days before the start of each month (index 0..12), common and leap years. */
  const DaysToMonth365: seq<int> := [0, 31, 59, 90, 120, 151, 181, 212, 243, 273, 304, 334, 365]
  const DaysToMonth366: seq<int> := [0, 31, 60, 91, 121, 152, 182, 213, 244, 274, 305, 335, 366]

  predicate IsLeapYear(year: int)
  {
    year % 4 == 0 && (year % 100 != 0 || year % 400 == 0)
  }

  function DaysToMonth(year: int): (table: seq<int>)
    ensures |table| == 13 && table[0] == 0
    ensures table[12] == if IsLeapYear(year) then 366 else 365
  {
    if IsLeapYear(year) then DaysToMonth366 else DaysToMonth365
  }

  /** The runtime's month length, read off the cumulative table; the contract states it the usual way. */
  function DaysInMonth(year: int, month: int): (n: int)
    requires 1 <= month <= 12
    ensures month == 2 ==> n == if IsLeapYear(year) then 29 else 28
    ensures month in {4, 6, 9, 11} ==> n == 30
    ensures month in {1, 3, 5, 7, 8, 10, 12} ==> n == 31
  {
    DaysToMonth(year)[month] - DaysToMonth(year)[month - 1]
  }

  /** A calendar date with its time of day in ticks since midnight. */
  datatype DateTimeParts = DateTimeParts(year: int, month: int, day: int, timeOfDay: int)

  predicate IsValidDateTime(d: DateTimeParts)
  {
    && MinYear <= d.year <= MaxYear
    && 1 <= d.month <= 12
    && 1 <= d.day <= DaysInMonth(d.year, d.month)
    && 0 <= d.timeOfDay < TicksPerDay
  }

  /** A .NET `DateTime`: only valid dates exist. */
  type DateTime = d: DateTimeParts | IsValidDateTime(d) witness DateTimeParts(1, 1, 1, 0)

  /** Midnight of a given day: `new DateTime(year, month, day)`. */
  function Date(year: int, month: int, day: int): (d: DateTime)
    requires MinYear <= year <= MaxYear && 1 <= month <= 12 && 1 <= day <= DaysInMonth(year, month)
    ensures d.year == year && d.month == month && d.day == day && d.timeOfDay == 0
  {
    DateTimeParts(year, month, day, 0)
  }

  /** Strict chronological order, as `DateTime` compares its ticks. */
  predicate Before(a: DateTime, b: DateTime)
  {
    || a.year < b.year
    || (a.year == b.year && a.month < b.month)
    || (a.year == b.year && a.month == b.month && a.day < b.day)
    || (a.year == b.year && a.month == b.month && a.day == b.day && a.timeOfDay < b.timeOfDay)
  }

  predicate NotAfter(a: DateTime, b: DateTime)
  {
    !Before(b, a)
  }

  /** 1-based day of the year. */
  function DayOfYear(d: DateTime): (n: int)
    ensures 1 <= n <= DaysToMonth(d.year)[12]
    ensures d.month == 1 ==> n == d.day
  {
    DaysToMonth(d.year)[d.month - 1] + d.day
  }

  /** Days from 0001-01-01 to `d`: the runtime's tick count divided by `TicksPerDay`. */
  function DayNumber(d: DateTime): (n: int)
    ensures n >= 0
  {
    var y := d.year - 1;
    y * 365 + y / 4 - y / 100 + y / 400 + DaysToMonth(d.year)[d.month - 1] + d.day - 1
  }

  /** 0001-01-01 was a Monday, hence the `+ 1`. */
  function DayOfWeek(d: DateTime): (w: int)
    ensures Sunday <= w <= Saturday
  {
    (DayNumber(d) + 1) % 7
  }

  function Jan1DayOfWeek(year: int): (w: int)
    requires MinYear <= year <= MaxYear
    ensures Sunday <= w <= Saturday
  {
    DayOfWeek(Date(year, 1, 1))
  }

  /** How many days January 1 lies after the Monday that starts its week (0..6). */
  function Jan1Offset(year: int): (k: int)
    requires MinYear <= year <= MaxYear
    ensures 0 <= k < 7
  {
    (Jan1DayOfWeek(year) - Monday + 7) % 7
  }

  /**
    Week of the year under `CalendarWeekRule.FirstDay` with weeks starting on Monday:
    week 1 is the (possibly partial) week holding January 1, and a new week starts
    on every Monday after it. This is not the ISO 8601 rule.
   */
  function WeekOfYear(d: DateTime): (w: int)
    ensures 1 <= w <= 54
    ensures d.month == 1 && d.day == 1 ==> w == 1
  {
    (DayOfYear(d) - 1 + Jan1Offset(d.year)) / 7 + 1
  }

  /** The weekday of any date follows from the weekday of January 1 and the day of the year. */
  lemma {:induction false} DayOfWeekFromJan1(d: DateTime)
    ensures DayOfWeek(d) == (Jan1DayOfWeek(d.year) + DayOfYear(d) - 1) % 7
  {
    var n0 := DayNumber(Date(d.year, 1, 1));
    var k := DayOfYear(d) - 1;
    assert DayNumber(d) == n0 + k;
    ModAddLeft(n0 + 1, k);
  }

  lemma ModAddLeft(a: int, k: int)
    requires a >= 0 && k >= 0
    ensures (a + k) % 7 == (a % 7 + k) % 7
  {
    var q := a / 7;
    assert a == 7 * q + a % 7;
    assert a + k == 7 * q + (a % 7 + k);
  }

  /**
    The runtime computes the week without knowing January 1 directly: it recovers Jan 1's
    weekday as `DayOfWeek(d) - dayOfYear % 7` (possibly negative) and normalises it with
    `+ 14` before taking `% 7`. Both formulas give the same week.
   */
  lemma {:induction false} WeekOfYearMatchesRuntimeFormula(d: DateTime)
    ensures
      var dayOfYear := DayOfYear(d) - 1;
      var dayForJan1 := DayOfWeek(d) - dayOfYear % 7;
      var offset := (dayForJan1 - Monday + 14) % 7;
      dayForJan1 - Monday + 14 >= 0 && WeekOfYear(d) == (dayOfYear + offset) / 7 + 1
  {
    var dayOfYear := DayOfYear(d) - 1;
    var j := Jan1DayOfWeek(d.year);
    var r := dayOfYear % 7;
    DayOfWeekFromJan1(d);
    assert DayOfWeek(d) == (j + r) % 7 by {
      assert j + dayOfYear == (j + r) + 7 * (dayOfYear / 7);
      ModShift(j + r, dayOfYear / 7);
    }
    RecoveredJan1(j, r, DayOfWeek(d));
  }

  /** Subtracting the day-of-year remainder recovers January 1's weekday, up to one week. */
  lemma RecoveredJan1(j: int, r: int, w: int)
    requires 0 <= j < 7 && 0 <= r < 7 && w == (j + r) % 7
    ensures w - r - Monday + 14 >= 0
    ensures (w - r - Monday + 14) % 7 == (j - Monday + 7) % 7
  {
    assert w == j + r || w == j + r - 7;
    ModShift(j + 6, 1);
  }

  lemma ModShift(a: int, q: int)
    requires a >= 0 && q >= 0
    ensures (a + 7 * q) % 7 == a % 7
  {
  }

  /**
    `DateTime.AddMonths`: moves the month by `months`, keeps the time of day, clamps the day
    to the length of the target month, and fails (the runtime throws) when `months` is
    outside +-120000 or the result leaves the years 1..9999.
   */
  function AddMonths(d: DateTime, months: int): (r: Option<DateTime>)
    ensures r.Some? ==> r.value.timeOfDay == d.timeOfDay && r.value.day <= d.day
    ensures r.Some? ==> MonthIndex(r.value.year, r.value.month) == MonthIndex(d.year, d.month) + months
    ensures r.None? <==>
      || months < -120000 || months > 120000
      || MonthIndex(d.year, d.month) + months < MonthIndex(MinYear, 1)
      || MonthIndex(d.year, d.month) + months > MonthIndex(MaxYear, 12)
    ensures r.Some? ==>
      var days := DaysInMonth(r.value.year, r.value.month);
      r.value.day == if d.day > days then days else d.day
  {
    if months < -120000 || months > 120000 then None
    else
      var m := d.month + months;
      var q := if m > 0 then (m - 1) / 12 else TruncatedDiv(m, 12) - 1;
      var y := d.year + q;
      var m' := m - q * 12;
      FloorOfMonthSum(m);
      if y < MinYear || y > MaxYear then None
      else
        var days := DaysInMonth(y, m');
        var day := if d.day > days then days else d.day;
        Some(DateTimeParts(y, m', day, d.timeOfDay))
  }

  /** C#'s `/` on `int`: truncates toward zero. */
  function TruncatedDiv(a: int, b: int): int
    requires b > 0
  {
    if a >= 0 then a / b else -((-a) / b)
  }

  /** The runtime's two-branch quotient in `AddMonths` is floor division of `m - 1` by 12. */
  lemma FloorOfMonthSum(m: int)
    ensures var q := if m > 0 then (m - 1) / 12 else TruncatedDiv(m, 12) - 1;
      q == (m - 1) / 12 && 1 <= m - q * 12 <= 12
  {
    if m <= 0 {
      var t := (-m) / 12;
      assert -m == 12 * t + (-m) % 12;
      var q := -t - 1;
      assert m - 1 == 12 * q + (11 - (-m) % 12);
    }
  }

  /** Months counted from January of year 0; orders (year, month) pairs lexicographically. */
  function MonthIndex(year: int, month: int): int
  {
    year * 12 + month - 1
  }

  function YearOfMonthIndex(k: int): int
  {
    k / 12
  }

  function MonthOfMonthIndex(k: int): (m: int)
    ensures 1 <= m <= 12
  {
    k % 12 + 1
  }

  lemma MonthIndexRoundTrip(year: int, month: int)
    requires 1 <= month <= 12
    ensures YearOfMonthIndex(MonthIndex(year, month)) == year
    ensures MonthOfMonthIndex(MonthIndex(year, month)) == month
  {
    var k := MonthIndex(year, month);
    assert k == 12 * year + (month - 1);
  }

  lemma MonthIndexOrder(y1: int, m1: int, y2: int, m2: int)
    requires 1 <= m1 <= 12 && 1 <= m2 <= 12
    ensures MonthIndex(y1, m1) < MonthIndex(y2, m2) <==> (y1 < y2 || (y1 == y2 && m1 < m2))
    ensures MonthIndex(y1, m1) == MonthIndex(y2, m2) <==> (y1 == y2 && m1 == m2)
  {
  }

  /**
    The month before `now`, as `now.AddMonths(-1)` reports it: January rolls back to December
    of the previous year; only January of year 1 has no predecessor.
   */
  lemma {:induction false} PreviousMonth(now: DateTime)
    ensures AddMonths(now, -1).None? <==> (now.year == MinYear && now.month == 1)
    ensures AddMonths(now, -1).Some? ==>
      var p := AddMonths(now, -1).value;
      if now.month == 1 then p.year == now.year - 1 && p.month == 12
      else p.year == now.year && p.month == now.month - 1
  {
    FloorOfMonthSum(now.month - 1);
    if AddMonths(now, -1).Some? {
      var p := AddMonths(now, -1).value;
      MonthIndexOrder(p.year, p.month, now.year, now.month);
    }
  }
}

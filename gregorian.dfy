/** Dates as the availability code uses them, without JavaScript's `Date`.

    A date is a day number: day 0 is Monday 1 January 0001 of the proleptic
    Gregorian calendar, so `day % 7` is the weekday counted from Monday. An instant
    is a count of minutes since midnight starting day 0, in local wall-clock time.
    The functions here are the specifications; the class `JsDate` and the two
    methods after it follow the source's step-by-step mutations of `Date` objects. */
module Gregorian {

  const MinutesPerDay := 1440

  predicate IsLeapYear(y: int) {
    y % 4 == 0 && (y % 100 != 0 || y % 400 == 0)
  }

  function YearLength(y: int): int {
    if IsLeapYear(y) then 366 else 365
  }

  /** Day number of 1 January of year `y`. */
  function YearStart(y: int): int {
    var n := y - 1;
    365 * n + n / 4 - n / 100 + n / 400
  }

  lemma DivStep(n: int, k: int)
    requires k == 4 || k == 100 || k == 400
    ensures (n + 1) / k == n / k + (if (n + 1) % k == 0 then 1 else 0)
  {
    var q, r := n / k, n % k;
    assert n == k * q + r && 0 <= r < k;
    if r == k - 1 {
      assert n + 1 == k * (q + 1);
    } else {
      assert n + 1 == k * q + (r + 1);
    }
  }

  lemma YearStartStep(y: int)
    ensures YearStart(y + 1) == YearStart(y) + YearLength(y)
  {
    DivStep(y - 1, 4);
    DivStep(y - 1, 100);
    DivStep(y - 1, 400);
  }

  lemma {:induction false} YearStartFromOne(y: int)
    requires y >= 1
    ensures 365 * (y - 1) <= YearStart(y) <= 366 * (y - 1)
    decreases y
  {
    if y > 1 {
      YearStartFromOne(y - 1);
      YearStartStep(y - 1);
    }
  }

  lemma {:induction false} YearStartUpToOne(y: int)
    requires y <= 1
    ensures 366 * (y - 1) <= YearStart(y) <= 365 * (y - 1)
    decreases 1 - y
  {
    if y < 1 {
      YearStartUpToOne(y + 1);
      YearStartStep(y);
    }
  }

  /** Later years start later, by at least 365 days a year. */
  lemma {:induction false} YearStartMonotonic(a: int, b: int)
    requires a <= b
    ensures YearStart(a) + 365 * (b - a) <= YearStart(b)
    decreases b - a
  {
    if a < b {
      YearStartMonotonic(a, b - 1);
      YearStartStep(b - 1);
    }
  }

  /** A year starting no later than `day`. */
  function YearFloor(day: int): (y: int)
    ensures YearStart(y) <= day
  {
    if day >= 0 then
      var y := day / 366 + 1;
      YearStartFromOne(y);
      y
    else
      var y := day / 365;
      YearStartUpToOne(y);
      y
  }

  function YearFrom(y: int, day: int): (r: int)
    requires YearStart(y) <= day
    ensures YearStart(r) <= day < YearStart(r + 1)
    decreases day - YearStart(y)
  {
    YearStartStep(y);
    if day < YearStart(y + 1) then y else YearFrom(y + 1, day)
  }

  /** The calendar year a day falls in (`getFullYear()`). */
  function YearOf(day: int): (y: int)
    ensures YearStart(y) <= day < YearStart(y + 1)
  {
    YearFrom(YearFloor(day), day)
  }

  /** Each day lies in exactly one year. */
  lemma YearOfUnique(day: int, y: int)
    requires YearStart(y) <= day < YearStart(y + 1)
    ensures YearOf(day) == y
  {
    var x := YearOf(day);
    if x < y {
      YearStartMonotonic(x + 1, y);
    } else if y < x {
      YearStartMonotonic(y + 1, x);
    }
  }

  /** Days of year `y` before the first of month `m`: the running totals
      0, 31, 59, 90, 120, 151, 181, 212, 243, 273, 304, 334 of a common year, one
      more from March on in a leap year. */
  function DaysBeforeMonth(y: int, m: int): int
    requires 1 <= m <= 12
  {
    var common := (367 * m - 362) / 12 - (if m > 2 then 2 else 0);
    common + (if m > 2 && IsLeapYear(y) then 1 else 0)
  }

  lemma DaysBeforeMonthTable(y: int, m: int)
    requires 1 <= m <= 12
    ensures DaysBeforeMonth(y, m) ==
      [0, 31, 59, 90, 120, 151, 181, 212, 243, 273, 304, 334][m - 1] + (if m > 2 && IsLeapYear(y) then 1 else 0)
  {
  }

  /** `new Date(y, m - 1, d)` as a day number (JavaScript counts months from 0). A
      day of month outside the month rolls over into the next or previous one,
      as `Date` does. */
  function DayNumber(y: int, m: int, d: int): int
    requires 1 <= m <= 12
  {
    YearStart(y) + DaysBeforeMonth(y, m) + d - 1
  }

  lemma JanuaryFirst(y: int)
    ensures DayNumber(y, 1, 1) == YearStart(y)
  {
  }

  /** The first of a month lies inside its year. */
  lemma MonthStartInYear(y: int, m: int)
    requires 1 <= m <= 12
    ensures YearStart(y) <= DayNumber(y, m, 1) < YearStart(y + 1)
  {
    YearStartStep(y);
  }

  lemma YearOfMonthStart(y: int, m: int)
    requires 1 <= m <= 12
    ensures YearOf(DayNumber(y, m, 1)) == y
  {
    MonthStartInYear(y, m);
    YearOfUnique(DayNumber(y, m, 1), y);
  }

  /** `date.getMonth() < m - 1`: the date lies before the first of month `m` of its
      own year. */
  predicate BeforeMonth(day: int, m: int)
    requires 1 <= m <= 12
  {
    day < DayNumber(YearOf(day), m, 1)
  }

  /** The year whose month `m` opens the twelve months holding `day`: the current
      year, or the previous one while `day` is before the first of month `m`. */
  function SeasonStartYear(day: int, m: int): (y: int)
    requires 1 <= m <= 12
    ensures DayNumber(y, m, 1) <= day < DayNumber(y + 1, m, 1)
  {
    var year := YearOf(day);
    var y := if BeforeMonth(day, m) then year - 1 else year;
    SeasonAround(day, m, year, y);
    y
  }

  /** A day of year `year` lies between the first of month `m` of the previous
      year and that of the next, so the first of month `m` before it is in
      `year` or the year before. */
  lemma SeasonAround(day: int, m: int, year: int, y: int)
    requires 1 <= m <= 12
    requires YearStart(year) <= day < YearStart(year + 1)
    requires y == if day < DayNumber(year, m, 1) then year - 1 else year
    ensures DayNumber(y, m, 1) <= day < DayNumber(y + 1, m, 1)
  {
    MonthStartInYear(year - 1, m);
    MonthStartInYear(year + 1, m);
  }

  /** `date.getDay()`: 0 for Sunday, 1 for Monday, ..., 6 for Saturday. */
  function JsWeekday(day: int): (w: int)
    ensures 0 <= w < 7
    ensures w == 0 <==> day % 7 == 6
    ensures w != 0 ==> w == day % 7 + 1
  {
    (day + 1) % 7
  }

  /** `getStartOfWeek`: the Monday of the Monday-to-Sunday week holding `day`. */
  function StartOfWeek(day: int): (monday: int)
    ensures monday % 7 == 0
    ensures monday <= day < monday + 7
  {
    var dow := JsWeekday(day);
    day - dow + (if dow == 0 then -6 else 1)
  }

  /** A Sunday belongs to the week of the Monday six days before it. */
  lemma StartOfWeekOfSunday(day: int)
    requires JsWeekday(day) == 0
    ensures StartOfWeek(day) == day - 6
  {
  }

  /** `Math.ceil(a / 7)`. */
  function CeilDiv7(a: int): (q: int)
    ensures 7 * (q - 1) < a <= 7 * q
  {
    (a + 6) / 7
  }

  /** The Thursday `getWeekNumber` moves to: `day + 4 - (getDay() || 7)`. */
  function ThursdayOf(day: int): (t: int)
    ensures t == StartOfWeek(day) + 3
  {
    var dow := JsWeekday(day);
    day + 4 - (if dow == 0 then 7 else dow)
  }

  /** `getWeekNumber`: move to the Thursday of the week, then count the weeks from
      1 January of that Thursday's year. */
  function WeekNumber(day: int): (n: nat)
    ensures 1 <= n <= 53
  {
    var thursday := ThursdayOf(day);
    var year := YearOf(thursday);
    YearStartStep(year);
    CeilDiv7(thursday - DayNumber(year, 1, 1) + 1)
  }

  /** The first Thursday on or after 1 January of year `y`. */
  function FirstThursday(y: int): (t: int)
    ensures t % 7 == 3
    ensures YearStart(y) <= t < YearStart(y) + 7
  {
    var start := YearStart(y);
    NextThursday(start);
    start + (3 - start % 7) % 7
  }

  lemma NextThursday(start: int)
    ensures 0 <= (3 - start % 7) % 7 < 7
    ensures (start + (3 - start % 7) % 7) % 7 == 3
  {
    var q, r := start / 7, start % 7;
    assert start == 7 * q + r && 0 <= r < 7;
    if r <= 3 {
      assert (3 - r) % 7 == 3 - r;
      assert start + (3 - r) == 7 * q + 3;
    } else {
      assert (3 - r) % 7 == 10 - r;
      assert start + (10 - r) == 7 * (q + 1) + 3;
    }
  }

  lemma StartOfWeekOfThursday(t: int)
    requires t % 7 == 3
    ensures StartOfWeek(t) == t - 3
  {
  }

  /** ISO 8601 week-based year: the calendar year of the week's Thursday. */
  function IsoWeekYear(day: int): int {
    YearOf(StartOfWeek(day) + 3)
  }

  /** ISO 8601 week number, as the standard defines it: weeks start on Monday,
      and week 1 is the week holding the first Thursday of the week-based year. */
  function IsoWeek(day: int): int {
    (StartOfWeek(day) - StartOfWeek(FirstThursday(IsoWeekYear(day)))) / 7 + 1
  }

  /** The weekday of a day a few days after a Monday. */
  lemma WeekdayAfterMonday(monday: int, k: int)
    requires monday % 7 == 0 && 0 <= k < 7
    ensures (monday + k) % 7 == k
  {
    var q := monday / 7;
    assert monday + k == 7 * q + k;
  }

  /** Counting from 1 January or from the first Thursday gives the same week. */
  lemma WeeksFromYearStart(thursday: int, start: int, first: int)
    requires thursday % 7 == 3 && first % 7 == 3
    requires start <= first < start + 7 && start <= thursday
    ensures first <= thursday
    ensures CeilDiv7(thursday - start + 1) == (thursday - first) / 7 + 1
  {
    var q := (thursday - first) / 7;
    assert thursday - first == 7 * q;
  }

  /** `getWeekNumber` computes the ISO 8601 week number. */
  lemma WeekNumberIsIsoWeek(day: int)
    ensures WeekNumber(day) == IsoWeek(day)
    ensures FirstThursday(IsoWeekYear(day)) <= StartOfWeek(day) + 3
  {
    var monday := StartOfWeek(day);
    var year := IsoWeekYear(day);
    var start, first := YearStart(year), FirstThursday(year);
    assert WeekNumber(day) == CeilDiv7(monday + 3 - start + 1) by {
      assert ThursdayOf(day) == monday + 3;
      JanuaryFirst(year);
    }
    assert IsoWeek(day) == (monday - (first - 3)) / 7 + 1 by {
      StartOfWeekOfThursday(first);
    }
    IsoWeekArith(monday, start, first);
  }

  lemma IsoWeekArith(monday: int, start: int, first: int)
    requires monday % 7 == 0 && first % 7 == 3
    requires start <= first < start + 7 && start <= monday + 3
    ensures first <= monday + 3
    ensures CeilDiv7(monday + 3 - start + 1) == (monday - (first - 3)) / 7 + 1
  {
    WeekdayAfterMonday(monday, 3);
    WeeksFromYearStart(monday + 3, start, first);
  }

  lemma FirstWeekArith(monday: int, first: int)
    requires monday % 7 == 0 && first % 7 == 3 && first <= monday + 3
    ensures (monday - (first - 3)) / 7 + 1 == 1 <==> monday <= first < monday + 7
  {
    var a, b := monday / 7, first / 7;
    assert monday == 7 * a && first == 7 * b + 3;
  }

  /** Week 1 is exactly the week that holds the first Thursday of its week-based year. */
  lemma WeekOneHoldsFirstThursday(day: int)
    ensures WeekNumber(day) == 1 <==>
      StartOfWeek(day) <= FirstThursday(IsoWeekYear(day)) < StartOfWeek(day) + 7
  {
    WeekNumberIsIsoWeek(day);
    var first := FirstThursday(IsoWeekYear(day));
    StartOfWeekOfThursday(first);
    FirstWeekArith(StartOfWeek(day), first);
  }

  /** Days of one Monday-to-Sunday week share their week number. */
  lemma SameWeekSameNumber(a: int, b: int)
    requires StartOfWeek(a) == StartOfWeek(b)
    ensures WeekNumber(a) == WeekNumber(b)
  {
    assert ThursdayOf(a) == ThursdayOf(b);
  }

  /** A JavaScript `Date` read in local time to the minute: `time` counts minutes
      from the midnight that starts day 0. */
  class JsDate {
    var time: int

    /** `new Date(...)` at a given instant. */
    constructor At(t: int)
      ensures time == t
    {
      time := t;
    }

    /** `new Date(other)`: an independent copy. */
    constructor Copy(other: JsDate)
      ensures time == other.time
    {
      time := other.time;
    }

    function Day(): int
      reads this
    {
      time / MinutesPerDay
    }

    /** `getDay()`. */
    function GetDay(): int
      reads this
    {
      JsWeekday(Day())
    }

    /** `getFullYear()`. */
    function GetFullYear(): int
      reads this
    {
      YearOf(Day())
    }

    /** `setDate(getDate() + k)`: `k` days later at the same time of day. */
    method AddDays(k: int)
      modifies this
      ensures time == old(time) + k * MinutesPerDay
      ensures Day() == old(Day()) + k
    {
      time := time + k * MinutesPerDay;
    }

    /** `setHours(h, m, 0, 0)`: the wall-clock time `h:m` of the same day; hours and
        minutes past their range roll over into the following days. */
    method SetHours(h: int, m: int)
      modifies this
      ensures time == old(Day()) * MinutesPerDay + h * 60 + m
    {
      time := Day() * MinutesPerDay + h * 60 + m;
    }
  }

  /** `getStartOfWeek(date)`: returns a new date at midnight of the week's Monday,
      and, as the source's `date.setDate(diff)` does, moves the argument itself to
      that Monday while keeping its time of day. */
  method GetStartOfWeek(date: JsDate) returns (monday: JsDate)
    modifies date
    ensures fresh(monday)
    ensures monday.time == StartOfWeek(old(date.Day())) * MinutesPerDay
    ensures date.time == old(date.time) + (StartOfWeek(old(date.Day())) - old(date.Day())) * MinutesPerDay
  {
    var day := date.GetDay();
    var diff := -day + (if day == 0 then -6 else 1);
    date.AddDays(diff);
    monday := new JsDate.Copy(date);
    monday.SetHours(0, 0);
  }

  /** `getWeekNumber(date)`: works on a copy, so `date` is left as it was. */
  method GetWeekNumber(date: JsDate) returns (n: int)
    ensures n == WeekNumber(date.Day())
    ensures 1 <= n <= 53
  {
    var d := new JsDate.Copy(date);
    d.SetHours(0, 0);
    assert d.Day() == date.Day();
    var dow := d.GetDay();
    d.AddDays(4 - (if dow == 0 then 7 else dow));
    assert d.Day() == ThursdayOf(date.Day());
    var yearStart := new JsDate.At(DayNumber(d.GetFullYear(), 1, 1) * MinutesPerDay);
    assert d.time - yearStart.time == (d.Day() - DayNumber(d.GetFullYear(), 1, 1)) * MinutesPerDay;
    n := CeilDiv7((d.time - yearStart.time) / MinutesPerDay + 1);
  }
}

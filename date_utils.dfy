/** utils/date.utils.ts: day arithmetic on Dates, the clamp helper, the
    42-cell month grid and the time slots of a day. */
module DateUtils {
  import opened JsDate

  /** The start of the minute `t` falls in. */
  function FloorToMinute(t: int): (r: int)
    ensures r % MsPerMinute == 0
    ensures r <= t < r + MsPerMinute
  {
    t - t % MsPerMinute
  }

  /** A time rebuilt from its own day, hours and minutes is the time with its
      seconds and milliseconds dropped. */
  lemma OwnMinute(t: int)
    ensures Day(t) * MsPerDay + Hours(t) * MsPerHour + Minutes(t) * MsPerMinute == FloorToMinute(t)
  {
    TimeOfDayParts(t);
    var below := Seconds(t) * MsPerSecond + Millis(t);
    assert 0 <= below < MsPerMinute;
    var k := Day(t) * 1440 + Hours(t) * 60 + Minutes(t);
    assert t == k * MsPerMinute + below;
  }

  /** startOfDay: local midnight of the same day. */
  function StartOfDay(d: int): (r: int)
    ensures r == Day(d) * MsPerDay
    ensures r <= d < r + MsPerDay
  {
    MakeDayOfOwnDate(d, 0);
    NewDate(YearOf(d), MonthOf(d), DateOf(d), 0, 0, 0, 0)
  }

  /** Midnight keeps the calendar date, and taking it twice changes nothing. */
  lemma StartOfDayKeepsDate(d: int)
    ensures YearOf(StartOfDay(d)) == YearOf(d)
    ensures MonthOf(StartOfDay(d)) == MonthOf(d)
    ensures DateOf(StartOfDay(d)) == DateOf(d)
    ensures StartOfDay(StartOfDay(d)) == StartOfDay(d)
  {
    var s := StartOfDay(d);
    assert Day(s) == Day(d) by {
      assert s == Day(d) * MsPerDay + 0;
      DayOfMakeDate(Day(d), 0);
    }
    assert CivilFromDays(Day(s)) == CivilFromDays(Day(d));
    assert StartOfDay(s) == Day(s) * MsPerDay;
  }

  /** isSameDay: both times fall between the same two midnights. */
  function IsSameDay(a: int, b: int): (r: bool)
    ensures r <==> Day(a) == Day(b)
  {
    StartOfDay(a) == StartOfDay(b)
  }

  /** Same day means same year, month and date. */
  lemma IsSameDayMeansSameDate(a: int, b: int)
    ensures IsSameDay(a, b) <==> YearOf(a) == YearOf(b) && MonthOf(a) == MonthOf(b) && DateOf(a) == DateOf(b)
  {
    CivilFromDaysInjective(Day(a), Day(b));
  }

  /** addDays: midnight `n` days later (or earlier, for negative `n`). */
  function AddDays(d: int, n: int): (r: int)
    ensures r == (Day(d) + n) * MsPerDay
  {
    MakeDayOfOwnDate(d, n);
    NewDate(YearOf(d), MonthOf(d), DateOf(d) + n, 0, 0, 0, 0)
  }

  lemma {:induction false} AddDaysCompose(d: int, a: int, b: int)
    ensures AddDays(AddDays(d, a), b) == AddDays(d, a + b)
    ensures AddDays(d, 0) == StartOfDay(d)
  {
    var x := AddDays(d, a);
    assert x == (Day(d) + a) * MsPerDay + 0;
    DayOfMakeDate(Day(d) + a, 0);
    assert Day(x) == Day(d) + a;
    assert AddDays(x, b) == (Day(d) + (a + b)) * MsPerDay;
    assert AddDays(d, 0) == Day(d) * MsPerDay;
  }

  /** addHours: `n` hours later, with the seconds and milliseconds dropped. */
  function AddHours(d: int, n: int): (r: int)
    ensures r == FloorToMinute(d) + n * MsPerHour
  {
    MakeDayOfOwnDate(d, 0);
    OwnMinute(d);
    NewDate(YearOf(d), MonthOf(d), DateOf(d), Hours(d) + n, Minutes(d), 0, 0)
  }

  /** addMinutes: `n` minutes later, with the seconds and milliseconds
      dropped. */
  function AddMinutes(d: int, n: int): (r: int)
    ensures r == FloorToMinute(d) + n * MsPerMinute
  {
    MakeDayOfOwnDate(d, 0);
    OwnMinute(d);
    NewDate(YearOf(d), MonthOf(d), DateOf(d), Hours(d), Minutes(d) + n, 0, 0)
  }

  /** Adding minutes in two steps is adding them at once, and an hour is
      sixty minutes. */
  lemma {:induction false} AddMinutesCompose(d: int, a: int, b: int)
    ensures AddMinutes(AddMinutes(d, a), b) == AddMinutes(d, a + b)
  {
    var x := AddMinutes(d, a);
    assert x == FloorToMinute(d) + a * MsPerMinute;
    MinuteShift(FloorToMinute(d), a);
    assert FloorToMinute(x) == x;
    assert AddMinutes(x, b) == FloorToMinute(d) + (a + b) * MsPerMinute;
  }

  /** A whole minute moved by whole minutes stays a whole minute. */
  lemma MinuteShift(f: int, a: int)
    requires f % MsPerMinute == 0
    ensures FloorToMinute(f + a * MsPerMinute) == f + a * MsPerMinute
  {
    var k := f / MsPerMinute + a;
    assert f + a * MsPerMinute == k * MsPerMinute;
    WholeMinute(k);
  }

  lemma AddHoursIsSixtyMinutes(d: int, n: int)
    ensures AddHours(d, n) == AddMinutes(d, 60 * n)
  {
  }

  lemma WholeMinute(k: int)
    ensures FloorToMinute(k * MsPerMinute) == k * MsPerMinute
  {
    assert (k * MsPerMinute) % MsPerMinute == 0;
  }

  /** A midnight is a whole minute. */
  lemma MidnightIsWholeMinute(day: int)
    ensures FloorToMinute(day * MsPerDay) == day * MsPerDay
  {
    assert day * MsPerDay == (day * 1440) * MsPerMinute;
    WholeMinute(day * 1440);
  }

  /** clamp: `Math.max(min, Math.min(max, val))`. */
  function Clamp(val: int, min: int, max: int): (r: int)
    ensures min <= max ==> min <= r <= max
    ensures min <= val <= max ==> r == val
    ensures val < min ==> r == min
    ensures min <= max < val ==> r == max
    ensures max < min ==> r == min
  {
    var low := if max < val then max else val;
    if min < low then low else min
  }

  /** The day number of the first of the month `t` falls in. */
  function FirstOfMonthDay(t: int): int {
    DaysFromCivil(YearOf(t), MonthOf(t), 1)
  }

  /** The day number of the Monday on or before the first of the month of
      `anchor`. */
  function GridStartDay(anchor: int): int {
    var first := FirstOfMonthDay(anchor);
    first - (first + 3) % 7
  }

  /** The Monday on or before the first of month `m` of year `y` is at most
      six days earlier, and the six weeks from it hold the whole month. */
  lemma MonthGrid(y: int, m: int)
    requires 0 <= m < 12
    ensures var first := DaysFromCivil(y, m, 1); var g := first - (first + 3) % 7;
      WeekDay(g * MsPerDay) == 1 && g <= first < g + 7
      && forall d :: 1 <= d <= DaysInMonth(y, m) ==> g <= DaysFromCivil(y, m, d) <= g + 41
  {
    var first := DaysFromCivil(y, m, 1);
    var g := first - (first + 3) % 7;
    MondayBefore(first);
    forall d | 1 <= d <= DaysInMonth(y, m)
      ensures g <= DaysFromCivil(y, m, d) <= g + 41
    {
      DaysFromCivilIsLinearInDay(y, m, d);
    }
  }

  /** Day `first - (first + 3) % 7` is the Monday on or before day `first`. */
  lemma MondayBefore(first: int)
    ensures var g := first - (first + 3) % 7;
      WeekDay(g * MsPerDay) == 1 && g <= first < g + 7
  {
    var q, r := (first + 3) / 7, (first + 3) % 7;
    var g := first - r;
    assert first + 3 == 7 * q + r;
    assert g + 4 == 7 * q + 1;
    DayOfMakeDate(g, 0);
    assert Day(g * MsPerDay) == g;
  }

  /** A time's own date is a day of its own month, and names its day. */
  lemma DayInOwnMonth(t: int)
    ensures 1 <= DateOf(t) <= DaysInMonth(YearOf(t), MonthOf(t))
    ensures DaysFromCivil(YearOf(t), MonthOf(t), DateOf(t)) == Day(t)
  {
    DaysFromCivilOfCivilFromDays(Day(t));
  }

  /** The grid of `anchor` starts on a Monday at most six days before the
      first of the month, and its six weeks hold every day of the month,
      `anchor`'s own day included. */
  lemma GridCoversMonth(anchor: int)
    ensures var g := GridStartDay(anchor);
      WeekDay(g * MsPerDay) == 1 && g <= FirstOfMonthDay(anchor) < g + 7
    ensures var g := GridStartDay(anchor);
      forall d :: 1 <= d <= DaysInMonth(YearOf(anchor), MonthOf(anchor)) ==>
        g <= DaysFromCivil(YearOf(anchor), MonthOf(anchor), d) <= g + 41
    ensures GridStartDay(anchor) <= Day(anchor) <= GridStartDay(anchor) + 41
  {
    MonthGrid(YearOf(anchor), MonthOf(anchor));
    DayInOwnMonth(anchor);
  }

  /** The grid's start as getCalendarGrid computes it: back from the first of
      the month by the Monday-based weekday index. */
  lemma GridStartComputed(anchor: int)
    ensures var first := NewDate(YearOf(anchor), MonthOf(anchor), 1, 0, 0, 0, 0);
      Day(NewDate(YearOf(anchor), MonthOf(anchor), 1 - (WeekDay(first) + 6) % 7, 0, 0, 0, 0)) == GridStartDay(anchor)
  {
    GridStartOf(YearOf(anchor), MonthOf(anchor));
  }

  /** The same, for month `m` of year `y`. */
  lemma GridStartOf(y: int, m: int)
    requires 0 <= m < 12
    ensures var first := NewDate(y, m, 1, 0, 0, 0, 0);
      var k := DaysFromCivil(y, m, 1);
      Day(NewDate(y, m, 1 - (WeekDay(first) + 6) % 7, 0, 0, 0, 0)) == k - (k + 3) % 7
  {
    var k := DaysFromCivil(y, m, 1);
    MakeDayInMonth(y, m, 1);
    var first := NewDate(y, m, 1, 0, 0, 0, 0);
    assert first == k * MsPerDay + 0;
    DayOfMakeDate(k, 0);
    var back := (WeekDay(first) + 6) % 7;
    assert back == ((k + 4) % 7 + 6) % 7;
    WeekShift(k);
    MakeDayInMonth(y, m, 1 - back);
    DaysFromCivilShift(y, m, 1, -back);
    assert NewDate(y, m, 1 - back, 0, 0, 0, 0) == (k - back) * MsPerDay + 0;
    DayOfMakeDate(k - back, 0);
  }

  /** The Monday-based weekday index of day `k`. */
  lemma WeekShift(k: int)
    ensures ((k + 4) % 7 + 6) % 7 == (k + 3) % 7
  {
    var g := (k + 4) % 7;
    assert k + 4 == 7 * ((k + 4) / 7) + g;
  }

  /** getCalendarGrid: 42 consecutive midnights from the Monday on or
      before the first of the month (see GridCoversMonth). */
  method GetCalendarGrid(anchor: int) returns (cells: seq<int>)
    ensures |cells| == 42
    ensures forall i :: 0 <= i < 42 ==> cells[i] == (GridStartDay(anchor) + i) * MsPerDay
  {
    var gridStart := GridStartDate(anchor);
    cells := [];
    var i := 0;
    while i < 42
      invariant 0 <= i <= 42 && |cells| == i
      invariant forall j :: 0 <= j < i ==> cells[j] == (Day(gridStart) + j) * MsPerDay
    {
      // new Date(gridStart's year, month, date + i) is addDays(gridStart, i)
      var cell := DaysLater(gridStart, i);
      cells := cells + [cell];
      i := i + 1;
    }
  }

  /** The first cell of getCalendarGrid: the first of the anchor's month
      moved back to the Monday on or before it. */
  method GridStartDate(anchor: int) returns (gridStart: int)
    ensures Day(gridStart) == GridStartDay(anchor)
  {
    var y := YearOf(anchor);
    var m := MonthOf(anchor);
    var firstOfMonth := NewDate(y, m, 1, 0, 0, 0, 0);
    var startWeekday := (WeekDay(firstOfMonth) + 6) % 7;
    gridStart := NewDate(y, m, 1 - startWeekday, 0, 0, 0, 0);
    GridStartComputed(anchor);
  }

  /** addDays, called for its value: midnight `n` days after the day of `d`. */
  method DaysLater(d: int, n: int) returns (r: int)
    ensures r == (Day(d) + n) * MsPerDay
  {
    r := AddDays(d, n);
  }

  /** hoursInDay: the slot start times of today (the current time is the
      parameter `now`), one every `step` minutes from midnight for as long
      as they stay within the day: their number is the ceiling of
      1440 / `step`. Midnight of `now` is `StartOfDay(now)`, that is
      `Day(now) * MsPerDay`. */
  method HoursInDay(step: int, now: int) returns (out: seq<int>)
    requires step > 0
    ensures |out| * step >= 24 * 60 && (|out| - 1) * step < 24 * 60
    ensures forall i :: 0 <= i < |out| ==> out[i] == Day(now) * MsPerDay + i * step * MsPerMinute
    ensures forall i :: 0 <= i < |out| ==> Day(now) * MsPerDay <= out[i] < Day(now) * MsPerDay + MsPerDay
  {
    var base := Midnight(now);
    MidnightIsWholeMinute(Day(now));
    out := [];
    var m := 0;
    while m < 24 * 60
      invariant m == |out| * step
      invariant |out| > 0 ==> (|out| - 1) * step < 24 * 60
      invariant forall i :: 0 <= i < |out| ==> out[i] == base + i * step * MsPerMinute
      invariant forall i :: 0 <= i < |out| ==> base <= out[i] < base + MsPerDay
    {
      var slot := MinutesLater(base, m);
      PushSlot(out, base, step, slot);
      out := out + [slot];
      m := m + step;
    }
  }

  /** hoursInDay() with its default step of 60 minutes: the 24 whole
      hours of today. */
  method HoursInDayDefault(now: int) returns (out: seq<int>)
    ensures |out| == 24
    ensures forall i :: 0 <= i < 24 ==> out[i] == Day(now) * MsPerDay + i * MsPerHour
  {
    out := HoursInDay(60, now);
    assert |out| * 60 >= 24 * 60 && (|out| - 1) * 60 < 24 * 60;
  }

  /** startOfDay, called for its value: the midnight that begins the day of `d`. */
  method Midnight(d: int) returns (r: int)
    ensures r == Day(d) * MsPerDay
  {
    r := StartOfDay(d);
  }

  /** addMinutes on a time that falls on a whole minute, called for its
      value: exactly `n` minutes later. */
  method MinutesLater(d: int, n: int) returns (r: int)
    requires FloorToMinute(d) == d
    ensures r == d + n * MsPerMinute
  {
    r := AddMinutes(d, n);
  }

  /** One more slot, `step` minutes after the last, keeps the slots evenly
      spaced from `base` and inside its day. */
  lemma PushSlot(out: seq<int>, base: int, step: int, slot: int)
    requires step > 0 && |out| * step < 24 * 60
    requires slot == base + |out| * step * MsPerMinute
    requires forall i :: 0 <= i < |out| ==> out[i] == base + i * step * MsPerMinute
    ensures |out + [slot]| * step == |out| * step + step
    ensures forall i :: 0 <= i < |out| + 1 ==> (out + [slot])[i] == base + i * step * MsPerMinute
    ensures forall i :: 0 <= i < |out| + 1 ==> base <= (out + [slot])[i] < base + MsPerDay
  {
    assert (|out| + 1) * step == |out| * step + step;
    forall i | 0 <= i < |out| + 1
      ensures base <= (out + [slot])[i] < base + MsPerDay
    {
      assert 0 <= i * step <= |out| * step;
    }
  }
}

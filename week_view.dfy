/** components/Calendar/WeekView.tsx: the Sunday-first week of the week
    layout, its time slots, the events of each day and the drag that
    creates a slot range. */
module WeekView {
  import opened JsCore
  import opened JsDate
  import opened Seqs
  import opened CalendarTypes
  import DateUtils

  // ---- the week ----

  /** The day number of the Sunday on or before the day of `d`. */
  function WeekStartDay(d: int): int {
    Day(d) - WeekDay(d)
  }

  /** Midnight of the Sunday on or before the day of `d`. */
  function SundayOnOrBefore(d: int): (r: int)
    ensures WeekDay(r) == 0 && TimeWithinDay(r) == 0
    ensures Day(d) - 6 <= Day(r) <= Day(d)
  {
    var k := Day(d) + 4;
    assert k == 7 * (k / 7) + k % 7;
    DayOfMakeDate(WeekStartDay(d), 0);
    WeekStartDay(d) * MsPerDay
  }

  /** startOfWeek: a copy of `d` moved back by its weekday with setDate,
      then set to midnight with setHours. */
  method StartOfWeek(d: int) returns (c: int)
    ensures c == SundayOnOrBefore(d)
  {
    c := d;
    c := SetDate(c, DateOf(c) - WeekDay(c));
    SetDateBack(d, WeekDay(d));
    c := SetHours(c, 0, 0, 0, 0);
  }

  /** setDate(date - n) keeps the time of day and moves back `n` days. */
  lemma SetDateBack(d: int, n: int)
    ensures Day(SetDate(d, DateOf(d) - n)) == Day(d) - n
  {
    MakeDayOfOwnDate(d, -n);
    assert DateOf(d) + -n == DateOf(d) - n;
    assert MakeDay(YearOf(d), MonthOf(d), DateOf(d) - n) == Day(d) - n;
    assert SetDate(d, DateOf(d) - n) == (Day(d) - n) * MsPerDay + TimeWithinDay(d);
    DayOfMakeDate(Day(d) - n, TimeWithinDay(d));
  }

  /** `d` moved `mins` minutes on the clock. */
  function MinutesLater(d: int, mins: int): int {
    d + mins * MsPerMinute
  }

  /** The week layout's addMinutes: a copy of `d` with setMinutes applied.
      Unlike the shared addMinutes helper it keeps seconds and
      milliseconds. */
  method AddMinutes(d: int, mins: int) returns (c: int)
    ensures c == MinutesLater(d, mins)
    ensures Seconds(c) == Seconds(d) && Millis(c) == Millis(d)
  {
    c := d;
    c := SetMinutes(c, Minutes(c) + mins);
    TimeOfDayParts(d);
    var k := Day(d) * 1440 + Hours(d) * 60 + Minutes(d) + mins;
    var below := Seconds(d) * MsPerSecond + Millis(d);
    assert c == k * MsPerMinute + below;
    assert 0 <= below < MsPerMinute;
    SameMinuteRemainder(k, below);
  }

  /** The seconds and milliseconds of `k` whole minutes plus `below`
      milliseconds are those of `below`. */
  lemma SameMinuteRemainder(k: int, below: int)
    requires 0 <= below < MsPerMinute
    ensures TimeWithinDay(k * MsPerMinute + below) % MsPerMinute == below
    ensures Seconds(k * MsPerMinute + below) == below / MsPerSecond
    ensures Millis(k * MsPerMinute + below) == below % MsPerSecond
  {
    var q := k % 1440;
    var w := q * MsPerMinute + below;
    MinuteTimeWithinDay(k, below);
    assert w % MsPerMinute == below;
    assert w % MsPerSecond == below % MsPerSecond by {
      assert w == (q * 60 + below / MsPerSecond) * MsPerSecond + below % MsPerSecond;
    }
  }

  /** The time of day of `k` whole minutes plus `below` milliseconds. */
  lemma MinuteTimeWithinDay(k: int, below: int)
    requires 0 <= below < MsPerMinute
    ensures TimeWithinDay(k * MsPerMinute + below) == (k % 1440) * MsPerMinute + below
  {
    var day := k / 1440;
    var w := (k % 1440) * MsPerMinute + below;
    assert k * MsPerMinute + below == day * MsPerDay + w && 0 <= w < MsPerDay by {
      assert k == day * 1440 + k % 1440;
    }
    DayOfMakeDate(day, w);
  }

  /** days: the seven midnights from the start of the week (each is
      `new Date(y, m, date + i, 0, 0, 0, 0)`, which is addDays). */
  function WeekDays(start: int): (days: seq<int>)
    ensures |days| == 7
    ensures forall i :: 0 <= i < 7 ==> days[i] == (Day(start) + i) * MsPerDay
  {
    seq(7, i requires 0 <= i < 7 => DateUtils.AddDays(start, i))
  }

  /** The week shown for any anchor starts on a Sunday, and the anchor's
      own day is the one at the anchor's weekday. */
  lemma WeekHoldsAnchor(anchor: int)
    ensures var days := WeekDays(SundayOnOrBefore(anchor));
      WeekDay(days[0]) == 0 && Day(days[WeekDay(anchor)]) == Day(anchor)
  {
    var s := SundayOnOrBefore(anchor);
    DayOfMakeDate(WeekStartDay(anchor), 0);
    assert Day(s) == WeekStartDay(anchor);
    assert s == Day(s) * MsPerDay + TimeWithinDay(s);
    DayOfMakeDate(Day(anchor), 0);
  }

  /** slotsPerDay: how many slots of `interval` minutes fill a day. */
  function SlotsPerDay(interval: int): (r: int)
    requires interval == 30 || interval == 60
    ensures r * interval == 24 * 60
    ensures r == if interval == 30 then 48 else 24
  {
    (24 * 60) / interval
  }

  // ---- the events of each day ----

  /** `isSameDay(e.start ?? e.startDate, d)` for an event with a start: an
      Invalid Date is on no day. */
  predicate StartsOnDay(e: Event, d: int) {
    GetStart(e).Some? && GetStart(e).value.At? && DateUtils.IsSameDay(GetStart(e).value.ms, d)
  }

  /** An event with no start at all makes isSameDay read a field of
      `undefined`, which throws. */
  predicate HasNoStart(e: Event) {
    GetStart(e).None?
  }

  function OnDay(d: int): Event -> bool {
    e => StartsOnDay(e, d)
  }

  /** The filter of one day. */
  function EventsOnDay(d: int, events: seq<Event>): (r: seq<Event>)
    ensures IsSubseq(r, events)
    ensures forall e :: e in r <==> e in events && StartsOnDay(e, d)
    ensures forall e :: multiset(r)[e] == if StartsOnDay(e, d) then multiset(events)[e] else 0
  {
    forall e ensures e in Filter(OnDay(d), events) <==> e in events && StartsOnDay(e, d) {
      FilterMembership(OnDay(d), events, e);
    }
    Filter(OnDay(d), events)
  }

  /** dayEvents: for each day the events that start on it, in input order;
      None when an event without a start makes the filter throw. */
  function DayEvents(days: seq<int>, events: seq<Event>): (r: Option<seq<seq<Event>>>)
    ensures r.None? <==> |days| > 0 && exists e :: e in events && HasNoStart(e)
    ensures r.Some? ==> |r.value| == |days|
    ensures r.Some? ==> forall i :: 0 <= i < |days| ==> r.value[i] == EventsOnDay(days[i], events)
  {
    if |days| > 0 && exists e :: e in events && HasNoStart(e) then None
    else Some(seq(|days|, i requires 0 <= i < |days| => EventsOnDay(days[i], events)))
  }

  /** Each event with a valid start is listed under at most one day of a
      week, the day of its start. */
  lemma DayEventsAtMostOneDay(start: int, events: seq<Event>, e: Event, i: int, j: int)
    requires DayEvents(WeekDays(start), events).Some?
    requires 0 <= i < 7 && 0 <= j < 7
    requires e in DayEvents(WeekDays(start), events).value[i]
    requires e in DayEvents(WeekDays(start), events).value[j]
    ensures i == j
  {
    var days := WeekDays(start);
    DayOfMakeDate(Day(start) + i, 0);
    DayOfMakeDate(Day(start) + j, 0);
  }

  // ---- drag to create ----

  /** The row clamp of onMouseDown and onMouseMove (the row is computed from
      the pointer position, which is not modelled). */
  function ClampRow(raw: int, slotsPerDay: int): (r: int)
    ensures slotsPerDay >= 1 ==> 0 <= r < slotsPerDay
    ensures 0 <= raw < slotsPerDay ==> r == raw
  {
    DateUtils.Clamp(raw, 0, slotsPerDay - 1)
  }

  /** The range onMouseUp hands to onSlotCreate: from the start slot to the
      end of the later of the two slots. */
  function SlotRange(day: int, startSlot: int, endSlot: int, interval: int): (int, int) {
    var last := if startSlot < endSlot then endSlot else startSlot;
    (MinutesLater(day, startSlot * interval), MinutesLater(day, (last + 1) * interval))
  }

  /** The range starts at the start slot and covers at least one slot; when
      the pointer moved up it is exactly that slot. */
  lemma SlotRangeSpan(day: int, startSlot: int, endSlot: int, interval: int)
    requires interval > 0
    ensures var r := SlotRange(day, startSlot, endSlot, interval);
      r.0 == day + startSlot * interval * MsPerMinute
      && r.1 - r.0 >= interval * MsPerMinute
      && (endSlot <= startSlot ==> r.1 - r.0 == interval * MsPerMinute)
      && (startSlot <= endSlot ==> r.1 - r.0 == (endSlot - startSlot + 1) * interval * MsPerMinute)
  {
    var last := if startSlot < endSlot then endSlot else startSlot;
    var n := last + 1 - startSlot;
    assert (last + 1) * interval - startSlot * interval == n * interval;
    assert n >= 1;
    assert n * interval >= interval;
    assert (n * interval) * MsPerMinute >= interval * MsPerMinute;
  }

  /** With clamped rows at a midnight, the range stays within that day. */
  lemma SlotRangeWithinDay(day: int, startSlot: int, endSlot: int, interval: int)
    requires interval == 30 || interval == 60
    requires TimeWithinDay(day) == 0
    requires 0 <= startSlot < SlotsPerDay(interval) && 0 <= endSlot < SlotsPerDay(interval)
    ensures var r := SlotRange(day, startSlot, endSlot, interval);
      day <= r.0 < r.1 <= day + MsPerDay
  {
    var last := if startSlot < endSlot then endSlot else startSlot;
    assert (last + 1) * interval <= SlotsPerDay(interval) * interval;
    assert startSlot * interval < (last + 1) * interval;
  }

  /** The drag in progress: the column and the first and current rows. */
  datatype Drag = Drag(dayIdx: int, startSlot: int, endSlot: int)

  /** The drag state of the week layout. */
  class DragState {
    var drag: Option<Drag>

    /** The drag is over one of the seven columns and its rows are
        non-negative, as clamping makes them. */
    ghost predicate InColumn() reads this {
      drag.Some? ==>
        (0 <= drag.value.dayIdx < 7 && 0 <= drag.value.startSlot && 0 <= drag.value.endSlot)
    }

    /** Moreover its rows are slots of a grid of `slotsPerDay` slots. A drag
        started under one interval and still held when the interval
        changes need not be. */
    ghost predicate Valid(slotsPerDay: int) reads this {
      InColumn() &&
      (drag.Some? ==> drag.value.startSlot < slotsPerDay && drag.value.endSlot < slotsPerDay)
    }

    constructor ()
      ensures drag == None
    {
      drag := None;
    }

    /** onMouseDown in column `dayIdx` at row `raw`. */
    method MouseDown(dayIdx: int, raw: int, slotsPerDay: int)
      requires 0 <= dayIdx < 7 && slotsPerDay >= 1
      modifies this
      ensures drag == Some(Drag(dayIdx, ClampRow(raw, slotsPerDay), ClampRow(raw, slotsPerDay)))
      ensures Valid(slotsPerDay)
    {
      var row := ClampRow(raw, slotsPerDay);
      drag := Some(Drag(dayIdx, row, row));
    }

    /** onMouseMove at row `raw`: ignored unless a drag is in progress. */
    method MouseMove(raw: int, slotsPerDay: int)
      requires InColumn() && slotsPerDay >= 1
      modifies this
      ensures old(drag).None? ==> drag == None
      ensures old(drag).Some? ==> drag == Some(old(drag).value.(endSlot := ClampRow(raw, slotsPerDay)))
      ensures InColumn()
      ensures old(Valid(slotsPerDay)) ==> Valid(slotsPerDay)
    {
      if drag.Some? {
        var row := ClampRow(raw, slotsPerDay);
        drag := Some(drag.value.(endSlot := row));
      }
    }

    /** onMouseUp: ends the drag and returns the range to create, if a drag
        was in progress; the state is cleared before the range is handed
        on. */
    method MouseUp(days: seq<int>, interval: int) returns (created: Option<(int, int)>)
      requires |days| == 7 && (interval == 30 || interval == 60)
      requires InColumn()
      modifies this
      ensures drag == None
      ensures old(drag).None? <==> created.None?
      ensures old(drag).Some? ==>
        created == Some(SlotRange(days[old(drag).value.dayIdx], old(drag).value.startSlot, old(drag).value.endSlot, interval))
    {
      if drag.None? {
        return None;
      }
      var g := drag.value;
      var day := days[g.dayIdx];
      var startDate := AddMinutes(day, g.startSlot * interval);
      var last := if g.startSlot < g.endSlot then g.endSlot else g.startSlot;
      var endDate := AddMinutes(day, (last + 1) * interval);
      drag := None;
      created := Some((startDate, endDate));
    }
  }

  /** A drag started on the 30-minute grid at row 40 (20:00) and released
      after the interval has switched to 60 minutes: onMouseMove clamps only
      the end row, so the range starts 40 hours after the column's midnight,
      on the next day. */
  method StaleDragCreatesNextDay(days: seq<int>) returns (created: Option<(int, int)>)
    requires |days| == 7 && TimeWithinDay(days[0]) == 0
    ensures created.Some?
    ensures Day(created.value.0) == Day(days[0]) + 1
    ensures created.value.0 == days[0] + 40 * MsPerHour
  {
    var s := new DragState();
    s.MouseDown(0, 40, SlotsPerDay(30));
    created := s.MouseUp(days, 60);
    assert created.value.0 == days[0] + 40 * MsPerHour;
    assert days[0] == Day(days[0]) * MsPerDay + 0;
    assert created.value.0 == (Day(days[0]) + 1) * MsPerDay + 16 * MsPerHour;
    DayOfMakeDate(Day(days[0]) + 1, 16 * MsPerHour);
  }
}

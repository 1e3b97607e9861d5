/** hooks/useCalendar.ts: the navigation state of a calendar (the date
    shown, the layout, the selected date) and its updaters. */
module UseCalendar {
  import opened JsCore
  import opened JsDate
  import opened CalendarTypes
  import DateUtils

  /** `new Date(year, month + delta, 1)`: the first of the month `delta`
      months after the month of `d`, at midnight. */
  function MonthShift(d: int, delta: int): (r: int)
    ensures CivilFromDays(Day(r)) == Civil(YearOf(d) + (MonthOf(d) + delta) / 12, (MonthOf(d) + delta) % 12, 1)
    ensures TimeWithinDay(r) == 0
  {
    var y, m := YearOf(d), MonthOf(d) + delta;
    FirstOfMonth(y, m);
    FirstOfMonthParts(y, m, 0);
    NewDate(y, m, 1, 0, 0, 0, 0)
  }

  /** `addDays(d, 7 * delta)`: midnight a week later or earlier. */
  function WeekShift(d: int, delta: int): (r: int)
    requires delta == 1 || delta == -1
    ensures Day(r) == Day(d) + 7 * delta && TimeWithinDay(r) == 0
  {
    DayOfMakeDate(Day(d) + 7 * delta, 0);
    DateUtils.AddDays(d, 7 * delta)
  }

  /** The updater of goToNext (`forward`) and goToPrev: in month layout the
      first of the next (previous) month, in week layout the same weekday a
      week later (earlier); both at midnight. */
  function Navigate(view: View, d: int, forward: bool): (r: int)
    ensures view == Month && forward ==>
      YearOf(r) == (if MonthOf(d) == 11 then YearOf(d) + 1 else YearOf(d))
      && MonthOf(r) == (if MonthOf(d) == 11 then 0 else MonthOf(d) + 1)
      && DateOf(r) == 1 && TimeWithinDay(r) == 0
    ensures view == Month && !forward ==>
      YearOf(r) == (if MonthOf(d) == 0 then YearOf(d) - 1 else YearOf(d))
      && MonthOf(r) == (if MonthOf(d) == 0 then 11 else MonthOf(d) - 1)
      && DateOf(r) == 1 && TimeWithinDay(r) == 0
    ensures view == Week ==> Day(r) == Day(d) + (if forward then 7 else -7) && TimeWithinDay(r) == 0
  {
    var delta := if forward then 1 else -1;
    if view == Month then
      var r := MonthShift(d, delta);
      MonthStep(MonthOf(d), delta);
      assert YearOf(r) == YearOf(d) + (MonthOf(d) + delta) / 12;
      assert MonthOf(r) == (MonthOf(d) + delta) % 12 && DateOf(r) == 1;
      r
    else
      WeekShift(d, delta)
  }

  /** A week forward and a week back lands on the starting day, at midnight;
      a month forward and a month back lands on the first of the starting
      month. */
  lemma NavigateThereAndBack(d: int)
    ensures Navigate(Week, Navigate(Week, d, true), false) == DateUtils.StartOfDay(d)
    ensures var r := Navigate(Month, Navigate(Month, d, true), false);
      YearOf(r) == YearOf(d) && MonthOf(r) == MonthOf(d) && DateOf(r) == 1 && TimeWithinDay(r) == 0
  {
    var w := Navigate(Week, Navigate(Week, d, true), false);
    assert w == Day(w) * MsPerDay + TimeWithinDay(w);
  }

  /** The updater of toggleView. */
  function Toggle(v: View): (r: View)
    ensures r != v
  {
    if v == Month then Week else Month
  }

  lemma ToggleTwice(v: View)
    ensures Toggle(Toggle(v)) == v
  {
  }

  /** The state useCalendar keeps. */
  class Calendar {
    var currentDate: int
    var view: View
    var selectedDate: Option<int>

    constructor (initialDate: int, initialView: View)
      ensures currentDate == initialDate && view == initialView && selectedDate == None
    {
      currentDate := initialDate;
      view := initialView;
      selectedDate := None;
    }

    /** goToNext: moves the date forward and changes nothing else. */
    method GoToNext()
      modifies this
      ensures currentDate == Navigate(old(view), old(currentDate), true)
      ensures view == old(view) && selectedDate == old(selectedDate)
    {
      currentDate := Navigate(view, currentDate, true);
    }

    /** goToPrev: moves the date back and changes nothing else. */
    method GoToPrev()
      modifies this
      ensures currentDate == Navigate(old(view), old(currentDate), false)
      ensures view == old(view) && selectedDate == old(selectedDate)
    {
      currentDate := Navigate(view, currentDate, false);
    }

    /** goToToday, with the current time as the parameter `now`. */
    method GoToToday(now: int)
      modifies this
      ensures currentDate == now
      ensures view == old(view) && selectedDate == old(selectedDate)
    {
      currentDate := now;
    }

    /** toggleView: switches the layout and keeps the dates. */
    method ToggleView()
      modifies this
      ensures view == Toggle(old(view))
      ensures currentDate == old(currentDate) && selectedDate == old(selectedDate)
    {
      view := Toggle(view);
    }
  }
}

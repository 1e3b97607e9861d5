/** components/Calendar/CalendarView.tsx: the search and category filter,
    the navigation updaters (which, unlike useCalendar, anchor at noon of the
    first of the month), the mobile day anchor and the modal state. */
module CalendarView {
  import opened JsCore
  import opened JsDate
  import opened Seqs
  import opened CalendarTypes
  import DateUtils

  // ---- the filter ----

  /** The search text as the filter uses it: trimmed and lower-cased. */
  function Query(search: string): string {
    ToLower(Trim(search))
  }

  /** The filter's test of one event: the category must match unless it is
      `"all"`, and a non-empty query must occur in the lower-cased title or
      description (a missing one reads as `""`). */
  predicate KeepEvent(q: string, cat: string, e: Event) {
    (cat == "all" || e.category == Val(cat))
    && (q == []
        || Includes(ToLower(OrElse(e.title, "")), q)
        || Includes(ToLower(OrElse(e.description, "")), q))
  }

  function Keeper(q: string, cat: string): Event -> bool {
    e => KeepEvent(q, cat, e)
  }

  /** filteredEvents: the events that pass the test, in their own order. */
  function FilterEvents(events: seq<Event>, search: string, cat: string): (r: seq<Event>)
    ensures IsSubseq(r, events)
    ensures forall e :: e in r <==> e in events && KeepEvent(Query(search), cat, e)
    ensures forall e :: multiset(r)[e] == if KeepEvent(Query(search), cat, e) then multiset(events)[e] else 0
  {
    var keep := Keeper(Query(search), cat);
    forall e ensures e in Filter(keep, events) <==> e in events && KeepEvent(Query(search), cat, e) {
      FilterMembership(keep, events, e);
    }
    Filter(Keeper(Query(search), cat), events)
  }

  /** With category `"all"` and a blank search nothing is dropped; with a
      blank search only the category decides. */
  lemma FilterBlankSearch(events: seq<Event>, search: string, cat: string)
    requires Trim(search) == []
    ensures cat == "all" ==> FilterEvents(events, search, cat) == events
    ensures forall e :: e in FilterEvents(events, search, cat) <==>
      e in events && (cat == "all" || e.category == Val(cat))
  {
    assert Query(search) == [];
    if cat == "all" {
      FilterKeepsAll(Keeper(Query(search), cat), events);
    }
  }

  /** The filtered list is never longer than the list. */
  lemma FilterLengthBound(events: seq<Event>, search: string, cat: string)
    ensures |FilterEvents(events, search, cat)| <= |events|
  {
    FilterLength(Keeper(Query(search), cat), events);
  }

  // ---- navigation ----

  /** `new Date(y, m, 1, 12)`: noon of the first of the (normalised) month. */
  function NoonOfFirst(y: int, m: int): (r: int)
    ensures CivilFromDays(Day(r)) == Civil(y + m / 12, m % 12, 1)
    ensures TimeWithinDay(r) == 12 * MsPerHour
  {
    FirstOfMonth(y, m);
    FirstOfMonthParts(y, m, 12);
    NewDate(y, m, 1, 12, 0, 0, 0)
  }

  /** `new Date(y, m, date + n, 12)`: noon `n` days after the day of `d`. */
  function NoonDaysLater(d: int, n: int): (r: int)
    ensures Day(r) == Day(d) + n && TimeWithinDay(r) == 12 * MsPerHour
  {
    DaysLaterAt(d, n, 12);
    NewDate(YearOf(d), MonthOf(d), DateOf(d) + n, 12, 0, 0, 0)
  }

  /** goToNext (`forward`) and goToPrevious: in month layout noon of the
      first of the adjacent month, rolling the year over; in week layout noon
      seven days later or earlier. */
  function Step(view: View, d: int, forward: bool): (r: int)
    ensures view == Month && forward ==>
      YearOf(r) == (if MonthOf(d) == 11 then YearOf(d) + 1 else YearOf(d))
      && MonthOf(r) == (if MonthOf(d) == 11 then 0 else MonthOf(d) + 1)
      && DateOf(r) == 1 && TimeWithinDay(r) == 12 * MsPerHour
    ensures view == Month && !forward ==>
      YearOf(r) == (if MonthOf(d) == 0 then YearOf(d) - 1 else YearOf(d))
      && MonthOf(r) == (if MonthOf(d) == 0 then 11 else MonthOf(d) - 1)
      && DateOf(r) == 1 && TimeWithinDay(r) == 12 * MsPerHour
    ensures view == Week ==>
      Day(r) == Day(d) + (if forward then 7 else -7) && TimeWithinDay(r) == 12 * MsPerHour
  {
    var delta := if forward then 1 else -1;
    if view == Month then
      var r := NoonOfFirst(YearOf(d), MonthOf(d) + delta);
      MonthStep(MonthOf(d), delta);
      assert YearOf(r) == YearOf(d) + (MonthOf(d) + delta) / 12;
      assert MonthOf(r) == (MonthOf(d) + delta) % 12 && DateOf(r) == 1;
      r
    else
      NoonDaysLater(d, 7 * delta)
  }

  /** Forward then back is the identity on noon anchors, restricted in month
      layout to the first of the month (see MonthThereAndBack for any other
      anchor). */
  lemma StepThereAndBack(view: View, d: int)
    requires TimeWithinDay(d) == 12 * MsPerHour
    requires view == Month ==> DateOf(d) == 1
    ensures Step(view, Step(view, d, true), false) == d
  {
    var r := Step(view, Step(view, d, true), false);
    if view == Month {
      DayInOwnMonthOf(d);
      DayInOwnMonthOf(r);
      CivilFromDaysInjective(Day(r), Day(d));
    }
    assert r == Day(r) * MsPerDay + TimeWithinDay(r);
    assert d == Day(d) * MsPerDay + TimeWithinDay(d);
  }

  /** A month forward then back lands on noon of the first of the anchor's
      month, whatever its day and time. So it returns the anchor itself
      exactly when that is already noon of a first; a week step followed by
      a switch to month layout leaves an anchor that it snaps to the 1st. */
  lemma MonthThereAndBack(d: int)
    ensures Step(Month, Step(Month, d, true), false) == MonthAnchor(d)
    ensures Step(Month, Step(Month, d, true), false) == d
      <==> DateOf(d) == 1 && TimeWithinDay(d) == 12 * MsPerHour
  {
    var f := Step(Month, d, true);
    var r := Step(Month, f, false);
    var a := MonthAnchor(d);
    assert YearOf(r) == YearOf(d) && MonthOf(r) == MonthOf(d) by {
      if MonthOf(d) == 11 {
        assert MonthOf(f) == 0 && YearOf(f) == YearOf(d) + 1;
      } else {
        assert MonthOf(f) == MonthOf(d) + 1 && YearOf(f) == YearOf(d);
      }
    }
    SameDateAndTime(r, a);
    if DateOf(d) == 1 && TimeWithinDay(d) == 12 * MsPerHour {
      SameDateAndTime(a, d);
    } else {
      assert DateOf(a) == 1 && TimeWithinDay(a) == 12 * MsPerHour;
    }
  }

  /** Two instants with the same civil date and time of day are equal. */
  lemma SameDateAndTime(x: int, y: int)
    requires YearOf(x) == YearOf(y) && MonthOf(x) == MonthOf(y) && DateOf(x) == DateOf(y)
    requires TimeWithinDay(x) == TimeWithinDay(y)
    ensures x == y
  {
    DayInOwnMonthOf(x);
    DayInOwnMonthOf(y);
    CivilFromDaysInjective(Day(x), Day(y));
    assert x == Day(x) * MsPerDay + TimeWithinDay(x);
    assert y == Day(y) * MsPerDay + TimeWithinDay(y);
  }

  /** Equal civil dates name equal days. */
  lemma DayInOwnMonthOf(t: int)
    ensures CivilFromDays(Day(t)) == Civil(YearOf(t), MonthOf(t), DateOf(t))
  {
  }

  /** The anchor of the initial state and of goToToday: noon of the first of
      the month of `t`. */
  function MonthAnchor(t: int): (r: int)
    ensures YearOf(r) == YearOf(t) && MonthOf(r) == MonthOf(t)
    ensures DateOf(r) == 1 && TimeWithinDay(r) == 12 * MsPerHour
  {
    NoonOfFirst(YearOf(t), MonthOf(t))
  }

  /** setMonth: noon of the first of month `m` of the shown year (a month
      outside 0..11 rolls the year as Date does). */
  function SetMonth(d: int, m: int): (r: int)
    ensures YearOf(r) == YearOf(d) + m / 12 && MonthOf(r) == m % 12
    ensures DateOf(r) == 1 && TimeWithinDay(r) == 12 * MsPerHour
  {
    NoonOfFirst(YearOf(d), m)
  }

  /** setYear: noon of the first of the shown month in year `y`. */
  function SetYear(d: int, y: int): (r: int)
    ensures YearOf(r) == y && MonthOf(r) == MonthOf(d)
    ensures DateOf(r) == 1 && TimeWithinDay(r) == 12 * MsPerHour
  {
    NoonOfFirst(y, MonthOf(d))
  }

  /** prevDay (`n == -1`) and nextDay (`n == 1`): midnight of the adjacent
      day. */
  function ShiftAnchor(d: int, n: int): (r: int)
    requires n == 1 || n == -1
    ensures Day(r) == Day(d) + n && TimeWithinDay(r) == 0
  {
    DayOfMakeDate(Day(d) + n, 0);
    DateUtils.AddDays(d, n)
  }

  /** The selection openCreateFromMonth makes for a day cell when no range
      is given: nine to ten o'clock of that day. */
  function DefaultSelection(date: int): (r: (int, int))
    ensures Day(r.0) == Day(date) && TimeWithinDay(r.0) == 9 * MsPerHour
    ensures Day(r.1) == Day(date) && TimeWithinDay(r.1) == 10 * MsPerHour
    ensures r.1 - r.0 == MsPerHour
  {
    DayOfMakeDate(Day(date), 9 * MsPerHour);
    DayOfMakeDate(Day(date), 10 * MsPerHour);
    (SetHours(date, 9, 0, 0, 0), SetHours(date, 10, 0, 0, 0))
  }

  /** The `initial` the modal receives: the edited event with its own
      start and end copied into `startDate`/`endDate`, else the selection,
      else the hour from `now`. */
  function ModalInitial(editing: Option<Event>, selection: Option<(int, int)>, now: int): (r: Event)
    ensures editing.Some? ==>
      GetStart(r) == GetStart(editing.value) && GetEnd(r) == GetEnd(editing.value)
      && r.id == editing.value.id && r.title == editing.value.title
      && r.description == editing.value.description
      && r.color == editing.value.color && r.category == editing.value.category
    ensures editing.Some? ==>
      r.startDate.Get() == GetStart(editing.value) && r.endDate.Get() == GetEnd(editing.value)
      && r.start == editing.value.start && r.end == editing.value.end
    ensures editing.None? && selection.Some? ==>
      GetStart(r) == Some(At(selection.value.0)) && GetEnd(r) == Some(At(selection.value.1))
      && r.id.Absent? && r.title.Absent?
    ensures editing.None? && selection.None? ==>
      GetStart(r) == Some(At(now)) && GetEnd(r) == Some(At(now + MsPerHour))
      && r.id.Absent? && r.title.Absent?
  {
    match editing
    case Some(e) =>
      e.(startDate := FromOption(GetStart(e)), endDate := FromOption(GetEnd(e)))
    case None =>
      match selection
      case Some(s) => NoFields.(startDate := Val(At(s.0)), endDate := Val(At(s.1)))
      case None => NoFields.(startDate := Val(At(now)), endDate := Val(At(now + 60 * 60 * 1000)))
  }

  /** The state CalendarView keeps (the search and category inputs are
      passed to FilterEvents directly). */
  class ViewState {
    var currentDate: int
    var view: View
    var mobileAnchor: int
    var modalOpen: bool
    var editing: Option<Event>
    var selection: Option<(int, int)>

    /** The initial state: the month of `initialDate` at noon of its first,
        the mobile list anchored at that same instant, no modal. */
    constructor (initialDate: int, initialView: View)
      ensures currentDate == MonthAnchor(initialDate) && mobileAnchor == currentDate
      ensures view == initialView
      ensures !modalOpen && editing == None && selection == None
    {
      currentDate := MonthAnchor(initialDate);
      view := initialView;
      mobileAnchor := MonthAnchor(initialDate);
      modalOpen := false;
      editing := None;
      selection := None;
    }

    /** goToNext and goToPrevious. */
    method Navigate(forward: bool)
      modifies this
      ensures currentDate == Step(view, old(currentDate), forward)
      ensures view == old(view) && mobileAnchor == old(mobileAnchor)
      ensures modalOpen == old(modalOpen) && editing == old(editing) && selection == old(selection)
    {
      currentDate := Step(view, currentDate, forward);
    }

    /** goToToday, with the current time as the parameter `now`. */
    method GoToToday(now: int)
      modifies this
      ensures currentDate == MonthAnchor(now)
      ensures view == old(view) && mobileAnchor == old(mobileAnchor)
      ensures modalOpen == old(modalOpen) && editing == old(editing) && selection == old(selection)
    {
      currentDate := MonthAnchor(now);
    }

    /** The month picker. */
    method PickMonth(m: int)
      modifies this
      ensures currentDate == SetMonth(old(currentDate), m)
      ensures view == old(view) && mobileAnchor == old(mobileAnchor)
      ensures modalOpen == old(modalOpen) && editing == old(editing) && selection == old(selection)
    {
      currentDate := SetMonth(currentDate, m);
    }

    /** The year picker. */
    method PickYear(y: int)
      modifies this
      ensures currentDate == SetYear(old(currentDate), y)
      ensures view == old(view) && mobileAnchor == old(mobileAnchor)
      ensures modalOpen == old(modalOpen) && editing == old(editing) && selection == old(selection)
    {
      currentDate := SetYear(currentDate, y);
    }

    /** The Month and Week buttons. */
    method ShowView(v: View)
      modifies this
      ensures view == v
      ensures currentDate == old(currentDate) && mobileAnchor == old(mobileAnchor)
      ensures modalOpen == old(modalOpen) && editing == old(editing) && selection == old(selection)
    {
      view := v;
    }

    /** prevDay and nextDay: only the mobile anchor moves. */
    method MoveMobileAnchor(forward: bool)
      modifies this
      ensures mobileAnchor == ShiftAnchor(old(mobileAnchor), if forward then 1 else -1)
      ensures currentDate == old(currentDate) && view == old(view)
      ensures modalOpen == old(modalOpen) && editing == old(editing) && selection == old(selection)
    {
      mobileAnchor := ShiftAnchor(mobileAnchor, if forward then 1 else -1);
    }

    /** openEdit. */
    method OpenEdit(e: Event)
      modifies this
      ensures modalOpen && editing == Some(e) && selection == None
      ensures currentDate == old(currentDate) && view == old(view) && mobileAnchor == old(mobileAnchor)
    {
      editing := Some(e);
      selection := None;
      modalOpen := true;
    }

    /** openCreateFromMonth: the given range, or nine to ten of the clicked
        day. */
    method OpenCreateFromMonth(date: int, range: Option<(int, int)>)
      modifies this
      ensures modalOpen && editing == None
      ensures selection == Some(if range.Some? then range.value else DefaultSelection(date))
      ensures currentDate == old(currentDate) && view == old(view) && mobileAnchor == old(mobileAnchor)
    {
      if range.Some? {
        selection := Some(range.value);
      } else {
        var start := SetHours(date, 9, 0, 0, 0);
        var end := SetHours(date, 10, 0, 0, 0);
        selection := Some((start, end));
      }
      editing := None;
      modalOpen := true;
    }

    /** openCreateFromWeek. */
    method OpenCreateFromWeek(start: int, end: int)
      modifies this
      ensures modalOpen && editing == None && selection == Some((start, end))
      ensures currentDate == old(currentDate) && view == old(view) && mobileAnchor == old(mobileAnchor)
    {
      selection := Some((start, end));
      editing := None;
      modalOpen := true;
    }

    /** The modal's onClose (and what onSave and onDelete do after calling
        the store). */
    method Close()
      modifies this
      ensures !modalOpen && editing == None && selection == None
      ensures currentDate == old(currentDate) && view == old(view) && mobileAnchor == old(mobileAnchor)
    {
      modalOpen := false;
      selection := None;
      editing := None;
    }
  }
}

/** utils/event.utils.ts: creating an event, range and day queries, sorting
    by start and the overlap test. These helpers read the `start` and `end`
    properties only (never `startDate`/`endDate`), with `end` falling back
    to `start`. */
module EventUtils {
  import opened JsCore
  import opened Seqs
  import opened JsDate
  import opened CalendarTypes
  import EventManager

  /** The default colour of createEvent. */
  const DefaultColor := "#4F46E5"

  /** createEvent. The id `crypto.randomUUID()` would return is the
      parameter `id`; `end` and `color` are the optional arguments. */
  function CreateEvent(title: string, start: Stamp, end: Option<Stamp>, color: Option<string>, id: string): (e: Event)
    ensures e.id == Val(id) && e.title == Val(Trim(title))
    ensures EventStart(e) == start
    ensures e.start == Val(start) && e.end == Val(if end.Some? then end.value else start)
    ensures end.Some? ==> EventEnd(e) == end.value
    ensures end.None? ==> EventEnd(e) == start
    ensures e.color == Val(if color.Some? then color.value else DefaultColor)
    ensures e.startDate.Absent? && e.endDate.Absent? && e.description.Absent? && e.category.Absent?
  {
    Event(
      id := Val(id),
      title := Val(Trim(title)),
      start := Val(start),
      end := Val(if end.Some? then end.value else start),
      startDate := Absent,
      endDate := Absent,
      description := Absent,
      color := Val(if color.Some? then color.value else DefaultColor),
      category := Absent)
  }

  /** `new Date(e.start).getTime()` */
  function EventStart(e: Event): Stamp {
    TimeValue(e.start)
  }

  /** `new Date(e.end ?? e.start).getTime()` */
  function EventEnd(e: Event): Stamp {
    if e.end.Val? then e.end.value else TimeValue(e.start)
  }

  /** The filter of getEventsInRange: the event starts no later than the end
      of the range and ends no earlier than its start (both bounds
      inclusive). */
  predicate InRange(e: Event, lo: Stamp, hi: Stamp) {
    Le(EventStart(e), hi) && Le(lo, EventEnd(e))
  }

  /** getEventsInRange: the events whose closed interval meets the closed
      range, as an order-preserving subsequence of the input. */
  function GetEventsInRange(events: seq<Event>, lo: Stamp, hi: Stamp): (r: seq<Event>)
    ensures IsSubseq(r, events)
    ensures forall e :: e in r <==> e in events && EventStart(e).At? && EventEnd(e).At? && lo.At? && hi.At?
                                    && EventStart(e).ms <= hi.ms && lo.ms <= EventEnd(e).ms
    ensures forall e :: multiset(r)[e] == if InRange(e, lo, hi) then multiset(events)[e] else 0
  {
    var keep := (e: Event) => InRange(e, lo, hi);
    forall e ensures e in Filter(keep, events) <==> e in events && InRange(e, lo, hi) {
      FilterMembership(keep, events, e);
    }
    Filter(keep, events)
  }

  /** A created event with no end is a single instant: a range selects it
      exactly when the instant lies within the range. */
  lemma CreatedInstantInRange(title: string, s: int, color: Option<string>, id: string, lo: int, hi: int)
    ensures var e := CreateEvent(title, At(s), None, color, id);
      e in GetEventsInRange([e], At(lo), At(hi)) <==> lo <= s <= hi
  {
  }

  /** The store keeps events with `start` cleared, so these queries, which
      read `start`, never select a stored event. */
  lemma CanonicalNeverInRange(events: seq<Event>, lo: Stamp, hi: Stamp)
    requires forall i :: 0 <= i < |events| ==> EventManager.IsCanonical(events[i])
    ensures GetEventsInRange(events, lo, hi) == []
  {
  }

  /** getEventsForDay: the range query from 00:00:00.000 to 23:59:59.999 of
      the day of `date` (that day's midnight is DateUtils.StartOfDay). */
  function GetEventsForDay(events: seq<Event>, date: int): (r: seq<Event>)
    ensures r == GetEventsInRange(events, At(Day(date) * MsPerDay), At(Day(date) * MsPerDay + MsPerDay - 1))
  {
    var dayStart := SetHours(date, 0, 0, 0, 0);
    var dayEnd := SetHours(date, 23, 59, 59, 999);
    assert dayStart == Day(date) * MsPerDay;
    assert dayEnd == Day(date) * MsPerDay + MsPerDay - 1;
    GetEventsInRange(events, At(dayStart), At(dayEnd))
  }

  /** An event whose end is not before its start is in the day's list
      exactly when it covers some instant of that day. */
  lemma ForDayMeansTouchesDay(events: seq<Event>, date: int, e: Event)
    requires !(EventStart(e).At? && EventEnd(e).At? && EventEnd(e).ms < EventStart(e).ms)
    ensures e in GetEventsForDay(events, date) <==>
      e in events && EventStart(e).At? && EventEnd(e).At?
      && exists t :: Day(t) == Day(date) && EventStart(e).ms <= t <= EventEnd(e).ms
  {
    var lo := Day(date) * MsPerDay;
    if e in GetEventsForDay(events, date) {
      var t := if EventStart(e).ms < lo then lo else EventStart(e).ms;
      DayOfMakeDate(Day(date), t - lo);
    }
    if e in events && EventStart(e).At? && EventEnd(e).At?
       && exists t :: Day(t) == Day(date) && EventStart(e).ms <= t <= EventEnd(e).ms
    {
      var t :| Day(t) == Day(date) && EventStart(e).ms <= t <= EventEnd(e).ms;
      assert lo <= t < lo + MsPerDay;
    }
  }

  // ---------------------------------------------------------------------
  // sortEvents
  // ---------------------------------------------------------------------

  /** The comparator `(a, b) => start(a) - start(b)` is positive: `a` must
      come after `b`. A NaN result counts as 0, so an event without a valid
      start compares equal to everything. */
  predicate ComesAfter(a: Event, b: Event) {
    Lt(EventStart(b), EventStart(a))
  }

  /** Inserts `x` after every element it does not come before, scanning from
      the right. */
  function Insert(sorted: seq<Event>, x: Event): (r: seq<Event>)
    ensures multiset(r) == multiset(sorted) + multiset{x}
  {
    if sorted == [] then [x]
    else
      var last := sorted[|sorted| - 1];
      var init := sorted[..|sorted| - 1];
      assert sorted == init + [last];
      if ComesAfter(last, x) then Insert(init, x) + [last] else sorted + [x]
  }

  /** sortEvents: a stable sort of a copy of the list by start time
      (insertion sort; see SortEventsSorted and SortEventsStable). */
  function SortEvents(events: seq<Event>): (r: seq<Event>)
    ensures multiset(r) == multiset(events)
  {
    if events == [] then []
    else
      assert events == events[..|events| - 1] + [events[|events| - 1]];
      Insert(SortEvents(events[..|events| - 1]), events[|events| - 1])
  }

  predicate AllStartsValid(s: seq<Event>) {
    forall i :: 0 <= i < |s| ==> EventStart(s[i]).At?
  }

  predicate SortedByStart(s: seq<Event>) {
    forall i, j :: 0 <= i < j < |s| ==> Le(EventStart(s[i]), EventStart(s[j]))
  }

  /** Appending an element that starts no earlier than every element keeps
      a list sorted. */
  lemma SortedAppend(t: seq<Event>, x: Event)
    requires SortedByStart(t)
    requires forall i :: 0 <= i < |t| ==> Le(EventStart(t[i]), EventStart(x))
    ensures SortedByStart(t + [x])
  {
    var r := t + [x];
    forall i, j | 0 <= i < j < |r| ensures Le(EventStart(r[i]), EventStart(r[j])) {
      assert r[i] == t[i];
      if j < |t| {
        assert r[j] == t[j];
      }
    }
  }

  /** Dropping the last element keeps a list sorted with valid starts. */
  lemma SortedInit(t: seq<Event>)
    requires t != [] && AllStartsValid(t) && SortedByStart(t)
    ensures AllStartsValid(t[..|t| - 1]) && SortedByStart(t[..|t| - 1])
  {
    var init := t[..|t| - 1];
    forall i | 0 <= i < |init| ensures EventStart(init[i]).At? {
      assert init[i] == t[i];
    }
    forall i, j | 0 <= i < j < |init| ensures Le(EventStart(init[i]), EventStart(init[j])) {
      assert init[i] == t[i] && init[j] == t[j];
    }
  }

  lemma {:induction false} InsertSorted(t: seq<Event>, x: Event)
    requires AllStartsValid(t) && SortedByStart(t) && EventStart(x).At?
    ensures SortedByStart(Insert(t, x))
  {
    if t != [] {
      var last := t[|t| - 1];
      var init := t[..|t| - 1];
      if ComesAfter(last, x) {
        assert Insert(t, x) == Insert(init, x) + [last];
        SortedInit(t);
        InsertSorted(init, x);
        var r := Insert(init, x);
        forall i | 0 <= i < |r| ensures Le(EventStart(r[i]), EventStart(last)) {
          assert r[i] in multiset(r);
          assert r[i] in init || r[i] == x;
          if r[i] in init {
            var k :| 0 <= k < |init| && init[k] == r[i];
            assert t[k] == r[i];
          }
        }
        SortedAppend(r, last);
      } else {
        assert Insert(t, x) == t + [x];
        forall i | 0 <= i < |t| ensures Le(EventStart(t[i]), EventStart(x)) {
          if i < |t| - 1 {
            assert Le(EventStart(t[i]), EventStart(last));
          }
        }
        SortedAppend(t, x);
      }
    }
  }

  lemma {:induction false} SortEventsSorted(events: seq<Event>)
    requires AllStartsValid(events)
    ensures SortedByStart(SortEvents(events))
    ensures AllStartsValid(SortEvents(events))
  {
    var r := SortEvents(events);
    forall i | 0 <= i < |r| ensures EventStart(r[i]).At? {
      assert r[i] in multiset(events);
      var k :| 0 <= k < |events| && events[k] == r[i];
    }
    if events != [] {
      var init := events[..|events| - 1];
      SortEventsSorted(init);
      InsertSorted(SortEvents(init), events[|events| - 1]);
    }
  }

  /** The events starting at instant `k`. */
  function StartsAt(k: int): Event -> bool {
    e => EventStart(e) == At(k)
  }

  lemma FilterSingleton(p: Event -> bool, x: Event)
    ensures Filter(p, [x]) == if p(x) then [x] else []
  {
    assert [x][1..] == [];
  }

  lemma SwapEmpty(a: seq<Event>, xs: seq<Event>, ls: seq<Event>)
    requires xs == [] || ls == []
    ensures (a + xs) + ls == (a + ls) + xs
  {
    if xs == [] {
      assert a + xs == a;
    } else {
      assert a + ls == a;
    }
  }

  lemma {:induction false} InsertKeepsTies(t: seq<Event>, x: Event, k: int)
    requires AllStartsValid(t) && SortedByStart(t) && EventStart(x).At?
    ensures Filter(StartsAt(k), Insert(t, x)) == Filter(StartsAt(k), t) + Filter(StartsAt(k), [x])
  {
    var p := StartsAt(k);
    if t == [] {
      assert Filter(p, t) == [];
    } else {
      var last := t[|t| - 1];
      var init := t[..|t| - 1];
      var a, xs, ls := Filter(p, init), Filter(p, [x]), Filter(p, [last]);
      assert Filter(p, t) == a + ls by {
        assert t == init + [last];
        FilterAppend(p, init, [last]);
      }
      if ComesAfter(last, x) {
        assert Filter(p, Insert(t, x)) == (a + xs) + ls by {
          assert Insert(t, x) == Insert(init, x) + [last];
          FilterAppend(p, Insert(init, x), [last]);
          SortedInit(t);
          InsertKeepsTies(init, x, k);
        }
        assert xs == [] || ls == [] by {
          FilterSingleton(p, x);
          FilterSingleton(p, last);
        }
        SwapEmpty(a, xs, ls);
      } else {
        assert Insert(t, x) == t + [x];
        FilterAppend(p, t, [x]);
      }
    }
  }

  /** Among events with the same valid start, sortEvents keeps the input
      order: the events starting at any instant `k` come out in the order
      they went in. */
  lemma {:induction false} SortEventsStable(events: seq<Event>, k: int)
    requires AllStartsValid(events)
    ensures Filter(StartsAt(k), SortEvents(events)) == Filter(StartsAt(k), events)
  {
    if events != [] {
      var init := events[..|events| - 1];
      var x := events[|events| - 1];
      var p := StartsAt(k);
      assert events == init + [x];
      assert SortEvents(events) == Insert(SortEvents(init), x);
      SortEventsStable(init, k);
      SortEventsSorted(init);
      InsertKeepsTies(SortEvents(init), x, k);
      FilterAppend(p, init, [x]);
      assert Filter(p, SortEvents(events)) == Filter(p, init) + Filter(p, [x]);
    }
  }

  /** When no event has a valid start every comparison is 0, and the list
      comes back as it was. */
  lemma {:induction false} SortEventsNoValidStart(events: seq<Event>)
    requires forall i :: 0 <= i < |events| ==> !EventStart(events[i]).At?
    ensures SortEvents(events) == events
  {
    if events != [] {
      var init := events[..|events| - 1];
      var x := events[|events| - 1];
      forall i | 0 <= i < |init| ensures !EventStart(init[i]).At? {
        assert init[i] == events[i];
      }
      SortEventsNoValidStart(init);
      assert events == init + [x];
      assert SortEvents(events) == Insert(init, x);
      if init != [] {
        assert !ComesAfter(init[|init| - 1], x);
      }
    }
  }

  /** In particular sortEvents leaves a list of stored (canonical) events in
      its order: their `start` is cleared. */
  lemma SortCanonicalIsIdentity(events: seq<Event>)
    requires forall i :: 0 <= i < |events| ==> EventManager.IsCanonical(events[i])
    ensures SortEvents(events) == events
  {
    SortEventsNoValidStart(events);
  }

  // ---------------------------------------------------------------------
  // eventsOverlap
  // ---------------------------------------------------------------------

  /** Instant `t` lies in the half-open interval [start, end) of `e`. */
  predicate During(e: Event, t: int) {
    EventStart(e).At? && EventEnd(e).At? && EventStart(e).ms <= t < EventEnd(e).ms
  }

  /** eventsOverlap: each event starts strictly before the other ends. For
      events that last some time, that is: they share an instant. */
  function EventsOverlap(a: Event, b: Event): (r: bool)
    ensures r ==> EventStart(a).At? && EventEnd(a).At? && EventStart(b).At? && EventEnd(b).At?
    ensures Lt(EventStart(a), EventEnd(a)) && Lt(EventStart(b), EventEnd(b)) ==>
      (r <==> exists t :: During(a, t) && During(b, t))
  {
    var aStart, aEnd := EventStart(a), EventEnd(a);
    var bStart, bEnd := EventStart(b), EventEnd(b);
    var r := Lt(aStart, bEnd) && Lt(bStart, aEnd);
    if r && Lt(aStart, aEnd) && Lt(bStart, bEnd) then
      var t := if aStart.ms < bStart.ms then bStart.ms else aStart.ms;
      assert During(a, t) && During(b, t);
      r
    else
      r
  }

  /** An event without an end overlaps another event exactly when it lies
      strictly inside it. */
  lemma InstantOverlap(a: Event, b: Event)
    requires !b.end.Val?
    ensures EventsOverlap(a, b) <==> Lt(EventStart(a), EventStart(b)) && Lt(EventStart(b), EventEnd(a))
  {
  }

  lemma OverlapSymmetric(a: Event, b: Event)
    ensures EventsOverlap(a, b) == EventsOverlap(b, a)
  {
  }

  /** Back-to-back events (one ends exactly when the other starts) do not
      overlap, although a range around the meeting instant selects both. */
  lemma TouchingDoNotOverlap(a: Event, b: Event, lo: int, hi: int)
    requires EventEnd(a) == EventStart(b)
    requires Le(EventStart(a), EventEnd(a)) && Le(EventStart(b), EventEnd(b))
    requires lo <= EventEnd(a).ms <= hi
    ensures !EventsOverlap(a, b)
    ensures InRange(a, At(lo), At(hi)) && InRange(b, At(lo), At(hi))
  {
  }

  /** Two events without an end last no time at all and never overlap. */
  lemma InstantsNeverOverlap(a: Event, b: Event)
    requires !a.end.Val? && !b.end.Val?
    ensures !EventsOverlap(a, b)
  {
  }
}

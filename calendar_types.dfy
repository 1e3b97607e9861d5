/** The calendar event record (CalendarView.types.ts) and the accessors every
    module uses to read its start and end, whichever shape it arrives in. */
module CalendarTypes {
  import opened JsCore

  /** A CalendarEvent object. `id` and `title` are required by the type but
      may still be missing at run time (the manager's `?? ''` and `?? uuid`
      handle that), and an event may carry its times as `start`/`end`, as
      `startDate`/`endDate`, or both. */
  datatype Event = Event(
    id: Field<string>,
    title: Field<string>,
    start: Field<Stamp>,
    end: Field<Stamp>,
    startDate: Field<Stamp>,
    endDate: Field<Stamp>,
    description: Field<string>,
    color: Field<string>,
    category: Field<string>)

  /** `{}`: an object with none of the keys. */
  const NoFields := Event(Absent, Absent, Absent, Absent, Absent, Absent, Absent, Absent, Absent)

  /** `{...a, ...b}`: every key present in `b` wins, the rest come from `a`. */
  function Spread(a: Event, b: Event): Event {
    Event(
      a.id.Over(b.id), a.title.Over(b.title),
      a.start.Over(b.start), a.end.Over(b.end),
      a.startDate.Over(b.startDate), a.endDate.Over(b.endDate),
      a.description.Over(b.description), a.color.Over(b.color), a.category.Over(b.category))
  }

  /** `e.start ?? e.startDate`: the start Date, if the event has one. A key
      that is missing and a key set to `undefined` both fall through. */
  function GetStart(e: Event): (r: Option<Stamp>)
    ensures r.None? <==> !e.start.Val? && !e.startDate.Val?
    ensures e.start.Val? ==> r == Some(e.start.value)
    ensures !e.start.Val? && e.startDate.Val? ==> r == Some(e.startDate.value)
  {
    if e.start.Val? then Some(e.start.value) else e.startDate.Get()
  }

  /** `e.end ?? e.endDate`, likewise. */
  function GetEnd(e: Event): (r: Option<Stamp>)
    ensures r.None? <==> !e.end.Val? && !e.endDate.Val?
    ensures e.end.Val? ==> r == Some(e.end.value)
    ensures !e.end.Val? && e.endDate.Val? ==> r == Some(e.endDate.value)
  {
    if e.end.Val? then Some(e.end.value) else e.endDate.Get()
  }

  /** The time value of a Date that may be missing (`new Date(undefined)`
      is an Invalid Date). */
  function StampOf(d: Option<Stamp>): Stamp {
    if d.Some? then d.value else NaN
  }

  /** `ev.id === id`. */
  predicate HasId(e: Event, id: string) {
    e.id == Val(id)
  }

  /** The two layouts of the calendar. */
  datatype View = Month | Week
}

# CalendarView in Dafny

A model of the logic behind the CalendarView React component library:

- the event store hook (`useEventManager`): canonical shape, validation, add / update / delete / partial update;
- the date helpers (`date.utils.ts`) and event helpers (`event.utils.ts`);
- the `useCalendar` navigation hook;
- the state and derived data of the `CalendarView`, `WeekView`, `EventModal` and `Sidebar` components.

The React state hooks become Dafny classes whose fields are the `useState` variables. Their updaters become methods that state the whole new state. Pure helpers become functions, with lemmas about them.

## Modules

- `JsCore` (`js_core.dfy`) holds the JavaScript values the code relies on:
  - `Field<T>` tells an absent property, an `undefined` one and a set one apart. `Over` is object spread.
  - `Stamp` is a `Date`'s time value, a number of milliseconds or `NaN`. `Lt` and `Le` are false whenever `NaN` is involved, as `<` on Dates is.
  - `String.prototype.trim`, `toLowerCase` (ASCII letters), `includes` and `length` (UTF-16 code units).
  - Decimal rendering and `padStart(2, '0')`.
- `JsDate` (`js_date.dfy`) is the local-time `Date`, with time as integer milliseconds:
  - the day number and the time within the day, and the weekday (Sunday = 0);
  - the proleptic Gregorian calendar (`DaysFromCivil` / `CivilFromDays`, with both round trips proved);
  - `new Date(y, m, d, h, mi, s, ms)` with its overflowing month and date arguments;
  - `setDate`, `setHours`, `setMinutes`.
- `Seqs` (`seqs.dfy`) holds `Array.prototype.filter` and the sub-sequence relation.
- `CalendarTypes` (`calendar_types.dfy`) holds the `CalendarEvent` record and the `start ?? startDate` / `end ?? endDate` readers.
- `EventManager` (`event_manager.dfy`) is `useEventManager`. The class `EventStore` holds the event list. `AssertValid` returns a `Verdict`: the first failing check, in the source's order, as the error that would be thrown.
- `DateUtils` (`date_utils.dfy`) is `date.utils.ts`. `GetCalendarGrid` and `HoursInDay` keep the source's loops.
- `EventUtils` (`event_utils.dfy`) is `event.utils.ts`.
  - `SortEvents` is a stable insertion sort.
  - `Array.prototype.sort` is stable in current engines. Its comparator orders the events that have a valid start.
- `UseCalendar` (`use_calendar.dfy`) is `useCalendar`. The class `Calendar` holds its state.
- `CalendarView` (`calendar_view.dfy`) covers the `CalendarView` component:
  - the search and category filter;
  - the noon-anchored month and week navigation;
  - the month and year pickers and the mobile day anchor;
  - the modal's opening, closing and `initial` event.

  The class `ViewState` holds its state.
- `WeekView` (`week_view.dfy`) covers the `WeekView` component:
  - the Sunday-first week and its seven days;
  - the events of each day;
  - drag-to-create. The class `DragState` holds the drag.
- `EventModal` (`event_modal.dfy`) covers the `EventModal` form:
  - the class `Form` holds the fields, their setters and the reset effect;
  - the `disabled` test;
  - the `toLocalInput` text;
  - the payload built by `save`.
- `Sidebar` (`sidebar.dfy`) covers the per-category counts: an insertion-ordered `Map` filled by one `forEach`.

## Notable behaviour the model makes explicit

- **Every matching id is affected.** `onEventUpdate` and `onEventDelete` use `map` and `filter`, so they act on *every* event with the given id, not only on the first. The written description of the library speaks of the first match. The model follows the code:
  - `ReplaceById` and `RemoveById` touch every match;
  - `PartialUpdate` fails on the first rejected merge from the left.
- **The modal can submit what the store rejects.** The modal's save button is enabled for an event whose end equals its start (`disabled` tests `end < start`). The store then throws "End must be after start" (`assertValid` tests `en <= s`). `EventModal.SaveAcceptedByStore` states exactly which payloads the store accepts. `EventModal.EqualTimesEnabledButRejected` exhibits the equal-times case.
- **The range and sort helpers never see a stored event's times.** The store's canonical shape clears `start` and `end`, but `getEventsInRange`, `getEventsForDay`, `sortEvents` and `eventsOverlap` read only `start` and `end`. On stored events:
  - the range queries return nothing (`EventUtils.CanonicalNeverInRange`);
  - sorting is the identity (`EventUtils.SortCanonicalIsIdentity`).
- **Two conventions for the current date.**
  - `useCalendar` navigates to local midnight.
  - `CalendarView` keeps its current date at noon: of the first of the month after month navigation, of any day after week navigation. Switching layout keeps the date, so month layout can show an anchor that is not the 1st; month navigation then snaps it to the 1st (`CalendarView.MonthThereAndBack`).
  - Both conventions are modelled, each with its round-trip lemma.
- **Two week starts.** The month grid starts on Monday. The week layout starts on Sunday.
- **Two `addMinutes` helpers.** The shared one truncates to the minute. The week layout's one keeps seconds and milliseconds.

## Model

| member | source | states |
|---|---|---|
| CalendarTypes.GetStart | src/components/Calendar/CalendarView.tsx:14-16 | `start` when set, else `startDate` when set, else none |
| CalendarTypes.GetEnd | src/components/Calendar/CalendarView.tsx:17-19 | `end` when set, else `endDate` when set, else none |
| JsCore.TrimSpec | src/hooks/useEventManager.ts:22 | the trimmed string is a slice of the input with no whitespace at either end, and is empty exactly when the input is all whitespace |
| JsCore.TrimIdempotent | src/components/Calendar/EventModal.tsx:61 | trimming an already trimmed title changes nothing |
| JsCore.IncludesMeansOccurs | src/components/Calendar/CalendarView.tsx:66 | `includes` holds exactly when the query occurs at some index |
| JsCore.ToLower | src/components/Calendar/CalendarView.tsx:59 | same length; each character is lower-cased on its own |
| JsCore.DigitsRoundTrip | src/components/Calendar/EventModal.tsx:48 | the decimal text of a number reads back as that number |
| JsDate.DaysFromCivilOfCivilFromDays | src/utils/date.utils.ts:13 | a day number's civil date maps back to the same day number |
| JsDate.CivilFromDaysOfDaysFromCivil | src/utils/date.utils.ts:13 | a valid civil date's day number maps back to the same date |
| JsDate.CivilFromDaysInjective | src/utils/date.utils.ts:2 | two day numbers have the same civil date exactly when they are equal |
| JsDate.MakeDayOfOwnDate | src/utils/date.utils.ts:4 | `new Date(y, m, date + n)` on a date's own fields is the day `n` days later |
| JsDate.FirstOfMonth | src/utils/date.utils.ts:13 | `new Date(y, m, 1)` is the first of month `m mod 12` of year `y + m div 12` |
| EventManager.ToCanonical | src/hooks/useEventManager.ts:9-19 | the result is canonical: `start`/`end` are `undefined`, and `startDate`/`endDate` hold the times `getStart`/`getEnd` read; every other field is kept |
| EventManager.ToCanonicalIdempotent | src/hooks/useEventManager.ts:9-19 | canonical events are fixed points; normalizing twice equals normalizing once |
| EventManager.AssertValid | src/hooks/useEventManager.ts:21-32 | passes exactly when no rule is broken; a failure names a broken rule, and every rule checked before it holds |
| EventManager.AssertValidPassesValidEvents | src/hooks/useEventManager.ts:21-32 | passing is equivalent to the plain validity predicate: non-empty trimmed title of at most 100, description at most 500, both times valid, end after start |
| EventManager.ValidationIgnoresShape | src/hooks/useEventManager.ts:9-32 | validating the canonical form gives the same verdict as validating the event |
| EventManager.AddPayload | src/hooks/useEventManager.ts:68-71 | canonical; the id is the event's own or the fresh one; times and other fields are kept |
| EventManager.UpdatePayload | src/hooks/useEventManager.ts:78 | canonical, carries the given id, keeps the times, title, description, color and category of `next` |
| EventManager.ReplaceByIdEffect | src/hooks/useEventManager.ts:80 | same length; events with another id are untouched; every event with the id becomes the old event spread with the payload |
| EventManager.ReplaceMissingIdIsNoOp | src/hooks/useEventManager.ts:80 | updating an id no event has leaves the list unchanged |
| EventManager.MergeKeepsValid | src/hooks/useEventManager.ts:80 | spreading a valid canonical payload over a valid canonical event gives a valid canonical event |
| EventManager.RemoveById | src/hooks/useEventManager.ts:85 | an ordered sub-list holding exactly the events without the id, each as often as before |
| EventManager.RemoveByIdNoOp | src/hooks/useEventManager.ts:84-86 | deleting a missing id is a no-op; deleting twice equals deleting once |
| EventManager.MergePartial | src/hooks/useEventManager.ts:93 | the merge is canonical and keeps the id |
| EventManager.PartialUpdate | src/hooks/useEventManager.ts:89-98 | on success the length is kept, non-matching events are untouched, matching ones become their merge |
| EventManager.PartialUpdateError | src/hooks/useEventManager.ts:89-98 | succeeds exactly when every merge validates; otherwise the error is the one from the leftmost rejected merge |
| EventManager.PartialUpdateKeepsStore | src/hooks/useEventManager.ts:89-98 | a successful partial update keeps a canonical list canonical and a valid list valid |
| EventManager.EventStore.constructor | src/hooks/useEventManager.ts:38 | the store starts with the initial events normalized, in order |
| EventManager.EventStore.Add | src/hooks/useEventManager.ts:67-74 | the verdict is the payload's validation; on success the payload is appended; on failure nothing changes; validity of the list is preserved |
| EventManager.EventStore.Update | src/hooks/useEventManager.ts:77-81 | on success every event with the id is merged with the payload; on failure nothing changes; validity is preserved |
| EventManager.EventStore.Delete | src/hooks/useEventManager.ts:84-86 | the list becomes the one with every event of that id removed; validity is preserved |
| EventManager.EventStore.UpdatePartial | src/hooks/useEventManager.ts:89-98 | on success the list is the partial update; when a merged event fails validation the list is unchanged and the failing check is returned as a value (the source throws it inside the state updater); validity is preserved |
| DateUtils.FloorToMinute | src/utils/date.utils.ts:5-6 | the whole minute containing the instant |
| DateUtils.StartOfDay | src/utils/date.utils.ts:1 | the midnight at or before the instant, less than a day before it |
| DateUtils.StartOfDayKeepsDate | src/utils/date.utils.ts:1 | same year, month and date; idempotent |
| DateUtils.IsSameDay | src/utils/date.utils.ts:2 | true exactly when both instants fall on the same day |
| DateUtils.IsSameDayMeansSameDate | src/utils/date.utils.ts:2 | same day exactly when year, month and date agree |
| DateUtils.AddDays | src/utils/date.utils.ts:4 | midnight of the day `n` days later |
| DateUtils.AddDaysCompose | src/utils/date.utils.ts:4 | adding `a` then `b` days equals adding `a + b`; adding 0 is the start of the day |
| DateUtils.AddHours | src/utils/date.utils.ts:5 | the instant truncated to the minute, plus `n` hours |
| DateUtils.AddMinutes | src/utils/date.utils.ts:6 | the instant truncated to the minute, plus `n` minutes |
| DateUtils.AddMinutesCompose | src/utils/date.utils.ts:6 | adding `a` then `b` minutes equals adding `a + b` |
| DateUtils.AddHoursIsSixtyMinutes | src/utils/date.utils.ts:5-6 | adding `n` hours equals adding `60 n` minutes |
| DateUtils.Clamp | src/utils/date.utils.ts:7 | within the bounds when they are ordered; a value already inside is unchanged; below gives `min`, above gives `max`; crossed bounds give `min` |
| DateUtils.MonthGrid | src/utils/date.utils.ts:15-16 | the grid start is a Monday at most six days before the first, and all days of the month fall within the 42 cells |
| DateUtils.GridCoversMonth | src/utils/date.utils.ts:10-22 | for any anchor the grid starts on a Monday on or before the first of its month and covers every day of the month, the anchor included |
| DateUtils.GridStartComputed | src/utils/date.utils.ts:13-16 | the source's `new Date(y, m, 1 - (getDay() + 6) % 7)` is the grid start day |
| DateUtils.GetCalendarGrid | src/utils/date.utils.ts:10-22 | exactly 42 cells, cell `i` being midnight of grid start + `i` days |
| DateUtils.HoursInDay | src/utils/date.utils.ts:28-33 | the ceiling of 1440 / step slots, slot `i` at `i * step` minutes after midnight of today, all within today |
| DateUtils.HoursInDayDefault | src/utils/date.utils.ts:28 | with the default step of 60 minutes: the 24 whole hours of today |
| EventUtils.CreateEvent | src/utils/event.utils.ts:7-20 | given id, trimmed title, the `start` key holding the start and the `end` key the end defaulting to start, color defaulting to `#4F46E5`, nothing else set |
| EventUtils.GetEventsInRange | src/utils/event.utils.ts:25-35 | an ordered sub-list holding exactly the events with valid times that start at or before the range end and end at or after its start, with their multiplicities |
| EventUtils.CreatedInstantInRange | src/utils/event.utils.ts:7-35 | an event created without an end is found by a range exactly when its start lies in the range |
| EventUtils.CanonicalNeverInRange | src/utils/event.utils.ts:30-34 | no event in store shape is ever selected |
| EventUtils.GetEventsForDay | src/utils/event.utils.ts:40-49 | the range query from 00:00:00.000 to 23:59:59.999 of the date's day |
| EventUtils.ForDayMeansTouchesDay | src/utils/event.utils.ts:40-49 | an event that does not end before it starts is selected exactly when it covers some instant of that day |
| EventUtils.SortEvents | src/utils/event.utils.ts:54-58 | the result is a permutation of the input |
| EventUtils.SortEventsSorted | src/utils/event.utils.ts:54-58 | with valid starts the result is ordered by start |
| EventUtils.SortEventsStable | src/utils/event.utils.ts:54-58 | events with equal starts keep their relative order |
| EventUtils.SortEventsNoValidStart | src/utils/event.utils.ts:54-58 | when no event has a valid start (every comparison is `NaN`) the order is unchanged |
| EventUtils.SortCanonicalIsIdentity | src/utils/event.utils.ts:54-58 | sorting events in store shape leaves them as they are |
| EventUtils.EventsOverlap | src/utils/event.utils.ts:63-69 | true only for valid times; for events of positive length, true exactly when they share an instant |
| EventUtils.InstantOverlap | src/utils/event.utils.ts:63-69 | an instant event overlaps another exactly when it lies strictly inside it |
| EventUtils.OverlapSymmetric | src/utils/event.utils.ts:63-69 | overlap does not depend on argument order |
| EventUtils.TouchingDoNotOverlap | src/utils/event.utils.ts:25-69 | back-to-back events do not overlap, yet a range containing the shared boundary selects both |
| EventUtils.InstantsNeverOverlap | src/utils/event.utils.ts:63-69 | two events without an end never overlap |
| UseCalendar.MonthShift | src/hooks/useCalendar.ts:13 | midnight of the first of the month `delta` months away, with year rollover |
| UseCalendar.WeekShift | src/hooks/useCalendar.ts:14 | midnight seven days later or earlier |
| UseCalendar.Navigate | src/hooks/useCalendar.ts:10-24 | month layout: the first of the next or previous month at midnight, December rolling to January of the next year and back; week layout: seven days on at midnight |
| UseCalendar.NavigateThereAndBack | src/hooks/useCalendar.ts:10-24 | a week forward and back is the start of the same day; a month forward and back is the first of the same month |
| UseCalendar.Toggle | src/hooks/useCalendar.ts:27 | always switches the layout |
| UseCalendar.ToggleTwice | src/hooks/useCalendar.ts:27 | toggling twice restores the layout |
| UseCalendar.Calendar.constructor | src/hooks/useCalendar.ts:6-8 | the initial date and layout, nothing selected |
| UseCalendar.Calendar.GoToNext | src/hooks/useCalendar.ts:10-16 | the date moves forward by the layout's step; nothing else changes |
| UseCalendar.Calendar.GoToPrev | src/hooks/useCalendar.ts:18-24 | the date moves back by the layout's step; nothing else changes |
| UseCalendar.Calendar.GoToToday | src/hooks/useCalendar.ts:26 | the date becomes now; nothing else changes |
| UseCalendar.Calendar.ToggleView | src/hooks/useCalendar.ts:27 | the layout switches; dates are kept |
| CalendarView.FilterEvents | src/components/Calendar/CalendarView.tsx:58-68 | an ordered sub-list with the same multiplicities, holding exactly the events that match the category (or "all") and whose lower-cased title or description contains the trimmed, lower-cased query (any event when it is blank) |
| CalendarView.FilterBlankSearch | src/components/Calendar/CalendarView.tsx:62-63 | a blank search filters by category only, and with "all" returns the events unchanged |
| CalendarView.FilterLengthBound | src/components/Calendar/CalendarView.tsx:58-68 | the filtered list is never longer than the input |
| CalendarView.NoonOfFirst | src/components/Calendar/CalendarView.tsx:38 | noon of the first of month `m mod 12` of year `y + m div 12` |
| CalendarView.NoonDaysLater | src/components/Calendar/CalendarView.tsx:75 | noon `n` days later |
| CalendarView.Step | src/components/Calendar/CalendarView.tsx:71-85 | month layout: noon of the first of the adjacent month with year rollover; week layout: noon seven days on |
| CalendarView.StepThereAndBack | src/components/Calendar/CalendarView.tsx:71-85 | forward then back returns the same anchor for a noon anchor in week layout and for noon of a first of month in month layout |
| CalendarView.MonthThereAndBack | src/components/Calendar/CalendarView.tsx:71-85 | a month forward then back gives noon of the first of the anchor's month, so it is the identity exactly on noon of a first; an anchor left by week steps and a switch to month layout snaps to the 1st |
| CalendarView.MonthAnchor | src/components/Calendar/CalendarView.tsx:37-39 | noon of the first of the same month |
| CalendarView.SetMonth | src/components/Calendar/CalendarView.tsx:92-94 | noon of the first of month `m` of the anchor's year, overflowing months rolling the year |
| CalendarView.SetYear | src/components/Calendar/CalendarView.tsx:96-98 | noon of the first of the same month in year `y` |
| CalendarView.ShiftAnchor | src/components/Calendar/CalendarView.tsx:149-156 | midnight of the next or previous day |
| CalendarView.DefaultSelection | src/components/Calendar/CalendarView.tsx:111-113 | 09:00 and 10:00 of the clicked day, one hour apart |
| CalendarView.ModalInitial | src/components/Calendar/CalendarView.tsx:291-301 | an edited event keeps its id, title, description, color, category, `start` and `end`, and its `startDate` and `endDate` now hold the times it reads (`getStart`, `getEnd`), possibly still undefined; otherwise the selection's times, or now and an hour later, with no id or title |
| CalendarView.ViewState.constructor | src/components/Calendar/CalendarView.tsx:37-46 | current date is noon of the first of the initial month; the mobile anchor copies it; the modal is closed |
| CalendarView.ViewState.Navigate | src/components/Calendar/CalendarView.tsx:71-85 | current date takes one step; nothing else changes |
| CalendarView.ViewState.GoToToday | src/components/Calendar/CalendarView.tsx:87-90 | current date becomes noon of the first of now's month; nothing else changes |
| CalendarView.ViewState.PickMonth | src/components/Calendar/CalendarView.tsx:92-94 | current date is set by the month picker; nothing else changes |
| CalendarView.ViewState.PickYear | src/components/Calendar/CalendarView.tsx:96-98 | current date is set by the year picker; nothing else changes |
| CalendarView.ViewState.ShowView | src/components/Calendar/CalendarView.tsx:214-220 | the layout becomes the chosen one; nothing else changes |
| CalendarView.ViewState.MoveMobileAnchor | src/components/Calendar/CalendarView.tsx:149-156 | the mobile anchor moves one day; nothing else changes |
| CalendarView.ViewState.OpenEdit | src/components/Calendar/CalendarView.tsx:101-105 | the modal opens on the event with no selection; dates unchanged |
| CalendarView.ViewState.OpenCreateFromMonth | src/components/Calendar/CalendarView.tsx:107-117 | the modal opens for creation on the given range, or 09:00 to 10:00 of the day |
| CalendarView.ViewState.OpenCreateFromWeek | src/components/Calendar/CalendarView.tsx:119-123 | the modal opens for creation on the dragged range |
| CalendarView.ViewState.Close | src/components/Calendar/CalendarView.tsx:302-306 | the modal closes and forgets the edited event and the selection; dates unchanged |
| WeekView.SundayOnOrBefore | src/components/Calendar/WeekView.tsx:13-18 | midnight of a Sunday at most six days before the date |
| WeekView.StartOfWeek | src/components/Calendar/WeekView.tsx:13-18 | the `setDate` then `setHours` steps give the Sunday on or before the date |
| WeekView.SetDateBack | src/components/Calendar/WeekView.tsx:15 | `setDate(getDate() - n)` moves exactly `n` days back |
| WeekView.AddMinutes | src/components/Calendar/WeekView.tsx:19-23 | `mins` minutes later, seconds and milliseconds kept |
| WeekView.WeekDays | src/components/Calendar/WeekView.tsx:27-28 | seven midnights on consecutive days from the start |
| WeekView.WeekHoldsAnchor | src/components/Calendar/WeekView.tsx:27-28 | the shown week starts on Sunday and holds the anchor's day at its weekday's column |
| WeekView.SlotsPerDay | src/components/Calendar/WeekView.tsx:33 | the slots exactly fill a day: 48 for 30 minutes, 24 for 60 |
| WeekView.EventsOnDay | src/components/Calendar/WeekView.tsx:37 | an ordered sub-list holding exactly the events starting on that day, each as many times as it occurs in the list |
| WeekView.DayEvents | src/components/Calendar/WeekView.tsx:35-39 | fails (the source throws) exactly when there is a day and some event has no start; otherwise one list per day |
| WeekView.DayEventsAtMostOneDay | src/components/Calendar/WeekView.tsx:35-39 | no event is listed under two days of the week |
| WeekView.ClampRow | src/components/Calendar/WeekView.tsx:46 | the row is a valid slot index; an in-range row is kept |
| WeekView.SlotRangeSpan | src/components/Calendar/WeekView.tsx:59-60 | the range starts at the start slot and spans at least one slot; an upward drag gives exactly the start slot |
| WeekView.SlotRangeWithinDay | src/components/Calendar/WeekView.tsx:56-63 | when both rows are slots of the current grid the created range lies inside that day |
| WeekView.DragState.constructor | src/components/Calendar/WeekView.tsx:31 | no drag in progress |
| WeekView.DragState.MouseDown | src/components/Calendar/WeekView.tsx:41-48 | a drag starts in the column at the clamped row, start and end alike |
| WeekView.DragState.MouseMove | src/components/Calendar/WeekView.tsx:49-55 | with no drag nothing happens; otherwise only the end row moves, clamped to the current grid, while the start row is kept as it was, even when it lies outside the current grid |
| WeekView.DragState.MouseUp | src/components/Calendar/WeekView.tsx:56-63 | the drag is cleared; a range is created exactly when a drag was in progress, spanning its slots, whatever interval the drag was started under |
| WeekView.StaleDragCreatesNextDay | src/components/Calendar/WeekView.tsx:41-63 | a drag pressed at row 40 of the 30-minute grid and released after the switch to 60 minutes creates an event starting 40 hours after the column's midnight, on the next day |
| EventModal.Pad | src/components/Calendar/EventModal.tsx:48 | two digits below 100, a leading zero below 10 |
| EventModal.PadValue | src/components/Calendar/EventModal.tsx:48 | the padded text reads back as the number |
| EventModal.ToLocalInputLayout | src/components/Calendar/EventModal.tsx:46-50 | 16 characters in `yyyy-MM-ddTHH:mm` layout made of the date's fields |
| EventModal.ToLocalInputReadsBack | src/components/Calendar/EventModal.tsx:46-50 | each field of the text reads back as the year, 1-based month, date, hours and minutes |
| EventModal.SavePayload | src/components/Calendar/EventModal.tsx:58-69 | the id is kept or fresh; title and description are trimmed; the form's times and color are used; an empty category becomes `undefined` |
| EventModal.SaveAcceptedByStore | src/components/Calendar/EventModal.tsx:39-69 | the store accepts the saved payload exactly when the form is enabled, both times are valid and differ, and the trimmed texts fit the limits |
| EventModal.EqualTimesEnabledButRejected | src/components/Calendar/EventModal.tsx:39-42 | equal start and end leave the save button enabled, yet the store rejects the payload with "End must be after start" |
| EventModal.Form.Render | src/components/Calendar/EventModal.tsx:44-117 | nothing while closed; throws exactly when the open dialog has an undefined start or end; otherwise the two inputs show toLocalInput of the times (`NaN` fields for an Invalid Date) |
| EventModal.Form.OpenThrowsWithoutTime | src/components/Calendar/EventModal.tsx:22-27 | a form filled from an event throws when opened exactly when the event's `startDate` or `endDate` is undefined |
| EventModal.Form.constructor | src/components/Calendar/EventModal.tsx:22-27 | the fields are filled from `initial` with their defaults |
| EventModal.Form.OnOpen | src/components/Calendar/EventModal.tsx:29-37 | when open every field is refilled from `initial`; when closed nothing changes |
| EventModal.Form.SetTitle | src/components/Calendar/EventModal.tsx:87 | only the title changes |
| EventModal.Form.SetDescription | src/components/Calendar/EventModal.tsx:97 | only the description changes |
| EventModal.Form.SetStart | src/components/Calendar/EventModal.tsx:109 | only the start changes, to the parsed time |
| EventModal.Form.SetEnd | src/components/Calendar/EventModal.tsx:118 | only the end changes, to the parsed time |
| EventModal.Form.SetColor | src/components/Calendar/EventModal.tsx:129 | only the color changes |
| EventModal.Form.SetCategory | src/components/Calendar/EventModal.tsx:141 | only the category changes |
| EventModal.Form.Save | src/components/Calendar/EventModal.tsx:58-69 | the payload built from the current fields |
| Sidebar.GetSet | src/components/Calendar/Sidebar.tsx:29 | after `set` the key reads back as the new value, every other key as before |
| Sidebar.SetKeys | src/components/Calendar/Sidebar.tsx:29 | `set` keeps the key order and appends a new key at the end |
| Sidebar.CategoryKey | src/components/Calendar/Sidebar.tsx:28 | the category, or "Uncategorized" when there is none |
| Sidebar.TallyKeys | src/components/Calendar/Sidebar.tsx:25-32 | the keys are the categories in order of first occurrence |
| Sidebar.TallyCounts | src/components/Calendar/Sidebar.tsx:25-32 | each key counts the events of its category; absent categories are not keys |
| Sidebar.TallyTotal | src/components/Calendar/Sidebar.tsx:25-32 | the counts sum to the number of events |
| Sidebar.CategoryCounts | src/components/Calendar/Sidebar.tsx:25-32 | the loop builds the tally: distinct keys in first-occurrence order, each with its category's count, summing to the number of events |
| Sidebar.FilteredTotalAtMostCounts | src/components/Calendar/Sidebar.tsx:61-69 | the filtered total shown never exceeds the sum of the listed counts |

## Left out

- Persistence is not modelled. This covers the `localStorage` load and save, the JSON round trip of dates, the storage key and the quota error handling in `useEventManager`. The store starts from the initial events.
- Id generation (`crypto.randomUUID`, `Date.now`) is not modelled. The fresh id is a parameter of `EventManager.EventStore.Add` and `EventModal.Form.Save`.
- The current time (`new Date()`) is a parameter: `now` in `GoToToday`, `HoursInDay` and `ModalInitial`.
- JsDate.NewDate: the `Date` constructor's mapping of a year argument in 0..99 to 1900 + year is not modelled; the setters, which do not map, are exact. Every member that rebuilds a date from `getFullYear()` with `new Date(...)` is therefore stated as if the year were taken literally, which is what the code does for every date outside the years 0..99: `DateUtils.StartOfDay`, `AddDays`, `AddHours`, `AddMinutes`, `MonthGrid`, `GetCalendarGrid`, `UseCalendar.MonthShift`, `WeekShift`, `Navigate`, `CalendarView.NoonOfFirst`, `NoonDaysLater`, `Step`, `MonthAnchor`, `SetMonth`, `ShiftAnchor`, `WeekView.WeekDays`.
- MakeDayOfOwnDate: stated without the two-digit-year mapping. For a date in the years 0..99, `new Date(y, m, d + n)` lands in the year 1900 + y instead of `n` days later.
- FirstOfMonth: stated without the two-digit-year mapping. For `y + m div 12` in 0..99 the source gives the first of that month in the year 1900 + `y + m div 12`.
- SetYear: stated without the two-digit-year mapping. Picking a year in 0..99 gives the year 1900 + y in the source. The year picker offers the shown year plus or minus five, so such a year is reached only by stepping down that far.
- Time values are unbounded integers. A `Date` whose time value would lie beyond plus or minus 8.64e15 ms is an Invalid Date in JavaScript; the model has no such limit.
- EventManager.EventStore.UpdatePartial: the failing check is returned as a value. In the source `assertValid` throws inside the `setEvents` updater, so the error surfaces while React renders, not to the caller of `updatePartial`, unlike `onEventAdd` and `onEventUpdate`, which throw to their caller.
- WeekView.DragState.MouseUp: where the pointer is released is not modelled. `onMouseUp` is attached to the grid only, so a drag released outside it stays set; the model accepts such a drag after a change of interval, and `WeekView.StaleDragCreatesNextDay` shows that the range it creates can start on the next day, so `WeekView.SlotRangeWithinDay` covers only drags whose rows are slots of the current grid.
- Time zones and daylight saving time are not modelled. Local time is a fixed offset, and every day is 86,400,000 ms long.
- Locale formatting is not modelled: `formatMonthYear`, the header label, the weekday and hour labels.
- `fromLocalInput`, the parsing of the `datetime-local` text, is not modelled. `EventModal.Form.SetStart` and `SetEnd` take the parsed time.
- Pixel geometry is not modelled. The pointer's row in the week grid is an integer input to `MouseDown` and `MouseMove`. The event blocks' top and height are not modelled either.
- WeekView.DragState.MouseDown: the `gridRef` null check is not modelled. The grid is taken to be mounted.
- The debounce of the search and category inputs is not modelled. `FilterEvents` takes the debounced values directly.
- The `search`, `category` and `intervalMinutes` state and their setters are not modelled. They are passed as parameters.
- React rendering, memoization and effects ordering are not modelled.
- The `onSave`, `onDelete` and `onClose` callbacks are not modelled. `CalendarView.ViewState.Close` models the state they reset.
- The other components are not modelled: `MonthView`, `CalendarCell`, `MobileListView`, `VirtualList`, `App` and the primitives. They only render.
- `JsCore.ToLower` lower-cases ASCII letters only. Full Unicode case mapping is not modelled.
- `null` values are not modelled. Fields are absent, `undefined` or set.
- EventModal.ToLocalInputLayout: stated for four-digit years only. An Invalid Date renders `NaN` in every field (`EventModal.InputText`). An undefined time makes `toLocalInput` throw; `EventModal.Form.Render` returns `Throws` for it. An edited event without a start or end (from `CalendarView.ModalInitial`, or an unvalidated initial event) reaches that case.
- EventUtils.SortEvents: the model is a stable insertion sort by start. The order `Array.prototype.sort` gives when `NaN` starts are mixed with valid ones depends on the engine and is not stated.
- EventUtils.EventsOverlap: the equivalence with a shared instant is stated for events of positive length only. For other events only the necessary conditions are stated.
- DateUtils.HoursInDay: requires a positive step. The source loop does not terminate otherwise.
- WeekView.SlotsPerDay: requires 30 or 60, the two values the prop's type allows.

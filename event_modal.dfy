/** components/Calendar/EventModal.tsx: the form behind the create/edit
    dialog: its fields, their reset when the dialog opens, the text the
    date inputs show, the save-enabled test and the payload it saves. */
module EventModal {
  import opened JsCore
  import opened JsDate
  import opened CalendarTypes
  import EventManager

  /** The swatches of the colour picker: blue, indigo, green, orange, red. */
  const Colors: seq<string> := ["#3B82F6", "#6366F1", "#10B981", "#F59E0B", "#EF4444"]

  /** The first swatch is the default colour. */
  const DefaultColor: string := Colors[0]

  // ---- date inputs ----

  /** pad: `String(n).padStart(2, '0')`. */
  function Pad(n: int): (r: string)
    ensures 0 <= n < 10 ==> r == ['0', DigitChar(n)]
    ensures 10 <= n ==> r == Digits(n)
    ensures 0 <= n < 100 ==> |r| == 2
    ensures 0 <= n ==> forall i :: 0 <= i < |r| ==> '0' <= r[i] <= '9'
  {
    PadStart2(DecimalString(n))
  }

  /** A padded field in 0..99 reads back as its value. */
  lemma PadValue(n: int)
    requires 0 <= n < 100
    ensures AllDigits(Pad(n)) && DigitsValue(Pad(n)) == n
  {
    if n < 10 {
      assert Pad(n)[..1] == ['0'];
      assert DigitsValue(['0']) == 0;
    } else {
      DigitsRoundTrip(n);
    }
  }

  /** toLocalInput: `yyyy-MM-ddTHH:mm` on the local clock, the month
      counted from 1. */
  function ToLocalInput(t: int): string {
    DecimalString(YearOf(t)) + "-" + Pad(MonthOf(t) + 1) + "-" + Pad(DateOf(t))
      + "T" + Pad(Hours(t)) + ":" + Pad(Minutes(t))
  }

  /** For a four-digit year the text is sixteen characters: the four year
      digits and the two-digit month, date, hours and minutes, with `-`,
      `-`, `T` and `:` between them. */
  lemma ToLocalInputLayout(t: int)
    requires 1000 <= YearOf(t) <= 9999
    ensures var s := ToLocalInput(t);
      |s| == 16 && s[4] == '-' && s[7] == '-' && s[10] == 'T' && s[13] == ':'
      && s[..4] == Digits(YearOf(t)) && s[5..7] == Pad(MonthOf(t) + 1) && s[8..10] == Pad(DateOf(t))
      && s[11..13] == Pad(Hours(t)) && s[14..] == Pad(Minutes(t))
  {
    Layout(Digits(YearOf(t)), Pad(MonthOf(t) + 1), Pad(DateOf(t)), Pad(Hours(t)), Pad(Minutes(t)));
  }

  /** Where the pieces of `y-mo-dTh:mi` sit. */
  lemma Layout(y: string, mo: string, d: string, h: string, mi: string)
    requires |y| == 4 && |mo| == 2 && |d| == 2 && |h| == 2 && |mi| == 2
    ensures var s := y + "-" + mo + "-" + d + "T" + h + ":" + mi;
      |s| == 16 && s[4] == '-' && s[7] == '-' && s[10] == 'T' && s[13] == ':'
      && s[..4] == y && s[5..7] == mo && s[8..10] == d && s[11..13] == h && s[14..] == mi
  {
  }

  /** Each field of the text reads back as the date's own year, 1-based
      month, date, hours and minutes. */
  lemma ToLocalInputReadsBack(t: int)
    requires 1000 <= YearOf(t) <= 9999
    ensures var s := ToLocalInput(t);
      |s| == 16
      && AllDigits(s[..4]) && DigitsValue(s[..4]) == YearOf(t)
      && AllDigits(s[5..7]) && DigitsValue(s[5..7]) == MonthOf(t) + 1 && 1 <= MonthOf(t) + 1 <= 12
      && AllDigits(s[8..10]) && DigitsValue(s[8..10]) == DateOf(t)
      && AllDigits(s[11..13]) && DigitsValue(s[11..13]) == Hours(t)
      && AllDigits(s[14..]) && DigitsValue(s[14..]) == Minutes(t)
  {
    FieldsReadBack(YearOf(t), MonthOf(t) + 1, DateOf(t), Hours(t), Minutes(t));
  }

  /** The text made of a four-digit year and four fields in 0..99 reads
      back field by field. */
  lemma FieldsReadBack(year: int, month: int, date: int, hours: int, minutes: int)
    requires 1000 <= year <= 9999
    requires 0 <= month < 100 && 0 <= date < 100 && 0 <= hours < 100 && 0 <= minutes < 100
    ensures var s := DecimalString(year) + "-" + Pad(month) + "-" + Pad(date)
      + "T" + Pad(hours) + ":" + Pad(minutes);
      |s| == 16
      && AllDigits(s[..4]) && DigitsValue(s[..4]) == year
      && AllDigits(s[5..7]) && DigitsValue(s[5..7]) == month
      && AllDigits(s[8..10]) && DigitsValue(s[8..10]) == date
      && AllDigits(s[11..13]) && DigitsValue(s[11..13]) == hours
      && AllDigits(s[14..]) && DigitsValue(s[14..]) == minutes
  {
    var s := DecimalString(year) + "-" + Pad(month) + "-" + Pad(date)
      + "T" + Pad(hours) + ":" + Pad(minutes);
    assert |s| == 16 && s[..4] == Digits(year) && s[5..7] == Pad(month) && s[8..10] == Pad(date)
      && s[11..13] == Pad(hours) && s[14..] == Pad(minutes) by {
      Layout(Digits(year), Pad(month), Pad(date), Pad(hours), Pad(minutes));
    }
    DigitsRoundTrip(year);
    assert AllDigits(Digits(year));
    PadValue(month);
    PadValue(date);
    PadValue(hours);
    PadValue(minutes);
  }

  // ---- saving ----

  /** disabled: the save button is off when the trimmed title is empty,
      either time is missing, or the end is before the start (a Date object
      is truthy even when invalid, and a comparison with an Invalid Date is
      false). */
  predicate Disabled(title: string, start: Option<Stamp>, end: Option<Stamp>) {
    Trim(title) == [] || start.None? || end.None? || Lt(end.value, start.value)
  }

  /** save: the payload handed to onSave. The id of the initial event is
      kept, else `freshId` stands for crypto.randomUUID(); title and
      description are trimmed; an empty category becomes `undefined`. */
  function SavePayload(initialId: Field<string>, freshId: string, title: string, description: string,
                       start: Option<Stamp>, end: Option<Stamp>, color: string, category: string): (p: Event)
    ensures p.id == Val(if initialId.Val? then initialId.value else freshId)
    ensures p.title == Val(Trim(title)) && p.description == Val(Trim(description))
    ensures GetStart(p) == start && GetEnd(p) == end
    ensures p.color == Val(color)
    ensures category == [] ==> p.category == Undefined
    ensures category != [] ==> p.category == Val(category)
  {
    Event(
      id := Val(OrElse(initialId, freshId)),
      title := Val(Trim(title)),
      start := Absent, end := Absent,
      startDate := FromOption(start), endDate := FromOption(end),
      description := Val(Trim(description)),
      color := Val(color),
      category := if category == "" then Undefined else Val(category))
  }

  /** The store accepts a saved payload exactly when the form was enabled,
      both times are valid and differ, and the trimmed texts are within the
      store's limits. In particular an end equal to the start is enabled
      here but rejected by the store. */
  lemma SaveAcceptedByStore(initialId: Field<string>, freshId: string, title: string, description: string,
                            start: Option<Stamp>, end: Option<Stamp>, color: string, category: string)
    ensures var p := SavePayload(initialId, freshId, title, description, start, end, color, category);
      EventManager.AssertValid(p).Pass? <==>
        !Disabled(title, start, end) && start.value.At? && end.value.At? && start.value != end.value
        && JsLength(Trim(title)) <= EventManager.MaxTitleLength
        && JsLength(Trim(description)) <= EventManager.MaxDescriptionLength
  {
    var p := SavePayload(initialId, freshId, title, description, start, end, color, category);
    assert EventManager.TrimmedTitle(p) == Trim(title) by {
      TrimIdempotent(title);
    }
    PayloadAccepted(p, title, description, start, end);
  }

  lemma PayloadAccepted(p: Event, title: string, description: string, start: Option<Stamp>, end: Option<Stamp>)
    requires EventManager.TrimmedTitle(p) == Trim(title) && p.description == Val(Trim(description))
    requires GetStart(p) == start && GetEnd(p) == end
    ensures EventManager.AssertValid(p).Pass? <==>
      !Disabled(title, start, end) && start.value.At? && end.value.At? && start.value != end.value
      && JsLength(Trim(title)) <= EventManager.MaxTitleLength
      && JsLength(Trim(description)) <= EventManager.MaxDescriptionLength
  {
    StoreTest(p, Trim(title), Trim(description), start, end);
    TimesAccepted(start, end);
  }

  /** assertValid on a payload whose title is already trimmed. */
  lemma StoreTest(p: Event, tt: string, dd: string, start: Option<Stamp>, end: Option<Stamp>)
    requires EventManager.TrimmedTitle(p) == tt && p.description == Val(dd)
    requires GetStart(p) == start && GetEnd(p) == end
    ensures EventManager.AssertValid(p).Pass? <==>
      tt != [] && JsLength(tt) <= EventManager.MaxTitleLength
      && JsLength(dd) <= EventManager.MaxDescriptionLength && Lt(StampOf(start), StampOf(end))
  {
    EventManager.AssertValidPassesValidEvents(p);
  }

  /** The store's time test against the form's. */
  lemma TimesAccepted(start: Option<Stamp>, end: Option<Stamp>)
    ensures Lt(StampOf(start), StampOf(end)) <==>
      start.Some? && end.Some? && !Lt(end.value, start.value)
      && start.value.At? && end.value.At? && start.value != end.value
  {
  }

  /** Concretely: a non-empty title with equal start and end saves, and the
      store throws "End must be after start". */
  lemma EqualTimesEnabledButRejected(title: string, t: int)
    requires Trim(title) != [] && JsLength(Trim(title)) <= EventManager.MaxTitleLength
    ensures !Disabled(title, Some(At(t)), Some(At(t)))
    ensures EventManager.AssertValid(SavePayload(Absent, "id", title, "", Some(At(t)), Some(At(t)), DefaultColor, ""))
      == EventManager.Fail(EventManager.EndNotAfterStart)
  {
    var p := SavePayload(Absent, "id", title, "", Some(At(t)), Some(At(t)), DefaultColor, "");
    assert p.description == Val([]) by {
      assert Trim("") == [];
    }
    EqualTimesRejected(p, title, t);
  }

  lemma EqualTimesRejected(p: Event, title: string, t: int)
    requires Trim(title) != [] && JsLength(Trim(title)) <= EventManager.MaxTitleLength
    requires p.title == Val(Trim(title)) && p.description == Val([])
    requires GetStart(p) == Some(At(t)) && GetEnd(p) == Some(At(t))
    ensures EventManager.AssertValid(p) == EventManager.Fail(EventManager.EndNotAfterStart)
  {
    assert EventManager.TrimmedTitle(p) == Trim(title) by {
      TrimIdempotent(title);
    }
    assert EventManager.Violates(p, EventManager.EndNotAfterStart);
    assert forall err: EventManager.ValidationError :: err != EventManager.EndNotAfterStart ==> !EventManager.Violates(p, err);
  }

  // ---- the form ----

  /** The text of a time input: toLocalInput of a valid time; every field
      of an Invalid Date renders as `NaN`. */
  function InputText(s: Stamp): string {
    if s.At? then ToLocalInput(s.ms) else "NaN-NaN-NaNTNaN:NaN"
  }

  /** What the dialog renders: nothing while closed; a render that throws
      when a time is `undefined` (toLocalInput reads its year); else the two
      time inputs' text. */
  datatype Rendered = Hidden | Throws | Shown(startText: string, endText: string)

  /** The form state. A time is None while it is `undefined` (an initial
      event without one); rendering the open dialog then throws. */
  class Form {
    var title: string
    var description: string
    var start: Option<Stamp>
    var end: Option<Stamp>
    var color: string
    var category: string

    /** The render of the dialog with these fields. */
    function Render(open: bool): (r: Rendered)
      reads this
      ensures r.Hidden? <==> !open
      ensures r.Throws? <==> open && (start.None? || end.None?)
      ensures r.Shown? ==> r.startText == InputText(start.value) && r.endText == InputText(end.value)
    {
      if !open then Hidden
      else if start.None? || end.None? then Throws
      else Shown(InputText(start.value), InputText(end.value))
    }

    /** The fields as they are filled from `initial`. */
    predicate FilledFrom(initial: Event) reads this {
      title == OrElse(initial.title, "") && description == OrElse(initial.description, "")
      && start == initial.startDate.Get() && end == initial.endDate.Get()
      && color == OrElse(initial.color, DefaultColor) && category == OrElse(initial.category, "")
    }

    /** Opening the dialog on an initial event throws exactly when its
        `startDate` or `endDate` is undefined. */
    lemma OpenThrowsWithoutTime(initial: Event)
      requires FilledFrom(initial)
      ensures Render(true).Throws? <==> initial.startDate.Get().None? || initial.endDate.Get().None?
    {
    }

    constructor (initial: Event)
      ensures FilledFrom(initial)
    {
      title := OrElse(initial.title, "");
      description := OrElse(initial.description, "");
      start := initial.startDate.Get();
      end := initial.endDate.Get();
      color := OrElse(initial.color, DefaultColor);
      category := OrElse(initial.category, "");
    }

    /** The reset effect: when the dialog is open every field is refilled
        from `initial`; when it is closed nothing changes. */
    method OnOpen(open: bool, initial: Event)
      modifies this
      ensures open ==> FilledFrom(initial)
      ensures !open ==>
        (title == old(title) && description == old(description) && start == old(start)
         && end == old(end) && color == old(color) && category == old(category))
    {
      if !open {
        return;
      }
      title := OrElse(initial.title, "");
      description := OrElse(initial.description, "");
      start := initial.startDate.Get();
      end := initial.endDate.Get();
      color := OrElse(initial.color, DefaultColor);
      category := OrElse(initial.category, "");
    }

    /** The title input. */
    method SetTitle(s: string)
      modifies this
      ensures title == s
      ensures description == old(description) && start == old(start) && end == old(end)
      ensures color == old(color) && category == old(category)
    {
      title := s;
    }

    /** The description input. */
    method SetDescription(s: string)
      modifies this
      ensures description == s
      ensures title == old(title) && start == old(start) && end == old(end)
      ensures color == old(color) && category == old(category)
    {
      description := s;
    }

    /** The start input, with the parsed time as `t` (the parse falls back to
        the current time, so the field always holds a Date afterwards). */
    method SetStart(t: int)
      modifies this
      ensures start == Some(At(t))
      ensures title == old(title) && description == old(description) && end == old(end)
      ensures color == old(color) && category == old(category)
    {
      start := Some(At(t));
    }

    /** The end input, likewise. */
    method SetEnd(t: int)
      modifies this
      ensures end == Some(At(t))
      ensures title == old(title) && description == old(description) && start == old(start)
      ensures color == old(color) && category == old(category)
    {
      end := Some(At(t));
    }

    /** The colour swatches. */
    method SetColor(c: string)
      modifies this
      ensures color == c
      ensures title == old(title) && description == old(description) && start == old(start)
      ensures end == old(end) && category == old(category)
    {
      color := c;
    }

    /** The category select (`""` is "None"). */
    method SetCategory(c: string)
      modifies this
      ensures category == c
      ensures title == old(title) && description == old(description) && start == old(start)
      ensures end == old(end) && color == old(color)
    {
      category := c;
    }

    /** Whether the save button is off. */
    predicate IsDisabled() reads this {
      Disabled(title, start, end)
    }

    /** save: builds the payload from the current fields. */
    method Save(initial: Event, freshId: string) returns (p: Event)
      ensures p == SavePayload(initial.id, freshId, title, description, start, end, color, category)
    {
      p := SavePayload(initial.id, freshId, title, description, start, end, color, category);
    }
  }
}

/** The event store of hooks/useEventManager.ts: normalisation to one
    canonical shape, validation, and the add / update / delete / partial
    update operations on the in-memory list. */
module EventManager {
  import opened JsCore
  import opened Seqs
  import opened CalendarTypes

  // ---------------------------------------------------------------------
  // Canonical shape
  // ---------------------------------------------------------------------

  /** The shape the store keeps: times only under `startDate`/`endDate`
      (set, possibly to `undefined`), and `start`/`end` explicitly cleared. */
  predicate IsCanonical(e: Event) {
    e.start == Undefined && e.end == Undefined && !e.startDate.Absent? && !e.endDate.Absent?
  }

  /** toCanonical: moves the times to `startDate`/`endDate`, taking `start`
      in preference to `startDate` (and `end` to `endDate`), and keeps every
      other property. */
  function ToCanonical(e: Event): (c: Event)
    ensures IsCanonical(c)
    ensures GetStart(c) == GetStart(e) && GetEnd(c) == GetEnd(e)
    ensures e.start.Val? ==> c.startDate == e.start
    ensures !e.start.Val? ==> c.startDate.Get() == e.startDate.Get()
    ensures e.end.Val? ==> c.endDate == e.end
    ensures !e.end.Val? ==> c.endDate.Get() == e.endDate.Get()
    ensures c.id == e.id && c.title == e.title && c.description == e.description
    ensures c.color == e.color && c.category == e.category
  {
    // `d ? new Date(d) : undefined`: every Date object is truthy, an
    // Invalid Date included
    e.(startDate := FromOption(GetStart(e)), endDate := FromOption(GetEnd(e)),
       start := Undefined, end := Undefined)
  }

  /** Normalising an already canonical event changes nothing, so normalising
      twice is normalising once. */
  lemma ToCanonicalIdempotent(e: Event)
    ensures IsCanonical(e) ==> ToCanonical(e) == e
    ensures ToCanonical(ToCanonical(e)) == ToCanonical(e)
  {
    var c := ToCanonical(e);
    assert GetStart(c) == c.startDate.Get();
    assert GetEnd(c) == c.endDate.Get();
  }

  // ---------------------------------------------------------------------
  // Validation
  // ---------------------------------------------------------------------

  const MaxTitleLength := 100
  const MaxDescriptionLength := 500

  /** The errors assertValid throws. */
  datatype ValidationError =
    | TitleRequired
    | TitleTooLong
    | DescriptionTooLong
    | InvalidStart
    | InvalidEnd
    | EndNotAfterStart
  {
    function Message(): string {
      match this
      case TitleRequired => "Title is required"
      case TitleTooLong => "Title too long (max 100)"
      case DescriptionTooLong => "Description too long (max 500)"
      case InvalidStart => "Invalid start date"
      case InvalidEnd => "Invalid end date"
      case EndNotAfterStart => "End must be after start"
    }

    /** The position of the check that throws this error. */
    function Rank(): nat {
      match this
      case TitleRequired => 0
      case TitleTooLong => 1
      case DescriptionTooLong => 2
      case InvalidStart => 3
      case InvalidEnd => 4
      case EndNotAfterStart => 5
    }
  }

  /** `(e.title ?? '').trim()` */
  function TrimmedTitle(e: Event): string {
    Trim(OrElse(e.title, ""))
  }

  /** What each error says is wrong with `e`, independently of the order in
      which assertValid looks. */
  predicate Violates(e: Event, err: ValidationError) {
    match err
    case TitleRequired => TrimmedTitle(e) == []
    case TitleTooLong => JsLength(TrimmedTitle(e)) > MaxTitleLength
    case DescriptionTooLong => e.description.Val? && JsLength(e.description.value) > MaxDescriptionLength
    case InvalidStart => !StampOf(GetStart(e)).At?
    case InvalidEnd => !StampOf(GetEnd(e)).At?
    case EndNotAfterStart => Le(StampOf(GetEnd(e)), StampOf(GetStart(e)))
  }

  /** No check at a position below `k` applies to `e`. */
  predicate PassesBefore(e: Event, k: nat) {
    (k > 0 ==> !Violates(e, TitleRequired))
    && (k > 1 ==> !Violates(e, TitleTooLong))
    && (k > 2 ==> !Violates(e, DescriptionTooLong))
    && (k > 3 ==> !Violates(e, InvalidStart))
    && (k > 4 ==> !Violates(e, InvalidEnd))
    && (k > 5 ==> !Violates(e, EndNotAfterStart))
  }

  /** PassesBefore names every error of lower rank. */
  lemma PassesBeforeRank(e: Event, k: nat)
    ensures PassesBefore(e, k) <==> forall err: ValidationError :: err.Rank() < k ==> !Violates(e, err)
  {
    if PassesBefore(e, k) {
      forall err: ValidationError | err.Rank() < k ensures !Violates(e, err) {
        match err
        case TitleRequired =>
        case TitleTooLong =>
        case DescriptionTooLong =>
        case InvalidStart =>
        case InvalidEnd =>
        case EndNotAfterStart =>
      }
    }
  }

  /** Passing every check is violating no error. */
  lemma PassesAll(e: Event)
    requires PassesBefore(e, 6)
    ensures forall err :: !Violates(e, err)
  {
    forall err: ValidationError ensures !Violates(e, err) {
      match err
      case TitleRequired =>
      case TitleTooLong =>
      case DescriptionTooLong =>
      case InvalidStart =>
      case InvalidEnd =>
      case EndNotAfterStart =>
    }
  }

  /** The outcome of assertValid: it returns, or it throws one error. */
  datatype Verdict = Pass | Fail(error: ValidationError)

  /** assertValid: passes exactly when no error applies, and otherwise throws
      the first error in check order. */
  function AssertValid(e: Event): (v: Verdict)
    ensures v.Pass? <==> forall err :: !Violates(e, err)
    ensures v.Fail? ==> Violates(e, v.error)
    ensures v.Fail? ==> forall err: ValidationError :: err.Rank() < v.error.Rank() ==> !Violates(e, err)
  {
    var title := TrimmedTitle(e);
    var s := StampOf(GetStart(e));
    var en := StampOf(GetEnd(e));
    if title == [] then assert Violates(e, TitleRequired); PassesBeforeRank(e, 0); Fail(TitleRequired)
    else
      assert !Violates(e, TitleRequired);
      if JsLength(title) > MaxTitleLength then assert Violates(e, TitleTooLong); PassesBeforeRank(e, 1); Fail(TitleTooLong)
      else
        assert !Violates(e, TitleTooLong);
        if e.description.Val? && e.description.value != [] && JsLength(e.description.value) > MaxDescriptionLength then assert Violates(e, DescriptionTooLong); PassesBeforeRank(e, 2); Fail(DescriptionTooLong)
        else
          assert !Violates(e, DescriptionTooLong);
          if !s.At? then assert Violates(e, InvalidStart); PassesBeforeRank(e, 3); Fail(InvalidStart)
          else
            assert !Violates(e, InvalidStart);
            if !en.At? then assert Violates(e, InvalidEnd); PassesBeforeRank(e, 4); Fail(InvalidEnd)
            else
              assert !Violates(e, InvalidEnd);
              if en.ms <= s.ms then assert Violates(e, EndNotAfterStart); PassesBeforeRank(e, 5); Fail(EndNotAfterStart)
              else
                assert !Violates(e, EndNotAfterStart);
                PassesAll(e);
                Pass
  }

  /** A well-formed event, stated field by field. */
  predicate IsValidEvent(e: Event) {
    var s := StampOf(GetStart(e));
    var en := StampOf(GetEnd(e));
    1 <= |TrimmedTitle(e)| && JsLength(TrimmedTitle(e)) <= MaxTitleLength
    && (e.description.Val? ==> JsLength(e.description.value) <= MaxDescriptionLength)
    && Lt(s, en)
  }

  lemma AssertValidPassesValidEvents(e: Event)
    ensures AssertValid(e).Pass? <==> IsValidEvent(e)
  {
    if AssertValid(e).Pass? {
      assert !Violates(e, TitleRequired) && !Violates(e, TitleTooLong);
      assert !Violates(e, DescriptionTooLong) && !Violates(e, InvalidStart);
      assert !Violates(e, InvalidEnd) && !Violates(e, EndNotAfterStart);
    }
  }

  /** Validation looks only at the times, not at which keys hold them, so
      normalising neither makes an event valid nor invalid. */
  lemma ValidationIgnoresShape(e: Event)
    ensures AssertValid(ToCanonical(e)) == AssertValid(e)
  {
  }

  // ---------------------------------------------------------------------
  // Operations on the list
  // ---------------------------------------------------------------------

  /** The payload onEventAdd stores: the event with `id ?? freshId`,
      normalised. */
  function AddPayload(e: Event, freshId: string): (p: Event)
    ensures IsCanonical(p) && p.id == Val(OrElse(e.id, freshId))
    ensures GetStart(p) == GetStart(e) && GetEnd(p) == GetEnd(e)
    ensures p.title == e.title && p.description == e.description
    ensures p.color == e.color && p.category == e.category
  {
    ToCanonical(e.(id := Val(OrElse(e.id, freshId))))
  }

  /** The payload onEventUpdate merges in: `{...next, id}`, normalised. */
  function UpdatePayload(id: string, next: Event): (p: Event)
    ensures IsCanonical(p) && HasId(p, id)
    ensures GetStart(p) == GetStart(next) && GetEnd(p) == GetEnd(next)
    ensures p.title == next.title && p.description == next.description
    ensures p.color == next.color && p.category == next.category
  {
    ToCanonical(next.(id := Val(id)))
  }

  /** `prev.map(ev => ev.id === id ? {...ev, ...payload} : ev)` */
  function ReplaceById(events: seq<Event>, id: string, payload: Event): seq<Event> {
    seq(|events|, i requires 0 <= i < |events| =>
      if HasId(events[i], id) then Spread(events[i], payload) else events[i])
  }

  /** What an update does to each stored event: one with another id is left
      alone; one with this id takes every key of the canonical payload, so its
      times are exactly the payload's, and keeps its own value only for a key
      the payload lacks. */
  lemma ReplaceByIdEffect(events: seq<Event>, id: string, payload: Event, i: int)
    requires IsCanonical(payload) && HasId(payload, id)
    requires 0 <= i < |events|
    ensures |ReplaceById(events, id, payload)| == |events|
    ensures !HasId(events[i], id) ==> ReplaceById(events, id, payload)[i] == events[i]
    ensures HasId(events[i], id) ==>
      var m := ReplaceById(events, id, payload)[i];
      IsCanonical(m) && HasId(m, id) && m.title == events[i].title.Over(payload.title)
      && GetStart(m) == GetStart(payload) && GetEnd(m) == GetEnd(payload)
      && m.description == events[i].description.Over(payload.description)
      && m.color == events[i].color.Over(payload.color)
      && m.category == events[i].category.Over(payload.category)
  {
  }

  /** Updating an id no stored event has is a no-op. */
  lemma ReplaceMissingIdIsNoOp(events: seq<Event>, id: string, payload: Event)
    requires forall i :: 0 <= i < |events| ==> !HasId(events[i], id)
    ensures ReplaceById(events, id, payload) == events
  {
  }

  /** Merging a payload that passed validation into a stored event that is
      valid and canonical keeps it valid and canonical. */
  lemma MergeKeepsValid(ev: Event, payload: Event)
    requires IsCanonical(ev) && AssertValid(ev).Pass?
    requires IsCanonical(payload) && AssertValid(payload).Pass?
    ensures IsCanonical(Spread(ev, payload)) && AssertValid(Spread(ev, payload)).Pass?
  {
    var m := Spread(ev, payload);
    AssertValidPassesValidEvents(ev);
    AssertValidPassesValidEvents(payload);
    assert GetStart(m) == GetStart(payload) && GetEnd(m) == GetEnd(payload);
    assert m.title == payload.title;
    AssertValidPassesValidEvents(m);
  }

  /** `prev.filter(e => e.id !== id)` */
  function RemoveById(events: seq<Event>, id: string): (r: seq<Event>)
    ensures IsSubseq(r, events)
    ensures forall e :: e in r <==> e in events && !HasId(e, id)
    ensures forall e :: multiset(r)[e] == if HasId(e, id) then 0 else multiset(events)[e]
  {
    var r := Filter((e: Event) => !HasId(e, id), events);
    forall e ensures e in r <==> e in events && !HasId(e, id) {
      FilterMembership((e: Event) => !HasId(e, id), events, e);
    }
    r
  }

  /** Deleting an id no stored event has is a no-op, and deleting twice is
      deleting once. */
  lemma RemoveByIdNoOp(events: seq<Event>, id: string)
    ensures (forall i :: 0 <= i < |events| ==> !HasId(events[i], id)) ==> RemoveById(events, id) == events
    ensures RemoveById(RemoveById(events, id), id) == RemoveById(events, id)
  {
    var p := (e: Event) => !HasId(e, id);
    if forall i :: 0 <= i < |events| ==> !HasId(events[i], id) {
      FilterKeepsAll(p, events);
    }
    var r := RemoveById(events, id);
    forall i | 0 <= i < |r| ensures p(r[i]) {
      assert r[i] in r;
    }
    FilterKeepsAll(p, r);
  }

  /** `{id}`: an object holding only the id. */
  function IdOnly(id: string): Event {
    NoFields.(id := Val(id))
  }

  /** The event updatePartial computes for a stored event with the id:
      `toCanonical({...ev, ...updates, id})`. */
  function MergePartial(ev: Event, updates: Event, id: string): (m: Event)
    ensures IsCanonical(m) && HasId(m, id)
  {
    ToCanonical(Spread(Spread(ev, updates), IdOnly(id)))
  }

  /** The merge of `ev` passes validation, or `ev` does not have the id. */
  predicate MergePasses(ev: Event, updates: Event, id: string) {
    HasId(ev, id) ==> AssertValid(MergePartial(ev, updates, id)).Pass?
  }

  /** The event at index `i` has the id and its merge is the first one, from
      the left, that fails validation. */
  predicate FirstRejected(events: seq<Event>, id: string, updates: Event, i: int) {
    0 <= i < |events| && !MergePasses(events[i], updates, id)
    && forall j :: 0 <= j < i ==> MergePasses(events[j], updates, id)
  }

  /** updatePartial's list: every event with the id replaced by its validated
      merge, the others left alone; it fails when one of those merges does
      (which one is stated by PartialUpdateError). */
  function PartialUpdate(events: seq<Event>, id: string, updates: Event): (r: Result<seq<Event>, ValidationError>)
    ensures r.Ok? ==> |r.value| == |events|
    ensures r.Ok? ==> forall i :: 0 <= i < |events| ==>
      r.value[i] == if HasId(events[i], id) then MergePartial(events[i], updates, id) else events[i]
  {
    if events == [] then Ok([])
    else
      var ev := events[0];
      var head := if HasId(ev, id) then MergePartial(ev, updates, id) else ev;
      var verdict := if HasId(ev, id) then AssertValid(head) else Pass;
      if verdict.Fail? then Err(verdict.error)
      else
        match PartialUpdate(events[1..], id, updates)
        case Ok(rest) => Ok([head] + rest)
        case Err(err) => Err(err)
  }

  /** updatePartial succeeds exactly when every merge passes validation, and
      otherwise throws the error of the first merge, from the left, that
      fails. */
  lemma {:induction false} PartialUpdateError(events: seq<Event>, id: string, updates: Event)
    ensures PartialUpdate(events, id, updates).Ok? <==>
      forall i :: 0 <= i < |events| ==> MergePasses(events[i], updates, id)
    ensures PartialUpdate(events, id, updates).Err? ==>
      exists i :: (FirstRejected(events, id, updates, i)
                   && AssertValid(MergePartial(events[i], updates, id)) == Fail(PartialUpdate(events, id, updates).error))
  {
    if events != [] {
      var tail := events[1..];
      PartialUpdateError(tail, id, updates);
      if !MergePasses(events[0], updates, id) {
        assert FirstRejected(events, id, updates, 0);
      } else if PartialUpdate(tail, id, updates).Err? {
        var i :| FirstRejected(tail, id, updates, i)
          && AssertValid(MergePartial(tail[i], updates, id)) == Fail(PartialUpdate(tail, id, updates).error);
        assert events[i + 1] == tail[i];
        forall j | 0 <= j < i + 1 ensures MergePasses(events[j], updates, id) {
          if j > 0 {
            assert events[j] == tail[j - 1];
          }
        }
        assert FirstRejected(events, id, updates, i + 1);
      } else {
        forall j | 0 <= j < |events| ensures MergePasses(events[j], updates, id) {
          if j > 0 {
            assert events[j] == tail[j - 1];
          }
        }
      }
    }
  }

  /** A successful partial update keeps the list canonical, and keeps it
      valid when it was. */
  lemma PartialUpdateKeepsStore(events: seq<Event>, id: string, updates: Event)
    requires PartialUpdate(events, id, updates).Ok?
    ensures (forall i :: 0 <= i < |events| ==> IsCanonical(events[i])) ==>
      var r := PartialUpdate(events, id, updates).value;
      forall i :: 0 <= i < |r| ==> IsCanonical(r[i])
    ensures AllValid(events) ==> AllValid(PartialUpdate(events, id, updates).value)
  {
    PartialUpdateError(events, id, updates);
  }

  // ---------------------------------------------------------------------
  // The store
  // ---------------------------------------------------------------------

  /** Every stored event passes assertValid. */
  ghost predicate AllValid(events: seq<Event>) {
    forall i :: 0 <= i < |events| ==> AssertValid(events[i]).Pass?
  }

  /** The state of useEventManager: the current list of events. */
  class EventStore {
    var events: seq<Event>

    /** Everything the store holds is in the canonical shape. */
    ghost predicate Valid()
      reads this
    {
      forall i :: 0 <= i < |events| ==> IsCanonical(events[i])
    }

    /** Boot without a storage key: `initial.map(toCanonical)`. The initial
        events are normalised but not validated. */
    constructor (initial: seq<Event>)
      ensures Valid()
      ensures |events| == |initial|
      ensures forall i :: 0 <= i < |initial| ==> events[i] == ToCanonical(initial[i])
    {
      events := seq(|initial|, i requires 0 <= i < |initial| => ToCanonical(initial[i]));
    }

    /** onEventAdd: validates the normalised payload and appends it, or
        throws and leaves the list as it was. */
    method Add(e: Event, freshId: string) returns (v: Verdict)
      requires Valid()
      modifies this
      ensures Valid()
      ensures v == AssertValid(AddPayload(e, freshId))
      ensures v.Pass? ==> events == old(events) + [AddPayload(e, freshId)]
      ensures v.Fail? ==> events == old(events)
      ensures AllValid(old(events)) ==> AllValid(events)
    {
      var payload := AddPayload(e, freshId);
      v := AssertValid(payload);
      if v.Pass? {
        events := events + [payload];
      }
    }

    /** onEventUpdate: validates the normalised payload and merges it into
        every stored event with the id, or throws and changes nothing. */
    method Update(id: string, next: Event) returns (v: Verdict)
      requires Valid()
      modifies this
      ensures Valid()
      ensures v == AssertValid(UpdatePayload(id, next))
      ensures v.Pass? ==> events == ReplaceById(old(events), id, UpdatePayload(id, next))
      ensures v.Fail? ==> events == old(events)
      ensures AllValid(old(events)) ==> AllValid(events)
    {
      var payload := UpdatePayload(id, next);
      v := AssertValid(payload);
      if v.Pass? {
        forall i | 0 <= i < |events| && HasId(events[i], id)
          ensures IsCanonical(Spread(events[i], payload))
          ensures AssertValid(events[i]).Pass? ==> AssertValid(Spread(events[i], payload)).Pass?
        {
          if AssertValid(events[i]).Pass? {
            MergeKeepsValid(events[i], payload);
          }
        }
        events := ReplaceById(events, id, payload);
      }
    }

    /** onEventDelete: drops every stored event with the id. */
    method Delete(id: string)
      requires Valid()
      modifies this
      ensures Valid()
      ensures events == RemoveById(old(events), id)
      ensures AllValid(old(events)) ==> AllValid(events)
    {
      var r := RemoveById(events, id);
      forall i | 0 <= i < |r|
        ensures IsCanonical(r[i])
        ensures AllValid(events) ==> AssertValid(r[i]).Pass?
      {
        assert r[i] in r;
        var k :| 0 <= k < |events| && events[k] == r[i];
      }
      events := r;
    }

    /** updatePartial: every stored event with the id becomes its validated
        merge with `updates`; if one merge fails validation the error is
        returned and no event changes. */
    method UpdatePartial(id: string, updates: Event) returns (err: Option<ValidationError>)
      requires Valid()
      modifies this
      ensures Valid()
      ensures PartialUpdate(old(events), id, updates).Ok? ==>
        err == None && events == PartialUpdate(old(events), id, updates).value
      ensures PartialUpdate(old(events), id, updates).Err? ==>
        err == Some(PartialUpdate(old(events), id, updates).error) && events == old(events)
      ensures AllValid(old(events)) ==> AllValid(events)
    {
      match PartialUpdate(events, id, updates)
      case Ok(next) =>
        PartialUpdateKeepsStore(events, id, updates);
        events := next;
        err := None;
      case Err(e) =>
        err := Some(e);
    }
  }
}

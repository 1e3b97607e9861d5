/** components/Calendar/Sidebar.tsx: the per-category statistics, a Map
    from category to count filled by one pass over the events. */
module Sidebar {
  import opened JsCore
  import opened CalendarTypes
  import CalendarView

  // ---- an insertion-ordered Map<string, number> ----

  /** A Map as its entries in insertion order. */
  type Entries = seq<(string, int)>

  /** `map.get(k)`. */
  function Get(m: Entries, k: string): Option<int> {
    if m == [] then None else if m[0].0 == k then Some(m[0].1) else Get(m[1..], k)
  }

  /** `map.set(k, v)`: a present key keeps its place and takes the new value,
      a new key goes at the end. */
  function Set(m: Entries, k: string, v: int): Entries {
    if m == [] then [(k, v)]
    else if m[0].0 == k then [(k, v)] + m[1..]
    else [m[0]] + Set(m[1..], k, v)
  }

  /** `[...map.keys()]`. */
  function Keys(m: Entries): seq<string> {
    if m == [] then [] else [m[0].0] + Keys(m[1..])
  }

  /** The sum of the values. */
  function Total(m: Entries): int {
    if m == [] then 0 else m[0].1 + Total(m[1..])
  }

  lemma {:induction false} GetIsIn(m: Entries, k: string)
    ensures Get(m, k).Some? <==> k in Keys(m)
  {
    if m != [] {
      GetIsIn(m[1..], k);
    }
  }

  /** After a set, the key reads back as the value and every other key as
      before. */
  lemma {:induction false} GetSet(m: Entries, k: string, v: int, j: string)
    ensures Get(Set(m, k, v), j) == if j == k then Some(v) else Get(m, j)
  {
    if m != [] && m[0].0 != k {
      GetSet(m[1..], k, v, j);
    }
  }

  /** A set keeps the key order and appends a new key. */
  lemma {:induction false} SetKeys(m: Entries, k: string, v: int)
    ensures Keys(Set(m, k, v)) == if k in Keys(m) then Keys(m) else Keys(m) + [k]
  {
    if m != [] && m[0].0 != k {
      SetKeys(m[1..], k, v);
      assert Keys(m) == [m[0].0] + Keys(m[1..]);
    }
  }

  /** A set replaces the old value (or nothing) in the total. */
  lemma {:induction false} SetTotal(m: Entries, k: string, v: int)
    ensures Total(Set(m, k, v)) == Total(m) - (if Get(m, k).Some? then Get(m, k).value else 0) + v
  {
    if m != [] && m[0].0 != k {
      SetTotal(m[1..], k, v);
    }
  }

  // ---- the tally ----

  /** `e.category ?? 'Uncategorized'`. */
  function CategoryKey(e: Event): (k: string)
    ensures e.category.Val? ==> k == e.category.value
    ensures !e.category.Val? ==> k == "Uncategorized"
  {
    OrElse(e.category, "Uncategorized")
  }

  /** The key of every event, in order. */
  function KeysOf(events: seq<Event>): (ks: seq<string>)
    ensures |ks| == |events| && forall i :: 0 <= i < |events| ==> ks[i] == CategoryKey(events[i])
  {
    seq(|events|, i requires 0 <= i < |events| => CategoryKey(events[i]))
  }

  /** The distinct elements of `s` in order of first occurrence. */
  function Dedup(s: seq<string>): seq<string> {
    if s == [] then []
    else
      var d := Dedup(s[..|s| - 1]);
      if s[|s| - 1] in d then d else d + [s[|s| - 1]]
  }

  lemma {:induction false} DedupSpec(s: seq<string>)
    ensures forall x :: x in Dedup(s) <==> x in s
    ensures forall i, j :: 0 <= i < j < |Dedup(s)| ==> Dedup(s)[i] != Dedup(s)[j]
  {
    if s != [] {
      DedupSpec(s[..|s| - 1]);
      assert s == s[..|s| - 1] + [s[|s| - 1]];
    }
  }

  /** One step of the forEach: `byCat.set(c, (byCat.get(c) ?? 0) + 1)`. */
  function Bump(m: Entries, c: string): Entries {
    Set(m, c, (if Get(m, c).Some? then Get(m, c).value else 0) + 1)
  }

  /** The Map after the forEach has seen `events`. */
  function Tally(events: seq<Event>): Entries {
    if events == [] then []
    else Bump(Tally(events[..|events| - 1]), CategoryKey(events[|events| - 1]))
  }

  /** The keys are the categories in order of first occurrence. */
  lemma {:induction false} TallyKeys(events: seq<Event>)
    ensures Keys(Tally(events)) == Dedup(KeysOf(events))
  {
    if events != [] {
      var init := events[..|events| - 1];
      var k := CategoryKey(events[|events| - 1]);
      TallyKeys(init);
      assert KeysOf(events)[..|events| - 1] == KeysOf(init);
      var g := Get(Tally(init), k);
      SetKeys(Tally(init), k, (if g.Some? then g.value else 0) + 1);
    }
  }

  /** Each key holds the number of events in that category, and a category
      no event has is not a key. */
  lemma {:induction false} TallyCounts(events: seq<Event>, k: string)
    ensures Get(Tally(events), k) == if k in KeysOf(events) then Some(multiset(KeysOf(events))[k]) else None
  {
    if events != [] {
      var init := events[..|events| - 1];
      var c := CategoryKey(events[|events| - 1]);
      TallyCounts(init, k);
      TallyCounts(init, c);
      assert KeysOf(events) == KeysOf(init) + [c];
      BumpCounts(Tally(init), KeysOf(init), c, k);
    }
  }

  /** One bump keeps every key's value equal to its number of occurrences. */
  lemma BumpCounts(m: Entries, ks: seq<string>, c: string, k: string)
    requires Get(m, k) == if k in ks then Some(multiset(ks)[k]) else None
    requires Get(m, c) == if c in ks then Some(multiset(ks)[c]) else None
    ensures Get(Bump(m, c), k) == if k in ks + [c] then Some(multiset(ks + [c])[k]) else None
  {
    var g := Get(m, c);
    var n := (if g.Some? then g.value else 0) + 1;
    GetSet(m, c, n, k);
    assert multiset(ks + [c]) == multiset(ks) + multiset{c};
    if k != c {
      assert k in ks + [c] <==> k in ks;
    }
  }

  /** Every event is counted exactly once. */
  lemma {:induction false} TallyTotal(events: seq<Event>)
    ensures Total(Tally(events)) == |events|
  {
    if events != [] {
      var init := events[..|events| - 1];
      var c := CategoryKey(events[|events| - 1]);
      TallyTotal(init);
      var g := Get(Tally(init), c);
      SetTotal(Tally(init), c, (if g.Some? then g.value else 0) + 1);
    }
  }

  /** counts: the statistics the sidebar lists, built by one pass over the
      events. */
  method CategoryCounts(events: seq<Event>) returns (counts: Entries)
    ensures counts == Tally(events)
    ensures Keys(counts) == Dedup(KeysOf(events))
    ensures forall i, j :: 0 <= i < j < |Keys(counts)| ==> Keys(counts)[i] != Keys(counts)[j]
    ensures forall k :: Get(counts, k).Some? <==> k in KeysOf(events)
    ensures forall k :: k in KeysOf(events) ==> Get(counts, k) == Some(multiset(KeysOf(events))[k])
    ensures Total(counts) == |events|
  {
    counts := [];
    var i := 0;
    while i < |events|
      invariant 0 <= i <= |events|
      invariant counts == Tally(events[..i])
    {
      var c := CategoryKey(events[i]);
      var previous := Get(counts, c);
      counts := Set(counts, c, (if previous.Some? then previous.value else 0) + 1);
      assert events[..i + 1][..i] == events[..i];
      i := i + 1;
    }
    assert events[..i] == events;
    TallyKeys(events);
    DedupSpec(KeysOf(events));
    TallyTotal(events);
    forall k ensures Get(counts, k) == if k in KeysOf(events) then Some(multiset(KeysOf(events))[k]) else None {
      TallyCounts(events, k);
    }
  }

  /** The filtered total shown under the counts never exceeds their sum. */
  lemma FilteredTotalAtMostCounts(events: seq<Event>, search: string, cat: string)
    ensures |CalendarView.FilterEvents(events, search, cat)| <= Total(Tally(events))
  {
    TallyTotal(events);
    CalendarView.FilterLengthBound(events, search, cat);
  }
}

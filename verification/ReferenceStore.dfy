/** The event log as a plain sequence, and the in-memory store that keeps one: the meaning of
  append, list and get that the other stores are measured against. */
module ReferenceStore {
  import opened Wrappers
  import opened Order
  import opened Time
  import opened Events

  type Log = seq<StoredEvent>

  datatype StoreError = Conflict | Unavailable

  ghost predicate UniqueIds(log: Log) {
    forall i, j :: 0 <= i < j < |log| ==> log[i].intent.id != log[j].intent.id
  }

  function Find(log: Log, id: string): (r: Option<StoredEvent>)
    ensures r.Some? ==> r.value in log && r.value.intent.id == id
    ensures r.None? ==> forall e :: e in log ==> e.intent.id != id
  {
    if log == [] then None
    else if log[0].intent.id == id then Some(log[0])
    else Find(log[1..], id)
  }

  /** Under distinct ids an event is found exactly by its own id. */
  lemma {:induction false} UniqueFind(log: Log, id: string)
    requires UniqueIds(log)
    ensures Find(log, id).None? <==> forall e :: e in log ==> e.intent.id != id
    ensures forall e :: e in log && e.intent.id == id ==> Find(log, id) == Some(e)
  {
    if log != [] {
      UniqueFind(log[1..], id);
      assert log == [log[0]] + log[1..];
    }
  }

  // ---- Append ----

  /** The log after an append, and what the writer is told. */
  function Append(log: Log, intent: Intent, now: DateTime): (Log, Result<StoredEvent, StoreError>) {
    match Find(log, intent.id)
    case None => (log + [StoredEvent(intent, now)], Ok(StoredEvent(intent, now)))
    case Some(stored) => (log, if stored.intent == intent then Ok(stored) else Err(Conflict))
  }

  lemma AppendKeepsLog(log: Log, intent: Intent, now: DateTime)
    requires UniqueIds(log)
    ensures UniqueIds(Append(log, intent, now).0)
    ensures log <= Append(log, intent, now).0
  {}

  lemma {:induction false} FindInGrownLog(log: Log, more: Log, id: string)
    requires Find(log, id).Some?
    ensures Find(log + more, id) == Find(log, id)
  {
    if log[0].intent.id != id {
      assert (log + more)[1..] == log[1..] + more;
      FindInGrownLog(log[1..], more, id);
    }
  }

  lemma {:induction false} FindAppended(log: Log, e: StoredEvent)
    requires Find(log, e.intent.id).None?
    ensures Find(log + [e], e.intent.id) == Some(e)
  {
    if log == [] {
      assert log + [e] == [e];
    } else {
      assert (log + [e])[1..] == log[1..] + [e];
      FindAppended(log[1..], e);
    }
  }

  // ---- Order ----

  predicate BelowEvent(less: IdOrder, a: StoredEvent, b: StoredEvent) {
    Below(less, PositionOf(a), PositionOf(b))
  }

  ghost predicate Descending(less: IdOrder, s: Log) {
    forall i, j :: 0 <= i < j < |s| ==> BelowEvent(less, s[j], s[i])
  }

  function InsertDescending(less: IdOrder, s: Log, e: StoredEvent): Log {
    if s == [] then [e]
    else if BelowEvent(less, s[0], e) then [e] + s
    else [s[0]] + InsertDescending(less, s[1..], e)
  }

  function SortDescending(less: IdOrder, s: Log): Log {
    if s == [] then [] else InsertDescending(less, SortDescending(less, s[1..]), s[0])
  }

  lemma {:induction false} InsertElements(less: IdOrder, s: Log, e: StoredEvent)
    ensures multiset(InsertDescending(less, s, e)) == multiset(s) + multiset{e}
  {
    if s != [] {
      assert s == [s[0]] + s[1..];
      InsertElements(less, s[1..], e);
    }
  }

  lemma {:induction false} InsertKeepsOrder(less: IdOrder, s: Log, e: StoredEvent)
    requires StrictTotal(less) && Descending(less, s)
    requires forall x :: x in s ==> x.intent.id != e.intent.id
    ensures Descending(less, InsertDescending(less, s, e))
  {
    BelowIsStrictTotal(less);
    if s != [] && !BelowEvent(less, s[0], e) {
      InsertKeepsOrder(less, s[1..], e);
      InsertElements(less, s[1..], e);
      var rest := InsertDescending(less, s[1..], e);
      forall x | x in rest ensures BelowEvent(less, x, s[0]) {
        assert x in multiset(rest);
        assert x == e || x in s[1..];
      }
    }
  }

  /** Sorting permutes, and events with distinct ids come out strictly descending. */
  lemma {:induction false} Sorts(less: IdOrder, s: Log)
    ensures multiset(SortDescending(less, s)) == multiset(s)
    ensures StrictTotal(less) && UniqueIds(s) ==> Descending(less, SortDescending(less, s))
  {
    if s != [] {
      assert s == [s[0]] + s[1..];
      Sorts(less, s[1..]);
      var rest := SortDescending(less, s[1..]);
      InsertElements(less, rest, s[0]);
      if StrictTotal(less) && UniqueIds(s) {
        forall x | x in rest ensures x.intent.id != s[0].intent.id {
          assert x in multiset(rest);
          assert x in s[1..];
        }
        InsertKeepsOrder(less, rest, s[0]);
      }
    }
  }

  lemma SortedElements(less: IdOrder, s: Log, e: StoredEvent)
    ensures e in SortDescending(less, s) <==> e in s
  {
    Sorts(less, s);
    assert e in multiset(SortDescending(less, s)) <==> e in multiset(s);
  }

  /** There is one strictly descending arrangement of a set of events. */
  lemma {:induction false} DescendingIsUnique(less: IdOrder, a: Log, b: Log)
    requires StrictTotal(less) && Descending(less, a) && Descending(less, b)
    requires forall e :: e in a <==> e in b
    ensures a == b
  {
    BelowIsStrictTotal(less);
    assert a != [] ==> a[0] in b;
    assert b != [] ==> b[0] in a;
    if a != [] && b != [] {
      assert a[0] in b && b[0] in a;
      assert a[0] == b[0];
      forall e ensures e in a[1..] <==> e in b[1..] {
        assert e in a[1..] <==> e in a && e != a[0];
        assert e in b[1..] <==> e in b && e != b[0];
      }
      DescendingIsUnique(less, a[1..], b[1..]);
      assert a == [a[0]] + a[1..] && b == [b[0]] + b[1..];
    }
  }

  // ---- List ----

  function Select(less: IdOrder, log: Log, f: Filter): Log {
    if log == [] then []
    else (if Matches(less, f, log[0]) then [log[0]] else []) + Select(less, log[1..], f)
  }

  lemma {:induction false} SelectElements(less: IdOrder, log: Log, f: Filter)
    ensures forall e :: e in Select(less, log, f) <==> e in log && Matches(less, f, e)
    ensures UniqueIds(log) ==> UniqueIds(Select(less, log, f))
  {
    if log != [] {
      SelectElements(less, log[1..], f);
      assert log == [log[0]] + log[1..];
      if UniqueIds(log) {
        forall e | e in Select(less, log[1..], f) ensures e.intent.id != log[0].intent.id {
          assert e in log[1..];
        }
      }
    }
  }

  lemma {:induction false} SelectSplits(less: IdOrder, a: Log, b: Log, f: Filter)
    ensures Select(less, a + b, f) == Select(less, a, f) + Select(less, b, f)
  {
    if a == [] {
      assert a + b == b;
    } else {
      assert (a + b)[1..] == a[1..] + b;
      SelectSplits(less, a[1..], b, f);
    }
  }

  /** All matching events, newest first. */
  function Listing(less: IdOrder, log: Log, f: Filter): Log {
    SortDescending(less, Select(less, log, f))
  }

  lemma ListingElements(less: IdOrder, log: Log, f: Filter, e: StoredEvent)
    ensures e in Listing(less, log, f) <==> e in log && Matches(less, f, e)
  {
    SelectElements(less, log, f);
    SortedElements(less, Select(less, log, f), e);
  }

  lemma ListingDescends(less: IdOrder, log: Log, f: Filter)
    requires StrictTotal(less) && UniqueIds(log)
    ensures Descending(less, Listing(less, log, f))
  {
    SelectElements(less, log, f);
    Sorts(less, Select(less, log, f));
  }

  /** A listing depends on nothing but which events match. */
  lemma ListingDetermined(less: IdOrder, a: Log, f: Filter, b: Log, g: Filter)
    requires StrictTotal(less) && UniqueIds(a) && UniqueIds(b)
    requires forall e :: e in a && Matches(less, f, e) <==> e in b && Matches(less, g, e)
    ensures Listing(less, a, f) == Listing(less, b, g)
  {
    ListingDescends(less, a, f);
    ListingDescends(less, b, g);
    forall e ensures e in Listing(less, a, f) <==> e in Listing(less, b, g) {
      ListingElements(less, a, f, e);
      ListingElements(less, b, g, e);
    }
    DescendingIsUnique(less, Listing(less, a, f), Listing(less, b, g));
  }

  const I64_MAX: int := 0x7FFF_FFFF_FFFF_FFFF

  /** One more row than the page holds; the sum saturates, and a negative count keeps everything. */
  function Fetched(s: Log, limit: int): Log {
    var count := if limit >= I64_MAX then I64_MAX else limit + 1;
    if 0 <= count < |s| then s[..count] else s
  }

  function List(less: IdOrder, log: Log, f: Filter): Log {
    Fetched(Listing(less, log, f), f.limit)
  }

  // ---- The in-memory store ----

  class FixtureStore {
    var events: Log
    const fail: bool

    ghost predicate Valid()
      reads this
    {
      UniqueIds(events)
    }

    constructor (fail: bool)
      ensures Valid() && events == [] && this.fail == fail
    {
      this.fail := fail;
      events := [];
    }

    method FindEvent(id: string) returns (found: Option<StoredEvent>)
      ensures found == Find(events, id)
    {
      var i := 0;
      while i < |events|
        invariant i <= |events|
        invariant Find(events, id) == Find(events[i..], id)
      {
        if events[i].intent.id == id {
          return Some(events[i]);
        }
        assert events[i..][1..] == events[i + 1..];
        i := i + 1;
      }
      found := None;
    }

    method AppendEvent(intent: Intent, now: DateTime) returns (result: Result<StoredEvent, StoreError>)
      requires Valid()
      modifies this
      ensures Valid()
      ensures fail ==> result == Err(Unavailable) && events == old(events)
      ensures !fail ==> (events, result) == Append(old(events), intent, now)
    {
      if fail {
        return Err(Unavailable);
      }
      AppendKeepsLog(events, intent, now);
      var event := StoredEvent(intent, now);
      var found := FindEvent(intent.id);
      if found.Some? {
        var expected := event.(createdAt := found.value.createdAt);
        return if expected == found.value then Ok(found.value) else Err(Conflict);
      }
      events := events + [event];
      result := Ok(event);
    }

    method ListEvents(f: Filter) returns (result: Result<Log, StoreError>)
      ensures fail ==> result == Err(Unavailable)
      ensures !fail ==> result == Ok(List(Less, events, f))
    {
      if fail {
        return Err(Unavailable);
      }
      var selected: Log := [];
      for i := 0 to |events|
        invariant selected == Select(Less, events[..i], f)
      {
        assert events[..i + 1] == events[..i] + [events[i]];
        SelectSplits(Less, events[..i], [events[i]], f);
        if Matches(Less, f, events[i]) {
          selected := selected + [events[i]];
        }
      }
      assert events[..|events|] == events;
      selected := SortDescending(Less, selected);
      result := Ok(Fetched(selected, f.limit));
    }

    method GetEvent(id: string) returns (result: Result<Option<StoredEvent>, StoreError>)
      ensures fail ==> result == Err(Unavailable)
      ensures !fail ==> result == Ok(Find(events, id))
    {
      if fail {
        return Err(Unavailable);
      }
      var found := FindEvent(id);
      result := Ok(found);
    }
  }
}

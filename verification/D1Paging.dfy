/** Paging over the D1 store by its own keys. Keys with ids are a strict total order, year 10000
  included: it is the order of times in which year 10000 comes before all others. */
module D1Paging {
  import opened Wrappers
  import opened Order
  import opened Time
  import opened Rfc3339
  import opened Events
  import opened ReferenceStore
  import opened Paging
  import opened D1Query

  // ---- Times in the order of their keys ----

  /** Year 10000 moved in front of every year that parsing yields, to another leap year. */
  function KeyTime(t: DateTime): DateTime {
    if Late(t) then t.(date := Date(-400, t.date.month, t.date.day)) else t
  }

  function KeyEvent(e: StoredEvent): StoredEvent {
    e.(intent := e.intent.(occurredAt := KeyTime(e.intent.occurredAt)))
  }

  function KeyEvents(log: Log): Log {
    if log == [] then [] else [KeyEvent(log[0])] + KeyEvents(log[1..])
  }

  function KeyOptional(t: Option<DateTime>): Option<DateTime> {
    match t case Some(v) => Some(KeyTime(v)) case None => None
  }

  function KeyPosition(p: Position): Position { Position(KeyTime(p.occurredAt), p.id) }

  function KeyFilter(f: Filter): Filter {
    f.(occurredAfter := KeyOptional(f.occurredAfter),
       occurredBefore := KeyOptional(f.occurredBefore),
       cursor := match f.cursor case Some(p) => Some(KeyPosition(p)) case None => None)
  }

  lemma KeyTimeOrder(a: DateTime, b: DateTime)
    requires ParsedYear(a) && ParsedYear(b)
    ensures Before(KeyTime(a), KeyTime(b)) <==> Less(Key(a), Key(b))
    ensures KeyTime(a) == KeyTime(b) <==> a == b
    ensures Key(a) == Key(b) <==> a == b
  {
    KeyOrder(a, b);
    KeyOrder(b, a);
    hide Key, Less;
    if Late(a) == Late(b) {
      assert Before(KeyTime(a), KeyTime(b)) <==> Before(a, b);
    } else if Late(a) {
      assert Before(b, a) && !Before(a, b);
    } else {
      assert Before(a, b);
    }
  }

  lemma KeyMatchesByTime(f: Filter, row: D1Row)
    requires ParsedFilter(f) && ValidRow(row) && ParsedYear(row.event.intent.occurredAt)
    ensures KeyMatches(f, row) <==> Matches(Less, KeyFilter(f), KeyEvent(row.event))
  {
    var t := row.event.intent.occurredAt;
    hide Key, Less, Before, KeyTime, Late;
    if f.occurredAfter.Some? {
      KeyTimeOrder(t, f.occurredAfter.value);
    }
    if f.occurredBefore.Some? {
      KeyTimeOrder(f.occurredBefore.value, t);
    }
    if f.cursor.Some? {
      KeyTimeOrder(t, f.cursor.value.occurredAt);
    }
    assert MatchesFields(f.fields, KeyEvent(row.event).intent) <==> MatchesFields(f.fields, row.event.intent);
    hide MatchesFields, ParsedYear;
  }

  lemma RowOrderByTime(a: D1Row, b: D1Row)
    requires ValidRow(a) && ValidRow(b)
    requires ParsedYear(a.event.intent.occurredAt) && ParsedYear(b.event.intent.occurredAt)
    ensures RowBelow(a, b) <==> BelowEvent(Less, KeyEvent(a.event), KeyEvent(b.event))
  {
    KeyTimeOrder(a.event.intent.occurredAt, b.event.intent.occurredAt);
    hide Key, Less, Before, KeyTime;
  }

  // ---- The listing by key is a reference listing of those times ----

  lemma {:induction false} InsertsByTime(s: seq<D1Row>, row: D1Row)
    requires ParsedRows(s) && ParsedRows([row])
    ensures KeyEvents(EventsOf(InsertRow(s, row))) == InsertDescending(Less, KeyEvents(EventsOf(s)), KeyEvent(row.event))
    ensures ParsedRows(InsertRow(s, row))
  {
    hide ParsedYear, ValidRow, RowBelow, BelowEvent, KeyEvent;
    assert [row][0] == row;
    if s == [] {
      assert [row][1..] == [] && [row.event][1..] == [];
      assert EventsOf([row]) == [row.event];
    } else {
      RowOrderByTime(s[0], row);
      InsertsByTime(s[1..], row);
      EventsCons(row, s);
      EventsCons(s[0], s[1..]);
      assert s == [s[0]] + s[1..];
      var rest := InsertRow(s[1..], row);
      EventsCons(s[0], rest);
      forall i | 0 <= i <= |rest|
        ensures ValidRow(([s[0]] + rest)[i]) && ParsedYear(([s[0]] + rest)[i].event.intent.occurredAt)
      {
        if i > 0 { assert ([s[0]] + rest)[i] == rest[i - 1]; }
      }
      InsertCons(KeyEvent(s[0].event), KeyEvents(EventsOf(s[1..])), KeyEvent(row.event));
    }
  }

  lemma EventsCons(row: D1Row, rows: seq<D1Row>)
    ensures EventsOf([row] + rows) == [row.event] + EventsOf(rows)
    ensures KeyEvents(EventsOf([row] + rows)) == [KeyEvent(row.event)] + KeyEvents(EventsOf(rows))
  {
    hide KeyEvent;
    assert ([row] + rows)[1..] == rows;
    assert ([row.event] + EventsOf(rows))[1..] == EventsOf(rows);
  }

  lemma InsertCons(head: StoredEvent, tail: Log, e: StoredEvent)
    ensures InsertDescending(Less, [head] + tail, e)
            == if BelowEvent(Less, head, e) then [e] + ([head] + tail) else [head] + InsertDescending(Less, tail, e)
  {
    hide BelowEvent;
    assert ([head] + tail)[1..] == tail;
  }

  lemma {:induction false} SortsByTime(s: seq<D1Row>)
    requires ParsedRows(s)
    ensures KeyEvents(EventsOf(SortRows(s))) == SortDescending(Less, KeyEvents(EventsOf(s)))
    ensures ParsedRows(SortRows(s))
  {
    hide ParsedYear, ValidRow, KeyEvent;
    if s != [] {
      SortsByTime(s[1..]);
      assert ParsedRows([s[0]]);
      InsertsByTime(SortRows(s[1..]), s[0]);
      EventsCons(s[0], s[1..]);
      assert s == [s[0]] + s[1..];
      var head, tail := KeyEvent(s[0].event), KeyEvents(EventsOf(s[1..]));
      assert ([head] + tail)[1..] == tail;
    }
  }

  lemma {:induction false} SelectsByTime(rows: seq<D1Row>, f: Filter)
    requires ParsedRows(rows) && ParsedFilter(f) && PrintableFilter(f)
    ensures KeyEvents(EventsOf(KeySelect(rows, f))) == Select(Less, KeyEvents(EventsOf(rows)), KeyFilter(f))
    ensures ParsedRows(KeySelect(rows, f))
  {
    hide ParsedYear, ValidRow, KeyMatches, Matches, ParsedFilter, PrintableFilter, KeyEvent, KeyFilter;
    if rows != [] {
      KeyMatchesByTime(f, rows[0]);
      SelectsByTime(rows[1..], f);
      EventsCons(rows[0], rows[1..]);
      assert rows == [rows[0]] + rows[1..];
      var head, tail := KeyEvent(rows[0].event), KeyEvents(EventsOf(rows[1..]));
      assert ([head] + tail)[0] == head && ([head] + tail)[1..] == tail;
      var rest := KeySelect(rows[1..], f);
      if KeyMatches(f, rows[0]) {
        EventsCons(rows[0], rest);
        assert KeySelect(rows, f) == [rows[0]] + rest;
      } else {
        assert KeySelect(rows, f) == rest;
      }
    }
  }

  lemma {:induction false} KeyEventsTake(log: Log, n: nat)
    requires n <= |log|
    ensures |KeyEvents(log)| == |log| && KeyEvents(log[..n]) == KeyEvents(log)[..n]
  {
    hide KeyEvent;
    if log != [] {
      KeyEventsTake(log[1..], if n > 0 then n - 1 else 0);
      if n > 0 {
        assert log[..n][1..] == log[1..][..n - 1];
      }
    }
  }

  lemma {:induction false} KeyEventsAt(log: Log, i: nat)
    requires i < |log|
    ensures |KeyEvents(log)| == |log| && KeyEvents(log)[i] == KeyEvent(log[i])
  {
    hide KeyEvent;
    KeyEventsTake(log, 0);
    if i > 0 {
      KeyEventsAt(log[1..], i - 1);
    }
  }

  lemma {:induction false} KeyEventsElements(log: Log)
    ensures forall e :: e in log ==> KeyEvent(e) in KeyEvents(log)
    ensures forall k :: k in KeyEvents(log) ==> exists e :: e in log && KeyEvent(e) == k
  {
    hide KeyEvent;
    forall e | e in log ensures KeyEvent(e) in KeyEvents(log) {
      var i :| 0 <= i < |log| && log[i] == e;
      KeyEventsAt(log, i);
    }
    forall k | k in KeyEvents(log) ensures exists e :: e in log && KeyEvent(e) == k {
      KeyEventsTake(log, 0);
      var i :| 0 <= i < |KeyEvents(log)| && KeyEvents(log)[i] == k;
      KeyEventsAt(log, i);
      assert log[i] in log;
    }
  }

  lemma ParsedIsPrintable(f: Filter)
    requires ParsedFilter(f)
    ensures PrintableFilter(f)
  {}

  lemma KeyListingByTime(rows: seq<D1Row>, f: Filter)
    requires ParsedRows(rows) && ParsedFilter(f) && PrintableFilter(f)
    ensures KeyEvents(KeyListing(rows, f)) == Listing(Less, KeyEvents(EventsOf(rows)), KeyFilter(f))
  {
    hide KeySelect, SortRows, EventsOf, KeyEvents, Select, SortDescending, ParsedRows, ParsedFilter, PrintableFilter;
    SelectsByTime(rows, f);
    SortsByTime(KeySelect(rows, f));
  }

  lemma FetchedByTime(all: Log, limit: int)
    requires 1 <= limit <= 200
    ensures Fetched(KeyEvents(all), limit) == KeyEvents(if limit + 1 < |all| then all[..limit + 1] else all)
  {
    KeyEventsTake(all, if limit + 1 <= |all| then limit + 1 else 0);
  }

  lemma KeyListByTime(rows: seq<D1Row>, f: Filter)
    requires ParsedRows(rows) && ParsedFilter(f) && 1 <= f.limit <= 200
    ensures KeyEvents(KeyList(rows, f)) == List(Less, KeyEvents(EventsOf(rows)), KeyFilter(f))
  {
    ParsedIsPrintable(f);
    assert KeyFilter(f).limit == f.limit;
    hide KeyListing, Listing, KeyEvents, EventsOf, KeyFilter, ParsedRows, ParsedFilter, PrintableFilter;
    KeyListingByTime(rows, f);
    hide Fetched;
    FetchedByTime(KeyListing(rows, f), f.limit);
  }

  // ---- Pages ----

  /** The page made from the rows that the query returns. */
  function KeyPage(rows: seq<D1Row>, f: Filter): Page
    requires PrintableFilter(f) && 1 <= f.limit <= 200
  {
    PageOf(KeyList(rows, f), f.limit)
  }

  ghost predicate ParsedEvents(log: Log) {
    forall i :: 0 <= i < |log| ==> ParsedYear(log[i].intent.occurredAt)
  }

  lemma KeyListParsed(rows: seq<D1Row>, f: Filter)
    requires ParsedRows(rows) && PrintableFilter(f)
    ensures ParsedEvents(KeyList(rows, f))
  {
    hide KeyMatches, KeyListing;
    var list := KeyList(rows, f);
    forall i | 0 <= i < |list| ensures ParsedYear(list[i].intent.occurredAt) {
      assert list[i] in KeyListing(rows, f);
      KeyListingElements(rows, f, list[i]);
    }
  }

  ghost predicate ParsedTables(tables: seq<seq<D1Row>>) {
    forall i :: 0 <= i < |tables| ==> ParsedRows(tables[i])
  }

  /** The events of the pages read from the tables, and whether the last page had no cursor. */
  ghost function ReadKeyPages(tables: seq<seq<D1Row>>, f: Filter): (Log, bool)
    requires ParsedTables(tables) && ParsedFilter(f) && 1 <= f.limit <= 200
    decreases |tables|
  {
    if tables == [] then ([], false)
    else
      var page := KeyPage(tables[0], f);
      KeyListParsed(tables[0], f);
      if page.next.None? then (page.events, true)
      else
        var (rest, done) := ReadKeyPages(tables[1..], At(f, page.next.value));
        (page.events + rest, done)
  }

  function KeyLogs(tables: seq<seq<D1Row>>): seq<Log> {
    if tables == [] then [] else [KeyEvents(EventsOf(tables[0]))] + KeyLogs(tables[1..])
  }

  lemma {:induction false} KeyEventsConcat(a: Log, b: Log)
    ensures KeyEvents(a + b) == KeyEvents(a) + KeyEvents(b)
  {
    hide KeyEvent;
    if a == [] {
      assert a + b == b;
    } else {
      assert (a + b)[1..] == a[1..] + b && (a + b)[0] == a[0];
      KeyEventsConcat(a[1..], b);
    }
  }

  lemma KeyPageParsed(rows: seq<D1Row>, f: Filter)
    requires ParsedRows(rows) && PrintableFilter(f) && 1 <= f.limit <= 200
    ensures ParsedEvents(KeyPage(rows, f).events)
    ensures KeyPage(rows, f).next.Some? ==> ParsedYear(KeyPage(rows, f).next.value.occurredAt)
  {
    hide KeyList, ParsedYear, ParsedRows, PrintableFilter;
    KeyListParsed(rows, f);
  }

  function KeyNext(next: Option<Position>): Option<Position> {
    match next case Some(p) => Some(KeyPosition(p)) case None => None
  }

  lemma PagedByTime(list: Log, limit: int)
    requires limit >= 1
    ensures PageOf(KeyEvents(list), limit) == Page(KeyEvents(PageOf(list, limit).events), KeyNext(PageOf(list, limit).next))
  {
    hide KeyEvents, KeyTime;
    KeyEventsTake(list, if limit <= |list| then limit else 0);
    if |list| > limit {
      KeyEventsAt(list, limit - 1);
    }
  }

  lemma KeyPageByTime(rows: seq<D1Row>, f: Filter)
    requires ParsedRows(rows) && ParsedFilter(f) && 1 <= f.limit <= 200
    ensures PrintableFilter(f)
    ensures var page := KeyPage(rows, f);
            ListPage(Less, KeyEvents(EventsOf(rows)), KeyFilter(f)) == Page(KeyEvents(page.events), KeyNext(page.next))
    ensures KeyPage(rows, f).next.Some? ==> ParsedYear(KeyPage(rows, f).next.value.occurredAt)
  {
    ParsedIsPrintable(f);
    KeyPageParsed(rows, f);
    hide KeyList, List, PageOf, PrintableFilter, ParsedYear, KeyEvents, EventsOf, KeyNext, ParsedRows, ParsedFilter;
    KeyListByTime(rows, f);
    PagedByTime(KeyList(rows, f), f.limit);
  }

  /** Pages by key are pages by those times. */
  lemma {:induction false} KeyPagesByTime(tables: seq<seq<D1Row>>, f: Filter)
    requires ParsedTables(tables) && ParsedFilter(f) && 1 <= f.limit <= 200
    ensures var (events, done) := ReadKeyPages(tables, f);
            ReadPages(Less, KeyLogs(tables), KeyFilter(f)) == (KeyEvents(events), done)
    decreases |tables|
  {
    ParsedIsPrintable(f);
    hide KeyPage, ListPage, KeyEvents, EventsOf, KeyTime, ParsedRows, ParsedYear;
    if tables != [] {
      KeyPageByTime(tables[0], f);
      var page := KeyPage(tables[0], f);
      assert KeyLogs(tables)[1..] == KeyLogs(tables[1..]);
      if page.next.Some? {
        var g := At(f, page.next.value);
        ParsedIsPrintable(g);
        assert KeyFilter(g) == At(KeyFilter(f), KeyPosition(page.next.value));
        KeyPagesByTime(tables[1..], g);
        KeyEventsConcat(page.events, ReadKeyPages(tables[1..], g).0);
      }
    } else {
      assert KeyEvents([]) == [] by { NoKeyEvents(); }
    }
  }

  lemma NoKeyEvents()
    ensures KeyEvents([]) == []
  {}

  /** Every event read lies in a year that parsing yields. */
  lemma {:induction false} ReadKeyPagesParsed(tables: seq<seq<D1Row>>, f: Filter)
    requires ParsedTables(tables) && ParsedFilter(f) && 1 <= f.limit <= 200
    ensures ParsedEvents(ReadKeyPages(tables, f).0)
    decreases |tables|
  {
    ParsedIsPrintable(f);
    hide KeyPage, ParsedRows, ParsedYear, PrintableFilter;
    if tables != [] {
      KeyPageParsed(tables[0], f);
      var page := KeyPage(tables[0], f);
      if page.next.Some? {
        ReadKeyPagesParsed(tables[1..], At(f, page.next.value));
      }
    }
  }

  // ---- What paging by key returns ----

  /** Further down in the listing by key. */
  predicate KeyBelow(a: StoredEvent, b: StoredEvent)
    requires PrintableYear(a.intent.occurredAt) && PrintableYear(b.intent.occurredAt)
  {
    var s, t := Key(a.intent.occurredAt), Key(b.intent.occurredAt);
    Less(s, t) || (s == t && Less(a.intent.id, b.intent.id))
  }

  ghost predicate KeyDescending(log: Log)
    requires ParsedEvents(log)
  {
    forall i, j :: 0 <= i < j < |log| ==> KeyBelow(log[j], log[i])
  }

  ghost predicate AllMatchByKey(rows: seq<D1Row>, f: Filter, events: Log)
    requires PrintableFilter(f)
  {
    forall e :: e in events ==> exists row :: row in rows && row.event == e && KeyMatches(f, row)
  }

  ghost predicate CoversByKey(rows: seq<D1Row>, f: Filter, events: Log)
    requires PrintableFilter(f)
  {
    forall row :: row in rows && KeyMatches(f, row) ==> row.event in events
  }

  /** Append-only tables, one for each request. */
  ghost predicate GrowingTables(tables: seq<seq<D1Row>>) {
    && ParsedTables(tables)
    && (forall i :: 0 <= i < |tables| ==> UniqueIds(EventsOf(tables[i])))
    && (forall i, j :: 0 <= i < j < |tables| ==> tables[i] <= tables[j])
  }

  lemma {:induction false} EventsOfPrefix(a: seq<D1Row>, b: seq<D1Row>)
    requires a <= b
    ensures EventsOf(a) <= EventsOf(b)
  {
    if a != [] {
      assert a[1..] <= b[1..];
      EventsOfPrefix(a[1..], b[1..]);
    }
  }

  lemma KeyEventsPrefix(a: Log, b: Log)
    requires a <= b
    ensures KeyEvents(a) <= KeyEvents(b)
  {
    KeyEventsTake(b, |a|);
    assert b[..|a|] == a;
  }

  lemma KeyEventsUnique(log: Log)
    requires UniqueIds(log)
    ensures UniqueIds(KeyEvents(log))
  {
    KeyEventsTake(log, 0);
    forall i, j | 0 <= i < j < |log| ensures KeyEvents(log)[i].intent.id != KeyEvents(log)[j].intent.id {
      KeyEventsAt(log, i);
      KeyEventsAt(log, j);
    }
  }

  lemma {:induction false} KeyLogsAt(tables: seq<seq<D1Row>>, i: nat)
    requires i < |tables|
    ensures |KeyLogs(tables)| == |tables| && KeyLogs(tables)[i] == KeyEvents(EventsOf(tables[i]))
  {
    hide KeyEvents, EventsOf;
    KeyLogsLength(tables);
    if i > 0 {
      KeyLogsAt(tables[1..], i - 1);
    }
  }

  lemma {:induction false} KeyLogsLength(tables: seq<seq<D1Row>>)
    ensures |KeyLogs(tables)| == |tables|
  {
    if tables != [] {
      KeyLogsLength(tables[1..]);
    }
  }

  lemma KeyLogsGrow(tables: seq<seq<D1Row>>)
    requires GrowingTables(tables)
    ensures Growing(KeyLogs(tables))
  {
    hide KeyLogs, KeyEvents, EventsOf, UniqueIds;
    KeyLogsLength(tables);
    var logs := KeyLogs(tables);
    forall i | 0 <= i < |logs| ensures UniqueIds(logs[i]) {
      KeyLogsAt(tables, i);
      KeyEventsUnique(EventsOf(tables[i]));
    }
    forall i, j | 0 <= i < j < |logs| ensures logs[i] <= logs[j] {
      KeyLogsAt(tables, i);
      KeyLogsAt(tables, j);
      EventsOfPrefix(tables[i], tables[j]);
      KeyEventsPrefix(EventsOf(tables[i]), EventsOf(tables[j]));
    }
  }

  lemma KeyEventInjective(a: StoredEvent, b: StoredEvent)
    requires ParsedYear(a.intent.occurredAt) && ParsedYear(b.intent.occurredAt) && KeyEvent(a) == KeyEvent(b)
    ensures a == b
  {
    KeyTimeOrder(a.intent.occurredAt, b.intent.occurredAt);
    hide KeyTime;
    assert KeyEvent(a).intent.(occurredAt := a.intent.occurredAt) == a.intent;
    assert KeyEvent(b).intent.(occurredAt := b.intent.occurredAt) == b.intent;
  }

  lemma DescendsByKey(log: Log)
    requires ParsedEvents(log) && Descending(Less, KeyEvents(log))
    ensures KeyDescending(log)
  {
    KeyEventsTake(log, 0);
    forall i, j | 0 <= i < j < |log| ensures KeyBelow(log[j], log[i]) {
      KeyEventsAt(log, i);
      KeyEventsAt(log, j);
      KeyTimeOrder(log[j].intent.occurredAt, log[i].intent.occurredAt);
      assert BelowEvent(Less, KeyEvents(log)[j], KeyEvents(log)[i]);
      hide Key, Less, Before, KeyTime;
    }
  }

  lemma RowOfKeyEvent(rows: seq<D1Row>, e: StoredEvent) returns (row: D1Row)
    requires ParsedRows(rows) && ParsedYear(e.intent.occurredAt) && KeyEvent(e) in KeyEvents(EventsOf(rows))
    ensures row in rows && row.event == e
  {
    hide KeyEvent, KeyEvents, ParsedYear, ValidRow;
    KeyEventsElements(EventsOf(rows));
    var other :| other in EventsOf(rows) && KeyEvent(other) == KeyEvent(e);
    RowsAndEvents(rows);
    row :| row in rows && row.event == other;
    var i :| 0 <= i < |rows| && rows[i] == row;
    assert ParsedYear(rows[i].event.intent.occurredAt);
    KeyEventInjective(other, e);
  }

  lemma MatchesByKey(rows: seq<D1Row>, f: Filter, events: Log)
    requires ParsedRows(rows) && ParsedFilter(f) && PrintableFilter(f) && ParsedEvents(events)
    requires AllMatch(Less, KeyEvents(EventsOf(rows)), KeyFilter(f), KeyEvents(events))
    ensures AllMatchByKey(rows, f, events)
  {
    hide KeyEvent, KeyEvents, KeyMatches, Matches, KeyFilter, ParsedFilter, PrintableFilter, ParsedYear, ValidRow;
    KeyEventsElements(events);
    forall e | e in events ensures exists row :: row in rows && row.event == e && KeyMatches(f, row) {
      var i :| 0 <= i < |events| && events[i] == e;
      assert ParsedYear(events[i].intent.occurredAt);
      var row := RowOfKeyEvent(rows, e);
      var k :| 0 <= k < |rows| && rows[k] == row;
      KeyMatchesByTime(f, rows[k]);
    }
  }

  lemma CoverByKey(rows: seq<D1Row>, f: Filter, events: Log)
    requires ParsedRows(rows) && ParsedFilter(f) && PrintableFilter(f) && ParsedEvents(events)
    requires Covers(Less, KeyEvents(EventsOf(rows)), KeyFilter(f), KeyEvents(events))
    ensures CoversByKey(rows, f, events)
  {
    hide KeyEvent, KeyEvents, KeyMatches, Matches, KeyFilter, ParsedFilter, PrintableFilter, ParsedYear, ValidRow;
    RowsAndEvents(rows);
    KeyEventsElements(EventsOf(rows));
    KeyEventsElements(events);
    forall row | row in rows && KeyMatches(f, row) ensures row.event in events {
      var k :| 0 <= k < |rows| && rows[k] == row;
      KeyMatchesByTime(f, rows[k]);
      assert KeyEvent(row.event) in KeyEvents(events);
      var e :| e in events && KeyEvent(e) == KeyEvent(row.event);
      var i :| 0 <= i < |events| && events[i] == e;
      assert ParsedYear(events[i].intent.occurredAt) && ParsedYear(rows[k].event.intent.occurredAt);
      KeyEventInjective(e, row.event);
    }
  }

  /** Paging over any growing D1 tables, year 10000 included: strictly descending by key and id, so
    nothing comes twice; nothing that does not match by key; and in the end everything that matched by
    key at the first request. */
  lemma GrowingKeyPages(tables: seq<seq<D1Row>>, f: Filter)
    requires GrowingTables(tables) && tables != [] && ParsedFilter(f) && 1 <= f.limit <= 200
    ensures PrintableFilter(f)
    ensures var (events, done) := ReadKeyPages(tables, f);
            && ParsedEvents(events) && KeyDescending(events)
            && AllMatchByKey(tables[|tables| - 1], f, events)
            && (done ==> CoversByKey(tables[0], f, events))
  {
    ParsedIsPrintable(f);
    FirstAndLast(tables);
    hide ReadKeyPages, ReadPages, KeyLogs, KeyEvents, EventsOf, KeyFilter, ParsedFilter, PrintableFilter, ParsedRows;
    hide Descending, AllMatch, Covers, KeyDescending, AllMatchByKey, CoversByKey, ParsedEvents, StrictTotal, GrowingTables;
    ReadKeyPagesParsed(tables, f);
    KeyPagesByTime(tables, f);
    KeyLogsGrow(tables);
    KeyLogsLength(tables);
    LessIsStrictTotal();
    GrowingPages(Less, KeyLogs(tables), KeyFilter(f));
    var (events, done) := ReadKeyPages(tables, f);
    DescendsByKey(events);
    MatchesByKey(tables[|tables| - 1], f, events);
    if done {
      CoverByKey(tables[0], f, events);
    }
  }

  lemma FirstAndLast(tables: seq<seq<D1Row>>)
    requires GrowingTables(tables) && tables != []
    ensures ParsedTables(tables) && ParsedRows(tables[0]) && ParsedRows(tables[|tables| - 1])
    ensures |KeyLogs(tables)| == |tables| && KeyLogs(tables)[0] == KeyEvents(EventsOf(tables[0]))
    ensures KeyLogs(tables)[|tables| - 1] == KeyEvents(EventsOf(tables[|tables| - 1]))
  {
    KeyLogsAt(tables, 0);
    KeyLogsAt(tables, |tables| - 1);
  }

  // ---- Pages by key against reference pages ----

  lemma {:induction false} AskedEvent(rows: seq<D1Row>, fields: FieldFilter, late: bool, e: StoredEvent)
    requires AskedOnSide(rows, fields, late) && e in EventsOf(rows) && MatchesFields(fields, e.intent)
    ensures OnSide(e.intent.occurredAt, late)
  {
    hide OnSide, ValidRow, MatchesFields;
    if rows[0].event != e {
      AskedEvent(rows[1..], fields, late, e);
    }
  }

  /** Paging never changes sides: the cursor of a page is the place of an event that was asked for. */
  lemma CursorStaysOnSide(rows: seq<D1Row>, f: Filter, late: bool)
    requires AskedOnSide(rows, f.fields, late) && FilterOnSide(f, late) && 1 <= f.limit <= 200
    ensures KeyPage(rows, f) == ListPage(Less, EventsOf(rows), f)
    ensures KeyPage(rows, f).next.Some? ==> FilterOnSide(At(f, KeyPage(rows, f).next.value), late)
  {
    D1ListsAsReference(rows, f, late);
    var log := EventsOf(rows);
    PageShape(Less, log, f);
    var page := ListPage(Less, log, f);
    hide Listing, KeyList, AskedOnSide, OnSide;
    if page.next.Some? {
      var last := Listing(Less, log, f)[f.limit - 1];
      ListingElements(Less, log, f, last);
      AskedEvent(rows, f.fields, late, last);
    }
  }

  function Logs(tables: seq<seq<D1Row>>): seq<Log> {
    if tables == [] then [] else [EventsOf(tables[0])] + Logs(tables[1..])
  }

  /** On one side of year 10000 pages by key are the reference pages. */
  lemma {:induction false} KeyPagesAreReference(tables: seq<seq<D1Row>>, f: Filter, late: bool)
    requires ParsedTables(tables) && ParsedFilter(f) && FilterOnSide(f, late) && 1 <= f.limit <= 200
    requires forall i :: 0 <= i < |tables| ==> AskedOnSide(tables[i], f.fields, late)
    ensures ReadKeyPages(tables, f) == ReadPages(Less, Logs(tables), f)
    decreases |tables|
  {
    ParsedIsPrintable(f);
    hide KeyPage, ListPage, EventsOf, FilterOnSide, AskedOnSide, ParsedRows, ParsedYear, PrintableFilter;
    if tables != [] {
      CursorStaysOnSide(tables[0], f, late);
      KeyPageParsed(tables[0], f);
      var page := KeyPage(tables[0], f);
      assert Logs(tables)[1..] == Logs(tables[1..]);
      if page.next.Some? {
        KeyPagesAreReference(tables[1..], At(f, page.next.value), late);
      }
    }
  }

  lemma {:induction false} LogsAt(tables: seq<seq<D1Row>>, i: nat)
    requires i < |tables|
    ensures |Logs(tables)| == |tables| && Logs(tables)[i] == EventsOf(tables[i])
  {
    hide EventsOf;
    LogsLength(tables);
    if i > 0 {
      LogsAt(tables[1..], i - 1);
    }
  }

  lemma {:induction false} LogsLength(tables: seq<seq<D1Row>>)
    ensures |Logs(tables)| == |tables|
  {
    if tables != [] {
      LogsLength(tables[1..]);
    }
  }

  lemma LogsGrow(tables: seq<seq<D1Row>>)
    requires GrowingTables(tables)
    ensures |Logs(tables)| == |tables| && Growing(Logs(tables))
    ensures tables != [] ==>
              Logs(tables)[0] == EventsOf(tables[0]) && Logs(tables)[|tables| - 1] == EventsOf(tables[|tables| - 1])
  {
    hide Logs, EventsOf, UniqueIds;
    LogsLength(tables);
    if tables != [] {
      LogsAt(tables, 0);
      LogsAt(tables, |tables| - 1);
    }
    forall i | 0 <= i < |tables| ensures UniqueIds(Logs(tables)[i]) {
      LogsAt(tables, i);
    }
    forall i, j | 0 <= i < j < |tables| ensures Logs(tables)[i] <= Logs(tables)[j] {
      LogsAt(tables, i);
      LogsAt(tables, j);
      EventsOfPrefix(tables[i], tables[j]);
    }
  }
}

/** Keyset paging: what following cursors returns, over a log at rest and over a log that grows
  between the requests. */
module Paging {
  import opened Wrappers
  import opened Order
  import opened Time
  import opened Events
  import opened ReferenceStore

  datatype Page = Page(events: Log, next: Option<Position>)

  /** One row more than the limit means that there is a next page. */
  function PageOf(fetched: Log, limit: int): Page
    requires limit >= 1
  {
    if |fetched| > limit then Page(fetched[..limit], Some(PositionOf(fetched[limit - 1])))
    else Page(fetched, None)
  }

  function ListPage(less: IdOrder, log: Log, f: Filter): Page
    requires 1 <= f.limit <= 200
  {
    PageOf(List(less, log, f), f.limit)
  }

  /** A page is the head of the listing, and its cursor stands on its last event. */
  lemma PageShape(less: IdOrder, log: Log, f: Filter)
    requires 1 <= f.limit <= 200
    ensures var all, page := Listing(less, log, f), ListPage(less, log, f);
            if |all| > f.limit
            then page == Page(all[..f.limit], Some(PositionOf(all[f.limit - 1])))
            else page == Page(all, None)
  {
    var all := Listing(less, log, f);
    if |all| > f.limit + 1 {
      assert all[..f.limit + 1][..f.limit] == all[..f.limit];
    }
  }

  function At(f: Filter, cursor: Position): Filter { f.(cursor := Some(cursor)) }

  lemma LaterInOrder(less: IdOrder, s: Log, k: nat, j: nat)
    requires StrictTotal(less) && Descending(less, s)
    requires k < |s| && j < |s| && BelowEvent(less, s[j], s[k])
    ensures k < j
  {
    BelowIsStrictTotal(less);
  }

  /** Below the cursor of the k-th event lies exactly the listing after the k-th event. */
  lemma RestOfListing(less: IdOrder, log: Log, f: Filter, k: nat)
    requires StrictTotal(less) && UniqueIds(log)
    requires k < |Listing(less, log, f)|
    ensures Listing(less, log, At(f, PositionOf(Listing(less, log, f)[k]))) == Listing(less, log, f)[k + 1..]
  {
    BelowIsStrictTotal(less);
    var all := Listing(less, log, f);
    var g := At(f, PositionOf(all[k]));
    ListingDescends(less, log, f);
    ListingDescends(less, log, g);
    ListingElements(less, log, f, all[k]);
    forall e | e in Listing(less, log, g) ensures e in all[k + 1..] {
      ListingElements(less, log, f, e);
      ListingElements(less, log, g, e);
      assert Matches(less, f, e);
      var j :| 0 <= j < |all| && all[j] == e;
      LaterInOrder(less, all, k, j);
      assert e == all[k + 1..][j - (k + 1)];
    }
    forall e | e in all[k + 1..] ensures e in Listing(less, log, g) {
      ListingElements(less, log, f, e);
      ListingElements(less, log, g, e);
      var j :| 0 <= j < |all| - (k + 1) && all[k + 1..][j] == e;
      assert BelowEvent(less, all[k + 1 + j], all[k]);
    }
    DescendingIsUnique(less, Listing(less, log, g), all[k + 1..]);
  }

  // ---- A log at rest ----

  /** Every page in turn, until there is no cursor. */
  ghost function Follow(less: IdOrder, log: Log, f: Filter): seq<Log>
    requires StrictTotal(less) && UniqueIds(log) && 1 <= f.limit <= 200
    decreases |Listing(less, log, f)|
  {
    var page := ListPage(less, log, f);
    PageShape(less, log, f);
    if page.next.None? then [page.events]
    else
      RestOfListing(less, log, f, f.limit - 1);
      [page.events] + Follow(less, log, At(f, page.next.value))
  }

  function Concat(pages: seq<Log>): Log {
    if pages == [] then [] else pages[0] + Concat(pages[1..])
  }

  /** All pages but the last hold the limit, and only a single page may be empty. */
  ghost predicate FullPages(pages: seq<Log>, limit: int) {
    && pages != []
    && (forall i :: 0 <= i < |pages| - 1 ==> |pages[i]| == limit)
    && (|pages| > 1 ==> pages[|pages| - 1] != [])
  }

  /** Following cursors ends, and returns the whole listing in order: every matching event once, in
    full pages up to the last. */
  lemma {:induction false} FollowReturnsListing(less: IdOrder, log: Log, f: Filter)
    requires StrictTotal(less) && UniqueIds(log) && 1 <= f.limit <= 200
    ensures Concat(Follow(less, log, f)) == Listing(less, log, f)
    ensures FullPages(Follow(less, log, f), f.limit)
    decreases |Listing(less, log, f)|
  {
    hide Listing, ListPage, UniqueIds;
    var all := Listing(less, log, f);
    var page := ListPage(less, log, f);
    PageShape(less, log, f);
    if page.next.Some? {
      RestOfListing(less, log, f, f.limit - 1);
      var g := At(f, page.next.value);
      FollowReturnsListing(less, log, g);
      assert all == all[..f.limit] + all[f.limit..];
      PagesPrepend(page.events, Follow(less, log, g), f.limit);
    } else {
      assert [page.events][1..] == [];
    }
  }

  lemma PagesPrepend(first: Log, rest: seq<Log>, limit: int)
    requires FullPages(rest, limit) && |first| == limit && Concat(rest) != []
    ensures Concat([first] + rest) == first + Concat(rest)
    ensures FullPages([first] + rest, limit)
  {
    assert ([first] + rest)[1..] == rest;
    if |rest| == 1 {
      assert rest[1..] == [];
    }
  }

  // ---- A log that grows between requests ----

  /** Append-only snapshots, one for each request. */
  ghost predicate Growing(logs: seq<Log>) {
    && (forall i :: 0 <= i < |logs| ==> UniqueIds(logs[i]))
    && (forall i, j :: 0 <= i < j < |logs| ==> logs[i] <= logs[j])
  }

  /** The events of the pages read from the snapshots, and whether the last page had no cursor. */
  function ReadPages(less: IdOrder, logs: seq<Log>, f: Filter): (Log, bool)
    requires 1 <= f.limit <= 200
    decreases |logs|
  {
    if logs == [] then ([], false)
    else
      var page := ListPage(less, logs[0], f);
      if page.next.None? then (page.events, true)
      else
        var (rest, done) := ReadPages(less, logs[1..], At(f, page.next.value));
        (page.events + rest, done)
  }

  function Repeat(log: Log, n: nat): seq<Log> {
    if n == 0 then [] else [log] + Repeat(log, n - 1)
  }

  /** A log at rest needs as many requests as it has pages. */
  lemma {:induction false} RestingPages(less: IdOrder, log: Log, f: Filter, n: nat)
    requires StrictTotal(less) && UniqueIds(log) && 1 <= f.limit <= 200
    requires n == |Follow(less, log, f)|
    ensures ReadPages(less, Repeat(log, n), f) == (Listing(less, log, f), true)
    decreases |Listing(less, log, f)|
  {
    hide Listing, ListPage, UniqueIds;
    var all, page := Listing(less, log, f), ListPage(less, log, f);
    PageShape(less, log, f);
    if page.next.Some? {
      RestOfListing(less, log, f, f.limit - 1);
      var g := At(f, page.next.value);
      RestingPages(less, log, g, n - 1);
      assert Repeat(log, n)[1..] == Repeat(log, n - 1);
      assert all == all[..f.limit] + all[f.limit..];
    }
  }

  /** Every event of the log that the filter accepts is among the events. */
  ghost predicate Covers(less: IdOrder, log: Log, f: Filter, events: Log) {
    forall e :: e in log && Matches(less, f, e) ==> e in events
  }

  ghost predicate AllMatch(less: IdOrder, log: Log, f: Filter, events: Log) {
    forall e :: e in events ==> e in log && Matches(less, f, e)
  }

  /** Whatever is appended in between, the pages descend strictly, so no event comes twice; each
    returned event matches and is in the last snapshot; and once paging has ended, every matching
    event of the first snapshot has been returned. */
  lemma {:induction false} GrowingPages(less: IdOrder, logs: seq<Log>, f: Filter)
    requires StrictTotal(less) && Growing(logs) && logs != [] && 1 <= f.limit <= 200
    ensures var (events, done) := ReadPages(less, logs, f);
            && Descending(less, events)
            && AllMatch(less, logs[|logs| - 1], f, events)
            && (done ==> Covers(less, logs[0], f, events))
    decreases |logs|
  {
    hide ListPage, Listing, Descending, Covers;
    var log, final := logs[0], logs[|logs| - 1];
    var page := ListPage(less, log, f);
    PageShape(less, log, f);
    ListingPage(less, log, f);
    assert log <= final;
    if page.next.Some? {
      var rest := logs[1..];
      var g := At(f, page.next.value);
      if rest == [] {
        assert page.events + [] == page.events;
      } else {
        GrowingPages(less, rest, g);
        var (events, done) := ReadPages(less, rest, g);
        assert rest[|rest| - 1] == final;
        assert log <= rest[0];
        PagesJoin(less, log, final, f, events);
        if done {
          CoversJoin(less, log, rest[0], f, events);
        }
      }
    }
  }

  /** The page itself descends, is sound, and is complete when it has no cursor. */
  lemma ListingPage(less: IdOrder, log: Log, f: Filter)
    requires StrictTotal(less) && UniqueIds(log) && 1 <= f.limit <= 200
    ensures var page := ListPage(less, log, f);
            && Descending(less, page.events)
            && AllMatch(less, log, f, page.events)
            && (page.next.None? ==> Covers(less, log, f, page.events))
  {
    PageShape(less, log, f);
    ListingDescends(less, log, f);
    var all, page := Listing(less, log, f), ListPage(less, log, f);
    forall e | e in page.events ensures e in log && Matches(less, f, e) {
      assert e in all;
      ListingElements(less, log, f, e);
    }
    forall e | e in log && Matches(less, f, e) ensures e in all { ListingElements(less, log, f, e); }
  }

  /** What lies below a page's cursor continues the page. */
  lemma PagesJoin(less: IdOrder, log: Log, final: Log, f: Filter, rest: Log)
    requires StrictTotal(less) && UniqueIds(log) && log <= final && 1 <= f.limit <= 200
    requires var page := ListPage(less, log, f);
             page.next.Some? && Descending(less, rest) && AllMatch(less, final, At(f, page.next.value), rest)
    ensures var page := ListPage(less, log, f);
            Descending(less, page.events + rest) && AllMatch(less, final, f, page.events + rest)
  {
    BelowIsStrictTotal(less);
    PageShape(less, log, f);
    ListingPage(less, log, f);
    var page := ListPage(less, log, f);
    var last := page.events[f.limit - 1];
    assert last in page.events;
    forall e | e in rest ensures BelowEvent(less, e, last) && Matches(less, f, e) {}
    forall i, j | 0 <= i < |page.events| && 0 <= j < |rest| ensures BelowEvent(less, rest[j], page.events[i]) {
      assert rest[j] in rest;
      assert i < f.limit - 1 ==> BelowEvent(less, last, page.events[i]);
    }
  }

  /** A matching event is on the page or still ahead of the cursor. */
  lemma CoversJoin(less: IdOrder, log: Log, next: Log, f: Filter, rest: Log)
    requires StrictTotal(less) && UniqueIds(log) && log <= next && 1 <= f.limit <= 200
    requires var page := ListPage(less, log, f);
             page.next.Some? && Covers(less, next, At(f, page.next.value), rest)
    ensures Covers(less, log, f, ListPage(less, log, f).events + rest)
  {
    PageShape(less, log, f);
    ListingDescends(less, log, f);
    var all, page := Listing(less, log, f), ListPage(less, log, f);
    forall e | e in log && Matches(less, f, e) ensures e in page.events + rest {
      ListingElements(less, log, f, e);
      var j :| 0 <= j < |all| && all[j] == e;
      if j < f.limit {
        assert page.events[j] == e;
      } else {
        assert BelowEvent(less, e, all[f.limit - 1]);
        assert e in next;
      }
    }
  }
}

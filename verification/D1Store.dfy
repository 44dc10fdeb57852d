/** The D1 store: an append is one batch that inserts and reads back, its reply may be lost or
  damaged after the batch has committed, and callers retry. */
module D1Store {
  import opened Wrappers
  import opened Order
  import opened Time
  import opened Rfc3339
  import opened Events
  import opened Paging
  import opened ReferenceStore
  import opened Sql
  import D = D1Query
  import K = D1Paging

  // ---- Receipts ----

  /** What comes back for one statement. A result row that is absent or null is None, and so is a
    change count that is missing or not a safe integer. */
  datatype Reply = Reply(success: bool, results: Option<seq<Option<StoredEvent>>>, changes: Option<int>)

  datatype Batch = NoBatch | Replies(replies: seq<Reply>)

  predicate ValidReceipt(batch: Batch) {
    && batch.Replies?
    && |batch.replies| == 2
    && (forall i :: 0 <= i < 2 ==> batch.replies[i].success && batch.replies[i].results.Some?)
    && batch.replies[0].changes.Some?
    && 0 <= batch.replies[0].changes.value <= 1
  }

  /** The stored event a reply proves, if it proves one. */
  function ReadReceipt(batch: Batch): Option<StoredEvent> {
    if !ValidReceipt(batch) then None
    else
      var found := batch.replies[1].results.value;
      if found == [] then None else found[0]
  }

  /** A receipt proves an event exactly when there are two replies, both successful and with results, the
    first with one or no change, and the first result of the second is that event. */
  lemma ReceiptExactly(batch: Batch, e: StoredEvent)
    ensures ReadReceipt(batch) == Some(e)
            <==> && batch.Replies? && |batch.replies| == 2
                 && batch.replies[0].success && batch.replies[0].results.Some?
                 && batch.replies[0].changes in {Some(0), Some(1)}
                 && batch.replies[1].success && batch.replies[1].results.Some?
                 && [Some(e)] <= batch.replies[1].results.value
  {
    if batch.Replies? && |batch.replies| == 2 && batch.replies[1].results.Some? {
      var found := batch.replies[1].results.value;
      assert [Some(e)] <= found <==> found != [] && found[0] == Some(e);
    }
  }

  /** The replies to an insert and a select that both succeeded. */
  function HonestReceipt(inserted: bool, found: Option<StoredEvent>): Batch {
    Replies([Reply(true, Some([]), Some(if inserted then 1 else 0)), Reply(true, Some([found]), Some(0))])
  }

  lemma HonestReceiptIsRead(inserted: bool, found: Option<StoredEvent>)
    ensures ReadReceipt(HonestReceipt(inserted, found)) == found
  {
    assert ValidReceipt(HonestReceipt(inserted, found));
  }

  // ---- Attempts ----

  datatype Delivery = Honest | NoReply | Damaged(batch: Batch)

  /** What becomes of one attempt: whether the batch ran, and what reached the caller. */
  datatype Fate = Fate(ran: bool, delivery: Delivery)

  /** An honest reply comes from a batch that ran; a damaged one proves nothing. */
  predicate ValidFate(fate: Fate) {
    && (fate.delivery.Honest? ==> fate.ran)
    && (fate.delivery.Damaged? ==> ReadReceipt(fate.delivery.batch).None?)
  }

  datatype Attempt = Attempt(intent: Intent, now: DateTime, fate: Fate)

  predicate ValidAttempt(a: Attempt) { ValidFate(a.fate) && PrintableYear(a.intent.occurredAt) }

  /** The reference meaning of an attempt: an append if the batch ran, and its answer if the reply
    arrived. */
  function Attempted(log: Log, a: Attempt): (Log, Result<StoredEvent, StoreError>) {
    var (grown, answer) := Append(log, a.intent, a.now);
    (if a.fate.ran then grown else log, if a.fate.delivery.Honest? then answer else Err(Unavailable))
  }

  // ---- The database and its handle ----

  lemma {:induction false} EventsOfAppended(rows: seq<D.D1Row>, row: D.D1Row)
    ensures D.EventsOf(rows + [row]) == D.EventsOf(rows) + [row.event]
  {
    if rows == [] {
      assert rows + [row] == [row] && [row][1..] == [];
    } else {
      assert (rows + [row])[1..] == rows[1..] + [row];
      EventsOfAppended(rows[1..], row);
    }
  }

  /** The row to insert keeps the table valid and is found afterwards. */
  lemma InsertedRows(rows: seq<D.D1Row>, intent: Intent, now: DateTime)
    requires UniqueIds(D.EventsOf(rows)) && D.ValidRows(rows) && PrintableYear(intent.occurredAt)
    ensures var log := D.EventsOf(rows);
            var grown := rows + [D.D1Row(Key(intent.occurredAt), StoredEvent(intent, now))];
            var next := if Find(log, intent.id).None? then grown else rows;
            && UniqueIds(D.EventsOf(next)) && D.ValidRows(next)
            && D.EventsOf(next) == Append(log, intent, now).0
            && Find(D.EventsOf(next), intent.id).Some?
  {
    hide Key;
    var log := D.EventsOf(rows);
    AppendKeepsLog(log, intent, now);
    if Find(log, intent.id).None? {
      EventsOfAppended(rows, D.D1Row(Key(intent.occurredAt), StoredEvent(intent, now)));
      FindAppended(log, StoredEvent(intent, now));
    }
  }

  class Database {
    var rows: seq<D.D1Row>

    ghost predicate Valid()
      reads this
    {
      UniqueIds(D.EventsOf(rows)) && D.ValidRows(rows)
    }

    constructor ()
      ensures Valid() && rows == []
    {
      rows := [];
    }

    /** `INSERT … ON CONFLICT(id) DO NOTHING` and `SELECT … WHERE id=?`, in one transaction. */
    method RunBatch(intent: Intent, now: DateTime) returns (batch: Batch)
      requires Valid() && PrintableYear(intent.occurredAt)
      modifies this
      ensures Valid() && old(rows) <= rows
      ensures D.EventsOf(rows) == Append(old(D.EventsOf(rows)), intent, now).0
      ensures rows == AttemptRows(old(rows), Attempt(intent, now, Fate(true, Honest)))
      ensures ReadReceipt(batch) == Find(D.EventsOf(rows), intent.id) && ReadReceipt(batch).Some?
    {
      var missing := Find(D.EventsOf(rows), intent.id).None?;
      InsertedRows(rows, intent, now);
      hide Append, Find, Key, D.EventsOf, D.ValidRows, UniqueIds, PrintableYear, ReadReceipt, HonestReceipt;
      if missing {
        rows := rows + [D.D1Row(Key(intent.occurredAt), StoredEvent(intent, now))];
      }
      var found := Find(D.EventsOf(rows), intent.id);
      batch := HonestReceipt(missing, found);
      HonestReceiptIsRead(missing, found);
    }

    method AppendEvent(intent: Intent, now: DateTime, fate: Fate) returns (result: Result<StoredEvent, StoreError>)
      requires Valid() && PrintableYear(intent.occurredAt) && ValidFate(fate)
      modifies this
      ensures Valid() && old(rows) <= rows
      ensures (D.EventsOf(rows), result) == Attempted(old(D.EventsOf(rows)), Attempt(intent, now, fate))
      ensures rows == AttemptRows(old(rows), Attempt(intent, now, fate))
    {
      ghost var log := D.EventsOf(rows);
      var batch := if fate.delivery.Damaged? then fate.delivery.batch else NoBatch;
      if fate.ran {
        var reply := RunBatch(intent, now);
        if Find(log, intent.id).None? {
          FindAppended(log, StoredEvent(intent, now));
        }
        if fate.delivery.Honest? {
          batch := reply;
        }
      }
      var stored := ReadReceipt(batch);
      if stored.None? {
        return Err(Unavailable);
      }
      result := if StoredEvent(intent, stored.value.createdAt) == stored.value then Ok(stored.value) else Err(Conflict);
    }

    /** Unavailable without a reply; otherwise the event stored under the id, and none exactly when
      no row has it. */
    method GetEvent(id: string, delivered: bool) returns (result: Result<Option<StoredEvent>, StoreError>)
      requires Valid()
      ensures result.Err? <==> !delivered
      ensures result.Err? ==> result.error == Unavailable
      ensures result.Ok? ==> (result.value.None? <==> forall row :: row in rows ==> row.event.intent.id != id)
      ensures result.Ok? ==> forall row :: row in rows && row.event.intent.id == id ==> result.value == Some(row.event)
    {
      UniqueFind(D.EventsOf(rows), id);
      D.RowsAndEvents(rows);
      result := if delivered then Ok(Find(D.EventsOf(rows), id)) else Err(Unavailable);
    }

    /** Builds the query, refuses a limit outside 1 to 200, and runs it. The answer is the listing by
      key, and that of the reference store when the filter and the rows it asks for lie on one side of
      year 10000. */
    method ListEvents(f: Filter, delivered: bool) returns (result: Result<Log, StoreError>)
      requires Valid() && D.PrintableFilter(f)
      ensures result == if delivered && 1 <= f.limit <= 200 then Ok(D.KeyList(rows, f)) else Err(Unavailable)
      ensures forall late :: result.Ok? && D.AskedOnSide(rows, f.fields, late) && D.FilterOnSide(f, late)
                             ==> result.value == List(Less, D.EventsOf(rows), f)
    {
      var query, values := D.BuildQuery(f);
      if f.limit < 1 || f.limit > 200 || !delivered {
        return Err(Unavailable);
      }
      result := Ok(D.Execute(query, values, rows, f.limit));
      D.D1ListsByKey(query, values, rows, f);
      forall late | D.AskedOnSide(rows, f.fields, late) && D.FilterOnSide(f, late)
        ensures D.KeyList(rows, f) == List(Less, D.EventsOf(rows), f)
      {
        D.D1ListsAsReference(rows, f, late);
      }
    }
  }

  // ---- Whole runs ----

  /** Attempts by any number of callers take effect one batch at a time. */
  function Run(log: Log, attempts: seq<Attempt>): (Log, seq<Result<StoredEvent, StoreError>>)
    decreases |attempts|
  {
    if attempts == [] then (log, [])
    else
      var (next, answer) := Attempted(log, attempts[0]);
      var (end, answers) := Run(next, attempts[1..]);
      (end, [answer] + answers)
  }

  /** The reference store, given only the appends that took place. */
  function ReferenceRun(log: Log, attempts: seq<Attempt>): Log
    decreases |attempts|
  {
    if attempts == [] then log
    else if !attempts[0].fate.ran then ReferenceRun(log, attempts[1..])
    else ReferenceRun(Append(log, attempts[0].intent, attempts[0].now).0, attempts[1..])
  }

  /** The first event that a run offers for an id. */
  function FirstOffered(attempts: seq<Attempt>, id: string): Option<StoredEvent> {
    if attempts == [] then None
    else if attempts[0].fate.ran && attempts[0].intent.id == id then Some(StoredEvent(attempts[0].intent, attempts[0].now))
    else FirstOffered(attempts[1..], id)
  }

  lemma RunStep(log: Log, attempts: seq<Attempt>)
    requires attempts != []
    ensures var tail := Run(Attempted(log, attempts[0]).0, attempts[1..]);
            Run(log, attempts) == (tail.0, [Attempted(log, attempts[0]).1] + tail.1)
  {}

  /** The log after a run is that of the reference store, ids stay unique and rows stay. */
  lemma {:induction false} RunIsReference(log: Log, attempts: seq<Attempt>)
    requires UniqueIds(log)
    ensures Run(log, attempts).0 == ReferenceRun(log, attempts)
    ensures UniqueIds(Run(log, attempts).0) && log <= Run(log, attempts).0
    ensures |Run(log, attempts).1| == |attempts|
    decreases |attempts|
  {
    if attempts != [] {
      AppendKeepsLog(log, attempts[0].intent, attempts[0].now);
      RunIsReference(Attempted(log, attempts[0]).0, attempts[1..]);
    }
  }

  /** The row under an id is the one that was there, and otherwise the first that a run offers. */
  lemma {:induction false} RowAfterRun(log: Log, attempts: seq<Attempt>, id: string)
    requires UniqueIds(log)
    ensures Find(Run(log, attempts).0, id) == if Find(log, id).Some? then Find(log, id) else FirstOffered(attempts, id)
    decreases |attempts|
  {
    if attempts != [] {
      var a := attempts[0];
      var next := Attempted(log, a).0;
      AppendKeepsLog(log, a.intent, a.now);
      RowAfterRun(next, attempts[1..], id);
      RunStep(log, attempts);
      RowAfterAttempt(log, a, id);
    }
  }

  lemma RowAfterAttempt(log: Log, a: Attempt, id: string)
    requires UniqueIds(log)
    ensures Find(Attempted(log, a).0, id) == if Find(log, id).Some? then Find(log, id) else FirstOffered([a], id)
  {
    assert [a][1..] == [];
    assert FirstOffered([], id) == None;
    if a.fate.ran && Find(log, a.intent.id).None? {
      var e := StoredEvent(a.intent, a.now);
      FindAppended(log, e);
      if id != a.intent.id {
        FindOther(log, e, id);
      }
    }
  }

  lemma {:induction false} FindOther(log: Log, e: StoredEvent, id: string)
    requires e.intent.id != id
    ensures Find(log + [e], id) == Find(log, id)
  {
    if log == [] {
      assert log + [e] == [e] && [e][1..] == [];
    } else {
      assert (log + [e])[1..] == log[1..] + [e];
      FindOther(log[1..], e, id);
    }
  }

  /** What a caller is told, given the row that is stored under its id: nothing without a valid
    reply, the row if its own intent is the stored one, and a conflict otherwise. */
  function Answer(a: Attempt, row: Option<StoredEvent>): Result<StoredEvent, StoreError> {
    if !a.fate.delivery.Honest? || row.None? then Err(Unavailable)
    else if row.value.intent == a.intent then Ok(row.value)
    else Err(Conflict)
  }

  lemma AnswerOfAttempt(log: Log, a: Attempt)
    requires UniqueIds(log) && ValidFate(a.fate)
    ensures Attempted(log, a).1 == Answer(a, Find(Attempted(log, a).0, a.intent.id))
    ensures a.fate.ran ==> Find(Attempted(log, a).0, a.intent.id).Some?
  {
    if a.fate.ran && Find(log, a.intent.id).None? {
      FindAppended(log, StoredEvent(a.intent, a.now));
    }
  }

  /** Over every run, whatever is lost, every answer is determined by the one row that the run leaves
    under the id: all retries of a keyed event that get a valid reply are told of that first row, or
    of a conflict if they ask for something else. */
  lemma {:induction false} AnswersNameTheRow(log: Log, attempts: seq<Attempt>, k: nat)
    requires UniqueIds(log) && k < |attempts|
    requires forall i :: 0 <= i < |attempts| ==> ValidFate(attempts[i].fate)
    ensures |Run(log, attempts).1| == |attempts|
    ensures Run(log, attempts).1[k] == Answer(attempts[k], Find(Run(log, attempts).0, attempts[k].intent.id))
    ensures attempts[k].fate.ran ==> Find(Run(log, attempts).0, attempts[k].intent.id).Some?
    decreases |attempts|
  {
    var a := attempts[0];
    var next := Attempted(log, a).0;
    AppendKeepsLog(log, a.intent, a.now);
    RunStep(log, attempts);
    RunIsReference(next, attempts[1..]);
    hide Run, Find, Answer, Append, UniqueIds;
    if k == 0 {
      AnswerOfAttempt(log, a);
      RowAfterRun(next, attempts[1..], a.intent.id);
    } else {
      assert attempts[1..][k - 1] == attempts[k];
      AnswersNameTheRow(next, attempts[1..], k - 1);
    }
  }

  function Count(log: Log, id: string): nat {
    if log == [] then 0 else (if log[0].intent.id == id then 1 else 0) + Count(log[1..], id)
  }

  lemma {:induction false} CountUnique(log: Log, id: string)
    requires UniqueIds(log)
    ensures Count(log, id) == if Find(log, id).Some? then 1 else 0
  {
    if log != [] {
      CountUnique(log[1..], id);
    }
  }

  lemma {:induction false} FirstOfRetries(attempts: seq<Attempt>, intent: Intent)
    requires forall i :: 0 <= i < |attempts| ==> attempts[i].intent == intent
    ensures FirstOffered(attempts, intent.id).Some? <==> exists i :: 0 <= i < |attempts| && attempts[i].fate.ran
  {
    if attempts != [] && !attempts[0].fate.ran {
      FirstOfRetries(attempts[1..], intent);
      if exists i :: 0 <= i < |attempts| && attempts[i].fate.ran {
        var i :| 0 <= i < |attempts| && attempts[i].fate.ran;
        assert attempts[1..][i - 1].fate.ran;
      }
    }
  }

  lemma {:induction false} LogAfterRetries(log: Log, attempts: seq<Attempt>, intent: Intent)
    requires UniqueIds(log) && Find(log, intent.id).None?
    requires forall i :: 0 <= i < |attempts| ==> attempts[i].intent == intent
    ensures var row := FirstOffered(attempts, intent.id);
            Run(log, attempts).0 == if row.Some? then log + [row.value] else log
    decreases |attempts|
  {
    if attempts != [] {
      RunStep(log, attempts);
      if attempts[0].fate.ran {
        var e := StoredEvent(intent, attempts[0].now);
        AppendKeepsLog(log, intent, attempts[0].now);
        FindAppended(log, e);
        StoredAlready(log + [e], attempts[1..], intent);
      } else {
        LogAfterRetries(log, attempts[1..], intent);
      }
    }
  }

  /** Retrying one event: exactly one row if any of the batches ran, none if none did, and nothing
    else in the log changes. */
  lemma RetriesLeaveOneRow(log: Log, attempts: seq<Attempt>, intent: Intent)
    requires UniqueIds(log) && Find(log, intent.id).None?
    requires forall i :: 0 <= i < |attempts| ==> attempts[i].intent == intent
    ensures var row := FirstOffered(attempts, intent.id);
            && Run(log, attempts).0 == (if row.Some? then log + [row.value] else log)
            && (row.Some? <==> exists i :: 0 <= i < |attempts| && attempts[i].fate.ran)
            && Count(Run(log, attempts).0, intent.id) == if row.Some? then 1 else 0
  {
    hide Run, FirstOffered, Find, Count, UniqueIds;
    FirstOfRetries(attempts, intent);
    LogAfterRetries(log, attempts, intent);
    RunIsReference(log, attempts);
    RowAfterRun(log, attempts, intent.id);
    CountUnique(Run(log, attempts).0, intent.id);
  }

  lemma {:induction false} StoredAlready(log: Log, attempts: seq<Attempt>, intent: Intent)
    requires UniqueIds(log) && Find(log, intent.id).Some?
    requires forall i :: 0 <= i < |attempts| ==> attempts[i].intent == intent
    ensures Run(log, attempts).0 == log
    decreases |attempts|
  {
    if attempts != [] {
      StoredAlready(log, attempts[1..], intent);
    }
  }

  // ---- Paging while attempts run ----

  /** What an attempt leaves in the table. */
  function AttemptRows(rows: seq<D.D1Row>, a: Attempt): seq<D.D1Row>
    requires PrintableYear(a.intent.occurredAt)
  {
    if a.fate.ran && Find(D.EventsOf(rows), a.intent.id).None?
    then rows + [D.D1Row(Key(a.intent.occurredAt), StoredEvent(a.intent, a.now))]
    else rows
  }

  /** Attempts with times that a request can carry. */
  predicate Writable(attempts: seq<Attempt>) {
    forall i :: 0 <= i < |attempts| ==> ParsedYear(attempts[i].intent.occurredAt)
  }

  function RunRows(rows: seq<D.D1Row>, attempts: seq<Attempt>): seq<D.D1Row>
    requires Writable(attempts)
    decreases |attempts|
  {
    if attempts == [] then rows
    else
      assert ParsedYear(attempts[0].intent.occurredAt);
      RunRows(AttemptRows(rows, attempts[0]), attempts[1..])
  }

  ghost predicate ValidTable(rows: seq<D.D1Row>) { UniqueIds(D.EventsOf(rows)) && D.ParsedRows(rows) }

  lemma AttemptKeepsTable(rows: seq<D.D1Row>, a: Attempt)
    requires ValidTable(rows) && ParsedYear(a.intent.occurredAt)
    ensures ValidTable(AttemptRows(rows, a)) && rows <= AttemptRows(rows, a)
    ensures D.EventsOf(AttemptRows(rows, a)) == Attempted(D.EventsOf(rows), a).0
  {
    hide Key;
    var log := D.EventsOf(rows);
    AppendKeepsLog(log, a.intent, a.now);
    EventsOfAppended(rows, D.D1Row(Key(a.intent.occurredAt), StoredEvent(a.intent, a.now)));
  }

  /** The table after a run holds the log of the run. */
  lemma {:induction false} TableAfterRun(rows: seq<D.D1Row>, attempts: seq<Attempt>)
    requires ValidTable(rows) && Writable(attempts)
    ensures ValidTable(RunRows(rows, attempts)) && rows <= RunRows(rows, attempts)
    ensures D.EventsOf(RunRows(rows, attempts)) == Run(D.EventsOf(rows), attempts).0
    decreases |attempts|
  {
    hide ValidTable, AttemptRows, Attempted, D.EventsOf;
    if attempts != [] {
      assert ParsedYear(attempts[0].intent.occurredAt);
      AttemptKeepsTable(rows, attempts[0]);
      TableAfterRun(AttemptRows(rows, attempts[0]), attempts[1..]);
      RunStep(D.EventsOf(rows), attempts);
    }
  }

  /** The table at each request, with a stretch of the writers' attempts before each. */
  function Tables(rows: seq<D.D1Row>, schedule: seq<seq<Attempt>>): seq<seq<D.D1Row>>
    requires forall i :: 0 <= i < |schedule| ==> Writable(schedule[i])
    decreases |schedule|
  {
    if schedule == [] then [] else
      var next := RunRows(rows, schedule[0]);
      [next] + Tables(next, schedule[1..])
  }

  lemma {:induction false} TablesGrow(rows: seq<D.D1Row>, schedule: seq<seq<Attempt>>)
    requires ValidTable(rows) && forall i :: 0 <= i < |schedule| ==> Writable(schedule[i])
    ensures |Tables(rows, schedule)| == |schedule| && K.GrowingTables(Tables(rows, schedule))
    ensures forall i :: 0 <= i < |schedule| ==> rows <= Tables(rows, schedule)[i]
    decreases |schedule|
  {
    hide RunRows, D.EventsOf, UniqueIds, D.ParsedRows, Writable;
    if schedule != [] {
      TableAfterRun(rows, schedule[0]);
      TablesGrow(RunRows(rows, schedule[0]), schedule[1..]);
    }
  }

  /** Paging over the D1 store while attempts run, whatever becomes of their replies and whatever the
    years: strictly descending by key and id, nothing twice, nothing that does not match by key, and in
    the end everything that matched by key at the first request. */
  lemma PagingDuringAttempts(rows: seq<D.D1Row>, schedule: seq<seq<Attempt>>, f: Filter)
    requires ValidTable(rows) && schedule != [] && 1 <= f.limit <= 200 && D.ParsedFilter(f)
    requires forall i :: 0 <= i < |schedule| ==> Writable(schedule[i])
    ensures D.PrintableFilter(f) && |Tables(rows, schedule)| == |schedule|
    ensures K.ParsedTables(Tables(rows, schedule))
    ensures var tables := Tables(rows, schedule);
            var (events, done) := K.ReadKeyPages(tables, f);
            && K.ParsedEvents(events) && K.KeyDescending(events)
            && K.AllMatchByKey(tables[|tables| - 1], f, events)
            && (done ==> K.CoversByKey(tables[0], f, events))
  {
    TablesGrow(rows, schedule);
    K.GrowingKeyPages(Tables(rows, schedule), f);
  }

  /** What is asked for of the attempts lies on one side of year 10000. */
  predicate AttemptsOnSide(attempts: seq<Attempt>, fields: FieldFilter, late: bool) {
    forall i :: 0 <= i < |attempts| ==>
      (MatchesFields(fields, attempts[i].intent) ==> D.OnSide(attempts[i].intent.occurredAt, late))
  }

  lemma {:induction false} RunStaysOnSide(rows: seq<D.D1Row>, attempts: seq<Attempt>, fields: FieldFilter, late: bool)
    requires Writable(attempts) && AttemptsOnSide(attempts, fields, late) && D.AskedOnSide(rows, fields, late)
    ensures D.AskedOnSide(RunRows(rows, attempts), fields, late)
    decreases |attempts|
  {
    hide MatchesFields, D.OnSide, Find, D.EventsOf, Key;
    if attempts != [] {
      assert ParsedYear(attempts[0].intent.occurredAt);
      RunStaysOnSide(AttemptRows(rows, attempts[0]), attempts[1..], fields, late);
    }
  }

  lemma {:induction false} TablesStayOnSide(rows: seq<D.D1Row>, schedule: seq<seq<Attempt>>, fields: FieldFilter, late: bool)
    requires forall i :: 0 <= i < |schedule| ==> Writable(schedule[i]) && AttemptsOnSide(schedule[i], fields, late)
    requires D.AskedOnSide(rows, fields, late)
    ensures forall i :: 0 <= i < |Tables(rows, schedule)| ==> D.AskedOnSide(Tables(rows, schedule)[i], fields, late)
    decreases |schedule|
  {
    hide RunRows, D.AskedOnSide, AttemptsOnSide, Writable;
    if schedule != [] {
      RunStaysOnSide(rows, schedule[0], fields, late);
      TablesStayOnSide(RunRows(rows, schedule[0]), schedule[1..], fields, late);
    }
  }

  /** And these are the reference pages when the filter, the rows at the start and the attempts, as far
    as they have the fields asked for, lie on one side of year 10000. */
  lemma PagingDuringAttemptsAsReference(rows: seq<D.D1Row>, schedule: seq<seq<Attempt>>, f: Filter, late: bool)
    requires ValidTable(rows) && schedule != [] && 1 <= f.limit <= 200 && D.ParsedFilter(f)
    requires D.FilterOnSide(f, late) && D.AskedOnSide(rows, f.fields, late)
    requires forall i :: 0 <= i < |schedule| ==> Writable(schedule[i]) && AttemptsOnSide(schedule[i], f.fields, late)
    ensures K.ParsedTables(Tables(rows, schedule))
    ensures var tables := Tables(rows, schedule);
            var (events, done) := K.ReadKeyPages(tables, f);
            && |tables| == |schedule|
            && Descending(Less, events)
            && AllMatch(Less, D.EventsOf(tables[|tables| - 1]), f, events)
            && (done ==> Covers(Less, D.EventsOf(tables[0]), f, events))
  {
    var tables := Tables(rows, schedule);
    TablesGrow(rows, schedule);
    TablesStayOnSide(rows, schedule, f.fields, late);
    hide Descending, AllMatch, Covers, ReadPages, Tables, D.EventsOf, StrictTotal, D.AskedOnSide, AttemptsOnSide;
    K.KeyPagesAreReference(tables, f, late);
    LessIsStrictTotal();
    K.LogsGrow(tables);
    GrowingPages(Less, K.Logs(tables), f);
  }
}

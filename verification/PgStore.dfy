/** The PostgreSQL store: rows read back through the legacy envelope, an append in two statements,
  and every interleaving of concurrent appends. */
module PgStore {
  import opened Wrappers
  import opened Order
  import opened Time
  import opened Rfc3339
  import opened Utf8
  import opened Json
  import opened Metadata
  import opened Redaction
  import opened Identity
  import opened Envelope
  import opened Events
  import opened ReferenceStore
  import opened Rounding
  import opened Sql
  import opened Conditions
  import opened Paging
  import opened PgQuery

  datatype PgError = KeyReused | InvalidStoredValue

  /** What is stored of an intent: its time at microsecond precision. */
  function Normalized(i: Intent): Intent {
    i.(occurredAt := TruncateMicros(i.occurredAt))
  }

  /** A row as the repository reads it. */
  function ReadRow(row: StoredEvent): StoredEvent {
    row.(intent := row.intent.(metadata := ProjectMetadata(Object(row.intent.metadata))))
  }

  function ReadRows(rows: Log): Log {
    if rows == [] then [] else [ReadRow(rows[0])] + ReadRows(rows[1..])
  }

  // ---- The repository ----

  class Repository {
    var rows: Log
    const less: IdOrder
    const bind: Rounding

    /** The primary key, and columns that hold whole microseconds. */
    ghost predicate Valid()
      reads this
    {
      UniqueIds(rows) && WholeTimes(rows)
    }

    constructor (less: IdOrder, bind: Rounding)
      ensures Valid() && rows == [] && this.less == less && this.bind == bind
    {
      this.less, this.bind := less, bind;
      rows := [];
    }

    /** `insert … on conflict (id) do nothing returning …`, one atomic statement. */
    method Insert(intent: Intent, now: DateTime) returns (row: Option<StoredEvent>)
      requires Valid() && MicroAligned(intent.occurredAt)
      modifies this
      ensures Valid()
      ensures rows == Append(old(rows), intent, now).0
      ensures row == if Find(old(rows), intent.id).None? then Some(StoredEvent(intent, now)) else None
    {
      AppendKeepsLog(rows, intent, now);
      if Find(rows, intent.id).Some? {
        return None;
      }
      rows := rows + [StoredEvent(intent, now)];
      row := Some(StoredEvent(intent, now));
    }

    /** The row with this id as it is read, and none exactly when no row has it. */
    method GetEvent(id: string) returns (event: Option<StoredEvent>)
      requires Valid()
      ensures event.None? <==> forall row :: row in rows ==> row.intent.id != id
      ensures forall row :: row in rows && row.intent.id == id ==> event == Some(ReadRow(row))
    {
      UniqueFind(rows, id);
      var row := Find(rows, id);
      event := match row case Some(r) => Some(ReadRow(r)) case None => None;
    }

    /** Both statements, with nothing in between. */
    method AppendEvent(intent: Intent, now: DateTime) returns (result: Result<StoredEvent, PgError>)
      requires Valid()
      modifies this
      ensures Valid() && rows == Append(old(rows), Normalized(intent), now).0
      ensures result == if Find(old(rows), intent.id).None? then Ok(ReadRow(StoredEvent(Normalized(intent), now)))
                        else Confirm(Normalized(intent), old(rows))
    {
      var expected := Normalized(intent);
      TruncateKeepsMicros(intent.occurredAt);
      var row := Insert(expected, now);
      if row.Some? {
        return Ok(ReadRow(row.value));
      }
      var stored := GetEvent(expected.id);
      if stored.None? {
        return Err(InvalidStoredValue);
      }
      result := if StoredEvent(expected, stored.value.createdAt) == stored.value then Ok(stored.value) else Err(KeyReused);
    }

    /** Builds the query, runs it, and reads the rows. The answer is the reference listing for the
      filter with rounded bounds, and for the filter itself when rounding leaves its bounds the same. */
    method ListEvents(f: Filter) returns (events: Log)
      requires Valid() && StrictTotal(less) && EmptyFirst(less)
      ensures events == List(less, ReadRows(rows), Rounded(bind, f))
      ensures SameBounds(less, bind, f) && (f.cursor.Some? ==> f.cursor.value.id != "") ==>
                events == List(less, ReadRows(rows), f)
    {
      hide Execute, SameBounds, List, WholeTimes, UniqueIds;
      var builder := new QueryBuilder(bind);
      PushEventFilters(builder, f);
      var found := Execute(less, builder.tokens, builder.binds, rows, f.limit);
      PgListsAsReference(less, rows, Rounded(bind, f));
      ListCommutesWithRead(less, rows, Rounded(bind, f));
      ListCommutesWithRead(less, rows, f);
      events := ReadRows(found);
      if SameBounds(less, bind, f) && (f.cursor.Some? ==> f.cursor.value.id != "") {
        ListsSame(less, bind, rows, f);
      }
    }
  }

  /** The second statement: find the row and compare it, creation time aside. */
  function Confirm(expected: Intent, rows: Log): Result<StoredEvent, PgError> {
    match Find(rows, expected.id)
    case None => Err(InvalidStoredValue)
    case Some(row) => if ReadRow(row).intent == expected then Ok(ReadRow(row)) else Err(KeyReused)
  }

  /** Which of the three forms a stored value is read in, number by number and key by key. */
  lemma ProjectedExactly(stored: Value)
    ensures stored.Object? && SafeEverywhere(stored)
            && !HasKey(stored.members, "_lenso_legacy_value") && !HasKey(stored.members, "_lenso_legacy_portable_json")
            ==> ProjectMetadata(stored) == stored.members
    ensures SafeEverywhere(stored)
            && (stored.Object? ==>
                  || HasKey(stored.members, "_lenso_legacy_value")
                  || HasKey(stored.members, "_lenso_legacy_portable_json"))
            ==> ProjectMetadata(stored) == [Member("_lenso_legacy_value", stored)]
    ensures !SafeEverywhere(stored) ==> ProjectMetadata(stored) == [Member("_lenso_legacy_portable_json", String(Text(stored)))]
    ensures SafeEverywhere(Object(ProjectMetadata(stored)))
  {
    PortableExactly(stored);
    ProjectedIsPortable(stored);
    PortableExactly(Object(ProjectMetadata(stored)));
    hide SafeEverywhere, Text;
  }

  // ---- Reading rows does not disturb listing ----

  lemma ReadMatches(less: IdOrder, f: Filter, row: StoredEvent)
    ensures Matches(less, f, ReadRow(row)) <==> Matches(less, f, row)
  {}

  lemma {:induction false} ReadSelect(less: IdOrder, rows: Log, f: Filter)
    ensures Select(less, ReadRows(rows), f) == ReadRows(Select(less, rows, f))
  {
    if rows != [] {
      ReadSelect(less, rows[1..], f);
      ReadMatches(less, f, rows[0]);
      hide Matches, ReadRow;
      var tail := rows[1..];
      var rest := Select(less, tail, f);
      var read := ReadRows(rows);
      assert read[0] == ReadRow(rows[0]) && read[1..] == ReadRows(tail);
      if Matches(less, f, rows[0]) {
        assert ([rows[0]] + rest)[1..] == rest;
        assert Select(less, rows, f) == [rows[0]] + rest;
        assert Select(less, read, f) == [read[0]] + Select(less, read[1..], f);
      } else {
        assert Select(less, rows, f) == rest;
        assert Select(less, read, f) == Select(less, read[1..], f);
      }
    }
  }

  lemma {:induction false} ReadInsert(less: IdOrder, s: Log, e: StoredEvent)
    ensures InsertDescending(less, ReadRows(s), ReadRow(e)) == ReadRows(InsertDescending(less, s, e))
  {
    if s != [] {
      ReadInsert(less, s[1..], e);
      assert BelowEvent(less, ReadRow(s[0]), ReadRow(e)) <==> BelowEvent(less, s[0], e);
      assert ([e] + s)[1..] == s;
    } else {
      assert [e][1..] == [];
    }
  }

  lemma {:induction false} ReadSort(less: IdOrder, s: Log)
    ensures SortDescending(less, ReadRows(s)) == ReadRows(SortDescending(less, s))
  {
    if s != [] {
      ReadSort(less, s[1..]);
      ReadInsert(less, SortDescending(less, s[1..]), s[0]);
    }
  }

  lemma {:induction false} ReadTake(s: Log, n: nat)
    ensures |ReadRows(s)| == |s|
    ensures n <= |s| ==> ReadRows(s[..n]) == ReadRows(s)[..n]
  {
    if s != [] {
      ReadTake(s[1..], if n > 0 then n - 1 else 0);
      if 0 < n <= |s| {
        assert s[..n][1..] == s[1..][..n - 1];
      }
    }
  }

  /** Listing the rows as read is reading the listed rows. */
  lemma ListCommutesWithRead(less: IdOrder, rows: Log, f: Filter)
    ensures List(less, ReadRows(rows), f) == ReadRows(List(less, rows, f))
  {
    ReadSelect(less, rows, f);
    ReadSort(less, Select(less, rows, f));
    var all := Listing(less, rows, f);
    ReadTake(all, if 0 <= f.limit + 1 <= |all| then f.limit + 1 else 0);
    ReadTake(all, if I64_MAX <= |all| then I64_MAX else 0);
  }

  // ---- Concurrent appends ----

  datatype Client =
    | Start(intent: Intent)
    | Selecting(expected: Intent)
    | Done(result: Result<StoredEvent, PgError>)
    | Gone

  datatype State = State(rows: Log, clients: seq<Client>)

  /** One statement of one client, or the loss of a client or of its reply. */
  datatype Step = InsertStep(client: nat, now: DateTime) | SelectStep(client: nat) | LoseStep(client: nat)

  function Apply(s: State, step: Step): State {
    if step.client >= |s.clients| then s
    else
      var i := step.client;
      match (step, s.clients[i])
      case (InsertStep(_, now), Start(intent)) =>
        var n := Normalized(intent);
        var next := if Find(s.rows, n.id).None? then Done(Ok(ReadRow(StoredEvent(n, now)))) else Selecting(n);
        State(Append(s.rows, n, now).0, s.clients[i := next])
      case (SelectStep(_), Selecting(expected)) => s.(clients := s.clients[i := Done(Confirm(expected, s.rows))])
      case (LoseStep(_), _) => s.(clients := s.clients[i := Gone])
      case _ => s
  }

  function Run(s: State, steps: seq<Step>): State
    decreases |steps|
  {
    if steps == [] then s else Run(Apply(s, steps[0]), steps[1..])
  }

  function Begin(rows: Log, intents: seq<Intent>): State {
    State(rows, seq(|intents|, i requires 0 <= i < |intents| => Start(intents[i])))
  }

  /** What a finished client was told, in terms of the row that is stored under its id. */
  ghost predicate Told(rows: Log, intent: Intent, result: Result<StoredEvent, PgError>) {
    var row := Find(rows, intent.id);
    && row.Some?
    && (result == Ok(ReadRow(row.value)) || result == Err(KeyReused))
    && (result.Ok? ==> row.value.intent == Normalized(intent) || ReadRow(row.value).intent == Normalized(intent))
    && (result.Err? ==> ReadRow(row.value).intent != Normalized(intent))
  }

  ghost predicate ClientInv(rows: Log, intent: Intent, c: Client) {
    match c
    case Start(i) => i == intent
    case Selecting(expected) => expected == Normalized(intent) && Find(rows, intent.id).Some?
    case Done(result) => Told(rows, intent, result)
    case Gone => true
  }

  ghost predicate Inv(s: State, intents: seq<Intent>) {
    && UniqueIds(s.rows)
    && |s.clients| == |intents|
    && forall i :: 0 <= i < |intents| ==> ClientInv(s.rows, intents[i], s.clients[i])
  }

  lemma ClientInvGrows(rows: Log, more: Log, intent: Intent, c: Client)
    requires ClientInv(rows, intent, c)
    ensures ClientInv(rows + more, intent, c)
  {
    if Find(rows, intent.id).Some? {
      FindInGrownLog(rows, more, intent.id);
    }
  }

  lemma InsertedClient(rows: Log, intent: Intent, now: DateTime)
    requires UniqueIds(rows)
    ensures var n := Normalized(intent);
            var grown := Append(rows, n, now).0;
            if Find(rows, n.id).None? then Told(grown, intent, Ok(ReadRow(StoredEvent(n, now))))
            else grown == rows
  {
    var n := Normalized(intent);
    if Find(rows, n.id).None? {
      FindAppended(rows, StoredEvent(n, now));
    }
  }

  lemma ApplyKeepsInv(s: State, intents: seq<Intent>, step: Step)
    requires Inv(s, intents)
    ensures Inv(Apply(s, step), intents)
    ensures s.rows <= Apply(s, step).rows
  {
    hide Told, Confirm, ReadRow, Normalized, Append;
    var t := Apply(s, step);
    if step.client < |s.clients| && step.InsertStep? && s.clients[step.client].Start? {
      InsertKeepsInv(s, intents, step.client, step.now);
    } else if step.client < |s.clients| && step.SelectStep? && s.clients[step.client].Selecting? {
      SelectTells(s.rows, intents[step.client]);
    }
  }

  lemma SelectTells(rows: Log, intent: Intent)
    requires Find(rows, intent.id).Some?
    ensures Told(rows, intent, Confirm(Normalized(intent), rows))
  {}

  lemma InsertKeepsInv(s: State, intents: seq<Intent>, i: nat, now: DateTime)
    requires Inv(s, intents) && i < |s.clients| && s.clients[i].Start?
    ensures Inv(Apply(s, InsertStep(i, now)), intents)
    ensures s.rows <= Apply(s, InsertStep(i, now)).rows
  {
    var intent := intents[i];
    var n := Normalized(intent);
    var grown := Append(s.rows, n, now).0;
    InsertedClient(s.rows, intent, now);
    AppendKeepsLog(s.rows, n, now);
    hide Told, Confirm, ReadRow;
    var more := grown[|s.rows|..];
    assert grown == s.rows + more;
    forall k | 0 <= k < |intents| ensures ClientInv(grown, intents[k], s.clients[k]) {
      ClientInvGrows(s.rows, more, intents[k], s.clients[k]);
    }
  }

  lemma {:induction false} RunKeepsInv(s: State, intents: seq<Intent>, steps: seq<Step>)
    requires Inv(s, intents)
    ensures Inv(Run(s, steps), intents)
    ensures s.rows <= Run(s, steps).rows
    decreases |steps|
  {
    if steps != [] {
      ApplyKeepsInv(s, intents, steps[0]);
      RunKeepsInv(Apply(s, steps[0]), intents, steps[1..]);
    }
  }

  // ---- Where rows come from ----

  /** A row that was there before, or that holds the truncated intent of one of the clients. */
  ghost predicate ComesFrom(rows: Log, intents: seq<Intent>, row: StoredEvent) {
    row in rows || exists k :: 0 <= k < |intents| && row.intent == Normalized(intents[k])
  }

  lemma ApplyRowsComeFrom(rows: Log, s: State, intents: seq<Intent>, step: Step)
    requires Inv(s, intents) && forall row :: row in s.rows ==> ComesFrom(rows, intents, row)
    ensures forall row :: row in Apply(s, step).rows ==> ComesFrom(rows, intents, row)
  {
    hide Told, Normalized, UniqueIds, ReadRow, Confirm;
    if step.client < |s.clients| {
      assert ClientInv(s.rows, intents[step.client], s.clients[step.client]);
    }
  }

  /** Every row after a run is an earlier row or the truncated intent of a client. */
  lemma {:induction false} RowsComeFrom(rows: Log, s: State, intents: seq<Intent>, steps: seq<Step>)
    requires Inv(s, intents) && forall row :: row in s.rows ==> ComesFrom(rows, intents, row)
    ensures forall row :: row in Run(s, steps).rows ==> ComesFrom(rows, intents, row)
    decreases |steps|
  {
    hide Apply, ComesFrom, Inv;
    if steps != [] {
      ApplyRowsComeFrom(rows, s, intents, steps[0]);
      ApplyKeepsInv(s, intents, steps[0]);
      RowsComeFrom(rows, Apply(s, steps[0]), intents, steps[1..]);
    }
  }

  /** Over every interleaving, with any clients lost: each id is stored once, stored rows stay as
    they are and come from a client otherwise, a client that met a conflict finds the row, and every
    client that is told of success under one id is told of the same event. */
  lemma ConcurrentAppends(rows: Log, intents: seq<Intent>, steps: seq<Step>)
    requires UniqueIds(rows)
    ensures var s := Run(Begin(rows, intents), steps);
            && UniqueIds(s.rows) && rows <= s.rows
            && (forall row :: row in s.rows ==> ComesFrom(rows, intents, row))
            && |s.clients| == |intents|
            && (forall i :: 0 <= i < |intents| && s.clients[i].Done? ==>
                  Find(s.rows, intents[i].id).Some? && s.clients[i].result != Err(InvalidStoredValue))
            && (forall i, j :: 0 <= i < |intents| && 0 <= j < |intents| && intents[i].id == intents[j].id
                               && s.clients[i].Done? && s.clients[j].Done?
                               && s.clients[i].result.Ok? && s.clients[j].result.Ok?
                               ==> s.clients[i].result == s.clients[j].result)
  {
    RunKeepsInv(Begin(rows, intents), intents, steps);
    RowsComeFrom(rows, Begin(rows, intents), intents, steps);
    hide ReadRow, Normalized, ComesFrom;
    var s := Run(Begin(rows, intents), steps);
    forall i | 0 <= i < |intents| && s.clients[i].Done? ensures Told(s.rows, intents[i], s.clients[i].result) {
      assert ClientInv(s.rows, intents[i], s.clients[i]);
    }
  }

  /** Rows whose metadata is portable and uses no envelope key read back as they are. */
  predicate Plain(row: StoredEvent) {
    PortableMembers(row.intent.metadata) && !Reserved(row.intent.metadata)
  }

  lemma PlainReadsBack(row: StoredEvent)
    requires Plain(row)
    ensures ReadRow(row) == row
  {
    ProjectIsIdentity(row.intent.metadata);
  }

  /** Portable metadata without envelope keys, in what is stored and in what is sent under the id. */
  ghost predicate PlainUnder(rows: Log, intents: seq<Intent>, id: string) {
    && (forall row :: row in rows && row.intent.id == id ==> Plain(row))
    && (forall k :: 0 <= k < |intents| && intents[k].id == id ==>
          PortableMembers(intents[k].metadata) && !Reserved(intents[k].metadata))
  }

  lemma PlainAfterRun(rows: Log, intents: seq<Intent>, row: StoredEvent)
    requires PlainUnder(rows, intents, row.intent.id) && ComesFrom(rows, intents, row)
    ensures Plain(row)
  {}

  /** Then a client that ends is told exactly what the reference store would tell it: the stored event
    if its own intent, to the microsecond, is the stored one, and a conflict otherwise. */
  lemma ConcurrentOutcome(rows: Log, intents: seq<Intent>, steps: seq<Step>, i: nat)
    requires UniqueIds(rows) && i < |intents| && PlainUnder(rows, intents, intents[i].id)
    ensures var s := Run(Begin(rows, intents), steps);
            var row := Find(s.rows, intents[i].id);
            |s.clients| == |intents|
            && (s.clients[i].Done? ==>
                  && row.Some?
                  && s.clients[i].result == if Normalized(intents[i]) == row.value.intent then Ok(row.value) else Err(KeyReused))
  {
    hide Run, PlainUnder, Plain, ReadRow;
    RunKeepsInv(Begin(rows, intents), intents, steps);
    RowsComeFrom(rows, Begin(rows, intents), intents, steps);
    var s := Run(Begin(rows, intents), steps);
    assert ClientInv(s.rows, intents[i], s.clients[i]);
    if s.clients[i].Done? {
      var row := Find(s.rows, intents[i].id).value;
      PlainAfterRun(rows, intents, row);
      PlainReadsBack(row);
    }
  }

  /** Intents are the same to the microsecond when all fields agree and the times count the same
    microseconds. */
  lemma SameToTheMicrosecond(a: Intent, b: Intent)
    ensures Normalized(a) == Normalized(b)
            <==> a == b.(occurredAt := a.occurredAt) && Micros(a.occurredAt) == Micros(b.occurredAt)
  {
    TruncateIdentifies(a.occurredAt, b.occurredAt);
    assert Normalized(a) == Normalized(b) ==> Normalized(b).(occurredAt := a.occurredAt) == a;
    assert Normalized(b).(occurredAt := a.occurredAt) == b.(occurredAt := a.occurredAt);
  }

  /** A client that runs both statements with nothing in between is the repository's append. */
  lemma AloneAsRepository(rows: Log, intent: Intent, now: DateTime)
    ensures Run(Begin(rows, [intent]), [InsertStep(0, now), SelectStep(0)])
            == State(Append(rows, Normalized(intent), now).0,
                     [Done(if Find(rows, intent.id).None? then Ok(ReadRow(StoredEvent(Normalized(intent), now)))
                           else Confirm(Normalized(intent), rows))])
  {
    hide ReadRow, Confirm, Append;
    var start := Begin(rows, [intent]);
    assert start.clients == [Start(intent)];
    var steps := [InsertStep(0, now), SelectStep(0)];
    assert steps[1..] == [SelectStep(0)] && steps[1..][1..] == [];
    var next := Apply(start, steps[0]);
    AppendRows(rows, Normalized(intent), now);
    assert Run(start, steps) == Run(next, [SelectStep(0)]) == Apply(next, SelectStep(0));
  }

  lemma AppendRows(rows: Log, intent: Intent, now: DateTime)
    ensures Find(rows, intent.id).Some? ==> Append(rows, intent, now).0 == rows
  {}

  // ---- Paging while appends run ----

  lemma {:induction false} ReadRowAt(rows: Log, i: nat)
    requires i < |rows|
    ensures |ReadRows(rows)| == |rows| && ReadRows(rows)[i] == ReadRow(rows[i])
  {
    if i > 0 {
      ReadRowAt(rows[1..], i - 1);
    } else {
      ReadTake(rows, 0);
    }
  }

  lemma ReadRowsGrow(rows: Log, grown: Log)
    requires UniqueIds(grown) && rows <= grown
    ensures UniqueIds(ReadRows(grown)) && ReadRows(rows) <= ReadRows(grown)
  {
    ReadTake(grown, |rows|);
    assert grown[..|rows|] == rows;
    forall i, j | 0 <= i < j < |ReadRows(grown)| ensures ReadRows(grown)[i].intent.id != ReadRows(grown)[j].intent.id {
      ReadRowAt(grown, i);
      ReadRowAt(grown, j);
    }
  }

  lemma WholeAfterRun(rows: Log, intents: seq<Intent>, after: Log)
    requires WholeTimes(rows) && forall row :: row in after ==> ComesFrom(rows, intents, row)
    ensures WholeTimes(after)
  {
    forall i | 0 <= i < |after| ensures MicroAligned(after[i].intent.occurredAt) {
      assert ComesFrom(rows, intents, after[i]);
      if after[i] !in rows {
        var k :| 0 <= k < |intents| && after[i].intent == Normalized(intents[k]);
        TruncateKeepsMicros(intents[k].occurredAt);
      }
    }
  }

  /** The table at each request, with a stretch of the appenders' run before each. */
  function Tables(s: State, schedule: seq<seq<Step>>): seq<Log>
    decreases |schedule|
  {
    if schedule == [] then [] else
      var next := Run(s, schedule[0]);
      [next.rows] + Tables(next, schedule[1..])
  }

  function ReadTables(tables: seq<Log>): seq<Log> {
    if tables == [] then [] else [ReadRows(tables[0])] + ReadTables(tables[1..])
  }

  /** A table holds what it did and whole microseconds. */
  ghost predicate GrownTable(rows: Log, table: Log) {
    UniqueIds(table) && WholeTimes(table) && rows <= table
  }

  lemma {:induction false} TablesGrow(s: State, intents: seq<Intent>, schedule: seq<seq<Step>>)
    requires Inv(s, intents) && WholeTimes(s.rows)
    ensures |Tables(s, schedule)| == |schedule| && Growing(Tables(s, schedule))
    ensures forall i :: 0 <= i < |schedule| ==> GrownTable(s.rows, Tables(s, schedule)[i])
    decreases |schedule|
  {
    hide Run, Inv, ReadRows, UniqueIds, WholeTimes;
    if schedule != [] {
      var next := Run(s, schedule[0]);
      RunKeepsInv(s, intents, schedule[0]);
      assert UniqueIds(next.rows) by { InvIds(next, intents); }
      RowsComeFrom(s.rows, s, intents, schedule[0]);
      WholeAfterRun(s.rows, intents, next.rows);
      TablesGrow(next, intents, schedule[1..]);
    }
  }

  lemma InvIds(s: State, intents: seq<Intent>)
    requires Inv(s, intents)
    ensures UniqueIds(s.rows)
  {}

  lemma {:induction false} ReadTablesAt(tables: seq<Log>, i: nat)
    requires i < |tables|
    ensures |ReadTables(tables)| == |tables| && ReadTables(tables)[i] == ReadRows(tables[i])
  {
    if i > 0 {
      ReadTablesAt(tables[1..], i - 1);
    } else {
      ReadTablesLength(tables);
    }
  }

  lemma {:induction false} ReadTablesLength(tables: seq<Log>)
    ensures |ReadTables(tables)| == |tables|
  {
    if tables != [] {
      ReadTablesLength(tables[1..]);
    }
  }

  lemma ReadTablesGrow(tables: seq<Log>)
    requires Growing(tables)
    ensures |ReadTables(tables)| == |tables| && Growing(ReadTables(tables))
  {
    hide ReadRows, ReadTables, UniqueIds;
    ReadTablesLength(tables);
    var logs := ReadTables(tables);
    forall i | 0 <= i < |logs| ensures UniqueIds(logs[i]) {
      ReadTablesAt(tables, i);
      ReadRowsGrow(tables[i], tables[i]);
    }
    forall i, j | 0 <= i < j < |logs| ensures logs[i] <= logs[j] {
      ReadTablesAt(tables, i);
      ReadTablesAt(tables, j);
      ReadRowsGrow(tables[i], tables[j]);
    }
  }

  // ---- Pages as the repository makes them ----

  /** The page made from the rows that the query returns. */
  function PgPage(less: IdOrder, bind: Rounding, rows: Log, f: Filter): Page
    requires 1 <= f.limit <= 200
  {
    var conds := PgConds(Rounded(bind, f));
    PageOf(ReadRows(Execute(less, ClauseTokens(conds), Binds(conds), rows, f.limit)), f.limit)
  }

  /** The events of the pages read from the tables, and whether the last page had no cursor. */
  function ReadPgPages(less: IdOrder, bind: Rounding, tables: seq<Log>, f: Filter): (Log, bool)
    requires 1 <= f.limit <= 200
    decreases |tables|
  {
    if tables == [] then ([], false)
    else
      var page := PgPage(less, bind, tables[0], f);
      if page.next.None? then (page.events, true)
      else
        var (rest, done) := ReadPgPages(less, bind, tables[1..], At(f, page.next.value));
        (page.events + rest, done)
  }

  lemma PgPageIsListed(less: IdOrder, bind: Rounding, rows: Log, f: Filter)
    requires 1 <= f.limit <= 200
    ensures PgPage(less, bind, rows, f) == ListPage(less, ReadRows(rows), Rounded(bind, f))
  {
    hide Execute, List, ReadRows, ClauseTokens, Binds, PgConds;
    PgListsAsReference(less, rows, Rounded(bind, f));
    ListCommutesWithRead(less, rows, Rounded(bind, f));
  }

  lemma {:induction false} ReadWholeTimes(rows: Log, e: StoredEvent)
    requires WholeTimes(rows) && e in ReadRows(rows)
    ensures MicroAligned(e.intent.occurredAt)
  {
    if e != ReadRow(rows[0]) {
      ReadWholeTimes(rows[1..], e);
    }
  }

  /** The cursor of a page names a stored row, so it is in whole microseconds. */
  lemma PageCursorIsWhole(less: IdOrder, rows: Log, f: Filter)
    requires 1 <= f.limit <= 200 && WholeTimes(rows)
    ensures var page := ListPage(less, ReadRows(rows), f);
            page.next.Some? ==> MicroAligned(page.next.value.occurredAt)
  {
    hide Listing, ReadRows, WholeTimes, MicroAligned, ListPage;
    var log := ReadRows(rows);
    PageShape(less, log, f);
    if ListPage(less, log, f).next.Some? {
      var last := Listing(less, log, f)[f.limit - 1];
      ListingElements(less, log, f, last);
      ReadWholeTimes(rows, last);
    }
  }

  /** The repository's pages are the reference pages for the filter with rounded bounds. */
  lemma {:induction false} PgPagesAreRounded(less: IdOrder, bind: Rounding, tables: seq<Log>, f: Filter)
    requires 1 <= f.limit <= 200 && ToMicrosecond(bind)
    requires forall i :: 0 <= i < |tables| ==> WholeTimes(tables[i])
    ensures ReadPgPages(less, bind, tables, f) == ReadPages(less, ReadTables(tables), Rounded(bind, f))
    decreases |tables|
  {
    hide PgPage, ListPage, ReadRows, WholeTimes, MicroAligned;
    if tables != [] {
      PgPageIsListed(less, bind, tables[0], f);
      PageCursorIsWhole(less, tables[0], Rounded(bind, f));
      var page := PgPage(less, bind, tables[0], f);
      assert ReadTables(tables)[1..] == ReadTables(tables[1..]);
      if page.next.Some? {
        assert Rounded(bind, At(f, page.next.value)) == At(Rounded(bind, f), page.next.value);
        PgPagesAreRounded(less, bind, tables[1..], At(f, page.next.value));
      }
    }
  }

  lemma PgPagesOverTables(less: IdOrder, bind: Rounding, tables: seq<Log>, f: Filter)
    requires StrictTotal(less) && ToMicrosecond(bind) && tables != [] && 1 <= f.limit <= 200
    requires Growing(tables) && forall i :: 0 <= i < |tables| ==> WholeTimes(tables[i])
    ensures var (events, done) := ReadPgPages(less, bind, tables, f);
            var g := Rounded(bind, f);
            && Descending(less, events)
            && AllMatch(less, ReadRows(tables[|tables| - 1]), g, events)
            && (done ==> Covers(less, ReadRows(tables[0]), g, events))
  {
    hide ReadPages, ReadPgPages, Descending, AllMatch, Covers, ReadRows, ReadTables;
    PgPagesAreRounded(less, bind, tables, f);
    ReadTablesGrow(tables);
    ReadTablesAt(tables, 0);
    ReadTablesAt(tables, |tables| - 1);
    GrowingPages(less, ReadTables(tables), Rounded(bind, f));
  }

  /** Over whole microseconds a filter with the same bounds matches the same. */
  lemma SameMatches(less: IdOrder, bind: Rounding, f: Filter, rows: Log, events: Log)
    requires WholeTimes(rows) && ExactForStored(less, bind, f)
    ensures AllMatch(less, ReadRows(rows), Rounded(bind, f), events) <==> AllMatch(less, ReadRows(rows), f, events)
    ensures Covers(less, ReadRows(rows), Rounded(bind, f), events) <==> Covers(less, ReadRows(rows), f, events)
  {
    hide Matches, Rounded, ReadRows, MicroAligned, WholeTimes;
    forall e | e in ReadRows(rows) ensures Matches(less, Rounded(bind, f), e) <==> Matches(less, f, e) {
      ReadWholeTimes(rows, e);
    }
  }

  /** Paging over the PostgreSQL store while any appends run between and during the requests: strictly
    descending, nothing twice, nothing that the database does not take to match, and in the end
    everything that matched at the first request; and when rounding leaves the bounds the same, all of
    this in the terms of the filter itself. */
  lemma PagingDuringAppends(
    less: IdOrder, bind: Rounding, rows: Log, intents: seq<Intent>, schedule: seq<seq<Step>>, f: Filter)
    requires StrictTotal(less) && EmptyFirst(less) && ToMicrosecond(bind)
    requires UniqueIds(rows) && WholeTimes(rows) && schedule != [] && 1 <= f.limit <= 200
    ensures var tables := Tables(Begin(rows, intents), schedule);
            var (events, done) := ReadPgPages(less, bind, tables, f);
            |tables| == |schedule| &&
            var first, last := ReadRows(tables[0]), ReadRows(tables[|tables| - 1]);
            var g := Rounded(bind, f);
            && Descending(less, events)
            && AllMatch(less, last, g, events)
            && (done ==> Covers(less, first, g, events))
            && (SameBounds(less, bind, f) && (f.cursor.Some? ==> f.cursor.value.id != "") ==>
                  AllMatch(less, last, f, events) && (done ==> Covers(less, first, f, events)))
  {
    hide Tables, ReadPgPages, Descending, AllMatch, Covers, ReadRows, WholeTimes, UniqueIds, SameBounds, ExactForStored;
    assert Begin(rows, intents).rows == rows;
    InitialClients(rows, intents);
    TablesGrow(Begin(rows, intents), intents, schedule);
    var tables := Tables(Begin(rows, intents), schedule);
    PgPagesOverTables(less, bind, tables, f);
    if SameBounds(less, bind, f) && (f.cursor.Some? ==> f.cursor.value.id != "") {
      RoundingIsExact(less, bind, f);
      var events := ReadPgPages(less, bind, tables, f).0;
      SameMatches(less, bind, f, tables[0], events);
      SameMatches(less, bind, f, tables[|tables| - 1], events);
    }
  }

  lemma InitialClients(rows: Log, intents: seq<Intent>)
    requires UniqueIds(rows)
    ensures Inv(Begin(rows, intents), intents)
  {}

  // ---- Reserved keys ----

  /** The metadata under which a stored value with a reserved key is read back. */
  function Enveloped(metadata: seq<Member>): seq<Member> {
    [Member(LEGACY_VALUE_KEY, Object(metadata))]
  }

  /** A replay meets its stored row. It is recognised exactly when the stored metadata uses no
    reserved key: otherwise the same intent is refused, and what is accepted instead is the intent
    that carries the envelope as its own metadata. */
  lemma ReplayMeetsRow(rows: Log, row: StoredEvent, replay: Intent)
    requires UniqueIds(rows) && row in rows && PortableMembers(row.intent.metadata)
    requires replay.id == row.intent.id
    ensures Confirm(row.intent, rows).Ok? <==> !Reserved(row.intent.metadata)
    ensures Reserved(row.intent.metadata) ==>
            (Confirm(replay, rows).Ok? <==> replay == row.intent.(metadata := Enveloped(row.intent.metadata)))
  {
    var found := Find(rows, replay.id);
    assert found == Some(row);
    ProjectIsIdentity(row.intent.metadata);
    if Reserved(row.intent.metadata) {
      assert ReadRow(row).intent == row.intent.(metadata := Enveloped(row.intent.metadata));
    }
  }

  /** Every accepted request whose metadata carries a reserved key is stored and then refused when it
    is sent again. */
  lemma ReservedReplayIsRefused(
    rows: Log, request: AppendRequest, source: string, freshId: string, digest: Digest, now: DateTime)
    requires UniqueIds(rows) && Reserved(request.metadata)
    requires IntentFromRequest(request, source, freshId, digest).Ok?
    requires Find(rows, IntentFromRequest(request, source, freshId, digest).value.id).None?
    ensures var intent := Normalized(IntentFromRequest(request, source, freshId, digest).value);
            Confirm(intent, Append(rows, intent, now).0) == Err(KeyReused)
  {
    AcceptedMetadata(request, source);
    var intent := Normalized(IntentFromRequest(request, source, freshId, digest).value);
    var row := StoredEvent(intent, now);
    assert intent.metadata == RedactMembers(request.metadata);
    hide IntentFromRequest, Normalized, Reserved, RedactMembers;
    AppendKeepsLog(rows, intent, now);
    FindAppended(rows, row);
    assert row in Append(rows, intent, now).0;
    ReplayMeetsRow(Append(rows, intent, now).0, row, intent);
  }

  /** Such a request: one reserved key with an empty value, at any time that can be printed. */
  function ReservedRequest(t: DateTime, key: string): AppendRequest
    requires WireYear(t)
  {
    AppendRequest(
      "created", "create", Success, Info, Actor("user", None, None), None, None, None, None,
      [Member(LEGACY_VALUE_KEY, Null)], Print(t), Some(key))
  }

  lemma ReservedMetadataWithin()
    ensures WithinWireBounds(Object([Member(LEGACY_VALUE_KEY, Null)]))
  {
    var m := Member(LEGACY_VALUE_KEY, Null);
    var ms := [m];
    var none := ms[1..];
    assert none == [];
    assert Nodes(Null) == 1 && MembersNodes(none) == 0 && MembersNodes(ms) == 1;
    assert DepthWithin(Null, 31) && MembersDepthWithin(none, 31) && MembersDepthWithin(ms, 31) && DepthWithin(Object(ms), 32);
    assert KeysWithin(ms) && MembersSizesWithin(none) && MembersSizesWithin(ms) && SizesWithin(Object(ms));
    assert PortableMembers(none) && PortableMembers(ms) && Portable(Object(ms));
    ReservedBytes(m);
  }

  lemma OneMemberBytes(m: Member)
    ensures EncodedBytes(Object([m])) == Utf8Bytes(MemberText(m)) + 2
  {
    assert [m][1..] == [];
    assert Utf8Bytes(MembersText([])) == 0;
    MembersBytes([m]);
    WrappedBytes("{", MembersText([m]), "}");
    PlainBytes("{");
    PlainBytes("}");
  }

  lemma ReservedKeyIsPlain()
    ensures |LEGACY_VALUE_KEY| == 19 && Json.Plain(LEGACY_VALUE_KEY)
  {}

  lemma NullBytes()
    ensures EncodedBytes(Null) == 4
  {
    assert Text(Null) == "null";
    PlainBytes("null");
  }

  lemma ReservedBytes(m: Member)
    requires m == Member(LEGACY_VALUE_KEY, Null)
    ensures EncodedBytes(Object([m])) <= 100
  {
    hide *;
    ReservedKeyIsPlain();
    NullBytes();
    MemberBytes(m.key, m.value);
    OneMemberBytes(m);
  }

  lemma PlainNames()
    ensures ValidRequired("created", 256) && ValidRequired("create", 128) && ValidRequired("user", 128)
  {
    NoControlFrom("created");
    NoControlFrom("create");
    NoControlFrom("user");
  }

  /** The service accepts it, PostgreSQL stores it, and an exact replay is told that the key was reused. */
  lemma ReservedRequestIsRefused(t: DateTime, source: string, key: string, digest: Digest, now: DateTime)
    requires WireYear(t) && ValidRequired(source, 256) && ValidKey(key)
    ensures var request := ReservedRequest(t, key);
            ValidRequest(request, source) && IntentFromRequest(request, source, "", digest).Ok?
            && var intent := Normalized(IntentFromRequest(request, source, "", digest).value);
               Confirm(intent, Append([], intent, now).0) == Err(KeyReused)
  {
    var request := ReservedRequest(t, key);
    ReservedMetadataWithin();
    PlainNames();
    PrintParse(t);
    assert HasKey(request.metadata, LEGACY_VALUE_KEY) by { assert request.metadata[0].key == LEGACY_VALUE_KEY; }
    hide WithinWireBounds, ValidRequired, ValidKey, Print, ParseTimestamp, StableId, Normalized, Confirm;
    assert ValidRequest(request, source);
    ReservedReplayIsRefused([], request, source, "", digest, now);
  }

  // ---- Projection of what PostgreSQL returns ----

  /** An event accepted for PostgreSQL, with no reserved key, can be projected exactly when its
    truncated UTC year and the database clock are in the wire range and its metadata leaves room
    for the growth by redaction. */
  lemma AcceptedRowIsProjectable(request: AppendRequest, source: string, freshId: string, digest: Digest, createdAt: DateTime)
    requires Digest256(digest) && ValidRequired(freshId, 512)
    requires IntentFromRequest(request, source, freshId, digest).Ok?
    requires !Reserved(request.metadata)
    ensures var intent := Normalized(IntentFromRequest(request, source, freshId, digest).value);
            var metadata := Object(request.metadata);
            Projectable(ReadRow(StoredEvent(intent, createdAt))) <==>
            && WireYear(intent.occurredAt) && WireYear(createdAt)
            && EncodedBytes(metadata) + Growth(metadata) <= MAX_METADATA_BYTES
  {
    var intent := IntentFromRequest(request, source, freshId, digest).value;
    var row := StoredEvent(Normalized(intent), createdAt);
    AcceptedMetadata(request, source);
    assert Plain(row);
    PlainReadsBack(row);
    AcceptedIsProjectable(request, source, freshId, digest, createdAt);
    WireTimestampIsWireYear(intent.occurredAt);
    WireTimestampIsWireYear(row.intent.occurredAt);
    WireTimestampIsWireYear(createdAt);
    NormalizedProjection(intent, createdAt);
    AcceptedProjection(request, source, freshId, digest);
  }

  lemma AcceptedMetadata(request: AppendRequest, source: string)
    requires ValidRequest(request, source)
    ensures PortableMembers(RedactMembers(request.metadata))
    ensures Reserved(RedactMembers(request.metadata)) <==> Reserved(request.metadata)
  {
    RedactMembersWithin(request.metadata, MAX_DEPTH - 1);
    var redacted := RedactMembers(request.metadata);
    forall i | 0 <= i < |redacted| ensures redacted[i].key == request.metadata[i].key {
      RedactedMember(request.metadata, i);
    }
  }

  lemma NormalizedProjection(intent: Intent, createdAt: DateTime)
    ensures Projectable(StoredEvent(Normalized(intent), createdAt)) <==>
            && ProjectableText(intent) && WireTimestamp(TruncateMicros(intent.occurredAt)) && WireTimestamp(createdAt)
            && WithinWireBounds(Object(intent.metadata))
  {
    hide WithinWireBounds, WireTimestamp, TruncateMicros, AllValid, ValidRequired;
    assert TextFields(Normalized(intent)) == TextFields(intent);
  }

  /** The text and metadata half of what projection asks of an accepted event. */
  lemma AcceptedProjection(request: AppendRequest, source: string, freshId: string, digest: Digest)
    requires Digest256(digest) && ValidRequired(freshId, 512)
    requires IntentFromRequest(request, source, freshId, digest).Ok?
    ensures var intent := IntentFromRequest(request, source, freshId, digest).value;
            var metadata := Object(request.metadata);
            && ProjectableText(intent)
            && (WithinWireBounds(Object(intent.metadata)) <==>
                  EncodedBytes(metadata) + Growth(metadata) <= MAX_METADATA_BYTES)
  {
    var intent := IntentFromRequest(request, source, freshId, digest).value;
    if request.idempotencyKey.Some? {
      StableIdIsValid(digest, source, request.idempotencyKey.value);
    }
    AcceptedText(request, source, intent.id, intent.occurredAt);
    RedactedWithinBounds(Object(request.metadata));
    assert Redact(Object(request.metadata)) == Object(intent.metadata);
  }
}

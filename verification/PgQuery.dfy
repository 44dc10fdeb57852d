/** The PostgreSQL listing query: a builder that appends text and binds values, and what the
  finished query selects. */
module PgQuery {
  import opened Wrappers
  import opened Order
  import opened Time
  import opened Events
  import opened ReferenceStore
  import opened Rounding
  import opened Sql
  import opened Conditions

  function PgTime(t: Option<DateTime>): Option<SqlValue> {
    match t case Some(v) => Some(TimeValue(v)) case None => None
  }

  function PgCursor(c: Option<Position>): Option<(SqlValue, string)> {
    match c case Some(p) => Some((TimeValue(p.occurredAt), p.id)) case None => None
  }

  /** The conditions of a filter, in the order in which they are written. */
  function PgConds(f: Filter): seq<Cond> {
    FieldConds(f.fields, COLUMNS)
    + TimeConds(OccurredAt, PgTime(f.occurredAfter), PgTime(f.occurredBefore), PgCursor(f.cursor))
  }

  // ---- The builder ----

  /** What reaches the database of a bound value: times are whole microseconds there. */
  function Bound(bind: Rounding, v: SqlValue): SqlValue {
    if v.TimeValue? then TimeValue(bind(v.t)) else v
  }

  class QueryBuilder {
    var tokens: seq<Token>
    var binds: seq<SqlValue>
    const bind: Rounding

    constructor (bind: Rounding)
      ensures tokens == [] && binds == [] && this.bind == bind
    {
      this.bind := bind;
      tokens, binds := [], [];
    }

    method Push(text: seq<Token>)
      modifies this
      ensures tokens == old(tokens) + text && binds == old(binds)
    {
      tokens := tokens + text;
    }

    /** Binds a value and writes its placeholder. */
    method PushBind(v: SqlValue)
      modifies this
      ensures tokens == old(tokens) + [Param(|old(binds)| + 1)] && binds == old(binds) + [Bound(bind, v)]
    {
      binds := binds + [Bound(bind, v)];
      tokens := tokens + [Param(|binds|)];
    }
  }

  /** The builder holds exactly these conditions, and the flag says whether there are any. */
  ghost predicate Holding(b: QueryBuilder, hasWhere: bool, conds: seq<Cond>)
    reads b
  {
    b.tokens == ClauseTokens(conds) && b.binds == Binds(conds) && (hasWhere <==> conds != [])
  }

  lemma StartsEmpty(b: QueryBuilder)
    requires b.tokens == [] && b.binds == []
    ensures Holding(b, false, [])
  {}

  method PushWhere(b: QueryBuilder, hasWhere: bool) returns (now: bool)
    modifies b
    ensures now
    ensures b.tokens == old(b.tokens) + [if hasWhere then And else Where] && b.binds == old(b.binds)
  {
    if hasWhere {
      b.Push([And]);
    } else {
      b.Push([Where]);
    }
    now := true;
  }

  method PushComparison(
    b: QueryBuilder, hasWhere: bool, column: Column, op: Comparison, v: SqlValue, ghost conds: seq<Cond>)
    returns (now: bool)
    requires Holding(b, hasWhere, conds)
    modifies b
    ensures Holding(b, now, conds + [Simple(column, op, Bound(b.bind, v))])
  {
    ghost var c := Simple(column, op, Bound(b.bind, v));
    ClauseAppend(conds, c);
    ghost var start, separator, text := b.tokens, [if hasWhere then And else Where], [ColumnRef(column), Compare(op)];
    ghost var placeholder := [Param(|b.binds| + 1)];
    assert CondTokens(c, |b.binds| + 1) == text + placeholder && CondBinds(c) == [Bound(b.bind, v)];
    Grouped(start + separator, text, placeholder);
    Grouped(start, separator, text + placeholder);
    hide *;
    now := PushWhere(b, hasWhere);
    b.Push([ColumnRef(column), Compare(op)]);
    b.PushBind(v);
    HoldsAll(b, now, conds + [c]);
  }

  method PushTextFilter(
    b: QueryBuilder, hasWhere: bool, column: Column, v: Option<string>, ghost f: FieldFilter, ghost columns: seq<Column>)
    returns (now: bool)
    requires Holding(b, hasWhere, FieldConds(f, columns)) && v == FilterText(f, column)
    modifies b
    ensures Holding(b, now, FieldConds(f, columns + [column]))
  {
    NextField(f, columns, column);
    now := hasWhere;
    if v.Some? {
      assert EqualTo(f, column) == [Simple(column, Eq, TextValue(v.value))];
      now := PushComparison(b, hasWhere, column, Eq, TextValue(v.value), FieldConds(f, columns));
    } else {
      assert FieldConds(f, columns + [column]) == FieldConds(f, columns);
    }
  }

  method PushTime(b: QueryBuilder, hasWhere: bool, op: Comparison, t: Option<DateTime>, ghost conds: seq<Cond>)
    returns (now: bool)
    requires Holding(b, hasWhere, conds)
    modifies b
    ensures Holding(b, now, conds + Optional(OccurredAt, op, PgTime(RoundedTime(b.bind, t))))
  {
    now := hasWhere;
    if t.Some? {
      now := PushComparison(b, hasWhere, OccurredAt, op, TimeValue(t.value), conds);
    } else {
      assert conds + Optional(OccurredAt, op, PgTime(RoundedTime(b.bind, t))) == conds;
    }
  }

  /** A piece of text that ends in a placeholder. */
  method PushWith(b: QueryBuilder, text: seq<Token>, v: SqlValue)
    modifies b
    ensures b.tokens == old(b.tokens) + (text + [Param(|old(b.binds)| + 1)]) && b.binds == old(b.binds) + [Bound(b.bind, v)]
  {
    b.Push(text);
    b.PushBind(v);
  }

  lemma KeysetText(start: seq<Token>, column: Column, v: SqlValue, id: SqlValue, n: nat)
    ensures start + ([Open, ColumnRef(column), Compare(Lt)] + [Param(n)])
            + ([Or, Open, ColumnRef(column), Compare(Eq)] + [Param(n + 1)])
            + ([And, ColumnRef(Id), Compare(Lt)] + [Param(n + 2)]) + [Close, Close]
            == start + CondTokens(Keyset(column, v, id), n)
  {}

  /** The three pieces of the key comparison with their binds. */
  method PushKeyset(b: QueryBuilder, t: SqlValue, id: SqlValue)
    modifies b
    ensures b.tokens == old(b.tokens) + CondTokens(Keyset(OccurredAt, t, id), |old(b.binds)| + 1)
    ensures b.binds == old(b.binds) + [Bound(b.bind, t), Bound(b.bind, t), Bound(b.bind, id)]
  {
    hide Bound, CondTokens;
    KeysetText(b.tokens, OccurredAt, t, id, |b.binds| + 1);
    PushWith(b, [Open, ColumnRef(OccurredAt), Compare(Lt)], t);
    PushWith(b, [Or, Open, ColumnRef(OccurredAt), Compare(Eq)], t);
    PushWith(b, [And, ColumnRef(Id), Compare(Lt)], id);
    b.Push([Close, Close]);
  }

  method PushCursor(b: QueryBuilder, hasWhere: bool, cursor: Position, ghost conds: seq<Cond>) returns (now: bool)
    requires Holding(b, hasWhere, conds)
    modifies b
    ensures Holding(b, now, conds + [Keyset(OccurredAt, TimeValue(b.bind(cursor.occurredAt)), TextValue(cursor.id))])
  {
    var t, id := TimeValue(cursor.occurredAt), TextValue(cursor.id);
    ghost var c := Keyset(OccurredAt, TimeValue(b.bind(cursor.occurredAt)), id);
    KeysetBound(b.bind, cursor, |b.binds| + 1);
    assert b.tokens == ClauseTokens(conds) && b.binds == Binds(conds) && (hasWhere <==> conds != []);
    ClauseAppend(conds, c);
    hide *;
    ghost var keyset := CondTokens(c, |b.binds| + 1);
    ghost var separator := [if hasWhere then And else Where];
    Grouped(b.tokens, separator, keyset);
    now := PushWhere(b, hasWhere);
    PushKeyset(b, t, id);
    assert b.tokens == ClauseTokens(conds + [c]) && b.binds == Binds(conds + [c]);
    HoldsAll(b, now, conds + [c]);
  }

  lemma Grouped(a: seq<Token>, b: seq<Token>, c: seq<Token>)
    ensures (a + b) + c == a + (b + c)
  {}

  lemma KeysetBound(bind: Rounding, cursor: Position, n: nat)
    ensures var t, id := TimeValue(cursor.occurredAt), TextValue(cursor.id);
            var c := Keyset(OccurredAt, TimeValue(bind(cursor.occurredAt)), id);
            && CondTokens(Keyset(OccurredAt, t, id), n) == CondTokens(c, n)
            && [Bound(bind, t), Bound(bind, t), Bound(bind, id)] == CondBinds(c)
  {}

  lemma HoldsAll(b: QueryBuilder, hasWhere: bool, conds: seq<Cond>)
    requires hasWhere && conds != [] && b.tokens == ClauseTokens(conds) && b.binds == Binds(conds)
    ensures Holding(b, hasWhere, conds)
  {}

  lemma NextField(f: FieldFilter, columns: seq<Column>, c: Column)
    ensures FieldConds(f, columns + [c]) == FieldConds(f, columns) + EqualTo(f, c)
  {
    FieldCondsSplit(f, columns, [c]);
    assert [c][1..] == [];
  }

  lemma FirstColumns()
    ensures COLUMNS[..6] == [] + [EventName] + [SourceInstance] + [OutcomeColumn] + [SeverityColumn] + [ActorKind] + [ActorId]
  {}

  lemma LastColumns()
    ensures COLUMNS == COLUMNS[..6] + [ScopeModule] + [ScopeType] + [ScopeId] + [ResourceType] + [ResourceId] + [CorrelationId]
  {
    assert COLUMNS[6..] == [ScopeModule, ScopeType, ScopeId, ResourceType, ResourceId, CorrelationId];
    assert COLUMNS == COLUMNS[..6] + COLUMNS[6..];
  }

  method PushWriterFields(b: QueryBuilder, f: FieldFilter) returns (now: bool)
    requires Holding(b, false, FieldConds(f, []))
    modifies b
    ensures Holding(b, now, FieldConds(f, COLUMNS[..6]))
  {
    hide Holding, FieldConds;
    ghost var c: seq<Column> := [];
    now := false;
    now := PushTextFilter(b, now, EventName, f.eventName, f, c);
    c := c + [EventName];
    now := PushTextFilter(b, now, SourceInstance, f.sourceInstance, f, c);
    c := c + [SourceInstance];
    var outcome := if f.outcome.Some? then Some(OutcomeText(f.outcome.value)) else None;
    now := PushTextFilter(b, now, OutcomeColumn, outcome, f, c);
    c := c + [OutcomeColumn];
    var severity := if f.severity.Some? then Some(SeverityText(f.severity.value)) else None;
    now := PushTextFilter(b, now, SeverityColumn, severity, f, c);
    c := c + [SeverityColumn];
    now := PushTextFilter(b, now, ActorKind, f.actorKind, f, c);
    c := c + [ActorKind];
    now := PushTextFilter(b, now, ActorId, f.actorId, f, c);
    c := c + [ActorId];
    FirstColumns();
  }

  method PushSubjectFields(b: QueryBuilder, f: FieldFilter, hasWhere: bool) returns (now: bool)
    requires Holding(b, hasWhere, FieldConds(f, COLUMNS[..6]))
    modifies b
    ensures Holding(b, now, FieldConds(f, COLUMNS))
  {
    hide Holding, FieldConds;
    ghost var c := COLUMNS[..6];
    now := hasWhere;
    now := PushTextFilter(b, now, ScopeModule, f.scopeModule, f, c);
    c := c + [ScopeModule];
    now := PushTextFilter(b, now, ScopeType, f.scopeType, f, c);
    c := c + [ScopeType];
    now := PushTextFilter(b, now, ScopeId, f.scopeId, f, c);
    c := c + [ScopeId];
    now := PushTextFilter(b, now, ResourceType, f.resourceType, f, c);
    c := c + [ResourceType];
    now := PushTextFilter(b, now, ResourceId, f.resourceId, f, c);
    c := c + [ResourceId];
    now := PushTextFilter(b, now, CorrelationId, f.correlationId, f, c);
    c := c + [CorrelationId];
    LastColumns();
  }

  method PushTimes(b: QueryBuilder, f: Filter, hasWhere: bool, ghost conds: seq<Cond>) returns (now: bool)
    requires Holding(b, hasWhere, conds)
    modifies b
    ensures var g := Rounded(b.bind, f);
            Holding(b, now, conds + TimeConds(OccurredAt, PgTime(g.occurredAfter), PgTime(g.occurredBefore), PgCursor(g.cursor)))
  {
    hide Holding, Optional;
    ghost var g := Rounded(b.bind, f);
    now := PushTime(b, hasWhere, Ge, f.occurredAfter, conds);
    ghost var after := Optional(OccurredAt, Ge, PgTime(g.occurredAfter));
    now := PushTime(b, now, Le, f.occurredBefore, conds + after);
    ghost var before := Optional(OccurredAt, Le, PgTime(g.occurredBefore));
    if f.cursor.Some? {
      now := PushCursor(b, now, f.cursor.value, conds + after + before);
      ghost var k := [Keyset(OccurredAt, TimeValue(g.cursor.value.occurredAt), TextValue(g.cursor.value.id))];
      assert conds + after + before + k == conds + (after + before + k);
    } else {
      assert conds + after + before == conds + (after + before + []);
    }
  }

  /** `push_event_filters`: the clause of the filter's conditions as the database sees them, well formed
    for every filter. */
  method PushEventFilters(b: QueryBuilder, f: Filter)
    requires b.tokens == [] && b.binds == []
    modifies b
    ensures b.tokens == ClauseTokens(PgConds(Rounded(b.bind, f))) && b.binds == Binds(PgConds(Rounded(b.bind, f)))
    ensures WellFormed(b.tokens, b.binds)
  {
    StartsEmpty(b);
    assert FieldConds(f.fields, []) == [];
    hide FieldConds, ClauseTokens, Binds, WellFormed, TimeConds;
    var hasWhere := PushWriterFields(b, f.fields);
    hasWhere := PushSubjectFields(b, f.fields, hasWhere);
    hasWhere := PushTimes(b, f, hasWhere, FieldConds(f.fields, COLUMNS));
    ClauseMeaning(Less, PgConds(Rounded(b.bind, f)), _ => NullValue);
  }

  // ---- What the query selects ----

  function PgCells(e: StoredEvent): Cells {
    c => if c == OccurredAt then TimeValue(e.intent.occurredAt) else FieldCell(e.intent, c)
  }

  lemma PgCellsOf(e: StoredEvent)
    ensures CellsOf(PgCells(e), e.intent)
  {}

  /** The clause of a filter selects exactly the rows the filter matches, by whatever collation ids are
    compared. The filter here is the one that reaches the database, with rounded instants. */
  lemma PgSelectsMatches(less: IdOrder, f: Filter, e: StoredEvent)
    ensures Selects(less, ClauseTokens(PgConds(f)), Binds(PgConds(f)), PgCells(e)) <==> Matches(less, f, e)
  {
    hide Selects, ClauseTokens, Binds, TimeConds, FieldConds, AllHold, MatchesFields, InRange, BelowCursor;
    var cells := PgCells(e);
    PgCellsOf(e);
    hide FieldCell, CellsOf, PgCells;
    var after, before, cursor := PgTime(f.occurredAfter), PgTime(f.occurredBefore), PgCursor(f.cursor);
    ClauseMeaning(less, PgConds(f), cells);
    AllHoldConcat(less, FieldConds(f.fields, COLUMNS), TimeConds(OccurredAt, after, before, cursor), cells);
    FieldCondsMeaning(less, f.fields, cells, e.intent);
    PgTimesMeaning(less, f, e);
  }

  lemma PgTimesMeaning(less: IdOrder, f: Filter, e: StoredEvent)
    ensures var times := TimeConds(OccurredAt, PgTime(f.occurredAfter), PgTime(f.occurredBefore), PgCursor(f.cursor));
            AllHold(less, times, PgCells(e))
            <==> InRange(f, e.intent.occurredAt) && BelowCursor(less, f.cursor, e)
  {
    hide TimeConds, AllHold;
    TimeCondsHold(less, OccurredAt, PgTime(f.occurredAfter), PgTime(f.occurredBefore), PgCursor(f.cursor), PgCells(e));
    TimesAreOrdered(f, e.intent.occurredAt);
  }

  /** "At or after" is "not before". */
  lemma TimesAreOrdered(f: Filter, t: DateTime)
    ensures InRange(f, t) <==>
            && (f.occurredAfter.Some? ==> CompareTime(Ge, t, f.occurredAfter.value))
            && (f.occurredBefore.Some? ==> CompareTime(Le, t, f.occurredBefore.value))
  {
    if f.occurredAfter.Some? {
      BeforeIsStrictTotal(t, f.occurredAfter.value, t);
    }
    if f.occurredBefore.Some? {
      BeforeIsStrictTotal(f.occurredBefore.value, t, f.occurredBefore.value);
    }
  }

  /** The rows that a clause with its bound values selects. */
  function Chosen(less: IdOrder, ts: seq<Token>, binds: seq<SqlValue>, rows: Log): Log {
    if rows == [] then []
    else (if Selects(less, ts, binds, PgCells(rows[0])) then [rows[0]] else []) + Chosen(less, ts, binds, rows[1..])
  }

  /** `select … order by occurred_at desc, id desc limit limit + 1`. */
  function Execute(less: IdOrder, ts: seq<Token>, binds: seq<SqlValue>, rows: Log, limit: int): Log {
    Fetched(SortDescending(less, Chosen(less, ts, binds, rows)), limit)
  }

  lemma {:induction false} ChoosesMatches(less: IdOrder, rows: Log, f: Filter)
    ensures Chosen(less, ClauseTokens(PgConds(f)), Binds(PgConds(f)), rows) == Select(less, rows, f)
  {
    hide Selects, Matches, ClauseTokens, Binds, PgConds, PgCells;
    if rows != [] {
      PgSelectsMatches(less, f, rows[0]);
      ChoosesMatches(less, rows[1..], f);
    }
  }

  /** The query returns the reference listing of the rows for the filter with rounded bounds. */
  lemma PgListsAsReference(less: IdOrder, rows: Log, f: Filter)
    ensures Execute(less, ClauseTokens(PgConds(f)), Binds(PgConds(f)), rows, f.limit) == List(less, rows, f)
  {
    ChoosesMatches(less, rows, f);
  }

  // ---- Rounded bounds against the filter that was asked for ----

  ghost predicate ClauseIsExact(less: IdOrder, bind: Rounding, f: Filter) {
    var conds := PgConds(Rounded(bind, f));
    forall e: StoredEvent :: MicroAligned(e.intent.occurredAt) ==>
      (Selects(less, ClauseTokens(conds), Binds(conds), PgCells(e)) <==> Matches(less, f, e))
  }

  lemma ClauseIsRounded(less: IdOrder, bind: Rounding, f: Filter)
    ensures ClauseIsExact(less, bind, f) <==> ExactForStored(less, bind, f)
  {
    hide Selects, Matches, ClauseTokens, Binds, PgConds, PgCells, Rounded, MicroAligned;
    forall e: StoredEvent
      ensures Selects(less, ClauseTokens(PgConds(Rounded(bind, f))), Binds(PgConds(Rounded(bind, f))), PgCells(e))
              <==> Matches(less, Rounded(bind, f), e)
    {
      PgSelectsMatches(less, Rounded(bind, f), e);
    }
  }

  /** Over stored rows, whose times are whole microseconds, the clause selects what `matches` accepts
    exactly when rounding leaves the bounds at the same whole microseconds, or at nothing. */
  lemma PgSelectsExactly(less: IdOrder, bind: Rounding, f: Filter)
    requires StrictTotal(less) && EmptyFirst(less)
    requires f.cursor.Some? ==> f.cursor.value.id != ""
    ensures ClauseIsExact(less, bind, f) <==> SameBounds(less, bind, f)
  {
    hide ClauseIsExact, ExactForStored, SameBounds;
    ClauseIsRounded(less, bind, f);
    RoundingIsExact(less, bind, f);
  }

  /** For a driver that truncates and bounds that are no leap seconds this is a matter of fractions. */
  lemma PgSelectsExactlyTruncated(less: IdOrder, f: Filter)
    requires StrictTotal(less) && EmptyFirst(less) && NoLeapBounds(f)
    requires f.occurredAfter.Some? && f.occurredBefore.Some? ==> !Before(f.occurredBefore.value, f.occurredAfter.value)
    requires f.cursor.Some? ==> f.cursor.value.id != ""
    ensures ClauseIsExact(less, TruncateMicros, f) <==> TruncatesExactly(f)
  {
    hide ClauseIsExact, ExactForStored, TruncatesExactly;
    ClauseIsRounded(less, TruncateMicros, f);
    TruncationIsExact(less, f);
  }

  /** All events from half a microsecond past a whole second. */
  function FromHalfPast(fields: FieldFilter, t: DateTime, limit: int): Filter
    requires t.frac == 0
  {
    Filter(fields, Some(t.(frac := 500)), None, None, limit)
  }

  lemma HalfMatches(less: IdOrder, fields: FieldFilter, id: string, t: DateTime, limit: int)
    requires t.frac == 0
    ensures var f, e := FromHalfPast(fields, t, limit), EventAt(fields, Position(t, id));
            Matches(less, Rounded(TruncateMicros, f), e) && !Matches(less, f, e)
  {
    hide MatchesFields, EventAt;
    EventAtMatches(fields, Position(t, id));
  }

  /** Half a microsecond is enough: asked for events from half a microsecond past a whole second, the
    truncating driver returns the event at the whole second, which `matches` does not accept. */
  lemma HalfAMicrosecond(less: IdOrder, fields: FieldFilter, id: string, t: DateTime, limit: int)
    requires t.frac == 0
    ensures var f, e := FromHalfPast(fields, t, limit), EventAt(fields, Position(t, id));
            var conds := PgConds(Rounded(TruncateMicros, f));
            Selects(less, ClauseTokens(conds), Binds(conds), PgCells(e)) && !Matches(less, f, e)
  {
    hide *;
    PgSelectsMatches(less, Rounded(TruncateMicros, FromHalfPast(fields, t, limit)), EventAt(fields, Position(t, id)));
    HalfMatches(less, fields, id, t, limit);
  }

  ghost predicate WholeTimes(rows: Log) {
    forall i :: 0 <= i < |rows| ==> MicroAligned(rows[i].intent.occurredAt)
  }

  lemma {:induction false} SelectsSame(less: IdOrder, bind: Rounding, rows: Log, f: Filter)
    requires ExactForStored(less, bind, f) && WholeTimes(rows)
    ensures Select(less, rows, Rounded(bind, f)) == Select(less, rows, f)
  {
    hide Matches, Rounded, MicroAligned;
    if rows != [] {
      SelectsSame(less, bind, rows[1..], f);
      assert Matches(less, Rounded(bind, f), rows[0]) <==> Matches(less, f, rows[0]);
    }
  }

  /** Then the listing is the one that was asked for. */
  lemma ListsSame(less: IdOrder, bind: Rounding, rows: Log, f: Filter)
    requires StrictTotal(less) && EmptyFirst(less) && WholeTimes(rows) && SameBounds(less, bind, f)
    requires f.cursor.Some? ==> f.cursor.value.id != ""
    ensures List(less, rows, Rounded(bind, f)) == List(less, rows, f)
  {
    hide ExactForStored, SameBounds, WholeTimes, SortDescending, Select;
    RoundingIsExact(less, bind, f);
    SelectsSame(less, bind, rows, f);
  }
}

/** An event filter as a list of SQL conditions. */
module Conditions {
  import opened Wrappers
  import opened Order
  import opened Events
  import opened Sql

  function OutcomeText(o: Outcome): string {
    match o
    case Success => "success"
    case Failure => "failure"
    case Denied => "denied"
  }

  function SeverityText(s: Severity): string {
    match s
    case Info => "info"
    case Warning => "warning"
    case Critical => "critical"
  }

  function ParseOutcome(s: string): Option<Outcome> {
    if s == "success" then Some(Success)
    else if s == "failure" then Some(Failure)
    else if s == "denied" then Some(Denied)
    else None
  }

  function ParseSeverity(s: string): Option<Severity> {
    if s == "info" then Some(Info)
    else if s == "warning" then Some(Warning)
    else if s == "critical" then Some(Critical)
    else None
  }

  /** A stored text parses to a value exactly when it is that value's text. */
  lemma TextsParseBack(s: string, o: Outcome, v: Severity)
    ensures ParseOutcome(s) == Some(o) <==> s == OutcomeText(o)
    ensures ParseSeverity(s) == Some(v) <==> s == SeverityText(v)
  {
    TextsAreDistinct();
  }

  lemma TextsAreDistinct()
    ensures forall a, b :: OutcomeText(a) == OutcomeText(b) ==> a == b
    ensures forall a, b :: SeverityText(a) == SeverityText(b) ==> a == b
  {
    assert "success"[0] != "failure"[0] && "failure"[0] != "denied"[0] && "success"[0] != "denied"[0];
    assert "info"[0] != "warning"[0] && "warning"[0] != "critical"[0] && "info"[0] != "critical"[0];
  }

  /** The columns compared for equality, in the order in which both stores write them. */
  const COLUMNS: seq<Column> :=
    [EventName, SourceInstance, OutcomeColumn, SeverityColumn, ActorKind, ActorId,
     ScopeModule, ScopeType, ScopeId, ResourceType, ResourceId, CorrelationId]

  function FilterText(f: FieldFilter, c: Column): Option<string> {
    match c
    case EventName => f.eventName
    case SourceInstance => f.sourceInstance
    case OutcomeColumn => if f.outcome.Some? then Some(OutcomeText(f.outcome.value)) else None
    case SeverityColumn => if f.severity.Some? then Some(SeverityText(f.severity.value)) else None
    case ActorKind => f.actorKind
    case ActorId => f.actorId
    case ScopeModule => f.scopeModule
    case ScopeType => f.scopeType
    case ScopeId => f.scopeId
    case ResourceType => f.resourceType
    case ResourceId => f.resourceId
    case CorrelationId => f.correlationId
    case _ => None
  }

  function OptionalText(v: Option<string>): SqlValue {
    match v case Some(s) => TextValue(s) case None => NullValue
  }

  /** What a row holds in a column; an absent optional field is NULL. */
  function FieldCell(i: Intent, c: Column): SqlValue {
    match c
    case Id => TextValue(i.id)
    case EventName => TextValue(i.eventName)
    case SourceInstance => TextValue(i.sourceInstance)
    case OutcomeColumn => TextValue(OutcomeText(i.outcome))
    case SeverityColumn => TextValue(SeverityText(i.severity))
    case ActorKind => TextValue(i.actorKind)
    case ActorId => OptionalText(i.actorId)
    case ScopeModule => OptionalText(i.scopeModule)
    case ScopeType => OptionalText(i.scopeType)
    case ScopeId => OptionalText(i.scopeId)
    case ResourceType => OptionalText(i.resourceType)
    case ResourceId => OptionalText(i.resourceId)
    case CorrelationId => OptionalText(i.correlationId)
    case _ => NullValue
  }

  function Optional(c: Column, op: Comparison, v: Option<SqlValue>): seq<Cond> {
    match v case Some(value) => [Simple(c, op, value)] case None => []
  }

  function EqualTo(f: FieldFilter, c: Column): seq<Cond> {
    match FilterText(f, c) case Some(s) => [Simple(c, Eq, TextValue(s))] case None => []
  }

  function FieldConds(f: FieldFilter, columns: seq<Column>): seq<Cond> {
    if columns == [] then [] else EqualTo(f, columns[0]) + FieldConds(f, columns[1..])
  }

  lemma {:induction false} FieldCondsSplit(f: FieldFilter, a: seq<Column>, b: seq<Column>)
    ensures FieldConds(f, a + b) == FieldConds(f, a) + FieldConds(f, b)
  {
    if a == [] {
      assert a + b == b;
    } else {
      assert (a + b)[1..] == a[1..] + b;
      FieldCondsSplit(f, a[1..], b);
    }
  }

  lemma AllHoldOne(less: IdOrder, c: Cond, cells: Cells)
    ensures AllHold(less, [c], cells) <==> Holds(less, c, cells) == True
  {
    assert [c][1..] == [];
  }

  /** A column passes when nothing is asked of it or it holds the text asked for. */
  predicate Passes(f: FieldFilter, cells: Cells, c: Column) {
    FilterText(f, c).Some? ==> cells(c) == TextValue(FilterText(f, c).value)
  }

  lemma {:induction false} FieldCondsHold(less: IdOrder, f: FieldFilter, columns: seq<Column>, cells: Cells)
    ensures AllHold(less, FieldConds(f, columns), cells) <==> forall c :: c in columns ==> Passes(f, cells, c)
  {
    if columns != [] {
      var c := columns[0];
      FieldCondsHold(less, f, columns[1..], cells);
      AllHoldConcat(less, EqualTo(f, c), FieldConds(f, columns[1..]), cells);
      if FilterText(f, c).Some? {
        AllHoldOne(less, Simple(c, Eq, TextValue(FilterText(f, c).value)), cells);
      }
      assert AllHold(less, EqualTo(f, c), cells) <==> Passes(f, cells, c);
      assert forall x :: x in columns <==> x == c || x in columns[1..];
    }
  }

  /** The cells of a row agree with the event's fields. */
  ghost predicate CellsOf(cells: Cells, i: Intent) {
    cells(Id) == FieldCell(i, Id) && forall c :: c in COLUMNS ==> cells(c) == FieldCell(i, c)
  }

  /** What the filter asks of one column. */
  predicate ColumnMatches(f: FieldFilter, i: Intent, c: Column) {
    match c
    case EventName => MatchesValue(f.eventName, i.eventName)
    case SourceInstance => MatchesValue(f.sourceInstance, i.sourceInstance)
    case OutcomeColumn => MatchesValue(f.outcome, i.outcome)
    case SeverityColumn => MatchesValue(f.severity, i.severity)
    case ActorKind => MatchesValue(f.actorKind, i.actorKind)
    case ActorId => MatchesOptional(f.actorId, i.actorId)
    case ScopeModule => MatchesOptional(f.scopeModule, i.scopeModule)
    case ScopeType => MatchesOptional(f.scopeType, i.scopeType)
    case ScopeId => MatchesOptional(f.scopeId, i.scopeId)
    case ResourceType => MatchesOptional(f.resourceType, i.resourceType)
    case ResourceId => MatchesOptional(f.resourceId, i.resourceId)
    case CorrelationId => MatchesOptional(f.correlationId, i.correlationId)
    case _ => true
  }

  lemma ColumnPasses(f: FieldFilter, i: Intent, c: Column)
    ensures (FilterText(f, c).Some? ==> FieldCell(i, c) == TextValue(FilterText(f, c).value)) <==> ColumnMatches(f, i, c)
  {
    TextsAreDistinct();
  }

  lemma ColumnsOfMatch(f: FieldFilter, i: Intent, c: Column)
    requires MatchesFields(f, i)
    ensures ColumnMatches(f, i, c)
  {}

  lemma MatchOfColumns(f: FieldFilter, i: Intent)
    requires forall c :: c in COLUMNS ==> ColumnMatches(f, i, c)
    ensures MatchesFields(f, i)
  {
    assert ColumnMatches(f, i, EventName) && ColumnMatches(f, i, SourceInstance) && ColumnMatches(f, i, OutcomeColumn);
    assert ColumnMatches(f, i, SeverityColumn) && ColumnMatches(f, i, ActorKind) && ColumnMatches(f, i, ActorId);
    assert ColumnMatches(f, i, ScopeModule) && ColumnMatches(f, i, ScopeType) && ColumnMatches(f, i, ScopeId);
    assert ColumnMatches(f, i, ResourceType) && ColumnMatches(f, i, ResourceId) && ColumnMatches(f, i, CorrelationId);
  }

  /** Column by column, the conditions say what the filter says, NULLs included. */
  lemma PassesIsMatch(f: FieldFilter, cells: Cells, i: Intent)
    requires CellsOf(cells, i)
    ensures (forall c :: c in COLUMNS ==> Passes(f, cells, c)) <==> MatchesFields(f, i)
  {
    hide FilterText, FieldCell, ColumnMatches, MatchesFields;
    forall c | c in COLUMNS ensures Passes(f, cells, c) <==> ColumnMatches(f, i, c) {
      ColumnPasses(f, i, c);
    }
    if MatchesFields(f, i) {
      forall c | c in COLUMNS ensures ColumnMatches(f, i, c) { ColumnsOfMatch(f, i, c); }
    }
    if forall c :: c in COLUMNS ==> ColumnMatches(f, i, c) {
      MatchOfColumns(f, i);
    }
  }

  lemma FieldCondsMeaning(less: IdOrder, f: FieldFilter, cells: Cells, i: Intent)
    requires CellsOf(cells, i)
    ensures AllHold(less, FieldConds(f, COLUMNS), cells) <==> MatchesFields(f, i)
  {
    FieldCondsHold(less, f, COLUMNS, cells);
    PassesIsMatch(f, cells, i);
  }

  /** The two ends of the time range and the cursor, over whichever column the store orders by. */
  function TimeConds(column: Column, after: Option<SqlValue>, before: Option<SqlValue>, cursor: Option<(SqlValue, string)>)
    : seq<Cond>
  {
    Optional(column, Ge, after) + Optional(column, Le, before)
    + match cursor case Some(c) => [Keyset(column, c.0, TextValue(c.1))] case None => []
  }

  lemma TimeCondsHold(
    less: IdOrder, column: Column, after: Option<SqlValue>, before: Option<SqlValue>, cursor: Option<(SqlValue, string)>,
    cells: Cells)
    ensures AllHold(less, TimeConds(column, after, before, cursor), cells) <==>
            && (after.Some? ==> CompareValues(less, Ge, cells(column), after.value) == True)
            && (before.Some? ==> CompareValues(less, Le, cells(column), before.value) == True)
            && (cursor.Some? ==> Holds(less, Keyset(column, cursor.value.0, TextValue(cursor.value.1)), cells) == True)
  {
    var a, b := Optional(column, Ge, after), Optional(column, Le, before);
    var k := match cursor case Some(c) => [Keyset(column, c.0, TextValue(c.1))] case None => [];
    AllHoldConcat(less, a + b, k, cells);
    AllHoldConcat(less, a, b, cells);
    if after.Some? {
      AllHoldOne(less, Simple(column, Ge, after.value), cells);
    }
    if before.Some? {
      AllHoldOne(less, Simple(column, Le, before.value), cells);
    }
    if cursor.Some? {
      AllHoldOne(less, Keyset(column, cursor.value.0, TextValue(cursor.value.1)), cells);
    }
  }
}

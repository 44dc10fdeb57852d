/** The D1 listing query: conditions and values collected in two lists, joined into a clause with
  anonymous placeholders, over rows ordered by a text key. */
module D1Query {
  import opened Wrappers
  import opened Order
  import opened Time
  import opened Rfc3339
  import opened Events
  import opened ReferenceStore
  import opened Sql
  import opened Conditions

  /** A stored row: the sort key, and the event whose fields fill the other columns. */
  datatype D1Row = D1Row(key: string, event: StoredEvent)

  /** The instants that `key` can print; parsing yields no others. */
  predicate Keyed(e: StoredEvent) { PrintableYear(e.intent.occurredAt) }

  ghost predicate ValidRow(row: D1Row) {
    Keyed(row.event) && row.key == Key(row.event.intent.occurredAt)
  }

  ghost predicate ValidRows(rows: seq<D1Row>) {
    forall i :: 0 <= i < |rows| ==> ValidRow(rows[i])
  }

  function EventsOf(rows: seq<D1Row>): Log {
    if rows == [] then [] else [rows[0].event] + EventsOf(rows[1..])
  }

  // ---- The filter in terms of keys ----

  predicate PrintableFilter(f: Filter) {
    && (f.occurredAfter.Some? ==> PrintableYear(f.occurredAfter.value))
    && (f.occurredBefore.Some? ==> PrintableYear(f.occurredBefore.value))
    && (f.cursor.Some? ==> PrintableYear(f.cursor.value.occurredAt))
  }

  function KeyValue(t: Option<DateTime>): Option<SqlValue>
    requires t.Some? ==> PrintableYear(t.value)
  {
    match t case Some(v) => Some(TextValue(Key(v))) case None => None
  }

  function KeyCursor(c: Option<Position>): Option<(SqlValue, string)>
    requires c.Some? ==> PrintableYear(c.value.occurredAt)
  {
    match c case Some(p) => Some((TextValue(Key(p.occurredAt)), p.id)) case None => None
  }

  function D1Conds(f: Filter): seq<Cond>
    requires PrintableFilter(f)
  {
    FieldConds(f.fields, COLUMNS)
    + TimeConds(OccurredKey, KeyValue(f.occurredAfter), KeyValue(f.occurredBefore), KeyCursor(f.cursor))
  }

  // ---- Anonymous placeholders ----

  function Anonymous(ts: seq<Token>): seq<Token> {
    if ts == [] then [] else [if ts[0].Param? then Question else ts[0]] + Anonymous(ts[1..])
  }

  /** SQLite numbers anonymous placeholders from left to right. */
  function Number(ts: seq<Token>, n: nat): seq<Token>
    decreases |ts|
  {
    if ts == [] then []
    else if ts[0] == Question then [Param(n)] + Number(ts[1..], n + 1)
    else [ts[0]] + Number(ts[1..], n)
  }

  function Questions(ts: seq<Token>): nat {
    if ts == [] then 0 else (if ts[0] == Question then 1 else 0) + Questions(ts[1..])
  }

  lemma {:induction false} NumberConcat(a: seq<Token>, b: seq<Token>, n: nat)
    ensures Number(a + b, n) == Number(a, n) + Number(b, n + Questions(a))
    decreases |a|
  {
    if a == [] {
      assert a + b == b;
    } else {
      assert (a + b)[1..] == a[1..] + b && (a + b)[0] == a[0];
      var m := if a[0] == Question then n + 1 else n;
      NumberConcat(a[1..], b, m);
      var head := if a[0] == Question then Param(n) else a[0];
      NumberCons(a, n);
      NumberCons(a + b, n);
      assert m + Questions(a[1..]) == n + Questions(a);
      assert [head] + (Number(a[1..], m) + Number(b, m + Questions(a[1..])))
          == ([head] + Number(a[1..], m)) + Number(b, m + Questions(a[1..]));
    }
  }

  lemma NumberCons(ts: seq<Token>, n: nat)
    requires ts != []
    ensures ts[0] == Question ==> Number(ts, n) == [Param(n)] + Number(ts[1..], n + 1)
    ensures ts[0] != Question ==> Number(ts, n) == [ts[0]] + Number(ts[1..], n)
  {}

  function CondText(c: Cond): seq<Token> { Anonymous(CondTokens(c, 0)) }

  /** `a and b and …`, as `join` writes it. */
  function JoinTexts(texts: seq<seq<Token>>): seq<Token> {
    if texts == [] then []
    else if |texts| == 1 then texts[0]
    else texts[0] + ([And] + JoinTexts(texts[1..]))
  }

  function CondTexts(conds: seq<Cond>): seq<seq<Token>> {
    if conds == [] then [] else [CondText(conds[0])] + CondTexts(conds[1..])
  }

  lemma {:induction false} CondTextsConcat(a: seq<Cond>, b: seq<Cond>)
    ensures CondTexts(a + b) == CondTexts(a) + CondTexts(b)
  {
    if a == [] {
      assert a + b == b;
    } else {
      assert (a + b)[1..] == a[1..] + b;
      CondTextsConcat(a[1..], b);
    }
  }

  lemma {:induction false} AnonymousConcat(a: seq<Token>, b: seq<Token>)
    ensures Anonymous(a + b) == Anonymous(a) + Anonymous(b)
  {
    if a == [] {
      assert a + b == b;
    } else {
      assert (a + b)[1..] == a[1..] + b && (a + b)[0] == a[0];
      AnonymousConcat(a[1..], b);
    }
  }

  /** Text without placeholders, then one placeholder: numbering restores it. */
  lemma {:induction false} NumberOne(before: seq<Token>, m: nat, n: nat)
    requires forall i :: 0 <= i < |before| ==> !before[i].Param? && before[i] != Question
    ensures Number(Anonymous(before + [Param(m)]), n) == before + [Param(n)]
    ensures Questions(Anonymous(before + [Param(m)])) == 1
  {
    if before == [] {
      assert before + [Param(m)] == [Param(m)];
      assert Anonymous([Param(m)]) == [Question] by { assert [Param(m)][1..] == []; }
      assert [Question][1..] == [];
    } else {
      assert (before + [Param(m)])[1..] == before[1..] + [Param(m)];
      NumberOne(before[1..], m, n);
    }
  }

  lemma NumberClosing(n: nat)
    ensures Number(Anonymous([Close, Close]), n) == [Close, Close] && Questions(Anonymous([Close, Close])) == 0
  {
    assert [Close, Close][1..] == [Close] && [Close][1..] == [];
    assert Anonymous([Close]) == [Close];
  }

  lemma NumberCond(c: Cond, n: nat)
    ensures Number(CondText(c), n) == CondTokens(c, n)
    ensures Questions(CondText(c)) == |CondBinds(c)|
  {
    match c
    case Simple(column, op, _) =>
      NumberOne([ColumnRef(column), Compare(op)], 0, n);
      assert CondTokens(c, 0) == [ColumnRef(column), Compare(op)] + [Param(0)];
      assert CondTokens(c, n) == [ColumnRef(column), Compare(op)] + [Param(n)];
    case Keyset(column, v, id) => NumberKeyset(column, v, id, n);
  }

  /** The three stretches of the key comparison that end in a placeholder. */
  function KeysetBelow(column: Column): seq<Token> { [Open, ColumnRef(column), Compare(Lt)] }
  function KeysetLevel(column: Column): seq<Token> { [Or, Open, ColumnRef(column), Compare(Eq)] }
  function KeysetId(): seq<Token> { [And, ColumnRef(Id), Compare(Lt)] }

  lemma NumberKeyset(column: Column, v: SqlValue, id: SqlValue, n: nat)
    ensures Number(CondText(Keyset(column, v, id)), n) == CondTokens(Keyset(column, v, id), n)
    ensures Questions(CondText(Keyset(column, v, id))) == 3
  {
    hide *;
    CondTextOf(Keyset(column, v, id));
    KeysetParts(column, v, id, 0);
    KeysetParts(column, v, id, n);
    var a, b, c, d := KeysetBelow(column), KeysetLevel(column), KeysetId(), [Close, Close];
    assert a + [Param(0)] + ((b + [Param(1)]) + ((c + [Param(2)]) + d)) == CondTokens(Keyset(column, v, id), 0);
    NumberKeysetParts(column, n);
    NumberFour(a + [Param(0)], b + [Param(1)], c + [Param(2)], d, n);
  }

  lemma CondTextOf(c: Cond)
    ensures CondText(c) == Anonymous(CondTokens(c, 0))
  {}

  lemma NumberKeysetParts(column: Column, n: nat)
    ensures Number(Anonymous(KeysetBelow(column) + [Param(0)]), n) == KeysetBelow(column) + [Param(n)]
    ensures Questions(Anonymous(KeysetBelow(column) + [Param(0)])) == 1
    ensures Number(Anonymous(KeysetLevel(column) + [Param(1)]), n + 1) == KeysetLevel(column) + [Param(n + 1)]
    ensures Questions(Anonymous(KeysetLevel(column) + [Param(1)])) == 1
    ensures Number(Anonymous(KeysetId() + [Param(2)]), n + 2) == KeysetId() + [Param(n + 2)]
    ensures Questions(Anonymous(KeysetId() + [Param(2)])) == 1
    ensures Number(Anonymous([Close, Close]), n + 3) == [Close, Close] && Questions(Anonymous([Close, Close])) == 0
  {
    hide Number, Anonymous, Questions;
    NumberOne(KeysetBelow(column), 0, n);
    NumberOne(KeysetLevel(column), 1, n + 1);
    NumberOne(KeysetId(), 2, n + 2);
    NumberClosing(n + 3);
  }

  lemma KeysetParts(column: Column, v: SqlValue, id: SqlValue, n: nat)
    ensures CondTokens(Keyset(column, v, id), n)
            == (KeysetBelow(column) + [Param(n)])
               + ((KeysetLevel(column) + [Param(n + 1)]) + ((KeysetId() + [Param(n + 2)]) + [Close, Close]))
  {}

  lemma NumberFour(a: seq<Token>, b: seq<Token>, c: seq<Token>, d: seq<Token>, n: nat)
    requires Questions(Anonymous(a)) == 1 && Questions(Anonymous(b)) == 1
    requires Questions(Anonymous(c)) == 1 && Questions(Anonymous(d)) == 0
    ensures Number(Anonymous(a + (b + (c + d))), n)
            == Number(Anonymous(a), n)
               + (Number(Anonymous(b), n + 1) + (Number(Anonymous(c), n + 2) + Number(Anonymous(d), n + 3)))
    ensures Questions(Anonymous(a + (b + (c + d)))) == 3
  {
    AnonymousConcat(a, b + (c + d));
    AnonymousConcat(b, c + d);
    AnonymousConcat(c, d);
    NumberConcat(Anonymous(a), Anonymous(b + (c + d)), n);
    NumberConcat(Anonymous(b), Anonymous(c + d), n + 1);
    NumberConcat(Anonymous(c), Anonymous(d), n + 2);
    QuestionsConcat(Anonymous(a), Anonymous(b + (c + d)));
    QuestionsConcat(Anonymous(b), Anonymous(c + d));
    QuestionsConcat(Anonymous(c), Anonymous(d));
  }

  lemma {:induction false} QuestionsConcat(a: seq<Token>, b: seq<Token>)
    ensures Questions(a + b) == Questions(a) + Questions(b)
  {
    if a == [] {
      assert a + b == b;
    } else {
      assert (a + b)[1..] == a[1..] + b && (a + b)[0] == a[0];
      QuestionsConcat(a[1..], b);
    }
  }

  lemma NumberAnd(text: seq<Token>, more: seq<Token>, n: nat)
    ensures Number(text + ([And] + more), n) == Number(text, n) + ([And] + Number(more, n + Questions(text)))
  {
    NumberConcat(text, [And] + more, n);
    assert ([And] + more)[1..] == more;
  }

  /** Numbering the joined texts gives the numbered conjunction. */
  lemma {:induction false} NumberJoined(conds: seq<Cond>, n: nat)
    ensures Number(JoinTexts(CondTexts(conds)), n) == JoinedTokens(conds, n)
  {
    if conds != [] {
      var c, tail := conds[0], conds[1..];
      var m := n + |CondBinds(c)|;
      NumberCond(c, n);
      hide CondTokens, CondBinds, CondText;
      if tail == [] {
        assert conds == [c];
        JoinedOne(c, n);
        assert CondTexts(conds) == [CondText(c)];
      } else {
        assert conds == [c] + tail;
        JoinedCons(c, tail, n);
        NumberJoined(tail, m);
        var more := JoinTexts(CondTexts(tail));
        assert CondTexts(conds)[1..] == CondTexts(tail);
        assert JoinTexts(CondTexts(conds)) == CondText(c) + ([And] + more);
        NumberAnd(CondText(c), more, n);
      }
    }
  }

  // ---- Building the query ----

  method BuildQuery(f: Filter) returns (query: seq<Token>, values: seq<SqlValue>)
    requires PrintableFilter(f)
    ensures QueryOf(query, values, f)
    ensures WellFormed(Number(query, 1), values)
  {
    hide CondText, Number, WellFormed;
    var conditions: seq<seq<Token>>;
    conditions, values := FieldConditions(f.fields);
    conditions, values := TimeConditions(f, conditions, values);
    query := [];
    if conditions != [] {
      query := [Where] + JoinTexts(conditions);
    }
    NumberClause(D1Conds(f));
    ClauseMeaning(Less, D1Conds(f), _ => NullValue);
  }

  function ClauseText(conds: seq<Cond>): seq<Token> {
    if conds == [] then [] else [Where] + JoinTexts(CondTexts(conds))
  }

  lemma NumberClause(conds: seq<Cond>)
    ensures Number(ClauseText(conds), 1) == ClauseTokens(conds)
  {
    if conds != [] {
      NumberJoined(conds, 1);
      assert ([Where] + JoinTexts(CondTexts(conds)))[1..] == JoinTexts(CondTexts(conds));
    }
  }

  /** One more condition: its text and its values. */
  lemma OneMore(conds: seq<Cond>, c: Cond)
    ensures CondTexts(conds + [c]) == CondTexts(conds) + [CondText(c)]
    ensures Binds(conds + [c]) == Binds(conds) + CondBinds(c)
  {
    CondTextsConcat(conds, [c]);
    BindsConcat(conds, [c]);
    JoinedOne(c, 1);
    assert [c][1..] == [];
  }

  method FieldConditions(f: FieldFilter) returns (conditions: seq<seq<Token>>, values: seq<SqlValue>)
    ensures conditions == CondTexts(FieldConds(f, COLUMNS)) && values == Binds(FieldConds(f, COLUMNS))
  {
    hide CondText;
    conditions, values := [], [];
    for i := 0 to |COLUMNS|
      invariant conditions == CondTexts(FieldConds(f, COLUMNS[..i])) && values == Binds(FieldConds(f, COLUMNS[..i]))
    {
      var column := COLUMNS[i];
      assert COLUMNS[..i + 1] == COLUMNS[..i] + [column];
      FieldCondsSplit(f, COLUMNS[..i], [column]);
      assert FieldConds(f, [column]) == EqualTo(f, column) by { assert [column][1..] == []; }
      var wanted := FilterText(f, column);
      if wanted.Some? {
        ghost var c := Simple(column, Eq, TextValue(wanted.value));
        OneMore(FieldConds(f, COLUMNS[..i]), c);
        SimpleText(column, Eq, TextValue(wanted.value));
        conditions := conditions + [[ColumnRef(column), Compare(Eq), Question]];
        values := values + [TextValue(wanted.value)];
      } else {
        assert FieldConds(f, COLUMNS[..i + 1]) == FieldConds(f, COLUMNS[..i]);
      }
    }
    assert COLUMNS[..|COLUMNS|] == COLUMNS;
  }

  lemma SimpleText(column: Column, op: Comparison, v: SqlValue)
    ensures CondText(Simple(column, op, v)) == [ColumnRef(column), Compare(op), Question]
  {
    var ts := [ColumnRef(column), Compare(op), Param(0)];
    assert ts[1..] == [Compare(op), Param(0)] && ts[1..][1..] == [Param(0)] && [Param(0)][1..] == [];
    assert Anonymous([Param(0)]) == [Question];
    assert Anonymous([Compare(op), Param(0)]) == [Compare(op), Question];
  }

  lemma KeysetText(column: Column, v: SqlValue, id: SqlValue)
    ensures CondText(Keyset(column, v, id)) ==
            [Open, ColumnRef(column), Compare(Lt), Question, Or, Open, ColumnRef(column), Compare(Eq), Question, And,
             ColumnRef(Id), Compare(Lt), Question, Close, Close]
  {
    KeysetTextParts(column, v, id);
    hide CondText;
  }

  lemma KeysetTextParts(column: Column, v: SqlValue, id: SqlValue)
    ensures CondText(Keyset(column, v, id))
            == (KeysetBelow(column) + [Question])
               + ((KeysetLevel(column) + [Question]) + ((KeysetId() + [Question]) + [Close, Close]))
  {
    hide *;
    CondTextOf(Keyset(column, v, id));
    AnonymousKeyset(column);
    KeysetParts(column, v, id, 0);
    KeysetAnonymous(KeysetBelow(column), KeysetLevel(column), KeysetId(), [Close, Close]);
  }

  lemma AnonymousKeyset(column: Column)
    ensures Anonymous(KeysetBelow(column) + [Param(0)]) == KeysetBelow(column) + [Question]
    ensures Anonymous(KeysetLevel(column) + [Param(1)]) == KeysetLevel(column) + [Question]
    ensures Anonymous(KeysetId() + [Param(2)]) == KeysetId() + [Question]
    ensures Anonymous([Close, Close]) == [Close, Close]
  {
    hide Anonymous;
    AnonymousOne(KeysetBelow(column), 0);
    AnonymousOne(KeysetLevel(column), 1);
    AnonymousOne(KeysetId(), 2);
    AnonymousPlain([Close, Close]);
  }

  lemma KeysetAnonymous(a: seq<Token>, b: seq<Token>, c: seq<Token>, d: seq<Token>)
    requires Anonymous(a + [Param(0)]) == a + [Question] && Anonymous(b + [Param(1)]) == b + [Question]
    requires Anonymous(c + [Param(2)]) == c + [Question] && Anonymous(d) == d
    ensures Anonymous((a + [Param(0)]) + ((b + [Param(1)]) + ((c + [Param(2)]) + d)))
            == (a + [Question]) + ((b + [Question]) + ((c + [Question]) + d))
  {
    hide Anonymous;
    AnonymousConcat(c + [Param(2)], d);
    AnonymousConcat(b + [Param(1)], (c + [Param(2)]) + d);
    AnonymousConcat(a + [Param(0)], (b + [Param(1)]) + ((c + [Param(2)]) + d));
  }

  lemma {:induction false} AnonymousPlain(ts: seq<Token>)
    requires forall i :: 0 <= i < |ts| ==> !ts[i].Param?
    ensures Anonymous(ts) == ts
  {
    if ts != [] {
      AnonymousPlain(ts[1..]);
    }
  }

  lemma AnonymousOne(before: seq<Token>, m: nat)
    requires forall i :: 0 <= i < |before| ==> !before[i].Param?
    ensures Anonymous(before + [Param(m)]) == before + [Question]
  {
    AnonymousPlain(before);
    AnonymousConcat(before, [Param(m)]);
    assert [Param(m)][1..] == [];
  }

  method TimeConditions(f: Filter, fields: seq<seq<Token>>, fieldValues: seq<SqlValue>)
    returns (conditions: seq<seq<Token>>, values: seq<SqlValue>)
    requires PrintableFilter(f)
    requires fields == CondTexts(FieldConds(f.fields, COLUMNS)) && fieldValues == Binds(FieldConds(f.fields, COLUMNS))
    ensures conditions == CondTexts(D1Conds(f)) && values == Binds(D1Conds(f))
  {
    hide CondText, FieldConds, CondTexts, Binds, Key;
    ghost var conds := FieldConds(f.fields, COLUMNS);
    conditions, values := fields, fieldValues;
    if f.occurredAfter.Some? {
      var v := TextValue(Key(f.occurredAfter.value));
      OneMore(conds, Simple(OccurredKey, Ge, v));
      SimpleText(OccurredKey, Ge, v);
      conditions := conditions + [[ColumnRef(OccurredKey), Compare(Ge), Question]];
      values := values + [v];
    }
    ghost var after := Optional(OccurredKey, Ge, KeyValue(f.occurredAfter));
    assert conds + [] == conds;
    if f.occurredBefore.Some? {
      var v := TextValue(Key(f.occurredBefore.value));
      OneMore(conds + after, Simple(OccurredKey, Le, v));
      SimpleText(OccurredKey, Le, v);
      conditions := conditions + [[ColumnRef(OccurredKey), Compare(Le), Question]];
      values := values + [v];
    }
    ghost var before := Optional(OccurredKey, Le, KeyValue(f.occurredBefore));
    assert conds + after + [] == conds + after;
    if f.cursor.Some? {
      var v, id := TextValue(Key(f.cursor.value.occurredAt)), TextValue(f.cursor.value.id);
      OneMore(conds + after + before, Keyset(OccurredKey, v, id));
      KeysetText(OccurredKey, v, id);
      conditions := conditions +
        [[Open, ColumnRef(OccurredKey), Compare(Lt), Question, Or, Open, ColumnRef(OccurredKey), Compare(Eq), Question, And,
          ColumnRef(Id), Compare(Lt), Question, Close, Close]];
      values := values + [v, v, id];
    }
    ghost var cursor := match KeyCursor(f.cursor)
      case Some(c) => [Keyset(OccurredKey, c.0, TextValue(c.1))] case None => [];
    assert conds + after + before + [] == conds + after + before;
    assert conds + after + before + cursor == conds + (after + before + cursor);
  }

  // ---- What the query selects ----

  function D1Cells(row: D1Row): Cells {
    c => if c == OccurredKey then TextValue(row.key) else FieldCell(row.event.intent, c)
  }

  /** The one year that parsing can yield and whose keys sort out of place. */
  predicate Late(t: DateTime) { t.date.year == 10_000 }

  predicate OnSide(t: DateTime, late: bool) { ParsedYear(t) && (Late(t) <==> late) }

  predicate FilterOnSide(f: Filter, late: bool) {
    && (f.occurredAfter.Some? ==> OnSide(f.occurredAfter.value, late))
    && (f.occurredBefore.Some? ==> OnSide(f.occurredBefore.value, late))
    && (f.cursor.Some? ==> OnSide(f.cursor.value.occurredAt, late))
  }

  lemma KeysCompareAsTimes(op: Comparison, a: DateTime, b: DateTime, late: bool)
    requires OnSide(a, late) && OnSide(b, late)
    ensures CompareText(Less, op, Key(a), Key(b)) <==> CompareTime(op, a, b)
  {
    KeyOrder(a, b);
    KeyOrder(b, a);
  }

  /** What the filter says about a row in terms of its key. */
  predicate KeyInRange(f: Filter, key: string)
    requires PrintableFilter(f)
  {
    && (f.occurredAfter.Some? ==> !Less(key, Key(f.occurredAfter.value)))
    && (f.occurredBefore.Some? ==> !Less(Key(f.occurredBefore.value), key))
  }

  predicate KeyBelowCursor(cursor: Option<Position>, row: D1Row)
    requires cursor.Some? ==> PrintableYear(cursor.value.occurredAt)
  {
    cursor.Some? ==>
      var key := Key(cursor.value.occurredAt);
      Less(row.key, key) || (row.key == key && Less(row.event.intent.id, cursor.value.id))
  }

  predicate KeyMatches(f: Filter, row: D1Row)
    requires PrintableFilter(f)
  {
    MatchesFields(f.fields, row.event.intent) && KeyInRange(f, row.key) && KeyBelowCursor(f.cursor, row)
  }

  /** The clause selects exactly the rows that match by key, for every filter and every row. */
  lemma D1SelectsByKey(f: Filter, row: D1Row)
    requires PrintableFilter(f)
    ensures Selects(Less, ClauseTokens(D1Conds(f)), Binds(D1Conds(f)), D1Cells(row)) <==> KeyMatches(f, row)
  {
    hide Selects, ClauseTokens, Binds, TimeConds, FieldConds, AllHold, MatchesFields, KeyInRange, KeyBelowCursor, Key;
    var cells := D1Cells(row);
    D1CellsOf(row);
    D1TimesMeaning(f, row);
    hide FieldCell, CellsOf, D1Cells;
    var after, before, cursor := KeyValue(f.occurredAfter), KeyValue(f.occurredBefore), KeyCursor(f.cursor);
    ClauseMeaning(Less, D1Conds(f), cells);
    AllHoldConcat(Less, FieldConds(f.fields, COLUMNS), TimeConds(OccurredKey, after, before, cursor), cells);
    FieldCondsMeaning(Less, f.fields, cells, row.event.intent);
  }

  lemma D1CellsOf(row: D1Row)
    ensures CellsOf(D1Cells(row), row.event.intent)
  {
    hide FieldCell;
  }

  lemma KeyRangeMeaning(f: Filter, key: string)
    requires PrintableFilter(f)
    ensures KeyInRange(f, key) <==>
            && (f.occurredAfter.Some? ==>
                  CompareValues(Less, Ge, TextValue(key), TextValue(Key(f.occurredAfter.value))) == True)
            && (f.occurredBefore.Some? ==>
                  CompareValues(Less, Le, TextValue(key), TextValue(Key(f.occurredBefore.value))) == True)
  {
    hide Key, Less;
    if f.occurredAfter.Some? {
      TextOrder(key, Key(f.occurredAfter.value));
    }
    if f.occurredBefore.Some? {
      TextOrder(Key(f.occurredBefore.value), key);
    }
  }

  lemma KeyCursorMeaning(p: Position, row: D1Row)
    requires PrintableYear(p.occurredAt)
    ensures Holds(Less, Keyset(OccurredKey, TextValue(Key(p.occurredAt)), TextValue(p.id)), D1Cells(row)) == True
            <==> KeyBelowCursor(Some(p), row)
  {
    hide Key, Less;
  }

  lemma D1TimesMeaning(f: Filter, row: D1Row)
    requires PrintableFilter(f)
    ensures var times := TimeConds(OccurredKey, KeyValue(f.occurredAfter), KeyValue(f.occurredBefore), KeyCursor(f.cursor));
            AllHold(Less, times, D1Cells(row))
            <==> KeyInRange(f, row.key) && KeyBelowCursor(f.cursor, row)
  {
    TimeCondsHold(
      Less, OccurredKey, KeyValue(f.occurredAfter), KeyValue(f.occurredBefore), KeyCursor(f.cursor), D1Cells(row));
    KeyRangeMeaning(f, row.key);
    hide TimeConds, AllHold, Key, KeyInRange, Holds, CompareValues;
    if f.cursor.Some? {
      KeyCursorMeaning(f.cursor.value, row);
      hide KeyBelowCursor;
    }
  }

  lemma TextOrder(a: string, b: string)
    ensures !Less(a, b) <==> Less(b, a) || a == b
  {
    LessTotal(a, b);
    LessIrreflexive(a);
    if Less(a, b) && Less(b, a) {
      LessTransitive(a, b, a);
    }
  }

  /** Matching by key is matching by time. */
  lemma KeyMatchesAsReference(f: Filter, row: D1Row, late: bool)
    requires FilterOnSide(f, late) && ValidRow(row) && OnSide(row.event.intent.occurredAt, late)
    ensures KeyMatches(f, row) <==> Matches(Less, f, row.event)
  {
    var t := row.event.intent.occurredAt;
    if f.occurredAfter.Some? {
      KeysCompareAsTimes(Lt, t, f.occurredAfter.value, late);
    }
    if f.occurredBefore.Some? {
      KeysCompareAsTimes(Lt, f.occurredBefore.value, t, late);
    }
    if f.cursor.Some? {
      KeysCompareAsTimes(Lt, t, f.cursor.value.occurredAt, late);
      KeysCompareAsTimes(Eq, t, f.cursor.value.occurredAt, late);
    }
    hide Key, Less, Before, MatchesFields;
  }

  // ---- Ordering and limiting ----

  predicate RowBelow(a: D1Row, b: D1Row) {
    Less(a.key, b.key) || (a.key == b.key && Less(a.event.intent.id, b.event.intent.id))
  }

  function InsertRow(s: seq<D1Row>, row: D1Row): seq<D1Row> {
    if s == [] then [row]
    else if RowBelow(s[0], row) then [row] + s
    else [s[0]] + InsertRow(s[1..], row)
  }

  function SortRows(s: seq<D1Row>): seq<D1Row> {
    if s == [] then [] else InsertRow(SortRows(s[1..]), s[0])
  }

  /** The rows that a query with its bound values selects. */
  function SelectRows(query: seq<Token>, values: seq<SqlValue>, rows: seq<D1Row>): seq<D1Row> {
    if rows == [] then []
    else
      (if Selects(Less, Number(query, 1), values, D1Cells(rows[0])) then [rows[0]] else [])
      + SelectRows(query, values, rows[1..])
  }

  /** `… ORDER BY occurred_key DESC, id DESC LIMIT limit + 1`, each row decoded. */
  function Execute(query: seq<Token>, values: seq<SqlValue>, rows: seq<D1Row>, limit: int): Log {
    var sorted := EventsOf(SortRows(SelectRows(query, values, rows)));
    if 0 <= limit + 1 < |sorted| then sorted[..limit + 1] else sorted
  }

  /** The query text belongs to the filter. */
  predicate QueryOf(query: seq<Token>, values: seq<SqlValue>, f: Filter)
    requires PrintableFilter(f)
  {
    Number(query, 1) == ClauseTokens(D1Conds(f)) && values == Binds(D1Conds(f))
  }

  /** The rows that match by key. */
  function KeySelect(rows: seq<D1Row>, f: Filter): seq<D1Row>
    requires PrintableFilter(f)
  {
    if rows == [] then []
    else (if KeyMatches(f, rows[0]) then [rows[0]] else []) + KeySelect(rows[1..], f)
  }

  /** All rows that match by key, newest key first. */
  function KeyListing(rows: seq<D1Row>, f: Filter): Log
    requires PrintableFilter(f)
  {
    EventsOf(SortRows(KeySelect(rows, f)))
  }

  /** One more of them than the limit. */
  function KeyList(rows: seq<D1Row>, f: Filter): Log
    requires PrintableFilter(f)
  {
    var sorted := KeyListing(rows, f);
    if 0 <= f.limit + 1 < |sorted| then sorted[..f.limit + 1] else sorted
  }

  lemma {:induction false} SelectsByKey(query: seq<Token>, values: seq<SqlValue>, rows: seq<D1Row>, f: Filter)
    requires PrintableFilter(f) && QueryOf(query, values, f)
    ensures SelectRows(query, values, rows) == KeySelect(rows, f)
  {
    hide Selects, KeyMatches, D1Conds, PrintableFilter, ClauseTokens, Binds, D1Cells, Number;
    if rows != [] {
      D1SelectsByKey(f, rows[0]);
      SelectsByKey(query, values, rows[1..], f);
    }
  }

  /** For every filter the query returns the listing by key. */
  lemma D1ListsByKey(query: seq<Token>, values: seq<SqlValue>, rows: seq<D1Row>, f: Filter)
    requires PrintableFilter(f) && QueryOf(query, values, f)
    ensures Execute(query, values, rows, f.limit) == KeyList(rows, f)
  {
    hide QueryOf, PrintableFilter, SelectRows, KeySelect, SortRows, EventsOf;
    SelectsByKey(query, values, rows, f);
  }

  // ---- The listing by key against the reference ----

  /** All rows lie on one side of the beginning of year 10000. */
  ghost predicate RowsOnSide(rows: seq<D1Row>, late: bool) {
    forall i :: 0 <= i < |rows| ==> ValidRow(rows[i]) && OnSide(rows[i].event.intent.occurredAt, late)
  }

  /** All rows are valid, and those whose fields are asked for lie on one side. */
  ghost predicate AskedOnSide(rows: seq<D1Row>, fields: FieldFilter, late: bool) {
    forall i :: 0 <= i < |rows| ==>
      && ValidRow(rows[i])
      && (MatchesFields(fields, rows[i].event.intent) ==> OnSide(rows[i].event.intent.occurredAt, late))
  }

  ghost predicate ParsedRows(rows: seq<D1Row>) {
    forall i :: 0 <= i < |rows| ==> ValidRow(rows[i]) && ParsedYear(rows[i].event.intent.occurredAt)
  }

  lemma RowOrderIsEventOrder(a: D1Row, b: D1Row, late: bool)
    requires ValidRow(a) && ValidRow(b)
    requires OnSide(a.event.intent.occurredAt, late) && OnSide(b.event.intent.occurredAt, late)
    ensures RowBelow(a, b) <==> BelowEvent(Less, a.event, b.event)
  {
    KeysCompareAsTimes(Lt, a.event.intent.occurredAt, b.event.intent.occurredAt, late);
    KeysCompareAsTimes(Eq, a.event.intent.occurredAt, b.event.intent.occurredAt, late);
  }

  lemma {:induction false} InsertsAsReference(s: seq<D1Row>, row: D1Row, late: bool)
    requires RowsOnSide(s, late) && RowsOnSide([row], late)
    ensures EventsOf(InsertRow(s, row)) == InsertDescending(Less, EventsOf(s), row.event)
    ensures RowsOnSide(InsertRow(s, row), late)
  {
    hide OnSide, ValidRow, RowBelow, BelowEvent;
    if s == [] {
      assert [row][1..] == [];
    } else {
      assert [row][0] == row;
      RowOrderIsEventOrder(s[0], row, late);
      assert ([row] + s)[1..] == s;
      InsertsAsReference(s[1..], row, late);
      var rest := InsertRow(s[1..], row);
      assert ([s[0]] + rest)[1..] == rest;
      forall i | 0 <= i <= |rest|
        ensures ValidRow(([s[0]] + rest)[i]) && OnSide(([s[0]] + rest)[i].event.intent.occurredAt, late)
      {
        if i > 0 { assert ([s[0]] + rest)[i] == rest[i - 1]; }
      }
    }
  }

  lemma {:induction false} SortsAsReference(s: seq<D1Row>, late: bool)
    requires RowsOnSide(s, late)
    ensures EventsOf(SortRows(s)) == SortDescending(Less, EventsOf(s))
    ensures RowsOnSide(SortRows(s), late)
  {
    hide OnSide, ValidRow, RowBelow, BelowEvent;
    if s != [] {
      SortsAsReference(s[1..], late);
      assert RowsOnSide([s[0]], late);
      InsertsAsReference(SortRows(s[1..]), s[0], late);
    }
  }

  /** A row that matches, by key or by time, has the fields. */
  lemma MatchHasFields(f: Filter, row: D1Row)
    requires PrintableFilter(f)
    ensures KeyMatches(f, row) || Matches(Less, f, row.event) ==> MatchesFields(f.fields, row.event.intent)
  {
    hide MatchesFields, KeyInRange, KeyBelowCursor, InRange, BelowCursor;
  }

  lemma {:induction false} SelectsAsReference(rows: seq<D1Row>, f: Filter, late: bool)
    requires AskedOnSide(rows, f.fields, late) && FilterOnSide(f, late) && PrintableFilter(f)
    ensures EventsOf(KeySelect(rows, f)) == Select(Less, EventsOf(rows), f)
    ensures RowsOnSide(KeySelect(rows, f), late)
  {
    hide OnSide, ValidRow, KeyMatches, Matches, MatchesFields, FilterOnSide, PrintableFilter;
    if rows != [] {
      var row, tail := rows[0], rows[1..];
      MatchHasFields(f, row);
      if MatchesFields(f.fields, row.event.intent) {
        KeyMatchesAsReference(f, row, late);
      }
      SelectsAsReference(tail, f, late);
      var rest := KeySelect(tail, f);
      var events := EventsOf(rows);
      assert events[0] == row.event && events[1..] == EventsOf(tail);
      if Matches(Less, f, row.event) {
        assert ([row] + rest)[1..] == rest;
        assert KeySelect(rows, f) == [row] + rest;
        assert Select(Less, events, f) == [events[0]] + Select(Less, events[1..], f);
      } else {
        assert KeySelect(rows, f) == rest;
        assert Select(Less, events, f) == Select(Less, events[1..], f);
      }
    }
  }

  /** As long as the filter's instants and the rows whose fields it asks for lie on one side of year
    10000, the listing by key is the reference listing. */
  lemma D1ListsAsReference(rows: seq<D1Row>, f: Filter, late: bool)
    requires AskedOnSide(rows, f.fields, late) && FilterOnSide(f, late) && 1 <= f.limit <= 200
    ensures KeyList(rows, f) == List(Less, EventsOf(rows), f)
  {
    hide Select, KeySelect, SortRows, SortDescending, EventsOf, RowsOnSide, AskedOnSide;
    SelectsAsReference(rows, f, late);
    SortsAsReference(KeySelect(rows, f), late);
  }

  // ---- Exactly when the two orders agree ----

  /** All or none of the rows lie in year 10000. */
  ghost predicate OneSided(rows: seq<D1Row>) {
    forall i, j :: 0 <= i < |rows| && 0 <= j < |rows| ==>
      (Late(rows[i].event.intent.occurredAt) <==> Late(rows[j].event.intent.occurredAt))
  }

  lemma LateRowsGoDown(a: D1Row, b: D1Row)
    requires ParsedRows([a, b]) && Late(a.event.intent.occurredAt) && !Late(b.event.intent.occurredAt)
    ensures RowBelow(a, b) && !RowBelow(b, a)
    ensures BelowEvent(Less, b.event, a.event) && !BelowEvent(Less, a.event, b.event)
  {
    var s, t := a.event.intent.occurredAt, b.event.intent.occurredAt;
    assert ValidRow([a, b][0]) && ValidRow([a, b][1]);
    assert ParsedYear([a, b][0].event.intent.occurredAt) && ParsedYear([a, b][1].event.intent.occurredAt);
    KeyOrder(s, t);
    KeyOrder(t, s);
  }

  /** By key a row of year 10000 comes first only if there is no other row. */
  lemma {:induction false} FirstByKey(s: seq<D1Row>)
    requires ParsedRows(s) && s != []
    ensures SortRows(s) != [] && SortRows(s)[0] in s
    ensures Late(SortRows(s)[0].event.intent.occurredAt)
            <==> forall i :: 0 <= i < |s| ==> Late(s[i].event.intent.occurredAt)
  {
    hide RowBelow, ValidRow, ParsedYear, Late;
    if |s| == 1 {
      assert s[1..] == [];
      assert SortRows(s) == [s[0]];
    } else {
      FirstByKey(s[1..]);
      var head := SortRows(s[1..])[0];
      if Late(head.event.intent.occurredAt) && !Late(s[0].event.intent.occurredAt) {
        assert ParsedRows([head, s[0]]);
        LateRowsGoDown(head, s[0]);
      } else if !Late(head.event.intent.occurredAt) && Late(s[0].event.intent.occurredAt) {
        assert ParsedRows([s[0], head]);
        LateRowsGoDown(s[0], head);
      }
      assert forall i :: 1 <= i < |s| ==> s[i] == s[1..][i - 1];
    }
  }

  ghost predicate AnyLate(s: seq<D1Row>) {
    exists i :: 0 <= i < |s| && Late(s[i].event.intent.occurredAt)
  }

  lemma AnyLateCons(s: seq<D1Row>)
    requires s != []
    ensures AnyLate(s) <==> Late(s[0].event.intent.occurredAt) || AnyLate(s[1..])
  {
    hide Late;
    if i :| 0 <= i < |s| && Late(s[i].event.intent.occurredAt) {
      if i > 0 {
        assert s[1..][i - 1] == s[i];
      }
    }
    if k :| 0 <= k < |s| - 1 && Late(s[1..][k].event.intent.occurredAt) {
      assert s[k + 1] == s[1..][k];
    }
  }

  lemma InsertHead(s: Log, e: StoredEvent)
    ensures InsertDescending(Less, s, e) != []
    ensures InsertDescending(Less, s, e)[0] == if s == [] || BelowEvent(Less, s[0], e) then e else s[0]
  {
    hide BelowEvent;
  }

  /** By time it comes first if there is one. */
  lemma {:induction false} FirstByTime(s: seq<D1Row>) returns (first: D1Row)
    requires ParsedRows(s) && s != []
    ensures SortDescending(Less, EventsOf(s)) != [] && first.event == SortDescending(Less, EventsOf(s))[0] && first in s
    ensures Late(first.event.intent.occurredAt) <==> AnyLate(s)
  {
    hide BelowEvent, ValidRow, ParsedYear, Late, RowBelow, AnyLate;
    var events := EventsOf(s);
    AnyLateCons(s);
    assert events[0] == s[0].event && events[1..] == EventsOf(s[1..]);
    InsertHead(SortDescending(Less, events[1..]), s[0].event);
    if |s| == 1 {
      NoneLate(s[1..]);
      assert EventsOf(s[1..]) == [];
      first := s[0];
    } else {
      var head := FirstByTime(s[1..]);
      if Late(head.event.intent.occurredAt) && !Late(s[0].event.intent.occurredAt) {
        assert ParsedRows([head, s[0]]);
        LateRowsGoDown(head, s[0]);
      } else if !Late(head.event.intent.occurredAt) && Late(s[0].event.intent.occurredAt) {
        assert ParsedRows([s[0], head]);
        LateRowsGoDown(s[0], head);
      }
      first := if BelowEvent(Less, head.event, s[0].event) then s[0] else head;
    }
  }

  lemma NoneLate(s: seq<D1Row>)
    requires s == []
    ensures !AnyLate(s)
  {}

  /** With rows on both sides the two orders begin with different events. */
  lemma MixedRowsDiffer(s: seq<D1Row>)
    requires ParsedRows(s) && !OneSided(s)
    ensures s != [] && SortRows(s) != [] && SortDescending(Less, EventsOf(s)) != []
    ensures SortRows(s)[0].event != SortDescending(Less, EventsOf(s))[0]
  {
    hide SortRows, SortDescending, EventsOf, ParsedRows;
    FirstByKey(s);
    var first := FirstByTime(s);
  }

  lemma OneSidedRows(s: seq<D1Row>)
    requires ParsedRows(s) && OneSided(s)
    ensures exists late :: RowsOnSide(s, late)
  {
    hide ParsedYear, ValidRow;
    if s != [] {
      assert RowsOnSide(s, Late(s[0].event.intent.occurredAt));
    } else {
      assert RowsOnSide(s, false);
    }
  }

  /** A table sorted by key is sorted by time exactly when all or none of its rows lie in year 10000,
    which an offset at the end of year 9999 can produce. */
  lemma YearTenThousandIsMisplaced(rows: seq<D1Row>)
    requires ParsedRows(rows)
    ensures EventsOf(SortRows(rows)) == SortDescending(Less, EventsOf(rows)) <==> OneSided(rows)
  {
    hide SortRows, SortDescending, ParsedRows, RowsOnSide, OneSided;
    if OneSided(rows) {
      OneSidedRows(rows);
      var late :| RowsOnSide(rows, late);
      SortsAsReference(rows, late);
    } else {
      MixedRowsDiffer(rows);
      assert EventsOf(SortRows(rows))[0] == SortRows(rows)[0].event;
    }
  }

  /** The rows that have the fields a filter asks for. */
  function Asked(rows: seq<D1Row>, fields: FieldFilter): seq<D1Row> {
    if rows == [] then []
    else (if MatchesFields(fields, rows[0].event.intent) then [rows[0]] else []) + Asked(rows[1..], fields)
  }

  predicate Unbounded(f: Filter) { f.occurredAfter.None? && f.occurredBefore.None? && f.cursor.None? }

  lemma {:induction false} UnboundedSelects(rows: seq<D1Row>, f: Filter)
    requires Unbounded(f) && ParsedRows(rows)
    ensures KeySelect(rows, f) == Asked(rows, f.fields)
    ensures Select(Less, EventsOf(rows), f) == EventsOf(Asked(rows, f.fields))
    ensures ParsedRows(Asked(rows, f.fields))
  {
    hide MatchesFields, ParsedYear, ValidRow;
    if rows != [] {
      UnboundedSelects(rows[1..], f);
      var events, rest := EventsOf(rows), Asked(rows[1..], f.fields);
      assert events[0] == rows[0].event && events[1..] == EventsOf(rows[1..]);
      assert ([rows[0]] + rest)[1..] == rest;
      if MatchesFields(f.fields, rows[0].event.intent) {
        assert Asked(rows, f.fields) == [rows[0]] + rest;
        assert Select(Less, events, f) == [events[0]] + Select(Less, events[1..], f);
      } else {
        assert Asked(rows, f.fields) == rest;
        assert Select(Less, events, f) == Select(Less, events[1..], f);
      }
    }
  }

  /** For a filter without bounds and any limit, the listing by key is the reference listing exactly
    when all or none of the rows with its fields lie in year 10000. */
  lemma D1ListsExactly(rows: seq<D1Row>, f: Filter)
    requires ParsedRows(rows) && Unbounded(f) && 1 <= f.limit <= 200
    ensures KeyList(rows, f) == List(Less, EventsOf(rows), f) <==> OneSided(Asked(rows, f.fields))
  {
    hide KeySelect, Select, SortRows, SortDescending, ParsedRows, RowsOnSide, OneSided, Asked;
    UnboundedSelects(rows, f);
    var asked := Asked(rows, f.fields);
    YearTenThousandIsMisplaced(asked);
    if !OneSided(asked) {
      MixedRowsDiffer(asked);
      assert EventsOf(SortRows(asked))[0] == SortRows(asked)[0].event;
      assert KeyList(rows, f)[0] == SortRows(asked)[0].event;
      assert List(Less, EventsOf(rows), f)[0] == SortDescending(Less, EventsOf(asked))[0];
    }
  }

  // ---- Every filter, before the limit ----

  /** A bound and a row on different sides of year 10000. */
  predicate Crossed(bound: Option<DateTime>, t: DateTime) {
    bound.Some? && (Late(bound.value) <==> !Late(t))
  }

  function CursorTime(f: Filter): Option<DateTime> {
    match f.cursor case Some(p) => Some(p.occurredAt) case None => None
  }

  /** The fields match, and so do the bounds that are on the row's side. */
  predicate MatchesUncrossed(f: Filter, row: D1Row) {
    var t := row.event.intent.occurredAt;
    && MatchesFields(f.fields, row.event.intent)
    && (f.occurredAfter.Some? && !Crossed(f.occurredAfter, t) ==> !Before(t, f.occurredAfter.value))
    && (f.occurredBefore.Some? && !Crossed(f.occurredBefore, t) ==> !Before(f.occurredBefore.value, t))
    && (f.cursor.Some? && !Crossed(CursorTime(f), t) ==> Below(Less, PositionOf(row.event), f.cursor.value))
  }

  /** Keys turn every crossed bound around. That makes no difference if there is none, if the row is
    out anyway, or if a lower and an upper bound are both crossed, as one of them fails either way. */
  predicate KeyAgrees(f: Filter, row: D1Row) {
    var t := row.event.intent.occurredAt;
    var upper := Crossed(f.occurredBefore, t) || Crossed(CursorTime(f), t);
    || !MatchesUncrossed(f, row)
    || (!Crossed(f.occurredAfter, t) && !upper)
    || (Crossed(f.occurredAfter, t) && upper)
  }

  predicate ParsedFilter(f: Filter) {
    && (f.occurredAfter.Some? ==> ParsedYear(f.occurredAfter.value))
    && (f.occurredBefore.Some? ==> ParsedYear(f.occurredBefore.value))
    && (f.cursor.Some? ==> ParsedYear(f.cursor.value.occurredAt))
  }

  lemma LateIsAfter(a: DateTime, b: DateTime)
    requires ParsedYear(a) && ParsedYear(b)
    ensures Late(a) && !Late(b) ==> Before(b, a) && !Before(a, b) && Less(Key(a), Key(b)) && !Less(Key(b), Key(a)) && Key(a) != Key(b)
  {
    KeyOrder(a, b);
    KeyOrder(b, a);
  }

  /** One bound against one row. */
  lemma BoundAgainstRow(bound: DateTime, t: DateTime)
    requires ParsedYear(bound) && ParsedYear(t)
    ensures Late(bound) == Late(t) ==>
              && (Less(Key(t), Key(bound)) <==> Before(t, bound)) && (Less(Key(bound), Key(t)) <==> Before(bound, t))
              && (Key(t) == Key(bound) <==> t == bound)
    ensures Late(bound) && !Late(t) ==> Before(t, bound) && !Before(bound, t) && Less(Key(bound), Key(t)) && !Less(Key(t), Key(bound))
    ensures !Late(bound) && Late(t) ==> Before(bound, t) && !Before(t, bound) && Less(Key(t), Key(bound)) && !Less(Key(bound), Key(t))
    ensures Late(bound) != Late(t) ==> t != bound && Key(t) != Key(bound)
  {
    if Late(bound) == Late(t) {
      KeysCompareAsTimes(Lt, t, bound, Late(t));
      KeysCompareAsTimes(Lt, bound, t, Late(t));
      KeysCompareAsTimes(Eq, t, bound, Late(t));
    } else {
      LateIsAfter(bound, t);
      LateIsAfter(t, bound);
    }
  }

  /** Crossing turns a bound around: what it lets through by time, it keeps out by key. */
  lemma LowerBoundTurns(f: Filter, t: DateTime)
    requires ParsedFilter(f) && ParsedYear(t) && f.occurredAfter.Some?
    ensures !Less(Key(t), Key(f.occurredAfter.value))
            <==> (if Crossed(f.occurredAfter, t) then Before(t, f.occurredAfter.value) else !Before(t, f.occurredAfter.value))
    ensures Crossed(f.occurredAfter, t) ==> (!Before(t, f.occurredAfter.value) <==> Late(t))
  {
    BoundAgainstRow(f.occurredAfter.value, t);
  }

  lemma UpperBoundTurns(f: Filter, t: DateTime)
    requires ParsedFilter(f) && ParsedYear(t) && f.occurredBefore.Some?
    ensures !Less(Key(f.occurredBefore.value), Key(t))
            <==> (if Crossed(f.occurredBefore, t) then Before(f.occurredBefore.value, t) else !Before(f.occurredBefore.value, t))
    ensures Crossed(f.occurredBefore, t) ==> (!Before(f.occurredBefore.value, t) <==> !Late(t))
  {
    BoundAgainstRow(f.occurredBefore.value, t);
  }

  lemma CursorTurns(f: Filter, row: D1Row)
    requires ParsedFilter(f) && ValidRow(row) && ParsedYear(row.event.intent.occurredAt) && f.cursor.Some?
    ensures var t := row.event.intent.occurredAt;
            var below := Below(Less, PositionOf(row.event), f.cursor.value);
            && (KeyBelowCursor(f.cursor, row) <==> if Crossed(CursorTime(f), t) then !below else below)
            && (Crossed(CursorTime(f), t) ==> (below <==> !Late(t)))
  {
    BoundAgainstRow(f.cursor.value.occurredAt, row.event.intent.occurredAt);
    hide Key, Less;
  }

  /** For every filter and every row, matching by key is matching by time exactly under that condition. */
  lemma KeyMatchesExactly(f: Filter, row: D1Row)
    requires ParsedFilter(f) && ValidRow(row) && ParsedYear(row.event.intent.occurredAt)
    ensures (KeyMatches(f, row) <==> Matches(Less, f, row.event)) <==> KeyAgrees(f, row)
  {
    var t := row.event.intent.occurredAt;
    hide Key, Less, Before, Below, MatchesFields, ParsedYear;
    if f.occurredAfter.Some? {
      LowerBoundTurns(f, t);
    }
    if f.occurredBefore.Some? {
      UpperBoundTurns(f, t);
    }
    if f.cursor.Some? {
      CursorTurns(f, row);
    }
    hide KeyBelowCursor, Late;
  }

  ghost predicate AllAgree(rows: seq<D1Row>, f: Filter) {
    forall i :: 0 <= i < |rows| ==> KeyAgrees(f, rows[i])
  }

  lemma {:induction false} AgreeingSelects(rows: seq<D1Row>, f: Filter)
    requires ParsedRows(rows) && ParsedFilter(f) && PrintableFilter(f) && AllAgree(rows, f)
    ensures EventsOf(KeySelect(rows, f)) == Select(Less, EventsOf(rows), f)
  {
    hide KeyAgrees, KeyMatches, Matches, ParsedYear, ValidRow, PrintableFilter, ParsedFilter;
    if rows != [] {
      KeyMatchesExactly(f, rows[0]);
      AgreeingSelects(rows[1..], f);
      var events, rest := EventsOf(rows), KeySelect(rows[1..], f);
      assert events[0] == rows[0].event && events[1..] == EventsOf(rows[1..]);
      assert ([rows[0]] + rest)[1..] == rest;
      if Matches(Less, f, rows[0].event) {
        assert KeySelect(rows, f) == [rows[0]] + rest;
        assert Select(Less, events, f) == [events[0]] + Select(Less, events[1..], f);
      } else {
        assert KeySelect(rows, f) == rest;
        assert Select(Less, events, f) == Select(Less, events[1..], f);
      }
    }
  }

  lemma {:induction false} RowsAndEvents(rows: seq<D1Row>)
    ensures forall row :: row in rows ==> row.event in EventsOf(rows)
    ensures forall e :: e in EventsOf(rows) ==> exists row :: row in rows && row.event == e
  {
    if rows != [] {
      RowsAndEvents(rows[1..]);
      assert rows == [rows[0]] + rows[1..];
      assert rows[0] in rows;
      forall e | e in EventsOf(rows) ensures exists row :: row in rows && row.event == e {
        if e != rows[0].event {
          var row :| row in rows[1..] && row.event == e;
          assert row in rows;
        }
      }
    }
  }

  lemma {:induction false} KeySelected(rows: seq<D1Row>, f: Filter)
    requires PrintableFilter(f)
    ensures forall row :: row in KeySelect(rows, f) <==> row in rows && KeyMatches(f, row)
  {
    hide KeyMatches;
    if rows != [] {
      KeySelected(rows[1..], f);
      assert rows == [rows[0]] + rows[1..];
    }
  }

  lemma {:induction false} InsertRowElements(s: seq<D1Row>, row: D1Row)
    ensures multiset(InsertRow(s, row)) == multiset(s) + multiset{row}
  {
    hide RowBelow;
    if s != [] {
      assert s == [s[0]] + s[1..];
      InsertRowElements(s[1..], row);
    }
  }

  lemma {:induction false} SortRowsElements(s: seq<D1Row>)
    ensures multiset(SortRows(s)) == multiset(s)
  {
    if s != [] {
      assert s == [s[0]] + s[1..];
      SortRowsElements(s[1..]);
      InsertRowElements(SortRows(s[1..]), s[0]);
    }
  }

  lemma KeyListingElements(rows: seq<D1Row>, f: Filter, e: StoredEvent)
    requires PrintableFilter(f)
    ensures e in KeyListing(rows, f) <==> exists row :: row in rows && KeyMatches(f, row) && row.event == e
  {
    hide KeyMatches, SortRows, KeySelect;
    var selected := KeySelect(rows, f);
    KeySelected(rows, f);
    SortRowsElements(selected);
    assert forall row :: row in SortRows(selected) <==> row in multiset(SortRows(selected));
    assert forall row :: row in selected <==> row in multiset(selected);
    RowsAndEvents(SortRows(selected));
  }

  /** Listings that are equal hold the same rows, so every row agrees. */
  lemma EqualListingsAgree(rows: seq<D1Row>, f: Filter, row: D1Row)
    requires ParsedRows(rows) && ParsedFilter(f) && UniqueIds(EventsOf(rows)) && row in rows
    requires KeyListing(rows, f) == Listing(Less, EventsOf(rows), f)
    ensures KeyAgrees(f, row)
  {
    hide KeyMatches, Matches, KeyAgrees, KeyListing, Listing;
    var i :| 0 <= i < |rows| && rows[i] == row;
    KeyMatchesExactly(f, rows[i]);
    KeyListingElements(rows, f, row.event);
    ListingElements(Less, EventsOf(rows), f, row.event);
    RowsAndEvents(rows);
    forall other | other in rows && other.event == row.event ensures other == row {
      var k :| 0 <= k < |rows| && rows[k] == other;
      assert ValidRow(rows[k]) && ValidRow(rows[i]);
    }
  }

  /** For every filter, before the limit is applied: the listing by key is the reference listing exactly
    when keys agree with times on every row and the rows they select lie on one side. */
  lemma D1ListingExactly(rows: seq<D1Row>, f: Filter)
    requires ParsedRows(rows) && ParsedFilter(f) && UniqueIds(EventsOf(rows))
    ensures KeyListing(rows, f) == Listing(Less, EventsOf(rows), f) <==> AllAgree(rows, f) && OneSided(KeySelect(rows, f))
  {
    if KeyListing(rows, f) == Listing(Less, EventsOf(rows), f) {
      forall i | 0 <= i < |rows| ensures KeyAgrees(f, rows[i]) {
        EqualListingsAgree(rows, f, rows[i]);
      }
    }
    if AllAgree(rows, f) {
      ParsedSelection(rows, f);
      hide KeySelect, Select, SortRows, SortDescending, ParsedRows, OneSided, AllAgree;
      AgreeingSelects(rows, f);
      YearTenThousandIsMisplaced(KeySelect(rows, f));
    }
  }

  lemma ParsedSelection(rows: seq<D1Row>, f: Filter)
    requires ParsedRows(rows) && PrintableFilter(f)
    ensures ParsedRows(KeySelect(rows, f))
  {
    hide KeyMatches;
    KeySelected(rows, f);
    forall i | 0 <= i < |KeySelect(rows, f)|
      ensures ValidRow(KeySelect(rows, f)[i]) && ParsedYear(KeySelect(rows, f)[i].event.intent.occurredAt)
    {
      assert KeySelect(rows, f)[i] in rows;
    }
  }
}

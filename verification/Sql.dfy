/** The part of SQL that event listings use: conditions over columns and bound parameters, their
  precedence, and three-valued logic over NULL. */
module Sql {
  import opened Wrappers
  import opened Order
  import opened Time

  datatype SqlValue = NullValue | TextValue(s: string) | TimeValue(t: DateTime)

  datatype Column =
    | Id | EventName | SourceInstance | OutcomeColumn | SeverityColumn | ActorKind | ActorId
    | ScopeModule | ScopeType | ScopeId | ResourceType | ResourceId | CorrelationId
    | OccurredAt | OccurredKey

  datatype Comparison = Eq | Lt | Le | Ge

  /** Query text, token by token. `Param` is a numbered placeholder, `Question` an anonymous one. */
  datatype Token =
    | Where | And | Or | Open | Close
    | ColumnRef(column: Column) | Compare(op: Comparison) | Param(n: nat) | Question

  // ---- Three-valued logic ----

  datatype Tri = True | False | Unknown

  function And3(a: Tri, b: Tri): Tri {
    if a == False || b == False then False else if a == True && b == True then True else Unknown
  }

  function Or3(a: Tri, b: Tri): Tri {
    if a == True || b == True then True else if a == False && b == False then False else Unknown
  }

  function FromBool(b: bool): Tri { if b then True else False }

  function CompareText(less: IdOrder, op: Comparison, a: string, b: string): bool {
    match op
    case Eq => a == b
    case Lt => less(a, b)
    case Le => less(a, b) || a == b
    case Ge => less(b, a) || a == b
  }

  function CompareTime(op: Comparison, a: DateTime, b: DateTime): bool {
    match op
    case Eq => a == b
    case Lt => Before(a, b)
    case Le => Before(a, b) || a == b
    case Ge => Before(b, a) || a == b
  }

  /** A comparison with NULL is unknown. */
  function CompareValues(less: IdOrder, op: Comparison, a: SqlValue, b: SqlValue): Tri {
    match (a, b)
    case (TextValue(s), TextValue(t)) => FromBool(CompareText(less, op, s, t))
    case (TimeValue(s), TimeValue(t)) => FromBool(CompareTime(op, s, t))
    case _ => Unknown
  }

  // ---- Expressions ----

  datatype Expr = Test(column: Column, op: Comparison, n: nat) | Both(a: Expr, b: Expr) | Either(a: Expr, b: Expr)

  type Cells = Column -> SqlValue

  function Evaluate(less: IdOrder, e: Expr, binds: seq<SqlValue>, cells: Cells): Tri {
    match e
    case Test(c, op, n) =>
      if 1 <= n <= |binds| then CompareValues(less, op, cells(c), binds[n - 1]) else Unknown
    case Both(a, b) => And3(Evaluate(less, a, binds, cells), Evaluate(less, b, binds, cells))
    case Either(a, b) => Or3(Evaluate(less, a, binds, cells), Evaluate(less, b, binds, cells))
  }

  /** Comparison, parenthesis. */
  function ReadAtom(ts: seq<Token>): (r: Option<(Expr, seq<Token>)>)
    ensures r.Some? ==> |r.value.1| < |ts|
    decreases |ts|, 0
  {
    if ts == [] then None
    else if ts[0] == Open then
      var (e, rest) :- ReadAlternatives(ts[1..]);
      if rest != [] && rest[0] == Close then Some((e, rest[1..])) else None
    else if |ts| >= 3 && ts[0].ColumnRef? && ts[1].Compare? && ts[2].Param?
    then Some((Test(ts[0].column, ts[1].op, ts[2].n), ts[3..]))
    else None
  }

  /** `and` binds tighter than `or`. */
  function ReadConjunction(ts: seq<Token>): (r: Option<(Expr, seq<Token>)>)
    ensures r.Some? ==> |r.value.1| < |ts|
    decreases |ts|, 1
  {
    var (a, rest) :- ReadAtom(ts);
    if rest != [] && rest[0] == And then
      var (b, end) :- ReadConjunction(rest[1..]);
      Some((Both(a, b), end))
    else Some((a, rest))
  }

  function ReadAlternatives(ts: seq<Token>): (r: Option<(Expr, seq<Token>)>)
    ensures r.Some? ==> |r.value.1| < |ts|
    decreases |ts|, 2
  {
    var (a, rest) :- ReadConjunction(ts);
    if rest != [] && rest[0] == Or then
      var (b, end) :- ReadAlternatives(rest[1..]);
      Some((Either(a, b), end))
    else Some((a, rest))
  }

  datatype Clause = NoClause | Condition(e: Expr)

  /** The whole clause: nothing, or one `where` and one expression. */
  function ReadClause(ts: seq<Token>): Option<Clause> {
    if ts == [] then Some(NoClause)
    else if ts[0] != Where then None
    else
      var (e, rest) :- ReadAlternatives(ts[1..]);
      if rest == [] then Some(Condition(e)) else None
  }

  /** A row is selected when the condition is true, not when it is false or unknown. */
  predicate Selects(less: IdOrder, ts: seq<Token>, binds: seq<SqlValue>, cells: Cells) {
    match ReadClause(ts)
    case Some(NoClause) => true
    case Some(Condition(e)) => Evaluate(less, e, binds, cells) == True
    case None => false
  }

  /** Which placeholders occur, from left to right. */
  function Placeholders(ts: seq<Token>): seq<nat> {
    if ts == [] then []
    else (if ts[0].Param? then [ts[0].n] else []) + Placeholders(ts[1..])
  }

  function Range(from: nat, count: nat): seq<nat>
    decreases count
  {
    if count == 0 then [] else [from] + Range(from + 1, count - 1)
  }

  /** The clause parses, and its placeholders name the bound values one by one. */
  predicate WellFormed(ts: seq<Token>, binds: seq<SqlValue>) {
    ReadClause(ts).Some? && Placeholders(ts) == Range(1, |binds|)
  }

  // ---- Conditions with their values ----

  datatype Cond =
    | Simple(column: Column, op: Comparison, v: SqlValue)
    | Keyset(column: Column, v: SqlValue, id: SqlValue)

  function CondBinds(c: Cond): seq<SqlValue> {
    match c
    case Simple(_, _, v) => [v]
    case Keyset(_, v, id) => [v, v, id]
  }

  function Binds(conds: seq<Cond>): seq<SqlValue> {
    if conds == [] then [] else CondBinds(conds[0]) + Binds(conds[1..])
  }

  /** `column op $n`, or `(column < $n or (column = $n+1 and id < $n+2))`. */
  function CondTokens(c: Cond, n: nat): seq<Token> {
    match c
    case Simple(column, op, _) => [ColumnRef(column), Compare(op), Param(n)]
    case Keyset(column, _, _) =>
      [Open, ColumnRef(column), Compare(Lt), Param(n), Or, Open, ColumnRef(column), Compare(Eq), Param(n + 1), And,
       ColumnRef(Id), Compare(Lt), Param(n + 2), Close, Close]
  }

  function CondExpr(c: Cond, n: nat): Expr {
    match c
    case Simple(column, op, _) => Test(column, op, n)
    case Keyset(column, _, _) => Either(Test(column, Lt, n), Both(Test(column, Eq, n + 1), Test(Id, Lt, n + 2)))
  }

  /** What the condition says of a row. */
  function Holds(less: IdOrder, c: Cond, cells: Cells): Tri {
    match c
    case Simple(column, op, v) => CompareValues(less, op, cells(column), v)
    case Keyset(column, v, id) =>
      Or3(CompareValues(less, Lt, cells(column), v),
          And3(CompareValues(less, Eq, cells(column), v), CompareValues(less, Lt, cells(Id), id)))
  }

  predicate AllHold(less: IdOrder, conds: seq<Cond>, cells: Cells) {
    conds == [] || (Holds(less, conds[0], cells) == True && AllHold(less, conds[1..], cells))
  }

  lemma {:induction false} AllHoldConcat(less: IdOrder, a: seq<Cond>, b: seq<Cond>, cells: Cells)
    ensures AllHold(less, a + b, cells) <==> AllHold(less, a, cells) && AllHold(less, b, cells)
  {
    if a == [] {
      assert a + b == b;
    } else {
      assert (a + b)[1..] == a[1..] + b;
      AllHoldConcat(less, a[1..], b, cells);
    }
  }

  /** Conditions joined by `and`, with placeholders numbered from `n`. */
  function JoinedTokens(conds: seq<Cond>, n: nat): seq<Token> {
    if conds == [] then []
    else
      var more := JoinedTokens(conds[1..], n + |CondBinds(conds[0])|);
      CondTokens(conds[0], n) + (if |conds| == 1 then [] else [And] + more)
  }

  function ClauseTokens(conds: seq<Cond>): seq<Token> {
    if conds == [] then [] else [Where] + JoinedTokens(conds, 1)
  }

  lemma {:induction false} BindsConcat(a: seq<Cond>, b: seq<Cond>)
    ensures Binds(a + b) == Binds(a) + Binds(b)
  {
    if a == [] {
      assert a + b == b;
    } else {
      assert (a + b)[1..] == a[1..] + b;
      BindsConcat(a[1..], b);
    }
  }

  lemma JoinedOne(c: Cond, n: nat)
    ensures JoinedTokens([c], n) == CondTokens(c, n) && Binds([c]) == CondBinds(c)
  {
    assert [c][1..] == [];
  }

  lemma JoinedCons(c: Cond, tail: seq<Cond>, n: nat)
    requires tail != []
    ensures JoinedTokens([c] + tail, n) == CondTokens(c, n) + ([And] + JoinedTokens(tail, n + |CondBinds(c)|))
    ensures Binds([c] + tail) == CondBinds(c) + Binds(tail)
  {
    hide CondTokens, CondBinds;
    assert ([c] + tail)[1..] == tail;
  }

  lemma {:induction false} JoinedAppend(conds: seq<Cond>, c: Cond, n: nat)
    requires conds != []
    ensures JoinedTokens(conds + [c], n) == JoinedTokens(conds, n) + ([And] + CondTokens(c, n + |Binds(conds)|))
  {
    hide CondTokens, CondBinds;
    var first, tail := conds[0], conds[1..];
    var m := n + |CondBinds(first)|;
    assert conds == [first] + tail && conds + [c] == [first] + (tail + [c]);
    JoinedCons(first, tail + [c], n);
    if tail == [] {
      assert tail + [c] == [c] && conds == [first];
      JoinedOne(c, m);
      JoinedOne(first, n);
    } else {
      JoinedAppend(tail, c, m);
      JoinedCons(first, tail, n);
      Regroup(CondTokens(first, n), [And], JoinedTokens(tail, m), [And] + CondTokens(c, m + |Binds(tail)|));
    }
  }

  lemma Regroup(a: seq<Token>, b: seq<Token>, c: seq<Token>, d: seq<Token>)
    ensures a + (b + (c + d)) == (a + (b + c)) + d
  {}

  /** One more condition adds its own separator, tokens and values. */
  lemma ClauseAppend(conds: seq<Cond>, c: Cond)
    ensures ClauseTokens(conds + [c])
            == ClauseTokens(conds) + ([if conds == [] then Where else And] + CondTokens(c, |Binds(conds)| + 1))
    ensures Binds(conds + [c]) == Binds(conds) + CondBinds(c)
  {
    BindsConcat(conds, [c]);
    JoinedOne(c, 1);
    if conds == [] {
      assert conds + [c] == [c];
    } else {
      JoinedAppend(conds, c, 1);
    }
  }

  // ---- Reading the clause back ----

  predicate EndsConjunction(rest: seq<Token>) { rest == [] || (rest[0] != And && rest[0] != Or) }

  lemma ReadsTest(column: Column, op: Comparison, n: nat, rest: seq<Token>)
    ensures ReadAtom([ColumnRef(column), Compare(op), Param(n)] + rest) == Some((Test(column, op, n), rest))
  {
    var ts := [ColumnRef(column), Compare(op), Param(n)] + rest;
    assert ts[3..] == rest;
  }

  lemma ReadsPair(column: Column, n: nat, rest: seq<Token>)
    ensures ReadAtom([Open, ColumnRef(column), Compare(Eq), Param(n), And, ColumnRef(Id), Compare(Lt), Param(n + 1), Close] + rest)
            == Some((Both(Test(column, Eq, n), Test(Id, Lt, n + 1)), rest))
  {
    var second := [ColumnRef(Id), Compare(Lt), Param(n + 1)] + ([Close] + rest);
    var first := [ColumnRef(column), Compare(Eq), Param(n)] + ([And] + second);
    var ts := [Open, ColumnRef(column), Compare(Eq), Param(n), And, ColumnRef(Id), Compare(Lt), Param(n + 1), Close] + rest;
    assert ts[1..] == first;
    ReadsTest(column, Eq, n, [And] + second);
    ReadsTest(Id, Lt, n + 1, [Close] + rest);
    assert ([And] + second)[1..] == second && ([Close] + rest)[1..] == rest;
    assert ReadConjunction(second) == Some((Test(Id, Lt, n + 1), [Close] + rest));
    assert ReadConjunction(first) == Some((Both(Test(column, Eq, n), Test(Id, Lt, n + 1)), [Close] + rest));
  }

  lemma ReadsCond(c: Cond, n: nat, rest: seq<Token>)
    ensures ReadAtom(CondTokens(c, n) + rest) == Some((CondExpr(c, n), rest))
  {
    match c
    case Simple(column, op, _) => ReadsTest(column, op, n, rest);
    case Keyset(column, _, _) =>
      var pair := [Open, ColumnRef(column), Compare(Eq), Param(n + 1), And, ColumnRef(Id), Compare(Lt), Param(n + 2), Close];
      var after := pair + ([Close] + rest);
      var ts := CondTokens(c, n) + rest;
      assert ts[1..] == [ColumnRef(column), Compare(Lt), Param(n)] + ([Or] + after);
      ReadsTest(column, Lt, n, [Or] + after);
      assert ([Or] + after)[1..] == after;
      ReadsPair(column, n + 1, [Close] + rest);
      assert ReadConjunction(ts[1..]) == Some((Test(column, Lt, n), [Or] + after));
      assert ReadConjunction(after) == Some((Both(Test(column, Eq, n + 1), Test(Id, Lt, n + 2)), [Close] + rest));
      assert ReadAlternatives(after) == Some((Both(Test(column, Eq, n + 1), Test(Id, Lt, n + 2)), [Close] + rest));
      assert ReadAlternatives(ts[1..]) == Some((CondExpr(c, n), [Close] + rest));
      assert ([Close] + rest)[1..] == rest;
  }

  function JoinedExpr(conds: seq<Cond>, n: nat): Expr
    requires conds != []
  {
    if |conds| == 1 then CondExpr(conds[0], n)
    else Both(CondExpr(conds[0], n), JoinedExpr(conds[1..], n + |CondBinds(conds[0])|))
  }

  lemma {:induction false} ReadsJoined(conds: seq<Cond>, n: nat)
    requires conds != []
    ensures ReadConjunction(JoinedTokens(conds, n)) == Some((JoinedExpr(conds, n), []))
  {
    var c := conds[0];
    var m := n + |CondBinds(c)|;
    if |conds| == 1 {
      ReadsCond(c, n, []);
      assert CondTokens(c, n) + [] == CondTokens(c, n) == JoinedTokens(conds, n);
    } else {
      var more := JoinedTokens(conds[1..], m);
      ReadsJoined(conds[1..], m);
      ReadsCond(c, n, [And] + more);
      assert JoinedTokens(conds, n) == CondTokens(c, n) + ([And] + more);
      assert ([And] + more)[1..] == more;
    }
  }

  lemma EvaluatesCond(less: IdOrder, c: Cond, n: nat, binds: seq<SqlValue>, cells: Cells)
    requires 1 <= n && n - 1 + |CondBinds(c)| <= |binds|
    requires binds[n - 1..n - 1 + |CondBinds(c)|] == CondBinds(c)
    ensures Evaluate(less, CondExpr(c, n), binds, cells) == Holds(less, c, cells)
  {
    var part := binds[n - 1..n - 1 + |CondBinds(c)|];
    assert binds[n - 1] == part[0];
    if c.Keyset? {
      assert binds[n] == part[1] && binds[n + 1] == part[2];
      var pair := Both(Test(c.column, Eq, n + 1), Test(Id, Lt, n + 2));
      assert Evaluate(less, pair, binds, cells)
          == And3(CompareValues(less, Eq, cells(c.column), c.v), CompareValues(less, Lt, cells(Id), c.id));
    }
  }

  lemma {:induction false} EvaluatesJoined(less: IdOrder, conds: seq<Cond>, n: nat, binds: seq<SqlValue>, cells: Cells)
    requires conds != [] && 1 <= n && n - 1 <= |binds| && binds[n - 1..] == Binds(conds)
    ensures Evaluate(less, JoinedExpr(conds, n), binds, cells) == True <==> AllHold(less, conds, cells)
  {
    var c := conds[0];
    var k := |CondBinds(c)|;
    assert binds[n - 1..][..k] == CondBinds(c);
    assert binds[n - 1..n - 1 + k] == binds[n - 1..][..k];
    EvaluatesCond(less, c, n, binds, cells);
    if |conds| == 1 {
      assert conds[1..] == [];
    } else {
      assert binds[n - 1 + k..] == binds[n - 1..][k..];
      EvaluatesJoined(less, conds[1..], n + k, binds, cells);
    }
  }

  lemma {:induction false} PlaceholdersConcat(a: seq<Token>, b: seq<Token>)
    ensures Placeholders(a + b) == Placeholders(a) + Placeholders(b)
  {
    if a == [] {
      assert a + b == b;
    } else {
      assert (a + b)[1..] == a[1..] + b && (a + b)[0] == a[0];
      PlaceholdersConcat(a[1..], b);
    }
  }

  lemma {:induction false} RangeConcat(from: nat, a: nat, b: nat)
    ensures Range(from, a) + Range(from + a, b) == Range(from, a + b)
    decreases a
  {
    if a > 0 {
      RangeConcat(from + 1, a - 1, b);
    }
  }

  lemma {:induction false} NoPlaceholder(ts: seq<Token>)
    requires forall i :: 0 <= i < |ts| ==> !ts[i].Param?
    ensures Placeholders(ts) == []
  {
    if ts != [] {
      NoPlaceholder(ts[1..]);
    }
  }

  lemma OnePlaceholder(before: seq<Token>, n: nat)
    requires forall i :: 0 <= i < |before| ==> !before[i].Param?
    ensures Placeholders(before + [Param(n)]) == [n]
  {
    NoPlaceholder(before);
    PlaceholdersConcat(before, [Param(n)]);
    assert [Param(n)][1..] == [];
  }

  lemma CondPlaceholders(c: Cond, n: nat)
    ensures Placeholders(CondTokens(c, n)) == Range(n, |CondBinds(c)|)
  {
    match c
    case Simple(column, op, _) =>
      OnePlaceholder([ColumnRef(column), Compare(op)], n);
      assert CondTokens(c, n) == [ColumnRef(column), Compare(op)] + [Param(n)];
      assert Range(n, 1) == [n];
    case Keyset(column, _, _) =>
      var a := [Open, ColumnRef(column), Compare(Lt)];
      var b := [Or, Open, ColumnRef(column), Compare(Eq)];
      var d := [And, ColumnRef(Id), Compare(Lt)];
      OnePlaceholder(a, n);
      OnePlaceholder(b, n + 1);
      OnePlaceholder(d, n + 2);
      NoPlaceholder([Close, Close]);
      PlaceholdersConcat(a + [Param(n)], b + [Param(n + 1)]);
      PlaceholdersConcat(a + [Param(n)] + (b + [Param(n + 1)]), d + [Param(n + 2)]);
      PlaceholdersConcat(a + [Param(n)] + (b + [Param(n + 1)]) + (d + [Param(n + 2)]), [Close, Close]);
      assert CondTokens(c, n) == a + [Param(n)] + (b + [Param(n + 1)]) + (d + [Param(n + 2)]) + [Close, Close];
      assert Range(n + 2, 1) == [n + 2];
      assert Range(n + 1, 2) == [n + 1, n + 2];
  }

  lemma PlaceholdersGlue(a: seq<Token>, b: seq<Token>, n: nat, k: nat, l: nat)
    requires Placeholders(a) == Range(n, k) && Placeholders(b) == Range(n + k, l)
    ensures Placeholders(a + ([And] + b)) == Range(n, k + l)
  {
    RangeConcat(n, k, l);
    PlaceholdersConcat(a, [And] + b);
    PlaceholdersConcat([And], b);
    NoPlaceholder([And]);
  }

  lemma {:induction false} JoinedPlaceholders(conds: seq<Cond>, n: nat)
    ensures Placeholders(JoinedTokens(conds, n)) == Range(n, |Binds(conds)|)
  {
    if conds != [] {
      var c, tail := conds[0], conds[1..];
      var m := n + |CondBinds(c)|;
      CondPlaceholders(c, n);
      if tail == [] {
        assert conds == [c];
        JoinedOne(c, n);
      } else {
        assert conds == [c] + tail;
        JoinedCons(c, tail, n);
        JoinedPlaceholders(tail, m);
        PlaceholdersGlue(CondTokens(c, n), JoinedTokens(tail, m), n, |CondBinds(c)|, |Binds(tail)|);
      }
    }
  }

  /** A clause made from conditions is well formed and selects exactly the rows on which every
    condition is true. */
  lemma ClauseMeaning(less: IdOrder, conds: seq<Cond>, cells: Cells)
    ensures WellFormed(ClauseTokens(conds), Binds(conds))
    ensures Selects(less, ClauseTokens(conds), Binds(conds), cells) <==> AllHold(less, conds, cells)
  {
    JoinedPlaceholders(conds, 1);
    if conds != [] {
      ReadsJoined(conds, 1);
      var joined := JoinedTokens(conds, 1);
      assert ClauseTokens(conds)[1..] == joined;
      NoPlaceholder([Where]);
      PlaceholdersConcat([Where], joined);
      assert ReadAlternatives(joined) == Some((JoinedExpr(conds, 1), []));
      EvaluatesJoined(less, conds, 1, Binds(conds), cells);
    }
  }
}

/** What happens to the instants of a filter that a driver rounds to whole microseconds before it
  compares them with stored times, which are whole microseconds. */
module Rounding {
  import opened Wrappers
  import opened Order
  import opened Time
  import opened Events

  /** How the driver rounds an instant that it binds. */
  type Rounding = DateTime -> DateTime

  ghost predicate ToMicrosecond(bind: Rounding) {
    forall t :: MicroAligned(bind(t)) && (MicroAligned(t) ==> bind(t) == t) && Micros(t) <= Micros(bind(t)) <= Micros(t) + 1
  }

  lemma TruncationIsRounding()
    ensures ToMicrosecond(TruncateMicros)
  {
    forall t ensures MicroAligned(TruncateMicros(t)) && (MicroAligned(t) ==> TruncateMicros(t) == t)
                     && Micros(TruncateMicros(t)) == Micros(t)
    {
      TruncateKeepsMicros(t);
      TruncateIdentifies(t, t);
    }
  }

  function RoundedTime(bind: Rounding, t: Option<DateTime>): Option<DateTime> {
    match t case Some(v) => Some(bind(v)) case None => None
  }

  /** The filter that the database sees. */
  function Rounded(bind: Rounding, f: Filter): Filter {
    f.(occurredAfter := RoundedTime(bind, f.occurredAfter),
       occurredBefore := RoundedTime(bind, f.occurredBefore),
       cursor := match f.cursor case Some(p) => Some(p.(occurredAt := bind(p.occurredAt))) case None => None)
  }

  // ---- The whole microseconds around an instant ----

  function NextSecond(v: DateTime): DateTime {
    if v.secs + 1 < DAY then DateTime(v.date, v.secs + 1, 0) else DateTime(NextDay(v.date), 0, 0)
  }

  /** The first whole microsecond at or after an instant, and the last at or before it. */
  function FirstMicro(v: DateTime): (r: DateTime)
    ensures MicroAligned(r)
  {
    if MicroAligned(v) then v
    else if v.frac - v.frac % 1_000 + 1_000 >= SECOND then NextSecond(v)
    else v.(frac := v.frac - v.frac % 1_000 + 1_000)
  }

  function LastMicro(v: DateTime): (r: DateTime)
    ensures MicroAligned(r)
  {
    if v.frac >= SECOND then v.(frac := SECOND - 1_000) else v.(frac := v.frac - v.frac % 1_000)
  }

  lemma NothingBetweenDays(d: Date, e: Date)
    requires ValidDate(d) && ValidDate(e)
    ensures DateBefore(d, e) <==> !DateBefore(e, NextDay(d))
  {
    DateOrderIsDayOrder(d, e);
    DateOrderIsDayOrder(e, NextDay(d));
    NextDayNumber(d);
  }

  lemma NothingBetweenSeconds(v: DateTime, t: DateTime)
    ensures Before(t, NextSecond(v)) <==> DateBefore(t.date, v.date) || (t.date == v.date && t.secs <= v.secs)
  {
    if v.secs + 1 >= DAY {
      NothingBetweenDays(v.date, t.date);
      DateTrichotomy(v.date, t.date);
    }
  }

  lemma DateTrichotomy(d: Date, e: Date)
    ensures DateBefore(d, e) || d == e || DateBefore(e, d)
    ensures !(DateBefore(d, e) && DateBefore(e, d)) && !DateBefore(d, d)
  {}

  /** A whole microsecond is at or after an instant exactly when it is at or after the first one. */
  lemma FromFirst(v: DateTime, t: DateTime)
    requires MicroAligned(t)
    ensures Before(t, v) <==> Before(t, FirstMicro(v))
  {
    NothingBetweenSeconds(v, t);
    if !MicroAligned(v) && t.date == v.date && t.secs == v.secs {
      Thousands(t.frac, v.frac);
    }
  }

  lemma Thousands(a: int, b: int)
    requires 0 <= a && 0 <= b && a % 1_000 == 0
    ensures a <= b <==> a <= b - b % 1_000
    ensures a <= b <==> a < b - b % 1_000 + 1_000
    ensures a < b && b % 1_000 != 0 ==> a <= b - b % 1_000
  {}

  lemma UpToLast(v: DateTime, t: DateTime)
    requires MicroAligned(t)
    ensures Before(v, t) <==> Before(LastMicro(v), t)
  {
    if t.date == v.date && t.secs == v.secs {
      Thousands(t.frac, v.frac);
    }
  }

  /** Between two whole microseconds there is no third: what is not past the last one is before the instant. */
  lemma BeforeUnaligned(v: DateTime, t: DateTime)
    requires MicroAligned(t) && !MicroAligned(v)
    ensures Before(t, v) <==> !Before(LastMicro(v), t)
  {
    UpToLast(v, t);
    BeforeIsStrictTotal(t, v, t);
  }

  // ---- The stretch of stored positions that a filter's bounds let through ----

  /** An upper end: up to an instant, or below a position. */
  datatype Cut = UpTo(t: DateTime) | BelowOf(t: DateTime, id: string)

  datatype Span = Span(low: Option<DateTime>, high: Option<Cut>)

  predicate Under(less: IdOrder, cut: Cut, p: Position) {
    match cut
    case UpTo(t) => !Before(t, p.occurredAt)
    case BelowOf(t, id) => Below(less, p, Position(t, id))
  }

  predicate InSpan(less: IdOrder, s: Span, p: Position) {
    (s.low.Some? ==> !Before(p.occurredAt, s.low.value)) && (s.high.Some? ==> Under(less, s.high.value, p))
  }

  predicate CutLess(less: IdOrder, a: Cut, b: Cut) {
    Before(a.t, b.t) || (a.t == b.t && a.BelowOf? && (b.UpTo? || less(a.id, b.id)))
  }

  function Lower(less: IdOrder, a: Option<Cut>, b: Option<Cut>): Option<Cut> {
    if a.None? then b
    else if b.None? || !CutLess(less, b.value, a.value) then a
    else b
  }

  function BeforeCut(t: Option<DateTime>): Option<Cut> {
    match t case Some(v) => Some(UpTo(LastMicro(v))) case None => None
  }

  function CursorCut(c: Option<Position>): Option<Cut> {
    match c
    case None => None
    case Some(p) => Some(if MicroAligned(p.occurredAt) then BelowOf(p.occurredAt, p.id) else UpTo(LastMicro(p.occurredAt)))
  }

  /** The bounds of a filter in whole microseconds. */
  function SpanOf(less: IdOrder, f: Filter): Span {
    Span(match f.occurredAfter case Some(v) => Some(FirstMicro(v)) case None => None,
         Lower(less, BeforeCut(f.occurredBefore), CursorCut(f.cursor)))
  }

  predicate InBounds(less: IdOrder, f: Filter, p: Position) {
    InRange(f, p.occurredAt) && (f.cursor.Some? ==> Below(less, p, f.cursor.value))
  }

  lemma LowerMeaning(less: IdOrder, a: Option<Cut>, b: Option<Cut>, p: Position)
    requires StrictTotal(less)
    ensures var c := Lower(less, a, b);
            (c.Some? ==> Under(less, c.value, p))
            <==> (a.Some? ==> Under(less, a.value, p)) && (b.Some? ==> Under(less, b.value, p))
  {
    if a.Some? && b.Some? {
      if CutLess(less, b.value, a.value) {
        CutsNest(less, b.value, a.value, p);
      } else {
        CutsCompare(less, a.value, b.value);
        if a != b {
          CutsNest(less, a.value, b.value, p);
        }
      }
    }
  }

  lemma CutsCompare(less: IdOrder, a: Cut, b: Cut)
    requires StrictTotal(less)
    ensures CutLess(less, a, b) || a == b || CutLess(less, b, a)
  {
    BeforeIsStrictTotal(a.t, b.t, a.t);
  }

  lemma CutsNest(less: IdOrder, a: Cut, b: Cut, p: Position)
    requires StrictTotal(less) && CutLess(less, a, b)
    ensures Under(less, a, p) ==> Under(less, b, p)
  {
    BeforeIsStrictTotal(p.occurredAt, a.t, b.t);
    BeforeIsStrictTotal(b.t, p.occurredAt, a.t);
    BeforeIsStrictTotal(a.t, b.t, p.occurredAt);
  }

  /** At whole microseconds the bounds let through exactly the span. */
  lemma SpanMeaning(less: IdOrder, f: Filter, p: Position)
    requires StrictTotal(less) && MicroAligned(p.occurredAt)
    ensures InBounds(less, f, p) <==> InSpan(less, SpanOf(less, f), p)
  {
    LowerMeaning(less, BeforeCut(f.occurredBefore), CursorCut(f.cursor), p);
    hide Lower, Before, MicroAligned, FirstMicro, LastMicro;
    if f.occurredAfter.Some? {
      FromFirst(f.occurredAfter.value, p.occurredAt);
    }
    if f.occurredBefore.Some? {
      UpToLast(f.occurredBefore.value, p.occurredAt);
    }
    if f.cursor.Some? && !MicroAligned(f.cursor.value.occurredAt) {
      BeforeUnaligned(f.cursor.value.occurredAt, p.occurredAt);
    }
  }

  // ---- When two spans let through the same positions ----

  /** The empty text sorts first, as it does in every collation. */
  ghost predicate EmptyFirst(less: IdOrder) { forall id :: id == "" || less("", id) }

  /** Even the least position at the lower end lies past the upper end. */
  predicate Vacant(less: IdOrder, s: Span) {
    s.low.Some? && s.high.Some? && !Under(less, s.high.value, Position(s.low.value, ""))
  }

  predicate SameSpan(less: IdOrder, a: Span, b: Span) {
    a == b || (Vacant(less, a) && Vacant(less, b))
  }

  predicate WholeSpan(s: Span) {
    && (s.low.Some? ==> MicroAligned(s.low.value))
    && (s.high.Some? ==> MicroAligned(s.high.value.t) && (s.high.value.BelowOf? ==> s.high.value.id != ""))
  }

  ghost predicate Agree(less: IdOrder, a: Span, b: Span) {
    forall p: Position :: MicroAligned(p.occurredAt) ==> (InSpan(less, a, p) <==> InSpan(less, b, p))
  }

  function YearsLater(t: DateTime, years: int): DateTime { DateTime(Date(t.date.year + years, 1, 1), 0, 0) }

  lemma VacantHoldsNothing(less: IdOrder, s: Span, p: Position)
    requires StrictTotal(less) && EmptyFirst(less) && Vacant(less, s)
    ensures !InSpan(less, s, p)
  {
    var low := s.low.value;
    BeforeIsStrictTotal(p.occurredAt, low, p.occurredAt);
    BeforeIsStrictTotal(low, p.occurredAt, s.high.value.t);
    BeforeIsStrictTotal(s.high.value.t, low, p.occurredAt);
  }

  /** Something in a span that is not vacant, at its lower end or as early as may be. */
  function Earliest(s: Span, other: Option<DateTime>): Position {
    if s.low.Some? then Position(s.low.value, "")
    else
      var year := if s.high.Some? then s.high.value.t.date.year else 0;
      var bound := if other.Some? && other.value.date.year < year then other.value.date.year else year;
      Position(DateTime(Date(bound - 1, 1, 1), 0, 0), "")
  }

  lemma EarliestIsIn(less: IdOrder, s: Span, other: Option<DateTime>)
    requires StrictTotal(less) && EmptyFirst(less) && WholeSpan(s) && !Vacant(less, s)
    ensures MicroAligned(Earliest(s, other).occurredAt) && InSpan(less, s, Earliest(s, other))
    ensures s.low.None? && other.Some? ==> Before(Earliest(s, other).occurredAt, other.value)
  {}

  /** Spans that agree and are not vacant begin at the same instant. */
  lemma SameLow(less: IdOrder, a: Span, b: Span)
    requires StrictTotal(less) && EmptyFirst(less) && WholeSpan(a) && WholeSpan(b)
    requires Agree(less, a, b) && !Vacant(less, a) && !Vacant(less, b)
    ensures a.low == b.low
  {
    EarliestIsIn(less, a, b.low);
    EarliestIsIn(less, b, a.low);
    var p, q := Earliest(a, b.low), Earliest(b, a.low);
    assert InSpan(less, b, p) && InSpan(less, a, q);
    if a.low.Some? && b.low.Some? {
      BeforeIsStrictTotal(a.low.value, b.low.value, a.low.value);
    }
  }

  /** A position that only the higher of two upper ends lets through. */
  function Between(a: Cut, b: Option<Cut>): Position {
    if a.BelowOf? then Position(a.t, a.id)
    else if b.Some? then Position(b.value.t, "")
    else Position(YearsLater(a.t, 1), "")
  }

  lemma HigherCutHoldsMore(less: IdOrder, a: Span, b: Span)
    requires StrictTotal(less) && EmptyFirst(less) && WholeSpan(a) && WholeSpan(b)
    requires a.low == b.low && !Vacant(less, a)
    requires a.high.Some? && (b.high.Some? ==> CutLess(less, a.high.value, b.high.value))
    ensures var p := Between(a.high.value, b.high);
            MicroAligned(p.occurredAt) && !InSpan(less, a, p) && InSpan(less, b, p)
  {
    var p := Between(a.high.value, b.high);
    if a.low.Some? {
      BeforeIsStrictTotal(p.occurredAt, a.low.value, a.high.value.t);
      BeforeIsStrictTotal(a.high.value.t, p.occurredAt, a.low.value);
      BeforeIsStrictTotal(a.low.value, a.high.value.t, p.occurredAt);
    }
  }

  lemma SameHigh(less: IdOrder, a: Span, b: Span)
    requires StrictTotal(less) && EmptyFirst(less) && WholeSpan(a) && WholeSpan(b)
    requires Agree(less, a, b) && !Vacant(less, a) && !Vacant(less, b) && a.low == b.low
    ensures a.high == b.high
  {
    if a.high != b.high {
      if a.high.Some? && b.high.Some? {
        CutsCompare(less, a.high.value, b.high.value);
      }
      if a.high.Some? && (b.high.Some? ==> CutLess(less, a.high.value, b.high.value)) {
        HigherCutHoldsMore(less, a, b);
      } else {
        HigherCutHoldsMore(less, b, a);
      }
      assert false;
    }
  }

  /** Two spans let through the same whole microseconds exactly when they are the same or both vacant. */
  lemma SpansAgree(less: IdOrder, a: Span, b: Span)
    requires StrictTotal(less) && EmptyFirst(less) && WholeSpan(a) && WholeSpan(b)
    ensures Agree(less, a, b) <==> SameSpan(less, a, b)
  {
    if Agree(less, a, b) {
      if !Vacant(less, a) {
        EarliestIsIn(less, a, None);
        assert InSpan(less, b, Earliest(a, None));
        NotVacant(less, b, Earliest(a, None));
        SameLow(less, a, b);
        SameHigh(less, a, b);
      } else if !Vacant(less, b) {
        EarliestIsIn(less, b, None);
        VacantHoldsNothing(less, a, Earliest(b, None));
        assert false;
      }
    }
    if Vacant(less, a) && Vacant(less, b) {
      forall p: Position ensures !InSpan(less, a, p) && !InSpan(less, b, p) {
        VacantHoldsNothing(less, a, p);
        VacantHoldsNothing(less, b, p);
      }
    }
  }

  lemma NotVacant(less: IdOrder, s: Span, p: Position)
    requires StrictTotal(less) && EmptyFirst(less) && InSpan(less, s, p)
    ensures !Vacant(less, s)
  {
    if Vacant(less, s) {
      VacantHoldsNothing(less, s, p);
      assert false;
    }
  }

  // ---- Filters ----

  lemma MatchesByBounds(less: IdOrder, f: Filter, e: StoredEvent)
    ensures Matches(less, f, e) <==> MatchesFields(f.fields, e.intent) && InBounds(less, f, PositionOf(e))
  {}

  function Or<T>(o: Option<T>, other: T): T { if o.Some? then o.value else other }

  /** An event at a given place that has the fields a filter asks for. */
  function EventAt(f: FieldFilter, p: Position): StoredEvent {
    StoredEvent(
      Intent(
        p.id, Or(f.eventName, ""), Or(f.sourceInstance, ""), "", Or(f.outcome, Success), Or(f.severity, Info),
        Or(f.actorKind, ""), f.actorId, None, f.scopeModule, f.scopeType, f.scopeId, None,
        f.resourceType, f.resourceId, None, f.correlationId, None, None, None, None, [], p.occurredAt),
      p.occurredAt)
  }

  lemma EventAtMatches(f: FieldFilter, p: Position)
    ensures MatchesFields(f, EventAt(f, p).intent) && PositionOf(EventAt(f, p)) == p
  {}

  ghost predicate ExactForStored(less: IdOrder, bind: Rounding, f: Filter) {
    forall e: StoredEvent :: MicroAligned(e.intent.occurredAt) ==> (Matches(less, Rounded(bind, f), e) <==> Matches(less, f, e))
  }

  predicate SameBounds(less: IdOrder, bind: Rounding, f: Filter) {
    SameSpan(less, SpanOf(less, Rounded(bind, f)), SpanOf(less, f))
  }

  lemma SpanOfIsWhole(less: IdOrder, f: Filter)
    requires f.cursor.Some? ==> f.cursor.value.id != ""
    ensures WholeSpan(SpanOf(less, f))
  {}

  lemma BoundsAgree(less: IdOrder, bind: Rounding, f: Filter)
    requires StrictTotal(less)
    ensures ExactForStored(less, bind, f) <==> Agree(less, SpanOf(less, Rounded(bind, f)), SpanOf(less, f))
  {
    hide Matches, InBounds, SpanOf, InSpan, MatchesFields, EventAt, MicroAligned;
    var g := Rounded(bind, f);
    if ExactForStored(less, bind, f) {
      forall p: Position | MicroAligned(p.occurredAt)
        ensures InSpan(less, SpanOf(less, g), p) <==> InSpan(less, SpanOf(less, f), p)
      {
        var e := EventAt(f.fields, p);
        EventAtMatches(f.fields, p);
        assert MicroAligned(e.intent.occurredAt);
        assert Matches(less, g, e) <==> Matches(less, f, e);
        MatchesByBounds(less, f, e);
        MatchesByBounds(less, g, e);
        SpanMeaning(less, f, p);
        SpanMeaning(less, g, p);
      }
    }
    if Agree(less, SpanOf(less, g), SpanOf(less, f)) {
      forall e: StoredEvent | MicroAligned(e.intent.occurredAt) ensures Matches(less, g, e) <==> Matches(less, f, e) {
        assert MicroAligned(PositionOf(e).occurredAt);
        MatchesByBounds(less, f, e);
        MatchesByBounds(less, g, e);
        SpanMeaning(less, f, PositionOf(e));
        SpanMeaning(less, g, PositionOf(e));
      }
    }
  }

  /** Rounded bounds select the stored events that the filter matches exactly when the bounds come to
    the same whole microseconds, or come to nothing on either side. */
  lemma RoundingIsExact(less: IdOrder, bind: Rounding, f: Filter)
    requires StrictTotal(less) && EmptyFirst(less)
    requires f.cursor.Some? ==> f.cursor.value.id != ""
    ensures ExactForStored(less, bind, f) <==> SameBounds(less, bind, f)
  {
    hide ExactForStored, Agree, SpanOf, SameSpan, WholeSpan, EmptyFirst;
    BoundsAgree(less, bind, f);
    SpanOfIsWhole(less, f);
    SpanOfIsWhole(less, Rounded(bind, f));
    SpansAgree(less, SpanOf(less, Rounded(bind, f)), SpanOf(less, f));
  }

  /** Bounds in whole microseconds are not touched; so are, in particular, cursors that name a stored row. */
  lemma WholeBoundsAreExact(bind: Rounding, f: Filter)
    requires ToMicrosecond(bind)
    requires f.occurredAfter.Some? ==> MicroAligned(f.occurredAfter.value)
    requires f.occurredBefore.Some? ==> MicroAligned(f.occurredBefore.value)
    requires f.cursor.Some? ==> MicroAligned(f.cursor.value.occurredAt)
    ensures Rounded(bind, f) == f
  {}

  // ---- A driver that truncates ----

  predicate NoLeap(t: Option<DateTime>) { t.Some? ==> t.value.frac < SECOND }

  predicate Whole(t: DateTime) { t.frac % 1_000 == 0 }

  lemma TruncatesDown(t: DateTime)
    requires t.frac < SECOND
    ensures TruncateMicros(t) == LastMicro(t)
    ensures MicroAligned(t) <==> Whole(t)
    ensures Whole(t) ==> TruncateMicros(t) == t == FirstMicro(t) == LastMicro(t)
    ensures !Whole(t) ==> Before(LastMicro(t), FirstMicro(t))
    ensures FirstMicro(LastMicro(t)) == LastMicro(LastMicro(t)) == LastMicro(t)
  {
    NothingBetweenSeconds(t, t);
    NothingBetweenSeconds(t, LastMicro(t));
  }

  lemma TruncationOrder(a: DateTime, b: DateTime)
    requires a.frac < SECOND && b.frac < SECOND
    ensures Before(LastMicro(a), LastMicro(b)) <==> Micros(a) < Micros(b)
    ensures Before(a, b) ==> !Before(LastMicro(b), LastMicro(a))
  {
    TruncatesDown(a);
    TruncatesDown(b);
    TruncateKeepsMicros(a);
    TruncateKeepsMicros(b);
    AlignedOrder(LastMicro(a), LastMicro(b));
    BeforeIsChronological(a, b);
    AlignedOrder(LastMicro(b), LastMicro(a));
  }

  lemma AlignedOrder(a: DateTime, b: DateTime)
    requires MicroAligned(a) && MicroAligned(b)
    ensures Before(a, b) <==> Micros(a) < Micros(b)
  {
    BeforeIsChronological(a, b);
    hide Seconds;
    assert a.frac == 1_000 * (a.frac / 1_000) && b.frac == 1_000 * (b.frac / 1_000);
  }

  /** What a filter's fractions must be for truncated bounds to mean the same: the lower end whole, and
    the cursor whole or past the upper end; or a cursor before the lower end, which leaves nothing. */
  predicate TruncatesExactly(f: Filter) {
    || (&& (f.occurredAfter.Some? ==> Whole(f.occurredAfter.value))
        && (f.cursor.Some? ==>
              || Whole(f.cursor.value.occurredAt)
              || (f.occurredBefore.Some? && Micros(f.occurredBefore.value) < Micros(f.cursor.value.occurredAt))))
    || (f.occurredAfter.Some? && f.cursor.Some? && Micros(f.cursor.value.occurredAt) < Micros(f.occurredAfter.value))
  }

  predicate NoLeapBounds(f: Filter) {
    NoLeap(f.occurredAfter) && NoLeap(f.occurredBefore) && (f.cursor.Some? ==> f.cursor.value.occurredAt.frac < SECOND)
  }

  /** The two upper ends, with whole microseconds in place of the instants. */
  function UpperEnd(less: IdOrder, before: Option<DateTime>, cursor: Option<Position>, whole: bool): Option<Cut> {
    Lower(less,
          match before case Some(v) => Some(UpTo(v)) case None => None,
          match cursor case Some(p) => Some(if whole then BelowOf(p.occurredAt, p.id) else UpTo(p.occurredAt)) case None => None)
  }

  function LastOf(t: Option<DateTime>): Option<DateTime> {
    match t case Some(v) => Some(LastMicro(v)) case None => None
  }

  function LastPlace(c: Option<Position>): Option<Position> {
    match c case Some(p) => Some(p.(occurredAt := LastMicro(p.occurredAt))) case None => None
  }

  lemma TruncatedSpans(less: IdOrder, f: Filter)
    requires NoLeapBounds(f)
    ensures SpanOf(less, Rounded(TruncateMicros, f))
            == Span(LastOf(f.occurredAfter), UpperEnd(less, LastOf(f.occurredBefore), LastPlace(f.cursor), true))
    ensures SpanOf(less, f)
            == Span(match f.occurredAfter case Some(v) => Some(FirstMicro(v)) case None => None,
                    UpperEnd(less, LastOf(f.occurredBefore), LastPlace(f.cursor),
                             f.cursor.Some? && Whole(f.cursor.value.occurredAt)))
  {
    hide Lower, FirstMicro, LastMicro, TruncateMicros;
    if f.occurredAfter.Some? { TruncatesDown(f.occurredAfter.value); }
    if f.occurredBefore.Some? { TruncatesDown(f.occurredBefore.value); }
    if f.cursor.Some? { TruncatesDown(f.cursor.value.occurredAt); }
  }

  /** The upper ends differ exactly when a cursor with a fraction is not past the other end. */
  lemma UpperEndsDiffer(less: IdOrder, before: Option<DateTime>, cursor: Option<Position>, whole: bool)
    requires StrictTotal(less)
    ensures UpperEnd(less, before, cursor, true) == UpperEnd(less, before, cursor, whole)
            <==> whole || cursor.None? || (before.Some? && Before(before.value, cursor.value.occurredAt))
  {
    if before.Some? && cursor.Some? {
      BeforeIsStrictTotal(before.value, cursor.value.occurredAt, before.value);
    }
  }

  /** A truncated stretch holds nothing exactly when the cursor lies before its lower end. */
  lemma TruncatedVacancy(less: IdOrder, low: DateTime, before: Option<DateTime>, cursor: Option<Position>)
    requires StrictTotal(less) && EmptyFirst(less)
    requires before.Some? ==> !Before(before.value, low)
    requires cursor.Some? ==> cursor.value.id != ""
    ensures Vacant(less, Span(Some(low), UpperEnd(less, before, cursor, true)))
            <==> cursor.Some? && Before(cursor.value.occurredAt, low)
  {
    BeforeIsStrictTotal(low, low, low);
    if cursor.Some? {
      BeforeIsStrictTotal(cursor.value.occurredAt, low, cursor.value.occurredAt);
      if before.Some? {
        BeforeIsStrictTotal(before.value, cursor.value.occurredAt, low);
        BeforeIsStrictTotal(cursor.value.occurredAt, before.value, low);
        BeforeIsStrictTotal(cursor.value.occurredAt, low, before.value);
      }
    }
  }

  lemma ExactVacancy(less: IdOrder, low: DateTime, before: Option<DateTime>, p: Position, whole: bool)
    requires StrictTotal(less) && Before(p.occurredAt, low)
    ensures Vacant(less, Span(Some(low), UpperEnd(less, before, Some(p), whole)))
  {
    BeforeIsStrictTotal(p.occurredAt, low, p.occurredAt);
    if before.Some? {
      BeforeIsStrictTotal(before.value, p.occurredAt, low);
    }
  }

  /** A driver that truncates selects the stored events that an accepted filter without leap seconds
    matches exactly when the filter's fractions are these. */
  lemma TruncationIsExact(less: IdOrder, f: Filter)
    requires StrictTotal(less) && EmptyFirst(less) && NoLeapBounds(f)
    requires f.occurredAfter.Some? && f.occurredBefore.Some? ==> !Before(f.occurredBefore.value, f.occurredAfter.value)
    requires f.cursor.Some? ==> f.cursor.value.id != ""
    ensures ExactForStored(less, TruncateMicros, f) <==> TruncatesExactly(f)
  {
    RoundingIsExact(less, TruncateMicros, f);
    TruncatedSpans(less, f);
    var before, cursor := LastOf(f.occurredBefore), LastPlace(f.cursor);
    var whole := f.cursor.Some? && Whole(f.cursor.value.occurredAt);
    UpperEndsDiffer(less, before, cursor, whole);
    if f.cursor.Some? && f.occurredBefore.Some? {
      TruncationOrder(f.occurredBefore.value, f.cursor.value.occurredAt);
    }
    if f.occurredAfter.Some? {
      TruncationFromLow(less, f, before, cursor, whole);
    }
    hide ExactForStored, SpanOf, UpperEnd, Before, LastMicro, FirstMicro, Micros, EmptyFirst, Rounded, TruncateMicros;
  }

  lemma TruncationFromLow(less: IdOrder, f: Filter, before: Option<DateTime>, cursor: Option<Position>, whole: bool)
    requires StrictTotal(less) && EmptyFirst(less) && NoLeapBounds(f) && f.occurredAfter.Some?
    requires f.occurredBefore.Some? ==> !Before(f.occurredBefore.value, f.occurredAfter.value)
    requires f.cursor.Some? ==> f.cursor.value.id != ""
    requires before == LastOf(f.occurredBefore) && cursor == LastPlace(f.cursor)
    ensures var v := f.occurredAfter.value;
            && (LastMicro(v) == FirstMicro(v) <==> Whole(v))
            && (Vacant(less, Span(Some(LastMicro(v)), UpperEnd(less, before, cursor, true)))
                <==> f.cursor.Some? && Micros(f.cursor.value.occurredAt) < Micros(v))
            && (f.cursor.Some? && Micros(f.cursor.value.occurredAt) < Micros(v) ==>
                  Vacant(less, Span(Some(FirstMicro(v)), UpperEnd(less, before, cursor, whole))))
  {
    var v := f.occurredAfter.value;
    TruncatesDown(v);
    BeforeIsStrictTotal(LastMicro(v), LastMicro(v), LastMicro(v));
    if f.occurredBefore.Some? {
      var w := f.occurredBefore.value;
      TruncationOrder(v, w);
      BeforeIsStrictTotal(v, w, v);
      BeforeIsStrictTotal(LastMicro(v), LastMicro(v), LastMicro(v));
    }
    if f.cursor.Some? {
      TruncationOrder(f.cursor.value.occurredAt, v);
    }
    hide Micros, LastMicro, FirstMicro, UpperEnd, Vacant;
    TruncatedVacancy(less, LastMicro(v), before, cursor);
    if f.cursor.Some? && Micros(f.cursor.value.occurredAt) < Micros(v) {
      BeforeIsStrictTotal(cursor.value.occurredAt, LastMicro(v), FirstMicro(v));
      ExactVacancy(less, FirstMicro(v), before, cursor.value, whole);
    }
  }
}

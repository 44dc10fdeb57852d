/** UTC instants as `chrono` keeps them: a civil date, the second of the day, and a fraction in
  nanoseconds that runs up to two seconds on the last second of a minute (a leap second). */
module Time {

  datatype Date = Date(year: int, month: int, day: int)

  predicate LeapYear(year: int) {
    year % 4 == 0 && (year % 100 != 0 || year % 400 == 0)
  }

  function DaysIn(year: int, month: int): (n: int)
    ensures 28 <= n <= 31
  {
    if month == 2 then (if LeapYear(year) then 29 else 28)
    else if month == 4 || month == 6 || month == 9 || month == 11 then 30
    else 31
  }

  predicate ValidDate(d: Date) {
    1 <= d.month <= 12 && 1 <= d.day <= DaysIn(d.year, d.month)
  }

  const SECOND: int := 1_000_000_000
  const DAY: int := 86_400

  datatype RawDateTime = DateTime(date: Date, secs: int, frac: int)

  predicate ValidDateTime(t: RawDateTime) {
    && ValidDate(t.date)
    && 0 <= t.secs < DAY
    && 0 <= t.frac < 2 * SECOND
    && (t.frac >= SECOND ==> t.secs % 60 == 59)
  }

  type DateTime = t: RawDateTime | ValidDateTime(t) witness DateTime(Date(1970, 1, 1), 0, 0)

  predicate DateBefore(a: Date, b: Date) {
    || a.year < b.year
    || (a.year == b.year && a.month < b.month)
    || (a.year == b.year && a.month == b.month && a.day < b.day)
  }

  /** The order `chrono` gives instants: date, then second, then fraction. */
  predicate Before(a: DateTime, b: DateTime) {
    || DateBefore(a.date, b.date)
    || (a.date == b.date && a.secs < b.secs)
    || (a.date == b.date && a.secs == b.secs && a.frac < b.frac)
  }

  // ---- Day numbers: the independent reading of a civil date ----

  /** Days from 0000-01-01 to the first day of the year, in the proleptic Gregorian calendar. */
  function DaysBeforeYear(year: int): int {
    365 * year + (year + 3) / 4 - (year + 99) / 100 + (year + 399) / 400
  }

  function DaysBeforeMonth(year: int, month: int): int
    requires 1 <= month
    decreases month
  {
    if month == 1 then 0 else DaysBeforeMonth(year, month - 1) + DaysIn(year, month - 1)
  }

  function DayNumber(d: Date): int
    requires ValidDate(d)
  {
    DaysBeforeYear(d.year) + DaysBeforeMonth(d.year, d.month) + d.day - 1
  }

  function Seconds(t: DateTime): int {
    DayNumber(t.date) * DAY + t.secs
  }

  /** Rounded-up division by a period steps once a period. */
  lemma Step4(y: int)
    ensures (y + 4) / 4 - (y + 3) / 4 == if y % 4 == 0 then 1 else 0
  {}

  lemma Step100(y: int)
    ensures (y + 100) / 100 - (y + 99) / 100 == if y % 100 == 0 then 1 else 0
  {}

  lemma Step400(y: int)
    ensures (y + 400) / 400 - (y + 399) / 400 == if y % 400 == 0 then 1 else 0
  {}

  lemma Periods(y: int)
    ensures y % 400 == 0 ==> y % 100 == 0
    ensures y % 100 == 0 ==> y % 4 == 0
  {}

  lemma YearLength(year: int)
    ensures DaysBeforeYear(year + 1) - DaysBeforeYear(year) == if LeapYear(year) then 366 else 365
  {
    Step4(year);
    Step100(year);
    Step400(year);
    Periods(year);
  }

  lemma MonthsOfYear(year: int)
    ensures DaysBeforeMonth(year, 13) == if LeapYear(year) then 366 else 365
  {
    assert DaysBeforeMonth(year, 4) == DaysBeforeMonth(year, 3) + 31;
    assert DaysBeforeMonth(year, 7) == DaysBeforeMonth(year, 4) + 91;
    assert DaysBeforeMonth(year, 10) == DaysBeforeMonth(year, 7) + 92;
    assert DaysBeforeMonth(year, 13) == DaysBeforeMonth(year, 10) + 92;
  }

  lemma {:induction false} MonthMonotone(year: int, m: int, n: int)
    requires 1 <= m < n <= 13
    ensures DaysBeforeMonth(year, m) + DaysIn(year, m) <= DaysBeforeMonth(year, n)
    decreases n
  {
    if m < n - 1 {
      MonthMonotone(year, m, n - 1);
    }
  }

  lemma {:induction false} YearMonotone(y: int, z: int)
    requires y < z
    ensures DaysBeforeYear(y + 1) <= DaysBeforeYear(z)
    decreases z - y
  {
    if y + 1 < z {
      YearMonotone(y, z - 1);
      YearLength(z - 1);
    }
  }

  lemma DayOfYear(d: Date)
    requires ValidDate(d)
    ensures DaysBeforeYear(d.year) <= DayNumber(d) < DaysBeforeYear(d.year + 1)
  {
    YearLength(d.year);
    MonthsOfYear(d.year);
    MonthMonotone(d.year, d.month, 13);
    if d.month > 1 {
      MonthMonotone(d.year, 1, d.month);
    }
  }

  lemma DayNumberMonotone(a: Date, b: Date)
    requires ValidDate(a) && ValidDate(b) && DateBefore(a, b)
    ensures DayNumber(a) < DayNumber(b)
  {
    if a.year < b.year {
      DayOfYear(a);
      DayOfYear(b);
      YearMonotone(a.year, b.year);
    } else if a.month < b.month {
      MonthMonotone(a.year, a.month, b.month);
    }
  }

  /** Civil order is the order of day numbers, so a day number names one date. */
  lemma DateOrderIsDayOrder(a: Date, b: Date)
    requires ValidDate(a) && ValidDate(b)
    ensures DateBefore(a, b) <==> DayNumber(a) < DayNumber(b)
    ensures a == b <==> DayNumber(a) == DayNumber(b)
  {
    if DateBefore(a, b) {
      DayNumberMonotone(a, b);
    } else if DateBefore(b, a) {
      DayNumberMonotone(b, a);
    } else {
      assert a == b;
    }
  }

  /** Comparing instants field by field is comparing points on the time line. */
  lemma BeforeIsChronological(a: DateTime, b: DateTime)
    ensures Before(a, b) <==> Seconds(a) < Seconds(b) || (Seconds(a) == Seconds(b) && a.frac < b.frac)
    ensures Seconds(a) == Seconds(b) <==> a.date == b.date && a.secs == b.secs
  {
    DateOrderIsDayOrder(a.date, b.date);
  }

  lemma BeforeIsStrictTotal(a: DateTime, b: DateTime, c: DateTime)
    ensures !Before(a, a)
    ensures Before(a, b) && Before(b, c) ==> Before(a, c)
    ensures Before(a, b) || a == b || Before(b, a)
  {}

  // ---- Neighbouring days and the shift to UTC ----

  function NextDay(d: Date): (r: Date)
    requires ValidDate(d)
    ensures ValidDate(r)
  {
    if d.day < DaysIn(d.year, d.month) then d.(day := d.day + 1)
    else if d.month < 12 then Date(d.year, d.month + 1, 1)
    else Date(d.year + 1, 1, 1)
  }

  function PreviousDay(d: Date): (r: Date)
    requires ValidDate(d)
    ensures ValidDate(r)
  {
    if d.day > 1 then d.(day := d.day - 1)
    else if d.month > 1 then Date(d.year, d.month - 1, DaysIn(d.year, d.month - 1))
    else Date(d.year - 1, 12, 31)
  }

  lemma NextDayNumber(d: Date)
    requires ValidDate(d)
    ensures DayNumber(NextDay(d)) == DayNumber(d) + 1
  {
    YearLength(d.year);
    MonthsOfYear(d.year);
  }

  lemma PreviousDayNumber(d: Date)
    requires ValidDate(d)
    ensures DayNumber(PreviousDay(d)) == DayNumber(d) - 1
  {
    NextOfPrevious(d);
    hide DayNumber, NextDay, PreviousDay;
    NextDayNumber(PreviousDay(d));
  }

  lemma NextOfPrevious(d: Date)
    requires ValidDate(d)
    ensures NextDay(PreviousDay(d)) == d
  {}

  /** A local time with a whole-minute offset below one day, moved to UTC. A leap second stays one. */
  function ToUtc(local: DateTime, offset: int): (t: DateTime)
    requires -1440 < offset < 1440
  {
    var s := local.secs - 60 * offset;
    if s < 0 then DateTime(PreviousDay(local.date), s + DAY, local.frac)
    else if s >= DAY then DateTime(NextDay(local.date), s - DAY, local.frac)
    else local.(secs := s)
  }

  lemma ToUtcShiftsByOffset(local: DateTime, offset: int)
    requires -1440 < offset < 1440
    ensures Seconds(ToUtc(local, offset)) == Seconds(local) - 60 * offset
    ensures ToUtc(local, offset).frac == local.frac
  {
    NextDayNumber(local.date);
    PreviousDayNumber(local.date);
  }

  lemma ToUtcZero(t: DateTime)
    ensures ToUtc(t, 0) == t
  {}

  /** The years that cross the wire. */
  predicate WireYear(t: DateTime) {
    0 <= t.date.year <= 9_999
  }

  /** A four-digit local year leaves the wire range exactly when the offset carries the first
    day of year 0 backwards, or the last day of year 9999 forwards, over midnight. */
  lemma ToUtcWireYear(local: DateTime, offset: int)
    requires -1440 < offset < 1440 && WireYear(local)
    ensures WireYear(ToUtc(local, offset)) <==>
            && !(local.date == Date(0, 1, 1) && local.secs < 60 * offset)
            && !(local.date == Date(9_999, 12, 31) && local.secs - 60 * offset >= DAY)
    ensures -1 <= ToUtc(local, offset).date.year <= 10_000
  {}

  // ---- Microseconds ----

  /** Microseconds on the time line; a leap second runs into the second after it. */
  function Micros(t: DateTime): int {
    Seconds(t) * 1_000_000 + t.frac / 1_000
  }

  function CarryLeap(t: DateTime): (r: DateTime)
    ensures r.frac < SECOND
  {
    if t.frac < SECOND then t
    else if t.secs + 1 < DAY then DateTime(t.date, t.secs + 1, t.frac - SECOND)
    else DateTime(NextDay(t.date), 0, t.frac - SECOND)
  }

  /** What is left of an instant after a round trip through its microsecond count. */
  function TruncateMicros(t: DateTime): DateTime {
    var c := CarryLeap(t);
    c.(frac := c.frac - c.frac % 1_000)
  }

  predicate MicroAligned(t: DateTime) {
    t.frac < SECOND && t.frac % 1_000 == 0
  }

  lemma CarryKeepsMicros(t: DateTime)
    ensures Micros(CarryLeap(t)) == Micros(t)
  {
    if t.frac >= SECOND {
      NextDayNumber(t.date);
      hide DayNumber, NextDay;
      assert Seconds(CarryLeap(t)) == Seconds(t) + 1;
      assert t.frac / 1_000 == (t.frac - SECOND) / 1_000 + 1_000_000;
    }
  }

  lemma TruncateKeepsMicros(t: DateTime)
    ensures MicroAligned(TruncateMicros(t))
    ensures Micros(TruncateMicros(t)) == Micros(t)
  {
    CarryKeepsMicros(t);
    var c := CarryLeap(t);
    hide DayNumber, CarryLeap;
    assert (c.frac - c.frac % 1_000) / 1_000 == c.frac / 1_000;
  }

  lemma MicrosInjective(a: DateTime, b: DateTime)
    requires MicroAligned(a) && MicroAligned(b) && Micros(a) == Micros(b)
    ensures a == b
  {
    assert 0 <= a.frac / 1_000 < 1_000_000 && 0 <= b.frac / 1_000 < 1_000_000;
    assert Seconds(a) == Seconds(b);
    BeforeIsChronological(a, b);
  }

  /** Two instants truncate to the same value exactly when they count the same microseconds. */
  lemma TruncateIdentifies(a: DateTime, b: DateTime)
    ensures TruncateMicros(a) == TruncateMicros(b) <==> Micros(a) == Micros(b)
    ensures MicroAligned(a) ==> TruncateMicros(a) == a
  {
    TruncateKeepsMicros(a);
    TruncateKeepsMicros(b);
    if Micros(a) == Micros(b) {
      MicrosInjective(TruncateMicros(a), TruncateMicros(b));
    }
  }
}

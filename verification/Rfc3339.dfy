/** Timestamps as text: the form of section 5.6 of RFC 3339 that crosses the wire, and the
  fixed-width key by which the D1 store sorts. */
module Rfc3339 {
  import opened Wrappers
  import opened Decimal
  import opened Order
  import opened Time

  // ---- Fixed-width decimal fields ----

  lemma {:induction false} PadOrder(n: nat, m: nat, w: nat)
    requires n < Pow10(w) && m < Pow10(w)
    ensures Less(Pad(n, w), Pad(m, w)) <==> n < m
    ensures Pad(n, w) == Pad(m, w) <==> n == m
  {
    PadValue(n, w);
    PadValue(m, w);
    if w > 0 {
      PadOrder(n / 10, m / 10, w - 1);
      var x, y := [DigitChar(n % 10)], [DigitChar(m % 10)];
      LessByHead(Pad(n / 10, w - 1), x, Pad(m / 10, w - 1), y);
      assert Less(x, y) <==> n % 10 < m % 10 by {
        assert x[1..] == [] && y[1..] == [];
      }
    }
  }

  /** A separator, a fixed-width number, and what follows. */
  function Field(separator: string, n: nat, w: nat, rest: string): string {
    separator + Pad(n, w) + rest
  }

  lemma FieldOrder(separator: string, n: nat, x: string, m: nat, y: string, w: nat)
    requires n < Pow10(w) && m < Pow10(w)
    ensures Less(Field(separator, n, w, x), Field(separator, m, w, y)) <==> n < m || (n == m && Less(x, y))
  {
    PadOrder(n, m, w);
    LessByHead(Pad(n, w), x, Pad(m, w), y);
    assert Field(separator, n, w, x) == separator + (Pad(n, w) + x);
    assert Field(separator, m, w, y) == separator + (Pad(m, w) + y);
    LessByHead(separator, Pad(n, w) + x, separator, Pad(m, w) + y);
    LessIrreflexive(separator);
  }

  // ---- Printing ----

  function Hour(t: DateTime): int { t.secs / 3_600 }
  function Minute(t: DateTime): int { t.secs / 60 % 60 }
  function Second(t: DateTime): int { t.secs % 60 + t.frac / SECOND }
  function Nanos(t: DateTime): int { t.frac % SECOND }

  /** The clock fields of an instant; a leap second shows as second 60. */
  lemma ClockFields(t: DateTime)
    ensures 0 <= Hour(t) < 24 && 0 <= Minute(t) < 60 && 0 <= Second(t) <= 60 && 0 <= Nanos(t) < SECOND
    ensures t.secs == 3_600 * Hour(t) + 60 * Minute(t) + t.secs % 60
    ensures t.frac == SECOND * (Second(t) - t.secs % 60) + Nanos(t)
    ensures Second(t) == 60 <==> t.frac >= SECOND
  {}

  /** The year as `chrono` prints it: four digits, or signed outside 0 to 9999. */
  function YearText(year: int): string
    requires -10_000 < year < 100_000
  {
    if 0 <= year <= 9_999 then Pad(year, 4)
    else if year > 9_999 then "+" + Pad(year, 5)
    else "-" + Pad(-year, 4)
  }

  function ClockText(t: DateTime, rest: string): string {
    Field("-", t.date.month, 2, Field("-", t.date.day, 2, Field("T", Hour(t), 2,
      Field(":", Minute(t), 2, Field(":", Second(t), 2, rest)))))
  }

  function FractionText(nanos: nat): string {
    if nanos == 0 then ""
    else if nanos % 1_000_000 == 0 then "." + Pad(nanos / 1_000_000, 3)
    else if nanos % 1_000 == 0 then "." + Pad(nanos / 1_000, 6)
    else "." + Pad(nanos, 9)
  }

  predicate PrintableYear(t: DateTime) { -10_000 < t.date.year < 100_000 }

  function Print(t: DateTime): string
    requires PrintableYear(t)
  {
    YearText(t.date.year) + ClockText(t, FractionText(Nanos(t)) + "+00:00")
  }

  /** The key the D1 store sorts by: always nine fraction digits, always `Z`. */
  function Key(t: DateTime): string
    requires PrintableYear(t)
  {
    YearText(t.date.year) + ClockText(t, Field(".", Nanos(t), 9, "Z"))
  }

  lemma PrintedLength(t: DateTime)
    requires PrintableYear(t)
    ensures |Print(t)| <= 37
    ensures WireYear(t) ==> |Print(t)| <= 35
  {}

  // ---- Parsing ----

  predicate StartsWithDigits(s: string, w: nat) {
    |s| >= w && forall i :: 0 <= i < w ==> IsDigit(s[i])
  }

  function ReadNumber(s: string, w: nat): Option<(nat, string)> {
    if StartsWithDigits(s, w) then Some((DigitsValue(s[..w]), s[w..])) else None
  }

  function ReadField(separators: string, s: string, w: nat): Option<(nat, string)> {
    if s != [] && s[0] in separators then ReadNumber(s[1..], w) else None
  }

  lemma ReadsNumber(n: nat, w: nat, rest: string)
    requires n < Pow10(w)
    ensures ReadNumber(Pad(n, w) + rest, w) == Some((n, rest))
  {
    PadValue(n, w);
    var digits := Pad(n, w);
    var s := digits + rest;
    assert s[..w] == digits && s[w..] == rest;
    assert StartsWithDigits(s, w) by {
      forall i | 0 <= i < w ensures IsDigit(s[i]) { assert s[i] == digits[i]; }
    }
  }

  lemma ReadsField(separators: string, separator: char, n: nat, w: nat, rest: string)
    requires n < Pow10(w) && separator in separators
    ensures ReadField(separators, Field([separator], n, w, rest), w) == Some((n, rest))
  {
    hide ReadNumber, Pad, Pow10, Field;
    FieldTail(separator, n, w, rest);
    ReadsNumber(n, w, rest);
  }

  lemma FieldTail(separator: char, n: nat, w: nat, rest: string)
    ensures var s := Field([separator], n, w, rest);
            s != "" && s[0] == separator && s[1..] == Pad(n, w) + rest
  {
    hide Pad;
  }

  /** Fractional digits as nanoseconds; digits after the ninth carry no weight. */
  function FractionValue(digits: string): nat
    requires forall i :: 0 <= i < |digits| ==> IsDigit(digits[i])
  {
    if |digits| >= 9 then DigitsValue(digits[..9])
    else DigitsValue(digits) * Pow10(9 - |digits|)
  }

  function ReadFraction(s: string): Option<(nat, string)> {
    if s == [] || s[0] != '.' then Some((0, s))
    else
      var k := DigitRun(s[1..]);
      if k == 0 then None else Some((FractionValue(s[1..][..k]), s[1..][k..]))
  }

  /** The offset in minutes east of UTC. */
  function ReadOffset(s: string): (r: Option<int>)
    ensures r.Some? ==> -1440 < r.value < 1440
  {
    if s == "Z" || s == "z" then Some(0)
    else
      var (hours, s1) :- ReadField("+-", s, 2);
      var (minutes, s2) :- ReadField(":", s1, 2);
      if s2 != [] || hours > 23 || minutes > 59 then None
      else Some(if s[0] == '+' then 60 * hours + minutes else -(60 * hours + minutes))
  }

  function MakeLocal(date: Date, clock: Clock, nanos: nat): (r: Option<DateTime>)
    ensures r.Some? ==> r.value.date == date
  {
    if !ValidDate(date) || clock.hour > 23 || clock.minute > 59 || clock.second > 60 || nanos >= SECOND then None
    else
      var minutes := 60 * clock.hour + clock.minute;
      if clock.second == 60 then Some(DateTime(date, 60 * minutes + 59, SECOND + nanos))
      else Some(DateTime(date, 60 * minutes + clock.second, nanos))
  }

  datatype Clock = Clock(hour: nat, minute: nat, second: nat)

  function ReadDate(s: string): (r: Option<(Date, string)>)
    ensures r.Some? ==> 0 <= r.value.0.year < Pow10(4)
  {
    var (year, s1) :- ReadNumber(s, 4);
    var (month, s2) :- ReadField("-", s1, 2);
    var (day, s3) :- ReadField("-", s2, 2);
    Some((Date(year, month, day), s3))
  }

  function ReadClock(s: string): Option<(Clock, string)> {
    var (hour, s1) :- ReadField("Tt ", s, 2);
    var (minute, s2) :- ReadField(":", s1, 2);
    var (second, s3) :- ReadField(":", s2, 2);
    Some((Clock(hour, minute, second), s3))
  }

  /** The local time and the offset that a timestamp names. */
  function ReadLocal(s: string): (r: Option<(DateTime, int)>)
    ensures r.Some? ==> 0 <= r.value.0.date.year < Pow10(4) && -1440 < r.value.1 < 1440
  {
    var (date, s1) :- ReadDate(s);
    var (clock, s2) :- ReadClock(s1);
    var (nanos, s3) :- ReadFraction(s2);
    var offset :- ReadOffset(s3);
    var local :- MakeLocal(date, clock, nanos);
    Some((local, offset))
  }

  function ParseTimestamp(s: string): Option<DateTime> {
    var (local, offset) :- ReadLocal(s);
    Some(ToUtc(local, offset))
  }

  /** The instant an accepted text names lies in the wire range unless its offset carries it over
    one of the two ends. */
  lemma ParsedYearRange(s: string)
    requires ParseTimestamp(s).Some?
    ensures ParsedYear(ParseTimestamp(s).value)
    ensures var (local, offset) := ReadLocal(s).value;
            WireYear(ParseTimestamp(s).value) <==>
            && !(local.date == Date(0, 1, 1) && local.secs < 60 * offset)
            && !(local.date == Date(9_999, 12, 31) && local.secs - 60 * offset >= DAY)
  {
    PowersOfTen();
    var (local, offset) := ReadLocal(s).value;
    ToUtcWireYear(local, offset);
  }

  // ---- Round trip ----

  lemma PadFraction(n: nat, w: nat)
    requires 0 < w <= 9 && n < Pow10(w)
    ensures FractionValue(Pad(n, w)) == n * Pow10(9 - w)
  {
    PadValue(n, w);
    assert Pow10(0) == 1;
    hide Pow10, DigitsValue;
    if w == 9 {
      assert Pad(n, w)[..9] == Pad(n, w);
    }
  }

  lemma ReadsDigits(n: nat, w: nat, rest: string)
    requires 0 < w <= 9 && n < Pow10(w)
    requires rest != [] && !IsDigit(rest[0])
    ensures ReadFraction("." + Pad(n, w) + rest) == Some((n * Pow10(9 - w), rest))
  {
    PadFraction(n, w);
    hide Pad, Pow10, FractionValue;
    var digits := Pad(n, w);
    var s := digits + rest;
    assert ("." + Pad(n, w) + rest)[1..] == s;
    DigitRunOf(digits, rest);
    assert s[..w] == digits && s[w..] == rest;
  }

  lemma ReadsFraction(nanos: nat, rest: string)
    requires nanos < SECOND
    requires rest != [] && !IsDigit(rest[0]) && rest[0] != '.'
    ensures ReadFraction(FractionText(nanos) + rest) == Some((nanos, rest))
  {
    PowersOfTen();
    if nanos == 0 {
      assert FractionText(nanos) + rest == rest;
    } else if nanos % 1_000_000 == 0 {
      ReadsDigits(nanos / 1_000_000, 3, rest);
    } else if nanos % 1_000 == 0 {
      ReadsDigits(nanos / 1_000, 6, rest);
    } else {
      ReadsDigits(nanos, 9, rest);
    }
  }

  /** An offset as it is written: sign, hours, minutes. */
  function OffsetText(sign: char, hours: nat, minutes: nat): string {
    Field([sign], hours, 2, Field(":", minutes, 2, ""))
  }

  function OffsetMinutes(sign: char, hours: nat, minutes: nat): int {
    if sign == '+' then 60 * hours + minutes else -(60 * hours + minutes)
  }

  lemma ReadsOffset(sign: char, hours: nat, minutes: nat)
    requires sign in "+-" && hours <= 23 && minutes <= 59
    ensures ReadOffset(OffsetText(sign, hours, minutes)) == Some(OffsetMinutes(sign, hours, minutes))
    ensures OffsetText(sign, hours, minutes) != "" && OffsetText(sign, hours, minutes)[0] == sign
  {
    PowersOfTen();
    ReadsField("+-", sign, hours, 2, Field(":", minutes, 2, ""));
    ReadsField(":", ':', minutes, 2, "");
  }

  lemma UtcOffset()
    ensures OffsetText('+', 0, 0) == "+00:00"
  {
    assert Pad(0, 2) == "00" by { assert Pad(0, 1) == "0"; }
  }

  lemma ReadsClock(t: DateTime, rest: string)
    ensures ReadClock(Field("T", Hour(t), 2, Field(":", Minute(t), 2, Field(":", Second(t), 2, rest))))
            == Some((Clock(Hour(t), Minute(t), Second(t)), rest))
  {
    ClockFields(t);
    PowersOfTen();
    var s3 := Field(":", Second(t), 2, rest);
    var s2 := Field(":", Minute(t), 2, s3);
    ReadsField("Tt ", 'T', Hour(t), 2, s2);
    ReadsField(":", ':', Minute(t), 2, s3);
    ReadsField(":", ':', Second(t), 2, rest);
  }

  lemma ReadsDate(d: Date, rest: string)
    requires ValidDate(d) && 0 <= d.year <= 9_999
    ensures ReadDate(YearText(d.year) + Field("-", d.month, 2, Field("-", d.day, 2, rest))) == Some((d, rest))
  {
    PowersOfTen();
    var s2 := Field("-", d.day, 2, rest);
    ReadsNumber(d.year, 4, Field("-", d.month, 2, s2));
    ReadsField("-", '-', d.month, 2, s2);
    ReadsField("-", '-', d.day, 2, rest);
  }

  lemma MakesLocal(t: DateTime)
    ensures 0 <= Second(t) && 0 <= Minute(t) && 0 <= Hour(t) && 0 <= Nanos(t)
    ensures MakeLocal(t.date, Clock(Hour(t), Minute(t), Second(t)), Nanos(t)) == Some(t)
  {
    ClockFields(t);
  }

  lemma ReadsLocal(
    s: string, t: DateTime, offset: int, afterDate: string, afterClock: string, afterFraction: string)
    requires ReadDate(s) == Some((t.date, afterDate))
    requires Hour(t) >= 0 && Minute(t) >= 0 && Second(t) >= 0 && Nanos(t) >= 0
    requires ReadClock(afterDate) == Some((Clock(Hour(t), Minute(t), Second(t)), afterClock))
    requires ReadFraction(afterClock) == Some((Nanos(t), afterFraction))
    requires ReadOffset(afterFraction) == Some(offset)
    requires MakeLocal(t.date, Clock(Hour(t), Minute(t), Second(t)), Nanos(t)) == Some(t)
    ensures ReadLocal(s) == Some((t, offset))
  {}

  function AfterDate(t: DateTime, zone: string): string {
    Field("T", Hour(t), 2, Field(":", Minute(t), 2, Field(":", Second(t), 2, FractionText(Nanos(t)) + zone)))
  }

  /** A local time with an offset, in the layout of section 5.6 of RFC 3339. */
  function LocalText(t: DateTime, zone: string): string
    requires PrintableYear(t)
  {
    YearText(t.date.year) + ClockText(t, FractionText(Nanos(t)) + zone)
  }

  lemma TextLayout(t: DateTime, zone: string)
    requires WireYear(t)
    ensures LocalText(t, zone)
            == YearText(t.date.year) + Field("-", t.date.month, 2, Field("-", t.date.day, 2, AfterDate(t, zone)))
  {}

  /** A text with any offset parses to its local time moved to UTC. */
  lemma ParsesLocal(t: DateTime, sign: char, hours: nat, minutes: nat)
    requires WireYear(t) && sign in "+-" && hours <= 23 && minutes <= 59
    ensures -1440 < OffsetMinutes(sign, hours, minutes) < 1440
    ensures ParseTimestamp(LocalText(t, OffsetText(sign, hours, minutes))) == Some(ToUtc(t, OffsetMinutes(sign, hours, minutes)))
  {
    var zone := OffsetText(sign, hours, minutes);
    ClockFields(t);
    TextLayout(t, zone);
    ReadsDate(t.date, AfterDate(t, zone));
    ReadsClock(t, FractionText(Nanos(t)) + zone);
    ReadsOffset(sign, hours, minutes);
    ReadsFraction(Nanos(t), zone);
    MakesLocal(t);
    hide ReadDate, ReadClock, ReadFraction, ReadOffset, MakeLocal, LocalText, YearText, Field, FractionText, ReadLocal;
    hide ToUtc, OffsetText;
    var s := LocalText(t, zone);
    ReadsLocal(s, t, OffsetMinutes(sign, hours, minutes), AfterDate(t, zone), FractionText(Nanos(t)) + zone, zone);
  }

  /** Reading back what was printed gives the instant again, leap seconds included. */
  lemma PrintParse(t: DateTime)
    requires WireYear(t)
    ensures ParseTimestamp(Print(t)) == Some(t)
  {
    UtcOffset();
    hide ParseTimestamp, OffsetText, ClockText, YearText;
    ParsesLocal(t, '+', 0, 0);
    ToUtcZero(t);
  }

  lemma ReadsZ()
    ensures ReadOffset("Z") == Some(0)
  {}

  lemma ReadsNineDigits(nanos: nat)
    requires nanos < SECOND
    ensures ReadFraction(Field(".", nanos, 9, "Z")) == Some((nanos, "Z"))
  {
    PowersOfTen();
    ReadsDigits(nanos, 9, "Z");
    Grouped(".", Pad(nanos, 9), "Z");
    hide Pad, ReadFraction;
    assert Pow10(0) == 1;
  }

  lemma KeyLayout(t: DateTime)
    requires WireYear(t)
    ensures Key(t) == YearText(t.date.year) + Field("-", t.date.month, 2, Field("-", t.date.day, 2, KeyClock(t)))
  {}

  function KeyClock(t: DateTime): string {
    Field("T", Hour(t), 2, Field(":", Minute(t), 2, Field(":", Second(t), 2, Field(".", Nanos(t), 9, "Z"))))
  }

  /** The key is itself a timestamp that names the instant. */
  lemma KeyParses(t: DateTime)
    requires WireYear(t)
    ensures ParseTimestamp(Key(t)) == Some(t)
  {
    ClockFields(t);
    KeyLayout(t);
    ReadsDate(t.date, KeyClock(t));
    ReadsClock(t, Field(".", Nanos(t), 9, "Z"));
    ReadsNineDigits(Nanos(t));
    ReadsZ();
    MakesLocal(t);
    ToUtcZero(t);
    hide ReadDate, ReadClock, ReadFraction, ReadOffset, MakeLocal, Key, YearText, Field, ReadLocal, ToUtc;
    ReadsLocal(Key(t), t, 0, KeyClock(t), Field(".", Nanos(t), 9, "Z"), "Z");
  }

  // ---- Texts that leave the years of the wire ----

  // ---- Exactly the texts that are read ----

  /** The parts of a timestamp as they are written. */
  datatype Stamp = Stamp(date: Date, separator: char, clock: Clock, fraction: string, zone: string)

  function Written(p: Stamp): string
    requires p.date.year >= 0 && ValidDate(p.date)
  {
    Pad(p.date.year, 4) + Field("-", p.date.month, 2, Field("-", p.date.day, 2, Field([p.separator], p.clock.hour, 2,
      Field(":", p.clock.minute, 2, Field(":", p.clock.second, 2, p.fraction + p.zone)))))
  }

  /** Nothing, or a point and at least one digit. */
  predicate FractionForm(s: string) {
    s == "" || (|s| >= 2 && s[0] == '.' && forall i :: 1 <= i < |s| ==> IsDigit(s[i]))
  }

  /** The fraction in nanoseconds, further digits cut off. */
  predicate FractionNames(s: string, nanos: nat)
    requires FractionForm(s)
  {
    if s == "" then nanos == 0
    else nanos * Pow10(|s| - 1) <= DigitsValue(s[1..]) * 1_000_000_000 < (nanos + 1) * Pow10(|s| - 1)
  }

  /** `Z` in either case, or a signed offset of at most 23:59. */
  ghost predicate ZoneNames(s: string, offset: int) {
    || ((s == "Z" || s == "z") && offset == 0)
    || (exists sign: char, hours: nat, minutes: nat ::
          sign in "+-" && hours <= 23 && minutes <= 59
          && s == OffsetText(sign, hours, minutes) && offset == OffsetMinutes(sign, hours, minutes))
  }

  /** The parts lie in range and name this local time; second 60 is the leap second of its minute. */
  predicate StampNames(p: Stamp, local: DateTime) {
    && 0 <= p.date.year <= 9_999 && ValidDate(p.date) && p.separator in "Tt " && FractionForm(p.fraction)
    && p.clock.hour <= 23 && p.clock.minute <= 59 && p.clock.second <= 60
    && local.date == p.date
    && local.secs == 3_600 * p.clock.hour + 60 * p.clock.minute + (if p.clock.second == 60 then 59 else p.clock.second)
    && 0 <= local.frac - (if p.clock.second == 60 then SECOND else 0) < SECOND
    && FractionNames(p.fraction, local.frac - (if p.clock.second == 60 then SECOND else 0))
  }

  lemma {:induction false} PadDigits(s: string)
    requires forall i :: 0 <= i < |s| ==> IsDigit(s[i])
    ensures Pad(DigitsValue(s), |s|) == s
  {
    if s != [] {
      var front, last := s[..|s| - 1], s[|s| - 1];
      PadDigits(front);
      assert IsDigit(last);
      assert s == front + [last];
    }
  }

  lemma NumberWritten(s: string, w: nat, n: nat, rest: string)
    ensures ReadNumber(s, w) == Some((n, rest)) <==> n < Pow10(w) && s == Pad(n, w) + rest
  {
    if ReadNumber(s, w) == Some((n, rest)) {
      PadDigits(s[..w]);
      assert s == s[..w] + s[w..];
    }
    if n < Pow10(w) && s == Pad(n, w) + rest {
      ReadsNumber(n, w, rest);
    }
  }

  lemma FieldWritten(separators: string, s: string, w: nat, n: nat, rest: string)
    ensures ReadField(separators, s, w) == Some((n, rest)) <==>
            && s != "" && s[0] in separators && n < Pow10(w) && s == Field([s[0]], n, w, rest)
  {
    if s != "" {
      NumberWritten(s[1..], w, n, rest);
      FieldTail(s[0], n, w, rest);
      hide ReadNumber, Pad, Field;
      assert s == [s[0]] + s[1..];
      var t := Field([s[0]], n, w, rest);
      assert t == [t[0]] + t[1..];
    }
  }

  lemma {:induction false} CutDigits(s: string, k: nat)
    requires forall i :: 0 <= i < |s| ==> IsDigit(s[i])
    requires k <= |s|
    ensures DigitsValue(s[..k]) * Pow10(|s| - k) <= DigitsValue(s) < (DigitsValue(s[..k]) + 1) * Pow10(|s| - k)
  {
    if k == |s| {
      assert s[..k] == s;
    } else {
      var front := s[..|s| - 1];
      assert IsDigit(s[|s| - 1]);
      assert front[..k] == s[..k];
      CutDigits(front, k);
      Tenfold(DigitsValue(s[..k]), Pow10(|front| - k), DigitsValue(front), s[|s| - 1] as int - '0' as int);
    }
  }

  lemma Tenfold(a: nat, p: nat, v: nat, d: nat)
    requires a * p <= v < (a + 1) * p && d < 10
    ensures a * (10 * p) <= 10 * v + d < (a + 1) * (10 * p)
  {
    assert a * (10 * p) == 10 * (a * p) && (a + 1) * (10 * p) == 10 * ((a + 1) * p);
  }

  lemma {:induction false} PowSum(a: nat, b: nat)
    ensures Pow10(a + b) == Pow10(a) * Pow10(b)
  {
    if a > 0 {
      PowSum(a - 1, b);
      assert Pow10(a) * Pow10(b) == 10 * (Pow10(a - 1) * Pow10(b));
    }
  }

  lemma FractionOfLong(digits: string)
    requires |digits| >= 9 && forall i :: 0 <= i < |digits| ==> IsDigit(digits[i])
    ensures FractionValue(digits) == DigitsValue(digits[..9])
  {
    hide DigitsValue;
  }

  /** The value of fractional digits is their number scaled to nanoseconds and cut off. */
  lemma FractionValueCuts(digits: string)
    requires forall i :: 0 <= i < |digits| ==> IsDigit(digits[i])
    ensures var n, p := FractionValue(digits), Pow10(|digits|);
            n * p <= DigitsValue(digits) * 1_000_000_000 < (n + 1) * p
  {
    PowersOfTen();
    hide Pow10, DigitsValue;
    var k, v, n := |digits|, DigitsValue(digits), FractionValue(digits);
    if k >= 9 {
      CutDigits(digits, 9);
      PowSum(9, k - 9);
      hide FractionValue;
      assert n == DigitsValue(digits[..9]) by { FractionOfLong(digits); }
      Scale(n, Pow10(k - 9), v);
    } else {
      PowSum(9 - k, k);
      assert n == v * Pow10(9 - k);
      Exact(v, Pow10(9 - k), Pow10(k));
    }
  }

  lemma Scale(n: nat, q: nat, v: nat)
    requires n * q <= v < (n + 1) * q
    ensures n * (1_000_000_000 * q) <= v * 1_000_000_000 < (n + 1) * (1_000_000_000 * q)
  {
    assert n * (1_000_000_000 * q) == 1_000_000_000 * (n * q);
    assert (n + 1) * (1_000_000_000 * q) == 1_000_000_000 * ((n + 1) * q);
  }

  lemma Exact(v: nat, a: nat, b: nat)
    requires a * b == 1_000_000_000 && b > 0
    ensures (v * a) * b == v * 1_000_000_000 < (v * a + 1) * b
  {
    assert (v * a) * b == v * (a * b);
    assert (v * a + 1) * b == (v * a) * b + b;
  }

  lemma OneCut(n: nat, m: nat, p: nat, v: nat)
    requires n * p <= v < (n + 1) * p && m * p <= v < (m + 1) * p
    ensures n == m
  {
    if n < m { Monotone(n + 1, m, p); }
    if m < n { Monotone(m + 1, n, p); }
  }

  lemma Monotone(a: nat, b: nat, p: nat)
    requires a <= b
    ensures a * p <= b * p
  {
    assert b * p == a * p + (b - a) * p;
  }

  lemma FractionReads(fraction: string, zone: string, nanos: nat)
    requires FractionForm(fraction) && FractionNames(fraction, nanos)
    requires zone != "" && !IsDigit(zone[0]) && zone[0] != '.'
    ensures ReadFraction(fraction + zone) == Some((nanos, zone))
  {
    if fraction == "" {
      assert fraction + zone == zone;
    } else {
      var digits := fraction[1..];
      assert forall i :: 0 <= i < |digits| ==> digits[i] == fraction[i + 1];
      FractionValueCuts(digits);
      OneCut(nanos, FractionValue(digits), Pow10(|digits|), DigitsValue(digits) * 1_000_000_000);
      DigitRunOf(digits, zone);
      hide FractionValue, DigitsValue, Pow10;
      assert (fraction + zone)[1..] == digits + zone;
      assert (digits + zone)[..|digits|] == digits && (digits + zone)[|digits|..] == zone;
    }
  }

  lemma FractionRead(s: string, nanos: nat, rest: string) returns (fraction: string)
    requires ReadFraction(s) == Some((nanos, rest))
    ensures s == fraction + rest && FractionForm(fraction) && FractionNames(fraction, nanos)
  {
    if s == [] || s[0] != '.' {
      fraction := "";
      assert s == fraction + rest;
    } else {
      var k := DigitRun(s[1..]);
      var digits := s[1..][..k];
      fraction := "." + digits;
      FractionValueCuts(digits);
      hide FractionValue, DigitsValue, Pow10;
      assert fraction[1..] == digits;
      assert s == ["."[0]] + s[1..] && s[1..] == digits + rest;
    }
  }

  lemma OffsetExactly(s: string, offset: int)
    ensures ReadOffset(s) == Some(offset) <==> ZoneNames(s, offset)
    ensures ZoneNames(s, offset) ==> s != "" && !IsDigit(s[0]) && s[0] != '.'
  {
    PowersOfTen();
    if ReadOffset(s) == Some(offset) && s != "Z" && s != "z" {
      var (hours, s1) := ReadField("+-", s, 2).value;
      var (minutes, s2) := ReadField(":", s1, 2).value;
      FieldWritten("+-", s, 2, hours, s1);
      FieldWritten(":", s1, 2, minutes, s2);
      assert s == OffsetText(s[0], hours, minutes) && offset == OffsetMinutes(s[0], hours, minutes);
    }
    if ZoneNames(s, offset) && s != "Z" && s != "z" {
      var sign: char, hours: nat, minutes: nat :|
        sign in "+-" && hours <= 23 && minutes <= 59
        && s == OffsetText(sign, hours, minutes) && offset == OffsetMinutes(sign, hours, minutes);
      ReadsOffset(sign, hours, minutes);
    }
  }

  lemma DateReads(d: Date, rest: string)
    requires ValidDate(d) && 0 <= d.year <= 9_999
    ensures ReadDate(Pad(d.year, 4) + Field("-", d.month, 2, Field("-", d.day, 2, rest))) == Some((d, rest))
  {
    ReadsDate(d, rest);
  }

  lemma ClockReads(separator: char, c: Clock, rest: string)
    requires separator in "Tt " && c.hour <= 23 && c.minute <= 59 && c.second <= 60
    ensures ReadClock(Field([separator], c.hour, 2, Field(":", c.minute, 2, Field(":", c.second, 2, rest)))) == Some((c, rest))
  {
    PowersOfTen();
    var s3 := Field(":", c.second, 2, rest);
    var s2 := Field(":", c.minute, 2, s3);
    ReadsField("Tt ", separator, c.hour, 2, s2);
    ReadsField(":", ':', c.minute, 2, s3);
    ReadsField(":", ':', c.second, 2, rest);
  }

  lemma DateRead(s: string, d: Date, rest: string)
    requires ReadDate(s) == Some((d, rest)) && ValidDate(d)
    ensures s == Pad(d.year, 4) + Field("-", d.month, 2, Field("-", d.day, 2, rest))
  {
    var (year, s1) := ReadNumber(s, 4).value;
    var (month, s2) := ReadField("-", s1, 2).value;
    NumberWritten(s, 4, year, s1);
    FieldWritten("-", s1, 2, month, s2);
    FieldWritten("-", s2, 2, d.day, rest);
  }

  lemma ClockRead(s: string, c: Clock, rest: string)
    requires ReadClock(s) == Some((c, rest))
    ensures s != "" && s[0] in "Tt "
    ensures s == Field([s[0]], c.hour, 2, Field(":", c.minute, 2, Field(":", c.second, 2, rest)))
  {
    var (hour, s1) := ReadField("Tt ", s, 2).value;
    var (minute, s2) := ReadField(":", s1, 2).value;
    FieldWritten("Tt ", s, 2, hour, s1);
    FieldWritten(":", s1, 2, minute, s2);
    FieldWritten(":", s2, 2, c.second, rest);
  }

  predicate ClockNames(c: Clock, nanos: nat, local: DateTime) {
    && c.hour <= 23 && c.minute <= 59 && c.second <= 60 && nanos < SECOND
    && local.secs == 3_600 * c.hour + 60 * c.minute + (if c.second == 60 then 59 else c.second)
    && local.frac == (if c.second == 60 then SECOND else 0) + nanos
  }

  lemma LocalMade(date: Date, c: Clock, nanos: nat, local: DateTime)
    ensures MakeLocal(date, c, nanos) == Some(local)
            <==> ValidDate(date) && local.date == date && ClockNames(c, nanos, local)
  {}

  lemma StampParts(p: Stamp, local: DateTime)
    requires StampNames(p, local)
    ensures var nanos := local.frac - (if p.clock.second == 60 then SECOND else 0);
            nanos >= 0 && ClockNames(p.clock, nanos, local) && FractionNames(p.fraction, nanos)
  {
    hide FractionNames, FractionForm, ValidDate;
  }

  lemma StampOfParts(p: Stamp, nanos: nat, local: DateTime)
    requires 0 <= p.date.year <= 9_999 && ValidDate(p.date) && p.separator in "Tt " && FractionForm(p.fraction)
    requires local.date == p.date && ClockNames(p.clock, nanos, local) && FractionNames(p.fraction, nanos)
    ensures StampNames(p, local)
  {
    hide FractionNames, FractionForm, ValidDate;
  }

  lemma LocalRead(
    s: string, date: Date, s1: string, c: Clock, s2: string, nanos: nat, s3: string, offset: int, local: DateTime)
    requires ReadDate(s) == Some((date, s1)) && ReadClock(s1) == Some((c, s2)) && ReadFraction(s2) == Some((nanos, s3))
    requires ReadOffset(s3) == Some(offset) && MakeLocal(date, c, nanos) == Some(local)
    ensures ReadLocal(s) == Some((local, offset))
  {
    hide ReadDate, ReadClock, ReadFraction, ReadOffset, MakeLocal;
  }

  lemma StampReads(p: Stamp, local: DateTime, offset: int)
    requires StampNames(p, local) && ZoneNames(p.zone, offset)
    ensures ReadLocal(Written(p)) == Some((local, offset))
  {
    StampParts(p, local);
    OffsetExactly(p.zone, offset);
    hide ReadDate, ReadClock, ReadFraction, ReadOffset, MakeLocal, ReadLocal;
    hide Pad, Field, FractionNames, ZoneNames, FractionForm, ClockNames;
    var nanos := local.frac - (if p.clock.second == 60 then SECOND else 0);
    FractionReads(p.fraction, p.zone, nanos);
    var afterClock := p.fraction + p.zone;
    ClockReads(p.separator, p.clock, afterClock);
    var afterDate := Field([p.separator], p.clock.hour, 2,
      Field(":", p.clock.minute, 2, Field(":", p.clock.second, 2, afterClock)));
    DateReads(p.date, afterDate);
    LocalMade(p.date, p.clock, nanos, local);
    LocalRead(Written(p), p.date, afterDate, p.clock, afterClock, nanos, p.zone, offset, local);
  }

  lemma ReadIsStamp(s: string, local: DateTime, offset: int) returns (p: Stamp)
    requires ReadLocal(s) == Some((local, offset))
    ensures StampNames(p, local) && ZoneNames(p.zone, offset) && s == Written(p)
  {
    hide ReadDate, ReadClock, ReadFraction, ReadOffset, MakeLocal;
    var (date, s1) := ReadDate(s).value;
    var (clock, s2) := ReadClock(s1).value;
    var (nanos, s3) := ReadFraction(s2).value;
    LocalMade(date, clock, nanos, local);
    hide StampNames, Pad, Field, FractionNames, ZoneNames, FractionForm, ClockNames, ValidDate, ReadLocal;
    DateRead(s, date, s1);
    ClockRead(s1, clock, s2);
    var fraction := FractionRead(s2, nanos, s3);
    OffsetExactly(s3, offset);
    p := Stamp(date, s1[0], clock, fraction, s3);
    PowersOfTen();
    StampOfParts(p, nanos, local);
  }

  /** Exactly the texts of this form are read, as this instant: in-range parts, `T`, `t` or a space
    between date and time, any number of fractional digits, and `Z`, `z` or a numeric offset. */
  lemma ParsesExactly(s: string, t: DateTime)
    ensures ParseTimestamp(s) == Some(t) <==>
            exists p: Stamp, local: DateTime, offset: int ::
              StampNames(p, local) && ZoneNames(p.zone, offset) && -1440 < offset < 1440
              && s == Written(p) && t == ToUtc(local, offset)
  {
    if ParseTimestamp(s) == Some(t) {
      var (local, offset) := ReadLocal(s).value;
      var p := ReadIsStamp(s, local, offset);
      hide *;
      assert StampNames(p, local) && ZoneNames(p.zone, offset);
    }
    if p: Stamp, local: DateTime, offset: int :|
         StampNames(p, local) && ZoneNames(p.zone, offset) && -1440 < offset < 1440
         && s == Written(p) && t == ToUtc(local, offset) {
      StampReads(p, local, offset);
    }
  }

  lemma SmallNumbers()
    ensures Pad(0, 2) == "00" && Pad(1, 2) == "01" && Pad(12, 2) == "12" && Pad(23, 2) == "23" && Pad(31, 2) == "31"
    ensures Pad(59, 2) == "59" && Pad(0, 4) == "0000" && Pad(9_999, 4) == "9999"
  {
    assert Pad(0, 1) == "0" && Pad(1, 1) == "1" && Pad(2, 1) == "2" && Pad(3, 1) == "3" && Pad(5, 1) == "5" && Pad(9, 1) == "9";
    assert Pad(99, 2) == "99" && Pad(999, 3) == "999";
    assert Pad(0, 3) == "000";
  }

  lemma Grouped(a: string, b: string, c: string)
    ensures a + (b + c) == a + b + c
  {}

  function DateText(d: Date): string
    requires ValidDate(d) && 0 <= d.year <= 9_999
  {
    Pad(d.year, 4) + ("-" + (Pad(d.month, 2) + ("-" + Pad(d.day, 2))))
  }

  function ClockDigits(t: DateTime): string {
    Pad(Hour(t), 2) + (":" + (Pad(Minute(t), 2) + (":" + Pad(Second(t), 2))))
  }

  /** A text in its three parts, for a time in whole seconds. */
  lemma ThreeParts(t: DateTime, zone: string)
    requires WireYear(t) && t.frac == 0
    ensures LocalText(t, zone) == DateText(t.date) + ("T" + (ClockDigits(t) + zone))
  {
    hide Pad;
    assert FractionText(0) + zone == zone;
    var (y, mo, d) := (Pad(t.date.year, 4), Pad(t.date.month, 2), Pad(t.date.day, 2));
    var (h, mi, s) := (Pad(Hour(t), 2), Pad(Minute(t), 2), Pad(Second(t), 2));
    var clock := h + (":" + (mi + (":" + (s + zone))));
    assert LocalText(t, zone) == y + ("-" + (mo + ("-" + (d + ("T" + clock)))));
    Regroup(h, ":", mi, ":", s, zone);
    Regroup(y, "-", mo, "-", d, "T" + clock);
  }

  lemma Regroup(a: string, b: string, c: string, d: string, e: string, f: string)
    ensures a + (b + (c + (d + (e + f)))) == a + (b + (c + (d + e))) + f
  {
    Grouped(d, e, f);
    Grouped(c, d + e, f);
    Grouped(b, c + (d + e), f);
    Grouped(a, b + (c + (d + e)), f);
  }

  /** The last second of year 9999 an hour west of UTC is in year 10000. */
  lemma ParsesToYearTenThousand()
    ensures ParseTimestamp("9999-12-31" + ("T" + ("23:59:59" + "-01:00"))) == Some(DateTime(Date(10_000, 1, 1), 3_599, 0))
  {
    var t := DateTime(Date(9_999, 12, 31), 86_399, 0);
    SmallNumbers();
    assert DateText(t.date) == "9999-12-31";
    assert ClockDigits(t) == "23:59:59";
    assert OffsetText('-', 1, 0) == "-01:00";
    assert ToUtc(t, -60) == DateTime(Date(10_000, 1, 1), 3_599, 0);
    assert WireYear(t) && OffsetMinutes('-', 1, 0) == -60;
    hide *;
    ThreeParts(t, "-01:00");
    ParsesLocal(t, '-', 1, 0);
  }

  /** The first second of year 0 a minute east of UTC is in year -1. */
  lemma ParsesToYearMinusOne()
    ensures ParseTimestamp("0000-01-01" + ("T" + ("00:00:00" + "+00:01"))) == Some(DateTime(Date(-1, 12, 31), 86_340, 0))
  {
    var t := DateTime(Date(0, 1, 1), 0, 0);
    SmallNumbers();
    assert DateText(t.date) == "0000-01-01";
    assert ClockDigits(t) == "00:00:00";
    assert OffsetText('+', 0, 1) == "+00:01";
    assert ToUtc(t, 1) == DateTime(Date(-1, 12, 31), 86_340, 0);
    assert WireYear(t) && OffsetMinutes('+', 0, 1) == 1;
    hide *;
    ThreeParts(t, "+00:01");
    ParsesLocal(t, '+', 0, 1);
  }

  // ---- The sort key ----

  /** Within a year: month, day, second of the day, fraction. */
  predicate BeforeInYear(a: DateTime, b: DateTime) {
    || a.date.month < b.date.month
    || (a.date.month == b.date.month
        && (|| a.date.day < b.date.day
            || (a.date.day == b.date.day && (a.secs < b.secs || (a.secs == b.secs && a.frac < b.frac)))))
  }

  function KeyTail(t: DateTime): string {
    ClockText(t, Field(".", Nanos(t), 9, "Z"))
  }

  predicate ClockBefore(a: DateTime, b: DateTime) {
    || Hour(a) < Hour(b)
    || (Hour(a) == Hour(b)
        && (|| Minute(a) < Minute(b)
            || (Minute(a) == Minute(b)
                && (Second(a) < Second(b) || (Second(a) == Second(b) && Nanos(a) < Nanos(b))))))
  }

  lemma ClockBeforeIsOrder(a: DateTime, b: DateTime)
    ensures ClockBefore(a, b) <==> a.secs < b.secs || (a.secs == b.secs && a.frac < b.frac)
  {
    ClockFields(a);
    ClockFields(b);
  }

  lemma KeyTailOrder(a: DateTime, b: DateTime)
    ensures Less(KeyTail(a), KeyTail(b)) <==> BeforeInYear(a, b)
  {
    ClockFields(a);
    ClockFields(b);
    ClockBeforeIsOrder(a, b);
    PowersOfTen();
    var a6, b6 := Field(".", Nanos(a), 9, "Z"), Field(".", Nanos(b), 9, "Z");
    var a5, b5 := Field(":", Second(a), 2, a6), Field(":", Second(b), 2, b6);
    var a4, b4 := Field(":", Minute(a), 2, a5), Field(":", Minute(b), 2, b5);
    var a3, b3 := Field("T", Hour(a), 2, a4), Field("T", Hour(b), 2, b4);
    var a2, b2 := Field("-", a.date.day, 2, a3), Field("-", b.date.day, 2, b3);
    LessIrreflexive("Z");
    FieldOrder(".", Nanos(a), "Z", Nanos(b), "Z", 9);
    FieldOrder(":", Second(a), a6, Second(b), b6, 2);
    FieldOrder(":", Minute(a), a5, Minute(b), b5, 2);
    FieldOrder("T", Hour(a), a4, Hour(b), b4, 2);
    FieldOrder("-", a.date.day, a3, b.date.day, b3, 2);
    FieldOrder("-", a.date.month, a2, b.date.month, b2, 2);
  }

  /** The years an accepted timestamp can have once it is in UTC. */
  predicate ParsedYear(t: DateTime) {
    -1 <= t.date.year <= 10_000
  }

  lemma KeyOrderSameSign(a: DateTime, b: DateTime)
    requires 0 <= a.date.year <= 9_999 && 0 <= b.date.year <= 9_999
    ensures Less(Key(a), Key(b)) <==> Before(a, b)
  {
    KeyTailOrder(a, b);
    PowersOfTen();
    FieldOrder("", a.date.year, KeyTail(a), b.date.year, KeyTail(b), 4);
    assert Key(a) == Field("", a.date.year, 4, KeyTail(a)) by { assert "" + Pad(a.date.year, 4) == Pad(a.date.year, 4); }
    assert Key(b) == Field("", b.date.year, 4, KeyTail(b)) by { assert "" + Pad(b.date.year, 4) == Pad(b.date.year, 4); }
  }

  /** Keys compare as instants do, unless exactly one of the two lies in year 10000: its key
    starts with a plus sign, which sorts below the minus sign and below every digit. */
  lemma KeyOrder(a: DateTime, b: DateTime)
    requires ParsedYear(a) && ParsedYear(b)
    ensures (Less(Key(a), Key(b)) <==> Before(a, b)) <==> (a.date.year == 10_000 <==> b.date.year == 10_000)
    ensures Key(a) == Key(b) ==> a == b
  {
    KeyTailOrder(a, b);
    KeyTailOrder(b, a);
    if WireYear(a) && WireYear(b) {
      KeyOrderSameSign(a, b);
      KeyOrderSameSign(b, a);
      LessIrreflexive(Key(a));
    } else if a.date.year == b.date.year {
      LessByHead(YearText(a.date.year), KeyTail(a), YearText(b.date.year), KeyTail(b));
      LessIrreflexive(YearText(a.date.year));
      LessByHead(YearText(b.date.year), KeyTail(b), YearText(a.date.year), KeyTail(a));
      LessIrreflexive(Key(a));
    } else {
      assert Key(a)[0] == YearText(a.date.year)[0] && Key(b)[0] == YearText(b.date.year)[0];
      assert Key(a)[0] != Key(b)[0];
    }
  }
}

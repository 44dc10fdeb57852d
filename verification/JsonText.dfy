/** Reading JSON text back, as `serde_json::from_str` does: white space between tokens is skipped,
  the last value of a repeated key wins, and nesting beyond the recursion limit is an error. */
module JsonText {
  import opened Wrappers
  import opened Decimal
  import opened Json

  /** The decoder's recursion counter starts at 128 and must stay above zero. */
  const MAX_NESTING: nat := 127

  predicate IsSpace(c: char) { c == ' ' || c == '\t' || c == '\n' || c == '\r' }

  function Trim(s: string): (r: string)
    ensures |r| <= |s|
    ensures r == [] || !IsSpace(r[0])
  {
    if s != [] && IsSpace(s[0]) then Trim(s[1..]) else s
  }

  // ---- Objects as maps that keep the order of insertion ----

  /** A known key takes the new value where it stands, a new key goes last. */
  function Insert(members: seq<Member>, m: Member): seq<Member> {
    if members == [] then [m]
    else if members[0].key == m.key then [m] + members[1..]
    else [members[0]] + Insert(members[1..], m)
  }

  function FromEntries(entries: seq<Member>): seq<Member> {
    if entries == [] then []
    else Insert(FromEntries(entries[..|entries| - 1]), entries[|entries| - 1])
  }

  lemma {:induction false} InsertLast(members: seq<Member>, m: Member)
    requires forall i :: 0 <= i < |members| ==> members[i].key != m.key
    ensures Insert(members, m) == members + [m]
  {
    if members != [] {
      InsertLast(members[1..], m);
    }
  }

  lemma {:induction false} FromDistinct(members: seq<Member>)
    requires DistinctKeys(members)
    ensures FromEntries(members) == members
  {
    if members != [] {
      var n := |members| - 1;
      FromDistinct(members[..n]);
      InsertLast(members[..n], members[n]);
    }
  }

  // ---- Tokens ----

  function Unhex(c: char): (r: Option<int>)
    ensures r.Some? ==> 0 <= r.value < 16
  {
    if IsDigit(c) then Some(c as int - '0' as int)
    else if 'a' <= c <= 'f' then Some(c as int - 'a' as int + 10)
    else if 'A' <= c <= 'F' then Some(c as int - 'A' as int + 10)
    else None
  }

  function ReadHex4(s: string): (r: Option<int>)
    ensures r.Some? ==> |s| >= 4 && 0 <= r.value < 0x1_0000
  {
    if |s| < 4 then None
    else
      var a :- Unhex(s[0]);
      var b :- Unhex(s[1]);
      var c :- Unhex(s[2]);
      var d :- Unhex(s[3]);
      Some(0x1000 * a + 0x100 * b + 0x10 * c + d)
  }

  function ReadLowSurrogate(high: int, s: string): (r: Option<(char, nat)>)
    requires 0xD800 <= high < 0xDC00
    ensures r.Some? ==> 0 < r.value.1 <= |s|
  {
    if |s| < 11 || s[5] != '\\' || s[6] != 'u' then None
    else
      var low :- ReadHex4(s[7..]);
      if 0xDC00 <= low < 0xE000
      then Some(((0x1_0000 + 0x400 * (high - 0xD800) + (low - 0xDC00)) as char, 11))
      else None
  }

  /** One character after a backslash, and how many characters its escape takes. Surrogate
    escapes name a character only in pairs. */
  function ReadEscape(s: string): (r: Option<(char, nat)>)
    ensures r.Some? ==> 0 < r.value.1 <= |s|
  {
    if s == [] then None
    else match s[0]
      case '"' => Some(('"', 1))
      case '\\' => Some(('\\', 1))
      case '/' => Some(('/', 1))
      case 'b' => Some((8 as char, 1))
      case 't' => Some(('\t', 1))
      case 'n' => Some(('\n', 1))
      case 'f' => Some((12 as char, 1))
      case 'r' => Some(('\r', 1))
      case 'u' =>
        var code :- ReadHex4(s[1..]);
        if 0 <= code < 0xD800 || 0xE000 <= code < 0x1_0000 then Some((code as char, 5))
        else if code < 0xDC00 then ReadLowSurrogate(code, s)
        else None
      case _ => None
  }

  /** The characters up to the closing quote. */
  function ReadChars(s: string): (r: Option<(string, string)>)
    ensures r.Some? ==> |r.value.1| < |s|
    decreases |s|
  {
    if s == [] || s[0] < ' ' then None
    else if s[0] == '"' then Some(("", s[1..]))
    else if s[0] == '\\' then
      var (c, n) :- ReadEscape(s[1..]);
      var (text, rest) :- ReadChars(s[1..][n..]);
      Some(([c] + text, rest))
    else
      var (text, rest) :- ReadChars(s[1..]);
      Some(([s[0]] + text, rest))
  }

  predicate InJsonInt(n: int) { -0x8000_0000_0000_0000 <= n < 0x1_0000_0000_0000_0000 }

  /** A run of digits without a leading zero, with no fraction or exponent after it. */
  function ReadNatural(s: string): (r: Option<(int, string)>)
    ensures r.Some? ==> r.value.0 >= 0 && |r.value.1| < |s|
  {
    var k := DigitRun(s);
    if k == 0 || (k > 1 && s[0] == '0') then None
    else if k < |s| && (s[k] == '.' || s[k] == 'e' || s[k] == 'E') then None
    else Some((DigitsValue(s[..k]), s[k..]))
  }

  /** An integer literal in the exact range. */
  function ReadInteger(s: string): (r: Option<(Value, string)>)
    ensures r.Some? ==> |r.value.1| < |s|
  {
    if s != [] && s[0] == '-' then
      var (m, rest) :- ReadNatural(s[1..]);
      if m != 0 && InJsonInt(-m) then Some((Number(-m), rest)) else None
    else
      var (m, rest) :- ReadNatural(s);
      if InJsonInt(m) then Some((Number(m), rest)) else None
  }

  function ReadWord(word: string, v: Value, s: string): (r: Option<(Value, string)>)
    requires word != []
    ensures r.Some? ==> |r.value.1| < |s|
  {
    if word <= s then Some((v, s[|word|..])) else None
  }

  // ---- Values ----

  function ReadValue(text: string, room: nat): (r: Option<(Value, string)>)
    ensures r.Some? ==> |r.value.1| < |text|
    decreases |text|, 0
  {
    var s := Trim(text);
    if s == [] then None
    else if s[0] == 'n' then ReadWord("null", Null, s)
    else if s[0] == 't' then ReadWord("true", Bool(true), s)
    else if s[0] == 'f' then ReadWord("false", Bool(false), s)
    else if s[0] == '"' then
      var (chars, rest) :- ReadChars(s[1..]);
      Some((String(chars), rest))
    else if s[0] == '[' then
      if room == 0 then None
      else
        var t := Trim(s[1..]);
        if t != [] && t[0] == ']' then Some((Array([]), t[1..]))
        else
          var (items, rest) :- ReadItems(t, room - 1);
          Some((Array(items), rest))
    else if s[0] == '{' then
      if room == 0 then None
      else
        var t := Trim(s[1..]);
        if t != [] && t[0] == '}' then Some((Object([]), t[1..]))
        else
          var (entries, rest) :- ReadMembers(t, room - 1);
          Some((Object(FromEntries(entries)), rest))
    else ReadInteger(s)
  }

  function ReadItems(text: string, room: nat): (r: Option<(seq<Value>, string)>)
    ensures r.Some? ==> |r.value.1| < |text|
    decreases |text|, 1
  {
    var (v, rest) :- ReadValue(text, room);
    var s := Trim(rest);
    if s == [] then None
    else if s[0] == ']' then Some(([v], s[1..]))
    else if s[0] == ',' then
      var (more, end) :- ReadItems(s[1..], room);
      Some(([v] + more, end))
    else None
  }

  function ReadMembers(text: string, room: nat): (r: Option<(seq<Member>, string)>)
    ensures r.Some? ==> |r.value.1| < |text|
    decreases |text|, 1
  {
    var (m, rest) :- ReadMember(text, room);
    var s := Trim(rest);
    if s == [] then None
    else if s[0] == '}' then Some(([m], s[1..]))
    else if s[0] == ',' then
      var (more, end) :- ReadMembers(s[1..], room);
      Some(([m] + more, end))
    else None
  }

  function ReadMember(text: string, room: nat): (r: Option<(Member, string)>)
    ensures r.Some? ==> |r.value.1| < |text|
    decreases |text|, 0
  {
    var s := Trim(text);
    if s == [] || s[0] != '"' then None
    else
      var (key, afterKey) :- ReadChars(s[1..]);
      var t := Trim(afterKey);
      if t == [] || t[0] != ':' then None
      else
        var (v, rest) :- ReadValue(t[1..], room);
        Some((Member(key, v), rest))
  }

  /** `serde_json::from_str`: one value, then nothing but white space. */
  function ParseJson(text: string, room: nat): Option<Value> {
    var (v, rest) :- ReadValue(text, room);
    if Trim(rest) == [] then Some(v) else None
  }

  // ---- Reading what was written ----

  lemma HexRoundTrip(d: int)
    requires 0 <= d < 16
    ensures Unhex(HexDigit(d)) == Some(d)
  {}

  lemma EscapeRoundTrip(c: char, rest: string)
    ensures EscapeChar(c) != [] && !(EscapeChar(c)[0] < ' ') && EscapeChar(c)[0] != '"'
    ensures if EscapeChar(c)[0] == '\\'
            then ReadEscape((EscapeChar(c) + rest)[1..]) == Some((c, |EscapeChar(c)| - 1))
            else EscapeChar(c) == [c]
  {
    var e := EscapeChar(c);
    var s := (e + rest)[1..];
    if |e| == 6 {
      HexRoundTrip(0);
      HexRoundTrip(c as int / 16);
      HexRoundTrip(c as int % 16);
      assert s[0] == 'u' && s[1] == '0' && s[2] == '0';
      assert s[3] == HexDigit(c as int / 16) && s[4] == HexDigit(c as int % 16);
      assert ReadHex4(s[1..]) == Some(c as int);
    } else if |e| == 2 {
      assert s[0] == e[1];
    }
  }

  lemma ReadsChar(c: char, tail: string, text: string, rest: string)
    requires ReadChars(tail) == Some((text, rest))
    ensures ReadChars(EscapeChar(c) + tail) == Some(([c] + text, rest))
  {
    var e := EscapeChar(c);
    var all := e + tail;
    EscapeRoundTrip(c, tail);
    assert all[0] == e[0];
    if e[0] == '\\' {
      assert all[1..][|e| - 1..] == tail;
    } else {
      assert all[1..] == tail;
    }
  }

  lemma {:induction false} ReadsChars(s: string, rest: string)
    ensures ReadChars(EscapeText(s) + "\"" + rest) == Some((s, rest))
  {
    if s == [] {
      assert (EscapeText(s) + "\"" + rest) == "\"" + rest;
      assert ("\"" + rest)[1..] == rest;
    } else {
      var tail := EscapeText(s[1..]) + "\"" + rest;
      assert EscapeText(s) + "\"" + rest == EscapeChar(s[0]) + tail;
      ReadsChars(s[1..], rest);
      ReadsChar(s[0], tail, s[1..], rest);
      assert s == [s[0]] + s[1..];
    }
  }

  /** Text that may follow a value. */
  predicate Delimited(rest: string) {
    rest == [] || rest[0] == ',' || rest[0] == ']' || rest[0] == '}'
  }

  lemma ReadsNatural(m: nat, rest: string)
    requires Delimited(rest)
    ensures ReadNatural(NatText(m) + rest) == Some((m, rest))
  {
    var digits := NatText(m);
    var s := digits + rest;
    NatTextValue(m);
    DigitRunOf(digits, rest);
    assert s[..|digits|] == digits && s[|digits|..] == rest;
    assert s[0] == digits[0];
  }

  lemma ReadsNegative(m: int, rest: string)
    requires 0 < m <= 0x8000_0000_0000_0000 && Delimited(rest)
    ensures ReadInteger("-" + NatText(m) + rest) == Some((Number(-m), rest))
  {
    ReadsNatural(m, rest);
    var s := "-" + NatText(m) + rest;
    assert s[1..] == NatText(m) + rest;
  }

  lemma ReadsPositive(m: int, rest: string)
    requires 0 <= m < 0x1_0000_0000_0000_0000 && Delimited(rest)
    ensures ReadInteger(NatText(m) + rest) == Some((Number(m), rest))
  {
    ReadsNatural(m, rest);
    var s := NatText(m) + rest;
    assert s[0] == NatText(m)[0] && IsDigit(s[0]);
  }

  lemma ReadsInteger(n: JsonInt, rest: string)
    requires Delimited(rest)
    ensures ReadInteger(IntText(n) + rest) == Some((Number(n), rest))
  {
    if n < 0 {
      ReadsNegative(-n, rest);
    } else {
      ReadsPositive(n, rest);
    }
  }

  lemma TextStart(v: Value)
    ensures Text(v) != [] && !IsSpace(Text(v)[0])
    ensures Text(v)[0] != ']' && Text(v)[0] != '}'
    ensures v.Number? ==> Text(v)[0] == '-' || IsDigit(Text(v)[0])
  {}

  lemma TrimText(v: Value, rest: string)
    ensures Trim(Text(v) + rest) == Text(v) + rest
  {
    TextStart(v);
    assert (Text(v) + rest)[0] == Text(v)[0];
  }

  lemma ArrayStep(s: string, t: string, room: nat)
    requires s != [] && s[0] == '[' && s[1..] == t && room > 0
    requires t != [] && Trim(t) == t && t[0] != ']'
    ensures ReadValue(s, room)
            == match ReadItems(t, room - 1) case Some(r) => Some((Array(r.0), r.1)) case None => None
  {
    assert Trim(s) == s;
  }

  lemma ReadsArray(items: seq<Value>, rest: string, room: nat)
    requires items != [] && room > 0
    requires ReadItems(ItemsText(items) + "]" + rest, room - 1)
             == if ItemsNesting(items) <= room - 1 then Some((items, rest)) else None
    ensures ReadValue(Text(Array(items)) + rest, room)
            == if Nesting(Array(items)) <= room then Some((Array(items), rest)) else None
  {
    var t := ItemsText(items) + "]" + rest;
    var s := Text(Array(items)) + rest;
    assert s == "[" + t;
    ItemsStart(items, rest);
    hide ReadValue, ReadItems, ItemsText;
    ArrayStep(s, t, room);
  }

  lemma ItemsStart(items: seq<Value>, rest: string)
    requires items != []
    ensures var t := ItemsText(items) + "]" + rest;
            t != [] && Trim(t) == t && t[0] != ']'
  {
    var t := ItemsText(items) + "]" + rest;
    TextStart(items[0]);
    assert Text(items[0]) <= t;
    assert t[0] == Text(items[0])[0];
  }

  lemma ReadsObject(members: seq<Member>, rest: string, room: nat)
    requires members != [] && room > 0 && DistinctKeys(members)
    requires ReadMembers(MembersText(members) + "}" + rest, room - 1)
             == if MembersNesting(members) <= room - 1 then Some((members, rest)) else None
    ensures ReadValue(Text(Object(members)) + rest, room)
            == if Nesting(Object(members)) <= room then Some((Object(members), rest)) else None
  {
    var s := Text(Object(members)) + rest;
    assert s[0] == '{' && Trim(s) == s;
    var t := MembersText(members) + "}" + rest;
    assert s[1..] == t;
    assert t[0] == MemberText(members[0])[0] == '"';
    assert Trim(t) == t;
    FromDistinct(members);
  }

  lemma ReadsWord(word: string, v: Value, rest: string)
    requires word != []
    ensures ReadWord(word, v, word + rest) == Some((v, rest))
  {
    assert (word + rest)[|word|..] == rest;
  }

  lemma ReadsString(x: string, rest: string, room: nat)
    ensures ReadValue(QuoteText(x) + rest, room) == Some((String(x), rest))
  {
    var s := QuoteText(x) + rest;
    assert s[0] == '"' && Trim(s) == s;
    assert s[1..] == EscapeText(x) + "\"" + rest;
    ReadsChars(x, rest);
  }

  lemma ReadsNumber(n: JsonInt, rest: string, room: nat)
    requires Delimited(rest)
    ensures ReadValue(IntText(n) + rest, room) == Some((Number(n), rest))
  {
    var s := IntText(n) + rest;
    TextStart(Number(n));
    assert s[0] == IntText(n)[0];
    assert Trim(s) == s;
    ReadsInteger(n, rest);
  }

  lemma ReadsScalar(v: Value, rest: string, room: nat)
    requires Delimited(rest) && !v.Array? && !v.Object?
    ensures ReadValue(Text(v) + rest, room) == Some((v, rest))
  {
    match v
    case Null => ReadsWord("null", v, rest);
    case Bool(b) => ReadsWord(if b then "true" else "false", v, rest);
    case Number(n) => ReadsNumber(n, rest, room);
    case String(x) => ReadsString(x, rest, room);
  }

  lemma ReadsEmpty(v: Value, rest: string, room: nat)
    requires v == Array([]) || v == Object([])
    ensures ReadValue(Text(v) + rest, room) == if room > 0 then Some((v, rest)) else None
  {
    var s := Text(v) + rest;
    assert Trim(s) == s;
    var close := Text(v)[1..];
    assert s[1..] == close + rest && Trim(s[1..]) == s[1..];
    assert s[1..][1..] == rest;
  }

  lemma NoRoom(v: Value, rest: string)
    requires v.Array? || v.Object?
    ensures ReadValue(Text(v) + rest, 0) == None
  {
    TrimText(v, rest);
    assert (Text(v) + rest)[0] == Text(v)[0];
  }

  lemma {:induction false} ReadsValue(v: Value, rest: string, room: nat)
    requires Canonical(v) && Delimited(rest)
    ensures ReadValue(Text(v) + rest, room) == if Nesting(v) <= room then Some((v, rest)) else None
    decreases v
  {
    if !v.Array? && !v.Object? {
      ReadsScalar(v, rest, room);
    } else if v == Array([]) || v == Object([]) {
      ReadsEmpty(v, rest, room);
    } else if room == 0 {
      NoRoom(v, rest);
    } else if v.Array? {
      ReadsItems(v.items, rest, room - 1);
      ReadsArray(v.items, rest, room);
    } else {
      ReadsMembers(v.members, rest, room - 1);
      ReadsObject(v.members, rest, room);
    }
  }

  lemma LastItem(text: string, v: Value, rest: string, room: nat)
    requires ReadValue(text, room) == Some((v, "]" + rest))
    ensures ReadItems(text, room) == Some(([v], rest))
  {
    var after := "]" + rest;
    assert Trim(after) == after && after[1..] == rest;
  }

  lemma ItemsStep(text: string, v: Value, more: string, room: nat)
    requires ReadValue(text, room) == Some((v, "," + more))
    ensures ReadItems(text, room)
            == match ReadItems(more, room) case Some(r) => Some(([v] + r.0, r.1)) case None => None
  {
    var after := "," + more;
    assert Trim(after) == after && after[1..] == more;
  }

  lemma ReadsLastItem(v: Value, rest: string, room: nat)
    requires ReadValue(Text(v) + ("]" + rest), room) == if Nesting(v) <= room then Some((v, "]" + rest)) else None
    ensures ReadItems(ItemsText([v]) + "]" + rest, room)
            == if ItemsNesting([v]) <= room then Some(([v], rest)) else None
  {
    var text := ItemsText([v]) + "]" + rest;
    assert text == Text(v) + ("]" + rest);
    if Nesting(v) <= room {
      LastItem(text, v, rest, room);
    }
  }

  lemma ReadsMoreItems(v: Value, tail: seq<Value>, rest: string, room: nat)
    requires tail != []
    requires ReadValue(Text(v) + ("," + (ItemsText(tail) + "]" + rest)), room)
             == if Nesting(v) <= room then Some((v, "," + (ItemsText(tail) + "]" + rest))) else None
    requires ReadItems(ItemsText(tail) + "]" + rest, room)
             == if ItemsNesting(tail) <= room then Some((tail, rest)) else None
    ensures ReadItems(ItemsText([v] + tail) + "]" + rest, room)
            == if ItemsNesting([v] + tail) <= room then Some(([v] + tail, rest)) else None
  {
    var more := ItemsText(tail) + "]" + rest;
    var text := ItemsText([v] + tail) + "]" + rest;
    assert ([v] + tail)[1..] == tail;
    assert text == Text(v) + ("," + more);
    if Nesting(v) <= room {
      ItemsStep(text, v, more, room);
    }
  }

  lemma {:induction false} ReadsItems(items: seq<Value>, rest: string, room: nat)
    requires items != [] && forall i :: 0 <= i < |items| ==> Canonical(items[i])
    ensures ReadItems(ItemsText(items) + "]" + rest, room)
            == if ItemsNesting(items) <= room then Some((items, rest)) else None
    decreases items
  {
    var v, tail := items[0], items[1..];
    if tail == [] {
      assert items == [v];
      ReadsValue(v, "]" + rest, room);
      ReadsLastItem(v, rest, room);
    } else {
      assert items == [v] + tail;
      ReadsValue(v, "," + (ItemsText(tail) + "]" + rest), room);
      ReadsItems(tail, rest, room);
      ReadsMoreItems(v, tail, rest, room);
    }
  }

  lemma ReadsKey(s: string, key: string, value: string, room: nat)
    requires s != [] && s[0] == '"' && ReadChars(s[1..]) == Some((key, ":" + value))
    ensures ReadMember(s, room)
            == match ReadValue(value, room) case Some(r) => Some((Member(key, r.0), r.1)) case None => None
  {
    assert Trim(s) == s;
    var t := ":" + value;
    assert Trim(t) == t && t[1..] == value;
  }

  lemma ReadsMemberStep(m: Member, rest: string, room: nat)
    requires ReadValue(Text(m.value) + rest, room) == if Nesting(m.value) <= room then Some((m.value, rest)) else None
    ensures ReadMember(MemberText(m) + rest, room) == if Nesting(m.value) <= room then Some((m, rest)) else None
  {
    var value := Text(m.value) + rest;
    var s := MemberText(m) + rest;
    assert s[1..] == EscapeText(m.key) + "\"" + (":" + value);
    assert s[0] == '"';
    hide *;
    ReadsChars(m.key, ":" + value);
    ReadsKey(s, m.key, value, room);
  }

  lemma LastMember(text: string, m: Member, rest: string, room: nat)
    requires ReadMember(text, room) == Some((m, "}" + rest))
    ensures ReadMembers(text, room) == Some(([m], rest))
  {
    var after := "}" + rest;
    assert Trim(after) == after && after[1..] == rest;
  }

  lemma MembersStep(text: string, m: Member, more: string, room: nat)
    requires ReadMember(text, room) == Some((m, "," + more))
    ensures ReadMembers(text, room)
            == match ReadMembers(more, room) case Some(r) => Some(([m] + r.0, r.1)) case None => None
  {
    var after := "," + more;
    assert Trim(after) == after && after[1..] == more;
  }

  lemma ReadsLast(m: Member, rest: string, room: nat)
    requires ReadMember(MemberText(m) + ("}" + rest), room)
             == if Nesting(m.value) <= room then Some((m, "}" + rest)) else None
    ensures ReadMembers(MembersText([m]) + "}" + rest, room)
            == if MembersNesting([m]) <= room then Some(([m], rest)) else None
  {
    var text := MembersText([m]) + "}" + rest;
    assert text == MemberText(m) + ("}" + rest);
    if Nesting(m.value) <= room {
      LastMember(text, m, rest, room);
    }
  }

  lemma ReadsMore(m: Member, tail: seq<Member>, rest: string, room: nat)
    requires tail != []
    requires ReadMember(MemberText(m) + ("," + (MembersText(tail) + "}" + rest)), room)
             == if Nesting(m.value) <= room then Some((m, "," + (MembersText(tail) + "}" + rest))) else None
    requires ReadMembers(MembersText(tail) + "}" + rest, room)
             == if MembersNesting(tail) <= room then Some((tail, rest)) else None
    ensures ReadMembers(MembersText([m] + tail) + "}" + rest, room)
            == if MembersNesting([m] + tail) <= room then Some(([m] + tail, rest)) else None
  {
    var more := MembersText(tail) + "}" + rest;
    var text := MembersText([m] + tail) + "}" + rest;
    assert ([m] + tail)[1..] == tail;
    assert text == MemberText(m) + ("," + more);
    if Nesting(m.value) <= room {
      MembersStep(text, m, more, room);
    }
  }

  lemma {:induction false} ReadsMembers(members: seq<Member>, rest: string, room: nat)
    requires members != [] && forall i :: 0 <= i < |members| ==> Canonical(members[i].value)
    ensures ReadMembers(MembersText(members) + "}" + rest, room)
            == if MembersNesting(members) <= room then Some((members, rest)) else None
    decreases members
  {
    var m, tail := members[0], members[1..];
    assert m.value < m;
    if tail == [] {
      assert members == [m];
      ReadsValue(m.value, "}" + rest, room);
      ReadsMemberStep(m, "}" + rest, room);
      ReadsLast(m, rest, room);
    } else {
      assert members == [m] + tail;
      var more := MembersText(tail) + "}" + rest;
      ReadsValue(m.value, "," + more, room);
      ReadsMemberStep(m, "," + more, room);
      ReadsMembers(tail, rest, room);
      ReadsMore(m, tail, rest, room);
    }
  }

  /** Compact text reads back to its value exactly when the value nests no deeper than the
    decoder allows. */
  lemma TextRoundTrip(v: Value, room: nat)
    requires Canonical(v)
    ensures ParseJson(Text(v), room) == if Nesting(v) <= room then Some(v) else None
  {
    ReadsValue(v, "", room);
    assert Text(v) + "" == Text(v);
  }

  /** Distinct values have distinct texts. */
  lemma TextInjective(v: Value, w: Value)
    requires Canonical(v) && Canonical(w) && Text(v) == Text(w)
    ensures v == w
  {
    var room := Max(Nesting(v), Nesting(w));
    TextRoundTrip(v, room);
    TextRoundTrip(w, room);
  }
}

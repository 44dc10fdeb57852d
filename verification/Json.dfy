/** JSON values, restricted to the numbers the log relies on (64-bit integers), and the compact
  text that `serde_json` writes for them (RFC 8259, sections 4 to 7).

  An object is a sequence of members with distinct keys, in the order in which the map hands them
  out: the order of insertion, or the ascending order of keys, depending on the map behind it. */
module Json {
  import opened Decimal
  import opened Utf8

  /** The integers `serde_json` keeps exactly. */
  type JsonInt = n: int | -0x8000_0000_0000_0000 <= n < 0x1_0000_0000_0000_0000

  datatype Value =
    | Null
    | Bool(b: bool)
    | Number(n: JsonInt)
    | String(s: string)
    | Array(items: seq<Value>)
    | Object(members: seq<Member>)

  datatype Member = Member(key: string, value: Value)

  function Max(a: nat, b: nat): nat { if a < b then b else a }

  ghost predicate DistinctKeys(members: seq<Member>) {
    forall i, j :: 0 <= i < j < |members| ==> members[i].key != members[j].key
  }

  /** Every object, at every level, is a map. */
  ghost predicate Canonical(v: Value) {
    match v
    case Array(items) => forall i :: 0 <= i < |items| ==> Canonical(items[i])
    case Object(members) => DistinctKeys(members) && forall i :: 0 <= i < |members| ==> Canonical(members[i].value)
    case _ => true
  }

  predicate HasKey(members: seq<Member>, key: string) {
    exists i :: 0 <= i < |members| && members[i].key == key
  }

  /** How many containers enclose the innermost value, itself included. */
  function Nesting(v: Value): nat {
    match v
    case Array(items) => 1 + ItemsNesting(items)
    case Object(members) => 1 + MembersNesting(members)
    case _ => 0
  }

  function ItemsNesting(items: seq<Value>): nat {
    if items == [] then 0 else Max(Nesting(items[0]), ItemsNesting(items[1..]))
  }

  function MembersNesting(members: seq<Member>): nat {
    if members == [] then 0 else Max(Nesting(members[0].value), MembersNesting(members[1..]))
  }

  // ---- Portable numbers ----

  /** The integers every JSON implementation agrees on (section 2.2 of RFC 7493). */
  const SAFE_INTEGER: int := 0x1F_FFFF_FFFF_FFFF

  predicate Portable(v: Value) {
    match v
    case Number(n) => -SAFE_INTEGER <= n <= SAFE_INTEGER
    case Array(items) => PortableItems(items)
    case Object(members) => PortableMembers(members)
    case _ => true
  }

  predicate PortableItems(items: seq<Value>) {
    items == [] || (Portable(items[0]) && PortableItems(items[1..]))
  }

  predicate PortableMembers(members: seq<Member>) {
    members == [] || (Portable(members[0].value) && PortableMembers(members[1..]))
  }

  // ---- Compact text ----

  function HexDigit(d: int): char
    requires 0 <= d < 16
  {
    if d < 10 then DigitChar(d) else 'a' + (d - 10) as char
  }

  function EscapeChar(c: char): string {
    if c == '"' then "\\\""
    else if c == '\\' then "\\\\"
    else if c == 8 as char then "\\b"
    else if c == '\t' then "\\t"
    else if c == '\n' then "\\n"
    else if c == 12 as char then "\\f"
    else if c == '\r' then "\\r"
    else if c < ' ' then "\\u00" + [HexDigit(c as int / 16), HexDigit(c as int % 16)]
    else [c]
  }

  function EscapeText(s: string): string {
    if s == [] then "" else EscapeChar(s[0]) + EscapeText(s[1..])
  }

  function QuoteText(s: string): string { "\"" + EscapeText(s) + "\"" }

  function IntText(n: int): string {
    if n < 0 then "-" + NatText(-n) else NatText(n)
  }

  function Text(v: Value): string
    decreases v
  {
    match v
    case Null => "null"
    case Bool(b) => if b then "true" else "false"
    case Number(n) => IntText(n)
    case String(s) => QuoteText(s)
    case Array(items) => "[" + ItemsText(items) + "]"
    case Object(members) => "{" + MembersText(members) + "}"
  }

  function MemberText(m: Member): string
    decreases m
  {
    QuoteText(m.key) + ":" + Text(m.value)
  }

  function ItemsText(items: seq<Value>): string
    decreases items
  {
    if items == [] then ""
    else Text(items[0]) + (if |items| == 1 then "" else "," + ItemsText(items[1..]))
  }

  function MembersText(members: seq<Member>): string
    decreases members
  {
    if members == [] then ""
    else MemberText(members[0]) + (if |members| == 1 then "" else "," + MembersText(members[1..]))
  }

  // ---- Bytes of the text ----

  function EncodedBytes(v: Value): nat { Utf8Bytes(Text(v)) }

  /** Printable ASCII without quote or backslash: written as it stands, a byte a character. */
  predicate Plain(s: string) {
    forall i :: 0 <= i < |s| ==> ' ' <= s[i] <= '~' && s[i] != '"' && s[i] != '\\'
  }

  lemma {:induction false} PlainBytes(s: string)
    requires Plain(s)
    ensures EscapeText(s) == s && Utf8Bytes(s) == |s|
  {
    if s != [] {
      PlainBytes(s[1..]);
      assert EscapeChar(s[0]) == [s[0]];
      assert s == [s[0]] + s[1..];
    }
  }

  lemma PlainQuoted(s: string)
    requires Plain(s)
    ensures Utf8Bytes(QuoteText(s)) == |s| + 2
  {
    PlainBytes(s);
    Utf8Concat("\"" + s, "\"");
    Utf8Concat("\"", s);
    assert "\""[1..] == "";
  }
}

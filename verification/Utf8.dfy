/** UTF-8: the bytes of a text, how many there are, and that they determine the text. */
module Utf8 {

  type byte = b: int | 0 <= b < 256

  function Utf8Len(c: char): nat {
    if c < 0x80 as char then 1 else if c < 0x800 as char then 2 else if c as int < 0x1_0000 then 3 else 4
  }

  function Utf8Bytes(s: string): nat {
    if s == [] then 0 else Utf8Len(s[0]) + Utf8Bytes(s[1..])
  }

  lemma {:induction false} Utf8Concat(a: string, b: string)
    ensures Utf8Bytes(a + b) == Utf8Bytes(a) + Utf8Bytes(b)
  {
    if a == [] {
      assert a + b == b;
    } else {
      assert (a + b)[1..] == a[1..] + b;
      Utf8Concat(a[1..], b);
    }
  }

  function EncodeChar(c: char): (bytes: seq<byte>)
    ensures |bytes| == Utf8Len(c)
  {
    var n := c as int;
    match Utf8Len(c)
    case 1 => [n]
    case 2 => [0xC0 + n / 0x40, 0x80 + n % 0x40]
    case 3 => [0xE0 + n / 0x1000, 0x80 + n / 0x40 % 0x40, 0x80 + n % 0x40]
    case _ => [0xF0 + n / 0x4_0000, 0x80 + n / 0x1000 % 0x40, 0x80 + n / 0x40 % 0x40, 0x80 + n % 0x40]
  }

  function Encode(s: string): (bytes: seq<byte>)
    ensures |bytes| == Utf8Bytes(s)
  {
    if s == [] then [] else EncodeChar(s[0]) + Encode(s[1..])
  }

  lemma Sextets(n: nat)
    ensures n / 0x1000 == n / 0x40 / 0x40
    ensures n / 0x4_0000 == n / 0x1000 / 0x40
  {}

  function FromSextets(bytes: seq<int>): int
    requires 1 <= |bytes| <= 4
  {
    match |bytes|
    case 1 => bytes[0]
    case 2 => (bytes[0] - 0xC0) * 0x40 + (bytes[1] - 0x80)
    case 3 => ((bytes[0] - 0xE0) * 0x40 + (bytes[1] - 0x80)) * 0x40 + (bytes[2] - 0x80)
    case _ => (((bytes[0] - 0xF0) * 0x40 + (bytes[1] - 0x80)) * 0x40 + (bytes[2] - 0x80)) * 0x40 + (bytes[3] - 0x80)
  }

  lemma CharFromSextets(c: char)
    ensures FromSextets(EncodeChar(c)) == c as int
  {
    Sextets(c as int);
  }

  lemma LeadByte(c: char)
    ensures var lead := EncodeChar(c)[0];
            Utf8Len(c) == if lead < 0x80 then 1 else if lead < 0xE0 then 2 else if lead < 0xF0 then 3 else 4
  {}

  lemma EncodePrefix(c: char, x: seq<byte>, d: char, y: seq<byte>)
    requires EncodeChar(c) + x == EncodeChar(d) + y
    ensures c == d && x == y
  {
    var k := Utf8Len(c);
    var l := EncodeChar(c) + x;
    var r := EncodeChar(d) + y;
    assert l[0] == EncodeChar(c)[0] && r[0] == EncodeChar(d)[0];
    LeadByte(c);
    LeadByte(d);
    assert l[..k] == EncodeChar(c) && r[..k] == EncodeChar(d);
    assert l[k..] == x && r[k..] == y;
    CharFromSextets(c);
    CharFromSextets(d);
  }

  lemma {:induction false} EncodeInjective(s: string, t: string)
    requires Encode(s) == Encode(t)
    ensures s == t
  {
    if s == [] || t == [] {
      assert Utf8Bytes(s) == Utf8Bytes(t);
    } else {
      EncodePrefix(s[0], Encode(s[1..]), t[0], Encode(t[1..]));
      EncodeInjective(s[1..], t[1..]);
      assert s == [s[0]] + s[1..] && t == [t[0]] + t[1..];
    }
  }

  /** Only the NUL character has a zero byte. */
  lemma {:induction false} NoZeroByte(s: string)
    requires forall i :: 0 <= i < |s| ==> s[i] != 0 as char
    ensures 0 !in Encode(s)
  {
    if s != [] {
      NoZeroByte(s[1..]);
      assert 0 !in EncodeChar(s[0]);
    }
  }
}

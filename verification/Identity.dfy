/** Event identity: the framing that is hashed for a stable id, fresh ids, and the migration
  checksum. The 256-bit digest itself is a parameter. */
module Identity {
  import opened Utf8

  type Digest = seq<byte> -> seq<byte>

  ghost predicate Digest256(digest: Digest) {
    forall input :: |digest(input)| == 32
  }

  const U64: int := 0x1_0000_0000_0000_0000

  // ---- Big-endian lengths ----

  function Pow256(w: nat): (p: nat)
    ensures p > 0
  {
    if w == 0 then 1 else 256 * Pow256(w - 1)
  }

  function BigEndian(n: nat, w: nat): (bytes: seq<byte>)
    ensures |bytes| == w
  {
    if w == 0 then [] else BigEndian(n / 256, w - 1) + [n % 256]
  }

  lemma {:induction false} BigEndianInjective(n: nat, m: nat, w: nat)
    requires n < Pow256(w) && m < Pow256(w) && BigEndian(n, w) == BigEndian(m, w)
    ensures n == m
  {
    if w > 0 {
      var a, b := BigEndian(n, w), BigEndian(m, w);
      assert a[..w - 1] == BigEndian(n / 256, w - 1) && b[..w - 1] == BigEndian(m / 256, w - 1);
      assert a[w - 1] == n % 256 && b[w - 1] == m % 256;
      BigEndianInjective(n / 256, m / 256, w - 1);
    }
  }

  lemma EightBytes()
    ensures Pow256(8) == U64
  {
    assert Pow256(2) == 65_536;
    assert Pow256(4) == 65_536 * Pow256(2);
    assert Pow256(6) == 65_536 * Pow256(4);
    assert Pow256(8) == 65_536 * Pow256(6);
  }

  /** The number that bytes write with the most significant first. */
  function Magnitude(bytes: seq<byte>): nat {
    if bytes == [] then 0 else 256 * Magnitude(bytes[..|bytes| - 1]) + bytes[|bytes| - 1]
  }

  lemma {:induction false} BigEndianValue(n: nat, w: nat)
    requires n < Pow256(w)
    ensures Magnitude(BigEndian(n, w)) == n
  {
    if w > 0 {
      var bytes := BigEndian(n, w);
      assert bytes[..w - 1] == BigEndian(n / 256, w - 1);
      BigEndianValue(n / 256, w - 1);
    }
  }

  // ---- Hexadecimal text ----

  const HEX: string := "0123456789abcdef"

  function Hex(bytes: seq<byte>): (s: string)
    ensures |s| == 2 * |bytes|
    ensures forall i :: 0 <= i < |s| ==> s[i] in HEX
  {
    if bytes == [] then "" else [HEX[bytes[0] / 16], HEX[bytes[0] % 16]] + Hex(bytes[1..])
  }

  /** Two lower-case digits a byte, the high half first. */
  lemma {:induction false} HexDigits(bytes: seq<byte>, i: nat)
    requires i < |bytes|
    ensures Hex(bytes)[2 * i] == "0123456789abcdef"[bytes[i] / 16]
    ensures Hex(bytes)[2 * i + 1] == "0123456789abcdef"[bytes[i] % 16]
  {
    if i > 0 {
      HexDigits(bytes[1..], i - 1);
    }
  }

  lemma HexDigitInjective(a: int, b: int)
    requires 0 <= a < 16 && 0 <= b < 16 && HEX[a] == HEX[b]
    ensures a == b
  {}

  lemma HexByteInjective(a: byte, b: byte)
    requires HEX[a / 16] == HEX[b / 16] && HEX[a % 16] == HEX[b % 16]
    ensures a == b
  {
    HexDigitInjective(a / 16, b / 16);
    HexDigitInjective(a % 16, b % 16);
  }

  lemma {:induction false} HexInjective(a: seq<byte>, b: seq<byte>)
    requires Hex(a) == Hex(b)
    ensures a == b
  {
    assert |Hex(a)| == |Hex(b)|;
    if a != [] {
      var s, t := Hex(a), Hex(b);
      assert s[0] == t[0] && s[1] == t[1];
      HexByteInjective(a[0], b[0]);
      assert s[2..] == Hex(a[1..]) && t[2..] == Hex(b[1..]);
      HexInjective(a[1..], b[1..]);
      assert a == [a[0]] + a[1..] && b == [b[0]] + b[1..];
    }
  }

  // ---- Stable ids ----

  const ID_PREFIX: string := "audit_evt_"

  /** The bytes hashed for a caller and its delivery key. */
  function Frame(source: string, key: string): seq<byte> {
    Prefixed(source) + Prefixed(key)
  }

  function Prefixed(s: string): seq<byte> {
    BigEndian(Utf8Bytes(s), 8) + Encode(s)
  }

  function StableId(digest: Digest, source: string, key: string): string {
    ID_PREFIX + Hex(digest(Frame(source, key)))
  }

  predicate Addressable(s: string) { Utf8Bytes(s) < U64 }

  lemma LengthPrefixed(a: string, x: seq<byte>, b: string, y: seq<byte>)
    requires Addressable(a) && Addressable(b) && Prefixed(a) + x == Prefixed(b) + y
    ensures a == b && x == y
  {
    var l, r := Prefixed(a) + x, Prefixed(b) + y;
    assert l[..8] == BigEndian(Utf8Bytes(a), 8) && r[..8] == BigEndian(Utf8Bytes(b), 8);
    EightBytes();
    BigEndianInjective(Utf8Bytes(a), Utf8Bytes(b), 8);
    var n := 8 + Utf8Bytes(a);
    assert l[8..n] == Encode(a) && r[8..n] == Encode(b);
    assert l[n..] == x && r[n..] == y;
    EncodeInjective(a, b);
  }

  lemma PrefixedLayout(s: string, x: seq<byte>)
    requires Addressable(s)
    ensures var f, n := Prefixed(s) + x, 8 + Utf8Bytes(s);
            Magnitude(f[..8]) == Utf8Bytes(s) && f[8..n] == Encode(s) && f[n..] == x
  {
    EightBytes();
    BigEndianValue(Utf8Bytes(s), 8);
    var f := Prefixed(s) + x;
    assert f[..8] == BigEndian(Utf8Bytes(s), 8);
  }

  /** What is hashed, read by position: each text in UTF-8 behind the number of its bytes, which
    fills eight bytes, the most significant first. */
  lemma FrameLayout(source: string, key: string)
    requires Addressable(source) && Addressable(key)
    ensures var f, n := Frame(source, key), Utf8Bytes(source);
            && |f| == 16 + n + Utf8Bytes(key)
            && Magnitude(f[..8]) == n && f[8..8 + n] == Encode(source)
            && Magnitude(f[8 + n..16 + n]) == Utf8Bytes(key) && f[16 + n..] == Encode(key)
  {
    PrefixedLayout(source, Prefixed(key));
    PrefixedLayout(key, []);
    var f, n := Frame(source, key), 8 + Utf8Bytes(source);
    assert Prefixed(key) + [] == Prefixed(key);
    hide Magnitude, Prefixed, Encode;
    assert f[n..] == Prefixed(key);
    assert f[n..n + 8] == Prefixed(key)[..8] && f[n + 8..] == Prefixed(key)[8..];
    assert Prefixed(key)[8..] == Prefixed(key)[8..8 + Utf8Bytes(key)];
  }

  /** The id of a keyed event: the fixed prefix and the hexadecimal text of the digest. */
  lemma StableIdText(digest: Digest, source: string, key: string, i: nat)
    requires i < |digest(Frame(source, key))|
    ensures var sum, id := digest(Frame(source, key)), StableId(digest, source, key);
            && |id| == 10 + 2 * |sum| && id[..10] == "audit_evt_"
            && id[10 + 2 * i] == "0123456789abcdef"[sum[i] / 16]
            && id[11 + 2 * i] == "0123456789abcdef"[sum[i] % 16]
  {
    HexDigits(digest(Frame(source, key)), i);
  }

  /** The framing determines the caller and the key. */
  lemma FrameInjective(s1: string, k1: string, s2: string, k2: string)
    requires Addressable(s1) && Addressable(k1) && Addressable(s2) && Addressable(k2)
    requires Frame(s1, k1) == Frame(s2, k2)
    ensures s1 == s2 && k1 == k2
  {
    LengthPrefixed(s1, Prefixed(k1), s2, Prefixed(k2));
    assert Prefixed(k1) + [] == Prefixed(k2) + [];
    LengthPrefixed(k1, [], k2, []);
  }

  /** Two stable ids agree only for the same caller and key, or by a collision of the digest on two
    different framings. */
  lemma StableIdsAgree(digest: Digest, s1: string, k1: string, s2: string, k2: string)
    requires Addressable(s1) && Addressable(k1) && Addressable(s2) && Addressable(k2)
    requires StableId(digest, s1, k1) == StableId(digest, s2, k2)
    ensures || (s1 == s2 && k1 == k2)
            || (Frame(s1, k1) != Frame(s2, k2) && digest(Frame(s1, k1)) == digest(Frame(s2, k2)))
  {
    var h1, h2 := Hex(digest(Frame(s1, k1))), Hex(digest(Frame(s2, k2)));
    assert (ID_PREFIX + h1)[|ID_PREFIX|..] == h1 && (ID_PREFIX + h2)[|ID_PREFIX|..] == h2;
    HexInjective(digest(Frame(s1, k1)), digest(Frame(s2, k2)));
    if Frame(s1, k1) == Frame(s2, k2) {
      FrameInjective(s1, k1, s2, k2);
    }
  }

  /** A fresh id ends in a hyphenated UUID, a stable id in bare hexadecimal digits. */
  lemma StableIsNeverFresh(digest: Digest, source: string, key: string, uuid: string)
    requires '-' in uuid
    ensures StableId(digest, source, key) != ID_PREFIX + uuid
  {
    var h := Hex(digest(Frame(source, key)));
    assert (ID_PREFIX + h)[|ID_PREFIX|..] == h && (ID_PREFIX + uuid)[|ID_PREFIX|..] == uuid;
    assert '-' !in HEX;
  }

  // ---- The incremental digest ----

  class Hasher {
    const digest: Digest
    var input: seq<byte>

    constructor (digest: Digest)
      ensures this.digest == digest && input == []
    {
      this.digest := digest;
      input := [];
    }

    method Update(bytes: seq<byte>)
      modifies this
      ensures input == old(input) + bytes
    {
      input := input + bytes;
    }

    method Finalize() returns (sum: seq<byte>)
      ensures sum == digest(input)
    {
      sum := digest(input);
    }
  }

  method StableEventId(digest: Digest, source: string, key: string) returns (id: string)
    ensures id == StableId(digest, source, key)
  {
    var hasher := new Hasher(digest);
    hasher.Update(BigEndian(Utf8Bytes(source), 8));
    hasher.Update(Encode(source));
    hasher.Update(BigEndian(Utf8Bytes(key), 8));
    hasher.Update(Encode(key));
    assert hasher.input == Frame(source, key);
    var sum := hasher.Finalize();
    id := ID_PREFIX + Hex(sum);
  }

  // ---- The migration checksum ----

  function ChecksumInput(version: nat, name: string, sql: string): seq<byte> {
    BigEndian(version, 8) + [0] + Encode(name) + [0] + Encode(sql)
  }

  method MigrationChecksum(digest: Digest, version: nat, name: string, sql: string) returns (checksum: string)
    ensures checksum == Hex(digest(ChecksumInput(version, name, sql)))
  {
    var hasher := new Hasher(digest);
    hasher.Update(BigEndian(version, 8));
    hasher.Update([0]);
    hasher.Update(Encode(name));
    hasher.Update([0]);
    hasher.Update(Encode(sql));
    assert hasher.input == ChecksumInput(version, name, sql);
    var sum := hasher.Finalize();
    checksum := Hex(sum);
  }

  lemma {:induction false} SplitAtZero(a: seq<byte>, x: seq<byte>, b: seq<byte>, y: seq<byte>)
    requires 0 !in a && 0 !in b && a + [0] + x == b + [0] + y
    ensures a == b && x == y
  {
    var l, r := a + [0] + x, b + [0] + y;
    assert l[|a|] == 0 && r[|b|] == 0;
    if |a| < |b| {
      assert false;
    } else if |b| < |a| {
      assert false;
    } else {
      assert l[..|a|] == a && r[..|b|] == b;
      assert l[|a| + 1..] == x && r[|b| + 1..] == y;
    }
  }

  lemma AfterVersion(version: nat, name: string, sql: string)
    ensures ChecksumInput(version, name, sql)[..8] == BigEndian(version, 8)
    ensures ChecksumInput(version, name, sql)[9..] == Encode(name) + [0] + Encode(sql)
  {
    var rest := Encode(name) + [0] + Encode(sql);
    assert ChecksumInput(version, name, sql) == BigEndian(version, 8) + [0] + rest;
  }

  /** What a migration's checksum covers, read by position. */
  lemma ChecksumLayout(version: nat, name: string, sql: string)
    requires version < U64
    ensures var input, n := ChecksumInput(version, name, sql), 9 + Utf8Bytes(name);
            && |input| == n + 1 + Utf8Bytes(sql)
            && Magnitude(input[..8]) == version && input[8] == 0
            && input[9..n] == Encode(name) && input[n] == 0 && input[n + 1..] == Encode(sql)
  {
    var front, names, texts := BigEndian(version, 8), Encode(name), Encode(sql);
    EightBytes();
    BigEndianValue(version, 8);
    hide Magnitude, Encode, BigEndian;
    assert ChecksumInput(version, name, sql) == front + [0] + names + [0] + texts;
    Separated(front, names, texts);
  }

  lemma Separated(front: seq<byte>, a: seq<byte>, b: seq<byte>)
    ensures var input, m, n := front + [0] + a + [0] + b, |front| + 1, |front| + 1 + |a|;
            && |input| == n + 1 + |b|
            && input[..|front|] == front && input[|front|] == 0
            && input[m..n] == a && input[n] == 0 && input[n + 1..] == b
  {}

  /** The zero separators make the checksum input determine version, name and text, as long as no
    migration name contains a NUL. */
  lemma ChecksumInputInjective(v1: nat, n1: string, q1: string, v2: nat, n2: string, q2: string)
    requires v1 < U64 && v2 < U64
    requires forall i :: 0 <= i < |n1| ==> n1[i] != 0 as char
    requires forall i :: 0 <= i < |n2| ==> n2[i] != 0 as char
    requires ChecksumInput(v1, n1, q1) == ChecksumInput(v2, n2, q2)
    ensures v1 == v2 && n1 == n2 && q1 == q2
  {
    AfterVersion(v1, n1, q1);
    AfterVersion(v2, n2, q2);
    EightBytes();
    BigEndianInjective(v1, v2, 8);
    NoZeroByte(n1);
    NoZeroByte(n2);
    SplitAtZero(Encode(n1), Encode(q1), Encode(n2), Encode(q2));
    EncodeInjective(n1, n2);
    EncodeInjective(q1, q2);
  }
}

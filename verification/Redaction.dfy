/** Recursive redaction of sensitive metadata, and what it does to the limits that were checked
  before it. */
module Redaction {
  import opened Wrappers
  import opened Decimal
  import opened Json
  import opened Utf8
  import opened Metadata

  const REDACTED: string := "[redacted]"

  // ---- Sensitive keys ----

  /** Lower case as far as it can produce an ASCII letter: besides the ASCII capitals only the
    Kelvin sign and the dotted capital I do. */
  function Lower(c: char): string {
    if 'A' <= c <= 'Z' then [(c as int + 32) as char]
    else if c == '\U{212A}' then "k"
    else if c == '\U{0130}' then "i\U{0307}"
    else [c]
  }

  function Normalize(key: string): string {
    if key == [] then ""
    else if key[0] in "_- " then Normalize(key[1..])
    else Lower(key[0]) + Normalize(key[1..])
  }

  predicate Contains(s: string, needle: string) {
    needle <= s || (s != [] && Contains(s[1..], needle))
  }

  predicate IsSensitiveKey(key: string) {
    var normalized := Normalize(key);
    || Contains(normalized, "password") || Contains(normalized, "token") || Contains(normalized, "secret")
    || Contains(normalized, "privatekey") || Contains(normalized, "apikey")
    || Contains(normalized, "authorization") || Contains(normalized, "cookie")
  }

  lemma {:induction false} NormalizeConcat(a: string, b: string)
    ensures Normalize(a + b) == Normalize(a) + Normalize(b)
  {
    if a == [] {
      assert a + b == b;
    } else {
      assert (a + b)[1..] == a[1..] + b;
      NormalizeConcat(a[1..], b);
    }
  }

  lemma LowerIsNormal(c: char)
    requires c !in "_- "
    ensures Normalize(Lower(c)) == Lower(c)
  {
    var l := Lower(c);
    assert Normalize(l[1..]) == l[1..] by {
      if |l| > 1 { assert l[1..] == [l[1]] && l[1..][1..] == []; }
    }
  }

  lemma {:induction false} NormalizeIdempotent(key: string)
    ensures Normalize(Normalize(key)) == Normalize(key)
  {
    if key != [] {
      NormalizeIdempotent(key[1..]);
      if key[0] !in "_- " {
        NormalizeConcat(Lower(key[0]), Normalize(key[1..]));
        LowerIsNormal(key[0]);
      }
    }
  }

  lemma {:induction false} ContainsInside(before: string, s: string, after: string, needle: string)
    requires Contains(s, needle)
    ensures Contains(before + s + after, needle)
  {
    if before != [] {
      assert (before + s + after)[1..] == before[1..] + s + after;
      ContainsInside(before[1..], s, after, needle);
    } else {
      assert before + s + after == s + after;
      if needle <= s {
        assert needle <= s + after;
      } else {
        assert (s + after)[1..] == s[1..] + after;
        ContainsInside("", s[1..], after, needle);
        assert "" + s[1..] + after == s[1..] + after;
      }
    }
  }

  lemma StillContains(b: string, k: string, a: string)
    ensures forall needle: string :: Contains(k, needle) ==> Contains(b + k + a, needle)
  {
    forall needle: string | Contains(k, needle) ensures Contains(b + k + a, needle) {
      ContainsInside(b, k, a, needle);
    }
  }

  /** Case and separators never hide a sensitive key. */
  lemma SensitivityIgnoresSpelling(key: string)
    ensures IsSensitiveKey(Normalize(key)) <==> IsSensitiveKey(key)
  {
    NormalizeIdempotent(key);
  }

  /** Nothing written around a sensitive key hides it. */
  lemma SensitivitySurvivesContext(before: string, key: string, after: string)
    requires IsSensitiveKey(key)
    ensures IsSensitiveKey(before + key + after)
  {
    NormalizeConcat(before + key, after);
    NormalizeConcat(before, key);
    StillContains(Normalize(before), Normalize(key), Normalize(after));
  }

  // ---- Redaction ----

  function Redact(v: Value): Value
    decreases v, 1
  {
    match v
    case Array(items) => Array(RedactItems(items))
    case Object(members) => Object(RedactMembers(members))
    case _ => v
  }

  function RedactItems(items: seq<Value>): (r: seq<Value>)
    ensures |r| == |items|
    decreases items, 0
  {
    if items == [] then [] else [Redact(items[0])] + RedactItems(items[1..])
  }

  function RedactMember(m: Member): Member
    decreases m, 0
  {
    Member(m.key, if IsSensitiveKey(m.key) then String(REDACTED) else Redact(m.value))
  }

  function RedactMembers(members: seq<Member>): (r: seq<Member>)
    ensures |r| == |members|
    decreases members, 0
  {
    if members == [] then [] else [RedactMember(members[0])] + RedactMembers(members[1..])
  }

  lemma {:induction false} RedactedItem(items: seq<Value>, i: nat)
    requires i < |items|
    ensures RedactItems(items)[i] == Redact(items[i])
  {
    if i > 0 {
      RedactedItem(items[1..], i - 1);
    }
  }

  lemma {:induction false} RedactedMember(members: seq<Member>, i: nat)
    requires i < |members|
    ensures RedactMembers(members)[i] == RedactMember(members[i])
  {
    if i > 0 {
      RedactedMember(members[1..], i - 1);
    }
  }

  // ---- What counts as sensitive, read from the words ----

  predicate OnlySeparators(s: string) {
    forall c :: c in s ==> c == '_' || c == '-' || c == ' '
  }

  predicate EitherCase(letter: char, c: char) {
    c == letter || ('a' <= letter <= 'z' && c as int == letter as int - 32)
  }

  /** The letters of a word one after the other, each in either case, with separators anywhere. */
  ghost predicate Spelling(word: string, s: string)
    decreases |word|
  {
    if word == "" then OnlySeparators(s)
    else exists k :: 0 <= k < |s| && OnlySeparators(s[..k]) && EitherCase(word[0], s[k]) && Spelling(word[1..], s[k + 1..])
  }

  predicate LowerCase(word: string) {
    forall i :: 0 <= i < |word| ==> 'a' <= word[i] <= 'z'
  }

  lemma {:induction false} SeparatorsVanish(s: string)
    requires OnlySeparators(s)
    ensures Normalize(s) == ""
  {
    if s != "" {
      assert s[0] in s;
      forall c | c in s[1..] ensures c in s {}
      SeparatorsVanish(s[1..]);
    }
  }

  lemma {:induction false} SpellingNormalizes(word: string, s: string)
    requires LowerCase(word) && Spelling(word, s)
    ensures Normalize(s) == word
    decreases |word|
  {
    if word == "" {
      SeparatorsVanish(s);
    } else {
      var k :| 0 <= k < |s| && OnlySeparators(s[..k]) && EitherCase(word[0], s[k]) && Spelling(word[1..], s[k + 1..]);
      var first, rest, tail := word[0], word[1..], s[k + 1..];
      assert 'a' <= first <= 'z' && LowerCase(rest);
      assert word == [first] + rest;
      hide *;
      SpellingNormalizes(rest, tail);
      FirstLetter(first, s, k);
    }
  }

  lemma FirstLetter(letter: char, s: string, k: nat)
    requires k < |s| && OnlySeparators(s[..k]) && 'a' <= letter <= 'z' && EitherCase(letter, s[k])
    ensures Normalize(s) == [letter] + Normalize(s[k + 1..])
  {
    hide OnlySeparators, Normalize;
    SeparatorsVanish(s[..k]);
    assert s == s[..k] + s[k..];
    NormalizeConcat(s[..k], s[k..]);
    LetterNormalizes(letter, s[k..]);
    assert s[k..][1..] == s[k + 1..];
  }

  lemma LetterNormalizes(letter: char, s: string)
    requires s != "" && 'a' <= letter <= 'z' && EitherCase(letter, s[0])
    ensures Normalize(s) == [letter] + Normalize(s[1..])
  {}

  /** The words that make a key sensitive. */
  predicate SensitiveWord(word: string) {
    || word == "password" || word == "token" || word == "secret" || word == "privatekey" || word == "apikey"
    || word == "authorization" || word == "cookie"
  }

  lemma SensitiveIsContained(key: string)
    ensures IsSensitiveKey(key) <==> exists word :: SensitiveWord(word) && Contains(Normalize(key), word)
  {
    hide Contains, Normalize;
    if IsSensitiveKey(key) {
      var n := Normalize(key);
      assert || (SensitiveWord("password") && Contains(n, "password")) || (SensitiveWord("token") && Contains(n, "token"))
             || (SensitiveWord("secret") && Contains(n, "secret"))
             || (SensitiveWord("privatekey") && Contains(n, "privatekey"))
             || (SensitiveWord("apikey") && Contains(n, "apikey"))
             || (SensitiveWord("authorization") && Contains(n, "authorization"))
             || (SensitiveWord("cookie") && Contains(n, "cookie"));
    }
  }

  lemma SensitiveWordsAreLowerCase(word: string)
    requires SensitiveWord(word)
    ensures LowerCase(word) && word != ""
  {}

  lemma ContainsItself(word: string)
    ensures Contains(word, word)
  {}

  /** Any spelling of one of the words, with any text around it, makes a key sensitive. */
  lemma SpelledIsSensitive(word: string, before: string, s: string, after: string)
    requires SensitiveWord(word) && Spelling(word, s)
    ensures IsSensitiveKey(before + s + after)
  {
    SensitiveWordsAreLowerCase(word);
    hide SensitiveWord, IsSensitiveKey, Spelling, Normalize, Contains, LowerCase;
    SpellingNormalizes(word, s);
    NormalizeConcat(before + s, after);
    NormalizeConcat(before, s);
    ContainsItself(word);
    ContainsInside(Normalize(before), word, Normalize(after), word);
    SensitiveIsContained(before + s + after);
  }

  predicate Ascii(s: string) { forall c :: c in s ==> c as int < 128 }

  lemma SpellingFrom(word: string, s: string, k: nat)
    requires word != "" && k < |s|
    requires OnlySeparators(s[..k]) && EitherCase(word[0], s[k]) && Spelling(word[1..], s[k + 1..])
    ensures Spelling(word, s)
  {}

  lemma MoreSeparators(c: char, s: string)
    requires OnlySeparators(s) && (c == '_' || c == '-' || c == ' ')
    ensures OnlySeparators([c] + s)
  {}

  lemma SpellingAt(word: string, s: string) returns (k: nat)
    requires word != "" && Spelling(word, s)
    ensures k < |s| && OnlySeparators(s[..k]) && EitherCase(word[0], s[k]) && Spelling(word[1..], s[k + 1..])
  {
    k :| 0 <= k < |s| && OnlySeparators(s[..k]) && EitherCase(word[0], s[k]) && Spelling(word[1..], s[k + 1..]);
  }

  lemma OneMoreInFront(c: char, s: string, k: nat)
    requires k < |s|
    ensures var t := [c] + s;
            t[..k + 1] == [c] + s[..k] && t[k + 1] == s[k] && t[k + 1 + 1..] == s[k + 1..]
  {}

  lemma SpellingAfterSeparator(word: string, c: char, s: string)
    requires Spelling(word, s) && (c == '_' || c == '-' || c == ' ')
    ensures Spelling(word, [c] + s)
  {
    if word == "" {
      MoreSeparators(c, s);
    } else {
      hide *;
      var k := SpellingAt(word, s);
      OneMoreInFront(c, s, k);
      MoreSeparators(c, s[..k]);
      SpellingFrom(word, [c] + s, k + 1);
    }
  }

  lemma SpellingAfterLetter(word: string, c: char, s: string)
    requires word != "" && EitherCase(word[0], c) && Spelling(word[1..], s)
    ensures Spelling(word, [c] + s)
  {
    var t := [c] + s;
    assert t[..0] == "" && t[0] == c && t[0 + 1..] == s;
    assert OnlySeparators(t[..0]);
    hide *;
    SpellingFrom(word, t, 0);
  }

  lemma NormalizeStep(key: string)
    requires key != ""
    ensures Normalize(key) == if key[0] in "_- " then Normalize(key[1..]) else Lower(key[0]) + Normalize(key[1..])
  {}

  lemma AsciiLower(c: char)
    requires c as int < 128
    ensures |Lower(c)| == 1
    ensures 'a' <= Lower(c)[0] <= 'z' ==> EitherCase(Lower(c)[0], c)
  {}

  lemma AfterSeparatorAtHead(key: string, word: string, j: nat)
    requires key != "" && key[0] in "_- " && j < |key| && Spelling(word, key[1..][..j])
    ensures Spelling(word, key[..j + 1])
  {
    hide Spelling;
    SpellingAfterSeparator(word, key[0], key[1..][..j]);
    assert key[..j + 1] == [key[0]] + key[1..][..j];
  }

  lemma AfterLetterAtHead(key: string, word: string, j: nat)
    requires key != "" && word != "" && EitherCase(word[0], key[0]) && j < |key| && Spelling(word[1..], key[1..][..j])
    ensures Spelling(word, key[..j + 1])
  {
    hide Spelling, EitherCase;
    SpellingAfterLetter(word, key[0], key[1..][..j]);
    assert key[..j + 1] == [key[0]] + key[1..][..j];
  }

  lemma AsciiTail(key: string)
    requires Ascii(key) && key != ""
    ensures key[0] as int < 128 && Ascii(key[1..])
  {
    assert key[0] in key && forall x :: x in key[1..] ==> x in key;
  }

  /** One letter of the word is one letter of the key. */
  lemma HeadLetter(key: string, word: string)
    requires Ascii(key) && key != "" && key[0] !in "_- " && LowerCase(word) && word != "" && word <= Normalize(key)
    ensures EitherCase(word[0], key[0]) && LowerCase(word[1..]) && word[1..] <= Normalize(key[1..])
  {
    AsciiTail(key);
    AsciiLower(key[0]);
    NormalizeStep(key);
    hide Normalize, Lower, Ascii, EitherCase;
    assert 'a' <= word[0] <= 'z' && word[0] == Normalize(key)[0] == Lower(key[0])[0];
    assert Normalize(key)[1..] == Normalize(key[1..]);
  }

  /** A word at the head of a normalised ASCII key is spelled at the head of the key. */
  lemma {:induction false} SpelledAtHead(key: string, word: string) returns (k: nat)
    requires Ascii(key) && LowerCase(word) && word <= Normalize(key)
    ensures k <= |key| && Spelling(word, key[..k])
    decreases |key|
  {
    if word == "" {
      assert key[..0] == "" && OnlySeparators(key[..0]);
      return 0;
    }
    assert key != "";
    AsciiTail(key);
    NormalizeStep(key);
    hide *;
    var j;
    if key[0] in "_- " {
      j := SpelledAtHead(key[1..], word);
      AfterSeparatorAtHead(key, word, j);
    } else {
      HeadLetter(key, word);
      j := SpelledAtHead(key[1..], word[1..]);
      AfterLetterAtHead(key, word, j);
    }
    k := j + 1;
  }

  /** A word inside a normalised ASCII key is spelled inside the key. */
  lemma {:induction false} SpelledInside(key: string, word: string) returns (before: string, s: string, after: string)
    requires Ascii(key) && LowerCase(word) && Contains(Normalize(key), word)
    ensures key == before + s + after && Spelling(word, s)
    decreases |key|
  {
    if word <= Normalize(key) {
      var k := SpelledAtHead(key, word);
      return "", key[..k], key[k..];
    }
    hide Spelling;
    var c, tail := key[0], key[1..];
    assert c in key && forall x :: x in tail ==> x in key;
    if c !in "_- " {
      AsciiLower(c);
      assert Normalize(key)[1..] == Normalize(tail);
    }
    var b, t, a := SpelledInside(tail, word);
    before, s, after := [c] + b, t, a;
    assert key == [c] + tail;
  }

  /** Somewhere in the key one of the seven words is spelled. */
  ghost predicate SpellsSensitive(key: string) {
    exists word, before, s, after ::
      && word in ["password", "token", "secret", "privatekey", "apikey", "authorization", "cookie"]
      && Spelling(word, s) && key == before + s + after
  }

  lemma SevenWords(word: string)
    ensures word in ["password", "token", "secret", "privatekey", "apikey", "authorization", "cookie"] <==> SensitiveWord(word)
  {}

  /** For ASCII keys, sensitive is spelled; for others, spelled is sensitive. */
  lemma SensitiveIsSpelled(key: string)
    ensures SpellsSensitive(key) ==> IsSensitiveKey(key)
    ensures Ascii(key) && IsSensitiveKey(key) ==> SpellsSensitive(key)
  {
    hide IsSensitiveKey, Spelling, SensitiveWord, Contains, Normalize;
    if SpellsSensitive(key) {
      var word, before, s, after :|
        && word in ["password", "token", "secret", "privatekey", "apikey", "authorization", "cookie"]
        && Spelling(word, s) && key == before + s + after;
      SevenWords(word);
      SpelledIsSensitive(word, before, s, after);
    }
    if Ascii(key) && IsSensitiveKey(key) {
      SensitiveIsContained(key);
      var word :| SensitiveWord(word) && Contains(Normalize(key), word);
      SensitiveWordsAreLowerCase(word);
      SevenWords(word);
      var before, s, after := SpelledInside(key, word);
    }
  }

  /** Under a key that spells one of the words, whatever the text around it, the marker takes the place
    of the value; a value under any other ASCII key is only searched further. */
  lemma SpelledKeysAreRedacted(members: seq<Member>, i: nat)
    requires i < |members|
    ensures var key := members[i].key;
            var redacted := Redact(Object(members)).members;
            && |redacted| == |members| && redacted[i].key == key
            && (SpellsSensitive(key) ==> redacted[i].value == String("[redacted]"))
            && (!SpellsSensitive(key) && (forall c :: c in key ==> c as int < 128) ==>
                  redacted[i].value == Redact(members[i].value))
  {
    var key := members[i].key;
    RedactedMember(members, i);
    hide IsSensitiveKey, SpellsSensitive;
    SensitiveIsSpelled(key);
  }

  // ---- What redaction keeps and what it hides ----

  /** The value reached by following child positions. */
  function Lookup(v: Value, path: seq<nat>): Option<Value>
    decreases |path|
  {
    if path == [] then Some(v)
    else if path[0] >= |Children(v)| then None
    else Lookup(Children(v)[path[0]], path[1..])
  }

  predicate SensitiveStep(v: Value, i: nat) {
    v.Object? && i < |v.members| && IsSensitiveKey(v.members[i].key)
  }

  /** How far along the path the first value under a sensitive key lies, if there is one. */
  function HiddenAt(v: Value, path: seq<nat>): (k: Option<nat>)
    ensures k.Some? ==> 0 < k.value <= |path|
    decreases |path|
  {
    if path == [] || path[0] >= |Children(v)| then None
    else if SensitiveStep(v, path[0]) then Some(1)
    else
      var k :- HiddenAt(Children(v)[path[0]], path[1..]);
      Some(k + 1)
  }

  lemma RedactedChildren(v: Value, i: nat)
    ensures |Children(Redact(v))| == |Children(v)|
    ensures i < |Children(v)| ==>
            Children(Redact(v))[i] == if SensitiveStep(v, i) then String(REDACTED) else Redact(Children(v)[i])
  {
    match v
    case Array(items) => if i < |items| { RedactedItem(items, i); }
    case Object(members) => if i < |members| { RedactedMember(members, i); }
    case _ =>
  }

  /** Every place in the redacted value: a place under no sensitive key holds the redaction of what
    was there (for a scalar, itself), a place directly under one holds the marker, and nothing lies
    below the marker. */
  lemma {:induction false} RedactedPlaces(v: Value, path: seq<nat>)
    ensures Lookup(Redact(v), path) ==
            match HiddenAt(v, path)
            case Some(k) => if k == |path| then Some(String(REDACTED)) else None
            case None => match Lookup(v, path) case Some(w) => Some(Redact(w)) case None => None
    decreases |path|
  {
    if path != [] {
      RedactedChildren(v, path[0]);
      if path[0] < |Children(v)| && !SensitiveStep(v, path[0]) {
        RedactedPlaces(Children(v)[path[0]], path[1..]);
      }
    }
  }

  /** Keys stay where they are, so a canonical value stays canonical. */
  lemma {:induction false} RedactCanonical(v: Value)
    requires Canonical(v)
    ensures Canonical(Redact(v))
    decreases v
  {
    match v
    case Array(items) =>
      forall i | 0 <= i < |items| ensures Canonical(RedactItems(items)[i]) {
        RedactedItem(items, i);
        RedactCanonical(items[i]);
      }
    case Object(members) =>
      var redacted := RedactMembers(members);
      forall i | 0 <= i < |members| ensures redacted[i].key == members[i].key && Canonical(redacted[i].value) {
        RedactedMember(members, i);
        RedactCanonical(members[i].value);
      }
    case _ =>
  }

  lemma {:induction false} RedactIdempotent(v: Value)
    ensures Redact(Redact(v)) == Redact(v)
    decreases v, 1
  {
    match v
    case Array(items) => RedactItemsIdempotent(items);
    case Object(members) => RedactMembersIdempotent(members);
    case _ =>
  }

  lemma {:induction false} RedactItemsIdempotent(items: seq<Value>)
    ensures RedactItems(RedactItems(items)) == RedactItems(items)
    decreases items, 0
  {
    if items != [] {
      RedactIdempotent(items[0]);
      RedactItemsIdempotent(items[1..]);
    }
  }

  lemma {:induction false} RedactMembersIdempotent(members: seq<Member>)
    ensures RedactMembers(RedactMembers(members)) == RedactMembers(members)
    decreases members, 0
  {
    if members != [] {
      assert members[0].value < members[0];
      RedactIdempotent(members[0].value);
      RedactMembersIdempotent(members[1..]);
    }
  }

  // ---- Limits ----

  /** Redaction never loosens a structural limit or portability. */
  lemma {:induction false} RedactWithin(v: Value, room: int)
    ensures Nodes(Redact(v)) <= Nodes(v)
    ensures DepthWithin(v, room) ==> DepthWithin(Redact(v), room)
    ensures SizesWithin(v) ==> SizesWithin(Redact(v))
    ensures Portable(v) ==> Portable(Redact(v))
    decreases v, 1
  {
    match v
    case Array(items) => RedactItemsWithin(items, room - 1);
    case Object(members) => RedactMembersWithin(members, room - 1);
    case _ =>
  }

  lemma {:induction false} RedactItemsWithin(items: seq<Value>, room: int)
    ensures ItemsNodes(RedactItems(items)) <= ItemsNodes(items)
    ensures ItemsDepthWithin(items, room) ==> ItemsDepthWithin(RedactItems(items), room)
    ensures ItemsSizesWithin(items) ==> ItemsSizesWithin(RedactItems(items))
    ensures PortableItems(items) ==> PortableItems(RedactItems(items))
    decreases items, 0
  {
    if items != [] {
      RedactWithin(items[0], room);
      RedactItemsWithin(items[1..], room);
    }
  }

  lemma {:induction false} RedactMembersWithin(members: seq<Member>, room: int)
    ensures MembersNodes(RedactMembers(members)) <= MembersNodes(members)
    ensures MembersDepthWithin(members, room) ==> MembersDepthWithin(RedactMembers(members), room)
    ensures MembersSizesWithin(members) ==> MembersSizesWithin(RedactMembers(members))
    ensures KeysWithin(members) ==> KeysWithin(RedactMembers(members))
    ensures PortableMembers(members) ==> PortableMembers(RedactMembers(members))
    decreases members, 0
  {
    if members != [] {
      assert members[0].value < members[0];
      RedactWithin(members[0].value, room);
      RedactMembersWithin(members[1..], room);
      forall i | 0 <= i < |members| ensures RedactMembers(members)[i].key == members[i].key {
        RedactedMember(members, i);
      }
    }
  }

  // ---- The limits, place by place ----

  lemma LookupHere(v: Value)
    ensures Lookup(v, []) == Some(v)
  {}

  lemma LookupBelow(v: Value, i: nat, path: seq<nat>)
    ensures Lookup(v, [i] + path) == if i < |Children(v)| then Lookup(Children(v)[i], path) else None
  {
    assert ([i] + path)[1..] == path;
  }

  /** The integers that every JSON implementation keeps. */
  predicate SafeNumber(v: Value) {
    v.Number? ==> -9_007_199_254_740_991 <= v.n <= 9_007_199_254_740_991
  }

  ghost predicate SafeEverywhere(v: Value) {
    forall path :: Lookup(v, path).Some? ==> SafeNumber(Lookup(v, path).value)
  }

  lemma SafeParts(v: Value)
    ensures SafeEverywhere(v) <==> SafeNumber(v) && forall i :: 0 <= i < |Children(v)| ==> SafeEverywhere(Children(v)[i])
  {
    hide SafeNumber, Lookup;
    LookupHere(v);
    if SafeEverywhere(v) {
      forall i, path | 0 <= i < |Children(v)| && Lookup(Children(v)[i], path).Some?
        ensures SafeNumber(Lookup(Children(v)[i], path).value)
      {
        LookupBelow(v, i, path);
        assert Lookup(v, [i] + path).Some?;
      }
    }
    if SafeNumber(v) && forall i :: 0 <= i < |Children(v)| ==> SafeEverywhere(Children(v)[i]) {
      forall path | Lookup(v, path).Some? ensures SafeNumber(Lookup(v, path).value) {
        if path != [] {
          assert path == [path[0]] + path[1..];
          LookupBelow(v, path[0], path[1..]);
          assert SafeEverywhere(Children(v)[path[0]]);
        }
      }
    }
  }

  lemma {:induction false} PortableItemsExactly(items: seq<Value>)
    ensures PortableItems(items) <==> forall i :: 0 <= i < |items| ==> Portable(items[i])
  {
    if items != [] {
      PortableItemsExactly(items[1..]);
      assert forall i :: 1 <= i < |items| ==> items[i] == items[1..][i - 1];
    }
  }

  lemma {:induction false} PortableMembersExactly(members: seq<Member>)
    ensures PortableMembers(members) <==> forall i :: 0 <= i < |members| ==> Portable(members[i].value)
  {
    if members != [] {
      PortableMembersExactly(members[1..]);
      assert forall i :: 1 <= i < |members| ==> members[i] == members[1..][i - 1];
    }
  }

  lemma PortableParts(v: Value)
    ensures Portable(v) <==> SafeNumber(v) && forall i :: 0 <= i < |Children(v)| ==> Portable(Children(v)[i])
  {
    if v.Array? {
      PortableItemsExactly(v.items);
      assert Portable(v) <==> PortableItems(v.items);
      assert Children(v) == v.items;
      hide Portable, PortableItems;
    } else if v.Object? {
      PortableMembersExactly(v.members);
      assert Portable(v) <==> PortableMembers(v.members);
      ObjectChildren(v.members);
      hide Portable, PortableMembers;
      assert forall i :: 0 <= i < |v.members| ==> Children(v)[i] == v.members[i].value;
    }
  }

  lemma ObjectChildren(members: seq<Member>)
    ensures |Children(Object(members))| == |members|
    ensures forall i :: 0 <= i < |members| ==> Children(Object(members))[i] == members[i].value
  {}

  lemma ChildIsSmaller(v: Value, i: nat)
    requires i < |Children(v)|
    ensures Children(v)[i] < v
  {}

  /** A value is portable exactly when every number in it, at every depth, is safe. */
  lemma {:induction false} PortableExactly(v: Value)
    ensures Portable(v) <==> SafeEverywhere(v)
    decreases v
  {
    PortableParts(v);
    SafeParts(v);
    hide Portable, SafeEverywhere, SafeNumber;
    forall i | 0 <= i < |Children(v)| ensures Portable(Children(v)[i]) <==> SafeEverywhere(Children(v)[i]) {
      ChildIsSmaller(v, i);
      PortableExactly(Children(v)[i]);
    }
  }

  /** The limits of the value at one place. */
  predicate PlaceWithin(v: Value) {
    match v
    case Array(items) => |items| <= 1_024
    case Object(members) => |members| <= 1_024 && forall i :: 0 <= i < |members| ==> |members[i].key| <= 256
    case String(s) => |s| <= 65_536
    case _ => true
  }

  ghost predicate WithinEverywhere(v: Value, room: int) {
    forall path :: Lookup(v, path).Some? ==> |path| <= room && PlaceWithin(Lookup(v, path).value)
  }

  lemma WithinParts(v: Value, room: int)
    ensures WithinEverywhere(v, room)
            <==> room >= 0 && PlaceWithin(v)
                 && forall i :: 0 <= i < |Children(v)| ==> WithinEverywhere(Children(v)[i], room - 1)
  {
    hide PlaceWithin, Lookup;
    LookupHere(v);
    if WithinEverywhere(v, room) {
      var here: seq<nat> := [];
      assert Lookup(v, here).Some? && |here| == 0;
      forall i, path | 0 <= i < |Children(v)| && Lookup(Children(v)[i], path).Some?
        ensures |path| <= room - 1 && PlaceWithin(Lookup(Children(v)[i], path).value)
      {
        LookupBelow(v, i, path);
        assert Lookup(v, [i] + path).Some?;
      }
    }
    if room >= 0 && PlaceWithin(v) && forall i :: 0 <= i < |Children(v)| ==> WithinEverywhere(Children(v)[i], room - 1) {
      forall path | Lookup(v, path).Some? ensures |path| <= room && PlaceWithin(Lookup(v, path).value) {
        if path != [] {
          assert path == [path[0]] + path[1..];
          LookupBelow(v, path[0], path[1..]);
          assert WithinEverywhere(Children(v)[path[0]], room - 1);
        }
      }
    }
  }

  lemma {:induction false} ItemsWithinExactly(items: seq<Value>, room: int)
    ensures ItemsDepthWithin(items, room) && ItemsSizesWithin(items)
            <==> forall i :: 0 <= i < |items| ==> DepthWithin(items[i], room) && SizesWithin(items[i])
  {
    if items != [] {
      ItemsWithinExactly(items[1..], room);
      assert forall i :: 1 <= i < |items| ==> items[i] == items[1..][i - 1];
    }
  }

  lemma {:induction false} MembersWithinExactly(members: seq<Member>, room: int)
    ensures MembersDepthWithin(members, room) && MembersSizesWithin(members)
            <==> forall i :: 0 <= i < |members| ==> DepthWithin(members[i].value, room) && SizesWithin(members[i].value)
  {
    if members != [] {
      MembersWithinExactly(members[1..], room);
      assert forall i :: 1 <= i < |members| ==> members[i] == members[1..][i - 1];
    }
  }

  lemma DepthAndSizesParts(v: Value, room: int)
    ensures DepthWithin(v, room) && SizesWithin(v)
            <==> room >= 0 && PlaceWithin(v)
                 && forall i :: 0 <= i < |Children(v)| ==> DepthWithin(Children(v)[i], room - 1) && SizesWithin(Children(v)[i])
  {
    if v.Array? {
      ItemsWithinExactly(v.items, room - 1);
      assert DepthWithin(v, room) <==> room >= 0 && ItemsDepthWithin(v.items, room - 1);
      assert SizesWithin(v) <==> |v.items| <= 1_024 && ItemsSizesWithin(v.items);
      assert Children(v) == v.items;
      hide DepthWithin, SizesWithin, ItemsDepthWithin, ItemsSizesWithin;
    } else if v.Object? {
      MembersWithinExactly(v.members, room - 1);
      assert DepthWithin(v, room) <==> room >= 0 && MembersDepthWithin(v.members, room - 1);
      assert SizesWithin(v) <==> |v.members| <= 1_024 && KeysWithin(v.members) && MembersSizesWithin(v.members);
      ObjectChildren(v.members);
      hide DepthWithin, SizesWithin, MembersDepthWithin, MembersSizesWithin;
      assert forall i :: 0 <= i < |v.members| ==> Children(v)[i] == v.members[i].value;
    }
  }

  lemma {:induction false} DepthAndSizesExactly(v: Value, room: int)
    ensures DepthWithin(v, room) && SizesWithin(v) <==> WithinEverywhere(v, room)
    decreases v
  {
    DepthAndSizesParts(v, room);
    WithinParts(v, room);
    hide DepthWithin, SizesWithin, WithinEverywhere, PlaceWithin;
    forall i | 0 <= i < |Children(v)|
      ensures DepthWithin(Children(v)[i], room - 1) && SizesWithin(Children(v)[i]) <==> WithinEverywhere(Children(v)[i], room - 1)
    {
      ChildIsSmaller(v, i);
      DepthAndSizesExactly(Children(v)[i], room - 1);
    }
  }

  /** Metadata is within bounds exactly when it has at most 16384 nodes, none deeper than 32, each within
    its own limits, every number safe, and at most 65536 bytes of text. */
  lemma WithinBoundsExactly(v: Value)
    ensures WithinWireBounds(v)
            <==> Nodes(v) <= 16_384 && WithinEverywhere(v, 32) && SafeEverywhere(v) && Utf8Bytes(Text(v)) <= 65_536
  {
    hide Nodes, DepthWithin, SizesWithin, WithinEverywhere, SafeEverywhere, Portable, Text;
    DepthAndSizesExactly(v, 32);
    PortableExactly(v);
  }

  // ---- Encoded size ----

  /** The marker takes twelve bytes with its quotes. */
  const MARKER_BYTES: int := 12

  /** How much longer the encoding gets, read off the value before redaction. */
  function Growth(v: Value): int
    decreases v, 1
  {
    match v
    case Array(items) => ItemsGrowth(items)
    case Object(members) => MembersGrowth(members)
    case _ => 0
  }

  function ItemsGrowth(items: seq<Value>): int
    decreases items, 0
  {
    if items == [] then 0 else Growth(items[0]) + ItemsGrowth(items[1..])
  }

  function MemberGrowth(m: Member): int
    decreases m, 0
  {
    if IsSensitiveKey(m.key) then MARKER_BYTES - EncodedBytes(m.value) else Growth(m.value)
  }

  function MembersGrowth(members: seq<Member>): int
    decreases members, 0
  {
    if members == [] then 0 else MemberGrowth(members[0]) + MembersGrowth(members[1..])
  }

  /** How many values redaction replaces. */
  function Replaced(v: Value): nat
    decreases v, 1
  {
    match v
    case Array(items) => ItemsReplaced(items)
    case Object(members) => MembersReplaced(members)
    case _ => 0
  }

  function ItemsReplaced(items: seq<Value>): nat
    decreases items, 0
  {
    if items == [] then 0 else Replaced(items[0]) + ItemsReplaced(items[1..])
  }

  function MembersReplaced(members: seq<Member>): nat
    decreases members, 0
  {
    if members == [] then 0
    else (if IsSensitiveKey(members[0].key) then 1 else Replaced(members[0].value)) + MembersReplaced(members[1..])
  }

  lemma TextNotEmpty(v: Value)
    ensures EncodedBytes(v) >= 1
  {
    assert Text(v) != [];
  }

  lemma MarkerBytes(marker: string)
    requires marker == REDACTED
    ensures EncodedBytes(String(marker)) == MARKER_BYTES
  {
    assert |marker| == 10;
    PlainQuoted(marker);
  }

  lemma {:induction false} RedactedBytes(v: Value)
    ensures EncodedBytes(Redact(v)) == EncodedBytes(v) + Growth(v)
    decreases v, 1
  {
    match v
    case Array(items) =>
      RedactedItemsBytes(items);
      WrappedBytes("[", ItemsText(items), "]");
      WrappedBytes("[", ItemsText(RedactItems(items)), "]");
    case Object(members) =>
      RedactedMembersBytes(members);
      WrappedBytes("{", MembersText(members), "}");
      WrappedBytes("{", MembersText(RedactMembers(members)), "}");
    case _ =>
  }

  lemma WrappedBytes(open: string, s: string, close: string)
    ensures Utf8Bytes(open + s + close) == Utf8Bytes(open) + Utf8Bytes(s) + Utf8Bytes(close)
  {
    Utf8Concat(open, s);
    Utf8Concat(open + s, close);
  }

  lemma {:induction false} RedactedItemsBytes(items: seq<Value>)
    ensures Utf8Bytes(ItemsText(RedactItems(items))) == Utf8Bytes(ItemsText(items)) + ItemsGrowth(items)
    decreases items, 0
  {
    if items != [] {
      var redacted := RedactItems(items);
      RedactedBytes(items[0]);
      RedactedItemsBytes(items[1..]);
      assert redacted[0] == Redact(items[0]) && redacted[1..] == RedactItems(items[1..]);
      ItemsBytes(items);
      ItemsBytes(redacted);
    }
  }

  lemma ItemsBytes(items: seq<Value>)
    requires items != []
    ensures Utf8Bytes(ItemsText(items))
            == EncodedBytes(items[0]) + (if |items| == 1 then 0 else 1) + Utf8Bytes(ItemsText(items[1..]))
  {
    if |items| == 1 {
      Utf8Concat(Text(items[0]), "");
      assert ItemsText(items[1..]) == "";
    } else {
      Utf8Concat(Text(items[0]), "," + ItemsText(items[1..]));
      Utf8Concat(",", ItemsText(items[1..]));
      assert Utf8Bytes(",") == 1;
    }
  }

  lemma MembersBytes(members: seq<Member>)
    requires members != []
    ensures Utf8Bytes(MembersText(members))
            == Utf8Bytes(MemberText(members[0])) + (if |members| == 1 then 0 else 1) + Utf8Bytes(MembersText(members[1..]))
  {
    if |members| == 1 {
      Utf8Concat(MemberText(members[0]), "");
      assert MembersText(members[1..]) == "";
    } else {
      Utf8Concat(MemberText(members[0]), "," + MembersText(members[1..]));
      Utf8Concat(",", MembersText(members[1..]));
      assert Utf8Bytes(",") == 1;
    }
  }

  lemma {:induction false} RedactedMemberBytes(m: Member)
    ensures Utf8Bytes(MemberText(RedactMember(m))) == Utf8Bytes(MemberText(m)) + MemberGrowth(m)
    decreases m, 0
  {
    var r := RedactMember(m);
    Utf8Concat(QuoteText(m.key) + ":", Text(m.value));
    Utf8Concat(QuoteText(m.key) + ":", Text(r.value));
    if IsSensitiveKey(m.key) {
      MarkerBytes(REDACTED);
    } else {
      RedactedBytes(m.value);
    }
  }

  lemma {:induction false} RedactedMembersBytes(members: seq<Member>)
    ensures Utf8Bytes(MembersText(RedactMembers(members))) == Utf8Bytes(MembersText(members)) + MembersGrowth(members)
    decreases members, 0
  {
    if members != [] {
      var redacted := RedactMembers(members);
      RedactedMemberBytes(members[0]);
      RedactedMembersBytes(members[1..]);
      assert redacted[0] == RedactMember(members[0]) && redacted[1..] == RedactMembers(members[1..]);
      MembersBytes(members);
      MembersBytes(redacted);
    }
  }

  lemma {:induction false} GrowthBound(v: Value)
    ensures Growth(v) <= 11 * Replaced(v)
    decreases v, 1
  {
    match v
    case Array(items) => ItemsGrowthBound(items);
    case Object(members) => MembersGrowthBound(members);
    case _ =>
  }

  lemma {:induction false} ItemsGrowthBound(items: seq<Value>)
    ensures ItemsGrowth(items) <= 11 * ItemsReplaced(items)
    decreases items, 0
  {
    if items != [] {
      GrowthBound(items[0]);
      ItemsGrowthBound(items[1..]);
    }
  }

  lemma {:induction false} MembersGrowthBound(members: seq<Member>)
    ensures MembersGrowth(members) <= 11 * MembersReplaced(members)
    decreases members, 0
  {
    if members != [] {
      assert members[0].value < members[0];
      TextNotEmpty(members[0].value);
      GrowthBound(members[0].value);
      MembersGrowthBound(members[1..]);
    }
  }

  /** Redaction lengthens the encoding by at most eleven bytes for each value it replaces. */
  lemma RedactionLengthensAtMost(v: Value)
    ensures EncodedBytes(Redact(v)) <= EncodedBytes(v) + 11 * Replaced(v)
  {
    RedactedBytes(v);
    GrowthBound(v);
  }

  /** Metadata that was within bounds before redaction is within bounds after it exactly when its
    own encoding leaves room for the growth. */
  lemma RedactedWithinBounds(v: Value)
    requires WithinWireBounds(v)
    ensures WithinWireBounds(Redact(v)) <==> EncodedBytes(v) + Growth(v) <= MAX_METADATA_BYTES
  {
    RedactWithin(v, MAX_DEPTH);
    RedactedBytes(v);
  }

  // ---- The gap ----

  /** A long text and a one-digit secret. */
  function OneSecret(blob: string): Value {
    Object([Member("blob", String(blob)), Member("token", Number(1))])
  }

  lemma MemberBytes(key: string, v: Value)
    requires Plain(key)
    ensures Utf8Bytes(MemberText(Member(key, v))) == |key| + 3 + EncodedBytes(v)
  {
    PlainQuoted(key);
    WrappedBytes(QuoteText(key), ":", Text(v));
    PlainBytes(":");
  }

  lemma DigitBytes()
    ensures EncodedBytes(Number(1)) == 1
  {
    assert Text(Number(1)) == "1";
    PlainBytes("1");
  }

  lemma TwoMembersBytes(a: Member, b: Member)
    ensures EncodedBytes(Object([a, b])) == Utf8Bytes(MemberText(a)) + Utf8Bytes(MemberText(b)) + 3
  {
    assert [a, b][1..] == [b] && [b][1..] == [];
    assert Utf8Bytes(MembersText([])) == 0;
    MembersBytes([a, b]);
    MembersBytes([b]);
    WrappedBytes("{", MembersText([a, b]), "}");
    PlainBytes("{");
    PlainBytes("}");
  }

  lemma TwoMembersGrowth(a: Member, b: Member)
    ensures Growth(Object([a, b])) == MemberGrowth(a) + MemberGrowth(b)
  {
    assert [a, b][1..] == [b] && [b][1..] == [];
    assert MembersGrowth([]) == 0;
    assert MembersGrowth([b]) == MemberGrowth(b);
  }

  predicate Scalar(v: Value) { !v.Array? && !v.Object? }

  lemma TwoScalarsShape(a: Member, b: Member)
    requires Scalar(a.value) && Scalar(b.value)
    ensures Nodes(Object([a, b])) == 3 && DepthWithin(Object([a, b]), 32)
  {
    var ms, tail := [a, b], [b];
    var none := tail[1..];
    assert ms[1..] == tail && tail[1..] == none && none == [];
    assert Nodes(a.value) == 1 && Nodes(b.value) == 1;
    assert MembersNodes(none) == 0 && MembersNodes(tail) == 1 && MembersNodes(ms) == 2;
    assert DepthWithin(a.value, 31) && DepthWithin(b.value, 31);
    assert MembersDepthWithin(none, 31) && MembersDepthWithin(tail, 31) && MembersDepthWithin(ms, 31);
  }

  lemma TwoScalarsWithin(a: Member, b: Member)
    requires Scalar(a.value) && Scalar(b.value)
    requires SizesWithin(a.value) && SizesWithin(b.value) && KeysWithin([a, b])
    requires Portable(a.value) && Portable(b.value)
    ensures StructureWithin(Object([a, b])) && Portable(Object([a, b]))
  {
    TwoScalarsShape(a, b);
    var ms, tail := [a, b], [b];
    var none := tail[1..];
    assert ms[1..] == tail && tail[1..] == none && none == [];
    hide Nodes, DepthWithin;
    assert MembersSizesWithin(none) && MembersSizesWithin(tail) && MembersSizesWithin(ms);
    assert PortableMembers(none) && PortableMembers(tail) && PortableMembers(ms);
  }

  lemma OneSecretBytes(blob: string)
    requires Plain(blob)
    ensures EncodedBytes(OneSecret(blob)) == |blob| + 21
  {
    PlainQuoted(blob);
    MemberBytes("blob", String(blob));
    MemberBytes("token", Number(1));
    DigitBytes();
    TwoMembersBytes(Member("blob", String(blob)), Member("token", Number(1)));
  }

  lemma {:induction false} NormalizeLowerCase(key: string)
    requires forall i :: 0 <= i < |key| ==> 'a' <= key[i] <= 'z'
    ensures Normalize(key) == key
  {
    if key != [] {
      NormalizeLowerCase(key[1..]);
      assert key == [key[0]] + key[1..];
    }
  }

  lemma {:induction false} TooShortToContain(s: string, needle: string)
    requires |s| < |needle|
    ensures !Contains(s, needle)
  {
    if s != [] {
      TooShortToContain(s[1..], needle);
    }
  }

  lemma KeysOfOneSecret()
    ensures IsSensitiveKey("token") && !IsSensitiveKey("blob")
  {
    NormalizeLowerCase("token");
    NormalizeLowerCase("blob");
    assert Contains("token", "token");
    hide Contains, Normalize;
    forall needle: string | |needle| > 4 ensures !Contains("blob", needle) {
      TooShortToContain("blob", needle);
    }
  }

  lemma OneSecretGrowth(blob: string)
    ensures Growth(OneSecret(blob)) == 11
  {
    KeysOfOneSecret();
    DigitBytes();
    TwoMembersGrowth(Member("blob", String(blob)), Member("token", Number(1)));
  }

  /** The size check comes before redaction, so metadata that is accepted can grow past the limit
    that is checked again when the event is read. */
  lemma AcceptedMetadataMayOutgrowTheLimit(blob: string)
    requires Plain(blob)
    ensures 65_504 < |blob| <= 65_515 ==> WithinWireBounds(OneSecret(blob)) && !WithinWireBounds(Redact(OneSecret(blob)))
  {
    if 65_504 < |blob| <= 65_515 {
      TwoScalarsWithin(Member("blob", String(blob)), Member("token", Number(1)));
      OneSecretBytes(blob);
      OneSecretGrowth(blob);
      RedactedWithinBounds(OneSecret(blob));
    }
  }
}

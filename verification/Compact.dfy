/** The text written for a value is the shortest there is: whatever JSON text reads as the value
  takes at least as many bytes. */
module Compact {
  import opened Wrappers
  import opened Decimal
  import opened Utf8
  import opened Json
  import opened JsonText

  lemma Cut(s: string, k: nat)
    requires k <= |s|
    ensures Utf8Bytes(s) == Utf8Bytes(s[..k]) + Utf8Bytes(s[k..])
  {
    assert s == s[..k] + s[k..];
    Utf8Concat(s[..k], s[k..]);
  }

  lemma {:induction false} AtLeastLength(s: string)
    ensures Utf8Bytes(s) >= |s|
  {
    if s != [] { AtLeastLength(s[1..]); }
  }

  lemma {:induction false} TrimShortens(s: string)
    ensures Utf8Bytes(Trim(s)) <= Utf8Bytes(s)
  {
    if s != [] && IsSpace(s[0]) { TrimShortens(s[1..]); }
  }

  lemma EscapeBytes(c: char)
    ensures Utf8Bytes(EscapeChar(c)) <= 6
    ensures c >= ' ' && c != '"' && c != '\\' ==> Utf8Bytes(EscapeChar(c)) == Utf8Len(c)
    ensures c in "\"\\/\t\n\r" || c == 8 as char || c == 12 as char ==> Utf8Bytes(EscapeChar(c)) <= 2
  {
    var e := EscapeChar(c);
    if |e| == 1 {
      assert e[1..] == "";
    } else {
      AllOne(e);
    }
  }

  lemma {:induction false} AllOne(s: string)
    requires forall i :: 0 <= i < |s| ==> Utf8Len(s[i]) == 1
    ensures Utf8Bytes(s) == |s|
  {
    if s != [] { AllOne(s[1..]); }
  }

  /** No escape that reads as a character is shorter than the one written. */
  lemma EscapeIsShortest(s: string, c: char, n: nat)
    requires ReadEscape(s) == Some((c, n))
    ensures Utf8Bytes(EscapeChar(c)) <= 1 + n
  {
    EscapeBytes(c);
  }

  lemma {:induction false} CharsAreShortest(s: string, text: string, rest: string)
    requires ReadChars(s) == Some((text, rest))
    ensures Utf8Bytes(EscapeText(text)) + 1 + Utf8Bytes(rest) <= Utf8Bytes(s)
    decreases |s|
  {
    if s[0] == '"' {
      assert text == "";
    } else {
      var c := text[0];
      Utf8Concat(EscapeChar(c), EscapeText(text[1..]));
      if s[0] == '\\' {
        var n := ReadEscape(s[1..]).value.1;
        EscapeIsShortest(s[1..], c, n);
        AtLeastLength(s[1..][..n]);
        Cut(s[1..], n);
        CharsAreShortest(s[1..][n..], text[1..], rest);
      } else {
        EscapeBytes(c);
        CharsAreShortest(s[1..], text[1..], rest);
      }
    }
  }

  lemma QuotedBytes(s: string)
    ensures Utf8Bytes(QuoteText(s)) == Utf8Bytes(EscapeText(s)) + 2
  {
    Utf8Concat("\"" + EscapeText(s), "\"");
    Utf8Concat("\"", EscapeText(s));
    assert "\""[1..] == "";
  }

  lemma {:induction false} ShortestDigits(n: nat, k: nat)
    requires k > 0 && n < Pow10(k)
    ensures |NatText(n)| <= k
  {
    if n >= 10 { ShortestDigits(n / 10, k - 1); }
  }

  lemma NaturalIsShortest(s: string, m: int, rest: string)
    requires ReadNatural(s) == Some((m, rest))
    ensures Utf8Bytes(NatText(m)) + Utf8Bytes(rest) <= Utf8Bytes(s)
  {
    var k := DigitRun(s);
    ShortestDigits(m, k);
    AllOne(NatText(m));
    AtLeastLength(s[..k]);
    Cut(s, k);
  }

  lemma IntegerIsShortest(s: string, v: Value, rest: string)
    requires ReadInteger(s) == Some((v, rest))
    ensures EncodedBytes(v) + Utf8Bytes(rest) <= Utf8Bytes(s)
  {
    hide ReadNatural, NatText;
    var negative := s != [] && s[0] == '-';
    var digits := if negative then s[1..] else s;
    var m := ReadNatural(digits).value.0;
    NaturalIsShortest(digits, m, rest);
    Utf8Concat("-", NatText(m));
    assert "-"[1..] == "";
    assert Text(v) == if negative then "-" + NatText(m) else NatText(m);
  }

  lemma WordBytes(word: string, v: Value, s: string)
    requires word <= s && Text(v) == word
    ensures EncodedBytes(v) + Utf8Bytes(s[|word|..]) == Utf8Bytes(s)
  {
    Cut(s, |word|);
    assert s[..|word|] == word;
  }

  // ---- Repeated keys ----

  /** The bytes of the members, each with one separator. */
  function Weight(members: seq<Member>): nat {
    if members == [] then 0 else Utf8Bytes(MemberText(members[0])) + 1 + Weight(members[1..])
  }

  lemma {:induction false} WeightIsBytes(members: seq<Member>)
    requires members != []
    ensures Utf8Bytes(MembersText(members)) + 1 == Weight(members)
  {
    var first := MemberText(members[0]);
    if |members| == 1 {
      assert first + "" == first;
    } else {
      WeightIsBytes(members[1..]);
      Utf8Concat(first, "," + MembersText(members[1..]));
      Utf8Concat(",", MembersText(members[1..]));
      assert ","[1..] == "";
    }
  }

  lemma {:induction false} WeightLast(members: seq<Member>, m: Member)
    ensures Weight(members + [m]) == Weight(members) + Weight([m])
  {
    if members == [] {
      assert members + [m] == [m];
    } else {
      assert (members + [m])[1..] == members[1..] + [m];
      WeightLast(members[1..], m);
    }
  }

  lemma {:induction false} InsertWeight(members: seq<Member>, m: Member)
    ensures Insert(members, m) != [] && Weight(Insert(members, m)) <= Weight(members) + Weight([m])
  {
    if members != [] {
      if members[0].key == m.key {
        assert ([m] + members[1..])[1..] == members[1..];
      } else {
        InsertWeight(members[1..], m);
        assert Insert(members, m)[1..] == Insert(members[1..], m);
      }
    }
  }

  lemma {:induction false} EntriesWeight(entries: seq<Member>)
    ensures Weight(FromEntries(entries)) <= Weight(entries)
    ensures entries != [] ==> FromEntries(entries) != []
  {
    if entries != [] {
      var front, last := entries[..|entries| - 1], entries[|entries| - 1];
      EntriesWeight(front);
      InsertWeight(FromEntries(front), last);
      WeightLast(front, last);
      assert front + [last] == entries;
    }
  }

  // ---- Values ----

  lemma WordIsShortest(s: string, v: Value, rest: string)
    requires s != [] && s[0] in "ntf" && ReadValue(s, 0) == Some((v, rest))
    ensures EncodedBytes(v) + Utf8Bytes(rest) <= Utf8Bytes(s)
  {
    assert Trim(s) == s;
    if s[0] == 'n' {
      WordBytes("null", v, s);
    } else if s[0] == 't' {
      WordBytes("true", v, s);
    } else {
      WordBytes("false", v, s);
    }
  }

  lemma {:induction false} ValueIsShortest(text: string, room: nat, v: Value, rest: string)
    requires ReadValue(text, room) == Some((v, rest))
    ensures EncodedBytes(v) + Utf8Bytes(rest) <= Utf8Bytes(text)
    decreases |text|, 1
  {
    var s := Trim(text);
    TrimShortens(text);
    if s[0] in "ntf" {
      assert Trim(s) == s;
      WordIsShortest(s, v, rest);
    } else if s[0] == '"' {
      CharsAreShortest(s[1..], v.s, rest);
      QuotedBytes(v.s);
    } else if s[0] == '[' {
      ArrayIsShortest(text, room, v.items, rest);
    } else if s[0] == '{' {
      ObjectIsShortest(text, room, v.members, rest);
    } else {
      IntegerIsShortest(s, v, rest);
    }
  }

  lemma Bracketed(open: string, inner: string, close: string)
    requires |open| == 1 && |close| == 1 && Utf8Len(open[0]) == 1 && Utf8Len(close[0]) == 1
    ensures Utf8Bytes(open + inner + close) == Utf8Bytes(inner) + 2
  {
    Utf8Concat(open + inner, close);
    Utf8Concat(open, inner);
    assert open[1..] == "" && close[1..] == "";
  }

  lemma {:induction false} ArrayIsShortest(text: string, room: nat, items: seq<Value>, rest: string)
    requires ReadValue(text, room) == Some((Array(items), rest))
    ensures EncodedBytes(Array(items)) + Utf8Bytes(rest) <= Utf8Bytes(text)
    decreases |text|, 0
  {
    var s := Trim(text);
    TrimShortens(text);
    Bracketed("[", ItemsText(items), "]");
    var t := Trim(s[1..]);
    TrimShortens(s[1..]);
    if items != [] {
      ItemsAreShortest(t, room - 1, items, rest);
    }
  }

  lemma {:induction false} ObjectIsShortest(text: string, room: nat, members: seq<Member>, rest: string)
    requires ReadValue(text, room) == Some((Object(members), rest))
    ensures EncodedBytes(Object(members)) + Utf8Bytes(rest) <= Utf8Bytes(text)
    decreases |text|, 0
  {
    var s := Trim(text);
    TrimShortens(text);
    Bracketed("{", MembersText(members), "}");
    var t := Trim(s[1..]);
    TrimShortens(s[1..]);
    if members != [] {
      var entries := ReadMembers(t, room - 1).value.0;
      MembersAreShortest(t, room - 1, entries, rest);
      EntriesWeight(entries);
      WeightIsBytes(entries);
      WeightIsBytes(members);
    }
  }

  lemma {:induction false} ItemsAreShortest(text: string, room: nat, items: seq<Value>, rest: string)
    requires ReadItems(text, room) == Some((items, rest))
    ensures items != [] && Utf8Bytes(ItemsText(items)) + 1 + Utf8Bytes(rest) <= Utf8Bytes(text)
    decreases |text|, 2
  {
    var (v, after) := ReadValue(text, room).value;
    ValueIsShortest(text, room, v, after);
    TrimShortens(after);
    var s := Trim(after);
    if s[0] == ',' {
      var more := ReadItems(s[1..], room).value.0;
      ItemsAreShortest(s[1..], room, more, rest);
      assert items[1..] == more;
      Utf8Concat(Text(v), "," + ItemsText(more));
      Utf8Concat(",", ItemsText(more));
      assert ","[1..] == "";
    } else {
      assert Text(v) + "" == Text(v);
    }
  }

  lemma {:induction false} MembersAreShortest(text: string, room: nat, entries: seq<Member>, rest: string)
    requires ReadMembers(text, room) == Some((entries, rest))
    ensures entries != [] && Utf8Bytes(MembersText(entries)) + 1 + Utf8Bytes(rest) <= Utf8Bytes(text)
    decreases |text|, 2
  {
    var (m, after) := ReadMember(text, room).value;
    MemberIsShortest(text, room, m, after);
    TrimShortens(after);
    var s := Trim(after);
    if s[0] == ',' {
      var more := ReadMembers(s[1..], room).value.0;
      MembersAreShortest(s[1..], room, more, rest);
      assert entries[1..] == more;
      Utf8Concat(MemberText(m), "," + MembersText(more));
      Utf8Concat(",", MembersText(more));
      assert ","[1..] == "";
    } else {
      assert MemberText(m) + "" == MemberText(m);
    }
  }

  lemma {:induction false} MemberIsShortest(text: string, room: nat, m: Member, rest: string)
    requires ReadMember(text, room) == Some((m, rest))
    ensures Utf8Bytes(MemberText(m)) + Utf8Bytes(rest) <= Utf8Bytes(text)
    decreases |text|, 0
  {
    var s := Trim(text);
    TrimShortens(text);
    var afterKey := ReadChars(s[1..]).value.1;
    CharsAreShortest(s[1..], m.key, afterKey);
    var t := Trim(afterKey);
    TrimShortens(afterKey);
    ValueIsShortest(t[1..], room, m.value, rest);
    QuotedBytes(m.key);
    Utf8Concat(QuoteText(m.key) + ":", Text(m.value));
    Utf8Concat(QuoteText(m.key), ":");
    assert ":"[1..] == "";
  }

  /** Writing back what was read never takes more bytes, whatever the layout, the escapes, the
    leading white space or the repeated keys of the text. */
  lemma TextIsShortest(text: string, room: nat)
    requires ParseJson(text, room).Some?
    ensures EncodedBytes(ParseJson(text, room).value) <= Utf8Bytes(text)
  {
    var (v, rest) := ReadValue(text, room).value;
    ValueIsShortest(text, room, v, rest);
  }

  /** The compact text reads as its value, and no text that reads as the value is shorter. */
  lemma CompactText(v: Value, text: string, room: nat)
    requires Canonical(v) && Nesting(v) <= room
    ensures ParseJson(Text(v), room) == Some(v)
    ensures ParseJson(text, room) == Some(v) ==> Utf8Bytes(Text(v)) <= Utf8Bytes(text)
  {
    TextRoundTrip(v, room);
    if ParseJson(text, room) == Some(v) {
      TextIsShortest(text, room);
    }
  }
}

/** The normalisation of catalog SQL before it is compared: spacing, parentheses and double quotes
  disappear outside string literals. */
module NormalizeSql {

  const QUOTE: char := '\''

  /** ASCII white space, parentheses and double quotes. */
  predicate Skipped(c: char) {
    c == ' ' || c == '\t' || c == '\n' || c == '\r' || c == 12 as char || c == '(' || c == ')' || c == '"'
  }

  function Quotes(s: string): nat {
    if s == [] then 0 else (if s[0] == QUOTE then 1 else 0) + Quotes(s[1..])
  }

  predicate Inside(s: string) { Quotes(s) % 2 == 1 }

  /** A character stays when it is a quote, when an odd number of quotes precede it, or when it is
    nothing that is skipped. */
  predicate Stays(s: string, i: nat)
    requires i < |s|
  {
    s[i] == QUOTE || Inside(s[..i]) || !Skipped(s[i])
  }

  /** The characters that stay among the first n. */
  function Staying(s: string, n: nat): string
    requires n <= |s|
  {
    if n == 0 then [] else Staying(s, n - 1) + if Stays(s, n - 1) then [s[n - 1]] else []
  }

  function Normal(s: string): string { Staying(s, |s|) }

  lemma {:induction false} QuotesConcat(a: string, b: string)
    ensures Quotes(a + b) == Quotes(a) + Quotes(b)
  {
    if a == [] {
      assert a + b == b;
    } else {
      assert (a + b)[1..] == a[1..] + b && (a + b)[0] == a[0];
      QuotesConcat(a[1..], b);
    }
  }

  lemma NextQuotes(s: string, i: nat)
    requires i < |s|
    ensures Quotes(s[..i + 1]) == Quotes(s[..i]) + if s[i] == QUOTE then 1 else 0
  {
    assert s[..i + 1] == s[..i] + [s[i]];
    QuotesConcat(s[..i], [s[i]]);
    assert [s[i]][1..] == [];
  }

  /** The scanner: one pass, looking one character ahead for a doubled quote. */
  method Normalize(value: string) returns (normalized: string)
    ensures normalized == Normal(value)
  {
    hide Skipped, Quotes;
    normalized := [];
    var i := 0;
    var inQuotedLiteral := false;
    assert Quotes(value[..0]) == 0 by { NoQuotes(); assert value[..0] == []; }
    while i < |value|
      invariant 0 <= i <= |value|
      invariant normalized == Staying(value, i)
      invariant inQuotedLiteral <==> Inside(value[..i])
    {
      var character := value[i];
      NextQuotes(value, i);
      i := i + 1;
      if inQuotedLiteral {
        normalized := normalized + [character];
        if character == QUOTE {
          if i < |value| && value[i] == QUOTE {
            NextQuotes(value, i);
            normalized := normalized + [value[i]];
            i := i + 1;
          } else {
            inQuotedLiteral := false;
          }
        }
      } else if character == QUOTE {
        inQuotedLiteral := true;
        normalized := normalized + [character];
      } else if !Skipped(character) {
        normalized := normalized + [character];
      }
    }
  }

  lemma NoQuotes()
    ensures Quotes([]) == 0
  {}

  // ---- The same filter, from the front ----

  /** What stays of a text that begins inside or outside a literal. */
  function Kept(s: string, inside: bool): string {
    if s == [] then []
    else
      (if s[0] == QUOTE || inside || !Skipped(s[0]) then [s[0]] else [])
      + Kept(s[1..], if s[0] == QUOTE then !inside else inside)
  }

  lemma {:induction false} KeptConcat(a: string, b: string, inside: bool)
    ensures Kept(a + b, inside) == Kept(a, inside) + Kept(b, if Inside(a) then !inside else inside)
  {
    hide Skipped;
    if a == [] {
      assert a + b == b;
    } else {
      hide Kept, Inside;
      assert (a + b)[1..] == a[1..] + b && (a + b)[0] == a[0];
      KeptConcat(a[1..], b, if a[0] == QUOTE then !inside else inside);
      KeptStep(a, inside);
      KeptStep(a + b, inside);
      InsideStep(a);
    }
  }

  lemma InsideStep(s: string)
    requires s != []
    ensures Inside(s) <==> (s[0] == QUOTE) != Inside(s[1..])
  {}

  lemma KeptStep(s: string, inside: bool)
    requires s != []
    ensures Kept(s, inside)
            == (if s[0] == QUOTE || inside || !Skipped(s[0]) then [s[0]] else [])
               + Kept(s[1..], if s[0] == QUOTE then !inside else inside)
  {}

  lemma {:induction false} StayingIsKept(s: string, n: nat)
    requires n <= |s|
    ensures Staying(s, n) == Kept(s[..n], false)
  {
    if n > 0 {
      StayingIsKept(s, n - 1);
      var c := s[n - 1];
      assert s[..n] == s[..n - 1] + [c];
      KeptConcat(s[..n - 1], [c], false);
      KeptStep([c], Inside(s[..n - 1]));
      assert [c][1..] == [] && Kept([], !Inside(s[..n - 1])) == [] && Kept([], Inside(s[..n - 1])) == [];
    }
  }

  lemma NormalIsKept(s: string)
    ensures Normal(s) == Kept(s, false)
  {
    StayingIsKept(s, |s|);
    assert s[..|s|] == s;
  }

  // ---- Laws ----

  /** The layout of SQL text, character by character: tab, line feed, form feed, carriage return, space,
    double quote, and the two parentheses. */
  lemma SkippedExactly(c: char)
    ensures Skipped(c) <==> c as int in {9, 10, 12, 13, 32, 34, 40, 41}
  {}

  /** Which characters of a text stay: those with an odd number of quotes before them, and among the
    others all but layout. A quote is no layout. */
  lemma StaysExactly(s: string, i: nat)
    requires i < |s|
    ensures Stays(s, i) <==> Quotes(s[..i]) % 2 == 1 || s[i] as int !in {9, 10, 12, 13, 32, 34, 40, 41}
  {
    hide Quotes;
    SkippedExactly(s[i]);
  }

  lemma {:induction false} KeptTwice(s: string, inside: bool)
    ensures Kept(Kept(s, inside), inside) == Kept(s, inside)
  {
    if s != [] {
      var next := if s[0] == QUOTE then !inside else inside;
      var rest := Kept(s[1..], next);
      KeptTwice(s[1..], next);
      if s[0] == QUOTE || inside || !Skipped(s[0]) {
        assert Kept(s, inside) == [s[0]] + rest;
        assert ([s[0]] + rest)[1..] == rest;
        KeptStep([s[0]] + rest, inside);
      } else {
        assert Kept(s, inside) == [] + rest == rest;
      }
    }
  }

  lemma NormalizeIdempotent(s: string)
    ensures Normal(Normal(s)) == Normal(s)
  {
    NormalIsKept(s);
    NormalIsKept(Normal(s));
    KeptTwice(s, false);
  }

  lemma {:induction false} OutsideStartsPlain(s: string)
    ensures Kept(s, false) != [] ==> !Skipped(Kept(s, false)[0])
  {
    if s != [] && s[0] != QUOTE && Skipped(s[0]) {
      OutsideStartsPlain(s[1..]);
      assert Kept(s, false) == Kept(s[1..], false);
    }
  }

  /** A text reads the same from inside and from outside a literal exactly when it has nothing to skip. */
  lemma {:induction false} SameInsideAndOutside(s: string)
    ensures Kept(s, true) == Kept(s, false) <==> forall c :: c in s ==> !Skipped(c)
  {
    if s != [] {
      var c, tail := s[0], s[1..];
      assert forall x :: x in s <==> x == c || x in tail by { assert s == [c] + tail; }
      if Skipped(c) {
        OutsideStartsPlain(tail);
        assert Kept(s, true) == [c] + Kept(tail, true);
        assert Kept(s, false) == Kept(tail, false);
        assert c in s;
      } else {
        SameInsideAndOutside(tail);
        var t, u := Kept(tail, true), Kept(tail, false);
        assert ([c] + t)[1..] == t && ([c] + u)[1..] == u;
        assert Kept(s, true) == [c] + (if c == QUOTE then u else t);
        assert Kept(s, false) == [c] + (if c == QUOTE then t else u);
      }
    }
  }

  /** Normalising distributes over a cut exactly when the cut is not inside a literal, or what
    follows the cut has nothing to skip. */
  lemma NormalizeDistributes(a: string, b: string)
    ensures Normal(a + b) == Normal(a) + Normal(b)
            <==> Quotes(a) % 2 == 0 || forall c :: c in b ==> c as int !in {9, 10, 12, 13, 32, 34, 40, 41}
  {
    forall c ensures Skipped(c) <==> c as int in {9, 10, 12, 13, 32, 34, 40, 41} {
      SkippedExactly(c);
    }
    hide Skipped;
    NormalIsKept(a);
    NormalIsKept(b);
    NormalIsKept(a + b);
    KeptConcat(a, b, false);
    SameInsideAndOutside(b);
    var head, t, u := Kept(a, false), Kept(b, true), Kept(b, false);
    assert (head + t)[|head|..] == t && (head + u)[|head|..] == u;
  }

  /** Skipped characters can be put anywhere outside literals without effect. */
  lemma LayoutDoesNotMatter(a: string, layout: string, b: string)
    requires Quotes(a) % 2 == 0 && forall c :: c in layout ==> c as int in {9, 10, 12, 13, 32, 34, 40, 41}
    ensures Normal(a + layout + b) == Normal(a + b)
  {
    forall c | c in layout ensures Skipped(c) {
      SkippedExactly(c);
    }
    NormalWithLayout(a, layout, b);
  }

  lemma NormalWithLayout(a: string, layout: string, b: string)
    requires !Inside(a) && forall c :: c in layout ==> Skipped(c)
    ensures Normal(a + layout + b) == Normal(a + b)
  {
    NormalIsKept(a + layout + b);
    NormalIsKept(a + b);
    KeptConcat(a + layout, b, false);
    KeptConcat(a, layout, false);
    KeptConcat(a, b, false);
    LayoutVanishes(layout);
    QuotesConcat(a, layout);
  }

  lemma {:induction false} LayoutVanishes(layout: string)
    requires forall c :: c in layout ==> Skipped(c)
    ensures Kept(layout, false) == [] && Quotes(layout) == 0
  {
    if layout != [] {
      assert layout[0] in layout;
      LayoutVanishes(layout[1..]);
    }
  }
}

/**
 HTML escaping of the text placed into a property row of the demo page.

 `escapeHtml` is one `String.replace` with the global character class
 `[&<>"']` and a lookup table that maps each matched character to its
 entity. Every other character is copied unchanged. Strings are modelled
 as `seq<char>`.
 */
module HtmlEscape {
  import opened SeqFacts

  /** The five characters the regular expression's character class matches. */
  predicate IsSpecial(c: char) {
    c == '&' || c == '<' || c == '>' || c == '"' || c == '\''
  }

  /** The characters that open or close markup or an attribute value. */
  predicate IsMarkup(c: char) {
    c == '<' || c == '>' || c == '"' || c == '\''
  }

  /** The lookup table of the replacement callback. */
  function Entity(c: char): (e: string)
    requires IsSpecial(c)
    ensures 4 <= |e| <= 6 && e[0] == '&' && e[|e| - 1] == ';'
    ensures forall i :: 0 < i < |e| ==> e[i] != '&'
    ensures forall i :: 0 <= i < |e| ==> !IsMarkup(e[i])
  {
    match c
    case '&' => "&amp;"
    case '<' => "&lt;"
    case '>' => "&gt;"
    case '"' => "&quot;"
    case '\'' => "&#39;"
  }

  /** What one character of the input becomes in the output. */
  function EscChar(c: char): (r: string)
    ensures 1 <= |r|
    ensures IsSpecial(c) <==> r[0] == '&'
    ensures !IsSpecial(c) ==> r == [c]
  {
    if IsSpecial(c) then Entity(c) else [c]
  }

  /** `escapeHtml`: every character replaced by its `EscChar`, left to right. */
  function Escape(s: string): string {
    if s == [] then [] else EscChar(s[0]) + Escape(s[1..])
  }

  predicate HasSpecial(s: string) {
    exists i :: 0 <= i < |s| && IsSpecial(s[i])
  }

  predicate MarkupFree(s: string) {
    forall i :: 0 <= i < |s| ==> !IsMarkup(s[i])
  }

  // ---------------------------------------------------------------------
  // A decoder for the five entities, an inverse of `Escape`, used to show
  // that escaping loses no information.
  // ---------------------------------------------------------------------

  datatype Decoded = Decoded(c: char, len: nat) | NoEntity

  /** Recognises one of the five entities at the start of `t`. */
  function DecodeEntity(t: string): (d: Decoded)
    ensures d.Decoded? ==> IsSpecial(d.c) && d.len == |Entity(d.c)| && Entity(d.c) <= t
    ensures d.NoEntity? ==> forall c :: IsSpecial(c) ==> !(Entity(c) <= t)
    ensures t == [] || t[0] != '&' ==> d.NoEntity?
  {
    if "&amp;" <= t then Decoded('&', 5)
    else if "&lt;" <= t then Decoded('<', 4)
    else if "&gt;" <= t then Decoded('>', 4)
    else if "&quot;" <= t then Decoded('"', 6)
    else if "&#39;" <= t then Decoded('\'', 5)
    else NoEntity
  }

  /** Replaces each of the five entities by its character; all else is copied. */
  function Unescape(t: string): (s: string)
    ensures |s| <= |t|
    decreases |t|
  {
    if t == [] then []
    else match DecodeEntity(t)
      case Decoded(c, n) => [c] + Unescape(t[n..])
      case NoEntity => [t[0]] + Unescape(t[1..])
  }

  /** The output of `escapeHtml` has this shape: no markup character, and every `&` opens an entity. */
  predicate WellEscaped(t: string) {
    && MarkupFree(t)
    && forall i :: 0 <= i < |t| && t[i] == '&' ==> DecodeEntity(t[i..]).Decoded?
  }

  // ---------------------------------------------------------------------
  // Lemmas
  // ---------------------------------------------------------------------

  lemma EscapeCons(c: char, s: string)
    ensures Escape([c] + s) == EscChar(c) + Escape(s)
  {
    ConsTail(c, s);
  }

  /** The global replacement works character by character, so it distributes over concatenation. */
  lemma {:induction false} EscapeConcat(a: string, b: string)
    ensures Escape(a + b) == Escape(a) + Escape(b)
  {
    if a == [] {
      ConcatEmpty(b);
    } else {
      ConcatTail(a, b);
      EscapeConcat(a[1..], b);
      Assoc(EscChar(a[0]), Escape(a[1..]), Escape(b));
    }
  }

  /** No `<`, `>`, `"` or `'` survives escaping. */
  lemma {:induction false} EscapeMarkupFree(s: string)
    ensures MarkupFree(Escape(s))
  {
    if s != [] {
      EscapeMarkupFree(s[1..]);
      var e, r := EscChar(s[0]), Escape(s[1..]);
      forall i | 0 <= i < |e + r| ensures !IsMarkup((e + r)[i]) {
        if i >= |e| { assert (e + r)[i] == r[i - |e|]; }
      }
    }
  }

  lemma DecodeEntityOfEntity(c: char, t: string)
    requires IsSpecial(c)
    ensures DecodeEntity(Entity(c) + t) == Decoded(c, |Entity(c)|)
  {
    var e := Entity(c);
    assert e <= e + t;
    if c != '&' {
      assert (e + t)[1] != 'a';
    }
  }

  /** Every `&` in the output begins one of the five entities. */
  lemma {:induction false} EscapeAmpersandsOpenEntities(s: string)
    ensures forall i :: 0 <= i < |Escape(s)| && Escape(s)[i] == '&' ==> DecodeEntity(Escape(s)[i..]).Decoded?
  {
    if s != [] {
      EscapeAmpersandsOpenEntities(s[1..]);
      var e, r := EscChar(s[0]), Escape(s[1..]);
      assert Escape(s) == e + r;
      forall i | 0 <= i < |e + r| && (e + r)[i] == '&' ensures DecodeEntity((e + r)[i..]).Decoded? {
        if i >= |e| {
          assert (e + r)[i] == r[i - |e|];
          assert (e + r)[i..] == r[i - |e|..];
        } else if i == 0 && IsSpecial(s[0]) {
          DecodeEntityOfEntity(s[0], r);
        }
      }
    }
  }

  /** The output of escaping is well formed. */
  lemma EscapeWellEscaped(s: string)
    ensures WellEscaped(Escape(s))
  {
    EscapeMarkupFree(s);
    EscapeAmpersandsOpenEntities(s);
  }

  /** Decoding the output gives back the input exactly. */
  lemma {:induction false} UnescapeEscape(s: string)
    ensures Unescape(Escape(s)) == s
  {
    if s != [] {
      var c, r := s[0], Escape(s[1..]);
      assert Escape(s) == EscChar(c) + r;
      UnescapeEscape(s[1..]);
      if IsSpecial(c) {
        DecodeEntityOfEntity(c, r);
        DropPrefix(Entity(c), r);
      } else {
        ConsTail(c, r);
      }
      HeadTail(s);
    }
  }

  /** Escaping is injective: two different strings never escape to the same text. */
  lemma EscapeInjective(a: string, b: string)
    ensures Escape(a) == Escape(b) <==> a == b
  {
    if Escape(a) == Escape(b) {
      UnescapeEscape(a);
      UnescapeEscape(b);
    }
  }

  lemma WellEscapedSuffix(t: string, n: nat)
    requires WellEscaped(t) && n <= |t|
    ensures WellEscaped(t[n..])
  {
    var u := t[n..];
    forall i | 0 <= i < |u| ensures !IsMarkup(u[i]) && (u[i] == '&' ==> DecodeEntity(u[i..]).Decoded?) {
      assert u[i] == t[n + i] && u[i..] == t[n + i..];
    }
  }

  /**
   The converse of EscapeWellEscaped: every well-formed text is the escaping
   of its decoding, so WellEscaped is exactly the set of possible outputs.
   */
  lemma {:induction false} WellEscapedIsEscaped(t: string)
    requires WellEscaped(t)
    ensures Escape(Unescape(t)) == t
    decreases |t|
  {
    if t != [] {
      match DecodeEntity(t)
      case Decoded(c, n) =>
        WellEscapedSuffix(t, n);
        WellEscapedIsEscaped(t[n..]);
        EscapeCons(c, Unescape(t[n..]));
        PrefixSplit(Entity(c), t);
      case NoEntity =>
        assert t[0] != '&' by {
          assert t[0..] == t;
        }
        assert !IsSpecial(t[0]) by {
          assert !IsMarkup(t[0]);
        }
        WellEscapedSuffix(t, 1);
        WellEscapedIsEscaped(t[1..]);
        EscapeCons(t[0], Unescape(t[1..]));
        HeadTail(t);
    }
  }

  /** The texts `escapeHtml` can produce are exactly the well-formed ones. */
  lemma EscapeImage(t: string)
    ensures WellEscaped(t) <==> exists s :: Escape(s) == t
  {
    if WellEscaped(t) {
      WellEscapedIsEscaped(t);
    }
    if exists s :: Escape(s) == t {
      var s :| Escape(s) == t;
      EscapeWellEscaped(s);
    }
  }

  /** Extra characters each special character adds: 4, 3, 3, 5, 4 for `&`, `<`, `>`, `"`, `'`. */
  function Growth(s: string): int {
    var m := multiset(s);
    4 * m['&'] + 3 * m['<'] + 3 * m['>'] + 5 * m['"'] + 4 * m['\'']
  }

  lemma GrowthCons(s: string)
    requires s != []
    ensures Growth(s) == Growth(s[1..]) + |EscChar(s[0])| - 1
  {
    var c, m, m1 := s[0], multiset(s), multiset(s[1..]);
    MultisetCons(s);
    assert m['&'] == m1['&'] + (if c == '&' then 1 else 0);
    assert m['<'] == m1['<'] + (if c == '<' then 1 else 0);
    assert m['>'] == m1['>'] + (if c == '>' then 1 else 0);
    assert m['"'] == m1['"'] + (if c == '"' then 1 else 0);
    assert m['\''] == m1['\''] + (if c == '\'' then 1 else 0);
  }

  /** The output length is the input length plus the growth of each special character. */
  lemma {:induction false} EscapeLength(s: string)
    ensures |Escape(s)| == |s| + Growth(s)
  {
    if s != [] {
      EscapeLength(s[1..]);
      GrowthCons(s);
    }
  }

  lemma {:induction false} GrowthPositive(s: string)
    ensures Growth(s) >= 0
    ensures Growth(s) > 0 <==> HasSpecial(s)
  {
    var m := multiset(s);
    if HasSpecial(s) {
      var i :| 0 <= i < |s| && IsSpecial(s[i]);
      assert s[i] in m;
    }
    forall c | IsSpecial(c) && c in m ensures HasSpecial(s) {
      assert c in s;
      var i :| 0 <= i < |s| && s[i] == c;
    }
  }

  /** Escaping never shrinks a string, and strictly lengthens it exactly when a special character occurs. */
  lemma EscapeGrows(s: string)
    ensures |Escape(s)| >= |s|
    ensures |Escape(s)| > |s| <==> HasSpecial(s)
  {
    EscapeLength(s);
    GrowthPositive(s);
  }

  /** A string is returned unchanged exactly when it has none of the five characters. */
  lemma {:induction false} EscapeFixedPoint(s: string)
    ensures Escape(s) == s <==> !HasSpecial(s)
  {
    EscapeGrows(s);
    if !HasSpecial(s) && s != [] {
      forall i | 0 <= i < |s[1..]| ensures !IsSpecial(s[1..][i]) {
        assert s[1..][i] == s[i + 1];
      }
      EscapeFixedPoint(s[1..]);
      HeadTail(s);
    }
  }

  lemma {:induction false} EscapeHasAmpersand(s: string)
    ensures '&' in Escape(s) <==> HasSpecial(s)
  {
    if s != [] {
      EscapeHasAmpersand(s[1..]);
      var e, r := EscChar(s[0]), Escape(s[1..]);
      assert Escape(s) == e + r;
      assert '&' in e <==> IsSpecial(s[0]) by {
        if !IsSpecial(s[0]) { assert e == [s[0]]; }
      }
      if HasSpecial(s) && !IsSpecial(s[0]) {
        var i :| 0 <= i < |s| && IsSpecial(s[i]);
        assert s[1..][i - 1] == s[i];
      }
      if HasSpecial(s[1..]) {
        var i :| 0 <= i < |s[1..]| && IsSpecial(s[1..][i]);
        assert s[i + 1] == s[1..][i];
      }
    }
  }

  /** Escaping twice equals escaping once only for strings with none of the five characters. */
  lemma EscapeIdempotentIff(s: string)
    ensures Escape(Escape(s)) == Escape(s) <==> !HasSpecial(s)
  {
    EscapeFixedPoint(Escape(s));
    EscapeHasAmpersand(s);
    if HasSpecial(Escape(s)) {
      var i :| 0 <= i < |Escape(s)| && IsSpecial(Escape(s)[i]);
      EscapeMarkupFree(s);
      assert Escape(s)[i] == '&';
    }
  }

  /** The concrete witness: a second escaping re-escapes the `&` of `&amp;`. */
  lemma NotIdempotent()
    ensures Escape("&") == "&amp;"
    ensures Escape("&amp;") == "&amp;amp;"
    ensures Escape(Escape("&")) != Escape("&")
  {
    EscapeCons('&', "");
    EscapeConcat("&", "amp;");
    assert Escape("amp;") == "amp;" by {
      EscapeFixedPoint("amp;");
    }
    assert "&amp;" == "&" + "amp;";
  }

  /** Position in the output where the replacement of `s[i]` starts. */
  function Offset(s: string, i: nat): nat
    requires i <= |s|
  {
    |Escape(s[..i])|
  }

  lemma EscapeSplit(s: string, i: nat)
    requires i < |s|
    ensures Escape(s) == Escape(s[..i]) + EscChar(s[i]) + Escape(s[i + 1..])
  {
    var pre, c, post := s[..i], s[i], s[i + 1..];
    SplitAt(s, i);
    EscapeConcat(pre, [c] + post);
    EscapeCons(c, post);
    Assoc(Escape(pre), EscChar(c), Escape(post));
  }

  lemma SliceMiddle(a: string, e: string, z: string)
    ensures (a + e + z)[|a|..|a| + |e|] == e
  {
  }

  /**
   The replacement of each input character appears in the output at that
   character's offset; an ordinary character is copied there unchanged.
   */
  lemma ReplacementAt(s: string, i: nat)
    requires i < |s|
    ensures Offset(s, i) + |EscChar(s[i])| <= |Escape(s)|
    ensures Escape(s)[Offset(s, i)..Offset(s, i) + |EscChar(s[i])|] == EscChar(s[i])
    ensures !IsSpecial(s[i]) ==> Escape(s)[Offset(s, i)] == s[i]
  {
    EscapeSplit(s, i);
    SliceMiddle(Escape(s[..i]), EscChar(s[i]), Escape(s[i + 1..]));
  }

  /** The replacements follow input order: that of `s[i]` ends before that of any later `s[j]` begins. */
  lemma CopiedInOrder(s: string, i: nat, j: nat)
    requires i < j <= |s|
    ensures Offset(s, i) + |EscChar(s[i])| <= Offset(s, j) <= |Escape(s)|
  {
    var p := s[..j];
    PrefixOfPrefix(s, i, j);
    EscapeSplit(p, i);
    EscapeConcat(p, s[j..]);
  }
}

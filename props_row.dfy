/**
 The markup of one property row: the key in bold, the value in a span,
 both passed through `escapeHtml` first. The value is already in its
 string form (what `String(v)` gives for it).
 */
module PropsRow {
  import opened SeqFacts
  import opened HtmlEscape

  datatype Entry = Entry(key: string, value: string)

  datatype Parsed = Row(entry: Entry) | Malformed

  /** The row template. */
  function RowHtml(k: string, v: string): string {
    "<b>" + Escape(k) + "</b><span>" + Escape(v) + "</span>"
  }

  /** Index of the first `c` in `s`, or `|s|` when there is none. */
  function IndexOf(s: string, c: char): (r: nat)
    ensures r <= |s|
    ensures r < |s| ==> s[r] == c
    ensures forall i :: 0 <= i < r ==> s[i] != c
  {
    if s == [] then 0
    else if s[0] == c then 0
    else 1 + IndexOf(s[1..], c)
  }

  /**
   Reads a row back: the bold text runs to the first `<`, which must open
   `</b><span>`; the span text runs to the next `<`, which must open the
   closing `</span>` at the very end. Both texts are decoded.
   */
  function ParseRow(h: string): Parsed {
    if "<b>" <= h then ParseKey(h[3..]) else Malformed
  }

  function ParseKey(body: string): Parsed {
    var i := IndexOf(body, '<');
    if "</b><span>" <= body[i..] then ParseValue(body[..i], body[i + 10..]) else Malformed
  }

  function ParseValue(key: string, rest: string): Parsed {
    var j := IndexOf(rest, '<');
    if rest[j..] == "</span>" then Row(Entry(Unescape(key), Unescape(rest[..j]))) else Malformed
  }

  /** Positions of the `<` of `<b>`, `</b>`, `<span>` and `</span>` in a row whose escaped key and value have lengths n and m. */
  predicate LtAt(n: nat, m: nat, i: int) {
    i == 0 || i == 3 + n || i == 7 + n || i == 13 + n + m
  }

  /** Positions of the `>` of the same four tags. */
  predicate GtAt(n: nat, m: nat, i: int) {
    i == 2 || i == 6 + n || i == 12 + n || i == 19 + n + m
  }

  lemma {:induction false} IndexOfFirst(a: string, b: string, c: char)
    requires forall i :: 0 <= i < |a| ==> a[i] != c
    requires b != [] && b[0] == c
    ensures IndexOf(a + b, c) == |a|
  {
    if a == [] {
      ConcatEmpty(b);
    } else {
      ConcatTail(a, b);
      IndexOfFirst(a[1..], b, c);
    }
  }

  lemma MarkupFreeHasNoLt(t: string)
    requires MarkupFree(t)
    ensures forall i :: 0 <= i < |t| ==> t[i] != '<'
  {
  }

  lemma ParseValueOf(key: string, b: string)
    requires forall i :: 0 <= i < |b| ==> b[i] != '<'
    ensures ParseValue(key, b + "</span>") == Row(Entry(Unescape(key), Unescape(b)))
  {
    var tail := "</span>";
    IndexOfFirst(b, tail, '<');
    DropPrefix(b, tail);
  }

  lemma ParseKeyOf(a: string, b: string)
    requires forall i :: 0 <= i < |a| ==> a[i] != '<'
    ensures ParseKey(a + ("</b><span>" + (b + "</span>"))) == ParseValue(a, b + "</span>")
  {
    var t2, rest := "</b><span>", b + "</span>";
    IndexOfFirst(a, t2 + rest, '<');
    DropPrefix(a, t2 + rest);
    DropPrefix(t2, rest);
  }

  /** The template filled with any two texts free of `<` parses back to those texts, decoded. */
  lemma ParseTemplate(a: string, b: string)
    requires forall i :: 0 <= i < |a| ==> a[i] != '<'
    requires forall i :: 0 <= i < |b| ==> b[i] != '<'
    ensures ParseRow("<b>" + a + "</b><span>" + b + "</span>") == Row(Entry(Unescape(a), Unescape(b)))
  {
    var t1, t2, tail := "<b>", "</b><span>", "</span>";
    var body := a + (t2 + (b + tail));
    assert t1 + a + t2 + b + tail == t1 + body by {
      Assoc(t2, b, tail);
      Assoc(a, t2 + b, tail);
      Assoc(a, t2, b);
      Assoc(t1, a, t2 + b + tail);
    }
    DropPrefix(t1, body);
    ParseKeyOf(a, b);
    ParseValueOf(a, b);
  }

  /** Reading a row back recovers the key and the value exactly. */
  lemma RowRoundTrip(k: string, v: string)
    ensures ParseRow(RowHtml(k, v)) == Row(Entry(k, v))
  {
    EscapeMarkupFree(k);
    EscapeMarkupFree(v);
    MarkupFreeHasNoLt(Escape(k));
    MarkupFreeHasNoLt(Escape(v));
    ParseTemplate(Escape(k), Escape(v));
    UnescapeEscape(k);
    UnescapeEscape(v);
  }

  /** Different entries never render to the same row. */
  lemma RowInjective(k: string, v: string, k': string, v': string)
    ensures RowHtml(k, v) == RowHtml(k', v') <==> k == k' && v == v'
  {
    if RowHtml(k, v) == RowHtml(k', v') {
      RowRoundTrip(k, v);
      RowRoundTrip(k', v');
    }
  }

  /** The template filled with two texts free of markup has `<` and `>` exactly at its eight tag brackets. */
  lemma TemplateBrackets(a: string, b: string)
    requires MarkupFree(a) && MarkupFree(b)
    ensures |"<b>" + a + "</b><span>" + b + "</span>"| == |a| + |b| + 20
    ensures forall i :: 0 <= i < |a| + |b| + 20 ==>
      var c := ("<b>" + a + "</b><span>" + b + "</span>")[i];
      && (c == '<' <==> LtAt(|a|, |b|, i))
      && (c == '>' <==> GtAt(|a|, |b|, i))
      && c != '"' && c != '\''
  {
    var t1, t2, t3 := "<b>", "</b><span>", "</span>";
    var h := t1 + a + t2 + b + t3;
    var n, m := |a|, |b|;
    forall i | 0 <= i < n + m + 20
      ensures (h[i] == '<' <==> LtAt(n, m, i)) && (h[i] == '>' <==> GtAt(n, m, i))
      ensures h[i] != '"' && h[i] != '\''
    {
      if i < 3 {
        assert h[i] == t1[i];
      } else if i < 3 + n {
        assert h[i] == a[i - 3];
      } else if i < 13 + n {
        assert h[i] == t2[i - 3 - n];
      } else if i < 13 + n + m {
        assert h[i] == b[i - 13 - n];
      } else {
        assert h[i] == t3[i - 13 - n - m];
      }
    }
  }

  /**
   Whatever the key and the value, the only `<` and `>` of a row are the
   brackets of its four fixed tags, and it holds no quote at all: the
   user's text cannot open or close markup.
   */
  lemma RowBrackets(k: string, v: string)
    ensures |RowHtml(k, v)| == |Escape(k)| + |Escape(v)| + 20
    ensures forall i :: 0 <= i < |RowHtml(k, v)| ==>
      && (RowHtml(k, v)[i] == '<' <==> LtAt(|Escape(k)|, |Escape(v)|, i))
      && (RowHtml(k, v)[i] == '>' <==> GtAt(|Escape(k)|, |Escape(v)|, i))
      && !(RowHtml(k, v)[i] in "\"'")
  {
    EscapeMarkupFree(k);
    EscapeMarkupFree(v);
    TemplateBrackets(Escape(k), Escape(v));
  }
}

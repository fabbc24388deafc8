/**
 * The HTML side of the highlighter: the entity escape applied to every line on entry,
 * its inverse, the span wrapper every token gets, and what a reader sees of markup
 * once the tags are taken away.
 */
module Html {
  import opened Text

  /** `s.replace(/c/g, rep)` for a one-character pattern. */
  function ReplaceChar(s: string, c: char, rep: string): string {
    if s == [] then [] else (if s[0] == c then rep else [s[0]]) + ReplaceChar(s[1..], c, rep)
  }

  /** The escape at the top of `highlightPython`: `&` first, then `<`, then `>`. */
  function Escape(s: string): string {
    ReplaceChar(ReplaceChar(ReplaceChar(s, '&', "&amp;"), '<', "&lt;"), '>', "&gt;")
  }

  function EscapeChar(c: char): string {
    if c == '&' then "&amp;" else if c == '<' then "&lt;" else if c == '>' then "&gt;" else [c]
  }

  /** The escape as one pass that maps every character to its entity or to itself. */
  function EscapeEach(s: string): string {
    if s == [] then [] else EscapeChar(s[0]) + EscapeEach(s[1..])
  }

  /** What a browser makes of the three entities again. */
  function Unescape(s: string): string {
    if s == [] then []
    else if |s| >= 5 && s[..5] == "&amp;" then "&" + Unescape(s[5..])
    else if |s| >= 4 && s[..4] == "&lt;" then "<" + Unescape(s[4..])
    else if |s| >= 4 && s[..4] == "&gt;" then ">" + Unescape(s[4..])
    else [s[0]] + Unescape(s[1..])
  }

  lemma {:induction false} ReplaceCharAppend(a: string, b: string, c: char, rep: string)
    ensures ReplaceChar(a + b, c, rep) == ReplaceChar(a, c, rep) + ReplaceChar(b, c, rep)
  {
    if a == [] {
      assert a + b == b;
    } else {
      assert (a + b)[0] == a[0] && (a + b)[1..] == a[1..] + b;
      ReplaceCharAppend(a[1..], b, c, rep);
    }
  }

  lemma {:induction false} ReplaceCharAbsent(s: string, c: char, rep: string)
    requires c !in s
    ensures ReplaceChar(s, c, rep) == s
  {
    if s != [] {
      assert s[0] in s;
      assert forall x :: x in s[1..] ==> x in s;
      ReplaceCharAbsent(s[1..], c, rep);
      assert s == [s[0]] + s[1..];
    }
  }

  lemma EscapeAppend(a: string, b: string)
    ensures Escape(a + b) == Escape(a) + Escape(b)
  {
    ReplaceCharAppend(a, b, '&', "&amp;");
    var a1, b1 := ReplaceChar(a, '&', "&amp;"), ReplaceChar(b, '&', "&amp;");
    ReplaceCharAppend(a1, b1, '<', "&lt;");
    var a2, b2 := ReplaceChar(a1, '<', "&lt;"), ReplaceChar(b1, '<', "&lt;");
    ReplaceCharAppend(a2, b2, '>', "&gt;");
  }

  lemma ReplaceCharSingle(x: char, c: char, rep: string)
    ensures ReplaceChar([x], c, rep) == if x == c then rep else [x]
  {
    assert [x][1..] == [];
    assert ReplaceChar([x], c, rep) == (if x == c then rep else [x]) + ReplaceChar([], c, rep);
  }

  lemma EscapeSingle(c: char)
    ensures Escape([c]) == EscapeChar(c)
  {
    ReplaceCharSingle(c, '&', "&amp;");
    var a := ReplaceChar([c], '&', "&amp;");
    if c == '&' {
      ReplaceCharAbsent(a, '<', "&lt;");
      ReplaceCharAbsent(a, '>', "&gt;");
    } else {
      ReplaceCharSingle(c, '<', "&lt;");
      var b := ReplaceChar(a, '<', "&lt;");
      if c == '<' {
        ReplaceCharAbsent(b, '>', "&gt;");
      } else {
        ReplaceCharSingle(c, '>', "&gt;");
      }
    }
  }

  /** Running the three passes one after the other escapes each character once. */
  lemma {:induction false} EscapeIsPerChar(s: string)
    ensures Escape(s) == EscapeEach(s)
  {
    if s != [] {
      assert s == [s[0]] + s[1..];
      EscapeAppend([s[0]], s[1..]);
      EscapeSingle(s[0]);
      EscapeIsPerChar(s[1..]);
    }
  }

  /** Decoding the escaped text gives back the original line. */
  lemma {:induction false} UnescapeEscape(s: string)
    ensures Unescape(Escape(s)) == s
  {
    EscapeIsPerChar(s);
    UnescapeEscapeEach(s);
  }

  lemma {:induction false} UnescapeEscapeEach(s: string)
    ensures Unescape(EscapeEach(s)) == s
  {
    if s != [] {
      UnescapeEscapeEach(s[1..]);
      UnescapeFront(s[0], EscapeEach(s[1..]));
      assert s == [s[0]] + s[1..];
    }
  }

  lemma UnescapeFront(c: char, t: string)
    ensures Unescape(EscapeChar(c) + t) == [c] + Unescape(t)
  {
    if c == '&' {
      UnescapeAmp(t);
    } else if c == '<' || c == '>' {
      UnescapeAngle(c, t);
    } else {
      UnescapePlain(c, t);
    }
  }

  lemma UnescapeAmp(t: string)
    ensures Unescape("&amp;" + t) == "&" + Unescape(t)
  {
    var e := "&amp;" + t;
    assert e[..5] == "&amp;" && e[5..] == t;
  }

  /** `&lt;` and `&gt;` both decode to their character: the entity is four long, its second letter tells them apart. */
  lemma UnescapeAngle(c: char, t: string)
    requires c == '<' || c == '>'
    ensures Unescape(EscapeChar(c) + t) == [c] + Unescape(t)
  {
    var e := EscapeChar(c) + t;
    if c == '<' {
      assert e[1] == 'l' && e[..4] == "&lt;" && e[4..] == t;
    } else {
      assert e[1] == 'g' && e[..4] == "&gt;" && e[4..] == t;
    }
  }

  lemma UnescapePlain(c: char, t: string)
    requires c != '&'
    ensures Unescape([c] + t) == [c] + Unescape(t)
  {
    var e := [c] + t;
    assert e[0] == c && e[1..] == t;
  }

  /** The escaped text holds no `<` and no `>`, so no markup can come from the input. */
  lemma {:induction false} EscapeHasNoAngle(s: string)
    ensures '<' !in Escape(s) && '>' !in Escape(s)
  {
    EscapeIsPerChar(s);
    EscapeEachHasNoAngle(s);
  }

  lemma {:induction false} EscapeEachHasNoAngle(s: string)
    ensures '<' !in EscapeEach(s) && '>' !in EscapeEach(s)
  {
    if s != [] {
      EscapeEachHasNoAngle(s[1..]);
      var c := EscapeChar(s[0]);
      assert '<' !in c && '>' !in c;
      assert EscapeEach(s) == c + EscapeEach(s[1..]);
    }
  }

  lemma {:induction false} CountCharPositive(s: string, c: char)
    requires c in s
    ensures CountChar(s, c) > 0
  {
    if s[0] != c {
      assert s == [s[0]] + s[1..];
      CountCharPositive(s[1..], c);
    }
  }

  /** Each `&` grows by four characters and survives as the `&` of its entity. */
  lemma {:induction false} EscapeEachGrows(s: string)
    ensures |EscapeEach(s)| >= |s| + 4 * CountChar(s, '&')
    ensures CountChar(EscapeEach(s), '&') >= CountChar(s, '&')
  {
    if s != [] {
      EscapeEachGrows(s[1..]);
      var c := EscapeChar(s[0]);
      CountCharAppend(c, EscapeEach(s[1..]), '&');
      if s[0] == '&' {
        assert c == "&" + "amp;";
        CountCharAppend("&", "amp;", '&');
        assert CountChar("&", '&') == 1;
      } else {
        assert |c| >= 1;
      }
    }
  }

  /**
   * Escaping is not idempotent: text holding an `&` changes when escaped twice, which is
   * what every recursive call of the highlighter does to the rest of its line.
   */
  lemma EscapeTwiceChanges(s: string)
    requires '&' in s
    ensures Escape(Escape(s)) != Escape(s)
  {
    CountCharPositive(s, '&');
    EscapeIsPerChar(s);
    EscapeEachGrows(s);
    var e := Escape(s);
    EscapeIsPerChar(e);
    EscapeEachGrows(e);
  }

  predicate IsQuote(c: char) { c == '"' || c == '\'' }

  /** Number of quote characters, `"` and `'` together. */
  function QuoteCount(s: string): nat {
    CountChar(s, '"') + CountChar(s, '\'')
  }

  lemma QuoteCountAppend(a: string, b: string)
    ensures QuoteCount(a + b) == QuoteCount(a) + QuoteCount(b)
  {
    CountCharAppend(a, b, '"');
    CountCharAppend(a, b, '\'');
  }

  lemma {:induction false} NoQuotes(t: string)
    requires '"' !in t && '\'' !in t
    ensures QuoteCount(t) == 0
  {
    if t != [] {
      assert t[0] in t;
      assert forall x :: x in t[1..] ==> x in t;
      NoQuotes(t[1..]);
    }
  }

  /** Escaping adds and removes no quote characters. */
  lemma {:induction false} EscapeKeepsQuotes(s: string)
    ensures QuoteCount(Escape(s)) == QuoteCount(s)
  {
    EscapeIsPerChar(s);
    EscapeEachKeepsQuotes(s);
  }

  lemma {:induction false} EscapeEachKeepsQuotes(s: string)
    ensures QuoteCount(EscapeEach(s)) == QuoteCount(s)
  {
    if s != [] {
      EscapeEachKeepsQuotes(s[1..]);
      QuoteCountAppend(EscapeChar(s[0]), EscapeEach(s[1..]));
      QuoteCountAppend([s[0]], s[1..]);
      assert s == [s[0]] + s[1..];
      var c := EscapeChar(s[0]);
      if s[0] == '&' || s[0] == '<' || s[0] == '>' {
        NoQuotes(c);
        NoQuotes([s[0]]);
      } else {
        assert c == [s[0]];
      }
    }
  }

  /** An opening or closing tag with the given contents. */
  function Tag(t: string): string {
    "<" + t + ">"
  }

  const SpanClose := Tag("/span")

  /** `<span class="cls">text</span>`. */
  function Span(cls: string, text: string): string {
    Tag("span class=\"" + cls + "\"") + text + SpanClose
  }

  /** The text after the first `>` (the rest of a tag), or nothing when no `>` follows. */
  function SkipTag(s: string): (r: string)
    ensures |r| <= |s|
  {
    if s == [] then [] else if s[0] == '>' then s[1..] else SkipTag(s[1..])
  }

  /** The visible text of markup: every `<` up to the next `>` removed. */
  function StripTags(s: string): string
    decreases |s|
  {
    if s == [] then []
    else if s[0] == '<' then StripTags(SkipTag(s[1..]))
    else [s[0]] + StripTags(s[1..])
  }

  lemma {:induction false} SkipTagAppend(t: string, rest: string)
    requires '>' !in t
    ensures SkipTag(t + ">" + rest) == rest
  {
    if t == [] {
      assert t + ">" + rest == ">" + rest;
    } else {
      assert (t + ">" + rest)[1..] == t[1..] + ">" + rest;
      SkipTagAppend(t[1..], rest);
    }
  }

  /** A tag in front of markup adds nothing visible. */
  lemma StripTag(t: string, rest: string)
    requires '>' !in t
    ensures StripTags(Tag(t) + rest) == StripTags(rest)
  {
    var u := Tag(t) + rest;
    assert u[0] == '<' && u[1..] == t + ">" + rest;
    SkipTagAppend(t, rest);
  }

  /** Text without `<` is visible as it stands. */
  lemma {:induction false} StripText(t: string, rest: string)
    requires '<' !in t
    ensures StripTags(t + rest) == t + StripTags(rest)
  {
    if t == [] {
      assert t + rest == rest;
    } else {
      assert (t + rest)[0] == t[0] && (t + rest)[1..] == t[1..] + rest;
      StripText(t[1..], rest);
    }
  }

  /** A tag followed by text shows the text. */
  lemma StripTagText(t: string, text: string, rest: string)
    requires '>' !in t && '<' !in text
    ensures StripTags(Tag(t) + text + rest) == text + StripTags(rest)
  {
    assert Tag(t) + text + rest == Tag(t) + (text + rest);
    StripTag(t, text + rest);
    StripText(text, rest);
  }

  /** A span shows exactly its text. */
  lemma StripSpan(cls: string, text: string, rest: string)
    requires '>' !in cls && '<' !in text
    ensures StripTags(Span(cls, text) + rest) == text + StripTags(rest)
  {
    var open := "span class=\"" + cls + "\"";
    assert '>' !in open;
    assert Span(cls, text) + rest == Tag(open) + text + (SpanClose + rest);
    StripTagText(open, text, SpanClose + rest);
    StripTag("/span", rest);
  }
}

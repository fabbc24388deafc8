/**
 * The markup `highlightPython` builds for one f-string `f"…"` or `f'…'`: the `f` as a
 * keyword, the quotes as strings, and inside, every `{…}` as a control-coloured brace
 * pair around a variable-coloured expression, with the text between them as strings.
 */
module FString {
  import opened Text
  import opened Html

  /** The attributes of the brace spans, inline style included. */
  const ControlAttrs := "span class=\"vs-control\"" + " style=\"color:var(--c-purple)\""
  /** The attributes of the expression span. */
  const VarAttrs := "span style=\"color:var(--c-var)\""

  const BraceOpen := Tag(ControlAttrs) + "{" + SpanClose
  const BraceClose := Tag(ControlAttrs) + "}" + SpanClose
  const VarOpen := Tag(VarAttrs)

  /** A match of `\{(.*?)\}` can begin at `j`: a `{` with a `}` later on its line. */
  predicate Opener(inner: string, j: nat) {
    j < |inner| && inner[j] == '{' && FindOnLine(inner, '}', j + 1).Some?
  }

  /**
   * The next match of `/\{(.*?)\}/g` at or after `from`: the index of its `{` and of
   * the first `}` after it (no line terminator between them). The match begins at the
   * leftmost `{` that has such a `}`; a `{` without one is passed over as text.
   */
  function NextInterpolation(inner: string, from: nat): (r: Option<(nat, nat)>)
    requires from <= |inner|
    ensures r.Some? ==> from <= r.value.0 < r.value.1 < |inner|
    ensures r.Some? ==> inner[r.value.0] == '{' && inner[r.value.1] == '}'
    ensures r.Some? ==> forall j :: r.value.0 < j < r.value.1 ==> inner[j] != '}'
    ensures r.Some? ==> Opener(inner, r.value.0) && r.value.1 == FindOnLine(inner, '}', r.value.0 + 1).value
    ensures r.Some? ==> forall j :: from <= j < r.value.0 ==> !Opener(inner, j)
    ensures r.None? ==> forall j :: from <= j < |inner| ==> !Opener(inner, j)
    decreases |inner| - from
  {
    if from == |inner| then None
    else if inner[from] == '{' && FindOnLine(inner, '}', from + 1).Some? then
      Some((from, FindOnLine(inner, '}', from + 1).value))
    else NextInterpolation(inner, from + 1)
  }

  /** A run of literal text: a string span, or nothing at all when it is empty. */
  function TextPart(t: string): string {
    if |t| == 0 then [] else Span("vs-string", t)
  }

  /** One `{expr}`: brace, expression (even an empty one), brace. */
  function Interpolation(expr: string): string {
    BraceOpen + VarOpen + expr + SpanClose + BraceClose
  }

  /**
   * The matches of the interpolation regex in the contents, in order: each with the
   * text before it and its group, and after the last one the tail.
   */
  datatype Segments = Tail(text: string) | Match(text: string, expr: string, rest: Segments)

  /** The segments of `inner[from..]`. */
  function Parse(inner: string, from: nat): Segments
    requires from <= |inner|
    decreases |inner| - from
  {
    match NextInterpolation(inner, from)
    case None => Tail(inner[from..])
    case Some((o, c)) => Match(inner[from..o], inner[o + 1..c], Parse(inner, c + 1))
  }

  /**
   * Contents where no `{` has a `}` after it on its line are one run of text: an
   * unclosed `{`, as in `f"a{b"`, stays in the string text.
   */
  lemma UnclosedIsText(inner: string, from: nat)
    requires from <= |inner|
    requires forall j :: from <= j < |inner| && inner[j] == '{' ==> FindOnLine(inner, '}', j + 1).None?
    ensures Parse(inner, from) == Tail(inner[from..])
  {
  }

  /** The markup of the segments: text spans and brace groups one after the other. */
  function Render(p: Segments): string {
    match p
    case Tail(t) => TextPart(t)
    case Match(t, e, rest) => TextPart(t) + Interpolation(e) + Render(rest)
  }

  /** What the segments read as in the source: the texts, and the expressions in braces. */
  function Source(p: Segments): string {
    match p
    case Tail(t) => t
    case Match(t, e, rest) => t + ("{" + e + "}") + Source(rest)
  }

  function QuoteSpan(q: char): string {
    Span("vs-string", [q])
  }

  /** The whole f-string: `f`, opening quote, the contents, closing quote. */
  function Markup(q: char, inner: string): string {
    Span("vs-keyword", "f") + QuoteSpan(q) + Render(Parse(inner, 0)) + QuoteSpan(q)
  }

  lemma ParseStep(inner: string, from: nat, o: nat, c: nat)
    requires from <= |inner| && NextInterpolation(inner, from) == Some((o, c))
    ensures from <= o && o + 1 <= c < |inner|
    ensures Parse(inner, from) == Match(inner[from..o], inner[o + 1..c], Parse(inner, c + 1))
  {
  }

  lemma AppendEmpty(x: string)
    ensures x + [] == x
  {
  }

  lemma Assoc3(a: string, b: string, c: string)
    ensures a + b + c == a + (b + c)
  {
  }

  lemma Assoc4(a: string, b: string, c: string, d: string)
    ensures a + b + c + d == a + (b + (c + d))
  {
  }

  lemma Assoc6(x: string, a: string, b: string, c: string, d: string, e: string)
    ensures x + a + b + c + d + e == x + (a + b + c + d + e)
  {
  }

  lemma AppendInterpolation(x: string, expr: string)
    ensures x + BraceOpen + VarOpen + expr + SpanClose + BraceClose == x + Interpolation(expr)
  {
    Assoc6(x, BraceOpen, VarOpen, expr, SpanClose, BraceClose);
  }

  /** `if (textPart) html += <span class="vs-string">textPart</span>`. */
  method AppendText(html: string, textPart: string) returns (r: string)
    ensures r == html + TextPart(textPart)
  {
    r := html;
    if |textPart| > 0 {
      r := r + Span("vs-string", textPart);
    } else {
      AppendEmpty(r);
    }
  }

  /** The three spans of one `{…}`, appended one by one. */
  method AppendBraces(html: string, expr: string) returns (r: string)
    ensures r == html + Interpolation(expr)
  {
    r := html + BraceOpen;
    r := r + VarOpen + expr + SpanClose;
    r := r + BraceClose;
    AppendInterpolation(html, expr);
  }

  /** One round of the builder loop's body: the text before a match, then its braces. */
  method AppendMatch(html: string, textPart: string, expr: string) returns (r: string)
    ensures r == html + TextPart(textPart) + Interpolation(expr)
  {
    r := AppendText(html, textPart);
    r := AppendBraces(r, expr);
  }

  /** One round of the builder loop: the markup of one match moves from the rest into `html`. */
  lemma Advance(html0: string, html: string, html': string, inner: string, from: nat, o: nat, c: nat)
    requires from <= |inner| && NextInterpolation(inner, from) == Some((o, c))
    requires html + Render(Parse(inner, from)) == html0 + Render(Parse(inner, 0))
    requires html' == html + TextPart(inner[from..o]) + Interpolation(inner[o + 1..c])
    ensures c + 1 <= |inner|
    ensures html' + Render(Parse(inner, c + 1)) == html0 + Render(Parse(inner, 0))
  {
    ParseStep(inner, from, o, c);
    var tp, ip, r := TextPart(inner[from..o]), Interpolation(inner[o + 1..c]), Render(Parse(inner, c + 1));
    assert Render(Parse(inner, from)) == tp + ip + r;
    Assoc4(html, tp, ip, r);
    Assoc3(tp, ip, r);
  }

  lemma ParseAt(inner: string, next: nat, c: nat)
    requires next == c + 1 <= |inner|
    ensures Parse(inner, next) == Parse(inner, c + 1)
  {
  }

  /** After the last match: the tail is what is left. */
  lemma Finish(html: string, inner: string, from: nat)
    requires from <= |inner| && NextInterpolation(inner, from).None?
    ensures html + TextPart(inner[from..]) == html + Render(Parse(inner, from))
  {
  }

  /**
   * The builder loop of the f-string callback: from `html0`, `html` grows by the
   * markup of one match per round while `lastIdx` advances, then by the tail.
   */
  method AppendSegments(html0: string, inner: string) returns (html: string)
    ensures html == html0 + Render(Parse(inner, 0))
  {
    html := html0;
    var lastIdx: nat := 0;
    var m := NextInterpolation(inner, 0);
    while m.Some?
      invariant lastIdx <= |inner|
      invariant m == NextInterpolation(inner, lastIdx)
      invariant html + Render(Parse(inner, lastIdx)) == html0 + Render(Parse(inner, 0))
      decreases |inner| - lastIdx
    {
      var (o, c) := m.value;
      ghost var before := html;
      html := AppendMatch(html, inner[lastIdx..o], inner[o + 1..c]);
      Advance(html0, before, html, inner, lastIdx, o, c);
      lastIdx := c + 1;
      ParseAt(inner, lastIdx, c);
      m := NextInterpolation(inner, lastIdx);
    }
    Finish(html, inner, lastIdx);
    var tail := inner[lastIdx..];
    html := AppendText(html, tail);
  }

  /** The f-string callback's markup: head, the builder loop, closing quote. */
  method Build(q: char, inner: string) returns (html: string)
    ensures html == Markup(q, inner)
  {
    html := Span("vs-keyword", "f") + QuoteSpan(q);
    html := AppendSegments(html, inner);
    html := html + QuoteSpan(q);
  }

  lemma StripTextPart(t: string, rest: string)
    requires '<' !in t
    ensures StripTags(TextPart(t) + rest) == t + StripTags(rest)
  {
    if |t| == 0 {
      assert TextPart(t) + rest == rest;
    } else {
      StripSpan("vs-string", t, rest);
    }
  }

  lemma AttrsHaveNoGt()
    ensures '>' !in ControlAttrs && '>' !in VarAttrs && '>' !in "/span"
  {
    assert '>' !in "span class=\"vs-control\"" && '>' !in " style=\"color:var(--c-purple)\"";
  }

  /** The shape of one interpolation, for any tag contents without `>`. */
  lemma StripInterpolationShape(a: string, v: string, cl: string, expr: string, rest: string)
    requires '>' !in a && '>' !in v && '>' !in cl && '<' !in expr
    ensures StripTags(Tag(a) + "{" + Tag(cl) + Tag(v) + expr + Tag(cl) + Tag(a) + "}" + Tag(cl) + rest)
         == "{" + expr + "}" + StripTags(rest)
  {
    var r4 := Tag(cl) + rest;
    var r3 := Tag(cl) + (Tag(a) + "}" + r4);
    var r1 := Tag(cl) + (Tag(v) + expr + r3);
    assert Tag(a) + "{" + Tag(cl) + Tag(v) + expr + Tag(cl) + Tag(a) + "}" + Tag(cl) + rest
        == Tag(a) + "{" + r1;
    calc {
      StripTags(Tag(a) + "{" + r1);
      { StripTagText(a, "{", r1); }
      "{" + StripTags(r1);
      { StripTag(cl, Tag(v) + expr + r3); }
      "{" + StripTags(Tag(v) + expr + r3);
      { StripTagText(v, expr, r3); }
      "{" + (expr + StripTags(r3));
      { StripTag(cl, Tag(a) + "}" + r4); }
      "{" + (expr + StripTags(Tag(a) + "}" + r4));
      { StripTagText(a, "}", r4); }
      "{" + (expr + ("}" + StripTags(r4)));
      { StripTag(cl, rest); }
      "{" + (expr + ("}" + StripTags(rest)));
      "{" + expr + "}" + StripTags(rest);
    }
  }

  lemma StripInterpolation(expr: string, rest: string)
    requires '<' !in expr
    ensures StripTags(Interpolation(expr) + rest) == "{" + expr + "}" + StripTags(rest)
  {
    AttrsHaveNoGt();
    var a, v, cl := ControlAttrs, VarAttrs, "/span";
    assert BraceOpen == Tag(a) + "{" + Tag(cl) && VarOpen == Tag(v) && SpanClose == Tag(cl);
    assert BraceClose == Tag(a) + "}" + Tag(cl);
    assert Interpolation(expr) + rest
        == Tag(a) + "{" + Tag(cl) + Tag(v) + expr + Tag(cl) + Tag(a) + "}" + Tag(cl) + rest;
    StripInterpolationShape(a, v, cl, expr, rest);
  }

  lemma NoLtInSlice(s: string, a: nat, b: nat)
    requires a <= b <= |s| && '<' !in s
    ensures '<' !in s[a..b]
  {
    assert forall x :: x in s[a..b] ==> x in s;
  }

  /** The slice `inner[from..]` around one interpolation `{…}` at `o` and `c`. */
  lemma SplitAround(inner: string, from: nat, o: nat, c: nat)
    requires from <= o < c < |inner| && inner[o] == '{' && inner[c] == '}'
    ensures inner[from..] == inner[from..o] + ("{" + inner[o + 1..c] + "}" + inner[c + 1..])
  {
    assert inner[from..] == inner[from..o] + inner[o..];
    assert inner[o..] == "{" + inner[o + 1..c] + "}" + inner[c + 1..];
  }

  lemma Regroup(a: string, b: string, u: string, r: string)
    ensures a + (b + (u + r)) == (a + b + u) + r
  {
  }

  /** No text or expression of the segments holds a `<`. */
  predicate NoLt(p: Segments) {
    match p
    case Tail(t) => '<' !in t
    case Match(t, e, rest) => '<' !in t && '<' !in e && NoLt(rest)
  }

  /** Without its tags, the markup of the segments reads as their source. */
  lemma {:induction false} StripRender(p: Segments, rest: string)
    requires NoLt(p)
    ensures StripTags(Render(p) + rest) == Source(p) + StripTags(rest)
  {
    match p
    case Tail(t) =>
      StripTextPart(t, rest);
    case Match(t, e, q) =>
      var x, y, z := TextPart(t), Interpolation(e), Render(q);
      var b, r := "{" + e + "}", StripTags(rest);
      calc {
        StripTags(Render(p) + rest);
        { Assoc4(x, y, z, rest); }
        StripTags(x + (y + (z + rest)));
        { StripTextPart(t, y + (z + rest)); }
        t + StripTags(y + (z + rest));
        { StripInterpolation(e, z + rest); }
        t + (b + StripTags(z + rest));
        { StripRender(q, rest); }
        t + (b + (Source(q) + r));
        { Regroup(t, b, Source(q), r); }
        Source(p) + r;
      }
  }

  /** Every segment of `inner[from..]` carries a piece of `inner`, so none holds a `<` when `inner` does not. */
  lemma {:induction false} ParseNoLt(inner: string, from: nat)
    requires from <= |inner| && '<' !in inner
    ensures NoLt(Parse(inner, from))
    decreases |inner| - from
  {
    match NextInterpolation(inner, from)
    case None =>
      NoLtInSlice(inner, from, |inner|);
    case Some((o, c)) =>
      ParseNoLt(inner, c + 1);
      NoLtStep(inner, from, o, c);
  }

  lemma NoLtStep(inner: string, from: nat, o: nat, c: nat)
    requires from <= |inner| && '<' !in inner && NextInterpolation(inner, from) == Some((o, c))
    requires c + 1 <= |inner| && NoLt(Parse(inner, c + 1))
    ensures NoLt(Parse(inner, from))
  {
    ParseStep(inner, from, o, c);
    NoLtInSlice(inner, from, o);
    NoLtInSlice(inner, o + 1, c);
  }

  /** Read back in order, the segments of `inner[from..]` give back `inner[from..]`. */
  lemma {:induction false} ParseReadsBack(inner: string, from: nat)
    requires from <= |inner|
    ensures Source(Parse(inner, from)) == inner[from..]
    decreases |inner| - from
  {
    match NextInterpolation(inner, from)
    case None =>
    case Some((o, c)) =>
      ParseReadsBack(inner, c + 1);
      ReadsBackStep(inner, from, o, c);
  }

  lemma ReadsBackStep(inner: string, from: nat, o: nat, c: nat)
    requires from <= |inner| && NextInterpolation(inner, from) == Some((o, c))
    requires c + 1 <= |inner| && Source(Parse(inner, c + 1)) == inner[c + 1..]
    ensures Source(Parse(inner, from)) == inner[from..]
  {
    ParseStep(inner, from, o, c);
    SplitAround(inner, from, o, c);
    Assoc3(inner[from..o], "{" + inner[o + 1..c] + "}", inner[c + 1..]);
  }

  lemma StripQuote(q: char)
    requires q != '<'
    ensures StripTags(QuoteSpan(q)) == [q]
  {
    StripSpan("vs-string", [q], []);
    AppendEmpty(QuoteSpan(q));
  }

  /**
   * Without its tags the f-string markup reads exactly as the source text:
   * `f`, quote, contents, quote.
   */
  lemma MarkupShowsSource(q: char, inner: string)
    requires '<' !in inner && q != '<'
    ensures StripTags(Markup(q, inner)) == ['f', q] + inner + [q]
  {
    var k, a, p := Span("vs-keyword", "f"), QuoteSpan(q), Parse(inner, 0);
    var z := Render(p);
    calc {
      StripTags(Markup(q, inner));
      { Assoc4(k, a, z, a); }
      StripTags(k + (a + (z + a)));
      { StripSpan("vs-keyword", "f", a + (z + a)); }
      "f" + StripTags(a + (z + a));
      { StripSpan("vs-string", [q], z + a); }
      "f" + ([q] + StripTags(z + a));
      { ParseNoLt(inner, 0); StripRender(p, a); }
      "f" + ([q] + (Source(p) + StripTags(a)));
      { ParseReadsBack(inner, 0); assert inner[0..] == inner; StripQuote(q); }
      "f" + ([q] + (inner + [q]));
      { Assoc4("f", [q], inner, [q]); }
      ['f', q] + inner + [q];
    }
  }
}

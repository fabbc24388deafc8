/**
 * `highlightPython(code, state)`: one line of Python to HTML, with a small state that
 * carries an open triple-quoted string from one line to the next.
 *
 * Phase A runs first: inside an open string the line is string text up to the closing
 * delimiter; outside, an odd number of triple quotes opens a string at the last of them.
 * Otherwise Phase B highlights the line on its own, pass by pass.
 */
module Highlighter {
  import opened Text
  import opened Html
  import opened Patterns

  /** The parser state as a value: inside a string or not, and which delimiter closes it. */
  datatype State = State(inQuote: bool, quoteType: Option<string>) {
    /** A delimiter is recorded exactly while inside a string. */
    predicate Valid() {
      inQuote <==> quoteType.Some?
    }
  }

  /** `{ inQuote: false, quoteType: null }`, and `{ inQuote: false }` alike. */
  const Fresh := State(false, None)

  /** The state object the renderer threads through the lines and the highlighter updates. */
  class ParserState {
    var inQuote: bool
    var quoteType: Option<string>

    constructor ()
      ensures inQuote == false && quoteType == None
    {
      inQuote := false;
      quoteType := None;
    }

    function Value(): State
      reads this
    {
      State(inQuote, quoteType)
    }
  }

  /** `"""` or `'''` at the front of `s`. */
  predicate TripleAt(s: string) {
    |s| >= 3 && IsQuote(s[0]) && s[1] == s[0] && s[2] == s[0]
  }

  /** The number of matches of `/("""|''')/g`: leftmost, each one resuming after the last. */
  function TripleCount(s: string): nat
    decreases |s|
  {
    if |s| < 3 then 0
    else if TripleAt(s) then 1 + TripleCount(s[3..])
    else TripleCount(s[1..])
  }

  /** The index of the last of those matches. */
  function LastTriple(s: string): (r: Option<nat>)
    ensures r.Some? <==> TripleCount(s) > 0
    ensures r.Some? ==> r.value + 3 <= |s| && TripleAt(s[r.value..])
    decreases |s|
  {
    if |s| < 3 then None
    else if TripleAt(s) then
      match LastTriple(s[3..])
      case None => Some(0)
      case Some(k) => Some(k + 3)
    else
      match LastTriple(s[1..])
      case None => None
      case Some(k) => Some(k + 1)
  }

  lemma TripleQuotes(s: string)
    requires TripleAt(s)
    ensures QuoteCount(s) == 3 + QuoteCount(s[3..])
  {
    assert s == [s[0]] + ([s[1]] + ([s[2]] + s[3..]));
    QuoteCountAppend([s[0]], [s[1]] + ([s[2]] + s[3..]));
    QuoteCountAppend([s[1]], [s[2]] + s[3..]);
    QuoteCountAppend([s[2]], s[3..]);
    assert [s[0]][1..] == [];
  }

  /**
   * The last triple quote splits the line into a prefix with one match fewer and a
   * remainder holding exactly that one match; the prefix has at least three quotes less.
   */
  lemma {:induction false} LastTripleSplit(s: string)
    requires TripleCount(s) > 0
    ensures LastTriple(s).Some?
    ensures TripleCount(s[..LastTriple(s).value]) == TripleCount(s) - 1
    ensures TripleCount(s[LastTriple(s).value..]) == 1
    ensures QuoteCount(s[..LastTriple(s).value]) + 3 <= QuoteCount(s)
    decreases |s|
  {
    SplitQuotes(s, LastTriple(s).value);
    if TripleAt(s) {
      if LastTriple(s[3..]).None? {
        FirstIsLast(s);
      } else {
        LastTripleSplit(s[3..]);
        LastAfterTriple(s);
        SplitAfterTriple(s, LastTriple(s[3..]).value);
      }
    } else {
      LastTripleSplit(s[1..]);
      LastAfterOther(s);
      SplitAfterOther(s, LastTriple(s[1..]).value);
    }
  }

  /** The three quotes of a match at `k` are counted in `s` but not in `s[..k]`. */
  lemma SplitQuotes(s: string, k: nat)
    requires k <= |s| && TripleAt(s[k..])
    ensures QuoteCount(s[..k]) + 3 <= QuoteCount(s)
  {
    assert s == s[..k] + s[k..];
    QuoteCountAppend(s[..k], s[k..]);
    TripleQuotes(s[k..]);
  }

  /** A match at the front with none after it is the last match. */
  lemma FirstIsLast(s: string)
    requires TripleAt(s) && LastTriple(s[3..]).None?
    ensures LastTriple(s) == Some(0)
    ensures TripleCount(s[..0]) == TripleCount(s) - 1 && TripleCount(s[0..]) == 1
  {
    assert s[..0] == [] && s[0..] == s;
  }

  lemma LastAfterTriple(s: string)
    requires TripleAt(s) && LastTriple(s[3..]).Some?
    ensures LastTriple(s) == Some(LastTriple(s[3..]).value + 3)
  {
  }

  lemma LastAfterOther(s: string)
    requires |s| >= 3 && !TripleAt(s) && LastTriple(s[1..]).Some?
    ensures LastTriple(s) == Some(LastTriple(s[1..]).value + 1)
  {
  }

  /** `LastTripleSplit` past a match at the front, given the split of the rest at `j`. */
  lemma SplitAfterTriple(s: string, j: nat)
    requires TripleAt(s) && j <= |s| - 3
    requires var t := s[3..]; TripleCount(t[..j]) == TripleCount(t) - 1 && TripleCount(t[j..]) == 1
    ensures TripleCount(s[..j + 3]) == TripleCount(s) - 1 && TripleCount(s[j + 3..]) == 1
  {
    var t, k := s[3..], j + 3;
    assert s[..k][..3] == s[..3];
    assert TripleAt(s[..k]);
    assert s[..k][3..] == t[..j];
    assert s[k..] == t[j..];
  }

  /** `LastTripleSplit` past a character that starts no match, given the split of the rest at `j`. */
  lemma SplitAfterOther(s: string, j: nat)
    requires |s| >= 3 && !TripleAt(s) && j <= |s| - 1
    requires var t := s[1..]; TripleCount(t[..j]) == TripleCount(t) - 1 && TripleCount(t[j..]) == 1
    ensures TripleCount(s[..j + 1]) == TripleCount(s) - 1 && TripleCount(s[j + 1..]) == 1
  {
    var t, k := s[1..], j + 1;
    assert s[k..] == t[j..];
    if k >= 3 {
      assert s[..k][..3] == s[..3];
      assert !TripleAt(s[..k]);
      assert s[..k][1..] == t[..j];
    } else {
      TripleLength(s[..k]);
      TripleLength(t[..j]);
    }
  }

  /** `EscapeEach(s)` starts with a given quote exactly when `s` does. */
  lemma EscapeEachHead(s: string, q: char)
    requires IsQuote(q)
    ensures (|EscapeEach(s)| > 0 && EscapeEach(s)[0] == q) <==> (|s| > 0 && s[0] == q)
    ensures |s| > 0 && s[0] == q ==> EscapeEach(s) == [q] + EscapeEach(s[1..])
  {
  }

  lemma TripleAtEscapeEach(s: string)
    ensures TripleAt(EscapeEach(s)) <==> TripleAt(s)
    ensures TripleAt(s) ==> EscapeEach(s)[3..] == EscapeEach(s[3..])
  {
    var e := EscapeEach(s);
    if |e| > 0 && IsQuote(e[0]) {
      QuoteFront(s, e[0]);
    } else if |s| > 0 && IsQuote(s[0]) {
      EscapeEachHead(s, s[0]);
    }
  }

  /** `TripleAtEscapeEach` when the escaped text starts with the quote `q`. */
  lemma QuoteFront(s: string, q: char)
    requires IsQuote(q) && |EscapeEach(s)| > 0 && EscapeEach(s)[0] == q
    ensures TripleAt(EscapeEach(s)) <==> TripleAt(s)
    ensures TripleAt(s) ==> EscapeEach(s)[3..] == EscapeEach(s[3..])
  {
    var e := EscapeEach(s);
    EscapeEachHead(s, q);
    EscapeEachHead(s[1..], q);
    assert e[1..] == EscapeEach(s[1..]);
    if |s| > 1 && s[1] == q {
      EscapeEachHead(s[2..], q);
      assert e[2..] == EscapeEach(s[2..]);
      if |s| > 2 && s[2] == q {
        assert e[3..] == EscapeEach(s[3..]);
      }
    }
  }

  /** Three matches need at least three quote characters each. */
  lemma {:induction false} TripleCountQuotes(s: string)
    ensures 3 * TripleCount(s) <= QuoteCount(s)
    decreases |s|
  {
    if |s| >= 3 {
      if TripleAt(s) {
        TripleQuotes(s);
        TripleCountQuotes(s[3..]);
      } else {
        TripleCountQuotes(s[1..]);
        assert s == [s[0]] + s[1..];
        QuoteCountAppend([s[0]], s[1..]);
      }
    }
  }

  lemma {:induction false} TripleCountAfterPlain(x: string, y: string)
    requires '"' !in x && '\'' !in x
    ensures TripleCount(x + y) == TripleCount(y)
    decreases |x|
  {
    if x != [] {
      assert x[0] in x;
      assert forall c :: c in x[1..] ==> c in x;
      var u := x + y;
      assert u[0] == x[0] && u[1..] == x[1..] + y;
      TripleCountAfterPlain(x[1..], y);
      if |u| >= 3 {
        assert !TripleAt(u);
      } else {
        TripleLength(u);
        TripleLength(y);
      }
    } else {
      assert x + y == y;
    }
  }

  lemma TripleLength(s: string)
    requires |s| < 3
    ensures TripleCount(s) == 0
  {
  }

  lemma {:induction false} TripleCountEscapeEach(s: string)
    ensures TripleCount(EscapeEach(s)) == TripleCount(s)
    decreases |s|
  {
    var e := EscapeEach(s);
    if |s| < 3 {
      EscapeEachKeepsQuotes(s);
      TripleCountQuotes(e);
      NoMoreQuotesThanLength(s);
    } else {
      TripleAtEscapeEach(s);
      if TripleAt(s) {
        TripleCountEscapeEach(s[3..]);
      } else if IsQuote(s[0]) {
        EscapeEachHead(s, s[0]);
        TripleCountEscapeEach(s[1..]);
        if |e| >= 3 {
          assert e[1..] == EscapeEach(s[1..]);
        } else {
          TripleLength(e);
          TripleLength(EscapeEach(s[1..]));
        }
      } else {
        var c := EscapeChar(s[0]);
        assert '"' !in c && '\'' !in c;
        TripleCountAfterPlain(c, EscapeEach(s[1..]));
        TripleCountEscapeEach(s[1..]);
      }
    }
  }

  lemma {:induction false} NoMoreQuotesThanLength(s: string)
    ensures QuoteCount(s) <= |s|
  {
    if s != [] {
      assert s == [s[0]] + s[1..];
      QuoteCountAppend([s[0]], s[1..]);
      NoMoreQuotesThanLength(s[1..]);
    }
  }

  /** Escaping keeps every triple quote where the scan finds it. */
  lemma EscapeKeepsTriples(s: string)
    ensures TripleCount(Escape(s)) == TripleCount(s)
  {
    EscapeIsPerChar(s);
    TripleCountEscapeEach(s);
  }

  /** Phase B, pass by pass, on the escaped line `s`. */
  function PhaseB(s: string): string {
    var (s1, fStrings) := Apply(FStrings, s, []);
    var (s2, strings) := Apply(Triples, s1, []);
    var (s3, comments) := Apply(Comments, s2, []);
    var (s4, strings') := Apply(Strings, s3, strings);
    var s5 := Apply(Keywords, s4, []).0;
    var s6 := Apply(Decorators, s5, []).0;
    var s7 := Apply(Controls, s6, []).0;
    var s8 := Apply(Calls, s7, []).0;
    var s9 := Apply(ClassNames, s8, []).0;
    var s10 := Apply(Numbers, s9, []).0;
    var s11 := Apply(Brackets, s10, []).0;
    var s12 := Apply(RestoreStrings, s11, strings').0;
    var s13 := Apply(RestoreComments, s12, comments).0;
    Apply(RestoreFStrings, s13, fStrings).0
  }

  /** The line with its three tables, as the passes of Phase B run. */
  method PhaseBPasses(line: string) returns (s: string)
    ensures s == PhaseB(line)
  {
    var fStrings, strings, comments, unused;
    s, fStrings := ReplaceAll(FStrings, line, []);
    s, strings := ReplaceAll(Triples, s, []);
    s, comments := ReplaceAll(Comments, s, []);
    s, strings := ReplaceAll(Strings, s, strings);
    s, unused := ReplaceAll(Keywords, s, []);
    s, unused := ReplaceAll(Decorators, s, []);
    s, unused := ReplaceAll(Controls, s, []);
    s, unused := ReplaceAll(Calls, s, []);
    s, unused := ReplaceAll(ClassNames, s, []);
    s, unused := ReplaceAll(Numbers, s, []);
    s, unused := ReplaceAll(Brackets, s, []);
    s, unused := ReplaceAll(RestoreStrings, s, strings);
    s, unused := ReplaceAll(RestoreComments, s, comments);
    s, unused := ReplaceAll(RestoreFStrings, s, fStrings);
  }

  /** Whether the line, outside a string, opens one: an odd number of triple quotes. */
  predicate Opens(s: string) {
    TripleCount(s) % 2 == 1
  }

  /**
   * `highlightPython(code, state)` as a value: the HTML, and the state it leaves.
   * Every recursive call escapes its argument again, although it is already escaped.
   */
  function Highlight(code: string, st: State): (r: (string, State))
    requires st.Valid()
    ensures r.1.Valid()
    decreases (if st.inQuote then 1 else 0), QuoteCount(Escape(code)), 2
  {
    Escaped(Escape(code), st)
  }

  /** The same, once the line `s` is escaped: Phase A, falling through to Phase B. */
  function Escaped(s: string, st: State): (r: (string, State))
    requires st.Valid()
    ensures r.1.Valid()
    decreases (if st.inQuote then 1 else 0), QuoteCount(s), 1
  {
    if st.inQuote then InString(s, st)
    else if Opens(s) then OpenString(s)
    else (PhaseB(s), st)
  }

  /**
   * Inside a string: all of the line is string text when the delimiter is not on it;
   * otherwise the text through the delimiter is, and the rest is highlighted afresh.
   */
  function InString(s: string, st: State): (r: (string, State))
    requires st.Valid() && st.inQuote
    ensures r.1.Valid()
    decreases 1, QuoteCount(s), 0
  {
    var d := st.quoteType.value;
    match IndexOf(s, d)
    case None => (Span("vs-string", s), st)
    case Some(k) => Found(s, d, k); Closed(s, k + |d|)
  }

  /** The line `s` inside a string that closes just before `n`: string text, then the rest afresh. */
  function Closed(s: string, n: nat): (r: (string, State))
    requires n <= |s|
    ensures r.1.Valid()
    decreases 0, QuoteCount(Escape(s[n..])), 3
  {
    var rest := Highlight(s[n..], Fresh);
    (Span("vs-string", s[..n]) + rest.0, rest.1)
  }

  /**
   * Outside a string, on a line with an odd number of triple quotes: the part before the
   * last one highlighted afresh, the rest string text, and that quote the delimiter.
   */
  function OpenString(s: string): (r: (string, State))
    requires Opens(s)
    ensures r.1.Valid()
    decreases 0, QuoteCount(s), 0
  {
    LastTripleSplit(s);
    var idx := LastTriple(s).value;
    EscapeKeepsQuotes(s[..idx]);
    var before := Highlight(s[..idx], Fresh);
    (before.0 + Span("vs-string", s[idx..]), State(true, Some(s[idx..idx + 3])))
  }

  /** Inside a string, `Escaped` is `InString`. */
  lemma EscapedInString(s: string, st: State)
    requires st.Valid() && st.inQuote
    ensures Escaped(s, st) == InString(s, st)
  {
  }

  /** Outside a string, on a line that opens one, `Escaped` is `OpenString`. */
  lemma EscapedOpens(s: string, st: State)
    requires st.Valid() && !st.inQuote && Opens(s)
    ensures Escaped(s, st) == OpenString(s)
  {
  }

  /** Inside a string with no closing delimiter on the line: all of it is string text. */
  lemma CarryOver(code: string, st: State)
    requires st.Valid() && st.inQuote && !Contains(Escape(code), st.quoteType.value)
    ensures Highlight(code, st) == (Span("vs-string", Escape(code)), st)
  {
    EscapedInString(Escape(code), st);
  }

  /**
   * Inside a string whose delimiter occurs on the line: string text up to and with its
   * first occurrence, then the rest highlighted afresh; the state is what the rest leaves.
   */
  lemma Close(code: string, st: State, k: nat)
    requires st.Valid() && st.inQuote && IndexOf(Escape(code), st.quoteType.value) == Some(k)
    ensures k + |st.quoteType.value| <= |Escape(code)|
    ensures var s, n := Escape(code), k + |st.quoteType.value|;
      Highlight(code, st) == (Span("vs-string", s[..n]) + Highlight(s[n..], Fresh).0, Highlight(s[n..], Fresh).1)
  {
    EscapedInString(Escape(code), st);
    CloseInString(Escape(code), st, k);
  }

  /** `Close` on the escaped line, inside the string. */
  lemma CloseInString(s: string, st: State, k: nat)
    requires st.Valid() && st.inQuote && IndexOf(s, st.quoteType.value) == Some(k)
    ensures k + |st.quoteType.value| <= |s|
    ensures var n := k + |st.quoteType.value|;
      InString(s, st) == (Span("vs-string", s[..n]) + Highlight(s[n..], Fresh).0, Highlight(s[n..], Fresh).1)
  {
    InStringIsClosed(s, st, st.quoteType.value, k, k + |st.quoteType.value|);
    ClosedParts(s, k + |st.quoteType.value|);
  }

  /** `indexOf` finds the delimiter, so `InString` takes the closing branch. */
  lemma InStringIsClosed(s: string, st: State, d: string, k: nat, n: nat)
    requires st.Valid() && st.inQuote && d == st.quoteType.value
    requires IndexOf(s, d) == Some(k) && n == k + |d|
    ensures n <= |s| && InString(s, st) == Closed(s, n)
  {
    Found(s, d, k);
  }

  /** One unfolding of `Closed`. */
  lemma ClosedParts(s: string, n: nat)
    requires n <= |s|
    ensures Closed(s, n) == (Span("vs-string", s[..n]) + Highlight(s[n..], Fresh).0, Highlight(s[n..], Fresh).1)
  {
  }

  /**
   * Outside a string, an odd number of triple quotes: the part before the last one is
   * highlighted with a fresh state, and the string opened there runs to the end of the line.
   */
  lemma Open(code: string, st: State)
    requires st.Valid() && !st.inQuote && Opens(Escape(code))
    ensures var s := Escape(code); LastTriple(s).Some? && var idx := LastTriple(s).value;
      idx + 3 <= |s| &&
      Highlight(code, st) == (Highlight(s[..idx], Fresh).0 + Span("vs-string", s[idx..]), State(true, Some(s[idx..idx + 3])))
  {
    EscapedOpens(Escape(code), st);
  }

  /** `Close` with the highlighted rest of the line already in hand. */
  lemma ClosePieces(code: string, st: State, k: nat, rest: string, st': State)
    requires st.Valid() && st.inQuote && IndexOf(Escape(code), st.quoteType.value) == Some(k)
    requires var s, n := Escape(code), k + |st.quoteType.value|;
      n <= |s| && (rest, st') == Highlight(s[n..], Fresh)
    ensures Highlight(code, st) == (Span("vs-string", Escape(code)[..k + |st.quoteType.value|]) + rest, st')
  {
    Close(code, st, k);
  }

  /** `Open` with the highlighted prefix already in hand. */
  lemma OpenPieces(code: string, st: State, head: string)
    requires st.Valid() && !st.inQuote && Opens(Escape(code))
    requires LastTriple(Escape(code)).Some?
    requires var s := Escape(code); var idx := LastTriple(s).value;
      idx + 3 <= |s| && head == Highlight(s[..idx], Fresh).0
    ensures var s := Escape(code); var idx := LastTriple(s).value;
      Highlight(code, st) == (head + Span("vs-string", s[idx..]), State(true, Some(s[idx..idx + 3])))
  {
    Open(code, st);
  }

  /** Outside a string and opening none: Phase B on the escaped line, the state untouched. */
  lemma SingleLine(code: string, st: State)
    requires st.Valid() && !st.inQuote && !Opens(Escape(code))
    ensures Highlight(code, st) == (PhaseB(Escape(code)), st)
  {
  }

  /** From a fresh state, a line leaves a string open exactly when it opens one. */
  lemma FreshState(code: string)
    ensures Highlight(code, Fresh).1.inQuote <==> Opens(code)
    ensures !Opens(code) ==> Highlight(code, Fresh).1 == Fresh
  {
    EscapeKeepsTriples(code);
    if Opens(Escape(code)) {
      EscapedOpens(Escape(code), Fresh);
    }
  }

  /**
   * After the closing delimiter the state is cleared, unless the rest of the line opens
   * another string.
   */
  lemma ClosedState(code: string, st: State, k: nat)
    requires st.Valid() && st.inQuote && IndexOf(Escape(code), st.quoteType.value) == Some(k)
    ensures k + |st.quoteType.value| <= |Escape(code)|
    ensures var rest := Escape(code)[k + |st.quoteType.value|..];
      (Highlight(code, st).1.inQuote <==> Opens(rest))
      && (!Opens(rest) ==> Highlight(code, st).1 == Fresh)
  {
    Close(code, st, k);
    FreshState(Escape(code)[k + |st.quoteType.value|..]);
  }

  /** Opening a string: the delimiter recorded is the last triple quote of the line. */
  lemma OpensAtLast(code: string, st: State)
    requires st.Valid() && !st.inQuote && Opens(Escape(code))
    ensures var s := Escape(code); LastTriple(s).Some? && var idx := LastTriple(s).value;
      idx + 3 <= |s| && Highlight(code, st).1 == State(true, Some(s[idx..idx + 3]))
      && (s[idx..idx + 3] == TripleDouble || s[idx..idx + 3] == TripleSingle)
  {
    var s := Escape(code);
    Open(code, st);
    var idx := LastTriple(s).value;
    assert s[idx..idx + 3] == s[idx..][..3];
    TripleIsDelimiter(s[idx..]);
  }

  /**
   * On a line that opens a string, the text from the last triple quote on holds only
   * that one, and the line before it holds an even number of them.
   */
  lemma OpeningSplit(s: string)
    requires Opens(s)
    ensures LastTriple(s).Some? && var idx := LastTriple(s).value;
      TripleCount(s[idx..]) == 1 && !Opens(s[..idx])
  {
    LastTripleSplit(s);
  }

  /** A triple-quote match is one of the two delimiters. */
  lemma TripleIsDelimiter(t: string)
    requires TripleAt(t)
    ensures t[..3] == TripleDouble || t[..3] == TripleSingle
  {
    if t[0] == '"' {
      assert t[..3] == ['"', '"', '"'];
    } else {
      assert t[..3] == ['\'', '\'', '\''];
    }
  }

  /**
   * The throwaway call on the part before an opening triple quote never recurses again:
   * that part, escaped once more, still holds an even number of triple quotes.
   */
  lemma PrefixIsSingleLine(code: string, st: State)
    requires st.Valid() && !st.inQuote && Opens(Escape(code))
    ensures var s := Escape(code); LastTriple(s).Some? && var idx := LastTriple(s).value;
      Highlight(s[..idx], Fresh) == (PhaseB(Escape(s[..idx])), Fresh)
  {
    var s := Escape(code);
    PrefixOpensNothing(s);
    SingleLine(s[..LastTriple(s).value], Fresh);
  }

  /** The part before the last triple quote of a line that opens a string, escaped again, opens nothing. */
  lemma PrefixOpensNothing(s: string)
    requires Opens(s)
    ensures LastTriple(s).Some? && !Opens(Escape(s[..LastTriple(s).value]))
  {
    OpeningSplit(s);
    EscapeKeepsTriples(s[..LastTriple(s).value]);
  }

  /** The number of `highlightPython` calls one top-level call makes, itself included. */
  function Depth(code: string, st: State): nat
    requires st.Valid()
    decreases (if st.inQuote then 1 else 0), QuoteCount(Escape(code))
  {
    var s := Escape(code);
    if st.inQuote then
      var d := st.quoteType.value;
      match IndexOf(s, d)
      // `InString`, no delimiter on the line: no further call.
      case None => 1
      // `InString` closing, then `Closed`: one call on the rest of the line.
      case Some(k) => 1 + Depth(s[k + |d|..], Fresh)
    else if Opens(s) then
      // `OpenString`: one call on the part before the last triple quote.
      LastTripleSplit(s);
      EscapeKeepsQuotes(s[..LastTriple(s).value]);
      1 + Depth(s[..LastTriple(s).value], Fresh)
    // Phase B: no further call.
    else 1
  }

  /**
   * `Depth` follows `Highlight`'s own branches: it is 1 exactly on the two that return
   * without calling again (a line carried over inside a string, Phase B outside one),
   * where `Highlight` gives that line's span and keeps the state, and more on the two
   * that recurse (a closing delimiter, an opening triple quote).
   */
  lemma DepthOne(code: string, st: State)
    requires st.Valid()
    ensures Depth(code, st) >= 1
    ensures Depth(code, st) == 1 <==>
      (st.inQuote && !Contains(Escape(code), st.quoteType.value)) || (!st.inQuote && !Opens(Escape(code)))
    ensures Depth(code, st) == 1 ==>
      Highlight(code, st) == (if st.inQuote then Span("vs-string", Escape(code)) else PhaseB(Escape(code)), st)
  {
    var s := Escape(code);
    if st.inQuote && !Contains(s, st.quoteType.value) {
      CarryOver(code, st);
    } else if !st.inQuote && !Opens(s) {
      SingleLine(code, st);
    }
  }

  /** Outside a string a call nests at most once more; inside one, at most twice. */
  lemma DepthBound(code: string, st: State)
    requires st.Valid()
    ensures !st.inQuote ==> Depth(code, st) <= 2
    ensures Depth(code, st) <= 3
  {
    if st.inQuote {
      var s, d := Escape(code), st.quoteType.value;
      if IndexOf(s, d).Some? {
        var k := IndexOf(s, d).value;
        DepthCloses(code, st, k);
        DepthOutside(s[k + |d|..], Fresh);
      } else {
        DepthCarries(code, st);
      }
    } else {
      DepthOutside(code, st);
    }
  }

  lemma DepthOutside(code: string, st: State)
    requires st.Valid() && !st.inQuote
    ensures Depth(code, st) <= 2
  {
    if Opens(Escape(code)) {
      DepthOpensBound(code, st);
    } else {
      DepthSingle(code, st);
    }
  }

  lemma DepthOpensBound(code: string, st: State)
    requires st.Valid() && !st.inQuote && Opens(Escape(code))
    ensures Depth(code, st) == 2
  {
    var s := Escape(code);
    OpeningSplit(s);
    var idx := LastTriple(s).value;
    EscapeKeepsTriples(s[..idx]);
    DepthOpens(code, st);
    DepthSingle(s[..idx], Fresh);
  }

  lemma DepthSingle(code: string, st: State)
    requires st.Valid() && !st.inQuote && !Opens(Escape(code))
    ensures Depth(code, st) == 1
  {
  }

  lemma DepthOpens(code: string, st: State)
    requires st.Valid() && !st.inQuote && Opens(Escape(code))
    ensures LastTriple(Escape(code)).Some?
    ensures Depth(code, st) == 1 + Depth(Escape(code)[..LastTriple(Escape(code)).value], Fresh)
  {
  }

  lemma DepthCarries(code: string, st: State)
    requires st.Valid() && st.inQuote && IndexOf(Escape(code), st.quoteType.value).None?
    ensures Depth(code, st) == 1
  {
  }

  lemma DepthCloses(code: string, st: State, k: nat)
    requires st.Valid() && st.inQuote && IndexOf(Escape(code), st.quoteType.value) == Some(k)
    ensures k + |st.quoteType.value| <= |Escape(code)|
    ensures Depth(code, st) == 1 + Depth(Escape(code)[k + |st.quoteType.value|..], Fresh)
  {
    assert OccursAt(Escape(code), st.quoteType.value, k);
  }

  /** A line that stays inside the string reads, once tags and entities are undone, as itself. */
  lemma CarryOverShowsLine(code: string, st: State)
    requires st.Valid() && st.inQuote && !Contains(Escape(code), st.quoteType.value)
    ensures Unescape(StripTags(Highlight(code, st).0)) == code
  {
    CarryOver(code, st);
    EscapeHasNoAngle(code);
    assert '>' !in "vs-string";
    StripSpan("vs-string", Escape(code), []);
    assert Span("vs-string", Escape(code)) + [] == Span("vs-string", Escape(code));
    assert StripTags([]) == [];
    assert Escape(code) + [] == Escape(code);
    UnescapeEscape(code);
  }

  /** The test `highlightPython` makes on the match count is `Opens`. */
  lemma OddCount(s: string)
    ensures (TripleCount(s) > 0 && TripleCount(s) % 2 != 0) <==> Opens(s)
  {
  }

  /**
   * The highlighter on the state object: the object ends as the value model says, and
   * the prefix before an opening triple quote is highlighted with a throwaway object.
   */
  method HighlightPython(code: string, state: ParserState) returns (html: string)
    requires state.Value().Valid()
    modifies state
    ensures (html, state.Value()) == Highlight(code, old(state.Value()))
    decreases (if state.inQuote then 1 else 0), QuoteCount(Escape(code))
  {
    ghost var st0 := state.Value();
    var s := Escape(code);
    if state.inQuote {
      var closeIdx := IndexOf(s, state.quoteType.value);
      if closeIdx.None? {
        CarryOver(code, state.Value());
        return Span("vs-string", s);
      }
      var quoteLen := |state.quoteType.value|;
      var strPart := s[..closeIdx.value + quoteLen];
      var remainingPart := s[closeIdx.value + quoteLen..];
      state.inQuote := false;
      state.quoteType := None;
      assert state.Value() == Fresh;
      var rest := HighlightPython(remainingPart, state);
      ClosePieces(code, st0, closeIdx.value, rest, state.Value());
      return Span("vs-string", strPart) + rest;
    }
    OddCount(s);
    if TripleCount(s) > 0 && TripleCount(s) % 2 != 0 {
      LastTripleSplit(s);
      var idx := LastTriple(s).value;
      state.inQuote := true;
      state.quoteType := Some(s[idx..idx + 3]);
      var before := s[..idx];
      var after := s[idx..];
      EscapeKeepsQuotes(before);
      var throwaway := new ParserState();
      var head := HighlightPython(before, throwaway);
      assert state.Value() == State(true, Some(s[idx..idx + 3]));
      OpenPieces(code, st0, head);
      return head + Span("vs-string", after);
    }
    SingleLine(code, state.Value());
    html := PhaseBPasses(s);
  }
}

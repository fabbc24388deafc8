/**
 * What single passes of Phase B do to the text in front of them: how far a comment
 * reaches, which placeholders each pass leaves alone, what a restore writes back, and
 * how a keyword span picks up a class span inside it.
 */
module Passes {
  import opened Text
  import opened Html
  import opened Patterns

  /** Positions where the rule matches nothing are copied as they are. */
  lemma {:induction false} ScanCopy(r: Rule, s: string, i: nat, k: nat, out: string, t: seq<string>)
    requires i <= k <= |s|
    requires forall j :: i <= j < k ==> MatchAt(r, s, j).None?
    ensures Scan(r, s, i, out, t) == Scan(r, s, k, out + s[i..k], t)
    decreases k - i
  {
    if i < k {
      ScanCopy(r, s, i + 1, k, out + [s[i]], t);
      assert out + [s[i]] + s[i + 1..k] == out + s[i..k];
    } else {
      assert out + s[i..k] == out;
    }
  }

  /** Without any match the pass gives the text and the table back unchanged. */
  lemma NoMatchNoChange(r: Rule, s: string, t: seq<string>)
    requires forall j :: 0 <= j < |s| ==> MatchAt(r, s, j).None?
    ensures Apply(r, s, t) == (s, t)
  {
    ScanCopy(r, s, 0, |s|, [], t);
    assert [] + s[0..|s|] == s;
  }

  /** A match at `i` writes its replacement and resumes after it. */
  lemma ScanMatch(r: Rule, s: string, i: nat, e: nat, out: string, t: seq<string>)
    requires i < |s| && MatchAt(r, s, i) == Some(e)
    ensures Scan(r, s, i, out, t)
         == Scan(r, s, e, out + Replacement(r, s, i, e, t).0, Replacement(r, s, i, e, t).1)
  {
  }

  /**
   * A comment runs from the first `#` to the end of the line, whatever it is inside:
   * on `x = "a # b"` the comment is `# b"`, because comments are cut out before
   * strings are.
   */
  lemma CommentExtraction(a: string, b: string, t: seq<string>)
    requires '#' !in a
    requires |b| >= 1 && b[0] == '#'
    requires forall j :: 0 <= j < |b| ==> !IsLineTerminator(b[j])
    ensures Apply(Comments, a + b, t) == (a + Placeholder("__COM", |t|), t + [b])
  {
    var s := a + b;
    forall j | 0 <= j < |a|
      ensures MatchAt(Comments, s, j).None?
    {
      assert s[j] == a[j] && a[j] in a;
    }
    ScanCopy(Comments, s, 0, |a|, [], t);
    assert [] + s[0..|a|] == a;
    assert s[|a|] == '#';
    var e := LineEnd(s, |a|);
    assert e == |s|;
    ScanMatch(Comments, s, |a|, e, a, t);
    assert s[|a|..e] == b;
  }

  /** Where the pieces of `a + m + b` sit. */
  lemma Pieces3(a: string, m: string, b: string)
    ensures var s := a + m + b;
      |s| == |a| + |m| + |b|
      && (forall j :: 0 <= j < |a| ==> s[j] == a[j])
      && (forall j :: 0 <= j < |m| ==> s[|a| + j] == m[j])
      && (forall j :: 0 <= j < |b| ==> s[|a| + |m| + j] == b[j])
  {
  }

  /** A pass that matches exactly once, on `m` between `a` and `b`, replaces just `m`. */
  lemma OneMatch(r: Rule, a: string, m: string, b: string, t: seq<string>)
    requires |m| > 0
    requires forall j :: 0 <= j < |a| ==> MatchAt(r, a + m + b, j).None?
    requires MatchAt(r, a + m + b, |a|) == Some(|a| + |m|)
    requires forall j :: |a| + |m| <= j < |a + m + b| ==> MatchAt(r, a + m + b, j).None?
    ensures var rep := Replacement(r, a + m + b, |a|, |a| + |m|, t);
      Apply(r, a + m + b, t) == (a + rep.0 + b, rep.1)
  {
    var s, e := a + m + b, |a| + |m|;
    var rep := Replacement(r, s, |a|, e, t);
    MatchAfter(r, a, m, b, t);
    ScanCopy(r, s, e, |s|, a + rep.0, rep.1);
    assert s[e..|s|] == b;
  }

  /** Up to the end of the one match: `a` copied, then the replacement of `m`. */
  lemma MatchAfter(r: Rule, a: string, m: string, b: string, t: seq<string>)
    requires |m| > 0
    requires forall j :: 0 <= j < |a| ==> MatchAt(r, a + m + b, j).None?
    requires MatchAt(r, a + m + b, |a|) == Some(|a| + |m|)
    ensures var rep := Replacement(r, a + m + b, |a|, |a| + |m|, t);
      Apply(r, a + m + b, t) == Scan(r, a + m + b, |a| + |m|, a + rep.0, rep.1)
  {
    ScanMatch(r, a + m + b, |a|, |a| + |m|, a, t);
    CopyBefore(r, a + m + b, |a|, t);
    assert (a + m + b)[..|a|] == a;
  }

  /** Up to the first match, at `k`, the text is copied as it is. */
  lemma CopyBefore(r: Rule, s: string, k: nat, t: seq<string>)
    requires k <= |s|
    requires forall j :: 0 <= j < k ==> MatchAt(r, s, j).None?
    ensures Apply(r, s, t) == Scan(r, s, k, s[..k], t)
  {
    ScanCopy(r, s, 0, k, [], t);
    assert [] + s[0..k] == s[..k];
  }

  /** No quote character in `x`. */
  predicate NoQuotes(x: string) {
    forall j :: 0 <= j < |x| ==> !IsQuote(x[j])
  }

  /**
   * A one-line string literal such as `'a'`, with no other quote on the line, is cut
   * out whole: the table gets the literal, quotes included, and the line the
   * placeholder of the new entry, numbered by the table's length.
   */
  lemma StringExtraction(a: string, q: char, body: string, b: string, t: seq<string>)
    requires IsQuote(q) && NoQuotes(a) && NoQuotes(b)
    requires forall j :: 0 <= j < |body| ==> body[j] != q && !IsLineTerminator(body[j])
    ensures var m := [q] + body + [q];
      Apply(Strings, a + m + b, t) == (a + Placeholder("__STR", |t|) + b, t + [m])
  {
    var m := [q] + body + [q];
    var s, i, e := a + m + b, |a|, |a| + |m|;
    Pieces3(a, m, b);
    forall j | 0 <= j < |a|
      ensures MatchAt(Strings, s, j).None?
    {
      assert s[j] == a[j];
    }
    forall j | e <= j < |s|
      ensures MatchAt(Strings, s, j).None?
    {
      assert s[j] == b[j - e];
    }
    forall j | i + 1 <= j < e - 1
      ensures s[j] != q && !IsLineTerminator(s[j])
    {
      assert s[j] == m[j - i] == body[j - i - 1];
    }
    assert s[i] == m[0] && s[e - 1] == m[|m| - 1];
    FindOnLineAt(s, q, i + 1, e - 1);
    OneMatch(Strings, a, m, b, t);
    assert s[i..e] == m;
  }

  /**
   * A triple-quoted string closed on the same line, as `"""a"""` or `'''it's'''`, with no quote
   * on the line outside it, is one table entry: everything from the opening to the first
   * closing triple of the same kind. The body may hold quotes of any kind as long as the
   * delimiter does not begin inside it, so `"""say "hi" """` is one entry.
   */
  lemma TripleExtraction(a: string, d: string, body: string, b: string, t: seq<string>)
    requires d == TripleDouble || d == TripleSingle
    requires NoQuotes(a) && NoQuotes(b)
    requires forall j :: 0 <= j < |body| ==> !OccursAt(body + d, d, j)
    ensures var m := d + body + d;
      Apply(Triples, a + m + b, t) == (a + Placeholder("__STR", |t|) + b, t + [m])
  {
    var m := d + body + d;
    var s, i, e := a + m + b, |a|, |a| + |m|;
    Pieces3(a, m, b);
    forall j | 0 <= j < |a|
      ensures MatchAt(Triples, s, j).None?
    {
      assert s[j] == a[j];
      NotTripleAt(s, j);
    }
    forall j | e <= j < |s|
      ensures MatchAt(Triples, s, j).None?
    {
      assert s[j] == b[j - e];
      NotTripleAt(s, j);
    }
    TripleMatch(a, d, body, b);
    OneMatch(Triples, a, m, b, t);
    Middle(a, m, b);
  }

  /** The middle piece of `a + m + b`. */
  lemma Middle(a: string, m: string, b: string)
    ensures (a + m + b)[|a|..|a| + |m|] == m
  {
    assert (a + m + b)[|a|..|a| + |m|] == (a + m + b)[..|a| + |m|][|a|..];
  }

  /** The triple-quote pattern matches `d + body + d` after `a`. */
  lemma TripleMatch(a: string, d: string, body: string, b: string)
    requires d == TripleDouble || d == TripleSingle
    requires forall j :: 0 <= j < |body| ==> !OccursAt(body + d, d, j)
    ensures MatchAt(Triples, a + (d + body + d) + b, |a|) == Some(|a| + |d + body + d|)
  {
    var m := d + body + d;
    TripleSpanAt(a, d, body, b);
    NoEarlierClose(a + m + b, d, body, |a|, |a| + |m|);
    MatchTripleAt(a + m + b, d, |a|, |a| + |m|);
  }

  /** Where the two delimiters and the body of `d + body + d` sit after `a`. */
  lemma TripleSpanAt(a: string, d: string, body: string, b: string)
    requires |d| == 3
    ensures var m := d + body + d;
      var s, i, e := a + m + b, |a|, |a| + |m|;
      i + 6 <= e <= |s| && s[i..i + 3] == d && s[e - 3..e] == d && s[i + 3..e] == body + d
  {
    var m := d + body + d;
    var s, i, e := a + m + b, |a|, |a| + |m|;
    Middle(a, m, b);
    assert s[i..e] == m;
    assert s[i..e][..3] == d && s[i..e][3..] == body + d && s[i..e][|m| - 3..] == d;
  }

  /** The delimiter does not occur in `s` between the opening and the closing one. */
  lemma NoEarlierClose(s: string, d: string, body: string, i: nat, e: nat)
    requires |d| == 3 && i + 3 <= e <= |s| && s[i + 3..e] == body + d
    requires forall j :: 0 <= j < |body| ==> !OccursAt(body + d, d, j)
    ensures forall j :: i + 3 <= j < e - 3 ==> !OccursAt(s, d, j)
  {
    forall j | i + 3 <= j < e - 3
      ensures !OccursAt(s, d, j)
    {
      ShiftOccurs(s, i + 3, e, body + d, d, j - i - 3);
    }
  }

  /** Whether `d` occurs inside a slice is whether it occurs there in the whole text. */
  lemma ShiftOccurs(s: string, lo: nat, hi: nat, x: string, d: string, k: nat)
    requires lo <= hi <= |s| && s[lo..hi] == x && k + |d| <= |x|
    ensures OccursAt(s, d, lo + k) == OccursAt(x, d, k)
  {
    var u, v := s[lo + k..lo + k + |d|], x[k..k + |d|];
    forall c | 0 <= c < |d|
      ensures u[c] == v[c]
    {
      assert s[lo + k + c] == s[lo..hi][k + c];
    }
    assert u == v;
  }

  /** No triple quote starts at a character that is not a quote. */
  lemma NotTripleAt(s: string, j: nat)
    requires j < |s| && !IsQuote(s[j])
    ensures !OccursAt(s, TripleDouble, j) && !OccursAt(s, TripleSingle, j)
  {
  }

  /** The triple-quote pattern matches `d`, then everything up to the next `d`, at `i`. */
  lemma MatchTripleAt(s: string, d: string, i: nat, e: nat)
    requires d == TripleDouble || d == TripleSingle
    requires i + 6 <= e <= |s| && s[i..i + 3] == d && s[e - 3..e] == d
    requires forall j :: i + 3 <= j < e - 3 ==> !OccursAt(s, d, j)
    ensures MatchAt(Triples, s, i) == Some(e)
  {
    FindFromAt(s, d, i + 3, e - 3);
  }

  /**
   * An f-string such as `f"x{y}"` at a word start, with no other quote on the line, is
   * cut out whole: the table gets its markup, and the line the placeholder `__FSTRn__`.
   */
  lemma FStringExtraction(a: string, q: char, inner: string, b: string, t: seq<string>)
    requires IsQuote(q) && NoQuotes(a) && NoQuotes(b)
    requires a == [] || !IsWord(a[|a| - 1])
    requires forall j :: 0 <= j < |inner| ==> inner[j] != q && !IsLineTerminator(inner[j])
    ensures var m := ['f', q] + inner + [q];
      Apply(FStrings, a + m + b, t) == (a + Placeholder("__FSTR", |t|) + b, t + [FString.Markup(q, inner)])
  {
    var m := ['f', q] + inner + [q];
    var s, i, e := a + m + b, |a|, |a| + |m|;
    Pieces3(a, m, b);
    forall j | 0 <= j < |a|
      ensures MatchAt(FStrings, s, j).None?
    {
      if j + 1 < |a| {
        assert s[j + 1] == a[j + 1];
      }
      NoFStringAt(s, j);
    }
    forall j | e <= j < |s|
      ensures MatchAt(FStrings, s, j).None?
    {
      if j + 1 < |s| {
        assert s[j + 1] == b[j + 1 - e];
      }
      NoFStringAt(s, j);
    }
    FStringAt(a, q, inner, b);
    OneMatch(FStrings, a, m, b, t);
  }

  /** No f-string begins at `j` unless a quote follows it. */
  lemma NoFStringAt(s: string, j: nat)
    requires j < |s| && (j + 1 == |s| || !IsQuote(s[j + 1]))
    ensures MatchAt(FStrings, s, j).None?
  {
  }

  /** The f-string pattern matches `f`, the quote, the contents and the quote, and reads them back. */
  lemma FStringAt(a: string, q: char, inner: string, b: string)
    requires IsQuote(q) && (a == [] || !IsWord(a[|a| - 1]))
    requires forall j :: 0 <= j < |inner| ==> inner[j] != q && !IsLineTerminator(inner[j])
    ensures var m := ['f', q] + inner + [q];
      var s, i, e := a + m + b, |a|, |a| + |m|;
      MatchAt(FStrings, s, i) == Some(e) && s[i + 1] == q && s[i + 2..e - 1] == inner
  {
    var m := ['f', q] + inner + [q];
    FStringSpanAt(a, q, inner, b);
    MatchFStringAt(a + m + b, q, |a|, |a| + |m|);
  }

  /** Where `f`, the quotes and the contents of `f` + quote + `inner` + quote sit after `a`. */
  lemma FStringSpanAt(a: string, q: char, inner: string, b: string)
    requires forall j :: 0 <= j < |inner| ==> inner[j] != q && !IsLineTerminator(inner[j])
    ensures var m := ['f', q] + inner + [q];
      var s, i, e := a + m + b, |a|, |a| + |m|;
      && i + 3 <= e <= |s| && s[i] == 'f' && s[i + 1] == q && s[e - 1] == q
      && (i > 0 ==> s[i - 1] == a[|a| - 1])
      && s[i + 2..e - 1] == inner
      && (forall j :: i + 2 <= j < e - 1 ==> s[j] != q && !IsLineTerminator(s[j]))
  {
    var m := ['f', q] + inner + [q];
    var s, i, e := a + m + b, |a|, |a| + |m|;
    assert s[i..e] == m;
    assert s[i + 2..e - 1] == m[2..|m| - 1] == inner;
    forall j | i + 2 <= j < e - 1
      ensures s[j] != q && !IsLineTerminator(s[j])
    {
      assert s[j] == s[i + 2..e - 1][j - i - 2];
    }
  }

  /** `f`, a quote at a word start, and the next same quote on the line at `e - 1`. */
  lemma MatchFStringAt(s: string, q: char, i: nat, e: nat)
    requires i + 3 <= e <= |s| && s[i] == 'f' && (i == 0 || !IsWord(s[i - 1]))
    requires IsQuote(q) && s[i + 1] == q && s[e - 1] == q
    requires forall j :: i + 2 <= j < e - 1 ==> s[j] != q && !IsLineTerminator(s[j])
    ensures MatchAt(FStrings, s, i) == Some(e)
  {
    FindOnLineAt(s, q, i + 2, e - 1);
    assert IsBoundary(s, i);
  }

  /** The string pass, which runs later, finds no quote left of an f-string it has cut out. */
  lemma FStringHidesQuotes(a: string, n: nat, b: string, t: seq<string>)
    requires NoQuotes(a) && NoQuotes(b)
    ensures var s := a + Placeholder("__FSTR", n) + b; Apply(Strings, s, t) == (s, t)
  {
    var p := Placeholder("__FSTR", n);
    var s := a + p + b;
    PlaceholderShape("__FSTR", n);
    Pieces3(a, p, b);
    forall j | 0 <= j < |s|
      ensures MatchAt(Strings, s, j).None?
    {
      if j < |a| {
        assert s[j] == a[j];
      } else if j < |a| + |p| {
        assert s[j] == p[j - |a|];
      } else {
        assert s[j] == b[j - |a| - |p|];
      }
    }
    NoMatchNoChange(Strings, s, t);
  }

  /** The three placeholder prefixes. */
  predicate KnownPrefix(prefix: string) {
    prefix == "__STR" || prefix == "__COM" || prefix == "__FSTR"
  }

  /** A placeholder is one word: underscores, capitals, the entry's digits, underscores. */
  lemma PlaceholderShape(prefix: string, n: nat)
    requires KnownPrefix(prefix)
    ensures var p, d := Placeholder(prefix, n), NatToString(n);
      |p| == |prefix| + |d| + 2 && p[0] == '_'
      && (forall j :: 0 <= j < |p| ==> IsWord(p[j]))
      && (forall j :: 0 <= j < |prefix| ==> !IsDigit(p[j]))
      && p[|prefix|..|prefix| + |d|] == d && p[|prefix| + |d|] == '_'
  {
    var p, d := Placeholder(prefix, n), NatToString(n);
    PrefixShape(prefix);
    assert p == prefix + d + "__";
    assert forall j :: 0 <= j < |prefix| ==> p[j] == prefix[j];
    assert forall j :: |prefix| <= j < |prefix| + |d| ==> p[j] == d[j - |prefix|];
  }

  /** Each placeholder prefix is underscores and capitals. */
  lemma PrefixShape(prefix: string)
    requires KnownPrefix(prefix)
    ensures |prefix| >= 1 && prefix[0] == '_'
    ensures forall j :: 0 <= j < |prefix| ==> IsWord(prefix[j]) && !IsDigit(prefix[j])
  {
  }

  /** Where `x + p + rest` has the pieces of `p`, and what lies around them. */
  lemma Pieces(x: string, p: string, rest: string)
    ensures var s := x + p + rest;
      |s| == |x| + |p| + |rest|
      && (forall j :: 0 <= j < |p| ==> s[|x| + j] == p[j])
      && (rest != [] ==> s[|x| + |p|] == rest[0])
      && (x != [] ==> s[|x| - 1] == x[|x| - 1])
  {
  }

  /** `prefix(\d+)__` right after `x`: the prefix, a run of digits, two underscores. */
  lemma MatchPlaceholderAt(x: string, prefix: string, d: string, rest: string)
    requires |d| >= 1 && AllDigits(d)
    ensures var p := prefix + d + "__";
      var s, i := x + p + rest, |x|;
      MatchPlaceholder(s, i, prefix) == Some(i + |p|) && s[i + |prefix|..i + |p| - 2] == d
  {
    var p := prefix + d + "__";
    var s, i := x + p + rest, |x|;
    var a := i + |prefix|;
    assert i + |p| - 2 == a + |d|;
    assert s[i..a] == prefix;
    assert forall j :: a <= j < a + |d| ==> s[j] == d[j - a];
    assert s[a + |d|] == '_';
    var e := DigitEnd(s, a);
    assert e == a + |d|;
    assert s[e..e + 2] == "__";
    assert s[a..a + |d|] == d;
  }

  /** The restoring pattern matches a whole placeholder and reads back its digits. */
  lemma PlaceholderMatch(x: string, prefix: string, n: nat, rest: string)
    ensures var s, i, p := x + Placeholder(prefix, n) + rest, |x|, Placeholder(prefix, n);
      MatchPlaceholder(s, i, prefix) == Some(i + |p|)
      && s[i + |prefix|..i + |p| - 2] == NatToString(n)
  {
    MatchPlaceholderAt(x, prefix, NatToString(n), rest);
  }

  /**
   * The entry a placeholder stands for, as the restore reads it: the entry when there
   * is one, the text `undefined` when the table is shorter (a placeholder the source
   * code itself spelled out).
   */
  lemma LookupPlaceholder(table: seq<string>, n: nat)
    ensures Lookup(table, NatToString(n)) == if n < |table| then table[n] else "undefined"
  {
    DecimalRoundTrip(n);
  }

  /** What a restoring pass writes for an entry: the f-string markup bare, the others in a span. */
  function RestoredText(r: Rule, v: string): string {
    if r.RestoreFStrings? then v else Span(SpanClass(r), v)
  }

  lemma ReplacementRestores(r: Rule, s: string, e: nat, table: seq<string>)
    requires Restores(r) && 0 < e <= |s| && MatchAt(r, s, 0) == Some(e)
    ensures Replacement(r, s, 0, e, table)
         == (RestoredText(r, Lookup(table, s[|Prefix(r)|..e - 2])), table)
  {
  }

  lemma MatchAtRestore(r: Rule, s: string, i: nat)
    requires Restores(r) && i < |s|
    ensures MatchAt(r, s, i) == MatchPlaceholder(s, i, Prefix(r))
  {
  }

  /** A placeholder on its own is one whole match of its restoring pattern. */
  lemma PlaceholderAlone(prefix: string, n: nat)
    ensures var p := Placeholder(prefix, n);
      MatchPlaceholder(p, 0, prefix) == Some(|p|) && p[|prefix|..|p| - 2] == NatToString(n)
  {
    var d, p := NatToString(n), Placeholder(prefix, n);
    var a := |prefix|;
    assert p[0..a] == prefix;
    assert forall j :: a <= j < a + |d| ==> p[j] == d[j - a];
    assert p[a + |d|] == '_';
    assert DigitEnd(p, a) == a + |d|;
    assert p[a + |d|..a + |d| + 2] == "__";
    assert p[a..a + |d|] == d;
  }

  /** A text that is one whole match is replaced as a whole. */
  lemma WholeMatch(r: Rule, s: string, table: seq<string>)
    requires 0 < |s| && MatchAt(r, s, 0) == Some(|s|)
    ensures Apply(r, s, table) == Replacement(r, s, 0, |s|, table)
  {
    ScanMatch(r, s, 0, |s|, [], table);
    var rep := Replacement(r, s, 0, |s|, table);
    assert [] + rep.0 == rep.0;
  }

  /** What a restoring pass writes in place of the placeholder for entry `n`. */
  lemma RestoreEntry(r: Rule, n: nat, table: seq<string>)
    requires Restores(r)
    ensures Apply(r, Placeholder(Prefix(r), n), table)
         == (RestoredText(r, if n < |table| then table[n] else "undefined"), table)
  {
    var p := Placeholder(Prefix(r), n);
    PlaceholderAlone(Prefix(r), n);
    MatchAtRestore(r, p, 0);
    WholeMatch(r, p, table);
    ReplacementRestores(r, p, |p|, table);
    LookupPlaceholder(table, n);
  }

  /** A pattern holding a character the text lacks occurs nowhere in it. */
  lemma AbsentCharNoOccurrence(s: string, pat: string, k: nat, j: nat)
    requires k < |pat| && pat[k] !in s
    ensures !OccursAt(s, pat, j)
  {
  }

  lemma NoSInCommentPlaceholder(n: nat)
    ensures 'S' !in Placeholder("__COM", n)
  {
    var d := NatToString(n);
    assert Placeholder("__COM", n) == "__COM" + d + "__";
    assert forall j :: 0 <= j < |d| ==> d[j] != 'S';
  }

  /**
   * A comment is restored after strings are: the string restore passes over a comment
   * placeholder, and the comment restore then writes the entry back as it was cut out,
   * so a `__STR…__` left inside it by the triple-quote pass (as in `# """x"""`) is
   * never replaced.
   */
  lemma {:induction false} CommentRestoredVerbatim(n: nat, strings: seq<string>, comments: seq<string>)
    requires n < |comments|
    ensures Apply(RestoreStrings, Placeholder("__COM", n), strings) == (Placeholder("__COM", n), strings)
    ensures Apply(RestoreComments, Placeholder("__COM", n), comments) == (Span("vs-comment", comments[n]), comments)
  {
    var p := Placeholder("__COM", n);
    NoSInCommentPlaceholder(n);
    forall j | 0 <= j < |p|
      ensures MatchAt(RestoreStrings, p, j).None?
    {
      AbsentCharNoOccurrence(p, "__STR", 2, j);
    }
    NoMatchNoChange(RestoreStrings, p, strings);
    RestoreEntry(RestoreComments, n, comments);
  }

  /** The highlighting passes that match whole words at a word start. */
  predicate WordPass(r: Rule) {
    r.Keywords? || r.Controls? || r.ClassNames? || r.Numbers?
  }

  /** No keyword, control word, class name or number begins inside or at a placeholder. */
  lemma {:induction false} PlaceholderImmune(r: Rule, x: string, prefix: string, n: nat, rest: string)
    requires WordPass(r) && KnownPrefix(prefix)
    ensures var s := x + Placeholder(prefix, n) + rest;
      forall j :: |x| <= j < |x| + |Placeholder(prefix, n)| ==> MatchAt(r, s, j).None?
  {
    PlaceholderShape(prefix, n);
    var p := Placeholder(prefix, n);
    var s := x + p + rest;
    forall j | |x| <= j < |x| + |p|
      ensures MatchAt(r, s, j).None?
    {
      assert s[j] == p[j - |x|];
      if j > |x| {
        assert s[j - 1] == p[j - 1 - |x|];
        NoWordMatchInside(r, s, j);
      } else {
        NoWordMatchAtUnderscore(r, s, j);
      }
    }
  }

  /** A word pass matches only where a word begins. */
  lemma NoWordMatchInside(r: Rule, s: string, j: nat)
    requires WordPass(r) && 0 < j < |s| && IsWord(s[j - 1]) && IsWord(s[j])
    ensures MatchAt(r, s, j).None?
  {
    assert !StartsWord(s, j) && !IsBoundary(s, j);
  }

  /** No keyword, control word, class name or number begins with `_`. */
  lemma NoWordMatchAtUnderscore(r: Rule, s: string, j: nat)
    requires WordPass(r) && j < |s| && s[j] == '_'
    ensures MatchAt(r, s, j).None?
  {
    if StartsWord(s, j) {
      var w := s[j..WordEnd(s, j)];
      assert w[0] == '_';
      assert w !in KeywordWords() && w !in ControlWords();
    }
  }

  /** The call pass, in contrast, wraps a placeholder followed by `(` in a function span. */
  lemma {:induction false} CallsSeePlaceholder(x: string, prefix: string, n: nat, rest: string)
    requires KnownPrefix(prefix)
    requires x == [] || !IsWord(x[|x| - 1])
    requires rest != [] && rest[0] == '('
    ensures var s := x + Placeholder(prefix, n) + rest;
      MatchAt(Calls, s, |x|) == Some(|x| + |Placeholder(prefix, n)|)
  {
    PlaceholderShape(prefix, n);
    var p := Placeholder(prefix, n);
    var s := x + p + rest;
    Pieces(x, p, rest);
    assert forall j :: |x| <= j < |x| + |p| ==> s[j] == p[j - |x|];
    assert s[|x| + |p|] == '(';
    assert WordEnd(s, |x|) == |x| + |p|;
  }

  /** Nor does a call begin inside a placeholder, or at one not followed by `(`, whatever precedes it. */
  lemma {:induction false} CallsSkipPlaceholder(x: string, prefix: string, n: nat, rest: string)
    requires KnownPrefix(prefix)
    requires rest == [] || (!IsWord(rest[0]) && rest[0] != '(')
    ensures var s := x + Placeholder(prefix, n) + rest;
      forall j :: |x| <= j < |x| + |Placeholder(prefix, n)| ==> MatchAt(Calls, s, j).None?
  {
    PlaceholderShape(prefix, n);
    var p := Placeholder(prefix, n);
    var s := x + p + rest;
    WordRun(x, p, rest);
    forall j | |x| <= j < |x| + |p|
      ensures MatchAt(Calls, s, j).None?
    {
      if j > |x| || (j > 0 && IsWord(s[j - 1])) {
        NoCallInsideWord(s, j);
      } else {
        NoCallBeforeWordEnd(s, j, |x| + |p|);
      }
    }
  }

  /** A word `p` between `x` and `rest` is a run of word characters in `x + p + rest`. */
  lemma WordRun(x: string, p: string, rest: string)
    requires forall j :: 0 <= j < |p| ==> IsWord(p[j])
    requires rest == [] || (!IsWord(rest[0]) && rest[0] != '(')
    ensures var s, e := x + p + rest, |x| + |p|;
      && e <= |s| && (forall k :: |x| <= k < e ==> IsWord(s[k]))
      && (e == |s| || (!IsWord(s[e]) && s[e] != '('))
  {
    var s, e := x + p + rest, |x| + |p|;
    forall k | |x| <= k < e
      ensures IsWord(s[k])
    {
      assert s[k] == p[k - |x|];
    }
    if e < |s| {
      assert s[e] == rest[0];
    }
  }

  /** A call begins only where a word does. */
  lemma NoCallInsideWord(s: string, j: nat)
    requires 0 < j < |s| && IsWord(s[j - 1])
    ensures MatchAt(Calls, s, j).None?
  {
  }

  /** Nor at a word that runs to `e` when no `(` is found there. */
  lemma NoCallBeforeWordEnd(s: string, i: nat, e: nat)
    requires i <= e <= |s| && forall k :: i <= k < e ==> IsWord(s[k])
    requires e == |s| || (!IsWord(s[e]) && s[e] != '(')
    requires i < |s|
    ensures MatchAt(Calls, s, i).None?
  {
    assert WordEnd(s, i) == e;
  }

  const KeywordOpen := Tag("span class=\"vs-keyword\"")

  lemma NoUpperInTags()
    ensures forall j :: 0 <= j < |KeywordOpen| ==> !IsUpper(KeywordOpen[j])
    ensures forall j :: 0 <= j < |SpanClose| ==> !IsUpper(SpanClose[j])
    ensures KeywordOpen[|KeywordOpen| - 1] == '>' && SpanClose[0] == '<'
  {
    NoUpperInKeywordOpen();
    NoUpperInSpanClose();
  }

  lemma NoUpperInKeywordOpen()
    ensures forall j :: 0 <= j < |KeywordOpen| ==> !IsUpper(KeywordOpen[j])
    ensures KeywordOpen[|KeywordOpen| - 1] == '>'
  {
    assert KeywordOpen == "<span class=\"vs-keyword\">";
  }

  lemma NoUpperInSpanClose()
    ensures forall j :: 0 <= j < |SpanClose| ==> !IsUpper(SpanClose[j])
    ensures SpanClose[0] == '<'
  {
    assert SpanClose == "</span>";
  }

  /** The class pass copies a stretch without capital letters. */
  lemma {:induction false} CopyNoUpper(s: string, a: nat, b: nat, out: string, t: seq<string>)
    requires a <= b <= |s|
    requires forall j :: a <= j < b ==> !IsUpper(s[j])
    ensures Scan(ClassNames, s, a, out, t) == Scan(ClassNames, s, b, out + s[a..b], t)
  {
    forall j | a <= j < b
      ensures MatchAt(ClassNames, s, j).None?
    {
    }
    ScanCopy(ClassNames, s, a, b, out, t);
  }

  /** A capitalised word between two stretches without capitals gets the only class span. */
  lemma {:induction false} ClassBetween(o: string, w: string, c: string, t: seq<string>)
    requires |o| >= 1 && !IsWord(o[|o| - 1]) && (forall j :: 0 <= j < |o| ==> !IsUpper(o[j]))
    requires |c| >= 1 && !IsWord(c[0]) && (forall j :: 0 <= j < |c| ==> !IsUpper(c[j]))
    requires |w| >= 1 && IsUpper(w[0]) && forall j :: 0 <= j < |w| ==> IsWord(w[j])
    ensures Apply(ClassNames, o + w + c, t) == (o + Span("vs-class", w) + c, t)
  {
    var s, e := o + w + c, |o| + |w|;
    ClassWordAt(o, w, c);
    CopyNoUpper(s, 0, |o|, [], t);
    assert [] + s[0..|o|] == o;
    ScanMatch(ClassNames, s, |o|, e, o, t);
    CopyNoUpper(s, e, |s|, o + Span("vs-class", w), t);
  }

  /** Where the pieces of `o + w + c` sit, and the class match `w` makes in the middle. */
  lemma ClassWordAt(o: string, w: string, c: string)
    requires |o| >= 1 && !IsWord(o[|o| - 1])
    requires |c| >= 1 && !IsWord(c[0])
    requires |w| >= 1 && IsUpper(w[0]) && forall j :: 0 <= j < |w| ==> IsWord(w[j])
    ensures var s, e := o + w + c, |o| + |w|;
      (forall j :: 0 <= j < |o| ==> s[j] == o[j])
      && (forall j :: e <= j < |s| ==> s[j] == c[j - e])
      && s[0..|o|] == o && s[|o|..e] == w && s[e..|s|] == c
      && MatchAt(ClassNames, s, |o|) == Some(e)
  {
    var s, e := o + w + c, |o| + |w|;
    Pieces(o, w, c);
    assert forall j :: 0 <= j < |o| ==> s[j] == o[j];
    assert WordEnd(s, |o|) == e;
    assert s[|o|..e] == w;
    assert s[e..|s|] == c;
  }

  /**
   * The class pass runs after the keyword pass and finds `True`, `None` and `False`
   * again inside their keyword spans: they end up with a class span nested in the
   * keyword span.
   */
  lemma KeywordGetsClass(w: string, t: seq<string>)
    requires |w| >= 1 && IsUpper(w[0]) && forall j :: 0 <= j < |w| ==> IsWord(w[j])
    ensures Apply(ClassNames, Span("vs-keyword", w), t)
         == (KeywordOpen + Span("vs-class", w) + SpanClose, t)
  {
    NoUpperInTags();
    assert Span("vs-keyword", w) == KeywordOpen + w + SpanClose;
    ClassBetween(KeywordOpen, w, SpanClose, t);
  }

  /** The keywords the class pass also matches are exactly `None`, `True` and `False`. */
  lemma CapitalisedKeywords(w: string)
    requires w in KeywordWords()
    ensures IsUpper(w[0]) <==> w == "None" || w == "True" || w == "False"
    ensures IsUpper(w[0]) ==> forall j :: 0 <= j < |w| ==> IsWord(w[j])
  {
  }
}

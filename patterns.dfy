/**
 * The regular expressions of Phase B of `highlightPython`, one matcher each, and
 * `String.prototype.replace` with the global flag as a left-to-right scan: at every
 * position the pattern is tried; on a match its replacement is written and the scan
 * resumes after it, otherwise the character is copied and the scan moves on by one.
 *
 * A matcher returns the end (exclusive) of the match that starts at `i`, if any.
 * Every pattern here matches at least one character, so the scan always advances.
 */
module Patterns {
  import opened Text
  import opened Html
  import FString

  /** One `s.replace(/…/g, …)` of the highlighter, in program order. */
  datatype Rule =
    | FStrings | Triples | Comments | Strings
    | Keywords | Decorators | Controls | Calls | ClassNames | Numbers | Brackets
    | RestoreStrings | RestoreComments | RestoreFStrings

  /** The rules that cut text out into a table and leave a placeholder behind. */
  predicate Collects(r: Rule) {
    r.FStrings? || r.Triples? || r.Comments? || r.Strings?
  }

  /** The rules that put a table entry back in place of its placeholder. */
  predicate Restores(r: Rule) {
    r.RestoreStrings? || r.RestoreComments? || r.RestoreFStrings?
  }

  function KeywordWords(): set<string> {
    {"def", "class", "lambda", "None", "True", "False", "self"}
  }

  function ControlWords(): set<string> {
    {"return", "if", "elif", "else", "while", "for", "in", "try", "except", "finally",
     "continue", "break", "and", "or", "not", "is", "from", "import", "as", "with",
     "pass", "raise", "assert", "yield", "global", "nonlocal"}
  }

  const TripleDouble := "\"\"\""
  const TripleSingle := "'''"

  /** `\bf(["'])(.*?)\1`: an `f` at a word start, a quote, and the next same quote on the line. */
  function MatchFString(s: string, i: nat): (r: Option<nat>)
    requires i < |s|
    ensures r.Some? ==> i + 3 <= r.value <= |s| && s[i] == 'f' && IsQuote(s[i + 1])
    ensures r.Some? ==> IsBoundary(s, i) && s[r.value - 1] == s[i + 1]
    ensures r.Some? ==> forall j :: i + 2 <= j < r.value - 1 ==> s[j] != s[i + 1] && !IsLineTerminator(s[j])
    ensures r.None? && IsBoundary(s, i) && s[i] == 'f' && i + 1 < |s| && IsQuote(s[i + 1]) ==>
      forall j :: i + 2 <= j < LineEnd(s, i + 2) ==> s[j] != s[i + 1]
  {
    if i + 1 < |s| && s[i] == 'f' && IsBoundary(s, i) && IsQuote(s[i + 1]) then
      match FindOnLine(s, s[i + 1], i + 2)
      case Some(k) => Some(k + 1)
      case None => None
    else None
  }

  /**
   * `"""[\s\S]*?"""|'''[\s\S]*?'''`: a triple quote and the first closing triple of the
   * same kind after it, across anything, line terminators included.
   */
  function MatchTriple(s: string, i: nat): (r: Option<nat>)
    requires i < |s|
    ensures r.Some? ==> i + 6 <= r.value <= |s|
    ensures r.Some? ==> var d := s[i..i + 3];
      (d == TripleDouble || d == TripleSingle) && OccursAt(s, d, r.value - 3)
      && forall j :: i + 3 <= j < r.value - 3 ==> !OccursAt(s, d, j)
    ensures r.None? && OccursAt(s, TripleDouble, i) ==>
      forall j :: i + 3 <= j <= |s| ==> !OccursAt(s, TripleDouble, j)
    ensures r.None? && OccursAt(s, TripleSingle, i) ==>
      forall j :: i + 3 <= j <= |s| ==> !OccursAt(s, TripleSingle, j)
  {
    if OccursAt(s, TripleDouble, i) then
      match FindFrom(s, TripleDouble, i + 3)
      case Some(k) => Some(k + 3)
      case None => None
    else if OccursAt(s, TripleSingle, i) then
      match FindFrom(s, TripleSingle, i + 3)
      case Some(k) => Some(k + 3)
      case None => None
    else None
  }

  /** `(#.*)$` with the multiline flag: a `#` and the rest of its line. */
  function MatchComment(s: string, i: nat): (r: Option<nat>)
    requires i < |s|
    ensures r.Some? <==> s[i] == '#'
    ensures r.Some? ==> i < r.value <= |s| && (r.value == |s| || IsLineTerminator(s[r.value]))
    ensures r.Some? ==> forall j :: i <= j < r.value ==> !IsLineTerminator(s[j])
  {
    if s[i] == '#' then Some(LineEnd(s, i)) else None
  }

  /** `".*?"|'.*?'`: a quote and the next same quote on its line. */
  function MatchString(s: string, i: nat): (r: Option<nat>)
    requires i < |s|
    ensures r.Some? ==> IsQuote(s[i]) && i + 2 <= r.value <= |s| && s[r.value - 1] == s[i]
    ensures r.Some? ==> forall j :: i + 1 <= j < r.value - 1 ==> s[j] != s[i] && !IsLineTerminator(s[j])
    ensures r.None? && IsQuote(s[i]) ==> forall j :: i + 1 <= j < LineEnd(s, i + 1) ==> s[j] != s[i]
  {
    if IsQuote(s[i]) then
      match FindOnLine(s, s[i], i + 1)
      case Some(k) => Some(k + 1)
      case None => None
    else None
  }

  /** `\b(w1|w2|…)\b` for alternatives made of word characters: a whole word from the set. */
  function MatchWordIn(s: string, i: nat, words: set<string>): (r: Option<nat>)
    requires i < |s|
    ensures r.Some? <==> StartsWord(s, i) && s[i..WordEnd(s, i)] in words
    ensures r.Some? ==> r.value == WordEnd(s, i) && IsBoundary(s, i) && IsBoundary(s, r.value)
  {
    if StartsWord(s, i) && s[i..WordEnd(s, i)] in words then Some(WordEnd(s, i)) else None
  }

  /** `@\w+`: an `@` and the word characters after it, at least one. */
  function MatchDecorator(s: string, i: nat): (r: Option<nat>)
    requires i < |s|
    ensures r.Some? <==> s[i] == '@' && i + 1 < |s| && IsWord(s[i + 1])
    ensures r.Some? ==> r.value == WordEnd(s, i + 1)
  {
    if s[i] == '@' && WordEnd(s, i + 1) > i + 1 then Some(WordEnd(s, i + 1)) else None
  }

  /** `\b[a-zA-Z_]\w*(?=\()`: a word not starting with a digit, directly followed by `(`. */
  function MatchCall(s: string, i: nat): (r: Option<nat>)
    requires i < |s|
    ensures r.Some? <==> StartsWord(s, i) && !IsDigit(s[i]) && WordEnd(s, i) < |s| && s[WordEnd(s, i)] == '('
    ensures r.Some? ==> r.value == WordEnd(s, i)
  {
    var e := WordEnd(s, i);
    if StartsWord(s, i) && !IsDigit(s[i]) && e < |s| && s[e] == '(' then Some(e) else None
  }

  /**
   * The call pattern read as the regex: a match from `i` to `j` exactly when `\b` holds
   * at `i`, the first character is a word character but not a digit, word characters run
   * up to `j`, and `s[j]` is `(`. The backtracking `\w*` cannot stop anywhere else, since
   * `(` is not a word character.
   */
  lemma CallMatchesRegex(s: string, i: nat, j: nat)
    requires i < |s|
    ensures MatchCall(s, i) == Some(j) <==>
      i < j < |s| && IsBoundary(s, i) && !IsDigit(s[i]) && (forall k :: i <= k < j ==> IsWord(s[k])) && s[j] == '('
  {
  }

  /** `\b[A-Z][a-zA-Z0-9_]*\b`: a whole word that starts with a capital letter. */
  function MatchClassName(s: string, i: nat): (r: Option<nat>)
    requires i < |s|
    ensures r.Some? <==> StartsWord(s, i) && IsUpper(s[i])
    ensures r.Some? ==> r.value == WordEnd(s, i) && IsBoundary(s, r.value)
  {
    if StartsWord(s, i) && IsUpper(s[i]) then Some(WordEnd(s, i)) else None
  }

  /** `(\.\d+)?` taken at `d`: a point, at least one digit, and a word boundary after them. */
  predicate FractionAt(s: string, d: nat)
    requires d <= |s|
  {
    d < |s| && s[d] == '.' && DigitEnd(s, d + 1) > d + 1 && IsBoundary(s, DigitEnd(s, d + 1))
  }

  /**
   * `\b\d+(\.\d+)?\b`: digits at a word start, with a fraction when one follows that ends
   * at a word boundary; failing that, the digits alone when they end at a boundary.
   */
  function MatchNumber(s: string, i: nat): (r: Option<nat>)
    requires i < |s|
    ensures r.Some? ==> IsBoundary(s, i) && i < r.value <= |s| && IsBoundary(s, r.value)
    ensures r.Some? ==> IsDigit(s[i]) && DigitEnd(s, i) <= r.value
    ensures r.Some? && r.value > DigitEnd(s, i) ==>
      s[DigitEnd(s, i)] == '.' && r.value == DigitEnd(s, DigitEnd(s, i) + 1) > DigitEnd(s, i) + 1
    ensures r.None? && IsBoundary(s, i) && IsDigit(s[i]) ==> !IsBoundary(s, DigitEnd(s, i))
    ensures IsBoundary(s, i) && IsDigit(s[i]) && FractionAt(s, DigitEnd(s, i)) ==>
      r == Some(DigitEnd(s, DigitEnd(s, i) + 1))
    ensures IsBoundary(s, i) && IsDigit(s[i]) && !FractionAt(s, DigitEnd(s, i)) && IsBoundary(s, DigitEnd(s, i)) ==>
      r == Some(DigitEnd(s, i))
  {
    if IsBoundary(s, i) && IsDigit(s[i]) then
      var d := DigitEnd(s, i);
      if FractionAt(s, d) then
        Some(DigitEnd(s, d + 1))
      else if IsBoundary(s, d) then Some(d)
      else None
    else None
  }

  /** `[(){}\[\]]`: one bracket. */
  function MatchBracket(s: string, i: nat): (r: Option<nat>)
    requires i < |s|
    ensures r.Some? <==> s[i] in "(){}[]"
    ensures r.Some? ==> r.value == i + 1
  {
    if s[i] in "(){}[]" then Some(i + 1) else None
  }

  /** `<prefix>(\d+)__`, as in `__STR(\d+)__`: the prefix, one or more digits, two underscores. */
  function MatchPlaceholder(s: string, i: nat, prefix: string): (r: Option<nat>)
    requires i <= |s|
    ensures r.Some? ==> OccursAt(s, prefix, i) && |prefix| + i < r.value - 2
    ensures r.Some? ==> r.value - 2 == DigitEnd(s, i + |prefix|) && OccursAt(s, "__", r.value - 2)
    ensures r.None? && OccursAt(s, prefix, i) && DigitEnd(s, i + |prefix|) > i + |prefix| ==>
      !OccursAt(s, "__", DigitEnd(s, i + |prefix|))
  {
    if OccursAt(s, prefix, i) then
      var d := DigitEnd(s, i + |prefix|);
      if d > i + |prefix| && OccursAt(s, "__", d) then Some(d + 2) else None
    else None
  }

  /** The placeholder prefix each collecting or restoring rule writes or reads. */
  function Prefix(r: Rule): string {
    if r.FStrings? || r.RestoreFStrings? then "__FSTR"
    else if r.Comments? || r.RestoreComments? then "__COM"
    else "__STR"
  }

  function MatchAt(r: Rule, s: string, i: nat): (m: Option<nat>)
    requires i < |s|
    ensures m.Some? ==> i < m.value <= |s|
  {
    match r
    case FStrings => MatchFString(s, i)
    case Triples => MatchTriple(s, i)
    case Comments => MatchComment(s, i)
    case Strings => MatchString(s, i)
    case Keywords => MatchWordIn(s, i, KeywordWords())
    case Decorators => MatchDecorator(s, i)
    case Controls => MatchWordIn(s, i, ControlWords())
    case Calls => MatchCall(s, i)
    case ClassNames => MatchClassName(s, i)
    case Numbers => MatchNumber(s, i)
    case Brackets => MatchBracket(s, i)
    case _ => MatchPlaceholder(s, i, Prefix(r))
  }

  /**
   * `table[d]` for a property name `d` made of digits, as JavaScript reads it from an
   * array and turns it into text: the entry when `d` is a canonical index below the
   * length, and the word `undefined` otherwise (a leading zero, or past the end).
   */
  function Lookup(table: seq<string>, d: string): string {
    if IsCanonicalIndex(d) && DigitsValue(d) < |table| then table[DigitsValue(d)] else "undefined"
  }

  /** `__STR7__` and the like: the placeholder for entry `n`. */
  function Placeholder(prefix: string, n: nat): string {
    prefix + NatToString(n) + "__"
  }

  /** The class of the span each highlighting rule wraps its match in. */
  function SpanClass(r: Rule): string {
    match r
    case Keywords => "vs-keyword"
    case Controls => "vs-control"
    case ClassNames => "vs-class"
    case Numbers => "vs-num"
    case Brackets => "vs-bracket"
    case RestoreStrings => "vs-string"
    case RestoreComments => "vs-comment"
    case _ => "vs-func"
  }

  /**
   * What the rule writes for the match `s[i..e]`, and the table afterwards: a
   * collecting rule appends to the table and writes the placeholder of the new entry;
   * a restoring rule reads the table; the others wrap the match in a span.
   */
  function Replacement(r: Rule, s: string, i: nat, e: nat, table: seq<string>): (string, seq<string>)
    requires i < e <= |s| && MatchAt(r, s, i) == Some(e)
  {
    var m := s[i..e];
    match r
    case FStrings => (Placeholder("__FSTR", |table|), table + [FString.Markup(s[i + 1], s[i + 2..e - 1])])
    case Triples => (Placeholder("__STR", |table|), table + [m])
    case Comments => (Placeholder("__COM", |table|), table + [m])
    case Strings => (Placeholder("__STR", |table|), table + [m])
    case RestoreFStrings => (Lookup(table, s[i + |Prefix(r)|..e - 2]), table)
    case RestoreStrings => (Span(SpanClass(r), Lookup(table, s[i + |Prefix(r)|..e - 2])), table)
    case RestoreComments => (Span(SpanClass(r), Lookup(table, s[i + |Prefix(r)|..e - 2])), table)
    case _ => (Span(SpanClass(r), m), table)
  }

  /** The global replace from position `i` on, `out` written and `table` built so far. */
  function Scan(r: Rule, s: string, i: nat, out: string, table: seq<string>): (string, seq<string>)
    requires i <= |s|
    decreases |s| - i
  {
    if i == |s| then (out, table)
    else match MatchAt(r, s, i)
      case None => Scan(r, s, i + 1, out + [s[i]], table)
      case Some(e) =>
        var (rep, t) := Replacement(r, s, i, e, table);
        Scan(r, s, e, out + rep, t)
  }

  /** `s.replace(/…/g, …)` with the table as it stands before the call. */
  function Apply(r: Rule, s: string, table: seq<string>): (string, seq<string>) {
    Scan(r, s, 0, [], table)
  }

  /**
   * The global replace as the engine runs it: match by match, the callback pushing to
   * its table; the f-string callback is the builder loop of `FString.Build`.
   */
  method ReplaceAll(r: Rule, s: string, table: seq<string>) returns (t: string, table': seq<string>)
    ensures (t, table') == Apply(r, s, table)
  {
    var i := 0;
    t, table' := [], table;
    while i < |s|
      invariant i <= |s|
      invariant Scan(r, s, i, t, table') == Apply(r, s, table)
      decreases |s| - i
    {
      var m := MatchAt(r, s, i);
      ghost var i0, t0, table0 := i, t, table';
      if m.None? {
        t := t + [s[i]];
        i := i + 1;
        ScanCopyStep(r, s, i0, t0, table0, i, t);
      } else {
        var e := m.value;
        var rep;
        if r.FStrings? {
          var html := FString.Build(s[i + 1], s[i + 2..e - 1]);
          rep, table' := Placeholder("__FSTR", |table'|), table' + [html];
        } else {
          var (x, y) := Replacement(r, s, i, e, table');
          rep, table' := x, y;
        }
        t := t + rep;
        i := e;
        ScanMatchStep(r, s, i0, e, t0, table0, rep, table', t);
      }
    }
  }

  /** One character copied by `ReplaceAll`: the scan from the next position is the same scan. */
  lemma ScanCopyStep(r: Rule, s: string, i: nat, out: string, table: seq<string>, i': nat, out': string)
    requires i < |s| && MatchAt(r, s, i).None? && i' == i + 1 && out' == out + [s[i]]
    ensures Scan(r, s, i', out', table) == Scan(r, s, i, out, table)
  {
  }

  /** One match replaced by `ReplaceAll`: the scan from its end is the same scan. */
  lemma ScanMatchStep(r: Rule, s: string, i: nat, e: nat, out: string, table: seq<string>,
                      rep: string, table': seq<string>, out': string)
    requires i < |s| && MatchAt(r, s, i) == Some(e) && i < e <= |s|
    requires (rep, table') == Replacement(r, s, i, e, table) && out' == out + rep
    ensures Scan(r, s, e, out', table') == Scan(r, s, i, out, table)
  {
  }
}

/**
 * Characters, searching and decimal numbers, as the highlighter's regular
 * expressions and JavaScript's string methods see them. Strings are sequences of
 * characters; positions are indices into them.
 */
module Text {

  datatype Option<T> = None | Some(value: T)

  predicate IsDigit(c: char) { '0' <= c <= '9' }

  predicate IsUpper(c: char) { 'A' <= c <= 'Z' }

  predicate IsLower(c: char) { 'a' <= c <= 'z' }

  /** The class `\w` of a regular expression without the `u` flag: `[A-Za-z0-9_]`. */
  predicate IsWord(c: char) { IsDigit(c) || IsUpper(c) || IsLower(c) || c == '_' }

  /** The characters `.` does not match, and before which `$` matches in multiline mode. */
  predicate IsLineTerminator(c: char) {
    c == '\n' || c == '\r' || c == '\U{2028}' || c == '\U{2029}'
  }

  /** `\b` holds at position `i`: exactly one of the characters around it is a word character. */
  predicate IsBoundary(s: string, i: nat)
    requires i <= |s|
  {
    (i > 0 && IsWord(s[i - 1])) != (i < |s| && IsWord(s[i]))
  }

  /** Position `i` is where a maximal run of word characters begins. */
  predicate StartsWord(s: string, i: nat)
    requires i < |s|
  {
    IsWord(s[i]) && (i == 0 || !IsWord(s[i - 1]))
  }

  /** The end of the run of word characters that begins at `i` (greedy `\w*`). */
  function WordEnd(s: string, i: nat): (e: nat)
    requires i <= |s|
    ensures i <= e <= |s|
    ensures forall j :: i <= j < e ==> IsWord(s[j])
    ensures e == |s| || !IsWord(s[e])
    decreases |s| - i
  {
    if i == |s| || !IsWord(s[i]) then i else WordEnd(s, i + 1)
  }

  /** The end of the run of decimal digits that begins at `i` (greedy `\d*`). */
  function DigitEnd(s: string, i: nat): (e: nat)
    requires i <= |s|
    ensures i <= e <= |s|
    ensures forall j :: i <= j < e ==> IsDigit(s[j])
    ensures e == |s| || !IsDigit(s[e])
    decreases |s| - i
  {
    if i == |s| || !IsDigit(s[i]) then i else DigitEnd(s, i + 1)
  }

  /** The end of what greedy `.*` matches from `i`: the first line terminator, or the end. */
  function LineEnd(s: string, i: nat): (e: nat)
    requires i <= |s|
    ensures i <= e <= |s|
    ensures forall j :: i <= j < e ==> !IsLineTerminator(s[j])
    ensures e == |s| || IsLineTerminator(s[e])
    decreases |s| - i
  {
    if i == |s| || IsLineTerminator(s[i]) then i else LineEnd(s, i + 1)
  }

  /**
   * Lazy `.*?` followed by the character `c`, starting at `i`: the first index at or
   * after `i` that holds `c`, provided no line terminator comes first.
   */
  function FindOnLine(s: string, c: char, i: nat): (r: Option<nat>)
    requires i <= |s|
    requires !IsLineTerminator(c)
    ensures r.Some? ==> i <= r.value < |s| && s[r.value] == c
    ensures r.Some? ==> forall j :: i <= j < r.value ==> s[j] != c && !IsLineTerminator(s[j])
    ensures r.None? ==> forall j :: i <= j < LineEnd(s, i) ==> s[j] != c
    decreases |s| - i
  {
    if i == |s| then None
    else if s[i] == c then Some(i)
    else if IsLineTerminator(s[i]) then None
    else FindOnLine(s, c, i + 1)
  }

  /** `pat` occurs in `s` at index `k`. */
  predicate OccursAt(s: string, pat: string, k: nat) {
    k + |pat| <= |s| && s[k..k + |pat|] == pat
  }

  /** The first occurrence of `pat` at or after `from`. */
  function FindFrom(s: string, pat: string, from: nat): (r: Option<nat>)
    requires from <= |s|
    ensures r.Some? ==> from <= r.value && OccursAt(s, pat, r.value)
    ensures r.Some? ==> forall j :: from <= j < r.value ==> !OccursAt(s, pat, j)
    ensures r.None? ==> forall j :: from <= j <= |s| ==> !OccursAt(s, pat, j)
    decreases |s| - from
  {
    if OccursAt(s, pat, from) then Some(from)
    else if from == |s| then None
    else FindFrom(s, pat, from + 1)
  }

  /** `String.prototype.indexOf`, with `None` for -1. */
  function IndexOf(s: string, pat: string): Option<nat> {
    FindFrom(s, pat, 0)
  }

  /** An index `indexOf` returns is an occurrence of the pattern. */
  lemma Found(s: string, pat: string, k: nat)
    requires IndexOf(s, pat) == Some(k)
    ensures OccursAt(s, pat, k) && k + |pat| <= |s|
  {
  }

  /** `c` at `k`, with neither `c` nor a line terminator before it from `i` on: it is the one found. */
  lemma FindOnLineAt(s: string, c: char, i: nat, k: nat)
    requires !IsLineTerminator(c) && i <= k < |s| && s[k] == c
    requires forall j :: i <= j < k ==> s[j] != c && !IsLineTerminator(s[j])
    ensures FindOnLine(s, c, i) == Some(k)
  {
    var e := LineEnd(s, i);
    assert k < e;
  }

  /** An occurrence at `k` with none before it from `from` on: it is the one found. */
  lemma FindFromAt(s: string, pat: string, from: nat, k: nat)
    requires from <= k && OccursAt(s, pat, k)
    requires forall j :: from <= j < k ==> !OccursAt(s, pat, j)
    ensures FindFrom(s, pat, from) == Some(k)
  {
  }

  /** `String.prototype.includes`. */
  predicate Contains(s: string, pat: string) {
    IndexOf(s, pat).Some?
  }

  lemma ContainsIff(s: string, pat: string)
    ensures Contains(s, pat) <==> exists k :: 0 <= k <= |s| && OccursAt(s, pat, k)
  {
    if Contains(s, pat) {
      var k := IndexOf(s, pat).value;
      assert 0 <= k <= |s| && OccursAt(s, pat, k);
    }
  }

  /** Number of occurrences of the character `c`. */
  function CountChar(s: string, c: char): nat {
    if s == [] then 0 else (if s[0] == c then 1 else 0) + CountChar(s[1..], c)
  }

  lemma {:induction false} CountCharAppend(a: string, b: string, c: char)
    ensures CountChar(a + b, c) == CountChar(a, c) + CountChar(b, c)
  {
    if a == [] {
      assert a + b == b;
    } else {
      assert (a + b)[0] == a[0] && (a + b)[1..] == a[1..] + b;
      CountCharAppend(a[1..], b, c);
    }
  }

  function DigitChar(d: nat): (c: char)
    requires d < 10
    ensures IsDigit(c) && c as int - '0' as int == d
  {
    ('0' as int + d) as char
  }

  /** The decimal form of `n`, as `${n}` writes it. */
  function NatToString(n: nat): (r: string)
    ensures |r| >= 1
    ensures forall j :: 0 <= j < |r| ==> IsDigit(r[j])
    decreases n
  {
    if n < 10 then [DigitChar(n)] else NatToString(n / 10) + [DigitChar(n % 10)]
  }

  predicate AllDigits(d: string) {
    forall j :: 0 <= j < |d| ==> IsDigit(d[j])
  }

  /** The number a run of digits denotes. */
  function DigitsValue(d: string): nat
    requires AllDigits(d)
  {
    if d == [] then 0 else DigitsValue(d[..|d| - 1]) * 10 + (d[|d| - 1] as int - '0' as int)
  }

  /**
   * A run of digits that JavaScript treats as an array index when used as a property
   * key: nonempty and without a leading zero (other than "0" itself).
   */
  predicate IsCanonicalIndex(d: string) {
    |d| >= 1 && AllDigits(d) && (d[0] != '0' || |d| == 1)
  }

  /** Reading back the decimal form of `n` gives `n`, and that form is canonical. */
  lemma {:induction false} DecimalRoundTrip(n: nat)
    ensures IsCanonicalIndex(NatToString(n))
    ensures DigitsValue(NatToString(n)) == n
    decreases n
  {
    var r := NatToString(n);
    if n >= 10 {
      DecimalRoundTrip(n / 10);
      var p := NatToString(n / 10);
      assert r[..|r| - 1] == p;
      assert r[0] == p[0];
      if |p| == 1 {
        assert DigitsValue(p) == DigitsValue(p[..0]) * 10 + (p[0] as int - '0' as int);
        assert p[..0] == [];
      }
    } else {
      assert r[..0] == [];
    }
  }
}

/** Python string and `re` semantics restricted to ASCII: the character
    classes `\w`, `\s`, `\d`, IGNORECASE folding, `str.lower`, `str.strip`,
    and a leftmost-position search that stands for `re.search`. */
module PyText {

  datatype Option<T> = None | Some(value: T)

  predicate IsAsciiLetter(c: char) { 'a' <= c <= 'z' || 'A' <= c <= 'Z' }

  predicate IsDigit(c: char) { '0' <= c <= '9' }

  /** `\w`: letters, digits and the underscore. */
  predicate IsWordChar(c: char) { IsAsciiLetter(c) || IsDigit(c) || c == '_' }

  /** A non-empty run of `\w` characters. */
  predicate IsWord(w: string) { |w| > 0 && forall k :: 0 <= k < |w| ==> IsWordChar(w[k]) }

  /** `\s` and the characters `str.strip()` removes: space, tab, line feed,
      vertical tab, form feed, carriage return and the separators 0x1C-0x1F. */
  predicate IsSpace(c: char) { c == ' ' || 9 <= c as int <= 13 || 28 <= c as int <= 31 }

  function Lower(c: char): (r: char)
    ensures IsAsciiLetter(c) <==> IsAsciiLetter(r)
    ensures IsAsciiLetter(c) ==> 'a' <= r <= 'z'
    ensures !IsAsciiLetter(c) ==> r == c
  {
    if 'A' <= c <= 'Z' then (c as int + 32) as char else c
  }

  /** `str.lower()` on ASCII. */
  function LowerString(s: string): (r: string)
    ensures |r| == |s|
    ensures forall i :: 0 <= i < |s| ==> r[i] == Lower(s[i])
  {
    if s == [] then [] else [Lower(s[0])] + LowerString(s[1..])
  }

  /** Equality under IGNORECASE folding, character by character. */
  predicate EqualIgnoreCase(a: string, b: string)
    decreases |a|
  {
    |a| == |b| && (a == [] || (Lower(a[0]) == Lower(b[0]) && EqualIgnoreCase(a[1..], b[1..])))
  }

  /** The recursive definition agrees with the pointwise reading. */
  lemma {:induction false} EqualIgnoreCasePointwise(a: string, b: string)
    ensures EqualIgnoreCase(a, b) <==>
      |a| == |b| && forall k :: 0 <= k < |a| ==> Lower(a[k]) == Lower(b[k])
    decreases |a|
  {
    if |a| == |b| && a != [] {
      EqualIgnoreCasePointwise(a[1..], b[1..]);
      assert forall k :: 1 <= k < |a| ==> a[1..][k - 1] == a[k] && b[1..][k - 1] == b[k];
    }
  }

  /** Every character of s[lo..hi] is whitespace. */
  predicate SpacesBetween(s: string, lo: nat, hi: nat)
    requires lo <= hi <= |s|
  {
    forall k :: lo <= k < hi ==> IsSpace(s[k])
  }

  /** The start of the trailing whitespace of `s[lo..hi]`. */
  function TrailingSpaceStart(s: string, lo: nat, hi: nat): (j: nat)
    requires lo <= hi <= |s|
    decreases hi - lo
    ensures lo <= j <= hi
    ensures SpacesBetween(s, j, hi)
    ensures j == lo || !IsSpace(s[j - 1])
  {
    if hi > lo && IsSpace(s[hi - 1]) then
      TrailingSpaceStart(s, lo, hi - 1)
    else hi
  }

  /** `str.strip()`: the result is the slice of `s` left after dropping
      whitespace at both ends, and it neither starts nor ends with whitespace. */
  function Strip(s: string): (r: string)
    ensures exists i, j :: 0 <= i <= j <= |s| && r == s[i..j] && SpacesBetween(s, 0, i) && SpacesBetween(s, j, |s|)
    ensures r == [] || (!IsSpace(r[0]) && !IsSpace(r[|r| - 1]))
  {
    var i := SpaceRun(s, 0);
    var j := TrailingSpaceStart(s, i, |s|);
    s[i..j]
  }

  /** The length of the longest run of `\s` characters starting at `from`
      (what a greedy `\s*` first consumes). */
  function SpaceRun(c: string, from: nat): (n: nat)
    requires from <= |c|
    decreases |c| - from
    ensures from + n <= |c|
    ensures SpacesBetween(c, from, from + n)
    ensures from + n == |c| || !IsSpace(c[from + n])
  {
    if from == |c| || !IsSpace(c[from]) then 0
    else
      1 + SpaceRun(c, from + 1)
  }

  /** The length of the run of ASCII digits starting at `from` (greedy `\d+`). */
  function DigitRun(c: string, from: nat): (n: nat)
    requires from <= |c|
    decreases |c| - from
    ensures from + n <= |c|
    ensures forall k :: from <= k < from + n ==> IsDigit(c[k])
    ensures from + n == |c| || !IsDigit(c[from + n])
  {
    if from == |c| || !IsDigit(c[from]) then 0 else 1 + DigitRun(c, from + 1)
  }

  /** The first index at or after `from` that ends a line: a line feed, or
      the end of the text (where `$` holds under MULTILINE). */
  function LineEnd(c: string, from: nat): (e: nat)
    requires from <= |c|
    decreases |c| - from
    ensures from <= e <= |c|
    ensures e == |c| || c[e] == '\n'
    ensures forall k :: from <= k < e ==> c[k] != '\n'
  {
    if from == |c| || c[from] == '\n' then from else LineEnd(c, from + 1)
  }

  /** `re.search` tries every start position from left to right and keeps the
      first that succeeds: the least index in [from, hi] at which `ok` holds. */
  function FirstWhere(ok: nat -> bool, from: nat, hi: nat): (r: Option<nat>)
    decreases hi + 1 - from
    ensures r.Some? ==> from <= r.value <= hi && ok(r.value)
    ensures r.Some? ==> forall p :: from <= p < r.value ==> !ok(p)
    ensures r.None? ==> forall p :: from <= p <= hi ==> !ok(p)
  {
    if from > hi then None
    else if ok(from) then Some(from)
    else FirstWhere(ok, from + 1, hi)
  }

  /** A greedy quantifier that backtracks tries the longest length first:
      the greatest index in [lo, hi] at which `ok` holds. */
  function LastWhere(ok: nat -> bool, lo: nat, hi: nat): (r: Option<nat>)
    decreases hi
    ensures r.Some? ==> lo <= r.value <= hi && ok(r.value)
    ensures r.Some? ==> forall p :: r.value < p <= hi ==> !ok(p)
    ensures r.None? ==> forall p :: lo <= p <= hi ==> !ok(p)
  {
    if hi < lo then None
    else if ok(hi) then Some(hi)
    else if hi == lo then None
    else LastWhere(ok, lo, hi - 1)
  }

  /** The digit run from `from` has length n when n digits follow and then a non-digit. */
  lemma DigitRunIs(c: string, from: nat, n: nat)
    requires from + n <= |c|
    requires forall k :: from <= k < from + n ==> IsDigit(c[k])
    requires from + n == |c| || !IsDigit(c[from + n])
    ensures DigitRun(c, from) == n
  {
  }

  /** The line from `from` ends after n characters that are no line feeds. */
  lemma LineEndIs(c: string, from: nat, n: nat)
    requires from + n <= |c|
    requires forall k :: from <= k < from + n ==> c[k] != '\n'
    requires from + n == |c| || c[from + n] == '\n'
    ensures LineEnd(c, from) == from + n
  {
  }

  /** Text that starts with a non-space character does not strip to nothing. */
  lemma StripKeepsNonBlank(s: string)
    requires |s| > 0 && !IsSpace(s[0])
    ensures Strip(s) != []
  {
  }

  /** Text made only of whitespace strips to nothing. */
  lemma StripOfBlank(s: string)
    requires SpacesBetween(s, 0, |s|)
    ensures Strip(s) == []
  {
  }

  /** Text that neither starts nor ends with whitespace is left as it is. */
  lemma StripOfTrimmed(s: string)
    requires |s| > 0 && !IsSpace(s[0]) && !IsSpace(s[|s| - 1])
    ensures Strip(s) == s
  {
  }

  /** A greedy `\s*` from `from` takes in at least the n whitespace
      characters that follow. */
  lemma {:induction false} SpaceRunCovers(c: string, from: nat, n: nat)
    requires from + n <= |c| && SpacesBetween(c, from, from + n)
    ensures n <= SpaceRun(c, from)
    decreases n
  {
    if n > 0 {
      SpaceRunCovers(c, from + 1, n - 1);
    }
  }

  /** The whitespace run from `from` has length n when n whitespace
      characters follow and then a non-space or the end. */
  lemma {:induction false} SpaceRunIs(c: string, from: nat, n: nat)
    requires from + n <= |c| && SpacesBetween(c, from, from + n)
    requires from + n == |c| || !IsSpace(c[from + n])
    ensures SpaceRun(c, from) == n
    decreases n
  {
    if n > 0 {
      SpaceRunIs(c, from + 1, n - 1);
    }
  }
}

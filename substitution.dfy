/** The substitution step both generators share: one call
      re.sub(r'\b(a1|a2|...)\b', '{{placeholder}}', text, flags=re.IGNORECASE)
    modelled as a left-to-right scan, and the ordered series of such calls
    (one per rule) that each generator runs. */
module Substitution {
  import opened PyText

  /** One substitution rule: the alternatives of the regex, in listed order,
      and the placeholder name; the replacement inserted is `{{placeholder}}`. */
  datatype Rule = Rule(alternatives: seq<string>, placeholder: string)
  {
    function Token(): string { "{{" + placeholder + "}}" }
  }

  /** An alternative as the rule tables write them: lower-case letters and
      spaces, starting and ending with a letter. */
  predicate WellFormedAlternative(a: string)
  {
    |a| > 0 && IsAsciiLetter(a[0]) && IsAsciiLetter(a[|a| - 1]) &&
    forall k :: 0 <= k < |a| ==> ('a' <= a[k] <= 'z' || a[k] == ' ')
  }

  predicate WellFormed(r: Rule)
  {
    (forall k :: 0 <= k < |r.alternatives| ==> WellFormedAlternative(r.alternatives[k])) &&
    (forall k :: 0 <= k < |r.placeholder| ==> ('a' <= r.placeholder[k] <= 'z' || r.placeholder[k] == '-'))
  }

  predicate AllWellFormed(rules: seq<Rule>)
  {
    forall k :: 0 <= k < |rules| ==> WellFormed(rules[k])
  }

  predicate AllLetters(w: string) { forall k :: 0 <= k < |w| ==> IsAsciiLetter(w[k]) }

  /** A non-empty word of lower-case letters, as the rule tables spell them. */
  predicate LowerWord(w: string) { |w| > 0 && forall k :: 0 <= k < |w| ==> 'a' <= w[k] <= 'z' }

  /** A placeholder that is one word, so that its token holds exactly one word. */
  predicate SimplePlaceholder(r: Rule)
  {
    |r.placeholder| > 0 && AllLetters(r.placeholder)
  }

  /** A character no alternative contains and that is no word character:
      no match can run across it. */
  predicate IsSeparator(c: char) { !IsWordChar(c) && c != ' ' }

  /** `\b` at index i: a word character on exactly one side. */
  predicate Boundary(t: string, i: nat)
    requires i <= |t|
  {
    (i > 0 && IsWordChar(t[i - 1])) != (i < |t| && IsWordChar(t[i]))
  }

  predicate IsWordStart(t: string, i: nat)
    requires i <= |t|
  {
    i == 0 || !IsWordChar(t[i - 1])
  }

  predicate IsWordEnd(t: string, i: nat)
    requires i <= |t|
  {
    i == |t| || !IsWordChar(t[i])
  }

  /** From index i + k on, t spells a[k..], ignoring case. */
  predicate SpellsFrom(t: string, i: nat, a: string, k: nat)
    requires i + |a| <= |t| && k <= |a|
    decreases |a| - k
  {
    k == |a| || (Lower(t[i + k]) == Lower(a[k]) && SpellsFrom(t, i, a, k + 1))
  }

  /** `\b a \b` matches at index i, ignoring case. */
  predicate MatchesAt(t: string, i: nat, a: string)
    requires i <= |t|
  {
    i + |a| <= |t| && Boundary(t, i) && SpellsFrom(t, i, a, 0) && Boundary(t, i + |a|)
  }

  /** The regex engine at index i: the index of the first alternative, in
      listed order, for which the whole pattern matches there. */
  function FirstMatch(t: string, alts: seq<string>, i: nat): (r: Option<nat>)
    requires i <= |t|
    ensures r.Some? ==> r.value < |alts| && i + |alts[r.value]| <= |t|
  {
    if alts == [] then None
    else if MatchesAt(t, i, alts[0]) then Some(0)
    else match FirstMatch(t, alts[1..], i)
      case None => None
      case Some(k) => Some(k + 1)
  }

  /** The engine picks the first matching alternative in listed order, and
      reports no match only when none of them matches. */
  lemma {:induction false} FirstMatchIsFirst(t: string, alts: seq<string>, i: nat)
    requires i <= |t|
    ensures FirstMatch(t, alts, i).Some? ==> MatchesAt(t, i, alts[FirstMatch(t, alts, i).value])
    ensures FirstMatch(t, alts, i).Some? ==>
      forall j {:trigger MatchesAt(t, i, alts[j])} :: 0 <= j < FirstMatch(t, alts, i).value ==> !MatchesAt(t, i, alts[j])
    ensures FirstMatch(t, alts, i).None? ==>
      forall j {:trigger MatchesAt(t, i, alts[j])} :: 0 <= j < |alts| ==> !MatchesAt(t, i, alts[j])
    decreases |alts|
  {
    if alts != [] {
      FirstMatchIsFirst(t, alts[1..], i);
      assert forall j :: 1 <= j < |alts| ==> alts[j] == alts[1..][j - 1];
    }
  }

  /** The scan of `re.sub` from index i: on a match emit the token and resume
      after the matched text, otherwise copy one character. Boundaries are
      always judged on the input of the call. */
  function PassFrom(t: string, r: Rule, i: nat): string
    requires WellFormed(r) && i <= |t|
    decreases |t| - i
  {
    if i == |t| then []
    else match FirstMatch(t, r.alternatives, i)
      case Some(k) => r.Token() + PassFrom(t, r, i + |r.alternatives[k]|)
      case None => [t[i]] + PassFrom(t, r, i + 1)
  }

  function Pass(t: string, r: Rule): string
    requires WellFormed(r)
  {
    PassFrom(t, r, 0)
  }

  /** The generators' loop: each rule in order, on the previous rule's output. */
  function Fold(t: string, rules: seq<Rule>): string
    requires AllWellFormed(rules)
    decreases |rules|
  {
    if rules == [] then t else Fold(Pass(t, rules[0]), rules[1..])
  }

  // ---------------------------------------------------------------------
  // Sequence steps

  lemma ConsSlice(t: string, i: nat, j: nat)
    requires i < j <= |t|
    ensures [t[i]] + t[i + 1..j] == t[i..j]
  {
  }

  lemma AppendAssoc(a: string, b: string, c: string)
    ensures a + (b + c) == (a + b) + c
  {
  }

  lemma ConsCancel(c: char, x: string, y: string)
    requires [c] + x == [c] + y
    ensures x == y
  {
    assert x == ([c] + x)[1..];
  }

  // ---------------------------------------------------------------------
  // Matching

  lemma {:induction false} SpellsPointwise(t: string, i: nat, a: string, k: nat)
    requires i + |a| <= |t| && k <= |a|
    ensures SpellsFrom(t, i, a, k) <==> forall m :: k <= m < |a| ==> Lower(t[i + m]) == Lower(a[m])
    decreases |a| - k
  {
    if k < |a| {
      SpellsPointwise(t, i, a, k + 1);
    }
  }

  /** The m-th character of a spelling, when there is one. */
  lemma SpellsCharAt(t: string, i: nat, a: string, m: nat)
    requires i + |a| <= |t| && SpellsFrom(t, i, a, 0)
    ensures m < |a| ==> Lower(t[i + m]) == Lower(a[m])
  {
    SpellsPointwise(t, i, a, 0);
  }

  /** Spelling a at index i is case-insensitive equality with the slice there. */
  lemma SpellsSlice(t: string, i: nat, a: string)
    requires i + |a| <= |t|
    ensures SpellsFrom(t, i, a, 0) <==> EqualIgnoreCase(t[i..i + |a|], a)
  {
    SpellsPointwise(t, i, a, 0);
    var u := t[i..i + |a|];
    EqualIgnoreCasePointwise(u, a);
    forall m | 0 <= m < |a| ensures u[m] == t[i + m] { }
  }

  /** A match covers the text character by character, ignoring case. */
  lemma MatchChars(t: string, i: nat, a: string)
    requires i <= |t| && MatchesAt(t, i, a)
    ensures forall k :: 0 <= k < |a| ==> Lower(t[i + k]) == Lower(a[k])
  {
    SpellsPointwise(t, i, a, 0);
  }

  /** For a word that starts and ends with a letter, `\b...\b` means: no word
      character just before and none just after. */
  lemma BoundaryForm(t: string, i: nat, a: string)
    requires i <= |t| && |a| > 0 && IsAsciiLetter(a[0]) && IsAsciiLetter(a[|a| - 1])
    ensures MatchesAt(t, i, a) <==>
      i + |a| <= |t| && IsWordStart(t, i) && SpellsFrom(t, i, a, 0) && IsWordEnd(t, i + |a|)
  {
    if i + |a| <= |t| {
      SpellsPointwise(t, i, a, 0);
      assert Lower(t[i + 0]) == Lower(a[0]) ==> IsAsciiLetter(t[i]);
      assert Lower(t[i + (|a| - 1)]) == Lower(a[|a| - 1]) ==> IsAsciiLetter(t[i + |a| - 1]);
    }
  }

  /** The engine's answer depends only on which alternatives match. */
  lemma {:induction false} SameMatches(t1: string, i1: nat, t2: string, i2: nat, alts: seq<string>)
    requires i1 <= |t1| && i2 <= |t2|
    requires forall k :: 0 <= k < |alts| ==> MatchesAt(t1, i1, alts[k]) == MatchesAt(t2, i2, alts[k])
    ensures FirstMatch(t1, alts, i1) == FirstMatch(t2, alts, i2)
    decreases |alts|
  {
    if alts != [] && !MatchesAt(t1, i1, alts[0]) {
      SameMatches(t1, i1, t2, i2, alts[1..]);
    }
  }

  lemma LowerFold(c: char)
    ensures Lower(Lower(c)) == Lower(c)
    ensures IsWordChar(Lower(c)) == IsWordChar(c)
  {
  }

  /** l is t with every character case-folded. */
  predicate Folded(t: string, l: string)
  {
    |l| == |t| && forall k :: 0 <= k < |t| ==> l[k] == Lower(t[k])
  }

  lemma BoundaryLower(t: string, l: string, i: nat)
    requires i <= |t| && Folded(t, l)
    ensures Boundary(t, i) == Boundary(l, i)
  {
    if i > 0 { LowerFold(t[i - 1]); }
    if i < |t| { LowerFold(t[i]); }
  }

  lemma SpellsLower(t: string, l: string, i: nat, a: string)
    requires i + |a| <= |t| && Folded(t, l)
    ensures SpellsFrom(t, i, a, 0) == SpellsFrom(l, i, a, 0)
  {
    SpellsPointwise(t, i, a, 0);
    SpellsPointwise(l, i, a, 0);
    forall p | i <= p < i + |a| ensures Lower(t[p]) == Lower(l[p]) {
      LowerFold(t[p]);
    }
  }

  /** Folding the case of the text does not change whether an alternative
      matches. */
  lemma MatchAtLower(t: string, l: string, i: nat, a: string)
    requires i <= |t| && Folded(t, l)
    ensures MatchesAt(t, i, a) == MatchesAt(l, i, a)
  {
    if i + |a| <= |t| {
      BoundaryLower(t, l, i);
      BoundaryLower(t, l, i + |a|);
      SpellsLower(t, l, i, a);
    }
  }

  /** IGNORECASE: the engine sees the text only through case folding. */
  lemma MatchIgnoresCase(t: string, alts: seq<string>, i: nat)
    requires i <= |t|
    ensures FirstMatch(t, alts, i) == FirstMatch(LowerString(t), alts, i)
  {
    var l := LowerString(t);
    assert Folded(t, l);
    forall k | 0 <= k < |alts| ensures MatchesAt(t, i, alts[k]) == MatchesAt(l, i, alts[k]) {
      MatchAtLower(t, l, i, alts[k]);
    }
    SameMatches(t, i, l, i, alts);
  }

  /** A matched text starts and ends with a letter. */
  lemma MatchStartsWithLetter(t: string, alts: seq<string>, i: nat)
    requires i <= |t| && FirstMatch(t, alts, i).Some?
    requires WellFormedAlternative(alts[FirstMatch(t, alts, i).value])
    ensures i < |t| && IsAsciiLetter(t[i]) && IsAsciiLetter(t[i + |alts[FirstMatch(t, alts, i).value]| - 1])
  {
    FirstMatchIsFirst(t, alts, i);
    var a := alts[FirstMatch(t, alts, i).value];
    BoundaryForm(t, i, a);
    SpellsPointwise(t, i, a, 0);
    assert Lower(t[i + (|a| - 1)]) == Lower(a[|a| - 1]);
  }

  // ---------------------------------------------------------------------
  // The scan, one step at a time

  /** From index i, the scan emits o while consuming d characters of t. */
  predicate StepsTo(t: string, r: Rule, i: nat, o: string, d: nat)
    requires WellFormed(r) && i + d <= |t|
  {
    PassFrom(t, r, i) == o + PassFrom(t, r, i + d)
  }

  /** One step of the scan: the token and the matched length on a match, the
      character itself otherwise. */
  lemma ScanStep(t: string, r: Rule, i: nat) returns (o: string, d: nat)
    requires WellFormed(r) && i < |t|
    ensures 0 < d && i + d <= |t| && StepsTo(t, r, i, o, d)
    ensures FirstMatch(t, r.alternatives, i).Some? ==>
      o == r.Token() && d == |r.alternatives[FirstMatch(t, r.alternatives, i).value]| &&
      MatchesAt(t, i, r.alternatives[FirstMatch(t, r.alternatives, i).value]) &&
      IsAsciiLetter(t[i]) && IsAsciiLetter(t[i + d - 1])
    ensures FirstMatch(t, r.alternatives, i).None? ==> o == [t[i]] && d == 1
  {
    FirstMatchIsFirst(t, r.alternatives, i);
    match FirstMatch(t, r.alternatives, i)
    case Some(k) =>
      MatchStartsWithLetter(t, r.alternatives, i);
      o, d := r.Token(), |r.alternatives[k]|;
    case None =>
      o, d := [t[i]], 1;
  }

  lemma StepsCompose(t: string, r: Rule, i: nat, o1: string, d1: nat, o2: string, o: string, n: nat)
    requires WellFormed(r) && d1 <= n && i + n <= |t| && o == o1 + o2
    requires StepsTo(t, r, i, o1, d1) && StepsTo(t, r, i + d1, o2, n - d1)
    ensures StepsTo(t, r, i, o, n)
  {
    assert i + d1 + (n - d1) == i + n;
    AppendAssoc(o1, o2, PassFrom(t, r, i + n));
  }

  /** The output is empty exactly at the end of the input, and otherwise
      starts with the first brace of a token or with the copied character. */
  lemma PassFromHead(t: string, r: Rule, i: nat)
    requires WellFormed(r) && i <= |t|
    ensures (|PassFrom(t, r, i)| == 0) == (i == |t|)
    ensures i < |t| && FirstMatch(t, r.alternatives, i).Some? ==> PassFrom(t, r, i)[0] == '{'
    ensures i < |t| && FirstMatch(t, r.alternatives, i).None? ==> PassFrom(t, r, i)[0] == t[i]
  {
    if i < |t| {
      var o, d := ScanStep(t, r, i);
    }
  }

  /** Where nothing matches, the scan copies the input. */
  lemma {:induction false} PassFromCopies(t: string, r: Rule, i: nat, j: nat)
    requires WellFormed(r) && i <= j <= |t|
    requires forall k :: i <= k < j ==> FirstMatch(t, r.alternatives, k).None?
    ensures StepsTo(t, r, i, t[i..j], j - i)
    decreases j - i
  {
    if i < j {
      var o, d := ScanStep(t, r, i);
      PassFromCopies(t, r, i + 1, j);
      ConsSlice(t, i, j);
      StepsCompose(t, r, i, o, 1, t[i + 1..j], t[i..j], j - i);
    } else {
      assert [] + PassFrom(t, r, i) == PassFrom(t, r, i);
    }
  }

  /** The rest of the scan copies the rest of the input. */
  predicate CopiesFrom(t: string, r: Rule, i: nat)
    requires WellFormed(r) && i <= |t|
  {
    PassFrom(t, r, i) == t[i..]
  }

  lemma {:induction false} CopyingMeansNoMatch(t: string, r: Rule, i: nat)
    requires WellFormed(r) && i <= |t| && CopiesFrom(t, r, i)
    ensures forall k :: i <= k < |t| ==> FirstMatch(t, r.alternatives, k).None?
    decreases |t| - i
  {
    if i < |t| {
      var o, d := ScanStep(t, r, i);
      PassFromHead(t, r, i);
      assert t[i..] == [t[i]] + t[i + 1..];
      ConsCancel(t[i], PassFrom(t, r, i + 1), t[i + 1..]);
      CopyingMeansNoMatch(t, r, i + 1);
    }
  }

  /** No alternative of the list matches anywhere in t. */
  predicate NoMatchAnywhere(t: string, alts: seq<string>)
  {
    forall i, k {:trigger MatchesAt(t, i, alts[k])} :: 0 <= i <= |t| && 0 <= k < |alts| ==> !MatchesAt(t, i, alts[k])
  }

  lemma NoMatchMeansNone(t: string, r: Rule)
    requires NoMatchAnywhere(t, r.alternatives)
    ensures forall k :: 0 <= k <= |t| ==> FirstMatch(t, r.alternatives, k).None?
  {
    forall k | 0 <= k <= |t| ensures FirstMatch(t, r.alternatives, k).None? {
      FirstMatchIsFirst(t, r.alternatives, k);
    }
  }

  lemma NoneMeansNoMatch(t: string, r: Rule)
    requires WellFormed(r)
    requires forall k :: 0 <= k < |t| ==> FirstMatch(t, r.alternatives, k).None?
    ensures NoMatchAnywhere(t, r.alternatives)
  {
    forall i, k | 0 <= i <= |t| && 0 <= k < |r.alternatives| ensures !MatchesAt(t, i, r.alternatives[k]) {
      if i < |t| {
        FirstMatchIsFirst(t, r.alternatives, i);
      }
    }
  }

  /** A pass leaves its input unchanged exactly when no alternative of the
      rule matches anywhere in it. */
  lemma PassUnchangedIffNoMatch(t: string, r: Rule)
    requires WellFormed(r)
    ensures Pass(t, r) == t <==> NoMatchAnywhere(t, r.alternatives)
  {
    if NoMatchAnywhere(t, r.alternatives) {
      NoMatchMeansNone(t, r);
      PassFromCopies(t, r, 0, |t|);
      assert t[0..|t|] == t;
    }
    if Pass(t, r) == t {
      assert t[0..] == t;
      assert CopiesFrom(t, r, 0);
      CopyingMeansNoMatch(t, r, 0);
      NoneMeansNoMatch(t, r);
    }
  }

  // ---------------------------------------------------------------------
  // Locality: the scan splits at a separator

  /** c can never be part of a match of r: it is no word character and no
      alternative of r contains it. */
  predicate SeparatesFor(c: char, r: Rule)
  {
    !IsWordChar(c) &&
    forall k, m :: 0 <= k < |r.alternatives| && 0 <= m < |r.alternatives[k]| ==> r.alternatives[k][m] != c
  }

  /** Braces, punctuation and line breaks separate for every rule; a space
      separates for a rule without multi-word alternatives. */
  lemma SeparatorSeparates(c: char, r: Rule)
    requires WellFormed(r) && IsSeparator(c)
    ensures SeparatesFor(c, r)
  {
  }

  /** The seam between p and s is safe for r when a character that
      separates for r sits on one side of it. */
  predicate SafeSeam(p: string, s: string, r: Rule)
  {
    p == [] || s == [] || SeparatesFor(s[0], r) || SeparatesFor(p[|p| - 1], r)
  }

  lemma SpellsShift(t1: string, i1: nat, t2: string, i2: nat, a: string)
    requires i1 + |a| <= |t1| && i2 + |a| <= |t2|
    requires t1[i1..i1 + |a|] == t2[i2..i2 + |a|]
    ensures SpellsFrom(t1, i1, a, 0) == SpellsFrom(t2, i2, a, 0)
  {
    SpellsPointwise(t1, i1, a, 0);
    SpellsPointwise(t2, i2, a, 0);
    forall m | 0 <= m < |a|
      ensures (Lower(t1[i1 + m]) == Lower(a[m])) == (Lower(t2[i2 + m]) == Lower(a[m]))
    {
      assert t1[i1..i1 + |a|][m] == t1[i1 + m];
      assert t2[i2..i2 + |a|][m] == t2[i2 + m];
    }
  }

  lemma MatchesAtPrefix(p: string, s: string, r: Rule, i: nat, k: nat)
    requires WellFormed(r) && SafeSeam(p, s, r) && i < |p| && k < |r.alternatives|
    ensures MatchesAt(p + s, i, r.alternatives[k]) == MatchesAt(p, i, r.alternatives[k])
  {
    var a := r.alternatives[k];
    var t, n := p + s, |a|;
    BoundaryForm(t, i, a);
    BoundaryForm(p, i, a);
    if i + n <= |p| {
      assert t[i..i + n] == p[i..i + n];
      SpellsShift(t, i, p, i, a);
      SpellsPointwise(p, i, a, 0);
      assert Lower(p[i + (n - 1)]) == Lower(a[n - 1]) ==> IsAsciiLetter(p[i + n - 1]);
    } else if i + n <= |t| {
      // the match would cross the separator, which no alternative contains
      SpellsPointwise(t, i, a, 0);
      var m := if SeparatesFor(s[0], r) then |p| - i else |p| - 1 - i;
      assert SeparatesFor(t[i + m], r) && a[m] != t[i + m];
      assert Lower(t[i + m]) != Lower(a[m]);
    }
  }

  lemma MatchesAtSuffix(p: string, s: string, j: nat, a: string)
    requires j <= |s| && WellFormedAlternative(a)
    requires p == [] || s == [] || !IsWordChar(s[0]) || !IsWordChar(p[|p| - 1])
    ensures MatchesAt(p + s, |p| + j, a) == MatchesAt(s, j, a)
  {
    var t, n := p + s, |a|;
    BoundaryForm(t, |p| + j, a);
    BoundaryForm(s, j, a);
    if j + n <= |s| {
      assert t[|p| + j..|p| + j + n] == s[j..j + n];
      SpellsShift(t, |p| + j, s, j, a);
      if SpellsFrom(s, j, a, 0) {
        SpellsPointwise(s, j, a, 0);
        assert Lower(s[j + 0]) == Lower(a[0]) ==> IsAsciiLetter(s[j]);
        assert IsWordStart(t, |p| + j) == IsWordStart(s, j) by {
          if j > 0 { assert t[|p| + j - 1] == s[j - 1]; }
        }
        assert IsWordEnd(t, |p| + j + n) == IsWordEnd(s, j + n) by {
          if j + n < |s| { assert t[|p| + j + n] == s[j + n]; }
        }
      }
    } else {
      assert |t| == |p| + |s|;
    }
  }

  lemma PrefixSameMatch(p: string, s: string, r: Rule, i: nat)
    requires WellFormed(r) && SafeSeam(p, s, r) && i < |p|
    ensures FirstMatch(p + s, r.alternatives, i) == FirstMatch(p, r.alternatives, i)
  {
    forall k | 0 <= k < |r.alternatives|
      ensures MatchesAt(p + s, i, r.alternatives[k]) == MatchesAt(p, i, r.alternatives[k])
    {
      MatchesAtPrefix(p, s, r, i, k);
    }
    SameMatches(p + s, i, p, i, r.alternatives);
  }

  lemma SuffixSameMatch(p: string, s: string, r: Rule, j: nat)
    requires WellFormed(r) && j <= |s|
    requires p == [] || s == [] || !IsWordChar(s[0]) || !IsWordChar(p[|p| - 1])
    ensures FirstMatch(p + s, r.alternatives, |p| + j) == FirstMatch(s, r.alternatives, j)
  {
    forall k | 0 <= k < |r.alternatives|
      ensures MatchesAt(p + s, |p| + j, r.alternatives[k]) == MatchesAt(s, j, r.alternatives[k])
    {
      MatchesAtSuffix(p, s, j, r.alternatives[k]);
    }
    SameMatches(p + s, |p| + j, s, j, r.alternatives);
  }

  /** Both scans see the same character and the same match: they take the
      same step. */
  lemma JointStep(t: string, i: nat, s: string, j: nat, r: Rule) returns (o: string, d: nat)
    requires WellFormed(r) && i < |t| && j < |s| && t[i] == s[j]
    requires FirstMatch(t, r.alternatives, i) == FirstMatch(s, r.alternatives, j)
    ensures 0 < d && i + d <= |t| && j + d <= |s|
    ensures StepsTo(t, r, i, o, d) && StepsTo(s, r, j, o, d)
  {
    var o1, d1 := ScanStep(t, r, i);
    var o2, d2 := ScanStep(s, r, j);
    o, d := o1, d1;
  }

  lemma {:induction false} PassFromPrefix(p: string, s: string, r: Rule, i: nat)
    requires WellFormed(r) && SafeSeam(p, s, r) && i <= |p|
    ensures StepsTo(p + s, r, i, PassFrom(p, r, i), |p| - i)
    decreases |p| - i
  {
    var t := p + s;
    if i < |p| {
      PrefixSameMatch(p, s, r, i);
      var o, d := JointStep(t, i, p, i, r);
      PassFromPrefix(p, s, r, i + d);
      StepsCompose(t, r, i, o, d, PassFrom(p, r, i + d), PassFrom(p, r, i), |p| - i);
    } else {
      assert [] + PassFrom(t, r, i) == PassFrom(t, r, i);
    }
  }

  /** The scans of t from i and of s from j produce the same output. */
  predicate ScansAgree(t: string, i: nat, s: string, j: nat, r: Rule)
    requires WellFormed(r) && i <= |t| && j <= |s|
  {
    PassFrom(t, r, i) == PassFrom(s, r, j)
  }

  /** Two scans that take the same step and then agree agree from before
      the step. */
  lemma ChainSteps(t: string, i: nat, s: string, j: nat, r: Rule, o: string, d: nat)
    requires WellFormed(r) && i + d <= |t| && j + d <= |s|
    requires StepsTo(t, r, i, o, d) && StepsTo(s, r, j, o, d) && ScansAgree(t, i + d, s, j + d, r)
    ensures ScansAgree(t, i, s, j, r)
  {
  }

  lemma {:induction false} PassFromSuffix(p: string, s: string, r: Rule, j: nat)
    requires WellFormed(r) && j <= |s|
    requires p == [] || s == [] || !IsWordChar(s[0]) || !IsWordChar(p[|p| - 1])
    ensures ScansAgree(p + s, |p| + j, s, j, r)
    decreases |s| - j
  {
    var t := p + s;
    if j < |s| {
      var i := |p| + j;
      var o, d := SuffixStep(p, s, r, j);
      PassFromSuffix(p, s, r, j + d);
      assert |p| + (j + d) == i + d;
      ChainSteps(t, i, s, j, r, o, d);
    } else {
      assert |t| == |p| + j;
    }
  }

  /** Behind a safe seam, one step of the scan of p + s is the step of the
      scan of s alone. */
  lemma SuffixStep(p: string, s: string, r: Rule, j: nat) returns (o: string, d: nat)
    requires WellFormed(r) && j < |s|
    requires p == [] || s == [] || !IsWordChar(s[0]) || !IsWordChar(p[|p| - 1])
    ensures 0 < d && j + d <= |s|
    ensures StepsTo(p + s, r, |p| + j, o, d) && StepsTo(s, r, j, o, d)
  {
    SuffixSameMatch(p, s, r, j);
    assert (p + s)[|p| + j] == s[j];
    o, d := JointStep(p + s, |p| + j, s, j, r);
  }

  /** Substitution is local: text on either side of a separator is rewritten
      independently. */
  lemma PassConcat(p: string, s: string, r: Rule)
    requires WellFormed(r) && SafeSeam(p, s, r)
    ensures Pass(p + s, r) == Pass(p, r) + Pass(s, r)
  {
    PassFromPrefix(p, s, r, 0);
    PassFromSuffix(p, s, r, 0);
    assert |p| + 0 == |p|;
  }

  /** A single non-word character is copied. */
  lemma PassNonWordChar(c: char, r: Rule)
    requires WellFormed(r) && !IsWordChar(c)
    ensures Pass([c], r) == [c]
  {
    var o, d := ScanStep([c], r, 0);
    assert PassFrom([c], r, 1) == [];
  }

  /** A leading non-word character (a space, say) is copied and the rest is
      scanned as if it started the text. */
  lemma PassLeadingNonWord(c: char, s: string, r: Rule)
    requires WellFormed(r) && !IsWordChar(c)
    ensures Pass([c] + s, r) == [c] + Pass(s, r)
  {
    var o, d := ScanStep([c] + s, r, 0);
    PassFromSuffix([c], s, r, 0);
  }

  /** w equals one of the alternatives, ignoring case. */
  predicate IsAlternative(w: string, alts: seq<string>)
  {
    exists k :: 0 <= k < |alts| && EqualIgnoreCase(w, alts[k])
  }

  /** Inside a text that is one word, an alternative matches exactly when it
      is the whole word. */
  lemma WholeWordMatch(w: string, a: string)
    requires IsWord(w) && WellFormedAlternative(a)
    ensures MatchesAt(w, 0, a) <==> EqualIgnoreCase(w, a)
  {
    if |a| <= |w| {
      SpellsSlice(w, 0, a);
      if |a| < |w| {
        assert IsWordChar(w[|a| - 1]) && IsWordChar(w[|a|]);
      } else {
        assert w[0..|a|] == w;
      }
    }
  }

  /** A text that is one word becomes the token exactly when some alternative
      equals the whole word, ignoring case; otherwise it is untouched. So a
      rule for "region" leaves "regional" alone. */
  lemma PassOfWord(w: string, r: Rule)
    requires WellFormed(r) && IsWord(w)
    ensures Pass(w, r) == if IsAlternative(w, r.alternatives) then r.Token() else w
  {
    var alts := r.alternatives;
    forall m | 1 <= m < |w| ensures FirstMatch(w, alts, m).None? {
      FirstMatchIsFirst(w, alts, m);
    }
    forall k | 0 <= k < |alts| ensures MatchesAt(w, 0, alts[k]) <==> EqualIgnoreCase(w, alts[k]) {
      WholeWordMatch(w, alts[k]);
    }
    FirstMatchIsFirst(w, alts, 0);
    var o, d := ScanStep(w, r, 0);
    assert PassFrom(w, r, |w|) == [];
    if FirstMatch(w, alts, 0).None? {
      PassFromCopies(w, r, 1, |w|);
      assert [w[0]] + w[1..|w|] == w;
    }
  }

  /** Text inside double braces is rewritten as if the braces were not there. */
  lemma PassWrap(x: string, r: Rule)
    requires WellFormed(r)
    ensures Pass("{{" + x + "}}", r) == "{{" + Pass(x, r) + "}}"
  {
    var open, close := ['{'], ['}'];
    assert "{{" + x + "}}" == open + (open + (x + (close + close)));
    SeparatorSeparates('{', r);
    SeparatorSeparates('}', r);
    PassNonWordChar('{', r);
    PassNonWordChar('}', r);
    PassConcat(close, close, r);
    PassConcat(x, close + close, r);
    PassConcat(open, x + (close + close), r);
    PassConcat(open, open + (x + (close + close)), r);
    assert "{{" + Pass(x, r) + "}}" == open + (open + (Pass(x, r) + (close + close)));
  }

  /** Applied to a token `{{name}}`, a rule rewrites the name inside the
      braces like any other word: tokens are not protected from later rules. */
  lemma PassOfToken(name: string, r: Rule)
    requires WellFormed(r) && |name| > 0 && AllLetters(name)
    ensures Pass("{{" + name + "}}", r) ==
      "{{" + (if IsAlternative(name, r.alternatives) then r.Token() else name) + "}}"
  {
    PassWrap(name, r);
    PassOfWord(name, r);
  }

  // ---------------------------------------------------------------------
  // What a pass leaves behind

  /** s holds a whole word w of letters at q. At q == 0, `startsWord` says
      whether a word may begin there; elsewhere the character before must
      not be a word character. A word right after a brace that equals `name`
      is set aside: it is the name inside a token. */
  predicate WordAt(s: string, q: nat, w: string, startsWord: bool, name: string)
  {
    q + |w| <= |s| && SpellsFrom(s, q, w, 0) && IsWordEnd(s, q + |w|) &&
    if q == 0 then startsWord
    else !IsWordChar(s[q - 1]) && (s[q - 1] != '{' || !EqualIgnoreCase(w, name))
  }

  /** The scan's output from index i holds such a word at q; at q == 0 the
      word must also start a word of the input. */
  predicate WordInOutput(t: string, r: Rule, i: nat, w: string, q: nat)
    requires WellFormed(r) && i <= |t|
  {
    WordAt(PassFrom(t, r, i), q, w, IsWordStart(t, i), r.placeholder)
  }

  /** The first m characters of the scan's output from i are letters. */
  predicate LettersAhead(t: string, r: Rule, i: nat, m: nat)
    requires WellFormed(r) && i <= |t|
  {
    m <= |PassFrom(t, r, i)| && forall k :: 0 <= k < m ==> IsAsciiLetter(PassFrom(t, r, i)[k])
  }

  /** Letters in the output were copied from the input (a token starts
      with a brace). */
  lemma {:induction false} CopiedRun(t: string, r: Rule, i: nat, m: nat)
    requires WellFormed(r) && i <= |t| && LettersAhead(t, r, i, m)
    ensures i + m <= |t| && StepsTo(t, r, i, t[i..i + m], m)
    decreases m
  {
    if m == 0 {
      assert [] + PassFrom(t, r, i) == PassFrom(t, r, i);
    } else {
      CopyStep(t, r, i);
      var s, rest := PassFrom(t, r, i), PassFrom(t, r, i + 1);
      assert forall k :: 0 <= k < m - 1 ==> rest[k] == s[k + 1];
      CopiedRun(t, r, i + 1, m - 1);
      ConsSlice(t, i, i + m);
      StepsCompose(t, r, i, [t[i]], 1, t[i + 1..i + m], t[i..i + m], m);
    }
  }

  /** An output that starts with a letter starts with a copied character. */
  lemma CopyStep(t: string, r: Rule, i: nat)
    requires WellFormed(r) && i < |t| && LettersAhead(t, r, i, 1)
    ensures PassFrom(t, r, i) == [t[i]] + PassFrom(t, r, i + 1)
  {
    PassFromHead(t, r, i);
    var o, d := ScanStep(t, r, i);
  }

  lemma SpelledLetters(s: string, q: nat, w: string)
    requires q + |w| <= |s| && AllLetters(w) && SpellsFrom(s, q, w, 0)
    ensures forall k :: q <= k < q + |w| ==> IsAsciiLetter(s[k])
  {
    SpellsPointwise(s, q, w, 0);
    forall k | q <= k < q + |w| ensures IsAsciiLetter(s[k]) {
      assert Lower(s[q + (k - q)]) == Lower(w[k - q]);
    }
  }

  lemma FrontCopy(s: string, u: string, rest: string, w: string)
    requires s == u + rest && |u| == |w| && SpellsFrom(s, 0, w, 0) && IsWordEnd(s, |w|)
    ensures SpellsFrom(u, 0, w, 0) && (rest == [] || !IsWordChar(rest[0]))
  {
    assert s[0..|w|] == u[0..|w|];
    SpellsShift(s, 0, u, 0, w);
  }

  /** Where the scan copies a non-word character after a word character,
      the input has that non-word character too. */
  lemma CopyEndsWord(t: string, r: Rule, j: nat, rest: string)
    requires WellFormed(r) && 0 < j < |t| && IsWordChar(t[j - 1])
    requires PassFrom(t, r, j) == rest && (rest == [] || !IsWordChar(rest[0]))
    ensures !IsWordChar(t[j])
  {
    PassFromHead(t, r, j);
    var o, d := ScanStep(t, r, j);
  }

  /** A word at the very front of the scan's output was copied whole from
      the input, where no alternative matched it. */
  lemma WordAtScanStart(t: string, r: Rule, i: nat, w: string)
    requires WellFormed(r) && i <= |t| && |w| > 0 && AllLetters(w)
    requires WordInOutput(t, r, i, w, 0)
    ensures i < |t| && MatchesAt(t, i, w) && FirstMatch(t, r.alternatives, i).None?
  {
    var s, n := PassFrom(t, r, i), |w|;
    SpelledLetters(s, 0, w);
    assert LettersAhead(t, r, i, n);
    CopiedRun(t, r, i, n);
    PassFromHead(t, r, i);
    var u, rest := t[i..i + n], PassFrom(t, r, i + n);
    assert s == u + rest;
    FrontCopy(s, u, rest, w);
    if i + n < |t| {
      assert t[i + n - 1] == s[n - 1];
      CopyEndsWord(t, r, i + n, rest);
    }
    SpellsShift(u, 0, t, i, w);
    BoundaryForm(t, i, w);
  }

  /** Shifting a word position across the front o of the output. */
  lemma ShiftWord(s: string, o: string, rest: string, q: nat, w: string, b0: bool, b: bool, name: string)
    requires s == o + rest && 0 < |o| <= q && WordAt(s, q, w, b0, name)
    ensures q == |o| ==> !IsWordChar(o[|o| - 1])
    ensures q > |o| || b ==> WordAt(rest, q - |o|, w, b, name)
  {
    assert s[q..q + |w|] == rest[q - |o|..q - |o| + |w|];
    SpellsShift(s, q, rest, q - |o|, w);
  }

  /** Inside `{{name}}` the only whole word of letters that starts after a
      non-word character is the name itself, right after the braces. */
  lemma TokenWord(name: string, rest: string, s: string, q: nat, w: string)
    requires s == "{{" + name + "}}" + rest && |name| > 0 && AllLetters(name)
    requires |w| > 0 && AllLetters(w) && 0 < q < |name| + 4 && q + |w| <= |s|
    requires SpellsFrom(s, q, w, 0) && IsWordEnd(s, q + |w|) && !IsWordChar(s[q - 1])
    ensures q == 2 && EqualIgnoreCase(w, name)
  {
    var n := |name|;
    assert s[0] == '{' && s[1] == '{' && s[n + 2] == '}' && s[n + 3] == '}';
    assert forall k :: 2 <= k < n + 2 ==> s[k] == name[k - 2];
    SpellsPointwise(s, q, w, 0);
    SpellsCharAt(s, q, w, 0);
    SpellsCharAt(s, q, w, n);
    EqualIgnoreCasePointwise(w, name);
  }

  /** A word of the output never starts inside or right after a token. */
  lemma WordPastToken(t: string, r: Rule, i: nat, w: string, q: nat)
    requires WellFormed(r) && SimplePlaceholder(r) && |w| > 0 && AllLetters(w)
    requires i < |t| && FirstMatch(t, r.alternatives, i).Some? && 0 < q
    requires WordInOutput(t, r, i, w, q)
    ensures q > |r.Token()|
  {
    var o, d := ScanStep(t, r, i);
    var s, rest := PassFrom(t, r, i), PassFrom(t, r, i + d);
    assert s == o + rest;
    if q < |o| {
      TokenWord(r.placeholder, rest, s, q, w);
    }
    PassFromHead(t, r, i + d);
    SpellsCharAt(s, q, w, 0);
  }

  /** Every whole word of the output that is not the name inside a token
      was a whole word of the input at a position where no alternative
      matched. */
  lemma {:induction false} ReflectFrom(t: string, r: Rule, w: string, i: nat, q: nat) returns (j: nat)
    requires WellFormed(r) && SimplePlaceholder(r) && |w| > 0 && AllLetters(w) && i <= |t|
    requires WordInOutput(t, r, i, w, q)
    ensures i <= j < |t| && MatchesAt(t, j, w) && FirstMatch(t, r.alternatives, j).None?
    decreases |t| - i
  {
    if q == 0 {
      WordAtScanStart(t, r, i, w);
      j := i;
    } else {
      var o, d := StepBeforeWord(t, r, i, w, q);
      j := ReflectFrom(t, r, w, i + d, q - |o|);
    }
  }

  /** A word that is not at the front of the scan's output is still in the
      output after the scan's first step. */
  lemma StepBeforeWord(t: string, r: Rule, i: nat, w: string, q: nat) returns (o: string, d: nat)
    requires WellFormed(r) && SimplePlaceholder(r) && |w| > 0 && AllLetters(w) && i <= |t|
    requires 0 < q && WordInOutput(t, r, i, w, q)
    ensures 0 < d && i + d <= |t| && |o| <= q && WordInOutput(t, r, i + d, w, q - |o|)
  {
    var s := PassFrom(t, r, i);
    PassFromHead(t, r, i);
    o, d := ScanStep(t, r, i);
    if FirstMatch(t, r.alternatives, i).Some? {
      WordPastToken(t, r, i, w, q);
    }
    var rest := PassFrom(t, r, i + d);
    ShiftWord(s, o, rest, q, w, IsWordStart(t, i), IsWordStart(t, i + d), r.placeholder);
    assert q > |o| || IsWordStart(t, i + d);
  }

  /** Every whole word w of a pass's output, other than the name inside a
      token, is a whole word of the input at a position where the rule did
      not match. */
  lemma ReflectWholeWord(t: string, r: Rule, w: string, q: nat) returns (j: nat)
    requires WellFormed(r) && SimplePlaceholder(r) && |w| > 0 && AllLetters(w)
    requires q <= |Pass(t, r)| && MatchesAt(Pass(t, r), q, w)
    requires q == 0 || Pass(t, r)[q - 1] != '{' || !EqualIgnoreCase(w, r.placeholder)
    ensures j < |t| && MatchesAt(t, j, w) && FirstMatch(t, r.alternatives, j).None?
  {
    BoundaryForm(Pass(t, r), q, w);
    assert WordInOutput(t, r, 0, w, q);
    j := ReflectFrom(t, r, w, 0, q);
  }

  /** After a pass, an alternative of one word can still be found as a whole
      word only as the name inside a token, and only when it equals the
      placeholder. */
  lemma PassLeavesNoAlternative(t: string, r: Rule, k: nat, q: nat)
    requires WellFormed(r) && SimplePlaceholder(r) && k < |r.alternatives| && AllLetters(r.alternatives[k])
    requires q <= |Pass(t, r)| && MatchesAt(Pass(t, r), q, r.alternatives[k])
    ensures q > 0 && Pass(t, r)[q - 1] == '{' && EqualIgnoreCase(r.alternatives[k], r.placeholder)
  {
    var a := r.alternatives[k];
    if !(q > 0 && Pass(t, r)[q - 1] == '{' && EqualIgnoreCase(a, r.placeholder)) {
      var j := ReflectWholeWord(t, r, a, q);
      FirstMatchIsFirst(t, r.alternatives, j);
    }
  }

  /** w occurs nowhere in t as a whole word, ignoring case. */
  predicate WordAbsent(t: string, w: string)
  {
    forall j :: 0 <= j <= |t| ==> !MatchesAt(t, j, w)
  }

  /** A pass introduces no whole word other than its placeholder. */
  lemma PassKeepsWordAbsent(t: string, r: Rule, w: string)
    requires WellFormed(r) && SimplePlaceholder(r) && LowerWord(w)
    requires w != r.placeholder && WordAbsent(t, w)
    ensures WordAbsent(Pass(t, r), w)
  {
    DistinctLowerWords(w, r.placeholder);
    forall q | 0 <= q <= |Pass(t, r)| ensures !MatchesAt(Pass(t, r), q, w) {
      if MatchesAt(Pass(t, r), q, w) {
        var j := ReflectWholeWord(t, r, w, q);
      }
    }
  }

  /** An alternative of one word that differs from the placeholder is gone
      after the pass. */
  lemma PassRemovesAlternative(t: string, r: Rule, k: nat)
    requires WellFormed(r) && SimplePlaceholder(r) && k < |r.alternatives| && LowerWord(r.alternatives[k])
    requires r.alternatives[k] != r.placeholder
    ensures WordAbsent(Pass(t, r), r.alternatives[k])
  {
    DistinctLowerWords(r.alternatives[k], r.placeholder);
    forall q | 0 <= q <= |Pass(t, r)| ensures !MatchesAt(Pass(t, r), q, r.alternatives[k]) {
      if MatchesAt(Pass(t, r), q, r.alternatives[k]) {
        PassLeavesNoAlternative(t, r, k, q);
      }
    }
  }

  // ---------------------------------------------------------------------
  // Multi-word alternatives

  /** A match of "x y" contains a whole-word match of its first word. */
  lemma FirstWordOfMatch(t: string, i: nat, a: string, m: nat)
    requires i <= |t| && MatchesAt(t, i, a) && WellFormedAlternative(a)
    requires 0 < m < |a| && a[m] == ' ' && IsAsciiLetter(a[m - 1])
    ensures MatchesAt(t, i, a[..m])
  {
    BoundaryForm(t, i, a);
    BoundaryForm(t, i, a[..m]);
    SpellsPointwise(t, i, a, 0);
    SpellsPointwise(t, i, a[..m], 0);
    assert Lower(t[i + m]) == Lower(a[m]);
  }

  /** A match of "x y" contains a whole-word match of its last word, right
      after a space. */
  lemma LastWordOfMatch(t: string, i: nat, a: string, m: nat)
    requires i <= |t| && MatchesAt(t, i, a) && WellFormedAlternative(a)
    requires 0 < m < |a| && a[m - 1] == ' ' && IsAsciiLetter(a[m])
    ensures i + m <= |t| && t[i + m - 1] == ' ' && MatchesAt(t, i + m, a[m..])
  {
    BoundaryForm(t, i, a);
    BoundaryForm(t, i + m, a[m..]);
    SpellsPointwise(t, i, a, 0);
    SpellsPointwise(t, i + m, a[m..], 0);
    assert Lower(t[i + (m - 1)]) == Lower(a[m - 1]);
    assert forall k :: 0 <= k < |a| - m ==> a[m..][k] == a[m + k];
  }

  // ---------------------------------------------------------------------
  // Dropping an alternative that never matches

  /** The alternative the engine picks at i, if any. */
  function Chosen(t: string, alts: seq<string>, i: nat): Option<string>
    requires i <= |t|
  {
    match FirstMatch(t, alts, i)
    case Some(k) => Some(alts[k])
    case None => None
  }

  function DropAlternative(r: Rule, k: nat): Rule
    requires k < |r.alternatives|
  {
    Rule(r.alternatives[..k] + r.alternatives[k + 1..], r.placeholder)
  }

  lemma {:induction false} DropKeepsChoice(t: string, alts: seq<string>, k: nat, i: nat)
    requires i <= |t| && k < |alts| && !MatchesAt(t, i, alts[k])
    ensures Chosen(t, alts, i) == Chosen(t, alts[..k] + alts[k + 1..], i)
    decreases k
  {
    var rest := alts[..k] + alts[k + 1..];
    if k == 0 {
      assert rest == alts[1..];
    } else {
      assert rest[0] == alts[0];
      assert rest[1..] == alts[1..][..k - 1] + alts[1..][k..];
      if !MatchesAt(t, i, alts[0]) {
        DropKeepsChoice(t, alts[1..], k - 1, i);
      }
    }
  }

  /** The scans of t under r1 and under r2 produce the same output. */
  predicate RulesAgree(t: string, r1: Rule, r2: Rule, i: nat)
    requires WellFormed(r1) && WellFormed(r2) && i <= |t|
  {
    PassFrom(t, r1, i) == PassFrom(t, r2, i)
  }

  lemma {:induction false} SameChoicesSameScan(t: string, r1: Rule, r2: Rule, i: nat)
    requires WellFormed(r1) && WellFormed(r2) && r1.placeholder == r2.placeholder && i <= |t|
    requires forall m :: i <= m < |t| ==> Chosen(t, r1.alternatives, m) == Chosen(t, r2.alternatives, m)
    ensures RulesAgree(t, r1, r2, i)
    decreases |t| - i
  {
    if i < |t| {
      var o1, d1 := ScanStep(t, r1, i);
      var o2, d2 := ScanStep(t, r2, i);
      assert Chosen(t, r1.alternatives, i) == Chosen(t, r2.alternatives, i);
      assert o1 == o2 && d1 == d2 by {
        assert r1.Token() == r2.Token();
      }
      SameChoicesSameScan(t, r1, r2, i + d1);
    }
  }

  /** An alternative that matches nowhere in the input can be dropped from
      its rule without changing the pass. */
  lemma DropDeadAlternative(t: string, r: Rule, k: nat)
    requires WellFormed(r) && k < |r.alternatives| && WordAbsent(t, r.alternatives[k])
    ensures WellFormed(DropAlternative(r, k)) && Pass(t, DropAlternative(r, k)) == Pass(t, r)
  {
    var alts := r.alternatives;
    var r2 := DropAlternative(r, k);
    assert forall m :: 0 <= m < |r2.alternatives| ==>
      r2.alternatives[m] == if m < k then alts[m] else alts[m + 1];
    forall m | 0 <= m < |t| ensures Chosen(t, alts, m) == Chosen(t, r2.alternatives, m) {
      DropKeepsChoice(t, alts, k, m);
    }
    SameChoicesSameScan(t, r, r2, 0);
  }

  // ---------------------------------------------------------------------
  // Series of passes

  lemma {:induction false} FoldAppend(t: string, a: seq<Rule>, b: seq<Rule>)
    requires AllWellFormed(a) && AllWellFormed(b)
    ensures AllWellFormed(a + b) && Fold(t, a + b) == Fold(Fold(t, a), b)
    decreases |a|
  {
    assert forall k :: 0 <= k < |a + b| ==> (a + b)[k] == if k < |a| then a[k] else b[k - |a|];
    if a == [] {
      assert a + b == b;
    } else {
      assert (a + b)[1..] == a[1..] + b;
      assert forall k :: 0 <= k < |a| - 1 ==> a[1..][k] == a[k + 1];
      FoldAppend(Pass(t, a[0]), a[1..], b);
    }
  }

  /** Passes whose placeholders all differ from w introduce no whole word w. */
  lemma {:induction false} FoldKeepsWordAbsent(t: string, rules: seq<Rule>, w: string)
    requires AllWellFormed(rules) && LowerWord(w) && WordAbsent(t, w)
    requires forall k :: 0 <= k < |rules| ==> SimplePlaceholder(rules[k]) && w != rules[k].placeholder
    ensures WordAbsent(Fold(t, rules), w)
    decreases |rules|
  {
    if rules != [] {
      PassKeepsWordAbsent(t, rules[0], w);
      assert forall k :: 0 <= k < |rules| - 1 ==> rules[1..][k] == rules[k + 1];
      FoldKeepsWordAbsent(Pass(t, rules[0]), rules[1..], w);
    }
  }

  /** c separates for every rule of the series. */
  predicate SeparatesForAll(c: char, rules: seq<Rule>)
  {
    forall j :: 0 <= j < |rules| ==> SeparatesFor(c, rules[j])
  }

  predicate SafeSeamAll(p: string, s: string, rules: seq<Rule>)
  {
    p == [] || s == [] || SeparatesForAll(s[0], rules) || SeparatesForAll(p[|p| - 1], rules)
  }

  /** A pass keeps a leading non-word character and a trailing separator. */
  lemma PassKeepsEnds(p: string, r: Rule)
    requires WellFormed(r) && p != []
    ensures Pass(p, r) != []
    ensures !IsWordChar(p[0]) ==> Pass(p, r)[0] == p[0]
    ensures SeparatesFor(p[|p| - 1], r) ==> Pass(p, r)[|Pass(p, r)| - 1] == p[|p| - 1]
  {
    PassFromHead(p, r, 0);
    var o, d := ScanStep(p, r, 0);
    if SeparatesFor(p[|p| - 1], r) {
      var c := p[|p| - 1];
      assert p == p[..|p| - 1] + [c];
      PassConcat(p[..|p| - 1], [c], r);
      PassNonWordChar(c, r);
    }
  }

  /** A series of passes is local too, at a character that separates for
      every rule. */
  lemma {:induction false} FoldConcat(p: string, s: string, rules: seq<Rule>)
    requires AllWellFormed(rules) && SafeSeamAll(p, s, rules)
    ensures Fold(p + s, rules) == Fold(p, rules) + Fold(s, rules)
    decreases |rules|
  {
    if rules != [] {
      var r := rules[0];
      PassConcat(p, s, r);
      if p != [] { PassKeepsEnds(p, r); }
      if s != [] { PassKeepsEnds(s, r); }
      assert forall j :: 0 <= j < |rules| - 1 ==> rules[1..][j] == rules[j + 1];
      assert SafeSeamAll(Pass(p, r), Pass(s, r), rules[1..]);
      FoldConcat(Pass(p, r), Pass(s, r), rules[1..]);
    }
  }

  /** The passes rewrite text inside double braces as if the braces were not
      there. */
  lemma {:induction false} FoldWrap(x: string, rules: seq<Rule>)
    requires AllWellFormed(rules)
    ensures Fold("{{" + x + "}}", rules) == "{{" + Fold(x, rules) + "}}"
    decreases |rules|
  {
    if rules != [] {
      PassWrap(x, rules[0]);
      FoldWrap(Pass(x, rules[0]), rules[1..]);
    }
  }

  /** The alternatives of a well-formed rule are lower-case, so being listed
      ignoring case is membership of the case-folded word. */
  lemma ListedMeansMember(w: string, alts: seq<string>)
    requires forall k :: 0 <= k < |alts| ==> WellFormedAlternative(alts[k])
    ensures IsAlternative(w, alts) <==> LowerString(w) in alts
  {
    forall k | 0 <= k < |alts| ensures EqualIgnoreCase(w, alts[k]) <==> LowerString(w) == alts[k] {
      var a := alts[k];
      EqualIgnoreCasePointwise(w, a);
      assert forall m :: 0 <= m < |a| ==> Lower(a[m]) == a[m];
    }
  }

  /** A word spelled in lower-case letters is its own case folding. */
  lemma LowerOfLowerWord(w: string)
    requires forall k :: 0 <= k < |w| ==> 'a' <= w[k] <= 'z'
    ensures LowerString(w) == w
  {
  }

  lemma LowerPlaceholder(r: Rule)
    requires WellFormed(r)
    ensures LowerString(r.placeholder) == r.placeholder
  {
  }

  /** A token whose placeholder no rule of the series lists passes through
      the series unchanged. */
  lemma TokenSurvives(r: Rule, rules: seq<Rule>)
    requires WellFormed(r) && SimplePlaceholder(r) && AllWellFormed(rules) && Unlisted(r.placeholder, rules)
    ensures Fold(r.Token(), rules) == r.Token()
  {
    LowerPlaceholder(r);
    FoldWrap(r.placeholder, rules);
    FoldOfPlainWord(r.placeholder, rules);
  }

  /** No rule of the series lists the (lower-case) word w. */
  predicate Unlisted(w: string, rules: seq<Rule>)
  {
    forall j :: 0 <= j < |rules| ==> w !in rules[j].alternatives
  }

  /** A word whose case-folded form no rule lists is left alone by the whole
      series. */
  lemma {:induction false} FoldOfPlainWord(w: string, rules: seq<Rule>)
    requires AllWellFormed(rules) && IsWord(w)
    requires Unlisted(LowerString(w), rules)
    ensures Fold(w, rules) == w
    decreases |rules|
  {
    if rules != [] {
      ListedMeansMember(w, rules[0].alternatives);
      PassOfWord(w, rules[0]);
      assert forall j :: 0 <= j < |rules| - 1 ==> rules[1..][j] == rules[j + 1];
      FoldOfPlainWord(w, rules[1..]);
    }
  }

  /** A word listed by the first rule becomes its token, which the later
      rules keep when none of them lists the placeholder. */
  lemma FoldOfListedWord(w: string, rules: seq<Rule>)
    requires AllWellFormed(rules) && |rules| > 0 && IsWord(w)
    requires LowerString(w) in rules[0].alternatives && SimplePlaceholder(rules[0])
    requires Unlisted(rules[0].placeholder, rules[1..])
    ensures Fold(w, rules) == rules[0].Token()
  {
    var after := rules[1..];
    assert forall i :: 0 <= i < |after| ==> after[i] == rules[1 + i];
    ListedMeansMember(w, rules[0].alternatives);
    PassOfWord(w, rules[0]);
    var name := rules[0].placeholder;
    LowerPlaceholder(rules[0]);
    FoldWrap(name, after);
    FoldOfPlainWord(name, after);
  }

  /** A word listed first by rule j becomes that rule's token and stays so
      when no later rule lists the placeholder. */
  lemma FoldOfWord(w: string, rules: seq<Rule>, j: nat)
    requires AllWellFormed(rules) && j < |rules| && IsWord(w)
    requires Unlisted(LowerString(w), rules[..j])
    requires LowerString(w) in rules[j].alternatives && SimplePlaceholder(rules[j])
    requires Unlisted(rules[j].placeholder, rules[j + 1..])
    ensures Fold(w, rules) == rules[j].Token()
  {
    var before, from := rules[..j], rules[j..];
    assert rules == before + from;
    assert forall i :: 0 <= i < |before| ==> before[i] == rules[i];
    assert forall i :: 0 <= i < |from| ==> from[i] == rules[j + i];
    assert from[1..] == rules[j + 1..];
    FoldAppend(w, before, from);
    FoldOfPlainWord(w, before);
    FoldOfListedWord(w, from);
  }

  /** A leading non-word character passes through the whole series. */
  lemma {:induction false} FoldLeadingNonWord(c: char, s: string, rules: seq<Rule>)
    requires AllWellFormed(rules) && !IsWordChar(c)
    ensures Fold([c] + s, rules) == [c] + Fold(s, rules)
    decreases |rules|
  {
    if rules != [] {
      PassLeadingNonWord(c, s, rules[0]);
      FoldLeadingNonWord(c, Pass(s, rules[0]), rules[1..]);
    }
  }

  lemma LowerConcat(a: string, b: string)
    ensures LowerString(a + b) == LowerString(a) + LowerString(b)
  {
    var l, m := LowerString(a + b), LowerString(a) + LowerString(b);
    forall k | 0 <= k < |l| ensures l[k] == m[k] {
      if k < |a| { assert (a + b)[k] == a[k]; } else { assert (a + b)[k] == b[k - |a|]; }
    }
  }

  /** Tokens are lower-case, so folding the case of a token changes nothing. */
  lemma LowerToken(r: Rule)
    requires WellFormed(r)
    ensures LowerString(r.Token()) == r.Token()
  {
    var t := r.Token();
    forall k | 0 <= k < |t| ensures Lower(t[k]) == t[k] {
      if 2 <= k < |t| - 2 { assert t[k] == r.placeholder[k - 2]; }
    }
  }

  /** IGNORECASE for a whole pass: the scan of the case-folded text is the
      case-folded output of the scan. */
  lemma {:induction false} PassFromLower(t: string, r: Rule, i: nat)
    requires WellFormed(r) && i <= |t|
    ensures LowerString(PassFrom(t, r, i)) == PassFrom(LowerString(t), r, i)
    decreases |t| - i
  {
    var l := LowerString(t);
    if i == |t| {
      assert PassFrom(t, r, i) == [] && PassFrom(l, r, i) == [];
    } else {
      var o, d := StepLower(t, r, i);
      PassFromLower(t, r, i + d);
      LowerConcat(o, PassFrom(t, r, i + d));
    }
  }

  /** One step of the scan on the case-folded text emits the case-folded
      output of the same step on the text. */
  lemma StepLower(t: string, r: Rule, i: nat) returns (o: string, d: nat)
    requires WellFormed(r) && i < |t|
    ensures 0 < d && i + d <= |t|
    ensures StepsTo(t, r, i, o, d) && StepsTo(LowerString(t), r, i, LowerString(o), d)
  {
    var l := LowerString(t);
    MatchIgnoresCase(t, r.alternatives, i);
    o, d := ScanStep(t, r, i);
    var o2, d2 := ScanStep(l, r, i);
    if FirstMatch(t, r.alternatives, i).Some? {
      LowerToken(r);
    } else {
      assert LowerString(o) == [Lower(t[i])] == o2;
    }
    assert LowerString(o) == o2 && d == d2;
  }

  lemma {:induction false} FoldLower(t: string, rules: seq<Rule>)
    requires AllWellFormed(rules)
    ensures LowerString(Fold(t, rules)) == Fold(LowerString(t), rules)
    decreases |rules|
  {
    if rules != [] {
      PassFromLower(t, rules[0], 0);
      FoldLower(Pass(t, rules[0]), rules[1..]);
    }
  }

  /** A phrase cannot occur where its first word does not. */
  lemma AbsentFirstWord(t: string, a: string, m: nat)
    requires WellFormedAlternative(a) && 0 < m < |a| && a[m] == ' ' && IsAsciiLetter(a[m - 1])
    requires WordAbsent(t, a[..m])
    ensures WordAbsent(t, a)
  {
    forall j | 0 <= j <= |t| ensures !MatchesAt(t, j, a) {
      if MatchesAt(t, j, a) {
        FirstWordOfMatch(t, j, a, m);
      }
    }
  }

  lemma DropKeepsWellFormed(r: Rule, k: nat)
    requires WellFormed(r) && k < |r.alternatives|
    ensures WellFormed(DropAlternative(r, k)) && DropAlternative(r, k).Token() == r.Token()
  {
    var alts := DropAlternative(r, k).alternatives;
    forall m | 0 <= m < |alts| ensures WellFormedAlternative(alts[m]) {
      if m < k { assert alts[m] == r.alternatives[m]; } else { assert alts[m] == r.alternatives[m + 1]; }
    }
  }

  /** Two different words spelled in lower case differ under IGNORECASE too. */
  lemma DistinctLowerWords(w: string, p: string)
    requires LowerWord(w) && w != p
    requires forall k :: 0 <= k < |p| ==> ('a' <= p[k] <= 'z' || p[k] == '-')
    ensures !EqualIgnoreCase(w, p)
  {
    EqualIgnoreCasePointwise(w, p);
    if |w| == |p| {
      assert !(forall k :: 0 <= k < |w| ==> w[k] == p[k]);
      var k :| 0 <= k < |w| && w[k] != p[k];
      assert Lower(w[k]) != Lower(p[k]);
    }
  }

  lemma AllWellFormedConcat(a: seq<Rule>, b: seq<Rule>)
    requires AllWellFormed(a) && AllWellFormed(b)
    ensures AllWellFormed(a + b)
  {
    forall k | 0 <= k < |a + b| ensures WellFormed((a + b)[k]) {
      if k < |a| { assert (a + b)[k] == a[k]; } else { assert (a + b)[k] == b[k - |a|]; }
    }
  }

  /** Two words joined by a hyphen pass through the series when neither is
      listed: the hyphen separates them for every rule. */
  lemma FoldOfHyphenated(a: string, b: string, rules: seq<Rule>)
    requires AllWellFormed(rules) && IsWord(a) && IsWord(b)
    requires Unlisted(LowerString(a), rules) && Unlisted(LowerString(b), rules)
    ensures Fold(a + "-" + b, rules) == a + "-" + b
  {
    forall j | 0 <= j < |rules| ensures SeparatesFor('-', rules[j]) {
      SeparatorSeparates('-', rules[j]);
    }
    assert ("-" + b)[0] == '-';
    assert a + "-" + b == a + ("-" + b);
    FoldConcat(a, "-" + b, rules);
    FoldOfPlainWord(a, rules);
    assert "-" + b == ['-'] + b;
    FoldLeadingNonWord('-', b, rules);
    FoldOfPlainWord(b, rules);
  }

  /** Text on either side of a separator (a brace, punctuation or a line
      break) is rewritten independently, and the separator is kept. */
  lemma FoldAroundSeparator(a: string, c: char, b: string, rules: seq<Rule>)
    requires AllWellFormed(rules) && IsSeparator(c)
    ensures Fold(a + [c] + b, rules) == Fold(a, rules) + [c] + Fold(b, rules)
  {
    forall j | 0 <= j < |rules| ensures SeparatesFor(c, rules[j]) {
      SeparatorSeparates(c, rules[j]);
    }
    assert ([c] + b)[0] == c;
    assert a + [c] + b == a + ([c] + b);
    FoldConcat(a, [c] + b, rules);
    FoldLeadingNonWord(c, b, rules);
  }

  /** A word listed first by rule j becomes that rule's token, and stays so
      when the later rules leave the placeholder alone. */
  lemma FoldOfWordKept(w: string, rules: seq<Rule>, j: nat)
    requires AllWellFormed(rules) && j < |rules| && IsWord(w)
    requires Unlisted(LowerString(w), rules[..j]) && LowerString(w) in rules[j].alternatives
    requires AllWellFormed(rules[j + 1..]) && Fold(rules[j].placeholder, rules[j + 1..]) == rules[j].placeholder
    ensures Fold(w, rules) == rules[j].Token()
  {
    var before, from := rules[..j], rules[j..];
    assert rules == before + from;
    assert forall i :: 0 <= i < |before| ==> before[i] == rules[i];
    assert forall i :: 0 <= i < |from| ==> from[i] == rules[j + i];
    assert from[1..] == rules[j + 1..];
    FoldAppend(w, before, from);
    FoldOfPlainWord(w, before);
    ListedMeansMember(w, rules[j].alternatives);
    PassOfWord(w, rules[j]);
    FoldWrap(rules[j].placeholder, rules[j + 1..]);
  }

  /** A rule whose alternatives all occur nowhere leaves the text alone. */
  lemma PassOfAbsent(t: string, r: Rule)
    requires WellFormed(r)
    requires forall k :: 0 <= k < |r.alternatives| ==> WordAbsent(t, r.alternatives[k])
    ensures Pass(t, r) == t
  {
    PassUnchangedIffNoMatch(t, r);
  }

  /** Once the pass of a rule has run, a phrase ending in one of its words
      that equals its placeholder cannot match: that word now only occurs
      right after a brace, never after a space. */
  lemma PhraseAfterOwnToken(t: string, r: Rule, k: nat, a: string, m: nat)
    requires WellFormed(r) && SimplePlaceholder(r) && k < |r.alternatives| && LowerWord(r.alternatives[k])
    requires WellFormedAlternative(a) && 0 < m < |a| && a[m - 1] == ' ' && a[m..] == r.alternatives[k]
    ensures WordAbsent(Pass(t, r), a)
  {
    var u := Pass(t, r);
    forall q | 0 <= q <= |u| ensures !MatchesAt(u, q, a) {
      if MatchesAt(u, q, a) {
        LastWordOfMatch(u, q, a, m);
        PassLeavesNoAlternative(t, r, k, q + m);
        assert false;
      }
    }
  }

  /** Rule p has one phrase, and its last word, after the space at m - 1,
      is the first alternative of rule r. */
  predicate PhraseEndsIn(p: Rule, m: nat, r: Rule)
  {
    WellFormed(p) && |p.alternatives| == 1 && |r.alternatives| > 0 &&
    0 < m < |p.alternatives[0]| && p.alternatives[0][m - 1] == ' ' && p.alternatives[0][m..] == r.alternatives[0]
  }

  /** Two one-phrase rules whose phrases end in the one word of rule r,
      listed after r, never change its output. */
  lemma ShadowedPhrases(t: string, r: Rule, p: Rule, q: Rule, m: nat, n: nat)
    requires WellFormed(r) && SimplePlaceholder(r) && |r.alternatives| > 0 && LowerWord(r.alternatives[0])
    requires PhraseEndsIn(p, m, r) && PhraseEndsIn(q, n, r)
    ensures AllWellFormed([r, p, q]) && AllWellFormed([r])
    ensures Fold(t, [r, p, q]) == Fold(t, [r])
  {
    var u := Pass(t, r);
    PhraseAfterOwnToken(t, r, 0, p.alternatives[0], m);
    PhraseAfterOwnToken(t, r, 0, q.alternatives[0], n);
    PassOfAbsent(u, p);
    PassOfAbsent(u, q);
    assert [r, p, q][1..] == [p, q] && [p, q][1..] == [q] && [q][1..] == [] && [r][1..] == [];
    assert Fold(u, [q]) == Fold(Pass(u, q), []) == u;
    assert Fold(u, [p, q]) == Fold(Pass(u, p), [q]);
    assert Fold(t, [r]) == Fold(u, []);
  }

  lemma LowerWordIsWord(w: string)
    requires LowerWord(w)
    ensures IsWord(w) && LowerString(w) == w
  {
    LowerOfLowerWord(w);
  }
}

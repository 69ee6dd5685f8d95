/** generate_archetypal_patterns.py: the twelve replaceable terms and the
    loop that applies them, the title and template extraction, the
    classification of a pattern file and the archetypal document. */
module DomainPatterns {
  import opened PyText
  import opened Substitution
  import opened Layout

  const Domains := Rule(["domains"], "domains")
  const Frameworks := Rule(["frameworks"], "frameworks")
  const Elements := Rule(["elements"], "elements")
  const Resources := Rule(["resources"], "resources")
  const OrganizationType := Rule(["organization"], "organization-type")
  const InfluenceType := Rule(["influence"], "influence-type")
  const Positions := Rule(["positions"], "positions")
  const Areas := Rule(["areas"], "areas")
  const Modes := Rule(["modes"], "modes")
  const Patterns := Rule(["patterns"], "patterns")
  const EstablishedPatterns := Rule(["established patterns"], "established-patterns")
  const MajorPatterns := Rule(["major patterns"], "major-patterns")

  /** One rule per term, in the order the dictionary lists them, which is the
      order the loop applies them. Each term is escaped, so it is matched
      literally, as a whole word, ignoring case. */
  const DomainRules: seq<Rule> :=
    [Domains, Frameworks, Elements, Resources, OrganizationType, InfluenceType,
     Positions, Areas, Modes, Patterns, EstablishedPatterns, MajorPatterns]

  /** The rules whose placeholder is a single word (all but the two
      "-type" rules and the two phrase rules). */
  predicate SimpleRule(k: nat) { k < 10 && k != 4 && k != 5 }

  /** A rule for one lower-case word. */
  predicate TermRule(r: Rule)
  {
    WellFormed(r) && |r.alternatives| == 1 && LowerWord(r.alternatives[0])
  }

  lemma DomainsWellFormed() ensures TermRule(Domains) && SimplePlaceholder(Domains)
  {
    assert WellFormedAlternative("domains");
  }

  lemma FrameworksWellFormed() ensures TermRule(Frameworks) && SimplePlaceholder(Frameworks)
  {
    assert WellFormedAlternative("frameworks");
  }

  lemma ElementsWellFormed() ensures TermRule(Elements) && SimplePlaceholder(Elements)
  {
    assert WellFormedAlternative("elements");
  }

  lemma ResourcesWellFormed() ensures TermRule(Resources) && SimplePlaceholder(Resources)
  {
    assert WellFormedAlternative("resources");
  }

  lemma OrganizationTypeWellFormed() ensures TermRule(OrganizationType)
  {
    assert WellFormedAlternative("organization");
  }

  lemma InfluenceTypeWellFormed() ensures TermRule(InfluenceType)
  {
    assert WellFormedAlternative("influence");
  }

  lemma PositionsWellFormed() ensures TermRule(Positions) && SimplePlaceholder(Positions)
  {
    assert WellFormedAlternative("positions");
  }

  lemma AreasWellFormed() ensures TermRule(Areas) && SimplePlaceholder(Areas)
  {
    assert WellFormedAlternative("areas");
  }

  lemma ModesWellFormed() ensures TermRule(Modes) && SimplePlaceholder(Modes)
  {
    assert WellFormedAlternative("modes");
  }

  lemma PatternsWellFormed() ensures TermRule(Patterns) && SimplePlaceholder(Patterns)
  {
    assert WellFormedAlternative("patterns");
  }

  lemma EstablishedPatternsWellFormed() ensures WellFormed(EstablishedPatterns)
  {
    assert WellFormedAlternative("established patterns");
  }

  lemma MajorPatternsWellFormed() ensures WellFormed(MajorPatterns)
  {
    assert WellFormedAlternative("major patterns");
  }

  lemma DomainRulesWellFormed()
    ensures AllWellFormed(DomainRules)
    ensures forall k :: 0 <= k < 10 ==> TermRule(DomainRules[k])
    ensures forall k: nat :: SimpleRule(k) ==> SimplePlaceholder(DomainRules[k])
  {
    DomainsWellFormed();
    FrameworksWellFormed();
    ElementsWellFormed();
    ResourcesWellFormed();
    OrganizationTypeWellFormed();
    InfluenceTypeWellFormed();
    PositionsWellFormed();
    AreasWellFormed();
    ModesWellFormed();
    PatternsWellFormed();
    EstablishedPatternsWellFormed();
    MajorPatternsWellFormed();
  }

  /** `identify_domain_specific_terms` as a specification: the twelve passes
      in order. */
  function DomainTerms(text: string): string
  {
    DomainRulesWellFormed();
    Fold(text, DomainRules)
  }

  /** The rewriting is local: text on either side of a brace, a punctuation
      mark or a line break is rewritten on its own. */
  lemma DomainTermsAroundSeparator(a: string, c: char, b: string)
    requires IsSeparator(c)
    ensures DomainTerms(a + [c] + b) == DomainTerms(a) + [c] + DomainTerms(b)
  {
    DomainRulesWellFormed();
    FoldAroundSeparator(a, c, b, DomainRules);
  }

  /** The passes of the rules from index k on. */
  function RemainingDomainTerms(text: string, k: nat): string
    requires k <= |DomainRules|
  {
    DomainRulesWellFormed();
    Fold(text, DomainRules[k..])
  }

  /** The passes of the rules before index k. */
  function DomainTermsBefore(text: string, k: nat): string
    requires k <= |DomainRules|
  {
    DomainRulesWellFormed();
    Fold(text, DomainRules[..k])
  }

  /** The loop of `identify_domain_specific_terms`: each term's pass applied
      to the previous pass's output. */
  method IdentifyDomainSpecificTerms(template: string) returns (archetypal: string)
    ensures archetypal == DomainTerms(template)
    ensures LowerString(archetypal) == DomainTerms(LowerString(template))
  {
    DomainRulesWellFormed();
    archetypal := template;
    for k := 0 to |DomainRules|
      invariant RemainingDomainTerms(archetypal, k) == DomainTerms(template)
    {
      assert DomainRules[k..][1..] == DomainRules[k + 1..];
      archetypal := Pass(archetypal, DomainRules[k]);
    }
    assert DomainRules[|DomainRules|..] == [];
    FoldLower(template, DomainRules);
  }

  /** Matching ignores case: the substituted text, case-folded, is the
      substitution of the case-folded text. */
  lemma DomainTermsIgnoreCase(text: string)
    ensures LowerString(DomainTerms(text)) == DomainTerms(LowerString(text))
  {
    DomainRulesWellFormed();
    FoldLower(text, DomainRules);
  }

  /** Each term is listed by exactly one rule. */
  lemma EachTermListedOnce()
    ensures forall i, j :: 0 <= i < |DomainRules| && 0 <= j < |DomainRules| && i != j ==>
      DomainRules[i].alternatives[0] !in DomainRules[j].alternatives
  {
  }

  /** The single-word placeholders are the rule's own term. */
  lemma SimplePlaceholderIsTerm(j: nat)
    requires SimpleRule(j)
    ensures DomainRules[j].placeholder == DomainRules[j].alternatives[0]
  {
  }

  /** "type" is a word and no term. */
  lemma TypeUnlisted()
    ensures LowerWord("type") && Unlisted("type", DomainRules)
  {
  }

  /** The two "-type" placeholders are the term, a hyphen and "type". */
  lemma TypePlaceholderShape(j: nat)
    requires j == 4 || j == 5
    ensures DomainRules[j].placeholder == DomainRules[j].alternatives[0] + "-" + "type"
  {
    if j == 4 {
      assert DomainRules[j] == OrganizationType;
      assert "organization-type" == "organization" + "-" + "type";
    } else {
      assert DomainRules[j] == InfluenceType;
      assert "influence-type" == "influence" + "-" + "type";
    }
  }

  /** A single-word placeholder is left alone by the rules after its own. */
  lemma SimplePlaceholderKept(j: nat)
    requires SimpleRule(j)
    ensures RemainingDomainTerms(DomainRules[j].placeholder, j + 1) == DomainRules[j].placeholder
  {
    SimplePlaceholderIsTerm(j);
    TermUnlistedLater(j);
    var x := DomainRules[j].alternatives[0];
    LowerWordIsWord(x);
    FoldOfPlainWord(x, DomainRules[j + 1..]);
  }

  /** The rules after rule j are well formed, and none of them lists rule
      j's term or the word "type". */
  lemma TermUnlistedLater(j: nat)
    requires j < 10
    ensures LowerWord(DomainRules[j].alternatives[0]) && AllWellFormed(DomainRules[j + 1..])
    ensures Unlisted(DomainRules[j].alternatives[0], DomainRules[j + 1..])
    ensures Unlisted("type", DomainRules[j + 1..])
  {
    DomainRulesWellFormed();
    EachTermListedOnce();
    TypeUnlisted();
    var later := DomainRules[j + 1..];
    assert forall i :: 0 <= i < |later| ==> later[i] == DomainRules[j + 1 + i];
    assert TermRule(DomainRules[j]);
  }

  /** A hyphenated placeholder "x-type" is left alone by the rules after its
      own: neither "x" nor "type" is listed by them. */
  lemma TypePlaceholderKept(j: nat)
    requires j == 4 || j == 5
    ensures RemainingDomainTerms(DomainRules[j].placeholder, j + 1) == DomainRules[j].placeholder
  {
    TypeUnlisted();
    TypePlaceholderShape(j);
    TermUnlistedLater(j);
    var x := DomainRules[j].alternatives[0];
    LowerWordIsWord(x);
    LowerWordIsWord("type");
    FoldOfHyphenated(x, "type", DomainRules[j + 1..]);
  }

  /** The placeholder of the "established patterns" rule is its two words
      joined by a hyphen, and neither word is listed by the last rule. */
  lemma EstablishedPatternsWords()
    ensures var a := EstablishedPatterns.alternatives[0];
      |a| == 20 && LowerWord(a[..11]) && LowerWord(a[12..]) &&
      EstablishedPatterns.placeholder == a[..11] + "-" + a[12..] &&
      Unlisted(a[..11], [MajorPatterns]) && Unlisted(a[12..], [MajorPatterns])
  {
    var a := EstablishedPatterns.alternatives[0];
    assert a[..11] == "established" && a[12..] == "patterns";
  }

  lemma EstablishedPatternsKept()
    ensures RemainingDomainTerms(EstablishedPatterns.placeholder, 11) == EstablishedPatterns.placeholder
  {
    DomainRulesWellFormed();
    var later := DomainRules[11..];
    assert later == [MajorPatterns];
    EstablishedPatternsWords();
    var a := EstablishedPatterns.alternatives[0];
    var x, y := a[..11], a[12..];
    LowerWordIsWord(x);
    LowerWordIsWord(y);
    FoldOfHyphenated(x, y, later);
  }

  /** Within one call, the placeholder a rule inserts is left alone by every
      later rule. */
  lemma PlaceholderKept(j: nat)
    requires j < |DomainRules|
    ensures RemainingDomainTerms(DomainRules[j].placeholder, j + 1) == DomainRules[j].placeholder
  {
    if SimpleRule(j) {
      SimplePlaceholderKept(j);
    } else if j == 4 || j == 5 {
      TypePlaceholderKept(j);
    } else if j == 10 {
      EstablishedPatternsKept();
    } else {
      assert DomainRules[12..] == [];
    }
  }

  /** Within one call, no token inserted by a rule is altered by a later rule. */
  lemma TokensSurviveLaterTerms(j: nat)
    requires j < |DomainRules|
    ensures RemainingDomainTerms(DomainRules[j].Token(), j + 1) == DomainRules[j].Token()
  {
    DomainRulesWellFormed();
    PlaceholderKept(j);
    FoldWrap(DomainRules[j].placeholder, DomainRules[j + 1..]);
  }

  /** A word that case-folds to one of the ten single-word terms comes out
      as that term's token, whatever its spelling. */
  lemma TermBecomesToken(w: string, j: nat)
    requires j < 10 && IsWord(w) && LowerString(w) == DomainRules[j].alternatives[0]
    ensures DomainTerms(w) == DomainRules[j].Token()
  {
    DomainRulesWellFormed();
    EachTermListedOnce();
    PlaceholderKept(j);
    var before := DomainRules[..j];
    assert forall i :: 0 <= i < |before| ==> before[i] == DomainRules[i];
    var later := DomainRules[j + 1..];
    assert forall i :: 0 <= i < |later| ==> later[i] == DomainRules[j + 1 + i];
    FoldOfWordKept(w, DomainRules, j);
  }

  lemma OrganizationWord()
    ensures LowerWord("organization") && DomainRules[4].alternatives[0] == "organization"
  {
  }

  /** "organization" becomes `{{organization-type}}`. */
  lemma OrganizationBecomesToken()
    ensures DomainTerms("organization") == DomainRules[4].Token()
  {
    OrganizationWord();
    LowerWordIsWord("organization");
    TermBecomesToken("organization", 4);
  }

  lemma OrganizationsWord()
    ensures LowerWord("organizations") && Unlisted("organizations", DomainRules)
  {
  }

  /** Whole words only: "organization" does not match inside "organizations". */
  lemma OrganizationsUnchanged()
    ensures DomainTerms("organizations") == "organizations"
  {
    DomainRulesWellFormed();
    OrganizationsWord();
    LowerWordIsWord("organizations");
    FoldOfPlainWord("organizations", DomainRules);
  }

  /** Both phrases end in "patterns", after a space. */
  lemma PatternPhrasesEndInPatterns()
    ensures PhraseEndsIn(EstablishedPatterns, 12, Patterns) && PhraseEndsIn(MajorPatterns, 6, Patterns)
  {
    EstablishedPatternsWellFormed();
    MajorPatternsWellFormed();
  }

  /** After the "patterns" pass, the two phrase passes change nothing. */
  lemma PhrasePassesIdle(u0: string)
    ensures AllWellFormed(DomainRules[9..]) && AllWellFormed(DomainRules[9..10])
    ensures Fold(u0, DomainRules[9..]) == Fold(u0, DomainRules[9..10])
  {
    assert DomainRules[9..] == [Patterns, EstablishedPatterns, MajorPatterns] && DomainRules[9..10] == [Patterns];
    PhraseRulesIdle(u0);
  }

  lemma PhraseRulesIdle(u0: string)
    ensures AllWellFormed([Patterns, EstablishedPatterns, MajorPatterns]) && AllWellFormed([Patterns])
    ensures Fold(u0, [Patterns, EstablishedPatterns, MajorPatterns]) == Fold(u0, [Patterns])
  {
    PatternsWellFormed();
    PatternPhrasesEndInPatterns();
    ShadowedPhrases(u0, Patterns, EstablishedPatterns, MajorPatterns, 12, 6);
  }

  /** The "established patterns" and "major patterns" rules never fire: the
      "patterns" rule runs first and leaves "patterns" only inside its own
      token, right after a brace, never after a space. */
  lemma PatternPhrasesAreDead(t: string)
    ensures DomainTerms(t) == DomainTermsBefore(t, 10)
  {
    DomainRulesWellFormed();
    var rules := DomainRules;
    var first := rules[..9];
    assert rules == first + rules[9..] && rules[..10] == first + rules[9..10];
    assert forall k :: 0 <= k < |first| ==> first[k] == rules[k];
    PhrasePassesIdle(Fold(t, first));
    FoldAppend(t, first, rules[9..]);
    FoldAppend(t, first, rules[9..10]);
  }

  /** Applied to its own output the function re-wraps tokens: "domains"
      becomes `{{domains}}`, and that becomes `{{{{domains}}}}`. */
  lemma DomainTokenRewrapped()
    ensures DomainTerms(Domains.Token()) == "{{" + Domains.Token() + "}}"
  {
    DomainRulesWellFormed();
    assert DomainRules[0] == Domains;
    LowerWordIsWord(Domains.placeholder);
    FoldWrap(Domains.placeholder, DomainRules);
    TermBecomesToken(Domains.placeholder, 0);
  }

  /** So the function is not idempotent. */
  lemma DomainTermsNotIdempotent()
    ensures DomainTerms(DomainTerms("domains")) != DomainTerms("domains")
  {
    DomainRulesWellFormed();
    assert DomainRules[0] == Domains;
    LowerWordIsWord(Domains.placeholder);
    TermBecomesToken(Domains.placeholder, 0);
    DomainTokenRewrapped();
  }

  // ---------------------------------------------------------------------
  // Reading a pattern file

  /** The number and the name a pattern file's title line gives. */
  datatype Title = Title(id: string, name: string)

  /** `^# (\d+) - (.+)$` under MULTILINE matches at index p: a line start,
      a hash and a space, digits, a spaced dash and a non-empty rest of line. */
  predicate TitleAt(c: string, p: nat)
  {
    p + 2 <= |c| && (p == 0 || c[p - 1] == '\n') && c[p] == '#' && c[p + 1] == ' ' &&
    var s := p + 2 + DigitRun(c, p + 2);
    s > p + 2 && s + 3 <= |c| && c[s] == ' ' && c[s + 1] == '-' && c[s + 2] == ' ' &&
    LineEnd(c, s + 3) > s + 3
  }

  /** The two groups of a title match: all the digits, and the rest of the
      line (`.` does not match a line feed, `.+` is greedy). */
  function TitleFrom(c: string, p: nat): (t: Title)
    requires TitleAt(c, p)
    ensures |t.id| > 0 && forall k :: 0 <= k < |t.id| ==> IsDigit(t.id[k])
    ensures |t.name| > 0 && forall k :: 0 <= k < |t.name| ==> t.name[k] != '\n'
  {
    var s := p + 2 + DigitRun(c, p + 2);
    Title(c[p + 2..s], c[s + 3..LineEnd(c, s + 3)])
  }

  /** `re.search` for the title: the first line of the title's form. */
  function PatternTitle(c: string): Option<Title>
  {
    match FirstWhere((p: nat) => TitleAt(c, p), 0, |c|)
    case None => None
    case Some(p) => Some(TitleFrom(c, p))
  }

  /** A title is found exactly when some line has the title's form; its
      number is all digits and its name a non-empty part of one line. */
  lemma PatternTitleFound(c: string)
    ensures var r := PatternTitle(c);
      (r.Some? <==> exists p :: 0 <= p <= |c| && TitleAt(c, p)) &&
      (r.Some? ==> |r.value.id| > 0 && forall k :: 0 <= k < |r.value.id| ==> IsDigit(r.value.id[k])) &&
      (r.Some? ==> |r.value.name| > 0 && forall k :: 0 <= k < |r.value.name| ==> r.value.name[k] != '\n')
    ensures PatternTitle(c).Some? ==>
      exists p :: 0 <= p <= |c| && TitleAt(c, p) && (forall q :: 0 <= q < p ==> !TitleAt(c, q)) &&
        PatternTitle(c).value == TitleFrom(c, p)
  {
    var ok := (p: nat) => TitleAt(c, p);
    assert forall p: nat :: ok(p) == TitleAt(c, p);
    var f := FirstWhere(ok, 0, |c|);
    assert PatternTitle(c) == if f.None? then None else Some(TitleFrom(c, f.value));
  }

  /** A file that opens with a title line yields that line's number and name,
      whatever follows the line. */
  lemma TitleOfTitleLine(id: string, name: string, rest: string)
    requires |id| > 0 && forall k :: 0 <= k < |id| ==> IsDigit(id[k])
    requires |name| > 0 && forall k :: 0 <= k < |name| ==> name[k] != '\n'
    requires rest == [] || rest[0] == '\n'
    ensures PatternTitle("# " + id + " - " + name + rest) == Some(Title(id, name))
  {
    var c := "# " + id + " - " + name + rest;
    var n, m := |id|, |name|;
    assert c[0] == '#' && c[1] == ' ' && c[2 + n] == ' ' && c[3 + n] == '-' && c[4 + n] == ' ';
    assert c[2..2 + n] == id && c[5 + n..5 + n + m] == name;
    assert forall k :: 2 <= k < 2 + n ==> c[k] == id[k - 2];
    assert forall k :: 5 + n <= k < 5 + n + m ==> c[k] == name[k - 5 - n];
    TitleAtStart(c, n, m);
  }

  /** The first line of c has the title's form, with n digits and an
      m-character name. */
  lemma TitleAtStart(c: string, n: nat, m: nat)
    requires 5 + n + m <= |c| && n > 0 && m > 0
    requires c[0] == '#' && c[1] == ' ' && c[2 + n] == ' ' && c[3 + n] == '-' && c[4 + n] == ' '
    requires forall k :: 2 <= k < 2 + n ==> IsDigit(c[k])
    requires forall k :: 5 + n <= k < 5 + n + m ==> c[k] != '\n'
    requires 5 + n + m == |c| || c[5 + n + m] == '\n'
    ensures PatternTitle(c) == Some(Title(c[2..2 + n], c[5 + n..5 + n + m]))
  {
    DigitRunIs(c, 2, n);
    LineEndIs(c, 5 + n, m);
    assert TitleAt(c, 0);
  }

  /** The lookahead `(?=\n\n##|\n\n$)`: two line feeds at e, then `##` or
      the end of the text (without MULTILINE, `$` also holds before one final
      line feed). */
  predicate TemplateEndAt(c: string, e: nat)
  {
    e + 2 <= |c| && c[e] == '\n' && c[e + 1] == '\n' &&
    ((e + 4 <= |c| && c[e + 2] == '#' && c[e + 3] == '#') || e + 2 == |c| || (e + 3 == |c| && c[e + 2] == '\n'))
  }

  /** The lazy `(.+?)` starting at b (`.` matches line feeds under DOTALL):
      the least end after at least one character. */
  function BodyEnd(c: string, b: nat): (r: Option<nat>)
    ensures r.Some? ==> b < r.value <= |c| && TemplateEndAt(c, r.value)
    ensures r.Some? ==> forall e :: b < e < r.value ==> !TemplateEndAt(c, e)
    ensures r.None? ==> forall e :: b < e <= |c| ==> !TemplateEndAt(c, e)
  {
    var ok := (e: nat) => TemplateEndAt(c, e);
    var r := FirstWhere(ok, b + 1, |c|);
    assert forall e: nat :: b < e <= |c| ==> ok(e) == TemplateEndAt(c, e);
    r
  }

  predicate HeadingAt(c: string, p: nat)
  {
    p + 11 <= |c| && c[p..p + 11] == "## Template"
  }

  /** The text matches `## Template\s*\n\n(.+?)(?=...)` with the heading at
      p and the body starting at b: only whitespace between the heading and
      the two line feeds before b, and an end for the body. */
  predicate Candidate(c: string, p: nat, b: nat)
  {
    HeadingAt(c, p) && p + 13 <= b <= |c| && SpacesBetween(c, p + 11, b - 2) &&
    c[b - 2] == '\n' && c[b - 1] == '\n' && BodyEnd(c, b).Some?
  }

  /** Greedy `\s*` after the heading at p tries its longest run first and
      gives characters back until the rest of the pattern matches: the
      greatest body start. */
  function BodyStart(c: string, p: nat): (r: Option<nat>)
    requires HeadingAt(c, p)
    ensures r.Some? ==> Candidate(c, p, r.value)
    ensures r.Some? ==> forall b: nat :: r.value < b ==> !Candidate(c, p, b)
    ensures r.None? ==> forall b: nat :: !Candidate(c, p, b)
  {
    var ok := (n: nat) => Candidate(c, p, p + 13 + n);
    CandidatesWithinRun(c, p);
    assert forall b: nat :: p + 13 <= b ==> ok(b - p - 13) == Candidate(c, p, b);
    match LastWhere(ok, 0, SpaceRun(c, p + 11))
    case None => None
    case Some(n) => Some(p + 13 + n)
  }

  /** The whitespace a candidate skips lies within the run of whitespace
      after the heading (the two line feeds are whitespace too). */
  lemma CandidatesWithinRun(c: string, p: nat)
    requires HeadingAt(c, p)
    ensures forall b: nat :: Candidate(c, p, b) ==> p + 13 <= b <= p + 13 + SpaceRun(c, p + 11)
  {
    forall b: nat | Candidate(c, p, b) ensures b <= p + 13 + SpaceRun(c, p + 11) {
      SpaceRunCovers(c, p + 11, b - p - 11);
    }
  }

  predicate TemplateAt(c: string, p: nat)
  {
    HeadingAt(c, p) && BodyStart(c, p).Some?
  }

  /** Where the template match lies: the heading, the body's start and its end. */
  datatype Span = Span(heading: nat, start: nat, end: nat)

  /** `re.search` for the template section: the leftmost heading with a
      match, the greatest body start there, the least body end. */
  function TemplateSpan(c: string): Option<Span>
  {
    match FirstWhere((p: nat) => TemplateAt(c, p), 0, |c|)
    case None => None
    case Some(p) =>
      var b := BodyStart(c, p).value;
      Some(Span(p, b, BodyEnd(c, b).value))
  }

  /** The span found is the leftmost heading with a match, the greatest
      body start there and the least body end; none is found only when
      no heading has a match. */
  lemma TemplateSpanIsLeftmost(c: string)
    ensures var r := TemplateSpan(c);
      (r.Some? ==> Candidate(c, r.value.heading, r.value.start)) &&
      (r.Some? ==> forall p: nat, b: nat :: p < r.value.heading ==> !Candidate(c, p, b)) &&
      (r.Some? ==> forall b: nat :: r.value.start < b ==> !Candidate(c, r.value.heading, b)) &&
      (r.Some? ==> r.value.start < r.value.end <= |c| && TemplateEndAt(c, r.value.end)) &&
      (r.Some? ==> forall e :: r.value.start < e < r.value.end ==> !TemplateEndAt(c, e)) &&
      (r.None? ==> forall p: nat, b: nat :: !Candidate(c, p, b))
  {
    var ok := (p: nat) => TemplateAt(c, p);
    assert forall p: nat :: ok(p) == TemplateAt(c, p);
    assert forall p: nat, b: nat :: Candidate(c, p, b) ==> p <= |c| && ok(p);
    var f := FirstWhere(ok, 0, |c|);
    if f.Some? {
      var b := BodyStart(c, f.value).value;
      assert TemplateSpan(c) == Some(Span(f.value, b, BodyEnd(c, b).value));
    }
  }

  /** The template match is fixed once its heading, body start and body end
      are shown to be the leftmost, the greatest and the least. */
  lemma TemplateSpanIs(c: string, p: nat, b: nat, e: nat)
    requires Candidate(c, p, b) && forall q: nat :: q < p ==> !HeadingAt(c, q)
    requires forall b': nat :: b < b' ==> !Candidate(c, p, b')
    requires b < e <= |c| && TemplateEndAt(c, e) && forall e' :: b < e' < e ==> !TemplateEndAt(c, e')
    ensures TemplateSpan(c) == Some(Span(p, b, e))
  {
    TemplateSpanIsLeftmost(c);
    var r := TemplateSpan(c);
    assert r.Some?;
    assert r.value.heading == p;
    assert r.value.start == b;
  }

  /** No two characters x in a row between lo and hi. */
  predicate NoPair(s: string, x: char, lo: nat, hi: nat)
    requires hi <= |s|
  {
    forall i, j {:trigger s[i], s[j]} :: lo <= i < hi && lo < j < hi && j == i + 1 ==> !(s[i] == x && s[j] == x)
  }

  /** No two hash signs in a row: no `## Template` heading can start here. */
  predicate NoDoubleHash(s: string)
  {
    NoPair(s, '#', 0, |s|)
  }

  /** No two line feeds in a row. */
  predicate NoBlankLine(s: string)
  {
    NoPair(s, '\n', 0, |s|)
  }

  /** A template section followed by another heading: the body is the text
      between the blank line after `## Template` and the blank line before
      the next heading, provided it starts with no whitespace (else `\s*`
      takes that whitespace) and holds no blank line (else the lazy body
      stops there). */
  lemma TemplateOfSection(pre: string, body: string, post: string)
    requires NoDoubleHash(pre) && |body| > 0 && !IsSpace(body[0]) && body[|body| - 1] != '\n' && NoBlankLine(body)
    ensures var c := pre + "## Template\n\n" + body + "\n\n##" + post;
      TemplateSpan(c) == Some(Span(|pre|, |pre| + 13, |pre| + 13 + |body|)) &&
      c[|pre| + 13..|pre| + 13 + |body|] == body
  {
    var h := "## Template\n\n";
    var c := pre + h + body + "\n\n##" + post;
    assert |h| == 13;
    MiddleOfFive(pre, h, body, "\n\n##", post);
    SectionChars(pre, body, post);
    NoHeadingBefore(c, |pre|);
    SectionSpan(c, |pre|, |pre| + 13 + |body|);
  }

  /** The characters of a template section that the match depends on. */
  lemma SectionChars(pre: string, body: string, post: string)
    requires NoDoubleHash(pre) && |body| > 0 && !IsSpace(body[0]) && body[|body| - 1] != '\n' && NoBlankLine(body)
    ensures var c, p := pre + "## Template\n\n" + body + "\n\n##" + post, |pre|;
      var e := p + 13 + |body|;
      p + 13 < e && e + 4 <= |c| &&
      HeadingAt(c, p) && c[p] == '#' && c[p + 1] == '#' && c[p + 11] == '\n' && c[p + 12] == '\n' &&
      NoPair(c, '#', 0, p) &&
      !IsSpace(c[p + 13]) && c[e - 1] != '\n' &&
      NoPair(c, '\n', p + 13, e) &&
      c[e] == '\n' && c[e + 1] == '\n' && c[e + 2] == '#' && c[e + 3] == '#'
  {
    var h, tail := "## Template\n\n", "\n\n##";
    var c := pre + h + body + tail + post;
    var p, b, e := |pre|, |pre| + 13, |pre| + 13 + |body|;
    assert c[p..p + 11] == h[..11] == "## Template";
    assert c[p + 11] == '\n' && c[p + 12] == '\n' && c[p] == '#' && c[p + 1] == '#';
    assert c[e] == '\n' && c[e + 1] == '\n' && c[e + 2] == '#' && c[e + 3] == '#';
    assert forall k :: 0 <= k < |pre| ==> c[k] == pre[k];
    assert forall k :: 0 <= k < |body| ==> c[b + k] == body[k];
  }

  /** Before index p no heading starts when no two hash signs stand in a
      row before p and the text at p starts with `##`. */
  lemma NoHeadingBefore(c: string, p: nat)
    requires p + 2 <= |c| && c[p] == '#' && c[p + 1] == '#'
    requires NoPair(c, '#', 0, p)
    ensures forall q: nat :: q < p ==> !HeadingAt(c, q)
  {
    forall q: nat | q < p ensures !HeadingAt(c, q) {
      if HeadingAt(c, q) {
        HeadingStartsWithHashes(c, q);
      }
    }
  }

  lemma HeadingStartsWithHashes(c: string, q: nat)
    requires HeadingAt(c, q)
    ensures c[q] == '#' && c[q + 1] == '#' && c[q + 2] == ' '
  {
    assert c[q..q + 11][0] == '#' && c[q..q + 11][1] == '#' && c[q..q + 11][2] == ' ';
  }

  /** The span of a section whose body, between p + 13 and e, starts with
      no whitespace, ends with no line feed and holds no blank line. */
  lemma SectionSpan(c: string, p: nat, e: nat)
    requires p + 13 < e && e + 4 <= |c|
    requires HeadingAt(c, p) && c[p + 11] == '\n' && c[p + 12] == '\n'
    requires forall q: nat :: q < p ==> !HeadingAt(c, q)
    requires !IsSpace(c[p + 13]) && c[e - 1] != '\n'
    requires NoPair(c, '\n', p + 13, e)
    requires c[e] == '\n' && c[e + 1] == '\n' && c[e + 2] == '#' && c[e + 3] == '#'
    ensures TemplateSpan(c) == Some(Span(p, p + 13, e))
  {
    var b := p + 13;
    assert TemplateEndAt(c, e);
    assert forall e': nat :: b < e' < e ==> !TemplateEndAt(c, e');
    assert BodyEnd(c, b).Some?;
    assert Candidate(c, p, b);
    assert SpacesBetween(c, p + 11, b);
    SpaceRunIs(c, p + 11, 2);
    CandidatesWithinRun(c, p);
    TemplateSpanIs(c, p, b, e);
  }

  /** What `extract_template_content` returns when it finds both the title
      and the template section: the number, the name and the stripped body. */
  datatype PatternSource = PatternSource(id: string, name: string, template: string)

  function ExtractTemplateContent(c: string): Option<PatternSource>
  {
    match PatternTitle(c)
    case None => None
    case Some(t) =>
      match TemplateSpan(c)
      case None => None
      case Some(span) => Some(PatternSource(t.id, t.name, Strip(c[span.start..span.end])))
  }

  /** Both parts must be found; the number and the name are non-empty, so
      the caller's truth test on them never fails; the template text has
      no whitespace at either end. */
  lemma ExtractedParts(c: string)
    ensures var r := ExtractTemplateContent(c);
      (r.None? <==> PatternTitle(c).None? || TemplateSpan(c).None?) &&
      (r.Some? ==> |r.value.id| > 0 && |r.value.name| > 0) &&
      (r.Some? ==> r.value.template == [] || (!IsSpace(r.value.template[0]) && !IsSpace(r.value.template[|r.value.template| - 1])))
  {
    PatternTitleFound(c);
  }

  /** A pattern file of the usual shape: the title line, a blank line, the
      template section, a blank line and the next heading. */
  function PatternFileText(id: string, name: string, body: string, post: string): string
  {
    "# " + id + " - " + name + "\n\n" + "## Template\n\n" + body + "\n\n##" + post
  }

  /** The title, the template span at p and the body text found in c. */
  predicate FileParts(c: string, p: nat, id: string, name: string, body: string)
  {
    PatternTitle(c) == Some(Title(id, name)) && TemplateSpan(c) == Some(Span(p, p + 13, p + 13 + |body|)) &&
    p + 13 + |body| <= |c| && c[p + 13..p + 13 + |body|] == body
  }

  /** A file that opens with its title line, a blank line and a template
      section followed by another heading shows its number, its name and
      its template text to the two searches. */
  lemma PartsOfPatternFile(id: string, name: string, body: string, post: string)
    requires |id| > 0 && forall k :: 0 <= k < |id| ==> IsDigit(id[k])
    requires |name| > 0 && forall k :: 0 <= k < |name| ==> name[k] != '\n'
    requires NoDoubleHash(name)
    requires |body| > 0 && !IsSpace(body[0]) && body[|body| - 1] != '\n' && NoBlankLine(body)
    ensures FileParts(PatternFileText(id, name, body, post), |id| + |name| + 7, id, name, body)
  {
    SectionOfPatternFile(id, name, body, post);
    TitleOfPatternFile(id, name, body, post);
  }

  lemma SectionOfPatternFile(id: string, name: string, body: string, post: string)
    requires forall k :: 0 <= k < |id| ==> IsDigit(id[k])
    requires |name| > 0 && name[|name| - 1] != '\n' && NoDoubleHash(name)
    requires |body| > 0 && !IsSpace(body[0]) && body[|body| - 1] != '\n' && NoBlankLine(body)
    ensures var c, p := PatternFileText(id, name, body, post), |id| + |name| + 7;
      TemplateSpan(c) == Some(Span(p, p + 13, p + 13 + |body|)) && p + 13 + |body| <= |c| && c[p + 13..p + 13 + |body|] == body
  {
    var pre := "# " + id + " - " + name + "\n\n";
    assert PatternFileText(id, name, body, post) == pre + "## Template\n\n" + body + "\n\n##" + post;
    assert |pre| == |id| + |name| + 7;
    TitleLineHasNoDoubleHash(id, name);
    TemplateOfSection(pre, body, post);
  }

  lemma TitleOfPatternFile(id: string, name: string, body: string, post: string)
    requires |id| > 0 && forall k :: 0 <= k < |id| ==> IsDigit(id[k])
    requires |name| > 0 && forall k :: 0 <= k < |name| ==> name[k] != '\n'
    ensures PatternTitle(PatternFileText(id, name, body, post)) == Some(Title(id, name))
  {
    var rest := "\n\n" + "## Template\n\n" + body + "\n\n##" + post;
    TitleOfTitleLine(id, name, rest);
    Regroup("# " + id + " - " + name, "\n\n", "## Template\n\n", body, "\n\n##", post);
  }

  lemma MiddleOfFive(pre: string, h: string, body: string, t: string, post: string)
    ensures (pre + h + body + t + post)[|pre| + |h|..|pre| + |h| + |body|] == body
  {
    assert pre + h + body + t + post == (pre + h) + body + (t + post);
  }

  lemma Regroup(x: string, a: string, b: string, c: string, d: string, e: string)
    ensures x + a + b + c + d + e == x + (a + b + c + d + e)
  {
  }

  /** Once both searches succeed, the extraction returns the title's
      groups and the stripped body. */
  lemma ExtractFromParts(c: string, p: nat, id: string, name: string, body: string)
    requires FileParts(c, p, id, name, body)
    ensures ExtractTemplateContent(c) == Some(PatternSource(id, name, Strip(body)))
  {
    var span := TemplateSpan(c).value;
    assert c[span.start..span.end] == body;
    assert ExtractTemplateContent(c) == Some(PatternSource(id, name, Strip(c[span.start..span.end])));
  }

  lemma TitleLineHasNoDoubleHash(id: string, name: string)
    requires forall k :: 0 <= k < |id| ==> IsDigit(id[k])
    requires NoDoubleHash(name) && |name| > 0 && name[|name| - 1] != '\n'
    ensures NoDoubleHash("# " + id + " - " + name + "\n\n")
  {
    var pre := "# " + id + " - " + name + "\n\n";
    var n := |id|;
    assert forall k :: 2 <= k < 2 + n ==> pre[k] == id[k - 2];
    assert forall k :: 5 + n <= k < 5 + n + |name| ==> pre[k] == name[k - 5 - n];
    assert pre[1] == ' ' && pre[2 + n] == ' ' && pre[4 + n] == ' ' && pre[5 + n + |name|] == '\n';
  }

  // ---------------------------------------------------------------------
  // The archetypal document

  /** The rules in the order the placeholder table lists them. */
  const TableRules: seq<Rule> :=
    [Domains, Frameworks, Elements, OrganizationType, Resources, InfluenceType, Areas, Positions, Patterns, Modes]

  /** What the table says about each placeholder, in table order. */
  const TableNotes: seq<string> := [
    DomainNote("regions/areas", "functional domains/communities", "knowledge domains", "modes of awareness"),
    DomainNote("cities/infrastructure", "institutions/systems", "paradigms/theories", "mental structures"),
    DomainNote("materials/spaces", "members/participants", "concepts/ideas", "perceptions/insights"),
    DomainNote("building/development", "institution/community", "framework/theory", "structured awareness"),
    DomainNote("land/agriculture", "social resources", "creative resources", "psychic resources"),
    DomainNote("influence", "influence", "insight", "influence"),
    DomainNote("land/regions", "functional areas", "domains", "modes of awareness"),
    DomainNote("central locations", "central organizations", "central frameworks", "ordered modes"),
    DomainNote("urban environments", "organizational patterns", "knowledge patterns", "awareness patterns"),
    DomainNote("environments", "modes of organization", "modes of organization", "modes of awareness")
  ]

  const TableRows: seq<string> := [
    GuideRow(Domains, TableNotes[0]),
    GuideRow(Frameworks, TableNotes[1]),
    GuideRow(Elements, TableNotes[2]),
    GuideRow(OrganizationType, TableNotes[3]),
    GuideRow(Resources, TableNotes[4]),
    GuideRow(InfluenceType, TableNotes[5]),
    GuideRow(Areas, TableNotes[6]),
    GuideRow(Positions, TableNotes[7]),
    GuideRow(Patterns, TableNotes[8]),
    GuideRow(Modes, TableNotes[9])
  ]

  /** Where each table row's rule stands in the order the rules run. */
  const TableOrder: seq<nat> := [0, 1, 2, 4, 3, 5, 7, 6, 9, 8]

  /** The table lists the first ten rules, each once, in its own order, and
      its rows are built from those rules' tokens. */
  lemma TableListsLiveRules()
    ensures |TableRules| == |TableRows| == |TableOrder| == 10
    ensures forall i :: 0 <= i < 10 ==> TableOrder[i] < 10 && TableRules[i] == DomainRules[TableOrder[i]]
    ensures forall k :: 0 <= k < 10 ==> k in TableOrder
    ensures forall i :: 0 <= i < 10 ==> TableRows[i] == GuideRow(TableRules[i], TableNotes[i])
  {
    assert TableOrder[4] == 3 && TableOrder[3] == 4 && TableOrder[7] == 6 && TableOrder[6] == 7;
    assert TableOrder[9] == 8 && TableOrder[8] == 9;
  }

  /** The two phrase rules, which never fire, have no row. */
  lemma TableOmitsPhraseRules()
    ensures forall i :: 0 <= i < |TableRules| ==> TableRules[i].placeholder != EstablishedPatterns.placeholder
    ensures forall i :: 0 <= i < |TableRules| ==> TableRules[i].placeholder != MajorPatterns.placeholder
  {
  }

  /** Everything between the substituted text and the original template:
      the placeholder table. It does not depend on the input. */
  const PatternMiddle: string :=
    "\n\n## Domain Placeholders\n\nThis archetypal pattern uses the following domain-specific placeholders:\n\n" +
    JoinLines(TableRows) +
    "\n\n## Original Template\n\n"

  function PatternHeading(id: string, name: string): (h: string)
    ensures |h| == |id| + |name| + 43
    ensures h[..|id| + |name| + 18] == "# " + id + " - " + name + " (Archetypal)"
  {
    "# " + id + " - " + name + " (Archetypal)\n\n## Archetypal Pattern\n\n"
  }

  /** The footer names the pattern number. */
  function PatternFooter(id: string): (f: string)
    ensures |f| == |id| + 36
    ensures f[34..34 + |id|] == id
  {
    "\n\n---\n*Generated from UIA Pattern " + id + "*\n"
  }

  /** `generate_archetypal_pattern`: the heading, the substituted template,
      the fixed table, the original template and the footer. */
  function PatternDocument(id: string, name: string, template: string): string
  {
    PatternHeading(id, name) + DomainTerms(template) + PatternMiddle + template + PatternFooter(id)
  }

  /** The archetypal document can be cut back into its parts: the heading
      naming the pattern, the substituted template, the table (the same for
      every input), the unchanged template and the footer naming the number. */
  lemma PatternDocumentParts(id: string, name: string, template: string)
    ensures var doc := PatternDocument(id, name, template);
      var a := |PatternHeading(id, name)| + |DomainTerms(template)|;
      |doc| == a + |PatternMiddle| + |template| + |id| + 36 &&
      doc[..|id| + |name| + 18] == "# " + id + " - " + name + " (Archetypal)" &&
      doc[|PatternHeading(id, name)|..a] == DomainTerms(template) &&
      doc[a..a + |PatternMiddle|] == PatternMiddle &&
      doc[a + |PatternMiddle|..|doc| - |id| - 36] == template &&
      doc[|doc| - |id| - 36..] == PatternFooter(id)
  {
    FiveParts(PatternHeading(id, name), DomainTerms(template), PatternMiddle, template, PatternFooter(id), |id| + |name| + 18);
  }

  // ---------------------------------------------------------------------
  // Classifying a pattern file

  /** What the main loop does with one file: writes `arc_<id>.md`, reports
      the file as skipped, or passes over it without a word. */
  datatype Outcome = Generated(file: string, document: string) | Skipped(id: string, name: string) | Unreported

  /** Lines 169-181: a file yields a document when the title and a non-empty
      template were found; it is reported as lacking a template section only
      when the section was found but strips to nothing; a file with no title
      or no template section is not reported at all. */
  function ProcessPatternFile(c: string): (r: Outcome)
    ensures r.Unreported? <==> ExtractTemplateContent(c).None?
    ensures r.Skipped? <==> ExtractTemplateContent(c).Some? && ExtractTemplateContent(c).value.template == []
    ensures r.Generated? ==> var s := ExtractTemplateContent(c).value;
      r.file == "arc_" + s.id + ".md" && r.document == PatternDocument(s.id, s.name, s.template)
  {
    match ExtractTemplateContent(c)
    case None => Unreported
    case Some(s) =>
      if s.template != [] then Generated("arc_" + s.id + ".md", PatternDocument(s.id, s.name, s.template))
      else Skipped(s.id, s.name)
  }

  /** A titled file without a `## Template` heading is never reported as
      skipped: the "no Template section" message is reserved for a section
      whose text is blank. */
  lemma MissingSectionUnreported(c: string)
    requires forall p: nat :: !HeadingAt(c, p)
    ensures ProcessPatternFile(c) == Unreported
  {
    assert TemplateSpan(c).None?;
  }

  /** A file whose template text has a non-blank start yields the
      archetypal document of its number, its name and its stripped template. */
  lemma PatternFileGenerated(c: string, p: nat, id: string, name: string, body: string)
    requires FileParts(c, p, id, name, body) && |body| > 0 && !IsSpace(body[0])
    ensures ProcessPatternFile(c) == Generated("arc_" + id + ".md", PatternDocument(id, name, Strip(body)))
  {
    ExtractFromParts(c, p, id, name, body);
    StripKeepsNonBlank(body);
  }

  /** A file whose template text is all whitespace is reported as skipped. */
  lemma BlankTemplateSkipped(c: string, p: nat, id: string, name: string, body: string)
    requires FileParts(c, p, id, name, body) && SpacesBetween(body, 0, |body|)
    ensures ProcessPatternFile(c) == Skipped(id, name)
  {
    ExtractFromParts(c, p, id, name, body);
    StripOfBlank(body);
  }
}

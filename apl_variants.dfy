/** generate_apl_archetypal_variants.py: the ten architectural rules, the
    loop that applies them, the variant document built around the result and
    the fallback text used for empty content. */
module AplVariants {
  import opened PyText
  import opened Substitution
  import opened Layout

  const Regions := Rule(["region", "regions"], "regions")
  const Settlements := Rule(["town", "towns", "city", "cities", "village", "villages"], "settlements")
  const Structures := Rule(["building", "buildings", "structure", "structures", "house", "houses"], "structures")
  const Pathways := Rule(["street", "streets", "road", "roads", "path", "paths"], "pathways")
  const Spaces := Rule(["space", "spaces", "room", "rooms", "area", "areas"], "spaces")
  const Agents := Rule(["people", "person", "inhabitants", "residents", "users"], "agents")
  const Processes := Rule(["activities", "activity", "functions", "function"], "processes")
  const Localities := Rule(["neighborhood", "neighborhoods", "community", "communities"], "localities")
  const Creation := Rule(["construction", "building process", "development"], "creation")
  const Movement := Rule(["parking", "transportation", "traffic"], "movement")

  /** The rules in the order the dictionary lists them, which is the order
      the loop applies them. */
  const ArchRules: seq<Rule> :=
    [Regions, Settlements, Structures, Pathways, Spaces, Agents, Processes, Localities, Creation, Movement]

  /** The dead alternative "building process" (index 1 of the creation rule)
      removed: the series that behaves the same on every text. */
  const LiveArchRules: seq<Rule> := ArchRules[..8] + [DropAlternative(Creation, 1), Movement]

  lemma RegionsWellFormed() ensures WellFormed(Regions) && SimplePlaceholder(Regions)
  {
    assert WellFormedAlternative("region");
    assert WellFormedAlternative("regions");
  }

  lemma SettlementsWellFormed() ensures WellFormed(Settlements) && SimplePlaceholder(Settlements)
  {
    assert WellFormedAlternative("town");
    assert WellFormedAlternative("towns");
    assert WellFormedAlternative("city");
    assert WellFormedAlternative("cities");
    assert WellFormedAlternative("village");
    assert WellFormedAlternative("villages");
  }

  lemma StructuresWellFormed() ensures WellFormed(Structures) && SimplePlaceholder(Structures)
  {
    assert WellFormedAlternative("building");
    assert WellFormedAlternative("buildings");
    assert WellFormedAlternative("structure");
    assert WellFormedAlternative("structures");
    assert WellFormedAlternative("house");
    assert WellFormedAlternative("houses");
  }

  lemma PathwaysWellFormed() ensures WellFormed(Pathways) && SimplePlaceholder(Pathways)
  {
    assert WellFormedAlternative("street");
    assert WellFormedAlternative("streets");
    assert WellFormedAlternative("road");
    assert WellFormedAlternative("roads");
    assert WellFormedAlternative("path");
    assert WellFormedAlternative("paths");
  }

  lemma SpacesWellFormed() ensures WellFormed(Spaces) && SimplePlaceholder(Spaces)
  {
    assert WellFormedAlternative("space");
    assert WellFormedAlternative("spaces");
    assert WellFormedAlternative("room");
    assert WellFormedAlternative("rooms");
    assert WellFormedAlternative("area");
    assert WellFormedAlternative("areas");
  }

  lemma AgentsWellFormed() ensures WellFormed(Agents) && SimplePlaceholder(Agents)
  {
    assert WellFormedAlternative("people");
    assert WellFormedAlternative("person");
    assert WellFormedAlternative("inhabitants");
    assert WellFormedAlternative("residents");
    assert WellFormedAlternative("users");
  }

  lemma ProcessesWellFormed() ensures WellFormed(Processes) && SimplePlaceholder(Processes)
  {
    assert WellFormedAlternative("activities");
    assert WellFormedAlternative("activity");
    assert WellFormedAlternative("functions");
    assert WellFormedAlternative("function");
  }

  lemma LocalitiesWellFormed() ensures WellFormed(Localities) && SimplePlaceholder(Localities)
  {
    assert WellFormedAlternative("neighborhood");
    assert WellFormedAlternative("neighborhoods");
    assert WellFormedAlternative("community");
    assert WellFormedAlternative("communities");
  }

  lemma CreationWellFormed() ensures WellFormed(Creation) && SimplePlaceholder(Creation)
  {
    assert WellFormedAlternative("construction");
    assert WellFormedAlternative("building process");
    assert WellFormedAlternative("development");
  }

  lemma MovementWellFormed() ensures WellFormed(Movement) && SimplePlaceholder(Movement)
  {
    assert WellFormedAlternative("parking");
    assert WellFormedAlternative("transportation");
    assert WellFormedAlternative("traffic");
  }

  /** Every rule is well formed and has a one-word placeholder. */
  lemma ArchRulesWellFormed()
    ensures AllWellFormed(ArchRules)
    ensures forall k :: 0 <= k < |ArchRules| ==> SimplePlaceholder(ArchRules[k])
  {
    RegionsWellFormed();
    SettlementsWellFormed();
    StructuresWellFormed();
    PathwaysWellFormed();
    SpacesWellFormed();
    AgentsWellFormed();
    ProcessesWellFormed();
    LocalitiesWellFormed();
    CreationWellFormed();
    MovementWellFormed();
  }

  /** `identify_architectural_terms` as a specification: the ten passes in order. */
  function ArchitecturalTerms(text: string): string
  {
    ArchRulesWellFormed();
    Fold(text, ArchRules)
  }

  /** The rewriting is local: text on either side of a brace, a punctuation
      mark or a line break is rewritten on its own. */
  lemma ArchitecturalTermsAroundSeparator(a: string, c: char, b: string)
    requires IsSeparator(c)
    ensures ArchitecturalTerms(a + [c] + b) == ArchitecturalTerms(a) + [c] + ArchitecturalTerms(b)
  {
    ArchRulesWellFormed();
    FoldAroundSeparator(a, c, b, ArchRules);
  }

  /** The passes of the rules from index k on. */
  function RemainingTerms(text: string, k: nat): string
    requires k <= |ArchRules|
  {
    ArchRulesWellFormed();
    Fold(text, ArchRules[k..])
  }

  /** The passes of the rules before index k. */
  function TermsBefore(text: string, k: nat): string
    requires k <= |ArchRules|
  {
    ArchRulesWellFormed();
    Fold(text, ArchRules[..k])
  }

  /** The loop of `identify_architectural_terms`: each rule's pass applied to
      the previous pass's output. */
  method IdentifyArchitecturalTerms(text: string) returns (archetypal: string)
    ensures archetypal == ArchitecturalTerms(text)
    ensures LowerString(archetypal) == ArchitecturalTerms(LowerString(text))
  {
    ArchRulesWellFormed();
    archetypal := text;
    for k := 0 to |ArchRules|
      invariant RemainingTerms(archetypal, k) == ArchitecturalTerms(text)
    {
      assert ArchRules[k..][1..] == ArchRules[k + 1..];
      archetypal := Pass(archetypal, ArchRules[k]);
    }
    assert ArchRules[|ArchRules|..] == [];
    FoldLower(text, ArchRules);
  }

  /** Matching ignores case: the substituted text, case-folded, is the
      substitution of the case-folded text. */
  lemma ArchitecturalTermsIgnoreCase(text: string)
    ensures LowerString(ArchitecturalTerms(text)) == ArchitecturalTerms(LowerString(text))
  {
    ArchRulesWellFormed();
    FoldLower(text, ArchRules);
  }

  /** No rule lists another rule's placeholder: the inner word of a token
      can only be re-matched by the token's own rule. */
  lemma PlaceholdersListedOnlyByOwnRule()
    ensures forall k, j :: 0 <= k < |ArchRules| && 0 <= j < |ArchRules| && j != k ==>
      ArchRules[k].placeholder !in ArchRules[j].alternatives
  {
    FirstPlaceholdersUnlisted();
    MiddlePlaceholdersUnlisted();
    LastPlaceholdersUnlisted();
  }

  /** The same for the placeholders of rules 0 to 3 (regions to pathways). */
  lemma FirstPlaceholdersUnlisted()
    ensures forall k, j :: 0 <= k < 4 && 0 <= j < |ArchRules| && j != k ==>
      ArchRules[k].placeholder !in ArchRules[j].alternatives
  {
  }

  /** The same for the placeholders of rules 4 to 6 (spaces to processes). */
  lemma MiddlePlaceholdersUnlisted()
    ensures forall k, j :: 4 <= k < 7 && 0 <= j < |ArchRules| && j != k ==>
      ArchRules[k].placeholder !in ArchRules[j].alternatives
  {
  }

  /** The same for the placeholders of rules 7 to 9 (localities to movement). */
  lemma LastPlaceholdersUnlisted()
    ensures forall k, j :: 7 <= k < 10 && 0 <= j < |ArchRules| && j != k ==>
      ArchRules[k].placeholder !in ArchRules[j].alternatives
  {
  }

  /** A word that case-folds to an alternative of rule j, and to none of an
      earlier rule, comes out as rule j's token. */
  lemma ListedWordBecomesToken(w: string, j: nat)
    requires j < |ArchRules| && IsWord(w)
    requires LowerString(w) in ArchRules[j].alternatives
    requires Unlisted(LowerString(w), ArchRules[..j])
    ensures ArchitecturalTerms(w) == ArchRules[j].Token()
  {
    ArchRulesWellFormed();
    PlaceholdersListedOnlyByOwnRule();
    var later := ArchRules[j + 1..];
    assert forall i :: 0 <= i < |later| ==> later[i] == ArchRules[j + 1 + i];
    FoldOfWord(w, ArchRules, j);
  }

  /** The same for a word spelled exactly as the rule lists it. */
  lemma LowerListedWordBecomesToken(w: string, j: nat)
    requires j < |ArchRules| && IsWord(w) && w in ArchRules[j].alternatives
    requires Unlisted(w, ArchRules[..j])
    ensures ArchitecturalTerms(w) == ArchRules[j].Token()
  {
    ArchRulesWellFormed();
    assert WellFormed(ArchRules[j]);
    forall k | 0 <= k < |w| ensures 'a' <= w[k] <= 'z' {
      assert IsWordChar(w[k]);
    }
    LowerOfLowerWord(w);
    ListedWordBecomesToken(w, j);
  }

  /** A word whose case folding no rule lists is copied unchanged. */
  lemma UnlistedWordUnchanged(w: string)
    requires IsWord(w)
    requires Unlisted(LowerString(w), ArchRules)
    ensures ArchitecturalTerms(w) == w
  {
    ArchRulesWellFormed();
    FoldOfPlainWord(w, ArchRules);
  }

  /** Text between double braces is substituted as if the braces were not
      there. */
  lemma BracesAreTransparent(x: string)
    ensures ArchitecturalTerms("{{" + x + "}}") == "{{" + ArchitecturalTerms(x) + "}}"
  {
    ArchRulesWellFormed();
    FoldWrap(x, ArchRules);
  }

  /** Within one call a token inserted by a rule is left alone by every later
      rule. */
  lemma TokensSurviveLaterRules(k: nat)
    requires k < |ArchRules|
    ensures RemainingTerms(ArchRules[k].Token(), k + 1) == ArchRules[k].Token()
  {
    ArchRulesWellFormed();
    PlaceholdersListedOnlyByOwnRule();
    var later := ArchRules[k + 1..];
    assert forall i :: 0 <= i < |later| ==> later[i] == ArchRules[k + 1 + i];
    assert Unlisted(ArchRules[k].placeholder, later);
    TokenSurvives(ArchRules[k], later);
  }

  lemma RegionsAreWords()
    ensures forall m :: 0 <= m < |Regions.alternatives| ==> IsWord(Regions.alternatives[m])
  {
  }

  /** Matching ignores case: a word that case-folds to "region" or "regions"
      comes out as `{{regions}}`, whatever its spelling. */
  lemma RegionsInAnyCase(w: string)
    requires LowerString(w) in Regions.alternatives
    ensures ArchitecturalTerms(w) == Regions.Token()
  {
    var l := LowerString(w);
    RegionsAreWords();
    assert IsWord(l);
    forall k | 0 <= k < |w| ensures IsWordChar(w[k]) {
      assert IsWordChar(l[k]);
    }
    ListedWordBecomesToken(w, 0);
  }

  lemma UpperCaseRegions()
    ensures ArchitecturalTerms("REGIONS") == Regions.Token()
  {
    assert LowerString("REGIONS") == "regions";
    RegionsInAnyCase("REGIONS");
  }

  lemma RegionalUnlisted()
    ensures Unlisted("regional", ArchRules)
  {
  }

  /** Only whole words are replaced: a word that merely starts with an
      alternative is copied unchanged. */
  lemma RegionalUnchanged()
    ensures ArchitecturalTerms("regional") == "regional"
  {
    LowerOfLowerWord("regional");
    RegionalUnlisted();
    UnlistedWordUnchanged("regional");
  }

  lemma PathwaysUnlisted()
    ensures Unlisted("pathways", ArchRules)
  {
  }

  lemma PathwaysUnchanged()
    ensures ArchitecturalTerms("pathways") == "pathways"
  {
    LowerOfLowerWord("pathways");
    PathwaysUnlisted();
    UnlistedWordUnchanged("pathways");
  }

  /** Exactly the regions, structures and spaces rules list their own
      placeholder. */
  lemma SelfListedPlaceholders()
    ensures forall k :: 0 <= k < |ArchRules| ==>
      (ArchRules[k].placeholder in ArchRules[k].alternatives <==> k == 0 || k == 2 || k == 4)
  {
  }

  /** Running the rules again on a token: it is wrapped a second time when its
      rule lists its own placeholder, and survives otherwise. */
  lemma RerunToken(k: nat)
    requires k < |ArchRules|
    ensures ArchitecturalTerms(ArchRules[k].Token()) ==
      if k == 0 || k == 2 || k == 4 then "{{" + ArchRules[k].Token() + "}}" else ArchRules[k].Token()
  {
    var r := ArchRules[k];
    BracesAreTransparent(r.placeholder);
    if k == 0 || k == 2 || k == 4 {
      SelfListedPlaceholderBecomesToken(k);
    } else {
      OtherPlaceholderUnchanged(k);
    }
  }

  /** A placeholder its own rule lists becomes that rule's token. */
  lemma SelfListedPlaceholderBecomesToken(k: nat)
    requires k == 0 || k == 2 || k == 4
    ensures ArchitecturalTerms(ArchRules[k].placeholder) == ArchRules[k].Token()
  {
    ArchRulesWellFormed();
    PlaceholdersListedOnlyByOwnRule();
    SelfListedPlaceholders();
    var r, before := ArchRules[k], ArchRules[..k];
    LowerPlaceholder(r);
    assert forall i :: 0 <= i < |before| ==> before[i] == ArchRules[i];
    assert Unlisted(r.placeholder, before);
    ListedWordBecomesToken(r.placeholder, k);
  }

  /** Any other placeholder is listed by no rule and passes unchanged. */
  lemma OtherPlaceholderUnchanged(k: nat)
    requires k < |ArchRules| && k != 0 && k != 2 && k != 4
    ensures ArchitecturalTerms(ArchRules[k].placeholder) == ArchRules[k].placeholder
  {
    ArchRulesWellFormed();
    PlaceholdersListedOnlyByOwnRule();
    SelfListedPlaceholders();
    var r := ArchRules[k];
    LowerPlaceholder(r);
    assert Unlisted(r.placeholder, ArchRules);
    UnlistedWordUnchanged(r.placeholder);
  }

  lemma StructuresListedThird()
    ensures IsWord("structures") && "structures" in ArchRules[2].alternatives
    ensures Unlisted("structures", ArchRules[..2])
  {
    assert ArchRules[2].alternatives[3] == "structures";
    assert ArchRules[..2] == [Regions, Settlements];
  }

  lemma StructuresBecomesToken()
    ensures ArchitecturalTerms("structures") == Structures.Token()
  {
    StructuresListedThird();
    LowerListedWordBecomesToken("structures", 2);
    assert ArchRules[2] == Structures;
  }

  /** Not idempotent: "structures" becomes `{{structures}}`, whose inner word
      the structures rule matches again on a second run. */
  lemma NotIdempotent()
    ensures ArchitecturalTerms(ArchitecturalTerms("structures")) != ArchitecturalTerms("structures")
  {
    StructuresBecomesToken();
    RerunToken(2);
  }

  /** The series with the dead alternative removed. */
  function LiveTerms(text: string): string
  {
    LiveArchRulesWellFormed();
    Fold(text, LiveArchRules)
  }

  lemma LiveArchRulesWellFormed()
    ensures AllWellFormed(LiveArchRules)
  {
    ArchRulesWellFormed();
    CreationWellFormed();
    MovementWellFormed();
    DropKeepsWellFormed(Creation, 1);
    var first := ArchRules[..8];
    assert forall k :: 0 <= k < |first| ==> first[k] == ArchRules[k];
    var last := [DropAlternative(Creation, 1), Movement];
    assert AllWellFormed(last);
    AllWellFormedConcat(first, last);
  }

  lemma BuildingIsFirstStructure()
    ensures Structures.alternatives[0] == "building" && LowerWord("building")
  {
  }

  lemma BuildingIsNoLaterPlaceholder()
    ensures forall j :: 3 <= j < 8 ==> "building" != ArchRules[j].placeholder
  {
    assert ArchRules[3..8] == [Pathways, Spaces, Agents, Processes, Localities];
  }

  lemma BuildingProcessStartsWithBuilding()
    ensures Creation.alternatives[1] == "building process" && "building process"[..8] == "building"
    ensures "building process"[8] == ' ' && IsAsciiLetter("building process"[7])
  {
  }

  /** After the structures rule and the four rules that follow it, "building"
      no longer occurs as a whole word. */
  lemma BuildingGoneBeforeCreation(t: string)
    ensures WordAbsent(TermsBefore(t, 8), "building")
  {
    ArchRulesWellFormed();
    BuildingIsFirstStructure();
    BuildingIsNoLaterPlaceholder();
    var rules := ArchRules;
    var before, middle := rules[..2], rules[2..8];
    assert rules[..8] == before + middle;
    assert forall i :: 0 <= i < |middle| ==> middle[i] == rules[2 + i];
    FoldAppend(t, before, middle);
    var v := Fold(t, before);
    PassRemovesAlternative(v, Structures, 0);
    assert middle[1..] == rules[3..8];
    FoldKeepsWordAbsent(Pass(v, Structures), rules[3..8], "building");
  }

  /** "building process" never reaches the creation rule: removing that
      alternative changes nothing, on every text. */
  lemma BuildingProcessIsDead(t: string)
    ensures ArchitecturalTerms(t) == LiveTerms(t)
  {
    ArchRulesWellFormed();
    LiveArchRulesWellFormed();
    BuildingProcessStartsWithBuilding();
    var rules := ArchRules;
    var first := rules[..8];
    var drop := DropAlternative(Creation, 1);
    assert rules == first + [Creation, Movement];
    FoldAppend(t, first, [Creation, Movement]);
    FoldAppend(t, first, [drop, Movement]);
    var u := Fold(t, first);
    BuildingGoneBeforeCreation(t);
    AbsentFirstWord(u, "building process", 8);
    DropDeadAlternative(u, Creation, 1);
    assert [Creation, Movement][1..] == [Movement] && [drop, Movement][1..] == [Movement];
  }

  // ---------------------------------------------------------------------
  // The variant document

  /** What the guide says about each placeholder, in rule order (the text
      after the arrow of each row; the second row ends in two spaces). */
  const GuideNotes: seq<string> := [
    DomainNote("regions/territories", "communities/networks", "domains/fields", "states/realms"),
    DomainNote("towns/cities", "organizations/institutions", "systems/frameworks", "patterns/structures") + "  ",
    DomainNote("buildings/facilities", "institutions/entities", "concepts/models", "patterns/forms"),
    DomainNote("streets/roads", "connections/networks", "links/associations", "flows/channels"),
    DomainNote("spaces/places", "environments/contexts", "realms/domains", "states/dimensions"),
    DomainNote("people/inhabitants", "members/participants", "elements/components", "aspects/facets"),
    DomainNote("activities/functions", "interactions/communications", "operations/processes", "experiences/activities"),
    DomainNote("neighborhoods/communities", "groups/collectives", "clusters/groupings", "formations/configurations"),
    DomainNote("construction/development", "formation/establishment", "development/creation", "emergence/formation"),
    DomainNote("transportation/traffic", "communication/flow", "information flow/exchange", "energy flow/circulation")
  ]

  /** The guide, one row per rule in the order the rules run; the document
      prints these rows with their tokens written out. */
  const GuideRows: seq<string> := [
    GuideRow(Regions, GuideNotes[0]),
    GuideRow(Settlements, GuideNotes[1]),
    GuideRow(Structures, GuideNotes[2]),
    GuideRow(Pathways, GuideNotes[3]),
    GuideRow(Spaces, GuideNotes[4]),
    GuideRow(Agents, GuideNotes[5]),
    GuideRow(Processes, GuideNotes[6]),
    GuideRow(Localities, GuideNotes[7]),
    GuideRow(Creation, GuideNotes[8]),
    GuideRow(Movement, GuideNotes[9])
  ]

  /** Everything between the substituted text and the original text: the
      guide and the usage instructions. It does not depend on the input. */
  const VariantMiddle: string :=
    "\n\n## Domain Transformations\n\nThis archetypal variant uses the following domain-specific placeholders:\n\n" +
    JoinLines(GuideRows) +
    "\n\n## Usage Instructions\n\nTo use this archetypal variant:\n\n" +
    "1. **Select your domain**: Physical, Social, Conceptual, or Psychic\n" +
    "2. **Replace placeholders**: Substitute each `{{placeholder}}` with appropriate domain-specific terms\n" +
    "3. **Adapt context**: Modify surrounding text as needed to maintain coherence in your chosen domain\n" +
    "\n## Original Content\n\n"

  const VariantFooter: string := "\n\n---\n*Generated as archetypal variant from APL organizational document*\n"

  function VariantHeading(title: string): (h: string)
    ensures |h| == |title| + 48
    ensures h[..|title| + 23] == "# " + title + " (Archetypal Variant)"
  {
    "# " + title + " (Archetypal Variant)\n\n## Archetypal Pattern\n\n"
  }

  /** `generate_archetypal_variant`: the heading, the substituted text, the
      fixed guide, the original text and the footer. */
  function VariantDocument(title: string, content: string): string
  {
    VariantHeading(title) + ArchitecturalTerms(content) + VariantMiddle + content + VariantFooter
  }

  /** The variant document can be cut back into its parts: the heading
      naming the title, the substituted text, the guide (the same for every
      input), the unchanged original text and the footer. */
  lemma VariantDocumentParts(title: string, content: string)
    ensures var doc := VariantDocument(title, content);
      var a := |VariantHeading(title)| + |ArchitecturalTerms(content)|;
      |doc| == a + |VariantMiddle| + |content| + |VariantFooter| &&
      doc[..|title| + 23] == "# " + title + " (Archetypal Variant)" &&
      doc[|VariantHeading(title)|..a] == ArchitecturalTerms(content) &&
      doc[a..a + |VariantMiddle|] == VariantMiddle &&
      doc[a + |VariantMiddle|..|doc| - |VariantFooter|] == content &&
      doc[|doc| - |VariantFooter|..] == VariantFooter
  {
    FiveParts(VariantHeading(title), ArchitecturalTerms(content), VariantMiddle, content, VariantFooter, |title| + 23);
  }

  // ---------------------------------------------------------------------
  // The content handed to the document

  /** The text used when the source file does not exist. */
  function MissingSourceText(title: string): string
  {
    "# " + title + "\n\nThis document represents " + LowerString(title) + " organizational principles."
  }

  /** The text used when the content is empty or just "list". */
  function FallbackText(title: string): string
  {
    "# " + title + "\n\nThis document represents " + LowerString(title) + " organizational principles and patterns."
  }

  /** Empty content and the bare word "list" are replaced by the fallback
      text; any other content passes through. The result is never one of
      the two replaced values. */
  function ContentOrFallback(title: string, content: string): (r: string)
    ensures r == content || r == FallbackText(title)
    ensures r == content <==> content != "" && content != "list"
    ensures r != "" && r != "list"
  {
    if content == "" || content == "list" then FallbackText(title) else content
  }

  /** Applying the fallback a second time changes nothing. */
  lemma FallbackIdempotent(title: string, content: string)
    ensures ContentOrFallback(title, ContentOrFallback(title, content)) == ContentOrFallback(title, content)
  {
  }

  /** The content of one document: the stripped file text, or the
      missing-file text when there is no file, then the fallback. The file
      system is a parameter: `None` for a missing file. */
  function SourceContent(title: string, file: Option<string>): (r: string)
    ensures file.None? ==> r == MissingSourceText(title)
    ensures file.Some? && Strip(file.value) != "" && Strip(file.value) != "list" ==> r == Strip(file.value)
    ensures file.Some? && (Strip(file.value) == "" || Strip(file.value) == "list") ==> r == FallbackText(title)
  {
    var content := if file.Some? then Strip(file.value) else MissingSourceText(title);
    ContentOrFallback(title, content)
  }

  /** A file holding only whitespace gets the fallback text. */
  lemma BlankFileGetsFallback(title: string, text: string)
    requires forall k :: 0 <= k < |text| ==> IsSpace(text[k])
    ensures SourceContent(title, Some(text)) == FallbackText(title)
  {
  }
}

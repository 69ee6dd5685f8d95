/** The comparison of how one pattern reads in its generic template and in
    its four domain variants: the first line of each domain section, the
    pattern's title (or its file name), and the fixed table of generic
    concepts and their domain-specific words. */
module VariationAnalysis {
  import opened PyText

  /** The section names, in the order the sections are looked up. */
  const SectionNames: seq<string> := ["Template", "Physical", "Social", "Conceptual", "Psychic"]

  // ---------------------------------------------------------------------
  // One section: `## Name\s*\n\n(.*?)(?=\n## |$)` under DOTALL and MULTILINE

  /** `## Name` occurs at p. The pattern has no line anchor, so the heading
      may sit anywhere, `### Name` included. */
  predicate HeadingAt(c: string, name: string, p: nat)
  {
    p + |name| + 3 <= |c| && c[p..p + |name| + 3] == "## " + name
  }

  /** The section pattern matches with its heading at p and the captured
      text starting at b: only whitespace between the heading and the two
      line feeds just before b. The rest of the pattern always matches, since
      `$` under MULTILINE holds at the end of the text and before every line
      feed (which also covers the `\n## ` alternative). */
  predicate Candidate(c: string, name: string, p: nat, b: nat)
  {
    HeadingAt(c, name, p) && p + |name| + 5 <= b <= |c| &&
    SpacesBetween(c, p + |name| + 3, b - 2) && c[b - 2] == '\n' && c[b - 1] == '\n'
  }

  /** Greedy `\s*` after the heading at p: the longest whitespace run first,
      giving characters back until two line feeds follow; the greatest start. */
  function BodyStart(c: string, name: string, p: nat): (r: Option<nat>)
    requires HeadingAt(c, name, p)
    ensures r.Some? ==> Candidate(c, name, p, r.value)
    ensures r.Some? ==> forall b: nat :: r.value < b ==> !Candidate(c, name, p, b)
    ensures r.None? ==> forall b: nat :: !Candidate(c, name, p, b)
  {
    var q := p + |name| + 3;
    var ok := (n: nat) => Candidate(c, name, p, q + 2 + n);
    CandidatesWithinRun(c, name, p);
    assert forall b: nat :: q + 2 <= b ==> ok(b - q - 2) == Candidate(c, name, p, b);
    match LastWhere(ok, 0, SpaceRun(c, q))
    case None => None
    case Some(n) => Some(q + 2 + n)
  }

  /** The whitespace a candidate skips lies within the whitespace run after
      the heading (the two line feeds are whitespace too). */
  lemma CandidatesWithinRun(c: string, name: string, p: nat)
    requires HeadingAt(c, name, p)
    ensures forall b: nat :: Candidate(c, name, p, b) ==>
      p + |name| + 5 <= b <= p + |name| + 5 + SpaceRun(c, p + |name| + 3)
  {
    var q := p + |name| + 3;
    forall b: nat | Candidate(c, name, p, b) ensures b <= q + 2 + SpaceRun(c, q) {
      SpaceRunCovers(c, q, b - q);
    }
  }

  predicate SectionAt(c: string, name: string, p: nat)
  {
    HeadingAt(c, name, p) && BodyStart(c, name, p).Some?
  }

  /** Where a section match lies: the heading, and the start and end of the
      captured text. */
  datatype Match = Match(heading: nat, start: nat, end: nat)

  /** `re.search` for one section: the leftmost heading with a match, the
      greatest start there, and the lazy `(.*?)` stopping at the first line
      end. */
  function FindSection(c: string, name: string): (r: Option<Match>)
    ensures r.Some? ==> r.value.heading < r.value.start <= r.value.end <= |c|
  {
    match FirstWhere((p: nat) => SectionAt(c, name, p), 0, |c|)
    case None => None
    case Some(p) =>
      var b := BodyStart(c, name, p).value;
      Some(Match(p, b, LineEnd(c, b)))
  }

  /** The match found is the leftmost heading with a match, the greatest
      start there, and the captured text is the rest of that line; there is
      no match only when no heading is followed by whitespace holding a
      blank line. */
  lemma FindSectionIsLeftmost(c: string, name: string)
    ensures var r := FindSection(c, name);
      (r.Some? ==> Candidate(c, name, r.value.heading, r.value.start)) &&
      (r.Some? ==> forall p: nat, b: nat :: p < r.value.heading ==> !Candidate(c, name, p, b)) &&
      (r.Some? ==> forall b: nat :: r.value.start < b ==> !Candidate(c, name, r.value.heading, b)) &&
      (r.Some? ==> r.value.start <= r.value.end <= |c| && (r.value.end == |c| || c[r.value.end] == '\n')) &&
      (r.Some? ==> forall k :: r.value.start <= k < r.value.end ==> c[k] != '\n') &&
      (r.None? ==> forall p: nat, b: nat :: !Candidate(c, name, p, b))
  {
    var ok := (p: nat) => SectionAt(c, name, p);
    assert forall p: nat :: ok(p) == SectionAt(c, name, p);
    assert forall p: nat, b: nat :: Candidate(c, name, p, b) ==> p <= |c| && ok(p);
    var f := FirstWhere(ok, 0, |c|);
    if f.Some? {
      var b := BodyStart(c, name, f.value).value;
      assert FindSection(c, name) == Some(Match(f.value, b, LineEnd(c, b)));
    }
  }

  /** The match is fixed once its heading and start are shown to be the
      leftmost and the greatest. */
  lemma FindSectionIs(c: string, name: string, p: nat, b: nat)
    requires Candidate(c, name, p, b) && forall q: nat :: q < p ==> !HeadingAt(c, name, q)
    requires forall b': nat :: b < b' ==> !Candidate(c, name, p, b')
    ensures FindSection(c, name) == Some(Match(p, b, LineEnd(c, b)))
  {
    FindSectionIsLeftmost(c, name);
    var r := FindSection(c, name);
    assert r.Some?;
    assert r.value.heading == p;
    assert r.value.start == b;
  }

  /** The value recorded for a section: the captured text stripped, or ""
      when the section is not found. */
  function SectionValue(c: string, name: string): string
  {
    match FindSection(c, name)
    case None => ""
    case Some(m) => Strip(c[m.start..m.end])
  }

  /** A section's value never spans more than one line, and it is "" when
      no heading of that name is followed by a blank line. */
  lemma SectionValueIsOneLine(c: string, name: string)
    ensures forall k :: 0 <= k < |SectionValue(c, name)| ==> SectionValue(c, name)[k] != '\n'
    ensures (forall p: nat, b: nat :: !Candidate(c, name, p, b)) ==> SectionValue(c, name) == ""
  {
    FindSectionIsLeftmost(c, name);
    var r := FindSection(c, name);
    if r.Some? {
      var line := c[r.value.start..r.value.end];
      assert forall k :: 0 <= k < |line| ==> line[k] != '\n';
      var v := Strip(line);
      var i, j :| 0 <= i <= j <= |line| && v == line[i..j];
      assert forall k :: 0 <= k < |v| ==> v[k] == line[i + k];
    }
  }

  /** The heading at p is the first of its name and is followed by a blank
      line and then a line of n characters whose first is no whitespace: the
      section's value is that line, stripped. */
  lemma SectionOfLine(c: string, name: string, p: nat, n: nat)
    requires HeadingAt(c, name, p) && forall q: nat :: q < p ==> !HeadingAt(c, name, q)
    requires p + |name| + 5 + n <= |c| && n > 0
    requires c[p + |name| + 3] == '\n' && c[p + |name| + 4] == '\n' && !IsSpace(c[p + |name| + 5])
    requires forall k :: p + |name| + 5 <= k < p + |name| + 5 + n ==> c[k] != '\n'
    requires p + |name| + 5 + n == |c| || c[p + |name| + 5 + n] == '\n'
    ensures SectionValue(c, name) == Strip(c[p + |name| + 5..p + |name| + 5 + n])
  {
    LineMatch(c, name, p, n);
    ValueOfMatch(c, name, p, p + |name| + 5, p + |name| + 5 + n);
  }

  /** Under the same conditions the match is that heading and that line. */
  lemma LineMatch(c: string, name: string, p: nat, n: nat)
    requires HeadingAt(c, name, p) && forall q: nat :: q < p ==> !HeadingAt(c, name, q)
    requires p + |name| + 5 + n <= |c| && n > 0
    requires c[p + |name| + 3] == '\n' && c[p + |name| + 4] == '\n' && !IsSpace(c[p + |name| + 5])
    requires forall k :: p + |name| + 5 <= k < p + |name| + 5 + n ==> c[k] != '\n'
    requires p + |name| + 5 + n == |c| || c[p + |name| + 5 + n] == '\n'
    ensures FindSection(c, name) == Some(Match(p, p + |name| + 5, p + |name| + 5 + n))
  {
    var b := p + |name| + 5;
    OnlyStart(c, name, p);
    LineEndIs(c, b, n);
    FindSectionIs(c, name, p, b);
  }

  /** The value of a section whose match is known. */
  lemma ValueOfMatch(c: string, name: string, h: nat, s: nat, e: nat)
    requires s <= e <= |c| && FindSection(c, name) == Some(Match(h, s, e))
    ensures SectionValue(c, name) == Strip(c[s..e])
  {
  }

  /** When the heading at p is followed by exactly two line feeds of
      whitespace, the captured text starts right after them. */
  lemma OnlyStart(c: string, name: string, p: nat)
    requires HeadingAt(c, name, p) && p + |name| + 5 < |c|
    requires c[p + |name| + 3] == '\n' && c[p + |name| + 4] == '\n' && !IsSpace(c[p + |name| + 5])
    ensures Candidate(c, name, p, p + |name| + 5)
    ensures forall b: nat :: p + |name| + 5 < b ==> !Candidate(c, name, p, b)
  {
    var q := p + |name| + 3;
    assert SpacesBetween(c, q, q);
    SpaceRunIs(c, q, 2);
    CandidatesWithinRun(c, name, p);
  }

  /** A text that opens with the section's heading, a blank line and a line
      of text records that line, stripped. */
  lemma SectionAtStart(name: string, line: string, rest: string)
    requires |line| > 0 && !IsSpace(line[0]) && forall k :: 0 <= k < |line| ==> line[k] != '\n'
    requires rest == [] || rest[0] == '\n'
    ensures SectionValue("## " + name + "\n\n" + line + rest, name) == Strip(line)
  {
    var c := "## " + name + "\n\n" + line + rest;
    var h := |name| + 3;
    assert c[..h] == "## " + name;
    assert c[h] == '\n' && c[h + 1] == '\n';
    assert c[h + 2..h + 2 + |line|] == line;
    assert forall k :: h + 2 <= k < h + 2 + |line| ==> c[k] == line[k - h - 2];
    SectionOfLine(c, name, 0, |line|);
  }

  /** An empty section does not record "": `## Template` directly followed
      by a blank line and `## Physical` records the next heading's line. */
  lemma EmptyTemplateTakesNextHeading(rest: string)
    requires rest == [] || rest[0] == '\n'
    ensures SectionValue("## Template\n\n## Physical" + rest, "Template") == "## Physical"
  {
    var line := "## Physical";
    assert "## Template\n\n## Physical" + rest == "## " + "Template" + "\n\n" + line + rest;
    SectionAtStart("Template", line, rest);
    StripOfTrimmed(line);
  }

  /** A deeper heading qualifies: `### Name` followed by a blank line and a
      line of text records that line. */
  lemma DeeperHeadingQualifies(name: string, line: string, rest: string)
    requires |line| > 0 && !IsSpace(line[0]) && forall k :: 0 <= k < |line| ==> line[k] != '\n'
    requires rest == [] || rest[0] == '\n'
    ensures SectionValue("#" + "## " + name + "\n\n" + line + rest, name) == Strip(line)
  {
    var c := "#" + "## " + name + "\n\n" + line + rest;
    var h := |name| + 3;
    assert c[1..1 + h] == "## " + name;
    assert c[1 + h] == '\n' && c[2 + h] == '\n';
    assert forall k :: h + 3 <= k < h + 3 + |line| ==> c[k] == line[k - h - 3];
    assert c[h + 3..h + 3 + |line|] == line;
    assert !HeadingAt(c, name, 0) by {
      assert c[2] == '#' && ("## " + name)[2] == ' ';
    }
    SectionOfLine(c, name, 1, |line|);
  }

  // ---------------------------------------------------------------------
  // All five sections

  /** The sections of one pattern text: each of the five names with its value. */
  function Sections(c: string): (m: map<string, string>)
  {
    map name | name in SectionNames :: SectionValue(c, name)
  }

  /** `extract_domain_sections`: a loop over the five names that records
      each section's value, "" for one that is not found. */
  method ExtractDomainSections(c: string) returns (sections: map<string, string>)
    ensures sections == Sections(c)
  {
    sections := map[];
    for i := 0 to |SectionNames|
      invariant forall name :: name in sections <==> name in SectionNames[..i]
      invariant forall name :: name in sections ==> sections[name] == SectionValue(c, name)
    {
      var name := SectionNames[i];
      var m := FindSection(c, name);
      var value := "";
      if m.Some? {
        value := Strip(c[m.value.start..m.value.end]);
      }
      assert value == SectionValue(c, name);
      sections := sections[name := value];
      assert SectionNames[..i + 1] == SectionNames[..i] + [name];
    }
    assert SectionNames[..|SectionNames|] == SectionNames;
  }

  /** Every pattern text yields exactly the five sections, each one line at
      most, and "" for a section with no heading followed by a blank line. */
  lemma SectionsOfText(c: string)
    ensures Sections(c).Keys == {"Template", "Physical", "Social", "Conceptual", "Psychic"}
    ensures forall name :: name in Sections(c) ==>
      forall k :: 0 <= k < |Sections(c)[name]| ==> Sections(c)[name][k] != '\n'
    ensures forall name :: name in Sections(c) && (forall p: nat, b: nat :: !Candidate(c, name, p, b)) ==>
      Sections(c)[name] == ""
  {
    forall name | name in Sections(c) {
      SectionValueIsOneLine(c, name);
    }
  }

  // ---------------------------------------------------------------------
  // The title: `# \d+ - (.+)` with no line anchor

  /** The title pattern matches at p: a hash and a space, digits, a spaced
      dash and a non-empty rest of line. */
  predicate TitleAt(c: string, p: nat)
  {
    p + 2 <= |c| && c[p] == '#' && c[p + 1] == ' ' &&
    var s := p + 2 + DigitRun(c, p + 2);
    s > p + 2 && s + 3 <= |c| && c[s] == ' ' && c[s + 1] == '-' && c[s + 2] == ' ' &&
    LineEnd(c, s + 3) > s + 3
  }

  /** The captured name: the rest of the line after the spaced dash. */
  function TitleName(c: string, p: nat): (name: string)
    requires TitleAt(c, p)
    ensures |name| > 0 && forall k :: 0 <= k < |name| ==> name[k] != '\n'
  {
    var s := p + 2 + DigitRun(c, p + 2);
    c[s + 3..LineEnd(c, s + 3)]
  }

  /** The title of a pattern: the name at the first title match, or the
      file name when there is none. */
  function AnalysisTitle(c: string, file: string): string
  {
    match FirstWhere((p: nat) => TitleAt(c, p), 0, |c|)
    case None => file
    case Some(p) => TitleName(c, p)
  }

  /** The title is the file name when nothing in the text matches, and
      otherwise the non-empty, single-line name of the leftmost match. */
  lemma AnalysisTitleFound(c: string, file: string)
    ensures (forall p: nat :: !TitleAt(c, p)) ==> AnalysisTitle(c, file) == file
    ensures (exists p: nat :: TitleAt(c, p)) ==>
      exists p: nat :: TitleAt(c, p) && (forall q: nat :: q < p ==> !TitleAt(c, q)) &&
        AnalysisTitle(c, file) == TitleName(c, p)
  {
    var ok := (p: nat) => TitleAt(c, p);
    assert forall p: nat :: ok(p) == TitleAt(c, p);
    assert forall p: nat :: TitleAt(c, p) ==> p <= |c|;
    var f := FirstWhere(ok, 0, |c|);
    assert AnalysisTitle(c, file) == if f.None? then file else TitleName(c, f.value);
  }

  /** A text without any hash character is titled by its file name. */
  lemma UntitledUsesFileName(c: string, file: string)
    requires forall k :: 0 <= k < |c| ==> c[k] != '#'
    ensures AnalysisTitle(c, file) == file
  {
    AnalysisTitleFound(c, file);
  }

  /** A title line after text holding no hash character gives that line's
      name, wherever it stands: the match need not start a line. */
  lemma TitleAfterText(pre: string, id: string, name: string, rest: string, file: string)
    requires forall k :: 0 <= k < |pre| ==> pre[k] != '#'
    requires |id| > 0 && forall k :: 0 <= k < |id| ==> IsDigit(id[k])
    requires |name| > 0 && forall k :: 0 <= k < |name| ==> name[k] != '\n'
    requires rest == [] || rest[0] == '\n'
    ensures AnalysisTitle(pre + "# " + id + " - " + name + rest, file) == name
  {
    var c := pre + "# " + id + " - " + name + rest;
    var p, n, m := |pre|, |id|, |name|;
    assert forall k :: 0 <= k < p ==> c[k] == pre[k];
    assert c[p] == '#' && c[p + 1] == ' ' && c[p + 2 + n] == ' ' && c[p + 3 + n] == '-' && c[p + 4 + n] == ' ';
    assert forall k :: p + 2 <= k < p + 2 + n ==> c[k] == id[k - p - 2];
    assert forall k :: p + 5 + n <= k < p + 5 + n + m ==> c[k] == name[k - p - 5 - n];
    assert c[p + 5 + n..p + 5 + n + m] == name;
    TitleLineAt(c, p, n, m, file);
  }

  /** The first hash of c is at p and starts a title of n digits and an
      m-character name. */
  lemma TitleLineAt(c: string, p: nat, n: nat, m: nat, file: string)
    requires p + 5 + n + m <= |c| && n > 0 && m > 0
    requires forall k :: 0 <= k < p ==> c[k] != '#'
    requires c[p] == '#' && c[p + 1] == ' ' && c[p + 2 + n] == ' ' && c[p + 3 + n] == '-' && c[p + 4 + n] == ' '
    requires forall k :: p + 2 <= k < p + 2 + n ==> IsDigit(c[k])
    requires forall k :: p + 5 + n <= k < p + 5 + n + m ==> c[k] != '\n'
    requires p + 5 + n + m == |c| || c[p + 5 + n + m] == '\n'
    ensures AnalysisTitle(c, file) == c[p + 5 + n..p + 5 + n + m]
  {
    NoTitleBefore(c, p);
    TitleNameIs(c, p, n, m);
    TitleIs(c, p, file);
  }

  /** No title match starts before the first hash. */
  lemma NoTitleBefore(c: string, p: nat)
    requires forall k :: 0 <= k < p && k < |c| ==> c[k] != '#'
    ensures forall q: nat :: q < p ==> !TitleAt(c, q)
  {
  }

  /** A hash at p followed by n digits, a spaced dash and an m-character
      line starts a title match whose name is that line. */
  lemma TitleNameIs(c: string, p: nat, n: nat, m: nat)
    requires p + 5 + n + m <= |c| && n > 0 && m > 0
    requires c[p] == '#' && c[p + 1] == ' ' && c[p + 2 + n] == ' ' && c[p + 3 + n] == '-' && c[p + 4 + n] == ' '
    requires forall k :: p + 2 <= k < p + 2 + n ==> IsDigit(c[k])
    requires forall k :: p + 5 + n <= k < p + 5 + n + m ==> c[k] != '\n'
    requires p + 5 + n + m == |c| || c[p + 5 + n + m] == '\n'
    ensures TitleAt(c, p) && TitleName(c, p) == c[p + 5 + n..p + 5 + n + m]
  {
    DigitRunIs(c, p + 2, n);
    LineEndIs(c, p + 5 + n, m);
    var s := p + 2 + DigitRun(c, p + 2);
    assert s + 3 == p + 5 + n;
    assert LineEnd(c, s + 3) == p + 5 + n + m;
  }

  /** The title is the name at the first title match. */
  lemma TitleIs(c: string, p: nat, file: string)
    requires TitleAt(c, p) && forall q: nat :: q < p ==> !TitleAt(c, q)
    ensures AnalysisTitle(c, file) == TitleName(c, p)
  {
    var ok := (p: nat) => TitleAt(c, p);
    assert forall p: nat :: ok(p) == TitleAt(c, p);
    var f := FirstWhere(ok, 0, |c|);
    assert f == Some(p);
  }

  // ---------------------------------------------------------------------
  // The sample patterns

  /** What is kept of one sample pattern. */
  datatype Example = Example(file: string, title: string, sections: map<string, string>)

  /** The five sample pattern files, in the order they are read. */
  const SamplePatterns: seq<string> := ["12610010.md", "12610020.md", "12610030.md", "12610040.md", "12610050.md"]

  function Analyze(file: string, c: string): Example
  {
    Example(file, AnalysisTitle(c, file), Sections(c))
  }

  /** The examples kept for the given samples, in order, skipping every
      sample that is not among the existing files. */
  function Examples(files: map<string, string>, samples: seq<string>): seq<Example>
  {
    if samples == [] then []
    else
      var f := samples[|samples| - 1];
      Examples(files, samples[..|samples| - 1]) + (if f in files then [Analyze(f, files[f])] else [])
  }

  /** `analyze_pattern_variations` given the existing files and their
      contents: a loop over the samples that keeps an example for each one
      that exists. */
  method AnalyzePatternVariations(files: map<string, string>) returns (examples: seq<Example>)
    ensures examples == Examples(files, SamplePatterns)
  {
    examples := [];
    for i := 0 to |SamplePatterns|
      invariant examples == Examples(files, SamplePatterns[..i])
    {
      var file := SamplePatterns[i];
      assert SamplePatterns[..i + 1][..i] == SamplePatterns[..i];
      if file in files {
        var content := files[file];
        var title := AnalysisTitle(content, file);
        var sections := ExtractDomainSections(content);
        examples := examples + [Example(file, title, sections)];
      }
    }
    assert SamplePatterns[..|SamplePatterns|] == SamplePatterns;
  }

  /** At most one example is kept per sample. */
  lemma {:induction false} ExamplesAtMostSamples(files: map<string, string>, samples: seq<string>)
    ensures |Examples(files, samples)| <= |samples|
  {
    if samples != [] {
      ExamplesAtMostSamples(files, samples[..|samples| - 1]);
    }
  }

  /** Each example is the analysis of an existing sample file. */
  lemma {:induction false} ExamplesFromExistingSamples(files: map<string, string>, samples: seq<string>)
    ensures forall e :: e in Examples(files, samples) ==>
      e.file in samples && e.file in files && e == Analyze(e.file, files[e.file])
  {
    if samples != [] {
      var init := samples[..|samples| - 1];
      ExamplesFromExistingSamples(files, init);
      assert forall x :: x in init ==> x in samples;
    }
  }

  /** When every sample exists, the examples are the samples' analyses, one
      for one and in order. */
  lemma {:induction false} ExamplesOfAllSamples(files: map<string, string>, samples: seq<string>)
    requires forall k :: 0 <= k < |samples| ==> samples[k] in files
    ensures |Examples(files, samples)| == |samples|
    ensures forall k :: 0 <= k < |samples| ==> Examples(files, samples)[k] == Analyze(samples[k], files[samples[k]])
  {
    if samples != [] {
      var init := samples[..|samples| - 1];
      ExamplesOfAllSamples(files, init);
    }
  }

  // ---------------------------------------------------------------------
  // The transformation table

  /** The four domains the table maps to, and the six generic concepts each maps. */
  const Domains: set<string> := {"Physical", "Social", "Conceptual", "Psychic"}
  const GenericConcepts: set<string> := {"domain", "organization", "elements", "frameworks", "resources", "relationships"}

  const PhysicalWords: map<string, seq<string>> := map[
    "domain" := ["region", "area", "land", "environment"],
    "organization" := ["building", "settlement", "structure", "development"],
    "elements" := ["materials", "rooms", "spaces", "buildings"],
    "frameworks" := ["cities", "towns", "infrastructure", "urban areas"],
    "resources" := ["land", "fertility", "agriculture", "natural resources"],
    "relationships" := ["roads", "connections", "networks", "proximity"]]

  const SocialWords: map<string, seq<string>> := map[
    "domain" := ["functional domain", "community", "group", "organization"],
    "organization" := ["institution", "group", "community", "network"],
    "elements" := ["members", "participants", "roles", "positions"],
    "frameworks" := ["institutions", "organizations", "systems", "procedures"],
    "resources" := ["social resources", "human resources", "relationships"],
    "relationships" := ["communications", "interactions", "connections"]]

  const ConceptualWords: map<string, seq<string>> := map[
    "domain" := ["conceptual domain", "knowledge domain", "intellectual area"],
    "organization" := ["conceptual framework", "knowledge system", "theory"],
    "elements" := ["concepts", "ideas", "methods", "approaches"],
    "frameworks" := ["paradigms", "schools of thought", "theoretical systems"],
    "resources" := ["creative resources", "intellectual resources", "knowledge"],
    "relationships" := ["conceptual links", "logical connections", "associations"]]

  const PsychicWords: map<string, seq<string>> := map[
    "domain" := ["mode of awareness", "consciousness", "mental state"],
    "organization" := ["structured awareness", "organized thinking", "mental framework"],
    "elements" := ["perceptions", "impressions", "insights", "experiences"],
    "frameworks" := ["modes of awareness", "mental structures", "psychological patterns"],
    "resources" := ["psychic resources", "mental energy", "awareness"],
    "relationships" := ["associative relationships", "mental connections", "psychological links"]]

  /** A domain's column of the table: the six generic concepts, each with
      three or four domain-specific words. */
  predicate Column(m: map<string, seq<string>>)
  {
    m.Keys == GenericConcepts && forall g :: g in m ==> 3 <= |m[g]| <= 4
  }

  lemma PhysicalColumn() ensures Column(PhysicalWords) {}
  lemma SocialColumn() ensures Column(SocialWords) {}
  lemma ConceptualColumn() ensures Column(ConceptualWords) {}
  lemma PsychicColumn() ensures Column(PsychicWords) {}

  /** `identify_transformation_patterns`: the fixed table, whatever the
      examples. It maps each of the four domains to the same six generic
      concepts, each with three or four domain-specific words. */
  function IdentifyTransformationPatterns(examples: seq<Example>): (r: map<string, map<string, seq<string>>>)
    ensures r.Keys == Domains
    ensures forall d :: d in r ==> Column(r[d])
  {
    PhysicalColumn();
    SocialColumn();
    ConceptualColumn();
    PsychicColumn();
    map["Physical" := PhysicalWords, "Social" := SocialWords,
        "Conceptual" := ConceptualWords, "Psychic" := PsychicWords]
  }

  /** The table does not depend on the examples it is given. */
  lemma TransformationPatternsIgnoreExamples(a: seq<Example>, b: seq<Example>)
    ensures IdentifyTransformationPatterns(a) == IdentifyTransformationPatterns(b)
  {
  }
}

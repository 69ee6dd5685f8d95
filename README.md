# Archetypal pattern generators: a Dafny model

This project models the core of three scripts that turn pattern documents into
"archetypal" templates:

- `generate_apl_archetypal_variants.py`:
  - ten architectural rules (`region`, `building`, `street`, …) rewrite a text into `{{placeholder}}` tokens;
  - the result is wrapped in a fixed variant document with a placeholder guide;
  - content that is empty or just `list` is replaced by a fallback text.
- `generate_archetypal_patterns.py`:
  - a pattern file's title (`# <digits> - <name>`) and its `## Template` section are extracted;
  - twelve replaceable terms rewrite the template;
  - the archetypal document is assembled;
  - each file ends up generated, skipped or unreported.
- `analyze_variations.py`:
  - the first line of each of the five sections (Template, Physical, Social, Conceptual, Psychic);
  - the pattern's title, with the file name as fallback;
  - the fixed table of generic concepts and their domain-specific words.

Modules:

- `PyText` (text.dfy): Python's string behaviour on ASCII. It covers `\w`, `\s`, `\d`, `str.lower`, `str.strip` and the two search shapes a backtracking regex engine takes: the leftmost start and the longest greedy run.
- `Substitution` (substitution.dfy): one `re.sub(r'\b(a|b|…)\b', '{{p}}', text, flags=re.IGNORECASE)` call as a left-to-right scan (`Pass`), and a series of such calls (`Fold`). It also holds the general lemmas about both.
- `Layout` (layout.dfy): line joining and the rows of the placeholder guides.
- `AplVariants` (apl_variants.dfy), `DomainPatterns` (archetypal_patterns.dfy) and `VariationAnalysis` (variation_analysis.dfy): one module per script.

The two rewriting loops are methods with loop invariants, proved equal to the fold of the passes. The section lookup is a method that fills a map in a loop, and the sample loop (`AnalyzePatternVariations`) is a method that appends one example per existing sample file. Everything else is functions and lemmas.

Behaviours of the code worth knowing:

- **Passes.** The rules run as successive, independent passes, one `re.sub` per rule. They do not run as a single scan that tries every rule at each position.
- **"building process".** The `{{structures}}` pass turns "building process" into `{{structures}} process`. The `{{creation}}` rule never sees the phrase.
- **Phrase rules.** "established patterns" and "major patterns" never fire, because the "patterns" rule runs first.
- **Not idempotent.** Rewriting a rewritten text is not a no-op. Tokens whose inner word is itself a listed term are wrapped again, e.g. `{{{{structures}}}}`.
- **Fixed placeholder table.** The documents always carry the full fixed table. They do not carry only the placeholders that fired.
- **Missing Template section.** A pattern file without a matching `## Template` section is not reported at all. "Skipped (no Template section)" is printed only when the section's text strips to nothing.
- **Section values.** In the analysis script a section's value is its first line only. The heading need not start a line. An empty section takes the next heading's line as its value instead of "".

## Model

| member | source | states |
|---|---|---|
| Substitution.FirstMatchIsFirst | generate_apl_archetypal_variants.py:84 | at one position the alternative chosen is the first listed one that matches there as a whole word; none is chosen only when no alternative matches |
| Substitution.PassFrom | generate_apl_archetypal_variants.py:84 | the scan of one `re.sub` from index i: the first alternative matching as a whole word there becomes the token and the scan resumes after it, otherwise one character is copied; its contract is stated by Substitution.PassUnchangedIffNoMatch, Substitution.PassConcat and Substitution.PassLeavesNoAlternative |
| Substitution.Pass | generate_apl_archetypal_variants.py:84 | one `re.sub` call with IGNORECASE over the whole text; its contract is stated by Substitution.PassUnchangedIffNoMatch, Substitution.PassOfWord, Substitution.PassRemovesAlternative and Substitution.MatchIgnoresCase |
| Substitution.WholeWordMatch | generate_apl_archetypal_variants.py:84 | a single word matches an alternative exactly when the two are equal ignoring case |
| Substitution.MatchIgnoresCase | generate_apl_archetypal_variants.py:84 | whether and which alternative matches does not depend on the letter case of the text |
| Substitution.PassUnchangedIffNoMatch | generate_apl_archetypal_variants.py:84 | a substitution leaves the text unchanged if and only if no alternative occurs anywhere as a whole word |
| Substitution.PassOfWord | generate_apl_archetypal_variants.py:84 | a single word becomes the token when it is an alternative ignoring case, and is copied otherwise |
| Substitution.PassConcat | generate_apl_archetypal_variants.py:84 | when a character next to the seam is neither a word character nor part of any alternative, substituting the joined text is substituting each side separately |
| Substitution.PassWrap | generate_apl_archetypal_variants.py:84 | braces do not stop a match: the text between `{{` and `}}` is substituted as if they were absent |
| Substitution.PassLeavesNoAlternative | generate_apl_archetypal_variants.py:84 | for a rule with a one-word placeholder and a one-word alternative: after a substitution the alternative can only still occur right after a `{` (inside an inserted token) and only when it spells the placeholder |
| Substitution.PassRemovesAlternative | generate_apl_archetypal_variants.py:84 | in a rule with a one-word placeholder, a one-word alternative that differs from the placeholder no longer occurs as a whole word after the substitution |
| Substitution.DropDeadAlternative | generate_apl_archetypal_variants.py:84 | an alternative absent from the text can be removed from the rule without changing the result |
| Substitution.FoldAppend | generate_apl_archetypal_variants.py:82-84 | running two lists of rules in a row is running their concatenation |
| Substitution.FoldLower | generate_apl_archetypal_variants.py:82-84 | case-folding the output of a series of substitutions equals running them on the case-folded input |
| Substitution.Fold | generate_apl_archetypal_variants.py:82-84 | the loop of `re.sub` calls, each on the previous one's output; its contract is stated by Substitution.FoldAppend, Substitution.FoldLower, Substitution.FoldAroundSeparator and Substitution.FoldOfWord |
| Substitution.FoldAroundSeparator | generate_apl_archetypal_variants.py:82-84 | a series of substitutions rewrites the text on either side of a brace, punctuation mark or line break independently and keeps that character |
| Substitution.FoldOfWord | generate_archetypal_patterns.py:109-111 | a word first listed by rule j becomes that rule's token when no later rule lists its placeholder |
| Substitution.ShadowedPhrases | generate_archetypal_patterns.py:101-103 | two phrase rules that end in the word of an earlier rule change nothing after that rule |
| AplVariants.IdentifyArchitecturalTerms | generate_apl_archetypal_variants.py:82-86 | the loop's result is the ten passes applied in listed order, and it commutes with case folding |
| AplVariants.ArchitecturalTermsIgnoreCase | generate_apl_archetypal_variants.py:84 | case-folding the rewritten text equals rewriting the case-folded text |
| AplVariants.ArchitecturalTerms | generate_apl_archetypal_variants.py:66-86 | `identify_architectural_terms` as the fold of the ten rules; its contract is stated by AplVariants.IdentifyArchitecturalTerms, AplVariants.ListedWordBecomesToken, AplVariants.UnlistedWordUnchanged, AplVariants.TokensSurviveLaterRules and AplVariants.ArchitecturalTermsAroundSeparator |
| AplVariants.ArchitecturalTermsAroundSeparator | generate_apl_archetypal_variants.py:82-84 | text on either side of a brace, punctuation mark or line break is rewritten on its own and the separator is kept |
| AplVariants.PlaceholdersListedOnlyByOwnRule | generate_apl_archetypal_variants.py:70-79 | no rule lists another rule's placeholder |
| AplVariants.ListedWordBecomesToken | generate_apl_archetypal_variants.py:70-84 | a word whose case folding rule j lists first becomes `{{p}}` of rule j |
| AplVariants.UnlistedWordUnchanged | generate_apl_archetypal_variants.py:70-84 | a word no rule lists is copied unchanged |
| AplVariants.BracesAreTransparent | generate_apl_archetypal_variants.py:82-84 | the whole rewrite sees through `{{ … }}` |
| AplVariants.TokensSurviveLaterRules | generate_apl_archetypal_variants.py:70-84 | a token inserted by rule k is left alone by every later rule |
| AplVariants.RegionsInAnyCase | generate_apl_archetypal_variants.py:70 | "Region", "REGIONS", "region" and every other casing become `{{regions}}` |
| AplVariants.RegionalUnchanged | generate_apl_archetypal_variants.py:70 | "regional" is not rewritten, since only whole words match |
| AplVariants.PathwaysUnchanged | generate_apl_archetypal_variants.py:73 | "pathways" is not rewritten, since only whole words match |
| AplVariants.SelfListedPlaceholders | generate_apl_archetypal_variants.py:70-79 | exactly the regions, structures and spaces rules list their own placeholder |
| AplVariants.RerunToken | generate_apl_archetypal_variants.py:70-84 | rewriting a token again wraps it a second time exactly for those three rules |
| AplVariants.NotIdempotent | generate_apl_archetypal_variants.py:72 | the rewrite is not idempotent: "structures" is rewritten differently the second time |
| AplVariants.BuildingGoneBeforeCreation | generate_apl_archetypal_variants.py:72-78 | after the rules before `{{creation}}`, "building" no longer occurs as a word |
| AplVariants.BuildingProcessIsDead | generate_apl_archetypal_variants.py:78 | the rewrite equals the one without the "building process" alternative, on every text |
| AplVariants.VariantHeading | generate_apl_archetypal_variants.py:95 | the heading starts with `# <title> (Archetypal Variant)` |
| AplVariants.VariantDocument | generate_apl_archetypal_variants.py:88-132 | the variant document of `generate_archetypal_variant`; its contract is stated by AplVariants.VariantDocumentParts |
| AplVariants.VariantDocumentParts | generate_apl_archetypal_variants.py:88-132 | the variant document is the heading, the rewritten content, the fixed guide, the unchanged content and the footer, in that order |
| AplVariants.ContentOrFallback | generate_apl_archetypal_variants.py:189-191 | content is kept if and only if it is neither empty nor "list", and is otherwise the fallback text |
| AplVariants.FallbackIdempotent | generate_apl_archetypal_variants.py:189-191 | applying the fallback twice is applying it once |
| AplVariants.SourceContent | generate_apl_archetypal_variants.py:181-191 | a missing file gives the placeholder text, and a file gives its stripped text unless that is empty or "list", which gives the fallback |
| AplVariants.BlankFileGetsFallback | generate_apl_archetypal_variants.py:184-191 | a file holding only whitespace gets the fallback text |
| DomainPatterns.IdentifyDomainSpecificTerms | generate_archetypal_patterns.py:106-113 | the loop's result is the twelve passes in listed order, and it commutes with case folding |
| DomainPatterns.DomainTermsIgnoreCase | generate_archetypal_patterns.py:111 | case-folding the rewritten template equals rewriting the case-folded template |
| DomainPatterns.DomainTerms | generate_archetypal_patterns.py:79-113 | `identify_domain_specific_terms` as the fold of the twelve rules; its contract is stated by DomainPatterns.IdentifyDomainSpecificTerms, DomainPatterns.TermBecomesToken, DomainPatterns.TokensSurviveLaterTerms and DomainPatterns.DomainTermsAroundSeparator |
| DomainPatterns.DomainTermsAroundSeparator | generate_archetypal_patterns.py:106-111 | text on either side of a brace, punctuation mark or line break is rewritten on its own and the separator is kept |
| DomainPatterns.EachTermListedOnce | generate_archetypal_patterns.py:91-104 | each term is listed by exactly one rule |
| DomainPatterns.TokensSurviveLaterTerms | generate_archetypal_patterns.py:91-111 | within one call no inserted token is altered by a later term |
| DomainPatterns.TermBecomesToken | generate_archetypal_patterns.py:91-111 | a word that case-folds to one of the ten single-word terms becomes that term's token |
| DomainPatterns.OrganizationBecomesToken | generate_archetypal_patterns.py:96 | "organization" becomes `{{organization-type}}` |
| DomainPatterns.OrganizationsUnchanged | generate_archetypal_patterns.py:96 | "organizations" is left unchanged: the term matches only as a whole word |
| DomainPatterns.PatternPhrasesAreDead | generate_archetypal_patterns.py:101-103 | the "established patterns" and "major patterns" passes never change anything |
| DomainPatterns.DomainTokenRewrapped | generate_archetypal_patterns.py:92 | rewriting `{{domains}}` again gives `{{{{domains}}}}` |
| DomainPatterns.DomainTermsNotIdempotent | generate_archetypal_patterns.py:92 | the rewrite is not idempotent |
| DomainPatterns.PatternTitle | generate_archetypal_patterns.py:60-65 | the MULTILINE title search; its contract is stated by DomainPatterns.PatternTitleFound and DomainPatterns.TitleOfTitleLine |
| DomainPatterns.PatternTitleFound | generate_archetypal_patterns.py:60-65 | a title exists if and only if some line has the form `# <digits> - <name>`; when it does it is read from the first such line; its number is all digits and its name a non-empty part of one line |
| DomainPatterns.TitleOfTitleLine | generate_archetypal_patterns.py:60-65 | a file opening with `# <id> - <name>` yields that id and name, whatever follows the line |
| DomainPatterns.BodyStart | generate_archetypal_patterns.py:68 | greedy whitespace after the heading: the greatest start that still leaves two line feeds and has a body end after it, or none |
| DomainPatterns.BodyEnd | generate_archetypal_patterns.py:68 | the lazy body ends at the least end after at least one character: `\n\n##`, or `\n\n` at the end or before one final line feed |
| DomainPatterns.TemplateSpan | generate_archetypal_patterns.py:68-70 | the template search; its contract is stated by DomainPatterns.TemplateSpanIsLeftmost and DomainPatterns.TemplateOfSection |
| DomainPatterns.TemplateSpanIsLeftmost | generate_archetypal_patterns.py:68-70 | the template match uses the leftmost heading that matches, the greatest start there and the least end; there is none only when no heading matches |
| DomainPatterns.TemplateOfSection | generate_archetypal_patterns.py:68-72 | a single `## Template` section followed by another heading yields exactly its one-paragraph body |
| DomainPatterns.ExtractTemplateContent | generate_archetypal_patterns.py:53-73 | `extract_template_content` on the file's text; its contract is stated by DomainPatterns.ExtractedParts and DomainPatterns.ExtractFromParts |
| DomainPatterns.ExtractedParts | generate_archetypal_patterns.py:59-73 | the extraction fails if and only if the title or the template is missing; otherwise the id and name are non-empty and the template is stripped |
| DomainPatterns.PartsOfPatternFile | generate_archetypal_patterns.py:59-73 | a file made of a title line, a `## Template` section and further sections has that title and that section's text |
| DomainPatterns.ExtractFromParts | generate_archetypal_patterns.py:59-73 | such a file extracts to its id, name and stripped template text |
| DomainPatterns.TableListsLiveRules | generate_archetypal_patterns.py:131-140 | the placeholder table lists each of the ten firing rules exactly once |
| DomainPatterns.TableOmitsPhraseRules | generate_archetypal_patterns.py:131-140 | the two phrase rules have no table row |
| DomainPatterns.PatternHeading | generate_archetypal_patterns.py:121 | the heading starts with `# <id> - <name> (Archetypal)` |
| DomainPatterns.PatternFooter | generate_archetypal_patterns.py:146-147 | the footer names the pattern number |
| DomainPatterns.PatternDocument | generate_archetypal_patterns.py:115-150 | the document of `generate_archetypal_pattern`; its contract is stated by DomainPatterns.PatternDocumentParts |
| DomainPatterns.PatternDocumentParts | generate_archetypal_patterns.py:115-150 | the document is the heading, the rewritten template, the fixed table, the unchanged template and the footer, in that order |
| DomainPatterns.ProcessPatternFile | generate_archetypal_patterns.py:166-181 | a file is unreported if and only if extraction fails, and skipped if and only if the template strips to nothing; otherwise it gives `arc_<id>.md` with the archetypal document |
| DomainPatterns.MissingSectionUnreported | generate_archetypal_patterns.py:68-70 | a file without a `## Template` heading is neither generated nor reported as skipped |
| DomainPatterns.PatternFileGenerated | generate_archetypal_patterns.py:169-178 | a file whose template text starts with a non-space is generated |
| DomainPatterns.BlankTemplateSkipped | generate_archetypal_patterns.py:179-181 | a file whose template text is all whitespace is reported as skipped |
| VariationAnalysis.BodyStart | analyze_variations.py:17-21 | greedy whitespace after a section heading: the greatest start that still leaves two line feeds, or none |
| VariationAnalysis.FindSection | analyze_variations.py:17-25 | one section search; its own contract bounds the match inside the text, and VariationAnalysis.FindSectionIsLeftmost states which match it is |
| VariationAnalysis.SectionValue | analyze_variations.py:24-29 | the stripped value of one section, "" when it is not found; its contract is stated by VariationAnalysis.SectionValueIsOneLine, VariationAnalysis.SectionAtStart and VariationAnalysis.EmptyTemplateTakesNextHeading |
| VariationAnalysis.FindSectionIsLeftmost | analyze_variations.py:17-25 | the leftmost heading that matches is used, with the greatest start and the text to the end of that line; none only when no heading matches |
| VariationAnalysis.SectionValueIsOneLine | analyze_variations.py:24-29 | a section's value is at most one line, and is "" when no heading is followed by a blank line |
| VariationAnalysis.SectionAtStart | analyze_variations.py:17-27 | a text opening with the heading, a blank line and a line records that line, stripped |
| VariationAnalysis.EmptyTemplateTakesNextHeading | analyze_variations.py:17-27 | `## Template` followed by a blank line and `## Physical` records "## Physical", not "" |
| VariationAnalysis.DeeperHeadingQualifies | analyze_variations.py:17-25 | `### Name` also opens the section Name, because the heading is not anchored |
| VariationAnalysis.ExtractDomainSections | analyze_variations.py:11-31 | the loop's map holds each of the five names with its section's value |
| VariationAnalysis.Sections | analyze_variations.py:11-31 | the dictionary `extract_domain_sections` returns; its contract is stated by VariationAnalysis.SectionsOfText and VariationAnalysis.ExtractDomainSections |
| VariationAnalysis.SectionsOfText | analyze_variations.py:16-31 | the map has exactly the five keys; each value is at most one line, and "" for a section that is not found |
| VariationAnalysis.AnalysisTitle | analyze_variations.py:57-58 | the title of one sample; its contract is stated by VariationAnalysis.AnalysisTitleFound, VariationAnalysis.UntitledUsesFileName and VariationAnalysis.TitleAfterText |
| VariationAnalysis.AnalysisTitleFound | analyze_variations.py:57-58 | the title is the file name when nothing matches `# <digits> - <name>`, and otherwise the name at the leftmost match |
| VariationAnalysis.UntitledUsesFileName | analyze_variations.py:57-58 | a text without any `#` is titled by its file name |
| VariationAnalysis.TitleAfterText | analyze_variations.py:57-58 | a title line after plain text is found: the match need not start a line |
| VariationAnalysis.AnalyzePatternVariations | analyze_variations.py:49-71 | the examples are those of the existing sample files, in sample order |
| VariationAnalysis.Examples | analyze_variations.py:49-71 | the example list of `analyze_pattern_variations`; its contract is stated by VariationAnalysis.AnalyzePatternVariations, VariationAnalysis.ExamplesAtMostSamples, VariationAnalysis.ExamplesFromExistingSamples and VariationAnalysis.ExamplesOfAllSamples |
| VariationAnalysis.ExamplesAtMostSamples | analyze_variations.py:49-69 | there is at most one example per sample |
| VariationAnalysis.ExamplesFromExistingSamples | analyze_variations.py:49-69 | each example is an existing sample's file name, title and sections |
| VariationAnalysis.ExamplesOfAllSamples | analyze_variations.py:49-69 | when every sample exists, the examples are the samples' analyses one for one, in order |
| VariationAnalysis.IdentifyTransformationPatterns | analyze_variations.py:97-143 | the table maps the four domains, each to the same six generic concepts with three or four words each |
| VariationAnalysis.TransformationPatternsIgnoreExamples | analyze_variations.py:97-143 | the table does not depend on the examples given |

## Left out

- File and directory I/O is not modelled. This covers reading and writing files, `Path.exists`, `mkdir`, `glob`, `print` and the per-run counters. The existing files are passed in as values: `Option<string>` for one source file, and a map from file name to content for the sample patterns.
- The scripts' `main` functions are left out. So are `create_apl_archetypal_variants`, `create_apl_archetypal_readme` and `create_variation_examples_report`. They only write fixed prose around the modelled values.
- The exception handler in `extract_template_content` (generate_archetypal_patterns.py:75-77) is left out, because it only guards file reading.
- Some constant data the code never uses is left out: `load_apl_transformation_mappings`, `load_transformation_mappings`, the `generic_terms` list and the `transformations` dictionary.
- Unicode is not modelled. `\w`, `\s`, `\d`, `str.strip`, `str.lower` and `IGNORECASE` are modelled on ASCII. The whitespace class is ' ', 9-13 and 28-31. Unicode letters, digits, spaces and special case foldings are not.
- No general regular-expression engine is modelled. Each pattern in the scripts is written out as the search it performs.
- The order of keys in the section dictionary is not modelled, because a Dafny `map` has none. The code only looks sections up by name.
- VariationAnalysis.IdentifyTransformationPatterns: the insertion order of the keys of the returned `word_mappings` dictionary (domains, then concepts) is not modelled, because it is a Dafny `map`; the keys and their word lists are.
- The sample directory's path and the encoding of files are not modelled.

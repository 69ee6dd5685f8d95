/** The pieces the generated markdown documents share: lines joined by line
    breaks, the rows of a placeholder guide, and where each part of a
    document built by concatenation sits. */
module Layout {
  import opened Substitution

  /** `"\n".join(lines)`. */
  function JoinLines(lines: seq<string>): string
  {
    if lines == [] then ""
    else if |lines| == 1 then lines[0]
    else lines[0] + "\n" + JoinLines(lines[1..])
  }

  /** A guide note: example terms for each of the four domains. */
  function DomainNote(physical: string, social: string, conceptual: string, psychic: string): string
  {
    "Physical: " + physical + " | Social: " + social + " | Conceptual: " + conceptual + " | Psychic: " + psychic
  }

  /** A guide row: the rule's token in backquotes, an arrow and the note. */
  function GuideRow(r: Rule, note: string): string { "- `" + r.Token() + "` → " + note }

  /** Where each part of a five-part concatenation sits. */
  lemma FiveParts(a: string, b: string, c: string, d: string, e: string, n: nat)
    requires n <= |a|
    ensures var s := a + b + c + d + e;
      var i, j, k := |a| + |b|, |a| + |b| + |c|, |a| + |b| + |c| + |d|;
      |s| == k + |e| && s[..n] == a[..n] && s[|a|..i] == b && s[i..j] == c && s[j..k] == d && s[k..] == e
  {
  }
}

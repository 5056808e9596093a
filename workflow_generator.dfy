/**
  `generateWorkflow`: the second model call. The extracted policy data is injected into the
  meta-prompt, the reply is searched for the `workflow.md` document, and the JSON array of workflow
  actions is read from it with every action checked field by field. The text generator, the JSON
  parser and the clock reading are parameters.
*/
module WorkflowGenerator {
  import opened Wrappers
  import opened Text
  import opened LlmResponse
  import opened PolicyExtractor

  // ---------------------------------------------------------------------------------------------
  // The injected block

  /** The validation rules numbered from 1, one per line: "1. <rule>". */
  function NumberedRules(rules: seq<string>): (r: seq<string>)
    ensures |r| == |rules|
  {
    seq(|rules|, i requires 0 <= i < |rules| => NatToString(i + 1) + ". " + rules[i])
  }

  /** The rule a numbered line carries: what follows its number and ". ". */
  function RuleOf(line: string): string {
    var n := |LeadingDigits(line)| + 2;
    if n <= |line| then line[n..] else []
  }

  /** Each numbered line gives back its position, counted from 1, and its rule. */
  lemma RulesNumbered(rules: seq<string>, i: nat)
    requires i < |rules|
    ensures StepNumber(NumberedRules(rules)[i]) == i + 1
    ensures RuleOf(NumberedRules(rules)[i]) == rules[i]
  {
    var digits := NatToString(i + 1);
    var rest := ". " + rules[i];
    assert NumberedRules(rules)[i] == digits + rest;
    assert rest[0] == '.';
    NumberedLine(i + 1, rest);
    LeadingDigitsOf(digits, rest);
    assert (digits + rest)[|digits| + 2..] == rules[i];
  }

  const SummaryHeading: string := "## 정책 요약\n"
  const RulesHeading: string := "\n\n## 검증 규칙\n"
  const ContentHeading: string := "\n\n## 상세 정책 내용"

  /** The block up to the heading of the detailed content. */
  function Head(d: PolicyData): string {
    SummaryHeading + d.summary + RulesHeading + Join(NumberedRules(d.validationRules), "\n") + ContentHeading
  }

  /** `formattedData`: the template with its opening and closing line breaks, trimmed. */
  function FormattedData(d: PolicyData): string {
    Trim("\n" + Head(d) + "\n" + d.content + "\n")
  }

  /** A text that begins and ends with something other than white space, then a line break and `c`. */
  lemma HeadedTrim(h: string, c: string)
    requires h != [] && !IsSpace(h[0]) && !IsSpace(h[|h| - 1])
    ensures Trim("\n" + h + "\n" + c + "\n") == Trim(h + "\n" + c)
    ensures Trim(h + "\n" + c) == TrimEnd(h + "\n" + c)
  {
    assert AllSpace("\n");
    assert "\n" + h + "\n" + c + "\n" == "\n" + (h + "\n" + c) + "\n";
    TrimPadded("\n", h + "\n" + c, "\n");
    TrimBothEnds(h + "\n" + c);
    assert (h + "\n" + c)[0] == h[0];
  }

  /** Trimming the end of a text that ends in something other than white space, then `"\n" + c`. */
  lemma HeadedTrimEnd(h: string, c: string)
    requires h != [] && !IsSpace(h[|h| - 1])
    ensures TrimEnd(h + "\n" + c) == h + (if AllSpace(c) then [] else "\n" + TrimEnd(c))
  {
    var t := "\n" + c;
    assert h + "\n" + c == h + t;
    if AllSpace(c) {
      assert AllSpace(t);
      TrimEndSpaces(h, t);
    } else {
      assert TrimEnd(c) != [];
      TrimEndConcat("\n", c);
      TrimEndConcat(h, t);
    }
  }

  /**
    The injected block is the summary, the numbered rules and the content under their headings,
    trimmed. The headings protect the front, so only the end of the content is trimmed, and a
    content that is all white space leaves the last heading as the end of the block.
  */
  lemma FormattedDataShape(d: PolicyData)
    ensures FormattedData(d) == Trim(Head(d) + "\n" + d.content)
    ensures FormattedData(d) == Head(d) + (if AllSpace(d.content) then [] else "\n" + TrimEnd(d.content))
  {
    var h := Head(d);
    assert h[0] == SummaryHeading[0];
    assert h[|h| - 1] == ContentHeading[|ContentHeading| - 1];
    HeadedTrim(h, d.content);
    HeadedTrimEnd(h, d.content);
  }

  // ---------------------------------------------------------------------------------------------
  // Injection into the meta-prompt

  /** `POLICY_PLACEHOLDER`. */
  const Placeholder: string := "{{심사 기준 또는 정책 문서}}"

  const SectionHeader: string := "1. [Policy/Guideline Document]:"
  const Quotes: string := "\"\"\""

  /** The index of the first character at or after `i` that is not white space. */
  function SkipSpaces(s: string, i: nat): (j: nat)
    requires i <= |s|
    ensures i <= j <= |s|
    ensures forall k :: i <= k < j ==> IsSpace(s[k])
    ensures j == |s| || !IsSpace(s[j])
    decreases |s| - i
  {
    if i < |s| && IsSpace(s[i]) then SkipSpaces(s, i + 1) else i
  }

  /** A run of white space ended by something else is what `SkipSpaces` skips. */
  lemma SkipSpacesTo(s: string, i: nat, j: nat)
    requires i <= j < |s| && !IsSpace(s[j])
    requires forall k :: i <= k < j ==> IsSpace(s[k])
    ensures SkipSpaces(s, i) == j
    decreases j - i
  {
  }

  /**
    Where a match of the empty-section pattern (the header, white space, three quotes, white space,
    three quotes) that starts at `p` ends, if one starts there. A quote is not white space, so the
    greedy white-space runs never give anything back.
  */
  function EmptySectionAt(s: string, p: nat): (r: Option<nat>)
    ensures r.Some? ==> p < r.value <= |s|
  {
    if !OccursAt(s, SectionHeader, p) then None
    else
      var q := SkipSpaces(s, p + |SectionHeader|);
      if !OccursAt(s, Quotes, q) then None
      else
        var q2 := SkipSpaces(s, q + |Quotes|);
        if !OccursAt(s, Quotes, q2) then None else Some(q2 + |Quotes|)
  }

  /** The leftmost match of the empty-section pattern at or after `from`: its start and its end. */
  function FirstEmptySection(s: string, from: nat): (r: Option<(nat, nat)>)
    ensures r.Some? ==> from <= r.value.0 && EmptySectionAt(s, r.value.0) == Some(r.value.1)
    ensures forall p :: from <= p && (r.None? || p < r.value.0) ==> EmptySectionAt(s, p).None?
    decreases |s| - from
  {
    if from >= |s| then None
    else
      match EmptySectionAt(s, from)
      case Some(e) => Some((from, e))
      case None => FirstEmptySection(s, from + 1)
  }

  /** The section the replacement writes, with the block between its quotes. */
  function FilledSection(data: string): string {
    SectionHeader + "\n" + Quotes + "\n" + data + "\n" + Quotes
  }

  /**
    `injectPolicyData`, with the block inserted as it is: the first occurrence of the placeholder is
    replaced; without one, the first empty policy section is filled; with neither the prompt is
    returned unchanged.
  */
  function InjectPolicyData(metaPrompt: string, d: PolicyData): (r: string)
    ensures !Contains(metaPrompt, Placeholder) && (forall p :: EmptySectionAt(metaPrompt, p).None?) ==> r == metaPrompt
  {
    var data := FormattedData(d);
    ContainsIff(metaPrompt, Placeholder);
    if Contains(metaPrompt, Placeholder) then
      var i := IndexOf(metaPrompt, Placeholder, 0);
      metaPrompt[..i] + data + metaPrompt[i + |Placeholder|..]
    else
      match FirstEmptySection(metaPrompt, 0)
      case None => metaPrompt
      case Some((p, e)) => metaPrompt[..p] + FilledSection(data) + metaPrompt[e..]
  }

  /** The first occurrence of `needle` in `s` is at `i`. */
  lemma FirstOccurrence(s: string, needle: string, i: nat)
    requires OccursAt(s, needle, i)
    requires forall j :: 0 <= j < i ==> !OccursAt(s, needle, j)
    ensures Contains(s, needle) && IndexOf(s, needle, 0) == i
  {
    ContainsIff(s, needle);
  }

  /**
    Only the first placeholder is replaced: a prompt whose first placeholder follows `prefix` has
    the block in its place, and everything after it, later placeholders included, is kept.
  */
  lemma PlaceholderReplaced(prefix: string, suffix: string, d: PolicyData)
    requires forall j :: 0 <= j < |prefix| ==> !OccursAt(prefix + Placeholder + suffix, Placeholder, j)
    ensures InjectPolicyData(prefix + Placeholder + suffix, d) == prefix + FormattedData(d) + suffix
  {
    var s := prefix + Placeholder + suffix;
    assert s[|prefix|..|prefix| + |Placeholder|] == Placeholder;
    FirstOccurrence(s, Placeholder, |prefix|);
    assert s[..|prefix|] == prefix;
    assert s[|prefix| + |Placeholder|..] == suffix;
  }

  /** The match of the empty-section pattern at `p`, laid out by the indices where its parts start. */
  lemma EmptySectionSpans(s: string, p: nat, q: nat, q2: nat)
    requires OccursAt(s, SectionHeader, p) && OccursAt(s, Quotes, q) && OccursAt(s, Quotes, q2)
    requires p + |SectionHeader| <= q && q + |Quotes| <= q2
    requires forall k :: p + |SectionHeader| <= k < q ==> IsSpace(s[k])
    requires forall k :: q + |Quotes| <= k < q2 ==> IsSpace(s[k])
    ensures EmptySectionAt(s, p) == Some(q2 + |Quotes|)
  {
    assert s[q] == Quotes[0];
    assert s[q2] == Quotes[0];
    SkipSpacesTo(s, p + |SectionHeader|, q);
    SkipSpacesTo(s, q + |Quotes|, q2);
  }

  /** With no placeholder, the leftmost empty section is the one replaced. */
  lemma InjectIntoSection(s: string, p: nat, e: nat, d: PolicyData)
    requires !Contains(s, Placeholder)
    requires EmptySectionAt(s, p) == Some(e)
    requires forall j :: 0 <= j < p ==> EmptySectionAt(s, j).None?
    ensures p <= e <= |s|
    ensures InjectPolicyData(s, d) == s[..p] + FilledSection(FormattedData(d)) + s[e..]
  {
    FirstSectionAt(s, p, e);
    SectionInjected(s, p, e, d);
  }

  /** A match at `p` with none before it is the leftmost match. */
  lemma FirstSectionAt(s: string, p: nat, e: nat)
    requires EmptySectionAt(s, p) == Some(e)
    requires forall j :: 0 <= j < p ==> EmptySectionAt(s, j).None?
    ensures FirstEmptySection(s, 0) == Some((p, e))
  {
    var r := FirstEmptySection(s, 0);
    assert r.Some?;
    assert !(r.value.0 < p);
    assert !(p < r.value.0);
  }

  /** Without a placeholder, the replacement writes the section the first match covers. */
  lemma SectionInjected(s: string, p: nat, e: nat, d: PolicyData)
    requires !Contains(s, Placeholder)
    requires FirstEmptySection(s, 0) == Some((p, e))
    ensures p <= e <= |s|
    ensures InjectPolicyData(s, d) == s[..p] + FilledSection(FormattedData(d)) + s[e..]
  {
  }

  /** An empty policy section, with `w1` and `w2` for the white space before each pair of quotes. */
  function EmptySection(w1: string, w2: string): string {
    SectionHeader + w1 + Quotes + w2 + Quotes
  }

  /** Where the parts of an empty policy section start. */
  lemma EmptySectionLayout(w1: string, w2: string)
    requires AllSpace(w1) && AllSpace(w2)
    ensures var e := EmptySection(w1, w2);
      var q := |SectionHeader| + |w1|;
      && OccursAt(e, SectionHeader, 0)
      && OccursAt(e, Quotes, q)
      && OccursAt(e, Quotes, q + |Quotes| + |w2|)
      && |e| == q + |Quotes| + |w2| + |Quotes|
      && (forall k :: |SectionHeader| <= k < q ==> IsSpace(e[k]))
      && (forall k :: q + |Quotes| <= k < q + |Quotes| + |w2| ==> IsSpace(e[k]))
  {
    SpacedLayout(SectionHeader, w1, Quotes, w2);
  }

  /** Where the parts of a header, white space, a delimiter, white space and the delimiter start. */
  lemma SpacedLayout(h: string, w1: string, d: string, w2: string)
    requires AllSpace(w1) && AllSpace(w2)
    ensures var e := h + w1 + d + w2 + d;
      var q := |h| + |w1|;
      && OccursAt(e, h, 0)
      && OccursAt(e, d, q)
      && OccursAt(e, d, q + |d| + |w2|)
      && |e| == q + |d| + |w2| + |d|
      && (forall k :: |h| <= k < q ==> IsSpace(e[k]))
      && (forall k :: q + |d| <= k < q + |d| + |w2| ==> IsSpace(e[k]))
  {
    var e := h + w1 + d + w2 + d;
    var q := |h| + |w1|;
    assert e[..|h|] == h;
    forall k | |h| <= k < q ensures IsSpace(e[k]) {
      assert e[k] == w1[k - |h|];
    }
    assert e == (h + w1) + d + (w2 + d);
    assert e[q..q + |d|] == d;
    assert e == (h + w1 + d) + w2 + d;
    forall k | q + |d| <= k < q + |d| + |w2| ensures IsSpace(e[k]) {
      assert e[k] == w2[k - q - |d|];
    }
    assert e[q + |d| + |w2|..] == d;
  }

  /** An occurrence in a piece of a text is an occurrence in the text. */
  lemma OccursInSlice(s: string, p: nat, e: string, needle: string, i: nat)
    requires p + |e| <= |s| && s[p..p + |e|] == e
    requires OccursAt(e, needle, i)
    ensures OccursAt(s, needle, p + i)
  {
    forall k | 0 <= k < |needle| ensures s[p + i..p + i + |needle|][k] == needle[k] {
      assert needle[k] == e[i + k] == s[p + i + k];
    }
  }

  /** White space in a piece of a text is white space in the text. */
  lemma SpacesInSlice(s: string, p: nat, e: string, i: nat, j: nat)
    requires p + |e| <= |s| && s[p..p + |e|] == e
    requires i <= j <= |e|
    requires forall k :: i <= k < j ==> IsSpace(e[k])
    ensures forall k :: p + i <= k < p + j ==> IsSpace(s[k])
  {
    forall k | p + i <= k < p + j ensures IsSpace(s[k]) {
      assert s[k] == e[k - p];
    }
  }

  /** A text laid out as an empty section, found in a larger one, is a match of the pattern there. */
  lemma SectionSliceMatch(s: string, p: nat, e: string, q: nat, q2: nat)
    requires p + |e| <= |s| && s[p..p + |e|] == e
    requires OccursAt(e, SectionHeader, 0) && OccursAt(e, Quotes, q) && OccursAt(e, Quotes, q2)
    requires |SectionHeader| <= q && q + |Quotes| <= q2 && |e| == q2 + |Quotes|
    requires forall k :: |SectionHeader| <= k < q ==> IsSpace(e[k])
    requires forall k :: q + |Quotes| <= k < q2 ==> IsSpace(e[k])
    ensures EmptySectionAt(s, p) == Some(p + |e|)
  {
    OccursInSlice(s, p, e, SectionHeader, 0);
    OccursInSlice(s, p, e, Quotes, q);
    OccursInSlice(s, p, e, Quotes, q2);
    SpacesInSlice(s, p, e, |SectionHeader|, q);
    SpacesInSlice(s, p, e, q + |Quotes|, q2);
    EmptySectionSpans(s, p, p + q, p + q2);
  }

  /**
    Without a placeholder, the first empty policy section, whatever white space it has around its
    quotes, is replaced by the section holding the block; the rest of the prompt is kept.
  */
  lemma SectionFilled(prefix: string, w1: string, w2: string, suffix: string, d: PolicyData)
    requires AllSpace(w1) && AllSpace(w2)
    requires !Contains(prefix + EmptySection(w1, w2) + suffix, Placeholder)
    requires forall j :: 0 <= j < |prefix| ==> EmptySectionAt(prefix + EmptySection(w1, w2) + suffix, j).None?
    ensures InjectPolicyData(prefix + EmptySection(w1, w2) + suffix, d) == prefix + FilledSection(FormattedData(d)) + suffix
  {
    var q := |SectionHeader| + |w1|;
    EmptySectionLayout(w1, w2);
    SectionPieceFilled(prefix, EmptySection(w1, w2), suffix, q, q + |Quotes| + |w2|, d);
  }

  /** A piece laid out as an empty section, after a prefix without a match, is filled. */
  lemma SectionPieceFilled(prefix: string, mid: string, suffix: string, q: nat, q2: nat, d: PolicyData)
    requires OccursAt(mid, SectionHeader, 0) && OccursAt(mid, Quotes, q) && OccursAt(mid, Quotes, q2)
    requires |SectionHeader| <= q && q + |Quotes| <= q2 && |mid| == q2 + |Quotes|
    requires forall k :: |SectionHeader| <= k < q ==> IsSpace(mid[k])
    requires forall k :: q + |Quotes| <= k < q2 ==> IsSpace(mid[k])
    requires !Contains(prefix + mid + suffix, Placeholder)
    requires forall j :: 0 <= j < |prefix| ==> EmptySectionAt(prefix + mid + suffix, j).None?
    ensures InjectPolicyData(prefix + mid + suffix, d) == prefix + FilledSection(FormattedData(d)) + suffix
  {
    ThreeParts(prefix, mid, suffix);
    SectionSliceMatch(prefix + mid + suffix, |prefix|, mid, q, q2);
    FilledAround(prefix, mid, suffix, d);
  }

  /** The first empty section, when it is the piece `mid` between `prefix` and `suffix`, is filled. */
  lemma FilledAround(prefix: string, mid: string, suffix: string, d: PolicyData)
    requires !Contains(prefix + mid + suffix, Placeholder)
    requires EmptySectionAt(prefix + mid + suffix, |prefix|) == Some(|prefix| + |mid|)
    requires forall j :: 0 <= j < |prefix| ==> EmptySectionAt(prefix + mid + suffix, j).None?
    ensures InjectPolicyData(prefix + mid + suffix, d) == prefix + FilledSection(FormattedData(d)) + suffix
  {
    var s := prefix + mid + suffix;
    InjectIntoSection(s, |prefix|, |prefix| + |mid|, d);
    ThreeParts(prefix, mid, suffix);
  }

  /** The three parts of a concatenation, sliced back out of it. */
  lemma ThreeParts(a: string, b: string, c: string)
    ensures (a + b + c)[..|a|] == a
    ensures (a + b + c)[|a|..|a| + |b|] == b
    ensures (a + b + c)[|a| + |b|..] == c
  {
  }

  // ---------------------------------------------------------------------------------------------
  // Injection as written: the replacement patterns of `String.prototype.replace`

  /**
    What `replace` inserts for a replacement string: "$$" stands for "$", "$&" for the matched
    text, "$`" for the text before the match and "$'" for the text after it. Neither pattern of
    `injectPolicyData` has capture groups, so every other "$" is kept as it is.
  */
  function Expand(replacement: string, before: string, matched: string, after: string): string
    decreases |replacement|
  {
    if replacement == [] then []
    else if |replacement| >= 2 && replacement[0] == '$' && replacement[1] == '$' then
      "$" + Expand(replacement[2..], before, matched, after)
    else if |replacement| >= 2 && replacement[0] == '$' && replacement[1] == '&' then
      matched + Expand(replacement[2..], before, matched, after)
    else if |replacement| >= 2 && replacement[0] == '$' && replacement[1] == '`' then
      before + Expand(replacement[2..], before, matched, after)
    else if |replacement| >= 2 && replacement[0] == '$' && replacement[1] == '\'' then
      after + Expand(replacement[2..], before, matched, after)
    else
      [replacement[0]] + Expand(replacement[1..], before, matched, after)
  }

  /** Text with no "$" in front of a replacement is inserted as it is. */
  lemma {:induction false} ExpandConcat(a: string, b: string, before: string, matched: string, after: string)
    requires '$' !in a
    ensures Expand(a + b, before, matched, after) == a + Expand(b, before, matched, after)
    decreases |a|
  {
    if a != [] {
      assert a[0] in a;
      assert (a + b)[1..] == a[1..] + b;
      assert '$' !in a[1..];
      ExpandConcat(a[1..], b, before, matched, after);
      assert a == [a[0]] + a[1..];
    } else {
      assert a + b == b;
    }
  }

  /** A replacement with no "$" is inserted as it is. */
  lemma ExpandPlain(x: string, before: string, matched: string, after: string)
    requires '$' !in x
    ensures Expand(x, before, matched, after) == x
  {
    ExpandConcat(x, [], before, matched, after);
    assert x + [] == x;
  }

  /**
    `injectPolicyData` as written: both calls to `replace` read "$" patterns in the text they
    insert, the block included.
  */
  function InjectAsWritten(metaPrompt: string, d: PolicyData): string {
    var data := FormattedData(d);
    ContainsIff(metaPrompt, Placeholder);
    if Contains(metaPrompt, Placeholder) then
      var i := IndexOf(metaPrompt, Placeholder, 0);
      var before, after := metaPrompt[..i], metaPrompt[i + |Placeholder|..];
      before + Expand(data, before, Placeholder, after) + after
    else
      match FirstEmptySection(metaPrompt, 0)
      case None => metaPrompt
      case Some((p, e)) =>
        var before, after := metaPrompt[..p], metaPrompt[e..];
        before + Expand(FilledSection(data), before, metaPrompt[p..e], after) + after
  }

  /** The two agree on every block without a "$"; a "$" in the data is where they can part. */
  lemma AsWrittenAgrees(metaPrompt: string, d: PolicyData)
    requires '$' !in FormattedData(d)
    ensures InjectAsWritten(metaPrompt, d) == InjectPolicyData(metaPrompt, d)
  {
    var data := FormattedData(d);
    var f := FilledSection(data);
    assert '$' !in f by {
      assert '$' !in SectionHeader + "\n" + Quotes + "\n";
      assert '$' !in "\n" + Quotes;
      assert f == (SectionHeader + "\n" + Quotes + "\n") + data + ("\n" + Quotes);
    }
    ContainsIff(metaPrompt, Placeholder);
    if Contains(metaPrompt, Placeholder) {
      var i := IndexOf(metaPrompt, Placeholder, 0);
      ExpandPlain(data, metaPrompt[..i], Placeholder, metaPrompt[i + |Placeholder|..]);
    } else if FirstEmptySection(metaPrompt, 0).Some? {
      var (p, e) := FirstEmptySection(metaPrompt, 0).value;
      ExpandPlain(f, metaPrompt[..p], metaPrompt[p..e], metaPrompt[e..]);
    }
  }

  /** Policy data whose summary is "$&". */
  const DollarData: PolicyData := PolicyData("$&", [], "x")

  /** What follows the summary in the block of `DollarData`. */
  const DollarRest: string := RulesHeading + ContentHeading + "\nx"

  lemma DollarBlock()
    ensures FormattedData(DollarData) == SummaryHeading + ("$&" + DollarRest)
    ensures '$' !in SummaryHeading && '$' !in DollarRest
  {
    FormattedDataShape(DollarData);
    assert TrimEnd("x") == "x";
    assert Join(NumberedRules([]), "\n") == [];
  }

  lemma DollarExpanded()
    ensures Expand(FormattedData(DollarData), [], Placeholder, []) == SummaryHeading + Placeholder + DollarRest
  {
    DollarBlock();
    ExpandMatched(SummaryHeading, DollarRest, Placeholder);
  }

  /** A single "$&" between two texts without a "$" is replaced by the matched text. */
  lemma ExpandMatched(h: string, rest: string, matched: string)
    requires '$' !in h && '$' !in rest
    ensures Expand(h + ("$&" + rest), [], matched, []) == h + matched + rest
  {
    var x := "$&" + rest;
    ExpandConcat(h, x, [], matched, []);
    assert x[0] == '$' && x[1] == '&' && x[2..] == rest;
    ExpandPlain(rest, [], matched, []);
    assert h + (matched + rest) == h + matched + rest;
  }

  /**
    A summary "$&" injected into a prompt that is only the placeholder: as written, the "$&" is
    replaced by the placeholder itself, so the block is not what is inserted.
  */
  lemma DollarSummaryMangled()
    ensures InjectAsWritten(Placeholder, DollarData) != InjectPolicyData(Placeholder, DollarData)
  {
    DollarBlock();
    DollarExpanded();
    assert OccursAt(Placeholder, Placeholder, 0);
    FirstOccurrence(Placeholder, Placeholder, 0);
    assert |InjectAsWritten(Placeholder, DollarData)| != |InjectPolicyData(Placeholder, DollarData)|;
  }

  // ---------------------------------------------------------------------------------------------
  // The workflow.md document

  const MarkdownFence: string := "```markdown"

  /**
    The group the markdown-block pattern captures when it matches at `p`: the text after
    "```markdown" and the white space that follows it, up to the next "```". The lazy group stops
    at the first "```"; the greedy white-space run could only give back characters that do not
    start one, so it never does.
  */
  function MarkdownBlockAt(s: string, p: nat): (r: Option<string>)
  {
    if !OccursAt(s, MarkdownFence, p) then None
    else
      var b := SkipSpaces(s, p + |MarkdownFence|);
      var q := IndexOf(s, Fence, b);
      if q < 0 then None else Some(s[b..q])
  }

  /** The start of the leftmost match of the markdown-block pattern at or after `from`. */
  function FirstMarkdownBlock(s: string, from: nat): (r: Option<nat>)
    ensures r.Some? ==> from <= r.value && MarkdownBlockAt(s, r.value).Some?
    ensures forall p :: from <= p && (r.None? || p < r.value) ==> MarkdownBlockAt(s, p).None?
    decreases |s| - from
  {
    if from >= |s| then None
    else if MarkdownBlockAt(s, from).Some? then Some(from)
    else FirstMarkdownBlock(s, from + 1)
  }

  /** Multiline `^`: the start of the text or the position after a line terminator. */
  predicate LineStart(s: string, p: nat)
    requires p <= |s|
  {
    p == 0 || s[p - 1] == '\n' || s[p - 1] == '\r' || s[p - 1] == '\U{2028}' || s[p - 1] == '\U{2029}'
  }

  /**
    The frontmatter pattern matches at `p`: a line that starts with "---", white space that holds a
    line break, and somewhere after that line break a line break followed by "---".
  */
  predicate FrontmatterAt(s: string, p: nat) {
    && p <= |s| && LineStart(s, p) && OccursAt(s, "---", p)
    && exists j :: && p + 3 <= j < |s| && s[j] == '\n'
                   && (forall k :: p + 3 <= k < j ==> IsSpace(s[k]))
                   && IndexOf(s, "\n---", j + 1) >= 0
  }

  /** `yamlFrontmatterRegex.test(content)`. */
  predicate HasFrontmatter(s: string) {
    exists p :: 0 <= p <= |s| && FrontmatterAt(s, p)
  }

  /**
    `extractWorkflowMd`: the trimmed group of the first markdown block when it is not empty, else
    the whole trimmed reply when it holds frontmatter, else nothing. The result never starts or
    ends with white space.
  */
  function ExtractWorkflowMd(content: string): (r: string)
    ensures r == [] || (!IsSpace(r[0]) && !IsSpace(r[|r| - 1]))
  {
    var m := FirstMarkdownBlock(content, 0);
    if m.Some? && MarkdownBlockAt(content, m.value).value != [] then Trim(MarkdownBlockAt(content, m.value).value)
    else if HasFrontmatter(content) then Trim(content)
    else []
  }

  /** The first occurrence of `needle` at or after `from` is at `i`. */
  lemma FirstOccurrenceFrom(s: string, needle: string, from: nat, i: nat)
    requires from <= i && OccursAt(s, needle, i)
    requires forall j :: from <= j < i ==> !OccursAt(s, needle, j)
    ensures IndexOf(s, needle, from) == i
  {
  }

  /** Searching `a + t` from inside `t` is searching `t`, with the result shifted by `|a|`. */
  lemma {:induction false} IndexOfShift(a: string, t: string, needle: string, i: nat)
    ensures IndexOf(a + t, needle, |a| + i)
         == if IndexOf(t, needle, i) < 0 then -1 else |a| + IndexOf(t, needle, i)
    decreases |t| - i
  {
    var s := a + t;
    if |a| + i + |needle| <= |s| {
      assert s[|a| + i..|a| + i + |needle|] == t[i..i + |needle|];
      if t[i..i + |needle|] != needle {
        IndexOfShift(a, t, needle, i + 1);
      }
    }
  }

  /** White space before `i` holds no occurrence of a needle that starts with something else. */
  lemma IndexOfPastSpaces(t: string, needle: string, i: nat)
    requires i <= |t| && forall k :: 0 <= k < i ==> IsSpace(t[k])
    requires needle != [] && !IsSpace(needle[0])
    ensures IndexOf(t, needle, i) == IndexOf(t, needle, 0)
  {
    forall k | 0 <= k < i
      ensures !OccursAt(t, needle, k)
    {
      assert k + |needle| <= |t| ==> t[k..k + |needle|][0] == t[k];
    }
    var r := IndexOf(t, needle, i);
    if r >= 0 {
      FirstOccurrenceFrom(t, needle, 0, r);
    }
  }

  /** White space skipped in `a + t` from inside `t` is white space skipped in `t`. */
  lemma {:induction false} SkipSpacesShift(a: string, t: string, i: nat)
    requires i <= |t|
    ensures SkipSpaces(a + t, |a| + i) == |a| + SkipSpaces(t, i)
    decreases |t| - i
  {
    if i < |t| {
      assert (a + t)[|a| + i] == t[i];
      if IsSpace(t[i]) {
        SkipSpacesShift(a, t, i + 1);
      }
    }
  }

  /**
    The group captured after white space `w` up to `q`: it is empty exactly when everything up to
    `q` is white space, and it trims as that whole stretch does.
  */
  lemma CaptureTrimmed(rest: string, sk: nat, q: nat)
    requires sk <= q <= |rest|
    requires forall k :: 0 <= k < sk ==> IsSpace(rest[k])
    requires sk == q || !IsSpace(rest[sk])
    ensures rest[sk..q] == [] <==> AllSpace(rest[..q])
    ensures Trim(rest[sk..q]) == Trim(rest[..q])
  {
    var w, g := rest[..sk], rest[sk..q];
    assert rest[..q] == w + g + [];
    assert AllSpace(w) by {
      forall k | 0 <= k < |w| ensures IsSpace(w[k]) {
        assert w[k] == rest[k];
      }
    }
    TrimPadded(w, g, []);
    if sk < q {
      assert rest[..q][sk] == rest[sk];
    }
  }

  /** After "```markdown" at the end of `head`, the pattern skips and searches inside `rest`. */
  lemma MarkdownOpened(head: string, rest: string, s: string, sk: nat, q: int)
    requires s == head + rest
    requires sk == SkipSpaces(rest, 0) && q == IndexOf(rest, Fence, 0)
    ensures SkipSpaces(s, |head|) == |head| + sk
    ensures IndexOf(s, Fence, |head| + sk) == if q < 0 then -1 else |head| + q
    ensures q >= 0 ==> sk <= q
  {
    SkipSpacesShift(head, rest, 0);
    IndexOfPastSpaces(rest, Fence, sk);
    IndexOfShift(head, rest, Fence, sk);
    if q >= 0 {
      assert rest[q..q + |Fence|][0] == rest[q];
    }
  }

  /** With no "```" after the opening fence, none occurs anywhere past it. */
  lemma NoClosingFence(head: string, rest: string, s: string, sk: nat)
    requires s == head + rest
    requires sk == SkipSpaces(rest, 0) && IndexOf(rest, Fence, 0) < 0
    ensures forall r :: |head| <= r ==> !OccursAt(s, Fence, r)
  {
    MarkdownOpened(head, rest, s, sk, IndexOf(rest, Fence, 0));
    forall r | |head| <= r
      ensures !OccursAt(s, Fence, r)
    {
      if r < |head| + sk {
        assert s[r] == rest[r - |head|];
        assert r + |Fence| <= |s| ==> s[r..r + |Fence|][0] == s[r];
      }
    }
  }

  /**
    The first markdown block wins, whatever its body holds: when the first "```markdown" of a
    reply follows `pre`, the reply gives the trimmed text between it and the next "```", unless
    there is no "```" after it or only white space before that one; then the fallback decides, and
    a reply with frontmatter is returned whole, trimmed, and any other gives nothing.
  */
  lemma MarkdownBlockTaken(pre: string, rest: string, s: string)
    requires s == pre + MarkdownFence + rest
    requires IndexOf(s, MarkdownFence, 0) == |pre|
    ensures IndexOf(rest, Fence, 0) >= 0 && !AllSpace(rest[..IndexOf(rest, Fence, 0)]) ==>
      ExtractWorkflowMd(s) == Trim(rest[..IndexOf(rest, Fence, 0)])
    ensures IndexOf(rest, Fence, 0) >= 0 && AllSpace(rest[..IndexOf(rest, Fence, 0)]) ==>
      ExtractWorkflowMd(s) == if HasFrontmatter(s) then Trim(s) else []
    ensures IndexOf(rest, Fence, 0) < 0 ==>
      ExtractWorkflowMd(s) == if HasFrontmatter(s) then Trim(s) else []
  {
    var head := pre + MarkdownFence;
    var sk := SkipSpaces(rest, 0);
    var q := IndexOf(rest, Fence, 0);
    MarkdownOpened(head, rest, s, sk, q);
    if q >= 0 {
      BlockClosed(head, rest, s, |pre|, sk, q);
      CaptureTrimmed(rest, sk, q);
    } else {
      NoClosingFence(head, rest, s, sk);
      BlockUnclosed(pre, head, s);
    }
  }

  /** A slice of `a + t` past `a` is the slice of `t` shifted by `|a|`. */
  lemma AppendSlice(s: string, a: string, t: string, i: nat, j: nat)
    requires s == a + t && i <= j <= |t|
    ensures s[|a| + i..|a| + j] == t[i..j]
  {
    forall k | 0 <= k < j - i
      ensures s[|a| + i..|a| + j][k] == t[i..j][k]
    {
      assert s[|a| + i + k] == t[i + k];
    }
  }

  /** A closed block right after `pre`, with none before it, is the first block and its group is taken. */
  lemma BlockClosed(head: string, rest: string, s: string, p: nat, sk: nat, q: nat)
    requires s == head + rest && |head| == p + |MarkdownFence|
    requires IndexOf(s, MarkdownFence, 0) == p
    requires sk <= q <= |rest|
    requires SkipSpaces(s, |head|) == |head| + sk && IndexOf(s, Fence, |head| + sk) == |head| + q
    ensures FirstMarkdownBlock(s, 0) == Some(p)
    ensures MarkdownBlockAt(s, p) == Some(rest[sk..q])
  {
    BlockOpensAt(s, p, |head|, |head| + sk, |head| + q);
    AppendSlice(s, head, rest, sk, q);
    SameGroup(MarkdownBlockAt(s, p), s[|head| + sk..|head| + q], rest[sk..q]);
    FirstBlockIs(s, p);
  }

  /** Rewrites a captured group through an equality of strings. */
  lemma SameGroup(g: Option<string>, x: string, y: string)
    requires g == Some(x) && x == y
    ensures g == Some(y)
  {
  }

  /** A block at the first "```markdown" is the first block. */
  lemma FirstBlockIs(s: string, p: nat)
    requires IndexOf(s, MarkdownFence, 0) == p && MarkdownBlockAt(s, p).Some?
    ensures FirstMarkdownBlock(s, 0) == Some(p)
  {
    NoBlockBefore(s, p);
    FirstBlockAt(s, p);
  }

  /** The block at `p`, once the white space after its fence and the closing "```" are known. */
  lemma BlockOpensAt(s: string, p: nat, e: nat, b: nat, q: nat)
    requires OccursAt(s, MarkdownFence, p) && e == p + |MarkdownFence|
    requires SkipSpaces(s, e) == b && IndexOf(s, Fence, b) == q
    ensures b <= q <= |s|
    ensures MarkdownBlockAt(s, p) == Some(s[b..q])
  {
  }

  /** No block opens before the first "```markdown". */
  lemma NoBlockBefore(s: string, p: nat)
    requires IndexOf(s, MarkdownFence, 0) == p
    ensures forall j :: 0 <= j < p ==> MarkdownBlockAt(s, j).None?
  {
  }

  /** With no "```" past the first "```markdown", no markdown block is found at all. */
  lemma BlockUnclosed(pre: string, head: string, s: string)
    requires head == pre + MarkdownFence
    requires IndexOf(s, MarkdownFence, 0) == |pre|
    requires forall r :: |head| <= r ==> !OccursAt(s, Fence, r)
    ensures FirstMarkdownBlock(s, 0).None?
  {
    forall j | 0 <= j
      ensures MarkdownBlockAt(s, j).None?
    {
      if j > |pre| && OccursAt(s, MarkdownFence, j) {
        var from := SkipSpaces(s, j + |MarkdownFence|);
        assert IndexOf(s, Fence, from) < 0;
      }
    }
  }

  /** A block at `p` with none before it is the first block. */
  lemma FirstBlockAt(s: string, p: nat)
    requires MarkdownBlockAt(s, p).Some?
    requires forall j :: 0 <= j < p ==> MarkdownBlockAt(s, j).None?
    ensures FirstMarkdownBlock(s, 0) == Some(p)
  {
    var r := FirstMarkdownBlock(s, 0);
    assert r.Some?;
    assert !(r.value < p);
    assert !(p < r.value);
  }

  /** A reply without "```markdown" gives its whole trimmed text when it has frontmatter, else nothing. */
  lemma NoMarkdownBlock(s: string)
    requires !Contains(s, MarkdownFence)
    ensures ExtractWorkflowMd(s) == if HasFrontmatter(s) then Trim(s) else []
  {
    ContainsIff(s, MarkdownFence);
    assert FirstMarkdownBlock(s, 0).None?;
  }

  /**
    Frontmatter may open on any line (the pattern is multiline): a line that starts with "---",
    white space up to a line break, then anywhere later a line break followed by "---".
  */
  lemma FrontmatterFound(pre: string, w: string, x: string, y: string, s: string)
    requires LineStart(pre, |pre|) && AllSpace(w)
    requires s == pre + "---" + w + "\n" + x + "\n---" + y
    ensures HasFrontmatter(s)
  {
    var p := |pre|;
    var j := p + 3 + |w|;
    var m := j + 1 + |x|;
    assert s[..p] == pre;
    assert p > 0 ==> s[p - 1] == pre[p - 1];
    assert s[p..p + 3] == "---";
    assert s[j] == '\n';
    forall k | p + 3 <= k < j
      ensures IsSpace(s[k])
    {
      assert s[k] == w[k - p - 3];
    }
    assert s[m..m + 4] == "\n---";
    assert OccursAt(s, "\n---", m);
    assert IndexOf(s, "\n---", j + 1) >= 0;
    assert FrontmatterAt(s, p);
  }

  /** A reply without a markdown block whose frontmatter opens on some line is returned whole, trimmed. */
  lemma FrontmatterTaken(pre: string, w: string, x: string, y: string, s: string)
    requires LineStart(pre, |pre|) && AllSpace(w)
    requires s == pre + "---" + w + "\n" + x + "\n---" + y
    requires !Contains(s, MarkdownFence)
    ensures ExtractWorkflowMd(s) == Trim(s)
  {
    FrontmatterFound(pre, w, x, y, s);
    NoMarkdownBlock(s);
  }

  /** A reply with neither a markdown block nor "---" gives no document. */
  lemma NoDocument(content: string)
    requires !Contains(content, MarkdownFence) && !Contains(content, "---")
    ensures ExtractWorkflowMd(content) == []
  {
    NoMarkdownBlock(content);
    ContainsIff(content, "---");
  }

  // ---------------------------------------------------------------------------------------------
  // The workflow actions

  /**
    `WorkflowAction` as the code builds it. The engine type and the reference notes are not
    checked beyond being present as an array, so they hold whatever JSON the reply had.
  */
  datatype WorkflowAction = WorkflowAction(
    id: string,
    actionName: string,
    category: string,
    description: string,
    engineRequired: bool,
    engineType: Json,
    referenceNotes: seq<Json>)

  /** The members every action must have, in the order they are checked. */
  const RequiredFields: seq<string> :=
    ["id", "action_name", "category", "description", "engine_required", "reference_notes"]

  /**
    The check on one member of an item that is not `null`: `engine_required` must be a boolean,
    `reference_notes` an array, and the other four strings.
  */
  predicate FieldOk(item: Json, field: string)
    requires !item.JNull?
  {
    var v := Get(item, field);
    && v.Some?
    && (if field == "engine_required" then v.value.JBool?
        else if field == "reference_notes" then v.value.JArray?
        else v.value.JString?)
  }

  /** The message an item at `index` failing the check on `field` is rejected with. */
  function MissingField(index: nat, field: string): string {
    "Action at index " + NatToString(index) + " missing '" + field
      + (if field == "reference_notes" then "' array" else "' field")
  }

  /** `item.engine_type ?? null`. */
  function EngineType(item: Json): Json
    requires !item.JNull?
  {
    match Get(item, "engine_type")
    case None => JNull
    case Some(v) => v
  }

  /** The check and the copy of the item at `index`, in the order the code makes the checks. */
  function CheckItem(item: Json, index: nat): Result<WorkflowAction, string>
  {
    if item.JNull? then Failure(NullAccess("id"))
    else if !FieldOk(item, RequiredFields[0]) then Failure(MissingField(index, RequiredFields[0]))
    else if !FieldOk(item, RequiredFields[1]) then Failure(MissingField(index, RequiredFields[1]))
    else if !FieldOk(item, RequiredFields[2]) then Failure(MissingField(index, RequiredFields[2]))
    else if !FieldOk(item, RequiredFields[3]) then Failure(MissingField(index, RequiredFields[3]))
    else if !FieldOk(item, RequiredFields[4]) then Failure(MissingField(index, RequiredFields[4]))
    else if !FieldOk(item, RequiredFields[5]) then Failure(MissingField(index, RequiredFields[5]))
    else
      Success(WorkflowAction(
        Get(item, "id").value.s,
        Get(item, "action_name").value.s,
        Get(item, "category").value.s,
        Get(item, "description").value.s,
        Get(item, "engine_required").value.b,
        EngineType(item),
        Get(item, "reference_notes").value.items))
  }

  /**
    The check and the copy of the item at `index`. A `null` item fails on reading its `id`. Any
    other item is accepted exactly when all six members pass, and is otherwise rejected with the
    message of the first member, in the order of `RequiredFields`, that does not. An accepted item
    gives an action with the same members, a missing engine type becoming `null`.
  */
  lemma CheckItemChecks(item: Json, index: nat)
    ensures var r := CheckItem(item, index);
      && (item.JNull? ==> r == Failure(NullAccess("id")))
      && (!item.JNull? ==> (r.Success? <==> forall k :: 0 <= k < |RequiredFields| ==> FieldOk(item, RequiredFields[k])))
      && (!item.JNull? && r.Failure? ==>
            exists k :: && 0 <= k < |RequiredFields| && !FieldOk(item, RequiredFields[k])
                        && (forall e :: 0 <= e < k ==> FieldOk(item, RequiredFields[e]))
                        && r.error == MissingField(index, RequiredFields[k]))
      && (r.Success? ==>
            && !item.JNull?
            && Get(item, "id") == Some(JString(r.value.id))
            && Get(item, "action_name") == Some(JString(r.value.actionName))
            && Get(item, "category") == Some(JString(r.value.category))
            && Get(item, "description") == Some(JString(r.value.description))
            && Get(item, "engine_required") == Some(JBool(r.value.engineRequired))
            && Get(item, "reference_notes") == Some(JArray(r.value.referenceNotes))
            && (Get(item, "engine_type") == Some(r.value.engineType)
                || (Get(item, "engine_type").None? && r.value.engineType == JNull)))
  {
    if !item.JNull? {
      var fs := RequiredFields;
      if !FieldOk(item, fs[0]) {
        assert CheckItem(item, index) == Failure(MissingField(index, fs[0]));
      } else if !FieldOk(item, fs[1]) {
        assert CheckItem(item, index) == Failure(MissingField(index, fs[1]));
      } else if !FieldOk(item, fs[2]) {
        assert CheckItem(item, index) == Failure(MissingField(index, fs[2]));
      } else if !FieldOk(item, fs[3]) {
        assert CheckItem(item, index) == Failure(MissingField(index, fs[3]));
      } else if !FieldOk(item, fs[4]) {
        assert CheckItem(item, index) == Failure(MissingField(index, fs[4]));
      } else if !FieldOk(item, fs[5]) {
        assert CheckItem(item, index) == Failure(MissingField(index, fs[5]));
      }
    }
  }

  /**
    `parsed.map(check)` from position `from` on: every item is checked in order, and the first one
    rejected stops the whole with its message; otherwise the results come in the order of the items.
  */
  function ParseItems<A>(check: (Json, nat) -> Result<A, string>, items: seq<Json>, from: nat): (r: Result<seq<A>, string>)
    requires from <= |items|
    ensures r.Success? <==> forall i :: from <= i < |items| ==> check(items[i], i).Success?
    ensures r.Success? ==> && |r.value| == |items| - from
                           && forall i :: from <= i < |items| ==> check(items[i], i) == Success(r.value[i - from])
    ensures r.Failure? ==>
      exists i :: && from <= i < |items| && check(items[i], i) == Failure(r.error)
                  && forall j :: from <= j < i ==> check(items[j], j).Success?
    decreases |items| - from
  {
    if from == |items| then Success([])
    else
      match check(items[from], from)
      case Failure(e) => Failure(e)
      case Success(a) =>
        match ParseItems(check, items, from + 1)
        case Failure(e) => Failure(e)
        case Success(rest) => Success([a] + rest)
  }

  /** What a reply whose text does not parse is rejected with; the parser's own message is not modelled. */
  const UnparsableReply: string := "SyntaxError"

  const NotArrayPrefix: string := "Expected JSON array but got "

  /**
    `parseWorkflowActions`: the reply is stripped of its fence as in the extraction, parsed, and
    must be an array, whose items are then checked one by one.
  */
  function ParseWorkflowActions(parse: Parser, content: string): (r: Result<seq<WorkflowAction>, string>)
    ensures parse(StripFence(content)).None? ==> r == Failure(UnparsableReply)
    ensures parse(StripFence(content)).Some? && !parse(StripFence(content)).value.JArray? ==>
      r == Failure(NotArrayPrefix + TypeOf(parse(StripFence(content)).value))
    ensures r.Success? ==>
      && parse(StripFence(content)).Some? && parse(StripFence(content)).value.JArray?
      && var items := parse(StripFence(content)).value.items;
         && |r.value| == |items|
         && forall i :: 0 <= i < |items| ==> CheckItem(items[i], i) == Success(r.value[i])
  {
    match parse(StripFence(content))
    case None => Failure(UnparsableReply)
    case Some(v) =>
      if !v.JArray? then Failure(NotArrayPrefix + TypeOf(v))
      else ParseItems(CheckItem, v.items, 0)
  }

  /** The JSON object of an action, with the member names the system prompt asks for. */
  function ActionJson(a: WorkflowAction): Json {
    JObject(map[
      "id" := JString(a.id),
      "action_name" := JString(a.actionName),
      "category" := JString(a.category),
      "description" := JString(a.description),
      "engine_required" := JBool(a.engineRequired),
      "engine_type" := a.engineType,
      "reference_notes" := JArray(a.referenceNotes)])
  }

  /** The JSON array items of some actions. */
  function ActionsJson(actions: seq<WorkflowAction>): (r: seq<Json>)
    ensures |r| == |actions| && forall i :: 0 <= i < |actions| ==> r[i] == ActionJson(actions[i])
  {
    seq(|actions|, i requires 0 <= i < |actions| => ActionJson(actions[i]))
  }

  /** The object of an action passes the checks, at any index, and gives back the action. */
  lemma ActionRoundTrip(a: WorkflowAction, index: nat)
    ensures CheckItem(ActionJson(a), index) == Success(a)
  {
    var item := ActionJson(a);
    forall k | 0 <= k < |RequiredFields| ensures FieldOk(item, RequiredFields[k]) {
    }
  }

  /** The items of some actions, read from position `from` on, give back those actions. */
  lemma {:induction false} ActionsRoundTrip(actions: seq<WorkflowAction>, from: nat)
    requires from <= |actions|
    ensures ParseItems(CheckItem, ActionsJson(actions), from) == Success(actions[from..])
    decreases |actions| - from
  {
    var items := ActionsJson(actions);
    if from < |actions| {
      ActionRoundTrip(actions[from], from);
      ActionsRoundTrip(actions, from + 1);
      ParseItemsCons(CheckItem, items, from, actions[from], actions[from + 1..]);
      assert actions[from..] == [actions[from]] + actions[from + 1..];
    } else {
      assert actions[from..] == [];
    }
  }

  /** One step of `ParseItems`: an accepted item in front of accepted items. */
  lemma ParseItemsCons<A>(check: (Json, nat) -> Result<A, string>, items: seq<Json>, from: nat, a: A, rest: seq<A>)
    requires from < |items| && check(items[from], from) == Success(a)
    requires ParseItems(check, items, from + 1) == Success(rest)
    ensures ParseItems(check, items, from) == Success([a] + rest)
  {
  }

  /**
    A reply that is the JSON array of some actions, fenced by "```json" or "```" or not fenced at
    all, gives back exactly those actions, whenever the parser reads the array back from its text.
  */
  lemma ReplyActionsRoundTrip(parse: Parser, head: string, body: string, actions: seq<WorkflowAction>)
    requires head == JsonFence || head == Fence || head == []
    requires body == [] || (!IsSpace(body[0]) && !IsSpace(body[|body| - 1]))
    requires head == [] ==> !StartsWith(body, Fence) && !EndsWith(body, Fence)
    requires parse(body) == Some(JArray(ActionsJson(actions)))
    ensures var content := if head == [] then body else head + "\n" + body + "\n" + Fence;
      ParseWorkflowActions(parse, content) == Success(actions)
  {
    if head == [] {
      TrimOfTrimmed(body);
      UnfencedReply(body);
    } else {
      FencedReply(head, body);
    }
    ActionsRoundTrip(actions, 0);
  }

  // ---------------------------------------------------------------------------------------------
  // The generation

  /** `GeneratedWorkflow`. */
  datatype GeneratedWorkflow = GeneratedWorkflow(
    actions: seq<WorkflowAction>,
    rawContent: string,
    workflowMd: string,
    generatedAt: string,
    sourceDocument: string,
    tokenUsage: TokenUsage)

  const GenerationMaxTokens: nat := 16384

  /** The request `generateWorkflow` sends: the meta-prompt with the policy data injected. */
  function GenerationRequest(systemPrompt: string, metaPrompt: string, d: PolicyData, sourceDocumentName: string): Request {
    Request(systemPrompt, InjectPolicyData(metaPrompt, d), GenerationMaxTokens, sourceDocumentName)
  }

  /**
    `generateWorkflow`. A generator failure propagates; nothing else fails. The reply is kept whole
    as the raw content, the workflow document is taken from it, and the actions are the ones it
    holds, or none when reading them fails for any reason. The document name, the token usage and
    the timestamp are passed through.
  */
  function GenerateWorkflow(generate: Generator, parse: Parser, systemPrompt: string, metaPrompt: string,
                            d: PolicyData, sourceDocumentName: string, generatedAt: string): (r: Result<GeneratedWorkflow, string>)
    ensures var reply := generate(GenerationRequest(systemPrompt, metaPrompt, d, sourceDocumentName));
      && (reply.Failure? ==> r == Failure(reply.error))
      && (reply.Success? ==>
            var actions := ParseWorkflowActions(parse, reply.value.content);
            && r.Success?
            && r.value.rawContent == reply.value.content
            && r.value.workflowMd == ExtractWorkflowMd(reply.value.content)
            && (actions.Success? ==> r.value.actions == actions.value)
            && (actions.Failure? ==> r.value.actions == [])
            && r.value.generatedAt == generatedAt
            && r.value.sourceDocument == sourceDocumentName
            && r.value.tokenUsage == reply.value.tokenUsage)
  {
    match generate(GenerationRequest(systemPrompt, metaPrompt, d, sourceDocumentName))
    case Failure(e) => Failure(e)
    case Success(reply) =>
      var actions := match ParseWorkflowActions(parse, reply.content)
        case Success(a) => a
        case Failure(_) => [];
      Success(GeneratedWorkflow(actions, reply.content, ExtractWorkflowMd(reply.content), generatedAt,
                                sourceDocumentName, reply.tokenUsage))
  }

  /**
    A reply that is the JSON array of some actions, fenced or not, gives a workflow holding exactly
    those actions, with the reply kept whole as its raw content.
  */
  lemma RepliedActionsKept(generate: Generator, parse: Parser, systemPrompt: string, metaPrompt: string,
                           d: PolicyData, sourceDocumentName: string, generatedAt: string,
                           head: string, body: string, actions: seq<WorkflowAction>)
    requires head == JsonFence || head == Fence || head == []
    requires body == [] || (!IsSpace(body[0]) && !IsSpace(body[|body| - 1]))
    requires head == [] ==> !StartsWith(body, Fence) && !EndsWith(body, Fence)
    requires parse(body) == Some(JArray(ActionsJson(actions)))
    requires generate(GenerationRequest(systemPrompt, metaPrompt, d, sourceDocumentName)).Success?
    requires generate(GenerationRequest(systemPrompt, metaPrompt, d, sourceDocumentName)).value.content ==
      if head == [] then body else head + "\n" + body + "\n" + Fence
    ensures var r := GenerateWorkflow(generate, parse, systemPrompt, metaPrompt, d, sourceDocumentName, generatedAt);
      && r.Success? && r.value.actions == actions
      && r.value.rawContent == (if head == [] then body else head + "\n" + body + "\n" + Fence)
  {
    ReplyActionsRoundTrip(parse, head, body, actions);
  }
}

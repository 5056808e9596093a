/**
  Step 5 of the preprocessor: the one-line description "<document type> verification for
  <process name>". The process name comes from the first line of the policy that is not blank,
  without the `#` marks of a Markdown heading, and loses the first label prefix ("policy:" and the
  like) it starts with; the document type is the category of the first match, title-cased.
*/
module Description {
  import opened Text
  import opened Matcher

  // ---------------------------------------------------------------------------------------------
  // Title case

  /** `s.replace(/_/g, ' ')`. */
  function Unscored(s: string): string {
    seq(|s|, i requires 0 <= i < |s| => if s[i] == '_' then ' ' else s[i])
  }

  /** `/\b\w/` matches at `i`: a word character with no word character right before it. */
  predicate WordStart(s: string, i: nat)
    requires i < |s|
  {
    IsWordChar(s[i]) && (i == 0 || !IsWordChar(s[i - 1]))
  }

  /** `s.replace(/\b\w/g, c => c.toUpperCase())`. */
  function CapitalizeWords(s: string): string {
    seq(|s|, i requires 0 <= i < |s| => if WordStart(s, i) then UpperChar(s[i]) else s[i])
  }

  /**
    A registry category as a heading ("data_retention" becomes "Data Retention"): underscores
    become spaces, the first letter of every word is upper-cased, and nothing else changes.
  */
  function TitleCase(category: string): (r: string)
    ensures |r| == |category|
    ensures forall i :: 0 <= i < |r| ==> r[i] != '_'
    ensures forall i :: 0 <= i < |r| && category[i] == '_' ==> r[i] == ' '
    ensures forall i :: 0 <= i < |r| && category[i] != '_' ==> LowerChar(r[i]) == LowerChar(category[i])
    ensures forall i :: 0 <= i < |r| && WordStart(Unscored(category), i) ==> !('a' <= r[i] <= 'z')
    ensures forall i :: 0 <= i < |r| && !WordStart(Unscored(category), i) && category[i] != '_' ==>
      r[i] == category[i]
  {
    CapitalizeWords(Unscored(category))
  }

  /** Title-casing a title-cased category changes nothing. */
  lemma TitleCaseIdempotent(category: string)
    ensures TitleCase(TitleCase(category)) == TitleCase(category)
  {
    var u := Unscored(category);
    var t := TitleCase(category);
    assert Unscored(t) == t;
    forall i | 0 <= i < |t|
      ensures IsWordChar(t[i]) == IsWordChar(u[i])
    {
      assert t[i] == (if WordStart(u, i) then UpperChar(u[i]) else u[i]);
    }
    forall i | 0 <= i < |t|
      ensures CapitalizeWords(t)[i] == t[i]
    {
      assert WordStart(t, i) == WordStart(u, i);
    }
  }

  // ---------------------------------------------------------------------------------------------
  // The process name

  /** The number of `#` characters `s` starts with. */
  function HashRun(s: string): (n: nat)
    ensures n <= |s|
    ensures forall i :: 0 <= i < n ==> s[i] == '#'
    ensures n == |s| || s[n] != '#'
    decreases |s|
  {
    if s != [] && s[0] == '#' then 1 + HashRun(s[1..]) else 0
  }

  /**
    `s.replace` of the leading match of `^#+\s*` by nothing: a suffix of `s`; when `s` starts with
    `#`, the marks and the white space after them are gone.
  */
  function StripHeading(s: string): (r: string)
    ensures |r| <= |s| && r == s[|s| - |r|..]
    ensures HashRun(s) > 0 ==> |r| < |s| && (r == [] || !IsSpace(r[0]))
  {
    var n := HashRun(s);
    if n == 0 then s else TrimStart(s[n..])
  }

  /**
    The heading marks, the white space after them and nothing else are removed: a heading built
    from one or more `#`, white space and a title gives back that title.
  */
  lemma StripHeadingOf(hashes: string, w: string, title: string)
    requires |hashes| >= 1 && forall i :: 0 <= i < |hashes| ==> hashes[i] == '#'
    requires AllSpace(w)
    requires title == [] || (!IsSpace(title[0]) && (w == [] ==> title[0] != '#'))
    ensures StripHeading(hashes + w + title) == title
  {
    var s := hashes + w + title;
    assert |hashes| == |s| || s[|hashes|] != '#' by {
      if w != [] {
        assert s[|hashes|] == w[0];
      } else if title != [] {
        assert s[|hashes|] == title[0];
      }
    }
    HashRunUnique(s, |hashes|);
    var n := HashRun(s);
    assert s[n..] == w + title;
    TrimStartSpaces(w, title);
  }

  /** Any count of leading `#` characters that is followed by something else is the run. */
  lemma HashRunUnique(s: string, m: nat)
    requires m <= |s| && forall i :: 0 <= i < m ==> s[i] == '#'
    requires m == |s| || s[m] != '#'
    ensures HashRun(s) == m
  {
  }

  const UnknownProcess: string := "Unknown Process"

  /** A line that `trim` empties. */
  predicate Blank(line: string) {
    Trim(line) == []
  }

  /** The name a line gives: the trimmed line, without its heading marks when it is a heading. */
  function LineName(line: string): string {
    var stripped := Trim(line);
    if StartsWith(stripped, "#") then StripHeading(stripped) else stripped
  }

  /** The index of the first line that is not blank, or `|lines|` when they all are. */
  function FirstNonBlank(lines: seq<string>): (j: nat)
    ensures j <= |lines|
    ensures j < |lines| ==> !Blank(lines[j])
    ensures forall i :: 0 <= i < j ==> Blank(lines[i])
    decreases |lines|
  {
    if lines == [] then 0
    else if !Blank(lines[0]) then 0
    else 1 + FirstNonBlank(lines[1..])
  }

  /** The name the first non-blank line gives, or "Unknown Process" when every line is blank. */
  function HeadingName(lines: seq<string>): string {
    var j := FirstNonBlank(lines);
    if j == |lines| then UnknownProcess else LineName(lines[j])
  }

  /** The loop over the policy's lines that stops at the first one that is not blank. */
  method FindProcessName(lines: seq<string>) returns (processName: string)
    ensures processName == HeadingName(lines)
  {
    processName := UnknownProcess;
    for i := 0 to |lines|
      invariant processName == UnknownProcess
      invariant forall e :: 0 <= e < i ==> Blank(lines[e])
    {
      var stripped := Trim(lines[i]);
      if stripped == [] {
        continue;
      }
      if StartsWith(stripped, "#") {
        processName := StripHeading(stripped);
      } else {
        processName := stripped;
      }
      assert FirstNonBlank(lines) == i;
      return;
    }
    assert FirstNonBlank(lines) == |lines|;
  }

  /** The label prefixes a process name may carry, in the order they are tried. */
  const LabelPrefixes: seq<string> := ["policy:", "procedure:", "guidelines:", "정책:", "절차:"]

  /** The index of the first prefix the lower-cased name starts with, or `|prefixes|`. */
  function FirstLabel(name: string, prefixes: seq<string>): (j: nat)
    ensures j <= |prefixes|
    ensures j < |prefixes| ==> StartsWith(ToLower(name), prefixes[j])
    ensures forall i :: 0 <= i < j ==> !StartsWith(ToLower(name), prefixes[i])
    decreases |prefixes|
  {
    if prefixes == [] then 0
    else if StartsWith(ToLower(name), prefixes[0]) then 0
    else 1 + FirstLabel(name, prefixes[1..])
  }

  /** The name without the first matching label and the white space around what is left. */
  function WithoutLabel(name: string, prefixes: seq<string>): string {
    var j := FirstLabel(name, prefixes);
    if j == |prefixes| then name else Trim(name[|prefixes[j]|..])
  }

  /** The loop over the label prefixes that stops at the first one the name starts with. */
  method StripLabel(name: string) returns (processName: string)
    ensures processName == WithoutLabel(name, LabelPrefixes)
  {
    processName := name;
    for k := 0 to |LabelPrefixes|
      invariant processName == name
      invariant forall i :: 0 <= i < k ==> !StartsWith(ToLower(name), LabelPrefixes[i])
    {
      var prefix := LabelPrefixes[k];
      if StartsWith(ToLower(processName), prefix) {
        processName := Trim(processName[|prefix|..]);
        assert FirstLabel(name, LabelPrefixes) == k;
        return;
      }
    }
  }

  /** No two label prefixes agree on their first two characters. */
  lemma LabelsDiffer(i: nat, j: nat)
    requires i < j < |LabelPrefixes|
    ensures LabelPrefixes[i][0] != LabelPrefixes[j][0] || LabelPrefixes[i][1] != LabelPrefixes[j][1]
  {
  }

  /** A text that starts with one label prefix does not start with an earlier one. */
  lemma LabelsExclusive(low: string, i: nat, j: nat)
    requires i < j < |LabelPrefixes| && StartsWith(low, LabelPrefixes[j])
    ensures !StartsWith(low, LabelPrefixes[i])
  {
    LabelsDiffer(i, j);
    assert low[0] == LabelPrefixes[j][0] && low[1] == LabelPrefixes[j][1];
  }

  /**
    A name that starts with a label prefix, in any letter case, loses that prefix and the white
    space around the rest: "POLICY:  Data Retention " gives "Data Retention".
  */
  lemma LabelRemoved(tag: string, rest: string, j: nat)
    requires j < |LabelPrefixes| && ToLower(tag) == LabelPrefixes[j]
    ensures WithoutLabel(tag + rest, LabelPrefixes) == Trim(rest)
  {
    var name := tag + rest;
    var low := ToLower(name);
    assert low[..|tag|] == LabelPrefixes[j];
    forall i | 0 <= i < j
      ensures !StartsWith(low, LabelPrefixes[i])
    {
      LabelsExclusive(low, i, j);
    }
    assert FirstLabel(name, LabelPrefixes) == j;
    assert name[|LabelPrefixes[j]|..] == rest;
  }

  /** The process name of a policy: its first non-blank line, without heading marks and label. */
  function ProcessName(policyText: string): string {
    WithoutLabel(HeadingName(Split(policyText, c => c == '\n')), LabelPrefixes)
  }

  /** The document type: the first match's category title-cased, or "Document" with no match. */
  function DocType(matched: seq<Match>): string {
    if matched == [] then "Document" else TitleCase(matched[0].category)
  }

  /** Step 5: the two loops, then the description text. */
  method Describe(policyText: string, matched: seq<Match>) returns (description: string)
    ensures description == DocType(matched) + " verification for " + ProcessName(policyText)
  {
    var lines := Split(policyText, c => c == '\n');
    var heading := FindProcessName(lines);
    var processName := StripLabel(heading);
    description := DocType(matched) + " verification for " + processName;
  }
}

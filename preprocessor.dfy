/**
  `preprocessPolicy`: the deterministic pass that turns a policy text and the pattern registry into
  the structured result the workflow prompt is assembled from. The registry and the clock reading
  are parameters.
*/
module Preprocessor {
  import opened Wrappers
  import opened Text
  import opened PatternRegistry
  import StableSort
  import opened Matcher
  import opened Classifier
  import opened Principles
  import opened Description
  import opened Assembly

  /** `metadata`. */
  datatype Metadata = Metadata(registryVersion: string, timestamp: string, policyHash: string)

  /** The result object. */
  datatype Output = Output(
    metadata: Metadata,
    matchedPatterns: seq<Match>,
    unmatchedPatterns: seq<Unmatched>,
    selectedRole: SelectedRole,
    selectedRiskLevel: SelectedRisk,
    extractedPrinciples: seq<string>,
    description: string,
    checklist: seq<ChecklistItem>,
    logicFlow: seq<string>,
    criticalFailures: seq<string>,
    reviewTriggers: seq<string>)

  /** `policyText.substring(0, 50)`: the first 50 characters, or the whole text when it is shorter. */
  function PolicyHash(policyText: string): (r: string)
    ensures |r| == if |policyText| < 50 then |policyText| else 50
    ensures StartsWith(policyText, r)
  {
    if |policyText| < 50 then policyText else policyText[..50]
  }

  /** The matched list after both sorts: patterns by id, then matches by precedence. */
  function MatchedPatterns(reg: Registry, policyText: string): seq<Match> {
    var patterns := StableSort.SortSpec(reg.patterns, PatternLe);
    StableSort.SortSpec(MatchedOf(patterns, Normalize(policyText)), MatchLe)
  }

  /** The unmatched list, in the order of the patterns sorted by id. */
  function UnmatchedPatterns(reg: Registry, policyText: string): seq<Unmatched> {
    UnmatchedOf(StableSort.SortSpec(reg.patterns, PatternLe), Normalize(policyText))
  }

  /** `selected_role`: the role table sorted by priority and searched for the first entry hit. */
  function SelectedRoleOf(reg: Registry, policyText: string): SelectedRole {
    RoleOf(ChoiceOf(StableSort.SortSpec(reg.roleOrder, MappingLe), Normalize(policyText)), reg.defaultRole)
  }

  /** `selected_risk_level`: the risk table sorted by priority and searched for the first entry hit. */
  function SelectedRiskOf(reg: Registry, policyText: string): SelectedRisk {
    RiskOf(ChoiceOf(StableSort.SortSpec(reg.riskOrder, MappingLe), Normalize(policyText)), reg.defaultLevel)
  }

  /** The principles picked from the located sentences `ix`, then the defaults for the places left. */
  function PrinciplesFrom(ix: seq<Indexed>): (r: seq<string>)
    ensures |r| == 3
  {
    var p := Pick(ChoiceIn(CueMention, ix), CueTerms, 0, [], {});
    seq(3, k requires 0 <= k < 3 => if k < |p| then p[k].text else Defaults[k])
  }

  /** The principles, with the sentences located by the corrected indexing. */
  function PrinciplesOf(policyText: string): (r: seq<string>)
    ensures |r| == 3
  {
    PrinciplesFrom(IndexSpec(policyText, Sentences(policyText), 0))
  }

  /** The principles as the code is written, with the sentences located by the indexing as written. */
  function PrinciplesAsWritten(policyText: string): (r: seq<string>)
    ensures |r| == 3
  {
    PrinciplesFrom(IndexAsWritten(policyText, Sentences(policyText), 0))
  }

  /** The whole result, for a registry whose tools cover every match of the policy. */
  function Preprocessed(reg: Registry, policyText: string, timestamp: string): Output
    requires ToolsResolve(MatchedPatterns(reg, policyText), reg.tools)
  {
    var text := Normalize(policyText);
    var ms := MatchedPatterns(reg, policyText);
    Output(
      Metadata(reg.version, timestamp, PolicyHash(policyText)),
      ms,
      UnmatchedPatterns(reg, policyText),
      SelectedRoleOf(reg, policyText),
      SelectedRiskOf(reg, policyText),
      PrinciplesOf(policyText),
      DocType(ms) + " verification for " + ProcessName(policyText),
      Checklist(ms, reg.tools),
      LogicFlow(ms, reg),
      CriticalFailures(ms, reg),
      ReviewTriggers(ms, reg))
  }

  /** The index of the first match whose tool id names no tool, or `|ms|` when all of them do. */
  function FirstMissingTool(ms: seq<Match>, tools: seq<Tool>): (j: nat)
    ensures j <= |ms|
    ensures j < |ms| ==> FindTool(tools, ms[j].toolId).None?
    ensures forall k :: 0 <= k < j ==> FindTool(tools, ms[k].toolId).Some?
    decreases |ms|
  {
    if ms == [] then 0
    else if FindTool(tools, ms[0].toolId).None? then 0
    else 1 + FirstMissingTool(ms[1..], tools)
  }

  /** A copy of `s` into a fresh array, as the spread `[...s]` makes. */
  method ToArray<T>(s: seq<T>) returns (a: array<T>)
    ensures fresh(a) && a[..] == s
  {
    a := new T[|s|](i requires 0 <= i < |s| => s[i]);
  }

  /** Step 1: the patterns sorted by id are matched in turn, then the matches are sorted by precedence. */
  method MatchStep(reg: Registry, policyLower: string) returns (ms: seq<Match>, unmatched: seq<Unmatched>)
    ensures ms == StableSort.SortSpec(MatchedOf(StableSort.SortSpec(reg.patterns, PatternLe), policyLower), MatchLe)
    ensures unmatched == UnmatchedOf(StableSort.SortSpec(reg.patterns, PatternLe), policyLower)
  {
    var patterns := ToArray(reg.patterns);
    StableSort.SortInPlace(patterns, PatternLe);
    var matched;
    matched, unmatched := MatchPatterns(patterns[..], policyLower);
    var sortedMatches := ToArray(matched);
    StableSort.SortInPlace(sortedMatches, MatchLe);
    ms := sortedMatches[..];
  }

  /** Steps 2 and 3: a table sorted by priority, then searched for the first entry the text hits. */
  method ChooseStep(table: seq<Mapping>, policyLower: string) returns (c: Option<Choice>)
    ensures c == ChoiceOf(StableSort.SortSpec(table, MappingLe), policyLower)
  {
    var mapping := ToArray(table);
    StableSort.SortInPlace(mapping, MappingLe);
    c := SelectFirst(mapping[..], policyLower);
  }

  /** Step 4: the principles, as the function that states them gives them. */
  method PrinciplesStep(policyText: string) returns (principles: seq<string>)
    ensures principles == PrinciplesOf(policyText)
  {
    principles := ExtractPrinciples(policyText);
  }

  /**
    `preprocessPolicy(policyText)` over `reg`, with `timestamp` for the clock reading. The logic
    flow reads the name of the tool each match maps to without checking that it exists; when a
    match has no tool the call fails with the tool id of the first such match, in the order of the
    matches, otherwise it gives `Preprocessed`.
  */
  method PreprocessPolicy(reg: Registry, policyText: string, timestamp: string) returns (r: Result<Output, string>)
    ensures r.Success? <==> ToolsResolve(MatchedPatterns(reg, policyText), reg.tools)
    ensures r.Success? ==> r.value == Preprocessed(reg, policyText, timestamp)
    ensures r.Failure? ==> var ms := MatchedPatterns(reg, policyText);
      && FirstMissingTool(ms, reg.tools) < |ms|
      && r.error == ms[FirstMissingTool(ms, reg.tools)].toolId
  {
    var metadata := Metadata(reg.version, timestamp, PolicyHash(policyText));
    var policyLower := Normalize(policyText);

    // Step 1: pattern matching
    var ms, unmatched := MatchStep(reg, policyLower);
    assert ms == MatchedPatterns(reg, policyText);

    // Steps 2 and 3: role and risk level
    var role := ChooseStep(reg.roleOrder, policyLower);
    var risk := ChooseStep(reg.riskOrder, policyLower);

    // Step 4: principles
    var principles := PrinciplesStep(policyText);

    // Step 5: description
    var description := Describe(policyText, ms);

    // Steps 6 and 7: checklist, logic flow and failure lists
    var checklist := Checklist(ms, reg.tools);
    var missing := FirstMissingTool(ms, reg.tools);
    if missing < |ms| {
      return Failure(ms[missing].toolId);
    }
    r := Success(Output(metadata, ms, unmatched, RoleOf(role, reg.defaultRole), RiskOf(risk, reg.defaultLevel),
                        principles, description, checklist, LogicFlow(ms, reg),
                        CriticalFailures(ms, reg), ReviewTriggers(ms, reg)));
  }

  // ---------------------------------------------------------------------------------------------
  // Properties of the result

  /**
    Every registry pattern lands in exactly one of the two lists: together they hold each pattern
    id as often as the registry does.
  */
  lemma RegistryPartitioned(reg: Registry, policyText: string)
    ensures |MatchedPatterns(reg, policyText)| + |UnmatchedPatterns(reg, policyText)| == |reg.patterns|
    ensures multiset(StableSort.Map(MatchedPatterns(reg, policyText), MatchId))
          + multiset(StableSort.Map(UnmatchedPatterns(reg, policyText), UnmatchedId))
         == multiset(StableSort.Map(reg.patterns, PatternId))
  {
    var text := Normalize(policyText);
    PatternLeTotalPreorder();
    MatchLeTotalPreorder();
    var ps := StableSort.SortSpec(reg.patterns, PatternLe);
    StableSort.SortSpecCorrect(reg.patterns, PatternLe);
    StableSort.SortSpecLength(reg.patterns, PatternLe);
    var ms := MatchedOf(ps, text);
    var sorted := StableSort.SortSpec(ms, MatchLe);
    StableSort.SortSpecCorrect(ms, MatchLe);
    StableSort.SortSpecLength(ms, MatchLe);
    MatchPartition(ps, text);
    StableSort.MapPermutation(sorted, ms, MatchId);
    StableSort.MapPermutation(ps, reg.patterns, PatternId);
  }

  /**
    The matched list holds exactly the records of the registry patterns that match: a record is in
    it when, and only when, some pattern of the registry gives that record.
  */
  lemma MatchedFromRegistry(reg: Registry, policyText: string)
    ensures forall m :: m in MatchedPatterns(reg, policyText) <==>
      exists p :: p in reg.patterns && MatchOf(p, Normalize(policyText)) == Some(m)
  {
    var text := Normalize(policyText);
    PatternLeTotalPreorder();
    MatchLeTotalPreorder();
    var ps := StableSort.SortSpec(reg.patterns, PatternLe);
    StableSort.SortSpecCorrect(reg.patterns, PatternLe);
    var ms := MatchedOf(ps, text);
    StableSort.SortSpecCorrect(ms, MatchLe);
    var sorted := StableSort.SortSpec(ms, MatchLe);
    forall m | m in sorted
      ensures exists p :: p in reg.patterns && MatchOf(p, text) == Some(m)
    {
      assert m in multiset(ms);
      var k :| 0 <= k < |ms| && ms[k] == m;
      MatchedFrom(ps, text, k);
      var i :| 0 <= i < |ps| && MatchOf(ps[i], text) == Some(m);
      assert ps[i] in multiset(reg.patterns);
    }
    forall p | p in reg.patterns && MatchOf(p, text).Some?
      ensures MatchOf(p, text).value in sorted
    {
      assert p in multiset(ps);
      var i :| 0 <= i < |ps| && ps[i] == p;
      MatchPlacement(ps, text, i);
      assert MatchOf(p, text).value in multiset(sorted);
    }
  }

  /**
    The matched list is in canonical order (prerequisites first, then ascending priority, then
    ascending position), and the unmatched list is in ascending pattern-id order.
  */
  lemma ListsOrdered(reg: Registry, policyText: string)
    ensures var s := MatchedPatterns(reg, policyText);
      && (forall a, b :: 0 <= a < b < |s| && s[b].isPrerequisite ==> s[a].isPrerequisite)
      && (forall a, b :: 0 <= a < b < |s| && s[a].isPrerequisite == s[b].isPrerequisite ==>
            s[a].priority <= s[b].priority)
      && (forall a, b :: (0 <= a < b < |s| && s[a].isPrerequisite == s[b].isPrerequisite
            && s[a].priority == s[b].priority) ==> s[a].matchPosition <= s[b].matchPosition)
    ensures var u := UnmatchedPatterns(reg, policyText);
      forall a, b :: 0 <= a < b < |u| ==> IdLe(u[a].patternId, u[b].patternId)
  {
    var text := Normalize(policyText);
    PatternLeTotalPreorder();
    var ps := StableSort.SortSpec(reg.patterns, PatternLe);
    StableSort.SortSpecCorrect(reg.patterns, PatternLe);
    MatchOrder(MatchedOf(ps, text));
    UnmatchedInIdOrder(ps, text);
  }

  /**
    The role is the registry default, through "default" and with priority 999, exactly when no
    entry of the role table is hit; otherwise it is the role of an entry that is hit and has the
    lowest priority of all entries hit, through the first of its keywords the text mentions.
  */
  lemma RoleSelected(reg: Registry, policyText: string)
    ensures var text := Normalize(policyText);
      var r := SelectedRoleOf(reg, policyText);
      && ((forall e :: 0 <= e < |reg.roleOrder| ==> !Hit(reg.roleOrder[e], text)) ==>
            r == SelectedRole(reg.defaultRole, "default", 999))
      && ((exists e :: 0 <= e < |reg.roleOrder| && Hit(reg.roleOrder[e], text)) ==>
            exists m :: && m in reg.roleOrder && Hit(m, text)
                        && r == SelectedRole(m.choice, m.keywords[FirstMentioned(m.keywords, text)], m.priority)
                        && forall e :: 0 <= e < |reg.roleOrder| && Hit(reg.roleOrder[e], text) ==>
                             m.priority <= reg.roleOrder[e].priority)
  {
    var text := Normalize(policyText);
    LowestPriorityWins(reg.roleOrder, text);
  }

  /**
    The risk level is the registry default, through "default", exactly when no entry of the risk
    table is hit; otherwise it is the level of an entry that is hit and has the lowest priority of
    all entries hit, through the first of its keywords the text mentions.
  */
  lemma RiskSelected(reg: Registry, policyText: string)
    ensures var text := Normalize(policyText);
      var r := SelectedRiskOf(reg, policyText);
      && ((forall e :: 0 <= e < |reg.riskOrder| ==> !Hit(reg.riskOrder[e], text)) ==>
            r == SelectedRisk(reg.defaultLevel, "default"))
      && ((exists e :: 0 <= e < |reg.riskOrder| && Hit(reg.riskOrder[e], text)) ==>
            exists m :: && m in reg.riskOrder && Hit(m, text)
                        && r == SelectedRisk(m.choice, m.keywords[FirstMentioned(m.keywords, text)])
                        && forall e :: 0 <= e < |reg.riskOrder| && Hit(reg.riskOrder[e], text) ==>
                             m.priority <= reg.riskOrder[e].priority)
  {
    var text := Normalize(policyText);
    LowestPriorityWins(reg.riskOrder, text);
  }

  /**
    Exactly three principles: first the sentences picked for the cue terms, each a trimmed sentence
    of the policy longer than 10 characters that occurs at its recorded position and mentions a cue
    term, no two at the same position; then the defaults of the places left, by place.
  */
  lemma PrinciplesChosen(policyText: string)
    ensures var ss := Sentences(policyText);
      var p := Pick(ChoiceIn(CueMention, IndexSpec(policyText, ss, 0)), CueTerms, 0, [], {});
      var r := PrinciplesOf(policyText);
      && |p| <= 3 && |r| == 3
      && (forall k :: 0 <= k < |p| ==>
            && r[k] == p[k].text
            && |p[k].text| > 10
            && (exists j :: 0 <= j < |ss| && p[k].text == Trim(ss[j]))
            && OccursAt(policyText, p[k].text, p[k].position)
            && MentionsAny(CueMention, p[k], CueTerms))
      && DistinctPositions(p)
      && forall k :: |p| <= k < 3 ==> r[k] == Defaults[k]
  {
    SpecDrawn(policyText);
    PrinciplesChosenFrom(policyText, IndexSpec(policyText, Sentences(policyText), 0));
  }

  /**
    The same holds of the principles as the code is written: the indexing as written may lose
    sentences, but what it picks are sentences of the policy, and the defaults fill the rest.
  */
  lemma PrinciplesAsWrittenChosen(policyText: string)
    ensures var ss := Sentences(policyText);
      var p := Pick(ChoiceIn(CueMention, IndexAsWritten(policyText, ss, 0)), CueTerms, 0, [], {});
      var r := PrinciplesAsWritten(policyText);
      && |p| <= 3 && |r| == 3
      && (forall k :: 0 <= k < |p| ==>
            && r[k] == p[k].text
            && |p[k].text| > 10
            && (exists j :: 0 <= j < |ss| && p[k].text == Trim(ss[j]))
            && OccursAt(policyText, p[k].text, p[k].position)
            && MentionsAny(CueMention, p[k], CueTerms))
      && DistinctPositions(p)
      && forall k :: |p| <= k < 3 ==> r[k] == Defaults[k]
  {
    AsWrittenDrawn(policyText, Sentences(policyText), 0);
    PrinciplesChosenFrom(policyText, IndexAsWritten(policyText, Sentences(policyText), 0));
  }

  /** The principles picked from any indexing drawn from the sentences of the policy. */
  lemma PrinciplesChosenFrom(policyText: string, ix: seq<Indexed>)
    requires Drawn(policyText, Sentences(policyText), ix)
    ensures var ss := Sentences(policyText);
      var p := Pick(ChoiceIn(CueMention, ix), CueTerms, 0, [], {});
      var r := PrinciplesFrom(ix);
      && |p| <= 3
      && (forall k :: 0 <= k < |p| ==>
            && r[k] == p[k].text
            && |p[k].text| > 10
            && (exists j :: 0 <= j < |ss| && p[k].text == Trim(ss[j]))
            && OccursAt(policyText, p[k].text, p[k].position)
            && MentionsAny(CueMention, p[k], CueTerms))
      && DistinctPositions(p)
      && forall k :: |p| <= k < 3 ==> r[k] == Defaults[k]
  {
    var ss := Sentences(policyText);
    var p := Pick(ChoiceIn(CueMention, ix), CueTerms, 0, [], {});
    SentencesLong(policyText);
    ChoiceChooses(CueMention, ix);
    PickExtends(ChoiceIn(CueMention, ix), ix, CueMention, CueTerms, 0, [], {});
    PicksFromDrawn(policyText, ss, ix, CueTerms);
    PickedSentences(policyText, ss, ix, p, PrinciplesFrom(ix));
  }

  /**
    Principles built from picks `p` out of the located sentences `ix` of `ss`: the picks' texts,
    each a long trimmed sentence occurring at its position, then the defaults.
  */
  lemma PickedSentences(text: string, ss: seq<string>, ix: seq<Indexed>, p: seq<Indexed>, r: seq<string>)
    requires Drawn(text, ss, ix)
    requires forall k :: 0 <= k < |ss| ==> |Trim(ss[k])| > 10
    requires |p| <= 3 && forall k :: 0 <= k < |p| ==> p[k] in ix
    requires r == seq(3, k requires 0 <= k < 3 => if k < |p| then p[k].text else Defaults[k])
    ensures forall k :: 0 <= k < |p| ==>
      && r[k] == p[k].text
      && |p[k].text| > 10
      && (exists j :: 0 <= j < |ss| && p[k].text == Trim(ss[j]))
      && OccursAt(text, p[k].text, p[k].position)
    ensures forall k :: |p| <= k < 3 ==> r[k] == Defaults[k]
  {
    forall k | 0 <= k < |p|
      ensures |p[k].text| > 10 && (exists j :: 0 <= j < |ss| && p[k].text == Trim(ss[j]))
      ensures OccursAt(text, p[k].text, p[k].position)
    {
      assert p[k] in ix;
      var j :| 0 <= j < |ss| && p[k].text == Trim(ss[j]);
      assert |Trim(ss[j])| > 10;
    }
  }
}

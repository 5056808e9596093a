/**
  Steps 6 and 7 of the preprocessor: the checklist, the numbered logic flow and the two label lists,
  each computed position by position from the sorted matched list and the registry.
*/
module Assembly {
  import opened Wrappers
  import opened Text
  import opened PatternRegistry
  import opened Matcher
  import opened Description

  // ---------------------------------------------------------------------------------------------
  // The checklist

  /** An entry of `checklist`. */
  datatype ChecklistItem = ChecklistItem(dataPoint: string, source: string, tool: string)

  /** The name of the tool with id `id`, or "unknown" when the registry defines no such tool. */
  function ToolName(tools: seq<Tool>, id: string): string {
    match FindTool(tools, id)
    case None => "unknown"
    case Some(t) => t.name
  }

  /**
    One item per match, in the same order: the category as a heading, the source type, and the
    name of the first tool whose id is the match's tool id, or "unknown" when there is none.
  */
  function Checklist(ms: seq<Match>, tools: seq<Tool>): (r: seq<ChecklistItem>)
    ensures |r| == |ms|
    ensures forall k :: 0 <= k < |ms| ==>
      && r[k].dataPoint == TitleCase(ms[k].category)
      && r[k].source == ms[k].sourceType
    ensures forall k :: 0 <= k < |ms| ==>
      (r[k].tool == "unknown" && forall i :: 0 <= i < |tools| ==> tools[i].id != ms[k].toolId)
      || exists i :: 0 <= i < |tools| && tools[i].id == ms[k].toolId && r[k].tool == tools[i].name
                     && forall e :: 0 <= e < i ==> tools[e].id != ms[k].toolId
  {
    var r := seq(|ms|, k requires 0 <= k < |ms| =>
      ChecklistItem(TitleCase(ms[k].category), ms[k].sourceType, ToolName(tools, ms[k].toolId)));
    forall k | 0 <= k < |ms|
      ensures (r[k].tool == "unknown" && forall i :: 0 <= i < |tools| ==> tools[i].id != ms[k].toolId)
        || exists i :: 0 <= i < |tools| && tools[i].id == ms[k].toolId && r[k].tool == tools[i].name
                       && forall e :: 0 <= e < i ==> tools[e].id != ms[k].toolId
    {
      FindToolFirst(tools, ms[k].toolId);
    }
    r
  }

  /** The tool found is the first one in the registry with that id. */
  lemma {:induction false} FindToolFirst(tools: seq<Tool>, id: string)
    ensures FindTool(tools, id).Some? ==>
      exists i :: 0 <= i < |tools| && tools[i] == FindTool(tools, id).value
                  && forall e :: 0 <= e < i ==> tools[e].id != id
    decreases |tools|
  {
    if tools != [] && tools[0].id != id {
      FindToolFirst(tools[1..], id);
      if FindTool(tools, id).Some? {
        var i :| 0 <= i < |tools[1..]| && tools[1..][i] == FindTool(tools[1..], id).value
                 && forall e :: 0 <= e < i ==> tools[1..][e].id != id;
        assert tools[i + 1] == FindTool(tools, id).value;
        assert forall e :: 0 <= e < i + 1 ==> tools[e].id != id by {
          forall e | 0 <= e < i + 1 ensures tools[e].id != id {
            if e > 0 {
              assert tools[e] == tools[1..][e - 1];
            }
          }
        }
      }
    } else if tools != [] {
      assert tools[0] == FindTool(tools, id).value;
    }
  }

  // ---------------------------------------------------------------------------------------------
  // The logic flow

  /**
    The label a failed check is flagged with: critical patterns first, then patterns that call
    for review, then every other pattern. Each label names its case, and its case alone.
  */
  function FailAction(m: Match, critical: seq<string>, review: seq<string>): (r: string)
    ensures r == "CRITICAL_FAIL_" + m.category <==> m.patternId in critical
    ensures r == "REVIEW_" + m.category <==> m.patternId !in critical && m.patternId in review
    ensures r == "FAIL_" + m.category <==> m.patternId !in critical && m.patternId !in review
  {
    var c, v, f := "CRITICAL_FAIL_" + m.category, "REVIEW_" + m.category, "FAIL_" + m.category;
    assert c[0] == 'C' && v[0] == 'R' && f[0] == 'F';
    if m.patternId in critical then c
    else if m.patternId in review then v
    else f
  }

  /** Every match's tool id names a tool of the registry. */
  predicate ToolsResolve(ms: seq<Match>, tools: seq<Tool>) {
    forall k :: 0 <= k < |ms| ==> FindTool(tools, ms[k].toolId).Some?
  }

  /** The step of the logic flow numbered `n` that calls `tool` and flags `action` on failure. */
  function CallLine(n: nat, tool: Tool, action: string): string {
    NatToString(n) + CallText(tool, action)
  }

  /** What follows the number of a call step. */
  function CallText(tool: Tool, action: string): (r: string)
    ensures r != [] && r[0] == '.'
  {
    var r := ". CALL `" + tool.name + "(" + Join(tool.params, ", ") + ")` → IF valid, PROCEED. ELSE, FLAG as "
      + action + ".";
    assert r[0] == ". CALL `"[0];
    r
  }

  /** What follows the number of the aggregate step. */
  const AggregateText: string := "." + " AGGREGATE all results → Proceed to Phase 3."

  /** The closing step of the logic flow, numbered `n`. */
  function AggregateLine(n: nat): string {
    NatToString(n) + AggregateText
  }

  /**
    One call step per match, in the order of the matches and numbered from 1, then the aggregate
    step numbered one past the last call. The modelled code dereferences the tool it finds without
    a check, so every tool id has to resolve.
  */
  function LogicFlow(ms: seq<Match>, reg: Registry): (r: seq<string>)
    requires ToolsResolve(ms, reg.tools)
    ensures |r| == |ms| + 1
    ensures forall k :: 0 <= k < |ms| ==>
      r[k] == CallLine(k + 1, FindTool(reg.tools, ms[k].toolId).value,
                       FailAction(ms[k], reg.criticalPatterns, reg.reviewPatterns))
    ensures r[|ms|] == AggregateLine(|ms| + 1)
  {
    seq(|ms|, k requires 0 <= k < |ms| =>
      CallLine(k + 1, FindTool(reg.tools, ms[k].toolId).value,
               FailAction(ms[k], reg.criticalPatterns, reg.reviewPatterns)))
    + [AggregateLine(|ms| + 1)]
  }

  /** The logic flow is numbered 1, 2, ... in order, its last step being the aggregate one. */
  lemma LogicFlowNumbered(ms: seq<Match>, reg: Registry)
    requires ToolsResolve(ms, reg.tools)
    ensures var r := LogicFlow(ms, reg);
      && (forall k :: 0 <= k < |r| ==> StepNumber(r[k]) == k + 1)
      && r[|r| - 1] == AggregateLine(|r|)
  {
    var r := LogicFlow(ms, reg);
    forall k | 0 <= k < |r|
      ensures StepNumber(r[k]) == k + 1
    {
      StepAt(ms, reg, k);
    }
  }

  lemma StepAt(ms: seq<Match>, reg: Registry, k: nat)
    requires ToolsResolve(ms, reg.tools) && k <= |ms|
    ensures StepNumber(LogicFlow(ms, reg)[k]) == k + 1
  {
    if k < |ms| {
      var tool := FindTool(reg.tools, ms[k].toolId).value;
      var action := FailAction(ms[k], reg.criticalPatterns, reg.reviewPatterns);
      assert LogicFlow(ms, reg)[k] == NatToString(k + 1) + CallText(tool, action);
      NumberedLine(k + 1, CallText(tool, action));
    } else {
      assert AggregateText[0] == "."[0];
      NumberedLine(k + 1, AggregateText);
    }
  }

  // ---------------------------------------------------------------------------------------------
  // The failure lists

  /** The matches whose pattern id is in `ids`, kept in order, each as `prefix` + its category. */
  function Labels(ms: seq<Match>, ids: seq<string>, prefix: string): (r: seq<string>)
    ensures |r| <= |ms|
    ensures forall x :: x in r ==> exists k :: 0 <= k < |ms| && ms[k].patternId in ids && x == prefix + ms[k].category
    decreases |ms|
  {
    if ms == [] then []
    else
      var r := Labels(ms[..|ms| - 1], ids, prefix);
      var m := ms[|ms| - 1];
      r + (if m.patternId in ids then [prefix + m.category] else [])
  }

  /** Every match whose pattern id is in `ids` has its label in the list. */
  lemma {:induction false} LabelsComplete(ms: seq<Match>, ids: seq<string>, prefix: string)
    ensures forall k :: 0 <= k < |ms| && ms[k].patternId in ids ==> prefix + ms[k].category in Labels(ms, ids, prefix)
    decreases |ms|
  {
    if ms != [] {
      var init := ms[..|ms| - 1];
      LabelsComplete(init, ids, prefix);
      forall k | 0 <= k < |ms| - 1 && ms[k].patternId in ids
        ensures prefix + ms[k].category in Labels(ms, ids, prefix)
      {
        assert init[k] == ms[k];
      }
    }
  }

  /**
    `idx` lists, in increasing order, exactly the positions of `ms` whose pattern id is in `ids`.
  */
  ghost predicate SelectsExactly(ms: seq<Match>, ids: seq<string>, idx: seq<nat>) {
    && (forall j :: 0 <= j < |idx| ==> idx[j] < |ms| && ms[idx[j]].patternId in ids)
    && (forall a, b :: 0 <= a < b < |idx| ==> idx[a] < idx[b])
    && (forall k :: 0 <= k < |ms| && ms[k].patternId in ids ==> k in idx)
  }

  /**
    The label lists are order-preserving filters of the matches: label j is the label of the j-th
    match, counted in order, whose pattern id is in `ids`, and no such match is skipped.
  */
  lemma LabelsFilter(ms: seq<Match>, ids: seq<string>, prefix: string)
    ensures exists idx ::
              && SelectsExactly(ms, ids, idx)
              && |idx| == |Labels(ms, ids, prefix)|
              && forall j :: 0 <= j < |idx| ==> Labels(ms, ids, prefix)[j] == prefix + ms[idx[j]].category
  {
    var idx := LabelPositions(ms, ids, prefix);
    assert SelectsExactly(ms, ids, idx);
  }

  /** The positions `Labels` takes its labels from, built alongside it. */
  lemma {:induction false} LabelPositions(ms: seq<Match>, ids: seq<string>, prefix: string) returns (idx: seq<nat>)
    ensures SelectsExactly(ms, ids, idx)
    ensures |idx| == |Labels(ms, ids, prefix)|
    ensures forall j :: 0 <= j < |idx| ==> Labels(ms, ids, prefix)[j] == prefix + ms[idx[j]].category
    decreases |ms|
  {
    if ms == [] {
      idx := [];
    } else {
      var init, m := ms[..|ms| - 1], ms[|ms| - 1];
      var front := LabelPositions(init, ids, prefix);
      var r := Labels(init, ids, prefix);
      assert Labels(ms, ids, prefix) == r + (if m.patternId in ids then [prefix + m.category] else []);
      idx := front + (if m.patternId in ids then [|ms| - 1] else []);
      forall j | 0 <= j < |front|
        ensures front[j] < |init| && init[front[j]] == ms[front[j]]
      {
      }
      forall k | 0 <= k < |ms| && ms[k].patternId in ids
        ensures k in idx
      {
        if k < |init| {
          assert init[k] == ms[k];
          assert k in front;
        }
      }
    }
  }

  /** `critical_failures`. */
  function CriticalFailures(ms: seq<Match>, reg: Registry): seq<string> {
    Labels(ms, reg.criticalPatterns, "CRITICAL_FAIL_")
  }

  /** `review_triggers`. */
  function ReviewTriggers(ms: seq<Match>, reg: Registry): seq<string> {
    Labels(ms, reg.reviewPatterns, "REVIEW_")
  }

  /**
    The failure lists agree with the labels of the logic flow: a check flagged critical has its
    label among the critical failures, one flagged for review among the review triggers, and a
    pattern named by both rules appears in both lists although its check is flagged critical.
  */
  lemma FailureListsAgree(ms: seq<Match>, reg: Registry)
    ensures forall k :: 0 <= k < |ms| ==>
      var action := FailAction(ms[k], reg.criticalPatterns, reg.reviewPatterns);
      && (action == "CRITICAL_FAIL_" + ms[k].category ==> action in CriticalFailures(ms, reg))
      && (action == "REVIEW_" + ms[k].category ==> action in ReviewTriggers(ms, reg))
    ensures forall k :: 0 <= k < |ms| && ms[k].patternId in reg.criticalPatterns && ms[k].patternId in reg.reviewPatterns ==>
      && "CRITICAL_FAIL_" + ms[k].category in CriticalFailures(ms, reg)
      && "REVIEW_" + ms[k].category in ReviewTriggers(ms, reg)
  {
    LabelsComplete(ms, reg.criticalPatterns, "CRITICAL_FAIL_");
    LabelsComplete(ms, reg.reviewPatterns, "REVIEW_");
  }
}

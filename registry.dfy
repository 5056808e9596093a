/**
  The pattern registry the preprocessor reads (`pattern-registry-kr.json`): pattern definitions,
  the role and risk-level tables, tool definitions and the decision rules. The file itself is not
  part of this model; the preprocessor takes a registry value as a parameter.
*/
module PatternRegistry {
  import opened Wrappers

  /** One entry of `pattern_definitions`; an absent `is_prerequisite` reads as `false`. */
  datatype Pattern = Pattern(
    id: string,
    category: string,
    keywords: seq<string>,
    priority: int,
    criticality: string,
    toolId: string,
    sourceType: string,
    isPrerequisite: bool)

  /** One entry of `role_mapping.priority_order` or of `risk_level_mapping.priority_order`. */
  datatype Mapping = Mapping(priority: int, keywords: seq<string>, choice: string)

  /** One entry of `tool_definitions`. */
  datatype Tool = Tool(id: string, name: string, params: seq<string>)

  datatype Registry = Registry(
    version: string,
    patterns: seq<Pattern>,
    roleOrder: seq<Mapping>,
    defaultRole: string,
    riskOrder: seq<Mapping>,
    defaultLevel: string,
    tools: seq<Tool>,
    criticalPatterns: seq<string>,
    reviewPatterns: seq<string>)

  /** `tool_definitions.find(t => t.id === id)`: the first tool with that id, if any. */
  function FindTool(tools: seq<Tool>, id: string): (r: Option<Tool>)
    ensures r.None? <==> forall i :: 0 <= i < |tools| ==> tools[i].id != id
    ensures r.Some? ==> r.value.id == id && r.value in tools
    decreases |tools|
  {
    if tools == [] then None
    else if tools[0].id == id then Some(tools[0])
    else FindTool(tools[1..], id)
  }
}

/**
  Steps 2 and 3 of the preprocessor: the role and the risk level. Each table is sorted by
  priority, and the first entry (in that order) with a keyword the normalised text mentions wins,
  through the first of its keywords that is mentioned; with no such entry the registry's default
  is kept.
*/
module Classifier {
  import opened Wrappers
  import opened Text
  import opened PatternRegistry
  import StableSort

  /** The comparator of both tables: lower priority first. */
  predicate MappingLe(a: Mapping, b: Mapping) {
    a.priority <= b.priority
  }

  lemma MappingLeTotalPreorder()
    ensures StableSort.TotalPreorder(MappingLe)
  {
  }

  /** `text.includes(keyword.toLowerCase())`. */
  predicate Mentions(text: string, keyword: string) {
    Contains(text, ToLower(keyword))
  }

  /** The index of the first keyword that `text` mentions, or `|keywords|` when it mentions none. */
  function FirstMentioned(keywords: seq<string>, text: string): (j: nat)
    ensures j <= |keywords|
    ensures j < |keywords| ==> Mentions(text, keywords[j])
    ensures forall i :: 0 <= i < j ==> !Mentions(text, keywords[i])
    decreases |keywords|
  {
    if keywords == [] then 0
    else if Mentions(text, keywords[0]) then 0
    else 1 + FirstMentioned(keywords[1..], text)
  }

  /** `text` mentions one of the entry's keywords. */
  predicate Hit(m: Mapping, text: string) {
    FirstMentioned(m.keywords, text) < |m.keywords|
  }

  /** The index of the first entry of `table` that `text` hits, or `|table|` when it hits none. */
  function FirstEntry(table: seq<Mapping>, text: string): (j: nat)
    ensures j <= |table|
    ensures j < |table| ==> Hit(table[j], text)
    ensures forall i :: 0 <= i < j ==> !Hit(table[i], text)
    decreases |table|
  {
    if table == [] then 0
    else if Hit(table[0], text) then 0
    else 1 + FirstEntry(table[1..], text)
  }

  /** The entry chosen and the keyword it was chosen through. */
  datatype Choice = Choice(entry: Mapping, keyword: string)

  /** The outcome of the search over `table` taken in the order given. */
  function ChoiceOf(table: seq<Mapping>, text: string): Option<Choice> {
    var j := FirstEntry(table, text);
    if j == |table| then None
    else Some(Choice(table[j], table[j].keywords[FirstMentioned(table[j].keywords, text)]))
  }

  /** The search with a labelled `break` over the sorted table. */
  method SelectFirst(table: seq<Mapping>, text: string) returns (r: Option<Choice>)
    ensures r == ChoiceOf(table, text)
  {
    var i := 0;
    while i < |table|
      invariant 0 <= i <= |table|
      invariant forall e :: 0 <= e < i ==> !Hit(table[e], text)
    {
      var keywords := table[i].keywords;
      var k := 0;
      while k < |keywords|
        invariant 0 <= k <= |keywords|
        invariant forall j :: 0 <= j < k ==> !Mentions(text, keywords[j])
      {
        if Contains(text, ToLower(keywords[k])) {
          assert FirstMentioned(keywords, text) == k;
          assert FirstEntry(table, text) == i;
          return Some(Choice(table[i], keywords[k]));
        }
        k := k + 1;
      }
      i := i + 1;
    }
    return None;
  }

  /**
    The choice made over the table sorted by priority: there is none exactly when no entry of the
    table is hit; otherwise the entry comes from the table, is hit through the first of its own
    keywords that the text mentions, and no entry that is hit has a lower priority.
  */
  lemma LowestPriorityWins(table: seq<Mapping>, text: string)
    ensures var c := ChoiceOf(StableSort.SortSpec(table, MappingLe), text);
      && (c.None? <==> forall e :: 0 <= e < |table| ==> !Hit(table[e], text))
      && (c.Some? ==>
            && c.value.entry in table
            && c.value.keyword == c.value.entry.keywords[FirstMentioned(c.value.entry.keywords, text)]
            && Mentions(text, c.value.keyword)
            && forall e :: 0 <= e < |table| && Hit(table[e], text) ==>
                 c.value.entry.priority <= table[e].priority)
  {
    MappingLeTotalPreorder();
    StableSort.SortSpecCorrect(table, MappingLe);
    var s := StableSort.SortSpec(table, MappingLe);
    var j := FirstEntry(s, text);
    forall e | 0 <= e < |table| && Hit(table[e], text)
      ensures j < |s| && s[j].priority <= table[e].priority
    {
      assert table[e] in multiset(s);
      var q :| 0 <= q < |s| && s[q] == table[e];
      assert j <= q;
      assert j == q || MappingLe(s[j], s[q]);
    }
    if j < |s| {
      assert s[j] in multiset(table);
    }
  }

  /** `selected_role`. */
  datatype SelectedRole = SelectedRole(role: string, matchedVia: string, priority: int)

  /** `selected_risk_level`. */
  datatype SelectedRisk = SelectedRisk(level: string, matchedVia: string)

  /** The role: the chosen entry's, or the default one with `matched_via` "default" and priority 999. */
  function RoleOf(c: Option<Choice>, defaultRole: string): SelectedRole {
    match c
    case None => SelectedRole(defaultRole, "default", 999)
    case Some(ch) => SelectedRole(ch.entry.choice, ch.keyword, ch.entry.priority)
  }

  /** The risk level: the chosen entry's, or the default one with `matched_via` "default". */
  function RiskOf(c: Option<Choice>, defaultLevel: string): SelectedRisk {
    match c
    case None => SelectedRisk(defaultLevel, "default")
    case Some(ch) => SelectedRisk(ch.entry.choice, ch.keyword)
  }
}

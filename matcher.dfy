/**
  Step 1 of the preprocessor: every registry pattern is looked up in the normalised policy text,
  in pattern-id order, and lands either in the matched list (with the first keyword that was found
  and where) or in the unmatched list. The matched list is then ordered by precedence.
*/
module Matcher {
  import opened Wrappers
  import opened Text
  import opened PatternRegistry
  import StableSort

  /** `policyText.toLowerCase().replace(/\s+/g, ' ')`: the text every keyword is looked up in. */
  function Normalize(text: string): string {
    CollapseSpaces(ToLower(text))
  }

  // ---------------------------------------------------------------------------------------------
  // Keywords

  /**
    The lower-cased keyword `kw` matches at the start of `s`, where each `*` stands for `\d+`
    (one or more ASCII digits) and every other character stands for itself.
  */
  predicate MatchesPrefix(kw: string, s: string)
    decreases |kw|, |s|, 1
  {
    if kw == [] then true
    else if kw[0] == '*' then DigitsThen(kw[1..], s)
    else s != [] && s[0] == kw[0] && MatchesPrefix(kw[1..], s[1..])
  }

  /** `s` starts with one or more digits after some number of which `rest` matches. */
  predicate DigitsThen(rest: string, s: string)
    decreases |rest| + 1, |s|, 0
  {
    s != [] && IsDigit(s[0]) && (MatchesPrefix(rest, s[1..]) || DigitsThen(rest, s[1..]))
  }

  /** The leftmost offset at or after `from` where `kw` matches: the `index` of a regular-expression match. */
  function SearchFrom(kw: string, s: string, from: nat): (r: int)
    ensures r == -1 || (from <= r <= |s| && MatchesPrefix(kw, s[r..]))
    ensures forall i :: from <= i <= |s| && (r == -1 || i < r) ==> !MatchesPrefix(kw, s[i..])
    decreases |s| + 1 - from
  {
    if from > |s| then -1
    else if MatchesPrefix(kw, s[from..]) then from
    else SearchFrom(kw, s, from + 1)
  }

  /**
    Where keyword `k` is found in the normalised text `text`, or -1: a keyword holding `*` is
    searched as a regular expression, any other one with `indexOf`.
  */
  function KeywordPosition(k: string, text: string): int {
    var kw := ToLower(k);
    if '*' in kw then SearchFrom(kw, text, 0) else IndexOf(text, kw, 0)
  }

  /** Keyword `k` is found at offset `i` of `text`. */
  ghost predicate KeywordAt(k: string, text: string, i: nat) {
    i <= |text| && MatchesPrefix(ToLower(k), text[i..])
  }

  /** Without a `*`, matching at the start is plain prefix equality. */
  lemma {:induction false} LiteralMatch(kw: string, s: string)
    requires '*' !in kw
    ensures MatchesPrefix(kw, s) <==> |kw| <= |s| && s[..|kw|] == kw
    decreases |kw|
  {
    if kw != [] && s != [] {
      LiteralMatch(kw[1..], s[1..]);
      if |kw| <= |s| {
        assert s[..|kw|] == [s[0]] + s[1..][..|kw| - 1];
      }
    }
  }

  /**
    Whichever of the two searches is used, the position reported is the leftmost offset where the
    keyword is found, and -1 means it is found nowhere.
  */
  lemma KeywordPositionLeftmost(k: string, text: string)
    ensures var r := KeywordPosition(k, text);
      && (r == -1 || (0 <= r && KeywordAt(k, text, r)))
      && forall i: nat :: (r == -1 || i < r) ==> !KeywordAt(k, text, i)
  {
    var kw := ToLower(k);
    var r := KeywordPosition(k, text);
    if '*' !in kw {
      if r != -1 {
        LiteralMatch(kw, text[r..]);
        assert text[r..][..|kw|] == text[r..r + |kw|];
      }
      forall i: nat | r == -1 || i < r
        ensures !KeywordAt(k, text, i)
      {
        if i <= |text| {
          LiteralMatch(kw, text[i..]);
          assert !OccursAt(text, kw, i);
          if |kw| <= |text[i..]| {
            assert text[i..][..|kw|] == text[i..i + |kw|];
          }
        }
      }
    }
  }

  /** The index of the first keyword found in `text`, or `|keywords|` when none is. */
  function FirstHitIndex(keywords: seq<string>, text: string): (j: nat)
    ensures j <= |keywords|
    ensures j < |keywords| ==> KeywordPosition(keywords[j], text) >= 0
    ensures forall i :: 0 <= i < j ==> KeywordPosition(keywords[i], text) < 0
    decreases |keywords|
  {
    if keywords == [] then 0
    else if KeywordPosition(keywords[0], text) >= 0 then 0
    else 1 + FirstHitIndex(keywords[1..], text)
  }

  // ---------------------------------------------------------------------------------------------
  // Matched and unmatched patterns

  /** An entry of `matched_patterns`. */
  datatype Match = Match(
    patternId: string,
    category: string,
    priority: int,
    criticality: string,
    toolId: string,
    matchedKeyword: string,
    matchPosition: nat,
    sourceType: string,
    isPrerequisite: bool)

  /** An entry of `unmatched_patterns`. */
  datatype Unmatched = Unmatched(patternId: string, category: string)

  /** The record of pattern `p` when one of its keywords is found in `text`. */
  function MatchOf(p: Pattern, text: string): Option<Match> {
    var j := FirstHitIndex(p.keywords, text);
    if j == |p.keywords| then None
    else
      var pos := KeywordPosition(p.keywords[j], text);
      Some(Match(p.id, p.category, p.priority, p.criticality, p.toolId, p.keywords[j], pos,
                 p.sourceType, p.isPrerequisite))
  }

  /** The matched list built from `ps` in order. */
  function MatchedOf(ps: seq<Pattern>, text: string): seq<Match>
    decreases |ps|
  {
    if ps == [] then []
    else
      var m := MatchOf(ps[|ps| - 1], text);
      MatchedOf(ps[..|ps| - 1], text) + (if m.Some? then [m.value] else [])
  }

  /** The unmatched list built from `ps` in order. */
  function UnmatchedOf(ps: seq<Pattern>, text: string): seq<Unmatched>
    decreases |ps|
  {
    if ps == [] then []
    else
      var p := ps[|ps| - 1];
      UnmatchedOf(ps[..|ps| - 1], text)
        + (if MatchOf(p, text).None? then [Unmatched(p.id, p.category)] else [])
  }

  /**
    A pattern matches exactly when one of its keywords is found; its record then copies the
    pattern, names the first keyword in the pattern's own order that is found, and gives the
    leftmost offset where that keyword is found.
  */
  lemma MatchRecord(p: Pattern, text: string)
    ensures MatchOf(p, text).Some? <==>
      exists j :: 0 <= j < |p.keywords| && KeywordPosition(p.keywords[j], text) >= 0
    ensures MatchOf(p, text).Some? ==>
      var m := MatchOf(p, text).value;
      var j := FirstHitIndex(p.keywords, text);
      && m == Match(p.id, p.category, p.priority, p.criticality, p.toolId, p.keywords[j],
                    m.matchPosition, p.sourceType, p.isPrerequisite)
      && (forall i :: 0 <= i < j ==> KeywordPosition(p.keywords[i], text) == -1)
      && KeywordAt(p.keywords[j], text, m.matchPosition)
      && forall i: nat :: i < m.matchPosition ==> !KeywordAt(p.keywords[j], text, i)
  {
    var j := FirstHitIndex(p.keywords, text);
    if j < |p.keywords| {
      KeywordPositionLeftmost(p.keywords[j], text);
      forall i | 0 <= i < j
        ensures KeywordPosition(p.keywords[i], text) == -1
      {
        KeywordPositionLeftmost(p.keywords[i], text);
      }
    }
  }

  /** The keyword loop for one pattern: the first keyword found, in list order, gives the record. */
  method MatchPattern(p: Pattern, text: string) returns (m: Option<Match>)
    ensures m == MatchOf(p, text)
  {
    m := None;
    var k := 0;
    while k < |p.keywords|
      invariant 0 <= k <= |p.keywords|
      invariant forall j :: 0 <= j < k ==> KeywordPosition(p.keywords[j], text) < 0
    {
      var kw := ToLower(p.keywords[k]);
      var pos;
      if '*' in kw {
        pos := SearchFrom(kw, text, 0);
      } else {
        pos := IndexOf(text, kw, 0);
      }
      if pos != -1 {
        assert FirstHitIndex(p.keywords, text) == k;
        m := Some(Match(p.id, p.category, p.priority, p.criticality, p.toolId,
                        p.keywords[k], pos, p.sourceType, p.isPrerequisite));
        return;
      }
      k := k + 1;
    }
  }

  /** The matching pass of `preprocessPolicy`: each pattern, in the given order, is matched or left unmatched. */
  method MatchPatterns(patterns: seq<Pattern>, text: string)
    returns (matched: seq<Match>, unmatched: seq<Unmatched>)
    ensures matched == MatchedOf(patterns, text)
    ensures unmatched == UnmatchedOf(patterns, text)
  {
    matched, unmatched := [], [];
    var i := 0;
    while i < |patterns|
      invariant 0 <= i <= |patterns|
      invariant matched == MatchedOf(patterns[..i], text)
      invariant unmatched == UnmatchedOf(patterns[..i], text)
    {
      var p := patterns[i];
      var m := MatchPattern(p, text);
      assert patterns[..i + 1][..i] == patterns[..i];
      if m.Some? {
        matched := matched + [m.value];
      } else {
        unmatched := unmatched + [Unmatched(p.id, p.category)];
      }
      i := i + 1;
    }
    assert patterns[..i] == patterns;
  }

  function MatchId(m: Match): string { m.patternId }

  function UnmatchedId(u: Unmatched): string { u.patternId }

  function PatternId(p: Pattern): string { p.id }

  /**
    Every pattern lands in exactly one of the two lists: the ids of the two lists together are
    the ids of the registry, each as often as it occurs there.
  */
  lemma {:induction false} MatchPartition(ps: seq<Pattern>, text: string)
    ensures |MatchedOf(ps, text)| + |UnmatchedOf(ps, text)| == |ps|
    ensures multiset(StableSort.Map(MatchedOf(ps, text), MatchId))
          + multiset(StableSort.Map(UnmatchedOf(ps, text), UnmatchedId))
         == multiset(StableSort.Map(ps, PatternId))
    decreases |ps|
  {
    if ps != [] {
      var init, p := ps[..|ps| - 1], ps[|ps| - 1];
      MatchPartition(init, text);
      assert ps == init + [p];
      StableSort.MapSnoc(init, p, PatternId);
      var mo := MatchOf(p, text);
      if mo.Some? {
        assert mo.value.patternId == p.id;
        assert MatchedOf(ps, text) == MatchedOf(init, text) + [mo.value];
        assert UnmatchedOf(ps, text) == UnmatchedOf(init, text);
        StableSort.MapSnoc(MatchedOf(init, text), mo.value, MatchId);
      } else {
        var u := Unmatched(p.id, p.category);
        assert MatchedOf(ps, text) == MatchedOf(init, text);
        assert UnmatchedOf(ps, text) == UnmatchedOf(init, text) + [u];
        StableSort.MapSnoc(UnmatchedOf(init, text), u, UnmatchedId);
      }
    }
  }

  /** A pattern's own record is in the list its keywords decide. */
  lemma {:induction false} MatchPlacement(ps: seq<Pattern>, text: string, i: nat)
    requires i < |ps|
    ensures MatchOf(ps[i], text).Some? ==> MatchOf(ps[i], text).value in MatchedOf(ps, text)
    ensures MatchOf(ps[i], text).None? ==> Unmatched(ps[i].id, ps[i].category) in UnmatchedOf(ps, text)
    decreases |ps|
  {
    if i < |ps| - 1 {
      var init := ps[..|ps| - 1];
      MatchPlacement(init, text, i);
      assert ps[i] == init[i];
    }
  }

  /** Every unmatched record comes from one of the patterns. */
  lemma {:induction false} UnmatchedFrom(ps: seq<Pattern>, text: string, k: nat)
    requires k < |UnmatchedOf(ps, text)|
    ensures exists i :: 0 <= i < |ps| && ps[i].id == UnmatchedOf(ps, text)[k].patternId
    decreases |ps|
  {
    var init := ps[..|ps| - 1];
    if k < |UnmatchedOf(init, text)| {
      UnmatchedFrom(init, text, k);
      var i :| 0 <= i < |init| && init[i].id == UnmatchedOf(init, text)[k].patternId;
      assert ps[i] == init[i];
    }
  }

  /** Every matched record is the record of one of the patterns. */
  lemma {:induction false} MatchedFrom(ps: seq<Pattern>, text: string, k: nat)
    requires k < |MatchedOf(ps, text)|
    ensures exists i :: 0 <= i < |ps| && MatchOf(ps[i], text) == Some(MatchedOf(ps, text)[k])
    decreases |ps|
  {
    var init := ps[..|ps| - 1];
    if k < |MatchedOf(init, text)| {
      MatchedFrom(init, text, k);
      var i :| 0 <= i < |init| && MatchOf(init[i], text) == Some(MatchedOf(init, text)[k]);
      assert ps[i] == init[i];
    }
  }

  // ---------------------------------------------------------------------------------------------
  // Orders

  /**
    Code-point order on pattern ids, standing for `localeCompare` (see the README for where the
    two can differ): `IdLe(a, b)` when `a` does not come after `b`.
  */
  predicate IdLe(a: string, b: string)
    decreases |a|
  {
    a == [] || (b != [] && (a[0] < b[0] || (a[0] == b[0] && IdLe(a[1..], b[1..]))))
  }

  lemma {:induction false} IdLeTotal(a: string, b: string)
    ensures IdLe(a, b) || IdLe(b, a)
    decreases |a|
  {
    if a != [] && b != [] && a[0] == b[0] {
      IdLeTotal(a[1..], b[1..]);
    }
  }

  lemma {:induction false} IdLeTransitive(a: string, b: string, c: string)
    requires IdLe(a, b) && IdLe(b, c)
    ensures IdLe(a, c)
    decreases |a|
  {
    if a != [] && b != [] && c != [] && a[0] == b[0] == c[0] {
      IdLeTransitive(a[1..], b[1..], c[1..]);
    }
  }

  /** Ids that compare equal are equal: two patterns tie only when they share an id. */
  lemma {:induction false} IdLeAntisymmetric(a: string, b: string)
    requires IdLe(a, b) && IdLe(b, a)
    ensures a == b
    decreases |a|
  {
    if a != [] {
      IdLeAntisymmetric(a[1..], b[1..]);
      assert a == [a[0]] + a[1..] && b == [b[0]] + b[1..];
    }
  }

  /** The comparator of lines 30-32. */
  predicate PatternLe(p: Pattern, q: Pattern) {
    IdLe(p.id, q.id)
  }

  lemma PatternLeTotalPreorder()
    ensures StableSort.TotalPreorder(PatternLe)
  {
    forall p: Pattern, q: Pattern
      ensures PatternLe(p, q) || PatternLe(q, p)
    {
      IdLeTotal(p.id, q.id);
    }
    forall p: Pattern, q: Pattern, r: Pattern | PatternLe(p, q) && PatternLe(q, r)
      ensures PatternLe(p, r)
    {
      IdLeTransitive(p.id, q.id, r.id);
    }
  }

  /** Registry patterns sorted by id leave the unmatched list sorted by id too. */
  lemma {:induction false} UnmatchedInIdOrder(ps: seq<Pattern>, text: string)
    requires StableSort.Sorted(ps, PatternLe)
    ensures forall a, b :: 0 <= a < b < |UnmatchedOf(ps, text)| ==>
      IdLe(UnmatchedOf(ps, text)[a].patternId, UnmatchedOf(ps, text)[b].patternId)
    decreases |ps|
  {
    if ps != [] {
      var init, p := ps[..|ps| - 1], ps[|ps| - 1];
      UnmatchedInIdOrder(init, text);
      var u0, u := UnmatchedOf(init, text), UnmatchedOf(ps, text);
      if MatchOf(p, text).None? {
        forall a | 0 <= a < |u0|
          ensures IdLe(u0[a].patternId, p.id)
        {
          UnmatchedFrom(init, text, a);
          var i :| 0 <= i < |init| && init[i].id == u0[a].patternId;
          assert PatternLe(ps[i], ps[|ps| - 1]);
        }
      }
    }
  }

  /** The comparator of lines 84-92: prerequisites first, then lower priority, then earlier position. */
  predicate MatchLe(a: Match, b: Match) {
    if a.isPrerequisite != b.isPrerequisite then a.isPrerequisite
    else if a.priority != b.priority then a.priority < b.priority
    else a.matchPosition <= b.matchPosition
  }

  lemma MatchLeTotalPreorder()
    ensures StableSort.TotalPreorder(MatchLe)
  {
  }

  /**
    After the precedence sort the matched list holds the same records, every prerequisite comes
    before every other record, and within each group records are ordered by priority and then by
    position; records that tie keep their order of the pattern-id pass.
  */
  lemma MatchOrder(ms: seq<Match>)
    ensures var s := StableSort.SortSpec(ms, MatchLe);
      && multiset(s) == multiset(ms)
      && (forall a, b :: 0 <= a < b < |s| && s[b].isPrerequisite ==> s[a].isPrerequisite)
      && (forall a, b :: 0 <= a < b < |s| && s[a].isPrerequisite == s[b].isPrerequisite ==>
            s[a].priority <= s[b].priority)
      && (forall a, b :: (0 <= a < b < |s| && s[a].isPrerequisite == s[b].isPrerequisite
            && s[a].priority == s[b].priority) ==> s[a].matchPosition <= s[b].matchPosition)
      && forall k :: StableSort.Equivs(s, k, MatchLe) == StableSort.Equivs(ms, k, MatchLe)
  {
    MatchLeTotalPreorder();
    StableSort.SortSpecCorrect(ms, MatchLe);
    var s := StableSort.SortSpec(ms, MatchLe);
    forall a, b | 0 <= a < b < |s|
      ensures MatchLe(s[a], s[b])
    {
    }
  }

  /** A wildcard keyword "* days" matches "45 days" and does not match "45days" or " days". */
  lemma WildcardExample()
    ensures MatchesPrefix("* days", "45 days")
    ensures !MatchesPrefix("* days", "45days")
    ensures !MatchesPrefix("* days", " days")
  {
    assert MatchesPrefix(" days", " days");
    assert DigitsThen(" days", "5 days");
  }

  /**
    Searched in a text, "valid for * days" is found in "valid for 45 days", at its start, and
    nowhere in "valid for days", where no digit stands for the `*`.
  */
  lemma WildcardSearchExample()
    ensures KeywordPosition("valid for * days", "valid for 45 days") == 0
    ensures KeywordPosition("valid for * days", "valid for days") == -1
  {
    var kw := "valid for * days";
    assert ToLower(kw) == kw;
    assert kw[10] == '*';
    WildcardFoundAtStart(kw);
    WildcardMissing(kw);
  }

  /** A literal prefix common to keyword and text drops out of the comparison. */
  lemma {:induction false} LiteralPrefix(p: string, kw: string, s: string)
    requires '*' !in p
    ensures MatchesPrefix(p + kw, p + s) == MatchesPrefix(kw, s)
    decreases |p|
  {
    if p != [] {
      assert (p + kw)[1..] == p[1..] + kw;
      assert (p + s)[1..] == p[1..] + s;
      LiteralPrefix(p[1..], kw, s);
    } else {
      assert p + kw == kw && p + s == s;
    }
  }

  lemma WildcardFoundAtStart(kw: string)
    requires kw == "valid for * days"
    ensures MatchesPrefix(kw, "valid for 45 days")
  {
    assert MatchesPrefix(" days", " days");
    assert DigitsThen(" days", "5 days");
    assert DigitsThen(" days", "45 days");
    assert MatchesPrefix("* days", "45 days");
    assert kw == "valid for " + "* days";
    assert "valid for 45 days" == "valid for " + "45 days";
    LiteralPrefix("valid for ", "* days", "45 days");
  }

  lemma WildcardMissing(kw: string)
    requires kw == "valid for * days"
    ensures SearchFrom(kw, "valid for days", 0) == -1
  {
    var s := "valid for days";
    assert !DigitsThen(" days", "days");
    assert !MatchesPrefix("* days", "days");
    assert kw == "valid for " + "* days";
    assert s == "valid for " + "days";
    LiteralPrefix("valid for ", "* days", "days");
    forall i | 1 <= i <= |s|
      ensures !MatchesPrefix(kw, s[i..])
    {
      assert i == |s| || s[i] != 'v';
    }
    assert s[0..] == s;
  }
}

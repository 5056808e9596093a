/**
  Step 4 of the preprocessor: up to three principles. The original (not normalised) text is split
  into sentences, each long sentence is located in the text, and for each cue term in turn the
  earliest located sentence that mentions it and has not been taken yet becomes a principle;
  fixed defaults fill the remaining places.
*/
module Principles {
  import opened Wrappers
  import opened Text

  /** The cue terms, in the order they are tried. */
  const CueTerms: seq<string> := ["must", "shall", "required", "해야 한다", "필요", "필수"]

  /** The principles used for the places no sentence fills, by place. */
  const Defaults: seq<string> :=
    ["Accuracy in data extraction", "Completeness of verification", "Timeliness of processing"]

  /** The sentence boundaries `/[.。\n]/`. */
  predicate IsSentenceEnd(c: char) {
    c == '.' || c == '。' || c == '\n'
  }

  // ---------------------------------------------------------------------------------------------
  // Sentences

  /** The pieces that `.filter(s => s.trim().length > 10)` keeps, in order. */
  function LongPieces(ps: seq<Piece>): (r: seq<Piece>)
    ensures |r| <= |ps|
    ensures forall k :: 0 <= k < |r| ==> |Trim(r[k].text)| > 10 && r[k] in ps
    decreases |ps|
  {
    if ps == [] then []
    else (if |Trim(ps[0].text)| > 10 then [ps[0]] else []) + LongPieces(ps[1..])
  }

  /** Every sentence is longer than 10 characters once trimmed. */
  lemma SentencesLong(text: string)
    ensures forall k :: 0 <= k < |Sentences(text)| ==> |Trim(Sentences(text)[k])| > 10
  {
  }

  /** The sentences of `text` with their offsets. */
  function SentencePieces(text: string): seq<Piece> {
    LongPieces(Pieces(text, IsSentenceEnd))
  }

  /** `policyText.split(/[.。\n]/).filter(s => s.trim().length > 10)`. */
  function Sentences(text: string): seq<string> {
    Texts(SentencePieces(text))
  }

  /** An entry of `indexedSentences`: a trimmed sentence and where it was found. */
  datatype Indexed = Indexed(text: string, position: nat)

  /**
    The indexing loop as written: each trimmed sentence is searched from `searchStart`, which then
    moves to the position found plus the length of the untrimmed sentence.
  */
  function IndexAsWritten(text: string, sentences: seq<string>, searchStart: nat): seq<Indexed>
    decreases |sentences|
  {
    if sentences == [] then []
    else
      var t := Trim(sentences[0]);
      var pos := IndexOf(text, t, searchStart);
      if pos < 0 then IndexAsWritten(text, sentences[1..], searchStart)
      else [Indexed(t, pos)] + IndexAsWritten(text, sentences[1..], pos + |sentences[0]|)
  }

  /**
    The indexing as evidently intended: after a sentence is found, the search goes on right after
    the trimmed text just found.
  */
  function IndexSpec(text: string, sentences: seq<string>, searchStart: nat): seq<Indexed> {
    IndexTrimmed(SearchIn(text), Trims(sentences), searchStart)
  }

  /** `text.indexOf`, as a search function of the needle and the offset to start at. */
  function SearchIn(text: string): (string, nat) -> int {
    (t: string, from: nat) => IndexOf(text, t, from)
  }

  /** The trimmed text of each sentence. */
  function Trims(ss: seq<string>): (r: seq<string>)
    ensures |r| == |ss| && forall k :: 0 <= k < |ss| ==> r[k] == Trim(ss[k])
  {
    seq(|ss|, k requires 0 <= k < |ss| => Trim(ss[k]))
  }

  /**
    The corrected indexing over trimmed texts `ts`, with `find` for the search: each text found
    is recorded and the search goes on right after it; a text not found is skipped.
  */
  function IndexTrimmed(find: (string, nat) -> int, ts: seq<string>, searchStart: nat): seq<Indexed>
    decreases |ts|
  {
    if ts == [] then []
    else
      var pos := find(ts[0], searchStart);
      if pos < 0 then IndexTrimmed(find, ts[1..], searchStart)
      else [Indexed(ts[0], pos)] + IndexTrimmed(find, ts[1..], pos + |ts[0]|)
  }

  /** The indexing loop, with the search resuming after the trimmed text. */
  method IndexSentences(text: string, sentences: seq<string>) returns (indexed: seq<Indexed>)
    ensures indexed == IndexSpec(text, sentences, 0)
  {
    indexed := IndexLoop(SearchIn(text), Trims(sentences));
  }

  /** The loop of `IndexSentences` over the trimmed sentences `ts`, searching with `find`. */
  method IndexLoop(find: (string, nat) -> int, ts: seq<string>) returns (indexed: seq<Indexed>)
    ensures indexed == IndexTrimmed(find, ts, 0)
  {
    indexed := [];
    var searchStart: nat := 0;
    var i := 0;
    assert ts[i..] == ts;
    while i < |ts|
      invariant 0 <= i <= |ts|
      invariant indexed + IndexTrimmed(find, ts[i..], searchStart) == IndexTrimmed(find, ts, 0)
    {
      var pos := find(ts[i], searchStart);
      if pos >= 0 {
        IndexTrimmedFound(find, ts, i, searchStart, indexed);
        indexed := indexed + [Indexed(ts[i], pos)];
        searchStart := pos + |ts[i]|;
      } else {
        IndexTrimmedSkipped(find, ts, i, searchStart, indexed);
      }
      i := i + 1;
    }
  }

  /** A text found at `i` is recorded after the records `acc`, and the search goes on after it. */
  lemma IndexTrimmedFound(find: (string, nat) -> int, ts: seq<string>, i: nat, from: nat, acc: seq<Indexed>)
    requires i < |ts| && find(ts[i], from) >= 0
    ensures acc + IndexTrimmed(find, ts[i..], from)
      == (acc + [Indexed(ts[i], find(ts[i], from))]) + IndexTrimmed(find, ts[i + 1..], find(ts[i], from) + |ts[i]|)
  {
    assert ts[i..][0] == ts[i] && ts[i..][1..] == ts[i + 1..];
  }

  /** A text not found at `i` is skipped and the search offset stays. */
  lemma IndexTrimmedSkipped(find: (string, nat) -> int, ts: seq<string>, i: nat, from: nat, acc: seq<Indexed>)
    requires i < |ts| && find(ts[i], from) < 0
    ensures acc + IndexTrimmed(find, ts[i..], from) == acc + IndexTrimmed(find, ts[i + 1..], from)
  {
    assert ts[i..][0] == ts[i] && ts[i..][1..] == ts[i + 1..];
  }

  /** Pieces that stand at their offsets in `text`, each ending before any later one begins. */
  ghost predicate InOrder(text: string, fs: seq<Piece>) {
    && (forall k :: 0 <= k < |fs| ==> PieceAt(text, fs[k], IsSentenceEnd))
    && (forall a, b :: 0 <= a < b < |fs| ==> fs[a].start + |fs[a].text| <= fs[b].start)
  }

  lemma {:induction false} LaidIncreasing(text: string, ps: seq<Piece>)
    requires Laid(text, ps, IsSentenceEnd)
    ensures forall a, b :: 0 <= a < b < |ps| ==> ps[a].start + |ps[a].text| < ps[b].start
    decreases |ps|
  {
    if |ps| > 1 {
      var tail := ps[1..];
      assert Laid(text, tail, IsSentenceEnd) by {
        forall k | 0 <= k < |tail| - 1
          ensures SeparatedFrom(text, tail[k], tail[k + 1], IsSentenceEnd)
        {
          assert tail[k] == ps[k + 1] && tail[k + 1] == ps[k + 2];
        }
      }
      LaidIncreasing(text, tail);
      assert SeparatedFrom(text, ps[0], ps[1], IsSentenceEnd);
      forall a, b | 0 <= a < b < |ps|
        ensures ps[a].start + |ps[a].text| < ps[b].start
      {
        if a == 0 {
          if b > 1 {
            assert tail[0] == ps[1] && tail[b - 1] == ps[b];
          }
        } else {
          assert tail[a - 1] == ps[a] && tail[b - 1] == ps[b];
        }
      }
    }
  }

  lemma {:induction false} LongPiecesInOrder(text: string, ps: seq<Piece>)
    requires forall k :: 0 <= k < |ps| ==> PieceAt(text, ps[k], IsSentenceEnd)
    requires forall a, b :: 0 <= a < b < |ps| ==> ps[a].start + |ps[a].text| < ps[b].start
    ensures InOrder(text, LongPieces(ps))
    decreases |ps|
  {
    if ps != [] {
      var tail := ps[1..];
      forall a, b | 0 <= a < b < |tail|
        ensures tail[a].start + |tail[a].text| < tail[b].start
      {
        assert tail[a] == ps[a + 1] && tail[b] == ps[b + 1];
      }
      LongPiecesInOrder(text, tail);
      var rest := LongPieces(tail);
      if |Trim(ps[0].text)| > 10 {
        forall x | x in rest
          ensures ps[0].start + |ps[0].text| <= x.start
        {
          var j :| 0 <= j < |tail| && tail[j] == x;
          assert ps[j + 1] == x;
        }
        InOrderCons(text, ps[0], rest);
      }
    }
  }

  lemma InOrderCons(text: string, p: Piece, rest: seq<Piece>)
    requires PieceAt(text, p, IsSentenceEnd) && InOrder(text, rest)
    requires forall x :: x in rest ==> p.start + |p.text| <= x.start
    ensures InOrder(text, [p] + rest)
  {
    var r := [p] + rest;
    forall a, b | 0 <= a < b < |r|
      ensures r[a].start + |r[a].text| <= r[b].start
    {
      assert r[b] == rest[b - 1];
      if a > 0 {
        assert r[a] == rest[a - 1];
      }
    }
  }

  /** The trimmed text of a piece occurs in `text` after the piece's leading white space. */
  lemma PieceTrimOccurs(text: string, p: Piece)
    requires PieceAt(text, p, IsSentenceEnd)
    ensures Lead(p.text) + |Trim(p.text)| <= |p.text|
    ensures OccursAt(text, Trim(p.text), p.start + Lead(p.text))
  {
    TrimSlice(p.text);
    SliceOccurs(text, p.text, p.start, Lead(p.text), Trim(p.text));
  }

  /** A slice of a piece of `text` occurs in `text`, offset by where the piece starts. */
  lemma SliceOccurs(text: string, s: string, start: nat, l: nat, t: string)
    requires start + |s| <= |text| && text[start..start + |s|] == s
    requires l + |t| <= |s| && t == s[l..l + |t|]
    ensures OccursAt(text, t, start + l)
  {
    forall i | 0 <= i < |t|
      ensures text[start + l + i] == t[i]
    {
      assert t[i] == s[l + i] == text[start..start + |s|][l + i];
    }
    assert text[start + l..start + l + |t|] == t;
  }

  /**
    Non-empty texts `ts` that occur at the anchors `qs`, each one ending before any later one
    begins.
  */
  ghost predicate Anchored(text: string, ts: seq<string>, qs: seq<nat>) {
    && |qs| == |ts|
    && (forall k :: 0 <= k < |ts| ==> |ts[k]| > 0 && OccursAt(text, ts[k], qs[k]))
    && (forall a, b :: 0 <= a < b < |ts| ==> qs[a] + |ts[a]| <= qs[b])
  }

  lemma AnchoredTail(text: string, ts: seq<string>, qs: seq<nat>)
    requires Anchored(text, ts, qs) && ts != []
    ensures Anchored(text, ts[1..], qs[1..])
  {
    var us, rs := ts[1..], qs[1..];
    forall k | 0 <= k < |us|
      ensures |us[k]| > 0 && OccursAt(text, us[k], rs[k])
    {
      assert us[k] == ts[k + 1] && rs[k] == qs[k + 1];
    }
    forall a, b | 0 <= a < b < |us|
      ensures rs[a] + |us[a]| <= rs[b]
    {
      assert us[a] == ts[a + 1] && rs[a] == qs[a + 1] && rs[b] == qs[b + 1];
    }
  }

  /** `Anchored`, stated one text at a time: each one is anchored and ends before the next. */
  ghost predicate Chained(text: string, ts: seq<string>, qs: seq<nat>)
    decreases |ts|
  {
    && |qs| == |ts|
    && (ts != [] ==>
          && |ts[0]| > 0 && OccursAt(text, ts[0], qs[0])
          && (|ts| > 1 ==> qs[0] + |ts[0]| <= qs[1])
          && Chained(text, ts[1..], qs[1..]))
  }

  lemma {:induction false} AnchoredChained(text: string, ts: seq<string>, qs: seq<nat>)
    requires Anchored(text, ts, qs)
    ensures Chained(text, ts, qs)
    decreases |ts|
  {
    if ts != [] {
      AnchoredTail(text, ts, qs);
      AnchoredChained(text, ts[1..], qs[1..]);
    }
  }

  /**
    Each text, in order, was located at or after the end of the previous one (the first at or
    after `from`), at a place where it occurs, non-empty.
  */
  ghost predicate Located(text: string, ts: seq<string>, ix: seq<Indexed>, from: nat)
    decreases |ts|
  {
    && |ix| == |ts|
    && (ts != [] ==>
          && ix[0].text == ts[0] && |ts[0]| > 0
          && from <= ix[0].position
          && OccursAt(text, ts[0], ix[0].position)
          && Located(text, ts[1..], ix[1..], ix[0].position + |ts[0]|))
  }

  /** What `Located` says about every text: it is recorded where it occurs, in increasing positions. */
  lemma {:induction false} LocatedFacts(text: string, ts: seq<string>, ix: seq<Indexed>, from: nat)
    requires Located(text, ts, ix, from)
    ensures |ix| == |ts|
    ensures forall k :: 0 <= k < |ts| ==>
      ix[k].text == ts[k] && from <= ix[k].position && OccursAt(text, ts[k], ix[k].position)
    ensures forall a, b :: 0 <= a < b < |ix| ==> ix[a].position < ix[b].position
    decreases |ts|
  {
    if ts != [] {
      var next := ix[0].position + |ts[0]|;
      LocatedFacts(text, ts[1..], ix[1..], next);
      forall k | 1 <= k < |ts|
        ensures ix[k].text == ts[k] && from <= ix[k].position && OccursAt(text, ts[k], ix[k].position)
      {
        assert ix[k] == ix[1..][k - 1] && ts[k] == ts[1..][k - 1];
      }
      forall a, b | 0 <= a < b < |ix|
        ensures ix[a].position < ix[b].position
      {
        assert ix[b] == ix[1..][b - 1];
        if a > 0 {
          assert ix[a] == ix[1..][a - 1];
        }
      }
    }
  }

  /** An occurrence at `q` bounds the search from any earlier `from`. */
  lemma IndexOfWithin(text: string, t: string, from: nat, q: nat)
    requires from <= q && OccursAt(text, t, q)
    ensures from <= IndexOf(text, t, from) <= q
  {
  }

  /**
    `find` searches `text`: what it returns is an occurrence at or after the offset, and an
    occurrence at or after the offset is never missed nor passed.
  */
  ghost predicate Searches(text: string, find: (string, nat) -> int) {
    && (forall t: string, k: nat :: find(t, k) < 0 || (k <= find(t, k) && OccursAt(text, t, find(t, k))))
    && (forall t: string, k: nat, q: nat :: k <= q && OccursAt(text, t, q) ==> 0 <= find(t, k) <= q)
  }

  lemma SearchInSearches(text: string)
    ensures Searches(text, SearchIn(text))
  {
    forall t: string, k: nat, q: nat | k <= q && OccursAt(text, t, q)
      ensures 0 <= SearchIn(text)(t, k) <= q
    {
      IndexOfWithin(text, t, k, q);
    }
  }

  /**
    With the texts anchored in order and the search starting no later than the first anchor, the
    corrected indexing locates every text.
  */
  lemma {:induction false} IndexFindsAll(text: string, find: (string, nat) -> int, ts: seq<string>, qs: seq<nat>, from: nat)
    requires Searches(text, find)
    requires Chained(text, ts, qs)
    requires ts != [] ==> from <= qs[0]
    ensures Located(text, ts, IndexTrimmed(find, ts, from), from)
    decreases |ts|
  {
    if ts != [] {
      var pos := find(ts[0], from);
      IndexFindsAll(text, find, ts[1..], qs[1..], pos + |ts[0]|);
      var rest := IndexTrimmed(find, ts[1..], pos + |ts[0]|);
      assert ([Indexed(ts[0], pos)] + rest)[1..] == rest;
    }
  }

  /** Where the trimmed text of each piece stands. */
  function Anchors(fs: seq<Piece>): (qs: seq<nat>)
    ensures |qs| == |fs|
  {
    seq(|fs|, k requires 0 <= k < |fs| => fs[k].start + Lead(fs[k].text))
  }

  /** Pieces standing in order, each with a non-blank text, are anchored at their trimmed texts. */
  lemma PiecesAnchored(text: string, fs: seq<Piece>)
    requires InOrder(text, fs)
    requires forall k :: 0 <= k < |fs| ==> |Trim(fs[k].text)| > 0
    ensures Anchored(text, Trims(Texts(fs)), Anchors(fs))
  {
    var ts, qs := Trims(Texts(fs)), Anchors(fs);
    forall k | 0 <= k < |fs|
      ensures OccursAt(text, ts[k], qs[k]) && Lead(fs[k].text) + |Trim(fs[k].text)| <= |fs[k].text|
    {
      PieceTrimOccurs(text, fs[k]);
    }
    forall a, b | 0 <= a < b < |fs|
      ensures qs[a] + |ts[a]| <= qs[b]
    {
      assert fs[a].start + |fs[a].text| <= fs[b].start;
    }
  }

  /**
    The corrected indexing drops no sentence: each one is located, at a position where its
    trimmed text occurs in the policy, and the positions strictly increase.
  */
  lemma EverySentenceIndexed(text: string)
    ensures var ss := Sentences(text);
      var ix := IndexSpec(text, ss, 0);
      && |ix| == |ss|
      && (forall k :: 0 <= k < |ss| ==> ix[k].text == Trim(ss[k]) && OccursAt(text, ix[k].text, ix[k].position))
      && forall a, b :: 0 <= a < b < |ix| ==> ix[a].position < ix[b].position
  {
    var ps := Pieces(text, IsSentenceEnd);
    PiecesLaid(text, IsSentenceEnd);
    LaidIncreasing(text, ps);
    LongPiecesInOrder(text, ps);
    var fs := SentencePieces(text);
    var ts := Trims(Texts(fs));
    PiecesAnchored(text, fs);
    AnchoredChained(text, ts, Anchors(fs));
    SearchInSearches(text);
    IndexFindsAll(text, SearchIn(text), ts, Anchors(fs), 0);
    LocatedFacts(text, ts, IndexTrimmed(SearchIn(text), ts, 0), 0);
  }

  predicate NoSentenceEnd(s: string) {
    forall i :: 0 <= i < |s| ==> !IsSentenceEnd(s[i])
  }

  /** Two runs of text without a sentence end, joined by a line break, are two pieces. */
  lemma TwoPieces(x: string, b: string)
    requires NoSentenceEnd(x) && NoSentenceEnd(b)
    ensures Pieces(x + "\n" + b, IsSentenceEnd) == [Piece(x, 0), Piece(b, |x| + 1)]
  {
    var text := x + "\n" + b;
    assert text[|x|] == '\n';
    assert FirstIndex(text, IsSentenceEnd) == |x| by {
      forall i | 0 <= i < |x|
        ensures !IsSentenceEnd(text[i])
      {
        assert text[i] == x[i];
      }
    }
    assert text[..|x|] == x && text[|x| + 1..] == b;
    assert FirstIndex(b, IsSentenceEnd) == |b|;
    assert Pieces(b, IsSentenceEnd) == [Piece(b, 0)];
    assert Shift([Piece(b, 0)], |x| + 1) == [Piece(b, |x| + 1)];
    assert Pieces(text, IsSentenceEnd)
        == [Piece(text[..|x|], 0)] + Shift(Pieces(text[|x| + 1..], IsSentenceEnd), |x| + 1);
  }

  lemma NoSentenceEndConcat(x: string, y: string)
    requires NoSentenceEnd(x) && NoSentenceEnd(y)
    ensures NoSentenceEnd(x + y)
  {
    forall i | 0 <= i < |x + y|
      ensures !IsSentenceEnd((x + y)[i])
    {
      if i >= |x| {
        assert (x + y)[i] == y[i - |x|];
      }
    }
  }

  /** The sentences of two long runs of text without a sentence end, on two lines. */
  lemma TwoSentences(x: string, b: string, text: string)
    requires NoSentenceEnd(x) && NoSentenceEnd(b)
    requires |Trim(x)| > 10 && |Trim(b)| > 10
    requires text == x + "\n" + b
    ensures Sentences(text) == [x, b]
  {
    TwoPieces(x, b);
    var ps := [Piece(x, 0), Piece(b, |x| + 1)];
    LongTwo(ps[0], ps[1]);
    assert Texts(ps) == [x, b];
  }

  lemma LongTwo(p: Piece, q: Piece)
    requires |Trim(p.text)| > 10 && |Trim(q.text)| > 10
    ensures LongPieces([p, q]) == [p, q]
  {
    assert [p, q][1..] == [q];
    assert LongPieces([q]) == [q];
  }

  /** Leading white space before a text that starts with none is skipped by the first search. */
  lemma FoundAfterPadding(w1: string, a: string, w2: string, b: string, text: string)
    requires AllSpace(w1) && a != [] && !IsSpace(a[0])
    requires text == w1 + a + "\n" + w2 + b
    ensures IndexOf(text, a, 0) == |w1|
  {
    assert OccursAt(text, a, |w1|) by {
      assert text[|w1|..|w1| + |a|] == a;
    }
  }

  /**
    On the second line `w2 + b`, a search starting anywhere from the line break to the start of
    `b` finds `b` where it stands: what lies before it there is white space and the break.
  */
  lemma FoundOnNextLine(w1: string, a: string, w2: string, b: string, text: string, from: nat)
    requires AllSpace(w2) && b != [] && !IsSpace(b[0]) && !IsSentenceEnd(b[0])
    requires text == w1 + a + "\n" + w2 + b
    requires |w1| + |a| <= from <= |w1| + |a| + 1 + |w2|
    ensures IndexOf(text, b, from) == |w1| + |a| + 1 + |w2|
  {
    var q := |w1| + |a| + 1 + |w2|;
    assert OccursAt(text, b, q) by {
      assert text[q..q + |b|] == b;
    }
    forall i | from <= i < q
      ensures !OccursAt(text, b, i)
    {
      if i == |w1| + |a| {
        assert text[i] == '\n';
      } else {
        assert text[i] == w2[i - (|w1| + |a| + 1)];
      }
      assert i + |b| <= |text| ==> text[i..i + |b|][0] == text[i];
    }
  }

  /**
    The indexing as written loses a sentence exactly when the first of two lines carries at least
    two more characters of leading white space than the second: the search for the second sentence
    then starts beyond the place where it still fits. Otherwise it locates both sentences, as the
    corrected indexing always does.
  */
  lemma IndexAsWrittenDropsSentence(w1: string, a: string, w2: string, b: string, text: string)
    requires AllSpace(w1) && AllSpace(w2) && NoSentenceEnd(w1) && NoSentenceEnd(w2)
    requires NoSentenceEnd(a) && NoSentenceEnd(b)
    requires Trim(a) == a && Trim(b) == b && |a| > 10 && |b| > 10
    requires text == w1 + a + "\n" + w2 + b
    ensures Sentences(text) == [w1 + a, w2 + b]
    ensures IndexSpec(text, Sentences(text), 0) == [Indexed(a, |w1|), Indexed(b, |w1| + |a| + 1 + |w2|)]
    ensures |w1| >= |w2| + 2 ==> IndexAsWritten(text, Sentences(text), 0) == [Indexed(a, |w1|)]
    ensures |w1| < |w2| + 2 ==> IndexAsWritten(text, Sentences(text), 0) == IndexSpec(text, Sentences(text), 0)
  {
    TwoLines(w1, a, w2, b, text);
    PaddedIndexings(w1, a, w2, b, text, Sentences(text), |w1|, |w1| + |a| + 1 + |w2|);
  }

  /** Both indexings of the two padded lines `ss`, once they are known to be the sentences. */
  lemma PaddedIndexings(w1: string, a: string, w2: string, b: string, text: string, ss: seq<string>, p: nat, q: nat)
    requires AllSpace(w1) && AllSpace(w2) && NoSentenceEnd(b)
    requires Trim(a) == a && Trim(b) == b && |a| > 10 && |b| > 10
    requires text == w1 + a + "\n" + w2 + b && ss == [w1 + a, w2 + b]
    requires p == |w1| && q == |w1| + |a| + 1 + |w2|
    ensures IndexSpec(text, ss, 0) == [Indexed(a, p), Indexed(b, q)]
    ensures |w1| >= |w2| + 2 ==> IndexAsWritten(text, ss, 0) == [Indexed(a, p)]
    ensures |w1| < |w2| + 2 ==> IndexAsWritten(text, ss, 0) == IndexSpec(text, ss, 0)
  {
    PaddedLines(w1, a, w2, b);
    TwoLinesFound(w1, a, w2, b, text);
    TwoIndexings(text, w1 + a, w2 + b, a, b, p, q);
  }

  /**
    Both indexings of two sentences `x` and `y`, the first found at `p`: the corrected one finds
    the second at `q`; the one as written loses it when it cannot fit after `p` plus the untrimmed
    length of the first, and agrees otherwise.
  */
  lemma TwoIndexings(text: string, x: string, y: string, a: string, b: string, p: nat, q: nat)
    requires Trim(x) == a && Trim(y) == b
    requires IndexOf(text, a, 0) == p && IndexOf(text, b, p + |a|) == q
    requires p + |x| + |b| <= |text| ==> IndexOf(text, b, p + |x|) == q
    ensures IndexSpec(text, [x, y], 0) == [Indexed(a, p), Indexed(b, q)]
    ensures p + |x| + |b| > |text| ==> IndexAsWritten(text, [x, y], 0) == [Indexed(a, p)]
    ensures p + |x| + |b| <= |text| ==> IndexAsWritten(text, [x, y], 0) == IndexSpec(text, [x, y], 0)
  {
    TrimsTwo(x, y);
    IndexTrimmedTwo(SearchIn(text), a, b, p, q);
    if p + |x| + |b| > |text| {
      AsWrittenSkipsSecond(text, [x, y], p);
    } else {
      AsWrittenKeepsSecond(text, [x, y], p, q);
    }
  }

  /** Where the searches of both indexings find the two lines' sentences. */
  lemma TwoLinesFound(w1: string, a: string, w2: string, b: string, text: string)
    requires AllSpace(w1) && AllSpace(w2) && NoSentenceEnd(b)
    requires Trim(a) == a && Trim(b) == b && |a| > 10 && |b| > 10
    requires text == w1 + a + "\n" + w2 + b
    ensures |text| == |w1| + |a| + 1 + |w2| + |b|
    ensures IndexOf(text, a, 0) == |w1|
    ensures IndexOf(text, b, |w1| + |a|) == |w1| + |a| + 1 + |w2|
    ensures |w1| + |w1 + a| + |b| <= |text| ==> IndexOf(text, b, |w1| + |w1 + a|) == |w1| + |a| + 1 + |w2|
  {
    FoundAfterPadding(w1, a, w2, b, text);
    assert !IsSentenceEnd(b[0]);
    FoundOnNextLine(w1, a, w2, b, text, |w1| + |a|);
    if |w1| + |w1 + a| + |b| <= |text| {
      FoundOnNextLine(w1, a, w2, b, text, |w1| + |w1 + a|);
    }
  }

  /**
    With the first of two sentences found at `pos`, the search for the second one starts at `pos`
    plus the untrimmed length of the first; when the second cannot fit from there, it is lost.
  */
  lemma AsWrittenSkipsSecond(text: string, ss: seq<string>, pos: nat)
    requires |ss| == 2 && IndexOf(text, Trim(ss[0]), 0) == pos
    requires pos + |ss[0]| + |Trim(ss[1])| > |text|
    ensures IndexAsWritten(text, ss, 0) == [Indexed(Trim(ss[0]), pos)]
  {
    AsWrittenCons(text, ss, 0, pos);
    AsWrittenSecondLost(text, ss, pos + |ss[0]|);
    assert [Indexed(Trim(ss[0]), pos)] + [] == [Indexed(Trim(ss[0]), pos)];
  }

  /** When instead the second sentence is found at `q` from there, both are located. */
  lemma AsWrittenKeepsSecond(text: string, ss: seq<string>, pos: nat, q: nat)
    requires |ss| == 2 && IndexOf(text, Trim(ss[0]), 0) == pos
    requires IndexOf(text, Trim(ss[1]), pos + |ss[0]|) == q
    ensures IndexAsWritten(text, ss, 0) == [Indexed(Trim(ss[0]), pos), Indexed(Trim(ss[1]), q)]
  {
    AsWrittenCons(text, ss, 0, pos);
    AsWrittenSecond(text, ss, pos + |ss[0]|, q);
    PairOf(IndexAsWritten(text, ss, 0), IndexAsWritten(text, ss[1..], pos + |ss[0]|),
           Indexed(Trim(ss[0]), pos), Indexed(Trim(ss[1]), q));
  }

  lemma PairOf(all: seq<Indexed>, tail: seq<Indexed>, e0: Indexed, e1: Indexed)
    requires all == [e0] + tail && tail == [e1]
    ensures all == [e0, e1]
  {
  }

  /** The two lines `w1 + a` and `w2 + b` are the two sentences, and trim to `a` and `b`. */
  lemma TwoLines(w1: string, a: string, w2: string, b: string, text: string)
    requires AllSpace(w1) && AllSpace(w2) && NoSentenceEnd(w1) && NoSentenceEnd(w2)
    requires NoSentenceEnd(a) && NoSentenceEnd(b)
    requires Trim(a) == a && Trim(b) == b && |a| > 10 && |b| > 10
    requires text == w1 + a + "\n" + w2 + b
    ensures Sentences(text) == [w1 + a, w2 + b]
  {
    PaddedLines(w1, a, w2, b);
    NoSentenceEndConcat(w1, a);
    NoSentenceEndConcat(w2, b);
    Regroup(w1 + a + "\n", w2, b);
    TwoSentences(w1 + a, w2 + b, text);
  }

  lemma Regroup(u: string, v: string, w: string)
    ensures u + (v + w) == u + v + w
  {
  }

  lemma PaddedLines(w1: string, a: string, w2: string, b: string)
    requires AllSpace(w1) && AllSpace(w2) && Trim(a) == a && Trim(b) == b
    ensures Trim(w1 + a) == a && Trim(w2 + b) == b
  {
    TrimPadded(w1, a, []);
    TrimPadded(w2, b, []);
    assert w1 + a + [] == w1 + a && w2 + b + [] == w2 + b;
  }

  lemma TrimsTwo(x: string, y: string)
    ensures Trims([x, y]) == [Trim(x), Trim(y)]
  {
  }

  /** The corrected indexing of two trimmed texts found in turn at `p` and `q`. */
  lemma {:induction false} IndexTrimmedTwo(find: (string, nat) -> int, a: string, b: string, p: nat, q: nat)
    requires find(a, 0) == p && find(b, p + |a|) == q
    ensures IndexTrimmed(find, [a, b], 0) == [Indexed(a, p), Indexed(b, q)]
  {
    assert [a, b][1..] == [b] && [b][1..] == [];
    assert IndexTrimmed(find, [b], p + |a|) == [Indexed(b, q)] + IndexTrimmed(find, [], q + |b|);
  }

  /** One step of the indexing as written, when the first sentence is found at `pos`. */
  lemma AsWrittenCons(text: string, ss: seq<string>, from: nat, pos: nat)
    requires ss != [] && IndexOf(text, Trim(ss[0]), from) == pos
    ensures IndexAsWritten(text, ss, from) == [Indexed(Trim(ss[0]), pos)] + IndexAsWritten(text, ss[1..], pos + |ss[0]|)
  {
  }

  /** The second of two sentences, when it cannot fit after the start of the search, is not located. */
  lemma AsWrittenSecondLost(text: string, ss: seq<string>, from: nat)
    requires |ss| == 2 && from + |Trim(ss[1])| > |text|
    ensures IndexAsWritten(text, ss[1..], from) == []
  {
    var rest := ss[1..];
    assert rest[0] == ss[1] && rest[1..] == [];
    assert IndexOf(text, Trim(rest[0]), from) == -1;
  }

  /** The second of two sentences, found at `q` from the start of the search, is located there. */
  lemma AsWrittenSecond(text: string, ss: seq<string>, from: nat, q: nat)
    requires |ss| == 2 && IndexOf(text, Trim(ss[1]), from) == q
    ensures IndexAsWritten(text, ss[1..], from) == [Indexed(Trim(ss[1]), q)]
  {
    var rest := ss[1..];
    assert rest[0] == ss[1] && rest[1..] == [];
  }

  /**
    Every entry of an indexing is the trimmed text of one of the sentences `ss`, recorded at a
    position where it occurs in `text`.
  */
  ghost predicate Drawn(text: string, ss: seq<string>, ix: seq<Indexed>) {
    forall x :: x in ix ==>
      && OccursAt(text, x.text, x.position)
      && exists j :: 0 <= j < |ss| && x.text == Trim(ss[j])
  }

  /** The indexing as written, though it may lose sentences, records only sentences where they occur. */
  lemma {:induction false} AsWrittenDrawn(text: string, ss: seq<string>, from: nat)
    ensures Drawn(text, ss, IndexAsWritten(text, ss, from))
    decreases |ss|
  {
    if ss != [] {
      var t := Trim(ss[0]);
      var pos := IndexOf(text, t, from);
      var next := if pos < 0 then from else pos + |ss[0]|;
      AsWrittenDrawn(text, ss[1..], next);
      var rest := IndexAsWritten(text, ss[1..], next);
      forall x | x in IndexAsWritten(text, ss, from)
        ensures OccursAt(text, x.text, x.position) && exists j :: 0 <= j < |ss| && x.text == Trim(ss[j])
      {
        if x in rest {
          var j :| 0 <= j < |ss[1..]| && x.text == Trim(ss[1..][j]);
          assert ss[1..][j] == ss[j + 1];
        } else {
          assert x == Indexed(t, pos);
          assert x.text == Trim(ss[0]);
        }
      }
    }
  }

  /** The corrected indexing records its sentences where they occur. */
  lemma SpecDrawn(text: string)
    ensures Drawn(text, Sentences(text), IndexSpec(text, Sentences(text), 0))
  {
    var ss := Sentences(text);
    var ix := IndexSpec(text, ss, 0);
    EverySentenceIndexed(text);
    forall x | x in ix
      ensures OccursAt(text, x.text, x.position) && exists j :: 0 <= j < |ss| && x.text == Trim(ss[j])
    {
      var k :| 0 <= k < |ix| && ix[k] == x;
      assert x.text == Trim(ss[k]);
    }
  }

  // ---------------------------------------------------------------------------------------------
  // Selection

  /** `s.toLowerCase().includes(term.toLowerCase())`: the test the selection applies. */
  predicate CueMention(s: string, term: string) {
    Contains(ToLower(s), ToLower(term))
  }

  /** The located sentences that mention `term` and whose position is not in `used`, in order. */
  function Candidates(mentions: (string, string) -> bool, indexed: seq<Indexed>,
                      term: string, used: set<nat>): (r: seq<Indexed>)
    ensures forall x :: x in r ==> x in indexed && mentions(x.text, term) && x.position !in used
    ensures forall k :: (0 <= k < |indexed| && mentions(indexed[k].text, term)
      && indexed[k].position !in used) ==> indexed[k] in r
    decreases |indexed|
  {
    if indexed == [] then []
    else
      var x := indexed[0];
      (if mentions(x.text, term) && x.position !in used then [x] else [])
        + Candidates(mentions, indexed[1..], term, used)
  }

  /** `matching.reduce((a, b) => a.position < b.position ? a : b)`. */
  function Earliest(ms: seq<Indexed>): (r: Indexed)
    requires |ms| > 0
    ensures r in ms
    ensures forall x :: x in ms ==> r.position <= x.position
    decreases |ms|
  {
    if |ms| == 1 then ms[0]
    else
      var a := Earliest(ms[..|ms| - 1]);
      var b := ms[|ms| - 1];
      assert forall x :: x in ms ==> x in ms[..|ms| - 1] || x == b;
      if a.position < b.position then a else b
  }

  /** One round of the selection loop: the earliest candidate for `term`, if there is one. */
  function Choice(mentions: (string, string) -> bool, indexed: seq<Indexed>, term: string, used: set<nat>)
    : Option<Indexed>
  {
    var m := Candidates(mentions, indexed, term, used);
    if m == [] then None else Some(Earliest(m))
  }

  /** `Choice` over the located sentences `indexed`, as a function of the term and the positions used. */
  function ChoiceIn(mentions: (string, string) -> bool, indexed: seq<Indexed>)
    : (string, set<nat>) -> Option<Indexed>
  {
    (term: string, used: set<nat>) => Choice(mentions, indexed, term, used)
  }

  /**
    The selection loop from term `i` of `terms` on, with the sentences `picked` so far and the
    positions `used`, taking what `choose` gives for each term: it stops once three are picked.
  */
  function Pick(choose: (string, set<nat>) -> Option<Indexed>, terms: seq<string>, i: nat,
                picked: seq<Indexed>, used: set<nat>): seq<Indexed>
    requires i <= |terms|
    decreases |terms| - i
  {
    if i == |terms| || |picked| >= 3 then picked
    else
      match choose(terms[i], used)
      case None => Pick(choose, terms, i + 1, picked, used)
      case Some(e) => Pick(choose, terms, i + 1, picked + [e], used + {e.position})
  }

  /** A round in which `choose` gives `e` picks it and marks its position used. */
  lemma PickTakes(choose: (string, set<nat>) -> Option<Indexed>, terms: seq<string>, i: nat,
                  picked: seq<Indexed>, used: set<nat>, e: Indexed)
    requires i < |terms| && |picked| < 3 && choose(terms[i], used) == Some(e)
    ensures Pick(choose, terms, i, picked, used) == Pick(choose, terms, i + 1, picked + [e], used + {e.position})
  {
  }

  /** A round in which `choose` gives nothing leaves the picks as they are. */
  lemma PickSkips(choose: (string, set<nat>) -> Option<Indexed>, terms: seq<string>, i: nat,
                  picked: seq<Indexed>, used: set<nat>)
    requires i < |terms| && |picked| < 3 && choose(terms[i], used) == None
    ensures Pick(choose, terms, i, picked, used) == Pick(choose, terms, i + 1, picked, used)
  {
  }

  /**
    What `choose` gives for a term is one of the sentences `indexed`, mentions the term by
    `mentions`, and stands at a position not yet used.
  */
  ghost predicate Chooses(choose: (string, set<nat>) -> Option<Indexed>, indexed: seq<Indexed>,
                          mentions: (string, string) -> bool)
  {
    forall term: string, used: set<nat> :: choose(term, used).Some? ==>
      && choose(term, used).value in indexed
      && mentions(choose(term, used).value.text, term)
      && choose(term, used).value.position !in used
  }

  lemma ChoiceChooses(mentions: (string, string) -> bool, indexed: seq<Indexed>)
    ensures Chooses(ChoiceIn(mentions, indexed), indexed, mentions)
  {
    forall term: string, used: set<nat> | ChoiceIn(mentions, indexed)(term, used).Some?
      ensures ChoiceIn(mentions, indexed)(term, used).value in Candidates(mentions, indexed, term, used)
    {
    }
  }

  /** The sentence mentions one of `terms`. */
  ghost predicate MentionsAny(mentions: (string, string) -> bool, x: Indexed, terms: seq<string>) {
    exists t :: t in terms && mentions(x.text, t)
  }

  /**
    The selection extends what was picked, never beyond three and by at most one sentence per
    remaining term, and every sentence it adds is a located one that mentions a term.
  */
  lemma PickExtends(choose: (string, set<nat>) -> Option<Indexed>, indexed: seq<Indexed>,
                    mentions: (string, string) -> bool, terms: seq<string>, i: nat, picked: seq<Indexed>,
                    used: set<nat>)
    requires Chooses(choose, indexed, mentions)
    requires i <= |terms| && |picked| <= 3
    ensures var r := Pick(choose, terms, i, picked, used);
      && |picked| <= |r| <= 3
      && |r| - |picked| <= |terms| - i
      && (forall k :: 0 <= k < |picked| ==> r[k] == picked[k])
      && forall k :: |picked| <= k < |r| ==> r[k] in indexed && MentionsAny(mentions, r[k], terms)
  {
    PickPrefix(choose, terms, i, picked, used);
    PickAdds(choose, indexed, mentions, terms, i, picked, used);
  }

  /** The sizes and the kept prefix of `PickExtends`. */
  lemma {:induction false} PickPrefix(choose: (string, set<nat>) -> Option<Indexed>, terms: seq<string>, i: nat,
                                      picked: seq<Indexed>, used: set<nat>)
    requires i <= |terms| && |picked| <= 3
    ensures var r := Pick(choose, terms, i, picked, used);
      && |picked| <= |r| <= 3
      && |r| - |picked| <= |terms| - i
      && r[..|picked|] == picked
    decreases |terms| - i
  {
    if i < |terms| && |picked| < 3 {
      match choose(terms[i], used)
      case None =>
        PickPrefix(choose, terms, i + 1, picked, used);
      case Some(e) =>
        var p2 := picked + [e];
        PickPrefix(choose, terms, i + 1, p2, used + {e.position});
        var r := Pick(choose, terms, i + 1, p2, used + {e.position});
        assert r[..|picked|] == r[..|p2|][..|picked|] == p2[..|picked|] == picked;
    } else {
      assert picked[..|picked|] == picked;
    }
  }

  /** What `PickExtends` says of the sentences added. */
  lemma {:induction false} PickAdds(choose: (string, set<nat>) -> Option<Indexed>, indexed: seq<Indexed>,
                                    mentions: (string, string) -> bool, terms: seq<string>, i: nat,
                                    picked: seq<Indexed>, used: set<nat>)
    requires Chooses(choose, indexed, mentions)
    requires i <= |terms| && |picked| <= 3
    ensures var r := Pick(choose, terms, i, picked, used);
      forall k :: |picked| <= k < |r| ==> r[k] in indexed && MentionsAny(mentions, r[k], terms)
    decreases |terms| - i
  {
    if i < |terms| && |picked| < 3 {
      match choose(terms[i], used)
      case None =>
        PickAdds(choose, indexed, mentions, terms, i + 1, picked, used);
        PickSkips(choose, terms, i, picked, used);
        var r, r' := Pick(choose, terms, i, picked, used), Pick(choose, terms, i + 1, picked, used);
        forall k | |picked| <= k < |r|
          ensures r[k] in indexed && MentionsAny(mentions, r[k], terms)
        {
          assert r[k] == r'[k];
        }
      case Some(e) =>
        var p2 := picked + [e];
        PickAdds(choose, indexed, mentions, terms, i + 1, p2, used + {e.position});
        PickPrefix(choose, terms, i + 1, p2, used + {e.position});
        var r := Pick(choose, terms, i + 1, p2, used + {e.position});
        assert r[|picked|] == r[..|p2|][|picked|] == e;
        assert terms[i] in terms && mentions(e.text, terms[i]);
    }
  }

  /** No two entries share a position. */
  ghost predicate DistinctPositions(xs: seq<Indexed>) {
    forall a, b :: 0 <= a < b < |xs| ==> xs[a].position != xs[b].position
  }

  /** No position is picked twice, given that the positions used are those of the sentences picked. */
  lemma {:induction false} PickDistinct(choose: (string, set<nat>) -> Option<Indexed>, indexed: seq<Indexed>,
                                        mentions: (string, string) -> bool, terms: seq<string>, i: nat,
                                        picked: seq<Indexed>, used: set<nat>)
    requires Chooses(choose, indexed, mentions)
    requires i <= |terms|
    requires forall x :: x in picked ==> x.position in used
    requires DistinctPositions(picked)
    ensures DistinctPositions(Pick(choose, terms, i, picked, used))
    decreases |terms| - i
  {
    if i < |terms| && |picked| < 3 {
      match choose(terms[i], used)
      case None =>
        PickDistinct(choose, indexed, mentions, terms, i + 1, picked, used);
      case Some(e) =>
        DistinctSnoc(picked, e, used);
        PickDistinct(choose, indexed, mentions, terms, i + 1, picked + [e], used + {e.position});
    }
  }

  lemma DistinctSnoc(picked: seq<Indexed>, e: Indexed, used: set<nat>)
    requires DistinctPositions(picked) && e.position !in used
    requires forall x :: x in picked ==> x.position in used
    ensures DistinctPositions(picked + [e])
    ensures forall x :: x in picked + [e] ==> x.position in used + {e.position}
  {
    var p2 := picked + [e];
    forall a, b | 0 <= a < b < |p2|
      ensures p2[a].position != p2[b].position
    {
      if b == |picked| {
        assert p2[a] in picked;
      } else {
        assert p2[a] == picked[a] && p2[b] == picked[b];
      }
    }
  }

  /**
    The first principle, when any located sentence mentions the first term, is the earliest such
    sentence.
  */
  lemma FirstPrincipleIsEarliest(mentions: (string, string) -> bool, indexed: seq<Indexed>, terms: seq<string>)
    requires terms != [] && Candidates(mentions, indexed, terms[0], {}) != []
    ensures var r := Pick(ChoiceIn(mentions, indexed), terms, 0, [], {});
      && |r| >= 1 && r[0] == Earliest(Candidates(mentions, indexed, terms[0], {}))
      && forall x :: x in indexed && mentions(x.text, terms[0]) ==> r[0].position <= x.position
  {
    var m := Candidates(mentions, indexed, terms[0], {});
    var e := Earliest(m);
    assert ChoiceIn(mentions, indexed)(terms[0], {}) == Some(e);
    FirstPickIsChoice(ChoiceIn(mentions, indexed), terms, e);
    forall x | x in indexed && mentions(x.text, terms[0])
      ensures e.position <= x.position
    {
      var k :| 0 <= k < |indexed| && indexed[k] == x;
      assert x in m;
    }
  }

  /** What `choose` gives for the first term, when it gives something, is the first pick. */
  lemma FirstPickIsChoice(choose: (string, set<nat>) -> Option<Indexed>, terms: seq<string>, e: Indexed)
    requires terms != [] && choose(terms[0], {}) == Some(e)
    ensures var r := Pick(choose, terms, 0, [], {}); |r| >= 1 && r[0] == e
  {
    var none: set<nat> := {};
    assert [] + [e] == [e] && none + {e.position} == {e.position};
    assert Pick(choose, terms, 0, [], none) == Pick(choose, terms, 1, [e], {e.position});
    PickPrefix(choose, terms, 1, [e], {e.position});
    assert Pick(choose, terms, 1, [e], {e.position})[..1] == [e];
  }

  function IndexedTexts(xs: seq<Indexed>): (r: seq<string>)
    ensures |r| == |xs| && forall k :: 0 <= k < |xs| ==> r[k] == xs[k].text
  {
    seq(|xs|, k requires 0 <= k < |xs| => xs[k].text)
  }

  lemma IndexedTextsSnoc(xs: seq<Indexed>, x: Indexed)
    ensures IndexedTexts(xs + [x]) == IndexedTexts(xs) + [x.text]
  {
    assert IndexedTexts(xs + [x])[|xs|] == x.text;
  }

  /** The selection loop over the cue terms, with its `break` once three principles are picked. */
  method SelectPrinciples(indexed: seq<Indexed>, cueTerms: seq<string>) returns (principles: seq<string>)
    ensures principles == IndexedTexts(Pick(ChoiceIn(CueMention, indexed), cueTerms, 0, [], {}))
  {
    principles := [];
    ghost var picked: seq<Indexed> := [];
    ghost var choose := ChoiceIn(CueMention, indexed);
    ghost var goal := Pick(choose, cueTerms, 0, [], {});
    var used: set<nat> := {};
    var i := 0;
    while i < |cueTerms|
      invariant 0 <= i <= |cueTerms|
      invariant principles == IndexedTexts(picked)
      invariant Pick(choose, cueTerms, i, picked, used) == goal
    {
      if |principles| >= 3 {
        break;
      }
      var chosen := EarliestCandidate(indexed, cueTerms[i], used);
      if chosen.Some? {
        var earliest := chosen.value;
        PickTakes(choose, cueTerms, i, picked, used, earliest);
        IndexedTextsSnoc(picked, earliest);
        principles := principles + [earliest.text];
        picked := picked + [earliest];
        used := used + {earliest.position};
      } else {
        PickSkips(choose, cueTerms, i, picked, used);
      }
      i := i + 1;
    }
  }

  /**
    The body of the selection loop for one term: the located sentences that mention it and are
    not used yet, and the earliest of them when there are any.
  */
  method EarliestCandidate(indexed: seq<Indexed>, term: string, used: set<nat>) returns (chosen: Option<Indexed>)
    ensures chosen == ChoiceIn(CueMention, indexed)(term, used)
  {
    var matching := Candidates(CueMention, indexed, term, used);
    if |matching| > 0 {
      chosen := Some(Earliest(matching));
    } else {
      chosen := None;
    }
  }

  /**
    The padding loop and the final `slice(0, 3)`: the selected principles first, then the
    defaults of the places they leave free, three in all.
  */
  method PadWithDefaults(selected: seq<string>) returns (principles: seq<string>)
    ensures |principles| == 3
    ensures forall k :: 0 <= k < |selected| && k < 3 ==> principles[k] == selected[k]
    ensures forall k :: |selected| <= k < 3 ==> principles[k] == Defaults[k]
  {
    principles := selected;
    while |principles| < 3
      invariant |selected| <= |principles|
      invariant |selected| < 3 ==> |principles| <= 3
      invariant |selected| >= 3 ==> principles == selected
      invariant forall k :: 0 <= k < |selected| ==> principles[k] == selected[k]
      invariant forall k :: |selected| <= k < |principles| ==> principles[k] == Defaults[k]
      decreases 3 - |principles|
    {
      principles := principles + [Defaults[|principles|]];
    }
    principles := principles[..3];
  }

  /**
    Step 4 in full: exactly three principles, the picked sentences first and the defaults of the
    remaining places after them.
  */
  method ExtractPrinciples(text: string) returns (principles: seq<string>)
    ensures var ix := IndexSpec(text, Sentences(text), 0);
      var p := Pick(ChoiceIn(CueMention, ix), CueTerms, 0, [], {});
      && |p| <= 3
      && |principles| == 3
      && (forall k :: 0 <= k < |p| ==> principles[k] == p[k].text)
      && forall k :: |p| <= k < 3 ==> principles[k] == Defaults[k]
  {
    var sentences := Sentences(text);
    var indexed := IndexSentences(text, sentences);
    var selected := SelectPrinciples(indexed, CueTerms);
    ChoiceChooses(CueMention, indexed);
    PickExtends(ChoiceIn(CueMention, indexed), indexed, CueMention, CueTerms, 0, [], {});
    principles := PadWithDefaults(selected);
  }

  /**
    The picks `p` are sentences of `text`: each occurs at the position recorded for it and mentions
    one of the terms, and no two share a position.
  */
  ghost predicate PicksFrom(text: string, terms: seq<string>, p: seq<Indexed>) {
    && (forall x :: x in p ==> OccursAt(text, x.text, x.position) && MentionsAny(CueMention, x, terms))
    && DistinctPositions(p)
  }

  /** Picking from an indexing drawn from the sentences of `text` picks sentences of `text`. */
  lemma PicksFromDrawn(text: string, ss: seq<string>, ix: seq<Indexed>, terms: seq<string>)
    requires Drawn(text, ss, ix)
    ensures PicksFrom(text, terms, Pick(ChoiceIn(CueMention, ix), terms, 0, [], {}))
  {
    ChoiceChooses(CueMention, ix);
    PickExtends(ChoiceIn(CueMention, ix), ix, CueMention, terms, 0, [], {});
    PickDistinct(ChoiceIn(CueMention, ix), ix, CueMention, terms, 0, [], {});
  }

  /**
    Every principle that is not a default is a sentence of the policy: its text occurs in the
    policy at the position recorded for it, it mentions one of the terms, and no two share a
    position. This holds for the corrected indexing and for the indexing as written alike.
  */
  lemma PrinciplesFromPolicy(text: string, terms: seq<string>)
    ensures var ss := Sentences(text);
      && PicksFrom(text, terms, Pick(ChoiceIn(CueMention, IndexSpec(text, ss, 0)), terms, 0, [], {}))
      && PicksFrom(text, terms, Pick(ChoiceIn(CueMention, IndexAsWritten(text, ss, 0)), terms, 0, [], {}))
  {
    var ss := Sentences(text);
    SpecDrawn(text);
    PicksFromDrawn(text, ss, IndexSpec(text, ss, 0), terms);
    AsWrittenDrawn(text, ss, 0);
    PicksFromDrawn(text, ss, IndexAsWritten(text, ss, 0), terms);
  }
}

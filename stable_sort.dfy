/**
  JavaScript's `Array.prototype.sort` with a consistent comparator, which the preprocessor uses four
  times (patterns by id, matches by precedence, role and risk tables by priority). The language
  guarantees that this sort is stable, so it is modelled by an in-place stable insertion sort.
  `le(a, b)` stands for "the comparator returns a value <= 0 for (a, b)".
*/
module StableSort {

  /** A comparator that is total and transitive, as JavaScript requires of a consistent one. */
  ghost predicate TotalPreorder<T(!new)>(le: (T, T) -> bool) {
    && (forall x, y :: le(x, y) || le(y, x))
    && (forall x, y, z :: le(x, y) && le(y, z) ==> le(x, z))
  }

  ghost predicate Sorted<T>(s: seq<T>, le: (T, T) -> bool) {
    forall i, j :: 0 <= i < j < |s| ==> le(s[i], s[j])
  }

  /** `a` and `b` compare equal. */
  predicate Equiv<T>(a: T, b: T, le: (T, T) -> bool) {
    le(a, b) && le(b, a)
  }

  /** The elements of `s` that compare equal to `k`, in their order in `s`. */
  function Equivs<T>(s: seq<T>, k: T, le: (T, T) -> bool): seq<T>
    decreases |s|
  {
    if s == [] then []
    else Equivs(s[..|s| - 1], k, le) + (if Equiv(s[|s| - 1], k, le) then [s[|s| - 1]] else [])
  }

  /** Insertion of `x` into `t` from the right: `x` goes after every element that does not exceed it. */
  function Insert<T>(t: seq<T>, x: T, le: (T, T) -> bool): seq<T>
    decreases |t|
  {
    if t == [] then [x]
    else if le(t[|t| - 1], x) then t + [x]
    else Insert(t[..|t| - 1], x, le) + [t[|t| - 1]]
  }

  /** The result of the stable sort: the elements inserted one by one, left to right. */
  function SortSpec<T>(s: seq<T>, le: (T, T) -> bool): seq<T>
    decreases |s|
  {
    if s == [] then [] else Insert(SortSpec(s[..|s| - 1], le), s[|s| - 1], le)
  }

  lemma {:induction false} InsertMultiset<T>(t: seq<T>, x: T, le: (T, T) -> bool)
    ensures multiset(Insert(t, x, le)) == multiset(t) + multiset{x}
    decreases |t|
  {
    if t != [] && !le(t[|t| - 1], x) {
      InsertMultiset(t[..|t| - 1], x, le);
      assert t == t[..|t| - 1] + [t[|t| - 1]];
    }
  }

  lemma SortedSnoc<T>(a: seq<T>, y: T, le: (T, T) -> bool)
    requires Sorted(a, le)
    requires forall i :: 0 <= i < |a| ==> le(a[i], y)
    ensures Sorted(a + [y], le)
  {
  }

  lemma {:induction false} InsertSorted<T(!new)>(t: seq<T>, x: T, le: (T, T) -> bool)
    requires TotalPreorder(le) && Sorted(t, le)
    ensures Sorted(Insert(t, x, le), le)
    decreases |t|
  {
    if t == [] {
    } else if le(t[|t| - 1], x) {
      SortedSnoc(t, x, le);
    } else {
      var init, last := t[..|t| - 1], t[|t| - 1];
      InsertSorted(init, x, le);
      InsertMultiset(init, x, le);
      var a := Insert(init, x, le);
      forall i | 0 <= i < |a|
        ensures le(a[i], last)
      {
        assert a[i] in multiset(a);
        if a[i] != x {
          assert a[i] in multiset(init);
          var j :| 0 <= j < |init| && init[j] == a[i];
          assert t[j] == a[i];
        }
      }
      SortedSnoc(a, last, le);
    }
  }

  lemma EquivsSnoc<T>(a: seq<T>, y: T, k: T, le: (T, T) -> bool)
    ensures Equivs(a + [y], k, le) == Equivs(a, k, le) + (if Equiv(y, k, le) then [y] else [])
  {
    assert (a + [y])[..|a|] == a;
  }

  /** Inserting `x` adds it to the end of its own equivalence class and leaves the others alone. */
  lemma {:induction false} InsertEquivs<T(!new)>(t: seq<T>, x: T, k: T, le: (T, T) -> bool)
    requires TotalPreorder(le)
    ensures Equivs(Insert(t, x, le), k, le) == Equivs(t, k, le) + (if Equiv(x, k, le) then [x] else [])
    decreases |t|
  {
    if t == [] {
      EquivsSnoc([], x, k, le);
    } else if le(t[|t| - 1], x) {
      EquivsSnoc(t, x, k, le);
    } else {
      var init, last := t[..|t| - 1], t[|t| - 1];
      InsertEquivs(init, x, k, le);
      EquivsSnoc(Insert(init, x, le), last, k, le);
      assert !(Equiv(x, k, le) && Equiv(last, k, le));
    }
  }

  /**
    The stable sort sorts, permutes, and keeps the relative order of elements that compare equal:
    for every key, the subsequence of elements equivalent to it is the same before and after.
  */
  lemma SortSpecCorrect<T(!new)>(s: seq<T>, le: (T, T) -> bool)
    requires TotalPreorder(le)
    ensures Sorted(SortSpec(s, le), le)
    ensures multiset(SortSpec(s, le)) == multiset(s)
    ensures forall k :: Equivs(SortSpec(s, le), k, le) == Equivs(s, k, le)
  {
    SortSpecSorted(s, le);
    SortSpecPermutes(s, le);
    forall k
      ensures Equivs(SortSpec(s, le), k, le) == Equivs(s, k, le)
    {
      SortSpecStable(s, k, le);
    }
  }

  lemma {:induction false} SortSpecSorted<T(!new)>(s: seq<T>, le: (T, T) -> bool)
    requires TotalPreorder(le)
    ensures Sorted(SortSpec(s, le), le)
    decreases |s|
  {
    if s != [] {
      SortSpecSorted(s[..|s| - 1], le);
      InsertSorted(SortSpec(s[..|s| - 1], le), s[|s| - 1], le);
    }
  }

  lemma {:induction false} SortSpecPermutes<T>(s: seq<T>, le: (T, T) -> bool)
    ensures multiset(SortSpec(s, le)) == multiset(s)
    decreases |s|
  {
    if s != [] {
      var init, last := s[..|s| - 1], s[|s| - 1];
      SortSpecPermutes(init, le);
      InsertMultiset(SortSpec(init, le), last, le);
      assert s == init + [last];
    }
  }

  lemma {:induction false} SortSpecStable<T(!new)>(s: seq<T>, k: T, le: (T, T) -> bool)
    requires TotalPreorder(le)
    ensures Equivs(SortSpec(s, le), k, le) == Equivs(s, k, le)
    decreases |s|
  {
    if s != [] {
      var init, last := s[..|s| - 1], s[|s| - 1];
      SortSpecStable(init, k, le);
      InsertEquivs(SortSpec(init, le), last, k, le);
      EquivsSnoc(init, last, k, le);
      assert s == init + [last];
    }
  }

  /** The length of a sequence is kept by sorting it. */
  lemma SortSpecLength<T(!new)>(s: seq<T>, le: (T, T) -> bool)
    requires TotalPreorder(le)
    ensures |SortSpec(s, le)| == |s|
  {
    SortSpecCorrect(s, le);
    assert |multiset(SortSpec(s, le))| == |multiset(s)|;
  }

  /** `a.sort(cmp)` in place: each element in turn is inserted into the sorted prefix before it. */
  method SortInPlace<T>(a: array<T>, le: (T, T) -> bool)
    modifies a
    ensures a[..] == SortSpec(old(a[..]), le)
  {
    ghost var s := a[..];
    var i := 0;
    while i < a.Length
      invariant 0 <= i <= a.Length
      invariant a[..i] == SortSpec(s[..i], le)
      invariant a[i..] == s[i..]
    {
      InsertInPlace(a, i, le);
      assert s[..i + 1][..i] == s[..i];
      assert s[i] == s[i..][0];
      i := i + 1;
    }
    assert a[..] == a[..a.Length];
    assert s == s[..a.Length];
  }

  /** Moves `a[i]` left past the larger elements of `a[..i]`, shifting them one slot to the right. */
  method InsertInPlace<T>(a: array<T>, i: nat, le: (T, T) -> bool)
    requires i < a.Length
    modifies a
    ensures a[..i + 1] == Insert(old(a[..i]), old(a[i]), le)
    ensures a[i + 1..] == old(a[i + 1..])
  {
    ghost var t := a[..i];
    var x := a[i];
    InsertPosBounds(t, x, le);
    var j := i;
    while j > 0 && !le(a[j - 1], x)
      invariant InsertPos(t, x, le) <= j <= i
      invariant forall k :: 0 <= k < j ==> a[k] == t[k]
      invariant forall k :: j < k <= i ==> a[k] == t[k - 1]
      invariant forall k :: i < k < a.Length ==> a[k] == old(a[k])
    {
      a[j] := a[j - 1];
      j := j - 1;
    }
    a[j] := x;
    InsertedAt(a[..i + 1], t, j, x, le);
    assert a[i + 1..] == old(a[i + 1..]);
  }

  /** Where `Insert` puts `x` into `t`: after the last element that does not exceed it. */
  function InsertPos<T>(t: seq<T>, x: T, le: (T, T) -> bool): nat
    decreases |t|
  {
    if t == [] || le(t[|t| - 1], x) then |t| else InsertPos(t[..|t| - 1], x, le)
  }

  /**
    `InsertPos` is the start or just after an element that does not exceed `x`, and every element
    after it exceeds `x`.
  */
  lemma {:induction false} InsertPosBounds<T>(t: seq<T>, x: T, le: (T, T) -> bool)
    ensures var p := InsertPos(t, x, le);
      && p <= |t|
      && (p == 0 || le(t[p - 1], x))
      && (forall q :: p <= q < |t| ==> !le(t[q], x))
    decreases |t|
  {
    if t != [] && !le(t[|t| - 1], x) {
      var init := t[..|t| - 1];
      InsertPosBounds(init, x, le);
      forall q | InsertPos(init, x, le) <= q < |t| - 1
        ensures !le(t[q], x)
      {
        assert t[q] == init[q];
      }
    }
  }

  /** `Insert` puts `x` in at `InsertPos`. */
  lemma {:induction false} InsertIsSplice<T>(t: seq<T>, x: T, le: (T, T) -> bool)
    ensures InsertPos(t, x, le) <= |t|
    ensures Insert(t, x, le) == t[..InsertPos(t, x, le)] + [x] + t[InsertPos(t, x, le)..]
    decreases |t|
  {
    if t != [] && !le(t[|t| - 1], x) {
      var init, last := t[..|t| - 1], t[|t| - 1];
      InsertIsSplice(init, x, le);
      var p := InsertPos(init, x, le);
      assert init[..p] == t[..p];
      assert init[p..] + [last] == t[p..];
    }
  }

  /**
    A sequence `u` that is `t` with `x` put in at index `j`, element by element, is the insertion
    of `x` into `t` when nothing exceeding `x` is left before `j` and nothing after it does not.
  */
  lemma InsertedAt<T>(u: seq<T>, t: seq<T>, j: nat, x: T, le: (T, T) -> bool)
    requires InsertPos(t, x, le) <= j <= |t| && (j == 0 || le(t[j - 1], x))
    requires forall q :: InsertPos(t, x, le) <= q < |t| ==> !le(t[q], x)
    requires |u| == |t| + 1 && u[j] == x
    requires forall k :: 0 <= k < j ==> u[k] == t[k]
    requires forall k :: j < k < |u| ==> u[k] == t[k - 1]
    ensures u == Insert(t, x, le)
  {
    if j > 0 {
      assert le(t[j - 1], x);
      assert j - 1 < InsertPos(t, x, le);
    }
    InsertIsSplice(t, x, le);
    SpliceAt(u, t, j, x);
  }

  /** `u` is `t` with `x` put in at index `j`, when so element by element. */
  lemma SpliceAt<T>(u: seq<T>, t: seq<T>, j: nat, x: T)
    requires j <= |t| && |u| == |t| + 1 && u[j] == x
    requires forall k :: 0 <= k < j ==> u[k] == t[k]
    requires forall k :: j < k < |u| ==> u[k] == t[k - 1]
    ensures u == t[..j] + [x] + t[j..]
  {
  }

  /** `f` applied to every element of `s`, in order: `s.map(f)`. */
  function Map<T, U>(s: seq<T>, f: T -> U): (r: seq<U>)
    ensures |r| == |s| && forall i :: 0 <= i < |s| ==> r[i] == f(s[i])
  {
    seq(|s|, i requires 0 <= i < |s| => f(s[i]))
  }

  lemma MapConcat<T, U>(a: seq<T>, b: seq<T>, f: T -> U)
    ensures Map(a + b, f) == Map(a, f) + Map(b, f)
  {
  }

  /** Mapping one more element adds its image to the mapped multiset. */
  lemma MapSnoc<T, U>(a: seq<T>, x: T, f: T -> U)
    ensures multiset(Map(a + [x], f)) == multiset(Map(a, f)) + multiset{f(x)}
  {
    assert Map(a + [x], f) == Map(a, f) + [f(x)];
  }

  /** Two sequences that hold the same elements, as often, are still so once mapped by `f`. */
  lemma {:induction false} MapPermutation<T, U>(a: seq<T>, b: seq<T>, f: T -> U)
    requires multiset(a) == multiset(b)
    ensures multiset(Map(a, f)) == multiset(Map(b, f))
    decreases |a|
  {
    if a == [] {
      assert |b| == |multiset(b)| == 0;
    } else {
      var init, x := a[..|a| - 1], a[|a| - 1];
      var j := RemoveLast(a, b);
      var front, back := b[..j], b[j + 1..];
      MapPermutation(init, front + back, f);
      assert b == front + [x] + back;
      MapSplice(front, x, back, f);
      assert a == init + [x];
      MapConcat(init, [x], f);
    }
  }

  /** The last element of `a` sits somewhere in `b`, and the rest of both agree as multisets. */
  lemma RemoveLast<T>(a: seq<T>, b: seq<T>) returns (j: nat)
    requires a != [] && multiset(a) == multiset(b)
    ensures j < |b| && b[j] == a[|a| - 1]
    ensures multiset(a[..|a| - 1]) == multiset(b[..j] + b[j + 1..])
  {
    var init, x := a[..|a| - 1], a[|a| - 1];
    assert a == init + [x];
    assert x in multiset(b);
    j :| 0 <= j < |b| && b[j] == x;
    var front, back := b[..j], b[j + 1..];
    assert b == front + [x] + back;
    MultisetSplice(front, x, back);
    assert multiset(init) + multiset{x} == multiset(front + back) + multiset{x};
    MultisetCancel(multiset(init), multiset(front + back), x);
  }

  lemma MultisetSplice<T>(front: seq<T>, x: T, back: seq<T>)
    ensures multiset(front + [x] + back) == multiset(front + back) + multiset{x}
  {
    assert front + [x] + back == front + ([x] + back);
  }

  lemma MultisetCancel<T>(m1: multiset<T>, m2: multiset<T>, x: T)
    requires m1 + multiset{x} == m2 + multiset{x}
    ensures m1 == m2
  {
    assert m1 == (m1 + multiset{x}) - multiset{x};
    assert m2 == (m2 + multiset{x}) - multiset{x};
  }

  /** Mapping an element spliced between two parts adds its image to the mapped parts. */
  lemma MapSplice<T, U>(front: seq<T>, x: T, back: seq<T>, f: T -> U)
    ensures multiset(Map(front + [x] + back, f)) == multiset(Map(front + back, f)) + multiset{f(x)}
  {
    MapConcat(front, back, f);
    MapConcat(front + [x], back, f);
    MapConcat(front, [x], f);
  }
}

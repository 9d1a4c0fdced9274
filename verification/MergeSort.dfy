/**
 Bottom-up merge sort on sequences: what one pass over runs of a given width does, and
 why passes of doubling width sort stably.
 */
module MergeSort {

  // cmp(x, y) <= 0 is a total preorder on the elements of d.
  ghost predicate PreorderOn<E>(cmp: (E, E) -> int, d: set<E>) {
    && (forall x, y :: x in d && y in d ==> cmp(x, y) <= 0 || cmp(y, x) <= 0)
    && (forall x, y, z :: x in d && y in d && z in d && cmp(x, y) <= 0 && cmp(y, z) <= 0 ==> cmp(x, z) <= 0)
  }

  ghost function Elements<E>(s: seq<E>): set<E> { set x | x in s }

  ghost predicate Within<E>(s: seq<E>, d: set<E>) {
    forall x :: x in s ==> x in d
  }

  ghost predicate Sorted<E>(cmp: (E, E) -> int, s: seq<E>) {
    forall i, j :: 0 <= i <= j < |s| ==> i == j || cmp(s[i], s[j]) <= 0
  }

  predicate Equiv<E>(cmp: (E, E) -> int, x: E, y: E) {
    cmp(x, y) <= 0 && cmp(y, x) <= 0
  }

  // The elements of s equivalent to x, in the order of s.
  function Class<E>(cmp: (E, E) -> int, s: seq<E>, x: E): seq<E> {
    if |s| == 0 then []
    else if Equiv(cmp, s[0], x) then [s[0]] + Class(cmp, s[1..], x) else Class(cmp, s[1..], x)
  }

  // Same elements, and equivalent ones in the same order.
  ghost predicate StablePermutation<E>(cmp: (E, E) -> int, d: set<E>, s: seq<E>, r: seq<E>) {
    && multiset(r) == multiset(s)
    && forall x :: x in d ==> Class(cmp, r, x) == Class(cmp, s, x)
  }

  // The inner loop of the sort: equal elements come from a first.
  function Merge<E>(cmp: (E, E) -> int, a: seq<E>, b: seq<E>): (r: seq<E>)
    ensures |r| == |a| + |b|
  {
    if |a| == 0 then b
    else if |b| == 0 then a
    else if cmp(a[0], b[0]) <= 0 then [a[0]] + Merge(cmp, a[1..], b)
    else [b[0]] + Merge(cmp, a, b[1..])
  }

  function Min(a: nat, b: nat): nat { if a < b then a else b }

  // One pass: runs of width w are merged in pairs.
  function Pass<E>(cmp: (E, E) -> int, s: seq<E>, w: nat): (r: seq<E>)
    requires w > 0
    ensures |r| == |s|
    decreases |s|
  {
    if |s| == 0 then []
    else
      var p, q := Min(w, |s|), Min(2 * w, |s|);
      Merge(cmp, s[..p], s[p..q]) + Pass(cmp, s[q..], w)
  }

  // The number of merges a pass makes.
  function Merges(n: nat, w: nat): (k: nat)
    requires w > 0
    ensures k <= 1 <==> n <= 2 * w
    ensures k == 0 <==> n == 0
    decreases n
  {
    if n == 0 then 0 else if n <= 2 * w then 1 else 1 + Merges(n - 2 * w, w)
  }

  // Passes of width w, 2w, 4w, ... up to and including the first that makes at most one merge.
  function BottomUp<E>(cmp: (E, E) -> int, s: seq<E>, w: nat): (r: seq<E>)
    requires w > 0
    ensures |r| == |s|
    decreases |s| - w
  {
    var t := Pass(cmp, s, w);
    if |s| <= 2 * w then t else BottomUp(cmp, t, 2 * w)
  }

  // Consecutive runs of width w, each sorted.
  ghost predicate SortedRuns<E>(cmp: (E, E) -> int, s: seq<E>, w: nat)
    requires w > 0
    decreases |s|
  {
    if |s| <= w then Sorted(cmp, s) else Sorted(cmp, s[..w]) && SortedRuns(cmp, s[w..], w)
  }

  lemma {:induction false} ClassConcat<E>(cmp: (E, E) -> int, a: seq<E>, b: seq<E>, x: E)
    ensures Class(cmp, a + b, x) == Class(cmp, a, x) + Class(cmp, b, x)
  {
    if |a| == 0 {
      assert a + b == b;
    } else {
      assert (a + b)[1..] == a[1..] + b;
      ClassConcat(cmp, a[1..], b, x);
    }
  }

  // If every element of a comes strictly after x, none is equivalent to x.
  lemma {:induction false} ClassEmpty<E>(cmp: (E, E) -> int, a: seq<E>, x: E)
    requires forall k :: 0 <= k < |a| ==> cmp(a[k], x) > 0
    ensures Class(cmp, a, x) == []
  {
    if |a| > 0 { ClassEmpty(cmp, a[1..], x); }
  }

  lemma {:induction false} MergeElements<E>(cmp: (E, E) -> int, a: seq<E>, b: seq<E>)
    ensures multiset(Merge(cmp, a, b)) == multiset(a) + multiset(b)
  {
    if |a| > 0 && |b| > 0 {
      assert a == [a[0]] + a[1..] && b == [b[0]] + b[1..];
      if cmp(a[0], b[0]) <= 0 { MergeElements(cmp, a[1..], b); } else { MergeElements(cmp, a, b[1..]); }
    }
  }

  lemma MergeIn<E>(cmp: (E, E) -> int, a: seq<E>, b: seq<E>)
    ensures forall x :: x in Merge(cmp, a, b) <==> x in a || x in b
  {
    MergeElements(cmp, a, b);
    forall x ensures x in Merge(cmp, a, b) <==> x in a || x in b {
      assert x in Merge(cmp, a, b) <==> x in multiset(Merge(cmp, a, b));
    }
  }

  ghost predicate Below<E>(cmp: (E, E) -> int, x: E, s: seq<E>) {
    forall y :: y in s ==> cmp(x, y) <= 0
  }

  lemma SortedCons<E>(cmp: (E, E) -> int, x: E, s: seq<E>)
    requires Sorted(cmp, s) && Below(cmp, x, s)
    ensures Sorted(cmp, [x] + s)
  {
  }

  // What comes before the first element of a sorted run comes before all of it.
  lemma HeadBelow<E>(cmp: (E, E) -> int, d: set<E>, x: E, s: seq<E>)
    requires PreorderOn(cmp, d) && Within(s, d) && x in d && Sorted(cmp, s) && |s| > 0 && cmp(x, s[0]) <= 0
    ensures Below(cmp, x, s)
  {
    forall k | 0 <= k < |s| ensures cmp(x, s[k]) <= 0 {
      assert k == 0 || cmp(s[0], s[k]) <= 0;
    }
  }

  lemma SortedTail<E>(cmp: (E, E) -> int, d: set<E>, s: seq<E>)
    requires Sorted(cmp, s) && Within(s, d) && |s| > 0
    ensures Sorted(cmp, s[1..]) && Within(s[1..], d) && s[0] in d && Below(cmp, s[0], s[1..])
  {
  }

  lemma BelowMerge<E>(cmp: (E, E) -> int, x: E, a: seq<E>, b: seq<E>)
    requires Below(cmp, x, a) && Below(cmp, x, b)
    ensures Below(cmp, x, Merge(cmp, a, b))
  {
    MergeIn(cmp, a, b);
  }

  lemma Total<E>(cmp: (E, E) -> int, d: set<E>, x: E, y: E)
    requires PreorderOn(cmp, d) && x in d && y in d && cmp(x, y) > 0
    ensures cmp(y, x) <= 0
  {
  }

  lemma {:induction false} MergeSorts<E>(cmp: (E, E) -> int, d: set<E>, a: seq<E>, b: seq<E>)
    requires PreorderOn(cmp, d) && Within(a, d) && Within(b, d) && Sorted(cmp, a) && Sorted(cmp, b)
    ensures Sorted(cmp, Merge(cmp, a, b))
  {
    if |a| > 0 && |b| > 0 {
      SortedTail(cmp, d, a);
      SortedTail(cmp, d, b);
      hide Sorted, Within, PreorderOn, Below;
      if cmp(a[0], b[0]) <= 0 {
        MergeSorts(cmp, d, a[1..], b);
        HeadBelow(cmp, d, a[0], b);
        BelowMerge(cmp, a[0], a[1..], b);
        SortedCons(cmp, a[0], Merge(cmp, a[1..], b));
      } else {
        MergeSorts(cmp, d, a, b[1..]);
        Total(cmp, d, a[0], b[0]);
        HeadBelow(cmp, d, b[0], a);
        BelowMerge(cmp, b[0], a, b[1..]);
        SortedCons(cmp, b[0], Merge(cmp, a, b[1..]));
      }
    }
  }

  // Merging sorted runs keeps equivalent elements in order, those of a before those of b.
  lemma {:induction false} MergeIsStable<E>(cmp: (E, E) -> int, d: set<E>, a: seq<E>, b: seq<E>, x: E)
    requires PreorderOn(cmp, d) && Within(a, d) && Within(b, d) && x in d && Sorted(cmp, a)
    ensures Class(cmp, Merge(cmp, a, b), x) == Class(cmp, a, x) + Class(cmp, b, x)
  {
    if |a| > 0 && |b| > 0 {
      if cmp(a[0], b[0]) <= 0 {
        MergeIsStable(cmp, d, a[1..], b, x);
        ClassConcat(cmp, [a[0]], Merge(cmp, a[1..], b), x);
        ClassConcat(cmp, [a[0]], a[1..], x);
        assert a == [a[0]] + a[1..];
      } else {
        MergeIsStable(cmp, d, a, b[1..], x);
        ClassConcat(cmp, [b[0]], Merge(cmp, a, b[1..]), x);
        ClassConcat(cmp, [b[0]], b[1..], x);
        assert b == [b[0]] + b[1..];
        if Equiv(cmp, b[0], x) {
          forall k | 0 <= k < |a| ensures cmp(a[k], x) > 0 {
            assert k == 0 || cmp(a[0], a[k]) <= 0;
            if cmp(a[k], x) <= 0 { assert false; }
          }
          ClassEmpty(cmp, a, x);
        }
      }
    }
  }

  // Merging two runs and permuting the rest permutes the whole.
  lemma StableStep<E>(cmp: (E, E) -> int, d: set<E>, a: seq<E>, b: seq<E>, c: seq<E>, r: seq<E>)
    requires PreorderOn(cmp, d) && Within(a, d) && Within(b, d) && Sorted(cmp, a) && StablePermutation(cmp, d, c, r)
    ensures StablePermutation(cmp, d, a + b + c, Merge(cmp, a, b) + r)
  {
    hide Sorted, Within, Merge, Class, PreorderOn;
    MergeElements(cmp, a, b);
    forall x | x in d ensures Class(cmp, Merge(cmp, a, b) + r, x) == Class(cmp, a + b + c, x) {
      MergeIsStable(cmp, d, a, b, x);
      ClassConcat(cmp, Merge(cmp, a, b), r, x);
      ClassConcat(cmp, a + b, c, x);
      ClassConcat(cmp, a, b, x);
    }
  }

  // A pass doubles the width of the sorted runs and is a stable permutation.
  lemma {:induction false} PassStep<E>(cmp: (E, E) -> int, d: set<E>, s: seq<E>, w: nat)
    requires w > 0 && PreorderOn(cmp, d) && Within(s, d) && SortedRuns(cmp, s, w)
    ensures SortedRuns(cmp, Pass(cmp, s, w), 2 * w)
    ensures StablePermutation(cmp, d, s, Pass(cmp, s, w))
    decreases |s|
  {
    if |s| > 0 {
      var p, q := Min(w, |s|), Min(2 * w, |s|);
      FirstRuns(cmp, s, w);
      SplitThree(s, d, p, q);
      hide SortedRuns, Sorted, Within, Merge, StablePermutation, PreorderOn;
      MergeSorts(cmp, d, s[..p], s[p..q]);
      PassStep(cmp, d, s[q..], w);
      JoinRuns(cmp, Merge(cmp, s[..p], s[p..q]), Pass(cmp, s[q..], w), 2 * w);
      StableStep(cmp, d, s[..p], s[p..q], s[q..], Pass(cmp, s[q..], w));
    }
  }

  lemma SplitThree<E>(s: seq<E>, d: set<E>, p: nat, q: nat)
    requires p <= q <= |s| && Within(s, d)
    ensures s == s[..p] + s[p..q] + s[q..]
    ensures multiset(s) == multiset(s[..p]) + multiset(s[p..q]) + multiset(s[q..])
    ensures Within(s[..p], d) && Within(s[p..q], d) && Within(s[q..], d)
  {
    assert s == s[..p] + s[p..q] + s[q..];
  }

  lemma FirstRun<E>(cmp: (E, E) -> int, s: seq<E>, w: nat)
    requires w > 0 && |s| > 0 && SortedRuns(cmp, s, w)
    ensures Sorted(cmp, s[..Min(w, |s|)]) && SortedRuns(cmp, s[Min(w, |s|)..], w)
  {
    hide Sorted;
    if |s| <= w {
      assert s[..|s|] == s && s[|s|..] == [];
      NothingSorted(cmp);
    }
  }

  lemma NothingSorted<E>(cmp: (E, E) -> int)
    ensures Sorted(cmp, [])
  {
  }

  lemma FirstRuns<E>(cmp: (E, E) -> int, s: seq<E>, w: nat)
    requires w > 0 && |s| > 0 && SortedRuns(cmp, s, w)
    ensures Sorted(cmp, s[..Min(w, |s|)]) && Sorted(cmp, s[Min(w, |s|)..Min(2 * w, |s|)])
    ensures SortedRuns(cmp, s[Min(2 * w, |s|)..], w)
  {
    hide Sorted, SortedRuns;
    FirstRun(cmp, s, w);
    if |s| <= w {
      assert s[|s|..|s|] == [];
      NothingSorted(cmp);
    } else {
      var t := s[w..];
      FirstRun(cmp, t, w);
      assert t[..Min(w, |t|)] == s[w..Min(2 * w, |s|)] && t[Min(w, |t|)..] == s[Min(2 * w, |s|)..];
    }
  }

  lemma JoinRuns<E>(cmp: (E, E) -> int, m: seq<E>, r: seq<E>, w: nat)
    requires w > 0 && |m| <= w && (|r| > 0 ==> |m| == w) && Sorted(cmp, m) && SortedRuns(cmp, r, w)
    ensures SortedRuns(cmp, m + r, w)
  {
    if |r| == 0 {
      assert m + r == m;
    } else {
      assert (m + r)[..w] == m && (m + r)[w..] == r;
    }
  }

  lemma {:induction false} SortedRunsOfOne<E>(cmp: (E, E) -> int, s: seq<E>)
    ensures SortedRuns(cmp, s, 1)
    decreases |s|
  {
    if |s| > 1 { SortedRunsOfOne(cmp, s[1..]); }
  }

  lemma {:induction false} BottomUpSorts<E>(cmp: (E, E) -> int, d: set<E>, s: seq<E>, w: nat)
    requires w > 0 && PreorderOn(cmp, d) && Within(s, d) && SortedRuns(cmp, s, w)
    ensures Sorted(cmp, BottomUp(cmp, s, w)) && StablePermutation(cmp, d, s, BottomUp(cmp, s, w))
    decreases |s| - w
  {
    var t := Pass(cmp, s, w);
    PassStep(cmp, d, s, w);
    if |s| > 2 * w {
      forall x | x in t ensures x in d { assert x in multiset(t); }
      BottomUpSorts(cmp, d, t, 2 * w);
    }
  }

  // The whole sort: sorted, the same elements, and stable.
  lemma BottomUpIsStableSort<E>(cmp: (E, E) -> int, s: seq<E>)
    requires PreorderOn(cmp, Elements(s))
    ensures Sorted(cmp, BottomUp(cmp, s, 1))
    ensures StablePermutation(cmp, Elements(s), s, BottomUp(cmp, s, 1))
  {
    SortedRunsOfOne(cmp, s);
    BottomUpSorts(cmp, Elements(s), s, 1);
  }
}

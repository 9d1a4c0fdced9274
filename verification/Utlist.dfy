/**
 LL_SORT2, DL_SORT2 and CDL_SORT2: merge sort by relinking the nodes of a list in place.
 The three macros share their code and differ in what ends a list, in whether prev links
 are written, and in how the rebuilt list is closed.
 */
module Utlist {
  import opened MergeSort

  class Node<T> {
    const data: T
    var next: Node?<T>
    var prev: Node?<T>

    constructor (data: T) {
      this.data := data;
      next, prev := null, null;
    }
  }

  datatype Kind = LL | DL | CDL

  ghost function First<T>(s: seq<Node<T>>): Node?<T> { if |s| == 0 then null else s[0] }

  ghost function Last<T>(s: seq<Node<T>>): Node?<T> { if |s| == 0 then null else s[|s| - 1] }

  ghost predicate NoDup<T>(s: seq<Node<T>>) {
    forall i, j :: 0 <= i < j < |s| ==> s[i] != s[j]
  }

  ghost predicate Apart<T>(a: seq<Node<T>>, b: seq<Node<T>>) {
    forall i, j :: 0 <= i < |a| && 0 <= j < |b| ==> a[i] != b[j]
  }

  // Consecutive nodes are linked forwards.
  ghost predicate Linked<T>(s: seq<Node<T>>)
    reads s
  {
    forall i :: 0 <= i < |s| - 1 ==> s[i].next == s[i + 1]
  }

  // Consecutive nodes are linked backwards, and the first one's prev is `first`.
  ghost predicate LinkedBack<T>(s: seq<Node<T>>, first: Node?<T>)
    reads s
  {
    (|s| > 0 ==> s[0].prev == first) && forall i {:trigger s[i].prev} :: 1 <= i < |s| ==> s[i].prev == s[i - 1]
  }

  // A forward chain that ends in a link to `stop`: null, or the head of a circular list.
  ghost predicate Chain<T>(s: seq<Node<T>>, stop: Node?<T>)
    reads s
  {
    Linked(s) && (|s| > 0 ==> s[|s| - 1].next == stop)
  }

  // `stop` cannot be mistaken for a successor within the chain.
  ghost predicate Stops<T>(s: seq<Node<T>>, stop: Node?<T>) {
    forall i :: 1 <= i < |s| ==> s[i] != stop
  }

  // The nodes s, in order, are a list of this kind as far as next links go.
  ghost predicate ForwardList<T>(kind: Kind, s: seq<Node<T>>, head: Node?<T>)
    reads s
  {
    head == First(s) && NoDup(s) && Chain(s, if kind.CDL? then head else null)
  }

  // A complete list: in the doubly linked kinds every prev link too, the head's being the tail.
  ghost predicate List<T>(kind: Kind, s: seq<Node<T>>, head: Node?<T>)
    reads s
  {
    ForwardList(kind, s, head) && (!kind.LL? ==> LinkedBack(s, Last(s)))
  }

  // The successor of n, null at the end.
  function Next<T>(n: Node<T>, stop: Node?<T>): Node?<T>
    reads n
  {
    if n.next == stop then null else n.next
  }

  // The for loop that steps q over the first run.
  method SkipRun<T>(p: Node<T>, insize: nat, stop: Node?<T>, ghost s: seq<Node<T>>)
    returns (q: Node?<T>, psize: nat)
    requires insize > 0 && |s| > 0 && p == s[0] && Chain(s, stop) && Stops(s, stop)
    ensures psize == Min(insize, |s|) && q == First(s[psize..])
  {
    q, psize := p, 0;
    while psize < insize
      invariant psize <= insize && psize < |s| && q == s[psize]
    {
      assert psize + 1 < |s| ==> s[psize + 1] != stop && q.next == s[psize + 1];
      psize := psize + 1;
      q := Next(q, stop);
      if q == null { break; }
    }
  }

  // The rebuilt part of the list.
  ghost predicate Built<T>(kind: Kind, out: seq<Node<T>>, list: Node?<T>, tail: Node?<T>)
    reads out
  {
    NoDup(out) && Linked(out) && list == First(out) && tail == Last(out) && (!kind.LL? ==> LinkedBack(out, null))
  }

  // The three parts of the nodes during a merge: rebuilt, left of the first run, and the rest of
  // the chain, which starts with the second run.
  ghost predicate Merging<T>(kind: Kind, stop: Node?<T>, out: seq<Node<T>>, ps: seq<Node<T>>, qs: seq<Node<T>>)
    reads out, ps, qs
  {
    && NoDup(ps) && NoDup(qs) && Apart(out, ps) && Apart(out, qs) && Apart(ps, qs)
    && Linked(ps) && Chain(qs, stop) && Stops(ps, stop) && Stops(qs, stop) && (stop != null ==> Apart([stop], qs))
  }

  // Taking the head of one run leaves the shape intact, once the head has been relinked.
  lemma TakeP<T>(kind: Kind, stop: Node?<T>, out: seq<Node<T>>, ps: seq<Node<T>>, qs: seq<Node<T>>)
    requires |ps| > 0 && Merging(kind, stop, out, ps, qs)
    ensures Merging(kind, stop, out + [ps[0]], ps[1..], qs) && Apart(out, [ps[0]])
    ensures |ps| > 1 ==> Next(ps[0], stop) == ps[1]
  {
    assert |ps| > 1 ==> ps[0].next == ps[1] && ps[1] != stop;
  }

  lemma TakeQ<T>(kind: Kind, stop: Node?<T>, out: seq<Node<T>>, ps: seq<Node<T>>, qs: seq<Node<T>>)
    requires |qs| > 0 && Merging(kind, stop, out, ps, qs)
    ensures Merging(kind, stop, out + [qs[0]], ps, qs[1..]) && Apart(out, [qs[0]])
    ensures Next(qs[0], stop) == First(qs[1..])
  {
    assert |qs| > 1 ==> qs[0].next == qs[1] && qs[1] != stop;
  }

  lemma LastIsApart<T>(kind: Kind, stop: Node?<T>, out: seq<Node<T>>, e: Node<T>, ps: seq<Node<T>>, qs: seq<Node<T>>)
    requires Merging(kind, stop, out + [e], ps, qs)
    ensures forall i :: 0 <= i < |ps| ==> ps[i] != e && ps[i] != Last(out)
    ensures forall i :: 0 <= i < |qs| ==> qs[i] != e && qs[i] != Last(out)
  {
    assert (out + [e])[|out|] == e;
    assert |out| > 0 ==> (out + [e])[|out| - 1] == Last(out);
  }

  // Appends e to the rebuilt part.
  method Emit<T>(kind: Kind, e: Node<T>, list: Node?<T>, tail: Node?<T>,
                 ghost out: seq<Node<T>>, ghost stop: Node?<T>, ghost ps: seq<Node<T>>, ghost qs: seq<Node<T>>)
    returns (list': Node?<T>)
    requires Built(kind, out, list, tail) && Apart(out, [e]) && Merging(kind, stop, out + [e], ps, qs)
    modifies tail, e
    ensures Built(kind, out + [e], list', e) && Merging(kind, stop, out + [e], ps, qs)
  {
    LastIsApart(kind, stop, out, e, ps, qs);
    forall i | 0 <= i < |out| ensures out[i] != e { assert out[i] != [e][0]; }
    list' := list;
    if tail != null {
      tail.next := e;
    } else {
      list' := e;
    }
    assert Linked(out + [e]);
    if !kind.LL? {
      e.prev := tail;
      ghost var out' := out + [e];
      forall i {:trigger out'[i].prev} | 1 <= i < |out'| ensures out'[i].prev == out'[i - 1] {
        if i < |out| { assert old(out[i].prev) == out[i - 1]; }
      }
    }
  }

  // The merge still to be done: ps with the first k nodes of qs.
  ghost function ToMerge<T>(cmp: (Node<T>, Node<T>) -> int, ps: seq<Node<T>>, qs: seq<Node<T>>, k: nat): seq<Node<T>> {
    Merge(cmp, ps, qs[..Min(k, |qs|)])
  }

  lemma MergeTakesP<T>(cmp: (Node<T>, Node<T>) -> int, out: seq<Node<T>>, ps: seq<Node<T>>, qs: seq<Node<T>>, k: nat)
    requires |ps| > 0 && (k == 0 || |qs| == 0 || cmp(ps[0], qs[0]) <= 0)
    ensures out + ToMerge(cmp, ps, qs, k) == out + [ps[0]] + ToMerge(cmp, ps[1..], qs, k)
  {
    var b := qs[..Min(k, |qs|)];
    if |b| == 0 {
      assert ToMerge(cmp, ps, qs, k) == ps == [ps[0]] + ps[1..];
      assert ToMerge(cmp, ps[1..], qs, k) == ps[1..] by { if |ps| == 1 { assert b == ps[1..]; } }
    }
  }

  lemma MergeTakesQ<T>(cmp: (Node<T>, Node<T>) -> int, out: seq<Node<T>>, ps: seq<Node<T>>, qs: seq<Node<T>>, k: nat)
    requires |qs| > 0 && k > 0 && (|ps| == 0 || cmp(ps[0], qs[0]) > 0)
    ensures out + ToMerge(cmp, ps, qs, k) == out + [qs[0]] + ToMerge(cmp, ps, qs[1..], k - 1)
    ensures qs[Min(k, |qs|)..] == qs[1..][Min(k - 1, |qs| - 1)..]
  {
    var b := qs[..Min(k, |qs|)];
    assert b[0] == qs[0] && b[1..] == qs[1..][..Min(k - 1, |qs| - 1)];
    if |ps| == 0 {
      assert b == [b[0]] + b[1..];
    }
  }

  // The inner while loop: merges the run ps with at most `insize` nodes of the chain qs behind
  // the rebuilt part, and returns the rest of the chain.
  method MergeRuns<T>(kind: Kind, cmp: (Node<T>, Node<T>) -> int, stop: Node?<T>, p0: Node<T>, q0: Node?<T>, psize0: nat, insize: nat,
                      list0: Node?<T>, tail0: Node?<T>,
                      ghost out0: seq<Node<T>>, ghost ps0: seq<Node<T>>, ghost qs0: seq<Node<T>>, ghost all: set<Node<T>>)
    returns (list: Node?<T>, tail: Node?<T>, q: Node?<T>, ghost out: seq<Node<T>>)
    requires Built(kind, out0, list0, tail0) && Merging(kind, stop, out0, ps0, qs0)
    requires psize0 == |ps0| > 0 && p0 == ps0[0] && q0 == First(qs0)
    requires Within(out0, all) && Within(ps0, all) && Within(qs0, all)
    modifies all
    ensures out == out0 + ToMerge(cmp, ps0, qs0, insize) && Built(kind, out, list, tail) && Within(out, all)
    ensures var rest := qs0[Min(insize, |qs0|)..];
            && q == First(rest) && Chain(rest, stop) && Apart(out, rest)
  {
    ghost var rest := qs0[Min(insize, |qs0|)..];
    list, tail, q, out := list0, tail0, q0, out0;
    var p: Node?<T>, psize, qsize := p0, psize0, insize;
    ghost var ps, qs := ps0, qs0;
    while psize > 0 || (qsize > 0 && q != null)
      invariant psize == |ps| && (psize > 0 ==> p == ps[0]) && q == First(qs)
      invariant Built(kind, out, list, tail) && Merging(kind, stop, out, ps, qs)
      invariant Within(out, all) && Within(ps, all) && Within(qs, all)
      invariant out + ToMerge(cmp, ps, qs, qsize) == out0 + ToMerge(cmp, ps0, qs0, insize)
      invariant qs[Min(qsize, |qs|)..] == qs0[Min(insize, |qs0|)..]
      decreases |ps| + |qs|
    {
      hide Built, Merging, ToMerge;
      var e: Node<T>;
      if psize > 0 && (qsize == 0 || q == null || cmp(p, q) <= 0) {
        MergeTakesP(cmp, out, ps, qs, qsize);
        TakeP(kind, stop, out, ps, qs);
        e := p;
        p := Next(p, stop);
        psize := psize - 1;
        ps := ps[1..];
      } else {
        MergeTakesQ(cmp, out, ps, qs, qsize);
        TakeQ(kind, stop, out, ps, qs);
        e := q;
        q := Next(q, stop);
        qsize := qsize - 1;
        qs := qs[1..];
      }
      list := Emit(kind, e, list, tail, out, stop, ps, qs);
      tail := e;
      out := out + [e];
    }
    MergeDone(cmp, kind, stop, out, ps, qs, qsize);
  }

  lemma MergeDone<T>(cmp: (Node<T>, Node<T>) -> int, kind: Kind, stop: Node?<T>, out: seq<Node<T>>, ps: seq<Node<T>>, qs: seq<Node<T>>, k: nat)
    requires Merging(kind, stop, out, ps, qs) && |ps| == 0 && (k == 0 || |qs| == 0)
    ensures out + ToMerge(cmp, ps, qs, k) == out && qs[Min(k, |qs|)..] == qs
    ensures Chain(qs, stop) && Apart(out, qs)
  {
  }

  lemma SplitRun<T>(kind: Kind, stop: Node?<T>, out: seq<Node<T>>, rest: seq<Node<T>>, k: nat, all: set<Node<T>>)
    requires 0 < k <= |rest| && NoDup(rest) && Chain(rest, stop) && Stops(rest, stop) && Apart(out, rest) && Within(rest, all)
    ensures Merging(kind, stop, out, rest[..k], rest[k..])
    ensures Within(rest[..k], all) && Within(rest[k..], all)
  {
    assert forall i :: 0 <= i < |rest[k..]| ==> rest[k..][i] == rest[k + i];
  }

  lemma PassUnfolds<T>(cmp: (Node<T>, Node<T>) -> int, out: seq<Node<T>>, rest: seq<Node<T>>, w: nat)
    requires w > 0 && |rest| > 0
    ensures var k, q := Min(w, |rest|), Min(2 * w, |rest|);
            && rest[k..][Min(w, |rest| - k)..] == rest[q..]
            && out + Pass(cmp, rest, w) == out + ToMerge(cmp, rest[..k], rest[k..], w) + Pass(cmp, rest[q..], w)
            && Merges(|rest|, w) == 1 + Merges(|rest[q..]|, w)
  {
    hide Merge, Pass, ToMerge, Merges;
    var k, q := Min(w, |rest|), Min(2 * w, |rest|);
    SecondRun(rest, w);
    PassOnce(cmp, rest, w);
    MergesIs(|rest|, w);
    assert out + (ToMerge(cmp, rest[..k], rest[k..], w) + Pass(cmp, rest[q..], w))
        == out + ToMerge(cmp, rest[..k], rest[k..], w) + Pass(cmp, rest[q..], w);
  }

  lemma PassOnce<T>(cmp: (Node<T>, Node<T>) -> int, rest: seq<Node<T>>, w: nat)
    requires w > 0 && |rest| > 0
    ensures var k, q := Min(w, |rest|), Min(2 * w, |rest|);
            Pass(cmp, rest, w) == ToMerge(cmp, rest[..k], rest[k..], w) + Pass(cmp, rest[q..], w)
  {
    hide Merge, Pass, ToMerge;
    var k, q := Min(w, |rest|), Min(2 * w, |rest|);
    SecondRun(rest, w);
    ToMergeIs(cmp, rest[..k], rest[k..], w, rest[k..q]);
    PassIs(cmp, rest, w);
  }

  lemma ToMergeIs<T>(cmp: (Node<T>, Node<T>) -> int, ps: seq<Node<T>>, qs: seq<Node<T>>, w: nat, run: seq<Node<T>>)
    requires run == qs[..Min(w, |qs|)]
    ensures ToMerge(cmp, ps, qs, w) == Merge(cmp, ps, run)
  {
    hide Merge;
  }

  lemma PassIs<T>(cmp: (Node<T>, Node<T>) -> int, rest: seq<Node<T>>, w: nat)
    requires w > 0 && |rest| > 0
    ensures var k, q := Min(w, |rest|), Min(2 * w, |rest|);
            Pass(cmp, rest, w) == Merge(cmp, rest[..k], rest[k..q]) + Pass(cmp, rest[q..], w)
  {
    hide Merge;
  }

  lemma MergesIs(n: nat, w: nat)
    requires w > 0 && n > 0
    ensures Merges(n, w) == 1 + Merges(n - Min(2 * w, n), w)
  {
  }

  lemma SecondRun<T>(rest: seq<Node<T>>, w: nat)
    requires w > 0 && |rest| > 0
    ensures var k, q := Min(w, |rest|), Min(2 * w, |rest|);
            rest[k..][..Min(w, |rest| - k)] == rest[k..q] && rest[k..][Min(w, |rest| - k)..] == rest[q..]
  {
    var k := Min(w, |rest|);
    SliceOfSlice(rest, k, Min(w, |rest| - k));
    TwoRuns(|rest|, w);
  }

  lemma TwoRuns(n: nat, w: nat)
    ensures Min(w, n) + Min(w, n - Min(w, n)) == Min(2 * w, n)
  {
  }

  lemma SliceOfSlice<E>(s: seq<E>, k: nat, m: nat)
    requires k + m <= |s|
    ensures s[k..][..m] == s[k..k + m] && s[k..][m..] == s[k + m..]
  {
  }

  lemma PassOfNothing<T>(cmp: (Node<T>, Node<T>) -> int, rest: seq<Node<T>>, out: seq<Node<T>>, w: nat)
    requires w > 0 && |rest| == 0
    ensures out + Pass(cmp, rest, w) == out && Merges(|rest|, w) == 0
  {
  }

  lemma RestOf<T>(rest: seq<Node<T>>, q: nat, stop: Node?<T>, all: set<Node<T>>)
    requires q <= |rest| && NoDup(rest) && Stops(rest, stop) && Within(rest, all)
    ensures NoDup(rest[q..]) && Stops(rest[q..], stop) && Within(rest[q..], all)
  {
    assert forall i :: 0 <= i < |rest[q..]| ==> rest[q..][i] == rest[q + i];
  }

  // The statements after the inner loops: the tail link, and the head's prev.
  method Close<T>(kind: Kind, list: Node<T>, tail: Node<T>, ghost out: seq<Node<T>>)
    requires |out| > 0 && Built(kind, out, list, tail)
    modifies list, tail
    ensures List(kind, out, list)
  {
    assert forall i :: 0 <= i < |out| - 1 ==> out[i] != tail;
    assert forall i :: 1 <= i < |out| ==> out[i] != list;
    ghost var n := |out|;
    if !kind.LL? { list.prev := tail; }
    tail.next := if kind.CDL? then list else null;
    assert Linked(out);
    if !kind.LL? {
      forall i {:trigger out[i].prev} | 1 <= i < n ensures out[i].prev == out[i - 1] {
        assert old(out[i].prev) == out[i - 1];
      }
    }
  }

  lemma StartPass<T>(kind: Kind, s: seq<Node<T>>, head: Node<T>, stop: Node?<T>, all: set<Node<T>>)
    requires ForwardList(kind, s, head) && stop == if kind.CDL? then head else null
    ensures head == First(s) && NoDup(s) && Chain(s, stop) && Stops(s, stop)
    ensures Built<T>(kind, [], null, null) && Apart([], s) && Within([], all)
  {
  }

  lemma BuiltEnds<T>(kind: Kind, out: seq<Node<T>>, list: Node?<T>, tail: Node?<T>, all: set<Node<T>>)
    requires Built(kind, out, list, tail) && |out| > 0 && Within(out, all)
    ensures list != null && tail != null && list in all && tail in all
  {
  }

  // One pass of the outer loop body: every pair of runs of width insize is merged.
  method SortPass<T>(kind: Kind, cmp: (Node<T>, Node<T>) -> int, oldhead: Node<T>, insize: nat, ghost s: seq<Node<T>>,
                     ghost all: set<Node<T>>)
    returns (list: Node<T>, nmerges: nat, ghost out: seq<Node<T>>)
    requires insize > 0 && |s| > 0 && ForwardList(kind, s, oldhead) && Within(s, all)
    modifies all
    ensures out == Pass(cmp, s, insize) && List(kind, out, list) && Within(out, all)
    ensures nmerges == Merges(|s|, insize)
  {
    hide Merging, ToMerge, Pass, Merges, Built, Linked, Chain, NoDup, Stops, Apart, Within, ForwardList, List;
    var stop: Node?<T> := if kind.CDL? then oldhead else null;
    StartPass(kind, s, oldhead, stop, all);
    var head: Node?<T>, tail: Node?<T>, p: Node?<T> := null, null, oldhead;
    ghost var rest := s;
    nmerges, out := 0, [];
    while p != null
      invariant p == First(rest) && NoDup(rest) && Chain(rest, stop) && Stops(rest, stop) && Within(rest, all)
      invariant Built(kind, out, head, tail) && Apart(out, rest) && Within(out, all)
      invariant out + Pass(cmp, rest, insize) == Pass(cmp, s, insize)
      invariant nmerges + Merges(|rest|, insize) == Merges(|s|, insize)
      decreases |rest|
    {
      nmerges := nmerges + 1;
      var q, psize := SkipRun(p, insize, stop, rest);
      SplitRun(kind, stop, out, rest, psize, all);
      PassUnfolds(cmp, out, rest, insize);
      RestOf(rest, Min(2 * insize, |rest|), stop, all);
      head, tail, p, out := MergeRuns(kind, cmp, stop, p, q, psize, insize, head, tail, out, rest[..psize], rest[psize..], all);
      rest := rest[Min(2 * insize, |rest|)..];
    }
    PassOfNothing(cmp, rest, out, insize);
    BuiltEnds(kind, out, head, tail, all);
    Close(kind, head, tail, out);
    list := head;
  }

  // LL_SORT2, DL_SORT2, CDL_SORT2.  Only the next links of the given list are relied on.
  method Sort<T>(kind: Kind, cmp: (Node<T>, Node<T>) -> int, head: Node?<T>, ghost s: seq<Node<T>>)
    returns (list: Node?<T>, ghost out: seq<Node<T>>)
    requires ForwardList(kind, s, head)
    modifies s
    ensures List(kind, out, list)
    ensures out == BottomUp(cmp, s, 1)
    ensures PreorderOn(cmp, Elements(s)) ==> Sorted(cmp, out) && StablePermutation(cmp, Elements(s), s, out)
  {
    list, out := head, s;
    if list != null {
      ghost var all := Elements(s);
      var insize, looping := 1, true;
      while looping
        invariant insize > 0 && Within(out, all) && |out| == |s|
        invariant looping ==> list != null && ForwardList(kind, out, list) && BottomUp(cmp, out, insize) == BottomUp(cmp, s, 1)
        invariant !looping ==> List(kind, out, list) && out == BottomUp(cmp, s, 1)
        decreases looping, |s| - insize
      {
        var nmerges;
        list, nmerges, out := SortPass(kind, cmp, list, insize, out, all);
        if nmerges <= 1 { looping := false; }
        insize := insize * 2;
      }
    }
    if PreorderOn(cmp, Elements(s)) { BottomUpIsStableSort(cmp, s); }
  }
}

/** What a stable sort means, and the bottom-up merge sort of mergesort.c on sequences. */
module StableSort {
  import opened Numbers

  /** cmp returns <0, 0 or >0 like strcmp; on dom it is a total preorder. */
  ghost predicate TotalPreorder<X>(cmp: (X, X) -> int, dom: set<X>) {
    && (forall x, y :: x in dom && y in dom ==> (cmp(x, y) < 0 <==> cmp(y, x) > 0))
    && (forall x, y, z :: x in dom && y in dom && z in dom && cmp(x, y) <= 0 && cmp(y, z) <= 0 ==> cmp(x, z) <= 0)
  }

  ghost predicate Sorted<X>(s: seq<X>, cmp: (X, X) -> int) {
    forall i, j :: 0 <= i < j < |s| ==> cmp(s[i], s[j]) <= 0
  }

  /** The elements that compare equal to x, in their order of appearance. */
  ghost function Equals<X>(s: seq<X>, x: X, cmp: (X, X) -> int): seq<X> {
    if s == [] then []
    else (if cmp(s[0], x) == 0 then [s[0]] else []) + Equals(s[1..], x, cmp)
  }

  ghost predicate Within<X>(s: seq<X>, dom: set<X>) {
    forall i :: 0 <= i < |s| ==> s[i] in dom
  }

  /** s is the stable sorting of input: a sorted permutation that keeps the order of equals. */
  ghost predicate IsStableSort<X>(s: seq<X>, input: seq<X>, cmp: (X, X) -> int) {
    && multiset(s) == multiset(input)
    && Sorted(s, cmp)
    && forall x :: x in input ==> Equals(s, x, cmp) == Equals(input, x, cmp)
  }

  // ---- merging two runs

  function Merge<X>(a: seq<X>, b: seq<X>, cmp: (X, X) -> int): (r: seq<X>)
    ensures |r| == |a| + |b|
  {
    if a == [] then b
    else if b != [] && cmp(a[0], b[0]) > 0 then [b[0]] + Merge(a, b[1..], cmp)
    else [a[0]] + Merge(a[1..], b, cmp)
  }

  lemma HeadTail<X>(s: seq<X>)
    requires s != []
    ensures multiset(s) == multiset{s[0]} + multiset(s[1..])
  {
    assert s == [s[0]] + s[1..];
  }

  lemma {:induction false} MergePermutes<X>(a: seq<X>, b: seq<X>, cmp: (X, X) -> int)
    ensures multiset(Merge(a, b, cmp)) == multiset(a) + multiset(b)
  {
    if a == [] {
    } else if b != [] && cmp(a[0], b[0]) > 0 {
      var m := Merge(a, b[1..], cmp);
      assert multiset([b[0]] + m) == multiset{b[0]} + multiset(m);
      HeadTail(b);
      MergePermutes(a, b[1..], cmp);
    } else {
      var m := Merge(a[1..], b, cmp);
      assert multiset([a[0]] + m) == multiset{a[0]} + multiset(m);
      HeadTail(a);
      MergePermutes(a[1..], b, cmp);
    }
  }

  lemma PermutationWithin<X>(s: seq<X>, a: seq<X>, b: seq<X>, dom: set<X>)
    requires multiset(s) == multiset(a) + multiset(b) && Within(a, dom) && Within(b, dom)
    ensures Within(s, dom)
    ensures forall i :: 0 <= i < |s| ==> s[i] in a || s[i] in b
  {
    forall i | 0 <= i < |s| ensures s[i] in dom && (s[i] in a || s[i] in b) {
      assert s[i] in multiset(s);
      assert s[i] in a || s[i] in b;
    }
  }

  lemma SortedCons<X>(x: X, s: seq<X>, cmp: (X, X) -> int)
    requires Sorted(s, cmp) && forall i :: 0 <= i < |s| ==> cmp(x, s[i]) <= 0
    ensures Sorted([x] + s, cmp)
  {
  }

  lemma {:induction false} MergeSorted<X>(a: seq<X>, b: seq<X>, cmp: (X, X) -> int, dom: set<X>)
    requires TotalPreorder(cmp, dom) && Within(a, dom) && Within(b, dom)
    requires Sorted(a, cmp) && Sorted(b, cmp)
    ensures Sorted(Merge(a, b, cmp), cmp)
  {
    if a == [] {
    } else if b != [] && cmp(a[0], b[0]) > 0 {
      var m := Merge(a, b[1..], cmp);
      MergeSorted(a, b[1..], cmp, dom);
      MergePermutes(a, b[1..], cmp);
      PermutationWithin(m, a, b[1..], dom);
      assert cmp(b[0], a[0]) <= 0;
      SortedCons(b[0], m, cmp);
    } else {
      var m := Merge(a[1..], b, cmp);
      MergeSorted(a[1..], b, cmp, dom);
      MergePermutes(a[1..], b, cmp);
      PermutationWithin(m, a[1..], b, dom);
      SortedCons(a[0], m, cmp);
    }
  }

  lemma {:induction false} EqualsConcat<X>(s: seq<X>, t: seq<X>, x: X, cmp: (X, X) -> int)
    ensures Equals(s + t, x, cmp) == Equals(s, x, cmp) + Equals(t, x, cmp)
  {
    if s == [] {
      assert s + t == t;
    } else {
      EqualsConcat(s[1..], t, x, cmp);
      assert (s + t)[1..] == s[1..] + t;
    }
  }

  lemma {:induction false} NoEquals<X>(s: seq<X>, x: X, cmp: (X, X) -> int)
    requires forall i :: 0 <= i < |s| ==> cmp(s[i], x) != 0
    ensures Equals(s, x, cmp) == []
  {
    if s != [] { NoEquals(s[1..], x, cmp); }
  }

  lemma EqualsCons<X>(h: X, t: seq<X>, x: X, cmp: (X, X) -> int)
    ensures Equals([h] + t, x, cmp) == (if cmp(h, x) == 0 then [h] else []) + Equals(t, x, cmp)
  {
    assert ([h] + t)[1..] == t;
  }

  /** Everything in a sorted run after a first element above y is above y. */
  lemma AllAbove<X>(a: seq<X>, y: X, x: X, cmp: (X, X) -> int, dom: set<X>)
    requires TotalPreorder(cmp, dom) && Within(a, dom) && Sorted(a, cmp) && x in dom && y in dom
    requires a != [] && cmp(a[0], y) > 0 && cmp(y, x) == 0
    ensures Equals(a, x, cmp) == []
  {
    forall i | 0 <= i < |a| ensures cmp(a[i], x) != 0 {
    }
    NoEquals(a, x, cmp);
  }

  /** Putting h in front of the second run, when nothing in the first run equals it. */
  lemma StableStepRight<X>(ea: seq<X>, h: X, t: seq<X>, m: seq<X>, x: X, cmp: (X, X) -> int)
    requires cmp(h, x) == 0 ==> ea == []
    requires Equals(m, x, cmp) == ea + Equals(t, x, cmp)
    ensures Equals([h] + m, x, cmp) == ea + Equals([h] + t, x, cmp)
  {
    hide Equals;
    EqualsCons(h, m, x, cmp);
    EqualsCons(h, t, x, cmp);
  }

  lemma StableStepLeft<X>(h: X, t: seq<X>, eb: seq<X>, m: seq<X>, x: X, cmp: (X, X) -> int)
    requires Equals(m, x, cmp) == Equals(t, x, cmp) + eb
    ensures Equals([h] + m, x, cmp) == Equals([h] + t, x, cmp) + eb
  {
    hide Equals;
    EqualsCons(h, m, x, cmp);
    EqualsCons(h, t, x, cmp);
  }

  /** Merging is stable: for every x the equals of the first run precede those of the second. */
  lemma {:induction false} MergeStable<X>(a: seq<X>, b: seq<X>, x: X, cmp: (X, X) -> int, dom: set<X>)
    requires TotalPreorder(cmp, dom) && Within(a, dom) && Within(b, dom) && x in dom
    requires Sorted(a, cmp)
    ensures Equals(Merge(a, b, cmp), x, cmp) == Equals(a, x, cmp) + Equals(b, x, cmp)
  {
    hide TotalPreorder;
    if a == [] {
    } else if b != [] && cmp(a[0], b[0]) > 0 {
      MergeStable(a, b[1..], x, cmp, dom);
      if cmp(b[0], x) == 0 {
        AllAbove(a, b[0], x, cmp, dom);
      }
      assert b == [b[0]] + b[1..];
      StableStepRight(Equals(a, x, cmp), b[0], b[1..], Merge(a, b[1..], cmp), x, cmp);
    } else {
      MergeStable(a[1..], b, x, cmp, dom);
      assert a == [a[0]] + a[1..];
      StableStepLeft(a[0], a[1..], Equals(b, x, cmp), Merge(a[1..], b, cmp), x, cmp);
    }
  }

  // ---- one pass: merge runs of length k pairwise

  function Pass<X>(u: seq<X>, k: nat, cmp: (X, X) -> int): (r: seq<X>)
    requires k > 0
    ensures |r| == |u|
    decreases |u|
  {
    if |u| <= k then u
    else
      var m := Min(2 * k, |u|);
      Merge(u[..k], u[k..m], cmp) + Pass(u[m..], k, cmp)
  }

  /** u is a sequence of sorted runs of length k (the last one possibly shorter). */
  ghost predicate Runs<X>(u: seq<X>, k: nat, cmp: (X, X) -> int)
    requires k > 0
    decreases |u|
  {
    if |u| <= k then Sorted(u, cmp) else Sorted(u[..k], cmp) && Runs(u[k..], k, cmp)
  }

  ghost predicate SameUpToOrder<X>(s: seq<X>, u: seq<X>, cmp: (X, X) -> int, dom: set<X>) {
    && multiset(s) == multiset(u) && Within(s, dom)
    && forall x :: x in dom ==> Equals(s, x, cmp) == Equals(u, x, cmp)
  }

  lemma RunsFirst<X>(u: seq<X>, k: nat, cmp: (X, X) -> int)
    requires k > 0 && |u| > k && Runs(u, k, cmp)
    ensures var m := Min(2 * k, |u|);
            Sorted(u[..k], cmp) && Sorted(u[k..m], cmp) && Runs(u[m..], k, cmp)
  {
    var m := Min(2 * k, |u|);
    var t := u[k..];
    if |t| <= k {
      assert u[k..m] == t;
    } else {
      assert u[k..m] == t[..k] && u[m..] == t[k..];
    }
  }

  lemma MergeRuns<X>(a: seq<X>, b: seq<X>, rest: seq<X>, k: nat, cmp: (X, X) -> int)
    requires k > 0 && |a| == k && |b| <= k && (rest != [] ==> |b| == k)
    requires Sorted(a + b, cmp) && Runs(rest, 2 * k, cmp)
    ensures Runs(a + b + rest, 2 * k, cmp)
  {
    var s := a + b + rest;
    if |s| > 2 * k {
      assert s[..2 * k] == a + b && s[2 * k..] == rest;
    } else {
      assert s == a + b;
    }
  }

  lemma {:induction false} PassDoublesRuns<X>(u: seq<X>, k: nat, cmp: (X, X) -> int, dom: set<X>)
    requires k > 0 && TotalPreorder(cmp, dom) && Within(u, dom) && Runs(u, k, cmp)
    ensures Runs(Pass(u, k, cmp), 2 * k, cmp)
    decreases |u|
  {
    if |u| > k {
      var m := Min(2 * k, |u|);
      RunsFirst(u, k, cmp);
      MergeSorted(u[..k], u[k..m], cmp, dom);
      PassDoublesRuns(u[m..], k, cmp, dom);
      var mm := Merge(u[..k], u[k..m], cmp);
      assert mm == mm[..k] + mm[k..];
      MergeRuns(mm[..k], mm[k..], Pass(u[m..], k, cmp), k, cmp);
    }
  }

  lemma MergedKeeps<X>(a: seq<X>, b: seq<X>, c: seq<X>, c': seq<X>, cmp: (X, X) -> int, dom: set<X>)
    requires TotalPreorder(cmp, dom) && Within(a, dom) && Within(b, dom) && Sorted(a, cmp)
    requires SameUpToOrder(c', c, cmp, dom)
    ensures SameUpToOrder(Merge(a, b, cmp) + c', a + b + c, cmp, dom)
  {
    var m := Merge(a, b, cmp);
    MergePermutes(a, b, cmp);
    PermutationWithin(m, a, b, dom);
    forall x | x in dom ensures Equals(m + c', x, cmp) == Equals(a + b + c, x, cmp) {
      MergeStable(a, b, x, cmp, dom);
      EqualsConcat(m, c', x, cmp);
      EqualsConcat(a + b, c, x, cmp);
      EqualsConcat(a, b, x, cmp);
    }
  }

  lemma ThreeParts<X>(u: seq<X>, k: nat, m: nat)
    requires k <= m <= |u|
    ensures u == u[..k] + u[k..m] + u[m..]
  {
  }

  lemma {:induction false} PassKeeps<X>(u: seq<X>, k: nat, cmp: (X, X) -> int, dom: set<X>)
    requires k > 0 && TotalPreorder(cmp, dom) && Within(u, dom) && Runs(u, k, cmp)
    ensures SameUpToOrder(Pass(u, k, cmp), u, cmp, dom)
    decreases |u|
  {
    hide TotalPreorder, Merge, Equals, Runs, Sorted;
    if |u| > k {
      var m := Min(2 * k, |u|);
      var a, b, c := u[..k], u[k..m], u[m..];
      RunsFirst(u, k, cmp);
      PassKeeps(c, k, cmp, dom);
      ThreeParts(u, k, m);
      MergedKeeps(a, b, c, Pass(c, k, cmp), cmp, dom);
    }
  }

  // ---- the whole sort

  /** Passes with run length k, 2k, 4k, ... until a single merge covers everything. */
  function BottomUp<X>(u: seq<X>, k: nat, cmp: (X, X) -> int): (r: seq<X>)
    requires k > 0
    decreases |u| - k
  {
    if |u| <= 2 * k then Pass(u, k, cmp) else BottomUp(Pass(u, k, cmp), 2 * k, cmp)
  }

  lemma {:induction false} RunsOfOne<X>(u: seq<X>, cmp: (X, X) -> int)
    ensures Runs(u, 1, cmp)
  {
    if |u| > 1 { RunsOfOne(u[1..], cmp); }
  }

  lemma {:induction false} BottomUpSorts<X>(u: seq<X>, k: nat, cmp: (X, X) -> int, dom: set<X>)
    requires k > 0 && TotalPreorder(cmp, dom) && Within(u, dom) && Runs(u, k, cmp)
    ensures Sorted(BottomUp(u, k, cmp), cmp)
    ensures SameUpToOrder(BottomUp(u, k, cmp), u, cmp, dom)
    decreases |u| - k
  {
    PassDoublesRuns(u, k, cmp, dom);
    PassKeeps(u, k, cmp, dom);
    if |u| > 2 * k {
      BottomUpSorts(Pass(u, k, cmp), 2 * k, cmp, dom);
    }
  }

  /** The bottom-up merge sort is a stable sort for every total preorder. */
  lemma MergeSortIsStable<X>(u: seq<X>, cmp: (X, X) -> int)
    requires TotalPreorder(cmp, set x | x in u)
    ensures IsStableSort(BottomUp(u, 1, cmp), u, cmp)
  {
    RunsOfOne(u, cmp);
    BottomUpSorts(u, 1, cmp, set x | x in u);
  }
}

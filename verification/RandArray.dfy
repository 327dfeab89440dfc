/** The random index picker behind ":add random tracks" (command_mode.c).

    When more than half of the indexes are wanted the code draws the indexes it
    does NOT want, parks them at the end of the result array, and then fills the
    same array from the front.  The write cursor can catch up with excluded
    values that still have to be read; this module determines exactly what
    comes out in that case. */
module RandArray {
  import opened Sequences

  ghost predicate Increasing(s: seq<int>) {
    forall i, j :: 0 <= i < j < |s| ==> s[i] < s[j]
  }

  ghost predicate InRange(s: seq<int>, nmax: int) {
    forall i :: 0 <= i < |s| ==> 0 <= s[i] < nmax
  }

  // ---- qsort(3) on ints, as a function on the sorted stretch

  function InsertValue(s: seq<int>, v: int): (r: seq<int>)
    ensures |r| == |s| + 1
    ensures multiset(r) == multiset(s) + multiset{v}
  {
    if s == [] then [v]
    else if v <= s[0] then [v] + s
    else
      assert s == [s[0]] + s[1..];
      [s[0]] + InsertValue(s[1..], v)
  }

  function SortInts(s: seq<int>): (r: seq<int>)
    ensures |r| == |s| && multiset(r) == multiset(s)
  {
    if s == [] then []
    else
      assert s == [s[0]] + s[1..];
      InsertValue(SortInts(s[1..]), s[0])
  }

  ghost predicate Ascending(s: seq<int>) {
    forall i, j :: 0 <= i < j < |s| ==> s[i] <= s[j]
  }

  lemma {:induction false} InsertKeepsAscending(s: seq<int>, v: int)
    requires Ascending(s)
    ensures Ascending(InsertValue(s, v))
  {
    if s != [] && v > s[0] {
      InsertKeepsAscending(s[1..], v);
      var t := InsertValue(s[1..], v);
      forall k | 0 <= k < |t| ensures s[0] <= t[k] {
        assert t[k] in multiset(t);
        assert t[k] in s[1..] || t[k] == v;
      }
    }
  }

  lemma {:induction false} SortIsAscending(s: seq<int>)
    ensures Ascending(SortInts(s))
  {
    if s != [] {
      SortIsAscending(s[1..]);
      InsertKeepsAscending(SortInts(s[1..]), s[0]);
    }
  }

  lemma MultisetSplit(s: seq<int>, i: nat)
    requires i < |s|
    ensures multiset(s) == multiset(s[..i]) + multiset{s[i]} + multiset(s[i + 1..])
  {
    assert s == s[..i] + [s[i]] + s[i + 1..];
  }

  lemma DistinctIffMultiset(s: seq<int>)
    ensures Distinct(s) <==> forall v :: multiset(s)[v] <= 1
  {
    if Distinct(s) {
      forall v ensures multiset(s)[v] <= 1 {
        if v in s {
          var i :| 0 <= i < |s| && s[i] == v;
          MultisetSplit(s, i);
          assert v !in s[..i] && v !in s[i + 1..];
        }
      }
    } else {
      var i, j :| 0 <= i < j < |s| && s[i] == s[j];
      MultisetSplit(s, i);
      assert s[j] == s[i + 1..][j - i - 1];
      assert s[j] in multiset(s[i + 1..]);
      assert multiset(s)[s[j]] >= 2;
    }
  }

  /** Sorting distinct draws makes them strictly increasing and keeps the set of values. */
  lemma SortDistinct(s: seq<int>)
    requires Distinct(s)
    ensures Increasing(SortInts(s))
    ensures forall v :: v in SortInts(s) <==> v in s
  {
    var t := SortInts(s);
    SortIsAscending(s);
    DistinctIffMultiset(s);
    DistinctIffMultiset(t);
    forall v ensures v in t <==> v in s {
      assert v in multiset(t) <==> v in multiset(s);
    }
  }

  lemma SortKeepsValues(s: seq<int>)
    ensures forall k :: 0 <= k < |SortInts(s)| ==> SortInts(s)[k] in s
  {
    var t := SortInts(s);
    forall k | 0 <= k < |t| ensures t[k] in s {
      assert t[k] in multiset(t);
    }
  }

  // ---- what the inverted fill really excludes

  /** The k-th value left out when the sorted excluded values are e and the first of
      them is parked at index offset. */
  function LeftOut(e: seq<int>, offset: int, k: nat): int
    requires k < |e|
  {
    if e[k] <= offset + 2 * k + 1 then e[k] else offset + 2 * k + 1
  }

  ghost predicate IsLeftOut(e: seq<int>, offset: int, upto: nat, v: int)
    requires upto <= |e|
  {
    exists k: nat :: k < upto && v == LeftOut(e, offset, k)
  }

  /** No write lands on an excluded value before it has been read. */
  ghost predicate NoCollision(e: seq<int>, offset: int) {
    forall k: nat :: k < |e| ==> e[k] <= offset + 2 * k + 1
  }

  /** v is in r exactly if v is an index below nmax that is not left out. */
  ghost predicate IsFill(r: seq<int>, e: seq<int>, offset: int, nmax: int) {
    forall v :: v in r <==> 0 <= v < nmax && !IsLeftOut(e, offset, |e|, v)
  }

  ghost predicate IsComplement(r: seq<int>, e: seq<int>, nmax: int) {
    forall v :: v in r <==> 0 <= v < nmax && v !in e
  }

  /** The result is the complement of the drawn indexes exactly if no excluded value
      lies too far to the right of its slot. */
  lemma ComplementIffNoCollision(r: seq<int>, e: seq<int>, offset: int, nmax: int)
    requires Increasing(e) && InRange(e, nmax) && IsFill(r, e, offset, nmax)
    requires 0 <= offset
    ensures IsComplement(r, e, nmax) <==> NoCollision(e, offset)
  {
    if NoCollision(e, offset) {
      forall v ensures IsLeftOut(e, offset, |e|, v) <==> v in e {
        if v in e {
          var k: nat :| k < |e| && e[k] == v;
          assert LeftOut(e, offset, k) == v;
        }
      }
    } else {
      // the first colliding slot leaves out a value nobody asked to leave out
      var k: nat :| k < |e| && e[k] > offset + 2 * k + 1;
      while k > 0 && e[k - 1] > offset + 2 * (k - 1) + 1
        invariant k < |e| && e[k] > offset + 2 * k + 1
      {
        k := k - 1;
      }
      var v := LeftOut(e, offset, k);
      assert v == offset + 2 * k + 1 < e[k];
      assert forall m :: 0 <= m < |e| ==> e[m] != v;
      assert e[k] in e;
      assert IsLeftOut(e, offset, |e|, v);
    }
  }

  lemma CollidedFill(r: seq<int>)
    requires IsFill(r, [3, 4], 1, 5)
    ensures 3 in r && 2 !in r && !IsComplement(r, [3, 4], 5)
  {
    var e := [3, 4];
    assert LeftOut(e, 1, 0) == 2 && LeftOut(e, 1, 1) == 4;
    assert IsLeftOut(e, 1, 2, 2);
    assert !IsLeftOut(e, 1, 2, 3);
    assert e[0] in e;
  }

  // ---- the algorithm

  /** What rand() % nmax can give with these draws. */
  ghost function Residues(draws: seq<nat>, nmax: nat): set<int>
    requires nmax > 0
  {
    set d: nat | d < |draws| :: draws[d] % nmax
  }

  /** How many different values the draws give. */
  ghost function Different(draws: seq<nat>, nmax: nat): nat {
    if nmax == 0 then 0 else |Residues(draws, nmax)|
  }

  /** The different values in the order in which they come up first. */
  ghost function Kept(draws: seq<nat>, nmax: nat): (s: seq<int>)
    requires nmax > 0
    ensures Distinct(s) && InRange(s, nmax)
  {
    if draws == [] then [] else
    var s, v := Kept(draws[..|draws| - 1], nmax), draws[|draws| - 1] % nmax;
    if v in s then s else s + [v]
  }

  lemma {:induction false} KeptPrefix(draws: seq<nat>, nmax: nat, d: nat)
    requires nmax > 0 && d <= |draws|
    ensures Kept(draws[..d], nmax) <= Kept(draws, nmax)
    decreases |draws|
  {
    if d < |draws| {
      KeptPrefix(draws[..|draws| - 1], nmax, d);
      assert draws[..|draws| - 1][..d] == draws[..d];
    } else {
      assert draws[..d] == draws;
    }
  }

  lemma KeptNothing(nmax: nat)
    requires nmax > 0
    ensures Kept([], nmax) == []
  {
  }

  lemma KeptStep(draws: seq<nat>, nmax: nat, d: nat)
    requires nmax > 0 && d < |draws|
    ensures var s, v := Kept(draws[..d], nmax), draws[d] % nmax;
            Kept(draws[..d + 1], nmax) == if v in s then s else s + [v]
  {
    assert draws[..d + 1][..d] == draws[..d];
  }

  lemma {:induction false} KeptIsResidues(draws: seq<nat>, nmax: nat)
    requires nmax > 0
    ensures forall v :: v in Kept(draws, nmax) <==> v in Residues(draws, nmax)
  {
    if draws != [] {
      var n := |draws| - 1;
      KeptIsResidues(draws[..n], nmax);
      assert Residues(draws, nmax) == Residues(draws[..n], nmax) + {draws[n] % nmax} by {
        forall v ensures v in Residues(draws, nmax) <==> v in Residues(draws[..n], nmax) || v == draws[n] % nmax {
          ResidueSplit(draws, nmax, v);
        }
      }
    }
  }

  lemma ResidueSplit(draws: seq<nat>, nmax: nat, v: int)
    requires nmax > 0 && draws != []
    ensures var n := |draws| - 1;
            v in Residues(draws, nmax) <==> v in Residues(draws[..n], nmax) || v == draws[n] % nmax
  {
    var n := |draws| - 1;
    if d: nat :| d < n && v == draws[d] % nmax {
      assert draws[..n][d] == draws[d];
    }
    if d: nat :| d < n && v == draws[..n][d] % nmax {
      assert draws[..n][d] == draws[d];
    }
  }

  lemma {:induction false} DistinctCount(s: seq<int>, v: set<int>)
    requires Distinct(s) && forall x :: x in s <==> x in v
    ensures |s| == |v|
  {
    if s == [] {
      forall x ensures x !in v {
        assert x !in s;
      }
    } else {
      assert s[0] in s;
      forall x ensures x in s[1..] <==> x in v - {s[0]} {
        assert x in s <==> x == s[0] || x in s[1..];
      }
      DistinctCount(s[1..], v - {s[0]});
    }
  }

  /** Drawing yields as many values as there are different ones. */
  lemma KeptCount(draws: seq<nat>, nmax: nat)
    requires nmax > 0
    ensures |Kept(draws, nmax)| == Different(draws, nmax)
  {
    KeptIsResidues(draws, nmax);
    DistinctCount(Kept(draws, nmax), Residues(draws, nmax));
  }

  /** The inner loop of the drawing: was v drawn before? */
  method AlreadyDrawn(r: array<int>, offset: nat, i: nat, v: int) returns (found: bool)
    requires offset + i <= r.Length
    ensures found <==> v in r[offset..offset + i]
  {
    for j := 0 to i
      invariant v !in r[offset..offset + j]
    {
      if r[offset + j] == v { return true; }
    }
    found := false;
  }

  /** Draws `count` different values below nmax into r[offset..], taking the results of rand()
      from `draws`: those that come up first.  ok is false exactly if the draws do not give that
      many different values. */
  method DrawDistinct(r: array<int>, offset: nat, count: nat, nmax: nat, draws: seq<nat>) returns (ok: bool)
    requires offset + count <= r.Length && (count > 0 ==> nmax > 0)
    modifies r
    ensures ok <==> Different(draws, nmax) >= count
    ensures ok && nmax > 0 ==> |Kept(draws, nmax)| >= count && r[offset..offset + count] == Kept(draws, nmax)[..count]
  {
    hide Kept, Different, Distinct, InRange;
    if count == 0 {
      return true;
    }
    var i, d := 0, 0;
    ghost var got: seq<int> := [];
    KeptCount(draws, nmax);
    KeptNothing(nmax);
    while i < count
      invariant 0 <= i <= count && 0 <= d <= |draws|
      invariant got == r[offset..offset + i] && got == Kept(draws[..d], nmax)
      decreases |draws| - d
    {
      if d == |draws| {
        assert draws[..d] == draws;
        return false;
      }
      var v := draws[d] % nmax;
      KeptStep(draws, nmax, d);
      var found := AlreadyDrawn(r, offset, i, v);
      if !found {
        r[offset + i] := v;
        got := got + [v];
        i := i + 1;
      }
      d := d + 1;
    }
    KeptPrefix(draws, nmax, d);
    ok := true;
  }

  method Qsort(r: array<int>, offset: nat, count: nat)
    requires offset + count <= r.Length
    modifies r
    ensures r[offset..offset + count] == SortInts(old(r[offset..offset + count]))
  {
    hide SortInts;
    var s := SortInts(r[offset..offset + count]);
    var k := 0;
    while k < count
      invariant k <= count && r[offset..offset + k] == s[..k]
    {
      r[offset + k] := s[k];
      k := k + 1;
    }
  }

  /** What rand_array has drawn and sorted. */
  ghost function Sample(draws: seq<nat>, nmax: nat, count: nat): (s: seq<int>)
    requires count <= Different(draws, nmax)
    ensures |s| == count && Increasing(s) && InRange(s, nmax)
  {
    if nmax == 0 then [] else
    KeptCount(draws, nmax);
    var s := Kept(draws, nmax)[..count];
    SortDistinct(s);
    SortKeepsValues(s);
    SortInts(s)
  }

  /** The first half of rand_array: draw, then sort in place. */
  method DrawSorted(r: array<int>, offset: nat, count: nat, nmax: nat, draws: seq<nat>) returns (ok: bool)
    requires offset + count <= r.Length && (count > 0 ==> nmax > 0)
    modifies r
    ensures ok <==> Different(draws, nmax) >= count
    ensures ok ==> r[offset..offset + count] == Sample(draws, nmax, count)
  {
    ok := DrawDistinct(r, offset, count, nmax, draws);
    if ok {
      Qsort(r, offset, count);
    }
  }

  // ---- the fill loop, one step at a time

  /** `out` lists, in order, every index below n that the first jj excluded values keep. */
  ghost predicate Filled(out: seq<int>, e: seq<int>, offset: int, jj: nat, n: int)
    requires jj <= |e|
  {
    && Increasing(out)
    && forall v :: v in out <==> 0 <= v < n && !IsLeftOut(e, offset, jj, v)
  }

  lemma PushStep(out: seq<int>, e: seq<int>, offset: int, jj: nat, n: int)
    requires jj <= |e| && Filled(out, e, offset, jj, n) && n >= 0
    requires forall k: nat :: k < jj ==> LeftOut(e, offset, k) < n
    ensures Filled(out + [n], e, offset, jj, n + 1)
  {
    forall k | 0 <= k < |out| ensures out[k] < n {
      assert out[k] in out;
    }
    forall v ensures v in out + [n] <==> 0 <= v < n + 1 && !IsLeftOut(e, offset, jj, v) {
      assert v in out + [n] <==> v in out || v == n;
    }
  }

  lemma SkipStep(out: seq<int>, e: seq<int>, offset: int, jj: nat, n: int)
    requires jj < |e| && Filled(out, e, offset, jj, n) && n == LeftOut(e, offset, jj)
    ensures Filled(out, e, offset, jj + 1, n + 1)
  {
    forall v ensures IsLeftOut(e, offset, jj + 1, v) <==> IsLeftOut(e, offset, jj, v) || v == n {
    }
  }

  /** Once `size` slots are written, every index from n on is left out. */
  lemma DoneStep(out: seq<int>, e: seq<int>, offset: int, jj: nat, n: int, nmax: int)
    requires jj <= |e| && Filled(out, e, offset, jj, n)
    requires n <= nmax <= n + 1
    requires n < nmax ==> jj + 1 == |e| && n == LeftOut(e, offset, jj)
    requires n == nmax ==> jj == |e|
    ensures IsFill(out, e, offset, nmax)
  {
    if n < nmax {
      SkipStep(out, e, offset, jj, n);
    }
  }

  lemma {:induction false} LeftOutAscends(e: seq<int>, offset: int, j: nat, n: int)
    requires Increasing(e) && j < |e| && LeftOut(e, offset, j) < n
    ensures forall k: nat :: k <= j ==> LeftOut(e, offset, k) < n
  {
    if j > 0 {
      LeftOutAscends(e, offset, j - 1, n);
    }
  }

  /** Where the fill stands: the write cursor i, the next index n and the jj-th excluded value; f is
      e with nmax behind it, which ends the last gap. */
  ghost predicate Filling(r: seq<int>, e: seq<int>, f: seq<int>, offset: nat, i: nat, jj: nat, n: int, out: seq<int>) {
    && jj <= |e| && |r| == offset + |e| + 1 && f == e + [offset + 2 * |e|]
    && i < |r| && r[..i] == out && n == i + jj <= f[jj]
    && (jj > 0 ==> LeftOut(e, offset, jj - 1) < n)
    && (forall k :: jj < k <= |e| ==> r[offset + k] == f[k])
    && Filled(out, e, offset, jj, n)
  }

  lemma FillOne(r: seq<int>, e: seq<int>, f: seq<int>, offset: nat, i: nat, jj: nat, n: nat, out: seq<int>)
    requires Increasing(e) && InRange(e, offset + 2 * |e|) && Filling(r, e, f, offset, i, jj, n, out)
    requires i <= offset + jj && n < f[jj]
    ensures Filling(r[i := n], e, f, offset, i + 1, jj, n + 1, out + [n])
  {
    if jj > 0 {
      LeftOutAscends(e, offset, jj - 1, n);
    }
    PushStep(out, e, offset, jj, n);
  }

  /** The inner loop of the fill: the indexes below the next excluded value, or, once the write
      cursor has overwritten that value, none any more. */
  method FillGap(r: array<int>, offset: nat, i0: nat, n0: nat, j: nat, ghost e: seq<int>, ghost f: seq<int>,
                 ghost out0: seq<int>)
    returns (i: nat, n: nat, ghost out: seq<int>)
    requires Increasing(e) && InRange(e, offset + 2 * |e|) && offset <= j <= offset + |e|
    requires Filling(r[..], e, f, offset, i0, j - offset, n0, out0) && i0 <= j && r[j] == f[j - offset]
    modifies r
    ensures Filling(r[..], e, f, offset, i, j - offset, n, out)
    ensures if i <= j then n == f[j - offset] else i == j + 1
  {
    i, n, out := i0, n0, out0;
    while n < r[j]
      invariant Filling(r[..], e, f, offset, i, j - offset, n, out) && i <= j + 1
      invariant if i <= j then r[j] == f[j - offset] else r[j] == n - 1
      decreases j + 1 - i
    {
      hide Filling;
      FillOne(r[..], e, f, offset, i, j - offset, n, out);
      ghost var before := r[..];
      r[i] := n;
      assert r[..] == before[i := n];
      out := out + [n];
      i, n := i + 1, n + 1;
    }
  }

  /** Where the outer loop stands: before the gap that ends at slot j, or finished. */
  ghost predicate Stands(r: seq<int>, e: seq<int>, f: seq<int>, offset: nat, i: nat, j: nat, n: nat, out: seq<int>) {
    var size := offset + |e|;
    if i < size
    then offset <= j && i <= j <= size && Filling(r, e, f, offset, i, j - offset, n, out) && r[j] == f[j - offset]
    else i == size < |r| && r[..size] == out && Increasing(out) && IsFill(out, e, offset, size + |e|)
  }

  lemma FillStarts(r: seq<int>, e: seq<int>, f: seq<int>, offset: nat)
    requires |r| == offset + |e| + 1 && r[offset..] == f == e + [offset + 2 * |e|] && 0 < offset
    requires Increasing(e) && InRange(e, offset + 2 * |e|)
    ensures Stands(r, e, f, offset, 0, offset, 0, [])
  {
    forall k | 0 <= k <= |e| ensures r[offset + k] == f[k] {
      assert r[offset..][k] == r[offset + k];
    }
  }

  /** The gap is filled: the excluded value is skipped, or everything is filled. */
  lemma GapFilled(r: seq<int>, e: seq<int>, f: seq<int>, offset: nat, i: nat, jj: nat, n: nat, out: seq<int>)
    requires Increasing(e) && InRange(e, offset + 2 * |e|) && Filling(r, e, f, offset, i, jj, n, out)
    requires if i <= offset + jj then n == f[jj] else i == offset + jj + 1
    ensures Stands(r, e, f, offset, i, offset + jj + 1, n + 1, out)
  {
    hide IsFill;
    if i == offset + |e| {
      DoneStep(out, e, offset, jj, n, offset + 2 * |e|);
    } else {
      SkipStep(out, e, offset, jj, n);
    }
  }

  /** The inverted branch: the excluded values e sit at r[offset..size]; afterwards
      r[..size] ascends and holds everything except the left-out values. */
  method FillInverted(r: array<int>, offset: nat, size: nat, nmax: nat, ghost e: seq<int>)
    requires 0 < offset <= size && r.Length == size + 1
    requires size - offset == nmax - size
    requires e == r[offset..size] && Increasing(e) && InRange(e, nmax)
    modifies r
    ensures Increasing(r[..size]) && IsFill(r[..size], e, offset, nmax)
  {
    hide Filling, IsFill, Increasing, InRange;
    r[size] := nmax;
    ghost var f := e + [nmax];
    ghost var out: seq<int> := [];
    var i: nat, j: nat, n: nat := 0, offset, 0;
    FillStarts(r[..], e, f, offset);
    while i < size
      invariant i <= size && Stands(r[..], e, f, offset, i, j, n, out)
      decreases size + 1 - j
    {
      i, n, out := FillGap(r, offset, i, n, j, e, f, out);
      GapFilled(r[..], e, f, offset, i, j - offset, n, out);
      j, n := j + 1, n + 1;
    }
    assert r[..][..size] == r[..size];
  }

  lemma FillInRange(r: seq<int>, e: seq<int>, offset: int, nmax: int)
    requires IsFill(r, e, offset, nmax)
    ensures InRange(r, nmax)
  {
    forall k | 0 <= k < |r| ensures 0 <= r[k] < nmax {
      assert r[k] in r;
    }
  }

  /** rand_array: `size` different indexes below nmax in ascending order.  ok is false exactly if the
      given draws do not hold enough different values (the original keeps drawing).  In the
      inverted branch `unwanted` is what was drawn. */
  method RandArray(size: nat, nmax: nat, draws: seq<nat>)
    returns (r: array<int>, ok: bool, ghost unwanted: seq<int>)
    requires size <= nmax
    ensures ok <==> Different(draws, nmax) >= if size > nmax / 2 then nmax - size else size
    ensures ok ==> r.Length == size + 1 && Increasing(r[..size]) && InRange(r[..size], nmax)
    ensures ok && size <= nmax / 2 ==> r[..size] == Sample(draws, nmax, size)
    ensures ok && size > nmax / 2 ==> unwanted == Sample(draws, nmax, nmax - size)
    ensures ok && size > nmax / 2 ==> IsFill(r[..size], unwanted, 2 * size - nmax, nmax)
    ensures ok && size > nmax / 2 ==>
              (IsComplement(r[..size], unwanted, nmax) <==> NoCollision(unwanted, 2 * size - nmax))
  {
    hide Sample, Different, IsComplement, NoCollision, IsFill;
    r := new int[size + 1];
    unwanted := [];
    var count, offset := size, 0;
    if count > nmax / 2 {
      count := nmax - count;
      offset := size - count;
    }
    ok := DrawSorted(r, offset, count, nmax, draws);
    if !ok { return; }
    if offset > 0 {
      unwanted := r[offset..size];
      FillInverted(r, offset, size, nmax, unwanted);
      FillInRange(r[..size], unwanted, offset, nmax);
      ComplementIffNoCollision(r[..size], unwanted, offset, nmax);
    }
  }

  /** What 3 and 4 give. */
  lemma DrawsThreeFour()
    ensures Different([3, 4], 5) == 2 && Sample([3, 4], 5, 2) == [3, 4]
  {
    var d: seq<nat> := [3, 4];
    assert d[..1] == [3] && [3][..0] == [] && d[1] % 5 == 4 && [3][0] % 5 == 3;
    assert Kept([], 5) == [];
    assert Kept([3], 5) == [3];
    assert Kept(d, 5) == [3, 4];
    KeptCount(d, 5);
    assert Kept(d, 5)[..2] == [3, 4] && [3, 4][1..] == [4] && [4][1..] == [];
    assert SortInts([4]) == [4];
  }

  /** Five tracks, three wanted, 3 and 4 drawn as unwanted: the answer 0, 1, 3 contains the unwanted 3
      and misses 2. */
  method CollisionExample() returns (r: array<int>, ok: bool)
    ensures ok && r.Length == 4 && 3 in r[..3] && 2 !in r[..3]
  {
    hide Sample, Different, IsFill, IsComplement, NoCollision, Increasing, InRange;
    ghost var unwanted;
    DrawsThreeFour();
    r, ok, unwanted := RandArray(3, 5, [3, 4]);
    CollidedFill(r[..3]);
  }
}

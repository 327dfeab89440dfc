/** Inserting into and deleting from sequences, and sequences of sequences read as one. */
module Sequences {
  import opened StableSort

  function Insert<X>(s: seq<X>, i: nat, x: X): (r: seq<X>)
    requires i <= |s|
    ensures |r| == |s| + 1 && r[i] == x
  {
    s[..i] + [x] + s[i..]
  }

  ghost predicate Distinct<X>(s: seq<X>) {
    forall i, j :: 0 <= i < j < |s| ==> s[i] != s[j]
  }

  function Delete<X>(s: seq<X>, i: nat): (r: seq<X>)
    requires i < |s|
    ensures |r| == |s| - 1
  {
    s[..i] + s[i + 1..]
  }

  /** The first index where p holds, or the length. */
  function First<X>(s: seq<X>, p: X -> bool): (i: nat)
    ensures i <= |s| && (i < |s| ==> p(s[i]))
    ensures forall k :: 0 <= k < i ==> !p(s[k])
  {
    if s == [] then 0
    else if p(s[0]) then 0
    else
      var i := First(s[1..], p);
      assert forall k :: 0 < k < i + 1 ==> s[k] == s[1..][k - 1];
      i + 1
  }

  lemma FirstIs<X>(s: seq<X>, p: X -> bool, i: nat)
    requires i <= |s| && (i < |s| ==> p(s[i])) && forall k :: 0 <= k < i ==> !p(s[k])
    ensures First(s, p) == i
  {
  }

  lemma InsertBag<X>(s: seq<X>, i: nat, x: X)
    requires i <= |s|
    ensures multiset(Insert(s, i, x)) == multiset(s) + multiset{x}
  {
    assert s == s[..i] + s[i..];
  }

  lemma DeleteBag<X>(s: seq<X>, i: nat)
    requires i < |s|
    ensures multiset(s) == multiset(Delete(s, i)) + multiset{s[i]}
  {
    assert s == s[..i] + [s[i]] + s[i + 1..];
  }

  /** cmp orders all values of the type. */
  ghost predicate Preorder<X(!new)>(cmp: (X, X) -> int) {
    && (forall x, y :: cmp(x, y) < 0 <==> cmp(y, x) > 0)
    && (forall x, y, z :: cmp(x, y) <= 0 && cmp(y, z) <= 0 ==> cmp(x, z) <= 0)
  }

  lemma OrdersAny<X(!new)>(cmp: (X, X) -> int, dom: set<X>)
    requires Preorder(cmp)
    ensures TotalPreorder(cmp, dom)
  {
  }

  /** Inserting behind everything not greater keeps a sequence sorted. */
  lemma InsertSorted<X(!new)>(s: seq<X>, i: nat, x: X, cmp: (X, X) -> int)
    requires Preorder(cmp) && Sorted(s, cmp) && i <= |s|
    requires forall k :: 0 <= k < i ==> cmp(s[k], x) <= 0
    requires i < |s| ==> cmp(x, s[i]) <= 0
    ensures Sorted(Insert(s, i, x), cmp)
  {
    var r := Insert(s, i, x);
    forall a, b | 0 <= a < b < |r| ensures cmp(r[a], r[b]) <= 0 {
      if a < i && b > i {
        assert r[a] == s[a] && r[b] == s[b - 1];
      } else if a == i {
        assert r[b] == s[b - 1];
        if b - 1 > i {
          assert cmp(s[i], s[b - 1]) <= 0;
        }
      } else if a > i {
        assert r[a] == s[a - 1] && r[b] == s[b - 1];
      }
    }
  }

  /** p is behind everything not greater than x, and before everything greater. */
  ghost predicate BehindEquals<X(!new)>(s: seq<X>, p: nat, x: X, cmp: (X, X) -> int) {
    && p <= |s|
    && (forall k :: 0 <= k < p ==> cmp(s[k], x) <= 0)
    && (forall k :: p <= k < |s| ==> cmp(x, s[k]) < 0)
  }

  lemma FirstGreater<X(!new)>(s: seq<X>, x: X, cmp: (X, X) -> int, after: X -> bool)
    requires Preorder(cmp) && Sorted(s, cmp) && forall y :: after(y) <==> cmp(x, y) < 0
    ensures BehindEquals(s, First(s, after), x, cmp)
  {
    var p := First(s, after);
    forall k | 0 <= k < p ensures cmp(s[k], x) <= 0 {
      assert !after(s[k]);
    }
    forall k | p <= k < |s| ensures cmp(x, s[k]) < 0 {
      if k > p {
        assert cmp(s[p], s[k]) <= 0;
      }
    }
  }

  lemma DeleteSorted<X>(s: seq<X>, i: nat, cmp: (X, X) -> int)
    requires Sorted(s, cmp) && i < |s|
    ensures Sorted(Delete(s, i), cmp)
  {
    var r := Delete(s, i);
    forall a, b | 0 <= a < b < |r| ensures cmp(r[a], r[b]) <= 0 {
      var a', b' := if a < i then a else a + 1, if b < i then b else b + 1;
      assert r[a] == s[a'] && r[b] == s[b'];
    }
  }

  // ---- sequences of sequences

  function Flat<T, X>(s: seq<T>, f: T -> seq<X>): seq<X> {
    if s == [] then [] else f(s[0]) + Flat(s[1..], f)
  }

  lemma Assoc<X>(a: seq<X>, b: seq<X>, c: seq<X>)
    ensures a + b + c == a + (b + c)
  {
  }

  lemma {:induction false} FlatConcat<T, X>(s: seq<T>, t: seq<T>, f: T -> seq<X>)
    ensures Flat(s + t, f) == Flat(s, f) + Flat(t, f)
  {
    if s == [] {
      assert s + t == t;
    } else {
      FlatConcat(s[1..], t, f);
      assert (s + t)[1..] == s[1..] + t && (s + t)[0] == s[0];
      Assoc(f(s[0]), Flat(s[1..], f), Flat(t, f));
    }
  }

  lemma FlatOne<T, X>(x: T, f: T -> seq<X>)
    ensures Flat([x], f) == f(x)
  {
    assert Flat([x][1..], f) == [];
  }

  lemma FlatThree<T, X>(a: seq<T>, x: T, b: seq<T>, f: T -> seq<X>)
    ensures Flat(a + [x] + b, f) == Flat(a, f) + f(x) + Flat(b, f)
  {
    hide Flat;
    FlatConcat(a + [x], b, f);
    FlatConcat(a, [x], f);
    FlatOne(x, f);
  }

  lemma SplitAt<X>(s: seq<X>, i: nat)
    requires i < |s|
    ensures s == s[..i] + [s[i]] + s[i + 1..]
  {
  }

  lemma InsertDeleted<X>(s: seq<X>, i: nat)
    requires i < |s|
    ensures Insert(Delete(s, i), i, s[i]) == s
  {
    SplitAt(s, i);
    assert Delete(s, i)[..i] == s[..i] && Delete(s, i)[i..] == s[i + 1..];
  }

  /** The part at index i within the whole. */
  lemma FlatAt<T, X>(s: seq<T>, i: nat, f: T -> seq<X>)
    requires i < |s|
    ensures Flat(s, f) == Flat(s[..i], f) + f(s[i]) + Flat(s[i + 1..], f)
  {
    hide Flat;
    SplitAt(s, i);
    FlatThree(s[..i], s[i], s[i + 1..], f);
  }

  lemma InsertMiddle<X>(a: seq<X>, m: seq<X>, b: seq<X>, q: nat, x: X)
    requires q <= |m|
    ensures a + Insert(m, q, x) + b == Insert(a + m + b, |a| + q, x)
  {
  }

  lemma DeleteMiddle<X>(a: seq<X>, m: seq<X>, b: seq<X>, q: nat)
    requires q < |m|
    ensures (a + m + b)[|a| + q] == m[q]
    ensures a + Delete(m, q) + b == Delete(a + m + b, |a| + q)
  {
  }

  /** Inserting into one part inserts into the whole. */
  lemma FlatInsert<T, X>(s: seq<T>, i: nat, y: T, f: T -> seq<X>, q: nat, x: X) returns (p: nat)
    requires i < |s| && q <= |f(s[i])| && f(y) == Insert(f(s[i]), q, x)
    ensures p <= |Flat(s, f)| && Flat(s[i := y], f) == Insert(Flat(s, f), p, x)
  {
    hide Insert, Flat;
    p := |Flat(s[..i], f)| + q;
    FlatAt(s, i, f);
    FlatAt(s[i := y], i, f);
    assert s[i := y][..i] == s[..i] && s[i := y][i + 1..] == s[i + 1..];
    InsertMiddle(Flat(s[..i], f), f(s[i]), Flat(s[i + 1..], f), q, x);
  }

  /** A new part holding one element inserts that element into the whole. */
  lemma FlatInsertPart<T, X>(s: seq<T>, i: nat, y: T, f: T -> seq<X>, x: X) returns (p: nat)
    requires i <= |s| && f(y) == [x]
    ensures p <= |Flat(s, f)| && Flat(Insert(s, i, y), f) == Insert(Flat(s, f), p, x)
  {
    p := |Flat(s[..i], f)|;
    FlatConcat(s[..i], s[i..], f);
    assert s == s[..i] + s[i..];
    FlatThree(s[..i], y, s[i..], f);
  }

  /** Deleting from one part deletes from the whole. */
  lemma FlatDelete<T, X>(s: seq<T>, i: nat, y: T, f: T -> seq<X>, q: nat) returns (p: nat)
    requires i < |s| && q < |f(s[i])| && f(y) == Delete(f(s[i]), q)
    ensures p < |Flat(s, f)| && Flat(s, f)[p] == f(s[i])[q] && Flat(s[i := y], f) == Delete(Flat(s, f), p)
  {
    hide Delete, Flat;
    p := |Flat(s[..i], f)| + q;
    FlatAt(s, i, f);
    FlatAt(s[i := y], i, f);
    assert s[i := y][..i] == s[..i] && s[i := y][i + 1..] == s[i + 1..];
    DeleteMiddle(Flat(s[..i], f), f(s[i]), Flat(s[i + 1..], f), q);
  }

  /** Deleting a part that holds one element deletes that element from the whole. */
  lemma FlatDeletePart<T, X>(s: seq<T>, i: nat, f: T -> seq<X>) returns (p: nat)
    requires i < |s| && |f(s[i])| == 1
    ensures p < |Flat(s, f)| && Flat(s, f)[p] == f(s[i])[0] && Flat(Delete(s, i), f) == Delete(Flat(s, f), p)
  {
    p := |Flat(s[..i], f)|;
    FlatAt(s, i, f);
    FlatConcat(s[..i], s[i + 1..], f);
  }

  // ---- permutations

  /** Some index of an element. */
  lemma IndexOf<X>(s: seq<X>, x: X) returns (i: nat)
    requires x in multiset(s)
    ensures i < |s| && s[i] == x
  {
    i :| i < |s| && s[i] == x;
  }

  /** Permutations of each other still are after dropping an element from both. */
  lemma SameRest<X>(s: seq<X>, t: seq<X>) returns (i: nat)
    requires multiset(s) == multiset(t) && s != []
    ensures i < |t| && t[i] == s[0] && multiset(s[1..]) == multiset(Delete(t, i))
  {
    hide Delete;
    HeadTail(s);
    i := IndexOf(t, s[0]);
    DeleteBag(t, i);
    assert multiset(s[1..]) == multiset(s) - multiset{s[0]};
    assert multiset(Delete(t, i)) == multiset(t) - multiset{s[0]};
  }

  /** Reading a permuted sequence of sequences as one permutes it. */
  lemma {:induction false} FlatPermutes<T, X>(s: seq<T>, t: seq<T>, f: T -> seq<X>)
    requires multiset(s) == multiset(t)
    ensures multiset(Flat(s, f)) == multiset(Flat(t, f))
  {
    if s == [] {
      assert |t| == |multiset(t)| == 0;
    } else {
      var i := SameRest(s, t);
      FlatPermutes(s[1..], Delete(t, i), f);
      FlatAt(t, i, f);
      FlatConcat(t[..i], t[i + 1..], f);
    }
  }

  /** The keys of all elements differ. */
  ghost predicate Apart<T, K>(s: seq<T>, key: T -> K) {
    forall i, j :: 0 <= i < j < |s| ==> key(s[i]) != key(s[j])
  }

  lemma InsertApart<T, K>(s: seq<T>, i: nat, x: T, key: T -> K)
    requires Apart(s, key) && i <= |s| && forall k :: 0 <= k < |s| ==> key(s[k]) != key(x)
    ensures Apart(Insert(s, i, x), key)
  {
    var t := Insert(s, i, x);
    forall a, b | 0 <= a < b < |t| ensures key(t[a]) != key(t[b]) {
      assert a != i ==> t[a] == s[if a < i then a else a - 1];
      assert b != i ==> t[b] == s[if b < i then b else b - 1];
    }
  }

  lemma DeleteApart<T, K>(s: seq<T>, i: nat, key: T -> K)
    requires Apart(s, key) && i < |s|
    ensures Apart(Delete(s, i), key)
  {
    var t := Delete(s, i);
    forall a, b | 0 <= a < b < |t| ensures key(t[a]) != key(t[b]) {
      assert t[a] == s[if a < i then a else a + 1] && t[b] == s[if b < i then b else b + 1];
    }
  }

  lemma OthersDiffer<T, K>(s: seq<T>, i: nat, key: T -> K, y: T)
    requires Apart(s, key) && i < |s| && y in Delete(s, i)
    ensures key(y) != key(s[i])
  {
    var k :| 0 <= k < |Delete(s, i)| && Delete(s, i)[k] == y;
    assert y == s[if k < i then k else k + 1];
  }

  /** Keys that differ still do in any other order. */
  lemma {:induction false} ApartPermutes<T, K>(s: seq<T>, t: seq<T>, key: T -> K)
    requires multiset(s) == multiset(t) && Apart(t, key)
    ensures Apart(s, key)
  {
    if s != [] {
      var i := SameRest(s, t);
      DeleteApart(t, i, key);
      ApartPermutes(s[1..], Delete(t, i), key);
      forall k | 1 <= k < |s| ensures key(s[0]) != key(s[k]) {
        assert s[k] == s[1..][k - 1] && s[k] in multiset(s[1..]);
        OthersDiffer(t, i, key, s[k]);
      }
    }
  }
}

/** list_mergesort of mergesort.c: bottom-up merging that relinks the nodes of one
    circular list back and forth between two list heads. */
module MergeSort {
  import opened LinkedList
  import opened Numbers
  import opened StableSort
  import Sequences

  ghost predicate Separate(uh: ListHead, us: seq<ListHead>, sh: ListHead, ss: seq<ListHead>, all: set<ListHead>) {
    && Nodes(uh, us) !! Nodes(sh, ss)
    && Nodes(uh, us) + Nodes(sh, ss) == all
  }

  /** The nodes in `all` make up two disjoint well-formed lists. */
  ghost predicate TwoLists(uh: ListHead, us: seq<ListHead>, sh: ListHead, ss: seq<ListHead>, all: set<ListHead>)
    reads all, Nodes(uh, us), Nodes(sh, ss)
  {
    Separate(uh, us, sh, ss, all) && IsList(uh, us) && IsList(sh, ss)
  }

  lemma NextOf(head: ListHead, items: seq<ListHead>, k: nat)
    requires IsList(head, items) && k < |items|
    ensures items[k].next == NodeAt(head, items, k + 1)
  {
    assert Ring(head, items)[k + 1] == items[k];
    assert Ring(head, items)[k + 2] == NodeAt(head, items, k + 1);
  }

  lemma FirstOf(head: ListHead, items: seq<ListHead>)
    requires IsList(head, items)
    ensures head.next == NodeAt(head, items, 0)
  {
    assert Ring(head, items)[0].next == Ring(head, items)[1];
  }

  /** Moves the k-th unsorted node to the end of the sorted list; next is what followed it. */
  method MoveToTail(e: ListHead, uh: ListHead, sh: ListHead, ghost us: seq<ListHead>, ghost ss: seq<ListHead>,
                    ghost k: nat, ghost all: set<ListHead>)
    returns (next: ListHead)
    requires TwoLists(uh, us, sh, ss, all) && k < |us| && e == us[k]
    modifies all
    ensures TwoLists(uh, Without(us, k), sh, ss + [e], all)
    ensures next == NodeAt(uh, Without(us, k), k)
  {
    ghost var left := Without(us, k);
    assert us == us[..k] + [e] + us[k + 1..];
    assert forall x :: x in us <==> x in left || x == e;
    NextOf(uh, us, k);
    next := e.next;
    ListDel(e, uh, us, k);
    ListAddTail(e, sh, ss);
  }

  lemma TwoListsSwap(uh: ListHead, us: seq<ListHead>, sh: ListHead, ss: seq<ListHead>, all: set<ListHead>)
    requires TwoLists(uh, us, sh, ss, all)
    ensures TwoLists(sh, ss, uh, us, all)
  {
  }

  lemma HeadOutside(uh: ListHead, us: seq<ListHead>, sh: ListHead, ss: seq<ListHead>, all: set<ListHead>)
    requires TwoLists(uh, us, sh, ss, all)
    ensures uh !in us
  {
  }

  /** The node K steps on, or the head if the list ends before, and how many steps that took. */
  method RunEnd(p: ListHead, uh: ListHead, K: nat, ghost us: seq<ListHead>) returns (q: ListHead, psize: nat)
    requires IsList(uh, us) && p == NodeAt(uh, us, 0)
    ensures psize == Min(K, |us|) && q == NodeAt(uh, us, psize)
  {
    q, psize := p, 0;
    while psize < K && q != uh
      invariant 0 <= psize <= Min(K, |us|) && q == NodeAt(uh, us, psize) && IsList(uh, us)
    {
      NextOf(uh, us, psize);
      q := q.next;
      psize := psize + 1;
    }
  }

  /** What is unsorted behind uh is a + b + rest, with p at the front of a and q just behind it. */
  ghost predicate AtRuns(p: ListHead, q: ListHead, psize: nat, uh: ListHead, a: seq<ListHead>, b: seq<ListHead>,
                         rest: seq<ListHead>)
  {
    && uh !in a + b + rest && psize == |a|
    && (a != [] ==> p == a[0]) && q == NodeAt(uh, a + b + rest, |a|)
  }

  /** The branch of the inner loop that takes the second run's first node. */
  method TakeRight(q0: ListHead, psize: nat, uh: ListHead, sh: ListHead, ghost p: ListHead, ghost a: seq<ListHead>,
                   ghost b: seq<ListHead>, ghost rest: seq<ListHead>, ghost ss: seq<ListHead>,
                   ghost all: set<ListHead>)
    returns (q: ListHead)
    requires TwoLists(uh, a + b + rest, sh, ss, all) && b != [] && AtRuns(p, q0, psize, uh, a, b, rest)
    modifies all
    ensures TwoLists(uh, a + b[1..] + rest, sh, ss + [b[0]], all) && AtRuns(p, q, psize, uh, a, b[1..], rest)
  {
    ghost var us := a + b + rest;
    assert us[|a|] == b[0] && Without(us, |a|) == a + b[1..] + rest;
    q := MoveToTail(q0, uh, sh, us, ss, |a|, all);
  }

  /** The branch that takes the first run's first node. */
  method TakeLeft(p0: ListHead, psize: nat, uh: ListHead, sh: ListHead, ghost q: ListHead, ghost a: seq<ListHead>,
                  ghost b: seq<ListHead>, ghost rest: seq<ListHead>, ghost ss: seq<ListHead>,
                  ghost all: set<ListHead>)
    returns (p: ListHead)
    requires TwoLists(uh, a + b + rest, sh, ss, all) && a != [] && AtRuns(p0, q, psize, uh, a, b, rest)
    modifies all
    ensures TwoLists(uh, a[1..] + b + rest, sh, ss + [a[0]], all) && AtRuns(p, q, psize - 1, uh, a[1..], b, rest)
  {
    ghost var us := a + b + rest;
    assert Without(us, 0) == a[1..] + b + rest;
    p := MoveToTail(p0, uh, sh, us, ss, 0, all);
  }

  /** Moving the smaller first node over leaves the same merge to be done. */
  lemma MergeTakes(ss: seq<ListHead>, a: seq<ListHead>, b: seq<ListHead>, cmp: (ListHead, ListHead) -> int)
    ensures b != [] && (a == [] || cmp(a[0], b[0]) > 0) ==>
              (ss + [b[0]]) + Merge(a, b[1..], cmp) == ss + Merge(a, b, cmp)
    ensures a != [] && (b == [] || cmp(a[0], b[0]) <= 0) ==>
              (ss + [a[0]]) + Merge(a[1..], b, cmp) == ss + Merge(a, b, cmp)
  {
  }

  /** The inner loop: merges runs a and b, which head the unsorted list, onto the sorted list. */
  method MergeRuns(p0: ListHead, q0: ListHead, psize0: nat, K: nat, uh: ListHead, sh: ListHead,
                   cmp: (ListHead, ListHead) -> int, ghost a0: seq<ListHead>, ghost b0: seq<ListHead>,
                   ghost rest: seq<ListHead>, ghost ss0: seq<ListHead>, ghost all: set<ListHead>)
    returns (q: ListHead, ghost ss: seq<ListHead>)
    requires TwoLists(uh, a0 + b0 + rest, sh, ss0, all) && AtRuns(p0, q0, psize0, uh, a0, b0, rest)
    requires |b0| <= K && (|b0| < K ==> rest == [])
    modifies all
    ensures TwoLists(uh, rest, sh, ss, all) && q == NodeAt(uh, rest, 0)
    ensures ss == ss0 + Merge(a0, b0, cmp)
  {
    var p, psize, qsize := p0, psize0, K;
    q, ss := q0, ss0;
    ghost var a, b, goal := a0, b0, ss0 + Merge(a0, b0, cmp);
    while true
      invariant TwoLists(uh, a + b + rest, sh, ss, all) && AtRuns(p, q, psize, uh, a, b, rest)
      invariant |b| <= qsize && (|b| < qsize ==> rest == [])
      invariant ss + Merge(a, b, cmp) == goal
      decreases |a| + |b|
    {
      if q == uh {
        qsize := 0;
      }
      if psize == 0 && qsize == 0 {
        break;
      }
      MergeTakes(ss, a, b, cmp);
      if psize == 0 || (qsize > 0 && cmp(p, q) > 0) {
        q := TakeRight(q, psize, uh, sh, p, a, b, rest, ss, all);
        qsize := qsize - 1;
        ss, b := ss + [b[0]], b[1..];
      } else {
        p := TakeLeft(p, psize, uh, sh, q, a, b, rest, ss, all);
        psize := psize - 1;
        ss, a := ss + [a[0]], a[1..];
      }
    }
    assert a + b + rest == rest;
  }

  /** One round of the middle loop: merges the next two runs of length K into the sorted list. */
  method MergePair(p0: ListHead, uh: ListHead, sh: ListHead, K: nat, cmp: (ListHead, ListHead) -> int,
                   ghost us: seq<ListHead>, ghost ss0: seq<ListHead>, ghost all: set<ListHead>)
    returns (p: ListHead, ghost ss: seq<ListHead>)
    requires TwoLists(uh, us, sh, ss0, all)
    requires K > 0 && us != [] && p0 == us[0]
    modifies all
    ensures TwoLists(uh, us[Min(2 * K, |us|)..], sh, ss, all)
    ensures p == NodeAt(uh, us[Min(2 * K, |us|)..], 0)
    ensures ss == ss0 + Merge(us[..Min(K, |us|)], us[Min(K, |us|)..Min(2 * K, |us|)], cmp)
  {
    var q, psize := RunEnd(p0, uh, K, us);
    ghost var a, b, rest := us[..psize], us[psize..Min(2 * K, |us|)], us[Min(2 * K, |us|)..];
    assert us == a + b + rest;
    p, ss := MergeRuns(p0, q, psize, K, uh, sh, cmp, a, b, rest, ss0, all);
  }

  lemma {:induction false} MergeNothing(a: seq<ListHead>, cmp: (ListHead, ListHead) -> int)
    ensures Merge(a, [], cmp) == a
  {
    if a != [] { MergeNothing(a[1..], cmp); }
  }

  /** Pass, one pair of runs at a time. */
  lemma PassStep(us: seq<ListHead>, K: nat, cmp: (ListHead, ListHead) -> int)
    requires K > 0 && us != []
    ensures var m, k := Min(2 * K, |us|), Min(K, |us|);
            Pass(us, K, cmp) == Merge(us[..k], us[k..m], cmp) + Pass(us[m..], K, cmp)
  {
    if |us| <= K {
      MergeNothing(us, cmp);
      assert us[..|us|] == us && us[|us|..] == [];
    }
  }

  /** MergePair, told in terms of the pass it is a part of. */
  method PassRound(p0: ListHead, uh: ListHead, sh: ListHead, K: nat, cmp: (ListHead, ListHead) -> int,
                   ghost us0: seq<ListHead>, ghost ss0: seq<ListHead>, ghost all: set<ListHead>)
    returns (p: ListHead, ghost us: seq<ListHead>, ghost ss: seq<ListHead>)
    requires TwoLists(uh, us0, sh, ss0, all)
    requires K > 0 && us0 != [] && p0 == us0[0]
    modifies all
    ensures TwoLists(uh, us, sh, ss, all)
    ensures |us| < |us0| && (us == [] <==> |us0| <= 2 * K)
    ensures if us == [] then p == uh else p == us[0] && p != uh
    ensures ss + Pass(us, K, cmp) == ss0 + Pass(us0, K, cmp)
  {
    hide Pass, Merge, TwoLists;
    PassStep(us0, K, cmp);
    us := us0[Min(2 * K, |us0|)..];
    p, ss := MergePair(p0, uh, sh, K, cmp, us0, ss0, all);
    Sequences.Assoc(ss0, Merge(us0[..Min(K, |us0|)], us0[Min(K, |us0|)..Min(2 * K, |us0|)], cmp), Pass(us, K, cmp));
    HeadOutside(uh, us, sh, ss, all);
  }

  /** One round of the outer loop: a whole pass with run length K. */
  method MergePass(uh: ListHead, sh: ListHead, K: nat, cmp: (ListHead, ListHead) -> int,
                   ghost us0: seq<ListHead>, ghost all: set<ListHead>)
    returns (count: nat, ghost ss: seq<ListHead>)
    requires TwoLists(uh, us0, sh, [], all)
    requires K > 0 && us0 != []
    modifies all
    ensures TwoLists(uh, [], sh, ss, all)
    ensures ss == Pass(us0, K, cmp)
    ensures count == 1 <==> |us0| <= 2 * K
  {
    FirstOf(uh, us0);
    hide TwoLists, IsList;
    var p := uh.next;
    count, ss := 0, [];
    ghost var us := us0;
    ghost var goal := Pass(us0, K, cmp);
    while true
      invariant us != [] && p == us[0] && TwoLists(uh, us, sh, ss, all)
      invariant ss + Pass(us, K, cmp) == goal
      invariant if count == 0 then us == us0 else |us0| > 2 * K
      decreases |us|
    {
      p, us, ss := PassRound(p, uh, sh, K, cmp, us, ss, all);
      count := count + 1;
      if p == uh {
        break;
      }
    }
  }

  lemma EmptyList(head: ListHead, items: seq<ListHead>)
    requires IsList(head, items)
    ensures head.next == head <==> items == []
  {
    FirstOf(head, items);
  }

  /** The closing assignments: head takes over the neighbours of the sorted list's head. */
  method Adopt(head: ListHead, sortedHead: ListHead, ghost items: seq<ListHead>)
    requires IsList(sortedHead, items) && items != [] && head !in items
    modifies Nodes(sortedHead, items), head
    ensures IsList(head, items)
  {
    ghost var ring := Ring(sortedHead, items);
    ghost var n := |items|;
    assert ring[0].next == ring[1] && ring[n + 1].prev == ring[n];
    assert ring[1] == items[0] && ring[n] == items[n - 1];
    head.next := sortedHead.next;
    head.prev := sortedHead.prev;
    sortedHead.prev.next := head;
    sortedHead.next.prev := head;
    ghost var mine := Ring(head, items);
    forall k | 0 <= k <= n ensures mine[k].next == mine[k + 1] && mine[k + 1].prev == mine[k] {
      assert old(ring[k].next == ring[k + 1] && ring[k + 1].prev == ring[k]);
      assert 0 < k ==> mine[k] == ring[k] == items[k - 1];
      assert k < n ==> mine[k + 1] == ring[k + 1] == items[k];
    }
  }

  /** The outer loop: passes with K = 1, 2, 4, ... that swap the two heads' roles. */
  method MergePasses(head: ListHead, empty: ListHead, cmp: (ListHead, ListHead) -> int, ghost items: seq<ListHead>)
    returns (ghost sorted: seq<ListHead>, sortedHead: ListHead)
    requires items != [] && TwoLists(head, items, empty, [], Nodes(head, items) + {empty})
    modifies Nodes(head, items), empty
    ensures sortedHead == head || sortedHead == empty
    ensures IsList(sortedHead, sorted) && sorted != [] && head !in sorted
    ensures Nodes(sortedHead, sorted) <= Nodes(head, items) + {empty}
    ensures sorted == BottomUp(items, 1, cmp)
  {
    var unsortedHead, K := head, 1;
    sortedHead := empty;
    ghost var us := items;
    ghost var all := Nodes(head, items) + {empty};
    ghost var goal := BottomUp(items, 1, cmp);
    while true
      invariant K > 0 && us != [] && (|us| > K || K == 1)
      invariant (unsortedHead == head && sortedHead == empty) || (unsortedHead == empty && sortedHead == head)
      invariant TwoLists(unsortedHead, us, sortedHead, [], all)
      invariant BottomUp(us, K, cmp) == goal
      decreases |us| - K
    {
      hide TwoLists, Pass;
      var count;
      count, us := MergePass(unsortedHead, sortedHead, K, cmp, us, all);
      if count == 1 {
        break;
      }
      TwoListsSwap(unsortedHead, [], sortedHead, us, all);
      unsortedHead, sortedHead := sortedHead, unsortedHead;
      K := K * 2;
    }
    sorted := us;
  }

  /** list_mergesort: whatever the number of passes, the nodes end up behind `head` again,
      stably sorted. */
  method ListMergesort(head: ListHead, cmp: (ListHead, ListHead) -> int, ghost items: seq<ListHead>)
    returns (ghost sorted: seq<ListHead>)
    requires IsList(head, items)
    modifies Nodes(head, items)
    ensures IsList(head, sorted)
    ensures sorted == BottomUp(items, 1, cmp)
    ensures TotalPreorder(cmp, set x | x in items) ==> IsStableSort(sorted, items, cmp)
  {
    sorted := items;
    if TotalPreorder(cmp, set x | x in items) {
      MergeSortIsStable(items, cmp);
    }
    EmptyList(head, items);
    if head.next == head {
      return;
    }
    var empty := new ListHead();
    var sortedHead;
    sorted, sortedHead := MergePasses(head, empty, cmp, items);
    Adopt(head, sortedHead, sorted);
  }
}

/** editable.c: moving the marked tracks, or the selected one, within a list shown in a window. */
module MoveSel {
  import opened Numbers
  import opened Options
  import opened StableSort
  import opened Sequences
  import opened Window

  // ---- the tracks that move and the tracks that stay

  /** The tracks that are in m, or that are not, in their order. */
  function Select(s: seq<nat>, m: set<nat>, inside: bool): seq<nat> {
    if s == [] then [] else (if (s[0] in m) == inside then [s[0]] else []) + Select(s[1..], m, inside)
  }

  function Take(s: seq<nat>, m: set<nat>): seq<nat> {
    Select(s, m, true)
  }

  function Keep(s: seq<nat>, m: set<nat>): seq<nat> {
    Select(s, m, false)
  }

  lemma {:induction false} SelectConcat(s: seq<nat>, t: seq<nat>, m: set<nat>, inside: bool)
    ensures Select(s + t, m, inside) == Select(s, m, inside) + Select(t, m, inside)
  {
    if s == [] {
      assert s + t == t;
    } else {
      SelectConcat(s[1..], t, m, inside);
      assert (s + t)[1..] == s[1..] + t && (s + t)[0] == s[0];
      Assoc(if (s[0] in m) == inside then [s[0]] else [], Select(s[1..], m, inside), Select(t, m, inside));
    }
  }

  lemma SelectOne(x: nat, m: set<nat>, inside: bool)
    ensures Select([x], m, inside) == if (x in m) == inside then [x] else []
  {
    assert Select([x][1..], m, inside) == [];
  }

  lemma TakeConcat(s: seq<nat>, t: seq<nat>, m: set<nat>)
    ensures Take(s + t, m) == Take(s, m) + Take(t, m)
    ensures Keep(s + t, m) == Keep(s, m) + Keep(t, m)
  {
    hide Select;
    SelectConcat(s, t, m, true);
    SelectConcat(s, t, m, false);
  }

  lemma TakeSnoc(s: seq<nat>, i: nat, m: set<nat>)
    requires i < |s|
    ensures Take(s[..i + 1], m) == if s[i] in m then Take(s[..i], m) + [s[i]] else Take(s[..i], m)
    ensures Keep(s[..i + 1], m) == if s[i] in m then Keep(s[..i], m) else Keep(s[..i], m) + [s[i]]
  {
    hide Select;
    assert s[..i + 1] == s[..i] + [s[i]];
    TakeConcat(s[..i], [s[i]], m);
    SelectOne(s[i], m, true);
    SelectOne(s[i], m, false);
  }

  lemma {:induction false} SelectMembers(s: seq<nat>, m: set<nat>, inside: bool, x: nat)
    ensures x in Select(s, m, inside) <==> x in s && (x in m) == inside
  {
    if s != [] {
      SelectMembers(s[1..], m, inside, x);
      assert x in s <==> x == s[0] || x in s[1..];
    }
  }

  lemma Members(s: seq<nat>, m: set<nat>)
    ensures forall x :: x in Take(s, m) <==> x in s && x in m
    ensures forall x :: x in Keep(s, m) <==> x in s && x !in m
  {
    hide Select;
    forall x ensures (x in Take(s, m) <==> x in s && x in m) && (x in Keep(s, m) <==> x in s && x !in m) {
      SelectMembers(s, m, true, x);
      SelectMembers(s, m, false, x);
    }
  }

  lemma {:induction false} Partition(s: seq<nat>, m: set<nat>)
    ensures multiset(s) == multiset(Take(s, m)) + multiset(Keep(s, m))
  {
    if s != [] {
      Partition(s[1..], m);
      HeadTail(s);
    }
  }

  lemma {:induction false} AllTaken(s: seq<nat>, m: set<nat>)
    requires forall x :: x in s ==> x in m
    ensures Take(s, m) == s && Keep(s, m) == []
  {
    if s != [] {
      assert forall x :: x in s[1..] ==> x in s;
      AllTaken(s[1..], m);
      assert s == [s[0]] + s[1..];
    }
  }

  lemma {:induction false} AllKept(s: seq<nat>, m: set<nat>)
    requires forall x :: x in s ==> x !in m
    ensures Keep(s, m) == s && Take(s, m) == []
  {
    if s != [] {
      assert forall x :: x in s[1..] ==> x in s;
      AllKept(s[1..], m);
      assert s == [s[0]] + s[1..];
    }
  }

  lemma {:induction false} KeepDistinct(s: seq<nat>, m: set<nat>)
    requires Distinct(s)
    ensures Distinct(Keep(s, m))
  {
    if s != [] {
      KeepDistinct(s[1..], m);
      Members(s[1..], m);
      forall i, j | 0 <= i < j < |Keep(s, m)| ensures Keep(s, m)[i] != Keep(s, m)[j] {
        if i == 0 && s[0] !in m {
          assert Keep(s, m)[j] in Keep(s[1..], m);
        }
      }
    }
  }

  /** s with the tracks of m moved together, in their order, behind the first p that stay. */
  function Moved(s: seq<nat>, m: set<nat>, p: nat): seq<nat>
    requires p <= |Keep(s, m)|
  {
    Keep(s, m)[..p] + Take(s, m) + Keep(s, m)[p..]
  }

  /** Moving permutes the tracks; those that move and those that stay keep their order. */
  lemma MovedKeepsOrder(s: seq<nat>, m: set<nat>, p: nat)
    requires p <= |Keep(s, m)|
    ensures multiset(Moved(s, m, p)) == multiset(s)
    ensures Take(Moved(s, m, p), m) == Take(s, m) && Keep(Moved(s, m, p), m) == Keep(s, m)
    ensures Moved(s, m, p)[p..p + |Take(s, m)|] == Take(s, m)
  {
    hide Take, Keep;
    var k, t := Keep(s, m), Take(s, m);
    Members(s, m);
    Partition(s, m);
    assert k == k[..p] + k[p..];
    SplitMoved(k[..p], t, k[p..], m);
  }

  lemma SplitMoved(a: seq<nat>, t: seq<nat>, b: seq<nat>, m: set<nat>)
    requires (forall x :: x in t ==> x in m) && (forall x :: x in a ==> x !in m) && (forall x :: x in b ==> x !in m)
    ensures Take(a + t + b, m) == t && Keep(a + t + b, m) == a + b
  {
    hide Take, Keep;
    TakeConcat(a + t, b, m);
    TakeConcat(a, t, m);
    AllTaken(t, m);
    AllKept(a, m);
    AllKept(b, m);
  }

  lemma MovedDistinct(s: seq<nat>, m: set<nat>, p: nat)
    requires Distinct(s) && p <= |Keep(s, m)|
    ensures Distinct(Moved(s, m, p))
  {
    MovedKeepsOrder(s, m, p);
    DistinctPermutes(Moved(s, m, p), s);
  }

  function Id(x: nat): nat {
    x
  }

  lemma DistinctPermutes(s: seq<nat>, t: seq<nat>)
    requires multiset(s) == multiset(t) && Distinct(t)
    ensures Distinct(s)
  {
    assert Apart(t, Id);
    ApartPermutes(s, t, Id);
    forall i, j | 0 <= i < j < |s| ensures s[i] != s[j] {
      assert Id(s[i]) != Id(s[j]);
    }
  }

  /** Behind a track that stays: behind as many as stay up to it. */
  lemma AnchorPlace(s: seq<nat>, m: set<nat>, a: nat)
    requires Distinct(s) && a < |s| && s[a] !in m
    ensures s[a] in Keep(s, m) && Idx(Keep(s, m), s[a]) + 1 == |Keep(s[..a + 1], m)| <= |Keep(s, m)|
  {
    KeepDistinct(s, m);
    TakeSnoc(s, a, m);
    assert s == s[..a + 1] + s[a + 1..];
    TakeConcat(s[..a + 1], s[a + 1..], m);
    var i := |Keep(s[..a], m)|;
    assert Keep(s, m)[i] == s[a];
    IdxAt(Keep(s, m), i);
  }

  lemma {:induction false} SameKept(s: seq<nat>, m: set<nat>, a: nat, b: nat)
    requires a <= b <= |s| && forall k :: a <= k < b ==> s[k] in m
    ensures Keep(s[..a], m) == Keep(s[..b], m)
    decreases b
  {
    if a < b {
      SameKept(s, m, a, b - 1);
      TakeSnoc(s, b - 1, m);
    }
  }

  lemma KeepPrefix(s: seq<nat>, m: set<nat>, b: nat)
    requires b <= |s|
    ensures |Keep(s[..b], m)| <= |Keep(s, m)|
    ensures Keep(s, m)[..|Keep(s[..b], m)|] == Keep(s[..b], m) && Keep(s, m)[|Keep(s[..b], m)|..] == Keep(s[b..], m)
  {
    assert s == s[..b] + s[b..];
    TakeConcat(s[..b], s[b..], m);
  }

  /** Moving behind those that stay up to index b. */
  lemma MovedAt(s: seq<nat>, m: set<nat>, b: nat)
    requires b <= |s|
    ensures |Keep(s[..b], m)| <= |Keep(s, m)|
    ensures Moved(s, m, |Keep(s[..b], m)|) == Keep(s[..b], m) + Take(s, m) + Keep(s[b..], m)
  {
    KeepPrefix(s, m, b);
  }

  lemma OneMoved(s: seq<nat>, i: nat)
    requires Distinct(s) && i < |s|
    ensures Take(s, {s[i]}) == [s[i]] && Keep(s, {s[i]}) == Delete(s, i)
  {
    SplitAt(s, i);
    SplitMoved(s[..i], [s[i]], s[i + 1..], {s[i]});
  }

  /** tmp is s in reverse. */
  predicate Backwards(tmp: seq<nat>, s: seq<nat>) {
    |tmp| == |s| && forall k :: 0 <= k < |tmp| ==> tmp[k] == s[|s| - 1 - k]
  }

  /** One more track of the list looked at: it moves, or it stays. */
  lemma CollectStep(s: seq<nat>, i: nat, m: set<nat>, tmp: seq<nat>)
    requires i < |s| && Backwards(tmp, Take(s[..i], m))
    ensures s[i..][0] == s[i] && s[i..][1..] == s[i + 1..]
    ensures s[i] in m ==> Keep(s[..i + 1], m) == Keep(s[..i], m) && Backwards([s[i]] + tmp, Take(s[..i + 1], m))
    ensures s[i] !in m ==> Keep(s[..i + 1], m) + s[i + 1..] == Keep(s[..i], m) + s[i..]
    ensures s[i] !in m ==> Backwards(tmp, Take(s[..i + 1], m))
  {
    hide Take, Keep;
    TakeSnoc(s, i, m);
    assert s[i..] == [s[i]] + s[i + 1..];
    Assoc(Keep(s[..i], m), [s[i]], s[i + 1..]);
  }

  // ---- the list and its window

  class Editable {
    const win: Viewport           // win.rows is the list
    var marked: set<nat>
    var nrMarked: nat
    var sortKeys: bool            // sort_keys[0] is set

    ghost predicate Valid()
      reads this, win
    {
      win.Sound() && win.attached && nrMarked == |marked| && forall t :: t in marked ==> t in win.rows
    }

    constructor ()
      ensures Valid() && win.rows == [] && marked == {} && !sortKeys && fresh(win)
    {
      win := new Viewport();
      marked, nrMarked, sortKeys := {}, 0, false;
      new;
      win.SetContents([]);
    }

    // ---- adding, marking and removing

    /** editable_add, where the sorted insertion found position k. */
    method EditableAdd(k: nat, t: nat)
      requires Valid() && k <= |win.rows| && t !in win.rows
      modifies win`rows, win`top, win`sel
      ensures Valid() && win.Full() && win.rows == Insert(old(win.rows), k, t)
      ensures old(win.rows) != [] ==> win.sel == old(win.sel)
    {
      hide Viewport.Sound, Viewport.Full;
      win.InsertRow(k, t);
      forall x | x in marked ensures x in win.rows {
        InsertMembers(old(win.rows), k, t, x);
      }
    }

    static lemma InsertMembers(s: seq<nat>, k: nat, t: nat, x: nat)
      requires k <= |s|
      ensures x in Insert(s, k, t) <==> x == t || x in s
    {
      assert s == s[..k] + s[k..];
    }

    /** editable_remove_track */
    method EditableRemoveTrack(t: nat)
      requires Valid() && t in win.rows
      modifies win`rows, win`top, win`sel, `marked, `nrMarked
      ensures Valid() && win.rows == Delete(old(win.rows), Idx(old(win.rows), t)) == Keep(old(win.rows), {t})
      ensures marked == old(marked) - {t}
      ensures old(win.sel) != Row(t) ==> win.sel == old(win.sel)
    {
      hide Viewport.Sound, Idx, Delete, Keep;
      ghost var all := win.rows;
      Iterators();
      IdxIn(all, t);
      OneMoved(all, Idx(all, t));
      Members(all, {t});
      win.RemoveRow(t);
      if t in marked {
        marked := marked - {t};
        nrMarked := nrMarked - 1;
      }
    }

    /** editable_remove_sel: the marked tracks go, or the selected one. */
    method EditableRemoveSel()
      requires Valid()
      modifies win`rows, win`top, win`sel, `marked, `nrMarked
      ensures Valid() && marked == {}
      ensures win.rows == if old(win.rows) == [] then [] else Keep(old(win.rows), old(Moving()))
    {
      hide Viewport.Sound, Idx, Delete, Keep, Take;
      Iterators();
      if nrMarked > 0 {
        RemoveMarked();
      } else if win.sel.Row? {
        EditableRemoveTrack(win.sel.id);
      }
    }

    /** The loop of editable_remove_sel. */
    method RemoveMarked()
      requires Valid()
      modifies win`rows, win`top, win`sel, `marked, `nrMarked
      ensures Valid() && marked == {} && win.rows == Keep(old(win.rows), old(marked))
    {
      hide Valid, Viewport.Sound, Idx, Delete, Keep, Take, Removed;
      ghost var all, m := win.rows, marked;
      NothingRemoved(m);
      var left := win.rows;
      ghost var i := 0;
      while left != []
        invariant i <= |all| && left == all[i..] && Valid() && Removed(all, i, m)
        decreases |left|
      {
        assert all[i..][0] == all[i] && all[i..][1..] == all[i + 1..];
        RemoveIfMarked(left[0], all, i, m);
        left := left[1..];
        i := i + 1;
      }
      AllRemoved(all, m);
    }

    /** The marked tracks before index i of all are gone. */
    ghost predicate Removed(all: seq<nat>, i: nat, m: set<nat>)
      reads this, win
      requires i <= |all|
    {
      Distinct(all) && win.rows == Keep(all[..i], m) + all[i..] && marked == set x | x in m && x in all[i..]
    }

    lemma NothingRemoved(m: set<nat>)
      requires Valid() && m == marked
      ensures Removed(win.rows, 0, m)
    {
      hide Viewport.Sound, Keep;
      Iterators();
      NothingKept(win.rows, m);
    }

    static lemma NothingKept(all: seq<nat>, m: set<nat>)
      requires forall x :: x in m ==> x in all
      ensures Keep(all[..0], m) + all[0..] == all && m == set x | x in m && x in all[0..]
    {
      assert all[0..] == all;
    }

    lemma AllRemoved(all: seq<nat>, m: set<nat>)
      requires Removed(all, |all|, m)
      ensures marked == {} && win.rows == Keep(all, m)
    {
      hide Keep;
      assert all[..|all|] == all;
    }

    method RemoveIfMarked(t: nat, ghost all: seq<nat>, ghost i: nat, ghost m: set<nat>)
      requires i < |all| && t == all[i] && Valid() && Removed(all, i, m)
      modifies win`rows, win`top, win`sel, `marked, `nrMarked
      ensures Valid() && Removed(all, i + 1, m)
    {
      hide Viewport.Sound, Idx, Delete, Keep, Take;
      StillMarked(all, i, m);
      TakeSnoc(all, i, m);
      Assoc(Keep(all[..i], m), [all[i]], all[i + 1..]);
      if t in marked {
        RemoveNext(Keep(all[..i], m), t, all[i + 1..]);
        EditableRemoveTrack(t);
      }
    }

    /** Of distinct tracks the one at index i does not come again. */
    static lemma StillMarked(all: seq<nat>, i: nat, m: set<nat>)
      requires Distinct(all) && i < |all|
      ensures all[i..] == [all[i]] + all[i + 1..]
      ensures all[i] in m ==> all[i] in (set x | x in m && x in all[i..])
      ensures (set x | x in m && x in all[i..]) - {all[i]} == set x | x in m && x in all[i + 1..]
      ensures all[i] !in m ==> (set x | x in m && x in all[i..]) == set x | x in m && x in all[i + 1..]
    {
      var rest := all[i + 1..];
      assert all[i..] == [all[i]] + rest;
      assert all[i] !in rest;
    }

    lemma RemoveNext(a: seq<nat>, t: nat, b: seq<nat>)
      requires win.Sound() && win.rows == a + ([t] + b)
      ensures t in win.rows && Delete(win.rows, Idx(win.rows, t)) == a + b
    {
      assert win.rows[|a|] == t;
      IdxAt(win.rows, |a|);
    }

    /** editable_clear */
    method EditableClear()
      requires Valid()
      modifies win`rows, win`top, win`sel, `marked, `nrMarked
      ensures Valid() && win.rows == [] && marked == {}
    {
      hide Viewport.Sound, Idx, Keep;
      while win.rows != []
        invariant Valid()
        decreases |win.rows|
      {
        IdxIn(win.rows, win.rows[0]);
        EditableRemoveTrack(win.rows[0]);
      }
    }

    /** editable_toggle_mark: the selected track, and one row down. */
    method EditableToggleMark()
      requires Valid()
      modifies win`top, win`sel, `marked, `nrMarked
      ensures Valid()
      ensures if !old(win.sel).Row? then marked == old(marked)
              else if old(win.sel).id in old(marked) then marked == old(marked) - {old(win.sel).id}
              else marked == old(marked) + {old(win.sel).id}
      ensures win.rows != [] ==> win.Index(win.sel) == Min(|win.rows| - 1, old(win.Index(win.sel)) + 1)
    {
      hide Viewport.Sound, Idx;
      Iterators();
      if win.sel.Row? {
        SetMark(win.sel.id, win.sel.id !in marked);
        win.Down(1);
      }
    }

    /** Set one track's mark, keeping count. */
    method SetMark(t: nat, mark: bool)
      requires nrMarked == |marked|
      modifies `marked, `nrMarked
      ensures nrMarked == |marked| && marked == if mark then old(marked) + {t} else old(marked) - {t}
    {
      if t in marked {
        nrMarked := nrMarked - 1;
      }
      marked := marked - {t};
      if mark {
        marked := marked + {t};
        nrMarked := nrMarked + 1;
      }
    }

    /** editable_mark: matches is the filter, or accepts everything when none was given; None when
        the filter does not parse. */
    method EditableMark(matches: Option<nat -> bool>)
      requires Valid()
      modifies `marked, `nrMarked
      ensures Valid()
      ensures if matches.None? then marked == old(marked) else marked == set t | t in win.rows && matches.value(t)
    {
      if matches.None? {
        return;
      }
      SetMarks(matches.value);
    }

    /** editable_unmark */
    method EditableUnmark()
      requires Valid()
      modifies `marked, `nrMarked
      ensures Valid() && marked == {}
    {
      SetMarks(t => false);
    }

    /** editable_invert_marks */
    method EditableInvertMarks()
      requires Valid()
      modifies `marked, `nrMarked
      ensures Valid() && marked == (set t | t in win.rows) - old(marked)
    {
      var was := marked;
      SetMarks(t => t !in was);
    }

    /** The loop of the three: each track's mark is set anew, once. */
    method SetMarks(mark: nat -> bool)
      requires Valid()
      modifies `marked, `nrMarked
      ensures Valid() && marked == set t | t in win.rows && mark(t)
    {
      hide Viewport.Sound;
      Iterators();
      var k := 0;
      while k < |win.rows|
        invariant k <= |win.rows| && nrMarked == |marked| && forall t :: t in marked ==> t in win.rows
        invariant forall j :: 0 <= j < k ==> (win.rows[j] in marked <==> mark(win.rows[j]))
      {
        SetMark(win.rows[k], mark(win.rows[k]));
        k := k + 1;
      }
    }

    // ---- moving

    /** The unlinking half of move_item; the window is told first. */
    method MoveItem(t: nat, ghost before: seq<nat>, ghost left: seq<nat>)
      requires win.Sound() && win.attached && left != [] && left[0] == t && win.rows == before + left
      modifies win`rows, win`top, win`sel
      ensures win.Sound() && win.rows == before + left[1..]
    {
      hide Idx, Delete;
      RestSplit(before, left);
      RowPlace(win.rows, |before|);
      win.RemoveRow(t);
    }

    /** The tracks of m before index i of all are collected in tmp, backwards. */
    ghost predicate Collected(all: seq<nat>, i: nat, m: set<nat>, tmp: seq<nat>)
      reads win
      requires i <= |all|
    {
      win.rows == Keep(all[..i], m) + all[i..] && Backwards(tmp, Take(all[..i], m))
    }

    /** Take the tracks of m out of the list, one move_item each; tmp collects them backwards. */
    method Collect(m: set<nat>) returns (tmp: seq<nat>)
      requires win.Sound() && win.attached
      modifies win`rows, win`top, win`sel
      ensures win.Sound() && win.rows == Keep(old(win.rows), m)
      ensures Backwards(tmp, Take(old(win.rows), m))
    {
      hide Take, Keep, Idx, Viewport.Sound, Backwards, Delete, Collected;
      ghost var all := win.rows;
      var left := win.rows;
      tmp := [];
      ghost var i := 0;
      NoneCollected(m);
      while left != []
        invariant win.Sound() && win.attached && i <= |all| && left == all[i..] && Collected(all, i, m, tmp)
        decreases |left|
      {
        assert all[i..][0] == all[i] && all[i..][1..] == all[i + 1..];
        tmp := CollectNext(left[0], tmp, all, i, m);
        left := left[1..];
        i := i + 1;
      }
      AllCollected(all, m, tmp);
    }

    lemma NoneCollected(m: set<nat>)
      ensures Collected(win.rows, 0, m, [])
    {
      assert Keep([], m) == [] && Take([], m) == [];
    }

    lemma AllCollected(all: seq<nat>, m: set<nat>, tmp: seq<nat>)
      requires Collected(all, |all|, m, tmp)
      ensures win.rows == Keep(all, m) && Backwards(tmp, Take(all, m))
    {
      hide Keep, Take, Backwards;
      assert all[..|all|] == all;
    }

    method CollectNext(t: nat, tmp: seq<nat>, ghost all: seq<nat>, ghost i: nat, m: set<nat>)
      returns (more: seq<nat>)
      requires win.Sound() && win.attached && i < |all| && t == all[i] && Collected(all, i, m, tmp)
      modifies win`rows, win`top, win`sel
      ensures win.Sound() && Collected(all, i + 1, m, more)
    {
      hide Take, Keep, Idx, Viewport.Sound, Backwards, Delete;
      CollectStep(all, i, m, tmp);
      more := tmp;
      if t in m {
        MoveItem(t, Keep(all[..i], m), all[i..]);
        more := [t] + tmp;
      }
    }

    lemma RowPlace(rows: seq<nat>, i: nat)
      requires win.Sound() && rows == win.rows && i < |rows|
      ensures rows[i] in rows && Idx(rows, rows[i]) == i
    {
      IdxAt(rows, i);
    }

    static lemma RestSplit(a: seq<nat>, left: seq<nat>)
      requires left != []
      ensures |a + left| > |a| && (a + left)[|a|] == left[0] && a + left == a + [left[0]] + left[1..]
      ensures Delete(a + left, |a|) == a + left[1..]
    {
    }

    /** Link the collected tracks in again, each right behind the anchor. */
    method PutBack(tmp: seq<nat>, p: nat, ghost m: seq<nat>)
      requires p <= |win.rows| && Backwards(tmp, m)
      modifies win`rows
      ensures win.rows == old(win.rows)[..p] + m + old(win.rows)[p..]
    {
      ghost var keep := win.rows;
      var k := 0;
      while k < |tmp|
        invariant k <= |tmp| && win.rows == keep[..p] + m[|m| - k..] + keep[p..]
      {
        assert m[|m| - k - 1..] == [tmp[k]] + m[|m| - k..];
        BehindAnchor(keep[..p], tmp[k], m[|m| - k..], keep[p..]);
        win.rows := Insert(win.rows, p, tmp[k]);
        k := k + 1;
      }
      assert m[0..] == m;
    }

    static lemma BehindAnchor(a: seq<nat>, x: nat, b: seq<nat>, c: seq<nat>)
      ensures Insert(a + b + c, |a|, x) == a + ([x] + b) + c
    {
    }

    /** What a move command moves: the marked tracks, or the selected one. */
    ghost function Moving(): set<nat>
      reads this, win
      requires win.sel.Row?
    {
      if nrMarked > 0 then marked else {win.sel.id}
    }

    /** How many of the tracks that stay precede the insertion point. */
    static ghost function Behind(rows: seq<nat>, m: set<nat>, after: Iter): nat {
      if after.Row? then Idx(Keep(rows, m), after.id) + 1 else 0
    }

    static lemma BehindFits(rows: seq<nat>, m: set<nat>, after: Iter)
      requires after.Row? ==> after.id in rows && after.id !in m
      ensures Behind(rows, m, after) <= |Keep(rows, m)|
    {
      if after.Row? {
        Members(rows, m);
        IdxIn(Keep(rows, m), after.id);
      }
    }

    /** Where the window's iterators are. */
    lemma Iterators()
      requires win.Sound() && win.attached
      ensures Distinct(win.rows) && win.nrRows >= 1
      ensures if win.rows == [] then win.top == win.sel == Head
              else win.top.Row? && win.sel.Row? && win.top.id in win.rows && win.sel.id in win.rows
    {
    }

    lemma UsableAgain()
      requires win.attached && Distinct(win.rows) && win.nrRows >= 1
      requires win.top.Row? && win.sel.Row? && win.top.id in win.rows && win.sel.id in win.rows
      ensures win.Usable()
    {
      IdxIn(win.rows, win.top.id);
      IdxIn(win.rows, win.sel.id);
    }

    static lemma MovedFacts(all: seq<nat>, m: set<nat>, p: nat)
      requires Distinct(all) && p <= |Keep(all, m)| && m != {} && forall t :: t in m ==> t in all
      ensures Distinct(Moved(all, m, p)) && Take(all, m) != [] && p < |Moved(all, m, p)|
      ensures Moved(all, m, p)[p] == Take(all, m)[0]
      ensures forall t :: t in Keep(all, m) ==> t in Moved(all, m, p)
      ensures forall t :: t in m ==> t in Moved(all, m, p)
      ensures Keep(all, m) == [] <==> forall t :: t in all ==> t in m
    {
      hide Take, Keep;
      MovedDistinct(all, m, p);
      Members(all, m);
      var x :| x in m;
      assert x in Take(all, m);
      assert Keep(all, m) == Keep(all, m)[..p] + Keep(all, m)[p..];
      if Keep(all, m) != [] {
        assert Keep(all, m)[0] in Keep(all, m);
      }
    }

    /** The insertion point in what stays. */
    method Anchor(after: Iter, ghost all: seq<nat>, ghost m: set<nat>) returns (p: nat)
      requires win.rows == Keep(all, m) && (after.Row? ==> after.id in all && after.id !in m)
      ensures p == Behind(all, m, after) <= |Keep(all, m)|
    {
      hide Keep;
      BehindFits(all, m, after);
      p := if after.Row? then Idx(win.rows, after.id) + 1 else 0;
    }

    /** move_sel.  When every track is marked the window has been emptied and the assertion in
        window_set_sel fails: aborted.  The list is in order even then. */
    method MoveSelected(after: Iter) returns (aborted: bool)
      requires Valid() && win.sel.Row? && win.rows != []
      requires after.Row? ==> after.id in win.rows && after.id !in Moving()
      modifies win`rows, win`top, win`sel
      ensures Behind(old(win.rows), old(Moving()), after) <= |Keep(old(win.rows), old(Moving()))|
      ensures win.rows == Moved(old(win.rows), old(Moving()), Behind(old(win.rows), old(Moving()), after))
      ensures aborted <==> forall t :: t in old(win.rows) ==> t in old(Moving())
      ensures !aborted ==> Valid() && win.Full() && TopMost(win.sel, Take(old(win.rows), old(Moving())))
    {
      hide Take, Keep, Idx, Viewport.Sound, Viewport.Usable, Viewport.Full, Behind;
      Iterators();
      var moving := if nrMarked > 0 then marked else {win.sel.id};
      ghost var all := win.rows;
      var tmp := Collect(moving);
      Iterators();
      var p := Anchor(after, all, moving);
      MovedFacts(all, moving, p);
      PutBack(tmp, p, Take(all, moving));
      aborted := win.top == Head;
      if !aborted {
        UsableAgain();
        win.SetSel(Row(win.rows[p]));
        win.Changed();
      }
    }

    static ghost predicate TopMost(sel: Iter, tracks: seq<nat>) {
      tracks != [] && sel == Row(tracks[0])
    }

    // ---- where to insert

    /** item->prev and item->next on the circular list; -1 is the head. */
    static function Prev(i: int, n: nat): int {
      if i == -1 then n - 1 else i - 1
    }

    static function Next(i: int, n: nat): int {
      if i + 1 == n then -1 else i + 1
    }

    function Item(i: int): Iter
      reads win
      requires -1 <= i < |win.rows|
    {
      if i == -1 then Head else Row(win.rows[i])
    }

    /** From item back to the first unmarked track or the head. */
    method SkipMarked(item: int) returns (a: int)
      requires -1 <= item < |win.rows|
      ensures -1 <= a <= item && (a >= 0 ==> win.rows[a] !in marked)
      ensures forall k :: a < k <= item ==> win.rows[k] in marked
    {
      a := item;
      while a != -1 && win.rows[a] in marked
        invariant -1 <= a <= item && forall k :: a < k <= item ==> win.rows[k] in marked
      {
        a := a - 1;
      }
    }

    /** find_insert_after_point */
    method FindInsertAfter(i: nat) returns (a: int)
      requires i < |win.rows|
      ensures -1 <= a < |win.rows|
      ensures nrMarked == 0 ==> a == Next(i, |win.rows|)
      ensures nrMarked > 0 ==> a < i + 1 && (a >= 0 ==> win.rows[a] !in marked)
      ensures nrMarked > 0 ==> forall k :: a < k < i + 1 ==> win.rows[k] in marked
    {
      if nrMarked == 0 {
        return Next(i, |win.rows|);
      }
      a := SkipMarked(i);
    }

    /** find_insert_before_point */
    method FindInsertBefore(i: nat) returns (a: int)
      requires i < |win.rows|
      ensures -1 <= a < |win.rows|
      ensures nrMarked == 0 ==> a == Prev(Prev(i, |win.rows|), |win.rows|)
      ensures nrMarked > 0 ==> a < i && (a >= 0 ==> win.rows[a] !in marked)
      ensures nrMarked > 0 ==> forall k :: a < k < i ==> win.rows[k] in marked
    {
      var item := Prev(i, |win.rows|);
      if nrMarked == 0 {
        return Prev(item, |win.rows|);
      }
      a := SkipMarked(item);
    }

    /** Behind the anchor a is behind all that stay before index b. */
    static lemma BehindAnchored(rows: seq<nat>, m: set<nat>, a: int, b: nat)
      requires Distinct(rows) && -1 <= a < b <= |rows|
      requires (a >= 0 ==> rows[a] !in m) && forall k :: a < k < b ==> rows[k] in m
      ensures Behind(rows, m, if a == -1 then Head else Row(rows[a])) == |Keep(rows[..b], m)|
      ensures |Keep(rows[..b], m)| <= |Keep(rows, m)|
      ensures Moved(rows, m, |Keep(rows[..b], m)|) == Keep(rows[..b], m) + Take(rows, m) + Keep(rows[b..], m)
    {
      hide Idx;
      SameKept(rows, m, a + 1, b);
      if a >= 0 {
        AnchorPlace(rows, m, a);
      } else {
        assert rows[..0] == [];
      }
      MovedAt(rows, m, b);
    }

    /** A single track moved behind another one. */
    static lemma BehindOther(rows: seq<nat>, i: nat, a: int)
      requires Distinct(rows) && i < |rows| && -1 <= a < |rows| && a != i
      ensures var p := if a < i then a + 1 else a;
              && Behind(rows, {rows[i]}, if a == -1 then Head else Row(rows[a])) == p <= |Keep(rows, {rows[i]})|
              && Moved(rows, {rows[i]}, p) == Insert(Delete(rows, i), p, rows[i])
    {
      hide Idx, Keep, Take;
      OneMoved(rows, i);
      if a >= 0 {
        Viewport.DeletedAt(rows, i, Row(rows[a]), a);
        IdxAt(Delete(rows, i), if a < i then a else a - 1);
      }
    }

    /** The marked tracks of s together, between what stays before index b and what stays from
        there on. */
    static ghost function MarkedMoved(s: seq<nat>, m: set<nat>, b: nat): seq<nat>
      requires b <= |s|
    {
      Keep(s[..b], m) + Take(s, m) + Keep(s[b..], m)
    }

    static lemma NotOnlyOne(s: seq<nat>, i: nat)
      requires Distinct(s) && i < |s| && |s| > 1
      ensures !(forall t :: t in s ==> t in {s[i]})
    {
      var j := if i == 0 then 1 else 0;
      assert s[j] in s && s[j] != s[i];
    }

    /** The selected track's index; there is one in a list of several. */
    method Selected() returns (i: nat)
      requires Valid() && win.rows != []
      ensures win.sel.Row? && i < |win.rows| && win.rows[i] == win.sel.id && i == win.Index(win.sel)
      ensures Distinct(win.rows)
    {
      Iterators();
      i := win.RowNumber(win.sel);
    }

    ghost predicate AllMarked(rows: seq<nat>)
      reads this
    {
      nrMarked > 0 && forall t :: t in rows ==> t in marked
    }

    /** The list after a move: the marked tracks between what stays before b and from there on,
        or track i alone moved to position j. */
    ghost function AfterMove(s: seq<nat>, i: nat, b: nat, j: nat): seq<nat>
      reads this
      requires i < |s| && b <= |s| && j < |s|
    {
      if nrMarked > 0 then MarkedMoved(s, marked, b) else Insert(Delete(s, i), j, s[i])
    }

    /** With tracks marked the position does not matter. */
    lemma MarkedAnywhere(s: seq<nat>, i: nat, b: nat, j: nat, j': nat)
      requires nrMarked > 0 && i < |s| && b <= |s| && j < |s| && j' < |s|
      ensures AfterMove(s, i, b, j) == AfterMove(s, i, b, j')
    {
    }

    /** The common part: the tracks to move go behind the anchor a. */
    method MoveBehind(a: int, i: nat, b: nat) returns (aborted: bool)
      requires Valid() && |win.rows| > 1 && -1 <= a < |win.rows| && b <= |win.rows|
      requires i < |win.rows| && win.sel == Row(win.rows[i])
      requires nrMarked > 0 ==> a < b && (a >= 0 ==> win.rows[a] !in marked)
      requires nrMarked > 0 ==> forall k :: a < k < b ==> win.rows[k] in marked
      requires nrMarked == 0 ==> a != i
      modifies win`rows, win`top, win`sel
      ensures win.rows == AfterMove(old(win.rows), i, b, if a < i then a + 1 else a)
      ensures aborted <==> AllMarked(old(win.rows))
      ensures !aborted ==> Valid() && win.Full()
      ensures !aborted ==> TopMost(win.sel, if nrMarked > 0 then Take(old(win.rows), marked) else [old(win.rows)[i]])
    {
      hide Idx, Keep, Take, Behind, Moved, Insert, Delete;
      Iterators();
      if nrMarked > 0 {
        BehindAnchored(win.rows, marked, a, b);
      } else {
        BehindOther(win.rows, i, a);
        OneMoved(win.rows, i);
        NotOnlyOne(win.rows, i);
        OtherRow(win.rows, i, a);
      }
      aborted := MoveSelected(Item(a));
    }

    static lemma OtherRow(rows: seq<nat>, i: nat, a: int)
      requires Distinct(rows) && i < |rows| && -1 <= a < |rows| && a != i
      ensures a >= 0 ==> rows[a] !in {rows[i]}
    {
    }

    lemma DownPlace(s: seq<nat>, i: nat, a: int)
      requires i < |s| && -1 <= a < |s| && (nrMarked == 0 ==> a == Next(i, |s|))
      ensures AfterMove(s, i, i + 1, if a < i then a + 1 else a)
           == AfterMove(s, i, i + 1, if i + 1 < |s| then i + 1 else 0)
    {
      if nrMarked > 0 {
        MarkedAnywhere(s, i, i + 1, if a < i then a + 1 else a, if i + 1 < |s| then i + 1 else 0);
      }
    }

    /** editable_move_after: the marked tracks go behind the selected one, or, if that is marked,
        behind the last unmarked one before it; with nothing marked the selected track goes one
        down, around the end.  A sorted list is left alone. */
    method EditableMoveAfter() returns (aborted: bool)
      requires Valid()
      modifies win`rows, win`top, win`sel
      ensures var s, i := old(win.rows), old(win.Index(win.sel));
              if |s| <= 1 || sortKeys then win.rows == s && !aborted
              else 0 <= i < |s| && win.rows == AfterMove(s, i, i + 1, if i + 1 < |s| then i + 1 else 0)
      ensures aborted <==> |old(win.rows)| > 1 && !sortKeys && AllMarked(old(win.rows))
      ensures !aborted ==> Valid()
    {
      hide Valid, Idx, AfterMove, AllMarked, TopMost, Keep, Take, Viewport.Full, Viewport.Sound;
      if |win.rows| <= 1 || sortKeys {
        return false;
      }
      var i := Selected();
      var a := FindInsertAfter(i);
      DownPlace(win.rows, i, a);
      aborted := MoveBehind(a, i, i + 1);
    }

    /** editable_move_before, the other way. */
    method EditableMoveBefore() returns (aborted: bool)
      requires Valid()
      modifies win`rows, win`top, win`sel
      ensures var s, i := old(win.rows), old(win.Index(win.sel));
              if |s| <= 1 || sortKeys then win.rows == s && !aborted
              else 0 <= i < |s| && win.rows == AfterMove(s, i, i, if i > 0 then i - 1 else |s| - 1)
      ensures aborted <==> |old(win.rows)| > 1 && !sortKeys && AllMarked(old(win.rows))
      ensures !aborted ==> Valid()
    {
      hide Valid, Idx, AfterMove, AllMarked, TopMost, Keep, Take, Viewport.Full, Viewport.Sound;
      if |win.rows| <= 1 || sortKeys {
        return false;
      }
      var i := Selected();
      var a := FindInsertBefore(i);
      if nrMarked > 0 {
        MarkedAnywhere(win.rows, i, i, if a < i then a + 1 else a, if i > 0 then i - 1 else |win.rows| - 1);
      }
      aborted := MoveBehind(a, i, i);
    }
  }

  /** A list of two tracks, both marked: moving them aborts. */
  method AllMarkedExample() returns (aborted: bool)
    ensures aborted
  {
    hide Idx, Viewport.Sound, Viewport.Full, Viewport.Usable;
    var e := new Editable();
    e.EditableAdd(0, 7);
    e.EditableAdd(1, 8);
    assert e.win.rows == [7, 8];
    e.EditableMark(Some(t => true));
    assert 7 in e.marked;
    aborted := e.EditableMoveAfter();
  }
}

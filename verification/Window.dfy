/** window.c: a viewport on a list of rows.  top is the first visible row, sel the selected one;
    rows come and go by the protocol of the callers. */
module Window {
  import opened Numbers
  import opened Sequences

  /** struct iter: no list, the head of the list, or one of its rows. */
  datatype Iter = Null | Head | Row(id: nat)

  function Is(id: nat): nat -> bool {
    x => x == id
  }

  /** The position of a row. */
  function Idx(rows: seq<nat>, id: nat): nat {
    First(rows, Is(id))
  }

  lemma IdxAt(rows: seq<nat>, i: nat)
    requires Distinct(rows) && i < |rows|
    ensures Idx(rows, rows[i]) == i
  {
    FirstIs(rows, Is(rows[i]), i);
  }

  lemma IdxIn(rows: seq<nat>, id: nat)
    requires id in rows
    ensures Idx(rows, id) < |rows| && rows[Idx(rows, id)] == id
  {
    var k :| 0 <= k < |rows| && rows[k] == id;
    assert Is(id)(rows[k]);
  }

  /** GENERIC_ITER_NEXT: on from the last row is the head, and that is reported. */
  function GetNext(rows: seq<nat>, it: Iter): (bool, Iter)
    requires it.Row? ==> it.id in rows
  {
    match it
    case Null => (false, Null)
    case Head => if rows == [] then (false, Head) else (true, Row(rows[0]))
    case Row(id) =>
      IdxIn(rows, id);
      if Idx(rows, id) + 1 == |rows| then (false, Head) else (true, Row(rows[Idx(rows, id) + 1]))
  }

  /** GENERIC_ITER_PREV */
  function GetPrev(rows: seq<nat>, it: Iter): (bool, Iter)
    requires it.Row? ==> it.id in rows
  {
    match it
    case Null => (false, Null)
    case Head => if rows == [] then (false, Head) else (true, Row(rows[|rows| - 1]))
    case Row(id) =>
      IdxIn(rows, id);
      if Idx(rows, id) == 0 then (false, Head) else (true, Row(rows[Idx(rows, id) - 1]))
  }

  /** it is the row at index i. */
  predicate At(rows: seq<nat>, it: Iter, i: int) {
    0 <= i < |rows| && it == Row(rows[i])
  }

  lemma NextAt(rows: seq<nat>, it: Iter, i: nat)
    requires Distinct(rows) && At(rows, it, i)
    ensures GetNext(rows, it) == if i + 1 == |rows| then (false, Head) else (true, Row(rows[i + 1]))
  {
    IdxAt(rows, i);
  }

  lemma PrevAt(rows: seq<nat>, it: Iter, i: nat)
    requires Distinct(rows) && At(rows, it, i)
    ensures GetPrev(rows, it) == if i == 0 then (false, Head) else (true, Row(rows[i - 1]))
  {
    IdxAt(rows, i);
  }

  lemma PrevOfEnd(rows: seq<nat>)
    ensures GetPrev(rows, Head) == if rows == [] then (false, Head) else (true, Row(rows[|rows| - 1]))
    ensures GetPrev(rows, Null) == (false, Null)
  {
  }

  lemma AtSame(rows: seq<nat>, it: Iter, i: int, j: int)
    requires Distinct(rows) && At(rows, it, i) && At(rows, it, j)
    ensures i == j
  {
  }

  /** The index nearest to t from which nr rows include index s. */
  function Nearest(t: int, s: int, nr: int): int {
    if s < t then s else Max(t, s - nr + 1)
  }

  /** It is one from which they do, and no such index is nearer. */
  lemma NearestIs(t: int, s: int, nr: int, u: int)
    requires nr >= 1 && u <= s < u + nr
    ensures Nearest(t, s, nr) <= s < Nearest(t, s, nr) + nr
    ensures u <= Nearest(t, s, nr) <= t || t <= Nearest(t, s, nr) <= u
    ensures t <= s < t + nr ==> Nearest(t, s, nr) == t
  {
  }

  /** The viewport shows sel: t and s are the indexes of top and sel. */
  predicate Shown(rows: seq<nat>, top: Iter, sel: Iter, nr: nat, t: int, s: int) {
    At(rows, top, t) && At(rows, sel, s) && 0 <= s - t < nr
  }

  class Viewport {
    var attached: bool     // head is set
    var rows: seq<nat>     // the rows the iterators step over
    var top: Iter
    var sel: Iter
    var nrRows: nat

    ghost function Index(it: Iter): int
      reads this
    {
      if it.Row? then Idx(rows, it.id) else -1
    }

    /** top and sel are rows of the list, or both its head, or both nothing. */
    ghost predicate Usable()
      reads this
    {
      && Distinct(rows) && nrRows >= 1
      && (!attached ==> rows == [] && top == sel == Null)
      && (attached ==> top == sel == Head || (At(rows, top, Index(top)) && At(rows, sel, Index(sel))))
    }

    /** Usable, and a non-empty list has its selected row in view. */
    ghost predicate Sound()
      reads this
    {
      Usable() && (rows != [] ==> Shown(rows, top, sel, nrRows, Index(top), Index(sel)))
    }

    /** No line of the window is left blank that a row could fill. */
    ghost predicate Full()
      reads this
    {
      rows != [] ==> Index(top) == 0 || Index(top) + nrRows <= |rows|
    }

    /** window_new */
    constructor ()
      ensures Sound() && !attached && nrRows == 1
    {
      attached, rows, top, sel, nrRows := false, [], Null, Null, 1;
    }

    /** window_set_empty */
    method SetEmpty()
      requires nrRows >= 1
      modifies `attached, `rows, `top, `sel
      ensures Sound() && !attached
    {
      attached, rows, top, sel := false, [], Null, Null;
    }

    /** window_set_contents */
    method SetContents(newRows: seq<nat>)
      requires nrRows >= 1 && Distinct(newRows)
      modifies `attached, `rows, `top, `sel
      ensures Sound() && Full() && attached && rows == newRows && Index(sel) == Index(top) && Index(top) <= 0
    {
      attached, rows := true, newRows;
      var first := GetNext(rows, Head).1;
      top, sel := first, first;
      if rows != [] {
        IdxAt(rows, 0);
      }
    }

    /** window_up */
    method Up(n: nat)
      requires Sound()
      modifies `top, `sel
      ensures Sound()
      ensures rows != [] ==> Index(sel) == Max(0, old(Index(sel)) - n) && Index(top) == Min(old(Index(top)), Index(sel))
      ensures rows == [] ==> top == old(top) && sel == old(sel)
    {
      ghost var t, s := Index(top), Index(sel);
      hide Idx;
      var i: nat := 0;
      while i < n
        invariant i <= n
        invariant rows == [] ==> top == old(top) && sel == old(sel)
        invariant rows != [] ==> At(rows, sel, s - i) && At(rows, top, Min(t, s - i))
      {
        if rows != [] {
          PrevAt(rows, sel, s - i);
        }
        var (ok, prev) := GetPrev(rows, sel);
        if !ok {
          break;
        }
        if sel == top {
          top := prev;
        }
        sel := prev;
        i := i + 1;
      }
      if rows != [] {
        IdxAt(rows, s - i);
        IdxAt(rows, Min(t, s - i));
      }
    }

    /** The distance from top to sel. */
    method Distance() returns (delta: nat)
      requires Sound()
      ensures delta == Index(sel) - Index(top)
    {
      delta := 0;
      var iter := top;
      ghost var t := Index(top);
      while iter != sel
        invariant rows != [] ==> At(rows, iter, t + delta) && t + delta <= Index(sel)
        invariant rows == [] ==> iter == sel && delta == 0
        decreases Index(sel) - t - delta
      {
        NextAt(rows, iter, t + delta);
        iter := GetNext(rows, iter).1;
        delta := delta + 1;
      }
      if rows != [] {
        AtSame(rows, sel, t + delta, Index(sel));
      }
    }

    /** n rows down from top; n does not lead past the last row. */
    method ScrollDown(n: nat)
      requires Usable() && rows != [] && top.Row? && Index(top) + n < |rows|
      modifies `top
      ensures Usable() && Index(top) == old(Index(top)) + n && At(rows, top, Index(top))
    {
      ghost var t := Index(top);
      var i := 0;
      while i < n
        invariant 0 <= i <= n && At(rows, top, t + i)
      {
        NextAt(rows, top, t + i);
        top := GetNext(rows, top).1;
        i := i + 1;
      }
      IdxAt(rows, t + n);
    }

    /** The loop of window_down that moves the selection. */
    method SelDown(n: nat) returns (down: nat)
      requires Sound()
      modifies `sel
      ensures Usable() && down <= n
      ensures rows != [] ==> Index(sel) == old(Index(sel)) + down == Min(|rows| - 1, old(Index(sel)) + n)
      ensures rows == [] ==> down == 0 && sel == old(sel)
    {
      ghost var s := Index(sel);
      down := 0;
      while down < n
        invariant 0 <= down <= n
        invariant rows == [] ==> down == 0 && sel == old(sel)
        invariant rows != [] ==> At(rows, sel, s + down)
      {
        if rows != [] {
          NextAt(rows, sel, s + down);
        }
        var (ok, iter) := GetNext(rows, sel);
        if !ok {
          break;
        }
        sel := iter;
        down := down + 1;
      }
      if rows != [] {
        IdxAt(rows, s + down);
      }
    }

    /** window_down */
    method Down(n: nat)
      requires Sound()
      modifies `top, `sel
      ensures Sound()
      ensures rows != [] ==> Index(sel) == Min(|rows| - 1, old(Index(sel)) + n)
      ensures rows != [] ==> Index(top) == Max(old(Index(top)), Index(sel) - nrRows + 1)
      ensures rows == [] ==> top == old(top) && sel == old(sel)
    {
      var delta := Distance();
      var down := SelDown(n);
      var topDown := down - (nrRows - delta - 1);
      if topDown > 0 {
        ScrollDown(topDown);
      }
    }

    /** The part of window_changed that brings sel into view. */
    method MakeVisible()
      requires Usable() && top.Row?
      modifies `top
      ensures Usable() && top.Row? && Shown(rows, top, sel, nrRows, Index(top), Index(sel))
      ensures Index(top) == Nearest(old(Index(top)), Index(sel), nrRows)
    {
      ghost var t, s := Index(top), Index(sel);
      hide Idx;
      var delta: nat := 0;
      var iter := top;
      while iter != sel
        invariant At(rows, iter, t + delta) && (t <= s ==> t + delta <= s) && top == old(top)
        decreases |rows| - t - delta
      {
        NextAt(rows, iter, t + delta);
        var (ok, next) := GetNext(rows, iter);
        if !ok {
          ScrollUpTo(t, s);
          return;
        }
        iter := next;
        delta := delta + 1;
      }
      AtSame(rows, sel, s, t + delta);
      if delta > nrRows - 1 {
        ScrollDown(delta - (nrRows - 1));
      }
    }

    /** sel is above top: scroll up until top is there. */
    method ScrollUpTo(ghost t: nat, ghost s: nat)
      requires Usable() && At(rows, top, t) && At(rows, sel, s) && s < t
      modifies `top
      ensures Usable() && top == sel && Index(top) == s
    {
      hide Idx;
      ghost var i := t;
      while top != sel
        invariant s <= i && At(rows, top, i)
        decreases i
      {
        PrevAt(rows, top, i);
        top := GetPrev(rows, top).1;
        i := i - 1;
      }
      IdxAt(rows, s);
    }

    /** The rows visible from top on, at most nrRows. */
    method CountRows() returns (n: nat)
      requires Usable() && top.Row?
      ensures n == Min(nrRows, |rows| - Index(top))
    {
      ghost var t := Index(top);
      hide Idx;
      n := 1;
      var iter := top;
      while n < nrRows
        invariant 1 <= n <= nrRows && At(rows, iter, t + n - 1)
      {
        NextAt(rows, iter, t + n - 1);
        var (ok, next) := GetNext(rows, iter);
        if !ok {
          break;
        }
        iter := next;
        n := n + 1;
      }
    }

    /** The part of window_changed that fills blank lines. */
    method Minimize()
      requires Usable() && top.Row?
      modifies `top
      ensures Usable() && top.Row? && At(rows, top, Index(top))
      ensures Index(top) == Max(0, Min(old(Index(top)), |rows| - nrRows))
    {
      ghost var t := Index(top);
      var n := CountRows();
      hide Idx;
      ghost var k := 0;
      while n < nrRows
        invariant 0 <= k <= t && At(rows, top, t - k) && n == Min(nrRows, |rows| - t) + k <= nrRows
        decreases nrRows - n
      {
        PrevAt(rows, top, t - k);
        var (ok, prev) := GetPrev(rows, top);
        if !ok {
          break;
        }
        top := prev;
        n, k := n + 1, k + 1;
      }
      IdxAt(rows, t - k);
    }

    /** window_changed: from any rows for top and sel, sel stays and is in view again, and blank
        lines remain only when top is the first row. */
    method Changed()
      requires Usable()
      modifies `top, `sel
      ensures Sound() && Full()
      ensures old(sel).Row? ==> sel == old(sel)
      ensures old(top).Row? ==> Index(top) == Max(0, Min(Nearest(old(Index(top)), Index(sel), nrRows), |rows| - nrRows))
    {
      if !attached {
        return;
      }
      if top == Head {
        top := GetNext(rows, top).1;
        sel := top;
        if rows != [] {
          IdxAt(rows, 0);
        }
        return;
      }
      hide Idx, At;
      MakeVisible();
      Minimize();
    }

    /** window_set_nr_rows */
    method SetNrRows(n: int)
      requires Sound()
      modifies `nrRows, `top, `sel
      ensures Sound() && nrRows == (if n < 1 then old(nrRows) else n) && sel == old(sel)
      ensures n >= 1 ==> Full()
    {
      if n < 1 {
        return;
      }
      nrRows := n;
      Changed();
    }

    /** How many rows precede a row. */
    method RowNumber(it: Iter) returns (n: nat)
      requires Usable() && it.Row? && it.id in rows
      ensures At(rows, it, n) && n == Index(it)
    {
      IdxIn(rows, it.id);
      ghost var s := Idx(rows, it.id);
      hide Idx;
      var tmp := GetNext(rows, Head).1;
      n := 0;
      while tmp != it
        invariant n <= s && At(rows, tmp, n)
        decreases s - n
      {
        NextAt(rows, tmp, n);
        tmp := GetNext(rows, tmp).1;
        n := n + 1;
      }
      AtSame(rows, it, n, s);
    }

    /** window_set_sel: sel is the given row, in view; top moves no further than needed. */
    method SetSel(it: Iter)
      requires Usable() && top.Row? && it.Row? && it.id in rows
      modifies `top, `sel
      ensures Usable() && sel == it && top.Row?
      ensures old(sel) == it ==> top == old(top)
      ensures old(sel) != it ==> Sound() && Index(top) == Nearest(old(Index(top)), Index(sel), nrRows)
    {
      if sel == it {
        return;
      }
      var topNr := RowNumber(top);
      var selNr := RowNumber(it);
      sel := it;
      hide Idx, At;
      if selNr < topNr {
        top := sel;
      }
      if selNr - topNr >= nrRows {
        ScrollDown(selNr - topNr - nrRows + 1);
      }
    }

    /** window_goto_top */
    method GotoTop()
      requires Usable()
      modifies `top, `sel
      ensures Sound() && Full() && top == sel && (rows != [] ==> Index(top) == 0)
    {
      sel := GetNext(rows, if attached then Head else Null).1;
      top := sel;
      if rows != [] {
        IdxAt(rows, 0);
      }
    }

    /** window_goto_bottom */
    method GotoBottom()
      requires Usable()
      modifies `top, `sel
      ensures Sound() && Full()
      ensures rows != [] ==> Index(sel) == |rows| - 1 && Index(top) == Max(0, |rows| - nrRows)
    {
      hide Idx, GetPrev;
      PrevOfEnd(rows);
      sel := GetPrev(rows, if attached then Head else Null).1;
      top := sel;
      ghost var s := |rows| - 1;
      var count := nrRows - 1;
      while count > 0
        invariant 0 <= count <= nrRows - 1
        invariant rows != [] ==> At(rows, sel, s) && 0 <= s - (nrRows - 1 - count)
        invariant rows != [] ==> At(rows, top, s - (nrRows - 1 - count))
        invariant rows == [] ==> top == sel == if attached then Head else Null
      {
        if rows != [] {
          PrevAt(rows, top, s - (nrRows - 1 - count));
        }
        var (ok, prev) := GetPrev(rows, top);
        if !ok {
          break;
        }
        top := prev;
        count := count - 1;
      }
      if rows != [] {
        IdxAt(rows, s);
        IdxAt(rows, s - (nrRows - 1 - count));
      }
    }

    /** window_page_up */
    method PageUp()
      requires Sound()
      modifies `top, `sel
      ensures Sound() && (rows != [] ==> Index(sel) == Max(0, old(Index(sel)) - (nrRows - 1)))
    {
      Up(nrRows - 1);
    }

    /** window_page_down */
    method PageDown()
      requires Sound()
      modifies `top, `sel
      ensures Sound() && (rows != [] ==> Index(sel) == Min(|rows| - 1, old(Index(sel)) + nrRows - 1))
    {
      Down(nrRows - 1);
    }

    // ---- rows coming and going

    /** The row an iterator is moved to when its row k vanishes. */
    static function Neighbour(rows: seq<nat>, k: nat): Iter
      requires k < |rows|
    {
      if k + 1 < |rows| then Row(rows[k + 1]) else if k > 0 then Row(rows[k - 1]) else Head
    }

    static lemma NeighbourIs(rows: seq<nat>, k: nat)
      requires k < |rows|
      ensures |rows| > 1 ==> Neighbour(rows, k) == Row(if k + 1 < |rows| then rows[k + 1] else rows[|rows| - 2])
    {
    }

    /** window_row_vanishes: no iterator of the window is left on the row. */
    method RowVanishes(it: Iter)
      requires Usable() && attached && it.Row? && it.id in rows
      modifies `top, `sel
      ensures var k := Idx(rows, it.id);
              && At(rows, it, k)
              && top == (if old(top) == it then Neighbour(rows, k) else old(top))
              && sel == (if old(sel) == it then Neighbour(rows, k) else old(sel))
    {
      IdxIn(rows, it.id);
      ghost var k := Idx(rows, it.id);
      NextAt(rows, it, k);
      PrevAt(rows, it, k);
      hide Idx;
      var (ok, after) := GetNext(rows, it);
      if !ok {
        after := GetPrev(rows, it).1;
      }
      if top == it {
        top := after;
      }
      if sel == it {
        sel := after;
      }
    }

    static lemma DeletedAt(rows: seq<nat>, k: nat, it: Iter, i: int)
      requires Distinct(rows) && k < |rows| && At(rows, it, i) && i != k
      ensures Distinct(Delete(rows, k)) && At(Delete(rows, k), it, if i < k then i else i - 1)
    {
      var r := Delete(rows, k);
      forall a, b | 0 <= a < b < |r| ensures r[a] != r[b] {
        assert r[a] == rows[if a < k then a else a + 1] && r[b] == rows[if b < k then b else b + 1];
      }
    }

    /** Where an iterator is after its neighbour rule and the removal of row k. */
    static function After(k: nat, i: int, n: nat): int {
      if i < k then i else if i > k then i - 1 else if k + 1 < n then k else k - 1
    }

    static lemma NeighbourAfter(rows: seq<nat>, k: nat, it: Iter, i: int)
      requires Distinct(rows) && k < |rows| && |rows| > 1 && At(rows, it, i)
      ensures var to := if i == k then Neighbour(rows, k) else it;
              At(Delete(rows, k), to, After(k, i, |rows|)) && Distinct(Delete(rows, k))
    {
      if i == k {
        DeletedAt(rows, k, Neighbour(rows, k), if k + 1 < |rows| then k + 1 else k - 1);
      } else {
        DeletedAt(rows, k, it, i);
      }
    }

    /** A row is removed: the window is told first, then the row is unlinked.  The selection stays
        unless it was on that row; then it goes to the next row, or the previous one. */
    method RemoveRow(id: nat)
      requires Sound() && attached && id in rows
      modifies `rows, `top, `sel
      ensures Sound() && rows == Delete(old(rows), Idx(old(rows), id))
      ensures rows != [] ==> Index(sel) == After(Idx(old(rows), id), old(Index(sel)), |old(rows)|)
      ensures old(sel) != Row(id) ==> sel == old(sel)
      ensures old(sel) == Row(id) && rows != [] ==>
        var k, n := Idx(old(rows), id), |old(rows)|;
        k < n && sel == Row(if k + 1 < n then old(rows)[k + 1] else old(rows)[n - 2])
    {
      ghost var t, s := Index(top), Index(sel);
      var k := RowNumber(Row(id));
      NeighbourIs(rows, k);
      hide Idx, Neighbour, Delete;
      Moved(rows, k, id, top, t);
      Moved(rows, k, id, sel, s);
      RowVanishes(Row(id));
      rows := Delete(rows, k);
    }

    /** What becomes of an iterator when row k goes. */
    static lemma Moved(rows: seq<nat>, k: nat, id: nat, it: Iter, i: int)
      requires Distinct(rows) && At(rows, it, i) && At(rows, Row(id), k)
      ensures Distinct(Delete(rows, k)) && (it == Row(id) <==> i == k)
      ensures var to := if it == Row(id) then Neighbour(rows, k) else it;
              if |rows| == 1 then to == Head
              else At(Delete(rows, k), to, After(k, i, |rows|)) && Idx(Delete(rows, k), to.id) == After(k, i, |rows|)
    {
      hide Idx;
      SameRow(rows, it, i, id, k);
      if |rows| == 1 {
        OnlyRow(rows, it, i, k, id);
      } else {
        NeighbourAfter(rows, k, it, i);
        IdxAt(Delete(rows, k), After(k, i, |rows|));
      }
    }

    static lemma SameRow(rows: seq<nat>, it: Iter, i: int, id: nat, k: nat)
      requires Distinct(rows) && At(rows, it, i) && At(rows, Row(id), k)
      ensures it == Row(id) <==> i == k
    {
    }

    static lemma OnlyRow(rows: seq<nat>, it: Iter, i: int, k: nat, id: nat)
      requires |rows| == 1 && At(rows, it, i) && At(rows, Row(id), k)
      ensures it == Row(id) && Neighbour(rows, k) == Head
    {
    }

    static lemma InsertedAt(rows: seq<nat>, k: nat, id: nat, it: Iter, i: int)
      requires Distinct(rows) && k <= |rows| && id !in rows && At(rows, it, i)
      ensures Distinct(Insert(rows, k, id)) && At(Insert(rows, k, id), it, if i < k then i else i + 1)
    {
      InsertedDistinct(rows, k, id);
    }

    static lemma InsertedDistinct(rows: seq<nat>, k: nat, id: nat)
      requires Distinct(rows) && k <= |rows| && id !in rows
      ensures Distinct(Insert(rows, k, id))
    {
      var r := Insert(rows, k, id);
      forall a, b | 0 <= a < b < |r| ensures r[a] != r[b] {
        assert a != k ==> r[a] == rows[if a < k then a else a - 1];
        assert b != k ==> r[b] == rows[if b < k then b else b - 1];
      }
    }

    /** A row is linked in anywhere, then the window is told. */
    method InsertRow(k: nat, id: nat)
      requires Sound() && attached && k <= |rows| && id !in rows
      modifies `rows, `top, `sel
      ensures Sound() && Full() && rows == Insert(old(rows), k, id)
      ensures if old(rows) == [] then sel == Row(id) else sel == old(sel)
    {
      hide Idx, Insert, Nearest;
      ghost var t, s := Index(top), Index(sel);
      InsertedDistinct(rows, k, id);
      if rows != [] {
        InsertedAt(rows, k, id, top, t);
        InsertedAt(rows, k, id, sel, s);
      }
      rows := Insert(rows, k, id);
      if top.Row? {
        IdxAt(rows, if t < k then t else t + 1);
        IdxAt(rows, if s < k then s else s + 1);
      }
      Changed();
    }

    /** editable_sort: the rows are relinked in another order, then the window goes to the top. */
    method Reorder(newRows: seq<nat>)
      requires Sound() && attached && Distinct(newRows) && multiset(newRows) == multiset(rows)
      modifies `rows, `top, `sel
      ensures Sound() && Full() && rows == newRows && (rows != [] ==> Index(sel) == 0)
    {
      assert |newRows| == |multiset(newRows)| == |multiset(rows)| == |rows|;
      if rows != [] {
        assert top.id in multiset(rows) && sel.id in multiset(rows);
        IdxIn(newRows, top.id);
        IdxIn(newRows, sel.id);
      }
      rows := newRows;
      Changed();
      GotoTop();
    }
  }
}

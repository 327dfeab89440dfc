/** lib.c: the library's hash table and its views, kept in step by every operation. */
module Library {
  import opened Options
  import opened StableSort
  import opened Sequences
  import opened LibraryTree
  import opened TrackInfo
  import opened Tree
  import Traversal
  import TrackList

  const FH_SIZE := 1024

  /** str_hash in 32-bit arithmetic. */
  function StrHash(s: string): nat {
    if s == "" then 0
    else (StrHash(s[..|s| - 1]) * 31 + s[|s| - 1] as int) % 0x1_0000_0000
  }

  function Pos(t: Track): nat {
    StrHash(t.filename) % FH_SIZE
  }

  function Filename(t: Track): string {
    t.filename
  }

  function Time(t: Track): int {
    if t.duration != -1 then t.duration else 0
  }

  function Total(s: seq<Track>): int {
    if s == [] then 0 else Time(s[0]) + Total(s[1..])
  }

  lemma {:induction false} TotalConcat(s: seq<Track>, t: seq<Track>)
    ensures Total(s + t) == Total(s) + Total(t)
  {
    if s == [] {
      assert s + t == t;
    } else {
      TotalConcat(s[1..], t);
      assert (s + t)[1..] == s[1..] + t && (s + t)[0] == s[0];
    }
  }

  lemma TotalOne(t: Track)
    ensures Total([t]) == Time(t) == if t.duration == -1 then 0 else t.duration
  {
    assert [t][1..] == [];
  }

  lemma TotalInsert(s: seq<Track>, i: nat, t: Track)
    requires i <= |s|
    ensures Total(Insert(s, i, t)) == Total(s) + Time(t)
  {
    hide Total, Time;
    TotalOne(t);
    TotalConcat(s[..i] + [t], s[i..]);
    TotalConcat(s[..i], [t]);
    TotalConcat(s[..i], s[i..]);
    assert s == s[..i] + s[i..];
  }

  lemma TotalDelete(s: seq<Track>, i: nat)
    requires i < |s|
    ensures Total(Delete(s, i)) == Total(s) - Time(s[i])
  {
    hide Total, Insert, Delete;
    InsertDeleted(s, i);
    TotalInsert(Delete(s, i), i, s[i]);
  }

  lemma {:induction false} TotalPermutes(s: seq<Track>, t: seq<Track>)
    requires multiset(s) == multiset(t)
    ensures Total(s) == Total(t)
  {
    if s == [] {
      assert |t| == |multiset(t)| == 0;
    } else {
      var i := SameRest(s, t);
      TotalPermutes(s[1..], Delete(t, i));
      TotalDelete(t, i);
    }
  }

  /** The sort order in use while tracks are loaded. */
  function Unsorted(): (Track, Track) -> int {
    (a: Track, b: Track) => 0
  }

  class Lib {
    const buckets: array<seq<Track>>    // ti_hash
    const tree: ArtistTree              // lib_artist_head
    var sorted: seq<Track>              // lib_editable
    var shuffle: seq<Track>             // lib_shuffle_head
    var nrTracks: nat
    var totalTime: int
    var sortCmp: (Track, Track) -> int
    var filter: Option<Track -> bool>
    var cur: Option<Track>              // lib_cur_track
    ghost var stored: set<Track>

    predicate Accepted(t: Track)
      reads `filter
    {
      filter.None? || filter.value(t)
    }

    /** Each stored track is in its bucket, nothing else is, and filenames differ. */
    ghost predicate HashOk()
      reads `stored, buckets
    {
      && buckets.Length == FH_SIZE
      && (forall t :: t in stored ==> t in buckets[Pos(t)])
      && (forall i :: 0 <= i < FH_SIZE ==> BucketOk(i, buckets[i], stored))
    }

    static ghost predicate BucketOk(i: nat, chain: seq<Track>, stored: set<Track>) {
      Apart(chain, Filename) && forall k :: 0 <= k < |chain| ==> chain[k] in stored && Pos(chain[k]) == i
    }

    /** The sorted list, the shuffle list and the tree hold the tracks of v, each once. */
    ghost predicate Views(v: set<Track>)
      reads `sorted, `shuffle, `nrTracks, `totalTime, `cur, tree
    {
      && multiset(sorted) == multiset(shuffle) == multiset(TreeTracks(tree.artists)) == multiset(v)
      && nrTracks == |sorted| && totalTime == Total(sorted)
      && (cur.Some? ==> cur.value in v)
    }

    ghost function Shown(): set<Track>
      reads `stored, `filter
    {
      set t | t in stored && Accepted(t)
    }

    /** All views agree: they show exactly the stored tracks the filter accepts. */
    ghost predicate Valid()
      reads this, buckets, tree
    {
      HashOk() && tree.Valid() && Views(Shown()) && Preorder(sortCmp) && Sorted(sorted, sortCmp)
    }

    constructor (rules: Rules)
      requires Preorder(rules.trackCmp)
      ensures Valid() && stored == {} && fresh(buckets) && fresh(tree)
    {
      buckets := new seq<Track>[FH_SIZE](_ => []);
      tree := new ArtistTree(rules);
      sorted, shuffle, nrTracks, totalTime := [], [], 0, 0;
      sortCmp, filter, cur, stored := Unsorted(), None, None, {};
    }

    // ---- the hash

    /** hash_insert: refuses a filename that is stored already. */
    method HashInsert(t: Track) returns (added: bool)
      requires HashOk()
      modifies buckets, `stored
      ensures HashOk()
      ensures added <==> forall x :: x in old(stored) ==> x.filename != t.filename
      ensures stored == if added then old(stored) + {t} else old(stored)
    {
      var pos := Pos(t);
      var chain := buckets[pos];
      var k := 0;
      while k < |chain|
        invariant k <= |chain| && forall l :: 0 <= l < k ==> chain[l].filename != t.filename
      {
        if chain[k].filename == t.filename {
          assert chain[k] in stored;
          return false;
        }
        k := k + 1;
      }
      NotStored(pos, t);
      buckets[pos] := [t] + chain;
      stored := stored + {t};
      added := true;
      InsertApart(chain, 0, t, Filename);
      assert Insert(chain, 0, t) == [t] + chain;
    }

    lemma NotStored(pos: nat, t: Track)
      requires HashOk() && pos == Pos(t)
      requires forall l :: 0 <= l < |buckets[pos]| ==> buckets[pos][l].filename != t.filename
      ensures forall x :: x in stored ==> x.filename != t.filename
    {
      forall x | x in stored ensures x.filename != t.filename {
        assert x in buckets[Pos(x)];
      }
    }

    /** hash_remove: the track is there, so its assertion cannot fail. */
    method HashRemove(t: Track)
      requires HashOk() && t in stored
      modifies buckets, `stored
      ensures HashOk() && stored == old(stored) - {t}
    {
      var pos := Pos(t);
      var chain := buckets[pos];
      var k := 0;
      while true
        invariant k <= |chain| && t in chain[k..]
        decreases |chain| - k
      {
        assert k < |chain|;
        if chain[k].filename == t.filename {
          break;
        }
        assert chain[k..] == [chain[k]] + chain[k + 1..];
        k := k + 1;
      }
      SameFile(chain, k, t);
      DeleteApart(chain, k, Filename);
      DeleteMembers(chain, k);
      buckets[pos] := Delete(chain, k);
      stored := stored - {t};
    }

    static lemma SameFile(chain: seq<Track>, k: nat, t: Track)
      requires Apart(chain, Filename) && k < |chain| && t in chain && chain[k].filename == t.filename
      ensures chain[k] == t
    {
      var j := IndexOf(chain, t);
      assert j < k ==> Filename(chain[j]) != Filename(chain[k]);
      assert k < j ==> Filename(chain[k]) != Filename(chain[j]);
    }

    static lemma DeleteMembers(chain: seq<Track>, k: nat)
      requires Apart(chain, Filename) && k < |chain|
      ensures forall x :: x in Delete(chain, k) <==> x in chain && x != chain[k]
    {
      SplitAt(chain, k);
      forall x | x in Delete(chain, k) ensures x != chain[k] {
        OthersDiffer(chain, k, Filename, x);
      }
    }

    // ---- adding to the views

    /** sorted_list_add_track: after everything not greater. */
    method SortedListAdd(t: Track)
      requires Preorder(sortCmp)
      modifies `sorted
      ensures multiset(sorted) == multiset(old(sorted)) + multiset{t}
      ensures |sorted| == |old(sorted)| + 1 && Total(sorted) == Total(old(sorted)) + Time(t)
      ensures Sorted(old(sorted), sortCmp) ==> Sorted(sorted, sortCmp)
      ensures Sorted(old(sorted), sortCmp) ==> Added(old(sorted), sorted, t, sortCmp)
    {
      hide Insert, Total, Time;
      var p: nat := |sorted|;
      while p > 0 && !(sortCmp(t, sorted[p - 1]) >= 0)
        invariant p <= |sorted| && forall k :: p <= k < |sorted| ==> sortCmp(t, sorted[k]) < 0
      {
        p := p - 1;
      }
      InsertBag(sorted, p, t);
      TotalInsert(sorted, p, t);
      if Sorted(sorted, sortCmp) {
        BeforeToo(sorted, p, t, sortCmp);
        InsertSorted(sorted, p, t, sortCmp);
        assert BehindEquals(sorted, p, t, sortCmp);
      }
      sorted := Insert(sorted, p, t);
    }

    /** t has joined the sorted list behind everything that compares equal to it. */
    static ghost predicate Added(before: seq<Track>, after: seq<Track>, t: Track, cmp: (Track, Track) -> int) {
      exists p: nat :: BehindEquals(before, p, t, cmp) && after == Insert(before, p, t)
    }

    static lemma BeforeToo(s: seq<Track>, p: nat, t: Track, cmp: (Track, Track) -> int)
      requires Preorder(cmp) && Sorted(s, cmp) && p <= |s| && (p > 0 ==> cmp(t, s[p - 1]) >= 0)
      ensures forall k :: 0 <= k < p ==> cmp(s[k], t) <= 0
    {
      forall k | 0 <= k < p ensures cmp(s[k], t) <= 0 {
        assert cmp(s[p - 1], t) <= 0;
        assert k < p - 1 ==> cmp(s[k], s[p - 1]) <= 0;
      }
    }

    /** list_add_rand: from whichever end is nearer, to position draw mod (nr + 1). */
    static method ListAddRand(list: seq<Track>, t: Track, draw: nat) returns (r: seq<Track>)
      ensures r == Insert(list, draw % (|list| + 1), t)
    {
      var nr := |list|;
      var pos := draw % (nr + 1);
      if pos <= nr / 2 {
        var item := 0; // the items passed, counted from the head
        while item < pos
          invariant item <= pos
        {
          item := item + 1;
        }
        r := list[..item] + [t] + list[item..];
      } else {
        pos := nr - pos;
        var item := nr;
        while pos > 0
          invariant 0 <= pos <= item <= nr && item - pos == draw % (nr + 1)
        {
          item := item - 1;
          pos := pos - 1;
        }
        r := list[..item] + [t] + list[item..];
      }
    }

    /** shuffle_add, for any value rand returns. */
    method ShuffleAdd(t: Track)
      modifies `shuffle
      ensures multiset(shuffle) == multiset(old(shuffle)) + multiset{t}
    {
      hide Insert;
      var draw: nat := *;
      InsertBag(shuffle, draw % (|shuffle| + 1), t);
      shuffle := ListAddRand(shuffle, t, draw);
    }

    /** views_add_track: the track joins the tree, the shuffle list and the sorted list. */
    method ViewsAddTrack(t: Track, ghost v: set<Track>)
      requires Views(v) && t !in v && tree.Valid() && Preorder(sortCmp)
      modifies `sorted, `shuffle, `nrTracks, `totalTime, tree`artists
      ensures Views(v + {t}) && tree.Valid()
      ensures Sorted(old(sorted), sortCmp) ==> Sorted(sorted, sortCmp) && Added(old(sorted), sorted, t, sortCmp)
      ensures tree.artists == AddTrack(tree.rules, old(tree.artists), t)
    {
      hide TreeTracks, Total, Preorder, Sorted, Insert, ArtistTree.Valid, Added, AddTrack;
      tree.Add(t);
      ShuffleAdd(t);
      SortedListAdd(t);
      nrTracks := nrTracks + 1;
      if t.duration != -1 {
        totalTime := totalTime + t.duration;
      }
      AddBag(v, t);
    }

    static lemma AddBag(v: set<Track>, t: Track)
      requires t !in v
      ensures multiset(v + {t}) == multiset(v) + multiset{t}
    {
    }

    // ---- removing from the views

    /** free_lib_track, after the track has left the sorted list. */
    method FreeLibTrack(t: Track, removeFromHash: bool)
      requires HashOk() && t in stored && tree.Valid() && t in shuffle && t in TreeTracks(tree.artists)
      modifies `cur, `shuffle, tree`artists, buckets, `stored
      ensures HashOk() && stored == (if removeFromHash then old(stored) - {t} else old(stored)) && tree.Valid()
      ensures cur == if old(cur) == Some(t) then None else old(cur)
      ensures multiset(old(shuffle)) == multiset(shuffle) + multiset{t}
      ensures multiset(old(TreeTracks(tree.artists))) == multiset(TreeTracks(tree.artists)) + multiset{t}
    {
      hide HashOk, TreeTracks, ArtistTree.Valid, Delete;
      if cur == Some(t) {
        cur := None;
      }
      if removeFromHash {
        HashRemove(t);
      }
      var k: nat :| k < |shuffle| && shuffle[k] == t;
      DeleteBag(shuffle, k);
      shuffle := Delete(shuffle, k);
      tree.TreeRemove(t);
    }

    /** editable_remove_track */
    method EditableRemoveTrack(i: nat, removeFromHash: bool, ghost v: set<Track>)
      requires HashOk() && Views(v) && v <= stored && tree.Valid() && i < |sorted|
      modifies `sorted, `nrTracks, `totalTime, `cur, `shuffle, tree`artists, buckets, `stored
      ensures HashOk() && tree.Valid()
      ensures stored == if removeFromHash then old(stored) - {old(sorted)[i]} else old(stored)
      ensures old(sorted)[i] in v && Views(v - {old(sorted)[i]})
      ensures sorted == Delete(old(sorted), i)
      ensures cur == if old(cur) == Some(old(sorted)[i]) then None else old(cur)
    {
      hide HashOk, TreeTracks, ArtistTree.Valid, Total, Delete;
      var t := sorted[i];
      assert t in multiset(sorted);
      assert t in multiset(shuffle) && t in multiset(TreeTracks(tree.artists));
      DeleteBag(sorted, i);
      TotalDelete(sorted, i);
      nrTracks := nrTracks - 1;
      if t.duration != -1 {
        totalTime := totalTime - t.duration;
      }
      sorted := Delete(sorted, i);
      FreeLibTrack(t, removeFromHash);
      Cancel(sorted, t, v);
      Cancel(shuffle, t, v);
      Cancel(TreeTracks(tree.artists), t, v);
    }

    static lemma Cancel(s: seq<Track>, t: Track, v: set<Track>)
      requires multiset(s) + multiset{t} == multiset(v)
      ensures multiset(s) == multiset(v - {t}) && t in v
    {
      assert t in multiset(v);
      assert multiset(s) == multiset(v) - multiset{t};
    }

    /** editable_clear */
    method EditableClear(removeFromHash: bool, ghost v: set<Track>)
      requires HashOk() && Views(v) && v <= stored && tree.Valid()
      modifies `sorted, `nrTracks, `totalTime, `cur, `shuffle, tree`artists, buckets, `stored
      ensures HashOk() && stored == (if removeFromHash then old(stored) - v else old(stored)) && tree.Valid()
      ensures Views({}) && sorted == [] && cur == None
    {
      hide HashOk, TreeTracks, ArtistTree.Valid, Total, Delete;
      ghost var left := v;
      while sorted != []
        invariant HashOk() && Views(left) && left <= v && left <= stored && tree.Valid()
        invariant stored == if removeFromHash then old(stored) - (v - left) else old(stored)
        decreases |sorted|
      {
        ghost var t := sorted[0];
        EditableRemoveTrack(0, removeFromHash, left);
        left := left - {t};
      }
      assert multiset(left) == multiset(sorted) == multiset{};
      assert |left| == |multiset(left)| == 0;
    }

    // ---- the library's operations

    /** lib_add_track */
    method LibAddTrack(t: Track)
      requires Valid()
      modifies this, tree`artists, buckets
      ensures Valid() && filter == old(filter) && cur == old(cur) && sortCmp == old(sortCmp)
      ensures if exists x :: x in old(stored) && x.filename == t.filename
              then && stored == old(stored) && sorted == old(sorted)
                   && shuffle == old(shuffle) && tree.artists == old(tree.artists)
              else stored == old(stored) + {t}
      ensures t in stored && t !in old(stored) && Accepted(t) ==>
        Added(old(sorted), sorted, t, sortCmp) && tree.artists == AddTrack(tree.rules, old(tree.artists), t)
      ensures t in old(stored) || t !in stored || !Accepted(t) ==>
        sorted == old(sorted) && tree.artists == old(tree.artists)
    {
      hide HashOk, Views, Preorder, Sorted, ArtistTree.Valid, Added, AddTrack;
      ghost var v := Shown();
      var added := HashInsert(t);
      if !added {
        assert Shown() == v;
        return;
      }
      assert t !in v;
      if Accepted(t) {
        ViewsAddTrack(t, v);
        assert Shown() == v + {t};
      } else {
        assert Shown() == v;
      }
    }

    /** lib_remove: a track that is not shown is not removed either. */
    method LibRemove(t: Track) returns (removed: bool)
      requires Valid()
      modifies this, tree`artists, buckets
      ensures Valid() && filter == old(filter) && sortCmp == old(sortCmp)
      ensures removed <==> t in old(Shown())
      ensures stored == if removed then old(stored) - {t} else old(stored)
      ensures cur == if removed && old(cur) == Some(t) then None else old(cur)
    {
      hide HashOk, Preorder, Sorted, ArtistTree.Valid, TreeTracks, Total, Delete;
      ghost var v := Shown();
      var i := 0;
      while i < |sorted|
        invariant i <= |sorted| && t !in sorted[..i]
      {
        if sorted[i] == t {
          DeleteSorted(sorted, i, sortCmp);
          EditableRemoveTrack(i, true, v);
          assert Shown() == v - {t};
          assert t in v;
          return true;
        }
        i := i + 1;
      }
      assert t !in sorted && t !in multiset(sorted);
      assert t !in v by { assert multiset(sorted) == multiset(v); }
      removed := false;
    }

    /** editable_clear as the load command uses it: what the filter hides stays stored. */
    method ClearShown()
      requires Valid()
      modifies this, tree`artists, buckets
      ensures Valid() && stored == old(stored) - old(Shown()) && Shown() == {} && cur == None
      ensures filter == old(filter) && sortCmp == old(sortCmp)
    {
      hide HashOk, Views, Preorder, ArtistTree.Valid;
      EditableClear(true, Shown());
      assert Shown() == {};
    }

    /** view_clear: editable_clear and lib_clear_store. */
    method ViewClear()
      requires Valid()
      modifies this, tree`artists, buckets
      ensures Valid() && stored == {} && cur == None && filter == old(filter) && sortCmp == old(sortCmp)
    {
      hide HashOk, Views, Preorder, ArtistTree.Valid;
      EditableClear(true, Shown());
      LibClearStore();
      assert Shown() == {};
    }

    /** lib_clear_store */
    method LibClearStore()
      requires HashOk()
      modifies buckets, `stored
      ensures HashOk() && stored == {}
    {
      var i := 0;
      while i < FH_SIZE
        invariant 0 <= i <= FH_SIZE == buckets.Length && forall k :: 0 <= k < i ==> buckets[k] == []
      {
        buckets[i] := [];
        i := i + 1;
      }
      stored := {};
    }

    /** v is what the filter accepts of the buckets before i and of the first k tracks of
        bucket i. */
    ghost predicate Loaded(v: set<Track>, i: nat, k: nat)
      reads `filter, `stored, buckets
      requires HashOk() && i <= FH_SIZE && k <= (if i < FH_SIZE then |buckets[i]| else 0)
    {
      forall t :: t in v <==>
        t in stored && Accepted(t) && (Pos(t) < i || (Pos(t) == i && k > 0 && t in buckets[i][..k]))
    }

    lemma LoadStep(v: set<Track>, i: nat, k: nat)
      requires HashOk() && i < FH_SIZE && k < |buckets[i]| && Loaded(v, i, k)
      ensures buckets[i][k] !in v && buckets[i][k] in stored
      ensures Loaded(if Accepted(buckets[i][k]) then v + {buckets[i][k]} else v, i, k + 1)
    {
      var chain := buckets[i];
      assert BucketOk(i, chain, stored);
      forall l | 0 <= l < k ensures chain[l] != chain[k] {
        assert Filename(chain[l]) != Filename(chain[k]);
      }
      assert chain[..k + 1] == chain[..k] + [chain[k]];
    }

    lemma LoadNext(v: set<Track>, i: nat)
      requires HashOk() && i < FH_SIZE && Loaded(v, i, |buckets[i]|)
      ensures Loaded(v, i + 1, 0)
    {
      assert buckets[i][..|buckets[i]|] == buckets[i];
      forall t | t in stored && Pos(t) == i ensures t in buckets[i] {
        assert t in buckets[Pos(t)];
      }
    }

    /** One bucket of the reloading loop. */
    method LoadBucket(i: nat, ghost v: set<Track>) returns (ghost w: set<Track>)
      requires HashOk() && i < FH_SIZE && Loaded(v, i, 0)
      requires Views(v) && tree.Valid() && Preorder(sortCmp)
      modifies `sorted, `shuffle, `nrTracks, `totalTime, tree`artists
      ensures Loaded(w, i + 1, 0) && Views(w) && tree.Valid()
    {
      hide Views, ArtistTree.Valid, Preorder, Loaded, BucketOk;
      w := v;
      var k := 0;
      var chain := buckets[i];
      while k < |chain|
        invariant k <= |chain| && Loaded(w, i, k) && Views(w) && tree.Valid()
      {
        var t := chain[k];
        LoadStep(w, i, k);
        if Accepted(t) {
          ViewsAddTrack(t, w);
          w := w + {t};
        }
        k := k + 1;
      }
      LoadNext(w, i);
    }

    /** The reloading loop of lib_set_filter, into empty views. */
    method LoadAll()
      requires HashOk() && Views({}) && tree.Valid() && Preorder(sortCmp)
      modifies `sorted, `shuffle, `nrTracks, `totalTime, tree`artists
      ensures Views(Shown()) && tree.Valid()
    {
      hide Views, ArtistTree.Valid, Preorder, BucketOk;
      ghost var v: set<Track> := {};
      var i := 0;
      while i < FH_SIZE
        invariant 0 <= i <= FH_SIZE && Loaded(v, i, 0) && Views(v) && tree.Valid()
      {
        v := LoadBucket(i, v);
        i := i + 1;
      }
      assert v == Shown();
    }

    /** The end of lib_set_filter: look for the track that was current by its filename. */
    method RestoreCur(t: Track)
      requires HashOk() && Views(Shown()) && t in stored
      modifies `cur
      ensures Views(Shown()) && cur == if Accepted(t) then Some(t) else old(cur)
    {
      hide TreeTracks, Total;
      assert t in sorted <==> Accepted(t) by {
        assert t in multiset(sorted) <==> t in Shown();
      }
      var k := 0;
      while k < |sorted|
        invariant k <= |sorted| && t !in sorted[..k] && cur == old(cur) && Views(Shown())
      {
        if sorted[k].filename == t.filename {
          assert sorted[k] in multiset(sorted);
          SameStored(sorted[k], t);
          cur := Some(sorted[k]);
          return;
        }
        k := k + 1;
      }
    }

    lemma SameStored(x: Track, y: Track)
      requires HashOk() && x in stored && y in stored && x.filename == y.filename
      ensures x == y
    {
      var chain := buckets[Pos(x)];
      assert BucketOk(Pos(x), chain, stored);
      var i := IndexOf(chain, x);
      SameFile(chain, i, y);
    }

    /** editable_sort: a stable sort by the current keys. */
    method EditableSort()
      requires Preorder(sortCmp)
      modifies `sorted
      ensures IsStableSort(sorted, old(sorted), sortCmp)
      ensures Total(sorted) == Total(old(sorted)) && |sorted| == |old(sorted)|
    {
      hide BottomUp, Preorder, Total;
      OrdersAny(sortCmp, set x | x in sorted);
      MergeSortIsStable(sorted, sortCmp);
      TotalPermutes(BottomUp(sorted, 1, sortCmp), sorted);
      var result := BottomUp(sorted, 1, sortCmp);
      assert |result| == |multiset(result)| == |multiset(sorted)| == |sorted|;
      sorted := result;
    }

    /** lib_set_filter: the views are rebuilt from the hash; the current track stays current if
        it is still shown. */
    method LibSetFilter(f: Option<Track -> bool>)
      requires Valid()
      modifies this, tree`artists, buckets
      ensures Valid() && filter == f && stored == old(stored) && sortCmp == old(sortCmp)
      ensures cur == if old(cur).Some? && Accepted(old(cur).value) then old(cur) else None
    {
      hide HashOk, Views, ArtistTree.Valid, Preorder, Sorted;
      var saved := cur;
      CurStored();
      EditableClear(false, Shown());
      filter := f;
      var keys := sortCmp;
      sortCmp := Unsorted();
      UnsortedOrders();
      LoadAll();
      sortCmp := keys;
      SortViews();
      if saved.Some? {
        RestoreCur(saved.value);
      }
    }

    lemma CurStored()
      requires Valid()
      ensures cur.Some? ==> cur.value in stored
    {
    }

    static lemma UnsortedOrders()
      ensures Preorder(Unsorted())
    {
    }

    /** Sorting moves tracks in the sorted list only. */
    method SortViews()
      requires Views(Shown()) && Preorder(sortCmp)
      modifies `sorted
      ensures Views(Shown()) && Sorted(sorted, sortCmp) && IsStableSort(sorted, old(sorted), sortCmp)
    {
      hide Preorder, Sorted, TreeTracks, Total;
      EditableSort();
    }

    /** editable_set_sort_keys */
    method SetSortKeys(keys: (Track, Track) -> int)
      requires Valid() && Preorder(keys)
      modifies `sorted, `sortCmp
      ensures Valid() && sortCmp == keys && IsStableSort(sorted, old(sorted), keys)
    {
      hide HashOk, Views, ArtistTree.Valid, Preorder, Sorted;
      sortCmp := keys;
      SortViews();
    }

    /** lib_reshuffle */
    method LibReshuffle()
      requires Valid()
      modifies `shuffle
      ensures Valid()
    {
      hide HashOk, ArtistTree.Valid, Preorder, Sorted, TreeTracks, Total;
      var items := shuffle;
      shuffle := [];
      var i := 0;
      while i < |items|
        invariant i <= |items| && multiset(shuffle) == multiset(items[..i])
      {
        ShuffleAdd(items[i]);
        assert items[..i + 1] == items[..i] + [items[i]];
        i := i + 1;
      }
      assert items[..i] == items;
    }

    /** tree_sort_artists */
    method SortArtists(fuzzy: bool)
      requires Valid()
      modifies tree
      ensures Valid()
    {
      hide HashOk, ArtistTree.Valid, Preorder, Sorted, TreeTracks, Total;
      tree.TreeSortArtists(fuzzy);
    }

    // ---- making a track current

    /** What the tree shows. */
    lemma InTree(t: Track)
      requires Views(Shown())
      ensures t in TreeTracks(tree.artists) <==> t in Shown()
      ensures t in sorted <==> t in Shown()
      ensures t in shuffle <==> t in Shown()
    {
      assert t in multiset(TreeTracks(tree.artists)) <==> t in multiset(Shown());
      assert t in multiset(sorted) <==> t in multiset(Shown());
      assert t in multiset(shuffle) <==> t in multiset(Shown());
    }

    /** Where a track is filed; the original follows its album pointer. */
    method PlaceOf(t: Track) returns (p: Traversal.Pos)
      requires tree.Valid() && t in TreeTracks(tree.artists)
      ensures Traversal.In(tree.artists, p) && At(tree.artists, p.i, p.j, p.k) == t
    {
      hide Flat, TreeSorted, Preorder, TreeOk, ArtistName, AlbumName;
      ghost var gi, gj, gk := HasPlace(tree.artists, t);
      PlaceByName(tree.rules, tree.artists, gi, gj, gk);
      var i, j := tree.FindArtistAndAlbum(ArtistName(t), AlbumName(t));
      assert t in tree.artists[i].albums[j].tracks by { assert t == tree.artists[i].albums[j].tracks[gk]; }
      var k: nat :| k < |tree.artists[i].albums[j].tracks| && tree.artists[i].albums[j].tracks[k] == t;
      p := Traversal.Pos(i, j, k);
    }

    /** The current track as a place in the tree. */
    ghost predicate IsAt(cur: Option<Track>, p: Option<Traversal.Pos>)
      reads tree
    {
      && (cur.Some? <==> p.Some?)
      && (p.Some? ==> Traversal.In(tree.artists, p.value))
      && (p.Some? ==> At(tree.artists, p.value.i, p.value.j, p.value.k) == cur.value)
    }

    /** t is what normal_get_next, or normal_get_prev, gives from the current track. */
    ghost predicate TreeStep(forward: bool, cur: Option<Track>, t: Option<Track>, mode: Traversal.AaaMode, repeat: bool)
      reads tree
    {
      && tree.artists != [] && Traversal.NoneEmpty(tree.artists)
      && exists p :: IsAt(cur, p) &&
           IsAt(t, if forward then Traversal.NormalNext(tree.artists, p, mode, repeat)
                   else Traversal.NormalPrev(tree.artists, p, mode, repeat))
    }

    method NormalStep(forward: bool, mode: Traversal.AaaMode, repeat: bool) returns (t: Option<Track>)
      requires Valid() && tree.artists != []
      ensures TreeStep(forward, cur, t, mode, repeat)
      ensures if t.Some? then t.value in Shown() else cur.Some? && !repeat
    {
      hide HashOk, TreeTracks, TreeOk, TreeSorted, Preorder, Sorted, Total;
      Traversal.TreesHaveNoneEmpty(tree.rules, tree.artists);
      var p: Option<Traversal.Pos> := None;
      if cur.Some? {
        InTree(cur.value);
        var at := PlaceOf(cur.value);
        p := Some(at);
      }
      assert IsAt(cur, p);
      StepInside(p, forward, mode, repeat);
      var q := if forward then Traversal.NormalNext(tree.artists, p, mode, repeat)
               else Traversal.NormalPrev(tree.artists, p, mode, repeat);
      t := None;
      if q.Some? {
        t := Some(At(tree.artists, q.value.i, q.value.j, q.value.k));
        Traversal.IndexElement(tree.artists, q.value);
        InTree(t.value);
      }
      assert IsAt(t, q);
    }

    lemma StepInside(p: Option<Traversal.Pos>, forward: bool, mode: Traversal.AaaMode, repeat: bool)
      requires tree.artists != [] && Traversal.NoneEmpty(tree.artists)
      requires p.Some? ==> Traversal.In(tree.artists, p.value)
      ensures var q := if forward then Traversal.NormalNext(tree.artists, p, mode, repeat)
                       else Traversal.NormalPrev(tree.artists, p, mode, repeat);
              if q.Some? then Traversal.In(tree.artists, q.value) else p.Some? && !repeat
    {
      if p.Some? {
        Traversal.NextIs(tree.artists, p.value, mode, repeat);
        Traversal.PrevIs(tree.artists, p.value, mode, repeat);
      }
    }

    /** aaa_mode_filter for the current track c. */
    function Allowed(c: Track, mode: Traversal.AaaMode): Track -> bool
      reads tree
    {
      Traversal.AaaModeFilter(tree.rules, tree.artists, c, mode)
    }

    lemma AllowsItself(c: Track, mode: Traversal.AaaMode)
      ensures Allowed(c, mode)(c)
    {
    }

    /** The nearest track of the sorted list the mode allows, or its first when none is current. */
    method SortedStep(forward: bool, mode: Traversal.AaaMode, repeat: bool) returns (t: Option<Track>)
      requires Views(Shown()) && sorted != []
      ensures cur.None? ==> t == Some(sorted[0])
      ensures cur.Some? ==> TrackList.Steps(sorted, forward, cur.value, Allowed(cur.value, mode), t, repeat)
      ensures if t.Some? then t.value in Shown() else cur.Some? && !repeat
    {
      hide TreeTracks, Total, Allowed, TrackList.StepsFrom;
      if cur.None? {
        t := Some(sorted[0]);
      } else {
        var c := cur.value;
        InTree(c);
        var at: nat :| at < |sorted| && sorted[at] == c;
        AllowsItself(c, mode);
        t := TrackList.ListStep(sorted, forward, at, Allowed(c, mode), repeat);
      }
      if t.Some? {
        InTree(t.value);
      }
    }

    /** What a step along the shuffle list gives.  With automatic reshuffling the end of the list is
        not passed: the list is shuffled anew and its outermost allowed track is taken. */
    static ghost predicate ShuffleSteps(before: seq<Track>, after: seq<Track>, forward: bool, c: Track,
                                        allowed: Track -> bool, t: Option<Track>, repeat: bool, autoReshuffle: bool)
    {
      exists i: nat :: i < |before| && before[i] == c
        && if repeat && autoReshuffle && TrackList.NoneFurther(before, forward, i, allowed)
           then multiset(after) == multiset(before) && t.Some? && TrackList.Outermost(after, forward, allowed, t.value)
           else after == before && TrackList.StepsFrom(before, forward, i, allowed, t, repeat && !autoReshuffle)
    }

    /** shuffle_list_get_next and shuffle_list_get_prev. */
    method ShuffleStep(forward: bool, mode: Traversal.AaaMode, repeat: bool, autoReshuffle: bool)
      returns (t: Option<Track>)
      requires Valid() && shuffle != []
      modifies `shuffle
      ensures Valid()
      ensures cur.None? ==> shuffle == old(shuffle) && t == Some(shuffle[0])
      ensures cur.Some? ==>
        ShuffleSteps(old(shuffle), shuffle, forward, cur.value, Allowed(cur.value, mode), t, repeat, autoReshuffle)
      ensures if t.Some? then t.value in Shown() else cur.Some? && !repeat
    {
      hide HashOk, TreeTracks, Total, Preorder, Sorted, ArtistTree.Valid, Allowed, TrackList.Outermost;
      if cur.None? {
        t := Some(shuffle[0]);
      } else {
        var c := cur.value;
        InTree(c);
        var at: nat :| at < |shuffle| && shuffle[at] == c;
        AllowsItself(c, mode);
        t := TrackList.ListStep(shuffle, forward, at, Allowed(c, mode), repeat && !autoReshuffle);
        if t.None? && repeat {
          LibReshuffle();
          InTree(c);
          var u := TrackList.FromEnd(shuffle, forward, Allowed(c, mode));
          t := Some(u);
        }
      }
      if t.Some? {
        InTree(t.value);
      }
    }

    /** lib_set_track */
    method LibSetTrack(t: Option<Track>)
      requires Valid() && (t.Some? ==> t.value in Shown())
      modifies `cur
      ensures Valid() && cur == if t.Some? then t else old(cur)
    {
      if t.Some? {
        cur := t;
      }
    }

    /** lib_set_next and lib_set_prev: the track found becomes current.  An empty library has no
        current track, as they assert. */
    method LibStep(forward: bool, shuffled: bool, playSorted: bool, mode: Traversal.AaaMode, repeat: bool,
                   autoReshuffle: bool) returns (t: Option<Track>)
      requires Valid()
      modifies `cur, `shuffle
      ensures Valid() && (t.Some? ==> t.value in Shown())
      ensures cur == if t.Some? then t else old(cur)
      ensures t.None? ==> tree.artists == [] || (old(cur).Some? && !repeat)
      ensures tree.artists == [] ==> t.None? && cur.None?
      ensures !shuffled || tree.artists == [] ==> shuffle == old(shuffle)
      ensures tree.artists != [] && !shuffled && !playSorted ==> TreeStep(forward, old(cur), t, mode, repeat)
      ensures tree.artists != [] && !shuffled && playSorted ==>
        if old(cur).None? then t == Some(sorted[0])
        else TrackList.Steps(sorted, forward, old(cur).value, Allowed(old(cur).value, mode), t, repeat)
      ensures tree.artists != [] && shuffled ==>
        if old(cur).None? then shuffle == old(shuffle) && t == Some(shuffle[0])
        else ShuffleSteps(old(shuffle), shuffle, forward, old(cur).value, Allowed(old(cur).value, mode), t,
                          repeat, autoReshuffle)
    {
      hide HashOk, TreeTracks, Total, Preorder, Sorted, ArtistTree.Valid, Traversal.NormalNext, Traversal.NormalPrev;
      hide Allowed, TreeStep, ShuffleSteps, TrackList.Steps;
      if tree.artists == [] {
        NoCurrentWhenEmpty(this);
        return None;
      }
      SomethingShown();
      if shuffled {
        t := ShuffleStep(forward, mode, repeat, autoReshuffle);
      } else if playSorted {
        t := SortedStep(forward, mode, repeat);
      } else {
        t := NormalStep(forward, mode, repeat);
      }
      LibSetTrack(t);
    }

    lemma SomethingShown()
      requires Valid() && tree.artists != []
      ensures sorted != [] && shuffle != []
    {
      hide TreeTracks, Total, Preorder, Sorted, HashOk;
      Traversal.TreesHaveNoneEmpty(tree.rules, tree.artists);
      var p := Traversal.Pos(0, 0, 0);
      Traversal.IndexElement(tree.artists, p);
      InTree(At(tree.artists, 0, 0, 0));
    }

    /** sorted_set_selected, with row i selected. */
    method SortedSetSelected(i: nat) returns (t: Option<Track>)
      requires Valid() && (sorted != [] ==> i < |sorted|)
      modifies `cur
      ensures Valid()
      ensures if sorted == [] then t == None && cur == old(cur) else t == cur == Some(sorted[i]) && cur.value in Shown()
    {
      hide HashOk, TreeTracks, Total, Preorder, Sorted, ArtistTree.Valid;
      if sorted == [] {
        return None;
      }
      t := Some(sorted[i]);
      InTree(sorted[i]);
      LibSetTrack(t);
    }

    /** tree_set_selected, with an album's track selected, or an artist only. */
    method TreeSetSelected(i: nat, track: Option<(nat, nat)>) returns (t: Option<Track>)
      requires Valid() && (tree.artists != [] ==> i < |tree.artists|)
      requires tree.artists != [] && track.Some? ==> Place(tree.artists, i, track.value.0, track.value.1)
      modifies `cur
      ensures Valid()
      ensures if tree.artists == [] then t == None && cur == old(cur)
              else t == cur && cur.Some? && cur.value in Shown()
                   && Place(tree.artists, i, 0, 0)
                   && (track.None? ==> cur.value == At(tree.artists, i, 0, 0))
                   && (track.Some? ==> cur.value == At(tree.artists, i, track.value.0, track.value.1))
    {
      hide HashOk, TreeTracks, Total, Preorder, Sorted;
      if tree.artists == [] {
        return None;
      }
      Traversal.TreesHaveNoneEmpty(tree.rules, tree.artists);
      var j, k := 0, 0;
      if track.Some? {
        j, k := track.value.0, track.value.1;
      }
      Traversal.IndexElement(tree.artists, Traversal.Pos(i, j, k));
      InTree(At(tree.artists, i, j, k));
      t := Some(tree.artists[i].albums[j].tracks[k]);
      LibSetTrack(t);
    }
  }

  lemma OnceEach(s: seq<Track>, v: set<Track>, i: nat, j: nat)
    requires multiset(s) == multiset(v) && i < j < |s|
    ensures s[i] != s[j]
  {
    SplitAt(s, j);
    assert s[i] in s[..j] && s[i] in multiset(s[..j]);
    assert multiset(s) == multiset(s[..j]) + multiset{s[j]} + multiset(s[j + 1..]);
    assert multiset(v)[s[i]] <= 1;
  }

  /** A view of a valid library: the accepted stored tracks and nothing else, no file twice. */
  ghost predicate Shows(l: Lib, s: seq<Track>)
    reads l, l.buckets
  {
    && (forall t :: t in s <==> t in l.stored && (l.filter.None? || l.filter.value(t)))
    && forall i, j :: 0 <= i < j < |s| ==> s[i].filename != s[j].filename
  }

  lemma ShowsAll(l: Lib, s: seq<Track>)
    requires l.HashOk() && multiset(s) == multiset(l.Shown())
    ensures Shows(l, s)
  {
    forall t ensures t in s <==> t in l.stored && (l.filter.None? || l.filter.value(t)) {
      assert t in s <==> t in multiset(s);
      assert t in multiset(l.Shown()) <==> t in l.Shown();
    }
    forall i, j | 0 <= i < j < |s| ensures s[i].filename != s[j].filename {
      OnceEach(s, l.Shown(), i, j);
      assert s[i] in s && s[j] in s;
      if s[i].filename == s[j].filename {
        l.SameStored(s[i], s[j]);
      }
    }
  }

  /** All views of a valid library agree with the hash, the filter and each other, and the tree
      has no empty or duplicate artist or album. */
  lemma ViewsAgree(l: Lib)
    requires l.Valid()
    ensures Shows(l, l.sorted) && Shows(l, l.shuffle) && Shows(l, TreeTracks(l.tree.artists))
    ensures forall x, y :: x in l.stored && y in l.stored && x.filename == y.filename ==> x == y
    ensures TreeOk(l.tree.rules, l.tree.artists)
  {
    ShowsAll(l, l.sorted);
    ShowsAll(l, l.shuffle);
    ShowsAll(l, TreeTracks(l.tree.artists));
    forall x, y | x in l.stored && y in l.stored && x.filename == y.filename ensures x == y {
      l.SameStored(x, y);
    }
  }

  /** When the tree is empty no track is current, as lib_set_next and lib_set_prev assert. */
  lemma NoCurrentWhenEmpty(l: Lib)
    requires l.Valid() && l.tree.artists == []
    ensures l.cur.None?
  {
    assert TreeTracks([]) == [];
    assert |l.Shown()| == |multiset(l.Shown())| == 0;
  }
}

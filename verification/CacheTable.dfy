/** cache.c: the hash table of cached tracks, read from the cache file, looked up, refreshed against
    the file system and written back. */
module CacheTable {
  import opened Options
  import opened Strings
  import opened StableSort
  import opened Sequences
  import opened Bytes
  import opened CacheFormat
  import opened Cache

  /** filename_hash with signed chars in 32-bit arithmetic. */
  function FilenameHash(s: Str): nat {
    if s == [] then 0
    else
      var c: int := s[|s| - 1];
      (FilenameHash(s[..|s| - 1]) * 31 + (if c < 128 then c else c - 256)) % 0x1_0000_0000
  }

  const HASH_SIZE := 1023

  function Pos(filename: Str): nat {
    FilenameHash(filename) % HASH_SIZE
  }

  function Name(r: Record): Str {
    r.filename
  }

  /** No two records have the same filename. */
  ghost predicate NamesDiffer(all: seq<Record>) {
    Apart(all, Name)
  }

  // ---- the chains

  /** The chain of bucket p after adding the records in order: the latest first. */
  function Chain(all: seq<Record>, p: nat): seq<Record> {
    if all == [] then [] else
    var last := all[|all| - 1];
    (if Pos(last.filename) == p then [last] else []) + Chain(all[..|all| - 1], p)
  }

  lemma ChainSnoc(all: seq<Record>, r: Record, p: nat)
    ensures Chain(all + [r], p) == (if Pos(r.filename) == p then [r] else []) + Chain(all, p)
  {
    hide Pos;
    assert (all + [r])[..|all|] == all;
  }

  lemma {:induction false} ChainConcat(a: seq<Record>, b: seq<Record>, p: nat)
    ensures Chain(a + b, p) == Chain(b, p) + Chain(a, p)
  {
    hide Pos, Chain;
    if b == [] {
      assert a + b == a && Chain(b, p) == [] by { ChainNone(p); }
    } else {
      var init, last := b[..|b| - 1], b[|b| - 1];
      assert b == init + [last] && a + b == a + init + [last];
      ChainConcat(a, init, p);
      ChainSnoc(a + init, last, p);
      ChainSnoc(init, last, p);
    }
  }

  lemma ChainNone(p: nat)
    ensures Chain([], p) == []
  {
  }

  lemma {:induction false} ChainMembers(all: seq<Record>, p: nat, x: Record)
    ensures x in Chain(all, p) <==> x in all && Pos(x.filename) == p
  {
    hide Pos, Chain;
    if all == [] {
      ChainNone(p);
    } else {
      var init, last := all[..|all| - 1], all[|all| - 1];
      assert all == init + [last];
      ChainMembers(init, p, x);
      ChainSnoc(init, last, p);
    }
  }

  /** The chains around the record at index k. */
  lemma ChainAround(all: seq<Record>, k: nat, p: nat)
    requires k < |all|
    ensures var before, after := Chain(all[..k], p), Chain(all[k + 1..], p);
            && Chain(all, p) == after + ((if Pos(all[k].filename) == p then [all[k]] else []) + before)
            && Chain(Delete(all, k), p) == after + before
  {
    hide Pos, Chain;
    SplitAt(all, k);
    ChainConcat(all[..k] + [all[k]], all[k + 1..], p);
    ChainSnoc(all[..k], all[k], p);
    ChainConcat(all[..k], all[k + 1..], p);
  }

  lemma {:induction false} LastIndex<X>(s: seq<X>, x: X) returns (k: nat)
    requires x in s
    ensures k < |s| && s[k] == x && x !in s[k + 1..]
  {
    var n := |s| - 1;
    if s[n] == x {
      k := n;
    } else {
      assert s == s[..n] + [s[n]];
      k := LastIndex(s[..n], x);
      assert s[k + 1..] == s[..n][k + 1..] + [s[n]];
    }
  }

  lemma FirstPlace<X>(a: seq<X>, x: X, b: seq<X>, j: nat)
    requires x !in a
    requires var s := a + ([x] + b); j < |s| && s[j] == x && x !in s[..j]
    ensures j == |a|
  {
    var s := a + ([x] + b);
    assert s[|a|] == x;
    forall i | 0 <= i < j ensures s[i] in s[..j] {
      assert s[..j][i] == s[i];
    }
    forall i | 0 <= i < |a| ensures s[i] != x {
      assert s[i] == a[i];
    }
  }

  /** Where a record added last at index k stands in its chain. */
  lemma ChainPlace(all: seq<Record>, k: nat, j: nat)
    requires k < |all| && all[k] !in all[k + 1..]
    requires var chain := Chain(all, Pos(all[k].filename)); j < |chain| && chain[j] == all[k] && all[k] !in chain[..j]
    ensures Delete(Chain(all, Pos(all[k].filename)), j) == Chain(Delete(all, k), Pos(all[k].filename))
  {
    hide Pos, Chain;
    var r, p := all[k], Pos(all[k].filename);
    ChainAround(all, k, p);
    var before, after := Chain(all[..k], p), Chain(all[k + 1..], p);
    ChainMembers(all[k + 1..], p, r);
    FirstPlace(after, r, before, j);
    assert Delete(after + ([r] + before), |after|) == after + before;
  }

  // ---- what a lookup finds

  /** The last record added under a name. */
  function Latest(all: seq<Record>, filename: Str): Option<Record> {
    if all == [] then None
    else if all[|all| - 1].filename == filename then Some(all[|all| - 1])
    else Latest(all[..|all| - 1], filename)
  }

  function FirstNamed(chain: seq<Record>, filename: Str): Option<Record> {
    if chain == [] then None
    else if chain[0].filename == filename then Some(chain[0])
    else FirstNamed(chain[1..], filename)
  }

  lemma {:induction false} ChainFinds(all: seq<Record>, filename: Str)
    ensures FirstNamed(Chain(all, Pos(filename)), filename) == Latest(all, filename)
  {
    if all != [] {
      var last, rest := all[|all| - 1], Chain(all[..|all| - 1], Pos(filename));
      ChainFinds(all[..|all| - 1], filename);
      assert ([last] + rest)[1..] == rest;
      assert [] + rest == rest;
    }
  }

  lemma {:induction false} LatestIs(all: seq<Record>, i: nat)
    requires NamesDiffer(all) && i < |all|
    ensures Latest(all, all[i].filename) == Some(all[i])
  {
    if i + 1 < |all| {
      assert Name(all[i]) != Name(all[|all| - 1]);
      LatestIs(all[..|all| - 1], i);
    }
  }

  lemma {:induction false} LatestIsThere(all: seq<Record>, filename: Str)
    ensures match Latest(all, filename)
            case Some(r) => r in all && r.filename == filename
            case None => forall r :: r in all ==> r.filename != filename
  {
    if all != [] {
      LatestIsThere(all[..|all| - 1], filename);
      assert all == all[..|all| - 1] + [all[|all| - 1]];
    }
  }

  /** Under different names a lookup finds what is there. */
  lemma LatestFinds(all: seq<Record>, filename: Str, r: Record)
    requires NamesDiffer(all)
    ensures Latest(all, filename) == Some(r) <==> r in all && r.filename == filename
  {
    hide Latest;
    LatestIsThere(all, filename);
    if r in all && r.filename == filename {
      var i :| 0 <= i < |all| && all[i] == r;
      LatestIs(all, i);
    }
  }

  /** So the order does not matter. */
  lemma LatestPermutes(a: seq<Record>, b: seq<Record>, filename: Str)
    requires NamesDiffer(b) && multiset(a) == multiset(b)
    ensures NamesDiffer(a) && Latest(a, filename) == Latest(b, filename)
  {
    hide Latest;
    ApartPermutes(a, b, Name);
    if Latest(b, filename).Some? {
      var r := Latest(b, filename).value;
      LatestFinds(b, filename, r);
      assert r in multiset(b) && r in a;
      LatestFinds(a, filename, r);
    } else if Latest(a, filename).Some? {
      var r := Latest(a, filename).value;
      LatestFinds(a, filename, r);
      assert r in multiset(a) && r in b;
      LatestFinds(b, filename, r);
    }
  }

  lemma LatestWithout(all: seq<Record>, k: nat, filename: Str)
    requires NamesDiffer(all) && k < |all|
    ensures NamesDiffer(Delete(all, k))
    ensures Latest(Delete(all, k), filename) == if filename == all[k].filename then None else Latest(all, filename)
  {
    hide Latest, Delete;
    DeleteApart(all, k, Name);
    WithoutMembers(all, k);
    LatestIsThere(Delete(all, k), filename);
    LatestIsThere(all, filename);
    if Latest(all, filename).Some? {
      LatestFinds(Delete(all, k), filename, Latest(all, filename).value);
    }
  }

  lemma WithoutMembers(all: seq<Record>, k: nat)
    requires NamesDiffer(all) && k < |all|
    ensures forall r :: r in Delete(all, k) <==> r in all && r.filename != all[k].filename
  {
    SplitAt(all, k);
    forall r | r in Delete(all, k) ensures r.filename != all[k].filename {
      OthersDiffer(all, k, Name, r);
    }
    forall r | r in all && r.filename != all[k].filename ensures r in Delete(all, k) {
      var i :| 0 <= i < |all| && all[i] == r;
      assert Delete(all, k)[if i < k then i else i - 1] == r;
    }
  }

  lemma LatestWith(all: seq<Record>, r: Record, filename: Str)
    requires NamesDiffer(all) && Latest(all, r.filename).None?
    ensures NamesDiffer(all + [r])
    ensures Latest(all + [r], filename) == if filename == r.filename then Some(r) else Latest(all, filename)
  {
    LatestIsThere(all, r.filename);
    assert (all + [r])[..|all|] == all;
    InsertApart(all, |all|, r, Name);
    assert Insert(all, |all|, r) == all + [r];
  }

  // ---- sorted by filename

  function Chars(s: Str): string {
    seq(|s|, i requires 0 <= i < |s| => s[i] as char)
  }

  /** ti_filename_cmp; strcmp compares unsigned bytes. */
  function ByFilename(): (Record, Record) -> int {
    (a: Record, b: Record) => StrCmp(Chars(a.filename), Chars(b.filename))
  }

  lemma ByFilenameOrders()
    ensures Preorder(ByFilename())
  {
    hide Chars;
    var cmp := ByFilename();
    forall x: Record, y: Record ensures cmp(x, y) < 0 <==> cmp(y, x) > 0 {
      StrCmpEqual(Chars(x.filename), Chars(y.filename));
      StrCmpEqual(Chars(y.filename), Chars(x.filename));
    }
    forall x: Record, y: Record, z: Record | cmp(x, y) <= 0 && cmp(y, z) <= 0 ensures cmp(x, z) <= 0 {
      StrCmpEqual(Chars(x.filename), Chars(y.filename));
      StrCmpEqual(Chars(y.filename), Chars(z.filename));
      if cmp(x, y) < 0 && cmp(y, z) < 0 {
        StrCmpTransitive(Chars(x.filename), Chars(y.filename), Chars(z.filename));
      }
    }
  }

  /** The records of the buckets before p. */
  function Below(all: seq<Record>, p: nat): seq<Record> {
    if p == 0 then [] else Below(all, p - 1) + Chain(all, p - 1)
  }

  lemma {:induction false} BelowSnoc(all: seq<Record>, r: Record, p: nat)
    ensures multiset(Below(all + [r], p)) ==
            multiset(Below(all, p)) + if Pos(r.filename) < p then multiset{r} else multiset{}
  {
    hide Pos, Chain;
    if p > 0 {
      BelowSnoc(all, r, p - 1);
      ChainSnoc(all, r, p - 1);
    }
  }

  lemma {:induction false} BelowNone(p: nat)
    ensures Below([], p) == []
  {
    if p > 0 {
      BelowNone(p - 1);
      ChainNone(p - 1);
    }
  }

  /** All buckets together hold all records. */
  lemma {:induction false} BelowAll(all: seq<Record>)
    ensures multiset(Below(all, HASH_SIZE)) == multiset(all)
  {
    hide Below, FilenameHash;
    if all == [] {
      BelowNone(HASH_SIZE);
    } else {
      var init, last := all[..|all| - 1], all[|all| - 1];
      assert all == init + [last];
      BelowAll(init);
      BelowSnoc(init, last, HASH_SIZE);
    }
  }

  // ---- the table

  /** What cache_refresh finds of a track's file: as it was, gone, or changed, with what the input
      plugin then reads from it. */
  datatype Found = Unchanged | Gone | Changed(ti: Option<Record>)
  {
    /** The track leaves the cache. */
    predicate Lost() {
      Gone? || (Changed? && ti.None?)
    }

    function Renewed(r: Record): Option<Record> {
      match this
      case Unchanged => Some(r)
      case Gone => None
      case Changed(t) => t
    }
  }

  type Look = Record -> Found

  predicate IsLost(f: Found) {
    f.Lost()
  }

  predicate IsChanged(f: Found) {
    !f.Unchanged?
  }

  /** For how many of the first i what was found is as p says. */
  function Tally(tis: seq<Record>, look: Look, p: Found -> bool, i: nat): (n: nat)
    requires i <= |tis|
    ensures n <= i
  {
    if i == 0 then 0 else Tally(tis, look, p, i - 1) + if p(look(tis[i - 1])) then 1 else 0
  }

  lemma {:induction false} TallyNone(tis: seq<Record>, look: Look, p: Found -> bool, i: nat)
    requires i <= |tis|
    ensures Tally(tis, look, p, i) == 0 <==> forall k :: 0 <= k < i ==> !p(look(tis[k]))
  {
    if i > 0 {
      TallyNone(tis, look, p, i - 1);
    }
  }

  lemma TallyNext(tis: seq<Record>, look: Look, p: Found -> bool, i: nat)
    requires i < |tis|
    ensures Tally(tis, look, p, i + 1) == Tally(tis, look, p, i) + if p(look(tis[i])) then 1 else 0
  {
  }

  /** What lookups find after the first i were refreshed. */
  ghost predicate Refreshed(tis: seq<Record>, look: Look, i: nat, all: seq<Record>) {
    && NamesDiffer(all)
    && (forall k :: 0 <= k < |tis| ==>
          Latest(all, tis[k].filename) == if k < i then look(tis[k]).Renewed(tis[k]) else Some(tis[k]))
    && (forall f :: NotNamed(tis, f) ==> Latest(all, f).None?)
  }

  predicate NotNamed(tis: seq<Record>, f: Str) {
    forall k :: 0 <= k < |tis| ==> tis[k].filename != f
  }

  /** The cache then holds only what was there and what was read anew. */
  lemma RefreshedWritable(tis: seq<Record>, look: Look, i: nat, all: seq<Record>)
    requires Refreshed(tis, look, i, all) && AllWritable(tis)
    requires forall r :: r in tis ==> NewWritable(look, r)
    ensures AllWritable(all)
  {
    hide Latest, Writable;
    forall m | 0 <= m < |all| ensures Writable(all[m]) {
      LatestIs(all, m);
      var f := all[m].filename;
      assert !NotNamed(tis, f);
      var k :| 0 <= k < |tis| && tis[k].filename == f;
      assert NewWritable(look, tis[k]) && Writable(tis[k]);
    }
  }

  ghost predicate NewWritable(look: Look, r: Record) {
    look(r).Changed? && look(r).ti.Some? ==> Writable(look(r).ti.value)
  }

  /** The files the plugins read are the ones asked for. */
  ghost predicate SameFile(look: Look, r: Record) {
    look(r).Changed? && look(r).ti.Some? ==> look(r).ti.value.filename == r.filename
  }

  /** When the loop of cache_refresh, bounded by the present total, comes to an end. */
  lemma VisitedAll(tis: seq<Record>, look: Look, i: nat)
    requires i <= |tis| && i + Tally(tis, look, IsLost, i) >= |tis|
    requires i > 0 ==> i - 1 + Tally(tis, look, IsLost, i - 1) < |tis|
    ensures i == |tis| <==> forall k :: 0 <= k < |tis| - 1 ==> !IsLost(look(tis[k]))
    ensures Tally(tis, look, IsLost, i) == 0 <==> forall k :: 0 <= k < |tis| ==> !IsLost(look(tis[k]))
  {
    hide Tally, IsLost;
    TallyNone(tis, look, IsLost, i);
    if |tis| > 0 {
      TallyNone(tis, look, IsLost, |tis| - 1);
    }
    if i > 0 {
      TallyNone(tis, look, IsLost, i - 1);
    }
  }

  /** hash_table */
  class TrackTable {
    const buckets: array<seq<Record>>
    var total: nat
    var added: nat       // new
    var removed: nat
    ghost var all: seq<Record>

    ghost predicate Valid()
      reads this, buckets
    {
      buckets.Length == HASH_SIZE && total == |all| && forall p :: 0 <= p < HASH_SIZE ==> buckets[p] == Chain(all, p)
    }

    /** The file holds what was read from it until something is added or removed. */
    ghost predicate Synced(file: seq<Byte>)
      reads this
    {
      added == 0 && removed == 0 ==> all == ReadFile(file).0
    }

    constructor ()
      ensures Valid() && all == [] && added == removed == 0 && fresh(buckets)
    {
      buckets := new seq<Record>[HASH_SIZE](_ => []);
      total, added, removed, all := 0, 0, 0, [];
    }

    /** add_ti */
    method AddTi(r: Record)
      requires Valid()
      modifies `total, `all, buckets
      ensures Valid() && all == old(all) + [r]
    {
      hide FilenameHash, Chain;
      forall p: nat ensures Chain(all + [r], p) == (if Pos(r.filename) == p then [r] else []) + Chain(all, p) {
        ChainSnoc(all, r, p);
      }
      var pos := Pos(r.filename);
      buckets[pos] := [r] + buckets[pos];
      total := total + 1;
      all := all + [r];
    }

    /** lookup_cache_entry: the record added last under the name. */
    method Lookup(filename: Str) returns (r: Option<Record>)
      requires Valid()
      ensures r == Latest(all, filename)
    {
      hide FilenameHash;
      var chain := buckets[Pos(filename)];
      ChainFinds(all, filename);
      while chain != []
        invariant FirstNamed(chain, filename) == Latest(all, filename)
        decreases |chain|
      {
        if chain[0].filename == filename {
          return Some(chain[0]);
        }
        chain := chain[1..];
      }
      r := None;
    }

    /** cache_get_ti: ti is what the input plugin makes of the file, if the file is not cached. */
    method CacheGetTi(filename: Str, ti: Option<Record>) returns (r: Option<Record>)
      requires Valid() && NamesDiffer(all) && (ti.Some? ==> ti.value.filename == filename)
      modifies this, buckets
      ensures Valid() && NamesDiffer(all) && r == Latest(all, filename)
      ensures r == if Latest(old(all), filename).Some? then Latest(old(all), filename) else ti
      ensures forall f :: f != filename ==> Latest(all, f) == Latest(old(all), f)
      ensures forall file :: old(Synced(file)) ==> Synced(file)
    {
      hide Latest;
      r := Lookup(filename);
      if r.None? && ti.Some? {
        forall f ensures Latest(all + [ti.value], f) == if f == filename then ti else Latest(all, f) {
          LatestWith(all, ti.value, f);
        }
        LatestWith(all, ti.value, filename);
        AddTi(ti.value);
        added := added + 1;
        r := ti;
      }
    }

    /** do_cache_remove_ti: unlinks the record, the last one added if there are equal ones; a record
        that is not there is passed over. */
    method RemoveTi(r: Record) returns (ghost k: nat)
      requires Valid()
      modifies `total, `removed, `all, buckets
      ensures Valid()
      ensures r !in old(all) ==> all == old(all) && removed == old(removed) && buckets[..] == old(buckets[..])
      ensures r in old(all) ==>
        && k < |old(all)| && old(all)[k] == r && r !in old(all)[k + 1..]
        && all == Delete(old(all), k) && removed == old(removed) + 1
    {
      hide FilenameHash, Chain;
      k := 0;
      var pos := Pos(r.filename);
      var chain := buckets[pos];
      ChainMembers(all, pos, r);
      var j := 0;
      while j < |chain| && chain[j] != r
        invariant j <= |chain| && r !in chain[..j]
      {
        assert chain[..j + 1] == chain[..j] + [chain[j]];
        j := j + 1;
      }
      if j == |chain| {
        assert chain[..j] == chain;
        return;
      }
      k := LastIndex(all, r);
      ChainPlace(all, k, j);
      forall p: nat | p != pos ensures Chain(Delete(all, k), p) == Chain(all, p) {
        ChainAround(all, k, p);
      }
      buckets[pos] := chain[..j] + chain[j + 1..];
      total := total - 1;
      removed := removed + 1;
      all := Delete(all, k);
    }

    /** read_cache on the bytes of the file: what it adds, also when the file turns out to be
        corrupt further on. */
    method ReadCache(file: seq<Byte>) returns (ok: bool)
      requires Valid()
      modifies this, buckets
      ensures Valid() && ok == ReadFile(file).1 && all == old(all) + ReadFile(file).0
      ensures added == old(added) && removed == old(removed)
    {
      hide Chain, Pos, ValidEntry, Decode, SizeField, Align;
      if |file| < |HEADER| || file[..|HEADER|] != HEADER {
        return false;
      }
      var offset: nat := |HEADER|;
      ghost var before := all;
      while offset < |file|
        invariant Valid() && added == old(added) && removed == old(removed)
        invariant var (rs, fine) := ReadEntries(file, offset);
                  all + rs == before + ReadFile(file).0 && fine == ReadFile(file).1
        decreases |file| - offset
      {
        var e := file[offset..];
        var valid := ValidCacheEntry(e);
        if !valid {
          return false;
        }
        var r := CacheEntryToTi(e);
        AddTi(r);
        EntryMoves(e);
        offset := offset + Align(SizeField(e));
      }
      ok := true;
    }

    /** The collecting loops of get_track_infos. */
    method Collect() returns (tis: seq<Record>)
      requires Valid()
      ensures multiset(tis) == multiset(all) && |tis| == total
    {
      hide Chain;
      tis := [];
      var i := 0;
      while i < HASH_SIZE
        invariant 0 <= i <= HASH_SIZE && tis == Below(all, i)
      {
        var chain := buckets[i];
        ghost var before := tis;
        var k := 0;
        while k < |chain|
          invariant k <= |chain| && tis == before + chain[..k]
        {
          tis := tis + [chain[k]];
          assert chain[..k + 1] == chain[..k] + [chain[k]];
          k := k + 1;
        }
        assert chain[..k] == chain;
        i := i + 1;
      }
      BelowAll(all);
      assert |tis| == |multiset(tis)| == |multiset(all)| == |all|;
    }

    /** get_track_infos: all records, sorted by filename. */
    method GetTrackInfos() returns (tis: seq<Record>)
      requires Valid()
      ensures multiset(tis) == multiset(all) && |tis| == total
      ensures Sorted(tis, ByFilename())
    {
      hide BottomUp, Preorder, ByFilename;
      var unsorted := Collect();
      ByFilenameOrders();
      OrdersAny(ByFilename(), set x | x in unsorted);
      MergeSortIsStable(unsorted, ByFilename());
      tis := BottomUp(unsorted, 1, ByFilename());
      assert |tis| == |multiset(tis)| == |multiset(unsorted)| == |unsorted|;
    }

    /** cache_close, with the file there was and the file there is afterwards: nothing is written
        when nothing was added or removed. */
    method CacheClose(was: seq<Byte>) returns (file: seq<Byte>)
      requires Valid() && Synced(was) && AllWritable(all)
      ensures multiset(ReadFile(file).0) == multiset(all)
      ensures NamesDiffer(all) ==> NamesDiffer(ReadFile(file).0)
      ensures NamesDiffer(all) ==> forall f :: Latest(ReadFile(file).0, f) == Latest(all, f)
      ensures if added == 0 && removed == 0 then file == was
              else ReadFile(file).1 && Sorted(ReadFile(file).0, ByFilename())
    {
      if added == 0 && removed == 0 {
        return was;
      }
      hide Writable, Latest, ReadFile, FileBytes, ByFilename;
      var tis := GetTrackInfos();
      SameWritable(tis, all);
      var w := new Writer();
      w.WriteFile(tis);
      file := w.out;
      RoundTrip(tis);
      if NamesDiffer(all) {
        forall f ensures Latest(tis, f) == Latest(all, f) {
          LatestPermutes(tis, all, f);
        }
        LatestPermutes(tis, all, []);
      }
    }

    static lemma SameWritable(tis: seq<Record>, all: seq<Record>)
      requires multiset(tis) == multiset(all) && AllWritable(all)
      ensures AllWritable(tis)
    {
      hide Writable;
      forall i | 0 <= i < |tis| ensures Writable(tis[i]) {
        assert tis[i] in multiset(tis) && tis[i] in all;
      }
    }

    /** One track of cache_refresh. */
    method RefreshOne(tis: seq<Record>, i: nat, look: Look)
      requires Valid() && i < |tis| && NamesDiffer(tis) && Refreshed(tis, look, i, all) && SameFile(look, tis[i])
      modifies this, buckets
      ensures Valid() && Refreshed(tis, look, i + 1, all)
      ensures total == old(total) - if IsLost(look(tis[i])) then 1 else 0
      ensures removed == old(removed) + if IsChanged(look(tis[i])) then 1 else 0
      ensures added - removed == old(added) - old(removed) - if IsLost(look(tis[i])) then 1 else 0
      ensures forall file :: old(Synced(file)) ==> Synced(file)
    {
      hide Latest, Delete, FilenameHash, Chain, NotNamed;
      var r, found := tis[i], look(tis[i]);
      if found.Unchanged? {
        return;
      }
      LatestFinds(all, r.filename, r);
      ghost var before := all;
      ghost var k := RemoveTi(r);
      forall f ensures Latest(all, f) == if f == r.filename then None else Latest(before, f) {
        LatestWithout(before, k, f);
      }
      LatestWithout(before, k, r.filename);
      if found.Changed? && found.ti.Some? {
        ghost var between := all;
        AddTi(found.ti.value);
        added := added + 1;
        forall f ensures Latest(all, f) == if f == r.filename then found.ti else Latest(between, f) {
          LatestWith(between, found.ti.value, f);
        }
        LatestWith(between, found.ti.value, r.filename);
      }
      OthersKept(tis, i);
    }

    static lemma OthersKept(tis: seq<Record>, i: nat)
      requires NamesDiffer(tis) && i < |tis|
      ensures forall k :: 0 <= k < |tis| && k != i ==> tis[k].filename != tis[i].filename
      ensures !NotNamed(tis, tis[i].filename)
    {
      forall k | 0 <= k < |tis| && k != i ensures tis[k].filename != tis[i].filename {
        assert Name(tis[k]) != Name(tis[i]);
      }
    }

    /** cache_refresh: visits tracks in the order of their names, and reports a list and its length.
        The loop runs to the present total, which goes down with every track that is lost: so it
        visits all exactly if none but the last is lost, and reports all exactly if none is. */
    method CacheRefresh(look: Look) returns (tis: seq<Record>, visited: nat, count: nat)
      requires Valid() && NamesDiffer(all) && forall r :: r in all ==> SameFile(look, r)
      modifies this, buckets
      ensures Valid() && multiset(tis) == multiset(old(all)) && Sorted(tis, ByFilename())
      ensures NamesDiffer(all) && forall file :: old(Synced(file)) ==> Synced(file)
      ensures visited <= |tis| && Refreshed(tis, look, visited, all)
      ensures count == total == |tis| - Tally(tis, look, IsLost, visited)
      ensures removed == old(removed) + Tally(tis, look, IsChanged, visited)
      ensures added - removed == old(added) - old(removed) - Tally(tis, look, IsLost, visited)
      ensures visited == |tis| <==> forall k :: 0 <= k < |tis| - 1 ==> !IsLost(look(tis[k]))
      ensures count == |tis| <==> forall k :: 0 <= k < |tis| ==> !IsLost(look(tis[k]))
    {
      hide Latest, FilenameHash, Chain, IsLost, IsChanged, Refreshed, ByFilename, Valid, SameFile, Tally, Synced;
      hide Sorted;
      ghost var before := all;
      tis := GetTrackInfos();
      AsBefore(tis, look);
      assert Tally(tis, look, IsLost, 0) == Tally(tis, look, IsChanged, 0) == 0;
      var i := 0;
      while i < total
        invariant i <= |tis| && Valid() && Refreshed(tis, look, i, all)
        invariant total == |tis| - Tally(tis, look, IsLost, i)
        invariant removed == old(removed) + Tally(tis, look, IsChanged, i)
        invariant added - removed == old(added) - old(removed) - Tally(tis, look, IsLost, i)
        invariant forall file :: old(Synced(file)) ==> Synced(file)
        invariant i > 0 ==> i - 1 + Tally(tis, look, IsLost, i - 1) < |tis|
        decreases |tis| - i
      {
        assert tis[i] in multiset(tis) && tis[i] in before;
        TallyNext(tis, look, IsLost, i);
        TallyNext(tis, look, IsChanged, i);
        RefreshOne(tis, i, look);
        i := i + 1;
      }
      VisitedAll(tis, look, i);
      NamesStay(tis, look, i);
      visited, count := i, total;
    }

    lemma NamesStay(tis: seq<Record>, look: Look, i: nat)
      requires Refreshed(tis, look, i, all)
      ensures NamesDiffer(all)
    {
    }

    lemma NotThere(tis: seq<Record>, f: Str)
      requires multiset(tis) == multiset(all) && NotNamed(tis, f)
      ensures forall r :: r in all ==> r.filename != f
    {
      forall r | r in all ensures r.filename != f {
        assert r in multiset(all) && r in tis;
      }
    }

    lemma AsBefore(tis: seq<Record>, look: Look)
      requires multiset(tis) == multiset(all) && NamesDiffer(all)
      ensures NamesDiffer(tis) && Refreshed(tis, look, 0, all)
    {
      hide Latest, NotNamed;
      LatestPermutes(tis, all, []);
      forall k | 0 <= k < |tis| ensures Latest(all, tis[k].filename) == Some(tis[k]) {
        LatestIs(tis, k);
        LatestPermutes(tis, all, tis[k].filename);
      }
      forall f | NotNamed(tis, f) ensures Latest(all, f).None? {
        LatestIsThere(all, f);
        NotThere(tis, f);
      }
    }
  }

  lemma EntryMoves(e: seq<Byte>)
    requires ValidEntry(e)
    ensures |e| >= ENTRY_SIZE && Align(SizeField(e)) > 0
  {
  }

  /** Closing the cache and starting again with the file gives the same records, and answers every
      lookup as before if no two have the same name. */
  method CloseThenInit(t: TrackTable, was: seq<Byte>) returns (u: TrackTable, file: seq<Byte>)
    requires t.Valid() && t.Synced(was) && AllWritable(t.all)
    ensures u.Valid() && u.Synced(file) && multiset(u.all) == multiset(t.all)
    ensures NamesDiffer(t.all) ==> NamesDiffer(u.all) && forall f :: Latest(u.all, f) == Latest(t.all, f)
  {
    hide Latest, ReadFile, Chain, FilenameHash, Writable, ByFilename;
    file := t.CacheClose(was);
    u := new TrackTable();
    var _ := u.ReadCache(file);
    assert [] + ReadFile(file).0 == ReadFile(file).0;
  }

  /** Refreshing, closing and starting again: lookups find what the refresh left. */
  method RefreshThenInit(t: TrackTable, was: seq<Byte>, look: Look)
    returns (u: TrackTable, file: seq<Byte>, tis: seq<Record>, visited: nat)
    requires t.Valid() && t.Synced(was) && NamesDiffer(t.all) && AllWritable(t.all)
    requires forall r :: r in t.all ==> SameFile(look, r) && NewWritable(look, r)
    modifies t, t.buckets
    ensures u.Valid() && u.Synced(file) && multiset(tis) == multiset(old(t.all))
    ensures visited <= |tis| && Refreshed(tis, look, visited, u.all)
    ensures visited == |tis| <==> forall k :: 0 <= k < |tis| - 1 ==> !IsLost(look(tis[k]))
  {
    hide Latest, ReadFile, Chain, FilenameHash, Writable, ByFilename, IsLost, SameFile, NewWritable, TrackTable.Synced;
    ghost var before := t.all;
    var count;
    tis, visited, count := t.CacheRefresh(look);
    forall r | r in tis ensures r in before {
      assert r in multiset(tis);
    }
    TrackTable.SameWritable(tis, before);
    RefreshedWritable(tis, look, visited, t.all);
    u, file := CloseThenInit(t, was);
  }

  /** Two tracks whose files are both gone: one of them stays cached. */
  method LossesExample(a: Record, b: Record) returns (t: TrackTable, left: Option<Record>)
    requires a.filename == [97] && b.filename == [98]
    ensures left.Some?
  {
    hide Latest, Chain, FilenameHash, ByFilename;
    t := new TrackTable();
    t.AddTi(a);
    t.AddTi(b);
    assert t.all == [a, b];
    var tis, visited, count := t.CacheRefresh(r => Gone);
    assert |tis| == |multiset(tis)| == |multiset([a, b])| == 2;
    assert IsLost(Gone);
    left := t.Lookup(tis[1].filename);
  }
}

/** gbuf.c and the file handling of cache.c: the growing buffer, writing the cache file and decoding
    its entries. */
module Cache {
  import opened Bytes
  import opened Sequences
  import opened CacheFormat

  /** struct gbuf */
  class Gbuf {
    var data: seq<Byte>
    var alloc: nat

    ghost predicate Valid()
      reads this
    {
      if alloc == 0 then data == [] else |data| < alloc
    }

    constructor ()
      ensures Valid() && data == []
    {
      data, alloc := [], 0;
    }

    /** gbuf_grow: room for more bytes and a terminator, rounded up to 16. */
    method Grow(more: nat)
      requires Valid()
      modifies `alloc
      ensures Valid() && alloc >= old(alloc) && |data| + more < alloc
      ensures alloc == old(alloc) || (alloc % 16 == 0 && alloc <= |data| + more + 16)
    {
      var size := (|data| + more + 1 + 15) / 16 * 16;
      if size > alloc {
        alloc := size;
      }
    }

    /** gbuf_avail */
    method Avail() returns (n: nat)
      requires Valid()
      ensures n == if alloc == 0 then 0 else alloc - |data| - 1
    {
      if alloc != 0 {
        n := alloc - |data| - 1;
      } else {
        n := 0;
      }
    }

    /** gbuf_add_bytes */
    method AddBytes(bytes: seq<Byte>)
      requires Valid()
      modifies this
      ensures Valid() && data == old(data) + bytes
    {
      Grow(|bytes|);
      data := data + bytes;
    }

    /** gbuf_set, for padding */
    method AddZeros(count: nat)
      requires Valid()
      modifies this
      ensures Valid() && data == old(data) + Zeros(count)
    {
      Grow(count);
      data := data + Zeros(count);
    }

    /** gbuf_clear */
    method Clear()
      requires Valid()
      modifies `data
      ensures Valid() && data == []
    {
      data := [];
    }
  }

  /** The file being written and the buffer in front of it. */
  class Writer {
    const buf: Gbuf
    var out: seq<Byte>

    /** What the file will hold once the buffer is flushed. */
    ghost function Written(): seq<Byte>
      reads this, buf
    {
      out + buf.data
    }

    constructor ()
      ensures buf.Valid() && Written() == [] && fresh(buf)
    {
      buf := new Gbuf();
      out := [];
    }

    /** flush_buffer */
    method FlushBuffer()
      requires buf.Valid()
      modifies `out, buf`data
      ensures buf.Valid() && buf.data == [] && out == old(Written())
    {
      if |buf.data| > 0 {
        out := out + buf.data;
        buf.Clear();
      }
    }

    method Add(bytes: seq<Byte>)
      requires buf.Valid()
      modifies buf
      ensures buf.Valid() && Written() == old(Written()) + bytes
    {
      Assoc(out, buf.data, bytes);
      buf.AddBytes(bytes);
    }

    /** The first loop of write_ti: the string lengths, with their sum; len has room for the
        filename and 32 pairs. */
    method Lengths(r: Record) returns (len: array<nat>, size: nat)
      requires |r.comments| <= MAX_PAIRS
      ensures fresh(len) && len.Length == 65 && size == |Strings(r)|
      ensures len[0] == |r.filename| + 1
      ensures forall i :: 0 <= i < |r.comments| ==>
                len[2 * i + 1] == |r.comments[i].0| + 1 && len[2 * i + 2] == |r.comments[i].1| + 1
    {
      hide Join, Unpair, Strings;
      len := new nat[65];
      var count := 0;
      len[count] := |r.filename| + 1;
      size := len[count];
      count := count + 1;
      var i := 0;
      NoStrings(r.comments);
      while i < |r.comments|
        invariant i <= |r.comments| && count == 2 * i + 1 && len[0] == |r.filename| + 1
        invariant size == |r.filename| + 1 + |Join(Unpair(r.comments[..i]))|
        invariant forall k :: 0 <= k < i ==>
                    len[2 * k + 1] == |r.comments[k].0| + 1 && len[2 * k + 2] == |r.comments[k].1| + 1
      {
        UnpairSnoc(r.comments, i);
        len[count] := |r.comments[i].0| + 1;
        size := size + len[count];
        count := count + 1;
        len[count] := |r.comments[i].1| + 1;
        size := size + len[count];
        count := count + 1;
        i := i + 1;
      }
      assert r.comments[..i] == r.comments;
      StringsLength(r);
    }

    /** write_ti: where the buffer is flushed makes no difference to what is written. */
    method WriteTi(r: Record, offset: nat) returns (end: nat)
      requires buf.Valid() && Writable(r)
      modifies this, buf
      ensures buf.Valid()
      ensures Written() == old(Written()) + (Zeros(Align(offset) - offset) + Entry(r))
      ensures end == Align(offset) + |Entry(r)|
    {
      hide Zeros, Strings, EntryBytes, Put32, Put64;
      ghost var before := Written();
      var len, size := Lengths(r);
      size := size + ENTRY_SIZE;
      var pad := Align(offset) - offset;
      var avail := buf.Avail();
      if avail < pad + size {
        FlushBuffer();
      }
      assert Written() == before;
      if pad > 0 {
        Assoc(out, buf.data, Zeros(pad));
        buf.AddZeros(pad);
      }
      assert Written() == before + Zeros(pad);
      Add(Put32(size) + Put32(Unsigned(r.duration, 0x1_0000_0000)) + Put64(Unsigned(r.mtime, 0x1_0000_0000_0000_0000)));
      AddStrings(r, len);
      EntrySplit(r);
      Assoc4(before, Zeros(pad), EntryHead(r), Strings(r));
      end := offset + pad + size;
    }

    method AddPair(key: Str, val: Str, keyLen: nat, valLen: nat)
      requires buf.Valid() && keyLen == |key| + 1 && valLen == |val| + 1
      modifies buf
      ensures buf.Valid() && Written() == old(Written()) + (key + [NUL] + (val + [NUL]))
    {
      Assoc(Written(), key + [NUL], val + [NUL]);
      hide Written;
      Add((key + [NUL])[..keyLen]);
      Add((val + [NUL])[..valLen]);
    }

    /** The last part of write_ti: len[i] bytes of each string, that is with its terminator. */
    method AddStrings(r: Record, len: array<nat>)
      requires buf.Valid() && |r.comments| <= MAX_PAIRS && len.Length == 65
      requires len[0] == |r.filename| + 1
      requires forall i :: 0 <= i < |r.comments| ==>
                 len[2 * i + 1] == |r.comments[i].0| + 1 && len[2 * i + 2] == |r.comments[i].1| + 1
      modifies buf
      ensures buf.Valid() && Written() == old(Written()) + Strings(r)
    {
      ghost var before := Written();
      var count := 0;
      Add((r.filename + [NUL])[..len[count]]);
      count := count + 1;
      var i := 0;
      assert Join(Unpair(r.comments[..0])) == [];
      while i < |r.comments|
        invariant i <= |r.comments| && count == 2 * i + 1 && buf.Valid()
        invariant Written() == before + (r.filename + [NUL] + Join(Unpair(r.comments[..i])))
      {
        hide Join, Unpair, Written;
        UnpairSnoc(r.comments, i);
        var (key, val) := r.comments[i];
        PairAdded(before, r.filename + [NUL], Join(Unpair(r.comments[..i])), key + [NUL] + (val + [NUL]));
        AddPair(r.comments[i].0, r.comments[i].1, len[count], len[count + 1]);
        count := count + 2;
        i := i + 1;
      }
      assert r.comments[..i] == r.comments;
      JoinCons(r.filename, Unpair(r.comments));
    }

    /** The writing loop of cache_close: the records, in the order given, behind the header. */
    method WriteFile(tis: seq<Record>)
      requires buf.Valid() && Written() == [] && AllWritable(tis)
      modifies this, buf
      ensures buf.Valid() && out == FileBytes(tis)
    {
      hide Body, Writable, Entry;
      buf.Grow(64 * 1024 - 1);
      Add(HEADER);
      var offset: nat := |HEADER|;
      var i := 0;
      BodyNone(offset);
      assert tis[0..] == tis;
      while i < |tis|
        invariant i <= |tis| && buf.Valid()
        invariant Written() + Body(offset, tis[i..]) == FileBytes(tis)
      {
        assert Writable(tis[i]);
        assert tis[i..] == [tis[i]] + tis[i + 1..];
        BodyCons(offset, tis[i], tis[i + 1..]);
        ghost var z := Zeros(Align(offset) - offset) + Entry(tis[i]);
        Assoc(Written(), z, Body(Align(offset) + |Entry(tis[i])|, tis[i + 1..]));
        offset := WriteTi(tis[i], offset);
        i := i + 1;
      }
      BodyNone(offset);
      FlushBuffer();
    }
  }

  lemma NoStrings(comments: seq<(Str, Str)>)
    ensures Join(Unpair(comments[..0])) == []
  {
  }

  lemma StringsLength(r: Record)
    ensures |Strings(r)| == |r.filename| + 1 + |Join(Unpair(r.comments))|
  {
    JoinCons(r.filename, Unpair(r.comments));
  }

  lemma BodyNone(offset: nat)
    ensures Body(offset, []) == []
  {
  }

  lemma {:induction false} JoinConcat(a: seq<Str>, b: seq<Str>)
    ensures Join(a + b) == Join(a) + Join(b)
  {
    if a == [] {
      assert a + b == b;
    } else {
      JoinConcat(a[1..], b);
      assert (a + b)[1..] == a[1..] + b && (a + b)[0] == a[0];
      Assoc(a[0] + [NUL], Join(a[1..]), Join(b));
    }
  }

  lemma {:induction false} UnpairConcat(a: seq<(Str, Str)>, b: seq<(Str, Str)>)
    ensures Unpair(a + b) == Unpair(a) + Unpair(b)
  {
    if a == [] {
      assert a + b == b;
    } else {
      UnpairConcat(a[1..], b);
      assert (a + b)[1..] == a[1..] + b && (a + b)[0] == a[0];
    }
  }

  lemma JoinTwo(a: Str, b: Str)
    ensures Join([a, b]) == a + [NUL] + (b + [NUL])
  {
    assert [a, b][1..] == [b] && [b][1..] == [];
    assert Join([b]) == b + [NUL] + Join([]);
  }

  /** One more comment's key and value. */
  lemma UnpairSnoc(pairs: seq<(Str, Str)>, i: nat)
    requires i < |pairs|
    ensures Join(Unpair(pairs[..i + 1])) == Join(Unpair(pairs[..i])) + (pairs[i].0 + [NUL] + (pairs[i].1 + [NUL]))
  {
    assert pairs[..i + 1] == pairs[..i] + [pairs[i]];
    UnpairConcat(pairs[..i], [pairs[i]]);
    assert Unpair([pairs[i]][1..]) == [];
    assert Unpair([pairs[i]]) == [pairs[i].0, pairs[i].1];
    hide Join, Unpair;
    JoinConcat(Unpair(pairs[..i]), [pairs[i].0, pairs[i].1]);
    JoinTwo(pairs[i].0, pairs[i].1);
  }

  lemma PairAdded(before: seq<Byte>, f: seq<Byte>, j: seq<Byte>, kv: seq<Byte>)
    ensures before + (f + j) + kv == before + (f + (j + kv))
  {
  }

  /** The fixed part of an entry. */
  ghost function EntryHead(r: Record): seq<Byte>
    requires Writable(r)
  {
    Put32(ENTRY_SIZE + |Strings(r)|) + Put32(Unsigned(r.duration, 0x1_0000_0000)) +
    Put64(Unsigned(r.mtime, 0x1_0000_0000_0000_0000))
  }

  lemma EntrySplit(r: Record)
    requires Writable(r)
    ensures Entry(r) == EntryHead(r) + Strings(r)
  {
  }

  lemma Assoc4(a: seq<Byte>, b: seq<Byte>, c: seq<Byte>, d: seq<Byte>)
    ensures a + b + c + d == a + (b + (c + d))
  {
  }

  // ---- reading

  /** valid_cache_entry, for what remains of the file from some offset on. */
  method ValidCacheEntry(e: seq<Byte>) returns (ok: bool)
    ensures ok == ValidEntry(e)
  {
    if |e| < ENTRY_SIZE {
      return false;
    }
    var size := SizeField(e);
    if size < ENTRY_SIZE || size > |e| {
      return false;
    }
    var strings := e[ENTRY_SIZE..size];
    var count := CountStrings(strings);
    if count % 2 == 0 {
      return false;
    }
    CountIsSplit(strings);
    assert strings != [];
    assert strings[|strings| - 1] == e[size - 1];
    if strings[|strings| - 1] != NUL {
      return false;
    }
    ok := true;
  }

  /** The counting loop of valid_cache_entry and cache_entry_to_ti. */
  method CountStrings(strings: seq<Byte>) returns (count: nat)
    ensures count == CountNul(strings)
  {
    count := 0;
    var i := 0;
    while i < |strings|
      invariant i <= |strings| && count + CountNul(strings[i..]) == CountNul(strings)
    {
      assert strings[i..] == [strings[i]] + strings[i + 1..];
      if strings[i] == NUL {
        count := count + 1;
      }
      i := i + 1;
    }
  }

  /** strlen, inside a terminated region. */
  method Strlen(s: seq<Byte>) returns (n: nat)
    requires Terminated(s) && s != []
    ensures n == Len(s) < |s|
  {
    n := 0;
    while s[n] != NUL
      invariant n < |s| && forall k :: 0 <= k < n ==> s[k] != NUL
      decreases |s| - n
    {
      n := n + 1;
    }
    FirstIs(s, IsNul, n);
  }

  /** The next string and where the one after it begins. */
  method NextString(strings: seq<Byte>, pos: nat) returns (str: Str, end: nat)
    requires pos < |strings| && Terminated(strings)
    ensures pos < end <= |strings| && Terminated(strings[end..])
    ensures Split(strings[pos..]) == [str] + Split(strings[end..])
  {
    hide Split, Len;
    var rest := strings[pos..];
    assert rest[|rest| - 1] == strings[|strings| - 1];
    SplitCons(rest);
    var n := Strlen(rest);
    str := rest[..n];
    end := pos + n + 1;
    assert rest[n + 1..] == strings[end..];
  }

  lemma SplitCons(s: seq<Byte>)
    requires Terminated(s) && s != []
    ensures Len(s) < |s| && Terminated(s[Len(s) + 1..])
    ensures Split(s) == [s[..Len(s)]] + Split(s[Len(s) + 1..])
  {
    FirstString(s);
  }

  /** The key and value at pos, and where the next key begins. */
  method NextPair(strings: seq<Byte>, pos: nat, ghost count: nat) returns (kv: (Str, Str), end: nat)
    requires pos <= |strings| && Terminated(strings) && count > 0 && |Split(strings[pos..])| == 2 * count
    ensures end <= |strings| && |Split(strings[end..])| == 2 * (count - 1)
    ensures Pair(Split(strings[pos..])) == [kv] + Pair(Split(strings[end..]))
  {
    hide Split, Pair;
    EndOfStrings(strings, pos);
    var key, mid := NextString(strings, pos);
    EndOfStrings(strings, mid);
    var val;
    val, end := NextString(strings, mid);
    kv := (key, val);
    PairStep(key, val, Split(strings[end..]));
  }

  /** The loop of cache_entry_to_ti. */
  method ReadComments(strings: seq<Byte>, start: nat, count: nat) returns (comments: seq<(Str, Str)>)
    requires start <= |strings| && Terminated(strings) && |Split(strings[start..])| == 2 * count
    ensures comments == Pair(Split(strings[start..]))
  {
    hide Split, Pair;
    var pos: nat := start;
    comments := [];
    var i: nat := 0;
    while i < count
      invariant i <= count && pos <= |strings| && |Split(strings[pos..])| == 2 * (count - i)
      invariant comments + Pair(Split(strings[pos..])) == Pair(Split(strings[start..]))
    {
      var kv;
      kv, pos := NextPair(strings, pos, count - i);
      Assoc(comments, [kv], Pair(Split(strings[pos..])));
      comments := comments + [kv];
      i := i + 1;
    }
  }

  lemma DecodeIs(e: seq<Byte>, filename: Str, rest: seq<Str>)
    requires ValidEntry(e) && Split(e[ENTRY_SIZE..SizeField(e)]) == [filename] + rest
    ensures Decode(e) == Record(filename, Signed(Get32(e[4..8]), 0x1_0000_0000),
                                Signed(Get64(e[8..16]), 0x1_0000_0000_0000_0000), Pair(rest))
  {
    hide Split, Pair, Get32, Get64, Signed;
    assert ([filename] + rest)[1..] == rest;
  }

  /** cache_entry_to_ti: every access stays inside the entry. */
  method CacheEntryToTi(e: seq<Byte>) returns (r: Record)
    requires ValidEntry(e)
    ensures r == Decode(e)
  {
    hide Split, CountNul, SizeField, Get32, Get64, Pair, ValidEntry, Decode, Signed, Unsigned;
    EntryBounds(e);
    var strings := e[ENTRY_SIZE..SizeField(e)];
    var filename, comments := ReadStrings(strings);
    r := Record(filename, Signed(Get32(e[4..8]), 0x1_0000_0000),
                Signed(Get64(e[8..16]), 0x1_0000_0000_0000_0000), comments);
    DecodeIs(e, filename, Split(strings)[1..]);
  }

  lemma EntryBounds(e: seq<Byte>)
    requires ValidEntry(e)
    ensures 16 <= ENTRY_SIZE < SizeField(e) <= |e|
    ensures Terminated(e[ENTRY_SIZE..SizeField(e)]) && |Split(e[ENTRY_SIZE..SizeField(e)])| % 2 == 1
  {
    hide Split, CountNul, SizeField;
    ValidHasStrings(e);
  }

  /** The filename and the comments of an entry. */
  method ReadStrings(strings: seq<Byte>) returns (filename: Str, comments: seq<(Str, Str)>)
    requires strings != [] && Terminated(strings) && |Split(strings)| % 2 == 1
    ensures Split(strings) == [filename] + Split(strings)[1..] && comments == Pair(Split(strings)[1..])
  {
    hide Split, CountNul, Pair;
    CountIsSplit(strings);
    var count := CountStrings(strings);
    count := (count - 1) / 2;
    assert strings[0..] == strings;
    var pos;
    filename, pos := NextString(strings, 0);
    assert Split(strings)[1..] == Split(strings[pos..]);
    comments := ReadComments(strings, pos, count);
  }

  lemma EndOfStrings(strings: seq<Byte>, pos: nat)
    requires pos <= |strings| && Split(strings[pos..]) != []
    ensures pos < |strings|
  {
  }

  lemma PairStep(key: Str, val: Str, rest: seq<Str>)
    ensures Pair([key] + ([val] + rest)) == [(key, val)] + Pair(rest)
  {
    assert ([key] + ([val] + rest))[2..] == rest;
  }
}

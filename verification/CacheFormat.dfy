/** The track cache file of cache.c on a 64-bit little-endian machine: its bytes, and what
    reading them gives. */
module CacheFormat {
  import opened Bytes
  import opened Sequences

  /** A C string without its terminator. */
  type Str = seq<Byte>

  const NUL: Byte := 0
  const ENTRY_SIZE := 16    // sizeof(struct cache_entry)
  const MAX_PAIRS := 32     // what len[65] in write_ti has room for

  datatype Record = Record(filename: Str, duration: int, mtime: int, comments: seq<(Str, Str)>)

  predicate IsNul(b: Byte) {
    b == NUL
  }

  predicate Clean(s: Str) {
    forall i :: 0 <= i < |s| ==> s[i] != NUL
  }

  /** What a track_info can hold, with at most 32 comments. */
  ghost predicate RecordOk(r: Record) {
    && Clean(r.filename) && |r.comments| <= MAX_PAIRS
    && (forall i :: 0 <= i < |r.comments| ==> Clean(r.comments[i].0) && Clean(r.comments[i].1))
    && -0x8000_0000 <= r.duration < 0x8000_0000
    && -0x8000_0000_0000_0000 <= r.mtime < 0x8000_0000_0000_0000
  }

  // ---- integers

  function Put32(n: nat): (s: seq<Byte>)
    requires n < 0x1_0000_0000
    ensures |s| == 4
  {
    [n % 256, n / 256 % 256, n / 65536 % 256, n / 16777216]
  }

  function Get32(s: seq<Byte>): (n: nat)
    requires |s| == 4
    ensures n < 0x1_0000_0000
  {
    var a: int, b: int, c: int, d: int := s[0], s[1], s[2], s[3];
    a + 256 * b + 65536 * c + 16777216 * d
  }

  lemma GetPut32(n: nat)
    requires n < 0x1_0000_0000
    ensures Get32(Put32(n)) == n
  {
    var a, b := n / 256, n / 65536;
    assert a == n / 256 && a / 256 == b;
    assert b / 256 == n / 16777216;
  }

  lemma Digit(a: nat, rest: nat)
    requires a < 256
    ensures (a + 256 * rest) % 256 == a && (a + 256 * rest) / 256 == rest
  {
  }

  lemma HighDigits(n: nat)
    ensures n / 65536 == n / 256 / 256 && n / 16777216 == n / 256 / 256 / 256
  {
  }

  lemma PutGet32(s: seq<Byte>)
    requires |s| == 4
    ensures Put32(Get32(s)) == s
  {
    var a: nat, b: nat, c: nat, d: nat := s[0], s[1], s[2], s[3];
    var n := Get32(s);
    assert n == a + 256 * (b + 256 * (c + 256 * d));
    Digit(a, b + 256 * (c + 256 * d));
    Digit(b, c + 256 * d);
    Digit(c, d);
    HighDigits(n);
    FourBytes(Put32(n), s);
  }

  lemma FourBytes(s: seq<Byte>, t: seq<Byte>)
    requires |s| == |t| == 4 && s[0] == t[0] && s[1] == t[1] && s[2] == t[2] && s[3] == t[3]
    ensures s == t
  {
  }

  /** Two's complement. */
  function Unsigned(i: int, width: int): (n: nat)
    requires -width <= 2 * i < width
  {
    if i < 0 then i + width else i
  }

  function Signed(n: nat, width: int): (i: int)
    requires n < width && width % 2 == 0
    ensures -width <= 2 * i < width && Unsigned(i, width) == n
  {
    if 2 * n < width then n else n - width
  }

  function Put64(n: nat): (s: seq<Byte>)
    requires n < 0x1_0000_0000_0000_0000
    ensures |s| == 8
  {
    Put32(n % 0x1_0000_0000) + Put32(n / 0x1_0000_0000)
  }

  function Get64(s: seq<Byte>): (n: nat)
    requires |s| == 8
    ensures n < 0x1_0000_0000_0000_0000
  {
    Get32(s[..4]) + 0x1_0000_0000 * Get32(s[4..])
  }

  lemma GetPut64(n: nat)
    requires n < 0x1_0000_0000_0000_0000
    ensures Get64(Put64(n)) == n
  {
    hide Put32, Get32;
    GetPut32(n % 0x1_0000_0000);
    GetPut32(n / 0x1_0000_0000);
    assert Put64(n)[..4] == Put32(n % 0x1_0000_0000) && Put64(n)[4..] == Put32(n / 0x1_0000_0000);
  }

  lemma PutGet64(s: seq<Byte>)
    requires |s| == 8
    ensures Put64(Get64(s)) == s
  {
    hide Put32, Get32;
    PutGet32(s[..4]);
    PutGet32(s[4..]);
    assert Get64(s) % 0x1_0000_0000 == Get32(s[..4]) && Get64(s) / 0x1_0000_0000 == Get32(s[4..]);
    assert s == s[..4] + s[4..];
  }

  // ---- strings

  /** Strings one after the other, each with its terminator. */
  function Join(strs: seq<Str>): seq<Byte> {
    if strs == [] then [] else strs[0] + [NUL] + Join(strs[1..])
  }

  function Len(s: seq<Byte>): (n: nat)
    ensures n <= |s|
  {
    First(s, IsNul)
  }

  /** The terminated strings that s begins with. */
  function Split(s: seq<Byte>): (strs: seq<Str>)
    ensures forall i :: 0 <= i < |strs| ==> Clean(strs[i])
  {
    var n := Len(s);
    if n == |s| then [] else [s[..n]] + Split(s[n + 1..])
  }

  function CountNul(s: seq<Byte>): nat {
    if s == [] then 0 else (if s[0] == NUL then 1 else 0) + CountNul(s[1..])
  }

  lemma LenOfJoined(a: Str, rest: seq<Byte>)
    requires Clean(a)
    ensures Len(a + [NUL] + rest) == |a|
    ensures (a + [NUL] + rest)[..|a|] == a && (a + [NUL] + rest)[|a| + 1..] == rest
  {
    FirstIs(a + [NUL] + rest, IsNul, |a|);
  }

  ghost predicate AllClean(strs: seq<Str>) {
    forall i :: 0 <= i < |strs| ==> Clean(strs[i])
  }

  lemma {:induction false} SplitJoin(strs: seq<Str>)
    requires AllClean(strs)
    ensures Split(Join(strs)) == strs
  {
    if strs != [] {
      LenOfJoined(strs[0], Join(strs[1..]));
      SplitJoin(strs[1..]);
      hide Join, Len;
      assert strs == [strs[0]] + strs[1..];
    }
  }

  /** A sequence that ends in a terminator, or nothing. */
  predicate Terminated(s: seq<Byte>) {
    s == [] || s[|s| - 1] == NUL
  }

  /** The first string of s and what follows it. */
  lemma FirstString(s: seq<Byte>)
    ensures Clean(s[..Len(s)])
    ensures Len(s) < |s| ==> s[Len(s)] == NUL && s == s[..Len(s)] + [NUL] + s[Len(s) + 1..]
    ensures Terminated(s) && s != [] ==> Len(s) < |s| && Terminated(s[Len(s) + 1..])
  {
    if s != [] {
      assert IsNul(s[|s| - 1]) <==> s[|s| - 1] == NUL;
    }
  }

  lemma JoinCons(a: Str, strs: seq<Str>)
    ensures Join([a] + strs) == a + [NUL] + Join(strs)
  {
    assert ([a] + strs)[1..] == strs;
  }

  lemma {:induction false} JoinSplit(s: seq<Byte>)
    requires Terminated(s)
    ensures Join(Split(s)) == s
    decreases |s|
  {
    hide Len, Join, Clean;
    FirstString(s);
    if s == [] {
      assert Join([]) == [] by { JoinNone(); }
    } else {
      var n := Len(s);
      JoinSplit(s[n + 1..]);
      JoinCons(s[..n], Split(s[n + 1..]));
    }
  }

  lemma JoinNone()
    ensures Join([]) == []
  {
  }

  lemma {:induction false} CountConcat(s: seq<Byte>, t: seq<Byte>)
    ensures CountNul(s + t) == CountNul(s) + CountNul(t)
  {
    if s == [] {
      assert s + t == t;
    } else {
      CountConcat(s[1..], t);
      assert (s + t)[1..] == s[1..] + t && (s + t)[0] == s[0];
    }
  }

  lemma {:induction false} CountClean(s: Str)
    requires Clean(s)
    ensures CountNul(s) == 0
  {
    if s != [] {
      CountClean(s[1..]);
    }
  }

  /** As many terminators as strings. */
  lemma {:induction false} CountIsSplit(s: seq<Byte>)
    ensures CountNul(s) == |Split(s)|
    decreases |s|
  {
    hide Len, Clean, CountNul;
    var n := Len(s);
    FirstString(s);
    CountClean(s[..n]);
    if n == |s| {
      assert s[..n] == s;
    } else {
      CountIsSplit(s[n + 1..]);
      CountConcat(s[..n] + [NUL], s[n + 1..]);
      CountConcat(s[..n], [NUL]);
      CountOne();
    }
  }

  lemma CountOne()
    ensures CountNul([NUL]) == 1
  {
    assert CountNul([NUL][1..]) == 0;
  }

  lemma {:induction false} JoinTerminated(strs: seq<Str>)
    ensures Terminated(Join(strs)) && (strs != [] ==> Join(strs) != [])
  {
    if strs != [] {
      JoinTerminated(strs[1..]);
    }
  }

  // ---- comments

  function Unpair(pairs: seq<(Str, Str)>): (strs: seq<Str>)
    ensures |strs| == 2 * |pairs|
  {
    if pairs == [] then [] else [pairs[0].0, pairs[0].1] + Unpair(pairs[1..])
  }

  function Pair(strs: seq<Str>): (pairs: seq<(Str, Str)>)
    ensures |pairs| == |strs| / 2
  {
    if |strs| < 2 then [] else [(strs[0], strs[1])] + Pair(strs[2..])
  }

  lemma {:induction false} PairUnpair(pairs: seq<(Str, Str)>)
    ensures Pair(Unpair(pairs)) == pairs
  {
    if pairs != [] {
      PairUnpair(pairs[1..]);
      assert ([pairs[0].0, pairs[0].1] + Unpair(pairs[1..]))[2..] == Unpair(pairs[1..]);
    }
  }

  lemma {:induction false} UnpairPair(strs: seq<Str>)
    requires |strs| % 2 == 0
    ensures Unpair(Pair(strs)) == strs
  {
    if strs != [] {
      UnpairPair(strs[2..]);
      assert strs == [strs[0], strs[1]] + strs[2..];
      assert ([(strs[0], strs[1])] + Pair(strs[2..]))[1..] == Pair(strs[2..]);
    }
  }

  lemma {:induction false} UnpairClean(pairs: seq<(Str, Str)>)
    requires forall i :: 0 <= i < |pairs| ==> Clean(pairs[i].0) && Clean(pairs[i].1)
    ensures AllClean(Unpair(pairs))
  {
    if pairs != [] {
      UnpairClean(pairs[1..]);
    }
  }

  // ---- one entry

  function Strings(r: Record): seq<Byte> {
    Join([r.filename] + Unpair(r.comments))
  }

  /** The bytes of an entry, without padding. */
  function EntryBytes(r: Record): (s: seq<Byte>)
    requires -0x8000_0000 <= r.duration < 0x8000_0000 && -0x8000_0000_0000_0000 <= r.mtime < 0x8000_0000_0000_0000
    requires ENTRY_SIZE + |Strings(r)| < 0x1_0000_0000
    ensures |s| == ENTRY_SIZE + |Strings(r)|
  {
    Put32(ENTRY_SIZE + |Strings(r)|) + Put32(Unsigned(r.duration, 0x1_0000_0000))
    + Put64(Unsigned(r.mtime, 0x1_0000_0000_0000_0000)) + Strings(r)
  }

  /** e->size */
  function SizeField(s: seq<Byte>): nat
    requires |s| >= ENTRY_SIZE
  {
    Get32(s[..4])
  }

  /** valid_cache_entry: s is what remains of the file. */
  predicate ValidEntry(s: seq<Byte>) {
    && |s| >= ENTRY_SIZE && ENTRY_SIZE <= SizeField(s) <= |s|
    && CountNul(s[ENTRY_SIZE..SizeField(s)]) % 2 == 1
    && s[SizeField(s) - 1] == NUL
  }

  lemma ValidHasStrings(s: seq<Byte>)
    requires ValidEntry(s)
    ensures SizeField(s) > ENTRY_SIZE && Terminated(s[ENTRY_SIZE..SizeField(s)])
    ensures |Split(s[ENTRY_SIZE..SizeField(s)])| % 2 == 1
  {
    var t := s[ENTRY_SIZE..SizeField(s)];
    CountIsSplit(t);
    assert t != [];
    assert t[|t| - 1] == s[SizeField(s) - 1];
  }

  /** cache_entry_to_ti */
  function Decode(s: seq<Byte>): Record
    requires ValidEntry(s)
  {
    ValidHasStrings(s);
    var strs := Split(s[ENTRY_SIZE..SizeField(s)]);
    Record(strs[0], Signed(Get32(s[4..8]), 0x1_0000_0000), Signed(Get64(s[8..16]), 0x1_0000_0000_0000_0000),
           Pair(strs[1..]))
  }

  /** The parts of an entry followed by anything. */
  lemma EntryParts(r: Record, rest: seq<Byte>)
    requires RecordOk(r) && ENTRY_SIZE + |Strings(r)| < 0x1_0000_0000
    ensures var s := EntryBytes(r) + rest;
            && |s| >= ENTRY_SIZE && SizeField(s) == |EntryBytes(r)|
            && s[4..8] == Put32(Unsigned(r.duration, 0x1_0000_0000))
            && s[8..16] == Put64(Unsigned(r.mtime, 0x1_0000_0000_0000_0000))
            && s[ENTRY_SIZE..SizeField(s)] == Strings(r)
  {
    hide Put32, Put64, Get32, Strings, Clean;
    var s := EntryBytes(r) + rest;
    GetPut32(ENTRY_SIZE + |Strings(r)|);
    assert s[..4] == Put32(ENTRY_SIZE + |Strings(r)|);
  }

  lemma StringsSplit(r: Record)
    requires RecordOk(r)
    ensures Split(Strings(r)) == [r.filename] + Unpair(r.comments)
    ensures Terminated(Strings(r)) && Strings(r) != [] && CountNul(Strings(r)) == 1 + 2 * |r.comments|
  {
    var strs := [r.filename] + Unpair(r.comments);
    UnpairClean(r.comments);
    SplitJoin(strs);
    JoinTerminated(strs);
    CountIsSplit(Strings(r));
  }

  lemma SignedUnsigned(i: int, width: int)
    requires -width <= 2 * i < width && width % 2 == 0
    ensures Unsigned(i, width) < width && Signed(Unsigned(i, width), width) == i
  {
  }

  lemma ValidFrom(s: seq<Byte>, t: seq<Byte>)
    requires |s| >= ENTRY_SIZE && ENTRY_SIZE <= SizeField(s) <= |s| && s[ENTRY_SIZE..SizeField(s)] == t
    requires t != [] && Terminated(t) && CountNul(t) % 2 == 1
    ensures ValidEntry(s)
  {
    hide SizeField, CountNul;
    assert s[SizeField(s) - 1] == t[|t| - 1];
  }

  lemma EntryValid(r: Record, rest: seq<Byte>)
    requires RecordOk(r) && ENTRY_SIZE + |Strings(r)| < 0x1_0000_0000
    ensures ValidEntry(EntryBytes(r) + rest)
  {
    hide Strings, EntryBytes, CountNul, Split, Unpair, SizeField, ValidEntry, Clean, Terminated, Put32, Put64, Get32;
    EntryParts(r, rest);
    StringsSplit(r);
    ValidFrom(EntryBytes(r) + rest, Strings(r));
  }

  /** Every entry written is accepted, whatever follows it, and gives the record back. */
  lemma DecodeEntry(r: Record, rest: seq<Byte>)
    requires RecordOk(r) && ENTRY_SIZE + |Strings(r)| < 0x1_0000_0000
    ensures ValidEntry(EntryBytes(r) + rest) && Decode(EntryBytes(r) + rest) == r
  {
    var s := EntryBytes(r) + rest;
    EntryValid(r, rest);
    EntryParts(r, rest);
    StringsSplit(r);
    hide Put32, Put64, Get32, Get64, Strings, EntryBytes, Split, CountNul, Unpair, Pair, SizeField, ValidEntry, Clean;
    SignedUnsigned(r.duration, 0x1_0000_0000);
    SignedUnsigned(r.mtime, 0x1_0000_0000_0000_0000);
    GetPut32(Unsigned(r.duration, 0x1_0000_0000));
    GetPut64(Unsigned(r.mtime, 0x1_0000_0000_0000_0000));
    PairUnpair(r.comments);
    assert ([r.filename] + Unpair(r.comments))[1..] == Unpair(r.comments);
  }

  lemma StringsDecoded(s: seq<Byte>)
    requires ValidEntry(s)
    ensures Strings(Decode(s)) == s[ENTRY_SIZE..SizeField(s)]
  {
    var t := s[ENTRY_SIZE..SizeField(s)];
    ValidHasStrings(s);
    hide Split, Join, Unpair, Pair, CountNul, SizeField;
    var strs := Split(t);
    UnpairPair(strs[1..]);
    assert strs == [strs[0]] + strs[1..];
    JoinSplit(t);
  }

  lemma FourParts(s: seq<Byte>, n: nat)
    requires ENTRY_SIZE <= n <= |s|
    ensures s[..n] == s[..4] + s[4..8] + s[8..16] + s[ENTRY_SIZE..n]
  {
  }

  /** No byte of an accepted entry is ignored: writing the record again gives the same bytes. */
  lemma EncodeDecoded(s: seq<Byte>)
    requires ValidEntry(s)
    ensures ENTRY_SIZE + |Strings(Decode(s))| == SizeField(s)
    ensures EntryBytes(Decode(s)) == s[..SizeField(s)]
  {
    var n, r := SizeField(s), Decode(s);
    var t := s[ENTRY_SIZE..n];
    ValidHasStrings(s);
    StringsDecoded(s);
    hide Strings, Put32, Put64, Get32, Get64, Split, Join, CountNul, Unpair, Pair;
    PutGet32(s[..4]);
    PutGet32(s[4..8]);
    PutGet64(s[8..16]);
    FourParts(s, n);
  }

  // ---- the file

  /** cache_header: "CTC", version 1, and the flag for 64-bit longs. */
  const HEADER: seq<Byte> := [67, 84, 67, 1, 0, 0, 0, 1]

  function Align(n: nat): (a: nat)
    ensures n <= a < n + 8 && a % 8 == 0
  {
    (n + 7) / 8 * 8
  }

  function Zeros(n: nat): (s: seq<Byte>)
    ensures |s| == n
  {
    seq(n, _ => NUL)
  }

  /** The record can be written: its sizes fit their fields. */
  ghost predicate Writable(r: Record) {
    RecordOk(r) && ENTRY_SIZE + |Strings(r)| < 0x1_0000_0000
  }

  ghost predicate AllWritable(rs: seq<Record>) {
    forall i :: 0 <= i < |rs| ==> Writable(rs[i])
  }

  ghost function Entry(r: Record): (s: seq<Byte>)
    requires Writable(r)
    ensures |s| == ENTRY_SIZE + |Strings(r)|
  {
    EntryBytes(r)
  }

  /** Entries from file position offset on, each padded in front. */
  ghost function Body(offset: nat, rs: seq<Record>): seq<Byte>
    requires AllWritable(rs)
    decreases |rs|
  {
    if rs == [] then [] else
    assert Writable(rs[0]);
    var a := Align(offset);
    Zeros(a - offset) + Entry(rs[0]) + Body(a + |Entry(rs[0])|, rs[1..])
  }

  ghost function FileBytes(rs: seq<Record>): seq<Byte>
    requires AllWritable(rs)
  {
    HEADER + Body(|HEADER|, rs)
  }

  /** The reading loop of read_cache: the records up to the end or the first bad entry, and
      whether the end was reached. */
  function ReadEntries(buf: seq<Byte>, offset: nat): (seq<Record>, bool)
    decreases |buf| - offset
  {
    if offset >= |buf| then ([], true)
    else if !ValidEntry(buf[offset..]) then ([], false)
    else
      var (rs, ok) := ReadEntries(buf, offset + Align(SizeField(buf[offset..])));
      ([Decode(buf[offset..])] + rs, ok)
  }

  function ReadFile(buf: seq<Byte>): (seq<Record>, bool) {
    if |buf| < |HEADER| || buf[..|HEADER|] != HEADER then ([], false) else ReadEntries(buf, |HEADER|)
  }

  lemma AlignSum(a: nat, n: nat)
    requires a % 8 == 0
    ensures Align(a + n) == a + Align(n)
  {
  }

  lemma BodyParts(pre: seq<Byte>, z: seq<Byte>, e: seq<Byte>, rest: seq<Byte>)
    ensures pre + (z + e + rest) == (pre + z + e) + rest
    ensures |pre + (z + e + rest)| == |pre| + |z| + |e| + |rest|
    ensures (pre + (z + e + rest))[|pre| + |z|..] == e + rest
  {
  }

  lemma EntryRead(r: Record, rest: seq<Byte>)
    requires Writable(r)
    ensures ValidEntry(Entry(r) + rest) && Decode(Entry(r) + rest) == r && SizeField(Entry(r) + rest) == |Entry(r)|
  {
    DecodeEntry(r, rest);
    EntryParts(r, rest);
  }

  /** One step of reading. */
  lemma ReadOne(buf: seq<Byte>, offset: nat, r: Record, rest: seq<Byte>)
    requires Writable(r) && offset <= |buf| && buf[offset..] == Entry(r) + rest
    ensures var (rs, ok) := ReadEntries(buf, offset + Align(|Entry(r)|));
            ReadEntries(buf, offset) == ([r] + rs, ok)
  {
    hide Entry, Decode, ValidEntry, SizeField, Align, Writable, ReadEntries;
    EntryRead(r, rest);
    assert |buf[offset..]| == |Entry(r)| + |rest|;
    ReadNext(buf, offset);
  }

  lemma ReadNext(buf: seq<Byte>, offset: nat)
    requires offset < |buf| && ValidEntry(buf[offset..])
    ensures var (rs, ok) := ReadEntries(buf, offset + Align(SizeField(buf[offset..])));
            ReadEntries(buf, offset) == ([Decode(buf[offset..])] + rs, ok)
  {
    hide Decode, ValidEntry, SizeField, Align;
  }

  lemma ReadEnd(pre: seq<Byte>)
    ensures Body(|pre|, []) == [] && ReadEntries(pre, Align(|pre|)) == ([], true)
  {
  }

  lemma BodyCons(offset: nat, r: Record, rs: seq<Record>)
    requires Writable(r) && AllWritable(rs)
    ensures AllWritable([r] + rs)
    ensures Body(offset, [r] + rs) == Zeros(Align(offset) - offset) + Entry(r) + Body(Align(offset) + |Entry(r)|, rs)
  {
    hide Writable, Entry, Align;
    assert ([r] + rs)[1..] == rs;
  }

  lemma {:induction false} ReadBody(pre: seq<Byte>, rs: seq<Record>)
    requires AllWritable(rs)
    ensures ReadEntries(pre + Body(|pre|, rs), Align(|pre|)) == (rs, true)
    decreases |rs|
  {
    hide Entry, Align, Writable, ReadEntries, Body;
    if rs == [] {
      ReadEnd(pre);
      assert pre + [] == pre;
    } else {
      assert Writable(rs[0]);
      assert rs == [rs[0]] + rs[1..];
      BodyCons(|pre|, rs[0], rs[1..]);
      ReadCons(pre, rs[0], rs[1..]);
      ReadBody(pre + Zeros(Align(|pre|) - |pre|) + Entry(rs[0]), rs[1..]);
    }
  }

  lemma ReadCons(pre: seq<Byte>, r: Record, rs: seq<Record>)
    requires Writable(r) && AllWritable(rs)
    ensures var a := Align(|pre|);
            var next := pre + Zeros(a - |pre|) + Entry(r);
            var buf := pre + (Zeros(a - |pre|) + Entry(r) + Body(a + |Entry(r)|, rs));
            var (more, ok) := ReadEntries(next + Body(|next|, rs), Align(|next|));
            ReadEntries(buf, a) == ([r] + more, ok)
  {
    hide Entry, Align, Writable, ReadEntries, Body;
    var a := Align(|pre|);
    var rest := Body(a + |Entry(r)|, rs);
    BodyParts(pre, Zeros(a - |pre|), Entry(r), rest);
    ReadOne(pre + (Zeros(a - |pre|) + Entry(r) + rest), a, r, rest);
    AlignSum(a, |Entry(r)|);
  }

  /** Reading the file that was written gives the records back. */
  lemma RoundTrip(rs: seq<Record>)
    requires AllWritable(rs)
    ensures ReadFile(FileBytes(rs)) == (rs, true)
  {
    hide ReadEntries, Body;
    ReadBody(HEADER, rs);
    assert FileBytes(rs)[..|HEADER|] == HEADER;
  }

  /** Records that were written are read, whatever stands behind them; reading goes on there. */
  lemma {:induction false} ReadBodyThen(pre: seq<Byte>, rs: seq<Record>, t: seq<Byte>)
    requires AllWritable(rs)
    ensures var buf, end := pre + Body(|pre|, rs) + t, Align(|pre| + |Body(|pre|, rs)|);
            var (more, ok) := ReadEntries(buf, end);
            ReadEntries(buf, Align(|pre|)) == (rs + more, ok)
    decreases |rs|
  {
    hide Entry, Align, Writable, ReadEntries, Body;
    if rs == [] {
      NoBody(|pre|);
      assert [] + ReadEntries(pre + [] + t, Align(|pre|)).0 == ReadEntries(pre + [] + t, Align(|pre|)).0;
    } else {
      var r, rs' := rs[0], rs[1..];
      assert Writable(r) && rs == [r] + rs';
      var a := Align(|pre|);
      var z := Zeros(a - |pre|);
      var next := pre + z + Entry(r);
      var body := Body(|next|, rs');
      BodyCons(|pre|, r, rs');
      FiveParts(pre, z, Entry(r), body, t);
      ReadOne(next + body + t, a, r, body + t);
      AlignSum(a, |Entry(r)|);
      ReadBodyThen(next, rs', t);
      Assoc([r], rs', ReadEntries(next + body + t, Align(|next| + |body|)).0);
    }
  }

  lemma NoBody(offset: nat)
    ensures Body(offset, []) == []
  {
  }

  lemma FiveParts(pre: seq<Byte>, z: seq<Byte>, e: seq<Byte>, body: seq<Byte>, t: seq<Byte>)
    ensures pre + (z + e + body) + t == pre + z + e + body + t
    ensures (pre + z + e + body + t)[|pre| + |z|..] == e + (body + t)
  {
  }

  /** A file that goes on with something that is no entry gives its records and is reported; so is a
      file that does not begin with the header, which gives none. */
  lemma CorruptFile(rs: seq<Record>, junk: seq<Byte>, other: seq<Byte>)
    requires AllWritable(rs) && junk != [] && !ValidEntry(junk)
    requires |other| < |HEADER| || other[..|HEADER|] != HEADER
    ensures var file := FileBytes(rs); ReadFile(file + Zeros(Align(|file|) - |file|) + junk) == (rs, false)
    ensures ReadFile(other) == ([], false)
  {
    hide ReadEntries, Body, ValidEntry, Align, Writable;
    var file := FileBytes(rs);
    var z := Zeros(Align(|file|) - |file|);
    var buf := file + z + junk;
    Assoc(file, z, junk);
    ReadBodyThen(HEADER, rs, z + junk);
    assert buf[..|HEADER|] == HEADER && buf[Align(|file|)..] == junk;
    BadEntry(buf, Align(|file|));
    assert rs + [] == rs;
    assert Align(|HEADER|) == |HEADER| by { HeaderAligned(); }
  }

  lemma BadEntry(buf: seq<Byte>, offset: nat)
    requires offset < |buf| && !ValidEntry(buf[offset..])
    ensures ReadEntries(buf, offset) == ([], false)
  {
  }

  lemma HeaderAligned()
    ensures Align(|HEADER|) == |HEADER|
  {
  }

  /** Four bytes, the lowest first. */
  function Value(a: int, b: int, c: int, d: int): int {
    a + 0x100 * b + 0x1_0000 * c + 0x100_0000 * d
  }

  /** The layout of an entry: the size, duration and time with their lowest byte first, then the
      strings. */
  lemma EntryLayout(r: Record)
    requires Writable(r)
    ensures var e, size := Entry(r), ENTRY_SIZE + |Strings(r)|;
            && |e| == size && e[16..] == Strings(r)
            && Value(e[0], e[1], e[2], e[3]) == size
            && (Value(e[4], e[5], e[6], e[7]) - r.duration) % 0x1_0000_0000 == 0
            && var m := Value(e[8], e[9], e[10], e[11]) + 0x1_0000_0000 * Value(e[12], e[13], e[14], e[15]);
               (m - r.mtime) % 0x1_0000_0000_0000_0000 == 0
  {
    hide Strings, Put32, Get32, Put64, Get64, Unsigned, Value, Entry;
    var e, d := Entry(r), Unsigned(r.duration, 0x1_0000_0000);
    EntrySlices(r);
    Unsigned32(r.duration);
    Unsigned64(r.mtime);
    LittleEndian(ENTRY_SIZE + |Strings(r)|, e[..4]);
    LittleEndian(d, e[4..8]);
    GetPut64(Unsigned(r.mtime, 0x1_0000_0000_0000_0000));
    HalvesOf64(e[8..16]);
  }

  lemma EntrySlices(r: Record)
    requires Writable(r)
    ensures var e := Entry(r);
            && |e| == ENTRY_SIZE + |Strings(r)| && e[16..] == Strings(r)
            && e[..4] == Put32(ENTRY_SIZE + |Strings(r)|)
            && e[4..8] == Put32(Unsigned(r.duration, 0x1_0000_0000))
            && e[8..16] == Put64(Unsigned(r.mtime, 0x1_0000_0000_0000_0000))
  {
    hide Strings, Put32, Put64, Unsigned;
  }

  lemma Unsigned32(i: int)
    requires -0x8000_0000 <= i < 0x8000_0000
    ensures Unsigned(i, 0x1_0000_0000) < 0x1_0000_0000
    ensures (Unsigned(i, 0x1_0000_0000) - i) % 0x1_0000_0000 == 0
  {
  }

  lemma Unsigned64(i: int)
    requires -0x8000_0000_0000_0000 <= i < 0x8000_0000_0000_0000
    ensures Unsigned(i, 0x1_0000_0000_0000_0000) < 0x1_0000_0000_0000_0000
    ensures (Unsigned(i, 0x1_0000_0000_0000_0000) - i) % 0x1_0000_0000_0000_0000 == 0
  {
  }

  lemma LittleEndian(n: nat, s: seq<Byte>)
    requires n < 0x1_0000_0000 && s == Put32(n)
    ensures Value(s[0], s[1], s[2], s[3]) == n
  {
    GetPut32(n);
  }

  lemma HalvesOf64(s: seq<Byte>)
    requires |s| == 8
    ensures Get64(s) == Value(s[0], s[1], s[2], s[3]) + 0x1_0000_0000 * Value(s[4], s[5], s[6], s[7])
  {
  }
}

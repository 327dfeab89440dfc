/** The chunk ring of buffer.c as a value: what each mutex section does to it, and the FIFO
    byte queue it stands for. */
module Ring {
  import opened Bytes
  import Sequences

  const CHUNK_SIZE := 65536
  const MIN_FREE := 1024

  /** struct chunk: data[l..h] is filled; a chunk marked filled belongs to the consumer. */
  datatype Chunk = Chunk(data: seq<Byte>, l: nat, h: nat, filled: bool)

  datatype Ring = Ring(chunks: seq<Chunk>, ridx: nat, widx: nat)

  predicate ChunkOk(c: Chunk) {
    |c.data| == CHUNK_SIZE && c.l <= c.h <= CHUNK_SIZE && (c.filled ==> c.l < c.h) && (!c.filled ==> c.l == 0)
  }

  predicate EmptyChunk(c: Chunk) {
    !c.filled && c.l == 0 && c.h == 0
  }

  /** Index i of a ring of n chunks, for i < 2n. */
  function Wrap(i: nat, n: nat): nat {
    if i < n then i else i - n
  }

  /** The chunks in reading order. */
  function Order(r: Ring): (o: seq<Chunk>)
    requires r.ridx < |r.chunks|
    ensures |o| == |r.chunks|
    ensures forall k :: 0 <= k < |o| ==> o[k] == r.chunks[Wrap(r.ridx + k, |o|)]
  {
    r.chunks[r.ridx..] + r.chunks[..r.ridx]
  }

  /** In reading order: cnt filled chunks (only the first partly consumed), then the chunk
      being written with room for at least MIN_FREE bytes, then empty chunks. */
  predicate Shape(o: seq<Chunk>, cnt: nat) {
    && cnt <= |o|
    && (forall k :: 0 <= k < |o| ==> ChunkOk(o[k]))
    && (forall k :: 0 <= k < cnt ==> o[k].filled)
    && (forall k :: 0 < k < cnt ==> o[k].l == 0)
    && (cnt < |o| ==> !o[cnt].filled && o[cnt].h <= CHUNK_SIZE - MIN_FREE)
    && (forall k :: cnt < k < |o| ==> EmptyChunk(o[k]))
  }

  /** The ring with cnt filled chunks is consistent. */
  predicate Good(r: Ring, cnt: nat) {
    && r.ridx < |r.chunks|
    && Shape(Order(r), cnt)
    && r.widx == Wrap(r.ridx + cnt, |r.chunks|)
  }

  /** The unread bytes of filled chunks, in order. */
  function Filled(o: seq<Chunk>): seq<Byte>
    requires forall k :: 0 <= k < |o| ==> ChunkOk(o[k])
  {
    if o == [] then [] else
    assert ChunkOk(o[0]);
    o[0].data[o[0].l..o[0].h] + Filled(o[1..])
  }

  /** The queue: everything filled and not yet consumed. */
  function Contents(r: Ring, cnt: nat): seq<Byte>
    requires Good(r, cnt)
  {
    var o := Order(r);
    Filled(o[..cnt]) + (if cnt < |o| then o[cnt].data[..o[cnt].h] else [])
  }

  // ---- the mutex sections

  /** buffer_reset */
  function Reset(r: Ring): Ring {
    Ring(seq(|r.chunks|, i requires 0 <= i < |r.chunks| => r.chunks[i].(l := 0, h := 0, filled := false)), 0, 0)
  }

  /** buffer_get_rpos: how many bytes can be read at data[l] of chunk ridx. */
  function ReadSize(r: Ring): nat
    requires r.ridx < |r.chunks| && ChunkOk(r.chunks[r.ridx])
  {
    var c := r.chunks[r.ridx];
    if c.filled then c.h - c.l else 0
  }

  /** buffer_get_wpos: how many bytes can be written at data[h] of chunk widx. */
  function WriteSize(r: Ring): nat
    requires r.widx < |r.chunks| && ChunkOk(r.chunks[r.widx])
  {
    var c := r.chunks[r.widx];
    if c.filled then 0 else CHUNK_SIZE - c.h
  }

  /** buffer_consume */
  function Consume(r: Ring, count: nat): Ring
    requires r.ridx < |r.chunks|
  {
    var c := r.chunks[r.ridx];
    if c.l + count == c.h then
      Ring(r.chunks[r.ridx := c.(l := 0, h := 0, filled := false)], (r.ridx + 1) % |r.chunks|, r.widx)
    else
      r.(chunks := r.chunks[r.ridx := c.(l := c.l + count)])
  }

  /** Whether buffer_fill closes the chunk. */
  predicate Closes(c: Chunk, count: nat) {
    CHUNK_SIZE - (c.h + count) < MIN_FREE || (count == 0 && c.h > 0)
  }

  /** buffer_fill */
  function Fill(r: Ring, count: nat): Ring
    requires r.widx < |r.chunks|
  {
    var c := r.chunks[r.widx];
    var c' := c.(h := c.h + count);
    if Closes(c, count) then
      Ring(r.chunks[r.widx := c'.(filled := true)], r.ridx, (r.widx + 1) % |r.chunks|)
    else
      r.(chunks := r.chunks[r.widx := c'])
  }

  /** buffer_get_filled_chunks */
  function FilledChunks(r: Ring): int
    requires r.ridx < |r.chunks|
  {
    if r.ridx < r.widx then r.widx - r.ridx
    else if r.ridx > r.widx then |r.chunks| - r.ridx + r.widx
    else if r.chunks[r.ridx].filled then |r.chunks| else 0
  }

  /** The unlocked copy of a byte to position k of chunk i. */
  function Poke(r: Ring, i: nat, k: nat, b: Byte): Ring
    requires i < |r.chunks| && k < |r.chunks[i].data|
  {
    var c := r.chunks[i];
    r.(chunks := r.chunks[i := c.(data := c.data[k := b])])
  }

  // ---- what they do to the queue

  lemma NextIndex(i: nat, n: nat)
    requires i < n
    ensures (i + 1) % n == Wrap(i + 1, n)
  {
    if i + 1 < n {
      SmallMod(i + 1, n);
    } else {
      assert n % n == 0;
    }
  }

  lemma SmallMod(i: nat, n: nat)
    requires i < n
    ensures i % n == i
  {
  }

  /** The number of filled chunks is determined by the ring, and counted correctly even when
      the two indexes meet. */
  lemma FilledChunksIsCount(r: Ring, cnt: nat)
    requires Good(r, cnt)
    ensures FilledChunks(r) == cnt
  {
    var o := Order(r);
    assert o[0] == r.chunks[r.ridx];
  }

  /** How many chunks are marked filled. */
  function CountFilled(s: seq<Chunk>): nat {
    if s == [] then 0 else (if s[0].filled then 1 else 0) + CountFilled(s[1..])
  }

  lemma {:induction false} CountFilledConcat(s: seq<Chunk>, t: seq<Chunk>)
    ensures CountFilled(s + t) == CountFilled(s) + CountFilled(t)
  {
    if s == [] {
      assert s + t == t;
    } else {
      CountFilledConcat(s[1..], t);
      assert (s + t)[1..] == s[1..] + t;
    }
  }

  lemma {:induction false} CountFilledShape(o: seq<Chunk>, cnt: nat)
    requires cnt <= |o| && (forall k :: 0 <= k < cnt ==> o[k].filled) && (forall k :: cnt <= k < |o| ==> !o[k].filled)
    ensures CountFilled(o) == cnt
  {
    if o != [] {
      CountFilledShape(o[1..], if cnt > 0 then cnt - 1 else 0);
    }
  }

  /** buffer_get_filled_chunks returns the number of chunks whose filled flag is set. */
  lemma FilledChunksCountsFlags(r: Ring, cnt: nat)
    requires Good(r, cnt)
    ensures FilledChunks(r) == CountFilled(r.chunks)
  {
    FilledChunksIsCount(r, cnt);
    CountFilledShape(Order(r), cnt);
    CountFilledConcat(r.chunks[r.ridx..], r.chunks[..r.ridx]);
    CountFilledConcat(r.chunks[..r.ridx], r.chunks[r.ridx..]);
    assert r.chunks == r.chunks[..r.ridx] + r.chunks[r.ridx..];
  }

  /** A non-zero write size is at least MIN_FREE; the size is zero exactly when every chunk
      is filled, and the read size is zero exactly when none is. */
  lemma Sizes(r: Ring, cnt: nat)
    requires Good(r, cnt)
    ensures r.widx < |r.chunks| && ChunkOk(r.chunks[r.widx]) && ChunkOk(r.chunks[r.ridx])
    ensures WriteSize(r) == 0 || WriteSize(r) >= MIN_FREE
    ensures cnt <= |r.chunks| && (WriteSize(r) == 0 <==> cnt == |r.chunks|)
    ensures ReadSize(r) == 0 <==> cnt == 0
  {
    var o, n := Order(r), |r.chunks|;
    assert o[0] == r.chunks[r.ridx];
    if cnt < n {
      assert o[cnt] == r.chunks[r.widx];
    } else {
      assert r.widx == r.ridx;
    }
  }

  // ---- chunks in reading order

  /** Replacing chunk Wrap(ridx + k) of the ring replaces the k-th chunk in reading order. */
  lemma OrderUpdate(r: Ring, k: nat, c: Chunk)
    requires r.ridx < |r.chunks| && k < |r.chunks|
    ensures var i := Wrap(r.ridx + k, |r.chunks|);
            i < |r.chunks| && Order(r.(chunks := r.chunks[i := c])) == Order(r)[k := c]
  {
    var i := Wrap(r.ridx + k, |r.chunks|);
    var o, o' := Order(r), Order(r.(chunks := r.chunks[i := c]));
    forall j | 0 <= j < |o| ensures o'[j] == o[k := c][j] {
    }
  }

  /** Advancing the read index moves the first chunk to the end. */
  lemma OrderAdvance(r: Ring)
    requires r.ridx < |r.chunks|
    ensures var r' := r.(ridx := Wrap(r.ridx + 1, |r.chunks|));
            r'.ridx < |r.chunks| && Order(r') == Order(r)[1..] + [Order(r)[0]]
  {
    var r' := r.(ridx := Wrap(r.ridx + 1, |r.chunks|));
    var o, o' := Order(r), Order(r');
    forall j | 0 <= j < |o| ensures o'[j] == (o[1..] + [o[0]])[j] {
      if j + 1 < |o| {
        assert o'[j] == r.chunks[Wrap(r'.ridx + j, |o|)] && o[j + 1] == r.chunks[Wrap(r.ridx + j + 1, |o|)];
      }
    }
  }

  ghost predicate AllOk(o: seq<Chunk>) {
    forall k :: 0 <= k < |o| ==> ChunkOk(o[k])
  }

  lemma {:induction false} FilledSnoc(o: seq<Chunk>, c: Chunk)
    requires AllOk(o) && ChunkOk(c)
    ensures AllOk(o + [c]) && Filled(o + [c]) == Filled(o) + c.data[c.l..c.h]
  {
    if o == [] {
      assert [c][1..] == [];
    } else {
      assert (o + [c])[1..] == o[1..] + [c] && (o + [c])[0] == o[0];
      FilledSnoc(o[1..], c);
      assert ChunkOk(o[0]);
      Sequences.Assoc(o[0].data[o[0].l..o[0].h], Filled(o[1..]), c.data[c.l..c.h]);
    }
  }

  /** The queue in terms of the reading order alone. */
  ghost function Queue(o: seq<Chunk>, cnt: nat): seq<Byte>
    requires Shape(o, cnt)
  {
    Filled(o[..cnt]) + (if cnt < |o| then o[cnt].data[..o[cnt].h] else [])
  }

  // ---- filling

  lemma FillOrder(o: seq<Chunk>, cnt: nat, count: nat)
    requires Shape(o, cnt) && cnt < |o| && o[cnt].h + count <= CHUNK_SIZE
    ensures var c := o[cnt];
            var c' := c.(h := c.h + count, filled := Closes(c, count));
            var cnt' := if Closes(c, count) then cnt + 1 else cnt;
            && Shape(o[cnt := c'], cnt')
            && Queue(o[cnt := c'], cnt') == Queue(o, cnt) + c.data[c.h..c.h + count]
  {
    var c := o[cnt];
    assert ChunkOk(c);
    var c' := c.(h := c.h + count, filled := Closes(c, count));
    var o' := o[cnt := c'];
    FillShape(o, cnt, c');
    assert o'[..cnt] == o[..cnt];
    assert c.data[..c.h + count] == c.data[..c.h] + c.data[c.h..c.h + count];
    Sequences.Assoc(Filled(o[..cnt]), c.data[..c.h], c.data[c.h..c.h + count]);
    if Closes(c, count) {
      assert o'[..cnt + 1] == o[..cnt] + [c'];
      FilledSnoc(o[..cnt], c');
      if cnt + 1 < |o| {
        assert EmptyChunk(o'[cnt + 1]) && o'[cnt + 1].data[..0] == [];
      }
    }
  }

  lemma FillShape(o: seq<Chunk>, cnt: nat, c': Chunk)
    requires Shape(o, cnt) && cnt < |o| && ChunkOk(c') && c'.l == 0
    requires !c'.filled ==> c'.h <= CHUNK_SIZE - MIN_FREE
    ensures Shape(o[cnt := c'], if c'.filled then cnt + 1 else cnt)
  {
    var o' := o[cnt := c'];
    forall k | 0 <= k < |o| ensures ChunkOk(o'[k]) {
      assert k != cnt ==> o'[k] == o[k] && ChunkOk(o[k]);
    }
    if c'.filled && cnt + 1 < |o| {
      assert EmptyChunk(o[cnt + 1]);
    }
  }

  lemma WriteChunk(r: Ring, cnt: nat)
    requires Good(r, cnt) && cnt < |r.chunks|
    ensures r.widx < |r.chunks| && Order(r)[cnt] == r.chunks[r.widx]
    ensures ChunkOk(r.chunks[r.widx]) && !r.chunks[r.widx].filled && r.chunks[r.widx].l == 0
  {
    assert Order(r)[cnt] == r.chunks[r.widx];
  }

  lemma WriteIndex(r: Ring, cnt: nat)
    requires Good(r, cnt) && cnt < |r.chunks|
    ensures r.ridx < |r.chunks| && r.widx == Wrap(r.ridx + cnt, |r.chunks|) < |r.chunks|
    ensures Wrap(r.widx + 1, |r.chunks|) == Wrap(r.ridx + (cnt + 1), |r.chunks|)
    ensures !r.chunks[r.widx].filled
  {
    WriteChunk(r, cnt);
  }

  lemma SameOrder(r: Ring, s: Ring)
    requires r.chunks == s.chunks && r.ridx == s.ridx < |r.chunks|
    ensures Order(r) == Order(s)
  {
  }

  lemma FillRing(r: Ring, cnt: nat, count: nat)
    requires Good(r, cnt) && cnt < |r.chunks| && r.widx < |r.chunks|
    ensures var c := r.chunks[r.widx];
            var r' := Fill(r, count);
            && |r'.chunks| == |r.chunks| && r'.ridx == r.ridx
            && r'.widx == Wrap(r.ridx + (if Closes(c, count) then cnt + 1 else cnt), |r.chunks|)
            && Order(r') == Order(r)[cnt := c.(h := c.h + count, filled := Closes(c, count))]
  {
    var c := r.chunks[r.widx];
    var c' := c.(h := c.h + count, filled := Closes(c, count));
    WriteIndex(r, cnt);
    hide Shape, ChunkOk, Order, Good, Closes;
    OrderUpdate(r, cnt, c');
    NextIndex(r.widx, |r.chunks|);
    var r' := Fill(r, count);
    assert r'.chunks == r.chunks[r.widx := c'] && r'.ridx == r.ridx;
    SameOrder(r', r.(chunks := r.chunks[r.widx := c']));
  }

  /** buffer_fill appends exactly the bytes that were written behind the queue. */
  lemma FillAppends(r: Ring, cnt: nat, count: nat)
    requires Good(r, cnt) && cnt < |r.chunks|
    requires r.widx < |r.chunks| && ChunkOk(r.chunks[r.widx]) && count <= WriteSize(r)
    ensures var c := r.chunks[r.widx];
            var cnt' := if Closes(c, count) then cnt + 1 else cnt;
            && !c.filled && c.h + count <= CHUNK_SIZE
            && Good(Fill(r, count), cnt')
            && Contents(Fill(r, count), cnt') == Contents(r, cnt) + c.data[c.h..c.h + count]
  {
    hide Shape, Order, Fill, Filled, Closes;
    WriteChunk(r, cnt);
    FillRing(r, cnt, count);
    FillOrder(Order(r), cnt, count);
  }

  /** The chunk that is written to stays the same while it has room for MIN_FREE bytes, and passes to
      the consumer when it has less, or at the end of a file unless it is empty. */
  lemma FillContinues(r: Ring, cnt: nat, count: nat)
    requires Good(r, cnt) && cnt < |r.chunks|
    requires r.widx < |r.chunks| && ChunkOk(r.chunks[r.widx]) && count <= WriteSize(r)
    ensures var r', room := Fill(r, count), WriteSize(r) - count;
            && |r'.chunks| == |r.chunks| && r'.ridx == r.ridx
            && if (count > 0 && room >= MIN_FREE) || (count == 0 && room == CHUNK_SIZE)
               then r'.widx == r.widx && ChunkOk(r'.chunks[r.widx]) && WriteSize(r') == room
               else r'.widx == Wrap(r.widx + 1, |r.chunks|) && r'.chunks[r.widx].filled
  {
    hide Shape, Order;
    WriteChunk(r, cnt);
    NextIndex(r.widx, |r.chunks|);
  }

  // ---- consuming

  lemma ReadChunk(r: Ring, cnt: nat)
    requires Good(r, cnt) && cnt > 0
    ensures Order(r)[0] == r.chunks[r.ridx] && ChunkOk(r.chunks[r.ridx]) && r.chunks[r.ridx].filled
  {
    assert Order(r)[0] == r.chunks[r.ridx];
  }

  /** The queue behind the first chunk. */
  ghost function QueueTail(o: seq<Chunk>, cnt: nat): seq<Byte>
    requires Shape(o, cnt) && cnt > 0
  {
    Filled(o[1..cnt]) + (if cnt < |o| then o[cnt].data[..o[cnt].h] else [])
  }

  /** The queue of a ring that holds something starts with the first chunk's bytes. */
  lemma QueueHead(o: seq<Chunk>, cnt: nat)
    requires Shape(o, cnt) && cnt > 0
    ensures ChunkOk(o[0])
    ensures Queue(o, cnt) ==
            o[0].data[o[0].l..o[0].h] + QueueTail(o, cnt)
  {
    assert ChunkOk(o[0]);
    assert o[..cnt][1..] == o[1..cnt];
    Sequences.Assoc(o[0].data[o[0].l..o[0].h], Filled(o[1..cnt]), if cnt < |o| then o[cnt].data[..o[cnt].h] else []);
  }

  /** Another first chunk, filled like the old one: the rest of the queue stays. */
  lemma NewHead(o: seq<Chunk>, cnt: nat, c: Chunk)
    requires Shape(o, cnt) && cnt > 0 && ChunkOk(c) && c.filled
    ensures var o' := o[0 := c];
            && Shape(o', cnt)
            && Queue(o', cnt) ==
               c.data[c.l..c.h] + QueueTail(o, cnt)
  {
    var o' := o[0 := c];
    assert Shape(o', cnt) by {
      forall i | 0 <= i < |o| ensures ChunkOk(o'[i]) {
        assert i > 0 ==> o'[i] == o[i] && ChunkOk(o[i]);
      }
    }
    hide Queue, Filled;
    QueueHead(o', cnt);
    assert o'[1..cnt] == o[1..cnt];
  }

  lemma RewriteHead(o: seq<Chunk>, cnt: nat, k: nat, b: Byte)
    requires Shape(o, cnt) && cnt > 0 && ChunkOk(o[0]) && o[0].l <= k < o[0].h
    ensures var o' := o[0 := o[0].(data := o[0].data[k := b])];
            && Shape(o', cnt) && k - o[0].l < |Queue(o, cnt)|
            && Queue(o', cnt) == Queue(o, cnt)[k - o[0].l := b]
  {
    hide Queue, QueueTail, Filled;
    var c := o[0];
    var o' := o[0 := c.(data := c.data[k := b])];
    NewHead(o, cnt, c.(data := c.data[k := b]));
    QueueHead(o, cnt);
    assert o'[0].data[c.l..c.h] == c.data[c.l..c.h][k - c.l := b];
    UpdateHead(c.data[c.l..c.h], QueueTail(o, cnt), k - c.l, b);
  }

  lemma UpdateHead(a: seq<Byte>, t: seq<Byte>, k: nat, b: Byte)
    requires k < |a|
    ensures a[k := b] + t == (a + t)[k := b]
  {
  }

  /** Rewriting a byte of the read window in place changes that byte of the queue. */
  lemma RewriteChanges(r: Ring, cnt: nat, k: nat, b: Byte)
    requires Good(r, cnt) && cnt > 0
    requires ChunkOk(r.chunks[r.ridx]) && r.chunks[r.ridx].l <= k < r.chunks[r.ridx].h
    ensures var i := k - r.chunks[r.ridx].l;
            && Good(Poke(r, r.ridx, k, b), cnt) && i < |Contents(r, cnt)|
            && Contents(Poke(r, r.ridx, k, b), cnt) == Contents(r, cnt)[i := b]
  {
    hide Shape, Order, Filled;
    ReadChunk(r, cnt);
    var c := r.chunks[r.ridx];
    OrderUpdate(r, 0, c.(data := c.data[k := b]));
    RewriteHead(Order(r), cnt, k, b);
  }

  /** Consuming part of the first chunk. */
  lemma ConsumePart(o: seq<Chunk>, cnt: nat, count: nat)
    requires Shape(o, cnt) && cnt > 0 && ChunkOk(o[0]) && o[0].l + count < o[0].h
    ensures var o' := o[0 := o[0].(l := o[0].l + count)];
            && Shape(o', cnt) && |Queue(o, cnt)| >= count
            && Queue(o', cnt) == Queue(o, cnt)[count..]
            && Queue(o, cnt)[..count] == o[0].data[o[0].l..o[0].l + count]
  {
    hide Queue, QueueTail, Filled;
    var c := o[0];
    NewHead(o, cnt, c.(l := c.l + count));
    QueueHead(o, cnt);
    SlicePart(c.data, c.l, c.h, count);
    DropHead(c.data[c.l..c.h], QueueTail(o, cnt), count);
  }

  lemma SlicePart(s: seq<Byte>, l: nat, h: nat, count: nat)
    requires l + count <= h <= |s|
    ensures s[l..h][count..] == s[l + count..h] && s[l..h][..count] == s[l..l + count]
  {
  }

  lemma DropHead(a: seq<Byte>, b: seq<Byte>, count: nat)
    requires count <= |a|
    ensures (a + b)[count..] == a[count..] + b && (a + b)[..count] == a[..count]
  {
  }

  /** Consuming all of the first chunk, which then becomes the last, empty one. */
  lemma ConsumeWhole(o: seq<Chunk>, cnt: nat, e: Chunk)
    requires Shape(o, cnt) && cnt > 0 && ChunkOk(o[0]) && EmptyChunk(e) && ChunkOk(e)
    ensures var o', n := o[1..] + [e], o[0].h - o[0].l;
            && Shape(o', cnt - 1) && |Queue(o, cnt)| >= n
            && Queue(o', cnt - 1) == Queue(o, cnt)[n..]
            && Queue(o, cnt)[..n] == o[0].data[o[0].l..o[0].h]
  {
    var o' := o[1..] + [e];
    RotatedShape(o, cnt, e);
    QueueHead(o, cnt);
    assert o'[..cnt - 1] == o[1..cnt];
    if cnt == |o| {
      assert o'[cnt - 1] == e && e.data[..0] == [];
    } else {
      assert o'[cnt - 1] == o[cnt];
    }
    DropHead(o[0].data[o[0].l..o[0].h], QueueTail(o, cnt),
             o[0].h - o[0].l);
  }

  lemma RotatedShape(o: seq<Chunk>, cnt: nat, e: Chunk)
    requires Shape(o, cnt) && cnt > 0 && EmptyChunk(e) && ChunkOk(e)
    ensures Shape(o[1..] + [e], cnt - 1)
  {
    var o' := o[1..] + [e];
    assert forall k :: 0 <= k < |o| - 1 ==> o'[k] == o[k + 1];
    assert o'[|o| - 1] == e;
    assert forall k :: 0 < k < |o| ==> ChunkOk(o[k]);
  }

  /** buffer_consume takes exactly the oldest bytes off the queue. */
  lemma ConsumeTakes(r: Ring, cnt: nat, count: nat)
    requires Good(r, cnt) && cnt > 0
    requires ChunkOk(r.chunks[r.ridx]) && 0 < count <= ReadSize(r)
    ensures var c := r.chunks[r.ridx];
            var cnt' := if c.l + count == c.h then cnt - 1 else cnt;
            && Good(Consume(r, count), cnt')
            && |Contents(r, cnt)| >= count
            && Contents(r, cnt)[..count] == c.data[c.l..c.l + count]
            && Contents(Consume(r, count), cnt') == Contents(r, cnt)[count..]
  {
    hide Shape, Order, Consume, Filled;
    var c, o := r.chunks[r.ridx], Order(r);
    ReadChunk(r, cnt);
    if c.l + count == c.h {
      ConsumeWhole(o, cnt, c.(l := 0, h := 0, filled := false));
    } else {
      ConsumePart(o, cnt, count);
    }
    ConsumeRing(r, cnt, count);
  }

  lemma ReadIndex(r: Ring, cnt: nat)
    requires Good(r, cnt) && cnt > 0
    ensures r.ridx < |r.chunks| && r.widx == Wrap(Wrap(r.ridx + 1, |r.chunks|) + (cnt - 1), |r.chunks|)
  {
  }

  lemma ConsumeRing(r: Ring, cnt: nat, count: nat)
    requires Good(r, cnt) && cnt > 0
    ensures var c, o, r', n := r.chunks[r.ridx], Order(r), Consume(r, count), |r.chunks|;
            && |r'.chunks| == n && r'.ridx < n && r'.widx == r.widx
            && if c.l + count == c.h then
                 r'.widx == Wrap(r'.ridx + (cnt - 1), n) && Order(r') == o[1..] + [c.(l := 0, h := 0, filled := false)]
               else
                 r'.ridx == r.ridx && Order(r') == o[0 := c.(l := c.l + count)]
  {
    hide Shape, Order, Wrap, Good;
    ReadIndex(r, cnt);
    var c := r.chunks[r.ridx];
    if c.l + count == c.h {
      AdvanceRing(r, c.(l := 0, h := 0, filled := false));
    } else {
      OrderUpdate(r, 0, c.(l := c.l + count));
      FirstIndex(r);
    }
  }

  lemma FirstIndex(r: Ring)
    requires r.ridx < |r.chunks|
    ensures Wrap(r.ridx + 0, |r.chunks|) == r.ridx
  {
  }

  lemma AdvanceRing(r: Ring, e: Chunk)
    requires r.ridx < |r.chunks|
    ensures var r' := Ring(r.chunks[r.ridx := e], (r.ridx + 1) % |r.chunks|, r.widx);
            r'.ridx == Wrap(r.ridx + 1, |r.chunks|) < |r.chunks| && Order(r') == Order(r)[1..] + [e]
  {
    hide Order;
    var r1 := r.(chunks := r.chunks[r.ridx := e]);
    OrderUpdate(r, 0, e);
    OrderAdvance(r1);
    NextIndex(r.ridx, |r.chunks|);
    assert Order(r)[0 := e][1..] == Order(r)[1..];
    SameOrder(Ring(r1.chunks, (r.ridx + 1) % |r.chunks|, r.widx), r1.(ridx := Wrap(r.ridx + 1, |r.chunks|)));
  }

  // ---- reset and the unlocked copy

  lemma ResetEmpties(r: Ring)
    requires |r.chunks| > 0 && forall i :: 0 <= i < |r.chunks| ==> |r.chunks[i].data| == CHUNK_SIZE
    ensures Good(Reset(r), 0) && Contents(Reset(r), 0) == []
  {
    var o := Order(Reset(r));
    assert o == Reset(r).chunks;
    assert EmptyChunk(o[0]);
  }

  /** Writing behind the queue, inside the write window, does not change the queue. */
  lemma PokeKeeps(r: Ring, cnt: nat, k: nat, b: Byte)
    requires Good(r, cnt) && cnt < |r.chunks|
    requires r.widx < |r.chunks| && ChunkOk(r.chunks[r.widx]) && r.chunks[r.widx].h <= k < CHUNK_SIZE
    ensures Good(Poke(r, r.widx, k, b), cnt) && Contents(Poke(r, r.widx, k, b), cnt) == Contents(r, cnt)
  {
    WriteChunk(r, cnt);
    var c, o := r.chunks[r.widx], Order(r);
    var c' := c.(data := c.data[k := b]);
    OrderUpdate(r, cnt, c');
    FillShape(o, cnt, c');
    assert o[cnt := c'][..cnt] == o[..cnt];
    assert c'.data[..c.h] == c.data[..c.h];
  }
}

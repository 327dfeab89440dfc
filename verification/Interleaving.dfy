/** The producer and consumer threads on one chunk ring: every mutex section of buffer.c is
    one step, and the copies into and out of a chunk are steps of their own, made byte by
    byte without the mutex. */
module Interleaving {
  import opened Bytes
  import opened Ring
  import Sequences

  /** Where a thread is: between calls, or copying at a window of a chunk it was given. */
  datatype Producer = Idle | Writing(chunk: nat, pos: nat, size: nat, written: seq<Byte>)
  datatype Consumer = Waiting | Reading(chunk: nat, pos: nat, size: nat, got: seq<Byte>)

  /** filled and consumed record, since the last reset, what the producer handed over and what the
      consumer took; rewritten, which of the bytes handed over the consumer rewrote in place, and
      to what; ended, whether the last thing handed over was an end of file, that is a fill of no
      bytes; fault, a failed assertion of the program, an access outside a chunk, or both threads
      inside the same chunk. */
  datatype State = State(ring: Ring, cnt: nat, p: Producer, c: Consumer, filled: seq<Byte>,
                         rewritten: map<nat, Byte>, consumed: seq<Byte>, ended: bool, fault: bool)

  /** The bytes filled, as the consumer rewrote them. */
  function Scaled(filled: seq<Byte>, rewritten: map<nat, Byte>): (h: seq<Byte>)
    ensures |h| == |filled|
  {
    seq(|filled|, i requires 0 <= i < |filled| => if i in rewritten then rewritten[i] else filled[i])
  }

  datatype Step =
    | GetWpos
    | WriteByte(b: Byte)
    | FillStep(count: nat)
    | LeaveWrite                     // nothing could be read
    | GetRpos
    | ScaleByte(k: nat, b: Byte)     // by scale_samples, in the read window
    | ReadByte
    | ConsumeStep(count: nat)
    | LeaveRead                      // nothing could be written to the device
    | ResetStep

  /** After buffer_init. */
  predicate Init(s: State) {
    && 0 < |s.ring.chunks| && s.ring.ridx == s.ring.widx == 0
    && (forall c :: c in s.ring.chunks ==> EmptyChunk(c) && |c.data| == CHUNK_SIZE)
    && s.cnt == 0 && s.p == Idle && s.c == Waiting && s.filled == s.consumed == [] && s.rewritten == map[]
    && !s.ended && !s.fault
  }

  /** Steps a thread can take.  The producer reports at most what it wrote, or leaves its window
      without a report; the consumer scales ahead of what it reads and reports at most what it read,
      or leaves likewise; reset needs both threads outside. */
  predicate Enabled(s: State, step: Step) {
    match step
    case GetWpos => s.p.Idle?
    case WriteByte(_) => s.p.Writing? && |s.p.written| < s.p.size
    case FillStep(count) => s.p.Writing? && count <= |s.p.written|
    case LeaveWrite => s.p.Writing?
    case GetRpos => s.c.Waiting?
    case ScaleByte(k, _) => s.c.Reading? && |s.c.got| <= k < s.c.size
    case ReadByte => s.c.Reading? && |s.c.got| < s.c.size
    case ConsumeStep(count) => s.c.Reading? && 0 < count <= |s.c.got|
    case LeaveRead => s.c.Reading?
    case ResetStep => s.p.Idle? && s.c.Waiting?
  }

  /** The two threads are not inside the same chunk. */
  predicate Apart(s: State) {
    s.p.Writing? && s.c.Reading? ==> s.p.chunk != s.c.chunk
  }

  /** What the step needs in order not to go wrong: indexes and offsets in bounds, the
      assertions in buffer_consume and buffer_fill, and no race on the bytes copied. */
  predicate Safe(s: State, step: Step)
    requires Enabled(s, step)
  {
    var r := s.ring;
    match step
    case GetWpos => r.widx < |r.chunks| && ChunkOk(r.chunks[r.widx])
    case WriteByte(_) => Apart(s) && s.p.chunk < |r.chunks| && s.p.pos + |s.p.written| < |r.chunks[s.p.chunk].data|
    case FillStep(count) => r.widx < |r.chunks| && !r.chunks[r.widx].filled && r.chunks[r.widx].h + count <= CHUNK_SIZE
    case GetRpos => r.ridx < |r.chunks| && ChunkOk(r.chunks[r.ridx])
    case ScaleByte(k, _) => Apart(s) && s.c.chunk < |r.chunks| && s.c.pos + k < |r.chunks[s.c.chunk].data|
    case ReadByte => Apart(s) && s.c.chunk < |r.chunks| && s.c.pos + |s.c.got| < |r.chunks[s.c.chunk].data|
    case ConsumeStep(count) =>
      r.ridx < |r.chunks| && r.chunks[r.ridx].filled && r.chunks[r.ridx].l + count <= r.chunks[r.ridx].h
    case LeaveWrite => true
    case LeaveRead => true
    case ResetStep => true
  }

  /** The effect of a step. */
  function Next(s: State, step: Step): State
    requires Enabled(s, step)
  {
    if s.fault || !Safe(s, step) then s.(fault := true) else
    var r := s.ring;
    match step
    case GetWpos =>
      if WriteSize(r) == 0 then s else s.(p := Writing(r.widx, r.chunks[r.widx].h, WriteSize(r), []))
    case WriteByte(b) =>
      s.(ring := Poke(r, s.p.chunk, s.p.pos + |s.p.written|, b), p := s.p.(written := s.p.written + [b]))
    case FillStep(count) =>
      s.(ring := Fill(r, count), cnt := if Closes(r.chunks[r.widx], count) then s.cnt + 1 else s.cnt,
         p := Idle, filled := s.filled + s.p.written[..count], ended := count == 0)
    case LeaveWrite => s.(p := Idle)
    case GetRpos =>
      if ReadSize(r) == 0 then s else s.(c := Reading(r.ridx, r.chunks[r.ridx].l, ReadSize(r), []))
    case ScaleByte(k, b) =>
      s.(ring := Poke(r, s.c.chunk, s.c.pos + k, b), rewritten := s.rewritten[|s.consumed| + k := b])
    case ReadByte =>
      s.(c := s.c.(got := s.c.got + [r.chunks[s.c.chunk].data[s.c.pos + |s.c.got|]]))
    case ConsumeStep(count) =>
      var c := r.chunks[r.ridx];
      s.(ring := Consume(r, count), cnt := if c.l + count == c.h && s.cnt > 0 then s.cnt - 1 else s.cnt,
         c := Waiting, consumed := s.consumed + s.c.got[..count])
    case LeaveRead => s.(c := Waiting)
    case ResetStep =>
      s.(ring := Reset(r), cnt := 0, filled := [], rewritten := map[], consumed := [], ended := false)
  }

  /** Both threads' windows are where buffer_get_wpos and buffer_get_rpos put them; what was consumed
      and what is queued make up what was filled, as rewritten. */
  ghost predicate Inv(s: State) {
    && !s.fault
    && Good(s.ring, s.cnt)
    && s.consumed + Contents(s.ring, s.cnt) == Scaled(s.filled, s.rewritten)
    && (forall i :: i in s.rewritten ==> i < |s.filled|)
    && ProducerOk(s.ring, s.cnt, s.p)
    && ConsumerOk(s.ring, s.cnt, s.c)
  }

  ghost predicate ProducerOk(r: Ring, cnt: nat, p: Producer) {
    p.Writing? ==>
      && cnt < |r.chunks| && p.chunk == r.widx < |r.chunks| && ChunkOk(r.chunks[r.widx])
      && !r.chunks[r.widx].filled && p.pos == r.chunks[r.widx].h && p.size == CHUNK_SIZE - p.pos
      && |p.written| <= p.size && r.chunks[r.widx].data[p.pos..p.pos + |p.written|] == p.written
  }

  ghost predicate ConsumerOk(r: Ring, cnt: nat, c: Consumer) {
    c.Reading? ==>
      && cnt > 0 && c.chunk == r.ridx < |r.chunks| && ChunkOk(r.chunks[r.ridx])
      && r.chunks[r.ridx].filled && c.pos == r.chunks[r.ridx].l && c.size == r.chunks[r.ridx].h - c.pos
      && |c.got| <= c.size && r.chunks[r.ridx].data[c.pos..c.pos + |c.got|] == c.got
  }

  /** The producer's and the consumer's chunks are never the same one. */
  lemma WindowsDisjoint(s: State)
    requires Inv(s)
    ensures Apart(s)
  {
  }

  lemma PokeStep(s: State, b: Byte)
    requires Inv(s) && Enabled(s, WriteByte(b))
    ensures Inv(Next(s, WriteByte(b)))
  {
    hide Good, Contents, Shape, Order, Filled;
    var r, k := s.ring, s.p.pos + |s.p.written|;
    PokeKeeps(r, s.cnt, k, b);
    var r' := Poke(r, r.widx, k, b);
    assert r'.chunks[r.widx].data[s.p.pos..k + 1] == r.chunks[r.widx].data[s.p.pos..k] + [b];
    if s.c.Reading? {
      WindowsDisjoint(s);
      assert r'.chunks[r.ridx] == r.chunks[r.ridx];
    }
  }

  lemma FillStepKeeps(s: State, count: nat)
    requires Inv(s) && Enabled(s, FillStep(count))
    ensures Inv(Next(s, FillStep(count)))
  {
    hide Contents, Shape, Order, Filled, Scaled;
    var r := s.ring;
    FillAppends(r, s.cnt, count);
    var data := r.chunks[r.widx].data;
    assert data[s.p.pos..s.p.pos + count] == s.p.written[..count] by {
      assert data[s.p.pos..s.p.pos + |s.p.written|][..count] == data[s.p.pos..s.p.pos + count];
    }
    Sequences.Assoc(s.consumed, Contents(r, s.cnt), s.p.written[..count]);
    ScaledAppend(s.filled, s.rewritten, s.p.written[..count]);
    if s.c.Reading? {
      WindowsDisjoint(s);
      assert Fill(r, count).chunks[r.ridx] == r.chunks[r.ridx];
    }
  }

  lemma ScaledAppend(filled: seq<Byte>, rewritten: map<nat, Byte>, more: seq<Byte>)
    requires forall i :: i in rewritten ==> i < |filled|
    ensures Scaled(filled + more, rewritten) == Scaled(filled, rewritten) + more
  {
  }

  lemma ScaledUpdate(filled: seq<Byte>, rewritten: map<nat, Byte>, i: nat, b: Byte)
    requires i < |filled|
    ensures Scaled(filled, rewritten[i := b]) == Scaled(filled, rewritten)[i := b]
  {
  }

  lemma UpdateTail(a: seq<Byte>, t: seq<Byte>, k: nat, b: Byte)
    requires k < |t|
    ensures a + t[k := b] == (a + t)[|a| + k := b]
  {
  }

  lemma ScaleStepKeeps(s: State, k: nat, b: Byte)
    requires Inv(s) && Enabled(s, ScaleByte(k, b))
    ensures Inv(Next(s, ScaleByte(k, b)))
  {
    hide Good, Contents, Shape, Order, Filled, Scaled;
    WindowsDisjoint(s);
    var r := s.ring;
    var r' := Poke(r, r.ridx, s.c.pos + k, b);
    RewriteChanges(r, s.cnt, s.c.pos + k, b);
    UpdateTail(s.consumed, Contents(r, s.cnt), k, b);
    ScaledUpdate(s.filled, s.rewritten, |s.consumed| + k, b);
    var c, c' := r.chunks[r.ridx], r'.chunks[r.ridx];
    assert c'.data[s.c.pos..s.c.pos + |s.c.got|] == c.data[s.c.pos..s.c.pos + |s.c.got|];
    if s.p.Writing? {
      assert r'.chunks[r.widx] == r.chunks[r.widx];
    }
  }

  lemma ConsumeStepKeeps(s: State, count: nat)
    requires Inv(s) && Enabled(s, ConsumeStep(count))
    ensures Inv(Next(s, ConsumeStep(count)))
  {
    hide Contents, Shape, Order, Filled, Scaled;
    var r := s.ring;
    ConsumeTakes(r, s.cnt, count);
    var q := Contents(r, s.cnt);
    assert q[..count] == s.c.got[..count] by {
      var data := r.chunks[r.ridx].data;
      assert data[s.c.pos..s.c.pos + |s.c.got|][..count] == data[s.c.pos..s.c.pos + count];
    }
    assert q == q[..count] + q[count..];
    Sequences.Assoc(s.consumed, q[..count], q[count..]);
    if s.p.Writing? {
      WindowsDisjoint(s);
      assert Consume(r, count).chunks[r.widx] == r.chunks[r.widx];
    }
  }

  /** Every step of either thread keeps the invariant. */
  lemma StepKeeps(s: State, step: Step)
    requires Inv(s) && Enabled(s, step)
    ensures Inv(Next(s, step))
  {
    Sizes(s.ring, s.cnt);
    match step {
      case WriteByte(b) => PokeStep(s, b);
      case FillStep(count) => FillStepKeeps(s, count);
      case ScaleByte(k, b) => ScaleStepKeeps(s, k, b);
      case ConsumeStep(count) => ConsumeStepKeeps(s, count);
      case LeaveWrite =>
      case LeaveRead =>
      case ResetStep => ResetKeeps(s);
      case GetWpos =>
      case GetRpos =>
      case ReadByte => ReadKeeps(s);
    }
  }

  lemma ResetKeeps(s: State)
    requires Inv(s) && Enabled(s, ResetStep)
    ensures Inv(Next(s, ResetStep))
  {
    var r := s.ring;
    forall i | 0 <= i < |r.chunks| ensures |r.chunks[i].data| == CHUNK_SIZE {
      var k := if i >= r.ridx then i - r.ridx else i - r.ridx + |r.chunks|;
      assert Order(r)[k] == r.chunks[i] && ChunkOk(Order(r)[k]);
    }
    ResetEmpties(r);
  }

  lemma ReadKeeps(s: State)
    requires Inv(s) && Enabled(s, ReadByte)
    ensures Inv(Next(s, ReadByte))
  {
    var data, k := s.ring.chunks[s.ring.ridx].data, s.c.pos + |s.c.got|;
    assert data[s.c.pos..k + 1] == data[s.c.pos..k] + [data[k]];
  }

  /** After an end of file no byte waits in the chunk being written. */
  predicate EndOk(s: State) {
    s.ended && s.cnt < |s.ring.chunks| ==> s.ring.widx < |s.ring.chunks| && s.ring.chunks[s.ring.widx].h == 0
  }

  lemma FillEnds(s: State, count: nat)
    requires Inv(s) && Enabled(s, FillStep(count))
    ensures EndOk(Next(s, FillStep(count)))
  {
    hide Contents, Filled;
    var r, t := s.ring, Next(s, FillStep(count));
    FillAppends(r, s.cnt, count);
    if t.ended && t.cnt < |r.chunks| {
      assert Order(t.ring)[t.cnt] == t.ring.chunks[t.ring.widx];
      assert Order(r)[t.cnt] == r.chunks[t.ring.widx];
      assert t.cnt == s.cnt + 1 ==> EmptyChunk(Order(r)[t.cnt]);
    }
  }

  lemma ConsumeEnds(s: State, count: nat)
    requires Inv(s) && EndOk(s) && Enabled(s, ConsumeStep(count))
    ensures EndOk(Next(s, ConsumeStep(count)))
  {
    hide Contents, Filled, Order, Shape;
    Sizes(s.ring, s.cnt);
    if s.cnt < |s.ring.chunks| {
      assert WriteSize(s.ring) != 0;
    }
  }

  lemma StepEnds(s: State, step: Step)
    requires Inv(s) && EndOk(s) && Enabled(s, step)
    ensures EndOk(Next(s, step))
  {
    hide Contents, Filled, Order, Shape;
    match step {
      case FillStep(count) => FillEnds(s, count);
      case ConsumeStep(count) => ConsumeEnds(s, count);
      case ScaleByte(_, _) =>
      case LeaveWrite =>
      case LeaveRead =>
      case WriteByte(_) =>
      case ResetStep =>
      case GetWpos =>
      case GetRpos =>
      case ReadByte =>
    }
  }

  lemma InitKeeps(s: State)
    requires Init(s)
    ensures Inv(s) && Contents(s.ring, 0) == []
  {
    var o := Order(s.ring);
    forall k | 0 <= k < |o| ensures EmptyChunk(o[k]) && ChunkOk(o[k]) {
      assert o[k] == s.ring.chunks[Wrap(s.ring.ridx + k, |o|)] && o[k] in s.ring.chunks;
    }
    assert o[0].data[..0] == [];
  }

  /** A run: from the initial state, one enabled step after the other, by either thread. */
  predicate Run(states: seq<State>, steps: seq<Step>) {
    && |states| == |steps| + 1 && Init(states[0])
    && forall i :: 0 <= i < |steps| ==> Enabled(states[i], steps[i]) && states[i + 1] == Next(states[i], steps[i])
  }

  lemma {:induction false} RunKeeps(states: seq<State>, steps: seq<Step>, i: nat)
    requires Run(states, steps) && i < |states|
    ensures Inv(states[i]) && EndOk(states[i])
  {
    if i == 0 {
      InitKeeps(states[0]);
    } else {
      RunKeeps(states, steps, i - 1);
      StepKeeps(states[i - 1], steps[i - 1]);
      StepEnds(states[i - 1], steps[i - 1]);
    }
  }

  /** In every state of every interleaving: no assertion failed, nothing was accessed out of
      bounds, the threads are not in the same chunk; the bytes consumed are a prefix of the bytes
      filled, each as the consumer last rewrote it if it did, and the rest is exactly what is still
      queued. */
  lemma RunIsFifo(states: seq<State>, steps: seq<Step>, i: nat)
    requires Run(states, steps) && i < |states|
    ensures var s := states[i];
      && !s.fault && Apart(s)
      && Good(s.ring, s.cnt)
      && s.consumed <= Scaled(s.filled, s.rewritten)
      && Scaled(s.filled, s.rewritten)[|s.consumed|..] == Contents(s.ring, s.cnt)
  {
    RunKeeps(states, steps, i);
    WindowsDisjoint(states[i]);
  }

  /** When the consumer finds nothing to read after an end of file, it has consumed every byte
      that was ever filled. */
  lemma EndOfFileLosesNothing(states: seq<State>, steps: seq<Step>, i: nat)
    requires Run(states, steps) && i < |states| && states[i].ended
    ensures var r := states[i].ring; r.ridx < |r.chunks| && ChunkOk(r.chunks[r.ridx])
    ensures ReadSize(states[i].ring) == 0 ==> states[i].consumed == Scaled(states[i].filled, states[i].rewritten)
  {
    var s := states[i];
    RunKeeps(states, steps, i);
    Sizes(s.ring, s.cnt);
    if ReadSize(s.ring) == 0 {
      assert Order(s.ring)[0] == s.ring.chunks[s.ring.widx];
      assert Contents(s.ring, s.cnt) == [];
    }
  }
}

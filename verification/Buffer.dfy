/** buffer.c: the chunk array and its two indexes, updated in place. */
module Buffer {
  import opened Bytes
  import opened Ring

  class ChunkBuffer {
    const chunks: array<Chunk>
    var ridx: nat
    var widx: nat
    ghost var cnt: nat   // how many chunks are filled

    ghost function View(): Ring
      reads this, chunks
    {
      Ring(chunks[..], ridx, widx)
    }

    ghost predicate Valid()
      reads this, chunks
    {
      Good(View(), cnt)
    }

    /** Filled and not yet consumed. */
    ghost function Queued(): seq<Byte>
      reads this, chunks
      requires Valid()
    {
      Contents(View(), cnt)
    }

    /** buffer_init */
    constructor (nrChunks: nat)
      requires nrChunks > 0
      ensures Valid() && Queued() == [] && chunks.Length == nrChunks && fresh(chunks)
    {
      var blank := Chunk(seq(CHUNK_SIZE, _ => 0), 0, 0, false);
      chunks := new Chunk[nrChunks](_ => blank);
      ridx, widx, cnt := 0, 0, 0;
      new;
      Clear();
    }

    /** buffer_reset */
    method Clear()
      requires chunks.Length > 0 && forall i :: 0 <= i < chunks.Length ==> |chunks[i].data| == CHUNK_SIZE
      modifies this, chunks
      ensures Valid() && Queued() == [] && View() == Reset(old(View()))
    {
      ghost var before := View();
      ridx, widx, cnt := 0, 0, 0;
      for i := 0 to chunks.Length
        invariant ridx == widx == cnt == 0
        invariant forall k :: i <= k < chunks.Length ==> chunks[k] == before.chunks[k]
        invariant forall k :: 0 <= k < i ==> chunks[k] == before.chunks[k].(l := 0, h := 0, filled := false)
      {
        chunks[i] := chunks[i].(l := 0, h := 0, filled := false);
      }
      assert View() == Reset(before);
      ResetEmpties(before);
    }

    /** buffer_get_rpos: the number of readable bytes and their offset in chunk ridx. */
    method GetRpos() returns (size: nat, pos: nat)
      requires Valid()
      ensures size == 0 <==> cnt == 0
      ensures size > 0 ==> ridx < chunks.Length && pos + size <= |chunks[ridx].data| == CHUNK_SIZE
                           && size <= |Queued()| && chunks[ridx].data[pos..pos + size] == Queued()[..size]
    {
      Sizes(View(), cnt);
      size, pos := 0, 0;
      var c := chunks[ridx];
      if c.filled {
        size, pos := c.h - c.l, c.l;
        ConsumeTakes(View(), cnt, size);
      }
    }

    /** buffer_get_wpos: the number of writable bytes and their offset in chunk widx. */
    method GetWpos() returns (size: nat, pos: nat)
      requires Valid()
      ensures size == 0 || size >= MIN_FREE
      ensures size == 0 <==> cnt == chunks.Length
      ensures widx < chunks.Length
      ensures size > 0 ==> pos == chunks[widx].h && pos + size == CHUNK_SIZE == |chunks[widx].data|
    {
      Sizes(View(), cnt);
      size, pos := 0, 0;
      var c := chunks[widx];
      if !c.filled {
        size, pos := CHUNK_SIZE - c.h, c.h;
      }
    }

    /** buffer_consume: the oldest count bytes leave the queue. */
    method BufferConsume(count: nat)
      requires Valid() && cnt > 0 && ridx < chunks.Length && chunks[ridx].filled
      requires 0 < count <= chunks[ridx].h - chunks[ridx].l
      modifies this, chunks
      ensures Valid() && View() == Consume(old(View()), count)
      ensures |old(Queued())| >= count && Queued() == old(Queued())[count..]
    {
      hide Shape, Order, Filled, Contents;
      ghost var before := View();
      assert ChunkOk(chunks[ridx]) by { Sizes(before, cnt); }
      ConsumeTakes(before, cnt, count);
      var c := chunks[ridx];
      chunks[ridx] := c.(l := c.l + count);
      if c.l + count == c.h {
        chunks[ridx] := c.(l := 0, h := 0, filled := false);
        ridx := (ridx + 1) % chunks.Length;
        cnt := cnt - 1;
      }
      assert View() == Consume(before, count);
    }

    /** buffer_fill: the count bytes written at the write position join the queue; closed
        tells whether the chunk was handed to the consumer. */
    method BufferFill(count: nat) returns (closed: bool)
      requires Valid() && widx < chunks.Length && !chunks[widx].filled
      requires chunks[widx].h + count <= CHUNK_SIZE == |chunks[widx].data|
      modifies this, chunks
      ensures Valid() && View() == Fill(old(View()), count)
      ensures Queued() == old(Queued()) + old(chunks[widx].data[chunks[widx].h..chunks[widx].h + count])
      ensures cnt == old(cnt) + (if closed then 1 else 0)
      ensures closed <==> CHUNK_SIZE - old(chunks[widx].h + count) < MIN_FREE || (count == 0 && old(chunks[widx].h) > 0)
    {
      hide Shape, Order, Filled, Contents;
      ghost var before := View();
      Sizes(before, cnt);
      FillAppends(before, cnt, count);
      closed := false;
      var c := chunks[widx];
      c := c.(h := c.h + count);
      if CHUNK_SIZE - c.h < MIN_FREE || (count == 0 && c.h > 0) {
        c := c.(filled := true);
        closed := true;
        cnt := cnt + 1;
      }
      chunks[widx] := c;
      if closed {
        widx := (widx + 1) % chunks.Length;
      }
      assert View() == Fill(before, count);
    }

    /** buffer_get_filled_chunks: as many as there are filled flags. */
    method GetFilledChunks() returns (c: int)
      requires Valid()
      ensures c == cnt == CountFilled(chunks[..])
    {
      FilledChunksIsCount(View(), cnt);
      FilledChunksCountsFlags(View(), cnt);
      if ridx < widx {
        c := widx - ridx;
      } else if ridx > widx {
        c := chunks.Length - ridx + widx;
      } else if chunks[ridx].filled {
        c := chunks.Length;
      } else {
        c := 0;
      }
    }
  }
}

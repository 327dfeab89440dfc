/** The sample stream of player.c: the two positions, the scaling switches, and for each queued
    byte how often it was scaled, updated in place. */
module Stream {
  import opened Gain
  import opened Options

  class SampleStream {
    var consumerPos: nat
    var scalePos: nat
    var softVol: bool
    var rg: bool
    var queue: seq<nat>
    ghost var written: seq<Out>
    ghost var trace: seq<Step>

    ghost function View(): State
      reads this
    {
      State(consumerPos, scalePos, softVol, rg, queue, written, false)
    }

    /** The stream is where its history of steps leads. */
    ghost predicate Valid()
      reads this
    {
      After(trace) == Some(View())
    }

    constructor ()
      ensures Valid() && trace == [] && queue == [] && consumerPos == 0
    {
      consumerPos, scalePos, softVol, rg, queue, written, trace := 0, 0, false, false, [], [], [];
    }

    /** reset_buffer */
    method ResetBuffer()
      requires Valid()
      modifies this
      ensures Valid() && trace == old(trace) + [Reset] && queue == [] && consumerPos == 0
    {
      Extend(INITIAL, trace, Reset);
      queue := [];
      consumerPos := 0;
      scalePos := 0;
      trace := trace + [Reset];
    }

    /** The buffer and position part of a successful player_seek. */
    method SeekTo(pos: nat)
      requires Valid()
      modifies this
      ensures Valid() && trace == old(trace) + [Seek(pos)] && queue == [] && consumerPos == pos
    {
      Extend(INITIAL, trace, Seek(pos));
      queue := [];
      consumerPos := pos;
      scalePos := consumerPos;
      trace := trace + [Seek(pos)];
    }

    /** buffer_fill */
    method BufferFill(n: nat)
      requires Valid()
      modifies this
      ensures Valid() && trace == old(trace) + [Fill(n)] && consumerPos == old(consumerPos)
      ensures |queue| == |old(queue)| + n
    {
      Extend(INITIAL, trace, Fill(n));
      queue := queue + seq(n, _ => 0);
      trace := trace + [Fill(n)];
    }

    /** scale_samples */
    method ScaleSamples(size: nat)
      requires Ordered(View()) && size <= |queue| && consumerPos <= scalePos
      modifies `scalePos, `queue
      ensures View() == Gain.ScaleSamples(old(View()), size)
    {
      var offs, count := 0, size;
      if consumerPos != scalePos {
        offs := scalePos - consumerPos;
        if offs >= count {
          return;
        }
        count := count - offs;
      }
      scalePos := scalePos + count;
      ghost var before := queue;
      var i := 0;
      while i < count / FRAME
        invariant 0 <= i <= count / FRAME && scalePos == old(scalePos) + count
        invariant queue == Scaled(before, offs, offs + i * FRAME)
      {
        var k := offs + i * FRAME;
        queue := queue[k := queue[k] + 1];
        queue := queue[k + 1 := queue[k + 1] + 1];
        queue := queue[k + 2 := queue[k + 2] + 1];
        queue := queue[k + 3 := queue[k + 3] + 1];
        i := i + 1;
      }
      if size == 0 {
        assert queue == before;
      }
    }

    /** One round of the consumer's inner loop: scale and write up to space of the readable
        bytes at the front of the queue; rc is what op_write returns, negative on failure. */
    method WriteRound(readable: nat, space: nat, rc: int) returns (size: nat)
      requires Valid() && 0 < readable <= |queue| && space > 0
      requires rc <= readable && rc <= space && rc != 0
      modifies this
      ensures 0 < size == (if readable > space then space else readable)
      ensures Valid() && trace == old(trace) + [Write(size, if rc < 0 then 0 else rc)]
      ensures consumerPos == old(consumerPos) + if rc < 0 then 0 else rc
      ensures |queue| == |old(queue)| - if rc < 0 then 0 else rc
    {
      hide Gain.ScaleSamples, From, Scaled, Taken, CarefulFrom, Careful;
      NeverFaults(trace);
      size := readable;
      if size > space {
        size := space;
      }
      ghost var step := Write(size, if rc < 0 then 0 else rc);
      Extend(INITIAL, trace, step);
      if softVol || rg {
        ScaleSamples(size);
      }
      Take(if rc < 0 then 0 else rc);
      trace := trace + [step];
    }

    /** buffer_consume after a write; nothing happens when the write failed. */
    method Take(rc: nat)
      requires rc <= |queue|
      modifies `queue, `consumerPos, `written
      ensures queue == old(queue)[rc..] && consumerPos == old(consumerPos) + rc
      ensures written == old(written) + Taken(old(queue), rc, softVol || rg)
    {
      written := written + Taken(queue, rc, softVol || rg);
      if rc > 0 {
        queue := queue[rc..];
        consumerPos := consumerPos + rc;
      }
    }

    /** player_set_soft_vol */
    method SetSoftVolume(b: bool)
      requires Valid()
      modifies this
      ensures Valid() && trace == old(trace) + [SetSoftVol(b)] && consumerPos == old(consumerPos) && queue == old(queue)
    {
      Extend(INITIAL, trace, SetSoftVol(b));
      if !softVol && !rg {
        scalePos := consumerPos;
      }
      softVol := b;
      trace := trace + [SetSoftVol(b)];
    }

    /** player_set_rg */
    method SetReplayGain(b: bool)
      requires Valid()
      modifies this
      ensures Valid() && trace == old(trace) + [SetRg(b)] && consumerPos == old(consumerPos) && queue == old(queue)
    {
      Extend(INITIAL, trace, SetRg(b));
      if !softVol && !rg {
        scalePos := consumerPos;
      }
      rg := b;
      trace := trace + [SetRg(b)];
    }
  }
}

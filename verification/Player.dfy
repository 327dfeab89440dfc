/** player.c: the input file, the output device, and the statuses of the two threads, updated
    by the player commands and by the thread loops, one critical section at a time. */
module Player {
  import opened PlayerModes
  import opened Stream
  import opened Options
  import Gain

  datatype ProducerStatus = PS_UNLOADED | PS_STOPPED | PS_PLAYING | PS_PAUSED
  datatype ConsumerStatus = CS_STOPPED | CS_PLAYING | CS_PAUSED

  datatype RawFormat = RawFormat(bits: nat, channels: nat, rate: nat, signed: bool, bigendian: bool)

  type Format = f: RawFormat | f.bits >= 8 && f.channels > 0 && f.rate > 0
    witness RawFormat(16, 2, 44100, true, false)

  /** set_buffer_sf: samples of at most 16 bits and two channels are converted by the reader. */
  function Converted(f: Format): Format {
    if f.channels <= 2 && f.bits <= 16 then RawFormat(16, 2, f.rate, true, false) else f
  }

  /** The rate stays, converting again changes nothing, and what is left alone is exactly what has
      wider samples or more channels, or is 16-bit signed little-endian stereo already. */
  lemma ConvertedIs(f: Format)
    ensures Converted(f).rate == f.rate && Converted(Converted(f)) == Converted(f)
    ensures Converted(f) == f <==>
      f.bits > 16 || f.channels > 2 || (f.bits == 16 && f.channels == 2 && f.signed && !f.bigendian)
    ensures f.bits <= 16 && f.channels <= 2 ==> SecondSize(Converted(f)) == 4 * f.rate
  {
  }

  function SecondSize(f: Format): (n: nat)
    ensures n > 0
  {
    Positive(f.rate, f.bits / 8);
    Positive(f.rate * (f.bits / 8), f.channels);
    f.rate * (f.bits / 8) * f.channels
  }

  lemma Positive(a: nat, b: nat)
    requires a > 0 && b > 0
    ensures a * b > 0
  {
  }

  /** The input plugin object: absent once deleted; it learns about the file when opened. */
  datatype Source = NoSource | Source(open: bool, remote: bool, sf: Format, eof: bool)

  datatype Device = Closed | Open(sf: Format, paused: bool)

  /** One attempt to fill the ring buffer: no room, nothing available yet, an error, the end of
      the file, or n bytes. */
  datatype Read = Full | Again | Error | End | Data(n: nat)

  /** How many bytes one attempt delivers. */
  function Got(r: Read): nat {
    if r.Data? then r.n else 0
  }

  /** An attempt after which the file is over. */
  predicate Last(r: Read) {
    r.Error? || r.End? || (r.Data? && r.n == 0)
  }

  /** What a loop of attempts delivers that goes on after data and after "not yet". */
  function Delivered(input: seq<Read>): nat {
    if input == [] || input[0].Full? || Last(input[0]) then 0 else Got(input[0]) + Delivered(input[1..])
  }

  lemma {:induction false} DeliveredConcat(a: seq<Read>, b: seq<Read>)
    requires forall i :: 0 <= i < |a| ==> !a[i].Full? && !Last(a[i])
    ensures Delivered(a + b) == Delivered(a) + Delivered(b)
  {
    if a == [] {
      assert a + b == b;
    } else {
      assert (a + b)[0] == a[0] && (a + b)[1..] == a[1..] + b;
      DeliveredConcat(a[1..], b);
    }
  }

  /** Every attempt that delivers something counts in full. */
  lemma DeliveredOne(n: nat)
    ensures Delivered([Data(n)]) == n && Delivered([Again]) == 0
  {
    assert [Data(n)][1..] == [] && [Again][1..] == [];
  }

  /** The environment during one command. */
  datatype World = World(o: Outcome, remote: bool, sf: Format, seekOk: bool, duration: int, input: seq<Read>)

  const DEFAULT: Format := RawFormat(16, 2, 44100, true, false)

  /** The position player_seek goes to, or none when it gives up. */
  function SeekTarget(pos: real, duration: real, offset: real, relative: bool): Option<real>
    requires pos >= 0.0
  {
    var last := if duration - 5.0 < 0.0 then 0.0 else duration - 5.0;
    if relative then
      var p := if pos + offset < 0.0 then 0.0 else pos + offset;
      if offset > 0.0 then
        var q := if p > duration - 5.0 then duration - 5.0 else p;
        var q' := if q < 0.0 then 0.0 else q;
        if q' < pos - 0.5 then None else Some(q')
      else Some(p)
    else if offset < 0.0 then None
    else if offset > duration - 5.0 then Some(last) else Some(offset)
  }

  function Least(a: real, b: real): real {
    if a < b then a else b
  }

  function Greatest(a: real, b: real): real {
    if a < b then b else a
  }

  /** Exactly: an absolute seek goes where it says, but not into the last five seconds; a seek back
      goes no further than the start; a seek forward is bounded like an absolute one, and refused if
      that would lose more than half a second. */
  lemma SeekTargetIs(pos: real, duration: real, offset: real)
    requires pos >= 0.0
    ensures var last := Greatest(duration - 5.0, 0.0);
            && SeekTarget(pos, duration, offset, false) ==
                 (if offset < 0.0 then None else Some(Least(offset, last)))
            && (offset <= 0.0 ==> SeekTarget(pos, duration, offset, true) == Some(Greatest(pos + offset, 0.0)))
            && (offset > 0.0 ==>
                  var to := Least(pos + offset, last);
                  SeekTarget(pos, duration, offset, true) == if to < pos - 0.5 then None else Some(to))
  {
  }

  /** A seek never leaves the file, never stops within its last five seconds unless it goes
      backwards, and a forward one does not go back by more than half a second. */
  lemma SeekStaysInside(pos: real, duration: real, offset: real, relative: bool)
    requires pos >= 0.0 && SeekTarget(pos, duration, offset, relative).Some?
    ensures var t := SeekTarget(pos, duration, offset, relative).value;
            && t >= 0.0
            && (!relative || offset > 0.0 ==> t <= duration - 5.0 || t == 0.0)
            && (relative && offset > 0.0 ==> pos - 0.5 <= t <= pos + offset)
            && (relative && offset <= 0.0 ==> t <= pos)
  {
  }

  /** The byte position a seek from `from` leads to, or none. */
  ghost function Sought(from: nat, remote: bool, sf: Format, offset: real, relative: bool, w: World): Option<nat> {
    var pos := from as real / SecondSize(sf) as real;
    var target := SeekTarget(pos, w.duration as real, offset, relative);
    if remote || w.duration < 0 || target.None? || !w.seekOk then None else
    SeekStaysInside(pos, w.duration as real, offset, relative);
    Some((target.value * SecondSize(sf) as real).Floor)
  }

  /** The position is the last whole byte before the time sought; a second takes rate times channels
      times bytes. */
  lemma SoughtIs(from: nat, sf: Format, offset: real, relative: bool, w: World)
    requires Sought(from, false, sf, offset, relative, w).Some?
    ensures SecondSize(sf) == sf.rate * (sf.bits / 8) * sf.channels
    ensures var p, size := Sought(from, false, sf, offset, relative, w).value as real, SecondSize(sf) as real;
            var t := SeekTarget(from as real / size, w.duration as real, offset, relative);
            t.Some? && p <= t.value * size < p + 1.0
  {
    hide SeekTarget, SecondSize;
    SecondIs(sf);
  }

  lemma SecondIs(sf: Format)
    ensures SecondSize(sf) == sf.rate * (sf.bits / 8) * sf.channels
  {
  }

  function OrElse(p: Option<nat>, q: nat): nat {
    if p.Some? then p.value else q
  }

  class Player {
    var producerStatus: ProducerStatus
    var consumerStatus: ConsumerStatus
    var infoStatus: ConsumerStatus      // player_info.status
    var ip: Source
    var device: Device
    var bufferSf: Format
    var reopening: bool                 // the consumer thread is between closing and reopening the device
    const stream: SampleStream
    ghost var errorMeanwhile: bool      // the producer thread reported an error while reopening
    ghost var raced: bool               // such a report outlived a successful reopening

    ghost predicate ProducerOk()
      reads this, stream
    {
      && (ip.Source? <==> producerStatus != PS_UNLOADED)
      && (ip.Source? && ip.open <==> producerStatus == PS_PLAYING || producerStatus == PS_PAUSED)
      && (producerStatus == PS_PAUSED ==> !ip.remote)
      && (producerStatus == PS_UNLOADED || producerStatus == PS_STOPPED ==>
            stream.queue == [] && stream.consumerPos == 0)
      && stream.Valid()
    }

    ghost predicate ConsumerOk()
      reads this
    {
      && (device.Open? <==> consumerStatus != CS_STOPPED)
      && (device.Open? ==> device.paused == (consumerStatus == CS_PAUSED) && device.sf == bufferSf)
    }

    /** The device plays the format the reader delivers. */
    ghost predicate FormatOk()
      reads this
    {
      device.Open? && ip.Source? && ip.open ==> device.sf == Converted(ip.sf)
    }

    ghost predicate Joint()
      reads this
    {
      (producerStatus, consumerStatus) in
        {(PS_UNLOADED, CS_STOPPED), (PS_STOPPED, CS_STOPPED), (PS_PLAYING, CS_PLAYING), (PS_PAUSED, CS_PAUSED),
         (PS_PLAYING, CS_STOPPED)}
    }

    ghost function Mode(): Mode
      reads this
      requires Joint()
    {
      if producerStatus == PS_UNLOADED then Unloaded
      else if producerStatus == PS_STOPPED then Stopped
      else if producerStatus == PS_PAUSED then Paused
      else if consumerStatus == CS_PLAYING then Playing else Silent
    }

    /** Between critical sections the published status is the real one, unless a report of the
        producer thread got between a close and its reopening. */
    ghost predicate InfoOk()
      reads this
    {
      if !reopening then (infoStatus == consumerStatus <==> !raced)
      else if errorMeanwhile then infoStatus == CS_STOPPED
      else (infoStatus == CS_PLAYING <==> !raced)
    }

    ghost predicate Valid()
      reads this, stream
    {
      && ProducerOk() && ConsumerOk() && FormatOk() && InfoOk() && Joint()
      && (reopening ==> Mode() == Silent)
    }

    // ---- what a command can lead to, on the statuses, the file and the device

    ghost predicate Empty()
      reads this
    {
      producerStatus == PS_UNLOADED && consumerStatus == CS_STOPPED && ip.NoSource? && device.Closed?
    }

    ghost predicate Halted()
      reads this
    {
      producerStatus == PS_STOPPED && consumerStatus == CS_STOPPED && ip.Source? && !ip.open && device.Closed?
    }

    ghost predicate Plays()
      reads this
    {
      && producerStatus == PS_PLAYING && consumerStatus == CS_PLAYING
      && ip.Source? && ip.open && device == Open(Converted(ip.sf), false)
    }

    ghost predicate Pauses()
      reads this
    {
      && producerStatus == PS_PAUSED && consumerStatus == CS_PAUSED
      && ip.Source? && ip.open && !ip.remote && device == Open(Converted(ip.sf), true)
    }

    /** The producer goes on although the device is closed. */
    ghost predicate RunsAlone()
      reads this
    {
      producerStatus == PS_PLAYING && consumerStatus == CS_STOPPED && ip.Source? && ip.open && device.Closed?
    }

    ghost predicate PlaysNew(w: World)
      reads this
    {
      Plays() && ip.remote == w.remote && ip.sf == w.sf
    }

    /** Opening the current file, or the next one if there is none, and then the device. */
    ghost predicate Opened(none: bool, w: World)
      reads this
    {
      if !w.o.ipOpens || (none && !w.o.hasNext) then Empty() else if w.o.deviceOpens then PlaysNew(w) else Halted()
    }

    /** Going on with a new file on the device that was open with format sf. */
    ghost predicate Replaced(sf: Format, w: World)
      reads this
    {
      if !w.o.ipOpens then Empty() else if Converted(w.sf) == sf || w.o.deviceOpens then PlaysNew(w) else Halted()
    }

    /** Opening the device for a file that is being read already. */
    ghost predicate Resumed(was: Source, w: World)
      reads this
      requires was.Source?
    {
      if w.o.deviceOpens then Plays() && ip == was.(eof := ip.eof) else Halted()
    }

    /** What a start of playback leaves of the queue: it is rewound if the file can be. */
    ghost function Left(w: World): nat
      reads this, stream
    {
      if RunsAlone() && (ip.remote || !w.seekOk) then |stream.queue| else 0
    }

    lemma OneOfFive()
      requires Valid()
      ensures Empty() <==> Mode() == Unloaded
      ensures Halted() <==> Mode() == Stopped
      ensures Plays() <==> Mode() == Playing
      ensures Pauses() <==> Mode() == Paused
      ensures RunsAlone() <==> Mode() == Silent
    {
    }

    constructor ()
      ensures Valid() && Mode() == Unloaded && !reopening && !raced && fresh(stream)
    {
      producerStatus, consumerStatus, infoStatus := PS_UNLOADED, CS_STOPPED, CS_STOPPED;
      ip, device, bufferSf := NoSource, Closed, DEFAULT;
      reopening, errorMeanwhile, raced := false, false, false;
      stream := new SampleStream();
    }

    // ---- plugin calls: what each demands

    method IpNew()
      requires ip.NoSource?
      modifies `ip
      ensures ip == Source(false, false, DEFAULT, false)
    {
      ip := Source(false, false, DEFAULT, false);
    }

    method IpOpen(w: World) returns (ok: bool)
      requires ip.Source? && !ip.open
      modifies `ip
      ensures ok == w.o.ipOpens && ip == if ok then Source(true, w.remote, w.sf, false) else old(ip)
    {
      ok := w.o.ipOpens;
      if ok {
        ip := Source(true, w.remote, w.sf, false);
      }
    }

    method IpClose()
      requires ip.Source? && ip.open
      modifies `ip
      ensures ip == Source(false, false, DEFAULT, false)
    {
      ip := Source(false, false, DEFAULT, false);
    }

    method IpDelete()
      requires ip.Source? && !ip.open
      modifies `ip
      ensures ip == NoSource
    {
      ip := NoSource;
    }

    method IpSeek(w: World) returns (ok: bool)
      requires ip.Source? && ip.open
      modifies `ip
      ensures ok == (!old(ip.remote) && w.seekOk) && ip == old(ip).(eof := if ok then false else old(ip.eof))
    {
      ok := !ip.remote && w.seekOk;
      if ok {
        ip := ip.(eof := false);
      }
    }

    function IpGetSf(): Format
      reads this
      requires ip.Source? && ip.open
    {
      ip.sf
    }

    predicate IpEof()
      reads this
      requires ip.Source? && ip.open
    {
      ip.eof
    }

    method OpOpen(sf: Format, w: World) returns (ok: bool)
      requires device.Closed?
      modifies `device
      ensures ok == w.o.deviceOpens && device == if ok then Open(sf, false) else Closed
    {
      ok := w.o.deviceOpens;
      if ok {
        device := Open(sf, false);
      }
    }

    method OpDrop()
      requires device.Open?
    {
    }

    method OpClose()
      requires device.Open?
      modifies `device
      ensures device == Closed
    {
      device := Closed;
    }

    method OpPause()
      requires device.Open? && !device.paused
      modifies `device
      ensures device == old(device).(paused := true)
    {
      device := device.(paused := true);
    }

    method OpUnpause()
      requires device.Open? && device.paused
      modifies `device
      ensures device == old(device).(paused := false)
    {
      device := device.(paused := false);
    }

    // ---- publishing the status

    /** player_error */
    method PlayerError()
      modifies `infoStatus, `raced, `errorMeanwhile
      ensures infoStatus == consumerStatus && !raced && (errorMeanwhile <==> old(errorMeanwhile) || reopening)
    {
      infoStatus := consumerStatus;
      raced := false;
      errorMeanwhile := errorMeanwhile || reopening;
    }

    /** __player_status_changed */
    method StatusChanged()
      modifies `infoStatus, `raced
      ensures infoStatus == consumerStatus && !raced
    {
      infoStatus := consumerStatus;
      raced := false;
    }

    // ---- the producer's side

    /** __producer_play */
    method ProducerPlay(w: World)
      requires ProducerOk() && !reopening
      modifies `producerStatus, `ip, `infoStatus, `raced, `errorMeanwhile, stream
      ensures ProducerOk() && old(stream.trace) <= stream.trace
      ensures old(producerStatus) == PS_UNLOADED || old(producerStatus) == PS_STOPPED ==>
        if w.o.ipOpens && (old(producerStatus) == PS_UNLOADED ==> w.o.hasNext)
        then producerStatus == PS_PLAYING && ip == Source(true, w.remote, w.sf, false)
        else producerStatus == PS_UNLOADED
      ensures old(producerStatus) == PS_PLAYING || old(producerStatus) == PS_PAUSED
        ==> producerStatus == PS_PLAYING && ip == old(ip).(eof := ip.eof)
      ensures old(producerStatus) == PS_PLAYING && !old(ip.remote) && w.seekOk ==>
        stream.queue == [] && stream.consumerPos == 0
      ensures old(producerStatus) != PS_PLAYING ==>
        stream.trace == old(stream.trace) && stream.consumerPos == old(stream.consumerPos)
      ensures stream.queue ==
        if old(producerStatus) == PS_PLAYING && !old(ip.remote) && w.seekOk then [] else old(stream.queue)
      ensures old(producerStatus) == PS_PLAYING && (old(ip.remote) || !w.seekOk) ==>
        stream.consumerPos == old(stream.consumerPos)
      ensures (infoStatus == old(infoStatus) && raced == old(raced)) || (infoStatus == consumerStatus && !raced)
    {
      if producerStatus == PS_UNLOADED {
        if w.o.hasNext {
          IpNew();
          var ok := IpOpen(w);
          if !ok {
            PlayerError();
            IpDelete();
          } else {
            producerStatus := PS_PLAYING;
          }
        }
      } else if producerStatus == PS_PLAYING {
        var ok := IpSeek(w);
        if ok {
          stream.ResetBuffer();
        }
      } else if producerStatus == PS_STOPPED {
        var ok := IpOpen(w);
        if !ok {
          PlayerError();
          IpDelete();
          producerStatus := PS_UNLOADED;
        } else {
          producerStatus := PS_PLAYING;
        }
      } else {
        producerStatus := PS_PLAYING;
      }
    }

    /** __producer_stop */
    method ProducerStop()
      requires ProducerOk()
      modifies `producerStatus, `ip, stream
      ensures ProducerOk() && old(stream.trace) <= stream.trace
      ensures producerStatus == if old(producerStatus) == PS_UNLOADED then PS_UNLOADED else PS_STOPPED
    {
      if producerStatus == PS_PLAYING || producerStatus == PS_PAUSED {
        IpClose();
        producerStatus := PS_STOPPED;
        stream.ResetBuffer();
      }
    }

    /** __producer_unload */
    method ProducerUnload()
      requires ProducerOk()
      modifies `producerStatus, `ip, stream
      ensures ProducerOk() && old(stream.trace) <= stream.trace && producerStatus == PS_UNLOADED
    {
      ProducerStop();
      if producerStatus == PS_STOPPED {
        IpDelete();
        producerStatus := PS_UNLOADED;
      }
    }

    /** __producer_set_file */
    method ProducerSetFile()
      requires ProducerOk()
      modifies `producerStatus, `ip, stream
      ensures ProducerOk() && old(stream.trace) <= stream.trace && producerStatus == PS_STOPPED
    {
      ProducerUnload();
      IpNew();
      producerStatus := PS_STOPPED;
    }

    /** One ip_read with what follows it in __prebuffer and producer_loop; done when there is
        nothing more to read in this critical section. */
    method ReadOnce(r: Read) returns (done: bool)
      requires ProducerOk() && producerStatus == PS_PLAYING
      modifies `ip, `infoStatus, `raced, `errorMeanwhile, stream
      ensures ProducerOk() && old(stream.trace) <= stream.trace && ip == old(ip).(eof := ip.eof)
      ensures stream.consumerPos == old(stream.consumerPos)
      ensures if r.Error?
              then infoStatus == consumerStatus && !raced && (errorMeanwhile <==> old(errorMeanwhile) || reopening)
              else infoStatus == old(infoStatus) && raced == old(raced) && errorMeanwhile == old(errorMeanwhile)
      ensures done <==> !r.Data? || r.n == 0
      ensures |stream.queue| == |old(stream.queue)| + Got(r)
      ensures stream.trace == old(stream.trace) + if r.Full? || r.Again? then [] else [Gain.Fill(Got(r))]
      ensures ip.eof <==> old(ip.eof) || Last(r)
    {
      hide SampleStream.Valid, Gain.From, Gain.Next;
      match r
      case Full =>
        done := true;
      case Again =>
        done := true;
      case Error =>
        ip := ip.(eof := true);
        PlayerError();
        stream.BufferFill(0);
        done := true;
      case End =>
        ip := ip.(eof := true);
        stream.BufferFill(0);
        done := true;
      case Data(n) =>
        if n == 0 {
          ip := ip.(eof := true);
        }
        stream.BufferFill(n);
        done := n == 0;
    }

    /** __prebuffer, until the reads that the limit allows are used up. */
    method Prebuffer(w: World)
      requires ProducerOk() && producerStatus == PS_PLAYING && !reopening
      modifies `ip, `infoStatus, `raced, `errorMeanwhile, stream
      ensures ProducerOk() && old(stream.trace) <= stream.trace && ip == old(ip).(eof := ip.eof)
      ensures stream.consumerPos == old(stream.consumerPos)
      ensures |stream.queue| == |old(stream.queue)| + Delivered(w.input)
      ensures (infoStatus == old(infoStatus) && raced == old(raced)) || (infoStatus == consumerStatus && !raced)
    {
      var i := 0;
      assert w.input[0..] == w.input;
      while i < |w.input|
        invariant ProducerOk() && old(stream.trace) <= stream.trace && ip == old(ip).(eof := ip.eof)
        invariant i <= |w.input| && |stream.queue| + Delivered(w.input[i..]) == |old(stream.queue)| + Delivered(w.input)
        invariant stream.consumerPos == old(stream.consumerPos)
        invariant (infoStatus == old(infoStatus) && raced == old(raced)) || (infoStatus == consumerStatus && !raced)
      {
        var done := ReadOnce(w.input[i]);
        assert w.input[i..][1..] == w.input[i + 1..];
        if done && !w.input[i].Again? {
          break;
        }
        i := i + 1;
      }
    }

    // ---- the consumer's side

    /** __consumer_play */
    method ConsumerPlay(w: World)
      requires ConsumerOk() && FormatOk() && ip.Source? && ip.open
      modifies `consumerStatus, `device, `bufferSf, `infoStatus, `raced, `errorMeanwhile
      ensures ConsumerOk() && FormatOk()
      ensures consumerStatus == if old(consumerStatus) == CS_STOPPED && !w.o.deviceOpens then CS_STOPPED else CS_PLAYING
      ensures if consumerStatus == CS_STOPPED then infoStatus == CS_STOPPED && !raced
              else infoStatus == old(infoStatus) && raced == old(raced) && errorMeanwhile == old(errorMeanwhile)
    {
      if consumerStatus == CS_PLAYING {
        OpDrop();
      } else if consumerStatus == CS_STOPPED {
        bufferSf := Converted(IpGetSf());
        var ok := OpOpen(bufferSf, w);
        if !ok {
          PlayerError();
        } else {
          consumerStatus := CS_PLAYING;
        }
      } else {
        OpUnpause();
        consumerStatus := CS_PLAYING;
      }
    }

    /** __consumer_stop, and __consumer_drain_and_stop when nothing is dropped. */
    method ConsumerStop(drop: bool)
      requires ConsumerOk()
      modifies `consumerStatus, `device
      ensures ConsumerOk() && consumerStatus == CS_STOPPED
    {
      if consumerStatus == CS_PLAYING || consumerStatus == CS_PAUSED {
        if drop {
          OpDrop();
        }
        OpClose();
        consumerStatus := CS_STOPPED;
      }
    }

    /** change_sf: continue on the open device with the new file, reopening it when the format
        differs; if that fails both sides stop. */
    method ChangeSf(drop: bool, w: World) returns (ok: bool)
      requires ProducerOk() && ConsumerOk() && producerStatus == PS_PLAYING && consumerStatus != CS_STOPPED
      requires !reopening
      modifies `producerStatus, `consumerStatus, `ip, `device, `bufferSf, `infoStatus, `raced, `errorMeanwhile, stream
      ensures ProducerOk() && ConsumerOk() && FormatOk() && old(stream.trace) <= stream.trace
      ensures ok == (Converted(old(ip.sf)) == old(bufferSf) || w.o.deviceOpens)
      ensures if ok then producerStatus == PS_PLAYING && consumerStatus == CS_PLAYING && ip == old(ip)
              else producerStatus == PS_STOPPED && consumerStatus == CS_STOPPED
      ensures stream.queue == if ok then old(stream.queue) else []
      ensures ok ==> stream.trace == old(stream.trace) && stream.consumerPos == old(stream.consumerPos)
    {
      hide SampleStream.Valid, Gain.From, Gain.Next;
      var oldSf := bufferSf;
      bufferSf := Converted(IpGetSf());
      if bufferSf != oldSf {
        if drop {
          OpDrop();
        }
        OpClose();
        ok := OpOpen(bufferSf, w);
        if !ok {
          PlayerError();
          consumerStatus := CS_STOPPED;
          ProducerStop();
          return;
        }
      } else if consumerStatus == CS_PAUSED {
        OpDrop();
        OpUnpause();
      }
      consumerStatus := CS_PLAYING;
      ok := true;
    }

    // ---- the commands, each holding both locks

    ghost function EventOf(c: Command, w: World): Event
      reads this
    {
      Event(c, ip.Source? && ip.remote, Converted(w.sf) == bufferSf, w.o)
    }

    ghost function Expected(c: Command, w: World): Mode
      reads this
      requires Joint() && Enabled(Mode(), c)
    {
      var e := EventOf(c, w);
      Target(Mode(), c, e.remote, e.same, e.o)
    }

    /** player_stop */
    method PlayerStop(w: World)
      requires Valid() && !reopening
      modifies this, stream
      ensures Valid() && !reopening && !raced && old(stream.trace) <= stream.trace
      ensures if old(Empty()) then Empty() else Halted()
      ensures Mode() == old(Expected(Stop, w)) && stream.queue == [] && stream.consumerPos == 0
    {
      ConsumerStop(true);
      ProducerStop();
      StatusChanged();
    }

    /** Start from a closed device, as pause and seek do; the status is published by the caller
        unless something failed. */
    method StartClosed(w: World)
      requires Valid() && !reopening && consumerStatus == CS_STOPPED
      modifies this, stream
      ensures ProducerOk() && ConsumerOk() && FormatOk() && Joint() && !reopening && old(stream.trace) <= stream.trace
      ensures consumerStatus == CS_STOPPED ==> InfoOk()
      ensures Mode() == Start(old(Mode()), w.o)
      ensures old(Empty()) || old(Halted()) ==> Opened(old(Empty()), w)
      ensures old(RunsAlone()) ==> Resumed(old(ip), w)
      ensures Plays() ==> |stream.queue| == old(Left(w))
      ensures Plays() ==> bufferSf == Converted(ip.sf)
      ensures Plays() ==>
        stream.consumerPos == if old(RunsAlone()) && (old(ip.remote) || !w.seekOk) then old(stream.consumerPos) else 0
    {
      hide SampleStream.Valid, Gain.From, Gain.Next;
      ProducerPlay(w);
      if producerStatus == PS_PLAYING {
        ConsumerPlay(w);
        if consumerStatus != CS_PLAYING {
          ProducerStop();
        }
      }
    }

    /** The part of player_play before prebuffering. */
    method PlayBoth(w: World)
      requires Valid() && !reopening
      modifies this, stream
      ensures Valid() && !reopening && old(stream.trace) <= stream.trace
      ensures !raced
      ensures Mode() == if old(Mode()) == Playing || old(Mode()) == Paused then Playing else Start(old(Mode()), w.o)
      ensures old(Mode()) == Playing && !old(ip.remote) && w.seekOk ==> stream.queue == [] && stream.consumerPos == 0
      ensures old(Mode()) == Paused ==> stream.trace == old(stream.trace)
      ensures old(Empty()) || old(Halted()) ==> Opened(old(Empty()), w)
      ensures old(RunsAlone()) ==> Resumed(old(ip), w)
      ensures old(Plays()) || old(Pauses()) ==> Plays() && ip == old(ip).(eof := ip.eof)
      ensures Plays() && !old(Plays()) && !old(Pauses()) ==> |stream.queue| == old(Left(w))
    {
      hide SampleStream.Valid, Gain.From, Gain.Next;
      ProducerPlay(w);
      if producerStatus == PS_PLAYING {
        ConsumerPlay(w);
        if consumerStatus != CS_PLAYING {
          ProducerStop();
        }
      } else {
        ConsumerStop(true);
      }
      StatusChanged();
    }

    /** player_play */
    method PlayerPlay(w: World)
      requires Valid() && !reopening
      modifies this, stream
      ensures Valid() && !reopening && old(stream.trace) <= stream.trace
      ensures Mode() == old(Expected(Play, w)) && (!old(raced) ==> !raced)
      ensures old(Mode()) == Playing && !old(ip.remote) && w.seekOk ==> stream.queue == [] && stream.consumerPos == 0
      ensures old(Mode()) == Paused ==> stream.trace == old(stream.trace)
      ensures old(Empty()) || old(Halted()) ==> Opened(old(Empty()), w)
      ensures old(Plays()) || old(Pauses()) ==> Plays() && ip == old(ip).(eof := ip.eof)
      ensures old(RunsAlone()) ==> if old(ip.remote) then RunsAlone() && ip == old(ip) else Resumed(old(ip), w)
      ensures Plays() && !old(Plays()) && !old(Pauses()) ==> |stream.queue| == old(Left(w)) + Delivered(w.input)
    {
      if producerStatus == PS_PLAYING && ip.remote {
        return;
      }
      var prebuffer := consumerStatus == CS_STOPPED;
      PlayBoth(w);
      if consumerStatus == CS_PLAYING && prebuffer {
        Prebuffer(w);
      }
    }

    /** player_pause */
    method PlayerPause(w: World)
      requires Valid() && !reopening
      modifies this, stream
      ensures Valid() && !reopening && old(stream.trace) <= stream.trace
      ensures Mode() == old(Expected(Pause, w))
      ensures old(Mode()) == Playing || old(Mode()) == Paused ==> stream.trace == old(stream.trace)
      ensures old(Empty()) || old(Halted()) ==> Opened(old(Empty()), w)
      ensures old(Plays()) ==> ip == old(ip) && if ip.remote then Plays() else Pauses()
      ensures old(Pauses()) ==> ip == old(ip) && Plays()
      ensures old(RunsAlone()) ==> Resumed(old(ip), w)
      ensures Plays() && !old(Plays()) && !old(Pauses()) ==> |stream.queue| == old(Left(w)) + Delivered(w.input)
    {
      if consumerStatus == CS_STOPPED {
        StartClosed(w);
        StatusChanged();
        if consumerStatus == CS_PLAYING {
          Prebuffer(w);
        }
        return;
      }
      if ip.Source? && ip.remote {
        return;
      }
      if producerStatus == PS_PLAYING {
        producerStatus := PS_PAUSED;
      } else if producerStatus == PS_PAUSED {
        producerStatus := PS_PLAYING;
      }
      if consumerStatus == CS_PLAYING {
        OpPause();
        consumerStatus := CS_PAUSED;
      } else if consumerStatus == CS_PAUSED {
        OpUnpause();
        consumerStatus := CS_PLAYING;
      }
      StatusChanged();
    }

    /** player_set_file */
    method PlayerSetFile(w: World)
      requires Valid() && !reopening
      modifies this, stream
      ensures Valid() && !reopening && old(stream.trace) <= stream.trace
      ensures Mode() == old(Expected(SetFile, w)) && stream.consumerPos == 0
      ensures if old(Plays()) || old(Pauses()) then Replaced(old(bufferSf), w) else Halted()
      ensures |stream.queue| == if Plays() then Delivered(w.input) else 0
    {
      hide SampleStream.Valid, Gain.From, Gain.Next;
      ProducerSetFile();
      if consumerStatus == CS_PLAYING || consumerStatus == CS_PAUSED {
        SwitchFile(w);
      }
      StatusChanged();
      if producerStatus == PS_PLAYING {
        Prebuffer(w);
      }
    }

    /** Open the file just set, on the open device. */
    method SwitchFile(w: World)
      requires ProducerOk() && ConsumerOk() && producerStatus == PS_STOPPED && consumerStatus != CS_STOPPED
      requires !reopening
      modifies `producerStatus, `consumerStatus, `ip, `device, `bufferSf, `infoStatus, `raced, `errorMeanwhile, stream
      ensures ProducerOk() && ConsumerOk() && FormatOk() && Joint() && old(stream.trace) <= stream.trace
      ensures Mode() == Switch(Converted(w.sf) == old(bufferSf), w.o) && stream.consumerPos == 0
      ensures Replaced(old(bufferSf), w) && stream.queue == []
    {
      hide SampleStream.Valid, Gain.From, Gain.Next, Converted;
      ProducerPlay(w);
      if producerStatus == PS_UNLOADED {
        ConsumerStop(true);
      } else {
        var _ := ChangeSf(true, w);
      }
    }

    /** Open the file just set, on the open device or a new one. */
    method StartFile(w: World)
      requires ProducerOk() && ConsumerOk() && FormatOk() && producerStatus == PS_STOPPED && !reopening
      modifies this, stream
      ensures ProducerOk() && ConsumerOk() && FormatOk() && Joint() && !reopening && old(stream.trace) <= stream.trace
      ensures Mode() == if old(consumerStatus) == CS_STOPPED then Start(Stopped, w.o)
                        else Switch(Converted(w.sf) == old(bufferSf), w.o)
      ensures stream.consumerPos == 0
      ensures if old(consumerStatus) == CS_STOPPED then Opened(false, w) else Replaced(old(bufferSf), w)
      ensures stream.queue == []
    {
      hide SampleStream.Valid, Gain.From, Gain.Next;
      ProducerPlay(w);
      if producerStatus == PS_UNLOADED {
        ConsumerStop(true);
      } else if consumerStatus == CS_STOPPED {
        ConsumerPlay(w);
        if consumerStatus == CS_STOPPED {
          ProducerStop();
        }
      } else {
        var _ := ChangeSf(true, w);
      }
    }

    /** player_play_file */
    method PlayerPlayFile(w: World)
      requires Valid() && !reopening
      modifies this, stream
      ensures Valid() && !reopening && old(stream.trace) <= stream.trace
      ensures Mode() == old(Expected(PlayFile, w)) && stream.consumerPos == 0
      ensures if old(Plays()) || old(Pauses()) then Replaced(old(bufferSf), w) else Opened(false, w)
      ensures |stream.queue| == if Plays() then Delivered(w.input) else 0
    {
      hide SampleStream.Valid, Gain.From, Gain.Next;
      ProducerSetFile();
      StartFile(w);
      StatusChanged();
      if producerStatus == PS_PLAYING {
        Prebuffer(w);
      }
    }

    /** Where player_seek takes an open device: nowhere when the file cannot be sought. */
    ghost function SeekPosition(offset: real, relative: bool, w: World): Option<nat>
      reads this, stream
      requires ip.Source?
    {
      Sought(stream.consumerPos, ip.remote, bufferSf, offset, relative, w)
    }

    /** The seek proper. */
    method SeekOpen(offset: real, relative: bool, w: World)
      requires Valid() && consumerStatus != CS_STOPPED
      modifies `ip, stream
      ensures Valid() && ip == old(ip).(eof := ip.eof) && old(stream.trace) <= stream.trace
      ensures var to := old(SeekPosition(offset, relative, w));
              if to.Some? then stream.queue == [] && stream.consumerPos == to.value
              else stream.trace == old(stream.trace)
      ensures ip.eof <==> old(ip.eof) && old(SeekPosition(offset, relative, w)).None?
      ensures stream.consumerPos == OrElse(old(SeekPosition(offset, relative, w)), old(stream.consumerPos))
      ensures old(SeekPosition(offset, relative, w)).None? ==> stream.queue == old(stream.queue)
    {
      hide SampleStream.Valid, Gain.From, Gain.Next, SeekTarget, Converted, SecondSize;
      var pos := stream.consumerPos as real / SecondSize(bufferSf) as real;
      var duration := if ip.remote then -1 else w.duration;
      if duration < 0 {
        return;
      }
      var target := SeekTarget(pos, duration as real, offset, relative);
      if target.None? {
        return;
      }
      SeekStaysInside(pos, duration as real, offset, relative);
      var ok := IpSeek(w);
      if ok {
        OpDrop();
        var newPos := (target.value * SecondSize(bufferSf) as real).Floor;
        stream.SeekTo(newPos);
      }
    }

    /** player_seek */
    method PlayerSeek(offset: real, relative: bool, w: World)
      requires Valid() && !reopening
      modifies this, stream
      ensures Valid() && !reopening && old(stream.trace) <= stream.trace
      ensures Mode() == old(Expected(Seek, w))
      ensures old(Mode()) == Playing || old(Mode()) == Paused ==>
                var to := old(SeekPosition(offset, relative, w));
                if to.Some? then stream.queue == [] && stream.consumerPos == to.value
                else stream.trace == old(stream.trace)
      ensures old(Plays()) ==> Plays() && ip == old(ip).(eof := ip.eof)
      ensures old(Pauses()) ==> Pauses() && ip == old(ip).(eof := ip.eof)
      ensures old(Empty()) || old(Halted()) ==>
        Opened(old(Empty()), w) && stream.queue == []
        && (Plays() ==> stream.consumerPos == OrElse(Sought(0, w.remote, Converted(w.sf), offset, relative, w), 0))
      ensures old(RunsAlone()) ==> Resumed(old(ip), w)
      ensures old(RunsAlone()) && w.o.deviceOpens ==>
        var from := if old(ip.remote) || !w.seekOk then old(stream.consumerPos) else 0;
        stream.consumerPos == OrElse(Sought(from, ip.remote, Converted(ip.sf), offset, relative, w), from)
    {
      hide SampleStream.Valid, Gain.From, Gain.Next, Sought;
      if consumerStatus == CS_STOPPED {
        StartClosed(w);
        if consumerStatus == CS_STOPPED {
          return;
        }
        StatusChanged();
      }
      if consumerStatus == CS_PLAYING || consumerStatus == CS_PAUSED {
        SeekOpen(offset, relative, w);
      }
    }

    /** player_set_op */
    method PlayerSetOp(w: World)
      requires Valid() && !reopening
      modifies this, stream
      ensures Valid() && !reopening && old(stream.trace) <= stream.trace
      ensures Mode() == old(Expected(SetOp, w))
      ensures Mode() == Playing || Mode() == Paused ==> stream.trace == old(stream.trace)
      ensures w.o.selectOk && (old(Plays()) || old(Pauses())) ==>
        if !w.o.deviceOpens then Halted() else ip == old(ip) && if old(Plays()) then Plays() else Pauses()
      ensures w.o.selectOk && !old(Plays()) && !old(Pauses()) ==>
        ip == old(ip) && producerStatus == old(producerStatus) && device.Closed?
      ensures !w.o.selectOk ==> if old(Empty()) then Empty() else Halted()
    {
      hide SampleStream.Valid, Gain.From, Gain.Next;
      if consumerStatus == CS_PAUSED {
        OpDrop();
      }
      if consumerStatus == CS_PLAYING || consumerStatus == CS_PAUSED {
        OpClose();
      }
      if !w.o.selectOk {
        consumerStatus := CS_STOPPED;
        ProducerStop();
        PlayerError();
        return;
      }
      if consumerStatus == CS_PLAYING || consumerStatus == CS_PAUSED {
        bufferSf := Converted(IpGetSf());
        var ok := OpOpen(bufferSf, w);
        if !ok {
          consumerStatus := CS_STOPPED;
          ProducerStop();
          PlayerError();
          return;
        }
        if consumerStatus == CS_PAUSED {
          OpPause();
        }
      }
    }

    /** player_set_buffer_chunks; chunks is what buffer_init is called with, for an empty buffer. */
    method PlayerSetBufferChunks(nr: nat, w: World) returns (chunks: nat)
      requires Valid() && !reopening
      modifies this, stream
      ensures Valid() && !reopening && !raced && old(stream.trace) <= stream.trace
      ensures Mode() == old(Expected(SetBufferChunks, w)) && stream.queue == [] && stream.consumerPos == 0
      ensures 3 <= chunks <= 30 && (3 <= nr <= 30 ==> chunks == nr)
      ensures (nr < 3 ==> chunks == 3) && (nr > 30 ==> chunks == 30)
      ensures if old(Empty()) then Empty() else Halted()
    {
      chunks := nr;
      if chunks < 3 {
        chunks := 3;
      }
      if chunks > 30 {
        chunks := 30;
      }
      ProducerStop();
      ConsumerStop(true);
      StatusChanged();
    }

    // ---- the threads

    /** One critical section of producer_loop.  It holds only the producer's lock, so it can run
        while the consumer thread is reopening the device. */
    method ProducerSection(input: seq<Read>)
      requires Valid() && |input| == 2
      modifies `ip, `infoStatus, `raced, `errorMeanwhile, stream
      ensures Valid() && Mode() == old(Mode()) && reopening == old(reopening) && old(stream.trace) <= stream.trace
      ensures !old(raced) && !reopening ==> !raced
      ensures reopening && !old(ip.eof) && input[0].Error? ==> errorMeanwhile
      ensures (!old(Plays()) && !old(RunsAlone())) || old(ip.eof) ==> stream.queue == old(stream.queue) && ip == old(ip)
      ensures (old(Plays()) || old(RunsAlone())) && !old(ip.eof) ==>
        var second := input[0].Data? && input[0].n > 0;
        && |stream.queue| == |old(stream.queue)| + Got(input[0]) + (if second then Got(input[1]) else 0)
        && ip == old(ip).(eof := Last(input[0]) || (second && Last(input[1])))
    {
      hide SampleStream.Valid, Gain.From, Gain.Next, Converted;
      if producerStatus == PS_UNLOADED || producerStatus == PS_PAUSED || producerStatus == PS_STOPPED || IpEof() {
        return;
      }
      var done := ReadOnce(input[0]);
      if !done {
        done := ReadOnce(input[1]);
      }
    }

    /** One round of consumer_loop in which op_write succeeds. */
    method ConsumerWrite(readable: nat, space: nat, rc: nat)
      requires Valid() && !reopening && Mode() == Playing
      requires 0 < readable <= |stream.queue| && space >= 4096 && 1 <= rc <= readable && rc <= space
      modifies stream
      ensures Valid() && Plays() && |stream.queue| == |old(stream.queue)| - rc
      ensures stream.consumerPos == old(stream.consumerPos) + rc
      ensures stream.trace == old(stream.trace) + [Gain.Write(if readable > space then space else readable, rc)]
    {
      var _ := stream.WriteRound(readable, space, rc);
    }

    /** op_write failed: the device is closed, to be reopened. */
    method WriteFails(readable: nat, space: nat)
      requires Valid() && !reopening && Mode() == Playing
      requires 0 < readable <= |stream.queue| && space >= 4096
      modifies `device, `consumerStatus, `reopening, `errorMeanwhile, stream
      ensures Valid() && reopening && RunsAlone() && ip == old(ip) && !errorMeanwhile
      ensures |stream.queue| == |old(stream.queue)|
      ensures stream.trace == old(stream.trace) + [Gain.Write(if readable > space then space else readable, 0)]
    {
      var _ := stream.WriteRound(readable, space, -1);
      OpClose();
      consumerStatus := CS_STOPPED;
      reopening, errorMeanwhile := true, false;
    }

    /** The reopening, still holding the consumer's lock only. */
    method Reopen(w: World)
      requires Valid() && reopening
      modifies this
      ensures Valid() && !reopening
      ensures Mode() == Target(Playing, WriteError, false, true, w.o)
      ensures raced == (w.o.deviceOpens && (old(raced) || old(errorMeanwhile)))
      ensures if w.o.deviceOpens then Plays() && ip == old(ip) else RunsAlone() && ip == old(ip)
    {
      ghost var meanwhile := errorMeanwhile;
      ConsumerPlay(w);
      reopening := false;
      raced := raced || (consumerStatus == CS_PLAYING && meanwhile);
    }

    /** __consumer_handle_eof */
    method HandleEof(w: World)
      requires Valid() && !reopening && Mode() == Playing && stream.queue == [] && ip.eof
      modifies this, stream
      ensures Valid() && !reopening && old(stream.trace) <= stream.trace
      ensures Mode() == old(Expected(Eof, w))
      ensures if old(ip.remote) || (w.o.repeatCurrent && !w.o.cont) || (!w.o.repeatCurrent && w.o.hasNext && !w.o.cont)
              then Halted()
              else if w.o.repeatCurrent then Plays() && ip == old(ip).(eof := !w.seekOk) && stream.consumerPos == 0
              else if !w.o.hasNext then Empty()
              else Replaced(old(bufferSf), w) && |stream.queue| == if Plays() then Delivered(w.input) else 0
    {
      hide SampleStream.Valid, Gain.From, Gain.Next;
      if ip.remote {
        ProducerStop();
        ConsumerStop(false);
        PlayerError();
        return;
      }
      if w.o.repeatCurrent {
        if w.o.cont {
          var _ := IpSeek(w);
          stream.ResetBuffer();
        } else {
          ProducerStop();
          ConsumerStop(false);
          StatusChanged();
        }
        return;
      }
      if w.o.hasNext {
        NextFile(w);
      } else {
        ProducerUnload();
        ConsumerStop(false);
      }
      StatusChanged();
    }

    /** The part of __consumer_handle_eof that goes on to the next file. */
    method NextFile(w: World)
      requires ProducerOk() && ConsumerOk() && FormatOk() && Joint() && Mode() == Playing && !reopening
      modifies this, stream
      ensures ProducerOk() && ConsumerOk() && FormatOk() && Joint() && !reopening && old(stream.trace) <= stream.trace
      ensures Mode() == if w.o.cont then Switch(Converted(w.sf) == old(bufferSf), w.o) else Stopped
      ensures if !w.o.cont then Halted()
              else Replaced(old(bufferSf), w) && |stream.queue| == if Plays() then Delivered(w.input) else 0
    {
      hide SampleStream.Valid, Gain.From, Gain.Next;
      ProducerUnload();
      IpNew();
      producerStatus := PS_STOPPED;
      if w.o.cont {
        ProducerPlay(w);
        if producerStatus == PS_UNLOADED {
          ConsumerStop(true);
        } else {
          var ok := ChangeSf(false, w);
          if ok {
            Prebuffer(w);
          }
        }
      } else {
        ConsumerStop(false);
      }
    }

    /** player_set_soft_vol and player_set_rg */
    method SetScaling(soft: bool, on: bool)
      requires Valid() && !reopening
      modifies stream
      ensures Valid() && Mode() == old(Mode()) && old(stream.trace) <= stream.trace
    {
      hide SampleStream.Valid, Gain.From, Gain.Next;
      if soft {
        stream.SetSoftVolume(on);
      } else {
        stream.SetReplayGain(on);
      }
    }
  }

  /** Whatever a player went through, its scaling positions are in order, and if it was careful every
      byte it wrote with scaling on was scaled exactly once. */
  lemma PlayerScalesOnce(p: Player)
    requires p.Valid()
    ensures p.stream.softVol || p.stream.rg ==> p.stream.consumerPos <= p.stream.scalePos
    ensures Gain.CarefulFrom(Gain.INITIAL, p.stream.trace) ==> Gain.OnceEach(p.stream.View())
  {
    Gain.NeverFaults(p.stream.trace);
    if Gain.CarefulFrom(Gain.INITIAL, p.stream.trace) {
      Gain.ScaledExactlyOnce(p.stream.trace);
    }
  }

  /** Whatever happened before, stop leaves the device and the file closed, and a play command that
      finds its file and its device then plays that file in its format. */
  method StopThenPlay(p: Player, w: World)
    requires p.Valid() && !p.reopening && w.o.hasNext && w.o.ipOpens && w.o.deviceOpens
    modifies p, p.stream
    ensures p.Valid() && p.Mode() == Playing && p.infoStatus == CS_PLAYING
    ensures p.ip.Source? && p.ip.open && p.device == Open(Converted(p.ip.sf), false)
  {
    hide SampleStream.Valid, Gain.From, Gain.Next;
    p.PlayerStop(w);
    assert p.device == Closed && !(p.ip.Source? && p.ip.open);
    p.PlayerPlay(w);
  }

  /** The published status can be wrong for good: whenever a write error, a read error reported
      by the other thread and a successful reopening come in this order. */
  method StatusRace(p: Player, w: World)
    requires p.Valid() && !p.reopening && p.Mode() == Playing && p.stream.queue != [] && !p.ip.eof && w.o.deviceOpens
    modifies p, p.stream
    ensures p.Valid() && !p.reopening && p.consumerStatus == CS_PLAYING && p.infoStatus != CS_PLAYING
  {
    p.WriteFails(|p.stream.queue|, 4096);
    p.ProducerSection([Error, Again]);
    p.Reopen(w);
  }
}

/** What the commands of player.c do to the pair of producer and consumer, as one automaton:
    the reference that the two-status implementation is proved against. */
module PlayerModes {
  /** The five joint states.  Silent: the producer plays on although the device is closed. */
  datatype Mode = Unloaded | Stopped | Playing | Paused | Silent

  datatype Command = Stop | Play | Pause | SetFile | PlayFile | Seek | SetOp | SetBufferChunks | Eof | WriteError

  /** What the environment answers during one command, and the two options consulted at the end
      of a file. */
  datatype Outcome = Outcome(hasNext: bool, ipOpens: bool, deviceOpens: bool, selectOk: bool, repeatCurrent: bool,
                             cont: bool)

  /** The end of a file and write errors are met by the consumer thread while playing. */
  predicate Enabled(m: Mode, c: Command) {
    c.Eof? || c.WriteError? ==> m == Playing
  }

  /** Starting from a closed device: open the file if needed, then the device. */
  function Start(m: Mode, o: Outcome): Mode {
    if (m == Unloaded && !(o.hasNext && o.ipOpens)) || (m == Stopped && !o.ipOpens) then Unloaded
    else if o.deviceOpens then Playing else Stopped
  }

  /** Opening a new file on an open device, which is reopened only for another format. */
  function Switch(same: bool, o: Outcome): Mode {
    if !o.ipOpens then Unloaded else if same || o.deviceOpens then Playing else Stopped
  }

  function Halt(m: Mode): Mode {
    if m == Unloaded then Unloaded else Stopped
  }

  /** The joint state after a command.  remote tells whether the current file is a stream, same
      whether the new file has the format the device is open with. */
  function Target(m: Mode, c: Command, remote: bool, same: bool, o: Outcome): Mode
    requires Enabled(m, c)
  {
    match c
    case Stop => Halt(m)
    case Play => if m == Playing || m == Paused then Playing else if m == Silent && remote then Silent else Start(m, o)
    case Pause => if m == Playing then (if remote then Playing else Paused)
                  else if m == Paused then Playing else Start(m, o)
    case SetFile => if m == Playing || m == Paused then Switch(same, o) else Stopped
    case PlayFile => if m == Playing || m == Paused then Switch(same, o) else Start(Stopped, o)
    case Seek => if m == Playing || m == Paused then m else Start(m, o)
    case SetOp => if !o.selectOk then Halt(m)
                  else if (m == Playing || m == Paused) && !o.deviceOpens then Stopped else m
    case SetBufferChunks => Halt(m)
    case Eof => if remote then Stopped
                else if o.repeatCurrent then (if o.cont then Playing else Stopped)
                else if !o.hasNext then Unloaded
                else if o.cont then Switch(same, o) else Stopped
    case WriteError => if o.deviceOpens then Playing else Silent
  }

  datatype Event = Event(c: Command, remote: bool, same: bool, o: Outcome)

  predicate Run(modes: seq<Mode>, events: seq<Event>) {
    && |modes| == |events| + 1 && modes[0] == Unloaded
    && forall i :: 0 <= i < |events| ==>
         var e := events[i];
         Enabled(modes[i], e.c) && modes[i + 1] == Target(modes[i], e.c, e.remote, e.same, e.o)
  }

  lemma RunGoesOn(modes: seq<Mode>, events: seq<Event>, e: Event)
    requires Run(modes, events) && Enabled(modes[|events|], e.c)
    ensures Run(modes + [Target(modes[|events|], e.c, e.remote, e.same, e.o)], events + [e])
  {
    hide Target;
    var ms, es := modes + [Target(modes[|events|], e.c, e.remote, e.same, e.o)], events + [e];
    forall i | 0 <= i < |es|
      ensures Enabled(ms[i], es[i].c) && ms[i + 1] == Target(ms[i], es[i].c, es[i].remote, es[i].same, es[i].o)
    {
      if i < |events| {
        assert ms[i] == modes[i] && ms[i + 1] == modes[i + 1] && es[i] == events[i];
      }
    }
  }

  predicate FailedReopen(m: Mode, e: Event) {
    m == Playing && e.c == WriteError && !e.o.deviceOpens
  }

  /** The producer runs with the device closed only since a write error whose reopening failed. */
  lemma {:induction false} SilentOnlyAfterFailedReopen(modes: seq<Mode>, events: seq<Event>, i: nat) returns (j: nat)
    requires Run(modes, events) && i < |modes| && modes[i] == Silent
    ensures j < i && FailedReopen(modes[j], events[j])
    ensures forall k :: j < k <= i ==> modes[k] == Silent
  {
    var e := events[i - 1];
    if modes[i - 1] == Silent {
      j := SilentOnlyAfterFailedReopen(modes, events, i - 1);
    } else {
      j := i - 1;
    }
  }
}

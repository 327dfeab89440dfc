/** The player together with everything that drives it: the commands, and the loops of the two
    threads; its history is a run of the automaton. */
module Session {
  import opened PlayerModes
  import opened Player

  class Session {
    const player: Player
    ghost var modes: seq<Mode>      // the joint states so far
    ghost var events: seq<Event>    // what led from one to the next

    /** The history is a run of the automaton that ends in m. */
    ghost predicate History(m: Mode)
      reads this
    {
      Run(modes, events) && modes[|events|] == m
    }

    /** It ends in the player's mode; a write error is entered once its reopening is over. */
    ghost predicate Valid()
      reads this, player, player.stream
    {
      player.Valid() && History(if player.reopening then Playing else player.Mode())
    }

    constructor ()
      ensures Valid() && events == [] && fresh(player) && fresh(player.stream)
    {
      player := new Player();
      modes, events := [Unloaded], [];
    }

    ghost method Log(e: Event, m: Mode)
      requires History(m) && Enabled(m, e.c)
      modifies this
      ensures events == old(events) + [e] && History(Target(m, e.c, e.remote, e.same, e.o))
    {
      hide Target;
      RunGoesOn(modes, events, e);
      modes := modes + [Target(m, e.c, e.remote, e.same, e.o)];
      events := events + [e];
    }

    /** A command, or the end of the file found by consumer_loop. */
    method Perform(c: Command, offset: real, relative: bool, chunks: nat, w: World)
      requires Valid() && !player.reopening && !c.WriteError?
      requires c.Eof? ==> player.Mode() == Playing && player.stream.queue == [] && player.ip.eof
      modifies this, player, player.stream
      ensures Valid() && !player.reopening && events == old(events) + [old(player.EventOf(c, w))]
    {
      hide History, Target, Player.Valid, Player.SeekPosition;
      Ready();
      Log(player.EventOf(c, w), player.Mode());
      match c {
        case Stop => player.PlayerStop(w);
        case Play => player.PlayerPlay(w);
        case Pause => player.PlayerPause(w);
        case SetFile => player.PlayerSetFile(w);
        case PlayFile => player.PlayerPlayFile(w);
        case Seek => player.PlayerSeek(offset, relative, w);
        case SetOp => player.PlayerSetOp(w);
        case SetBufferChunks => var _ := player.PlayerSetBufferChunks(chunks, w);
        case Eof => player.HandleEof(w);
      }
      Ready();
    }

    lemma Ready()
      requires player.Valid()
      ensures player.Joint()
    {
    }

    /** A critical section of producer_loop. */
    method Produce(input: seq<Read>)
      requires Valid() && |input| == 2
      modifies player, player.stream
      ensures Valid() && player.reopening == old(player.reopening)
      ensures old(player.Plays() || player.RunsAlone()) && !old(player.ip.eof) ==>
        |player.stream.queue| == |old(player.stream.queue)| + Got(input[0]) +
          (if input[0].Data? && input[0].n > 0 then Got(input[1]) else 0)
    {
      player.ProducerSection(input);
    }

    /** A round of consumer_loop: op_write takes rc bytes, or fails and the device is closed. */
    method Consume(readable: nat, space: nat, rc: int)
      requires Valid() && !player.reopening && player.Mode() == Playing
      requires 0 < readable <= |player.stream.queue| && space >= 4096 && rc != 0 && rc <= readable && rc <= space
      modifies player, player.stream
      ensures Valid() && (player.reopening <==> rc < 0)
    {
      if rc > 0 {
        player.ConsumerWrite(readable, space, rc);
      } else {
        player.WriteFails(readable, space);
      }
    }

    /** The rest of the round after a failed write. */
    method Reopen(w: World)
      requires Valid() && player.reopening
      modifies this, player
      ensures Valid() && !player.reopening && events == old(events) + [old(player.EventOf(WriteError, w))]
    {
      hide History, Player.Valid;
      Ready();
      Log(player.EventOf(WriteError, w), Playing);
      player.Reopen(w);
    }

    /** player_set_soft_vol and player_set_rg */
    method SetScaling(soft: bool, on: bool)
      requires Valid() && !player.reopening
      modifies player.stream
      ensures Valid()
    {
      player.SetScaling(soft, on);
    }
  }

  /** The producer of a real player, too, runs with the device closed only since a write error whose
      reopening failed. */
  lemma SilentOnlyAfterWriteError(s: Session) returns (j: nat)
    requires s.Valid() && !s.player.reopening && s.player.Mode() == Silent
    ensures |s.modes| == |s.events| + 1 && j < |s.events| && FailedReopen(s.modes[j], s.events[j])
    ensures forall k :: j < k < |s.modes| ==> s.modes[k] == Silent
  {
    j := SilentOnlyAfterFailedReopen(s.modes, s.events, |s.events|);
  }
}

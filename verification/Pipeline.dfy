/** The sample stream the player counts on is the queue of the chunk ring: every run of the two threads,
    with scaling switched anywhere in between, is a history of the stream. */
module Pipeline {
  import opened Bytes
  import opened Options
  import opened Ring
  import I = Interleaving
  import G = Gain

  /** What a step of the threads is to the stream.  Leaving the window after bytes were offered is a
      write that failed. */
  function StreamStep(s: I.State, step: I.Step): Option<G.Step> {
    match step
    case FillStep(n) => Some(G.Fill(n))
    case ConsumeStep(n) => if s.c.Reading? then Some(G.Write(|s.c.got|, n)) else None
    case LeaveRead => if s.c.Reading? && s.c.got != [] then Some(G.Write(|s.c.got|, 0)) else None
    case ResetStep => Some(G.Reset)
    case _ => None
  }

  /** A run with switches[i] thrown before step i: the history of the stream up to state i. */
  function History(states: seq<I.State>, steps: seq<I.Step>, switches: seq<seq<G.Step>>, i: nat): seq<G.Step>
    requires i <= |steps| == |switches| && |states| == |steps| + 1
  {
    if i == 0 then [] else
    History(states, steps, switches, i - 1) + switches[i - 1] +
      match StreamStep(states[i - 1], steps[i - 1]) case Some(g) => [g] case None => []
  }

  ghost predicate OnlySwitches(switches: seq<seq<G.Step>>) {
    forall i :: 0 <= i < |switches| ==> Switching(switches[i])
  }

  predicate Switching(steps: seq<G.Step>) {
    forall k :: 0 <= k < |steps| ==> G.Switches(steps[k])
  }

  /** The stream queues as many bytes as the ring, its position is what was consumed since the last
      reset, and that was accepted by the device. */
  predicate Same(s: I.State, g: G.State) {
    && |s.consumed| + |g.queue| == |s.filled| && g.consumerPos == |s.consumed| <= |g.written|
  }

  lemma {:induction false} SwitchesKeep(h: seq<G.Step>, switches: seq<G.Step>, s: I.State)
    requires Switching(switches) && G.After(h).Some? && Same(s, G.After(h).value)
    ensures G.After(h + switches).Some? && Same(s, G.After(h + switches).value)
    decreases |switches|
  {
    if switches == [] {
      assert h + switches == h;
    } else {
      var init, last := switches[..|switches| - 1], switches[|switches| - 1];
      hide G.From;
      SwitchesKeep(h, init, s);
      G.Extend(G.INITIAL, h + init, last);
      assert h + switches == h + init + [last];
    }
  }

  /** What was copied out of the read window is queued. */
  lemma GotIsQueued(s: I.State)
    requires I.Inv(s) && s.c.Reading? && s.c.got != []
    ensures |s.consumed| + |s.c.got| <= |s.filled|
  {
    hide Shape, Order, Consume, Contents;
    ConsumeTakes(s.ring, s.cnt, |s.c.got|);
    assert |I.Scaled(s.filled, s.rewritten)| == |s.filled|;
  }

  /** Where the step is one of the stream, the stream can take it. */
  lemma StepFollows(s: I.State, step: I.Step, g: G.State)
    requires I.Inv(s) && I.Enabled(s, step) && Same(s, g)
    ensures match StreamStep(s, step)
            case Some(t) => G.Enabled(g, t) && Same(I.Next(s, step), G.Next(g, t))
            case None => Same(I.Next(s, step), g)
  {
    hide Good, Contents, Fill, Consume, Poke;
    I.StepKeeps(s, step);
    if s.c.Reading? && s.c.got != [] {
      GotIsQueued(s);
    }
  }

  lemma {:induction false} StreamFollows(states: seq<I.State>, steps: seq<I.Step>, switches: seq<seq<G.Step>>, i: nat)
    requires I.Run(states, steps) && |switches| == |steps| && OnlySwitches(switches) && i <= |steps|
    ensures var g := G.After(History(states, steps, switches, i)); g.Some? && Same(states[i], g.value)
  {
    if i > 0 {
      hide G.From, G.Next, I.Next, I.Inv;
      StreamFollows(states, steps, switches, i - 1);
      var h, s, step := History(states, steps, switches, i - 1), states[i - 1], steps[i - 1];
      SwitchesKeep(h, switches[i - 1], s);
      I.RunKeeps(states, steps, i - 1);
      var g := G.After(h + switches[i - 1]).value;
      StepFollows(s, step, g);
      match StreamStep(s, step)
      case Some(t) => G.Extend(G.INITIAL, h + switches[i - 1], t);
      case None => assert h + switches[i - 1] + [] == h + switches[i - 1];
    }
  }

  /** In every run the stream's queue is as long as the ring's and its assertion holds; and if all its
      steps were careful, each byte consumed since the last reset is the byte filled at its place, as
      the consumer last rewrote it, and was scaled once if scaling was on. */
  lemma EachByteOnce(states: seq<I.State>, steps: seq<I.Step>, switches: seq<seq<G.Step>>, i: nat)
    requires I.Run(states, steps) && |switches| == |steps| && OnlySwitches(switches) && i <= |steps|
    ensures var s, h := states[i], History(states, steps, switches, i);
            && G.After(h).Some? && Good(s.ring, s.cnt)
            && var g := G.After(h).value;
               && |g.queue| == |Contents(s.ring, s.cnt)| && g.consumerPos == |s.consumed| <= |g.written| && !g.fault
               && (G.CarefulFrom(G.INITIAL, h) ==> forall k :: 0 <= k < |s.consumed| ==>
                     && k < |s.filled| && s.consumed[k] == I.Scaled(s.filled, s.rewritten)[k]
                     && var o := g.written[|g.written| - |s.consumed| + k]; o.on ==> o.times == 1)
  {
    hide G.From, G.CarefulFrom, Contents, Good, I.Scaled;
    StreamFollows(states, steps, switches, i);
    I.RunIsFifo(states, steps, i);
    var s, h := states[i], History(states, steps, switches, i);
    G.NeverFaults(h);
    if G.CarefulFrom(G.INITIAL, h) {
      G.ScaledExactlyOnce(h);
    }
  }
}

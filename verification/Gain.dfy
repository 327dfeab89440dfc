/** Soft volume and replay gain in player.c: samples are scaled in place in the ring buffer just
    before they are written to the device, and two stream positions remember which of them have
    been scaled already. */
module Gain {
  import opened Options

  const FRAME := 4          // bytes of a 16-bit stereo frame
  const SCALE := 65536
  const WRAP := 0x1_0000_0000

  /** A byte accepted by the device: how often it was scaled, and whether scaling was on then. */
  datatype Out = Out(times: nat, on: bool)

  /** queue holds, for every unread byte of the ring buffer, how often it has been scaled;
      written does so for every byte accepted by the device; fault records a failed assertion. */
  datatype State = State(consumerPos: nat, scalePos: nat, softVol: bool, rg: bool,
                         queue: seq<nat>, written: seq<Out>, fault: bool)
  {
    predicate On() {
      softVol || rg
    }
  }

  datatype Step =
    | Fill(n: nat)
    | Write(size: nat, rc: nat)   // rc == 0: op_write failed
    | Reset
    | Seek(pos: nat)
    | SetSoftVol(b: bool)
    | SetRg(b: bool)

  const INITIAL := State(0, 0, false, false, [], [], false)

  /** The consumer writes from what is queued, and the device takes at most what it is given. */
  predicate Enabled(s: State, step: Step) {
    step.Write? ==> 0 < step.size <= |s.queue| && step.rc <= step.size
  }

  /** Bytes lo..hi scaled once more. */
  function Scaled(q: seq<nat>, lo: nat, hi: nat): (r: seq<nat>)
    ensures |r| == |q|
  {
    seq(|q|, i requires 0 <= i < |q| => if lo <= i < hi then q[i] + 1 else q[i])
  }

  /** scale_samples on the first size queued bytes: what an earlier call covered is skipped, and
      of the rest only whole frames are scaled. */
  function ScaleSamples(s: State, size: nat): (t: State)
    ensures |t.queue| == |s.queue| && t.written == s.written && t.consumerPos == s.consumerPos
    ensures t.softVol == s.softVol && t.rg == s.rg && (t.fault ==> s.fault || s.scalePos < s.consumerPos)
  {
    if s.scalePos < s.consumerPos then s.(fault := true) else
    var offs := s.scalePos - s.consumerPos;
    if offs >= size then s else
    s.(scalePos := s.scalePos + (size - offs), queue := Scaled(s.queue, offs, offs + (size - offs) / FRAME * FRAME))
  }

  /** The first rc bytes, as the device accepts them. */
  function Taken(q: seq<nat>, rc: nat, on: bool): seq<Out>
    requires rc <= |q|
  {
    seq(rc, i requires 0 <= i < rc => Out(q[i], on))
  }

  /** The effect of a step: buffer_fill, one round of the consumer's inner loop, reset_buffer, a
      successful seek, player_set_soft_vol and player_set_rg. */
  function Next(s: State, step: Step): State
    requires Enabled(s, step)
  {
    match step
    case Fill(n) => s.(queue := s.queue + seq(n, _ => 0))
    case Write(size, rc) =>
      var t := if s.On() then ScaleSamples(s, size) else s;
      t.(queue := t.queue[rc..], consumerPos := t.consumerPos + rc,
         written := t.written + Taken(t.queue, rc, t.On()))
    case Reset => s.(queue := [], consumerPos := 0, scalePos := 0)
    case Seek(pos) => s.(queue := [], consumerPos := pos, scalePos := pos)
    case SetSoftVol(b) => (if s.On() then s else s.(scalePos := s.consumerPos)).(softVol := b)
    case SetRg(b) => (if s.On() then s else s.(scalePos := s.consumerPos)).(rg := b)
  }

  /** The positions are in order whenever scaling is on, and scaling never ran ahead of the data. */
  predicate Ordered(s: State) {
    !s.fault && (s.On() ==> s.consumerPos <= s.scalePos <= s.consumerPos + |s.queue|)
  }

  lemma StepOrdered(s: State, step: Step)
    requires Ordered(s) && Enabled(s, step)
    ensures Ordered(Next(s, step))
  {
  }

  /** What steps lead to from a state, or nothing when one of them was not possible. */
  function From(s: State, steps: seq<Step>): Option<State> {
    if steps == [] then Some(s) else
    var before := From(s, steps[..|steps| - 1]);
    if before.Some? && Enabled(before.value, steps[|steps| - 1])
    then Some(Next(before.value, steps[|steps| - 1])) else None
  }

  /** A history: from the start of the program. */
  function After(steps: seq<Step>): Option<State> {
    From(INITIAL, steps)
  }

  /** The assertion in scale_samples never fails, however scaling is switched on and off. */
  lemma {:induction false} NeverFaults(steps: seq<Step>)
    requires After(steps).Some?
    ensures Ordered(After(steps).value)
  {
    if steps != [] {
      NeverFaults(steps[..|steps| - 1]);
      StepOrdered(After(steps[..|steps| - 1]).value, steps[|steps| - 1]);
    }
  }

  // ---- exactly once

  predicate Switches(step: Step) {
    step.SetSoftVol? || step.SetRg?
  }

  /** What a caller can check on the two positions.  A round with scaling on is careful if what it
      offers beyond the scaled bytes is whole frames, whatever the device takes of it;
      player_set_soft_vol or player_set_rg, called while scaling is off, if nothing was scaled ahead
      of the consumer. */
  predicate Careful(s: State, step: Step) {
    match step
    case Write(size, _) =>
      var offs := s.scalePos - s.consumerPos;
      s.On() ==> size <= offs || (size - offs) % FRAME == 0
    case SetSoftVol(_) => !s.On() ==> s.scalePos <= s.consumerPos
    case SetRg(_) => !s.On() ==> s.scalePos <= s.consumerPos
    case _ => true
  }

  /** Every step from s on is careful in the state it is taken in. */
  predicate CarefulFrom(s: State, steps: seq<Step>)
    requires From(s, steps).Some?
  {
    steps == [] ||
    (CarefulFrom(s, steps[..|steps| - 1]) && Careful(From(s, steps[..|steps| - 1]).value, steps[|steps| - 1]))
  }

  /** Every byte written while scaling was on had been scaled exactly once. */
  predicate OnceEach(s: State) {
    forall i :: 0 <= i < |s.written| && s.written[i].on ==> s.written[i].times == 1
  }

  /** Exactly the queued bytes up to scalePos have been scaled, once; also while scaling is off. */
  predicate Exact(s: State) {
    && Ordered(s) && OnceEach(s)
    && s.scalePos <= s.consumerPos + |s.queue|
    && forall i :: 0 <= i < |s.queue| ==> s.queue[i] == if i < s.scalePos - s.consumerPos then 1 else 0
  }

  lemma WholeFrames(n: nat)
    requires n % FRAME == 0
    ensures n / FRAME * FRAME == n
  {
  }

  lemma ScaleExact(s: State, size: nat, rc: nat)
    requires Exact(s) && s.On() && size <= |s.queue| && Careful(s, Write(size, rc))
    ensures Exact(ScaleSamples(s, size)) && ScaleSamples(s, size).scalePos >= s.consumerPos + size
  {
    var offs := s.scalePos - s.consumerPos;
    if offs < size {
      WholeFrames(size - offs);
    }
  }

  lemma WriteExact(s: State, size: nat, rc: nat)
    requires Exact(s) && Enabled(s, Write(size, rc)) && Careful(s, Write(size, rc))
    ensures Exact(Next(s, Write(size, rc)))
  {
    hide ScaleSamples, Scaled, Careful;
    if s.On() {
      ScaleExact(s, size, rc);
    }
    StepOrdered(s, Write(size, rc));
  }

  lemma StepExact(s: State, step: Step)
    requires Exact(s) && Enabled(s, step) && Careful(s, step)
    ensures Exact(Next(s, step))
  {
    if step.Write? {
      WriteExact(s, step.size, step.rc);
    } else {
      StepOrdered(s, step);
    }
  }

  lemma {:induction false} StepsExact(s: State, steps: seq<Step>)
    requires Exact(s) && From(s, steps).Some? && CarefulFrom(s, steps)
    ensures Exact(From(s, steps).value)
  {
    if steps != [] {
      StepsExact(s, steps[..|steps| - 1]);
      StepExact(From(s, steps[..|steps| - 1]).value, steps[|steps| - 1]);
    }
  }

  /** Every byte the device accepted while scaling was on had been scaled exactly once, whatever
      short writes, failed writes, seeks, resets and switches happened on the way. */
  lemma ScaledExactlyOnce(steps: seq<Step>)
    requires After(steps).Some? && CarefulFrom(INITIAL, steps)
    ensures OnceEach(After(steps).value)
  {
    StepsExact(INITIAL, steps);
  }

  /** However the program goes on from s, with careful steps, each byte is scaled once. */
  ghost predicate StaysOnce(s: State) {
    forall more: seq<Step> :: From(s, more).Some? && CarefulFrom(s, more) ==> OnceEach(From(s, more).value)
  }

  /** Any further step keeps scaling exact exactly if it is careful; after any other step some
      careful continuation writes a byte that was not scaled, or scaled twice. */
  lemma StepIsSafeIff(steps: seq<Step>, step: Step)
    requires After(steps).Some? && CarefulFrom(INITIAL, steps) && Enabled(After(steps).value, step)
    ensures StaysOnce(Next(After(steps).value, step)) <==> Careful(After(steps).value, step)
  {
    hide StaysOnce, CarefulFrom, From;
    var s := After(steps).value;
    StepsExact(INITIAL, steps);
    if Careful(s, step) {
      StepExact(s, step);
      OnceFromExact(Next(s, step));
    } else if step.Write? {
      LeavesUnscaled(s, step.size, step.rc);
    } else {
      ScalesAgain(s, step);
    }
  }

  /** Bytes of a broken frame are passed over, and reach the device unscaled. */
  lemma LeavesUnscaled(s: State, size: nat, rc: nat)
    requires Exact(s) && Enabled(s, Write(size, rc)) && !Careful(s, Write(size, rc))
    ensures !StaysOnce(Next(s, Write(size, rc)))
  {
    hide StaysOnce;
    var t := Next(s, Write(size, rc));
    var z := FirstUnscaled(s, size, rc);
    assert From(t, []) == Some(t) && CarefulFrom(t, []);
    if rc > z {
      assert t.written[|s.written| + z] == Out(0, true);
      Refutes(t, []);
    } else {
      hide From, CarefulFrom;
      Extend(t, [], Write(size - rc, size - rc));
      UnscaledNext(t, size - rc, z - rc);
      Refutes(t, [] + [Write(size - rc, size - rc)]);
    }
  }

  lemma FirstUnscaled(s: State, size: nat, rc: nat) returns (z: nat)
    requires Exact(s) && Enabled(s, Write(size, rc)) && !Careful(s, Write(size, rc))
    ensures var t := Next(s, Write(size, rc));
            && z < size && t.On() && t.scalePos == t.consumerPos + (size - rc) && |t.queue| == |s.queue| - rc
            && |t.written| == |s.written| + rc
            && if rc > z then t.written[|s.written| + z] == Out(0, true) else t.queue[z - rc] == 0
  {
    var offs := s.scalePos - s.consumerPos;
    z := offs + (size - offs) / FRAME * FRAME;
    assert s.queue[z] == 0;
  }

  /** All of it counts as scaled, so nothing is. */
  lemma UnscaledNext(t: State, size: nat, z: nat)
    requires t.On() && t.scalePos == t.consumerPos + size && z < size <= |t.queue| && t.queue[z] == 0
    ensures Enabled(t, Write(size, size)) && Careful(t, Write(size, size))
    ensures !OnceEach(Next(t, Write(size, size)))
  {
    var u := Next(t, Write(size, size));
    assert u.written[|t.written| + z] == Out(0, true);
  }

  lemma OnceFromExact(s: State)
    requires Exact(s)
    ensures StaysOnce(s)
  {
    forall more: seq<Step> | From(s, more).Some? && CarefulFrom(s, more) ensures OnceEach(From(s, more).value) {
      StepsExact(s, more);
    }
  }

  lemma Extend(s: State, steps: seq<Step>, step: Step)
    requires From(s, steps).Some? && Enabled(From(s, steps).value, step)
    ensures From(s, steps + [step]) == Some(Next(From(s, steps).value, step))
    ensures CarefulFrom(s, steps + [step]) <==> CarefulFrom(s, steps) && Careful(From(s, steps).value, step)
  {
    assert (steps + [step])[..|steps|] == steps;
  }

  /** Switching forgets the scaled bytes: switched on, the next frame written is scaled again. */
  lemma ScalesAgain(s: State, step: Step)
    requires Exact(s) && !s.On() && Switches(step) && s.scalePos > s.consumerPos
    ensures !StaysOnce(Next(s, step))
  {
    hide StaysOnce;
    var t := Next(s, step);
    assert From(t, []) == Some(t) && CarefulFrom(t, []);
    hide From, CarefulFrom;
    var a, b := [] + [SetRg(true)], [] + [SetRg(true)] + [Fill(FRAME)];
    Extend(t, [], SetRg(true));
    var u := Next(t, SetRg(true));
    assert u.On() && u.scalePos == u.consumerPos && u.queue == s.queue && u.queue[0] == 1;
    Extend(t, a, Fill(FRAME));
    var v := Next(u, Fill(FRAME));
    assert |v.queue| >= FRAME && v.queue[0] == 1;
    Extend(t, b, Write(FRAME, FRAME));
    FrameAgain(v);
    Refutes(t, b + [Write(FRAME, FRAME)]);
  }

  lemma FrameAgain(u: State)
    requires u.On() && u.scalePos == u.consumerPos && |u.queue| >= FRAME && u.queue[0] == 1
    ensures !OnceEach(Next(u, Write(FRAME, FRAME)))
  {
    var v := Next(u, Write(FRAME, FRAME));
    assert v.written[|u.written|] == Out(2, true);
  }

  lemma Refutes(s: State, more: seq<Step>)
    requires From(s, more).Some? && CarefulFrom(s, more) && !OnceEach(From(s, more).value)
    ensures !StaysOnce(s)
  {
  }

  /** Of a round that scales and writes size bytes, exactly those are scaled that precede the
      last whole frame boundary counted from scalePos. */
  lemma WrittenScaledIff(s: State, size: nat, rc: nat, i: nat)
    requires Exact(s) && s.On() && Enabled(s, Write(size, rc)) && i < rc
    ensures var t := Next(s, Write(size, rc)); var offs := s.scalePos - s.consumerPos;
            && |t.written| == |s.written| + rc
            && (t.written[|s.written| + i].times == 1 <==> i < offs || (i - offs) / FRAME < (size - offs) / FRAME)
  {
  }

  /** Switching scaling off and on again rescales what is queued. */
  lemma ReenableScalesTwice()
    ensures var steps := [Fill(8), SetRg(true), Write(8, 4), SetRg(false), SetRg(true), Write(4, 4)];
            After(steps).Some? && |After(steps).value.written| == 8 && After(steps).value.written[4].times == 2
  {
    assert From(INITIAL, []) == Some(INITIAL);
    hide From;
    Extend(INITIAL, [], Fill(8));
    var a := [] + [Fill(8)];
    Extend(INITIAL, a, SetRg(true));
    var b := a + [SetRg(true)];
    Extend(INITIAL, b, Write(8, 4));
    var c := b + [Write(8, 4)];
    Extend(INITIAL, c, SetRg(false));
    var d := c + [SetRg(false)];
    Extend(INITIAL, d, SetRg(true));
    var e := d + [SetRg(true)];
    Extend(INITIAL, e, Write(4, 4));
    assert From(INITIAL, c).value.queue == [1, 1, 1, 1];
    assert e + [Write(4, 4)] == [Fill(8), SetRg(true), Write(8, 4), SetRg(false), SetRg(true), Write(4, 4)];
  }

  /** A device that takes six bytes leaves the half frame at their end unscaled. */
  lemma PartialFrameExample()
    ensures var steps := [Fill(8), SetRg(true), Write(6, 6)];
            After(steps).Some? && |After(steps).value.written| == 6 && After(steps).value.written[4].times == 0
  {
    assert From(INITIAL, []) == Some(INITIAL);
    hide From;
    Extend(INITIAL, [], Fill(8));
    var a := [] + [Fill(8)];
    Extend(INITIAL, a, SetRg(true));
    var b := a + [SetRg(true)];
    Extend(INITIAL, b, Write(6, 6));
    assert b + [Write(6, 6)] == [Fill(8), SetRg(true), Write(6, 6)];
  }

  /** The positions are 32 bits wide in the program.  Its check of the order then fires exactly
      when the scaled but unwritten stretch crosses a multiple of 2^32. */
  lemma WrappedCheckFiresIff(s: State)
    requires Ordered(s) && s.On() && |s.queue| < WRAP
    ensures s.scalePos % WRAP < s.consumerPos % WRAP <==> s.scalePos / WRAP > s.consumerPos / WRAP
  {
    var a, b := s.consumerPos, s.scalePos;
    assert a == a / WRAP * WRAP + a % WRAP && b == b / WRAP * WRAP + b % WRAP;
    assert b - a < WRAP;
  }

  /** It does so after a short write near 4 GiB of a stream. */
  lemma WrappedCheckExample()
    ensures var steps := [SetRg(true), Seek(WRAP - 8), Fill(16), Write(16, 4)];
            After(steps).Some? && After(steps).value.scalePos % WRAP < After(steps).value.consumerPos % WRAP
  {
    assert From(INITIAL, []) == Some(INITIAL);
    hide From;
    Extend(INITIAL, [], SetRg(true));
    var a := [] + [SetRg(true)];
    Extend(INITIAL, a, Seek(WRAP - 8));
    var b := a + [Seek(WRAP - 8)];
    Extend(INITIAL, b, Fill(16));
    var c := b + [Fill(16)];
    Extend(INITIAL, c, Write(16, 4));
    var t := From(INITIAL, c + [Write(16, 4)]).value;
    assert t.scalePos == WRAP + 8 && t.consumerPos == WRAP - 4;
    assert c + [Write(16, 4)] == [SetRg(true), Seek(WRAP - 8), Fill(16), Write(16, 4)];
  }

  // ---- one sample

  function Abs(i: int): nat {
    if i < 0 then -i else i
  }

  /** scale_sample, given the product sample * vol; C division truncates. */
  function ScaleProduct(negative: bool, product: int): int
    requires if negative then product <= 0 else product >= 0
  {
    if negative then
      var r := -((-product + SCALE / 2) / SCALE);
      if r < -32768 then -32768 else r
    else
      var r := (product + SCALE / 2) / SCALE;
      if r > 32767 then 32767 else r
  }

  /** The result is the nearest integer to product / 65536, clipped to 16 bits. */
  lemma RoundedAndClipped(negative: bool, product: int)
    requires if negative then product <= 0 else product >= 0
    ensures var r := ScaleProduct(negative, product);
            && -32768 <= r <= 32767
            && (-32768 < r < 32767 ==> Abs(SCALE * r - product) <= SCALE / 2)
            && (r == 32767 ==> SCALE * r - product <= SCALE / 2)
            && (r == -32768 ==> product - SCALE * r <= SCALE / 2)
  {
    var n: nat := if negative then -product else product;
    var q := (n + SCALE / 2) / SCALE;
    assert SCALE * q <= n + SCALE / 2 < SCALE * q + SCALE;
  }

  /** Full volume changes no sample. */
  lemma FullVolumeIsIdentity(sample: int)
    requires -32768 <= sample <= 32767
    ensures ScaleProduct(sample < 0, sample * SCALE) == sample
  {
    var n: nat := Abs(sample);
    assert (n * SCALE + SCALE / 2) / SCALE == n;
  }
}

/**
  Smoothing of audio timestamps: flash gives them in milliseconds, MPEG-TS wants
  90 kHz ticks that step by exactly one frame.
 */
module Align {
  const TWO_64 := 0x1_0000_0000_0000_0000
  const SYNC_TICKS := 180

  /** The largest time a 32-bit millisecond clock can give, in ticks. */
  const MAX_DTS := 0xffff_ffff * 90

  /** The fields: how many frames have been counted on from the base. */
  datatype Smoother = Smoother(frameNum: nat, frameBase: nat)

  /** Where the next frame is expected, in 64 bits. */
  function Expected(a: Smoother, inc: nat): nat {
    (a.frameBase + a.frameNum * inc) % TWO_64
  }

  predicate Near(x: int, y: int) {
    -SYNC_TICKS <= x - y <= SYNC_TICKS
  }

  function Next(a: Smoother, dts: nat, inc: nat): Smoother {
    if Near(Expected(a, inc), dts) then Smoother(a.frameNum + 1, a.frameBase) else Smoother(1, dts)
  }

  function Out(a: Smoother, dts: nat, inc: nat): nat {
    if Near(Expected(a, inc), dts) then Expected(a, inc) else dts
  }

  class Aligner {
    var frameNum: nat
    var frameBase: nat

    constructor ()
      ensures State() == Smoother(0, 0)
    {
      frameNum, frameBase := 0, 0;
    }

    function State(): Smoother
      reads this
    {
      Smoother(frameNum, frameBase)
    }

    method Align(dts: nat, inc: nat) returns (out: nat)
      modifies this
      ensures out == Out(old(State()), dts, inc) && State() == Next(old(State()), dts, inc)
    {
      var aFrameDts := dts;
      var estPts := (frameBase + frameNum * inc) % TWO_64;
      var dPts;
      if estPts >= aFrameDts {
        dPts := estPts - aFrameDts;
      } else {
        dPts := aFrameDts - estPts;
      }
      if dPts <= SYNC_TICKS {
        frameNum := frameNum + 1;
        return estPts;
      }
      frameNum := 1;
      frameBase := aFrameDts;
      out := dts;
    }
  }

  // ------------------------------------------------------------ whole runs

  /** The state after a run of inputs. */
  function After(inc: nat, ins: seq<nat>): Smoother {
    if ins == [] then Smoother(0, 0) else Next(After(inc, ins[..|ins| - 1]), ins[|ins| - 1], inc)
  }

  /** The outputs of a run. */
  function Outs(inc: nat, ins: seq<nat>): (outs: seq<nat>)
    ensures |outs| == |ins|
  {
    if ins == [] then []
    else
      var before, dts := ins[..|ins| - 1], ins[|ins| - 1];
      Outs(inc, before) + [Out(After(inc, before), dts, inc)]
  }

  /** The reference: step on by one frame from the last output, unless that is too far from the input. */
  function Stepped(inc: nat, ins: seq<nat>): (outs: seq<nat>)
    ensures |outs| == |ins|
  {
    if ins == [] then []
    else
      var before, dts := Stepped(inc, ins[..|ins| - 1]), ins[|ins| - 1];
      var next := if before == [] then 0 else before[|before| - 1] + inc;
      before + [if Near(next, dts) then next else dts]
  }

  /** Times as the server computes them, and a frame length that is one. */
  predicate Timely(inc: nat, ins: seq<nat>) {
    0 < inc < 0x1_0000_0000 && forall k :: 0 <= k < |ins| ==> ins[k] <= 0xffff_ffff * 90
  }

  /** Counting frames from a base is stepping on from the last output; nothing wraps round in 64 bits. */
  lemma {:induction false} CountingIsStepping(inc: nat, ins: seq<nat>)
    requires Timely(inc, ins)
    ensures Outs(inc, ins) == Stepped(inc, ins)
    ensures ins != [] ==> Counted(After(inc, ins), inc, Stepped(inc, ins)[|ins| - 1])
    decreases |ins|
  {
    if ins != [] {
      var before, dts := ins[..|ins| - 1], ins[|ins| - 1];
      CountingIsStepping(inc, before);
      if before == [] {
        assert Expected(Smoother(0, 0), inc) == 0;
        OneCounted(inc, 0);
        OneCounted(inc, dts);
      } else {
        CountStep(After(inc, before), dts, inc, Stepped(inc, before)[|before| - 1]);
      }
      hide Expected, Counted;
    }
  }

  /** The smoother has given out `last`, and expects one frame more next. */
  predicate Counted(a: Smoother, inc: nat, last: nat) {
    a.frameNum > 0 && a.frameBase + (a.frameNum - 1) * inc == last && last <= MAX_DTS + SYNC_TICKS
  }

  lemma OneCounted(inc: nat, dts: nat)
    requires dts <= MAX_DTS
    ensures Counted(Smoother(1, dts), inc, dts)
  {
  }

  lemma CountStep(a: Smoother, dts: nat, inc: nat, last: nat)
    requires Counted(a, inc, last) && inc < 0x1_0000_0000 && dts <= MAX_DTS
    ensures Expected(a, inc) == last + inc
    ensures Counted(Next(a, dts, inc), inc, Out(a, dts, inc))
  {
    assert a.frameNum * inc == (a.frameNum - 1) * inc + inc;
    assert Expected(a, inc) == last + inc;
    hide Expected;
    if Near(last + inc, dts) {
      assert Next(a, dts, inc) == Smoother(a.frameNum + 1, a.frameBase);
    } else {
      OneCounted(inc, dts);
    }
  }

  /** Every output is near its input, and follows the last by one frame exactly unless that would not be near. */
  lemma {:induction false} OutputLaw(inc: nat, ins: seq<nat>, k: nat)
    requires Timely(inc, ins) && k < |ins|
    ensures var outs := Outs(inc, ins);
            ins[k] <= outs[k] + 180 && outs[k] <= ins[k] + 180 &&
            (k > 0 ==> (outs[k] == outs[k - 1] + inc <==> ins[k] <= outs[k - 1] + inc + 180 && outs[k - 1] + inc <= ins[k] + 180)
                       && (outs[k] != outs[k - 1] + inc ==> outs[k] == ins[k]))
    ensures Outs(inc, ins)[0] == if ins[0] <= 180 then 0 else ins[0]
    decreases |ins|
  {
    CountingIsStepping(inc, ins);
    hide Outs;
    var before := ins[..|ins| - 1];
    if k < |ins| - 1 {
      CountingIsStepping(inc, before);
      OutputLaw(inc, before, k);
      assert Stepped(inc, ins)[..|ins| - 1] == Stepped(inc, before);
      hide Stepped;
    } else if k > 0 {
      CountingIsStepping(inc, before);
      OutputLaw(inc, before, 0);
      assert Stepped(inc, ins)[..|ins| - 1] == Stepped(inc, before);
    }
  }

  /** When time does not run back at the input, it runs back by at most 180 ticks at the output. */
  lemma HardlyBackwards(inc: nat, ins: seq<nat>, k: nat)
    requires Timely(inc, ins) && 0 < k < |ins| && ins[k - 1] <= ins[k]
    ensures Outs(inc, ins)[k] + 180 >= Outs(inc, ins)[k - 1]
  {
    OutputLaw(inc, ins, k);
    OutputLaw(inc, ins, k - 1);
    hide Outs;
  }

  /** And it does run back by that much: the bound is sharp. */
  lemma SharplyBackwards()
    ensures var ins: seq<nat> := [1000, 910, 910];
            Timely(90, ins) && Outs(90, ins) == [1000, 1090, 910]
  {
    var ins: seq<nat> := [1000, 910, 910];
    assert ins[..2] == [1000, 910] && [1000, 910][..1] == [1000] && [1000][..0] == [];
    CountingIsStepping(90, ins);
    assert Stepped(90, []) == [];
    assert Stepped(90, [1000]) == [1000];
    assert Stepped(90, [1000, 910]) == [1000, 1090];
  }
}

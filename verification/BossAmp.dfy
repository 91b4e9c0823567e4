/** The amplifier fault of the Bridgeport PLC (boss_plc.c, Amp_Refresh): an amplifier
    that has been enabled for the ready delay and is not ready is faulty. */
module BossAmp {
  import opened BossTimer

  datatype In = In(period: nat, enable: bool, ready: bool, readyDelay: U32)

  datatype State = State(timer: TimerState, lastEnable: bool, fault: bool)

  const INIT := State(ZERO, false, false)

  function Step(s: State, i: In): (r: State) {
    var ticked := Update(s.timer, i.period);
    var timer :=
      if !i.enable then Disable(ticked)
      else if !s.lastEnable then Enable(SetTimeout(ticked, i.readyDelay), OneShot)
      else ticked;
    State(timer, i.enable, i.enable && !i.ready && !timer.enabled)
  }

  class Amp {
    const timer: Timer
    var lastEnable: bool
    var faultOut: bool

    ghost function Value(): (r: State)
      reads this, timer
    {
      State(timer.Value(), lastEnable, faultOut)
    }

    constructor ()
      ensures Value() == INIT && fresh(timer)
    {
      timer := new Timer();
      lastEnable, faultOut := false, false;
    }

    method Refresh(i: In)
      modifies this, timer
      ensures Value() == Step(old(Value()), i)
    {
      timer.TimerUpdate(i.period);
      if i.enable {
        if !lastEnable {
          timer.TimerSetTimeout(i.readyDelay);
          timer.TimerEnable(OneShot);
        }
      } else {
        timer.TimerDisable();
      }
      faultOut := i.enable && !i.ready && !timer.enabled;
      lastEnable := i.enable;
    }
  }

  // --- runs -------------------------------------------------------------------

  function Run(ins: seq<In>): (r: State) {
    if ins == [] then INIT else Step(Run(ins[..|ins| - 1]), ins[|ins| - 1])
  }

  /** The periods of the refreshes after i. */
  function PeriodsAfter(ins: seq<In>, i: nat): (r: seq<nat>)
    requires i < |ins|
  {
    seq<nat>(|ins| - 1 - i, k requires 0 <= k < |ins| - 1 - i => ins[i + 1 + k].period)
  }

  /** The refresh at which the current enable began. */
  function Rise(ins: seq<In>): (i: nat)
    requires ins != [] && ins[|ins| - 1].enable
    ensures i < |ins| && (forall j | i <= j < |ins| :: ins[j].enable) && (i > 0 ==> !ins[i - 1].enable)
  {
    if |ins| == 1 || !ins[|ins| - 2].enable then |ins| - 1 else Rise(ins[..|ins| - 1])
  }

  lemma {:induction false} CarryBound(ins: seq<In>)
    ensures Run(ins).timer.nSec <= MSEC
    ensures Run(ins).lastEnable == (ins != [] && ins[|ins| - 1].enable)
  {
    if ins != [] {
      hide Update;
      CarryBound(ins[..|ins| - 1]);
      CarryStays(Run(ins[..|ins| - 1]).timer, ins[|ins| - 1].period);
    }
  }

  /** While enabled, the timer is the one-shot started at the rise, run for the
      periods since. */
  lemma {:induction false} TimerSinceRise(ins: seq<In>)
    requires ins != [] && ins[|ins| - 1].enable
    ensures var i := Rise(ins);
            var started := Update(Run(ins[..i]).timer, ins[i].period);
            Run(ins).timer == UpdateAll(Started(started, ins[i].readyDelay), PeriodsAfter(ins, i))
    decreases |ins|
  {
    hide Update;
    var before := ins[..|ins| - 1];
    var i := Rise(ins);
    CarryBound(before);
    if i == |ins| - 1 {
      assert PeriodsAfter(ins, i) == [];
    } else {
      TimerSinceRise(before);
      assert before[..i] == ins[..i];
      var periods := PeriodsAfter(ins, i);
      assert periods[..|periods| - 1] == PeriodsAfter(before, i);
    }
  }

  /** What the timer carried when it was last set going. */
  function Carry(ins: seq<In>): (c: nat)
    requires ins != [] && ins[|ins| - 1].enable
    ensures c <= MSEC
  {
    var i := Rise(ins);
    CarryBound(ins[..i]);
    TickTotal(Run(ins[..i]).timer, ins[i].period);
    Update(Run(ins[..i]).timer, ins[i].period).nSec
  }

  /** After every refresh: a fault means that the amplifier is not ready and has been
      enabled continuously since refresh i for at least the delay sampled there, less
      what the timer carried then; and an amplifier that is not ready after more than
      that delay is reported, provided no counter can wrap. */
  lemma {:induction false} FaultIsDelayedNotReady(ins: seq<In>)
    requires ins != []
    ensures var last := ins[|ins| - 1];
            && (!last.enable || last.ready ==> !Run(ins).fault)
            && (last.enable && !last.ready ==>
                  var i := Rise(ins);
                  var elapsed, delay := Sum(PeriodsAfter(ins, i)), ins[i].readyDelay;
                  && (Run(ins).fault ==> elapsed >= Shortest(Carry(ins), delay))
                  && (elapsed > 1000000 * delay && NoWrap(delay, PeriodsAfter(ins, i)) ==> Run(ins).fault))
  {
    if ins[|ins| - 1].enable {
      var i := Rise(ins);
      TimerSinceRise(ins);
      CarryBound(ins[..i]);
      TickTotal(Run(ins[..i]).timer, ins[i].period);
      OneShotTimer(Update(Run(ins[..i]).timer, ins[i].period), ins[i].readyDelay, PeriodsAfter(ins, i));
    }
  }

  lemma RunSnoc(ins: seq<In>, i: In)
    ensures Run(ins + [i]) == Step(Run(ins), i)
  {
    assert (ins + [i])[..|ins|] == ins;
  }

  /** A step from a known state to another. */
  lemma RunTo(ins: seq<In>, s: State, i: In, t: State)
    requires Run(ins) == s && Step(s, i) == t
    ensures Run(ins + [i]) == t
  {
    RunSnoc(ins, i);
  }

  const FIRST := In(MSEC, true, true, 1)
  const WAIT := In(1500000, true, true, 1)
  const OFF := In(MSEC, false, false, 0)
  const SECOND := In(MSEC, true, true, 2)
  const FAILS := In(1500000, true, false, 2)

  lemma HalfCarried()
    ensures Run([FIRST, WAIT, OFF, SECOND]) == State(Clock(true, 500000, 0, 2), true, false)
  {
    assert Step(INIT, FIRST) == State(Clock(true, 0, 0, 1), true, false);
    RunTo([], INIT, FIRST, State(Clock(true, 0, 0, 1), true, false));
    assert Tick(Clock(true, 0, 0, 1), 1500000) == Clock(true, 500000, 1, 1);
    assert [] + [FIRST] == [FIRST] && [FIRST] + [WAIT] == [FIRST, WAIT];
    assert [FIRST, WAIT] + [OFF] == [FIRST, WAIT, OFF] && [FIRST, WAIT, OFF] + [SECOND] == [FIRST, WAIT, OFF, SECOND];
    hide Tick, Run;
    RunTo([FIRST], State(Clock(true, 0, 0, 1), true, false), WAIT, State(Clock(false, 500000, 1, 1), true, false));
    RunTo([FIRST, WAIT], State(Clock(false, 500000, 1, 1), true, false), OFF,
          State(Clock(false, 500000, 1, 1), false, false));
    RunTo([FIRST, WAIT, OFF], State(Clock(false, 500000, 1, 1), false, false), SECOND,
          State(Clock(true, 500000, 0, 2), true, false));
  }

  /** Half a millisecond carried from a first enabling makes a fault come after one and
      a half of the two milliseconds of the second. */
  lemma ShortFaultDelay() returns (ins: seq<In>)
    ensures ins != [] && ins[|ins| - 1].enable && Run(ins).fault
    ensures var i := Rise(ins); Sum(PeriodsAfter(ins, i)) < 1000000 * ins[i].readyDelay
  {
    ins := [FIRST, WAIT, OFF, SECOND] + [FAILS];
    HalfCarried();
    assert Tick(Clock(true, 500000, 0, 2), 1500000) == Clock(true, 0, 2, 2);
    hide Tick, Run;
    RunTo([FIRST, WAIT, OFF, SECOND], State(Clock(true, 500000, 0, 2), true, false), FAILS,
          State(Clock(false, 0, 2, 2), true, true));
    assert ins[..4] == [FIRST, WAIT, OFF, SECOND];
    assert PeriodsAfter(ins, 3) == [] + [FAILS.period];
    UpdateSnoc(ZERO, [], FAILS.period);
  }
}

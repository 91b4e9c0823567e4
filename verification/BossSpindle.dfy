/** The spindle and brake interlock of the Bridgeport PLC (boss_plc.c,
    Plc_RefreshSpindle). Speeds are reals; every input pin may change at every
    refresh. */
module BossSpindle {
  import opened BossTimer

  // SsOther stands for any other value of the state word.
  datatype SpindleState = SsOff | SsWaitBrakeOff | SsWaitOn | SsOn | SsWaitOff | SsWaitBrakeOn | SsOther

  /** What one refresh sees: its period and the pins it reads. */
  datatype In = In(period: nat, brakeEn: bool, speed: real, isOn: bool, inc: bool, dec: bool,
                   brakeOffDelay: U32, brakeOnDelay: U32, loToHi: real)

  datatype State = State(spindle: SpindleState, timer: TimerState,
                         fwd: bool, rev: bool, brake: bool, incOut: bool, decOut: bool)

  /** After Plc_Init; pins and private memory start as zero. */
  const INIT := State(SsOff, ZERO, false, false, false, false, false)

  /** The switch of Plc_RefreshSpindle, on the updated timer. */
  function Switch(s: State, i: In): (r: State) {
    match s.spindle
    case SsOff =>
      if i.brakeEn then s
      else s.(spindle := SsWaitBrakeOff, brake := false,
              timer := Enable(SetTimeout(s.timer, i.brakeOffDelay), OneShot))
    case SsWaitBrakeOff =>
      if i.brakeEn then s.(spindle := SsOff, brake := true, timer := Disable(s.timer))
      else if i.speed != 0.0 && !s.timer.enabled then
        if i.speed > i.loToHi || (i.speed < 0.0 && i.speed >= -i.loToHi) then s.(spindle := SsWaitOn, fwd := true)
        else s.(spindle := SsWaitOn, rev := true)
      else s
    case SsWaitOn =>
      if i.isOn then s.(spindle := SsOn)
      else if i.speed == 0.0 then s.(spindle := SsWaitBrakeOff, fwd := false, rev := false)
      else s
    case SsOn =>
      if i.speed == 0.0 then s.(spindle := SsWaitOff, fwd := false, rev := false) else s
    case SsWaitOff =>
      if i.isOn then s
      else s.(spindle := SsWaitBrakeOn, timer := Enable(SetTimeout(s.timer, i.brakeOnDelay), OneShot))
    case SsWaitBrakeOn =>
      if s.timer.enabled then s else s.(spindle := SsWaitBrakeOff)
    case SsOther =>
      s.(spindle := SsWaitOff, fwd := false, rev := false)
  }

  function Step(s: State, i: In): (r: State) {
    var t := Switch(s.(timer := Update(s.timer, i.period)), i);
    t.(incOut := i.inc && !i.dec && i.isOn, decOut := i.dec && !i.inc && i.isOn)
  }

  class Plc {
    var spindleState: SpindleState
    const spindleTimer: Timer
    var spindleFwdOut: bool
    var spindleRevOut: bool
    var brakeEnOut: bool
    var spindleIncOut: bool
    var spindleDecOut: bool

    ghost function Value(): (r: State)
      reads this, spindleTimer
    {
      State(spindleState, spindleTimer.Value(), spindleFwdOut, spindleRevOut, brakeEnOut, spindleIncOut, spindleDecOut)
    }

    constructor ()
      ensures Value() == INIT && fresh(spindleTimer)
    {
      spindleState := SsOff;
      spindleTimer := new Timer();
      spindleFwdOut, spindleRevOut, brakeEnOut, spindleIncOut, spindleDecOut := false, false, false, false, false;
    }

    method RefreshSpindle(i: In)
      modifies this, spindleTimer
      ensures Value() == Step(old(Value()), i)
    {
      hide Update, Switch;
      spindleTimer.TimerUpdate(i.period);
      ghost var updated := Value();
      SwitchState(i);
      spindleIncOut := i.inc && !i.dec && i.isOn;
      spindleDecOut := i.dec && !i.inc && i.isOn;
      assert Value() == Switch(updated, i).(incOut := spindleIncOut, decOut := spindleDecOut);
    }

    /** The switch statement. */
    method SwitchState(i: In)
      modifies this, spindleTimer
      ensures Value() == Switch(old(Value()), i)
    {
      hide SetTimeout, Enable, Disable;
      match spindleState {
      case SsOff =>
        if !i.brakeEn {
          spindleState := SsWaitBrakeOff;
          brakeEnOut := false;
          spindleTimer.TimerSetTimeout(i.brakeOffDelay);
          spindleTimer.TimerEnable(OneShot);
        }
      case SsWaitBrakeOff =>
        if i.brakeEn {
          spindleState := SsOff;
          brakeEnOut := true;
          spindleTimer.TimerDisable();
        } else if i.speed != 0.0 && !spindleTimer.enabled {
          spindleState := SsWaitOn;
          if i.speed > i.loToHi || (i.speed < 0.0 && i.speed >= -i.loToHi) {
            spindleFwdOut := true;
          } else {
            spindleRevOut := true;
          }
        }
      case SsWaitOn =>
        if i.isOn {
          spindleState := SsOn;
        } else if i.speed == 0.0 {
          spindleState := SsWaitBrakeOff;
          spindleFwdOut := false;
          spindleRevOut := false;
        }
      case SsOn =>
        if i.speed == 0.0 {
          spindleState := SsWaitOff;
          spindleFwdOut := false;
          spindleRevOut := false;
        }
      case SsWaitOff =>
        if !i.isOn {
          spindleState := SsWaitBrakeOn;
          spindleTimer.TimerSetTimeout(i.brakeOnDelay);
          spindleTimer.TimerEnable(OneShot);
        }
      case SsWaitBrakeOn =>
        if !spindleTimer.enabled {
          spindleState := SsWaitBrakeOff;
        }
      case SsOther =>
        spindleState := SsWaitOff;
        spindleFwdOut := false;
        spindleRevOut := false;
      }
    }
  }

  // --- runs -------------------------------------------------------------------

  /** st[n] is the state after the first n refreshes. */
  ghost predicate IsRun(ins: seq<In>, st: seq<State>) {
    && |st| == |ins| + 1
    && st[0] == INIT
    && forall n | 0 <= n < |ins| :: st[n + 1] == Step(st[n], ins[n])
  }

  /** Nanoseconds from refresh a to refresh b - 1, both periods counted. */
  function Elapsed(ins: seq<In>, a: nat, b: nat): (r: nat)
    requires a <= b <= |ins|
  {
    if a == b then 0 else Elapsed(ins, a, b - 1) + ins[b - 1].period
  }

  lemma ElapsedStep(ins: seq<In>, a: nat, b: nat)
    requires a <= b <= |ins|
    ensures Elapsed(ins, a, a) == 0
    ensures a < b ==> Elapsed(ins, a, b) == Elapsed(ins, a, b - 1) + ins[b - 1].period
  {
  }

  predicate Drive(s: State) {
    s.fwd || s.rev
  }

  /** What holds in every reachable state. */
  predicate Sound(s: State) {
    && s.timer.nSec <= MSEC
    && !(s.fwd && s.rev)
    && (Drive(s) <==> s.spindle in {SsWaitOn, SsOn})
    && (s.brake ==> s.spindle == SsOff)
    && s.spindle != SsOther
    && (s.timer.enabled ==> Running(s.timer) && s.spindle in {SsWaitBrakeOff, SsWaitBrakeOn})
    && !(s.incOut && s.decOut)
  }

  lemma StepSound(s: State, i: In)
    requires Sound(s)
    ensures Sound(Step(s, i))
  {
    if s.timer.enabled {
      OneShotStep(s.timer, i.period);
    }
  }

  lemma {:induction false} RunSound(ins: seq<In>, st: seq<State>, n: nat)
    requires IsRun(ins, st) && n <= |ins|
    ensures Sound(st[n])
  {
    if n > 0 {
      RunSound(ins, st, n - 1);
      StepSound(st[n - 1], ins[n - 1]);
    }
  }

  /** Brake and drive are never on together, nor are both directions. */
  lemma Interlock(ins: seq<In>, st: seq<State>, n: nat)
    requires IsRun(ins, st) && n <= |ins|
    ensures !(st[n].brake && Drive(st[n])) && !(st[n].fwd && st[n].rev)
    ensures !(st[n].incOut && st[n].decOut)
  {
    RunSound(ins, st, n);
  }

  /** The direction asked for: below the gear threshold the drive turns the other way. */
  predicate WantsForward(i: In) {
    i.speed > i.loToHi || -i.loToHi <= i.speed < 0.0
  }

  lemma DirectionStep(s: State, x: In)
    requires Sound(s) && Drive(Step(s, x))
    ensures var t := Step(s, x);
            if Drive(s) then t.fwd == s.fwd && t.rev == s.rev
            else x.speed != 0.0 && t.fwd == WantsForward(x) && t.rev == !WantsForward(x)
  {
    hide Update;
  }

  /** A drive that is on has been on since some refresh j, in the direction asked for at
      j and no other since: the spindle reverses only through a stop. */
  lemma {:induction false} DirectionChosenAtStart(ins: seq<In>, st: seq<State>, n: nat) returns (j: nat)
    requires IsRun(ins, st) && n <= |ins| && Drive(st[n])
    ensures j < n && !Drive(st[j]) && ins[j].speed != 0.0
    ensures forall k | j < k <= n :: st[k].fwd == WantsForward(ins[j]) && st[k].rev == !WantsForward(ins[j])
  {
    RunSound(ins, st, n - 1);
    assert st[n] == Step(st[n - 1], ins[n - 1]);
    DirectionStep(st[n - 1], ins[n - 1]);
    hide IsRun, Step, WantsForward;
    if Drive(st[n - 1]) {
      j := DirectionChosenAtStart(ins, st, n - 1);
    } else {
      j := n - 1;
    }
  }

  /** Only a speed of zero turns a drive off; the brake input alone does not. */
  lemma DriveStopsOnZeroSpeed(ins: seq<In>, st: seq<State>, n: nat)
    requires IsRun(ins, st) && 0 < n <= |ins| && Drive(st[n - 1])
    ensures !Drive(st[n]) ==> ins[n - 1].speed == 0.0
  {
    RunSound(ins, st, n - 1);
  }

  /** The timer was set going `elapsed` nanoseconds ago with this carry. */
  predicate Counting(t: TimerState, delay: U32, carry: nat, elapsed: nat) {
    Running(t) && t.timeout == delay && Total(t) <= carry + elapsed
  }

  lemma CountingStep(t: TimerState, delay: U32, carry: nat, elapsed: nat, period: nat)
    requires Counting(t, delay, carry, elapsed)
    ensures var u := Update(t, period);
            if u.enabled then Counting(u, delay, carry, elapsed + period)
            else elapsed + period >= Shortest(carry, delay)
  {
    OneShotStep(t, period);
  }

  /** What a refresh does to the timer and the state word, in a sound state. */
  lemma SpindleStep(s: State, x: In)
    requires Sound(s)
    ensures var t := Step(s, x);
            && (s.timer.enabled && t.spindle == s.spindle && s.spindle != SsWaitOff ==>
                  t.timer == Update(s.timer, x.period))
            && (!s.timer.enabled ==> t.timer.nSec == s.timer.nSec)
            && (s.timer.enabled && t.spindle != s.spindle && t.spindle != SsOff ==>
                  s.spindle == SsWaitBrakeOff || s.spindle == SsWaitBrakeOn)
            && (s.timer.enabled && t.spindle != s.spindle && t.spindle != SsOff ==> !Update(s.timer, x.period).enabled)
            && (t.timer.enabled ==> s.timer.enabled || s.spindle == SsOff || s.spindle == SsWaitOff)
            && (s.spindle == SsOff && t.spindle != SsOff ==>
                  t.spindle == SsWaitBrakeOff && !x.brakeEn && t.timer.enabled && t.timer.mode == OneShot &&
                  t.timer.timeout == x.brakeOffDelay && t.timer.count == 0)
            && (s.spindle == SsWaitOff && t.spindle == SsWaitBrakeOn ==>
                  !x.isOn && t.timer.enabled && t.timer.mode == OneShot &&
                  t.timer.timeout == x.brakeOnDelay && t.timer.count == 0)
            && (s.spindle in {SsOn, SsWaitOff} ==> t.spindle in {SsOn, SsWaitOff, SsWaitBrakeOn})
            && (s.spindle == SsOn ==> t.spindle in {SsOn, SsWaitOff})
            && (s.spindle == SsWaitBrakeOn ==> t.spindle in {SsWaitBrakeOn, SsWaitBrakeOff})
            && (t.spindle == SsWaitBrakeOn ==> s.spindle in {SsWaitOff, SsWaitBrakeOn})
            && (s.spindle == SsWaitBrakeOn && t.spindle == SsWaitBrakeOff ==> !t.timer.enabled)
            && (t.brake ==> t.spindle == SsOff)
  {
  }

  /** The brake is released, and the timer counts towards `delay` or has finished. */
  predicate Releasing(s: State, delay: U32, carry: nat, elapsed: nat) {
    && !s.brake
    && if s.spindle == SsWaitBrakeOff && s.timer.enabled then Counting(s.timer, delay, carry, elapsed)
       else elapsed >= Shortest(carry, delay)
  }

  lemma ReleasingStarts(s: State, x: In)
    requires Sound(s) && s.spindle == SsOff && Step(s, x).spindle != SsOff
    ensures !x.brakeEn && Releasing(Step(s, x), x.brakeOffDelay, s.timer.nSec, 0)
  {
    hide Update, Step;
    SpindleStep(s, x);
    StepSound(s, x);
  }

  lemma ReleasingStep(s: State, x: In, delay: U32, carry: nat, elapsed: nat)
    requires Sound(s) && s.spindle != SsOff && Step(s, x).spindle != SsOff && Releasing(s, delay, carry, elapsed)
    ensures Releasing(Step(s, x), delay, carry, elapsed + x.period)
  {
    hide Update, Step;
    SpindleStep(s, x);
    if s.spindle == SsWaitBrakeOff && s.timer.enabled {
      CountingStep(s.timer, delay, carry, elapsed, x.period);
    }
  }

  /** The brake has been released since refresh i, and the timer has been counting
      since then unless it has finished. */
  ghost predicate ReleasedSince(ins: seq<In>, st: seq<State>, i: nat, n: nat)
    requires IsRun(ins, st)
  {
    && i < n <= |ins|
    && st[i].spindle == SsOff && !ins[i].brakeEn
    && (forall k | i < k <= n :: !st[k].brake)
    && Releasing(st[n], ins[i].brakeOffDelay, st[i].timer.nSec, Elapsed(ins, i + 1, n))
  }

  lemma {:induction false} FindRelease(ins: seq<In>, st: seq<State>, n: nat) returns (i: nat)
    requires IsRun(ins, st) && n <= |ins| && st[n].spindle != SsOff
    ensures ReleasedSince(ins, st, i, n)
  {
    RunSound(ins, st, n - 1);
    var s, x := st[n - 1], ins[n - 1];
    assert st[n] == Step(s, x);
    hide Step, IsRun, Counting, Sound, Elapsed;
    if s.spindle == SsOff {
      i := n - 1;
      ReleasingStarts(s, x);
      ElapsedStep(ins, n, n);
    } else {
      i := FindRelease(ins, st, n - 1);
      ReleasingStep(s, x, ins[i].brakeOffDelay, st[i].timer.nSec, Elapsed(ins, i + 1, n - 1));
      ElapsedStep(ins, i + 1, n);
    }
  }

  /** A drive output rises only when the brake has been continuously released, since
      the refresh i that released it, for at least the delay sampled there less what
      the timer carried then, at most one millisecond. */
  lemma DriveWaitsForBrake(ins: seq<In>, st: seq<State>, n: nat) returns (i: nat)
    requires IsRun(ins, st) && 0 < n <= |ins|
    requires !Drive(st[n - 1]) && Drive(st[n])
    ensures i < n - 1 && st[i].spindle == SsOff && !ins[i].brakeEn
    ensures forall k | i < k <= n :: !st[k].brake
    ensures st[i].timer.nSec <= MSEC && Elapsed(ins, i + 1, n) >= Shortest(st[i].timer.nSec, ins[i].brakeOffDelay)
  {
    RunSound(ins, st, n - 1);
    RunSound(ins, st, n);
    assert st[n] == Step(st[n - 1], ins[n - 1]);
    i := FindRelease(ins, st, n);
    RunSound(ins, st, i);
  }

  lemma {:induction false} UnusedTimer(ins: seq<In>, st: seq<State>, i: nat)
    requires IsRun(ins, st) && i <= |ins| && st[i].spindle == SsOff
    requires forall k | 0 <= k <= i :: !st[k].brake
    ensures st[i].timer == ZERO
  {
    if i > 0 {
      assert st[i] == Step(st[i - 1], ins[i - 1]);
      RunSound(ins, st, i - 1);
      UnusedTimer(ins, st, i - 1);
    }
  }

  /** Until the brake output has been on for the first time, the delay is never short. */
  lemma FirstDelayIsFull(ins: seq<In>, st: seq<State>, n: nat) returns (i: nat)
    requires IsRun(ins, st) && 0 < n <= |ins|
    requires !Drive(st[n - 1]) && Drive(st[n])
    requires forall k | 0 <= k <= n :: !st[k].brake
    ensures i < n - 1 && st[i].spindle == SsOff && !ins[i].brakeEn
    ensures Elapsed(ins, i + 1, n) >= 1000000 * ins[i].brakeOffDelay
  {
    i := DriveWaitsForBrake(ins, st, n);
    UnusedTimer(ins, st, i);
  }

  /** The wait for the brake is being timed, or has been long enough. */
  predicate Stopping(s: State, delay: U32, carry: nat, elapsed: nat) {
    if s.spindle == SsWaitBrakeOn && s.timer.enabled then Counting(s.timer, delay, carry, elapsed)
    else elapsed >= Shortest(carry, delay)
  }

  lemma StoppingStep(s: State, x: In, delay: U32, carry: nat, elapsed: nat)
    requires Sound(s) && Stopping(s, delay, carry, elapsed)
    requires !(s.spindle == SsWaitOff && Step(s, x).spindle == SsWaitBrakeOn)
    ensures Stopping(Step(s, x), delay, carry, elapsed + x.period)
  {
    hide Update, Step;
    SpindleStep(s, x);
    if s.spindle == SsWaitBrakeOn && s.timer.enabled {
      CountingStep(s.timer, delay, carry, elapsed, x.period);
    }
  }

  lemma StoppingStarts(s: State, x: In)
    requires Sound(s) && s.spindle == SsWaitOff && Step(s, x).spindle == SsWaitBrakeOn
    ensures !x.isOn && Stopping(Step(s, x), x.brakeOnDelay, s.timer.nSec, 0)
  {
    hide Update, Step;
    SpindleStep(s, x);
    StepSound(s, x);
  }

  lemma OnOrStopping(s: State, x: In)
    requires s.spindle in {SsOn, SsWaitOff} && !(s.spindle == SsWaitOff && Step(s, x).spindle == SsWaitBrakeOn)
    ensures Step(s, x).spindle in {SsOn, SsWaitOff}
  {
    hide Update;
  }

  /** Since state m the spindle has been on or waiting to stop (j == -1), or refresh
      j saw it stopped and the timer has been counting since then. */
  ghost predicate StoppingSince(ins: seq<In>, st: seq<State>, m: nat, j: int, n: nat)
    requires IsRun(ins, st)
  {
    && m <= n <= |ins|
    && if j == -1 then st[n].spindle in {SsOn, SsWaitOff}
       else
         && m <= j < n && st[j].spindle == SsWaitOff && !ins[j].isOn
         && Stopping(st[n], ins[j].brakeOnDelay, st[j].timer.nSec, Elapsed(ins, j + 1, n))
  }

  lemma StopStep(ins: seq<In>, st: seq<State>, m: nat, j0: int, n: nat) returns (j: int)
    requires IsRun(ins, st) && m < n <= |ins| && StoppingSince(ins, st, m, j0, n - 1)
    ensures StoppingSince(ins, st, m, j, n)
  {
    j := j0;
    RunSound(ins, st, n - 1);
    var s, x := st[n - 1], ins[n - 1];
    assert st[n] == Step(s, x);
    ElapsedStep(ins, if j0 == -1 then n else j0 + 1, n);
    hide IsRun, Step, Stopping, Sound, Elapsed;
    if s.spindle == SsWaitOff && st[n].spindle == SsWaitBrakeOn {
      StoppingStarts(s, x);
      ElapsedStep(ins, n, n);
      j := n - 1;
    } else if j == -1 {
      OnOrStopping(s, x);
    } else {
      StoppingStep(s, x, ins[j].brakeOnDelay, st[j].timer.nSec, Elapsed(ins, j + 1, n - 1));
    }
  }

  lemma {:induction false} FindStop(ins: seq<In>, st: seq<State>, m: nat, n: nat) returns (j: int)
    requires IsRun(ins, st) && m <= n <= |ins| && st[m].spindle in {SsOn, SsWaitOff}
    ensures StoppingSince(ins, st, m, j, n)
    decreases n - m
  {
    if n == m {
      j := -1;
    } else {
      hide IsRun, StoppingSince;
      j := FindStop(ins, st, m, n - 1);
      j := StopStep(ins, st, m, j, n);
    }
  }

  /** Once a driven spindle has been seen running (refresh m), the brake output can rise
      only when a later refresh j has seen the spindle stopped and, since then, the delay
      sampled there has passed, less what the timer carried then. */
  lemma BrakeWaitsForSpindle(ins: seq<In>, st: seq<State>, m: nat, n: nat) returns (j: nat)
    requires IsRun(ins, st) && m < n <= |ins| && Drive(st[m]) && ins[m].isOn
    requires !st[n - 1].brake && st[n].brake
    ensures m < j < n && st[j].spindle == SsWaitOff && !ins[j].isOn
    ensures st[j].timer.nSec <= MSEC && Elapsed(ins, j + 1, n) >= Shortest(st[j].timer.nSec, ins[j].brakeOnDelay)
  {
    RunSound(ins, st, m);
    RunSound(ins, st, n);
    assert st[m + 1] == Step(st[m], ins[m]);
    assert st[n] == Step(st[n - 1], ins[n - 1]);
    j := FindStop(ins, st, m + 1, n);
    RunSound(ins, st, j);
  }

  // --- what must happen -------------------------------------------------------

  /** When exactly a refresh turns the outputs on and off. */
  lemma RefreshOutputs(s: State, x: In)
    requires Sound(s)
    ensures var t := Step(s, x);
            && (!Drive(s) ==> (Drive(t) <==> s.spindle == SsWaitBrakeOff && !Update(s.timer, x.period).enabled &&
                                             !x.brakeEn && x.speed != 0.0))
            && (Drive(s) ==> (!Drive(t) <==> x.speed == 0.0 && (s.spindle == SsOn || !x.isOn)))
            && (t.brake <==> x.brakeEn && (s.brake || s.spindle == SsWaitBrakeOff))
            && (t.incOut <==> x.inc && !x.dec && x.isOn) && (t.decOut <==> x.dec && !x.inc && x.isOn)
  {
    hide Update;
  }

  /** The gear sets the direction: above the threshold the drive turns as the sign of the
      speed says, below it the other way. */
  lemma GearReverses(x: In)
    requires x.speed != 0.0 && x.loToHi >= 0.0
    ensures x.speed < -x.loToHi || 0.0 < x.speed <= x.loToHi <==> !WantsForward(x)
  {
  }

  /** Two refreshes in a row that see a speed of zero turn any drive off. */
  lemma ZeroTwiceStops(ins: seq<In>, st: seq<State>, n: nat)
    requires IsRun(ins, st) && 2 <= n <= |ins| && ins[n - 1].speed == 0.0 && ins[n - 2].speed == 0.0
    ensures !Drive(st[n])
  {
    RunSound(ins, st, n - 2);
    RunSound(ins, st, n - 1);
    RefreshOutputs(st[n - 2], ins[n - 2]);
    RefreshOutputs(st[n - 1], ins[n - 1]);
    assert st[n - 1] == Step(st[n - 2], ins[n - 2]) && st[n] == Step(st[n - 1], ins[n - 1]);
  }

  /** Small enough periods and delay for the timer not to wrap. */
  predicate Unwrapped(ins: seq<In>, a: nat, b: nat, delay: U32)
    requires a <= b <= |ins|
  {
    delay + 4295 <= TWO_32 && forall k | a <= k < b :: ins[k].period + MSEC < TWO_32
  }

  /** The timer has counted exactly `total` nanoseconds towards `delay`, not exceeded. */
  predicate Exact(t: TimerState, delay: U32, total: nat) {
    Running(t) && t.timeout == delay && Total(t) == total
  }

  /** The drive is on, or the timer still counts. */
  predicate Starting(s: State, delay: U32, total: nat) {
    Drive(s) || (s.spindle == SsWaitBrakeOff && Exact(s.timer, delay, total))
  }

  lemma StartingStep(s: State, x: In, delay: U32, total: nat)
    requires Sound(s) && Starting(s, delay, total) && !x.brakeEn && x.speed != 0.0
    requires delay + 4295 <= TWO_32 && x.period + MSEC < TWO_32
    ensures var t := Step(s, x);
            Starting(t, delay, total + x.period) && (Drive(t) || total + x.period <= 1000000 * delay)
  {
    hide Update;
    if !Drive(s) {
      OneShotExact(s.timer, x.period);
    }
  }

  lemma RunStep(ins: seq<In>, st: seq<State>, n: nat)
    requires IsRun(ins, st) && 0 < n <= |ins|
    ensures |st| == |ins| + 1 && Sound(st[n - 1]) && st[n] == Step(st[n - 1], ins[n - 1])
  {
    RunSound(ins, st, n - 1);
  }

  lemma StartingBegins(s: State, x: In)
    requires Sound(s)
    ensures s.spindle == SsOff && !x.brakeEn ==> Starting(Step(s, x), x.brakeOffDelay, s.timer.nSec)
    ensures s.spindle == SsWaitOff && !x.isOn ==> Braking(Step(s, x), x.brakeOnDelay, s.timer.nSec)
  {
    hide Update;
    if !s.timer.enabled {
      Disabled(s.timer, x.period);
    }
  }

  lemma {:induction false} StartingRun(ins: seq<In>, st: seq<State>, i: nat, n: nat)
    requires IsRun(ins, st) && i < n <= |ins| && st[i].spindle == SsOff && !ins[i].brakeEn
    requires forall k | i < k < n :: !ins[k].brakeEn && ins[k].speed != 0.0
    requires Unwrapped(ins, i + 1, n, ins[i].brakeOffDelay)
    ensures var total, delay := st[i].timer.nSec + Elapsed(ins, i + 1, n), ins[i].brakeOffDelay;
            && Starting(st[n], delay, total)
            && (n > i + 1 ==> Drive(st[n]) || total <= 1000000 * delay)
    decreases n
  {
    hide Step, Sound, Starting, Elapsed, Drive, IsRun;
    RunStep(ins, st, n);
    ElapsedStep(ins, i + 1, n);
    var s, x := st[n - 1], ins[n - 1];
    if n == i + 1 {
      StartingBegins(s, x);
    } else {
      StartingRun(ins, st, i, n - 1);
      StartingStep(s, x, ins[i].brakeOffDelay, st[i].timer.nSec + Elapsed(ins, i + 1, n - 1));
    }
  }

  /** If refresh i releases the brake, and then the brake input stays off and the speed
      other than zero, the drive is on as soon as more than the delay sampled at i has
      passed, in the direction that some refresh j since then has asked for. */
  lemma DriveStarts(ins: seq<In>, st: seq<State>, i: nat, n: nat) returns (j: nat)
    requires IsRun(ins, st) && i < n <= |ins| && st[i].spindle == SsOff && !ins[i].brakeEn
    requires forall k | i < k < n :: !ins[k].brakeEn && ins[k].speed != 0.0
    requires Unwrapped(ins, i + 1, n, ins[i].brakeOffDelay)
    requires Elapsed(ins, i + 1, n) > 1000000 * ins[i].brakeOffDelay
    ensures i < j < n && st[n].fwd == WantsForward(ins[j]) && st[n].rev == !WantsForward(ins[j])
  {
    StartingRun(ins, st, i, n);
    ElapsedStep(ins, i + 1, n);
    j := DirectionChosenAtStart(ins, st, n);
    RunSound(ins, st, i);
    RefreshOutputs(st[i], ins[i]);
    assert st[i + 1] == Step(st[i], ins[i]);
  }

  /** The brake is on, or is about to be, or the timer still counts. */
  predicate Braking(s: State, delay: U32, total: nat) {
    s.brake || s.spindle == SsWaitBrakeOff || (s.spindle == SsWaitBrakeOn && Exact(s.timer, delay, total))
  }

  lemma BrakingStep(s: State, x: In, delay: U32, total: nat)
    requires Sound(s) && Braking(s, delay, total) && x.brakeEn
    requires delay + 4295 <= TWO_32 && x.period + MSEC < TWO_32
    ensures var t := Step(s, x);
            && Braking(t, delay, total + x.period)
            && (s.spindle != SsWaitBrakeOn ==> t.brake)
            && (t.spindle == SsWaitBrakeOn ==> total + x.period <= 1000000 * delay)
  {
    hide Update;
    if s.spindle == SsWaitBrakeOn {
      OneShotExact(s.timer, x.period);
    }
  }

  lemma {:induction false} BrakingRun(ins: seq<In>, st: seq<State>, j: nat, n: nat)
    requires IsRun(ins, st) && j < n <= |ins| && st[j].spindle == SsWaitOff && !ins[j].isOn
    requires forall k | j < k < n :: ins[k].brakeEn
    requires Unwrapped(ins, j + 1, n, ins[j].brakeOnDelay)
    ensures var total, delay := st[j].timer.nSec + Elapsed(ins, j + 1, n), ins[j].brakeOnDelay;
            && Braking(st[n], delay, total)
            && (n > j + 1 && st[n].spindle == SsWaitBrakeOn ==> total <= 1000000 * delay)
    decreases n
  {
    hide Step, Sound, Braking, Elapsed, IsRun;
    RunStep(ins, st, n);
    ElapsedStep(ins, j + 1, n);
    var s, x := st[n - 1], ins[n - 1];
    if n == j + 1 {
      StartingBegins(s, x);
    } else {
      BrakingRun(ins, st, j, n - 1);
      BrakingStep(s, x, ins[j].brakeOnDelay, st[j].timer.nSec + Elapsed(ins, j + 1, n - 1));
    }
  }

  lemma {:induction false} RunsDown(ins: seq<In>, st: seq<State>, m: nat, j: nat)
    requires IsRun(ins, st) && m + 1 < j <= |ins| && Drive(st[m]) && ins[m].isOn && ins[m].speed != 0.0
    requires ins[m + 1].speed == 0.0 && forall k | m + 1 < k < j :: ins[k].isOn
    ensures st[j].spindle == SsWaitOff
  {
    RunSound(ins, st, m);
    assert st[m + 1] == Step(st[m], ins[m]) && st[m + 2] == Step(st[m + 1], ins[m + 1]);
    if j > m + 2 {
      RunsDown(ins, st, m, j - 1);
      assert st[j] == Step(st[j - 1], ins[j - 1]);
    }
  }

  lemma BrakeFollows(ins: seq<In>, st: seq<State>, j: nat, n: nat)
    requires IsRun(ins, st) && j + 1 < n <= |ins| && st[j].spindle == SsWaitOff && !ins[j].isOn
    requires forall k | j < k < n :: ins[k].brakeEn
    requires Unwrapped(ins, j + 1, n, ins[j].brakeOnDelay)
    requires Elapsed(ins, j + 1, n - 1) > 1000000 * ins[j].brakeOnDelay
    ensures st[n].brake
  {
    hide Step, Sound, Exact, Elapsed, IsRun;
    ElapsedStep(ins, j + 1, n - 1);
    RunStep(ins, st, n);
    BrakingRun(ins, st, j, n - 1);
    BrakingStep(st[n - 1], ins[n - 1], ins[j].brakeOnDelay, st[j].timer.nSec + Elapsed(ins, j + 1, n - 1));
  }

  /** A driven spindle is seen running at m, asked to stop at m + 1 and first seen stopped
      at j; if the brake input is then on, the brake is on again as soon as, before the
      last refresh, more than the delay sampled at j has passed. */
  lemma BrakeReturns(ins: seq<In>, st: seq<State>, m: nat, j: nat, n: nat)
    requires IsRun(ins, st) && m + 1 < j && j + 1 < n <= |ins| && Drive(st[m]) && ins[m].isOn && ins[m].speed != 0.0
    requires ins[m + 1].speed == 0.0 && (forall k | m + 1 < k < j :: ins[k].isOn) && !ins[j].isOn
    requires forall k | j < k < n :: ins[k].brakeEn
    requires Unwrapped(ins, j + 1, n, ins[j].brakeOnDelay)
    requires Elapsed(ins, j + 1, n - 1) > 1000000 * ins[j].brakeOnDelay
    ensures st[n].brake
  {
    RunsDown(ins, st, m, j);
    hide IsRun, Elapsed, Unwrapped;
    BrakeFollows(ins, st, j, n);
  }

  // --- delays that are short --------------------------------------------------

  function Refresh(period: nat, brakeEn: bool, speed: real, isOn: bool): (r: In) {
    In(period, brakeEn, speed, isOn, false, false, if speed == 0.0 then 2 else 1, 2, 500.0)
  }

  function Pins(spindle: SpindleState, timer: TimerState, fwd: bool, brake: bool): (r: State) {
    State(spindle, timer, fwd, false, brake, false, false)
  }

  /** One millisecond and a half leaves half a millisecond, which makes the next one
      and a half into two. */
  lemma HalfCarried()
    ensures Update(Clock(true, 0, 0, 1), 1500000) == Clock(false, 500000, 1, 1)
    ensures Update(Clock(true, 500000, 0, 2), 1500000) == Clock(false, 0, 2, 2)
  {
    assert Tick(Clock(true, 0, 0, 1), 1500000) == Clock(true, 500000, 1, 1);
    assert Tick(Clock(true, 500000, 0, 2), 1500000) == Clock(true, 0, 2, 2);
  }

  lemma Disabled(t: TimerState, period: nat)
    requires !t.enabled
    ensures Update(t, period) == t
  {
  }

  /** A first release is aborted while the timer carries half a millisecond; the second
      one, of two milliseconds, lets the drive start after one and a half. */
  lemma ShortDriveDelay() returns (ins: seq<In>, st: seq<State>)
    ensures IsRun(ins, st) && |ins| == 4
    ensures st[2].spindle == SsOff && !ins[2].brakeEn && !Drive(st[3]) && Drive(st[4]) && !st[3].brake && !st[4].brake
    ensures Elapsed(ins, 3, 4) < 1000000 * ins[2].brakeOffDelay
  {
    HalfCarried();
    Disabled(ZERO, MSEC);
    Disabled(Clock(false, 500000, 1, 1), MSEC);
    hide Update;
    ins := [Refresh(MSEC, false, 1000.0, false), Refresh(1500000, true, 0.0, false),
            Refresh(MSEC, false, 0.0, false), Refresh(1500000, false, 1000.0, false)];
    st := [INIT, Pins(SsWaitBrakeOff, Clock(true, 0, 0, 1), false, false),
           Pins(SsOff, Clock(false, 500000, 1, 1), false, true),
           Pins(SsWaitBrakeOff, Clock(true, 500000, 0, 2), false, false),
           Pins(SsWaitOn, Clock(false, 0, 2, 2), true, false)];
  }

  /** The brake-off delay leaves half a millisecond with the timer; the brake-on delay
      of two milliseconds then ends after one and a half. */
  lemma ShortBrakeDelay() returns (ins: seq<In>, st: seq<State>)
    ensures IsRun(ins, st) && |ins| == 7
    ensures st[3].spindle == SsOn && st[4].spindle == SsWaitOff && !ins[4].isOn && !st[6].brake && st[7].brake
    ensures Elapsed(ins, 5, 7) < 1000000 * ins[4].brakeOnDelay
  {
    HalfCarried();
    var half, done := Clock(false, 500000, 1, 1), Clock(false, 0, 2, 2);
    Disabled(ZERO, MSEC);
    Disabled(half, MSEC);
    Disabled(done, 1000);
    hide Update;
    ins := [Refresh(MSEC, false, 1000.0, false), Refresh(1500000, false, 1000.0, false),
            Refresh(MSEC, false, 1000.0, true), Refresh(MSEC, false, 0.0, true),
            Refresh(MSEC, false, 0.0, false), Refresh(1500000, false, 0.0, false), Refresh(1000, true, 0.0, false)];
    st := [INIT, Pins(SsWaitBrakeOff, Clock(true, 0, 0, 1), false, false), Pins(SsWaitOn, half, true, false),
           Pins(SsOn, half, true, false), Pins(SsWaitOff, half, false, false),
           Pins(SsWaitBrakeOn, Clock(true, 500000, 0, 2), false, false), Pins(SsWaitBrakeOff, done, false, false),
           Pins(SsOff, done, false, true)];
    assert Elapsed(ins, 5, 6) == 1500000 by { assert Elapsed(ins, 5, 5) == 0; }
  }
}

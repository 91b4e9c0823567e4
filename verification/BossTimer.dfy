/** The millisecond timer of the Bridgeport PLC (boss_plc.c). Its counters are u32
    words and wrap; the period of a refresh is in nanoseconds. */
module BossTimer {
  const TWO_32 := 0x1_0000_0000
  const MSEC := 1000000  // nanoseconds

  type U32 = x: int | 0 <= x < 0x1_0000_0000

  datatype Mode = OneShot | Continuous

  datatype TimerState = TimerState(enabled: bool, nSec: U32, count: U32, timeout: U32, mode: Mode)

  /** Private memory starts as zero. */
  const ZERO := TimerState(false, 0, 0, 0, OneShot)

  /** A timer in one-shot mode, counting or expired. */
  function Clock(enabled: bool, nSec: U32, count: U32, timeout: U32): (t: TimerState) {
    TimerState(enabled, nSec, count, timeout, OneShot)
  }

  function Wrap(x: int): (r: U32) {
    x % TWO_32
  }

  function SetTimeout(t: TimerState, timeout: U32): (r: TimerState) {
    t.(count := 0, timeout := timeout)
  }

  /** The nanosecond carry of the last run stays. */
  function Enable(t: TimerState, mode: Mode): (r: TimerState) {
    t.(mode := mode, enabled := true, count := 0)
  }

  function Disable(t: TimerState): (r: TimerState) {
    t.(enabled := false)
  }

  /** Advancing the two counters. */
  function Tick(t: TimerState, period: int): (r: TimerState) {
    var nSec := Wrap(t.nSec + period);
    if nSec > MSEC then t.(count := Wrap(t.count + nSec / MSEC), nSec := nSec % MSEC)
    else t.(nSec := nSec)
  }

  function Update(t: TimerState, period: int): (r: TimerState) {
    if !t.enabled then t
    else
      var u := Tick(t, period);
      if u.count < u.timeout then u
      else if u.mode == OneShot then u.(enabled := false)
      else u.(count := Wrap(u.count - u.timeout))
  }

  class Timer {
    var enabled: bool
    var nSec: U32
    var count: U32
    var timeout: U32
    var mode: Mode

    ghost function Value(): (r: TimerState)
      reads this
    {
      TimerState(enabled, nSec, count, timeout, mode)
    }

    constructor ()
      ensures Value() == ZERO
    {
      enabled, nSec, count, timeout, mode := false, 0, 0, 0, OneShot;
    }

    method TimerEnable(newMode: Mode)
      modifies this
      ensures Value() == Enable(old(Value()), newMode)
    {
      mode := newMode;
      enabled := true;
      count := 0;
    }

    method TimerDisable()
      modifies this
      ensures Value() == Disable(old(Value()))
    {
      enabled := false;
    }

    method TimerSetTimeout(newTimeout: U32)
      modifies this
      ensures Value() == SetTimeout(old(Value()), newTimeout)
    {
      count := 0;
      timeout := newTimeout;
    }

    /** No callback is ever installed: Timer_SetCallback is compiled out. */
    method TimerUpdate(period: int)
      modifies this
      ensures Value() == Update(old(Value()), period)
    {
      if !enabled {
        return;
      }
      nSec := Wrap(nSec + period);
      if nSec > MSEC {
        count := Wrap(count + nSec / MSEC);
        nSec := nSec % MSEC;
      }
      if count >= timeout {
        if mode != Continuous {
          enabled := false;
        } else {
          count := Wrap(count - timeout);
        }
      }
    }
  }

  // --- elapsed time -----------------------------------------------------------

  /** What the counters hold, in nanoseconds. */
  function Total(t: TimerState): (r: int) {
    1000000 * t.count + t.nSec
  }

  function Sum(periods: seq<nat>): (r: nat) {
    if periods == [] then 0 else Sum(periods[..|periods| - 1]) + periods[|periods| - 1]
  }

  function UpdateAll(t: TimerState, periods: seq<nat>): (r: TimerState) {
    if periods == [] then t else Update(UpdateAll(t, periods[..|periods| - 1]), periods[|periods| - 1])
  }

  /** Counting loses time when a counter wraps, but never gains any. */
  lemma TickTotal(t: TimerState, period: nat)
    requires t.nSec <= MSEC
    ensures Total(Tick(t, period)) <= Total(t) + period
    ensures Tick(t, period).nSec <= MSEC
    ensures t.nSec + period < TWO_32 && t.count + 4295 < TWO_32 ==> Total(Tick(t, period)) == Total(t) + period
  {
    var raw := t.nSec + period;
    WrapAtMost(raw);
    var nSec := Wrap(raw);
    if nSec > MSEC {
      var up := t.count + nSec / MSEC;
      WrapAtMost(up);
      assert nSec == MSEC * (nSec / MSEC) + nSec % MSEC;
    }
  }

  lemma CarryStays(t: TimerState, period: nat)
    requires t.nSec <= MSEC
    ensures Update(t, period).nSec <= MSEC
  {
    TickTotal(t, period);
  }

  lemma WrapAtMost(x: nat)
    ensures Wrap(x) <= x && (x < TWO_32 ==> Wrap(x) == x)
  {
  }

  /** What carry and elapsed time have to reach for a one-shot to expire. A single
      millisecond is only counted once it is exceeded. */
  function Reach(timeout: U32): (r: nat) {
    if timeout == 1 then 1000001 else 1000000 * timeout
  }

  /** Still below its timeout, or just set going. */
  predicate Running(t: TimerState) {
    t.enabled && t.mode == OneShot && t.nSec <= MSEC && (t.count == 0 || t.count < t.timeout)
  }

  /** One update of a running one-shot timer. */
  lemma OneShotStep(t: TimerState, period: nat)
    requires Running(t)
    ensures var u := Update(t, period);
            && u.timeout == t.timeout && u.mode == OneShot && u.nSec <= MSEC
            && (u.enabled ==> Running(u) && u.count < u.timeout && Total(u) <= Total(t) + period)
            && (!u.enabled ==> Total(t) + period >= Reach(t.timeout))
  {
    TickTotal(t, period);
    WrapAtMost(t.nSec + period);
  }

  /** Where no counter can wrap, one more period is counted to the nanosecond, and a
      timer that still runs is within its timeout. */
  lemma OneShotExact(t: TimerState, period: nat)
    requires Running(t) && t.timeout + 4295 <= TWO_32 && period + MSEC < TWO_32
    ensures var u := Update(t, period);
            u.enabled ==> Running(u) && u.timeout == t.timeout && Total(u) == Total(t) + period <= 1000000 * t.timeout
  {
    OneShotStep(t, period);
    TickTotal(t, period);
  }

  /** A continuous timer stays enabled, and each time it reaches its timeout only that
      much is taken off: what it has counted is never lost, unless a counter wraps. */
  lemma ContinuousStep(t: TimerState, period: nat)
    requires t.enabled && t.mode == Continuous && t.nSec <= MSEC && t.count + 4295 < TWO_32 && period + MSEC < TWO_32
    ensures var u := Update(t, period);
            && u.enabled && u.mode == Continuous && u.timeout == t.timeout && u.nSec <= MSEC
            && (Total(u) == Total(t) + period || Total(u) == Total(t) + period - 1000000 * t.timeout)
            && (u.count < t.timeout || Total(t) + period >= 2 * (1000000 * t.timeout))
            && (Total(t) + period < 1000000 * t.timeout ==> Total(u) == Total(t) + period)
            && (Total(t) + period >= 1000000 * (t.timeout + 1) ==> Total(u) == Total(t) + period - 1000000 * t.timeout)
  {
    TickTotal(t, period);
  }

  /** The periods and the timeout are small enough for no counter to wrap. */
  predicate NoWrap(timeout: U32, periods: seq<nat>) {
    timeout + 4295 <= TWO_32 && forall i | 0 <= i < |periods| :: periods[i] + MSEC < TWO_32
  }

  function Started(t: TimerState, timeout: U32): (r: TimerState) {
    Enable(SetTimeout(t, timeout), OneShot)
  }

  /** A one-shot timer set going with some carry. It never expires before carry and
      elapsed time reach the timeout, even if its counters wrap; and if they cannot
      wrap, it counts every nanosecond and has expired once the timeout is exceeded. */
  lemma {:induction false} OneShotTimer(t: TimerState, timeout: U32, periods: seq<nat>)
    requires t.nSec <= MSEC
    ensures var u := UpdateAll(Started(t, timeout), periods);
            && u.timeout == timeout && u.mode == OneShot && u.nSec <= MSEC
            && (u.enabled ==> Running(u) && Total(u) <= t.nSec + Sum(periods))
            && (u.enabled && periods != [] ==> u.count < timeout)
            && (!u.enabled ==> t.nSec + Sum(periods) >= Reach(timeout))
            && (NoWrap(timeout, periods) && u.enabled ==> Total(u) == t.nSec + Sum(periods))
            && (NoWrap(timeout, periods) && periods != [] && t.nSec + Sum(periods) > 1000000 * timeout ==> !u.enabled)
    decreases |periods|
  {
    if periods != [] {
      var before, period := periods[..|periods| - 1], periods[|periods| - 1];
      OneShotTimer(t, timeout, before);
      var u := UpdateAll(Started(t, timeout), before);
      assert NoWrap(timeout, periods) ==> NoWrap(timeout, before) && period + MSEC < TWO_32;
      if u.enabled {
        OneShotStep(u, period);
        TickTotal(u, period);
      }
    }
  }

  // --- how short a delay can be -----------------------------------------------

  /** The shortest time after which a one-shot with this carry can expire. */
  function Shortest(carry: nat, timeout: U32): (r: nat) {
    if carry >= Reach(timeout) then 0 else Reach(timeout) - carry
  }

  lemma UpdateSnoc(t: TimerState, periods: seq<nat>, period: nat)
    ensures UpdateAll(t, periods + [period]) == Update(UpdateAll(t, periods), period)
    ensures Sum(periods + [period]) == Sum(periods) + period
  {
    assert (periods + [period])[..|periods|] == periods;
  }

  /** A period that makes the carry up to n whole milliseconds, n being 2 or 3. */
  lemma WholeMilliseconds(t: TimerState, n: nat)
    requires t.enabled && t.mode == OneShot && t.nSec <= MSEC && 2 <= n <= 3 && t.count + n <= t.timeout
    ensures Update(t, MSEC * n - t.nSec) == t.(count := t.count + n, nSec := 0, enabled := t.count + n < t.timeout)
  {
    assert Tick(t, MSEC * n - t.nSec) == t.(count := t.count + n, nSec := 0);
  }

  /** Periods that bring the count to k with nothing carried, in the least time. */
  lemma {:induction false} LeastPeriods(t: TimerState, timeout: U32, k: nat) returns (periods: seq<nat>)
    requires t.nSec <= MSEC && 2 <= k <= timeout
    ensures UpdateAll(Started(t, timeout), periods) == Started(t, timeout).(count := k, nSec := 0, enabled := k < timeout)
    ensures Sum(periods) == MSEC * k - t.nSec
  {
    hide Update;
    if k <= 3 {
      WholeMilliseconds(Started(t, timeout), k);
      var period: nat := MSEC * k - t.nSec;
      UpdateSnoc(Started(t, timeout), [], period);
      return [] + [period];
    }
    var before := LeastPeriods(t, timeout, k - 2);
    var period: nat := 2 * MSEC;
    WholeMilliseconds(UpdateAll(Started(t, timeout), before), 2);
    UpdateSnoc(Started(t, timeout), before, period);
    return before + [period];
  }

  /** The shortest time is attained. */
  lemma ShortestAttained(t: TimerState, timeout: U32) returns (periods: seq<nat>)
    requires t.nSec <= MSEC
    ensures !UpdateAll(Started(t, timeout), periods).enabled && Sum(periods) == Shortest(t.nSec, timeout)
  {
    if timeout >= 2 {
      periods := LeastPeriods(t, timeout, timeout);
    } else {
      var period := Shortest(t.nSec, timeout);
      UpdateSnoc(Started(t, timeout), [], period);
      periods := [] + [period];
    }
  }

  /** No way of refreshing makes the delay shorter than its timeout. */
  ghost predicate NeverShort(t: TimerState, timeout: U32) {
    forall periods: seq<nat> | !UpdateAll(Started(t, timeout), periods).enabled :: Sum(periods) >= 1000000 * timeout
  }

  /** A delay can be cut short exactly when the timer is set going with a carry that
      counts: from one nanosecond on, or from two for a single millisecond. */
  lemma NeverShortIff(t: TimerState, timeout: U32)
    requires t.nSec <= MSEC
    ensures NeverShort(t, timeout) <==> timeout == 0 || t.nSec == 0 || (timeout == 1 && t.nSec <= 1)
  {
    var least := ShortestAttained(t, timeout);
    forall periods: seq<nat> | !UpdateAll(Started(t, timeout), periods).enabled
      ensures Sum(periods) >= Shortest(t.nSec, timeout)
    {
      OneShotTimer(t, timeout, periods);
    }
  }
}

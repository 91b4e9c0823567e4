/** The bi-directional limit switch of the Bridgeport PLC (boss_plc.c, Limit_Refresh):
    one switch serves both ends of an axis, so a latch remembers the direction of
    travel. Positions are reals. */
module BossLimit {
  datatype LimitState = LsInit | LsOnLimit | LsNoMotion | LsPosMotion | LsNegMotion

  /** The pins one refresh reads; `closed` is the switch input. */
  datatype In = In(position: real, jogEn: bool, closed: bool, override: bool)

  datatype State = State(state: LimitState, position: real, limitPos: bool, limitNeg: bool, posOut: bool, negOut: bool)

  /** After Limit_Init; memory starts as zero. */
  const INIT := State(LsInit, 0.0, false, false, false, false)

  /** The LS_ON_LIMIT case. */
  function OnLimit(s: State, i: In): (r: State) {
    if i.closed then s
    else
      var open := s.(limitNeg := false, limitPos := false);
      if i.position == s.position then open.(state := LsNoMotion)
      else if i.position > s.position then open.(state := LsPosMotion)
      else if i.position < s.position then open.(state := LsNegMotion)
      else open
  }

  function Switch(s: State, i: In): (r: State) {
    match s.state
    case LsInit =>
      OnLimit(s.(state := LsOnLimit, limitNeg := true, limitPos := true, position := i.position), i)
    case LsOnLimit => OnLimit(s, i)
    case LsNoMotion =>
      if i.closed then s.(state := LsOnLimit, limitNeg := true, limitPos := true)
      else if i.position > s.position then s.(state := LsPosMotion)
      else if i.position < s.position then s.(state := LsNegMotion)
      else s
    case LsPosMotion =>
      if i.closed then s.(state := LsOnLimit, limitPos := true)
      else if i.position == s.position then s.(state := LsNoMotion)
      else if i.position < s.position then s.(state := LsNegMotion)
      else s
    case LsNegMotion =>
      if i.closed then s.(state := LsOnLimit, limitNeg := true)
      else if i.position == s.position then s.(state := LsNoMotion)
      else if i.position > s.position then s.(state := LsPosMotion)
      else s
  }

  function Step(s: State, i: In): (r: State) {
    var t := Switch(s, i);
    t.(position := i.position,
       posOut := t.limitPos && !(i.jogEn && i.override),
       negOut := t.limitNeg && !(i.jogEn && i.override))
  }

  class Limit {
    var state: LimitState
    var position: real
    var limitPos: bool
    var limitNeg: bool
    var posOut: bool
    var negOut: bool

    ghost function Value(): (r: State)
      reads this
    {
      State(state, position, limitPos, limitNeg, posOut, negOut)
    }

    constructor ()
      ensures Value() == INIT
    {
      state, position, limitPos, limitNeg, posOut, negOut := LsInit, 0.0, false, false, false, false;
    }

    method Refresh(i: In)
      modifies this
      ensures Value() == Step(old(Value()), i)
    {
      if state == LsInit {
        state := LsOnLimit;
        limitNeg, limitPos := true, true;
        position := i.position;
        // falls through to the next case
      }
      match state {
      case LsOnLimit =>
        if !i.closed {
          limitNeg, limitPos := false, false;
          if i.position == position {
            state := LsNoMotion;
          } else if i.position > position {
            state := LsPosMotion;
          } else if i.position < position {
            state := LsNegMotion;
          }
        }
      case LsNoMotion =>
        if i.closed {
          state := LsOnLimit;
          limitNeg, limitPos := true, true;
        } else if i.position > position {
          state := LsPosMotion;
        } else if i.position < position {
          state := LsNegMotion;
        }
      case LsPosMotion =>
        if i.closed {
          state := LsOnLimit;
          limitPos := true;
        } else if i.position == position {
          state := LsNoMotion;
        } else if i.position < position {
          state := LsNegMotion;
        }
      case LsNegMotion =>
        if i.closed {
          state := LsOnLimit;
          limitNeg := true;
        } else if i.position == position {
          state := LsNoMotion;
        } else if i.position > position {
          state := LsPosMotion;
        }
      case LsInit =>
      }
      position := i.position;
      posOut := limitPos && !(i.jogEn && i.override);
      negOut := limitNeg && !(i.jogEn && i.override);
    }
  }

  // --- the machine against its history ----------------------------------------

  function Run(ins: seq<In>): (r: State) {
    if ins == [] then INIT else Step(Run(ins[..|ins| - 1]), ins[|ins| - 1])
  }

  datatype Motion = Forward | Backward | Still

  /** The direction of travel seen at refresh n; none at the first. */
  function MotionAt(ins: seq<In>, n: nat): (r: Motion)
    requires n < |ins|
  {
    if n == 0 || ins[n].position == ins[n - 1].position then Still
    else if ins[n].position > ins[n - 1].position then Forward
    else Backward
  }

  /** The last refresh that saw the switch open, or -1. */
  function LastOpen(ins: seq<In>): (k: int)
    ensures -1 <= k < |ins|
    ensures k >= 0 ==> !ins[k].closed
    ensures forall j | k < j < |ins| :: ins[j].closed
  {
    if ins == [] then -1
    else if !ins[|ins| - 1].closed then |ins| - 1
    else LastOpen(ins[..|ins| - 1])
  }

  /** The latches that a history calls for: none while the switch is open; otherwise
      the direction seen when it was last open, or both if that is not known. */
  function WantPos(ins: seq<In>): (r: bool)
    requires ins != []
  {
    var k := LastOpen(ins);
    k != |ins| - 1 && (k == -1 || MotionAt(ins, k) != Backward)
  }

  function WantNeg(ins: seq<In>): (r: bool)
    requires ins != []
  {
    var k := LastOpen(ins);
    k != |ins| - 1 && (k == -1 || MotionAt(ins, k) != Forward)
  }

  /** The state word that a history calls for. */
  function WantState(ins: seq<In>): (r: LimitState)
    requires ins != []
  {
    if ins[|ins| - 1].closed then LsOnLimit
    else match MotionAt(ins, |ins| - 1)
         case Still => LsNoMotion
         case Forward => LsPosMotion
         case Backward => LsNegMotion
  }

  /** After every refresh the switch machine is exactly what the whole history of
      switch and position readings calls for, and override gates only the outputs. */
  lemma {:induction false} LimitFollowsHistory(ins: seq<In>)
    requires ins != []
    ensures var s, i := Run(ins), ins[|ins| - 1];
            && s.state == WantState(ins) && s.position == i.position
            && s.limitPos == WantPos(ins) && s.limitNeg == WantNeg(ins)
            && (i.closed <==> s.limitPos || s.limitNeg)
            && s.posOut == (s.limitPos && !(i.jogEn && i.override))
            && s.negOut == (s.limitNeg && !(i.jogEn && i.override))
    decreases |ins|
  {
    var before := ins[..|ins| - 1];
    if before == [] {
      assert LastOpen(before) == -1;
    } else {
      LimitFollowsHistory(before);
      var k := LastOpen(before);
      assert k >= 0 ==> MotionAt(before, k) == MotionAt(ins, k);
    }
  }
}

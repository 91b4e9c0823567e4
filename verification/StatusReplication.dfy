/** Replication of the machine status (mkwrapper.py): per topic the server keeps a
    status, collects the changes of a cycle, and publishes either everything or the
    changes. A message is a map from field paths to values; items of repeated fields
    are addressed by their explicit index, as the clients do. Numbers, flags and
    enumerations are numbers. */
module StatusReplication {

  datatype Path =
    | Val(name: string)
    | Flt(name: string)
    | Pos(name: string, axis: nat)
    | Cell(list: string, index: nat, field: string)
    | AxisVal(index: nat, field: string)
    | AxisFlt(index: nat, field: string)

  datatype Leaf = Number(r: real) | Text(s: string)

  type Msg = map<Path, Leaf>

  const THRESHOLD := 0.0001

  /** What an absent field of a list item or position reads as. */
  const ABSENT := Number(0.0)

  function Read(m: Msg, p: Path): (r: Leaf) {
    if p in m then m[p] else ABSENT
  }

  function Abs(x: real): (r: real) {
    if x < 0.0 then -x else x
  }

  /** Floats are compared with a threshold, everything else exactly. */
  predicate IsNear(p: Path) {
    p.Flt? || p.Pos? || p.AxisFlt?
  }

  /** not_equal for floats, != otherwise. */
  predicate Differs(p: Path, a: Leaf, b: Leaf) {
    if IsNear(p) && a.Number? && b.Number? then Abs(a.r - b.r) > THRESHOLD else a != b
  }

  // --- what a topic holds -----------------------------------------------------

  /** The fields of a topic, in the order in which they are updated. `special` gives
      the first-run values other than zero. */
  datatype Schema = Schema(values: seq<string>, special: map<string, Leaf>, floats: seq<string>, positions: seq<string>,
                           lists: seq<string>, axisValues: seq<string>, axisFloats: seq<string>)

  const TASK := Schema(
    ["echo_serial_number", "exec_state", "file", "input_timeout", "optional_stop", "read_line", "task_mode",
     "task_paused", "task_state", "total_lines"],
    map["exec_state" := Number(1.0), "file" := Text(""), "task_mode" := Number(1.0), "task_state" := Number(1.0)],
    [], [], [], [], [])

  const INTERP := Schema(
    ["command", "interp_state", "interpreter_errcode", "program_units"],
    map["command" := Text(""), "interp_state" := Number(1.0), "program_units" := Number(1.0)],
    [], [], ["gcodes", "mcodes", "settings"], [], [])

  const MOTION := Schema(
    ["active_queue", "adaptive_feed_enabled", "block_delete", "current_line", "enabled", "feed_hold_enabled",
     "feed_override_enabled", "g5x_index", "id", "inpos", "motion_line", "motion_type", "motion_mode", "paused",
     "probe_tripped", "probe_val", "probing", "queue", "queue_full", "spindle_brake", "spindle_direction",
     "spindle_enabled", "spindle_increasing", "spindle_override_enabled", "state"],
    map["g5x_index" := Number(1.0), "motion_mode" := Number(1.0), "state" := Number(-1.0)],
    ["current_vel", "delay_left", "distance_to_go", "feedrate", "rapidrate", "rotation_xy", "spindle_speed",
     "spindlerate", "max_acceleration", "max_velocity"],
    ["actual_position", "dtg", "g5x_offset", "g92_offset", "joint_actual_position", "joint_position", "position",
     "probed_position"],
    ["ain", "aout", "din", "dout", "limit"],
    ["enabled", "fault", "homed", "homing", "inpos", "max_hard_limit", "max_soft_limit", "min_hard_limit",
     "min_soft_limit", "override_limits"],
    ["ferror_current", "ferror_highmark", "input", "output", "velocity"])

  /** A poll of the controller: the value of every path, the lengths of the lists, of
      the axis list, and the number of axes in use. */
  datatype Stat = Stat(leaf: Path -> Leaf, len: string -> nat, axisLen: nat, axes: nat)

  function AxisCount(stat: Stat): (r: nat) {
    if stat.axisLen < stat.axes then stat.axisLen else stat.axes
  }

  /** The assignments of the first run. */
  function FirstRun(sch: Schema): (r: Msg) {
    (map p: Path | p in PathsOf(sch) :: if p.Val? && p.name in sch.special then sch.special[p.name] else ABSENT)
  }

  function PathsOf(sch: Schema): (r: set<Path>) {
    (set n <- sch.values :: Val(n)) + (set n <- sch.floats :: Flt(n)) +
    (set n, k: nat | n in sch.positions && 0 <= k < 9 :: Pos(n, k))
  }

  // --- a cycle, step by step --------------------------------------------------

  /** Comparing one path with the poll, or adding a list item with default fields. */
  datatype Step = Touched(path: Path) | Added(paths: seq<Path>)

  datatype Pair = Pair(status: Msg, tx: Msg)

  /** update_proto_value and update_proto_float. */
  function Touch(s: Pair, p: Path, v: Leaf): (r: Pair) {
    if Differs(p, Read(s.status, p), v) then Pair(s.status[p := v], s.tx[p := v]) else s
  }

  function Defaults(ps: seq<Path>): (r: Msg) {
    map p <- ps :: ABSENT
  }

  /** obj.add() when the list is not long enough yet. */
  function AddItem(s: Pair, ps: seq<Path>): (r: Pair) {
    if ps != [] && ps[0] !in s.status then Pair(Defaults(ps) + s.status, s.tx) else s
  }

  function Do(s: Pair, step: Step, stat: Stat): (r: Pair) {
    match step
    case Touched(p) => Touch(s, p, stat.leaf(p))
    case Added(ps) => AddItem(s, ps)
  }

  function DoAll(s: Pair, steps: seq<Step>, stat: Stat): (r: Pair) {
    if steps == [] then s else Do(DoAll(s, steps[..|steps| - 1], stat), steps[|steps| - 1], stat)
  }

  function TouchAll(ps: seq<Path>): (r: seq<Step>) {
    seq(|ps|, i requires 0 <= i < |ps| => Touched(ps[i]))
  }

  /** The coordinates x, y, z, a, b, c, u, v, w of a position. */
  function PositionPaths(name: string): (r: seq<Path>) {
    seq(9, k requires 0 <= k < 9 => Pos(name, k))
  }

  function PositionSteps(names: seq<string>): (r: seq<Step>) {
    if names == [] then [] else PositionSteps(names[..|names| - 1]) + TouchAll(PositionPaths(names[|names| - 1]))
  }

  function CellSteps(list: string, n: nat): (r: seq<Step>) {
    if n == 0 then []
    else CellSteps(list, n - 1) + [Added([Cell(list, n - 1, "value")]), Touched(Cell(list, n - 1, "value"))]
  }

  function ListSteps(lists: seq<string>, stat: Stat): (r: seq<Step>) {
    if lists == [] then []
    else ListSteps(lists[..|lists| - 1], stat) + CellSteps(lists[|lists| - 1], stat.len(lists[|lists| - 1]))
  }

  function AxisValuePaths(sch: Schema, i: nat): (r: seq<Path>) {
    seq(|sch.axisValues|, k requires 0 <= k < |sch.axisValues| => AxisVal(i, sch.axisValues[k]))
  }

  function AxisFloatPaths(sch: Schema, i: nat): (r: seq<Path>) {
    seq(|sch.axisFloats|, k requires 0 <= k < |sch.axisFloats| => AxisFlt(i, sch.axisFloats[k]))
  }

  function AxisPaths(sch: Schema, i: nat): (r: seq<Path>) {
    AxisValuePaths(sch, i) + AxisFloatPaths(sch, i)
  }

  function OneAxis(sch: Schema, i: nat): (r: seq<Step>) {
    [Added(AxisPaths(sch, i))] + TouchAll(AxisPaths(sch, i))
  }

  function AxisSteps(sch: Schema, n: nat): (r: seq<Step>) {
    if n == 0 then [] else AxisSteps(sch, n - 1) + OneAxis(sch, n - 1)
  }

  function ValuePaths(sch: Schema): (r: seq<Path>) {
    seq(|sch.values|, k requires 0 <= k < |sch.values| => Val(sch.values[k]))
  }

  function FloatPaths(sch: Schema): (r: seq<Path>) {
    seq(|sch.floats|, k requires 0 <= k < |sch.floats| => Flt(sch.floats[k]))
  }

  /** Everything a cycle of a topic does, in order. */
  function Steps(sch: Schema, stat: Stat): (r: seq<Step>) {
    TouchAll(ValuePaths(sch)) + TouchAll(FloatPaths(sch)) + PositionSteps(sch.positions) + ListSteps(sch.lists, stat) +
    AxisSteps(sch, AxisCount(stat))
  }

  // --- the server and a client ------------------------------------------------

  datatype Published = Full(m: Msg) | Incremental(m: Msg)

  datatype Server = Server(status: Msg, subscribed: bool, fullUpdate: bool, firstRun: bool)

  const START := Server(map[], false, false, true)

  datatype Event = Subscription(on: bool) | Cycle(stat: Stat)

  function CycleStart(s: Server, sch: Schema): (r: Pair) {
    Pair(if s.firstRun then s.status + FirstRun(sch) else s.status, map[])
  }

  /** What a cycle publishes, if anything. */
  function CycleMessages(s: Server, sch: Schema, stat: Stat): (r: seq<Published>) {
    if !s.subscribed then []
    else
      var r := DoAll(CycleStart(s, sch), Steps(sch, stat), stat);
      if s.fullUpdate then [Full(r.status)] else if r.tx != map[] then [Incremental(r.tx)] else []
  }

  function Serve(s: Server, e: Event, sch: Schema): (r: Server) {
    match e
    case Subscription(on) => s.(subscribed := on, fullUpdate := on)
    case Cycle(stat) =>
      if !s.subscribed then s
      else Server(DoAll(CycleStart(s, sch), Steps(sch, stat), stat).status, true, false, false)
  }

  function MessagesOf(s: Server, e: Event, sch: Schema): (r: seq<Published>) {
    match e
    case Subscription(_) => []
    case Cycle(stat) => CycleMessages(s, sch, stat)
  }

  /** A client replaces what it has on a full update and merges an incremental one. */
  function Receive(client: Msg, msgs: seq<Published>): (r: Msg)
    decreases |msgs|
  {
    if msgs == [] then client
    else Receive(match msgs[0] case Full(m) => m case Incremental(m) => client + m, msgs[1..])
  }

  function Run(s: Server, client: Msg, events: seq<Event>, sch: Schema): (r: (Server, Msg)) {
    if events == [] then (s, client)
    else
      var (t, c) := Run(s, client, events[..|events| - 1], sch);
      var e := events[|events| - 1];
      (Serve(t, e, sch), Receive(c, MessagesOf(t, e, sch)))
  }

  // --- the changes of a cycle -------------------------------------------------

  /** The changes are exactly the compared paths whose polled value differs from what was
      read at the start, with the polled value; laid over the start they give the status. */
  ghost predicate IsDelta(start: Msg, s: Pair, steps: seq<Step>, stat: Stat) {
    && (forall p :: p in s.tx <==> Touched(p) in steps && Differs(p, Read(start, p), stat.leaf(p)))
    && (forall p | p in s.tx :: s.tx[p] == stat.leaf(p) && p in s.status && s.status[p] == s.tx[p])
    && (forall p | p !in s.tx :: Read(s.status, p) == Read(start, p))
  }

  lemma DoIsDelta(start: Msg, s: Pair, steps: seq<Step>, step: Step, stat: Stat)
    requires IsDelta(start, s, steps, stat)
    ensures IsDelta(start, Do(s, step, stat), steps + [step], stat)
  {
    var t := Do(s, step, stat);
    forall p
      ensures p in t.tx <==> Touched(p) in steps + [step] && Differs(p, Read(start, p), stat.leaf(p))
    {
      assert Touched(p) in steps + [step] <==> Touched(p) in steps || step == Touched(p);
    }
  }

  lemma {:induction false} DeltaIsExact(start: Msg, steps: seq<Step>, stat: Stat)
    ensures IsDelta(start, DoAll(Pair(start, map[]), steps, stat), steps, stat)
  {
    if steps != [] {
      var before := steps[..|steps| - 1];
      DeltaIsExact(start, before, stat);
      DoIsDelta(start, DoAll(Pair(start, map[]), before, stat), before, steps[|steps| - 1], stat);
      assert before + [steps[|steps| - 1]] == steps;
    }
  }

  // --- which paths a cycle compares -------------------------------------------

  /** The fields, coordinates, list items and axis fields a poll has for a topic. */
  predicate Polled(sch: Schema, stat: Stat, p: Path) {
    match p
    case Val(n) => n in sch.values
    case Flt(n) => n in sch.floats
    case Pos(n, k) => n in sch.positions && k < 9
    case Cell(l, i, f) => l in sch.lists && i < stat.len(l) && f == "value"
    case AxisVal(i, f) => i < stat.axisLen && i < stat.axes && f in sch.axisValues
    case AxisFlt(i, f) => i < stat.axisLen && i < stat.axes && f in sch.axisFloats
  }

  lemma TouchesAll(ps: seq<Path>, p: Path)
    ensures Touched(p) in TouchAll(ps) <==> p in ps
  {
    if p in ps {
      var i :| 0 <= i < |ps| && ps[i] == p;
      assert TouchAll(ps)[i] == Touched(p);
    }
  }

  lemma {:induction false} TouchesPositions(names: seq<string>, p: Path)
    ensures Touched(p) in PositionSteps(names) <==> p.Pos? && p.name in names && p.axis < 9
  {
    if names != [] {
      var name := names[|names| - 1];
      TouchesPositions(names[..|names| - 1], p);
      TouchesAll(PositionPaths(name), p);
      if p.Pos? && p.name == name && p.axis < 9 {
        assert PositionPaths(name)[p.axis] == p;
      }
    }
  }

  lemma {:induction false} TouchesCells(list: string, n: nat, p: Path)
    ensures Touched(p) in CellSteps(list, n) <==> p.Cell? && p.list == list && p.index < n && p.field == "value"
  {
    if n != 0 {
      TouchesCells(list, n - 1, p);
    }
  }

  lemma {:induction false} TouchesLists(lists: seq<string>, stat: Stat, p: Path)
    ensures Touched(p) in ListSteps(lists, stat) <==>
            p.Cell? && p.list in lists && p.index < stat.len(p.list) && p.field == "value"
  {
    if lists != [] {
      var list := lists[|lists| - 1];
      TouchesLists(lists[..|lists| - 1], stat, p);
      TouchesCells(list, stat.len(list), p);
    }
  }

  lemma TouchesAxis(sch: Schema, i: nat, p: Path)
    ensures Touched(p) in OneAxis(sch, i) <==>
            (p.AxisVal? && p.index == i && p.field in sch.axisValues) ||
            (p.AxisFlt? && p.index == i && p.field in sch.axisFloats)
  {
    TouchesAll(AxisPaths(sch, i), p);
    if p.AxisVal? && p.index == i && p.field in sch.axisValues {
      var k :| 0 <= k < |sch.axisValues| && sch.axisValues[k] == p.field;
      assert AxisValuePaths(sch, i)[k] == p;
    } else if p.AxisFlt? && p.index == i && p.field in sch.axisFloats {
      var k :| 0 <= k < |sch.axisFloats| && sch.axisFloats[k] == p.field;
      assert AxisFloatPaths(sch, i)[k] == p;
    }
  }

  lemma {:induction false} TouchesAxes(sch: Schema, n: nat, p: Path)
    ensures Touched(p) in AxisSteps(sch, n) <==>
            (p.AxisVal? && p.index < n && p.field in sch.axisValues) ||
            (p.AxisFlt? && p.index < n && p.field in sch.axisFloats)
  {
    if n != 0 {
      TouchesAxes(sch, n - 1, p);
      TouchesAxis(sch, n - 1, p);
    }
  }

  /** A cycle compares every path the poll has, and no other. */
  lemma StepsCoverThePoll(sch: Schema, stat: Stat, p: Path)
    ensures Touched(p) in Steps(sch, stat) <==> Polled(sch, stat, p)
  {
    TouchesAll(ValuePaths(sch), p);
    TouchesAll(FloatPaths(sch), p);
    TouchesPositions(sch.positions, p);
    TouchesLists(sch.lists, stat, p);
    TouchesAxes(sch, AxisCount(stat), p);
    if p.Val? && p.name in sch.values {
      var k :| 0 <= k < |sch.values| && sch.values[k] == p.name;
      assert ValuePaths(sch)[k] == p;
    } else if p.Flt? && p.name in sch.floats {
      var k :| 0 <= k < |sch.floats| && sch.floats[k] == p.name;
      assert FloatPaths(sch)[k] == p;
    }
  }

  // --- whole runs -------------------------------------------------------------

  /** Client and server read alike on every path. */
  ghost predicate Agree(client: Msg, status: Msg) {
    forall p :: Read(client, p) == Read(status, p)
  }

  /** A subscribed topic is about to be sent in full, or its client agrees with it. */
  ghost predicate InStep(s: Server, client: Msg) {
    && (s.subscribed && s.firstRun ==> s.fullUpdate)
    && (s.subscribed && !s.fullUpdate ==> Agree(client, s.status))
  }

  lemma ServeInStep(s: Server, client: Msg, e: Event, sch: Schema)
    requires InStep(s, client)
    ensures InStep(Serve(s, e, sch), Receive(client, MessagesOf(s, e, sch)))
  {
    if e.Cycle? && s.subscribed {
      var start := CycleStart(s, sch);
      var r := DoAll(start, Steps(sch, e.stat), e.stat);
      DeltaIsExact(start.status, Steps(sch, e.stat), e.stat);
      var msgs := MessagesOf(s, e, sch);
      if msgs != [] {
        assert msgs[1..] == [];
      }
      if !s.fullUpdate {
        assert start.status == s.status;
        if r.tx == map[] {
          assert Agree(client, r.status);
        } else {
          assert Agree(client + r.tx, r.status);
        }
      }
    }
  }

  lemma {:induction false} RunInStep(s: Server, client: Msg, events: seq<Event>, sch: Schema)
    requires InStep(s, client)
    ensures InStep(Run(s, client, events, sch).0, Run(s, client, events, sch).1)
  {
    if events != [] {
      var before := events[..|events| - 1];
      RunInStep(s, client, before, sch);
      var r := Run(s, client, before, sch);
      ServeInStep(r.0, r.1, events[|events| - 1], sch);
    }
  }

  /** The last subscribe or unsubscribe event was a subscription. */
  predicate SubscribedBy(events: seq<Event>) {
    if events == [] then false
    else
      match events[|events| - 1]
      case Subscription(on) => on
      case Cycle(_) => SubscribedBy(events[..|events| - 1])
  }

  lemma {:induction false} RunSubscribed(client: Msg, events: seq<Event>, sch: Schema)
    ensures Run(START, client, events, sch).0.subscribed == SubscribedBy(events)
  {
    if events != [] {
      RunSubscribed(client, events[..|events| - 1], sch);
    }
  }

  /** The value read is the polled one, or for floats at most the threshold away. */
  predicate Follows(m: Msg, p: Path, stat: Stat) {
    var a, b := Read(m, p), stat.leaf(p);
    a == b || (IsNear(p) && a.Number? && b.Number? && -0.0001 <= a.r - b.r <= 0.0001)
  }

  lemma CycleFollows(s: Server, stat: Stat, sch: Schema, p: Path)
    requires s.subscribed && Polled(sch, stat, p)
    ensures Follows(Serve(s, Cycle(stat), sch).status, p, stat)
  {
    DeltaIsExact(CycleStart(s, sch).status, Steps(sch, stat), stat);
    StepsCoverThePoll(sch, stat, p);
  }

  /** Coordinates and float fields differ by more than a ten-thousandth, everything else,
      items of lists included, if it is not the same. */
  lemma WhatDiffers(p: Path, a: Leaf, b: Leaf)
    ensures Differs(p, a, b) <==>
            if (p.Flt? || p.Pos? || p.AxisFlt?) && a.Number? && b.Number?
            then a.r - b.r > 0.0001 || b.r - a.r > 0.0001 else a != b
  {
  }

  /** A path that the poll compares and finds changed. */
  predicate Changed(status: Msg, sch: Schema, stat: Stat, p: Path) {
    Polled(sch, stat, p) && Differs(p, Read(status, p), stat.leaf(p))
  }

  /** What a cycle publishes. A topic without subscription publishes nothing; one that is
      due a full update, just its status. Otherwise nothing if no polled path differs from
      the status, else one message of exactly the paths that do, with the polled values. */
  lemma CyclePublishes(s: Server, stat: Stat, sch: Schema)
    ensures var start := if s.firstRun then s.status + FirstRun(sch) else s.status;
            var msgs, after := CycleMessages(s, sch, stat), Serve(s, Cycle(stat), sch);
            && (!s.subscribed ==> msgs == [] && after == s)
            && (s.subscribed ==> after.subscribed && !after.fullUpdate && !after.firstRun)
            && (s.subscribed && s.fullUpdate ==>
                  |msgs| == 1 && msgs[0].Full? && msgs[0].m == after.status &&
                  forall p :: Read(after.status, p) == if Changed(start, sch, stat, p) then stat.leaf(p) else Read(start, p))
            && (s.subscribed && !s.fullUpdate ==>
                  && (msgs == [] <==> forall p :: !Changed(start, sch, stat, p))
                  && (msgs != [] ==>
                        && |msgs| == 1 && msgs[0].Incremental?
                        && (forall p :: p in msgs[0].m <==> Changed(start, sch, stat, p))
                        && forall p | p in msgs[0].m :: msgs[0].m[p] == stat.leaf(p)))
  {
    if s.subscribed {
      var start := CycleStart(s, sch).status;
      var r := DoAll(Pair(start, map[]), Steps(sch, stat), stat);
      DeltaIsExact(start, Steps(sch, stat), stat);
      forall p ensures p in r.tx <==> Changed(start, sch, stat, p) {
        StepsCoverThePoll(sch, stat, p);
      }
      hide DoAll, Steps, Changed, FirstRun;
      assert r.tx == map[] <==> forall p :: p !in r.tx;
    }
  }

  /** Subscribing publishes nothing and makes the next cycle a full one; neither touches
      the status. */
  lemma SubscriptionIsFull(s: Server, stat: Stat, sch: Schema)
    ensures MessagesOf(s, Subscription(true), sch) == MessagesOf(s, Subscription(false), sch) == []
    ensures Serve(s, Subscription(true), sch).status == Serve(s, Subscription(false), sch).status == s.status
    ensures CycleMessages(Serve(s, Subscription(false), sch), sch, stat) == []
    ensures var t := Serve(s, Subscription(true), sch);
            CycleMessages(t, sch, stat) == [Full(Serve(t, Cycle(stat), sch).status)]
  {
  }

  // --- items that are added ---------------------------------------------------

  /** An item that is missing gets all its fields, with defaults, which changes neither
      what is read nor the message. */
  lemma AddItemAdds(s: Pair, ps: seq<Path>)
    requires ps != [] && ps[0] !in s.status
    ensures var t := AddItem(s, ps);
            && (forall p | p in ps :: p in t.status) && (forall p | p in s.status :: p in t.status)
            && (forall p :: Read(t.status, p) == Read(s.status, p)) && t.tx == s.tx
  {
  }

  lemma {:induction false} StepsKeepPaths(s: Pair, steps: seq<Step>, stat: Stat, p: Path)
    ensures p in s.status ==> p in DoAll(s, steps, stat).status
    ensures Added([p]) in steps ==> p in DoAll(s, steps, stat).status
  {
    if steps != [] {
      var init, last := steps[..|steps| - 1], steps[|steps| - 1];
      StepsKeepPaths(s, init, stat, p);
      assert Added([p]) in steps ==> Added([p]) in init || last == Added([p]);
    }
  }

  /** The first cycle gives every field and coordinate a value. */
  lemma FieldsArePresent(s: Server, stat: Stat, sch: Schema, p: Path)
    requires s.subscribed && s.firstRun && Polled(sch, stat, p) && (p.Val? || p.Flt? || p.Pos?)
    ensures p in Serve(s, Cycle(stat), sch).status
  {
    assert p in PathsOf(sch);
    StepsKeepPaths(CycleStart(s, sch), Steps(sch, stat), stat, p);
  }

  lemma {:induction false} CellsAdded(list: string, n: nat, i: nat)
    requires i < n
    ensures Added([Cell(list, i, "value")]) in CellSteps(list, n)
  {
    if i < n - 1 {
      CellsAdded(list, n - 1, i);
    }
  }

  lemma {:induction false} ListsAdded(lists: seq<string>, stat: Stat, list: string, i: nat)
    requires list in lists && i < stat.len(list)
    ensures Added([Cell(list, i, "value")]) in ListSteps(lists, stat)
  {
    if lists[|lists| - 1] == list {
      CellsAdded(list, stat.len(list), i);
    } else {
      ListsAdded(lists[..|lists| - 1], stat, list, i);
    }
  }

  /** After a cycle the status has an item for every item of the poll, changed or not. */
  lemma ItemsArePresent(s: Server, stat: Stat, sch: Schema, list: string, i: nat)
    requires s.subscribed && list in sch.lists && i < stat.len(list)
    ensures Cell(list, i, "value") in Serve(s, Cycle(stat), sch).status
  {
    ListsAdded(sch.lists, stat, list, i);
    assert Added([Cell(list, i, "value")]) in Steps(sch, stat);
    StepsKeepPaths(CycleStart(s, sch), Steps(sch, stat), stat, Cell(list, i, "value"));
  }

  /** Whatever the client had and whatever happened before: after a cycle of a subscribed
      topic the client reads as the server does and follows the poll, without drift. */
  lemma ReplicaFollowsPoll(client: Msg, events: seq<Event>, stat: Stat, sch: Schema)
    requires SubscribedBy(events)
    ensures var (server, replica) := Run(START, client, events + [Cycle(stat)], sch);
            && Agree(replica, server.status)
            && forall p | Polled(sch, stat, p) :: Follows(replica, p, stat)
  {
    var all := events + [Cycle(stat)];
    var r, q := Run(START, client, all, sch), Run(START, client, events, sch);
    assert all[..|all| - 1] == events;
    RunInStep(START, client, all, sch);
    RunSubscribed(client, events, sch);
    assert r.0 == Serve(q.0, Cycle(stat), sch);
    forall p | Polled(sch, stat, p)
      ensures Follows(r.1, p, stat)
    {
      CycleFollows(q.0, stat, sch, p);
      assert Read(r.1, p) == Read(r.0.status, p);
    }
  }

  /** A poll that repeats the previous one is not published, and changes nothing read. */
  lemma RepeatedPollIsQuiet(s: Server, stat: Stat, sch: Schema)
    requires s.subscribed
    ensures var t := Serve(s, Cycle(stat), sch);
            && CycleMessages(t, sch, stat) == []
            && Agree(t.status, Serve(t, Cycle(stat), sch).status)
  {
    var t := Serve(s, Cycle(stat), sch);
    var r := DoAll(CycleStart(t, sch), Steps(sch, stat), stat);
    DeltaIsExact(t.status, Steps(sch, stat), stat);
    forall p
      ensures p !in r.tx
    {
      StepsCoverThePoll(sch, stat, p);
      if Polled(sch, stat, p) {
        CycleFollows(s, stat, sch, p);
      }
    }
    assert r.tx == map[];
  }
}

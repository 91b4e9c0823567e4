/** The status server of mkwrapper.py as it updates its objects in place, proved against
    the functions of StatusReplication. */
module StatusServer {

  import opened Sequences
  import opened StatusReplication

  lemma {:induction false} DoAppend(s: Pair, a: seq<Step>, b: seq<Step>, stat: Stat)
    ensures DoAll(s, a + b, stat) == DoAll(DoAll(s, a, stat), b, stat)
    decreases |b|
  {
    if b == [] {
      assert a + b == a;
    } else {
      var init := b[..|b| - 1];
      assert (a + b)[..|a + b| - 1] == a + init;
      DoAppend(s, a, init, stat);
    }
  }

  /** Collecting changes aside and adding them afterwards is the same as collecting them in place. */
  lemma {:induction false} DoAside(status: Msg, tx: Msg, steps: seq<Step>, stat: Stat)
    ensures var r := DoAll(Pair(status, map[]), steps, stat);
            DoAll(Pair(status, tx), steps, stat) == Pair(r.status, tx + r.tx)
  {
    if steps != [] {
      DoAside(status, tx, steps[..|steps| - 1], stat);
    }
  }

  /** The changes to these paths, all compared with the status at the start. */
  function Delta(status: Msg, ps: seq<Path>, stat: Stat): (r: Msg) {
    map p <- ps | Differs(p, Read(status, p), stat.leaf(p)) :: stat.leaf(p)
  }

  lemma {:induction false} TouchesOverlay(start: Msg, ps: seq<Path>, stat: Stat)
    ensures var r := DoAll(Pair(start, map[]), TouchAll(ps), stat); r.status == start + r.tx
  {
    var steps := TouchAll(ps);
    if ps != [] {
      var init := ps[..|ps| - 1];
      assert steps[..|steps| - 1] == TouchAll(init);
      TouchesOverlay(start, init, stat);
    }
  }

  /** Comparing paths one after the other is the same as comparing all with the start. */
  lemma TouchesAtOnce(start: Msg, ps: seq<Path>, stat: Stat)
    ensures var d := Delta(start, ps, stat);
            DoAll(Pair(start, map[]), TouchAll(ps), stat) == Pair(start + d, d)
  {
    var r := DoAll(Pair(start, map[]), TouchAll(ps), stat);
    TouchesOverlay(start, ps, stat);
    DeltaIsExact(start, TouchAll(ps), stat);
    forall p
      ensures p in r.tx <==> p in Delta(start, ps, stat)
    {
      TouchesAll(ps, p);
    }
    assert r.tx == Delta(start, ps, stat);
  }

  lemma OneCell(start: Pair, list: string, index: nat, stat: Stat)
    ensures var p := Cell(list, index, "value");
            DoAll(start, CellSteps(list, index + 1), stat) ==
            Touch(AddItem(DoAll(start, CellSteps(list, index), stat), [p]), p, stat.leaf(p))
  {
    var p := Cell(list, index, "value");
    var s := DoAll(start, CellSteps(list, index), stat);
    DoAppend(start, CellSteps(list, index), [Added([p]), Touched(p)], stat);
    assert [Added([p]), Touched(p)][..1] == [Added([p])];
    assert [Added([p])][..0] == [];
    assert DoAll(s, [Added([p])], stat) == Do(DoAll(s, [], stat), Added([p]), stat);
  }

  lemma OneTouch(s: Pair, ps: seq<Path>, k: nat, stat: Stat)
    requires k < |ps|
    ensures DoAll(s, TouchAll(ps[..k + 1]), stat) == Touch(DoAll(s, TouchAll(ps[..k]), stat), ps[k], stat.leaf(ps[k]))
  {
    var steps := TouchAll(ps[..k + 1]);
    assert steps[..k] == TouchAll(ps[..k]);
  }

  lemma OnePosition(s: Pair, names: seq<string>, k: nat, stat: Stat)
    requires k < |names|
    ensures DoAll(s, PositionSteps(names[..k + 1]), stat) ==
            DoAll(DoAll(s, PositionSteps(names[..k]), stat), TouchAll(PositionPaths(names[k])), stat)
  {
    assert names[..k + 1][..k] == names[..k];
    DoAppend(s, PositionSteps(names[..k]), TouchAll(PositionPaths(names[k])), stat);
  }

  lemma OneList(s: Pair, lists: seq<string>, k: nat, stat: Stat)
    requires k < |lists|
    ensures DoAll(s, ListSteps(lists[..k + 1], stat), stat) ==
            DoAll(DoAll(s, ListSteps(lists[..k], stat), stat), CellSteps(lists[k], stat.len(lists[k])), stat)
  {
    assert lists[..k + 1][..k] == lists[..k];
    DoAppend(s, ListSteps(lists[..k], stat), CellSteps(lists[k], stat.len(lists[k])), stat);
  }

  lemma NextAxis(s: Pair, sch: Schema, i: nat, stat: Stat)
    ensures DoAll(s, AxisSteps(sch, i + 1), stat) == DoAll(DoAll(s, AxisSteps(sch, i), stat), OneAxis(sch, i), stat)
  {
    DoAppend(s, AxisSteps(sch, i), OneAxis(sch, i), stat);
  }

  lemma AxisInPieces(s: Pair, sch: Schema, i: nat, stat: Stat)
    ensures DoAll(s, OneAxis(sch, i), stat) ==
            DoAll(DoAll(AddItem(s, AxisPaths(sch, i)), TouchAll(AxisValuePaths(sch, i)), stat),
                  TouchAll(AxisFloatPaths(sch, i)), stat)
  {
    var added := [Added(AxisPaths(sch, i))];
    var values, floats := TouchAll(AxisValuePaths(sch, i)), TouchAll(AxisFloatPaths(sch, i));
    assert OneAxis(sch, i) == added + (values + floats);
    DoAppend(s, added, values + floats, stat);
    assert added[..0] == [];
    assert DoAll(s, added, stat) == Do(DoAll(s, [], stat), added[0], stat);
    DoAppend(AddItem(s, AxisPaths(sch, i)), values, floats, stat);
  }

  lemma CycleInPieces(s: Pair, sch: Schema, stat: Stat)
    ensures var fields := DoAll(DoAll(s, TouchAll(ValuePaths(sch)), stat), TouchAll(FloatPaths(sch)), stat);
            DoAll(s, Steps(sch, stat), stat) ==
            DoAll(DoAll(DoAll(fields, PositionSteps(sch.positions), stat), ListSteps(sch.lists, stat), stat),
                  AxisSteps(sch, AxisCount(stat)), stat)
  {
    var v, f, p := TouchAll(ValuePaths(sch)), TouchAll(FloatPaths(sch)), PositionSteps(sch.positions);
    DoAppend(s, v, f, stat);
    DoAppend(s, v + f, p, stat);
    DoAppend(s, v + f + p, ListSteps(sch.lists, stat), stat);
    DoAppend(s, v + f + p + ListSteps(sch.lists, stat), AxisSteps(sch, AxisCount(stat)), stat);
  }

  /** A status topic: its part of status, of status_tx and its three flags. */
  class Topic {
    const sch: Schema
    var status: Msg
    var statusTx: Msg
    var subscribed: bool
    var fullUpdate: bool
    var firstRun: bool
    var published: seq<Published>

    constructor (sch: Schema)
      ensures this.sch == sch && Now() == START && statusTx == map[] && published == []
    {
      this.sch := sch;
      status, statusTx, published := map[], map[], [];
      subscribed, fullUpdate, firstRun := false, false, true;
    }

    ghost function Now(): (r: Server)
      reads this
    {
      Server(status, subscribed, fullUpdate, firstRun)
    }

    method UpdateProtoValue(tx: Msg, p: Path, value: Leaf) returns (tx': Msg, modified: bool)
      requires !IsNear(p)
      modifies `status
      ensures Pair(status, tx') == Touch(Pair(old(status), tx), p, value)
      ensures if modified then p in tx' else tx' == tx
      ensures forall q | q in tx' && q != p :: q in tx
    {
      tx', modified := tx, false;
      if (if p in status then status[p] else ABSENT) != value {
        status := status[p := value];
        tx' := tx[p := value];
        modified := true;
      }
    }

    method UpdateProtoFloat(tx: Msg, p: Path, value: Leaf) returns (tx': Msg, modified: bool)
      requires IsNear(p)
      modifies `status
      ensures Pair(status, tx') == Touch(Pair(old(status), tx), p, value)
      ensures if modified then p in tx' else tx' == tx
      ensures forall q | q in tx' && q != p :: q in tx
    {
      tx', modified := tx, false;
      if Differs(p, if p in status then status[p] else ABSENT, value) {
        status := status[p := value];
        tx' := tx[p := value];
        modified := true;
      }
    }

    /** The body of the loop of update_proto_list. */
    method UpdateListItem(p: Path, value: Leaf) returns (modified: bool)
      requires !IsNear(p)
      modifies `status, `statusTx
      ensures Pair(status, statusTx) == Touch(AddItem(Pair(old(status), old(statusTx)), [p]), p, value)
      ensures if modified then statusTx != map[] else statusTx == old(statusTx)
    {
      if p !in status {
        status := status[p := ABSENT];
      }
      assert Defaults([p]) + old(status) == status;
      var item;
      item, modified := UpdateProtoValue(map[], p, value);
      if modified {
        statusTx := statusTx + item;
        assert p in statusTx;
      }
      assert statusTx == old(statusTx) + item;
    }

    method UpdateProtoList(list: string, stat: Stat) returns (modified: bool)
      modifies `status, `statusTx
      ensures Pair(status, statusTx) ==
              DoAll(Pair(old(status), old(statusTx)), CellSteps(list, stat.len(list)), stat)
      ensures if modified then statusTx != map[] else statusTx == old(statusTx)
    {
      hide Touch, AddItem;
      ghost var start := Pair(status, statusTx);
      modified := false;
      for index := 0 to stat.len(list)
        invariant Pair(status, statusTx) == DoAll(start, CellSteps(list, index), stat)
        invariant if modified then statusTx != map[] else statusTx == start.tx
      {
        OneCell(start, list, index, stat);
        var p := Cell(list, index, "value");
        var itemModified := UpdateListItem(p, stat.leaf(p));
        modified := modified || itemModified;
      }
    }

    method CheckPosition(name: string, stat: Stat) returns (modified: bool, txPosition: Msg)
      ensures txPosition == Delta(status, PositionPaths(name), stat)
      ensures modified <==> txPosition != map[]
    {
      modified, txPosition := false, map[];
      for k := 0 to 9
        invariant txPosition == Delta(status, PositionPaths(name)[..k], stat)
        invariant modified <==> txPosition != map[]
      {
        var p := Pos(name, k);
        assert PositionPaths(name)[..k + 1] == PositionPaths(name)[..k] + [p];
        if Differs(p, if p in status then status[p] else ABSENT, stat.leaf(p)) {
          txPosition := txPosition[p := stat.leaf(p)];
          assert p in txPosition;
          modified := true;
        }
      }
    }

    method UpdateProtoPosition(name: string, stat: Stat) returns (modified: bool)
      requires forall k :: Pos(name, k) !in statusTx
      modifies `status, `statusTx
      ensures Pair(status, statusTx) ==
              DoAll(Pair(old(status), old(statusTx)), TouchAll(PositionPaths(name)), stat)
      ensures if modified then statusTx != map[] else statusTx == old(statusTx)
      ensures forall p | p in statusTx && p !in old(statusTx) :: p.Pos? && p.name == name
    {
      hide DoAll, Read, Differs;
      TouchesAtOnce(status, PositionPaths(name), stat);
      DoAside(status, statusTx, TouchAll(PositionPaths(name)), stat);
      var txPosition;
      modified, txPosition := CheckPosition(name, stat);
      if modified {
        status := status + txPosition;
        // CopyFrom: whatever the message had for the position is replaced.
        assert statusTx == map p | p in statusTx && !(p.Pos? && p.name == name) :: statusTx[p];
        statusTx := (map p | p in statusTx && !(p.Pos? && p.name == name) :: statusTx[p]) + txPosition;
        var p :| p in txPosition;
        assert p in statusTx;
      }
    }

    /** The loops over names with update_proto_value. */
    method UpdateValues(tx: Msg, ps: seq<Path>, stat: Stat) returns (tx': Msg, modified: bool)
      requires forall p | p in ps :: !IsNear(p)
      modifies `status
      ensures Pair(status, tx') == DoAll(Pair(old(status), tx), TouchAll(ps), stat)
      ensures if modified then tx' != map[] else tx' == tx
      ensures forall p | p in tx' && p !in tx :: p in ps
    {
      hide Touch;
      tx', modified := tx, false;
      for k := 0 to |ps|
        invariant Pair(status, tx') == DoAll(Pair(old(status), tx), TouchAll(ps[..k]), stat)
        invariant if modified then tx' != map[] else tx' == tx
        invariant forall p | p in tx' && p !in tx :: p in ps
      {
        OneTouch(Pair(old(status), tx), ps, k, stat);
        var one;
        tx', one := UpdateProtoValue(tx', ps[k], stat.leaf(ps[k]));
        modified := modified || one;
      }
      assert ps[..|ps|] == ps;
    }

    /** The loops over names with update_proto_float. */
    method UpdateFloats(tx: Msg, ps: seq<Path>, stat: Stat) returns (tx': Msg, modified: bool)
      requires forall p | p in ps :: IsNear(p)
      modifies `status
      ensures Pair(status, tx') == DoAll(Pair(old(status), tx), TouchAll(ps), stat)
      ensures if modified then tx' != map[] else tx' == tx
      ensures forall p | p in tx' && p !in tx :: p in ps
    {
      hide Touch;
      tx', modified := tx, false;
      for k := 0 to |ps|
        invariant Pair(status, tx') == DoAll(Pair(old(status), tx), TouchAll(ps[..k]), stat)
        invariant if modified then tx' != map[] else tx' == tx
        invariant forall p | p in tx' && p !in tx :: p in ps
      {
        OneTouch(Pair(old(status), tx), ps, k, stat);
        var one;
        tx', one := UpdateProtoFloat(tx', ps[k], stat.leaf(ps[k]));
        modified := modified || one;
      }
      assert ps[..|ps|] == ps;
    }

    method UpdatePositions(stat: Stat) returns (modified: bool)
      requires Distinct(sch.positions)
      requires forall p | p in statusTx :: !p.Pos?
      modifies `status, `statusTx
      ensures Pair(status, statusTx) ==
              DoAll(Pair(old(status), old(statusTx)), PositionSteps(sch.positions), stat)
      ensures if modified then statusTx != map[] else statusTx == old(statusTx)
    {
      ghost var start := Pair(status, statusTx);
      modified := false;
      assert DoAll(start, PositionSteps(sch.positions[..0]), stat) == start;
      hide DoAll, PositionSteps;
      for k := 0 to |sch.positions|
        invariant Pair(status, statusTx) == DoAll(start, PositionSteps(sch.positions[..k]), stat)
        invariant if modified then statusTx != map[] else statusTx == start.tx
        invariant forall p | p in statusTx && p.Pos? :: p.name in sch.positions[..k]
      {
        OnePosition(start, sch.positions, k, stat);
        var one := UpdateProtoPosition(sch.positions[k], stat);
        modified := modified || one;
      }
      assert sch.positions[..|sch.positions|] == sch.positions;
    }

    method UpdateLists(stat: Stat) returns (modified: bool)
      modifies `status, `statusTx
      ensures Pair(status, statusTx) == DoAll(Pair(old(status), old(statusTx)), ListSteps(sch.lists, stat), stat)
      ensures if modified then statusTx != map[] else statusTx == old(statusTx)
    {
      ghost var start := Pair(status, statusTx);
      modified := false;
      for k := 0 to |sch.lists|
        invariant Pair(status, statusTx) == DoAll(start, ListSteps(sch.lists[..k], stat), stat)
        invariant if modified then statusTx != map[] else statusTx == start.tx
      {
        OneList(start, sch.lists, k, stat);
        var one := UpdateProtoList(sch.lists[k], stat);
        modified := modified || one;
      }
      assert sch.lists[..|sch.lists|] == sch.lists;
    }

    /** The body of the loop over the axes. */
    method UpdateAxis(index: nat, stat: Stat) returns (modified: bool)
      modifies `status, `statusTx
      ensures Pair(status, statusTx) == DoAll(Pair(old(status), old(statusTx)), OneAxis(sch, index), stat)
      ensures if modified then statusTx != map[] else statusTx == old(statusTx)
    {
      var ps := AxisPaths(sch, index);
      if ps != [] && ps[0] !in status {
        status := Defaults(ps) + status;
      }
      ghost var added := status;
      var txAxis, m, n;
      txAxis, m := UpdateValues(map[], AxisValuePaths(sch, index), stat);
      txAxis, n := UpdateFloats(txAxis, AxisFloatPaths(sch, index), stat);
      modified := m || n;
      AxisAside(Pair(old(status), old(statusTx)), added, sch, index, stat);
      if modified {
        statusTx := statusTx + txAxis;
      }
    }

    method UpdateAxes(stat: Stat) returns (modified: bool)
      modifies `status, `statusTx
      ensures Pair(status, statusTx) ==
              DoAll(Pair(old(status), old(statusTx)), AxisSteps(sch, AxisCount(stat)), stat)
      ensures if modified then statusTx != map[] else statusTx == old(statusTx)
    {
      ghost var start := Pair(status, statusTx);
      modified := false;
      assert DoAll(start, AxisSteps(sch, 0), stat) == start;
      hide DoAll, AxisSteps, OneAxis, Read, Do, Touch, AddItem;
      for index := 0 to stat.axisLen
        invariant index <= stat.axes
        invariant Pair(status, statusTx) == DoAll(start, AxisSteps(sch, index), stat)
        invariant if modified then statusTx != map[] else statusTx == start.tx
      {
        if index == stat.axes {
          assert index == AxisCount(stat);
          break;
        }
        NextAxis(start, sch, index, stat);
        var one := UpdateAxis(index, stat);
        modified := modified || one;
      }
    }

    /** update_task, update_interp, update_motion. */
    method Update(stat: Stat)
      requires Distinct(sch.positions) && subscribed && statusTx == map[]
      modifies this
      ensures Now() == Serve(old(Now()), Cycle(stat), sch)
      ensures published == old(published) + CycleMessages(old(Now()), sch, stat)
    {
      hide DoAll, PositionSteps, ListSteps, AxisSteps, Steps, FirstRun;
      if firstRun {
        status := status + FirstRun(sch);
        firstRun := false;
      }
      ghost var start := Pair(status, map[]);
      CycleInPieces(start, sch, stat);
      var v, f;
      statusTx, v := UpdateValues(statusTx, ValuePaths(sch), stat);
      statusTx, f := UpdateFloats(statusTx, FloatPaths(sch), stat);
      var p := UpdatePositions(stat);
      var l := UpdateLists(stat);
      var a := UpdateAxes(stat);
      var modified := v || f || p || l || a;
      if fullUpdate {
        published := published + [Full(status)];
        fullUpdate := false;
      } else if modified {
        published := published + [Incremental(statusTx)];
      }
    }
  }

  lemma AxisAside(s: Pair, added: Msg, sch: Schema, i: nat, stat: Stat)
    requires added == AddItem(s, AxisPaths(sch, i)).status
    ensures var r := DoAll(DoAll(Pair(added, map[]), TouchAll(AxisValuePaths(sch, i)), stat),
                           TouchAll(AxisFloatPaths(sch, i)), stat);
            DoAll(s, OneAxis(sch, i), stat) == Pair(r.status, s.tx + r.tx)
  {
    AxisInPieces(s, sch, i, stat);
    var values, floats := TouchAll(AxisValuePaths(sch, i)), TouchAll(AxisFloatPaths(sch, i));
    DoAppend(Pair(added, map[]), values, floats, stat);
    DoAppend(Pair(added, s.tx), values, floats, stat);
    DoAside(added, s.tx, values + floats, stat);
  }

  /** The task, interp and motion topics of the wrapper. */
  class Wrapper {
    const task: Topic
    const interp: Topic
    const motion: Topic

    constructor ()
      ensures fresh(task) && fresh(interp) && fresh(motion) && Valid()
      ensures task.Now() == interp.Now() == motion.Now() == START
    {
      task := new Topic(TASK);
      interp := new Topic(INTERP);
      motion := new Topic(MOTION);
    }

    ghost predicate Valid() {
      && task.sch == TASK && interp.sch == INTERP && motion.sch == MOTION
      && task != interp && task != motion && interp != motion
    }

    method UpdateStatus(stat: Stat)
      requires Valid()
      modifies task, interp, motion
      ensures task.Now() == Serve(old(task.Now()), Cycle(stat), TASK)
      ensures interp.Now() == Serve(old(interp.Now()), Cycle(stat), INTERP)
      ensures motion.Now() == Serve(old(motion.Now()), Cycle(stat), MOTION)
      ensures task.published == old(task.published) + CycleMessages(old(task.Now()), TASK, stat)
      ensures interp.published == old(interp.published) + CycleMessages(old(interp.Now()), INTERP, stat)
      ensures motion.published == old(motion.published) + CycleMessages(old(motion.Now()), MOTION, stat)
    {
      hide DoAll, Steps, FirstRun;
      task.statusTx, interp.statusTx, motion.statusTx := map[], map[], map[];
      MotionPositionsDistinct();
      if task.subscribed {
        task.Update(stat);
      }
      if interp.subscribed {
        interp.Update(stat);
      }
      if motion.subscribed {
        motion.Update(stat);
      }
    }

    method ProcessStatus(subscription: string, status: bool)
      requires Valid()
      modifies task, interp, motion
      ensures task.Now() == if subscription == "task" then Serve(old(task.Now()), Subscription(status), TASK)
                            else old(task.Now())
      ensures interp.Now() == if subscription == "interp" then Serve(old(interp.Now()), Subscription(status), INTERP)
                              else old(interp.Now())
      ensures motion.Now() == if subscription == "motion" then Serve(old(motion.Now()), Subscription(status), MOTION)
                              else old(motion.Now())
      ensures task.published == old(task.published) && interp.published == old(interp.published) &&
              motion.published == old(motion.published)
    {
      if subscription == "motion" {
        motion.subscribed, motion.fullUpdate := status, status;
      } else if subscription == "task" {
        task.subscribed, task.fullUpdate := status, status;
      } else if subscription == "interp" {
        interp.subscribed, interp.fullUpdate := status, status;
      }
    }
  }

  lemma MotionPositionsDistinct()
    ensures Distinct(TASK.positions) && Distinct(INTERP.positions) && Distinct(MOTION.positions)
  {
    var names := MOTION.positions;
    assert |names[0]| == 15 && |names[1]| == 3 && |names[2]| == 10 && |names[3]| == 10 && |names[4]| == 21 &&
           |names[5]| == 14 && |names[6]| == 8 && |names[7]| == 15;
    assert names[2][1] == '5' && names[3][1] == '9' && names[0][0] == 'a' && names[7][0] == 'p';
  }
}

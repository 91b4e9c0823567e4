/** Module bookkeeping of rtapi_app (rtapi_app.cc): loading records the order in a
    vector, unloading runs std::remove over it without erasing the tail, and shutdown
    walks the vector backwards while every unload rewrites it. */
module RtapiApp {
  type Name = string

  /** What trying to load a path comes to, step by step. */
  datatype Attempt = Attempt(loads: bool, name: Name, hasMain: bool, argsResult: int, mainResult: int)

  /** std::remove moves from some slots without refilling them. The library leaves an
      unspecified string in each: here the slots of one call that keep their text, the
      others being emptied. */
  type Choice = nat -> bool

  datatype Command = Load(path: string, attempt: Attempt) | Unload(name: Name, keeps: Choice)

  /** `closed` lists the modules stopped and closed so far. */
  datatype Host = Host(modules: map<Name, string>, order: seq<Name>, closed: seq<Name>)

  const EMPTY := Host(map[], [], [])

  // --- std::remove ------------------------------------------------------------

  function Without(v: seq<Name>, name: Name): (w: seq<Name>)
    ensures |w| <= |v|
  {
    if v == [] then []
    else Without(v[..|v| - 1], name) + if v[|v| - 1] == name then [] else [v[|v| - 1]]
  }

  /** What is left in a slot that std::remove has passed over: an element equal to
      the removed one stays, another one has been moved from. */
  function Leftover(s: Name, name: Name, kept: bool): (r: Name) {
    if s == name || kept then s else ""
  }

  /** The vector after std::remove: the elements kept, then what is left of the tail. */
  function Removed(v: seq<Name>, name: Name, keeps: Choice): (w: seq<Name>)
    ensures |w| == |v|
  {
    var kept := Without(v, name);
    kept + seq(|v| - |kept|, k requires 0 <= k < |v| - |kept| => Leftover(v[|kept| + k], name, keeps(|kept| + k)))
  }

  // --- the commands -----------------------------------------------------------

  predicate Succeeds(h: Host, a: Attempt) {
    a.loads && a.name !in h.modules && a.hasMain && a.argsResult >= 0 && a.mainResult >= 0
  }

  function DoLoad(h: Host, path: string, a: Attempt): (r: Host) {
    if Succeeds(h, a) then Host(h.modules[a.name := path], h.order + [a.name], h.closed) else h
  }

  function DoUnload(h: Host, name: Name, keeps: Choice): (r: Host) {
    if name in h.modules
    then Host(h.modules - {name}, Removed(h.order, name, keeps), h.closed + [name])
    else h
  }

  function Do(h: Host, c: Command): (r: Host) {
    match c
    case Load(path, a) => DoLoad(h, path, a)
    case Unload(name, keeps) => DoUnload(h, name, keeps)
  }

  /** The loop of exit_actions from position i - 1 down to the front: the name is
      read from the vector as it is by then. The unload for slot k uses exits(k). */
  function ExitFrom(h: Host, i: nat, exits: nat -> Choice): (r: Host)
    requires i <= |h.order|
    decreases i
  {
    if i == 0 then h else ExitFrom(DoUnload(h, h.order[i - 1], exits(i - 1)), i - 1, exits)
  }

  /** The process-wide globals. */
  class App {
    var modules: map<Name, string>
    var loadingOrder: seq<Name>
    var closed: seq<Name>

    ghost function Value(): (r: Host)
      reads this
    {
      Host(modules, loadingOrder, closed)
    }

    constructor ()
      ensures Value() == EMPTY
    {
      modules, loadingOrder, closed := map[], [], [];
    }

    method DoLoadCmd(path: string, a: Attempt) returns (retval: int)
      modifies this
      ensures Value() == DoLoad(old(Value()), path, a)
      ensures retval == 0 <==> Succeeds(old(Value()), a)
      ensures retval != 0 ==>
                retval == if a.loads && a.name !in old(modules) && a.hasMain && a.argsResult >= 0 then a.mainResult else -1
    {
      if !a.loads {
        return -1;
      }
      if a.name in modules {
        return -1;
      }
      if !a.hasMain {
        return -1;
      }
      if a.argsResult < 0 {
        return -1;
      }
      if a.mainResult < 0 {
        return a.mainResult;
      }
      modules := modules[a.name := path];
      loadingOrder := loadingOrder + [a.name];
      return 0;
    }

    method DoUnloadCmd(name: Name, keeps: Choice) returns (retval: int)
      modifies this
      ensures Value() == DoUnload(old(Value()), name, keeps)
      ensures retval == 0 <==> name in old(modules)
    {
      if name !in modules {
        return -1;
      }
      closed := closed + [name];
      modules := modules - {name};
      RemoveModule(name, keeps);
      return 0;
    }

    /** std::remove, moving elements forward in place; the vector keeps its length. */
    method RemoveModule(name: Name, keeps: Choice)
      modifies this`loadingOrder
      ensures loadingOrder == Removed(old(loadingOrder), name, keeps)
    {
      hide Without, Leftover;
      ghost var was := loadingOrder;
      var first := 0;
      WithoutNone(was, name);
      while first < |loadingOrder| && loadingOrder[first] != name
        invariant 0 <= first <= |loadingOrder| && loadingOrder == was
        invariant Without(was[..first], name) == was[..first]
      {
        WithoutSnoc(was, first, name);
        first := first + 1;
      }
      var i := first;
      while i < |loadingOrder|
        invariant 0 <= first <= i <= |loadingOrder| == |was|
        invariant loadingOrder[..first] == Without(was[..i], name)
        invariant forall k | first <= k < i :: loadingOrder[k] == Leftover(was[k], name, keeps(k))
        invariant forall k | i <= k < |was| :: loadingOrder[k] == was[k]
        invariant first == i < |was| ==> was[i] == name
      {
        WithoutSnoc(was, i, name);
        LeftoverCases(was[i], name, keeps(i));
        if loadingOrder[i] != name {
          ghost var kept := loadingOrder[..first];
          loadingOrder := loadingOrder[first := loadingOrder[i]];
          loadingOrder := loadingOrder[i := if keeps(i) then loadingOrder[i] else ""];
          assert loadingOrder[..first + 1] == kept + [was[i]];
          first := first + 1;
        }
        i := i + 1;
      }
      assert was[..i] == was;
    }

    /** The unloading loop of exit_actions, which runs while the HAL library is
        still loaded. */
    method ExitActions(exits: nat -> Choice)
      modifies this
      ensures Value() == ExitFrom(old(Value()), |old(loadingOrder)|, exits)
    {
      var i := |loadingOrder|;
      ghost var start := Value();
      while i > 0
        invariant 0 <= i <= |loadingOrder|
        invariant ExitFrom(start, |start.order|, exits) == ExitFrom(Value(), i, exits)
      {
        var _ := DoUnloadCmd(loadingOrder[i - 1], exits(i - 1));
        i := i - 1;
      }
    }
  }

  lemma WithoutNone(v: seq<Name>, name: Name)
    ensures Without(v[..0], name) == v[..0]
  {
  }

  lemma LeftoverCases(s: Name, name: Name, kept: bool)
    ensures Leftover(name, name, kept) == name
    ensures s != name ==> Leftover(s, name, kept) == if kept then s else ""
  {
  }

  lemma WithoutSnoc(v: seq<Name>, i: nat, name: Name)
    requires i < |v|
    ensures Without(v[..i + 1], name) == Without(v[..i], name) + if v[i] == name then [] else [v[i]]
  {
    assert v[..i + 1][..i] == v[..i];
  }

  // --- the intended order -----------------------------------------------------

  /** What one command does to a list of live modules, oldest load first. */
  function LiveAfter(live: seq<Name>, c: Command): (r: seq<Name>) {
    match c
    case Load(_, a) =>
      if a.loads && a.name !in live && a.hasMain && a.argsResult >= 0 && a.mainResult >= 0 then live + [a.name] else live
    case Unload(name, _) => Without(live, name)
  }

  /** The live modules in the order of their current load. */
  function LoadOrder(cs: seq<Command>): (r: seq<Name>) {
    if cs == [] then [] else LiveAfter(LoadOrder(cs[..|cs| - 1]), cs[|cs| - 1])
  }

  function Run(cs: seq<Command>): (r: Host) {
    if cs == [] then EMPTY else Do(Run(cs[..|cs| - 1]), cs[|cs| - 1])
  }

  function Reverse(v: seq<Name>): (r: seq<Name>) {
    if v == [] then [] else [v[|v| - 1]] + Reverse(v[..|v| - 1])
  }

  /** What a shutdown after cs closes, in order. */
  function ShutdownOf(cs: seq<Command>, exits: nat -> Choice): (r: Host) {
    var h := Run(cs);
    ExitFrom(h.(closed := []), |h.order|, exits)
  }

  /** A live module comes from a load that met every condition while it was not live; no
      unload of it came since, and it is known under the path given then. */
  lemma {:induction false} LoadedFrom(cs: seq<Command>, name: Name) returns (j: nat)
    requires name in Run(cs).modules
    ensures j < |cs| && cs[j].Load? && cs[j].attempt.name == name && cs[j].path == Run(cs).modules[name]
    ensures cs[j].attempt.loads && cs[j].attempt.hasMain && cs[j].attempt.argsResult >= 0 && cs[j].attempt.mainResult >= 0
    ensures name !in Run(cs[..j]).modules
    ensures forall i | j < i < |cs| :: !(cs[i].Unload? && cs[i].name == name)
  {
    var before, c := cs[..|cs| - 1], cs[|cs| - 1];
    if name in Run(before).modules {
      j := LoadedFrom(before, name);
      assert before[..j] == cs[..j];
    } else {
      j := |cs| - 1;
    }
  }

  /** After any load that meets every condition else, a module is live until unloaded. */
  lemma {:induction false} StaysLoaded(cs: seq<Command>, j: nat)
    requires j < |cs| && cs[j].Load?
    requires var a := cs[j].attempt; a.loads && a.hasMain && a.argsResult >= 0 && a.mainResult >= 0
    requires forall i | j < i < |cs| :: !(cs[i].Unload? && cs[i].name == cs[j].attempt.name)
    ensures cs[j].attempt.name in Run(cs).modules
  {
    if j < |cs| - 1 {
      StaysLoaded(cs[..|cs| - 1], j);
    }
  }

  /** Module names are never empty. */
  predicate Named(cs: seq<Command>) {
    forall i | 0 <= i < |cs| && cs[i].Load? :: cs[i].attempt.name != ""
  }

  // --- last occurrences -------------------------------------------------------

  function Last(v: seq<Name>, x: Name): (k: int)
    ensures -1 <= k < |v|
  {
    if v == [] then -1 else if v[|v| - 1] == x then |v| - 1 else Last(v[..|v| - 1], x)
  }

  lemma {:induction false} LastMeaning(v: seq<Name>, x: Name)
    ensures Last(v, x) >= 0 ==> v[Last(v, x)] == x
    ensures forall j | Last(v, x) < j < |v| :: v[j] != x
  {
    if v != [] {
      LastMeaning(v[..|v| - 1], x);
    }
  }

  lemma LastSnoc(a: seq<Name>, z: Name, x: Name)
    ensures Last(a + [z], x) == if z == x then |a| else Last(a, x)
  {
    assert (a + [z])[..|a|] == a;
  }

  /** Without and Last on one more element. */
  lemma WithoutLast(a: seq<Name>, z: Name, name: Name, x: Name)
    requires x != name
    ensures Last(a + [z], x) == if z == x then |a| else Last(a, x)
    ensures Last(Without(a + [z], name), x) == if z == x then |Without(a, name)| else Last(Without(a, name), x)
  {
    LastSnoc(a, z, x);
    assert (a + [z])[..|a|] == a;
    LastSnoc(Without(a, name), z, x);
    assert Without(a, name) + [] == Without(a, name);
  }

  /** Filtering keeps the order of last occurrences. */
  lemma {:induction false} LastWithout(v: seq<Name>, name: Name, x: Name, y: Name)
    requires x != name && y != name && 0 <= Last(v, x) < Last(v, y)
    ensures 0 <= Last(Without(v, name), x) < Last(Without(v, name), y)
    decreases |v|
  {
    var before, z := v[..|v| - 1], v[|v| - 1];
    assert v == before + [z];
    WithoutLast(before, z, name, x);
    WithoutLast(before, z, name, y);
    if z == y {
      LastWithoutOne(before, name, x);
    } else {
      LastWithout(before, name, x, y);
    }
  }

  /** Filtering moves nothing backwards. */
  lemma {:induction false} LastWithoutOne(v: seq<Name>, name: Name, x: Name)
    requires x != name && Last(v, x) >= 0
    ensures 0 <= Last(Without(v, name), x) <= Last(v, x)
    decreases |v|
  {
    var before, z := v[..|v| - 1], v[|v| - 1];
    assert v == before + [z];
    WithoutLast(before, z, name, x);
    if z != x {
      LastWithoutOne(before, name, x);
    }
  }

  /** Where the last occurrence of a name other than the removed one ends up: at a slot
      of the tail that kept it, the old place if that did, else where filtering moved it. */
  lemma LastRemoved(v: seq<Name>, name: Name, keeps: Choice, x: Name)
    requires x != name && x != "" && Last(v, x) >= 0
    ensures var m, p := |Without(v, name)|, Last(Removed(v, name, keeps), x);
            && 0 <= Last(Without(v, name), x) <= p <= Last(v, x)
            && (p < m ==> p == Last(Without(v, name), x))
            && (p >= m ==> keeps(p) && v[p] == x)
            && (m <= Last(v, x) && keeps(Last(v, x)) ==> p == Last(v, x))
  {
    var kept, w := Without(v, name), Removed(v, name, keeps);
    LastWithoutOne(v, name, x);
    LastMeaning(v, x);
    LastMeaning(kept, x);
    LastMeaning(w, x);
    var p, q := Last(w, x), Last(kept, x);
    hide Last, Without;
    RemovedAt(v, name, keeps, q);
    assert p >= q;
    RemovedAt(v, name, keeps, p);
    RemovedAt(v, name, keeps, Last(v, x));
    if p < |kept| {
      assert kept[p] == x;
    }
  }

  lemma RemovedAt(v: seq<Name>, name: Name, keeps: Choice, k: nat)
    requires k < |v|
    ensures Removed(v, name, keeps)[k] ==
            if k < |Without(v, name)| then Without(v, name)[k] else Leftover(v[k], name, keeps(k))
  {
  }

  /** Once a slot keeps its text, every later one does. The first two never matter, as
      they are refilled whenever two other names are left. */
  ghost predicate Upward(keeps: Choice) {
    forall i: nat, k: nat | 2 <= i < k && keeps(i) :: keeps(k)
  }

  /** Between a kept slot and a later emptied one, a kept slot just below an emptied one. */
  lemma {:induction false} LastKept(keeps: Choice, i: nat, k: nat) returns (j: nat)
    requires i < k && keeps(i) && !keeps(k)
    ensures i <= j < k && keeps(j) && !keeps(j + 1)
    decreases k - i
  {
    j := i;
    if keeps(i + 1) {
      j := LastKept(keeps, i + 1, k);
    }
  }

  /** std::remove keeps the order of last occurrences of all other names. */
  lemma RemovedKeepsOrder(v: seq<Name>, name: Name, keeps: Choice, x: Name, y: Name)
    requires Upward(keeps)
    requires x != name && y != name && x != "" && y != "" && 0 <= Last(v, x) < Last(v, y)
    ensures 0 <= Last(Removed(v, name, keeps), x) < Last(Removed(v, name, keeps), y)
  {
    LastRemoved(v, name, keeps, x);
    LastRemoved(v, name, keeps, y);
    LastWithout(v, name, x, y);
    var p := Last(Removed(v, name, keeps), x);
    assert p >= |Without(v, name)| ==> keeps(p) && p < Last(v, y);
  }

  // --- the invariant ----------------------------------------------------------

  /** The live modules, ordered by their last occurrence in the vector, are `live`. */
  ghost predicate Tracks(h: Host, live: seq<Name>) {
    && (forall x :: x in h.modules <==> x in live)
    && "" !in live
    && Ascending(live, h.order)
  }

  lemma TracksLoad(h: Host, live: seq<Name>, path: string, name: Name)
    requires Tracks(h, live) && name !in h.modules && name != ""
    ensures Tracks(Host(h.modules[name := path], h.order + [name], h.closed), live + [name])
  {
    forall x ensures Last(h.order + [name], x) == if x == name then |h.order| else Last(h.order, x) {
      LastSnoc(h.order, name, x);
    }
  }

  lemma {:induction false} WithoutMembers(v: seq<Name>, name: Name)
    ensures forall x :: x in Without(v, name) <==> x in v && x != name
  {
    if v != [] {
      WithoutMembers(v[..|v| - 1], name);
      assert v == v[..|v| - 1] + [v[|v| - 1]];
    }
  }

  ghost predicate Ascending(live: seq<Name>, v: seq<Name>) {
    && (forall i | 0 <= i < |live| :: Last(v, live[i]) >= 0)
    && (forall i, j | 0 <= i < j < |live| :: Last(v, live[i]) < Last(v, live[j]))
  }

  lemma {:induction false} WithoutAscending(live: seq<Name>, name: Name, v: seq<Name>)
    requires Ascending(live, v)
    ensures Ascending(Without(live, name), v)
  {
    if live != [] {
      var before, z := live[..|live| - 1], live[|live| - 1];
      WithoutAscending(before, name, v);
      WithoutMembers(before, name);
      var w := Without(before, name);
      forall i | 0 <= i < |w| ensures Last(v, w[i]) < Last(v, z) {
        assert w[i] in before;
        var k :| 0 <= k < |before| && before[k] == w[i];
        assert live[k] == w[i];
      }
    }
  }

  lemma RemovedAscending(live: seq<Name>, name: Name, keeps: Choice, v: seq<Name>)
    requires Upward(keeps) && name !in live && "" !in live && Ascending(live, v)
    ensures Ascending(live, Removed(v, name, keeps))
  {
    hide Removed;
    forall i | 0 <= i < |live| ensures Last(Removed(v, name, keeps), live[i]) >= 0 {
      LastRemoved(v, name, keeps, live[i]);
    }
    forall i, j | 0 <= i < j < |live|
      ensures Last(Removed(v, name, keeps), live[i]) < Last(Removed(v, name, keeps), live[j])
    {
      RemovedKeepsOrder(v, name, keeps, live[i], live[j]);
    }
  }

  lemma TracksUnload(h: Host, live: seq<Name>, name: Name, keeps: Choice)
    requires Upward(keeps) && Tracks(h, live) && name in h.modules
    ensures Tracks(DoUnload(h, name, keeps), Without(live, name))
  {
    hide Ascending, Removed;
    WithoutMembers(live, name);
    WithoutAscending(live, name, h.order);
    RemovedAscending(Without(live, name), name, keeps, h.order);
  }

  lemma {:induction false} WithoutAbsent(v: seq<Name>, name: Name)
    requires name !in v
    ensures Without(v, name) == v
  {
    if v != [] {
      WithoutAbsent(v[..|v| - 1], name);
    }
  }

  /** Every unload of the run leaves its slots in an allowed way. */
  ghost predicate Uses(cs: seq<Command>, allowed: Choice -> bool) {
    forall i | 0 <= i < |cs| && cs[i].Unload? :: allowed(cs[i].keeps)
  }

  ghost predicate ExitsUse(exits: nat -> Choice, allowed: Choice -> bool) {
    forall k: nat :: allowed(exits(k))
  }

  ghost predicate AllUpward(allowed: Choice -> bool) {
    forall c: Choice | allowed(c) :: Upward(c)
  }

  /** After every run the vector tracks the load order. */
  lemma {:induction false} RunTracks(cs: seq<Command>, allowed: Choice -> bool)
    requires AllUpward(allowed) && Uses(cs, allowed) && Named(cs)
    ensures Tracks(Run(cs), LoadOrder(cs))
  {
    if cs != [] {
      var before := cs[..|cs| - 1];
      RunTracks(before, allowed);
      var h, live := Run(before), LoadOrder(before);
      match cs[|cs| - 1]
      case Load(path, a) =>
        if Succeeds(h, a) {
          TracksLoad(h, live, path, a.name);
        }
      case Unload(name, keeps) =>
        if name in h.modules {
          TracksUnload(h, live, name, keeps);
        } else {
          WithoutAbsent(live, name);
        }
    }
  }

  // --- shutdown ---------------------------------------------------------------

  /** All live modules still have their turn in the first i slots. */
  ghost predicate Ahead(live: seq<Name>, v: seq<Name>, i: nat) {
    forall k | 0 <= k < |live| :: Last(v, live[k]) < i
  }

  /** The module to close next, when the position of its last occurrence comes up. */
  lemma NewestIsLast(v: seq<Name>, live: seq<Name>, i: nat, k: nat)
    requires Ascending(live, v) && Ahead(live, v, i)
    requires 0 < i <= |v| && k < |live| && v[i - 1] == live[k]
    ensures k == |live| - 1 && Ahead(live[..k], v, i - 1)
    ensures Without(live, live[k]) == live[..k]
  {
    LastMeaning(v, live[k]);
    assert Last(v, live[k]) == i - 1;
    assert Last(v, live[|live| - 1]) < i;
    var before := live[..k];
    assert forall j | 0 <= j < |before| :: before[j] == live[j] && Last(v, live[j]) < Last(v, live[k]);
    assert live[k] !in before;
    WithoutAbsent(before, live[k]);
    assert before + [] == before;
  }

  /** A name whose turn comes up too early is not loaded. */
  lemma StaleSlot(v: seq<Name>, live: seq<Name>, i: nat)
    requires Ahead(live, v, i) && Ascending(live, v) && 0 < i <= |v| && v[i - 1] !in live
    ensures Ahead(live, v, i - 1)
  {
    forall k | 0 <= k < |live| ensures Last(v, live[k]) < i - 1 {
      LastMeaning(v, live[k]);
    }
  }

  lemma RemovedAhead(live: seq<Name>, name: Name, keeps: Choice, v: seq<Name>, i: nat)
    requires name !in live && "" !in live && Ascending(live, v) && Ahead(live, v, i)
    ensures Ahead(live, Removed(v, name, keeps), i)
  {
    hide Removed;
    forall k | 0 <= k < |live| ensures Last(Removed(v, name, keeps), live[k]) < i {
      LastRemoved(v, name, keeps, live[k]);
    }
  }

  /** One unload of the walk. */
  lemma CloseNewest(h: Host, i: nat, live: seq<Name>, keeps: Choice)
    requires Upward(keeps) && Tracks(h, live) && Ahead(live, h.order, i)
    requires 0 < i <= |h.order| && h.order[i - 1] in h.modules
    ensures live != [] && live[|live| - 1] == h.order[i - 1]
    ensures Tracks(DoUnload(h, h.order[i - 1], keeps), live[..|live| - 1])
    ensures Ahead(live[..|live| - 1], DoUnload(h, h.order[i - 1], keeps).order, i - 1)
  {
    var name := h.order[i - 1];
    var k :| 0 <= k < |live| && live[k] == name;
    NewestIsLast(h.order, live, i, k);
    TracksUnload(h, live, name, keeps);
    WithoutMembers(live, name);
    WithoutAscending(live, name, h.order);
    hide Ascending, Ahead, Removed;
    RemovedAhead(live[..k], name, keeps, h.order, i - 1);
  }

  lemma LiveIsAhead(live: seq<Name>, v: seq<Name>)
    requires Ascending(live, v)
    ensures Ahead(live, v, 0) <==> live == []
  {
    if live != [] {
      assert Last(v, live[0]) >= 0;
    }
  }

  lemma NothingAhead(h: Host, live: seq<Name>)
    requires Tracks(h, live) && Ahead(live, h.order, 0)
    ensures live == [] && h.modules == map[]
  {
    LiveIsAhead(live, h.order);
    assert h.modules.Keys == {};
  }

  /** Reading slot i - 1: close its module if it is live, else pass on. */
  lemma ExitStep(h: Host, i: nat, live: seq<Name>, keeps: Choice) returns (rest: seq<Name>)
    requires Upward(keeps) && Tracks(h, live) && 0 < i <= |h.order| && Ahead(live, h.order, i)
    ensures var g := DoUnload(h, h.order[i - 1], keeps);
            && |g.order| == |h.order| && Tracks(g, rest) && Ahead(rest, g.order, i - 1)
            && g.closed + Reverse(rest) == h.closed + Reverse(live)
  {
    var name := h.order[i - 1];
    if name in h.modules {
      CloseNewest(h, i, live, keeps);
      rest := live[..|live| - 1];
      hide Tracks, Ahead, Upward, Removed;
      assert h.closed + [name] + Reverse(rest) == h.closed + ([name] + Reverse(rest));
    } else {
      assert name !in live;
      StaleSlot(h.order, live, i);
      rest := live;
    }
  }

  lemma {:induction false} ExitReverses(h: Host, i: nat, live: seq<Name>, exits: nat -> Choice)
    requires (forall k: nat :: Upward(exits(k))) && Tracks(h, live) && i <= |h.order| && Ahead(live, h.order, i)
    ensures ExitFrom(h, i, exits).closed == h.closed + Reverse(live)
    ensures ExitFrom(h, i, exits).modules == map[]
    decreases i
  {
    if i == 0 {
      NothingAhead(h, live);
      assert h.closed + [] == h.closed;
    } else {
      hide Tracks, Ahead, Upward, DoUnload, Reverse;
      var rest := ExitStep(h, i, live, exits(i - 1));
      ExitReverses(DoUnload(h, h.order[i - 1], exits(i - 1)), i - 1, rest, exits);
    }
  }

  /** Whatever was loaded and unloaded before, successfully or not, a shutdown closes
      every loaded module exactly once, in exactly the reverse order of the current
      loads. */
  lemma ShutdownInReverse(cs: seq<Command>, exits: nat -> Choice, allowed: Choice -> bool)
    requires AllUpward(allowed) && Uses(cs, allowed) && ExitsUse(exits, allowed) && Named(cs)
    ensures ShutdownOf(cs, exits).closed == Reverse(LoadOrder(cs))
    ensures ShutdownOf(cs, exits).modules == map[]
  {
    RunTracks(cs, allowed);
    var h, live := Run(cs), LoadOrder(cs);
    assert Ahead(live, h.order, |h.order|);
    ExitReverses(h.(closed := []), |h.order|, live, exits);
    assert [] + Reverse(live) == Reverse(live);
  }

  // --- a call that empties a slot above one that it keeps ---------------------

  function Loaded(name: Name): (r: Command) {
    Load("", Attempt(true, name, true, 0, 0))
  }

  /** n loaded over and over: every load but the last is undone and leaves a stale slot. */
  function Reloaded(n: Name, i: nat, keeps: Choice): (r: seq<Command>) {
    if i == 0 then [] else if i == 1 then [Loaded(n)] else Reloaded(n, i - 1, keeps) + [Unload(n, keeps)] + [Loaded(n)]
  }

  function Filled(n: Name, i: nat): (r: seq<Name>) {
    seq(i, _ => n)
  }

  lemma RunSnoc(cs: seq<Command>, c: Command)
    ensures Run(cs + [c]) == Do(Run(cs), c)
    ensures LoadOrder(cs + [c]) == LiveAfter(LoadOrder(cs), c)
  {
    assert (cs + [c])[..|cs|] == cs;
  }

  /** Vector, loaded modules and load order after a run. */
  predicate At(cs: seq<Command>, v: seq<Name>, names: set<Name>, live: seq<Name>) {
    Run(cs).order == v && Run(cs).modules.Keys == names && LoadOrder(cs) == live
  }

  lemma LoadedNext(cs: seq<Command>, name: Name, v: seq<Name>, names: set<Name>, live: seq<Name>)
    requires At(cs, v, names, live) && name !in names && name !in live
    ensures At(cs + [Loaded(name)], v + [name], names + {name}, live + [name])
  {
    RunSnoc(cs, Loaded(name));
  }

  lemma UnloadedNext(cs: seq<Command>, name: Name, keeps: Choice, v: seq<Name>, names: set<Name>, live: seq<Name>)
    requires At(cs, v, names, live) && name in names
    ensures At(cs + [Unload(name, keeps)], Removed(v, name, keeps), names - {name}, Without(live, name))
  {
    RunSnoc(cs, Unload(name, keeps));
  }

  lemma {:induction false} RemovedFilled(n: Name, i: nat, keeps: Choice)
    ensures Without(Filled(n, i), n) == [] && Removed(Filled(n, i), n, keeps) == Filled(n, i)
  {
    if i > 0 {
      RemovedFilled(n, i - 1, keeps);
      assert Filled(n, i)[..i - 1] == Filled(n, i - 1);
    }
    forall k: nat | k < i ensures Removed(Filled(n, i), n, keeps)[k] == n {
      RemovedAt(Filled(n, i), n, keeps, k);
    }
  }

  lemma {:induction false} ReloadedAt(n: Name, i: nat, keeps: Choice)
    requires i > 0
    ensures At(Reloaded(n, i, keeps), Filled(n, i), {n}, [n])
  {
    if i == 1 {
      assert At([], [], {}, []);
      LoadedNext([], n, [], {}, []);
      assert [] + [Loaded(n)] == [Loaded(n)] && [] + [n] == Filled(n, 1) == [n] && {} + {n} == {n};
    } else {
      ReloadedAt(n, i - 1, keeps);
      hide At;
      ReloadedNext(Reloaded(n, i - 1, keeps), n, i - 1, keeps);
    }
  }

  lemma ReloadedNext(cs: seq<Command>, n: Name, i: nat, keeps: Choice)
    requires At(cs, Filled(n, i), {n}, [n])
    ensures At(cs + [Unload(n, keeps)] + [Loaded(n)], Filled(n, i + 1), {n}, [n])
  {
    RemovedFilled(n, i, keeps);
    assert Without([n], n) == [] by { RemovedFilled(n, 1, keeps); assert Filled(n, 1) == [n]; }
    hide At, Removed, Without;
    UnloadedNext(cs, n, keeps, Filled(n, i), {n}, [n]);
    assert {n} - {n} == {} && {} + {n} == {n} && [] + [n] == [n] && Filled(n, i) + [n] == Filled(n, i + 1);
    LoadedNext(cs + [Unload(n, keeps)], n, Filled(n, i), {}, []);
  }

  lemma WithoutTwo(n: Name, x: Name, y: Name, i: nat, keeps: Choice)
    requires n != x && n != y
    ensures Without(Filled(n, i) + [x, y], n) == [x, y]
  {
    var v := Filled(n, i) + [x, y];
    RemovedFilled(n, i, keeps);
    assert v[..i] == Filled(n, i) && v[..i + 2] == v;
    WithoutSnoc(v, i, n);
    WithoutSnoc(v, i + 1, n);
  }

  /** The commands: i slots of n, then x and y, then n is unloaded. */
  function Broken(n: Name, x: Name, y: Name, i: nat, keeps: Choice): (r: seq<Command>) {
    Reloaded(n, i, keeps) + [Loaded(x)] + [Loaded(y)] + [Unload(n, keeps)]
  }

  lemma BrokenAt(n: Name, x: Name, y: Name, i: nat, keeps: Choice)
    requires n != x && n != y && x != y && i > 0
    ensures At(Broken(n, x, y, i, keeps), Removed(Filled(n, i) + [x, y], n, keeps), {x, y}, [x, y])
  {
    var v := Filled(n, i);
    ReloadedAt(n, i, keeps);
    WithoutTwo(n, x, y, 1, keeps);
    assert Filled(n, 1) + [x, y] == [n, x, y];
    hide At, Removed, Without;
    LoadedNext(Reloaded(n, i, keeps), x, v, {n}, [n]);
    LoadedNext(Reloaded(n, i, keeps) + [Loaded(x)], y, v + [x], {n} + {x}, [n] + [x]);
    assert v + [x] + [y] == v + [x, y] && [n] + [x] + [y] == [n, x, y] && {n} + {x} + {y} - {n} == {x, y};
    UnloadedNext(Reloaded(n, i, keeps) + [Loaded(x)] + [Loaded(y)], n, keeps, v + [x, y], {n} + {x} + {y}, [n, x, y]);
  }

  /** The slot of x survives behind the one of y. */
  lemma StaleSlots(n: Name, x: Name, y: Name, i: nat, keeps: Choice)
    requires n != x && n != y && i >= 2 && keeps(i) && !keeps(i + 1)
    ensures var w := Removed(Filled(n, i) + [x, y], n, keeps); |w| == i + 2 && w[i] == x && w[i + 1] == ""
  {
    WithoutTwo(n, x, y, i, keeps);
    var v := Filled(n, i) + [x, y];
    assert v[i] == x && v[i + 1] == y;
    RemovedAt(v, n, keeps, i);
    RemovedAt(v, n, keeps, i + 1);
  }

  lemma StaleFirst(h: Host, i: nat, x: Name, exits: nat -> Choice)
    requires |h.order| == i + 2 && h.order[i] == x && h.order[i + 1] == "" && h.closed == []
    requires x in h.modules && "" !in h.modules
    ensures [x] <= ExitFrom(h, i + 2, exits).closed
  {
    assert ExitFrom(h, i + 2, exits) == ExitFrom(h, i + 1, exits);
    ClosedGrows(DoUnload(h, x, exits(i)), i, exits);
  }

  lemma {:induction false} ClosedGrows(h: Host, i: nat, exits: nat -> Choice)
    requires i <= |h.order|
    ensures h.closed <= ExitFrom(h, i, exits).closed
    decreases i
  {
    if i > 0 {
      ClosedGrows(DoUnload(h, h.order[i - 1], exits(i - 1)), i - 1, exits);
    }
  }

  lemma {:induction false} ReloadedUses(n: Name, i: nat, keeps: Choice, allowed: Choice -> bool)
    requires allowed(keeps) && n != ""
    ensures Uses(Reloaded(n, i, keeps), allowed) && Named(Reloaded(n, i, keeps))
  {
    if i > 1 {
      ReloadedUses(n, i - 1, keeps, allowed);
    }
  }

  /** A kept slot below an emptied one breaks the order of some shutdown, whatever that
      shutdown itself leaves in its slots. */
  lemma KeptBelowEmptiedBreaks(i: nat, keeps: Choice, exits: nat -> Choice, allowed: Choice -> bool)
      returns (cs: seq<Command>)
    requires i >= 2 && keeps(i) && !keeps(i + 1) && allowed(keeps)
    ensures Named(cs) && Uses(cs, allowed) && ShutdownOf(cs, exits).closed != Reverse(LoadOrder(cs))
  {
    var n, x, y := "n", "x", "y";
    cs := Broken(n, x, y, i, keeps);
    ReloadedUses(n, i, keeps, allowed);
    BrokenAt(n, x, y, i, keeps);
    StaleSlots(n, x, y, i, keeps);
    StaleFirst(Run(cs).(closed := []), i, x, exits);
    assert Reverse([x, y]) == [y] + Reverse([x]) by { assert [x, y][..1] == [x]; }
  }

  predicate Reverses(cs: seq<Command>, exits: nat -> Choice) {
    ShutdownOf(cs, exits).closed == Reverse(LoadOrder(cs))
  }

  ghost predicate AlwaysReverses(allowed: Choice -> bool) {
    forall cs: seq<Command>, exits: nat -> Choice | Named(cs) && Uses(cs, allowed) && ExitsUse(exits, allowed) ::
      Reverses(cs, exits)
  }

  lemma UpwardReverses(allowed: Choice -> bool)
    requires AllUpward(allowed)
    ensures AlwaysReverses(allowed)
  {
    hide AllUpward, Uses, ExitsUse, Named, ShutdownOf, Reverse, LoadOrder;
    forall cs: seq<Command>, exits: nat -> Choice | Named(cs) && Uses(cs, allowed) && ExitsUse(exits, allowed)
      ensures Reverses(cs, exits)
    {
      ShutdownInReverse(cs, exits, allowed);
    }
  }

  function Constantly(keeps: Choice): (r: nat -> Choice) {
    _ => keeps
  }

  lemma DownwardBreaks(allowed: Choice -> bool, keeps: Choice, i: nat)
    requires allowed(keeps) && i >= 2 && keeps(i) && !keeps(i + 1)
    ensures !AlwaysReverses(allowed)
  {
    var exits := Constantly(keeps);
    assert ExitsUse(exits, allowed);
    var cs := KeptBelowEmptiedBreaks(i, keeps, exits, allowed);
    assert !Reverses(cs, exits);
    hide Uses, ExitsUse, Named, Reverses, Constantly;
    assert Named(cs) && Uses(cs, allowed) && ExitsUse(exits, allowed) && !Reverses(cs, exits);
  }

  /** Shutdown is in reverse load order after every run if and only if no call of
      std::remove keeps the text of a slot and empties a later one. */
  lemma ReverseOrderIffUpward(allowed: Choice -> bool)
    ensures AlwaysReverses(allowed) <==> AllUpward(allowed)
  {
    hide AlwaysReverses;
    if AllUpward(allowed) {
      UpwardReverses(allowed);
    } else {
      var keeps: Choice :| allowed(keeps) && !Upward(keeps);
      var i: nat, k: nat :| 2 <= i < k && keeps(i) && !keeps(k);
      var j := LastKept(keeps, i, k);
      DownwardBreaks(allowed, keeps, j);
    }
  }
}

/** The HAL function calls on the lists themselves (hal_funct.c): thread lists and the
    free list share cells of the HAL segment and are relinked in place. */
module HalFunct {
  import opened Sequences
  import opened Wrappers
  import opened Dlist
  import opened HalFunctSpec

  datatype ThreadHead = ThreadHead(name: Name, usesFp: bool)

  const CLEARED := Entry(None, 0, 0, 0, 0, LegacyThreadFunct)

  function EntriesAt(contents: map<Node, Entry>, s: seq<Node>): (es: seq<Entry>)
    ensures |es| == |s|
  {
    LookUp(contents, s, CLEARED)
  }

  function HeadNames(heads: seq<ThreadHead>): (names: seq<Name>)
    ensures |names| == |heads|
  {
    seq(|heads|, k requires 0 <= k < |heads| => heads[k].name)
  }

  /** The threads as sequences of entries; list k + 1 belongs to thread k. */
  function ThreadsAt(heads: seq<ThreadHead>, lists: seq<seq<Node>>, contents: map<Node, Entry>): (ts: seq<Thread>)
    requires |lists| == |heads| + 1
    ensures |ts| == |heads|
  {
    seq(|heads|, k requires 0 <= k < |heads| => Thread(heads[k].name, heads[k].usesFp, EntriesAt(contents, lists[k + 1])))
  }

  /** Cells 0 .. n, each pointing to itself. */
  function SelfLinked(n: nat): (m: map<Node, Node>)
    ensures forall k | 0 <= k <= n :: k in m && m[k] == k
  {
    if n == 0 then map[0 := 0] else SelfLinked(n - 1)[n := n]
  }

  /** The shared HAL segment. Cell 0 is the head of the free list, cell k + 1 the head
      of thread k's list; entries are allocated from `brk` upwards. */
  class HalData {
    var functs: map<Name, Funct>
    var threads: seq<ThreadHead>
    var next: map<Node, Node>
    var prev: map<Node, Node>
    var contents: map<Node, Entry>
    var brk: Node
    ghost var lists: seq<seq<Node>>
    ghost var owner: map<Node, nat>

    /** Every allocated cell is on exactly one list, except the loose ones. */
    ghost predicate ValidBut(loose: set<Node>)
      reads this
    {
      && |lists| == |threads| + 1 <= brk
      && Linked(Links(next, prev), lists, owner)
      && (forall n | n in owner :: n < brk && n in contents)
      && (forall n | |lists| <= n < brk :: n in owner || n in loose)
      && (forall n | n in loose :: |lists| <= n < brk && n !in owner && n in contents)
    }

    ghost predicate Valid()
      reads this
    {
      ValidBut({})
    }

    ghost function Value(): (r: View)
      requires |lists| == |threads| + 1 <= brk
      reads this
    {
      View(functs, ThreadsAt(threads, lists, contents), |lists[0]|, brk - |lists|)
    }

    /** A segment with the given threads and nothing on any list. */
    constructor (heads: seq<ThreadHead>)
      ensures Valid() && HalFunctSpec.Fresh(Value()) && threads == heads
    {
      functs, threads, contents, brk := map[], heads, map[], |heads| + 1;
      next, prev := SelfLinked(|heads|), SelfLinked(|heads|);
      lists := seq(|heads| + 1, _ => []);
      owner := map[];
      new;
      forall k | 0 <= k < |lists| ensures Ring(Links(next, prev), k, lists[k]) {
        assert Joined(Links(next, prev), k, lists[k], 0);
      }
    }

    // --- list primitives ------------------------------------------------------

    method DlistAddAfter(n: Node, after: Node, ghost k: nat, ghost p: nat)
      requires ValidBut({n}) && k < |lists| && p <= |lists[k]| && after == At(k, lists[k], p)
      modifies this`next, this`prev, this`lists, this`owner
      ensures Valid() && lists == old(lists)[k := Inserted(old(lists)[k], p, n)]
    {
      LinkedInsert(Links(next, prev), lists, owner, k, p, n);
      ghost var links := AddAfter(Links(next, prev), n, after);
      var nx := next[after];
      next := next[n := nx][after := n];
      prev := prev[n := after][nx := n];
      assert Links(next, prev) == links;
      lists := lists[k := Inserted(lists[k], p, n)];
      owner := owner[n := k];
    }

    /** Returns the successor of the entry removed. */
    method DlistRemoveEntry(n: Node, ghost k: nat, ghost p: nat) returns (nx: Node)
      requires Valid() && k < |lists| && p < |lists[k]| && n == lists[k][p]
      modifies this`next, this`prev, this`lists, this`owner
      ensures ValidBut({n}) && lists == old(lists)[k := Deleted(old(lists)[k], p)]
      ensures nx == At(k, old(lists)[k], p + 2) == At(k, lists[k], p + 1)
    {
      LinkedRemove(Links(next, prev), lists, owner, k, p);
      AtDeleted(k, lists[k], p, p + 1);
      OwnedCell(n, k, p);
      ghost var links := RemoveEntry(Links(next, prev), n);
      nx := next[n];
      var pv := prev[n];
      next := next[pv := nx][n := n];
      prev := prev[nx := pv][n := n];
      assert Links(next, prev) == links;
      lists := lists[k := Deleted(lists[k], p)];
      owner := owner - {n};
    }

    lemma OwnedCell(n: Node, k: nat, p: nat)
      requires Valid() && k < |lists| && p < |lists[k]| && n == lists[k][p]
      ensures n in owner && n in contents && |lists| <= n < brk
    {
      hide Ring;
      assert owner[lists[k][p]] == k;
    }

    lemma NextCell(k: nat, i: nat)
      requires Valid() && k < |lists| && i <= |lists[k]|
      ensures At(k, lists[k], i) in next && next[At(k, lists[k], i)] == At(k, lists[k], i + 1)
      ensures At(k, lists[k], i + 1) in prev && prev[At(k, lists[k], i + 1)] == At(k, lists[k], i)
    {
      assert Ring(Links(next, prev), k, lists[k]);
      assert Joined(Links(next, prev), k, lists[k], i);
    }

    lemma AtHead(k: nat, i: nat)
      requires Valid() && k < |lists| && i <= |lists[k]| + 1
      ensures At(k, lists[k], i) == k <==> i == 0 || i == |lists[k]| + 1
    {
      assert Ring(Links(next, prev), k, lists[k]);
    }

    // --- entries --------------------------------------------------------------

    /** An empty entry that is on no list: a spare one if there is one, else new. */
    method AllocFunctEntryStruct() returns (p: Node)
      requires Valid()
      modifies this`next, this`prev, this`lists, this`owner, this`contents, this`brk
      ensures ValidBut({p})
      ensures contents == old(contents)[p := contents[p]] && contents[p].funct == None
      ensures if |old(lists)[0]| > 0
              then lists == old(lists)[0 := Deleted(old(lists)[0], 0)] && brk == old(brk)
              else lists == old(lists) && brk == old(brk) + 1
    {
      NextCell(0, 0);
      AtHead(0, 1);
      var l := next[0];
      if l != 0 {
        OwnedCell(l, 0, 0);
        var _ := DlistRemoveEntry(l, 0, 0);
        p := l;
        contents := contents[p := contents[p].(funct := None, arg := 0, code := 0)];
      } else {
        p := brk;
        brk := brk + 1;
        ghost var links := Links(next[p := p], prev[p := p]);
        LinkedFresh(Links(next, prev), links, lists, owner, p);
        next := next[p := p];
        prev := prev[p := p];
        contents := contents[p := CLEARED];
      }
    }

    /** Puts a loose entry on the free list and takes it off its function's count. */
    method FreeFunctEntryStruct(p: Node)
      requires ValidBut({p})
      requires contents[p].funct.Some? ==> contents[p].funct.value in functs
      modifies this`next, this`prev, this`lists, this`owner, this`contents, this`functs
      ensures Valid() && lists == old(lists)[0 := Inserted(old(lists)[0], 0, p)]
      ensures contents == old(contents)[p := contents[p]]
      ensures functs == match old(contents)[p].funct
                        case None => old(functs)
                        case Some(f) => WithUsers(old(functs), f, -1)
    {
      if contents[p].funct.Some? {
        var f := contents[p].funct.value;
        functs := functs[f := functs[f].(users := functs[f].users - 1)];
      }
      contents := contents[p := contents[p].(funct := None, arg := 0, code := 0)];
      DlistAddAfter(p, 0, 0, 0);
    }

    // --- exporting ------------------------------------------------------------

    method HalExportFunct(f: Name, funct: Funct, owner: Owner) returns (rc: int)
      requires Valid()
      modifies this`functs
      ensures Valid() && (rc, Value()) == ExportFunct(old(Value()), f, funct, owner)
    {
      if |f| > HAL_NAME_LEN {
        return -ENOMEM;
      }
      if f in functs {
        return -EINVAL;
      }
      if owner == Missing {
        return -EINVAL;
      }
      if !owner.realtime {
        return -EINVAL;
      }
      var legacy := !owner.instance;
      if legacy && owner.ready {
        return -EINVAL;
      }
      functs := functs[f := funct.(users := 0)];
      return 0;
    }

    // --- adding ---------------------------------------------------------------

    /** The cell after which a new entry goes, or none if the position is off the list. */
    method FindInsertionPoint(k: nat, position: int) returns (found: Option<Node>, ghost p: nat)
      requires Valid() && k < |threads| && position != 0
      ensures InsertionIndex(|lists[k + 1]|, position) == if found.Some? then Some(p) else None
      ensures found.Some? ==> p <= |lists[k + 1]| && found.value == At(k + 1, lists[k + 1], p)
    {
      if position > 0 {
        found, p := FromStart(k + 1, position);
      } else {
        found, p := FromEnd(k + 1, position);
      }
    }

    method FromStart(listRoot: nat, position: int) returns (found: Option<Node>, ghost p: nat)
      requires Valid() && listRoot < |lists| && position > 0
      ensures InsertionIndex(|lists[listRoot]|, position) == if found.Some? then Some(p) else None
      ensures found.Some? ==> p <= |lists[listRoot]| && found.value == At(listRoot, lists[listRoot], p)
    {
      ghost var s := lists[listRoot];
      var listEntry, n := listRoot, 1;
      hide ValidBut;
      while n < position
        invariant 1 <= n <= position && n <= |s| + 1 && listEntry == At(listRoot, s, n - 1)
      {
        NextCell(listRoot, n - 1);
        AtHead(listRoot, n);
        listEntry := next[listEntry];
        if listEntry == listRoot {
          return None, 0;
        }
        n := n + 1;
      }
      return Some(listEntry), n - 1;
    }

    method FromEnd(listRoot: nat, position: int) returns (found: Option<Node>, ghost p: nat)
      requires Valid() && listRoot < |lists| && position < 0
      ensures InsertionIndex(|lists[listRoot]|, position) == if found.Some? then Some(p) else None
      ensures found.Some? ==> p <= |lists[listRoot]| && found.value == At(listRoot, lists[listRoot], p)
    {
      ghost var s := lists[listRoot];
      var listEntry, n := listRoot, -1;
      hide ValidBut;
      while n > position
        invariant position <= n <= -1 && -n <= |s| + 1 && listEntry == At(listRoot, s, |s| + 2 + n)
      {
        NextCell(listRoot, |s| + 1 + n);
        AtHead(listRoot, |s| + 1 + n);
        listEntry := prev[listEntry];
        if listEntry == listRoot {
          return None, 0;
        }
        n := n - 1;
      }
      // one more step back, to insert before the cell reached
      NextCell(listRoot, |s| + 1 + n);
      listEntry := prev[listEntry];
      return Some(listEntry), |s| + 1 + n;
    }

    method HalAddFunctToThread(functName: Name, threadName: Name, position: int, rmb: int, wmb: int) returns (rc: int)
      requires Valid()
      modifies this
      ensures Valid() && (rc, Value()) == AddFunct(old(Value()), functName, threadName, position, rmb, wmb)
    {
      hide Linked;
      ghost var v := Value();
      if position == 0 {
        return -EINVAL;
      }
      var found := FindFunct(functs, functName);
      if found == None {
        return -EINVAL;
      }
      var f := found.value;
      var funct := functs[f];
      if funct.kind == Userland {
        return -EINVAL;
      }
      if funct.users > 0 && !funct.reentrant {
        return -EINVAL;
      }
      assert HeadNames(threads) == Names(v.threads);
      var thread := FindName(HeadNames(threads), threadName);
      if thread == None {
        return -EINVAL;
      }
      var k := thread.value;
      if funct.usesFp && !threads[k].usesFp {
        return -EINVAL;
      }
      var listEntry, p := FindInsertionPoint(k, position);
      if listEntry == None {
        return -EINVAL;
      }
      AddEntryAfter(k, f, listEntry.value, NewEntry(f, funct, rmb, wmb), p);
      return 0;
    }

    /** A spare or new entry, filled in and linked into thread k's list. */
    method AddEntryAfter(k: nat, f: Name, listEntry: Node, e: Entry, ghost p: nat)
      requires Valid() && k < |threads| && p <= |lists[k + 1]| && listEntry == At(k + 1, lists[k + 1], p) && f in functs
      modifies this
      ensures Valid()
      ensures var v := old(Value());
              Value() == View(WithUsers(v.functs, f, 1),
                              WithEntries(v.threads, k, Inserted(v.threads[k].entries, p, e)),
                              if v.spare > 0 then v.spare - 1 else 0,
                              if v.spare > 0 then v.made else v.made + 1)
    {
      hide Linked, Inserted, ThreadsAt, EntriesAt;
      ghost var lists0, contents0 := lists, contents;
      var n := AllocFunctEntryStruct();
      contents := contents[n := e];
      ghost var lists1 := lists;
      LooseCell(n);
      assert forall j | 1 <= j < |lists0| :: lists1[j] == lists0[j];
      ThreadsInserted(threads, lists0, lists1, contents0, contents, k, p, n, e);
      LinkEntry(k, f, listEntry, n, p);
    }

    /** Links a loose entry into thread k's list and counts it. */
    method LinkEntry(k: nat, f: Name, listEntry: Node, n: Node, ghost p: nat)
      requires ValidBut({n}) && k + 1 < |lists| && p <= |lists[k + 1]| && listEntry == At(k + 1, lists[k + 1], p)
      requires f in functs
      modifies this`next, this`prev, this`lists, this`owner, this`functs
      ensures Valid() && lists == old(lists)[k + 1 := Inserted(old(lists)[k + 1], p, n)]
      ensures lists[0] == old(lists)[0] && |lists| == |old(lists)| && functs == WithUsers(old(functs), f, 1)
    {
      hide Linked, Inserted;
      DlistAddAfter(n, listEntry, k + 1, p);
      functs := functs[f := functs[f].(users := functs[f].users + 1)];
    }

    lemma LooseCell(n: Node)
      requires ValidBut({n})
      ensures forall k | 0 <= k < |lists| :: n !in lists[k]
    {
      hide Ring;
      assert n in {n};
    }

    // --- deleting -------------------------------------------------------------

    method HalDelFunctFromThread(functName: Name, threadName: Name) returns (rc: int)
      requires Valid()
      modifies this
      ensures Valid() && (rc, Value()) == DelFunct(old(Value()), functName, threadName)
    {
      hide Linked, Deleted, EntriesAt;
      ghost var v := Value();
      var found := FindFunct(functs, functName);
      if found == None {
        return -EINVAL;
      }
      var f := found.value;
      if functs[f].users == 0 {
        return -EINVAL;
      }
      assert HeadNames(threads) == Names(v.threads);
      var thread := FindName(HeadNames(threads), threadName);
      if thread == None {
        return -EINVAL;
      }
      var k := thread.value;
      var listEntry, i := FindEntry(k, f);
      if listEntry == None {
        return -EINVAL;
      }
      var _ := DropEntry(k, f, listEntry.value, i);
      return 0;
    }

    /** The walk of hal_del_funct_from_thread to the first entry of f. */
    method FindEntry(k: nat, f: Name) returns (found: Option<Node>, ghost i: nat)
      requires Valid() && k < |threads|
      ensures FirstEntry(Value().threads[k].entries, f) == if found.Some? then Some(i) else None
      ensures found.Some? ==> i < |lists[k + 1]| && found.value == lists[k + 1][i]
      ensures found.Some? ==> found.value in contents && contents[found.value].funct == Some(f)
    {
      var listRoot := k + 1;
      ghost var s := lists[k + 1];
      WalkStart(listRoot);
      hide ValidBut, EntriesAt, FirstEntry, At;
      var listEntry := next[listRoot];
      i := 0;
      while listEntry != listRoot
        invariant 0 <= i <= |s| && listEntry == At(listRoot, s, i + 1)
        invariant listEntry == listRoot <==> i == |s|
        invariant forall j | 0 <= j < i :: !Calls(contents, s[j], f)
        decreases |s| - i
      {
        WalkStep(listRoot, i);
        if contents[listEntry].funct == Some(f) {
          FirstCall(contents, s, f, i);
          return Some(listEntry), i;
        }
        listEntry := next[listEntry];
        i := i + 1;
      }
      FirstCall(contents, s, f, i);
      return None, 0;
    }

    lemma WalkStart(k: nat)
      requires Valid() && k < |lists|
      ensures k in next && next[k] == At(k, lists[k], 1) && (next[k] == k <==> |lists[k]| == 0)
    {
      hide Linked;
      NextCell(k, 0);
      AtHead(k, 1);
    }

    lemma WalkStep(k: nat, i: nat)
      requires Valid() && k < |lists| && i < |lists[k]|
      ensures At(k, lists[k], i + 1) == lists[k][i]
      ensures lists[k][i] in contents && lists[k][i] in next && next[lists[k][i]] == At(k, lists[k], i + 2)
      ensures At(k, lists[k], i + 2) == k <==> i + 1 == |lists[k]|
    {
      hide Linked;
      OwnedCell(lists[k][i], k, i);
      NextCell(k, i + 1);
      AtHead(k, i + 2);
    }

    /** Unlinks an entry of f and frees it; returns its successor. */
    method DropEntry(k: nat, f: Name, listEntry: Node, ghost i: nat) returns (nx: Node)
      requires Valid() && k < |threads| && i < |lists[k + 1]| && listEntry == lists[k + 1][i]
      requires listEntry in contents && contents[listEntry].funct == Some(f) && f in functs
      modifies this`next, this`prev, this`lists, this`owner, this`contents, this`functs
      ensures Valid() && |lists| == |old(lists)| && lists[k + 1] == Deleted(old(lists)[k + 1], i)
      ensures nx == At(k + 1, lists[k + 1], i + 1)
      ensures var v := old(Value());
              Value() == View(WithUsers(v.functs, f, -1), WithEntries(v.threads, k, Deleted(v.threads[k].entries, i)),
                              v.spare + 1, v.made)
    {
      ghost var lists0, contents0 := lists, contents;
      nx := DlistRemoveEntry(listEntry, k + 1, i);
      ghost var lists1 := lists;
      LooseCell(listEntry);
      FreeFunctEntryStruct(listEntry);
      ThreadsDeleted(threads, lists0, lists1, lists, contents0, contents, k, i, listEntry);
    }

    // --- freeing a function ---------------------------------------------------

    /** Takes every entry of f off thread k. */
    method ThreadCb(k: nat, f: Name)
      requires Valid() && k < |threads| && f in functs
      modifies this`next, this`prev, this`lists, this`owner, this`contents, this`functs
      ensures Valid() && |lists| == |old(lists)| && f in functs
      ensures Value() == PurgedThread(old(Value()), f, k)
    {
      hide Linked;
      ghost var v := Value();
      ghost var es, i := v.threads[k].entries, 0;
      WalkStart(k + 1);
      var listRoot := k + 1;
      var listEntry := next[listRoot];
      hide ValidBut, EntriesAt, ThreadsAt, At, Others, WithUsers;
      while listEntry != listRoot
        invariant Valid() && f in functs && |lists| == |old(lists)| == |threads| + 1 <= brk && brk == old(brk)
        invariant 0 <= i <= |lists[k + 1]| == |es| && listEntry == At(listRoot, lists[k + 1], i + 1)
        invariant listEntry == listRoot <==> i == |lists[k + 1]|
        invariant Purging(v, Value(), f, k, i, es)
        decreases |es| - i
      {
        WalkStep(listRoot, i);
        EntryOf(k, i);
        if contents[listEntry].funct == Some(f) {
          ghost var n := listEntry;
          PurgeDrop(v, Value(), f, k, i, es);
          listEntry := DropEntry(k, f, listEntry, i);
          AtHead(listRoot, i + 1);
          es := Deleted(es, i);
        } else {
          PurgeKeep(v, Value(), f, k, i, es);
          AtHead(listRoot, i + 2);
          listEntry := next[listEntry];
          i := i + 1;
        }
      }
      PurgeDone(v, Value(), f, k, es);
    }

    lemma EntryOf(k: nat, i: nat)
      requires Valid() && k < |threads| && i < |lists[k + 1]| && lists[k + 1][i] in contents
      ensures Value().threads[k].entries[i] == contents[lists[k + 1][i]]
    {
    }

    /** free_funct_struct: no thread calls f any more, and f is gone. */
    method FreeFunctStruct(f: Name)
      requires Valid() && f in functs
      modifies this`next, this`prev, this`lists, this`owner, this`contents, this`functs
      ensures Valid() && Value() == FreeFunct(old(Value()), f)
    {
      hide Linked, PurgedTo, PurgedThread, ThreadsAt, Total, Purged;
      ghost var v := Value();
      PurgedNone(v, f);
      PurgedAll(v, f);
      if functs[f].users > 0 {
        var j := 0;
        while j < |threads|
          invariant 0 <= j <= |threads| && Valid() && f in functs && Value() == PurgedTo(v, f, j)
        {
          PurgedStep(v, f, j);
          ThreadCb(j, f);
          j := j + 1;
        }
      }
      functs := functs - {f};
    }
  }

  // --- purging one thread -----------------------------------------------------

  /** Thread k holds es, whose first i entries are not f's; the others of es are those
      of the thread at first, and what has gone is spare and off the count. */
  ghost predicate Purging(v: View, now: View, f: Name, k: nat, i: nat, es: seq<Entry>)
    requires f in v.functs && k < |v.threads|
  {
    var es0 := v.threads[k].entries;
    && i <= |es| <= |es0| && (forall j | 0 <= j < i :: es[j].funct != Some(f))
    && Others(es, f) == Others(es0, f)
    && now == View(WithUsers(v.functs, f, |es| - |es0|), WithEntries(v.threads, k, es), v.spare + |es0| - |es|, v.made)
  }

  lemma PurgeKeep(v: View, now: View, f: Name, k: nat, i: nat, es: seq<Entry>)
    requires f in v.functs && k < |v.threads| && Purging(v, now, f, k, i, es)
    requires i < |es| && now.threads[k].entries[i].funct != Some(f)
    ensures Purging(v, now, f, k, i + 1, es)
  {
  }

  lemma PurgeDrop(v: View, now: View, f: Name, k: nat, i: nat, es: seq<Entry>)
    requires f in v.functs && k < |v.threads| && Purging(v, now, f, k, i, es)
    requires i < |es| && now.threads[k].entries[i].funct == Some(f)
    ensures f in now.functs && k < |now.threads| && now.threads[k].entries == es
    ensures Purging(v, View(WithUsers(now.functs, f, -1), WithEntries(now.threads, k, Deleted(es, i)), now.spare + 1, now.made),
                    f, k, i, Deleted(es, i))
  {
    OthersDeleted(es, i, f);
    var es0 := v.threads[k].entries;
    assert WithUsers(WithUsers(v.functs, f, |es| - |es0|), f, -1) == WithUsers(v.functs, f, |es| - 1 - |es0|);
    assert WithEntries(WithEntries(v.threads, k, es), k, Deleted(es, i)) == WithEntries(v.threads, k, Deleted(es, i));
  }

  lemma PurgeDone(v: View, now: View, f: Name, k: nat, es: seq<Entry>)
    requires f in v.functs && k < |v.threads| && Purging(v, now, f, k, |es|, es)
    ensures now == PurgedThread(v, f, k)
  {
    OthersNothing(es, f);
    OthersCount(v.threads[k].entries, f, f);
  }

  // --- the view ---------------------------------------------------------------

  predicate Calls(contents: map<Node, Entry>, n: Node, f: Name) {
    n in contents && contents[n].funct == Some(f)
  }

  /** The first entry of f by cells, if i is the first cell that calls it or the end. */
  lemma FirstCall(contents: map<Node, Entry>, s: seq<Node>, f: Name, i: nat)
    requires i <= |s| && (forall j | 0 <= j < i :: !Calls(contents, s[j], f)) && (i < |s| ==> Calls(contents, s[i], f))
    ensures FirstEntry(EntriesAt(contents, s), f) == if i < |s| then Some(i) else None
  {
    var es := EntriesAt(contents, s);
    assert forall j | 0 <= j < |s| :: es[j].funct == Some(f) <==> Calls(contents, s[j], f);
  }

  lemma EntriesFrame(contents: map<Node, Entry>, contents': map<Node, Entry>, s: seq<Node>, n: Node)
    requires n !in s && n in contents' && contents' == contents[n := contents'[n]]
    ensures EntriesAt(contents', s) == EntriesAt(contents, s)
  {
  }

  lemma ThreadsInserted(heads: seq<ThreadHead>, lists: seq<seq<Node>>, lists1: seq<seq<Node>>,
                        contents: map<Node, Entry>, contents': map<Node, Entry>, k: nat, p: nat, n: Node, e: Entry)
    requires |lists| == |lists1| == |heads| + 1 && k < |heads| && p <= |lists[k + 1]|
    requires forall j | 1 <= j < |lists| :: lists1[j] == lists[j] && n !in lists[j]
    requires n in contents' && contents' == contents[n := e]
    ensures ThreadsAt(heads, lists1[k + 1 := Inserted(lists1[k + 1], p, n)], contents') ==
            var ts := ThreadsAt(heads, lists, contents);
            WithEntries(ts, k, Inserted(ts[k].entries, p, e))
  {
    var lists' := lists1[k + 1 := Inserted(lists1[k + 1], p, n)];
    forall j | 1 <= j < |lists| ensures EntriesAt(contents', lists[j]) == EntriesAt(contents, lists[j]) {
      EntriesFrame(contents, contents', lists[j], n);
    }
    var s := lists[k + 1];
    EntriesFrame(contents, contents', s, n);
    assert EntriesAt(contents', Inserted(s, p, n)) == Inserted(EntriesAt(contents', s), p, e);
  }

  lemma ThreadsDeleted(heads: seq<ThreadHead>, lists: seq<seq<Node>>, lists1: seq<seq<Node>>, lists': seq<seq<Node>>,
                       contents: map<Node, Entry>, contents': map<Node, Entry>, k: nat, p: nat, n: Node)
    requires |lists| == |lists1| == |lists'| == |heads| + 1 && k < |heads| && p < |lists[k + 1]| && n == lists[k + 1][p]
    requires lists1 == lists[k + 1 := Deleted(lists[k + 1], p)] && forall j | 0 <= j < |lists| :: n !in lists1[j]
    requires lists' == lists1[0 := lists'[0]]
    requires n in contents' && contents' == contents[n := contents'[n]]
    ensures ThreadsAt(heads, lists', contents') ==
            var ts := ThreadsAt(heads, lists, contents);
            WithEntries(ts, k, Deleted(ts[k].entries, p))
  {
    forall j | 1 <= j < |lists| ensures EntriesAt(contents', lists1[j]) == EntriesAt(contents, lists1[j]) {
      EntriesFrame(contents, contents', lists1[j], n);
    }
    var s := lists[k + 1];
    assert EntriesAt(contents, Deleted(s, p)) == Deleted(EntriesAt(contents, s), p);
  }

  /** Links of a cell that no list uses may be anything. */
  lemma LinkedFresh(l: Links, m: Links, lists: seq<seq<Node>>, owner: map<Node, nat>, p: Node)
    requires Linked(l, lists, owner) && p !in owner && p >= |lists|
    requires m == Links(l.next[p := p], l.prev[p := p])
    ensures Linked(m, lists, owner)
  {
    forall k | 0 <= k < |lists| ensures Ring(m, k, lists[k]) {
      forall c | c == k || c in lists[k]
        ensures c in m.next && c in m.prev && c in l.next && c in l.prev && m.next[c] == l.next[c] && m.prev[c] == l.prev[c]
      {
        RingCells(l, k, lists[k], c);
      }
      RingFrame(l, m, k, lists[k]);
    }
  }
}

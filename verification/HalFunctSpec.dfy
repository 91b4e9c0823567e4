/** What the HAL function calls do to threads (hal_funct.c), seen as sequences of
    entries: an entry makes a thread call a function. */
module HalFunctSpec {
  import opened Wrappers
  import opened Dlist

  type Name = string

  const ENOMEM := 12
  const EINVAL := 22
  const HAL_NAME_LEN := 41

  datatype Kind = LegacyThreadFunct | XThreadFunct | Userland

  /** `users` counts the entries that call the function. */
  datatype Funct = Funct(kind: Kind, usesFp: bool, reentrant: bool, arg: int, code: int, users: int)

  datatype Entry = Entry(funct: Option<Name>, arg: int, code: int, rmb: int, wmb: int, kind: Kind)

  datatype Thread = Thread(name: Name, usesFp: bool, entries: seq<Entry>)

  /** `spare` counts the entries on the free list, `made` all that ever were
      taken from shared memory. */
  datatype View = View(functs: map<Name, Funct>, threads: seq<Thread>, spare: nat, made: nat)

  // --- looking up -------------------------------------------------------------

  /** rtapi_snprintf into a buffer of HAL_NAME_LEN bytes. */
  function Suffixed(name: Name): (r: Name) {
    var full := name + ".funct";
    if |full| < HAL_NAME_LEN then full else full[..HAL_NAME_LEN - 1]
  }

  function FindFunct(functs: map<Name, Funct>, name: Name): (f: Option<Name>)
    ensures f.Some? ==> f.value in functs
  {
    if name in functs then Some(name)
    else if Suffixed(name) in functs then Some(Suffixed(name))
    else None
  }

  function FindName(names: seq<Name>, name: Name): (k: Option<nat>)
    ensures k.Some? ==> k.value < |names| && names[k.value] == name
    ensures k.None? ==> name !in names
  {
    if names == [] then None
    else if names[0] == name then Some(0)
    else match FindName(names[1..], name) case None => None case Some(k) => Some(k + 1)
  }

  function Names(threads: seq<Thread>): (names: seq<Name>)
    ensures |names| == |threads| && forall k | 0 <= k < |threads| :: names[k] == threads[k].name
  {
    seq(|threads|, k requires 0 <= k < |threads| => threads[k].name)
  }

  /** Where a position puts a new entry in a list of `len`: counted from the start
      when positive, from the end when negative. */
  function InsertionIndex(len: nat, position: int): (p: Option<nat>)
    ensures p.Some? ==> p.value <= len
    ensures p.Some? <==> position != 0 && -(len + 1) <= position <= len + 1
  {
    if 1 <= position <= len + 1 then Some(position - 1)
    else if -(len + 1) <= position <= -1 then Some(len + 1 + position)
    else None
  }

  function FirstEntry(entries: seq<Entry>, f: Name): (i: Option<nat>)
    ensures i.Some? ==> i.value < |entries| && entries[i.value].funct == Some(f)
    ensures i.Some? ==> forall j | 0 <= j < i.value :: entries[j].funct != Some(f)
    ensures i.None? ==> forall j | 0 <= j < |entries| :: entries[j].funct != Some(f)
  {
    if entries == [] then None
    else if entries[0].funct == Some(f) then Some(0)
    else match FirstEntry(entries[1..], f) case None => None case Some(i) => Some(i + 1)
  }

  // --- the calls --------------------------------------------------------------

  datatype Place = Refused | Place(funct: Name, thread: nat, index: nat)

  /** The function, the thread and the index that an add comes to, if any. */
  function AddPlace(v: View, functName: Name, threadName: Name, position: int): (p: Place)
    ensures p.Place? ==> p.funct in v.functs && p.thread < |v.threads| && p.index <= |v.threads[p.thread].entries|
  {
    if position == 0 then Refused
    else
      match FindFunct(v.functs, functName)
      case None => Refused
      case Some(f) =>
        var funct := v.functs[f];
        if funct.kind == Userland then Refused
        else if funct.users > 0 && !funct.reentrant then Refused
        else
          match FindName(Names(v.threads), threadName)
          case None => Refused
          case Some(k) =>
            if funct.usesFp && !v.threads[k].usesFp then Refused
            else
              match InsertionIndex(|v.threads[k].entries|, position)
              case None => Refused
              case Some(i) => Place(f, k, i)
  }

  function NewEntry(f: Name, funct: Funct, rmb: int, wmb: int): (r: Entry) {
    Entry(Some(f), funct.arg, funct.code, rmb, wmb, funct.kind)
  }

  function WithUsers(functs: map<Name, Funct>, f: Name, delta: int): (r: map<Name, Funct>)
    requires f in functs
  {
    functs[f := functs[f].(users := functs[f].users + delta)]
  }

  function WithEntries(threads: seq<Thread>, k: nat, entries: seq<Entry>): (r: seq<Thread>)
    requires k < |threads|
  {
    threads[k := threads[k].(entries := entries)]
  }

  /** hal_add_funct_to_thread: the return code and the state afterwards. */
  function AddFunct(v: View, functName: Name, threadName: Name, position: int, rmb: int, wmb: int): (r: (int, View)) {
    match AddPlace(v, functName, threadName, position)
    case Refused => (-EINVAL, v)
    case Place(f, k, i) =>
      (0, View(WithUsers(v.functs, f, 1),
               WithEntries(v.threads, k, Inserted(v.threads[k].entries, i, NewEntry(f, v.functs[f], rmb, wmb))),
               if v.spare > 0 then v.spare - 1 else 0,
               if v.spare > 0 then v.made else v.made + 1))
  }

  /** The entry that a delete comes to, if any. */
  function DelPlace(v: View, functName: Name, threadName: Name): (p: Place)
    ensures p.Place? ==> p.funct in v.functs && p.thread < |v.threads| && p.index < |v.threads[p.thread].entries|
  {
    match FindFunct(v.functs, functName)
    case None => Refused
    case Some(f) =>
      if v.functs[f].users == 0 then Refused
      else
        match FindName(Names(v.threads), threadName)
        case None => Refused
        case Some(k) =>
          match FirstEntry(v.threads[k].entries, f)
          case None => Refused
          case Some(i) => Place(f, k, i)
  }

  /** hal_del_funct_from_thread. */
  function DelFunct(v: View, functName: Name, threadName: Name): (r: (int, View)) {
    match DelPlace(v, functName, threadName)
    case Refused => (-EINVAL, v)
    case Place(f, k, i) =>
      (0, View(WithUsers(v.functs, f, -1), WithEntries(v.threads, k, Deleted(v.threads[k].entries, i)),
               v.spare + 1, v.made))
  }

  function Others(entries: seq<Entry>, f: Name): (r: seq<Entry>) {
    if entries == [] then []
    else (if entries[0].funct == Some(f) then [] else [entries[0]]) + Others(entries[1..], f)
  }

  /** The threads without the entries of f. */
  function Purged(threads: seq<Thread>, f: Name): (ts: seq<Thread>)
    ensures |ts| == |threads|
  {
    seq(|threads|, k requires 0 <= k < |threads| => threads[k].(entries := Others(threads[k].entries, f)))
  }

  /** free_funct_struct. */
  function FreeFunct(v: View, f: Name): (r: View)
    requires f in v.functs
  {
    if v.functs[f].users > 0
    then View(v.functs - {f}, Purged(v.threads, f), v.spare + Total(v.threads, f), v.made)
    else v.(functs := v.functs - {f})
  }

  /** What is found for the owner of a function: its component, if any, whether that is a
      realtime one, whether the owner is an instance, and whether hal_ready has been called. */
  datatype Owner = Missing | Component(realtime: bool, instance: bool, ready: bool)

  predicate MayExport(owner: Owner) {
    owner.Component? && owner.realtime && (owner.instance || !owner.ready)
  }

  /** halg_export_xfunctfv: the return code and the state afterwards. */
  function ExportFunct(v: View, f: Name, funct: Funct, owner: Owner): (r: (int, View)) {
    if |f| > HAL_NAME_LEN then (-ENOMEM, v)
    else if f in v.functs || !MayExport(owner) then (-EINVAL, v)
    else (0, v.(functs := v.functs[f := funct.(users := 0)]))
  }

  // --- counting ---------------------------------------------------------------

  function Count(entries: seq<Entry>, f: Name): (r: nat) {
    if entries == [] then 0 else (if entries[0].funct == Some(f) then 1 else 0) + Count(entries[1..], f)
  }

  function Total(threads: seq<Thread>, f: Name): (r: nat) {
    if threads == [] then 0 else Count(threads[0].entries, f) + Total(threads[1..], f)
  }

  function Cells(threads: seq<Thread>): (r: nat) {
    if threads == [] then 0 else |threads[0].entries| + Cells(threads[1..])
  }

  lemma {:induction false} CountAppend(a: seq<Entry>, b: seq<Entry>, f: Name)
    ensures Count(a + b, f) == Count(a, f) + Count(b, f)
  {
    if a == [] {
      assert a + b == b;
    } else {
      assert (a + b)[1..] == a[1..] + b;
      CountAppend(a[1..], b, f);
    }
  }

  lemma CountInserted(s: seq<Entry>, p: nat, e: Entry, f: Name)
    requires p <= |s|
    ensures Count(Inserted(s, p, e), f) == Count(s, f) + if e.funct == Some(f) then 1 else 0
  {
    assert s == s[..p] + s[p..];
    CountAppend(s[..p], s[p..], f);
    CountAppend(s[..p] + [e], s[p..], f);
    CountAppend(s[..p], [e], f);
    assert Count([e], f) == (if e.funct == Some(f) then 1 else 0) + Count([], f) by { assert [e][1..] == []; }
  }

  lemma CountDeleted(s: seq<Entry>, p: nat, f: Name)
    requires p < |s|
    ensures Count(Deleted(s, p), f) == Count(s, f) - if s[p].funct == Some(f) then 1 else 0
  {
    assert Inserted(Deleted(s, p), p, s[p]) == s;
    CountInserted(Deleted(s, p), p, s[p], f);
  }

  lemma {:induction false} TotalUpdated(threads: seq<Thread>, k: nat, entries: seq<Entry>, f: Name)
    requires k < |threads|
    ensures Total(WithEntries(threads, k, entries), f) == Total(threads, f) - Count(threads[k].entries, f) + Count(entries, f)
    ensures Cells(WithEntries(threads, k, entries)) == Cells(threads) - |threads[k].entries| + |entries|
    decreases k
  {
    var ts := WithEntries(threads, k, entries);
    if k == 0 {
      assert ts[1..] == threads[1..];
    } else {
      assert ts[1..] == WithEntries(threads[1..], k - 1, entries);
      TotalUpdated(threads[1..], k - 1, entries, f);
    }
  }

  lemma {:induction false} OthersCount(entries: seq<Entry>, f: Name, g: Name)
    ensures Count(Others(entries, f), g) == if g == f then 0 else Count(entries, g)
    ensures |Others(entries, f)| == |entries| - Count(entries, f)
    ensures forall i | 0 <= i < |Others(entries, f)| :: Others(entries, f)[i] in entries && Others(entries, f)[i].funct != Some(f)
  {
    if entries != [] {
      OthersCount(entries[1..], f, g);
      var rest := Others(entries[1..], f);
      if entries[0].funct == Some(f) {
        assert [] + rest == rest;
      } else {
        assert ([entries[0]] + rest)[1..] == rest;
      }
    }
  }

  lemma {:induction false} PurgedTotal(threads: seq<Thread>, f: Name, g: Name)
    ensures Total(Purged(threads, f), g) == if g == f then 0 else Total(threads, g)
    ensures Cells(Purged(threads, f)) == Cells(threads) - Total(threads, f)
  {
    if threads != [] {
      assert Purged(threads, f)[1..] == Purged(threads[1..], f);
      PurgedTotal(threads[1..], f, g);
      OthersCount(threads[0].entries, f, g);
    }
  }

  lemma {:induction false} TotalZero(threads: seq<Thread>, f: Name)
    ensures Total(threads, f) == 0 <==> forall k, i | 0 <= k < |threads| && 0 <= i < |threads[k].entries| :: threads[k].entries[i].funct != Some(f)
  {
    if threads != [] {
      CountZero(threads[0].entries, f);
      TotalZero(threads[1..], f);
      if Total(threads, f) == 0 {
        forall k, i | 0 <= k < |threads| && 0 <= i < |threads[k].entries| ensures threads[k].entries[i].funct != Some(f) {
          if k > 0 {
            assert threads[1..][k - 1].entries[i].funct != Some(f);
          }
        }
      } else if Count(threads[0].entries, f) == 0 {
        var k, i :| 0 <= k < |threads[1..]| && 0 <= i < |threads[1..][k].entries| && threads[1..][k].entries[i].funct == Some(f);
        assert threads[k + 1].entries[i].funct == Some(f);
      }
    }
  }

  lemma {:induction false} CountZero(entries: seq<Entry>, f: Name)
    ensures Count(entries, f) == 0 <==> forall i | 0 <= i < |entries| :: entries[i].funct != Some(f)
  {
    if entries != [] {
      CountZero(entries[1..], f);
      assert forall i | 1 <= i < |entries| :: entries[i] == entries[1..][i - 1];
    }
  }

  // --- the invariant ----------------------------------------------------------

  /** An entry that thread t may hold. */
  predicate Fits(functs: map<Name, Funct>, t: Thread, e: Entry) {
    && e.funct.Some? && e.funct.value in functs
    && functs[e.funct.value].kind != Userland
    && (functs[e.funct.value].usesFp ==> t.usesFp)
  }

  predicate AllFit(functs: map<Name, Funct>, threads: seq<Thread>) {
    forall k, i | 0 <= k < |threads| && 0 <= i < |threads[k].entries| :: Fits(functs, threads[k], threads[k].entries[i])
  }

  /** Use counts are exact, a non-reentrant function is called from one place at
      most, no entry dangles or sits on a thread that cannot run it, and no entry
      has been lost. */
  ghost predicate Sound(v: View) {
    && (forall f | f in v.functs :: v.functs[f].users == Total(v.threads, f))
    && (forall f | f in v.functs :: !v.functs[f].reentrant ==> v.functs[f].users <= 1)
    && AllFit(v.functs, v.threads)
    && v.spare + Cells(v.threads) == v.made
  }

  /** Only the use count of f may have changed. */
  ghost predicate SameKinds(functs: map<Name, Funct>, functs': map<Name, Funct>) {
    forall g | g in functs :: g in functs' && functs'[g].kind == functs[g].kind && functs'[g].usesFp == functs[g].usesFp
  }

  lemma FitsStays(functs: map<Name, Funct>, functs': map<Name, Funct>, t: Thread, e: Entry)
    requires SameKinds(functs, functs') && Fits(functs, t, e)
    ensures Fits(functs', t, e)
  {
  }

  lemma AllFitUpdated(functs: map<Name, Funct>, functs': map<Name, Funct>, threads: seq<Thread>, k: nat, es: seq<Entry>)
    requires AllFit(functs, threads) && SameKinds(functs, functs') && k < |threads|
    requires forall n | 0 <= n < |es| :: Fits(functs, threads[k], es[n])
    ensures AllFit(functs', WithEntries(threads, k, es))
  {
    var ts := WithEntries(threads, k, es);
    forall j, n | 0 <= j < |ts| && 0 <= n < |ts[j].entries| ensures Fits(functs', ts[j], ts[j].entries[n]) {
      FitsStays(functs, functs', threads[j], ts[j].entries[n]);
    }
  }

  lemma InsertedFits(functs: map<Name, Funct>, threads: seq<Thread>, k: nat, i: nat, e: Entry)
    requires AllFit(functs, threads) && k < |threads| && i <= |threads[k].entries| && Fits(functs, threads[k], e)
    ensures var es := Inserted(threads[k].entries, i, e);
            |es| == |threads[k].entries| + 1 && forall n | 0 <= n < |es| :: Fits(functs, threads[k], es[n])
  {
    var s, es := threads[k].entries, Inserted(threads[k].entries, i, e);
    assert forall n | 0 <= n < |es| :: es[n] == if n < i then s[n] else if n == i then e else s[n - 1];
  }

  lemma DeletedFits(functs: map<Name, Funct>, threads: seq<Thread>, k: nat, i: nat)
    requires AllFit(functs, threads) && k < |threads| && i < |threads[k].entries|
    ensures var es := Deleted(threads[k].entries, i);
            |es| == |threads[k].entries| - 1 && forall n | 0 <= n < |es| :: Fits(functs, threads[k], es[n])
  {
    var s, es := threads[k].entries, Deleted(threads[k].entries, i);
    assert forall n | 0 <= n < |es| :: es[n] == if n < i then s[n] else s[n + 1];
  }

  lemma UsersUpdated(functs: map<Name, Funct>, threads: seq<Thread>, k: nat, es: seq<Entry>, f: Name, delta: int)
    requires k < |threads| && f in functs && forall g | g in functs :: functs[g].users == Total(threads, g)
    requires forall g :: Count(es, g) == Count(threads[k].entries, g) + if g == f then delta else 0
    ensures var functs', ts := WithUsers(functs, f, delta), WithEntries(threads, k, es);
            && (forall g | g in functs' :: functs'[g].users == Total(ts, g))
            && Cells(ts) == Cells(threads) - |threads[k].entries| + |es|
  {
    var functs', ts := WithUsers(functs, f, delta), WithEntries(threads, k, es);
    TotalUpdated(threads, k, es, f);
    hide Total, Count, Cells, WithEntries;
    forall g | g in functs' ensures functs'[g].users == Total(ts, g) {
      TotalUpdated(threads, k, es, g);
    }
  }

  lemma AddSound(v: View, functName: Name, threadName: Name, position: int, rmb: int, wmb: int)
    requires Sound(v)
    ensures Sound(AddFunct(v, functName, threadName, position, rmb, wmb).1)
  {
    match AddPlace(v, functName, threadName, position)
    case Refused =>
    case Place(f, k, i) =>
      var w := AddFunct(v, functName, threadName, position, rmb, wmb).1;
      var e, s := NewEntry(f, v.functs[f], rmb, wmb), v.threads[k].entries;
      var es := Inserted(s, i, e);
      assert Fits(v.functs, v.threads[k], e);
      InsertedFits(v.functs, v.threads, k, i, e);
      hide Inserted, Total, Count, Cells, WithEntries, Fits, AllFit;
      AllFitUpdated(v.functs, w.functs, v.threads, k, es);
      forall g ensures Count(es, g) == Count(s, g) + if g == f then 1 else 0 {
        CountInserted(s, i, e, g);
      }
      UsersUpdated(v.functs, v.threads, k, es, f, 1);
  }

  lemma DelSound(v: View, functName: Name, threadName: Name)
    requires Sound(v)
    ensures Sound(DelFunct(v, functName, threadName).1)
  {
    match DelPlace(v, functName, threadName)
    case Refused =>
    case Place(f, k, i) =>
      var w := DelFunct(v, functName, threadName).1;
      var s := v.threads[k].entries;
      var es := Deleted(s, i);
      DeletedFits(v.functs, v.threads, k, i);
      hide Deleted, Total, Count, Cells, WithEntries, Fits, AllFit;
      AllFitUpdated(v.functs, w.functs, v.threads, k, es);
      forall g ensures Count(es, g) == Count(s, g) + if g == f then -1 else 0 {
        CountDeleted(s, i, g);
      }
      UsersUpdated(v.functs, v.threads, k, es, f, -1);
  }

  /** After free_funct_struct nothing mentions the function any more, whatever the
      number of its users, and all other entries are where they were. */
  lemma FreeSound(v: View, f: Name)
    requires Sound(v) && f in v.functs
    ensures var w := FreeFunct(v, f);
            && Sound(w) && f !in w.functs && w.made == v.made
            && w.functs.Keys == v.functs.Keys - {f} && (forall g | g in w.functs :: w.functs[g] == v.functs[g])
            && w.threads == Purged(v.threads, f)
            && (forall k, i | 0 <= k < |w.threads| && 0 <= i < |w.threads[k].entries| :: w.threads[k].entries[i].funct != Some(f))
  {
    var w := FreeFunct(v, f);
    if v.functs[f].users == 0 {
      TotalZero(v.threads, f);
      PurgedNothing(v.threads, f);
    }
    assert w.threads == Purged(v.threads, f);
    forall g | g in w.functs ensures w.functs[g].users == Total(w.threads, g) {
      PurgedTotal(v.threads, f, g);
    }
    PurgedTotal(v.threads, f, f);
    TotalZero(w.threads, f);
    forall j, n | 0 <= j < |w.threads| && 0 <= n < |w.threads[j].entries|
      ensures Fits(w.functs, w.threads[j], w.threads[j].entries[n])
    {
      OthersCount(v.threads[j].entries, f, f);
      var m :| 0 <= m < |v.threads[j].entries| && v.threads[j].entries[m] == w.threads[j].entries[n];
      assert Fits(v.functs, v.threads[j], v.threads[j].entries[m]);
    }
  }

  lemma PurgedNothing(threads: seq<Thread>, f: Name)
    requires forall k, i | 0 <= k < |threads| && 0 <= i < |threads[k].entries| :: threads[k].entries[i].funct != Some(f)
    ensures Purged(threads, f) == threads
  {
    forall k | 0 <= k < |threads| ensures Others(threads[k].entries, f) == threads[k].entries {
      OthersNothing(threads[k].entries, f);
    }
  }

  lemma {:induction false} OthersNothing(entries: seq<Entry>, f: Name)
    requires forall i | 0 <= i < |entries| :: entries[i].funct != Some(f)
    ensures Others(entries, f) == entries
  {
    if entries != [] {
      OthersNothing(entries[1..], f);
    }
  }

  // --- whole runs -------------------------------------------------------------

  datatype Call =
    | Export(name: Name, funct: Funct, owner: Owner)
    | Add(functName: Name, threadName: Name, position: int, rmb: int, wmb: int)
    | Del(functName: Name, threadName: Name)
    | Free(name: Name)

  function Do(v: View, c: Call): (r: View) {
    match c
    case Export(f, funct, owner) => ExportFunct(v, f, funct, owner).1
    case Add(f, t, p, r, w) => AddFunct(v, f, t, p, r, w).1
    case Del(f, t) => DelFunct(v, f, t).1
    case Free(f) => if f in v.functs then FreeFunct(v, f) else v
  }

  function Run(v: View, calls: seq<Call>): (r: View)
    decreases |calls|
  {
    if calls == [] then v else Run(Do(v, calls[0]), calls[1..])
  }

  /** Before any call: threads without entries. */
  predicate Fresh(v: View) {
    v.functs == map[] && v.spare == 0 && v.made == 0 && forall k | 0 <= k < |v.threads| :: v.threads[k].entries == []
  }

  lemma {:induction false} NoCells(threads: seq<Thread>)
    requires forall k | 0 <= k < |threads| :: threads[k].entries == []
    ensures Cells(threads) == 0
  {
    if threads != [] {
      NoCells(threads[1..]);
    }
  }

  lemma ExportSound(v: View, f: Name, funct: Funct, owner: Owner)
    requires Sound(v)
    ensures Sound(ExportFunct(v, f, funct, owner).1)
  {
    if f !in v.functs {
      TotalZero(v.threads, f);
      var w := ExportFunct(v, f, funct, owner).1;
      forall j, n | 0 <= j < |w.threads| && 0 <= n < |w.threads[j].entries|
        ensures Fits(w.functs, w.threads[j], w.threads[j].entries[n])
      {
        assert Fits(v.functs, v.threads[j], v.threads[j].entries[n]);
      }
      forall k, i | 0 <= k < |v.threads| && 0 <= i < |v.threads[k].entries| ensures v.threads[k].entries[i].funct != Some(f) {
        assert Fits(v.functs, v.threads[k], v.threads[k].entries[i]);
      }
    }
  }

  lemma {:induction false} RunKeepsSound(v: View, calls: seq<Call>)
    requires Sound(v)
    ensures Sound(Run(v, calls))
    decreases |calls|
  {
    if calls != [] {
      match calls[0] {
        case Export(f, funct, owner) => ExportSound(v, f, funct, owner);
        case Add(f, t, p, r, w) => AddSound(v, f, t, p, r, w);
        case Del(f, t) => DelSound(v, f, t);
        case Free(f) => if f in v.functs { FreeSound(v, f); }
      }
      RunKeepsSound(Do(v, calls[0]), calls[1..]);
    }
  }

  /** Every run from a fresh state ends in a sound one. */
  lemma RunSound(v: View, calls: seq<Call>)
    requires Fresh(v)
    ensures Sound(Run(v, calls))
  {
    NoCells(v.threads);
    RunKeepsSound(v, calls);
  }

  /** Function and thread exist, the function is for threads and free to be added, and the
      thread can run it. */
  predicate Compatible(v: View, functName: Name, threadName: Name)
    ensures Compatible(v, functName, threadName) ==> FindName(Names(v.threads), threadName).Some?
  {
    var f, k := FindFunct(v.functs, functName), FindName(Names(v.threads), threadName);
    && f.Some? && k.Some?
    && var funct := v.functs[f.value];
       && funct.kind != Userland
       && (funct.users <= 0 || funct.reentrant)
       && (funct.usesFp ==> v.threads[k.value].usesFp)
  }

  /** Only the use count of f changes, by delta. */
  ghost predicate OnlyUsers(functs: map<Name, Funct>, functs': map<Name, Funct>, f: Name, delta: int) {
    && functs'.Keys == functs.Keys
    && forall g | g in functs ::
         functs'[g] == functs[g].(users := functs[g].users + if g == f then delta else 0)
  }

  /** Only the entries of thread k change. */
  ghost predicate OnlyThread(threads: seq<Thread>, threads': seq<Thread>, k: nat) {
    && k < |threads| == |threads'|
    && threads'[k] == threads[k].(entries := threads'[k].entries)
    && forall j | 0 <= j < |threads| && j != k :: threads'[j] == threads[j]
  }

  /** A call succeeds exactly when function and thread are compatible and the position is
      not 0 and at most one beyond the length either way. It then makes the new entry the
      position-th of the thread, counted from the start or from the end, with what the
      function has and the barriers asked for, and changes no other entry; a new cell is
      made only if none is spare. One that fails changes nothing. */
  lemma AddAtPosition(v: View, functName: Name, threadName: Name, position: int, rmb: int, wmb: int)
    ensures var (rc, w) := AddFunct(v, functName, threadName, position, rmb, wmb);
            && (rc == 0 <==>
                  && Compatible(v, functName, threadName) && position != 0
                  && var len := |v.threads[FindName(Names(v.threads), threadName).value].entries|;
                     -(len + 1) <= position <= len + 1)
            && (rc != 0 ==> rc == -22 && w == v)
            && (rc == 0 ==>
                  var f, k := FindFunct(v.functs, functName).value, FindName(Names(v.threads), threadName).value;
                  && OnlyUsers(v.functs, w.functs, f, 1) && OnlyThread(v.threads, w.threads, k)
                  && w.made == v.made + (if v.spare > 0 then 0 else 1)
                  && var was, now := v.threads[k].entries, w.threads[k].entries;
                     var i := if position > 0 then position - 1 else |now| + position;
                     && 0 <= i < |now| && Deleted(now, i) == was
                     && now[i].funct == Some(f) && now[i].kind == v.functs[f].kind
                     && now[i].arg == v.functs[f].arg && now[i].code == v.functs[f].code
                     && now[i].rmb == rmb && now[i].wmb == wmb)
  {
    var p := AddPlace(v, functName, threadName, position);
    if p.Place? {
      var e := NewEntry(p.funct, v.functs[p.funct], rmb, wmb);
      InsertedAt(v.threads[p.thread].entries, p.index, e);
    }
  }

  lemma InsertedAt(s: seq<Entry>, p: nat, e: Entry)
    requires p <= |s|
    ensures |Inserted(s, p, e)| == |s| + 1 && Inserted(s, p, e)[p] == e && Deleted(Inserted(s, p, e), p) == s
  {
  }

  /** A call succeeds exactly when function and thread are found, the function is in use
      and the thread calls it. It then takes the first such entry off the thread, makes
      its cell spare, and changes no other; one that fails changes nothing. */
  lemma DelFirst(v: View, functName: Name, threadName: Name)
    ensures var (rc, w) := DelFunct(v, functName, threadName);
            var f, k := FindFunct(v.functs, functName), FindName(Names(v.threads), threadName);
            && (rc == 0 <==>
                  && f.Some? && v.functs[f.value].users != 0 && k.Some?
                  && exists e :: e in v.threads[k.value].entries && e.funct == f)
            && (rc != 0 ==> rc == -22 && w == v)
            && (rc == 0 ==>
                  && OnlyUsers(v.functs, w.functs, f.value, -1) && OnlyThread(v.threads, w.threads, k.value)
                  && w.spare == v.spare + 1 && w.made == v.made
                  && var i := FirstEntry(v.threads[k.value].entries, f.value);
                     i.Some? && w.threads[k.value].entries == Deleted(v.threads[k.value].entries, i.value))
  {
    var f, k := FindFunct(v.functs, functName), FindName(Names(v.threads), threadName);
    if f.Some? && k.Some? {
      var es := v.threads[k.value].entries;
      var i := FirstEntry(es, f.value);
      if i.Some? {
        assert es[i.value] in es;
      }
    }
  }

  /** A name too long for a HAL name fails with one code, a name taken or an owner that may
      not export with another; else exactly the function given is added, with no users. */
  lemma ExportStores(v: View, f: Name, funct: Funct, owner: Owner)
    ensures var (rc, w) := ExportFunct(v, f, funct, owner);
            && (rc == -12 <==> |f| > 41)
            && (rc == -22 <==> |f| <= 41 && (f in v.functs || !MayExport(owner)))
            && (rc == 0 <==> |f| <= 41 && f !in v.functs && MayExport(owner))
            && (rc != 0 ==> w == v)
            && (rc == 0 ==> w.threads == v.threads && w.spare == v.spare && w.made == v.made)
            && (rc == 0 ==>
                  && w.functs.Keys == v.functs.Keys + {f} && (forall g | g in v.functs :: w.functs[g] == v.functs[g])
                  && w.functs[f].arg == funct.arg && w.functs[f].code == funct.code && w.functs[f].kind == funct.kind
                  && w.functs[f].usesFp == funct.usesFp && w.functs[f].reentrant == funct.reentrant
                  && w.functs[f].users == 0)
  {
  }

  /** A realtime component may export until hal_ready, an instance of it always. */
  lemma OwnersThatExport(realtime: bool, instance: bool, ready: bool)
    ensures !MayExport(Missing)
    ensures MayExport(Component(realtime, instance, ready)) <==> realtime && (ready ==> instance)
  {
  }

  /** A function is found by its name, or by a name that lacks the suffix .funct; of a
      longer name with the suffix only 40 characters count. */
  lemma FindsSuffixed(functs: map<Name, Funct>, name: Name)
    ensures name in functs ==> FindFunct(functs, name) == Some(name)
    ensures name !in functs && |name| <= 34 ==>
              FindFunct(functs, name) == if name + ".funct" in functs then Some(name + ".funct") else None
    ensures name !in functs && |name| > 34 ==>
              var cut := (name + ".funct")[..40];
              FindFunct(functs, name) == if cut in functs then Some(cut) else None
  {
  }

  /** Deleting a function just added to a thread that did not call it puts the thread
      and all use counts back. */
  lemma AddThenDel(v: View, functName: Name, threadName: Name, position: int, rmb: int, wmb: int)
    requires Sound(v)
    requires var p := AddPlace(v, functName, threadName, position);
             p.Place? && Count(v.threads[p.thread].entries, p.funct) == 0
    ensures var w := AddFunct(v, functName, threadName, position, rmb, wmb).1;
            var (rc, x) := DelFunct(w, functName, threadName);
            rc == 0 && x.threads == v.threads && x.functs == v.functs
  {
    var p := AddPlace(v, functName, threadName, position);
    var w := AddFunct(v, functName, threadName, position, rmb, wmb).1;
    var s, e := v.threads[p.thread].entries, NewEntry(p.funct, v.functs[p.funct], rmb, wmb);
    FirstInserted(s, p.index, e, p.funct);
    SameNames(v.threads, p.thread, Inserted(s, p.index, e));
    hide Inserted, Deleted, AddPlace, FindName, Names;
    assert w.functs[p.funct].users > 0;
    assert DelPlace(w, functName, threadName) == p;
    assert WithEntries(w.threads, p.thread, s) == v.threads;
    assert WithUsers(w.functs, p.funct, -1) == v.functs;
  }

  lemma FirstInserted(s: seq<Entry>, p: nat, e: Entry, f: Name)
    requires p <= |s| && e.funct == Some(f) && Count(s, f) == 0
    ensures FirstEntry(Inserted(s, p, e), f) == Some(p) && Deleted(Inserted(s, p, e), p) == s
  {
    CountZero(s, f);
    hide FirstEntry, Count;
    var t := Inserted(s, p, e);
    assert t[p] == e;
    assert forall j | 0 <= j < p :: t[j] == s[j];
    assert forall j | p < j < |t| :: t[j] == s[j - 1];
    assert FirstEntry(t, f).Some?;
  }

  lemma SameNames(threads: seq<Thread>, k: nat, entries: seq<Entry>)
    requires k < |threads|
    ensures Names(WithEntries(threads, k, entries)) == Names(threads)
  {
  }

  // --- purging thread by thread -----------------------------------------------

  lemma {:induction false} OthersAppend(a: seq<Entry>, b: seq<Entry>, f: Name)
    ensures Others(a + b, f) == Others(a, f) + Others(b, f)
  {
    if a == [] {
      assert a + b == b;
    } else {
      assert (a + b)[1..] == a[1..] + b;
      OthersAppend(a[1..], b, f);
    }
  }

  lemma OthersDeleted(s: seq<Entry>, i: nat, f: Name)
    requires i < |s| && s[i].funct == Some(f)
    ensures Others(Deleted(s, i), f) == Others(s, f)
  {
    var a, b := s[..i], s[i + 1..];
    var xb := [s[i]] + b;
    assert s == a + xb;
    OthersAppend(a, xb, f);
    OthersAppend(a, b, f);
    assert xb[1..] == b;
    assert [] + Others(b, f) == Others(b, f);
  }

  /** The state when the first j threads have been purged of f. */
  function PurgedTo(v: View, f: Name, j: nat): (r: View)
    requires f in v.functs && j <= |v.threads|
  {
    View(WithUsers(v.functs, f, -(Total(v.threads[..j], f) as int)), Purged(v.threads[..j], f) + v.threads[j..],
         v.spare + Total(v.threads[..j], f), v.made)
  }

  lemma {:induction false} TotalAppend(a: seq<Thread>, b: seq<Thread>, f: Name)
    ensures Total(a + b, f) == Total(a, f) + Total(b, f)
  {
    if a == [] {
      assert a + b == b;
    } else {
      assert (a + b)[1..] == a[1..] + b;
      TotalAppend(a[1..], b, f);
    }
  }

  /** What thread_cb does to thread k. */
  function PurgedThread(v: View, f: Name, k: nat): (r: View)
    requires f in v.functs && k < |v.threads|
  {
    var es := v.threads[k].entries;
    View(WithUsers(v.functs, f, -(Count(es, f) as int)), WithEntries(v.threads, k, Others(es, f)), v.spare + Count(es, f), v.made)
  }

  lemma PurgedStep(v: View, f: Name, j: nat)
    requires f in v.functs && j < |v.threads|
    ensures PurgedThread(PurgedTo(v, f, j), f, j) == PurgedTo(v, f, j + 1)
  {
    var t := v.threads[j];
    assert v.threads[..j + 1] == v.threads[..j] + [t];
    TotalAppend(v.threads[..j], [t], f);
    assert Total([t], f) == Count(t.entries, f) + Total([], f) by { assert [t][1..] == []; }
    assert PurgedTo(v, f, j).threads[j] == t;
    assert PurgedThread(PurgedTo(v, f, j), f, j).threads == PurgedTo(v, f, j + 1).threads;
  }

  lemma PurgedNone(v: View, f: Name)
    requires f in v.functs
    ensures PurgedTo(v, f, 0) == v
  {
    assert v.threads[..0] == [];
    assert Purged([], f) == [];
    assert [] + v.threads[0..] == v.threads;
    assert WithUsers(v.functs, f, 0) == v.functs;
  }

  /** Purging every thread, then dropping the function. */
  lemma PurgedAll(v: View, f: Name)
    requires f in v.functs
    ensures var w := PurgedTo(v, f, |v.threads|);
            w.threads == Purged(v.threads, f) && w.spare == v.spare + Total(v.threads, f) &&
            w.functs - {f} == v.functs - {f}
  {
    hide Purged, Total;
    assert v.threads[..|v.threads|] == v.threads && v.threads[|v.threads|..] == [];
    assert Purged(v.threads, f) + [] == Purged(v.threads, f);
  }
}

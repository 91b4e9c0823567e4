/** The logger of syslog_async.c on its variables: queued and free entries are cells of
    two singly linked lists, moved from one to the other and never copied. */
module SyslogLogger {
  import opened Sequences
  import opened Slist
  import opened SyslogAsync

  function EntriesAt(contents: map<Ref, Entry>, s: seq<Ref>): (es: seq<Entry>)
    ensures |es| == |s|
  {
    LookUp(contents, s, Entry(0, 0, 0))
  }

  lemma ContentsElsewhere(contents: map<Ref, Entry>, s: seq<Ref>, n: Ref, e: Entry)
    requires n !in s
    ensures EntriesAt(contents[n := e], s) == EntriesAt(contents, s)
  {
  }

  lemma EntriesParts(contents: map<Ref, Entry>, a: seq<Ref>, n: Ref)
    ensures a != [] ==> EntriesAt(contents, a)[1..] == EntriesAt(contents, a[1..])
    ensures a != [] ==> EntriesAt(contents, a) == EntriesAt(contents, [a[0]]) + EntriesAt(contents, a[1..])
    ensures EntriesAt(contents, [n] + a) == EntriesAt(contents, [n]) + EntriesAt(contents, a)
    ensures EntriesAt(contents, a + [n]) == EntriesAt(contents, a) + EntriesAt(contents, [n])
    ensures n in contents ==> EntriesAt(contents, [n]) == [contents[n]]
  {
  }

  lemma SendToParts(q: Queue, n: nat, rc: nat)
    requires q.entries != [] && rc == if n <= q.entries[0].length then n else q.entries[0].length
    ensures var e := q.entries[0];
            SendTo(q, n) ==
            q.(entries := [Entry(e.id, e.offset + rc, e.length - rc)] + q.entries[1..],
               ledger := q.ledger.(wire := q.ledger.wire + [Chunk(e.id, e.offset, rc, e.length - rc)]))
  {
  }

  /** The file-scope variables. The socket is the oracle `world`; `reportLen` gives the
      length of an overflow report. */
  class Logger {
    var entries: Ref
    var freeEntries: Ref
    var next: map<Ref, Ref>
    var contents: map<Ref, Entry>
    var entriesAlloced: nat
    var entriesLost: nat
    var logBacklog: nat
    var logFd: bool
    var connectionGood: bool
    var logMask: set<nat>
    var world: World
    const reportLen: nat -> Len
    var ledger: Ledger  // history only: not a variable of the program
    ghost var queued: seq<Ref>
    ghost var spare: seq<Ref>

    /** Every cell allocated is on exactly one of the two lists, but for a loose one. */
    ghost predicate ValidBut(loose: Ref)
      reads `entries, `freeEntries, `next, `contents, `entriesAlloced, `queued, `spare
    {
      && IsList(next, entries, queued) && IsList(next, freeEntries, spare)
      && Shared(queued, spare, entriesAlloced, loose)
      && (forall n | 1 <= n <= entriesAlloced :: n in next && n in contents)
    }

    ghost predicate Valid()
      reads `entries, `freeEntries, `next, `contents, `entriesAlloced, `queued, `spare
    {
      ValidBut(0)
    }

    ghost function Value(): (s: State)
      reads this
    {
      State(Queue(EntriesAt(contents, queued), EntriesAt(contents, spare), entriesAlloced, entriesLost, logBacklog, ledger),
            logFd, connectionGood, logMask, world)
    }

    constructor (reportLen: nat -> Len)
      ensures Valid() && Value() == INIT
    {
      entries, freeEntries, next, contents := 0, 0, map[], map[];
      entriesAlloced, entriesLost, logBacklog := 0, 0, DEF_BACKLOG;
      logFd, connectionGood, logMask, world := false, true, ALL_LEVELS, World([], [], []);
      this.reportLen := reportLen;
      ledger := Ledger(0, [], 0, 0, 0, 0, []);
      queued, spare := [], [];
    }

    /** No cell is lost: queued and free ones are all those allocated. */
    lemma CellsKept()
      requires Valid()
      ensures |queued| + |spare| == entriesAlloced
    {
      SharedCount(queued, spare, entriesAlloced);
    }

    // --- the lists ------------------------------------------------------------

    lemma Heads()
      requires Valid()
      ensures entries == 0 <==> queued == []
      ensures queued != [] ==> entries == queued[0] && entries in next && entries in contents
      ensures queued != [] ==> Value().queue.entries != [] && Value().queue.entries[0] == contents[entries]
      ensures queued == [] ==> Value().queue.entries == []
      ensures freeEntries == 0 <==> spare == []
      ensures spare != [] ==> freeEntries == spare[0] && freeEntries in next
    {
      assert queued != [] ==> queued[0] in queued;
      assert spare != [] ==> spare[0] in spare;
    }

    /** free: the head moves to the front of the free list. */
    method FreeHead()
      requires Valid() && entries != 0
      modifies this`entries, this`freeEntries, this`next, this`queued, this`spare
      ensures Valid() && Value() == old(Value()).(queue := Recycle(old(Value()).queue))
    {
      Heads();
      EntriesParts(contents, queued, entries);
      EntriesParts(contents, spare, entries);
      hide EntriesAt, ValidBut;
      MoveHead();
    }

    method MoveHead()
      requires Valid() && entries != 0
      modifies this`entries, this`freeEntries, this`next, this`queued, this`spare
      ensures Valid() && old(queued) != [] && old(entries) == old(queued)[0]
      ensures queued == old(queued)[1..] && spare == [old(entries)] + old(spare)
    {
      Heads();
      hide IsList, Shared, EntriesAt;
      ghost var rest := queued[1..];
      var tmp := entries;
      SharedHead(queued, spare, entriesAlloced);
      PopList(next, entries, queued);
      entries := next[tmp];
      OtherCell(next, entries, rest, tmp, freeEntries);
      PushList(next, freeEntries, spare, tmp);
      SharedSwap(rest, spare, entriesAlloced, tmp);
      SharedPush(spare, rest, entriesAlloced, tmp);
      SharedSwap([tmp] + spare, rest, entriesAlloced, 0);
      next := next[tmp := freeEntries];
      freeEntries := tmp;
      queued, spare := rest, [tmp] + spare;
    }

    /** A cell for a new message: a free one, or one that is allocated, or none. */
    method TakeEntry(mallocOk: bool) returns (entry: Ref)
      requires Valid()
      modifies this`freeEntries, this`next, this`contents, this`entriesAlloced, this`spare
      ensures ValidBut(entry) && EntriesAt(contents, queued) == old(EntriesAt(contents, queued))
      ensures if old(spare) != [] then spare == old(spare)[1..] && entry != 0 && entriesAlloced == old(entriesAlloced)
              else spare == [] && if old(entriesAlloced) < logBacklog && mallocOk
                                  then entry != 0 && entriesAlloced == old(entriesAlloced) + 1
                                  else entry == 0 && entriesAlloced == old(entriesAlloced)
      ensures EntriesAt(contents, spare) == old(EntriesAt(contents, spare))[if old(spare) != [] then 1 else 0..]
    {
      Heads();
      EntriesParts(contents, spare, 0);
      hide EntriesAt, ValidBut;
      entry := freeEntries;
      if entry != 0 {
        PopFree();
      } else if entriesAlloced < logBacklog && mallocOk {
        entry := AllocateEntry();
      }
    }

    method PopFree()
      requires Valid() && freeEntries != 0
      modifies this`freeEntries, this`spare
      ensures old(spare) != [] && ValidBut(old(freeEntries)) && spare == old(spare)[1..]
    {
      Heads();
      hide IsList, Shared, EntriesAt;
      ghost var rest := spare[1..];
      SharedSwap(queued, spare, entriesAlloced, 0);
      SharedHead(spare, queued, entriesAlloced);
      SharedSwap(rest, queued, entriesAlloced, freeEntries);
      PopList(next, freeEntries, spare);
      freeEntries := next[freeEntries];
      spare := rest;
    }

    /** malloc: a cell that has not been there before. */
    method AllocateEntry() returns (entry: Ref)
      requires Valid()
      modifies this`next, this`contents, this`entriesAlloced
      ensures ValidBut(entry) && entry != 0 && entriesAlloced == old(entriesAlloced) + 1
      ensures EntriesAt(contents, queued) == old(EntriesAt(contents, queued))
      ensures EntriesAt(contents, spare) == old(EntriesAt(contents, spare))
    {
      hide IsList, Shared, EntriesAt;
      entry := entriesAlloced + 1;
      SharedGrow(queued, spare, entriesAlloced);
      OtherCell(next, entries, queued, entry, 0);
      OtherCell(next, freeEntries, spare, entry, 0);
      ContentsElsewhere(contents, queued, entry, Entry(0, 0, 0));
      ContentsElsewhere(contents, spare, entry, Entry(0, 0, 0));
      entriesAlloced := entriesAlloced + 1;
      next := next[entry := 0];
      contents := contents[entry := Entry(0, 0, 0)];
    }

    /** The cell goes to the end of the queue, which is found by walking along it. */
    method AppendEntry(entry: Ref, e: Entry)
      requires ValidBut(entry) && entry != 0
      modifies this`entries, this`next, this`contents, this`queued
      ensures Valid() && EntriesAt(contents, queued) == old(EntriesAt(contents, queued)) + [e]
      ensures EntriesAt(contents, spare) == old(EntriesAt(contents, spare))
    {
      SharedPush(queued, spare, entriesAlloced, entry);
      EntriesParts(contents[entry := e], queued, entry);
      QueueHead();
      hide IsList, Shared, EntriesAt;
      OtherCell(next, entries, queued, entry, 0);
      OtherCell(next, freeEntries, spare, entry, 0);
      ContentsElsewhere(contents, queued, entry, e);
      ContentsElsewhere(contents, spare, entry, e);
      next := next[entry := 0];
      contents := contents[entry := e];
      if entries == 0 {
        OneCell(next, entry);
        assert queued + [entry] == [entry];
        entries := entry;
      } else {
        var tmp := LastEntry();
        AppendList(next, entries, queued, entry);
        assert tmp in queued;
        OtherCell(next, freeEntries, spare, tmp, entry);
        next := next[tmp := entry];
      }
      queued := queued + [entry];
    }

    lemma QueueHead()
      requires IsList(next, entries, queued)
      ensures entries == 0 <==> queued == []
    {
    }

    method LastEntry() returns (tmp: Ref)
      requires IsList(next, entries, queued) && queued != []
      ensures tmp == queued[|queued| - 1]
    {
      tmp := entries;
      ghost var i := 0;
      assert next[queued[0]] == After(queued, 0);
      while next[tmp] != 0
        invariant 0 <= i < |queued| && tmp == queued[i] && tmp in next && next[tmp] == After(queued, i)
        decreases |queued| - i
      {
        tmp := next[tmp];
        i := i + 1;
      }
    }

    lemma SpareHead()
      ensures spare == [] <==> EntriesAt(contents, spare) == []
    {
    }

    /** A message is taken in, or counted as lost. */
    method Accept(m: Message, mallocOk: bool)
      requires Valid()
      modifies this`entries, this`freeEntries, this`next, this`contents, this`entriesAlloced, this`entriesLost,
               this`ledger, this`queued, this`spare
      ensures Valid() && Value() == old(Value()).(queue := Enqueue(old(Value()).queue, m, mallocOk))
    {
      hide IsList, Shared, EntriesAt, ValidBut;
      SpareHead();
      var entry := TakeEntry(mallocOk);
      if entry == 0 {
        entriesLost := entriesLost + 1;
        ledger := ledger.(rejected := ledger.rejected + 1);
      } else {
        AppendEntry(entry, Entry(ledger.accepted, 0, m.len));
        ledger := ledger.(accepted := ledger.accepted + 1, lengths := ledger.lengths + [m.len],
                          reported := ledger.reported + m.losses);
      }
    }

    /** Offset and length of the head after n bytes were sent. */
    method Advance(n: nat)
      requires Valid() && entries != 0
      modifies this`contents, this`ledger
      ensures Valid() && old(Value()).queue.entries != []
      ensures Value() == old(Value()).(queue := SendTo(old(Value()).queue, n))
    {
      hide EntriesAt, ValidBut, SendTo, IsList, Shared, Rank, Size;
      Heads();
      var e := contents[entries];
      var rc := if n <= e.length then n else e.length;
      SendToParts(Value().queue, n, rc);
      SetHead(Entry(e.id, e.offset + rc, e.length - rc));
      ledger := ledger.(wire := ledger.wire + [Chunk(e.id, e.offset, rc, e.length - rc)]);
    }

    method SetHead(e: Entry)
      requires Valid() && entries != 0
      modifies this`contents
      ensures Valid() && EntriesAt(contents, spare) == old(EntriesAt(contents, spare))
      ensures EntriesAt(contents, queued) == [e] + old(EntriesAt(contents, queued))[1..]
    {
      Heads();
      SharedHead(queued, spare, entriesAlloced);
      ContentsElsewhere(contents, queued[1..], entries, e);
      ContentsElsewhere(contents, spare, entries, e);
      EntriesParts(contents, queued, entries);
      EntriesParts(contents[entries := e], queued, entries);
      hide IsList, Shared, EntriesAt;
      contents := contents[entries := e];
    }

    // --- flush and log --------------------------------------------------------

    method Mksock() returns (ok: bool)
      modifies this`world
      ensures (ok, world) == NextSock(old(world))
    {
      var (answer, rest) := NextSock(world);
      world := rest;
      return answer;
    }

    /** One trip round the flush loop up to the labels: `done` to return, `free` to
        free the head entry. */
    method WriteHead(tried: bool) returns (done: bool, free: bool, tried': bool)
      requires Valid() && entries != 0 && Value().queue.entries != []
      modifies this`contents, this`ledger, this`logFd, this`connectionGood, this`world
      ensures Valid()
      ensures Iterate(old(Value()), tried) ==
              if done then Stop(Value()) else if free then SyslogAsync.FreeHead(Value(), tried') else Again(Value(), tried')
    {
      hide Size, Answered, EntriesAt, ValidBut;
      if !logFd {
        var ok := Mksock();
        if !ok {
          ledger := ledger.(givenUp := ledger.givenUp + 1);
          return false, true, false;
        }
        logFd := true;
      }
      connectionGood := true;
      var (answer, rest) := NextSend(world);
      world := rest;
      done, free, tried' := HandleAnswer(answer, tried);
    }

    /** What the loop does with the result of send. */
    method HandleAnswer(answer: SendAnswer, tried: bool) returns (done: bool, free: bool, tried': bool)
      requires Valid() && entries != 0 && Value().queue.entries != []
      modifies this`contents, this`ledger, this`logFd, this`connectionGood, this`world
      ensures Valid()
      ensures Answered(old(Value()), answer, tried) ==
              if done then Stop(Value()) else if free then SyslogAsync.FreeHead(Value(), tried') else Again(Value(), tried')
    {
      hide Size, SendTo, SyslogAsync.Reconnect, Reopen, EntriesAt, ValidBut;
      match answer {
      case SentAll =>
        Heads();
        Advance(contents[entries].length);
        return false, true, tried;
      case Sent(n) =>
        Advance(n);
        Heads();
        return false, contents[entries].length == 0, tried;
      case Eintr =>
        return false, false, tried;
      case Eagain =>
        return true, false, tried;
      case Enobufs =>
        connectionGood := false;
        return true, false, tried;
      case Epipe =>
        free, tried' := ReopenStream();
        return false, free, tried';
      case Disconnected =>
        done, free, tried' := Reconnect(tried);
        return;
      case SendError =>
        ledger := ledger.(givenUp := ledger.givenUp + 1);
        return false, true, false;
      }
    }

    method ReopenStream() returns (free: bool, tried: bool)
      requires Valid()
      modifies this`ledger, this`logFd, this`world
      ensures Valid()
      ensures Reopen(old(Value())) == if free then SyslogAsync.FreeHead(Value(), tried) else Again(Value(), tried)
    {
      logFd := Mksock();
      if logFd {
        return false, true;
      }
      ledger := ledger.(givenUp := ledger.givenUp + 1);
      return true, false;
    }

    method Reconnect(tried: bool) returns (done: bool, free: bool, tried': bool)
      requires Valid()
      modifies this`ledger, this`logFd, this`connectionGood, this`world
      ensures Valid()
      ensures SyslogAsync.Reconnect(old(Value()), tried) ==
              if done then Stop(Value()) else if free then SyslogAsync.FreeHead(Value(), tried') else Again(Value(), tried')
    {
      hide Size, Reopen, EntriesAt, ValidBut;
      var (reply, rest) := NextConnect(world);
      world := rest;
      if reply == Connected {
        return false, false, tried;
      }
      if reply == TryLater {
        connectionGood := false;
        return true, false, tried;
      }
      if !tried && reply == Prototype {
        free, tried' := ReopenStream();
        return false, free, tried';
      }
      ledger := ledger.(givenUp := ledger.givenUp + 1);
      return false, true, false;
    }

    method LogWriteAsync()
      requires Valid()
      modifies this
      ensures Valid() && Value() == Flush(old(Value()), false, reportLen)
      decreases Size(world), Rank(Value().queue), 1
    {
      hide Flush, Iterate, Released, Size, Rank, ValidBut, EntriesAt;
      ghost var start := Value();
      FlushNothingLeft(reportLen);
      var tried := false;
      Heads();
      while entries != 0
        invariant Valid() && (entries == 0 <==> Value().queue.entries == [])
        invariant AtMost(Value(), Size(start.world), Rank(start.queue))
        invariant Flush(start, false, reportLen) == Flush(Value(), tried, reportLen)
        decreases Size(world), Rank(Value().queue)
      {
        FlushTurn(Value(), tried, reportLen);
        var done, free, tried' := WriteHead(tried);
        if done {
          return;
        }
        if free {
          FreeAndReport();
        }
        tried := tried';
        Heads();
      }
    }

    /** free, with the report of entries lost. */
    method FreeAndReport()
      requires Valid() && entries != 0 && Value().queue.entries != []
      modifies this
      ensures Valid() && Value() == Released(old(Value()), reportLen)
      decreases Size(world), Rank(Value().queue), 0
    {
      hide Log, Size, ValidBut, EntriesAt;
      FreeHead();
      if entriesLost != 0 {
        var e := entriesLost;
        entriesLost := 0;  // avoids unbounded recursion
        VsyslogAsync(LOG_WARNING, true, Report(e, reportLen), true);
      }
    }

    method VsyslogAsync(level: nat, valid: bool, m: Message, mallocOk: bool)
      requires Valid()
      modifies this
      ensures Valid() && Value() == Log(old(Value()), level, valid, m, mallocOk, reportLen)
      decreases Size(world), Rank(Value().queue) + 2, 2
    {
      hide Flush, Size, ValidBut, EntriesAt;
      if level !in logMask || !valid {
        ledger := ledger.(muted := ledger.muted + m.losses);
        return;
      }
      Accept(m, mallocOk);
      LogWriteAsync();
    }

    // --- the other calls ------------------------------------------------------

    method TunelogAsync(size: int)
      requires Valid()
      modifies this`logBacklog
      ensures Valid() && Value() == Tune(old(Value()), size)
    {
      var backlog := size;
      if backlog < 1 {
        backlog := 1;
      } else if backlog > 99 {
        backlog := 99;
      }
      // existing entries are not lost
      if backlog < entriesAlloced {
        logBacklog := entriesAlloced;
      } else {
        logBacklog := backlog;
      }
    }

    method CloselogAsync()
      requires Valid()
      modifies this
      ensures Valid() && Value() == Close(old(Value()), reportLen)
    {
      hide Flush, ValidBut, EntriesAt;
      LogWriteAsync();
      logFd := false;
      logMask := ALL_LEVELS;
      if entriesAlloced < DEF_BACKLOG {
        logBacklog := entriesAlloced;
      } else {
        logBacklog := DEF_BACKLOG;
      }
    }

    method SetlogmaskAsync(mask: set<nat>) returns (was: set<nat>)
      requires Valid()
      modifies this`logMask
      ensures Valid() && Value() == Do(old(Value()), DoMask(mask), reportLen) && was == old(logMask)
    {
      was := logMask;
      if mask != {} {
        logMask := mask;
      }
    }
  }
}

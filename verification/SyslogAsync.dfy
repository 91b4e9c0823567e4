/** The asynchronous syslog queue (attic/hal/lib/syslog_async.c): a bounded queue of
    recycled entries, flushed without blocking, whose flush can log a report of
    messages lost and so flush again. The console fallback (LOG_CONS) is off. */
module SyslogAsync {
  const MAX_MESSAGE := 1024
  const DEF_BACKLOG := 5
  const LOG_WARNING := 4
  const ALL_LEVELS: set<nat> := {0, 1, 2, 3, 4, 5, 6, 7}

  /** The length of a formatted message, terminator included. */
  type Len = n: nat | 1 <= n <= 1024 witness 1

  // --- the socket as an oracle ------------------------------------------------

  /** SentAll stands for a send that takes all it is given. */
  datatype SendAnswer = SentAll | Sent(n: nat) | Eintr | Eagain | Enobufs | Epipe | Disconnected | SendError

  datatype ConnectAnswer = Connected | TryLater | Prototype | ConnectError

  /** Finitely many answers in which anything may happen: partial sends, interrupts,
      reconnects, failures. After them the socket takes everything, without end. */
  datatype World = World(sends: seq<SendAnswer>, connects: seq<ConnectAnswer>, socks: seq<bool>)

  function Size(w: World): (n: nat) {
    |w.sends| + |w.connects| + |w.socks|
  }

  function NextSend(w: World): (r: (SendAnswer, World))
    ensures Size(r.1) == Size(w) - if w.sends == [] then 0 else 1
    ensures w.sends == [] ==> r == (SentAll, w)
  {
    if w.sends == [] then (SentAll, w) else (w.sends[0], w.(sends := w.sends[1..]))
  }

  function NextConnect(w: World): (r: (ConnectAnswer, World))
    ensures Size(r.1) == Size(w) - if w.connects == [] then 0 else 1
    ensures w.connects == [] ==> r == (Connected, w)
  {
    if w.connects == [] then (Connected, w) else (w.connects[0], w.(connects := w.connects[1..]))
  }

  function NextSock(w: World): (r: (bool, World))
    ensures Size(r.1) == Size(w) - if w.socks == [] then 0 else 1
    ensures w.socks == [] ==> r == (true, w)
  {
    if w.socks == [] then (true, w) else (w.socks[0], w.(socks := w.socks[1..]))
  }

  // --- the state --------------------------------------------------------------

  /** A queue entry; `id` numbers the accepted messages. */
  datatype Entry = Entry(id: nat, offset: nat, length: nat)

  /** A successful send: `count` bytes of message `id` from `start`, leaving `left`. */
  datatype Chunk = Chunk(id: nat, start: nat, count: nat, left: nat)

  /** A message to log: its length and, for an overflow report, the losses that its text
      gives. */
  datatype Message = Message(len: Len, losses: nat)

  /** `accepted`, `givenUp` and `rejected` count messages since the start: taken in,
      dropped by the flush, and refused for want of an entry. `lengths` gives the length of
      each message taken in. `reported` and `muted` count the losses given by reports that
      were taken in and by reports that the mask held back; `wire` lists the bytes sent. */
  datatype Ledger = Ledger(accepted: nat, lengths: seq<nat>, givenUp: nat, rejected: nat, reported: nat, muted: nat,
                           wire: seq<Chunk>)

  datatype Queue = Queue(entries: seq<Entry>, freeEntries: seq<Entry>, alloced: nat, lost: nat, backlog: nat, ledger: Ledger)

  /** `fd` tells whether there is a socket, `good` is connection_good. */
  datatype State = State(queue: Queue, fd: bool, good: bool, mask: set<nat>, world: World)

  const INIT := State(Queue([], [], 0, 0, DEF_BACKLOG, Ledger(0, [], 0, 0, 0, 0, [])), false, true, ALL_LEVELS, World([], [], []))

  // --- one iteration of the flush ---------------------------------------------

  /** How an iteration ends: the flush returns, it goes round again, or the head entry
      is freed first. */
  datatype Turn = Stop(state: State) | Again(state: State, tried: bool) | FreeHead(state: State, tried: bool)

  /** The entry after a send of up to n bytes, and the bytes sent. */
  function AfterSend(e: Entry, n: nat): (r: (Entry, Chunk)) {
    var k := if n <= e.length then n else e.length;
    (Entry(e.id, e.offset + k, e.length - k), Chunk(e.id, e.offset, k, e.length - k))
  }

  function SendTo(q: Queue, n: nat): (r: Queue)
    requires q.entries != []
    ensures r.entries != []
  {
    var (e, chunk) := AfterSend(q.entries[0], n);
    q.(entries := [e] + q.entries[1..], ledger := q.ledger.(wire := q.ledger.wire + [chunk]))
  }

  function Drop(q: Queue): (r: Queue) {
    q.(ledger := q.ledger.(givenUp := q.ledger.givenUp + 1))
  }

  /** goto fail. */
  function GiveUp(s: State): (r: Turn) {
    FreeHead(s.(queue := Drop(s.queue)), false)
  }

  /** goto reopen_stream. */
  function Reopen(s: State): (r: Turn) {
    var (ok, w) := NextSock(s.world);
    var t := s.(fd := ok, world := w);
    if ok then Again(t, true) else GiveUp(t)
  }

  /** The socket went away: connect again. */
  function Reconnect(s: State, tried: bool): (turn: Turn)
    ensures turn.state.queue.entries == s.queue.entries
  {
    var (reply, w) := NextConnect(s.world);
    var t := s.(world := w);
    match reply
    case Connected => Again(t, tried)
    case TryLater => Stop(t.(good := false))
    case Prototype => if tried then GiveUp(t) else Reopen(t)
    case ConnectError => GiveUp(t)
  }

  /** What an answer to send leads to. */
  function Answered(s: State, answer: SendAnswer, tried: bool): (turn: Turn)
    requires s.queue.entries != []
    ensures turn.state.queue.entries != []
  {
    match answer
    case SentAll => FreeHead(s.(queue := SendTo(s.queue, s.queue.entries[0].length)), tried)
    case Sent(n) =>
      var q := SendTo(s.queue, n);
      if q.entries[0].length == 0 then FreeHead(s.(queue := q), tried) else Again(s.(queue := q), tried)
    case Eintr => Again(s, tried)
    case Eagain => Stop(s)
    case Enobufs => Stop(s.(good := false))
    case Epipe => Reopen(s)
    case Disconnected => Reconnect(s, tried)
    case SendError => GiveUp(s)
  }

  function Iterate(s: State, tried: bool): (turn: Turn)
    requires s.queue.entries != []
    ensures turn.state.queue.entries != []
  {
    var (ok, w) := if s.fd then (true, s.world) else NextSock(s.world);
    if !ok then GiveUp(s.(world := w))
    else
      var (answer, w2) := NextSend(w);
      Answered(s.(fd := true, good := true, world := w2), answer, tried)
  }

  /** The head entry goes to the front of the free list. */
  function Recycle(q: Queue): (r: Queue)
    requires q.entries != []
  {
    q.(entries := q.entries[1..], freeEntries := [q.entries[0]] + q.freeEntries)
  }

  // --- flush and log ----------------------------------------------------------

  /** Taking a message in, or counting it as lost. */
  function Enqueue(q: Queue, m: Message, mallocOk: bool): (r: Queue) {
    var e := Entry(q.ledger.accepted, 0, m.len);
    var counted := q.ledger.(accepted := q.ledger.accepted + 1, lengths := q.ledger.lengths + [m.len],
                             reported := q.ledger.reported + m.losses);
    if q.freeEntries != [] then
      q.(entries := q.entries + [e], freeEntries := q.freeEntries[1..], ledger := counted)
    else if q.alloced < q.backlog && mallocOk then
      q.(entries := q.entries + [e], alloced := q.alloced + 1, ledger := counted)
    else
      q.(lost := q.lost + 1, ledger := q.ledger.(rejected := q.ledger.rejected + 1))
  }

  /** The mask holds the message back. */
  function Mute(q: Queue, m: Message): (r: Queue) {
    q.(ledger := q.ledger.(muted := q.ledger.muted + m.losses))
  }

  /** The count of losses is cleared; from here on only the report knows it. */
  function HandOver(q: Queue): (r: Queue) {
    q.(lost := 0)
  }

  function Report(lost: nat, reportLen: nat -> Len): (m: Message) {
    Message(reportLen(lost), lost)
  }

  /** What a flush still has to do when every send succeeds: a queued message costs a
      send and perhaps a report in its place, a pending loss one report. */
  function Rank(q: Queue): (n: nat) {
    2 * |q.entries| + if q.lost > 0 then 1 else 0
  }

  /** Fewer answers are left, or as many and at most `rank` is to be done. */
  predicate AtMost(s: State, answers: nat, rank: int) {
    Size(s.world) < answers || (Size(s.world) == answers && Rank(s.queue) <= rank)
  }

  /** log_write_async, with `tried` as its local tried_stream. */
  function Flush(s: State, tried: bool, reportLen: nat -> Len): (r: State)
    ensures AtMost(r, Size(s.world), Rank(s.queue))
    decreases Size(s.world), Rank(s.queue), 0
  {
    if s.queue.entries == [] then s
    else
      IterateProgress(s, tried);
      match Iterate(s, tried)
      case Stop(t) => t
      case Again(t, tried') => Flush(t, tried', reportLen)
      case FreeHead(t, tried') =>
        var u := t.(queue := Recycle(t.queue));
        if u.queue.lost == 0 then Flush(u, tried', reportLen)
        else
          var v := u.(queue := HandOver(u.queue));
          Flush(Log(v, LOG_WARNING, true, Report(u.queue.lost, reportLen), true, reportLen), tried', reportLen)
  }

  /** vsyslog_async: `valid` says that the priority has no stray bits. */
  function Log(s: State, level: nat, valid: bool, m: Message, mallocOk: bool, reportLen: nat -> Len): (r: State)
    ensures AtMost(r, Size(s.world), Rank(s.queue) + 2)
    decreases Size(s.world), Rank(s.queue) + 2, 1
  {
    if level !in s.mask || !valid then s.(queue := Mute(s.queue, m))
    else Flush(s.(queue := Enqueue(s.queue, m, mallocOk)), false, reportLen)
  }

  lemma FlushNothingLeft(reportLen: nat -> Len)
    ensures forall s: State, tried: bool | s.queue.entries == [] :: Flush(s, tried, reportLen) == s
  {
  }

  /** Flush by one iteration. */
  lemma FlushStep(s: State, tried: bool, reportLen: nat -> Len)
    requires s.queue.entries != []
    ensures var turn := Iterate(s, tried);
            var u := turn.state.(queue := Recycle(turn.state.queue));
            && (turn.Stop? ==> Flush(s, tried, reportLen) == turn.state)
            && (turn.Again? ==> Flush(s, tried, reportLen) == Flush(turn.state, turn.tried, reportLen))
            && (turn.FreeHead? ==>
                  Flush(s, tried, reportLen) ==
                  Flush(if u.queue.lost == 0 then u
                        else Log(u.(queue := HandOver(u.queue)), LOG_WARNING, true, Report(u.queue.lost, reportLen), true, reportLen),
                        turn.tried, reportLen))
  {
    IterateProgress(s, tried);
    hide Iterate, Log;
  }

  /** A turn that does not end the flush uses up an answer or gets rid of the head. */
  lemma IterateProgress(s: State, tried: bool)
    requires s.queue.entries != []
    ensures var turn := Iterate(s, tried);
            && |turn.state.queue.entries| == |s.queue.entries| && turn.state.queue.lost == s.queue.lost
            && Size(turn.state.world) <= Size(s.world)
            && (turn.Again? ==> Size(turn.state.world) < Size(s.world))
  {
    hide Size, NextSend, NextSock, NextConnect;
  }

  /** free: the head entry is recycled, and losses are reported. */
  function Released(s: State, reportLen: nat -> Len): (r: State)
    requires s.queue.entries != []
    ensures AtMost(r, Size(s.world), Rank(s.queue) - 1)
  {
    var u := s.(queue := Recycle(s.queue));
    if u.queue.lost == 0 then u
    else Log(u.(queue := HandOver(u.queue)), LOG_WARNING, true, Report(u.queue.lost, reportLen), true, reportLen)
  }

  /** What the loop goes on with has less to do. */
  lemma FlushTurn(s: State, tried: bool, reportLen: nat -> Len)
    requires s.queue.entries != []
    ensures var turn := Iterate(s, tried);
            && (turn.Stop? ==> Flush(s, tried, reportLen) == turn.state)
            && (turn.Again? ==>
                  && Size(turn.state.world) < Size(s.world)
                  && Flush(s, tried, reportLen) == Flush(turn.state, turn.tried, reportLen))
            && (turn.FreeHead? ==>
                  var u := Released(turn.state, reportLen);
                  && AtMost(turn.state, Size(s.world), Rank(s.queue)) && AtMost(u, Size(s.world), Rank(s.queue) - 1)
                  && Flush(s, tried, reportLen) == Flush(u, turn.tried, reportLen))
  {
    IterateProgress(s, tried);
    FlushStep(s, tried, reportLen);
    hide Iterate, Log, Flush;
  }

  // --- conservation -----------------------------------------------------------

  /** Chunk b may come next on the wire after a: the next bytes of the same message,
      or the first bytes of a later one. */
  predicate Follows(a: Chunk, b: Chunk) {
    if a.id == b.id then b.start == a.start + a.count && a.left == b.count + b.left
    else a.id < b.id && b.start == 0
  }

  ghost predicate InOrder(wire: seq<Chunk>) {
    && (wire != [] ==> wire[0].start == 0)
    && (forall i | 0 < i < |wire| :: Follows(wire[i - 1], wire[i]))
  }

  /** The number of messages whose last byte has been sent. */
  function Done(wire: seq<Chunk>): (r: nat) {
    if wire == [] then 0 else Done(wire[..|wire| - 1]) + if wire[|wire| - 1].left == 0 then 1 else 0
  }

  /** The head of the queue, with this id and position, is where the wire stopped. */
  predicate Resumes(wire: seq<Chunk>, id: nat, offset: nat, length: nat) {
    if wire == [] then offset == 0
    else
      var last := wire[|wire| - 1];
      if last.id == id then offset == last.start + last.count && length == last.left
      else last.id < id && offset == 0
  }

  /** Queued entries are the last messages accepted, in order; only the head may have
      been sent in part. */
  ghost predicate Queued(entries: seq<Entry>, ledger: Ledger) {
    && |entries| <= ledger.accepted
    && (forall i | 0 <= i < |entries| :: entries[i].id == ledger.accepted - |entries| + i && 1 <= entries[i].length)
    && (forall i | 0 <= i < |entries| :: entries[i].offset + entries[i].length <= MAX_MESSAGE)
    && (forall i | 1 <= i < |entries| :: entries[i].offset == 0)
    && (if entries != [] then Resumes(ledger.wire, entries[0].id, entries[0].offset, entries[0].length)
        else ledger.wire != [] ==> ledger.wire[|ledger.wire| - 1].id < ledger.accepted)
  }

  /** What has been sent of a message and what is still queued of it make up its length. */
  ghost predicate Measured(entries: seq<Entry>, ledger: Ledger) {
    && |ledger.lengths| == ledger.accepted
    && (forall i | 0 <= i < |entries| :: entries[i].id < ledger.accepted &&
                                         entries[i].offset + entries[i].length == ledger.lengths[entries[i].id])
    && (forall i | 0 <= i < |ledger.wire| ::
          var c := ledger.wire[i]; c.id < ledger.accepted && c.start + c.count + c.left == ledger.lengths[c.id])
  }

  /** No entry is lost and every message is accounted for, but for `owed` losses that a
      report under way is to give. */
  ghost predicate ConservedOwing(q: Queue, owed: nat) {
    && |q.entries| + |q.freeEntries| == q.alloced <= 99 && q.backlog <= 99
    && q.ledger.accepted == Done(q.ledger.wire) + q.ledger.givenUp + |q.entries|
    && q.ledger.rejected == q.ledger.reported + q.ledger.muted + q.lost + owed
    && InOrder(q.ledger.wire)
    && Queued(q.entries, q.ledger)
    && Measured(q.entries, q.ledger)
  }

  ghost predicate Conserved(q: Queue) {
    ConservedOwing(q, 0)
  }

  lemma WireSnoc(wire: seq<Chunk>, c: Chunk)
    requires InOrder(wire) && if wire == [] then c.start == 0 else Follows(wire[|wire| - 1], c)
    ensures InOrder(wire + [c])
    ensures Done(wire + [c]) == Done(wire) + if c.left == 0 then 1 else 0
  {
    assert (wire + [c])[..|wire|] == wire;
  }

  lemma SendQueued(q: Queue, n: nat)
    requires q.entries != [] && Queued(q.entries, q.ledger)
    ensures var r := SendTo(q, n);
            if r.entries[0].length == 0 then Queued(r.entries[1..], r.ledger) else Queued(r.entries, r.ledger)
  {
    var r := SendTo(q, n);
    assert forall i | 1 <= i < |r.entries| :: r.entries[i] == q.entries[i];
    assert forall i | 0 <= i < |r.entries| - 1 :: r.entries[1..][i] == q.entries[i + 1];
  }

  lemma SendMeasured(q: Queue, n: nat)
    requires q.entries != [] && Measured(q.entries, q.ledger)
    ensures var r := SendTo(q, n); Measured(r.entries, r.ledger) && Measured(r.entries[1..], r.ledger)
  {
    var r := SendTo(q, n);
    assert q.entries[0].id < q.ledger.accepted;
    assert forall i | 1 <= i < |r.entries| :: r.entries[i] == q.entries[i];
    assert forall i | 0 <= i < |r.ledger.wire| ::
        r.ledger.wire[i] == if i < |q.ledger.wire| then q.ledger.wire[i] else AfterSend(q.entries[0], n).1;
    assert forall i | 0 <= i < |r.entries| - 1 :: r.entries[1..][i] == r.entries[i + 1];
  }

  lemma SentFollows(q: Queue, n: nat)
    requires q.entries != [] && Queued(q.entries, q.ledger)
    ensures var wire, (e, chunk) := q.ledger.wire, AfterSend(q.entries[0], n);
            && (if wire == [] then chunk.start == 0 else Follows(wire[|wire| - 1], chunk))
            && chunk.left == e.length
  {
  }

  /** A send changes only the head and the wire. */
  lemma SendCounts(q: Queue, n: nat)
    requires q.entries != [] && Queued(q.entries, q.ledger) && InOrder(q.ledger.wire)
    ensures var r := SendTo(q, n);
            && |r.entries| == |q.entries| && r == q.(entries := r.entries, ledger := q.ledger.(wire := r.ledger.wire))
            && InOrder(r.ledger.wire)
            && Done(r.ledger.wire) == Done(q.ledger.wire) + if r.entries[0].length == 0 then 1 else 0
  {
    hide Queued, InOrder, Done, Follows;
    SentFollows(q, n);
    WireSnoc(q.ledger.wire, AfterSend(q.entries[0], n).1);
  }

  lemma SendConserved(q: Queue, n: nat)
    requires q.entries != [] && Conserved(q)
    ensures var r := SendTo(q, n);
            if r.entries[0].length == 0 then Conserved(Recycle(r)) else Conserved(r)
  {
    SendQueued(q, n);
    SendMeasured(q, n);
    SendCounts(q, n);
    hide Measured, InOrder, Done, Queued, SendTo;
  }

  lemma GiveUpConserved(q: Queue)
    requires q.entries != [] && Conserved(q)
    ensures Conserved(Recycle(Drop(q)))
  {
    assert forall i | 0 <= i < |q.entries| - 1 :: q.entries[1..][i] == q.entries[i + 1];
  }

  /** The count in the answer that the next send gets, if it succeeds. */
  function SentNext(s: State): (r: nat)
    requires s.queue.entries != []
  {
    var answer := NextSend(if s.fd then s.world else NextSock(s.world).1).0;
    if answer.Sent? then answer.n else if answer.SentAll? then s.queue.entries[0].length else 0
  }

  /** What an iteration can do to the queue: nothing, send from its head, or drop it. */
  lemma IterateQueue(s: State, tried: bool)
    requires s.queue.entries != []
    ensures var turn, sent := Iterate(s, tried), SendTo(s.queue, SentNext(s));
            && turn.state.mask == s.mask
            && (turn.Stop? ==> turn.state.queue == s.queue)
            && (turn.Again? ==> turn.state.queue == s.queue || (turn.state.queue == sent && sent.entries[0].length != 0))
            && (turn.FreeHead? ==> turn.state.queue == Drop(s.queue) || (turn.state.queue == sent && sent.entries[0].length == 0))
  {
    hide NextSock, NextSend, NextConnect, Drop;
  }

  lemma IterateConserved(s: State, tried: bool)
    requires s.queue.entries != [] && Conserved(s.queue)
    ensures var turn := Iterate(s, tried);
            Conserved(if turn.FreeHead? then Recycle(turn.state.queue) else turn.state.queue)
  {
    IterateQueue(s, tried);
    SendConserved(s.queue, SentNext(s));
    GiveUpConserved(s.queue);
    hide Iterate, Recycle, Conserved, SentNext;
  }

  /** A report is never refused: it comes with a free entry. */
  lemma EnqueueConserved(q: Queue, m: Message, mallocOk: bool)
    requires ConservedOwing(q, m.losses) && (m.losses == 0 || q.freeEntries != [])
    ensures Conserved(Enqueue(q, m, mallocOk))
  {
  }

  lemma MuteConserved(q: Queue, m: Message)
    requires ConservedOwing(q, m.losses)
    ensures Conserved(Mute(q, m))
  {
  }

  /** A flush keeps everything conserved, whatever the socket does. */
  lemma {:induction false} FlushConserved(s: State, tried: bool, reportLen: nat -> Len)
    requires Conserved(s.queue)
    ensures Conserved(Flush(s, tried, reportLen).queue)
    decreases Size(s.world), Rank(s.queue), 0
  {
    if s.queue.entries != [] {
      IterateProgress(s, tried);
      IterateConserved(s, tried);
      hide Iterate, Conserved, ConservedOwing, Log;
      match Iterate(s, tried)
      case Stop(t) =>
      case Again(t, tried') => FlushConserved(t, tried', reportLen);
      case FreeHead(t, tried') =>
        var u := t.(queue := Recycle(t.queue));
        if u.queue.lost == 0 {
          FlushConserved(u, tried', reportLen);
        } else {
          var v := u.(queue := HandOver(u.queue));
          HandOverConserved(u.queue);
          LogConserved(v, LOG_WARNING, true, Report(u.queue.lost, reportLen), true, reportLen);
          FlushConserved(Log(v, LOG_WARNING, true, Report(u.queue.lost, reportLen), true, reportLen), tried', reportLen);
        }
    }
  }

  lemma HandOverConserved(q: Queue)
    requires Conserved(q)
    ensures ConservedOwing(HandOver(q), q.lost)
  {
  }

  lemma {:induction false} LogConserved(s: State, level: nat, valid: bool, m: Message, mallocOk: bool, reportLen: nat -> Len)
    requires ConservedOwing(s.queue, m.losses) && (m.losses == 0 || s.queue.freeEntries != [])
    ensures Conserved(Log(s, level, valid, m, mallocOk, reportLen).queue)
    decreases Size(s.world), Rank(s.queue) + 2, 1
  {
    EnqueueConserved(s.queue, m, mallocOk);
    MuteConserved(s.queue, m);
    if level in s.mask && valid {
      hide Conserved, Enqueue, ConservedOwing;
      FlushConserved(s.(queue := Enqueue(s.queue, m, mallocOk)), false, reportLen);
    }
  }

  // --- the recursion is one level deep ----------------------------------------

  /** A flush that never logs. */
  function PlainFlush(s: State, tried: bool): (r: State)
    decreases Size(s.world), |s.queue.entries|
  {
    if s.queue.entries == [] then s
    else
      IterateProgress(s, tried);
      match Iterate(s, tried)
      case Stop(t) => t
      case Again(t, tried') => PlainFlush(t, tried')
      case FreeHead(t, tried') => PlainFlush(t.(queue := Recycle(t.queue)), tried')
  }

  lemma IterateLost(s: State, tried: bool)
    requires s.queue.entries != []
    ensures Iterate(s, tried).state.queue.lost == s.queue.lost
  {
    IterateQueue(s, tried);
    hide Iterate;
  }

  /** With nothing lost a flush makes no report, and loses nothing. */
  lemma {:induction false} FlushWithoutLossIsPlain(s: State, tried: bool, reportLen: nat -> Len)
    requires s.queue.lost == 0
    ensures Flush(s, tried, reportLen) == PlainFlush(s, tried)
    ensures PlainFlush(s, tried).queue.lost == 0
    decreases Size(s.world), |s.queue.entries|
  {
    if s.queue.entries != [] {
      IterateProgress(s, tried);
      IterateLost(s, tried);
      hide Iterate, Log;
      match Iterate(s, tried)
      case Stop(t) =>
      case Again(t, tried') => FlushWithoutLossIsPlain(t, tried', reportLen);
      case FreeHead(t, tried') => FlushWithoutLossIsPlain(t.(queue := Recycle(t.queue)), tried', reportLen);
    }
  }

  /** A report made by a flush takes the entry just freed: it cannot be lost itself,
      and the flush that it starts is a plain one, so the recursion ends there. */
  lemma ReportIsOneLevelDeep(s: State, tried: bool, reportLen: nat -> Len, m: Message)
    requires s.queue.entries != [] && Iterate(s, tried).FreeHead?
    ensures var t := Iterate(s, tried).state;
            var v := t.(queue := HandOver(Recycle(t.queue)));
            var taken := v.(queue := Enqueue(v.queue, m, true));
            && taken.queue.lost == 0 && taken.queue.ledger.accepted == v.queue.ledger.accepted + 1
            && taken.queue.ledger.reported == v.queue.ledger.reported + m.losses
            && Log(v, LOG_WARNING, true, m, true, reportLen) ==
               (if LOG_WARNING in v.mask then PlainFlush(taken, false) else v.(queue := Mute(v.queue, m)))
            && Log(v, LOG_WARNING, true, m, true, reportLen).queue.lost == 0
  {
    hide Iterate;
    var t := Iterate(s, tried).state;
    var v := t.(queue := HandOver(Recycle(t.queue)));
    FlushWithoutLossIsPlain(v.(queue := Enqueue(v.queue, m, true)), false, reportLen);
  }

  // --- whole runs -------------------------------------------------------------

  /** The calls of a client; each one meets its own socket. */
  datatype Call =
    | DoLog(level: nat, valid: bool, len: Len, mallocOk: bool)
    | DoFlush
    | DoTune(size: int)
    | DoClose
    | DoMask(levels: set<nat>)

  function Tune(s: State, size: int): (r: State) {
    var backlog := if size < 1 then 1 else if size > 99 then 99 else size;
    s.(queue := s.queue.(backlog := if backlog < s.queue.alloced then s.queue.alloced else backlog))
  }

  function Close(s: State, reportLen: nat -> Len): (r: State) {
    var t := Flush(s, false, reportLen);
    t.(fd := false, mask := ALL_LEVELS,
       queue := t.queue.(backlog := if t.queue.alloced < DEF_BACKLOG then t.queue.alloced else DEF_BACKLOG))
  }

  function Do(s: State, c: Call, reportLen: nat -> Len): (r: State) {
    match c
    case DoLog(level, valid, len, mallocOk) => Log(s, level, valid, Message(len, 0), mallocOk, reportLen)
    case DoFlush => Flush(s, false, reportLen)
    case DoTune(size) => Tune(s, size)
    case DoClose => Close(s, reportLen)
    case DoMask(levels) => if levels != {} then s.(mask := levels) else s
  }

  function Run(s: State, calls: seq<(Call, World)>, reportLen: nat -> Len): (r: State)
    decreases |calls|
  {
    if calls == [] then s
    else Run(Do(s.(world := calls[0].1), calls[0].0, reportLen), calls[1..], reportLen)
  }

  lemma RunCons(s: State, c: Call, w: World, calls: seq<(Call, World)>, reportLen: nat -> Len)
    ensures Run(s, [(c, w)] + calls, reportLen) == Run(Do(s.(world := w), c, reportLen), calls, reportLen)
  {
    assert ([(c, w)] + calls)[1..] == calls;
  }

  /** Over any run with any socket: queued and free entries are all those allocated,
      at most 99; the wire carries messages in acceptance order with contiguous bytes;
      accepted = sent + given up + queued; and rejected = reported + muted + still counted. */
  lemma {:induction false} RunConserves(s: State, calls: seq<(Call, World)>, reportLen: nat -> Len)
    requires Conserved(s.queue)
    ensures Conserved(Run(s, calls, reportLen).queue)
    decreases |calls|
  {
    if calls != [] {
      var t := s.(world := calls[0].1);
      DoConserves(t, calls[0].0, reportLen);
      RunConserves(Do(t, calls[0].0, reportLen), calls[1..], reportLen);
    }
  }

  lemma DoConserves(s: State, c: Call, reportLen: nat -> Len)
    requires Conserved(s.queue)
    ensures Conserved(Do(s, c, reportLen).queue)
  {
    match c {
      case DoLog(level, valid, len, mallocOk) => LogConserved(s, level, valid, Message(len, 0), mallocOk, reportLen);
      case DoFlush => FlushConserved(s, false, reportLen);
      case DoTune(size) =>
      case DoClose => FlushConserved(s, false, reportLen);
      case DoMask(levels) =>
    }
  }

  /** The queue at program start is conserved, so every run's is. */
  lemma RunFromStart(calls: seq<(Call, World)>, reportLen: nat -> Len)
    ensures Conserved(Run(INIT, calls, reportLen).queue)
  {
    RunConserves(INIT, calls, reportLen);
  }

  // --- what a flush leaves alone ----------------------------------------------

  /** A flush that clears the count of losses makes one report, of the length given, which
      is taken in if and only if the mask lets warnings through; else the count is gone.
      Otherwise no message is taken in, and in any case none is rejected and no entry
      allocated. */
  ghost predicate Kept(q: Queue, r: Queue, heard: bool, reportLen: nat -> Len) {
    && r.alloced == q.alloced && r.backlog == q.backlog && r.ledger.rejected == q.ledger.rejected
    && (r.lost == 0 || r.lost == q.lost)
    && r.ledger.accepted == q.ledger.accepted + (if r.lost != q.lost && heard then 1 else 0)
    && r.ledger.lengths == q.ledger.lengths + (if r.lost != q.lost && heard then [reportLen(q.lost)] else [])
    && r.ledger.reported == q.ledger.reported + (if r.lost != q.lost && heard then q.lost else 0)
    && r.ledger.muted == q.ledger.muted + (if r.lost != q.lost && !heard then q.lost else 0)
  }

  /** Apart from entries and bytes sent, nothing that is counted differs. */
  predicate Alike(q: Queue, r: Queue) {
    && r.alloced == q.alloced && r.backlog == q.backlog && r.lost == q.lost
    && r.ledger.accepted == q.ledger.accepted && r.ledger.rejected == q.ledger.rejected
    && r.ledger.lengths == q.ledger.lengths
    && r.ledger.reported == q.ledger.reported && r.ledger.muted == q.ledger.muted
  }

  lemma IterateAlike(s: State, tried: bool)
    requires s.queue.entries != []
    ensures var turn := Iterate(s, tried);
            && Alike(s.queue, turn.state.queue) && Alike(s.queue, Recycle(turn.state.queue))
            && turn.state.mask == s.mask
  {
    IterateQueue(s, tried);
    hide Iterate;
  }

  lemma KeptOn(q: Queue, r: Queue, t: Queue, heard: bool, reportLen: nat -> Len)
    requires Kept(r, t, heard, reportLen)
    ensures Alike(q, r) ==> Kept(q, t, heard, reportLen)
    ensures Kept(q, r, heard, reportLen) && r.lost == 0 ==> Kept(q, t, heard, reportLen) && t.lost == 0
  {
  }

  /** What a report does to the counts: it takes the entry just freed, or is muted. */
  lemma ReportKept(q: Queue, r: Queue, reportLen: nat -> Len)
    requires q.lost > 0 && q.freeEntries != []
    ensures var report := Report(q.lost, reportLen);
            && (Kept(Enqueue(HandOver(q), report, true), r, true, reportLen) ==> Kept(q, r, true, reportLen) && r.lost == 0)
            && Kept(q, Mute(HandOver(q), report), false, reportLen)
  {
  }

  lemma {:induction false} FlushKeeps(s: State, tried: bool, reportLen: nat -> Len)
    ensures Kept(s.queue, Flush(s, tried, reportLen).queue, LOG_WARNING in s.mask, reportLen)
    ensures Flush(s, tried, reportLen).mask == s.mask
    decreases Size(s.world), Rank(s.queue), 0
  {
    if s.queue.entries != [] {
      FlushTurn(s, tried, reportLen);
      IterateAlike(s, tried);
      var turn, r, heard := Iterate(s, tried), Flush(s, tried, reportLen).queue, LOG_WARNING in s.mask;
      hide Flush, Iterate, Kept, Alike, Released, Size, Rank, Recycle;
      if turn.Stop? {
        AlikeIsKept(s.queue, r, heard, reportLen);
      } else if turn.Again? {
        FlushKeeps(turn.state, turn.tried, reportLen);
        KeptOn(s.queue, turn.state.queue, r, heard, reportLen);
      } else {
        var u := Released(turn.state, reportLen);
        ReleasedKeeps(turn.state, reportLen);
        FlushKeeps(u, turn.tried, reportLen);
        KeptOn(Recycle(turn.state.queue), u.queue, r, heard, reportLen);
        KeptOn(s.queue, Recycle(turn.state.queue), r, heard, reportLen);
      }
    } else {
      FlushNothingLeft(reportLen);
      AlikeIsKept(s.queue, s.queue, LOG_WARNING in s.mask, reportLen);
    }
  }

  lemma AlikeIsKept(q: Queue, r: Queue, heard: bool, reportLen: nat -> Len)
    ensures Alike(q, r) ==> Kept(q, r, heard, reportLen)
  {
  }

  lemma {:induction false} ReleasedKeeps(s: State, reportLen: nat -> Len)
    requires s.queue.entries != []
    ensures var r := Released(s, reportLen);
            && Kept(Recycle(s.queue), r.queue, LOG_WARNING in s.mask, reportLen) && r.queue.lost == 0 && r.mask == s.mask
    decreases Size(s.world), Rank(s.queue) - 1, 1
  {
    var u := s.(queue := Recycle(s.queue));
    if u.queue.lost > 0 {
      var v, report := u.(queue := HandOver(u.queue)), Report(u.queue.lost, reportLen);
      if LOG_WARNING in s.mask {
        hide Flush;
        var w := v.(queue := Enqueue(v.queue, report, true));
        FlushKeeps(w, false, reportLen);
        ReportKept(u.queue, Flush(w, false, reportLen).queue, reportLen);
      } else {
        ReportKept(u.queue, Mute(v.queue, report), reportLen);
      }
    }
  }

  /** A whole call, flush and report included: a message that passes the mask is rejected
      if and only if all entries are queued and none may be allocated, and accepted
      otherwise; besides it a report is accepted exactly when the losses are cleared and
      warnings pass the mask. */
  lemma LogRejectsIffFull(s: State, level: nat, valid: bool, len: Len, mallocOk: bool, reportLen: nat -> Len)
    requires Conserved(s.queue)
    ensures var passes := level in s.mask && valid;
            var full := |s.queue.entries| == s.queue.alloced && (s.queue.alloced >= s.queue.backlog || !mallocOk);
            var q, r := s.queue, Log(s, level, valid, Message(len, 0), mallocOk, reportLen).queue;
            var lost := q.lost + if passes && full then 1 else 0;
            && r.ledger.rejected == q.ledger.rejected + (if passes && full then 1 else 0)
            && r.ledger.accepted == q.ledger.accepted + (if passes && !full then 1 else 0) +
                                    (if r.lost != lost && LOG_WARNING in s.mask then 1 else 0)
            && r.ledger.lengths == q.ledger.lengths + (if passes && !full then [len] else []) +
                                   (if r.lost != lost && LOG_WARNING in s.mask then [reportLen(lost)] else [])
            && (!passes ==> Log(s, level, valid, Message(len, 0), mallocOk, reportLen) == s)
  {
    if level in s.mask && valid {
      EnqueueCounts(s.queue, len, mallocOk);
      hide Enqueue, Conserved, Flush;
      FlushKeeps(s.(queue := Enqueue(s.queue, Message(len, 0), mallocOk)), false, reportLen);
    }
  }

  lemma EnqueueCounts(q: Queue, len: Len, mallocOk: bool)
    requires |q.entries| + |q.freeEntries| == q.alloced
    ensures var full := |q.entries| == q.alloced && (q.alloced >= q.backlog || !mallocOk);
            var r := Enqueue(q, Message(len, 0), mallocOk);
            && r.lost == q.lost + (if full then 1 else 0)
            && r.ledger.rejected == q.ledger.rejected + (if full then 1 else 0)
            && r.ledger.accepted == q.ledger.accepted + (if full then 0 else 1)
            && r.ledger.lengths == q.ledger.lengths + if full then [] else [len]
  {
  }

  // --- a socket that never blocks ---------------------------------------------

  /** No answer asks to come back later. */
  predicate NeverBlocks(w: World) {
    && (forall i | 0 <= i < |w.sends| :: !w.sends[i].Eagain? && !w.sends[i].Enobufs?)
    && (forall i | 0 <= i < |w.connects| :: !w.connects[i].TryLater?)
  }

  lemma NextNeverBlocks(w: World)
    requires NeverBlocks(w)
    ensures !NextSend(w).0.Eagain? && !NextSend(w).0.Enobufs? && NeverBlocks(NextSend(w).1)
    ensures !NextConnect(w).0.TryLater? && NeverBlocks(NextConnect(w).1)
    ensures NeverBlocks(NextSock(w).1)
  {
  }

  /** The answers an iteration may draw, one after the other. */
  lemma IterateWorld(s: State, tried: bool)
    requires s.queue.entries != []
    ensures var turn, w := Iterate(s, tried), if s.fd then s.world else NextSock(s.world).1;
            var sent, reply := NextSend(w), NextConnect(NextSend(w).1);
            && turn.state.world in {w, sent.1, NextSock(sent.1).1, reply.1, NextSock(reply.1).1}
            && (turn.Stop? ==> sent.0.Eagain? || sent.0.Enobufs? || reply.0.TryLater?)
  {
    hide Size, SendTo, Drop, NextSend, NextConnect, NextSock;
  }

  lemma IterateNeverStops(s: State, tried: bool)
    requires s.queue.entries != [] && NeverBlocks(s.world)
    ensures !Iterate(s, tried).Stop? && NeverBlocks(Iterate(s, tried).state.world)
  {
    hide Iterate, NeverBlocks, NextSend, NextConnect, NextSock;
    IterateWorld(s, tried);
    var w := if s.fd then s.world else NextSock(s.world).1;
    NextNeverBlocks(s.world);
    NextNeverBlocks(w);
    NextNeverBlocks(NextSend(w).1);
    NextNeverBlocks(NextConnect(NextSend(w).1).1);
  }

  /** Then a flush, whatever partial sends, reconnects and failures it meets, ends with
      an empty queue, and with no loss still counted if there was anything to send. */
  lemma {:induction false} FlushDrains(s: State, tried: bool, reportLen: nat -> Len)
    requires NeverBlocks(s.world)
    ensures var r := Flush(s, tried, reportLen);
            && r.queue.entries == [] && NeverBlocks(r.world)
            && r.queue.lost == if s.queue.entries == [] then s.queue.lost else 0
    decreases Size(s.world), Rank(s.queue), 0
  {
    if s.queue.entries != [] {
      FlushTurn(s, tried, reportLen);
      IterateAlike(s, tried);
      IterateNeverStops(s, tried);
      var turn := Iterate(s, tried);
      hide Flush, Iterate, NeverBlocks, Released, Size, Rank;
      if turn.Again? {
        FlushDrains(turn.state, turn.tried, reportLen);
      } else {
        ReleasedDrains(turn.state, reportLen);
        FlushDrains(Released(turn.state, reportLen), turn.tried, reportLen);
      }
    } else {
      FlushNothingLeft(reportLen);
    }
  }

  lemma {:induction false} ReleasedDrains(s: State, reportLen: nat -> Len)
    requires s.queue.entries != [] && NeverBlocks(s.world)
    ensures NeverBlocks(Released(s, reportLen).world) && Released(s, reportLen).queue.lost == 0
    decreases Size(s.world), Rank(s.queue) - 1, 1
  {
    hide Flush, NeverBlocks;
    var u := s.(queue := Recycle(s.queue));
    if u.queue.lost > 0 && LOG_WARNING in s.mask {
      FlushDrains(u.(queue := Enqueue(HandOver(u.queue), Report(u.queue.lost, reportLen), true)), false, reportLen);
    }
  }

  // --- a socket that never fails ----------------------------------------------

  /** How one turn ends, answer by answer: the flush stops exactly when the socket asks
      to come back later, the head is given up exactly when there is no socket to send
      it to or an error that reconnecting does not mend, and what a send reports to have
      taken is what counts as sent. */
  lemma TurnOutcome(s: State, tried: bool)
    requires s.queue.entries != []
    ensures var q, head, turn := s.queue, s.queue.entries[0], Iterate(s, tried);
            var open, w := s.fd || NextSock(s.world).0, if s.fd then s.world else NextSock(s.world).1;
            var sent, reply := NextSend(w), NextConnect(NextSend(w).1);
            var unmended := sent.0.Disconnected? && (reply.0.ConnectError? || (reply.0.Prototype? && tried));
            var reopens := sent.0.Epipe? || (sent.0.Disconnected? && reply.0.Prototype? && !tried);
            var socket := NextSock(if sent.0.Epipe? then sent.1 else reply.1).0;
            var fails := !open || sent.0.SendError? || unmended || (reopens && !socket);
            var ledger := turn.state.queue.ledger;
            && (turn.Stop? <==> open && (sent.0.Eagain? || sent.0.Enobufs? || (sent.0.Disconnected? && reply.0.TryLater?)))
            && ledger.givenUp == q.ledger.givenUp + (if fails then 1 else 0)
            && ledger.wire == q.ledger.wire +
                 (if open && sent.0.SentAll? then [Chunk(head.id, head.offset, head.length, 0)]
                  else if open && sent.0.Sent? then
                    [Chunk(head.id, head.offset, if sent.0.n < head.length then sent.0.n else head.length,
                           if sent.0.n < head.length then head.length - sent.0.n else 0)]
                  else [])
            && (turn.FreeHead? <==> fails || (open && sent.0.SentAll?) || (open && sent.0.Sent? && sent.0.n >= head.length))
            && (turn.Again? && reopens ==> turn.tried)
            && (turn.FreeHead? && fails ==> !turn.tried)
            && turn.state.fd == (open && (reopens ==> socket))
            && turn.state.good == if !open then s.good else !turn.Stop? || sent.0.Eagain?
  {
    hide NextSend, NextSock, NextConnect;
  }

  /** No answer blocks, no send fails for good, and lost connections can be mended. */
  predicate NeverFails(w: World) {
    && (forall i | 0 <= i < |w.sends| :: !w.sends[i].Eagain? && !w.sends[i].Enobufs? && !w.sends[i].SendError?)
    && (forall i | 0 <= i < |w.connects| :: w.connects[i].Connected?)
    && (forall i | 0 <= i < |w.socks| :: w.socks[i])
  }

  lemma NextNeverFails(w: World)
    requires NeverFails(w)
    ensures !NextSend(w).0.Eagain? && !NextSend(w).0.Enobufs? && !NextSend(w).0.SendError? && NeverFails(NextSend(w).1)
    ensures NextConnect(w).0.Connected? && NeverFails(NextConnect(w).1)
    ensures NextSock(w).0 && NeverFails(NextSock(w).1)
  {
  }

  lemma IterateNeverFails(s: State, tried: bool)
    requires s.queue.entries != [] && NeverFails(s.world)
    ensures var turn := Iterate(s, tried);
            !turn.Stop? && NeverFails(turn.state.world) && turn.state.queue.ledger.givenUp == s.queue.ledger.givenUp
  {
    hide Iterate, NeverFails, NextSend, NextConnect, NextSock;
    IterateWorld(s, tried);
    TurnOutcome(s, tried);
    var w := if s.fd then s.world else NextSock(s.world).1;
    NextNeverFails(s.world);
    NextNeverFails(w);
    NextNeverFails(NextSend(w).1);
    NextNeverFails(NextConnect(NextSend(w).1).1);
  }

  /** Then a flush gives up no message, its own report included. */
  lemma {:induction false} FlushGivesUpNone(s: State, tried: bool, reportLen: nat -> Len)
    requires NeverFails(s.world)
    ensures var r := Flush(s, tried, reportLen);
            NeverFails(r.world) && r.queue.entries == [] && r.queue.ledger.givenUp == s.queue.ledger.givenUp
    decreases Size(s.world), Rank(s.queue), 0
  {
    if s.queue.entries != [] {
      FlushTurn(s, tried, reportLen);
      IterateNeverFails(s, tried);
      var turn := Iterate(s, tried);
      hide Flush, Iterate, NeverFails, Released, Size, Rank;
      if turn.Again? {
        FlushGivesUpNone(turn.state, turn.tried, reportLen);
      } else {
        ReleasedGivesUpNone(turn.state, reportLen);
        FlushGivesUpNone(Released(turn.state, reportLen), turn.tried, reportLen);
      }
    } else {
      FlushNothingLeft(reportLen);
    }
  }

  lemma {:induction false} ReleasedGivesUpNone(s: State, reportLen: nat -> Len)
    requires s.queue.entries != [] && NeverFails(s.world)
    ensures var r := Released(s, reportLen);
            NeverFails(r.world) && r.queue.ledger.givenUp == s.queue.ledger.givenUp
    decreases Size(s.world), Rank(s.queue) - 1, 1
  {
    hide Flush, NeverFails;
    var u := s.(queue := Recycle(s.queue));
    if u.queue.lost > 0 && LOG_WARNING in s.mask {
      FlushGivesUpNone(u.(queue := Enqueue(HandOver(u.queue), Report(u.queue.lost, reportLen), true)), false, reportLen);
    }
  }

  /** After any run from the start, a flush that meets a socket that never fails leaves
      every message ever taken in sent whole, but for those given up before. */
  lemma FlushDelivers(calls: seq<(Call, World)>, w: World, reportLen: nat -> Len)
    requires NeverFails(w)
    ensures var q, r := Run(INIT, calls, reportLen).queue, Run(INIT, calls + [(DoFlush, w)], reportLen).queue;
            && r.entries == [] && Done(r.ledger.wire) == r.ledger.accepted - q.ledger.givenUp
            && InOrder(r.ledger.wire) && Measured([], r.ledger)
  {
    var s := Run(INIT, calls, reportLen);
    FlushGivesUpNone(s.(world := w), false, reportLen);
    hide Run, Flush, Measured, InOrder, Done;
    assert [(DoFlush, w)] == [(DoFlush, w)] + [];
    RunAppend(INIT, calls, [(DoFlush, w)], reportLen);
    RunCons(s, DoFlush, w, [], reportLen);
    RunNothing(Flush(s.(world := w), false, reportLen), reportLen);
    RunFromStart(calls + [(DoFlush, w)], reportLen);
  }

  // --- tuning, closing, masking -----------------------------------------------

  /** tunelog_async sets the size asked for, brought into 1 to 99, unless more entries
      are allocated already; nothing else changes. */
  lemma TuneSets(s: State, size: int)
    requires s.queue.alloced <= 99
    ensures var r := Tune(s, size);
            && s.queue.alloced <= r.queue.backlog && 1 <= r.queue.backlog <= 99
            && r == s.(queue := s.queue.(backlog := r.queue.backlog))
            && (s.queue.alloced <= size <= 99 && size >= 1 ==> r.queue.backlog == size)
            && (size > 99 ==> r.queue.backlog == 99)
            && (size <= s.queue.alloced || size < 1 ==> r.queue.backlog == s.queue.alloced || r.queue.backlog == 1)
  {
  }

  /** closelog_async flushes, gives up its socket, lets all eight levels through, and
      lowers the backlog to five, or to the entries allocated if these are fewer: so to
      zero exactly when there are none. */
  lemma CloseRestores(s: State, reportLen: nat -> Len)
    ensures var t, r := Flush(s, false, reportLen), Close(s, reportLen);
            && !r.fd && r.mask == {0, 1, 2, 3, 4, 5, 6, 7} && r.good == t.good
            && r.queue == t.queue.(backlog := r.queue.backlog)
            && r.queue.backlog <= 5 && r.queue.backlog <= r.queue.alloced
            && (r.queue.backlog == 5 || r.queue.backlog == r.queue.alloced)
            && r.queue.alloced == s.queue.alloced
            && (r.queue.backlog == 0 <==> s.queue.alloced == 0)
  {
    FlushKeeps(s, false, reportLen);
  }

  /** setlogmask_async with an empty mask changes nothing. */
  predicate SetsMask(c: Call) {
    c.DoClose? || (c.DoMask? && c.levels != {})
  }

  lemma DoMasks(s: State, c: Call, reportLen: nat -> Len)
    ensures Do(s, c, reportLen).mask ==
            if c.DoClose? then {0, 1, 2, 3, 4, 5, 6, 7} else if SetsMask(c) then c.levels else s.mask
  {
    hide Flush;
    match c {
      case DoLog(level, valid, len, mallocOk) =>
        FlushKeeps(s.(queue := Enqueue(s.queue, Message(len, 0), mallocOk)), false, reportLen);
      case DoFlush => FlushKeeps(s, false, reportLen);
      case DoTune(size) =>
      case DoClose =>
      case DoMask(levels) =>
    }
  }

  lemma {:induction false} MaskStays(s: State, calls: seq<(Call, World)>, reportLen: nat -> Len)
    requires forall i | 0 <= i < |calls| :: !SetsMask(calls[i].0)
    ensures Run(s, calls, reportLen).mask == s.mask
    decreases |calls|
  {
    if calls != [] {
      hide Do;
      DoMasks(s.(world := calls[0].1), calls[0].0, reportLen);
      MaskStays(Do(s.(world := calls[0].1), calls[0].0, reportLen), calls[1..], reportLen);
    }
  }

  /** Over any run the mask is the one that the last call to set it chose. */
  lemma {:induction false} MaskIsLastSet(s: State, calls: seq<(Call, World)>, k: nat, reportLen: nat -> Len)
    requires k < |calls| && SetsMask(calls[k].0)
    requires forall i | k < i < |calls| :: !SetsMask(calls[i].0)
    ensures Run(s, calls, reportLen).mask ==
            if calls[k].0.DoClose? then {0, 1, 2, 3, 4, 5, 6, 7} else calls[k].0.levels
    decreases |calls|
  {
    hide Do;
    var t := Do(s.(world := calls[0].1), calls[0].0, reportLen);
    assert forall i | 0 <= i < |calls[1..]| :: calls[1..][i] == calls[i + 1];
    if k > 0 {
      MaskIsLastSet(t, calls[1..], k - 1, reportLen);
    } else {
      DoMasks(s.(world := calls[0].1), calls[0].0, reportLen);
      MaskStays(t, calls[1..], reportLen);
    }
  }

  // --- a logger that has gone deaf --------------------------------------------

  /** An entry exists or may be allocated. */
  predicate CanHear(q: Queue) {
    q.alloced > 0 || q.backlog > 0
  }

  predicate NoTune(calls: seq<(Call, World)>) {
    forall i | 0 <= i < |calls| :: !calls[i].0.DoTune?
  }

  lemma FlushOfNothing(s: State, reportLen: nat -> Len)
    requires s.queue.entries == []
    ensures Flush(s, false, reportLen) == s
  {
  }

  /** Neither entries nor backlog, and the same messages as in q. */
  ghost predicate StillDeaf(q: Queue, r: Queue) {
    && r.entries == [] && r.freeEntries == [] && !CanHear(r)
    && r.ledger.accepted == q.ledger.accepted && r.ledger.reported == q.ledger.reported
    && r.ledger.muted == q.ledger.muted && r.ledger.wire == q.ledger.wire
  }

  lemma DeafStep(s: State, c: Call, reportLen: nat -> Len)
    requires StillDeaf(s.queue, s.queue) && !c.DoTune?
    ensures StillDeaf(s.queue, Do(s, c, reportLen).queue)
  {
    match c {
      case DoLog(level, valid, len, mallocOk) =>
        FlushOfNothing(s.(queue := Enqueue(s.queue, Message(len, 0), mallocOk)), reportLen);
      case DoFlush => FlushOfNothing(s, reportLen);
      case DoClose => FlushOfNothing(s, reportLen);
      case DoMask(levels) =>
    }
  }

  /** Without entries and backlog nothing is taken in, sent or reported any more, whatever
      is called except tunelog_async. */
  lemma {:induction false} DeafUntilTuned(s: State, calls: seq<(Call, World)>, reportLen: nat -> Len)
    requires Conserved(s.queue) && !CanHear(s.queue) && NoTune(calls)
    ensures StillDeaf(s.queue, Run(s, calls, reportLen).queue)
    decreases |calls|
  {
    assert s.queue.entries == [] && s.queue.freeEntries == [];
    if calls != [] {
      var t := s.(world := calls[0].1);
      DeafStep(t, calls[0].0, reportLen);
      DoConserves(t, calls[0].0, reportLen);
      hide Do, Conserved, CanHear;
      DeafUntilTuned(Do(t, calls[0].0, reportLen), calls[1..], reportLen);
    }
  }

  lemma HeardWhenIdle(s: State, len: Len, reportLen: nat -> Len)
    requires Conserved(s.queue) && CanHear(s.queue) && s.queue.entries == [] && LOG_WARNING in s.mask
    ensures Log(s, LOG_WARNING, true, Message(len, 0), true, reportLen).queue.ledger.accepted > s.queue.ledger.accepted
  {
    LogRejectsIffFull(s, LOG_WARNING, true, len, true, reportLen);
  }

  lemma ReadyAfterFlush(s: State, reportLen: nat -> Len)
    requires Conserved(s.queue) && CanHear(s.queue) && NeverBlocks(s.world)
    ensures var q := Flush(s, false, reportLen).queue;
            Conserved(q) && CanHear(q) && q.entries == [] && q.ledger.accepted >= s.queue.ledger.accepted
  {
    FlushDrains(s, false, reportLen);
    FlushKeeps(s, false, reportLen);
    FlushConserved(s, false, reportLen);
  }

  lemma HeardWhenUnmasked(s: State, w: World, len: Len, reportLen: nat -> Len)
    requires Conserved(s.queue) && CanHear(s.queue) && s.queue.entries == []
    ensures Run(s, [(DoMask(ALL_LEVELS), w)] + ([(DoLog(LOG_WARNING, true, len, true), w)] + []), reportLen)
              .queue.ledger.accepted > s.queue.ledger.accepted
  {
    var v := s.(world := w, mask := ALL_LEVELS);
    HeardWhenIdle(v, len, reportLen);
    hide Flush, Log, Conserved;
    RunCons(s, DoMask(ALL_LEVELS), w, [(DoLog(LOG_WARNING, true, len, true), w)] + [], reportLen);
    RunCons(v, DoLog(LOG_WARNING, true, len, true), w, [], reportLen);
  }

  /** With an entry or a backlog: flush, let everything through and log. */
  lemma HeardAfterFlush(s: State, len: Len, reportLen: nat -> Len) returns (calls: seq<(Call, World)>)
    requires Conserved(s.queue) && CanHear(s.queue)
    ensures NoTune(calls) && Run(s, calls, reportLen).queue.ledger.accepted > s.queue.ledger.accepted
  {
    var w := World([], [], []);
    var last := [(DoMask(ALL_LEVELS), w)] + ([(DoLog(LOG_WARNING, true, len, true), w)] + []);
    calls := [(DoFlush, w)] + last;
    var t := s.(world := w);
    ReadyAfterFlush(t, reportLen);
    hide Flush, Conserved, CanHear, Run;
    HeardWhenUnmasked(Flush(t, false, reportLen), w, len, reportLen);
    RunCons(s, DoFlush, w, last, reportLen);
  }

  /** Some run without tunelog_async takes in another message if and only if there is an
      entry or a backlog. */
  lemma HearsIff(s: State, reportLen: nat -> Len)
    requires Conserved(s.queue)
    ensures CanHear(s.queue) <==>
            exists calls :: NoTune(calls) && Run(s, calls, reportLen).queue.ledger.accepted > s.queue.ledger.accepted
  {
    if CanHear(s.queue) {
      var calls := HeardAfterFlush(s, 1, reportLen);
    } else {
      forall calls | NoTune(calls)
        ensures Run(s, calls, reportLen).queue.ledger.accepted == s.queue.ledger.accepted
      {
        DeafUntilTuned(s, calls, reportLen);
      }
    }
  }

  /** Closing while nothing is allocated makes the logger deaf. */
  lemma CloseThenDeaf(s: State, w: World, calls: seq<(Call, World)>, reportLen: nat -> Len)
    requires Conserved(s.queue) && s.queue.alloced == 0 && NoTune(calls)
    ensures Run(s, [(DoClose, w)] + calls, reportLen).queue.ledger.accepted == s.queue.ledger.accepted
  {
    var t := s.(world := w);
    FlushOfNothing(t, reportLen);
    DoConserves(t, DoClose, reportLen);
    CloseRestores(t, reportLen);
    RunCons(s, DoClose, w, calls, reportLen);
    hide Conserved, Run, Flush;
    DeafUntilTuned(Close(t, reportLen), calls, reportLen);
  }

  /** A program that closes its log before the first message never logs anything. */
  lemma ClosedBeforeFirstMessage(w: World, calls: seq<(Call, World)>, reportLen: nat -> Len)
    requires NoTune(calls)
    ensures Run(INIT, [(DoClose, w)] + calls, reportLen).queue.ledger.accepted == 0
  {
    hide Run;
    CloseThenDeaf(INIT, w, calls, reportLen);
  }

  // --- losses that are never reported -----------------------------------------

  /** Draining a queue with losses: they are reported if and only if warnings pass the
      mask, and forgotten otherwise. */
  lemma DrainReportsIffHeard(s: State, reportLen: nat -> Len)
    requires s.queue.entries != [] && s.queue.lost > 0 && NeverBlocks(s.world)
    ensures var q, r := s.queue, Flush(s, false, reportLen).queue;
            && r.entries == [] && r.lost == 0
            && if 4 in s.mask
               then r.ledger.accepted == q.ledger.accepted + 1 && r.ledger.reported == q.ledger.reported + q.lost
               else r.ledger.accepted == q.ledger.accepted && r.ledger.reported == q.ledger.reported &&
                    r.ledger.muted == q.ledger.muted + q.lost
  {
    FlushDrains(s, false, reportLen);
    FlushKeeps(s, false, reportLen);
  }

  const BLOCKED := World([Eagain], [], [])

  /** Logging to a blocked socket only queues the message or counts it. */
  lemma LogBlocked(s: State, level: nat, len: Len, reportLen: nat -> Len)
    requires level in s.mask && s.world == BLOCKED
    ensures var r := Log(s, level, true, Message(len, 0), true, reportLen);
            r.queue == Enqueue(s.queue, Message(len, 0), true) && r.mask == s.mask
  {
    var t := s.(queue := Enqueue(s.queue, Message(len, 0), true));
    if t.queue.entries != [] {
      FlushStep(t, false, reportLen);
      assert Iterate(t, false).Stop? && Iterate(t, false).state.queue == t.queue;
    } else {
      FlushOfNothing(t, reportLen);
    }
  }

  /** One entry, two messages and a blocked socket: the second message is lost. */
  lemma SecondIsLost(s: State, level: nat, len: Len, reportLen: nat -> Len)
    requires level in s.mask && s.queue.entries == [] && s.queue.freeEntries == []
    requires s.queue.alloced == 0 && s.queue.backlog == 1 && s.queue.lost == 0
    ensures var call := (DoLog(level, true, len, true), BLOCKED);
            var r := Run(s, [call] + ([call] + []), reportLen);
            && r.queue.entries != [] && r.queue.lost == 1 && r.mask == s.mask
            && r.queue.ledger.rejected == s.queue.ledger.rejected + 1
            && r.queue.ledger.reported == s.queue.ledger.reported
            && r.queue.ledger.accepted == s.queue.ledger.accepted + 1
  {
    var c := DoLog(level, true, len, true);
    var t := s.(world := BLOCKED);
    LogBlocked(t, level, len, reportLen);
    var u := Log(t, level, true, Message(len, 0), true, reportLen).(world := BLOCKED);
    LogBlocked(u, level, len, reportLen);
    hide Flush, Log;
    RunCons(s, c, BLOCKED, [(c, BLOCKED)] + [], reportLen);
    RunCons(Do(t, c, reportLen), c, BLOCKED, [], reportLen);
  }

  lemma {:induction false} RunAppend(s: State, a: seq<(Call, World)>, b: seq<(Call, World)>, reportLen: nat -> Len)
    ensures Run(s, a + b, reportLen) == Run(Run(s, a, reportLen), b, reportLen)
    decreases |a|
  {
    if a == [] {
      assert a + b == b;
    } else {
      assert (a + b)[1..] == a[1..] + b;
      RunAppend(Do(s.(world := a[0].1), a[0].0, reportLen), a[1..], b, reportLen);
    }
  }

  /** From the start, with warnings masked: a message is lost and no report of it is ever
      queued, though the count of losses is back to zero. */
  lemma LossesVanish(level: nat, len: Len, reportLen: nat -> Len) returns (calls: seq<(Call, World)>)
    requires level != LOG_WARNING
    ensures var r := Run(INIT, calls, reportLen).queue;
            && r.ledger.rejected == 1 && r.lost == 0 && r.entries == []
            && r.ledger.reported == 0 && r.ledger.accepted == 1
  {
    var w := World([], [], []);
    var call := (DoLog(level, true, len, true), BLOCKED);
    var setup, logs, flush := [(DoMask({level}), w)] + ([(DoTune(1), w)] + []), [call] + ([call] + []), [(DoFlush, w)] + [];
    calls := setup + (logs + flush);
    RunAppend(INIT, setup, logs + flush, reportLen);
    var s := Run(INIT, setup, reportLen);
    assert s == Tune(INIT.(world := w, mask := {level}), 1) by {
      RunCons(INIT, DoMask({level}), w, [(DoTune(1), w)] + [], reportLen);
      RunCons(INIT.(world := w, mask := {level}), DoTune(1), w, [], reportLen);
    }
    RunAppend(s, logs, flush, reportLen);
    SecondIsLost(s, level, len, reportLen);
    var t := Run(s, logs, reportLen);
    hide Run, Flush;
    RunCons(t, DoFlush, w, [], reportLen);
    DrainReportsIffHeard(t.(world := w), reportLen);
    RunNothing(Flush(t.(world := w), false, reportLen), reportLen);
    FlushKeeps(t.(world := w), false, reportLen);
  }

  lemma RunNothing(s: State, reportLen: nat -> Len)
    ensures Run(s, [], reportLen) == s
  {
  }
}

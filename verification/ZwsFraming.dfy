/** ZWS framing (webtalk_zws_policy.cc): a multipart zeroMQ message travels over a
    websocket as one frame per part, each with a one-character more/final flag in
    front, and is put together again by a relay that keeps a partial message. */
module ZwsFraming {
  import opened Wrappers

  type Frame = seq<bv8>
  type Message = seq<Frame>
  // With its flag character in front; see README.md for empty websocket frames.
  type WireFrame = f: Frame | |f| >= 1 witness [0x30]

  const MAX_ZWS_FRAMES: nat := 1000
  const FINAL: bv8 := 0x30  // '0'
  const MORE: bv8 := 0x31   // '1'

  // --- to the websocket -------------------------------------------------------

  /** The frames that carry message m: all but the last are flagged MORE. */
  function Fragment(m: Message): (frames: seq<WireFrame>)
    ensures |frames| == |m|
  {
    seq(|m|, i requires 0 <= i < |m| => [if i < |m| - 1 then MORE else FINAL] + m[i])
  }

  /** The ZWS_TO_WS branch: pop the parts one by one, counting down those left. */
  method ToWebsocket(message: Message) returns (out: seq<WireFrame>)
    ensures out == Fragment(message)
  {
    var m := message;
    var nf := |m|;
    out := [];
    while m != []
      invariant nf == |m| <= |message| && m == message[|message| - nf..]
      invariant out == Fragment(message)[..|message| - nf]
    {
      var f := m[0];
      m := m[1..];
      nf := nf - 1;
      out := out + [[if nf > 0 then MORE else FINAL] + f];
    }
  }

  // --- from the websocket -----------------------------------------------------

  /** What a relay session holds: the message under construction (null between
      messages) and the messages handed to the zeroMQ socket so far. */
  datatype Session = Session(partial: Option<Message>, sent: seq<Message>)

  const FRESH := Session(None, [])

  datatype Verdict = Accepted(session: Session) | Refused(session: Session)

  /** What one incoming frame does to a session. */
  function Receive(s: Session, buffer: WireFrame): (r: Verdict)
  {
    var body := buffer[1..];
    if buffer[0] == FINAL then
      match s.partial
      case None => Accepted(s.(sent := s.sent + [[body]]))
      case Some(p) => Accepted(Session(None, s.sent + [p + [body]]))
    else if buffer[0] == MORE then
      var p := if s.partial.Some? then s.partial.value else [];
      if |p| > MAX_ZWS_FRAMES then Refused(s.(partial := Some(p)))
      else Accepted(s.(partial := Some(p + [body])))
    else
      Accepted(s.(sent := s.sent + [[body]]))
  }

  /** The relay session; `partial` is zwsproto_session's accumulator and `sent`
      stands for the socket it feeds. */
  class Relay {
    var partial: Option<Message>
    var sent: seq<Message>

    ghost function Contents(): (r: Session)
      reads this
    {
      Session(partial, sent)
    }

    constructor ()
      ensures Contents() == FRESH
    {
      partial, sent := None, [];
    }

    /** Return code -1 makes the server close the connection. */
    method HandleWebsocketFrame(buffer: WireFrame) returns (rc: int)
      modifies this
      ensures Receive(old(Contents()), buffer) == if rc == 0 then Accepted(Contents()) else Refused(Contents())
      ensures rc == 0 || rc == -1
    {
      if buffer[0] == FINAL {
        if partial == None {
          sent := sent + [[buffer[1..]]];
          return 0;
        }
        sent := sent + [partial.value + [buffer[1..]]];
        partial := None;
      } else if buffer[0] == MORE {
        if partial == None {
          partial := Some([]);
        }
        if |partial.value| > MAX_ZWS_FRAMES {
          return -1;
        }
        partial := Some(partial.value + [buffer[1..]]);
      } else {
        sent := sent + [[buffer[1..]]];
      }
      return 0;
    }
  }

  /** On the wire every part has the character '1' in front, but the last '0'. */
  lemma FrameFlags(m: Message, i: nat)
    requires i < |m|
    ensures var frame := Fragment(m)[i];
            frame[0] as int == (if i == |m| - 1 then '0' as int else '1' as int) && frame[1..] == m[i]
  {
  }

  lemma {:induction false} EarlierSent(s: Session, earlier: seq<Message>, frames: seq<WireFrame>)
    ensures var r, t := ReceiveAll(s, frames), ReceiveAll(s.(sent := earlier + s.sent), frames);
            && t.session == r.session.(sent := earlier + r.session.sent)
            && (t.Accepted? <==> r.Accepted?)
    decreases |frames|
  {
    if frames != [] {
      ReceiveEarlier(s, earlier, frames[0]);
      hide Receive;
      var r := Receive(s, frames[0]);
      if r.Accepted? {
        EarlierSent(r.session, earlier, frames[1..]);
      }
    }
  }

  lemma ReceiveEarlier(s: Session, earlier: seq<Message>, frame: WireFrame)
    ensures var r, t := Receive(s, frame), Receive(s.(sent := earlier + s.sent), frame);
            && t.session == r.session.(sent := earlier + r.session.sent)
            && (t.Accepted? <==> r.Accepted?)
  {
    var r, t := Receive(s, frame), Receive(s.(sent := earlier + s.sent), frame);
    if r.session.sent != s.sent {
      var m := r.session.sent[|s.sent|];
      assert r.session.sent == s.sent + [m];
      assert earlier + s.sent + [m] == earlier + (s.sent + [m]);
    }
  }

  /** A frame with any other flag is a message of its own, at once, wherever it comes in:
      the message under construction and all that follows are as without it. */
  lemma OtherFlagApart(s: Session, frame: WireFrame, frames: seq<WireFrame>)
    requires frame[0] as int != '0' as int && frame[0] as int != '1' as int
    ensures var r, t := ReceiveAll(s.(sent := []), frames), ReceiveAll(s, [frame] + frames);
            && t.session.partial == r.session.partial && (t.Accepted? <==> r.Accepted?)
            && t.session.sent == s.sent + [[frame[1..]]] + r.session.sent
  {
    assert ([frame] + frames)[1..] == frames;
    var earlier := s.sent + [[frame[1..]]];
    assert earlier + [] == earlier;
    EarlierSent(s.(sent := []), earlier, frames);
  }

  // --- whole runs -------------------------------------------------------------

  /** Feeding frames to a session until the first refusal, which closes it. */
  function ReceiveAll(s: Session, frames: seq<WireFrame>): (r: Verdict)
    decreases |frames|
  {
    if frames == [] then Accepted(s)
    else
      match Receive(s, frames[0])
      case Refused(t) => Refused(t)
      case Accepted(t) => ReceiveAll(t, frames[1..])
  }

  lemma {:induction false} ReceiveAllAppend(s: Session, a: seq<WireFrame>, b: seq<WireFrame>)
    ensures ReceiveAll(s, a + b) ==
            if ReceiveAll(s, a).Refused? then ReceiveAll(s, a) else ReceiveAll(ReceiveAll(s, a).session, b)
    decreases |a|
  {
    if a == [] {
      assert a + b == b;
    } else {
      assert (a + b)[1..] == a[1..] + b;
      if Receive(s, a[0]).Accepted? {
        ReceiveAllAppend(Receive(s, a[0]).session, a[1..], b);
      }
    }
  }

  /** The frames of a whole sequence of messages, back to back. */
  function FragmentAll(msgs: seq<Message>): (frames: seq<WireFrame>)
  {
    if msgs == [] then [] else Fragment(msgs[0]) + FragmentAll(msgs[1..])
  }

  /** The first k frames of one message leave exactly its first k parts behind,
      unless the accumulator has already grown past the limit. */
  lemma {:induction false} ReceivePrefix(s: Session, m: Message, k: nat)
    requires s.partial == None && k < |m|
    ensures ReceiveAll(s, Fragment(m)[..k]) ==
            if k == 0 then Accepted(s)
            else if k <= MAX_ZWS_FRAMES + 1 then Accepted(s.(partial := Some(m[..k])))
            else Refused(s.(partial := Some(m[..MAX_ZWS_FRAMES + 1])))
  {
    if k > 0 {
      var fr := Fragment(m);
      assert fr[..k] == fr[..k - 1] + [fr[k - 1]];
      ReceivePrefix(s, m, k - 1);
      ReceiveAllAppend(s, fr[..k - 1], [fr[k - 1]]);
      assert fr[k - 1][1..] == m[k - 1];
      assert m[..k - 1] + [m[k - 1]] == m[..k];
      var r := ReceiveAll(s, fr[..k - 1]);
      if r.Accepted? {
        assert [fr[k - 1]][1..] == [];
        assert ReceiveAll(r.session, [fr[k - 1]]) == Receive(r.session, fr[k - 1]);
      }
    }
  }

  /** One message, from an idle session. */
  lemma ReceiveMessage(s: Session, m: Message)
    requires s.partial == None && |m| >= 1
    ensures ReceiveAll(s, Fragment(m)) ==
            if |m| <= MAX_ZWS_FRAMES + 2 then Accepted(Session(None, s.sent + [m]))
            else Refused(s.(partial := Some(m[..MAX_ZWS_FRAMES + 1])))
  {
    var k := |m| - 1;
    var fr := Fragment(m);
    assert fr == fr[..k] + [fr[k]];
    ReceivePrefix(s, m, k);
    ReceiveAllAppend(s, fr[..k], [fr[k]]);
    assert fr[k][1..] == m[k];
    assert m[..k] + [m[k]] == m;
    var r := ReceiveAll(s, fr[..k]);
    if r.Accepted? {
      assert [fr[k]][1..] == [];
      assert ReceiveAll(r.session, [fr[k]]) == Receive(r.session, fr[k]);
    }
  }

  /** A message the relay passes: at most MAX_ZWS_FRAMES + 1 parts before its last. */
  predicate Fits(m: Message) {
    |m| <= MAX_ZWS_FRAMES + 2
  }

  /** The messages in front of the first one that has too many parts. */
  function Deliverable(msgs: seq<Message>): (prefix: seq<Message>)
  {
    if msgs == [] || !Fits(msgs[0]) then [] else [msgs[0]] + Deliverable(msgs[1..])
  }

  lemma {:induction false} DeliverableMeaning(msgs: seq<Message>)
    ensures Deliverable(msgs) <= msgs
    ensures forall i | 0 <= i < |Deliverable(msgs)| :: Fits(msgs[i])
    ensures |Deliverable(msgs)| < |msgs| ==> !Fits(msgs[|Deliverable(msgs)|])
  {
    if msgs != [] && Fits(msgs[0]) {
      var rest := Deliverable(msgs[1..]);
      DeliverableMeaning(msgs[1..]);
      assert Deliverable(msgs) == [msgs[0]] + rest;
      assert msgs == [msgs[0]] + msgs[1..];
      forall i | 0 <= i < |Deliverable(msgs)| ensures Fits(msgs[i]) {
        if i > 0 {
          assert msgs[i] == msgs[1..][i - 1];
        }
      }
    }
  }

  /** Relaying the first of several messages, then the others. */
  lemma RelayFirst(s: Session, msgs: seq<Message>)
    requires s.partial == None && msgs != [] && |msgs[0]| >= 1
    ensures ReceiveAll(s, FragmentAll(msgs)) ==
            if Fits(msgs[0])
            then ReceiveAll(Session(None, s.sent + [msgs[0]]), FragmentAll(msgs[1..]))
            else Refused(s.(partial := Some(msgs[0][..MAX_ZWS_FRAMES + 1])))
  {
    ReceiveAllAppend(s, Fragment(msgs[0]), FragmentAll(msgs[1..]));
    ReceiveMessage(s, msgs[0]);
  }

  /** Relaying from an idle session, message by message. */
  lemma {:induction false} RelayAll(s: Session, msgs: seq<Message>)
    requires s.partial == None
    requires forall i | 0 <= i < |msgs| :: |msgs[i]| >= 1
    ensures var r := ReceiveAll(s, FragmentAll(msgs));
            && r.session.sent == s.sent + Deliverable(msgs)
            && (r.Accepted? <==> |Deliverable(msgs)| == |msgs|)
            && (r.Accepted? ==> r.session.partial == None)
    decreases |msgs|
  {
    DeliverableMeaning(msgs);
    if msgs == [] {
      assert s.sent + [] == s.sent;
    } else {
      RelayFirst(s, msgs);
      if Fits(msgs[0]) {
        var t := Session(None, s.sent + [msgs[0]]);
        RelayAll(t, msgs[1..]);
        assert t.sent + Deliverable(msgs[1..]) == s.sent + Deliverable(msgs);
      } else {
        assert s.sent + [] == s.sent;
      }
    }
  }

  /** Fragmenting any sequence of messages and reassembling the frames delivers
      exactly the messages in front of the first one with 1003 or more parts,
      with their boundaries; the connection survives, with no partial message
      left over, exactly when there is no such message. */
  lemma RelayDelivers(msgs: seq<Message>)
    requires forall i | 0 <= i < |msgs| :: |msgs[i]| >= 1
    ensures var r := ReceiveAll(FRESH, FragmentAll(msgs));
            && r.session.sent == Deliverable(msgs)
            && (r.Accepted? <==> forall i | 0 <= i < |msgs| :: |msgs[i]| <= 1002)
            && (r.Accepted? ==> r.session == Session(None, msgs))
  {
    RelayAll(FRESH, msgs);
    DeliverableMeaning(msgs);
    var d := Deliverable(msgs);
    assert [] + d == d;
    if |d| == |msgs| {
      assert forall i | 0 <= i < |msgs| :: Fits(msgs[i]);
    } else {
      assert !Fits(msgs[|d|]);
    }
  }
}

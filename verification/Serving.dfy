/**
 The event loop around the objects: session objects driven by any list of chunks or of link events are
 proved to end where the machines say, so what is proved of the machines holds of the objects.
 */
module Serving {
  import opened Bytes
  import opened Framing
  import opened Cipher
  import opened RecvBuffers
  import opened Network
  import Lifecycle
  import Reception
  import SendQueue
  import EndToEnd

  /**
   The event loop serving one session's reads: it stores each chunk at the write cursor and runs the
   completion handler. Whatever the chunks, the objects end up where Parse of the whole stream says.
   */
  method ServeReads(s: Session, chunks: seq<seq<byte>>, now: nat)
    requires s.Valid() && s.pendingReads == 1
    requires s.Receiver() == Reception.EMPTY_RECEIVER && s.pending == [] && s.dispatched == []
    requires Reception.Fits(s.recvBuffer.bufferSize, chunks)
    modifies s, s.recvBuffer, s.recvBuffer.data, s.manager`sessions
    ensures s.Valid() && s.pendingReads == 1 && s.manager.sessions == old(s.manager.sessions)
    ensures s.delivered == Parse(Flatten(chunks)) && s.recvBuffer.Window() == Rest(Flatten(chunks))
    ensures s.pending == s.Posted(Parse(Flatten(chunks)))
    ensures s.dispatched == s.Handed(Parse(Flatten(chunks)))
  {
    hide Parse, Rest, Flatten, Session.Posted, Session.Handed, Holds, Reception.AfterRead, Reception.Run, Reception.Fits;
    var i := 0;
    EmptyRun(s.recvBuffer.bufferSize);
    s.DeliveryAppend([], []);
    assert chunks[..0] == [];
    while i < |chunks|
      invariant 0 <= i <= |chunks|
      invariant s.Valid() && s.pendingReads == 1 && s.manager.sessions == old(s.manager.sessions)
      invariant Reception.Fits(s.recvBuffer.bufferSize, chunks[..i])
      invariant s.Receiver() == Reception.Run(s.recvBuffer.bufferSize, chunks[..i])
      invariant s.pending == s.Posted(s.delivered) && s.dispatched == s.Handed(s.delivered)
    {
      Reception.FitsPrefix(s.recvBuffer.bufferSize, chunks, i);
      Reception.RunSnoc(s.recvBuffer.bufferSize, chunks[..i], chunks[i]);
      assert chunks[..i + 1] == chunks[..i] + [chunks[i]];
      s.DeliveryAppend(s.delivered, Parse(s.recvBuffer.Window() + chunks[i]));
      ServeRead(s, chunks[i], now);
      i := i + 1;
    }
    assert chunks[..i] == chunks;
    Reception.ReceptionIsParse(s.recvBuffer.bufferSize, chunks);
  }

  /** One turn of that loop. */
  method ServeRead(s: Session, chunk: seq<byte>, now: nat)
    requires s.Valid() && s.pendingReads == 1 && |chunk| <= s.recvBuffer.FreeSize()
    modifies s, s.recvBuffer, s.recvBuffer.data, s.manager`sessions
    ensures s.Valid() && s.pendingReads == 1 && s.manager.sessions == old(s.manager.sessions)
    ensures fresh(s.owned - old(s.owned))
    ensures var packets := Parse(old(s.recvBuffer.Window()) + chunk);
      && s.Life() == old(s.Life()).ReadOk(now, |s.Posted(packets)|)
      && s.Receiver() == Reception.AfterRead(old(s.Receiver()), s.recvBuffer.bufferSize, chunk)
      && s.delivered == old(s.delivered) + packets
      && s.pending == old(s.pending) + s.Posted(packets)
      && s.dispatched == old(s.dispatched) + s.Handed(packets)
  {
    hide Parse, Rest, Session.Posted, Session.Handed, Holds;
    s.recvBuffer.Fill(chunk);
    assert s.Incoming(|chunk|) == chunk;
    s.OnReadComplete(false, |chunk|, now);
  }

  lemma EmptyRun(bufferSize: nat)
    ensures Reception.Fits(bufferSize, []) && Reception.Run(bufferSize, []) == Reception.EMPTY_RECEIVER
  {
  }

  /** A sending session object is in the state of the link's sender. */
  ghost predicate SendSide(a: Session, c: EndToEnd.Config, l: EndToEnd.Link)
    reads a
  {
    a.cipher == c.cipher && a.Life().chain == l.sender.chain
  }

  /** A receiving session object is in the state of the link's receiver, its pool included. */
  ghost predicate ReceiveSide(b: Session, c: EndToEnd.Config, l: EndToEnd.Link)
    reads b, b.recvBuffer, b.recvBuffer.data, b.owned
  {
    && c == EndToEnd.Config(b.recvBuffer.bufferSize, b.cipher, b.hasThreadPool)
    && b.Valid() && b.pendingReads == 1
    && b.Receiver() == l.receiver && b.pending == l.tasks && b.dispatched == l.dispatched
  }

  /**
   The event loop serving two session objects: any list of link events, whatever is enabled of it.
   The objects stay in the state of the link's run, so the packets that the receiving object has
   dispatched are an initial part of those sent through the sending one.
   */
  method ServeLink(a: Session, b: Session, events: seq<EndToEnd.Event>, now: nat) returns (l: EndToEnd.Link)
    requires a != b && a.cipher == b.cipher
    requires a.Life().chain == SendQueue.IDLE_CHAIN
    requires b.Valid() && b.pendingReads == 1 && b.owned == {}
    requires b.Receiver() == Reception.EMPTY_RECEIVER && b.pending == [] && b.dispatched == []
    modifies a, b, b.recvBuffer, b.recvBuffer.data, a.manager`sessions, b.manager`sessions
    ensures var c := EndToEnd.Config(b.recvBuffer.bufferSize, b.cipher, b.hasThreadPool);
      && l == EndToEnd.Run(c, events) && SendSide(a, c, l) && ReceiveSide(b, c, l)
      && (!b.hasThreadPool && ArePackets(EndToEnd.Sent(events)) ==>
        && b.dispatched <= EndToEnd.Sent(events)
        && (EndToEnd.Drained(l) ==> b.dispatched == EndToEnd.Sent(events)))
  {
    hide EndToEnd.Step, EndToEnd.Run, EndToEnd.Sent, EndToEnd.Drained, ArePackets;
    var c := EndToEnd.Config(b.recvBuffer.bufferSize, b.cipher, b.hasThreadPool);
    assert SendSide(a, c, EndToEnd.FRESH_LINK) && ReceiveSide(b, c, EndToEnd.FRESH_LINK);
    l := ServeEvents(a, b, c, events, now);
    if !b.hasThreadPool && ArePackets(EndToEnd.Sent(events)) {
      EndToEnd.DirectDelivery(c, events);
    }
  }

  /** That loop. */
  method ServeEvents(a: Session, b: Session, c: EndToEnd.Config, events: seq<EndToEnd.Event>, now: nat)
    returns (l: EndToEnd.Link)
    requires a != b && b.owned == {}
    requires SendSide(a, c, EndToEnd.FRESH_LINK) && ReceiveSide(b, c, EndToEnd.FRESH_LINK)
    modifies a, b, b.recvBuffer, b.recvBuffer.data, a.manager`sessions, b.manager`sessions
    ensures l == EndToEnd.Run(c, events) && SendSide(a, c, l) && ReceiveSide(b, c, l)
  {
    hide EndToEnd.Step, EndToEnd.Run, SendSide, ReceiveSide, EndToEnd.WellFormed;
    l := EndToEnd.FRESH_LINK;
    var i := 0;
    EndToEnd.RunEmpty(c);
    assert events[..0] == [];
    while i < |events|
      invariant 0 <= i <= |events|
      invariant l == EndToEnd.Run(c, events[..i]) && SendSide(a, c, l) && ReceiveSide(b, c, l)
      invariant fresh(b.owned)
    {
      EndToEnd.RunSnoc(c, events[..i], events[i]);
      assert events[..i + 1] == events[..i] + [events[i]];
      l := ServeEvent(a, b, c, l, events[i], now);
      i := i + 1;
    }
    assert events[..i] == events;
  }

  /** One turn of that loop: the handler for the event runs on the object concerned, and the link makes the same step. */
  method ServeEvent(a: Session, b: Session, c: EndToEnd.Config, l: EndToEnd.Link, e: EndToEnd.Event, now: nat)
    returns (l': EndToEnd.Link)
    requires a != b && EndToEnd.WellFormed(c, l) && SendSide(a, c, l) && ReceiveSide(b, c, l)
    modifies a, b, b.recvBuffer, b.recvBuffer.data, b.owned, a.manager`sessions, b.manager`sessions
    ensures l' == EndToEnd.Step(c, l, e) && SendSide(a, c, l') && ReceiveSide(b, c, l')
    ensures fresh(b.owned - old(b.owned))
  {
    l' := EndToEnd.Step(c, l, e);
    Separate(a, b, c, l, e);
    hide SendSide, ReceiveSide, EndToEnd.Step;
    if EndToEnd.Enabled(c, l, e) {
      if e.Read? || e.RunTask? {
        ServeReceiver(b, c, l, e, now);
      } else {
        ServeSender(a, c, l, e);
      }
    }
  }

  /** Each event concerns one side only. */
  lemma Separate(a: Session, b: Session, c: EndToEnd.Config, l: EndToEnd.Link, e: EndToEnd.Event)
    requires EndToEnd.WellFormed(c, l) && SendSide(a, c, l) && ReceiveSide(b, c, l)
    ensures e.Read? || e.RunTask? || !EndToEnd.Enabled(c, l, e) ==> SendSide(a, c, EndToEnd.Step(c, l, e))
    ensures !(e.Read? || e.RunTask?) || !EndToEnd.Enabled(c, l, e) ==> ReceiveSide(b, c, EndToEnd.Step(c, l, e))
  {
    hide Session.Valid, Session.Receiver, Session.Life;
  }

  /** An enabled event of the sending side, on the object. */
  method ServeSender(a: Session, c: EndToEnd.Config, l: EndToEnd.Link, e: EndToEnd.Event)
    requires EndToEnd.WellFormed(c, l) && SendSide(a, c, l)
    requires EndToEnd.Enabled(c, l, e) && !e.Read? && !e.RunTask?
    modifies a`writeQueue, a`pendingWrites, a`calls, a`writeEnded, a.manager`sessions
    ensures SendSide(a, c, EndToEnd.Step(c, l, e))
  {
    match e
    case Send(msg) => a.Send(msg);
    case Transmit(_) =>
    case WriteOk => a.OnWriteComplete(false);
    case WriteFailed => a.OnWriteComplete(true);
  }

  /** An enabled event of the receiving side, on the object. */
  method ServeReceiver(b: Session, c: EndToEnd.Config, l: EndToEnd.Link, e: EndToEnd.Event, now: nat)
    requires EndToEnd.WellFormed(c, l) && ReceiveSide(b, c, l)
    requires EndToEnd.Enabled(c, l, e) && (e.Read? || e.RunTask?)
    modifies b, b.recvBuffer, b.recvBuffer.data, b.owned, b.manager`sessions
    ensures ReceiveSide(b, c, EndToEnd.Step(c, l, e))
    ensures fresh(b.owned - old(b.owned))
  {
    if e.Read? {
      ServeLinkRead(b, c, l, e.n, now);
    } else {
      hide Parse, Rest, Holds;
      b.RunTask(e.i);
    }
  }

  method ServeLinkRead(b: Session, c: EndToEnd.Config, l: EndToEnd.Link, n: nat, now: nat)
    requires EndToEnd.WellFormed(c, l) && ReceiveSide(b, c, l) && EndToEnd.Enabled(c, l, EndToEnd.Read(n))
    modifies b, b.recvBuffer, b.recvBuffer.data, b.manager`sessions
    ensures ReceiveSide(b, c, EndToEnd.Receive(c, l, n))
    ensures fresh(b.owned - old(b.owned))
  {
    var chunk := l.sender.wire[l.consumed..l.consumed + n];
    assert b.recvBuffer.FreeSize() == l.receiver.cursors.FreeSize(c.bufferSize);
    assert b.recvBuffer.Window() == l.receiver.window;
    LinkRead(b, c, l, n);
    hide Parse, Rest, Holds, Reception.AfterRead, Session.Receiver, Session.Valid, Session.Posted, Session.Handed;
    hide RecvBuffer.Window, EndToEnd.Receive, EndToEnd.Enabled, Session.Life;
    ServeRead(b, chunk, now);
  }

  /** A read of the link, in the session's terms. */
  lemma LinkRead(b: Session, c: EndToEnd.Config, l: EndToEnd.Link, n: nat)
    requires EndToEnd.WellFormed(c, l) && EndToEnd.Enabled(c, l, EndToEnd.Read(n))
    requires c == EndToEnd.Config(b.recvBuffer.bufferSize, b.cipher, b.hasThreadPool)
    ensures var chunk := l.sender.wire[l.consumed..l.consumed + n];
      var l', packets := EndToEnd.Receive(c, l, n), Parse(l.receiver.window + chunk);
      && l'.receiver == Reception.AfterRead(l.receiver, c.bufferSize, chunk)
      && l'.tasks == l.tasks + b.Posted(packets)
      && l'.dispatched == l.dispatched + b.Handed(packets)
  {
    hide Parse, Rest, EncipherAll;
  }

  /**
   A read on a full buffer completes with no bytes: it delivers nothing and makes no room, but it
   counts as a reception, so the heartbeat goes on finding the session alive.
   */
  method ServeFullRead(s: Session, now: nat)
    requires s.Valid() && s.pendingReads == 1
    requires s.recvBuffer.FreeSize() == 0 && s.recvBuffer.readPos == 0
    requires s.recvBuffer.Window() != [] && !Complete(s.recvBuffer.Window())
    modifies s, s.recvBuffer, s.recvBuffer.data, s.manager`sessions
    ensures s.Valid() && s.Life() == old(s.Life()).ReadOk(now, 0) && s.lastRecvTime == now
    ensures s.recvBuffer.FreeSize() == 0 && s.recvBuffer.readPos == 0
    ensures s.recvBuffer.Window() == old(s.recvBuffer.Window()) && s.delivered == old(s.delivered)
    ensures s.pending == old(s.pending) && s.dispatched == old(s.dispatched)
    ensures s.manager.sessions == old(s.manager.sessions)
  {
    ghost var window := s.recvBuffer.Window();
    assert window + [] == window;
    assert Parse(window) == [] && Rest(window) == window;
    s.DeliveryAppend([], []);
    ServeRead(s, [], now);
  }
}

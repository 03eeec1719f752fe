/**
 The whole transport: one peer's PacketSession::Send, the write chain, the wire, the other peer's
 read chain with its compacting buffer, decryption and dispatch, directly or through a thread pool.
 A run is any list of events; an event that is not enabled changes nothing.
 */
module EndToEnd {
  import opened Bytes
  import opened Framing
  import opened Cipher
  import opened SendQueue
  import Reception
  import opened RecvBuffers

  datatype Config = Config(bufferSize: nat, cipher: Option<seq<byte>>, threadPool: bool)

  datatype Event =
    | Send(msg: seq<byte>)     // PacketSession::Send
    | Transmit(n: nat)         // the socket takes n bytes of the message being written
    | WriteOk                  // a write completes
    | WriteFailed              // a write completes with an error
    | Read(n: nat)             // a read completes with n bytes
    | RunTask(i: nat)          // a pool thread takes the i-th pending task

  datatype Link = Link(
    sender: Sender,
    consumed: nat,                  // bytes of the wire that the receiver has read
    receiver: Reception.Receiver,
    tasks: seq<seq<byte>>,          // packets posted to the pool, still enciphered
    dispatched: seq<seq<byte>>      // packets handed to the dispatcher, deciphered
  )

  const FRESH_LINK: Link := Link(IDLE_SENDER, 0, Reception.EMPTY_RECEIVER, [], [])

  predicate WellFormed(c: Config, l: Link) {
    && l.sender.Inv()
    && l.consumed <= |l.sender.wire|
    && l.receiver.Consistent(c.bufferSize)
  }

  /** A read returns at least one byte unless it was offered no room, and never more than the room or the wire has. */
  predicate Enabled(c: Config, l: Link, e: Event)
    requires WellFormed(c, l)
  {
    match e
    case Send(_) => true
    case Transmit(n) => l.sender.CanTransmit(n)
    case WriteOk => l.sender.CanComplete()
    case WriteFailed => l.sender.chain.writes > 0
    case Read(n) =>
      var room := l.receiver.cursors.FreeSize(c.bufferSize);
      n <= room && l.consumed + n <= |l.sender.wire| && (n == 0 ==> room == 0)
    case RunTask(i) => i < |l.tasks|
  }

  function Step(c: Config, l: Link, e: Event): (l': Link)
    requires WellFormed(c, l)
    ensures WellFormed(c, l')
  {
    if !Enabled(c, l, e) then l
    else match e
      case Send(msg) => PushInv(l.sender, Encipher(msg, c.cipher)); l.(sender := l.sender.Push(Encipher(msg, c.cipher)))
      case Transmit(n) => TransmitInv(l.sender, n); l.(sender := l.sender.Transmit(n))
      case WriteOk => WriteOkInv(l.sender); l.(sender := l.sender.WriteOk())
      case WriteFailed => l.(sender := l.sender.WriteFailed())
      case Read(n) => Receive(c, l, n)
      case RunTask(i) => l.(
        tasks := l.tasks[..i] + l.tasks[i + 1..],
        dispatched := l.dispatched + [Encipher(l.tasks[i], c.cipher)])
  }

  function Receive(c: Config, l: Link, n: nat): Link
    requires WellFormed(c, l) && Enabled(c, l, Read(n))
  {
    var chunk := l.sender.wire[l.consumed..l.consumed + n];
    var receiver := Reception.AfterRead(l.receiver, c.bufferSize, chunk);
    var packets := Parse(l.receiver.window + chunk);
    var l' := l.(receiver := receiver, consumed := l.consumed + n);
    if c.threadPool then l'.(tasks := l.tasks + packets)
    else l'.(dispatched := l.dispatched + EncipherAll(packets, c.cipher))
  }

  function Run(c: Config, events: seq<Event>): (l: Link)
    ensures WellFormed(c, l)
    decreases |events|
  {
    if events == [] then FRESH_LINK
    else Step(c, Run(c, events[..|events| - 1]), events[|events| - 1])
  }

  lemma RunEmpty(c: Config)
    ensures Run(c, []) == FRESH_LINK
  {
  }

  lemma RunSnoc(c: Config, events: seq<Event>, e: Event)
    ensures Run(c, events + [e]) == Step(c, Run(c, events), e)
  {
    hide Step;
    assert (events + [e])[..|events|] == events;
  }

  /** The plaintext messages given to Send during a run. */
  function Sent(events: seq<Event>): seq<seq<byte>>
    decreases |events|
  {
    if events == [] then []
    else
      var n := |events| - 1;
      Sent(events[..n]) + (if events[n].Send? then [events[n].msg] else [])
  }

  /** Nothing is left in the sender's queue or on the wire. */
  predicate Drained(l: Link) {
    l.sender.chain.queue == [] && l.consumed == |l.sender.wire|
  }

  /** Everything that holds of the link in every reachable state. */
  predicate Inv(c: Config, l: Link, sent: seq<seq<byte>>)
    requires WellFormed(c, l)
  {
    && l.sender.sent == EncipherAll(sent, c.cipher)
    && (!c.threadPool ==> l.tasks == [] && l.dispatched == EncipherAll(l.receiver.delivered, c.cipher))
    && multiset(l.dispatched) + multiset(EncipherAll(l.tasks, c.cipher))
    == multiset(EncipherAll(l.receiver.delivered, c.cipher))
  }

  lemma {:induction false} RunInv(c: Config, events: seq<Event>)
    ensures Inv(c, Run(c, events), Sent(events))
    decreases |events|
  {
    if events != [] {
      var n := |events| - 1;
      RunInv(c, events[..n]);
      StepInv(c, Run(c, events[..n]), events[n], Sent(events[..n]));
    }
  }

  lemma StepInv(c: Config, l: Link, e: Event, sent: seq<seq<byte>>)
    requires WellFormed(c, l) && Inv(c, l, sent)
    ensures Inv(c, Step(c, l, e), sent + (if e.Send? then [e.msg] else []))
  {
    assert sent + [] == sent;
    if Enabled(c, l, e) {
      match e
      case Send(msg) => EncipherAllAppend(sent, [msg], c.cipher); EncipherOne(msg, c.cipher);
      case Read(n) => ReceiveInv(c, l, n, sent);
      case RunTask(i) => RunTaskInv(c, l, i, sent);
      case _ =>
    }
  }

  /** Adding the same packets to the framed ones and to the waiting (or dispatched) ones keeps the balance. */
  lemma Balance(dispatched: seq<seq<byte>>, waiting: seq<seq<byte>>, framed: seq<seq<byte>>, more: seq<seq<byte>>)
    requires multiset(dispatched) + multiset(waiting) == multiset(framed)
    ensures multiset(dispatched + more) + multiset(waiting) == multiset(framed + more)
    ensures multiset(dispatched) + multiset(waiting + more) == multiset(framed + more)
  {
    assert multiset(dispatched + more) == multiset(dispatched) + multiset(more);
    assert multiset(waiting + more) == multiset(waiting) + multiset(more);
    assert multiset(framed + more) == multiset(framed) + multiset(more);
  }

  lemma ReceiveInv(c: Config, l: Link, n: nat, sent: seq<seq<byte>>)
    requires WellFormed(c, l) && Inv(c, l, sent) && Enabled(c, l, Read(n))
    ensures Inv(c, Receive(c, l, n), sent)
  {
    hide Parse, Rest, EncipherAll, Sender.Inv;
    var packets := Parse(l.receiver.window + l.sender.wire[l.consumed..l.consumed + n]);
    EncipherAllAppend(l.receiver.delivered, packets, c.cipher);
    EncipherAllAppend(l.tasks, packets, c.cipher);
    Balance(l.dispatched, EncipherAll(l.tasks, c.cipher), EncipherAll(l.receiver.delivered, c.cipher),
      EncipherAll(packets, c.cipher));
  }

  /** Taking out one task leaves the others. */
  lemma TakeOne(tasks: seq<seq<byte>>, i: nat, cipher: Option<seq<byte>>)
    requires i < |tasks|
    ensures multiset(EncipherAll(tasks, cipher))
      == multiset(EncipherAll(tasks[..i] + tasks[i + 1..], cipher)) + multiset{Encipher(tasks[i], cipher)}
  {
    var a, b := tasks[..i], tasks[i + 1..];
    assert tasks == a + ([tasks[i]] + b);
    EncipherAllAppend(a, [tasks[i]] + b, cipher);
    EncipherAllAppend([tasks[i]], b, cipher);
    EncipherOne(tasks[i], cipher);
    EncipherAllAppend(a, b, cipher);
  }

  lemma RunTaskInv(c: Config, l: Link, i: nat, sent: seq<seq<byte>>)
    requires WellFormed(c, l) && Inv(c, l, sent) && i < |l.tasks|
    ensures Inv(c, Step(c, l, RunTask(i)), sent)
  {
    TakeOne(l.tasks, i, c.cipher);
  }

  /** The chunk that an event reads, if it reads one. */
  function ChunkOf(c: Config, l: Link, e: Event): seq<seq<byte>>
    requires WellFormed(c, l)
  {
    if e.Read? && Enabled(c, l, e) then [l.sender.wire[l.consumed..l.consumed + e.n]] else []
  }

  /** The chunks read during a run. */
  function Chunks(c: Config, events: seq<Event>): seq<seq<byte>>
    decreases |events|
  {
    if events == [] then []
    else
      var n := |events| - 1;
      var l := Run(c, events[..n]);
      Chunks(c, events[..n]) + ChunkOf(c, l, events[n])
  }

  /** The link's receiver is the reception of the given chunks, which are what it has read off the wire. */
  predicate Received(c: Config, l: Link, chunks: seq<seq<byte>>)
    requires WellFormed(c, l)
  {
    && Reception.Fits(c.bufferSize, chunks)
    && l.receiver == Reception.Run(c.bufferSize, chunks)
    && l.sender.wire[..l.consumed] == Flatten(chunks)
  }

  lemma ReadReceived(c: Config, l: Link, n: nat, chunks: seq<seq<byte>>)
    requires WellFormed(c, l) && Received(c, l, chunks) && Enabled(c, l, Read(n))
    ensures Received(c, Receive(c, l, n), chunks + [l.sender.wire[l.consumed..l.consumed + n]])
  {
    hide Parse, Rest, Flatten, Reception.Run, Reception.Fits;
    var chunk := l.sender.wire[l.consumed..l.consumed + n];
    Reception.RunSnoc(c.bufferSize, chunks, chunk);
    assert l.sender.wire[..l.consumed + n] == l.sender.wire[..l.consumed] + chunk;
  }

  lemma OtherReceived(c: Config, l: Link, e: Event, chunks: seq<seq<byte>>)
    requires WellFormed(c, l) && Received(c, l, chunks) && !(e.Read? && Enabled(c, l, e))
    ensures Received(c, Step(c, l, e), chunks)
  {
    assert Step(c, l, e).sender.wire[..l.consumed] == l.sender.wire[..l.consumed];
  }

  lemma StepReceived(c: Config, l: Link, e: Event, chunks: seq<seq<byte>>)
    requires WellFormed(c, l) && Received(c, l, chunks)
    ensures Received(c, Step(c, l, e), chunks + ChunkOf(c, l, e))
  {
    hide Parse, Rest, Flatten, Reception.Run, Reception.Fits;
    if e.Read? && Enabled(c, l, e) {
      ReadReceived(c, l, e.n, chunks);
    } else {
      OtherReceived(c, l, e, chunks);
      assert chunks + ChunkOf(c, l, e) == chunks;
    }
  }

  /** The receiving end of the link is a legal reception of the bytes read so far. */
  lemma {:induction false} ReceiverRuns(c: Config, events: seq<Event>)
    ensures Received(c, Run(c, events), Chunks(c, events))
    decreases |events|
  {
    if events != [] {
      var n := |events| - 1;
      ReceiverRuns(c, events[..n]);
      StepReceived(c, Run(c, events[..n]), events[n], Chunks(c, events[..n]));
    }
  }

  /** Cutting and deciphering any initial part of an enciphered stream of packets gives an initial part of the packets. */
  lemma DecipheredPrefix(ps: seq<seq<byte>>, x: seq<byte>, cipher: Option<seq<byte>>)
    requires ArePackets(ps) && x <= Flatten(EncipherAll(ps, cipher))
    ensures EncipherAll(Parse(x), cipher) <= ps && !Stuck(x)
    ensures x == Flatten(EncipherAll(ps, cipher)) ==> EncipherAll(Parse(x), cipher) == ps && Rest(x) == []
  {
    ParseEnciphered(ps, cipher);
    ParsePrefix(EncipherAll(ps, cipher), x);
    var k := |Parse(x)|;
    assert Parse(x) == EncipherAll(ps[..k], cipher);
    EncipherAllInvolution(ps[..k], cipher);
  }

  /** What the receiver has framed so far is an initial part of what was sent, enciphered. */
  lemma FramedIsPrefix(c: Config, events: seq<Event>)
    requires ArePackets(Sent(events))
    ensures var l := Run(c, events);
      var framed := EncipherAll(l.receiver.delivered, c.cipher);
      && framed <= Sent(events)
      && (Drained(l) ==> framed == Sent(events) && l.receiver.window == [])
      && !Stuck(l.sender.wire[..l.consumed])
  {
    var l := Run(c, events);
    RunInv(c, events);
    ReceiverRuns(c, events);
    Reception.ReceptionIsParse(c.bufferSize, Chunks(c, events));
    WireIsPrefix(l.sender);
    DecipheredPrefix(Sent(events), l.sender.wire[..l.consumed], c.cipher);
  }

  /**
   End to end, without a thread pool: at every moment of every run the receiver has dispatched an
   initial part of the packets sent, in order and in plaintext, and all of them once nothing is left
   on the way.
   */
  lemma DirectDelivery(c: Config, events: seq<Event>)
    requires ArePackets(Sent(events)) && !c.threadPool
    ensures Run(c, events).dispatched <= Sent(events)
    ensures Drained(Run(c, events)) ==> Run(c, events).dispatched == Sent(events)
  {
    RunInv(c, events);
    FramedIsPrefix(c, events);
  }

  /** On a drained link, the receiver has dispatched what was sent if and only if all of it was packets. */
  lemma DirectDeliveryExact(c: Config, events: seq<Event>)
    requires !c.threadPool && Drained(Run(c, events))
    ensures Run(c, events).dispatched == Sent(events) <==> ArePackets(Sent(events))
  {
    var l, sent := Run(c, events), Sent(events);
    RunInv(c, events);
    if ArePackets(sent) {
      DirectDelivery(c, events);
    }
    if l.dispatched == sent {
      ReceiverRuns(c, events);
      Reception.ReceptionIsParse(c.bufferSize, Chunks(c, events));
      ParsePartition(Flatten(Chunks(c, events)));
      hide Run, Sent, Parse, Rest;
      forall i | 0 <= i < |sent| ensures IsPacket(sent[i]) {
        EncipherKeepsHeader(l.receiver.delivered[i], c.cipher);
        assert sent[i] == Encipher(l.receiver.delivered[i], c.cipher);
      }
    }
  }

  /**
   With a thread pool, the order is lost but nothing else: the packets dispatched and the packets
   still waiting for a thread are, with multiplicities, exactly the first packets sent.
   */
  lemma PooledDelivery(c: Config, events: seq<Event>)
    requires ArePackets(Sent(events))
    ensures var l := Run(c, events);
      exists k :: 0 <= k <= |Sent(events)|
        && multiset(l.dispatched) + multiset(EncipherAll(l.tasks, c.cipher)) == multiset(Sent(events)[..k])
        && (Drained(l) ==> k == |Sent(events)|)
    ensures var l := Run(c, events);
      Drained(l) && l.tasks == [] ==> multiset(l.dispatched) == multiset(Sent(events))
  {
    var l, sent := Run(c, events), Sent(events);
    RunInv(c, events);
    FramedIsPrefix(c, events);
    var k := |l.receiver.delivered|;
    assert EncipherAll(l.receiver.delivered, c.cipher) == sent[..k];
    if Drained(l) {
      assert sent[..k] == sent;
      if l.tasks == [] {
        assert EncipherAll(l.tasks, c.cipher) == [];
      }
    }
  }

  /**
   With or without a pool, nothing is dispatched that was not sent, nor more often; once all is
   settled, nothing is missing.
   */
  lemma DispatchedAmongSent(c: Config, events: seq<Event>)
    requires ArePackets(Sent(events))
    ensures var l := Run(c, events);
      && multiset(l.dispatched) <= multiset(Sent(events))
      && (forall i :: 0 <= i < |l.dispatched| ==> l.dispatched[i] in Sent(events))
      && (Settled(l) ==> multiset(l.dispatched) == multiset(Sent(events)))
  {
    PooledDelivery(c, events);
    hide Run, Sent, ArePackets, EncipherAll, Drained;
    var l, sent := Run(c, events), Sent(events);
    var k :| 0 <= k <= |sent|
      && multiset(l.dispatched) + multiset(EncipherAll(l.tasks, c.cipher)) == multiset(sent[..k])
      && (Drained(l) ==> k == |sent|);
    Among(l.dispatched, EncipherAll(l.tasks, c.cipher), sent, k);
  }

  lemma Among(some: seq<seq<byte>>, others: seq<seq<byte>>, all: seq<seq<byte>>, k: nat)
    requires k <= |all| && multiset(some) + multiset(others) == multiset(all[..k])
    ensures multiset(some) <= multiset(all)
    ensures forall i :: 0 <= i < |some| ==> some[i] in all
  {
    assert all == all[..k] + all[k..];
    forall i | 0 <= i < |some| ensures some[i] in all {
      assert some[i] in multiset(some);
      assert some[i] in multiset(all[..k]);
    }
  }

  /** Steps that carry bytes or packets forward. */
  predicate Effective(e: Event) {
    (e.Transmit? && e.n > 0) || e.WriteOk? || (e.Read? && e.n > 0) || e.RunTask?
  }

  /** Nothing is left anywhere, the pool included. */
  predicate Settled(l: Link) {
    Drained(l) && l.tasks == []
  }

  /**
   Work left: each untransmitted byte must be transmitted and read, each byte read must be framed, each
   queued message completed, each pending task run.
   */
  function Work(c: Config, l: Link): nat
    requires WellFormed(c, l)
  {
    3 * l.sender.Unsent() + |l.sender.chain.queue| + 2 * (|l.sender.wire| - l.consumed) + |l.receiver.window| + |l.tasks|
  }

  /** A stream has no more packets than bytes framed. */
  lemma FewPackets(s: seq<byte>)
    ensures |Parse(s)| + |Rest(s)| <= |s|
  {
    ParsePartition(s);
    LongEnough(Parse(s));
  }

  lemma {:induction false} LongEnough(ps: seq<seq<byte>>)
    requires ArePackets(ps)
    ensures |ps| <= |Flatten(ps)|
  {
    if ps != [] {
      LongEnough(ps[1..]);
    }
  }

  lemma ReadTerminates(c: Config, l: Link, n: nat)
    requires WellFormed(c, l) && Enabled(c, l, Read(n)) && n > 0
    ensures Work(c, Receive(c, l, n)) < Work(c, l)
  {
    hide Parse, Rest, Sender.Inv, Sender.Unsent;
    FewPackets(l.receiver.window + l.sender.wire[l.consumed..l.consumed + n]);
  }

  /** Every enabled effective step reduces the work left, so no schedule carries on for ever without settling. */
  lemma EffectiveStepsTerminate(c: Config, l: Link, e: Event)
    requires WellFormed(c, l) && Enabled(c, l, e) && Effective(e)
    ensures Work(c, Step(c, l, e)) < Work(c, l)
    ensures Step(c, l, e).sender.chain.failed == l.sender.chain.failed
  {
    match e
    case Transmit(n) => TransmitInv(l.sender, n);
    case WriteOk => WriteOkInv(l.sender);
    case Read(n) => ReadTerminates(c, l, n);
    case RunTask(i) =>
  }

  /** No schedule gets stuck: while anything is on the way and no write has failed, some effective step is enabled. */
  lemma SomeStepEnabled(c: Config, events: seq<Event>) returns (e: Event)
    requires ArePackets(Sent(events)) && RoomyBuffer(c)
    requires !Run(c, events).sender.chain.failed && !Settled(Run(c, events))
    ensures Effective(e) && Enabled(c, Run(c, events), e)
  {
    var l := Run(c, events);
    if l.tasks != [] {
      e := RunTask(0);
    } else if l.sender.chain.queue != [] {
      var left := |l.sender.chain.queue[0]| - l.sender.progress;
      e := if left > 0 then Transmit(left) else WriteOk;
    } else {
      ReceiverRuns(c, events);
      FramedIsPrefix(c, events);
      RestBound(Flatten(Chunks(c, events)));
      Reception.RoomExact(c.bufferSize, Chunks(c, events));
      e := Read(1);
    }
  }

  /** The receive buffer is larger than any incomplete packet. */
  predicate RoomyBuffer(c: Config) {
    CAPACITY_FACTOR * c.bufferSize > Reception.MAX_REMAINDER
  }

  predicate AllEffective(events: seq<Event>) {
    forall i :: 0 <= i < |events| ==> Effective(events[i])
  }

  lemma SentNothingMore(events: seq<Event>, e: Event)
    requires !e.Send?
    ensures Sent(events + [e]) == Sent(events)
  {
    assert (events + [e])[..|events|] == events;
  }

  lemma SettledIsDone(c: Config, events: seq<Event>)
    requires ArePackets(Sent(events)) && Settled(Run(c, events))
    ensures multiset(Run(c, events).dispatched) == multiset(Sent(events))
    ensures !c.threadPool ==> Run(c, events).dispatched == Sent(events)
  {
    hide Run, Sent, ArePackets;
    PooledDelivery(c, events);
    if !c.threadPool {
      DirectDelivery(c, events);
    }
  }

  /**
   From every reachable state without a failed write, at most Work effective steps dispatch everything
   sent, with or without a pool.
   */
  lemma {:induction false} EverythingArrives(c: Config, events: seq<Event>) returns (more: seq<Event>)
    requires ArePackets(Sent(events)) && RoomyBuffer(c) && !Run(c, events).sender.chain.failed
    ensures AllEffective(more) && |more| <= Work(c, Run(c, events))
    ensures Sent(events + more) == Sent(events) && Settled(Run(c, events + more))
    ensures multiset(Run(c, events + more).dispatched) == multiset(Sent(events))
    ensures !c.threadPool ==> Run(c, events + more).dispatched == Sent(events)
    decreases Work(c, Run(c, events))
  {
    hide Parse, Rest, Flatten, Step, Run, Sent, Settled, Work, ArePackets, RoomyBuffer;
    if Settled(Run(c, events)) {
      more := [];
      assert events + more == events;
      SettledIsDone(c, events);
    } else {
      var e := SomeStepEnabled(c, events);
      RunSnoc(c, events, e);
      EffectiveStepsTerminate(c, Run(c, events), e);
      SentNothingMore(events, e);
      var rest := EverythingArrives(c, events + [e]);
      more := [e] + rest;
      assert events + more == events + [e] + rest;
    }
  }

  lemma StepAfterFailure(c: Config, l: Link, e: Event)
    requires WellFormed(c, l) && l.sender.chain.failed
    ensures var s := Step(c, l, e).sender;
      s.chain.failed && s.wire == l.sender.wire && s.completed == l.sender.completed
  {
  }

  /**
   The write queue, in every run: what was sent is what has completed, then what is queued; at most
   one write is in flight, and exactly one as long as something is queued and no write has failed;
   the wire is an initial part of what was sent, and all of it when the queue is empty.
   */
  lemma WriteQueue(c: Config, events: seq<Event>)
    ensures var s := Run(c, events).sender;
      && s.sent == EncipherAll(Sent(events), c.cipher) == s.completed + s.chain.queue
      && s.chain.writes == (if s.chain.queue != [] && !s.chain.failed then 1 else 0)
      && (s.chain.failed ==> s.chain.queue != [])
      && s.wire <= Flatten(s.sent)
      && (s.chain.queue == [] ==> s.wire == Flatten(s.sent))
  {
    RunInv(c, events);
    WireIsPrefix(Run(c, events).sender);
  }

  /** The receive buffer is full of an incomplete packet. */
  predicate Full(c: Config, l: Link)
    requires WellFormed(c, l)
  {
    && l.receiver.cursors.FreeSize(c.bufferSize) == 0
    && l.receiver.cursors.readPos == 0
    && l.receiver.window != [] && !Complete(l.receiver.window)
  }

  lemma FullStep(c: Config, l: Link, e: Event)
    requires WellFormed(c, l) && Full(c, l)
    ensures var l' := Step(c, l, e);
      Full(c, l') && l'.receiver.delivered == l.receiver.delivered && l'.consumed == l.consumed
  {
    if e.Read? && Enabled(c, l, e) {
      assert l.receiver.window + l.sender.wire[l.consumed..l.consumed + e.n] == l.receiver.window;
    }
  }

  lemma NoRoomIsFull(c: Config, events: seq<Event>)
    requires c.bufferSize > 0 && Run(c, events).receiver.cursors.FreeSize(c.bufferSize) == 0
    ensures Full(c, Run(c, events))
  {
    ReceiverRuns(c, events);
    Reception.ReceptionIsParse(c.bufferSize, Chunks(c, events));
    Reception.CleanedShape(c.bufferSize, Chunks(c, events));
    ParsePartition(Flatten(Chunks(c, events)));
  }

  lemma FullReads(c: Config, l: Link)
    requires WellFormed(c, l) && Full(c, l)
    ensures Enabled(c, l, Read(0)) && forall n :: Enabled(c, l, Read(n)) ==> n == 0
  {
  }

  /**
   Once a read is issued with no room, nothing is received or framed again in any continuation; the
   only reads that complete are those of no bytes, and one of them always can.
   */
  lemma {:induction false} FullBufferIsFinal(c: Config, events: seq<Event>, more: seq<Event>)
    requires c.bufferSize > 0 && Run(c, events).receiver.cursors.FreeSize(c.bufferSize) == 0
    ensures Full(c, Run(c, events + more))
    ensures Run(c, events + more).receiver.delivered == Run(c, events).receiver.delivered
    ensures Run(c, events + more).consumed == Run(c, events).consumed
    ensures Enabled(c, Run(c, events + more), Read(0))
    ensures forall n :: Enabled(c, Run(c, events + more), Read(n)) ==> n == 0
    decreases |more|
  {
    hide Run, Step, Enabled, Full;
    if more == [] {
      NoRoomIsFull(c, events);
      assert events + more == events;
    } else {
      var n := |more| - 1;
      FullBufferIsFinal(c, events, more[..n]);
      SplitLast(events, more);
      RunSnoc(c, events + more[..n], more[n]);
      FullStep(c, Run(c, events + more[..n]), more[n]);
    }
    FullReads(c, Run(c, events + more));
  }

  /** Once a write has failed, no byte follows on the wire, whatever is sent afterwards. */
  lemma {:induction false} NothingAfterFailure(c: Config, events: seq<Event>, more: seq<Event>)
    requires Run(c, events).sender.chain.failed
    ensures Run(c, events + more).sender.chain.failed
    ensures Run(c, events + more).sender.wire == Run(c, events).sender.wire
    ensures Run(c, events + more).sender.completed == Run(c, events).sender.completed
    decreases |more|
  {
    if more == [] {
      assert events + more == events;
    } else {
      var n := |more| - 1;
      hide Run, Step, Enabled, WellFormed;
      NothingAfterFailure(c, events, more[..n]);
      SplitLast(events, more);
      RunSnoc(c, events + more[..n], more[n]);
      StepAfterFailure(c, Run(c, events + more[..n]), more[n]);
    }
  }
}

/**
 A whole server as one machine: the world of Lifecycle together with what every session has received,
 posted and dispatched. A run is any list of commands; one that no session can take changes nothing.
 */
module Server {
  import opened Bytes
  import opened Cipher
  import opened ClientPackets
  import opened Framing
  import EndToEnd
  import Lifecycle
  import Reception

  /** What a server constructs each of its sessions with. */
  datatype Config = Config(bufferSize: nat, cipher: Option<seq<byte>>, hasThreadPool: bool, hasTimer: bool,
                           sendsNotice: bool)
  {
    function Notice(): Option<seq<byte>> {
      if sendsNotice then Some(Encipher(Packet.Disconnect.Buffer(), cipher)) else None
    }

    function PingMessage(): seq<byte> {
      Encipher(Packet.Ping.Buffer(), cipher)
    }
  }

  /** What comes from the event loop, the pool's threads, the timers and callers, about the i-th session accepted. */
  datatype Command =
    | Accept(now: nat)
    | Read(i: nat, chunk: seq<byte>, now: nat)    // a read completes with these bytes
    | ReadFailed(i: nat)
    | RunTask(i: nat, which: nat)                 // a thread takes one of the session's closures, any of them
    | Send(i: nat, msg: seq<byte>)
    | WriteOk(i: nat)
    | WriteFailed(i: nat)
    | Force(i: nat, throws: bool)
    | Graceful(i: nat, throws: bool)
    | GraceTimer(i: nat, throws: bool)
    | Tick(now: nat, timeout: nat)

  /** What one session has received, the packets waiting for a thread, and those dispatched. */
  datatype Inbox = Inbox(receiver: Reception.Receiver, waiting: seq<seq<byte>>, dispatched: seq<seq<byte>>)

  const EMPTY_INBOX: Inbox := Inbox(Reception.EMPTY_RECEIVER, [], [])

  predicate HasRoom(c: Config, b: Inbox, chunk: seq<byte>) {
    b.receiver.Consistent(c.bufferSize) && |chunk| <= b.receiver.cursors.FreeSize(c.bufferSize)
  }

  /** A chunk is received: its packets are posted, or deciphered and dispatched at once. */
  function Received(c: Config, b: Inbox, chunk: seq<byte>): (b': Inbox)
    requires HasRoom(c, b, chunk)
    ensures b'.receiver.Consistent(c.bufferSize)
  {
    var receiver, packets := Reception.AfterRead(b.receiver, c.bufferSize, chunk), Parse(b.receiver.window + chunk);
    if c.hasThreadPool then Inbox(receiver, b.waiting + packets, b.dispatched)
    else Inbox(receiver, b.waiting, b.dispatched + EncipherAll(packets, c.cipher))
  }

  /** A thread takes out one of the waiting packets, deciphers it and dispatches it. */
  function TakenOut(c: Config, b: Inbox, which: nat): Inbox {
    if b.waiting == [] then b
    else
      var k := which % |b.waiting|;
      Inbox(b.receiver, b.waiting[..k] + b.waiting[k + 1..], b.dispatched + [Encipher(b.waiting[k], c.cipher)])
  }

  function InboxAfter(c: Config, b: Inbox, cmd: Command): (b': Inbox)
    requires b.receiver.Consistent(c.bufferSize)
    ensures b'.receiver.Consistent(c.bufferSize)
  {
    match cmd
    case Read(_, chunk, _) => if HasRoom(c, b, chunk) then Received(c, b, chunk) else b
    case RunTask(_, which) => TakenOut(c, b, which)
    case _ => b
  }

  /** The event of Lifecycle that a command is to a session: a read that finds no room ends the read chain. */
  function EventOf(c: Config, b: Inbox, cmd: Command): Lifecycle.Event {
    match cmd
    case Accept(now) => Lifecycle.Event.Accept(now)
    case Read(i, chunk, now) =>
      if HasRoom(c, b, chunk)
      then Lifecycle.Event.ReadOk(i, now, if c.hasThreadPool then |Parse(b.receiver.window + chunk)| else 0)
      else Lifecycle.Event.ReadFailed(i)
    case ReadFailed(i) => Lifecycle.Event.ReadFailed(i)
    case RunTask(i, _) => Lifecycle.Event.TaskDone(i)
    case Send(i, msg) => Lifecycle.Event.Send(i, Encipher(msg, c.cipher))
    case WriteOk(i) => Lifecycle.Event.WriteOk(i)
    case WriteFailed(i) => Lifecycle.Event.WriteFailed(i)
    case Force(i, throws) => Lifecycle.Event.Force(i, throws)
    case Graceful(i, throws) => Lifecycle.Event.Graceful(i, c.Notice(), c.hasTimer, throws)
    case GraceTimer(i, throws) => Lifecycle.Event.GraceTimer(i, throws)
    case Tick(now, timeout) => Lifecycle.Event.Tick(now, timeout, c.PingMessage())
  }

  lemma EventKind(c: Config, b: Inbox, cmd: Command)
    ensures var e := EventOf(c, b, cmd);
      && (e.Accept? <==> cmd.Accept?) && (e.Tick? <==> cmd.Tick?)
      && (!cmd.Accept? && !cmd.Tick? ==> e.i == cmd.i)
  {
  }

  datatype State = State(world: Lifecycle.World, inboxes: seq<Inbox>)

  const EMPTY_STATE: State := State(Lifecycle.EMPTY_WORLD, [])

  predicate WellFormed(c: Config, st: State) {
    && |st.inboxes| == |st.world.conns|
    && forall k :: 0 <= k < |st.inboxes| ==> st.inboxes[k].receiver.Consistent(c.bufferSize)
  }

  /** The command is about a session that there is and that can take it. */
  predicate Concerns(c: Config, st: State, cmd: Command, k: nat)
    requires WellFormed(c, st)
  {
    && !cmd.Accept? && !cmd.Tick? && cmd.i == k < |st.inboxes|
    && Lifecycle.Takes(st.world.conns[k], EventOf(c, st.inboxes[k], cmd))
  }

  function EventIn(c: Config, st: State, cmd: Command): Lifecycle.Event
    requires WellFormed(c, st)
  {
    EventOf(c, if !cmd.Accept? && !cmd.Tick? && cmd.i < |st.inboxes| then st.inboxes[cmd.i] else EMPTY_INBOX, cmd)
  }

  function Step(c: Config, st: State, cmd: Command): (st': State)
    requires WellFormed(c, st)
    ensures WellFormed(c, st')
  {
    State(
      Lifecycle.Step(st.world, EventIn(c, st, cmd)),
      if cmd.Accept? then st.inboxes + [EMPTY_INBOX]
      else if !cmd.Tick? && Concerns(c, st, cmd, cmd.i) then
        st.inboxes[cmd.i := InboxAfter(c, st.inboxes[cmd.i], cmd)]
      else st.inboxes)
  }

  function Run(c: Config, commands: seq<Command>): (st: State)
    ensures WellFormed(c, st)
    decreases |commands|
  {
    if commands == [] then EMPTY_STATE
    else Step(c, Run(c, commands[..|commands| - 1]), commands[|commands| - 1])
  }

  function Events(c: Config, commands: seq<Command>): seq<Lifecycle.Event>
    decreases |commands|
  {
    if commands == [] then []
    else
      var n := |commands| - 1;
      Events(c, commands[..n]) + [EventIn(c, Run(c, commands[..n]), commands[n])]
  }

  lemma RunSnoc(c: Config, commands: seq<Command>, cmd: Command)
    ensures Run(c, commands + [cmd]) == Step(c, Run(c, commands), cmd)
    ensures Events(c, commands + [cmd]) == Events(c, commands) + [EventIn(c, Run(c, commands), cmd)]
  {
    hide Step, EventIn;
    assert (commands + [cmd])[..|commands|] == commands;
  }

  /** The world of the server is a run of Lifecycle, so what is proved of all those runs holds of it. */
  lemma {:induction false} WorldRuns(c: Config, commands: seq<Command>)
    ensures Run(c, commands).world == Lifecycle.Run(Events(c, commands))
    decreases |commands|
  {
    hide Lifecycle.Step, EventIn;
    if commands != [] {
      var n := |commands| - 1;
      WorldRuns(c, commands[..n]);
      Lifecycle.RunSnoc(Events(c, commands[..n]), EventIn(c, Run(c, commands[..n]), commands[n]));
    }
  }

  /** The chunk that a command lets the k-th session receive, if it does. */
  function ChunkOf(c: Config, st: State, cmd: Command, k: nat): seq<seq<byte>>
    requires WellFormed(c, st)
  {
    if cmd.Read? && Concerns(c, st, cmd, k) && HasRoom(c, st.inboxes[k], cmd.chunk) then [cmd.chunk] else []
  }

  function Chunks(c: Config, commands: seq<Command>, k: nat): seq<seq<byte>>
    decreases |commands|
  {
    if commands == [] then []
    else
      var n := |commands| - 1;
      Chunks(c, commands[..n], k) + ChunkOf(c, Run(c, commands[..n]), commands[n], k)
  }

  /** The inbox is that of a session that has received these chunks and nothing else. */
  predicate Accounted(c: Config, b: Inbox, chunks: seq<seq<byte>>) {
    && Reception.Fits(c.bufferSize, chunks)
    && b.receiver == Reception.Run(c.bufferSize, chunks)
    && multiset(b.dispatched) + multiset(EncipherAll(b.waiting, c.cipher))
    == multiset(EncipherAll(b.receiver.delivered, c.cipher))
    && (!c.hasThreadPool ==> b.waiting == [] && b.dispatched == EncipherAll(b.receiver.delivered, c.cipher))
  }

  lemma ReceivedAccounted(c: Config, b: Inbox, chunks: seq<seq<byte>>, chunk: seq<byte>)
    requires Accounted(c, b, chunks) && HasRoom(c, b, chunk)
    ensures Accounted(c, Received(c, b, chunk), chunks + [chunk])
  {
    hide Parse, Rest, EncipherAll, Reception.Run, Reception.Fits;
    var packets := Parse(b.receiver.window + chunk);
    Reception.RunSnoc(c.bufferSize, chunks, chunk);
    EncipherAllAppend(b.receiver.delivered, packets, c.cipher);
    EncipherAllAppend(b.waiting, packets, c.cipher);
    EndToEnd.Balance(b.dispatched, EncipherAll(b.waiting, c.cipher), EncipherAll(b.receiver.delivered, c.cipher),
      EncipherAll(packets, c.cipher));
  }

  lemma TakenOutAccounted(c: Config, b: Inbox, chunks: seq<seq<byte>>, which: nat)
    requires Accounted(c, b, chunks)
    ensures Accounted(c, TakenOut(c, b, which), chunks)
  {
    hide EncipherAll, Reception.Run, Reception.Fits;
    if b.waiting != [] {
      EndToEnd.TakeOne(b.waiting, which % |b.waiting|, c.cipher);
    }
  }

  lemma StepAccounted(c: Config, st: State, cmd: Command, k: nat, chunks: seq<seq<byte>>)
    requires WellFormed(c, st) && k < |st.inboxes| && Accounted(c, st.inboxes[k], chunks)
    ensures Accounted(c, Step(c, st, cmd).inboxes[k], chunks + ChunkOf(c, st, cmd, k))
  {
    hide Accounted, Received, TakenOut, EventOf, EventIn, Lifecycle.Step, Lifecycle.Takes;
    assert chunks + [] == chunks;
    if !cmd.Accept? && !cmd.Tick? && Concerns(c, st, cmd, k) {
      if cmd.Read? && HasRoom(c, st.inboxes[k], cmd.chunk) {
        ReceivedAccounted(c, st.inboxes[k], chunks, cmd.chunk);
      } else if cmd.RunTask? {
        TakenOutAccounted(c, st.inboxes[k], chunks, cmd.which);
      }
    }
  }

  lemma EmptyAccounted(c: Config)
    ensures Accounted(c, EMPTY_INBOX, [])
  {
  }

  /** A session that a command brings in has received nothing. */
  lemma NewAccounted(c: Config, st: State, cmd: Command, k: nat)
    requires WellFormed(c, st) && k >= |st.inboxes|
    ensures ChunkOf(c, st, cmd, k) == []
    ensures k < |Step(c, st, cmd).inboxes| ==> Step(c, st, cmd).inboxes[k] == EMPTY_INBOX
  {
    hide EventOf, InboxAfter, Lifecycle.Step, Lifecycle.Takes;
  }

  lemma NeverFewer(c: Config, st: State, cmd: Command)
    requires WellFormed(c, st)
    ensures |st.inboxes| <= |Step(c, st, cmd).inboxes|
  {
    hide EventOf, InboxAfter, Lifecycle.Step, Lifecycle.Takes;
  }

  lemma {:induction false} RunAccounted(c: Config, commands: seq<Command>, k: nat)
    ensures if k < |Run(c, commands).inboxes| then Accounted(c, Run(c, commands).inboxes[k], Chunks(c, commands, k))
      else Chunks(c, commands, k) == []
    decreases |commands|
  {
    hide Accounted, Step, ChunkOf, WellFormed;
    if commands == [] {
    } else {
      var n := |commands| - 1;
      var st := Run(c, commands[..n]);
      RunAccounted(c, commands[..n], k);
      NeverFewer(c, st, commands[n]);
      if k < |st.inboxes| {
        StepAccounted(c, st, commands[n], k, Chunks(c, commands[..n], k));
      } else {
        EmptyAccounted(c);
        NewAccounted(c, st, commands[n], k);
      }
    }
  }

  /**
   Sessions do not disturb one another: in every run of the server, each session has framed exactly
   Parse of the bytes that it has itself received, and has dispatched each of those packets once, or
   holds it for a thread; without a pool, in order.
   */
  lemma Isolation(c: Config, commands: seq<Command>, k: nat)
    requires k < |Run(c, commands).inboxes|
    ensures var b, stream := Run(c, commands).inboxes[k], Flatten(Chunks(c, commands, k));
      && b.receiver.delivered == Parse(stream) && b.receiver.window == Rest(stream)
      && multiset(b.dispatched) + multiset(EncipherAll(b.waiting, c.cipher))
      == multiset(EncipherAll(Parse(stream), c.cipher))
      && (!c.hasThreadPool ==> b.dispatched == EncipherAll(Parse(stream), c.cipher))
  {
    RunAccounted(c, commands, k);
    hide Run, Chunks, Parse, Rest;
    Reception.ReceptionIsParse(c.bufferSize, Chunks(c, commands, k));
  }

  /** Each session counts as many posted closures as packets are waiting in its inbox. */
  predicate Counted(st: State) {
    |st.inboxes| == |st.world.conns| &&
    forall k :: 0 <= k < |st.inboxes| ==> st.world.conns[k].tasks == |st.inboxes[k].waiting|
  }

  lemma TakesCounted(c: Config, conn: Lifecycle.Conn, b: Inbox, cmd: Command)
    requires !cmd.Accept? && !cmd.Tick? && b.receiver.Consistent(c.bufferSize)
    requires Lifecycle.Takes(conn, EventOf(c, b, cmd)) && conn.tasks == |b.waiting|
    ensures Lifecycle.ConnStep(conn, EventOf(c, b, cmd)).tasks == |InboxAfter(c, b, cmd).waiting|
  {
    hide Parse, Rest, EncipherAll, Reception.AfterRead;
  }

  lemma StepCounted(c: Config, st: State, cmd: Command)
    requires WellFormed(c, st) && Counted(st)
    ensures Counted(Step(c, st, cmd))
  {
    if cmd.Accept? || cmd.Tick? {
      hide EventOf;
      assert EventIn(c, st, cmd) == EventOf(c, EMPTY_INBOX, cmd);
      EventKind(c, EMPTY_INBOX, cmd);
    } else if Concerns(c, st, cmd, cmd.i) {
      TakesCounted(c, st.world.conns[cmd.i], st.inboxes[cmd.i], cmd);
      EventKind(c, st.inboxes[cmd.i], cmd);
      Lifecycle.SessionStep(st.world, EventOf(c, st.inboxes[cmd.i], cmd));
      hide EventOf, InboxAfter, Lifecycle.ConnStep, Lifecycle.Takes, Lifecycle.Step;
    } else {
      NobodyTakes(c, st, cmd);
      hide Step;
    }
  }

  lemma NobodyTakes(c: Config, st: State, cmd: Command)
    requires WellFormed(c, st)
    ensures !cmd.Accept? && !cmd.Tick? && !Concerns(c, st, cmd, cmd.i) ==> Step(c, st, cmd) == st
  {
    hide Lifecycle.Takes;
  }

  lemma {:induction false} RunCounted(c: Config, commands: seq<Command>)
    ensures Counted(Run(c, commands))
    decreases |commands|
  {
    hide Step, Counted;
    if commands != [] {
      var n := |commands| - 1;
      RunCounted(c, commands[..n]);
      StepCounted(c, Run(c, commands[..n]), commands[n]);
    } else {
      EmptyCounted();
    }
  }

  lemma EmptyCounted()
    ensures Counted(EMPTY_STATE)
  {
  }

  /** The two messages that the server sends of its own accord are, deciphered, bare headers of their ids. */
  lemma OwnMessages(c: Config)
    ensures Deciphers(c, c.PingMessage(), S_PING)
    ensures c.Notice().Some? <==> c.sendsNotice
    ensures c.sendsNotice ==> Deciphers(c, c.Notice().value, S_DISCONNECT)
  {
    EncipherInvolution(Packet.Ping.Buffer(), c.cipher);
    EncipherInvolution(Packet.Disconnect.Buffer(), c.cipher);
    PacketBytes(Packet.Ping);
    PacketBytes(Packet.Disconnect);
    hide Encipher, Packet.Buffer;
  }

  lemma TickStep(c: Config, st: State, now: nat, timeout: nat)
    requires WellFormed(c, st)
    ensures Step(c, st, Tick(now, timeout))
      == State(Lifecycle.Step(st.world, Lifecycle.Event.Tick(now, timeout, c.PingMessage())), st.inboxes)
  {
    hide Lifecycle.Step, Config.PingMessage;
  }

  /** The message on the wire is, deciphered, the bare header of the given id. */
  predicate Deciphers(c: Config, message: seq<byte>, id: nat) {
    |message| == HEADER_SIZE && Encipher(message, c.cipher) == [HEADER_SIZE, 0, id % 256, id / 256 % 256]
  }

  /** What a tick leaves of a session: within the timeout one ping more in its queue, beyond it a closed socket. */
  predicate AfterTick(c: Config, s: Lifecycle.Conn, s': Lifecycle.Conn, registered: bool, now: nat, timeout: nat) {
    if !registered then s' == s
    else if (now - s.lastRecv) % U64_RANGE > timeout then s' == s.(open := false)
    else
      && |s'.chain.queue| == |s.chain.queue| + 1 && s'.chain.queue[..|s.chain.queue|] == s.chain.queue
      && Deciphers(c, s'.chain.queue[|s.chain.queue|], S_PING)
      && s'.chain.writes == (if s.chain.queue == [] then s.chain.writes + 1 else s.chain.writes)
      && s' == s.(chain := s.chain.(queue := s'.chain.queue, writes := s'.chain.writes))
  }

  lemma PingOnTheWire(c: Config, s: Lifecycle.Conn, s': Lifecycle.Conn, registered: bool, now: nat, timeout: nat)
    requires Lifecycle.AfterTick(s, s', registered, now, timeout, c.PingMessage())
    ensures AfterTick(c, s, s', registered, now, timeout)
  {
    OwnMessages(c);
    hide Encipher, Config.PingMessage, Deciphers;
  }

  /**
   A tick of the server: each registered session within the timeout has one message more in its queue,
   which deciphers to a ping; each registered one beyond it has its socket closed; nothing else happens
   to any session, to the registry or to an inbox.
   */
  lemma TickExactly(c: Config, commands: seq<Command>, now: nat, timeout: nat, k: nat)
    requires k < |Run(c, commands).world.conns|
    ensures var st, st' := Run(c, commands), Run(c, commands + [Tick(now, timeout)]);
      && st'.inboxes == st.inboxes && st'.world.registry == st.world.registry
      && |st'.world.conns| == |st.world.conns|
      && AfterTick(c, st.world.conns[k], st'.world.conns[k], k in st.world.registry.Values, now, timeout)
  {
    hide *;
    var st := Run(c, commands);
    RunSnoc(c, commands, Tick(now, timeout));
    TickStep(c, st, now, timeout);
    Lifecycle.TickedExactly(st.world, now, timeout, c.PingMessage(), k);
    PingOnTheWire(c, st.world.conns[k], Run(c, commands + [Tick(now, timeout)]).world.conns[k],
      k in st.world.registry.Values, now, timeout);
  }
}

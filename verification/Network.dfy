/**
 The objects: Session (with what PacketSession and GameSession add to it) and SessionManager. Their
 methods are proved to be steps of the machines of Reception and Lifecycle; Serving ties them to EndToEnd.
 */
module Network {
  import opened Bytes
  import opened Framing
  import opened Cipher
  import opened RecvBuffers
  import opened ClientPackets
  import opened SendQueue
  import Lifecycle
  import Reception

  /** The array's contents. */
  ghost predicate Holds(data: array<byte>, contents: seq<byte>)
    reads data
  {
    data[..] == contents
  }

  class Session {
    const manager: SessionManager
    const recvBuffer: RecvBuffer
    const cipher: Option<seq<byte>>
    const hasThreadPool: bool
    const hasTimer: bool
    const sendsNotice: bool          // GameSession's OnRequestGracefulDisconnect, not the default one

    var sessionId: nat
    var lastRecvTime: nat
    var disconnected: bool
    var open: bool                   // the socket
    var writeQueue: seq<seq<byte>>

    // what is left with the event loop and the thread pool
    var pendingReads: nat
    var pendingWrites: nat
    var graceTimers: nat
    var tasks: seq<array<byte>>      // packetData captured by each posted closure

    // what has been done to the outside
    var dispatched: seq<seq<byte>>
    ghost var calls: nat
    ghost var readEnded: bool
    ghost var writeEnded: bool
    ghost var asked: bool
    ghost var delivered: seq<seq<byte>>   // packets given to OnPacket
    ghost var pending: seq<seq<byte>>     // contents of tasks
    ghost var owned: set<array<byte>>     // every packetData ever made

    /** The session as Lifecycle sees it. */
    ghost function Life(): Lifecycle.Conn
      reads this
    {
      Lifecycle.Conn(sessionId, open, disconnected, pendingReads, readEnded,
        WriteChain(writeQueue, pendingWrites, writeEnded), lastRecvTime, calls, graceTimers, asked, |tasks|)
    }

    /** The session as Reception sees it. */
    ghost function Receiver(): Reception.Receiver
      requires recvBuffer.Valid()
      reads `delivered, recvBuffer, recvBuffer.data
    {
      Reception.Receiver(recvBuffer.Position(), recvBuffer.Window(), delivered)
    }

    /** What delivering the given packets adds to the tasks. */
    ghost function Posted(packets: seq<seq<byte>>): seq<seq<byte>> {
      if hasThreadPool then packets else []
    }

    /** What delivering the given packets hands to the dispatcher at once. */
    ghost function Handed(packets: seq<seq<byte>>): seq<seq<byte>> {
      if hasThreadPool then [] else EncipherAll(packets, cipher)
    }

    lemma DeliveryAppend(packets: seq<seq<byte>>, more: seq<seq<byte>>)
      ensures Posted([]) == [] && Handed([]) == []
      ensures Posted(packets + more) == Posted(packets) + Posted(more)
      ensures Handed(packets + more) == Handed(packets) + Handed(more)
    {
      EncipherAllAppend(packets, more, cipher);
    }

    /** Every posted task holds a copy of its own, apart from the receive buffer and from every other task's. */
    ghost predicate Valid()
      reads `pending, `tasks, `owned, recvBuffer, owned
    {
      && recvBuffer.Valid()
      && recvBuffer.data !in owned
      && |pending| == |tasks|
      && (forall i :: 0 <= i < |tasks| ==> tasks[i] in owned && Holds(tasks[i], pending[i]))
      && (forall i, j :: 0 <= i < j < |tasks| ==> tasks[i] != tasks[j])
    }

    constructor (manager: SessionManager, bufferSize: nat, cipher: Option<seq<byte>>,
                 hasThreadPool: bool, hasTimer: bool, sendsNotice: bool)
      ensures Valid() && fresh(recvBuffer) && fresh(recvBuffer.data)
      ensures Receiver() == Reception.EMPTY_RECEIVER && tasks == [] && dispatched == [] && owned == {}
      ensures Life() == Lifecycle.UNSTARTED
      ensures this.manager == manager && this.cipher == cipher && recvBuffer.bufferSize == bufferSize
      ensures this.hasThreadPool == hasThreadPool && this.hasTimer == hasTimer && this.sendsNotice == sendsNotice
    {
      this.manager, this.cipher := manager, cipher;
      this.hasThreadPool, this.hasTimer, this.sendsNotice := hasThreadPool, hasTimer, sendsNotice;
      recvBuffer := new RecvBuffer(bufferSize);
      sessionId, lastRecvTime, disconnected, open, writeQueue := 0, 0, false, true, [];
      pendingReads, pendingWrites, graceTimers, tasks := 0, 0, 0, [];
      dispatched := [];
      calls, readEnded, writeEnded, asked, delivered, pending, owned := 0, false, false, false, [], [], {};
      new;
      assert recvBuffer.Window() == [];
    }

    method Start(now: nat)
      requires pendingReads == 0
      modifies `sessionId, `lastRecvTime, `pendingReads, manager
      ensures Life() == old(Life()).(id := old(manager.sessionIdGen), lastRecv := now, pendingReads := 1)
      ensures manager.sessionIdGen == (old(manager.sessionIdGen) + 1) % U32_RANGE
      ensures manager.sessions == if sessionId in old(manager.sessions) then old(manager.sessions)
        else old(manager.sessions)[sessionId := this]
    {
      sessionId := manager.Add(this);
      lastRecvTime := now;
      DoRead();
    }

    method DoRead()
      modifies `pendingReads
      ensures pendingReads == old(pendingReads) + 1
      ensures Life() == old(Life()).(pendingReads := old(pendingReads) + 1)
    {
      pendingReads := pendingReads + 1;
    }

    /** The bytes that the socket layer has put at the write cursor. */
    ghost function Incoming(length: nat): (chunk: seq<byte>)
      requires recvBuffer.Valid() && length <= recvBuffer.FreeSize()
      reads recvBuffer, recvBuffer.data
      ensures |chunk| == length
    {
      recvBuffer.data[recvBuffer.writePos..recvBuffer.writePos + length]
    }

    /** The completion handler of a read of `length` bytes, which the socket layer has put at the write cursor. */
    method OnReadComplete(error: bool, length: nat, now: nat)
      requires Valid() && pendingReads > 0
      modifies this, recvBuffer, recvBuffer.data, manager`sessions
      ensures Valid() && fresh(owned - old(owned))
      ensures writeQueue == old(writeQueue)
      ensures error || length > old(recvBuffer.FreeSize()) ==>
        && Life() == old(Life()).ReadFailed()
        && manager.sessions == old(manager.sessions) - {sessionId}
        && Receiver() == old(Receiver()) && tasks == old(tasks) && pending == old(pending) && dispatched == old(dispatched)
      ensures !error && length <= old(recvBuffer.FreeSize()) ==>
        && manager.sessions == old(manager.sessions)
        && var chunk, packets := old(Incoming(length)), Parse(old(recvBuffer.Window() + Incoming(length)));
        && Receiver() == Reception.AfterRead(old(Receiver()), recvBuffer.bufferSize, chunk)
        && Life() == old(Life()).ReadOk(now, |Posted(packets)|)
        && pending == old(pending) + Posted(packets)
        && dispatched == old(dispatched) + Handed(packets)
    {
      hide Parse, Rest, Session.Posted, Session.Handed, Holds, Reception.AfterRead, Session.Incoming;
      hide RecvBuffer.Window, RecvBuffer.Position, RecvBuffer.FreeSize, Session.Valid, Session.Receiver, Session.Life;
      if !error {
        var ok := ReceiveChunk(length, now);
        if !ok {
          EndReadChain();
          return;
        }
        TakeRead();
        DoRead();
      } else {
        EndReadChain();
      }
    }

    /** The completed read is outstanding no longer. */
    method TakeRead()
      requires pendingReads > 0
      modifies `pendingReads
      ensures pendingReads == old(pendingReads) - 1
      ensures Life() == old(Life()).(pendingReads := old(pendingReads) - 1)
    {
      pendingReads := pendingReads - 1;
    }

    /** That handler's work on the buffer: OnWrite, OnRecv, OnRead and Clean. */
    method ReceiveChunk(length: nat, now: nat) returns (ok: bool)
      requires Valid()
      modifies `lastRecvTime, `delivered, `tasks, `pending, `owned, `dispatched, recvBuffer, recvBuffer.data
      ensures Valid() && ok == (length <= old(recvBuffer.FreeSize())) && fresh(owned - old(owned))
      ensures !ok ==>
        && Receiver() == old(Receiver()) && tasks == old(tasks) && pending == old(pending)
        && dispatched == old(dispatched) && Life() == old(Life())
      ensures ok ==>
        var chunk, packets := old(Incoming(length)), Parse(old(recvBuffer.Window() + Incoming(length)));
        && Life() == old(Life()).(lastRecv := now, tasks := old(Life()).tasks + |Posted(packets)|)
        && Receiver() == Reception.AfterRead(old(Receiver()), recvBuffer.bufferSize, chunk)
        && pending == old(pending) + Posted(packets)
        && dispatched == old(dispatched) + Handed(packets)
    {
      hide Parse, Rest, Session.Posted, Session.Handed, Holds, Reception.Written, Reception.Processed;
      hide Session.Incoming, RecvBuffer.Window, Session.Life;
      ok := AcceptWrite(length);
      if ok {
        ProcessData(now);
      }
    }

    /** The beginning of that handler: RecvBuffer::OnWrite. */
    method AcceptWrite(length: nat) returns (ok: bool)
      requires Valid()
      modifies recvBuffer`writePos
      ensures Valid() && ok == (length <= old(recvBuffer.FreeSize()))
      ensures ok ==> recvBuffer.Window() == old(recvBuffer.Window() + Incoming(length))
      ensures ok ==> Receiver() == Reception.Written(old(Receiver()), recvBuffer.bufferSize, old(Incoming(length)))
      ensures !ok ==> Receiver() == old(Receiver())
      ensures Life() == old(Life())
    {
      hide Holds;
      ok := recvBuffer.OnWrite(length);
    }

    /** The middle of that handler: OnRecv, OnRead (which cannot fail here) and Clean. */
    method ProcessData(now: nat)
      requires Valid()
      modifies `lastRecvTime, `delivered, `tasks, `pending, `owned, `dispatched, recvBuffer, recvBuffer.data
      ensures Valid()
      ensures Receiver() == Reception.Processed(old(Receiver()), recvBuffer.bufferSize)
      ensures var packets := Parse(old(recvBuffer.Window()));
        && Life() == old(Life()).(lastRecv := now, tasks := old(Life()).tasks + |Posted(packets)|)
        && pending == old(pending) + Posted(packets)
        && dispatched == old(dispatched) + Handed(packets)
      ensures fresh(owned - old(owned))
    {
      hide Parse, Rest, Session.Posted, Session.Handed, Holds, Session.Life;
      ghost var before := Receiver();
      var processed := OnRecv(now);
      assert recvBuffer.Window() == before.window && recvBuffer.Position() == before.cursors;
      var ok := recvBuffer.OnRead(processed);
      if !ok {
        assert false;
      }
      assert recvBuffer.Window() == Rest(before.window);
      assert recvBuffer.Position()
        == before.cursors.(readPos := before.cursors.writePos - |Rest(before.window)|);
      recvBuffer.Clean();
    }

    /** The end of the read chain: SessionManager::Remove and OnDisconnected, and no further read. */
    method EndReadChain()
      requires pendingReads > 0
      modifies `pendingReads, `calls, `readEnded, manager`sessions
      ensures Life() == old(Life()).ReadFailed()
      ensures manager.sessions == old(manager.sessions) - {sessionId}
    {
      TakeRead();
      manager.Remove(sessionId);
      calls, readEnded := calls + 1, true;
    }

    method UpdateLastRecvTime(now: nat)
      modifies `lastRecvTime
      ensures Life() == old(Life()).(lastRecv := now)
    {
      lastRecvTime := now;
    }

    /** The framing loop: it delivers Parse of the window and reports all but its Rest as processed. */
    method OnRecv(now: nat) returns (processed: nat)
      requires Valid()
      modifies `lastRecvTime, `delivered, `tasks, `pending, `owned, `dispatched
      ensures Valid()
      ensures processed <= recvBuffer.DataSize()
      ensures recvBuffer.Window()[processed..] == Rest(recvBuffer.Window())
      ensures var packets := Parse(recvBuffer.Window());
        && Life() == old(Life()).(lastRecv := now, tasks := old(Life()).tasks + |Posted(packets)|)
        && delivered == old(delivered) + packets
        && pending == old(pending) + Posted(packets)
        && dispatched == old(dispatched) + Handed(packets)
      ensures fresh(owned - old(owned))
    {
      hide Parse, Rest, Session.Posted, Session.Handed, Holds, Cut, SizeField, Session.Life;
      UpdateLastRecvTime(now);
      processed := 0;
      var dataSize := recvBuffer.DataSize();
      ghost var window := recvBuffer.Window();
      ghost var done: seq<seq<byte>> := [];
      CutStart(window);
      DeliveryAppend([], []);
      while dataSize > processed
        invariant Valid()
        invariant processed <= dataSize && Cut(window, processed, done)
        invariant Life() == old(Life()).(lastRecv := now, tasks := old(Life()).tasks + |Posted(done)|)
        invariant delivered == old(delivered) + done
        invariant pending == old(pending) + Posted(done)
        invariant dispatched == old(dispatched) + Handed(done)
        invariant fresh(owned - old(owned))
      {
        ghost var rest := window[processed..];
        if dataSize - processed < HEADER_SIZE {
          break;
        }
        var size := PeekSize(processed);
        if size > dataSize - processed {
          break;
        }
        if size < HEADER_SIZE {
          break;
        }
        DeliverNext(processed, size, rest[..size]);
        DeliveryAppend(done, [rest[..size]]);
        CutNext(window, processed, done);
        done := done + [rest[..size]];
        processed := processed + size;
      }
      CutEnd(window, processed, done);
    }

    /** The loop's call of OnPacket, for the packet at the given distance from the read cursor. */
    method DeliverNext(processed: nat, size: nat, ghost packet: seq<byte>)
      requires Valid() && processed + size <= recvBuffer.DataSize()
      requires packet == recvBuffer.Window()[processed..][..size]
      modifies `delivered, `tasks, `pending, `owned, `dispatched
      ensures Valid() && Life() == old(Life()).(tasks := old(Life()).tasks + |Posted([packet])|)
      ensures delivered == old(delivered) + [packet]
      ensures pending == old(pending) + Posted([packet])
      ensures dispatched == old(dispatched) + Handed([packet])
      ensures fresh(owned - old(owned))
    {
      hide Session.Posted, Session.Handed, Holds, Session.Life;
      var readPos := recvBuffer.readPos;
      assert recvBuffer.data[readPos + processed..readPos + processed + size] == packet;
      OnPacket(readPos + processed, size, packet);
    }

    /** The size field of the header at the given distance from the read cursor. */
    method PeekSize(processed: nat) returns (size: nat)
      requires recvBuffer.Valid() && processed + HEADER_SIZE <= recvBuffer.DataSize()
      ensures size == SizeField(recvBuffer.Window()[processed..])
    {
      var at := recvBuffer.readPos + processed;
      var low: nat, high: nat := recvBuffer.data[at], recvBuffer.data[at + 1];
      size := low + 256 * high;
    }

    /** PacketSession::OnPacket: post a task that owns a copy, or decrypt a copy and dispatch it at once. */
    method OnPacket(offset: nat, len: nat, ghost packet: seq<byte>)
      requires Valid() && offset + len <= recvBuffer.data.Length
      requires packet == recvBuffer.data[offset..offset + len]
      modifies `delivered, `tasks, `pending, `owned, `dispatched
      ensures Valid() && Life() == old(Life()).(tasks := old(Life()).tasks + |Posted([packet])|)
      ensures delivered == old(delivered) + [packet]
      ensures pending == old(pending) + Posted([packet])
      ensures dispatched == old(dispatched) + Handed([packet])
      ensures fresh(owned - old(owned))
    {
      hide Holds, Session.Valid;
      var packetData := CopyOut(offset, len);
      delivered := delivered + [packet];
      if hasThreadPool {
        Post(packetData, packet);
      } else {
        var decrypted := EncipherMessage(packetData[..], cipher);
        dispatched := dispatched + [decrypted];
      }
    }

    /** std::vector<uint8_t> packetData(buffer, buffer + len). */
    method CopyOut(offset: nat, len: nat) returns (packetData: array<byte>)
      requires offset + len <= recvBuffer.data.Length
      ensures fresh(packetData) && Holds(packetData, recvBuffer.data[offset..offset + len])
    {
      var buffer := recvBuffer.data;
      packetData := new byte[len](i requires 0 <= i < len && offset + len <= buffer.Length reads buffer =>
        buffer[offset + i]);
    }

    /** IThreadPool::Post: the closure owns the copy. */
    method Post(packetData: array<byte>, ghost packet: seq<byte>)
      requires Valid() && Holds(packetData, packet)
      requires packetData !in owned && packetData != recvBuffer.data
      modifies `tasks, `pending, `owned
      ensures Valid() && Life() == old(Life()).(tasks := old(Life()).tasks + 1)
      ensures pending == old(pending) + [packet] && owned == old(owned) + {packetData}
    {
      hide Holds;
      tasks := tasks + [packetData];
      owned := owned + {packetData};
      pending := pending + [packet];
    }

    /** A pool thread runs the i-th posted closure: it deciphers its own copy in place and dispatches it. */
    method RunTask(i: nat)
      requires Valid() && i < |tasks|
      modifies `tasks, `pending, `dispatched, tasks[i]
      ensures Valid()
      ensures pending == old(pending[..i] + pending[i + 1..]) && Life() == old(Life()).TaskDone()
      ensures dispatched == old(dispatched) + [Encipher(old(pending[i]), cipher)]
      ensures recvBuffer.Window() == old(recvBuffer.Window())
    {
      var packetData := tasks[i];
      tasks := tasks[..i] + tasks[i + 1..];
      pending := pending[..i] + pending[i + 1..];
      if cipher.Some? {
        EncipherInPlace(packetData, cipher.value);
      }
      dispatched := dispatched + [packetData[..]];
    }

    /** PacketSession::Send, then Session::Send. */
    method Send(msg: seq<byte>)
      modifies `writeQueue, `pendingWrites
      ensures Life() == old(Life()).Sending(Encipher(msg, cipher))
      ensures writeQueue == old(writeQueue) + [Encipher(msg, cipher)]
      ensures pendingWrites == old(pendingWrites) + (if old(writeQueue) == [] then 1 else 0)
    {
      var encryptedMsg := EncipherMessage(msg, cipher);
      var writeInProgress := |writeQueue| != 0;
      writeQueue := writeQueue + [encryptedMsg];
      if !writeInProgress {
        DoWrite();
      }
    }

    method DoWrite()
      modifies `pendingWrites
      ensures pendingWrites == old(pendingWrites) + 1
    {
      pendingWrites := pendingWrites + 1;
    }

    /** The completion handler of a write. */
    method OnWriteComplete(error: bool)
      requires pendingWrites > 0 && writeQueue != []
      modifies `writeQueue, `pendingWrites, `calls, `writeEnded, manager`sessions
      ensures Life() == if error then old(Life()).WriteFailed() else old(Life()).WriteOk()
      ensures manager.sessions == if error then old(manager.sessions) - {sessionId} else old(manager.sessions)
      ensures error ==>
        && writeQueue == old(writeQueue) && pendingWrites == old(pendingWrites) - 1
        && writeEnded && calls == old(calls) + 1
      ensures !error ==>
        && writeQueue == old(writeQueue)[1..] && writeEnded == old(writeEnded) && calls == old(calls)
        && pendingWrites == (if |old(writeQueue)| > 1 then old(pendingWrites) else old(pendingWrites) - 1)
    {
      pendingWrites := pendingWrites - 1;
      if !error {
        writeQueue := writeQueue[1..];
        if |writeQueue| != 0 {
          DoWrite();
        }
      } else {
        manager.Remove(sessionId);
        calls, writeEnded := calls + 1, true;
      }
    }

    /** The unsigned comparison of GetLastRecvTime with the time of the tick. */
    method IsOverdue(now: nat, timeoutInterval: nat) returns (overdue: bool)
      ensures overdue == Life().Overdue(now, timeoutInterval)
    {
      overdue := (now - lastRecvTime) % U64_RANGE > timeoutInterval;
    }

    /** GetSocket().close(). */
    method CloseSocket()
      modifies `open
      ensures Life() == old(Life()).(open := false)
    {
      open := false;
    }

    /** `throws`: whether the socket layer throws while the socket is being shut down. */
    method ForceDisconnect(throws: bool)
      modifies `disconnected, `open, `calls, manager`sessions
      ensures Life() == old(Life()).Force(throws)
      ensures manager.sessions == if old(disconnected) then old(manager.sessions) else old(manager.sessions) - {sessionId}
      ensures disconnected && calls == old(calls) + (if old(disconnected) then 0 else 1)
      ensures open == (old(open) && (throws || old(disconnected)))
    {
      if disconnected {
        return;
      }
      disconnected := true;
      if open && !throws {
        open := false;
      }
      manager.Remove(sessionId);
      calls := calls + 1;
    }

    /** The notice that the hook sends, if it sends one. */
    ghost function Notice(): Option<seq<byte>> {
      if sendsNotice then Some(Encipher(PacketBuffer(S_DISCONNECT, Disconnect), cipher)) else None
    }

    /** With a hook that sends a notice and a timer, the session is left alone until the client or the timer acts. */
    method GracefulDisconnect(throws: bool)
      modifies `disconnected, `open, `calls, `writeQueue, `pendingWrites, `graceTimers, `asked, manager`sessions
      ensures Life() == old(Life()).Graceful(Notice(), hasTimer, throws)
      ensures disconnected == (old(disconnected) || !hasTimer || !sendsNotice)
      ensures old(disconnected) || !disconnected ==>
        open == old(open) && calls == old(calls) && manager.sessions == old(manager.sessions)
      ensures disconnected && !old(disconnected) ==>
        open == (old(open) && throws) && calls == old(calls) + 1 && manager.sessions == old(manager.sessions) - {sessionId}
      ensures graceTimers == old(graceTimers) + (if hasTimer && !old(disconnected) then 1 else 0)
      ensures writeQueue == old(writeQueue)
        + (if sendsNotice && !old(disconnected) then [Encipher(PacketBuffer(S_DISCONNECT, Disconnect), cipher)] else [])
      ensures manager.sessions == if calls == old(calls) then old(manager.sessions) else old(manager.sessions) - {sessionId}
    {
      if disconnected {
        return;
      }
      OnRequestGracefulDisconnect(throws);
      asked := true;
      if hasTimer {
        graceTimers := graceTimers + 1;
      } else {
        ForceDisconnect(throws);
      }
    }

    method OnRequestGracefulDisconnect(throws: bool)
      modifies `disconnected, `open, `calls, `writeQueue, `pendingWrites, manager`sessions
      ensures Life() == if Notice().Some? then old(Life()).Sending(Notice().value) else old(Life()).Force(throws)
      ensures manager.sessions == if calls == old(calls) then old(manager.sessions) else old(manager.sessions) - {sessionId}
    {
      if sendsNotice {
        var sendBuffer := MakeSendBuffer(S_DISCONNECT, Disconnect);
        Send(sendBuffer);
      } else {
        ForceDisconnect(throws);
      }
    }

    /** The closure of the 10-second safety timer. */
    method OnGraceTimer(throws: bool)
      requires graceTimers > 0
      modifies `disconnected, `open, `calls, `graceTimers, manager`sessions
      ensures Life() == old(Life()).GraceTimer(throws)
      ensures disconnected && graceTimers == old(graceTimers) - 1
      ensures calls == old(calls) + (if old(disconnected) then 0 else 1)
      ensures open == (old(open) && (throws || old(disconnected)))
      ensures manager.sessions == if calls == old(calls) then old(manager.sessions) else old(manager.sessions) - {sessionId}
    {
      graceTimers := graceTimers - 1;
      if !disconnected {
        ForceDisconnect(throws);
      }
    }

    /** The ping as it goes into the write queue. */
    ghost function PingMessage(): seq<byte> {
      Encipher(PacketBuffer(S_PING, Ping), cipher)
    }

    /** ClientPacketHandler::HandlePacket on this session: a login is answered through Send. */
    method HandleDispatched(packet: seq<byte>) returns (handling: Handling)
      requires |packet| >= HEADER_SIZE
      modifies `writeQueue, `pendingWrites
      ensures handling == Handle(packet)
      ensures Life() == if handling.HandledLogin? then old(Life()).Sending(Encipher(handling.reply, cipher)) else old(Life())
    {
      handling := HandlePacket(packet);
      if handling.HandledLogin? {
        Send(handling.reply);
      }
    }

    method SendHeartbeat()
      modifies `writeQueue, `pendingWrites
      ensures Life() == old(Life()).Sending(PingMessage())
    {
      var sendBuffer := MakeSendBuffer(S_PING, Ping);
      Send(sendBuffer);
    }
  }

  /** The first `processed` bytes of the window have been cut into the packets `done`. */
  ghost predicate Cut(window: seq<byte>, processed: nat, done: seq<seq<byte>>) {
    && processed <= |window|
    && Parse(window) == done + Parse(window[processed..])
    && Rest(window) == Rest(window[processed..])
  }

  lemma CutStart(window: seq<byte>)
    ensures Cut(window, 0, [])
  {
    assert window[0..] == window;
  }

  lemma CutNext(window: seq<byte>, processed: nat, done: seq<seq<byte>>)
    requires Cut(window, processed, done) && Complete(window[processed..])
    ensures var size := SizeField(window[processed..]);
      Cut(window, processed + size, done + [window[processed..][..size]])
  {
    var rest := window[processed..];
    assert rest[SizeField(rest)..] == window[processed + SizeField(rest)..];
  }

  lemma CutEnd(window: seq<byte>, processed: nat, done: seq<seq<byte>>)
    requires Cut(window, processed, done) && !Complete(window[processed..])
    ensures done == Parse(window) && window[processed..] == Rest(window)
  {
  }

  /** The message on the wire is, deciphered, a packet that consists of a header with the id of a ping. */
  ghost predicate Pings(message: seq<byte>, cipher: Option<seq<byte>>) {
    Encipher(message, cipher) == [HEADER_SIZE, 0, S_PING % 256, S_PING / 256]
  }

  lemma PingDeciphers(s: Session)
    ensures Pings(s.PingMessage(), s.cipher)
  {
    EncipherInvolution(PacketBuffer(S_PING, Ping), s.cipher);
    PacketBytes(Ping);
    hide Encipher;
  }

  /**
   What a tick leaves of a registered session, given what it was before: one ping more in the queue, and
   a write started if there was none, or else a closed socket.
   */
  ghost predicate AfterTick(s: Session, queue: seq<seq<byte>>, writes: nat, open: bool, last: nat, now: nat, timeout: nat)
    reads s
  {
    if (now - last) % U64_RANGE <= timeout then
      && s.open == open
      && |s.writeQueue| == |queue| + 1 && s.writeQueue[..|queue|] == queue && Pings(s.writeQueue[|queue|], s.cipher)
      && s.pendingWrites == (if queue == [] then writes + 1 else writes)
    else
      !s.open && s.writeQueue == queue && s.pendingWrites == writes
  }

  lemma BeatIsTick(s: Session, life: Lifecycle.Conn, now: nat, timeout: nat)
    requires s.Life() == life.Beat(now, timeout, s.PingMessage())
    ensures AfterTick(s, life.chain.queue, life.chain.writes, life.open, life.lastRecv, now, timeout)
  {
    PingDeciphers(s);
    hide Pings, Session.PingMessage;
  }

  class SessionManager {
    var sessions: map<nat, Session>
    var sessionIdGen: nat

    constructor ()
      ensures sessions == map[] && sessionIdGen == 1
    {
      sessions, sessionIdGen := map[], 1;
    }

    /** fetch_add on a 32-bit counter, then insert, which leaves an existing entry alone. */
    method Add(session: Session) returns (id: nat)
      modifies this
      ensures id == old(sessionIdGen) && sessionIdGen == (id + 1) % U32_RANGE
      ensures sessions == if id in old(sessions) then old(sessions) else old(sessions)[id := session]
    {
      id := sessionIdGen;
      sessionIdGen := (sessionIdGen + 1) % U32_RANGE;
      if id !in sessions {
        sessions := sessions[id := session];
      }
    }

    method Remove(id: nat)
      modifies `sessions
      ensures sessions == old(sessions) - {id}
    {
      sessions := sessions - {id};
    }

    method Find(id: nat) returns (session: Session?)
      ensures session == if id in sessions then sessions[id] else null
    {
      session := if id in sessions then sessions[id] else null;
    }

    method GetSessionCount() returns (count: nat)
      ensures count == |sessions|
    {
      count := |sessions|;
    }

    /** No session is registered twice. */
    ghost predicate Distinct()
      reads this
    {
      forall a, b :: a in sessions && b in sessions && a != b ==> sessions[a] != sessions[b]
    }

    method Broadcast(buffer: seq<byte>)
      requires Distinct()
      modifies sessions.Values`writeQueue, sessions.Values`pendingWrites
      ensures forall id :: id in sessions ==>
        sessions[id].Life() == old(sessions[id].Life()).Sending(Encipher(buffer, sessions[id].cipher))
      ensures forall id :: id in sessions ==>
        && sessions[id].writeQueue == old(sessions[id].writeQueue) + [Encipher(buffer, sessions[id].cipher)]
        && sessions[id].pendingWrites
        == old(sessions[id].pendingWrites) + (if old(sessions[id].writeQueue) == [] then 1 else 0)
    {
      SendAll(buffer);
      hide Encipher;
    }

    /** Broadcast's loop. */
    method SendAll(buffer: seq<byte>)
      requires Distinct()
      modifies sessions.Values`writeQueue, sessions.Values`pendingWrites
      ensures forall id :: id in sessions ==>
        sessions[id].Life() == old(sessions[id].Life()).Sending(Encipher(buffer, sessions[id].cipher))
    {
      hide Session.Life, Lifecycle.Conn.Sending, Encipher;
      var todo := sessions.Keys;
      while todo != {}
        invariant todo <= sessions.Keys
        invariant forall id :: id in todo ==> sessions[id].Life() == old(sessions[id].Life())
        invariant forall id :: id in sessions.Keys - todo ==>
          sessions[id].Life() == old(sessions[id].Life()).Sending(Encipher(buffer, sessions[id].cipher))
        decreases todo
      {
        var id :| id in todo;
        sessions[id].Send(buffer);
        todo := todo - {id};
      }
    }

    /** The first half of CheckHeartbeat, under the lock: collect the overdue sessions and ping the others. */
    method PingOrCollect(now: nat, timeoutInterval: nat) returns (deadSessions: seq<nat>)
      requires Distinct()
      modifies sessions.Values`writeQueue, sessions.Values`pendingWrites
      ensures forall id :: id in deadSessions <==> id in sessions && old(sessions[id].Life()).Overdue(now, timeoutInterval)
      ensures forall id :: id in sessions ==>
        sessions[id].Life() == if id in deadSessions then old(sessions[id].Life())
          else old(sessions[id].Life()).Sending(sessions[id].PingMessage())
    {
      hide Lifecycle.Conn.Sending, Session.PingMessage, Session.Life, Lifecycle.Conn.Overdue;
      deadSessions := [];
      var todo := sessions.Keys;
      while todo != {}
        invariant todo <= sessions.Keys
        invariant forall id :: id in deadSessions <==>
          id in sessions && id !in todo && old(sessions[id].Life()).Overdue(now, timeoutInterval)
        invariant forall id :: id in sessions ==>
          sessions[id].Life() == if id in todo || id in deadSessions then old(sessions[id].Life())
            else old(sessions[id].Life()).Sending(sessions[id].PingMessage())
        decreases todo
      {
        var id :| id in todo;
        var session := sessions[id];
        var overdue := session.IsOverdue(now, timeoutInterval);
        if overdue {
          deadSessions := deadSessions + [id];
        } else {
          session.SendHeartbeat();
        }
        todo := todo - {id};
      }
    }

    /** The second half, after the lock is released: close the sockets of the sessions found dead. */
    method CloseDead(deadSessions: seq<nat>)
      requires Distinct()
      modifies sessions.Values`open
      ensures forall id :: id in sessions ==>
        sessions[id].Life() == if id in deadSessions then old(sessions[id].Life()).(open := false)
          else old(sessions[id].Life())
    {
      hide Session.Life;
      var i := 0;
      ghost var closed: set<nat> := {};
      while i < |deadSessions|
        invariant 0 <= i <= |deadSessions|
        invariant forall k :: 0 <= k < i ==> deadSessions[k] in closed
        invariant forall id :: id in closed ==> id in deadSessions
        invariant forall id :: id in sessions ==>
          sessions[id].Life() == if id in closed then old(sessions[id].Life()).(open := false)
            else old(sessions[id].Life())
      {
        var session := Find(deadSessions[i]);
        if session != null {
          session.CloseSocket();
        }
        closed := closed + {deadSessions[i]};
        i := i + 1;
      }
    }

    /** One heartbeat tick: overdue sessions have their sockets closed, all others are pinged, and nothing else happens. */
    method CheckHeartbeat(now: nat, timeoutInterval: nat)
      requires Distinct()
      modifies sessions.Values`writeQueue, sessions.Values`pendingWrites, sessions.Values`open
      ensures forall id :: id in sessions ==>
        sessions[id].Life() == old(sessions[id].Life()).Beat(now, timeoutInterval, sessions[id].PingMessage())
      ensures forall id :: id in sessions ==>
        AfterTick(sessions[id], old(sessions[id].writeQueue), old(sessions[id].pendingWrites), old(sessions[id].open),
          old(sessions[id].lastRecvTime), now, timeoutInterval)
    {
      hide Lifecycle.Conn.Beat, Session.PingMessage, AfterTick;
      BeatRegistered(now, timeoutInterval);
      forall id | id in sessions
        ensures AfterTick(sessions[id], old(sessions[id].writeQueue), old(sessions[id].pendingWrites),
          old(sessions[id].open), old(sessions[id].lastRecvTime), now, timeoutInterval)
      {
        BeatIsTick(sessions[id], old(sessions[id].Life()), now, timeoutInterval);
      }
    }

    /** The two halves of a tick. */
    method BeatRegistered(now: nat, timeoutInterval: nat)
      requires Distinct()
      modifies sessions.Values`writeQueue, sessions.Values`pendingWrites, sessions.Values`open
      ensures forall id :: id in sessions ==>
        sessions[id].Life() == old(sessions[id].Life()).Beat(now, timeoutInterval, sessions[id].PingMessage())
    {
      hide Lifecycle.Conn.Sending, Session.PingMessage, Lifecycle.Conn.Overdue;
      var deadSessions := PingOrCollect(now, timeoutInterval);
      CloseDead(deadSessions);
    }
  }
}

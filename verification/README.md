# ToyServer transport, proved in Dafny

ToyServer is a C++ game-server framework. This project models its message transport and what stands
around it, and proves properties of that model for every input and every run:

- **Transport.** `PacketSession::Send` enciphers packet bodies, the write queue keeps one write in
  flight, the network splits the bytes as it likes, and the other side reassembles them in a buffer
  that is compacted in place, cuts them into packets, deciphers and dispatches them, directly or
  through a thread pool. The specification of the receiving side is `Framing.Parse`, applied to the
  whole byte history.
- **Typed packets.** `PacketStream`, `MakeSendBuffer`, the dispatcher and `HandlePacket`, with their
  real 16-bit lengths, carried through the transport.
- **Sessions.** The read chain, the write chain, forced and graceful disconnection, the registry, what
  keeps a session in existence, the repeating timer and the heartbeat, up to a whole conversation in
  which pings and pongs travel over the transport.
- **Packet memory.** The pool behind `IPacketFactory`, with interleaved threads.

## How it is laid out

| file | content |
|---|---|
| Bytes.dfy | bytes, little-endian integers, exclusive or, wrapping counters |
| Framing.dfy | `Parse`, `Rest` and what characterises them |
| Cipher.dfy | the in-place XOR loop and the cipher on packet bodies |
| RecvBuffer.dfy | the `RecvBuffer` class over an array |
| Reception.dfy | whole receive histories, buffer arithmetic, cost of compaction |
| SendQueue.dfy | the write queue and what reaches the wire |
| EndToEnd.dfy | sender, wire, receiver and pool as one machine |
| PacketStream.dfy, Dispatcher.dfy, ClientPackets.dfy | serialisation, dispatch, typed packets |
| Lifecycle.dfy | sessions and the registry as one machine |
| Heartbeat.dfy | the failure detector, alone and inside the registry |
| Timers.dfy | repeating timers and the manager's classes |
| Conversation.dfy | two links, an answering peer and the detector as one timed machine |
| RegistryTalk.dfy | the conversation inside the registry, among other sessions |
| PacketPool.dfy | the packet pool |
| Server.dfy | a whole server as one machine: the world of Lifecycle with every session's reception |
| Network.dfy | the classes `Session` and `SessionManager` |
| Serving.dfy | session objects driven by any list of chunks or link events |
| RegistryServing.dfy | a manager and its sessions driven by any list of commands |

The C++ classes are Dafny classes whose methods follow the C++ bodies. The results about all runs are
lemmas about lists of events of pure machines, and the objects are tied to the machines as follows.

- `Serving.ServeReads` and `Serving.ServeLink` drive session objects with any list of chunks and any
  list of `EndToEnd` events, and end in the state of the machine's run.
- `Timers.ServeTimers` does the same for the timer manager and its timers.
- `RegistryServing.ServeWorld` drives a `SessionManager` and any number of sessions with any list of
  commands (acceptances, reads, writes, calls, pool tasks, timers, ticks), and ends in the state of the
  run of `Server`, whose world is a run of `Lifecycle` (`Server.WorldRuns`).
- `PacketPools.CreatePacket` and `DestroyPacket` are runs of the pool's machine.

## Assumptions

- Integers are copied in the target's layout, taken to be little-endian.
- `Send` and each completion handler are atomic. The code takes no lock around `_writeQueue`
  (Framework/Network/Session.cpp:148-154), so for the write queue this is an assumption.
- `Start` is atomic, runs once per session and before any disconnection. In the code a tick between
  `Add` and `UpdateLastRecvTime` would still see a last-receive time of 0.
- A heartbeat tick is atomic. `now - lastRecv` is computed modulo 2^64 as in the code; that a session's
  last reception is not after the tick comes from the order of its events (`Heartbeat.Ordered`).
- Completion handlers do not run inside the call that starts them; a read returns at most as many
  bytes as it was offered room for, and no byte only if it was offered no room.
- Both peers hold the same key, and a dispatcher is set.
- A session lives as long as something holds it: the registry, a pending read or write
  (Framework/Network/Session.cpp:90-92, 157-160), a pending safety timer (67-68) or a posted closure
  (Framework/Network/PacketSession.h:66-69). Handlers keep no reference to it. When the last of these
  lets go, the destructor closes the socket (Framework/Network/Session.h:51).
  `Lifecycle.Conn.SocketOpen` says both: not closed by a call, and still held.
- In a conversation no read of the session fails and nobody forces it, and the peer answers a ping as
  examples/ClientStruct/ClientPacketHandler.cpp:26-33 does; handling a packet is one step.
- `size_t` arithmetic does not overflow; 16-, 32- and 64-bit casts and counters are written out.

## What the code does against its comments

- `OnDisconnected` is not called once per session: up to three chains call it
  (`Lifecycle.LifecycleBounds`, `Lifecycle.ThreeCalls`). A call is the first exactly when the session
  is still registered (`Lifecycle.FirstCallIffRegistered`).
- The comment at Framework/Network/PacketSession.h:47 names the header fields in the order id, size;
  the structure has size first (Framework/Packet/PacketHeader.h:7-10), and the model follows it.
- A header with a size below 4 is never skipped. Reception is over exactly when such a size field
  stands at the front of the remainder, for which two bytes are enough (`Framing.DoomedExactly`,
  `Framing.TwoBytesDoom`). Once the buffer is full behind it, reads of no bytes complete for ever
  (`EndToEnd.FullBufferIsFinal`), and each counts as a reception (`Serving.ServeFullRead`), so the
  heartbeat need never close the session (`Heartbeat.OpenExactlyWhileReceiving`).
- A login whose strings do not fit the 16-bit size is sent all the same and does not arrive intact
  (`ClientPackets.LoginIntactExactlyWhenItFits` gives the exact condition).
- `Cancel` stops a repeating timer exactly when its wait is still pending (`Timers.CancelExact`);
  otherwise the timer runs on and nothing can stop it any more (`Timers.TooLateForEver`).
- `ForceDisconnect` catches exceptions before it reaches `close`. After it, a session's socket stays
  open as long as something holds the session, exactly when the socket layer threw; no further call
  and no tick closes it then (`Lifecycle.ForcedSocketStaysOpenExactly`; `Lifecycle.SocketLeftBehind` is
  such a run). It is the end of the last pending operation that closes it (`Lifecycle.LastHolderCloses`).
- After a failed write the session is out of the registry while its read chain lives on; until someone
  forces it, its socket is open as long as anything holds it, and no tick looks at it
  (`Lifecycle.UnwatchedAfterWriteFailure`).
- A 10 s timeout with 5 s ticks tolerates replies of 10 s only if no tick is ever late; with any
  lateness, reply time and lateness together must stay within 5001 ms
  (`Heartbeat.ServiceAccuracyWithJitter`).

## Model

| member | source | states |
|---|---|---|
| Framing.ParsePartition | Framework/Network/Session.cpp:116-141 | the packets framed from any stream and the remainder, put together, are the stream; every framed packet's size field is its length; no further packet stands at the front of the remainder |
| Framing.ParseUnique | Framework/Network/Session.cpp:116-141 | the framing is the only way to write a stream as packets followed by something that does not begin with one: a definition of Parse independent of its recursion |
| Framing.ParseAppend | Framework/Network/Session.cpp:116-141 | parsing a longer stream gives the packets already found, then those of the remainder with the new bytes |
| Framing.StuckForever | Framework/Network/Session.cpp:132-135 | after a header of size below 4 nothing is ever delivered again, whatever follows |
| Framing.DoomedExactly | Framework/Network/Session.cpp:122-135 | nothing more is ever delivered, whatever follows, if and only if a size field below 4 stands at the front of the remainder, the id not being needed |
| Framing.TwoBytesDoom | Framework/Network/Session.cpp:122-135 | two zero bytes end reception, although no header is complete |
| Framing.RestBound | Framework/Network/Session.cpp:123-130 | without such a header at most 65534 bytes wait |
| Framing.ParsePrefix | Framework/Network/Session.cpp:116-141 | any initial part of a stream of packets frames to an initial part of those packets, and the whole stream to all of them |
| Bytes.XorBitsBitwise | Framework/Utils/XORUtils.h:15 | the exclusive or sets exactly the bits in which its operands differ |
| Bytes.XorBitwise | Framework/Utils/XORUtils.h:15 | so does that of two bytes, in each of its eight bits |
| Bytes.XorInvolution | Framework/Utils/XORUtils.h:15 | combining twice with the same byte gives the first byte back |
| Cipher.ApplyXor | Framework/Utils/XORUtils.h:10-17 | after the in-place loop a bit of the buffer is set exactly where the buffer's and that of the key byte at the index modulo the key length differed; empty keys and buffers change nothing |
| Cipher.EncipheredBit | Framework/Network/PacketSession.h:49-54 | bit by bit, the body of an enciphered message is the message's combined with the key, which begins with the body and repeats |
| Cipher.XorSeqInvolution | Framework/Security/BasicXORCipher.cpp:10-16 | Decrypt undoes Encrypt for every key and every body |
| Cipher.EncipherMessage | Framework/Network/PacketSession.h:15-59 | Send enciphers exactly the bytes behind the 4-byte header, and nothing of a message of at most 4 bytes or without a cipher |
| Cipher.EncipherInPlace | Framework/Network/PacketSession.h:70-77 | copying the body out, ciphering it and copying it back leaves the header and the deciphered body |
| Cipher.EncipherInvolution | Framework/Network/PacketSession.h:49-77 | what OnPacket deciphers is what Send was given |
| Cipher.EncipherKeepsHeader | Framework/Network/PacketSession.h:49-54 | size, id and packethood are the same before and after ciphering |
| Cipher.ParseEnciphered | Framework/Network/PacketSession.h:49-76 | cutting the enciphered stream gives, packet by packet, the enciphered packets of the plain stream |
| RecvBuffers.RecvBuffer.constructor | Framework/Network/RecvBuffer.cpp:7-10 | an empty buffer of ten times the given size |
| RecvBuffers.RecvBuffer.OnWrite | Framework/Network/RecvBuffer.cpp:39-45 | succeeds exactly when the bytes fit, and then the unread bytes are extended by those at the write cursor |
| RecvBuffers.RecvBuffer.OnRead | Framework/Network/RecvBuffer.cpp:31-37 | succeeds exactly when that many bytes are unread, and then they are dropped from the front |
| RecvBuffers.RecvBuffer.Clean | Framework/Network/RecvBuffer.cpp:15-29 | the overlapping in-place copy keeps the unread bytes; without unread bytes the cursors are reset and no byte is touched, with a buffer size of room nothing changes, and otherwise every unread byte, and only those, is copied to the front |
| RecvBuffers.CleanedExactly | Framework/Network/RecvBuffer.cpp:15-29 | where the cursors go and how many bytes are copied, as a function of the unread bytes and the room |
| Reception.ReceptionIsParse | Framework/Network/Session.cpp:89-141 | for every stream, malformed ones included, every chunking and every buffer size: the packets delivered are Parse of all bytes received and the unread window is the remainder |
| Reception.ChunkingIrrelevant | Framework/Network/Session.cpp:89-141 | two chunkings, or two buffer sizes, deliver the same packets from the same bytes |
| Reception.RoomExact | Framework/Network/RecvBuffer.cpp:15-29 | the next read gets at least a buffer size of room exactly when at most nine buffer sizes are unparsed, and none exactly when the capacity is |
| Reception.BufferSizeSuffices | Framework/Network/RecvBuffer.cpp:7-29 | every read on every stream without a malformed header gets a full buffer size of room if and only if nine buffer sizes hold 65534 bytes |
| Reception.NoStarvation | Framework/Network/RecvBuffer.cpp:7-29 | no read on such a stream is issued without room if and only if the capacity exceeds 65534 bytes |
| Reception.CompactionCost | Framework/Network/RecvBuffer.cpp:22-27 | over every run, (9 x bufferSize - 65534) x bytes moved by Clean is at most 65534 x bytes received |
| Reception.CursorsExact | Framework/Network/Session.cpp:94-107 | in every run, where the cursors stand after a read and how many bytes its compaction copied: none while a buffer size of room is left, else all bytes not yet framed |
| Reception.SessionBuffer | Framework/Network/Session.cpp:12-13 | with the session's 65536 bytes: full room for every read, and at least eight bytes received for each byte moved |
| SendQueue.WireIsPrefix | Framework/Network/Session.cpp:148-171 | the wire is an initial part of everything sent, complete when the queue is empty |
| EndToEnd.WriteQueue | Framework/Network/Session.cpp:148-171 | in every run: sent is completed then queued, at most one write is in flight, and exactly one while something is queued and no write has failed |
| EndToEnd.NothingAfterFailure | Framework/Network/Session.cpp:166-169 | after a write error no byte follows on the wire, whatever is sent later |
| EndToEnd.DirectDelivery | Framework/Network/PacketSession.h:15-99 | without a pool, at every moment of every run the packets dispatched are an initial part of the plaintext packets sent, in order, and all of them once the link is drained |
| EndToEnd.DirectDeliveryExact | Framework/Network/PacketSession.h:15-99 | on a drained link without a pool, what was dispatched is what was sent if and only if every message sent was a packet |
| EndToEnd.DispatchedAmongSent | Framework/Network/PacketSession.h:65-96 | with or without a pool, nothing is dispatched that was not sent, nor more often, and once all is settled nothing is missing |
| EndToEnd.PooledDelivery | Framework/Network/PacketSession.h:65-79 | with a pool, dispatched and waiting packets together are, with multiplicities, the first packets sent, for every interleaving |
| EndToEnd.EffectiveStepsTerminate | Framework/Network/Session.cpp:89-171 | every enabled step that carries bytes or runs a task reduces the work left |
| EndToEnd.SomeStepEnabled | Framework/Network/Session.cpp:89-171 | while anything is on the way or waiting for a thread and no write has failed, such a step is possible |
| EndToEnd.EverythingArrives | Framework/Network/Session.cpp:89-171 | from every such state a bounded number of steps dispatches everything sent, with a pool each packet as often as it was sent, without one in order |
| EndToEnd.FullBufferIsFinal | Framework/Network/Session.cpp:89-108 | once a read is issued without room, nothing is received or framed again, and the only reads that complete are those of no bytes, which always can |
| Bytes.LittleEndianRoundTrip | Framework/Packet/PacketStream.h:15-22 | an integer copied out and back in at any width keeps its value |
| Bytes.LastByteWeighsMost | Framework/Packet/PacketStream.h:34-41 | the integer copied in is little-endian: each further byte weighs 256 times the one before |
| PacketStreams.PacketStream.PutNumber | Framework/Packet/PacketStream.h:15-22 | appends the integer's bytes |
| PacketStreams.PacketStream.PutText | Framework/Packet/PacketStream.h:24-31 | appends the length modulo 2^16, then that many bytes |
| PacketStreams.PacketStream.GetNumber | Framework/Packet/PacketStream.h:34-41 | reads the integer and moves on, or changes nothing when the buffer is too short |
| PacketStreams.PacketStream.GetText | Framework/Packet/PacketStream.h:43-50 | reads the string; with the length present but the bytes missing, only the cursor moves |
| PacketStreams.CursorStaysInside | Framework/Packet/PacketStream.h:33-50 | over any reads, short ones included, the cursor never moves back and never leaves the buffer |
| PacketStreams.ReadsExactly | Framework/Packet/PacketStream.h:33-50 | for every buffer, cursor and variable: what a whole and what a short read leave in the variable and the cursor, for integers and strings |
| PacketStreams.RoundTrip | Framework/Packet/PacketStream.h:14-50 | any list of integers and strings, anywhere in a buffer, is read back in order whatever the variables held, each string cut to its length modulo 2^16, the cursor ending behind the last |
| PacketStreams.UnchangedExactlyWhenShort | Framework/Packet/PacketStream.h:24-31 | the round trip changes nothing if and only if every string is shorter than 2^16 bytes |
| PacketStreams.EncodingInjective | Framework/Packet/PacketStream.h:15-31 | lists of the same shape with short strings have different encodings |
| ClientPackets.Packet.Write | GameShared/Packet/ClientPacketHandler.h:20-59 | the Write members append their fields in order |
| ClientPackets.MakeSendBuffer | GameShared/Packet/ClientPacketHandler.h:92-117 | reserving, appending and patching yields size modulo 2^16, id, body |
| ClientPackets.HeaderFields | GameShared/Packet/ClientPacketHandler.h:112-114 | the receiver reads the truncated length as size and the given id |
| ClientPackets.PacketBytes | GameShared/Packet/ClientPacketHandler.h:20-117 | every kind of packet, byte by byte |
| ClientPackets.FramedExactlyWhenShort | GameShared/Packet/ClientPacketHandler.h:92-117 | a send buffer frames as exactly one packet with nothing left if and only if its length is at most 65535 |
| ClientPackets.LoginLength | GameShared/Packet/ClientPacketHandler.h:20-26 | a login's length is 8 and both string lengths modulo 2^16 |
| ClientPackets.HandlePacket | GameShared/Packet/ClientPacketHandler.h:63-90 | a login packet is read by two string reads and answered; any other id is reported |
| ClientPackets.HandleLogin | GameShared/Packet/ClientPacketHandler.h:63-90 | the handler recovers both strings of every login buffer, cut to 16-bit lengths |
| ClientPackets.HandleEveryLogin | GameShared/Packet/ClientPacketHandler.h:63-90 | every packet with a login's id is answered, malformed ones included: a string that is not there in full is empty, and the second is then looked for right behind the first one's length |
| ClientPackets.LoginIntactExactlyWhenItFits | GameShared/Packet/ClientPacketHandler.h:20-117 | for all strings and every key, the enciphered login frames as one packet from which the handler reads the same strings if and only if 8 and both lengths are at most 65535 |
| ClientPackets.PacketsArrive | Framework/Dispatcher/DefaultDispatcher.h:20-32 | in every run in which packets of any kinds are sent that fit, the i-th packet dispatched goes whole to the handler of the i-th packet's id, and the strings of a login are read back |
| ClientPackets.PooledPacketsArrive | Framework/Dispatcher/DefaultDispatcher.h:20-32 | with a pool, the packets dispatched are, with multiplicities, among those sent, each read as the packet it was made from, and all of them once settled |
| ClientPackets.ReplyDecodes | GameShared/Packet/ClientPacketHandler.h:33-44 | the login reply is one packet of its id from which the success flag and player id are read back |
| Dispatcher.DefaultDispatcher.RegisterHandler | Framework/Dispatcher/DefaultDispatcher.h:16-18 | a later registration of an id replaces the earlier one |
| Dispatcher.DefaultDispatcher.Dispatch | Framework/Dispatcher/DefaultDispatcher.h:20-32 | too short, unknown id, or the registered handler with the announced bytes |
| Dispatcher.WholePacketHandled | Framework/Network/PacketSession.h:78-95 | for a framed packet the 16-bit cast of its length loses nothing: the handler of its id gets all of it, or its id is reported |
| Lifecycle.RunInv | Framework/Network/SessionManager.cpp:6-28 | over every run: ids in order modulo 2^32, each session's chains consistent, the registry holds only sessions that no chain has removed, each under its own id, and with fewer than 2^32 sessions all of them |
| Lifecycle.LifecycleBounds | Framework/Network/Session.cpp:38-171 | OnDisconnected is called once for each of the read chain, the write chain and ForceDisconnect that has ended, at most three times; never two reads or two writes outstanding |
| Lifecycle.ThreeCalls | Framework/Network/Session.cpp:94-112 | a run in which one session's OnDisconnected is called three times |
| Lifecycle.FirstCallIffRegistered | Framework/Network/Session.cpp:94-112 | a call of OnDisconnected is the session's first exactly when Find would still find it; afterwards it does not |
| Lifecycle.RemovedForGood | Framework/Network/SessionManager.cpp:15-28 | an id whose session has been removed is never found again while fewer than 2^32 sessions have been added |
| Lifecycle.IdsExact | Framework/Network/SessionManager.h:31 | ids are non-zero exactly below 2^32 sessions and pairwise distinct exactly up to 2^32 |
| Lifecycle.SessionCount | Framework/Network/SessionManager.cpp:77-80 | GetSessionCount is the number of sessions no chain has removed |
| Lifecycle.GracefulCloses | Framework/Network/Session.cpp:58-85 | once GracefulDisconnect has been called and its safety timers have fired, the session is disconnected and unregistered, with the sending hook or the default one, with or without a timer manager |
| Lifecycle.GracefulExactly | Framework/Network/Session.cpp:58-85 | GracefulDisconnect forces an unforced session at once if and only if there is no timer manager or no notice; otherwise it queues the notice, starts one safety timer and changes nothing else, and until that timer or another disconnection no event forces the session |
| Lifecycle.ForceExactly | Framework/Network/Session.cpp:38-75 | what ForceDisconnect and the safety timer change: the first disconnection removes, counts and closes unless the socket layer throws, later ones do nothing, and one timer is used up |
| Lifecycle.TickExactly | Framework/Network/SessionManager.cpp:41-75 | in every run, a tick queues one ping for each registered session within the timeout, closes the socket of each one beyond it, and changes nothing else |
| Lifecycle.RegisteredAreHeld | Framework/Network/Session.cpp:89-114 | the registry never holds the only reference to a session: its read chain holds it too |
| Lifecycle.DestroyedForGood | Framework/Network/Session.cpp:16-17 | a session that nothing holds is reached by no event of any continuation |
| Lifecycle.LastHolderCloses | Framework/Network/Session.cpp:109-112 | the ordinary end: when the read chain fails with nothing else pending, the session is destroyed and its socket closed, for good |
| Lifecycle.ForcedSocketStaysOpenExactly | Framework/Network/Session.cpp:38-56 | after the first ForceDisconnect on an open socket, in every continuation the socket is open exactly as long as something holds the session if and only if the socket layer threw; otherwise it is closed in every continuation |
| Lifecycle.SocketLeftBehind | Framework/Network/Session.cpp:38-56 | a run with a socket left open by two ForceDisconnects and an overdue tick, its session out of the registry, until its pending read fails |
| Lifecycle.EndedStaysOpen | Framework/Network/SessionManager.cpp:44-74 | no tick reaches a session that some chain has removed: unless it is newly forced, its socket is open in every continuation exactly as long as something holds it, if it was not closed before |
| Lifecycle.UnwatchedAfterWriteFailure | Framework/Network/Session.cpp:166-169 | after a failed write the session is never found again; until it is forced, its socket is open exactly as long as something holds it, and its read chain goes on |
| Heartbeat.AccuracyExactWithJitter | Framework/Network/SessionManager.cpp:41-75 | for every interval, timeout, lateness of ticks and reply time: no session that answers every ping in time is ever closed if and only if the worst gap between a reception and a tick is within the timeout |
| Heartbeat.WorstGapPunctual | Framework/Network/SessionManager.cpp:41-75 | without lateness that gap is within the timeout exactly when the reply time is at most the whole intervals in it |
| Heartbeat.NeverClosedExactly | Framework/Network/SessionManager.cpp:44-53 | a session is never closed if and only if every tick finds a reception no older than the timeout |
| Heartbeat.NeverClosed | Framework/Network/SessionManager.cpp:41-75 | accuracy with jitter: if c intervals cover reply time and jitter, and with the jitter stay within the timeout, a session answering every ping in time is closed by no tick of any run |
| Heartbeat.AccuracyExact | Framework/Network/SessionManager.cpp:41-75 | with punctual ticks no session answering within the reply time is ever closed if and only if that time is at most the whole intervals in the timeout |
| Heartbeat.ServiceAccuracy | Framework/Network/Service.cpp:35-38 | for 5 s ticks and a 10 s timeout that reply time is exactly 10 s |
| Heartbeat.ServiceAccuracyWithJitter | Framework/Network/Service.cpp:35-38 | with ticks up to J > 0 ms late, no session answering within the reply time is ever closed if and only if both together are at most 5001 ms |
| Heartbeat.DetectionLatency | Framework/Network/SessionManager.cpp:44-74 | every closure comes after the timeout and at most one interval and the jitter later |
| Heartbeat.SilenceDetected | Framework/Network/SessionManager.cpp:44-74 | a session that falls silent is closed if and only if a tick comes later than its last reception and the timeout |
| Heartbeat.Projection | Framework/Network/SessionManager.cpp:41-75 | in every run of the registry each session behaves as a detector of its own |
| Heartbeat.PromptSessionStaysOpen | GameShared/Network/GameSession.h:12-17 | in the registry, with ticks late by up to any jitter, a session whose pings are answered in time is never closed by the heartbeat if the worst gap is within the timeout: unless forced, its socket is open as long as it is held |
| Heartbeat.OpenExactlyWhileReceiving | Framework/Network/Session.cpp:116-117 | in the registry, the socket of a session that nobody forces is open if and only if something holds the session and every tick it met found a reception no older than the timeout |
| Heartbeat.SilentSessionLeaves | Framework/Network/Session.cpp:109-112 | in the registry, a silent session is closed, its pending read can then fail, and that removes it and calls OnDisconnected for the first time |
| Timers.NoDrift | Framework/Timer/AsioTimerManager.cpp:52-66 | in every run the k-th firing has deadline start + (k + 1) x interval, however late earlier ones ran, and never runs before it |
| Timers.ScheduledExactly | Framework/Timer/AsioTimerManager.cpp:27-41 | a timer made at time now is due at now + interval under the next id, and in every continuation its k-th firing has deadline now + (k + 1) x interval |
| Timers.HandlerExactly | Framework/Timer/AsioTimerManager.cpp:52-66 | the handler runs the task once and waits from the old expiry, or ends the timer on an error, and touches no other timer |
| Timers.TimerIdsExact | Framework/Timer/AsioTimerManager.cpp:27-28 | timer ids are non-zero and distinct until the 64-bit counter wraps, and no longer |
| Timers.CancelIsLocal | Framework/Timer/AsioTimerManager.cpp:43-50 | Cancel forgets the id, touches only its timer and leaves all others as they are |
| Timers.CancelExact | Framework/Timer/AsioTimerManager.cpp:43-66 | after Cancel the task never runs again, in any continuation, if and only if the wait was pending |
| Timers.TooLateReachable | Framework/Timer/AsioTimerManager.cpp:43-66 | a run with a listed timer whose handler is queued, which after Cancel fires and re-arms, under no id |
| Timers.TooLateForEver | Framework/Timer/AsioTimerManager.cpp:58-65 | a timer cancelled too late stays armed through every continuation |
| Timers.FiringsAreScheduled | Framework/Network/Service.cpp:34-40 | the firings of a timer are heartbeat ticks on schedule, up to the lateness of the handler |
| Timers.TimedSessionStaysOpen | Framework/Network/Service.cpp:34-40 | timer, detector and registry together: if a session's ticks are one timer's firings, each at most J late, and it answers in time, the heartbeat never closes it while the worst gap is within the timeout |
| Timers.TimedSilenceIsClosed | Framework/Network/Service.cpp:34-40 | timer, detector and registry the other way round: once the timer has fired for every deadline up to an interval after a session's last reception and the timeout, the session has been closed, after the timeout and at most an interval and the jitter later; if registered, it can leave |
| Timers.AsioTimerManager.ScheduleRepeat | Framework/Timer/AsioTimerManager.cpp:27-41 | a new timer, waiting for the time of the call and one interval, entered under the next id: one step of the machine |
| Timers.AsioTimerManager.Cancel | Framework/Timer/AsioTimerManager.cpp:43-50 | the id is erased, its wait cancelled if pending, all other timers unchanged: one step of the machine |
| Timers.AsioTimerManager.OnTimer | Framework/Timer/AsioTimerManager.cpp:52-66 | an error ends the timer; otherwise it fires and waits for its old expiry and the interval: one step of the machine |
| Timers.ServeTimers | Framework/Timer/AsioTimerManager.cpp:27-66 | any list of events through the objects ends in the state of the machine's run, so its results hold of them |
| PacketPools.PoolExact | Framework/Packet/IPacketFactory.h:26-66 | for every interleaving, throwing constructors included: no block pooled twice, or pooled while handed out, or handed out twice; blocks allocated equal pooled and claimed, and equal the peak number of simultaneous claims |
| PacketPools.Reuse | Framework/Packet/IPacketFactory.h:82-95 | a packet released and created again with nothing in between gets the same block without an allocation |
| PacketPools.ThrowReturnsBlock | Framework/Packet/IPacketFactory.h:35-42 | a throwing constructor returns its block to the pool and ends its claim |
| PacketPools.CreatePacket | Framework/Packet/IPacketFactory.h:26-48 | whatever calls other threads are in the middle of: a block nobody holds becomes live, allocated only if the pool was empty; on a throw nothing becomes live |
| PacketPools.DestroyPacket | Framework/Packet/IPacketFactory.h:57-66 | nothing for a null pointer, otherwise the block is pooled and the invariant kept |
| PacketPools.PacketPool.Pop | Framework/Packet/IPacketFactory.h:82-90 | the last block pushed, or null from an empty pool |
| PacketPools.PacketPool.Push | Framework/Packet/IPacketFactory.h:92-95 | the block goes on top |
| Network.Session.Start | Framework/Network/Session.cpp:19-24 | the session is registered under a new id, its receive time set, one read issued |
| Network.Session.OnReadComplete | Framework/Network/Session.cpp:89-114 | an error, or more bytes than fit, ends the read chain and changes nothing else; otherwise the session makes exactly one step of Reception, the new packets are posted or dispatched, and one read is outstanding again |
| Network.Session.OnRecv | Framework/Network/Session.cpp:116-141 | the framing loop delivers Parse of the window and reports all but its remainder as processed |
| Network.Session.OnPacket | Framework/Network/PacketSession.h:62-99 | one more packet delivered: posted as a copy apart from the buffer and from every other task, or deciphered and dispatched at once |
| Network.Session.RunTask | Framework/Network/PacketSession.h:69-79 | running any posted task deciphers its own copy in place, dispatches it, and leaves the buffer and the other tasks alone |
| Network.Session.Send | Framework/Network/Session.cpp:148-154 | the enciphered message is queued, and a write started exactly if none was in progress |
| Network.Session.OnWriteComplete | Framework/Network/Session.cpp:160-170 | success pops the front and writes the next if any; an error removes the session and keeps the queue |
| Network.Session.ForceDisconnect | Framework/Network/Session.cpp:38-56 | the first call removes and disconnects, later calls change nothing |
| Network.Session.GracefulDisconnect | Framework/Network/Session.cpp:58-85 | the notice is queued if the hook sends one; the session is disconnected at once exactly when there is no notice or no timer manager, and otherwise left open with one more safety timer |
| Network.Session.OnGraceTimer | Framework/Network/Session.cpp:68-74 | forces the session unless it is already disconnected |
| Network.Session.SendHeartbeat | GameShared/Network/GameSession.h:12-17 | the enciphered ping is queued |
| Network.Session.HandleDispatched | GameShared/Packet/ClientPacketHandler.h:63-90 | a dispatched login is read and its reply goes, enciphered, into this session's write queue; other ids send nothing |
| Serving.ServeReads | Framework/Network/Session.cpp:89-141 | any list of chunks through the objects: delivered, posted and dispatched packets are those of Parse of the whole stream, the buffer holds its remainder, one read is outstanding |
| Serving.ServeEvent | Framework/Network/Session.cpp:89-171 | for each enabled link event the handler run on the sending or receiving session object keeps the objects in the state of EndToEnd.Step |
| Serving.ServeLink | Framework/Network/PacketSession.h:15-99 | two session objects and any list of link events: they end in the state of the link's run, and without a pool the receiving object has dispatched an initial part of what was sent through the other |
| Serving.ServeFullRead | Framework/Network/Session.cpp:89-141 | a read on a full buffer delivers nothing, frees nothing and refreshes the receive time |
| Server.WorldRuns | Framework/Network/SessionManager.cpp:6-75 | in every run of a server its registry and sessions are in the state of a run of Lifecycle, so all results about those runs hold of it |
| Server.RunCounted | Framework/Network/PacketSession.h:68-79 | in every run each session is held by exactly as many posted closures as packets of it wait for a thread |
| Server.Isolation | Framework/Network/Session.cpp:89-141 | in every run of a server, whatever happens to other sessions, each session has framed exactly Parse of the bytes it has itself received, and dispatches each packet once or holds it for a thread; without a pool in order |
| Server.TickExactly | Framework/Network/SessionManager.cpp:41-75 | in every run of a server, a tick adds to each registered session within the timeout one message that deciphers to a ping, closes the socket of each one beyond it, and does nothing else |
| RegistryServing.ServeSession | Framework/Network/Session.cpp:38-171 | each handler of a session keeps the manager and all sessions ever accepted consistent, apart and in the state of Server.Step |
| RegistryServing.ServeAccept | Framework/Network/Session.cpp:19-24 | so does Start of a new session |
| RegistryServing.ServeTick | Framework/Network/SessionManager.cpp:41-75 | so does CheckHeartbeat |
| RegistryServing.ServeWorld | Framework/Network/SessionManager.cpp:6-75 | any list of commands on a manager and any number of sessions: the objects end in the state of the machine's run |
| RegistryServing.ServedWorld | Framework/Network/SessionManager.h:30 | so below 2^32 sessions the map holds exactly the sessions that no chain has removed, and each session object has delivered Parse of what it has itself received |
| Conversation.PingAnswered | examples/ClientStruct/ClientPacketHandler.cpp:26-33 | transport and handlers: once a peer that answers pings by their id has caught up after a ping, and the server with it, the server has completed a read since the ping |
| Conversation.PingCanBeAnswered | examples/ClientStruct/ClientPacketHandler.cpp:26-33 | after every ping, as long as no write has failed, steps of the links and answers alone lead to a read completed by the server |
| Conversation.AnsweringPeerStaysOpen | Framework/Network/SessionManager.cpp:41-75 | transport, handlers and detector together: if both sides catch up within the reply time after every ping, the heartbeat never closes the session while the worst gap is within the timeout, whatever else is sent |
| Conversation.AnsweringPeerInRegistry | Framework/Network/SessionManager.cpp:41-75 | so with the session of the registry that meets these beats |
| Conversation.CanCatchUp | Framework/Network/Session.cpp:89-171 | from every state in which no write has failed, steps of the links and of the peer alone let both sides catch up |
| RegistryTalk.AlwaysInTouch | Framework/Network/SessionManager.cpp:41-75 | in every run of the registry in which a session takes part in a conversation, whatever happens to other sessions: its write queue is the sending end of the link, its receptions are the reads of the other link, it is registered until a write fails and its socket open until the detector closes it |
| RegistryTalk.TickSendsPing | GameShared/Network/GameSession.h:12-17 | the ping that travels down the link after a tick is the message that the tick has put into the session's queue |
| RegistryTalk.AnsweringPeerIsKept | Framework/Network/SessionManager.cpp:41-75 | so a session whose peer catches up in time keeps its socket open in the registry, and stays registered until a write fails |
| Network.SessionManager.Add | Framework/Network/SessionManager.cpp:6-13 | the next 32-bit id; an occupied entry is left alone |
| Network.SessionManager.Remove | Framework/Network/SessionManager.cpp:15-18 | the id, and only it, leaves the registry |
| Network.SessionManager.Find | Framework/Network/SessionManager.cpp:20-28 | the registered session, or null |
| Network.SessionManager.Broadcast | Framework/Network/SessionManager.cpp:30-39 | every registered session queues the message once, enciphered |
| Network.SessionManager.CheckHeartbeat | Framework/Network/SessionManager.cpp:41-75 | in unsigned 64-bit time: every registered session within the timeout has one message more in its queue, which deciphers to a ping, and a write started if none was in progress; every one beyond it has its socket closed; nothing else about a session changes |

## Left out

- `SessionManager::DisconnectAll` and `Service::Stop`: the first calls `ForceDisconnect`, hence `Remove`, while it holds the lock that `Remove` wants; what happens then is not decided here.
- Locks, threads, sockets, acceptor and linger options: they appear only as atomic steps and nondeterministic events.
- A reception between a tick's reading of the clock and its comparison: the unsigned difference would wrap; ticks are atomic here.
- Order of dispatch with a pool: the code does not keep it, so only multiplicities are stated.
- A missing dispatcher: `OnPacket` then does nothing.
- Exceptions other than those of packet constructors and of the socket in `ForceDisconnect`: handlers that throw, failing allocations and a throwing `close` in `CheckHeartbeat`.
- `ScheduleOnce`: only its use as the safety timer of `GracefulDisconnect`, without its ten seconds.
- `Session::Send(const std::string&)`, the protobuf packets, databases, repository, configuration, logger and the programs' mains: wrappers, I/O or calls into code not part of this model.
- PacketPools.CreatePacket: is one atomic call; steps of other threads inside it are covered by PacketPools.PoolExact on the machine.
- Network.Session.OnReadComplete: records dispatched packets and does not run their handlers; a handler that calls back into the session, as the login handler does on the direct path, is a separate step (Network.Session.HandleDispatched, Send, ForceDisconnect) after the read.
- ClientPackets.HandlePacket: returns the reply as a value; Network.Session.HandleDispatched sends it.

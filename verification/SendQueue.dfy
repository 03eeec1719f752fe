/**
 The write side of a session (Session::Send, Session::DoWrite) as a state machine. The socket layer
 takes the front message in pieces, reports success once all of it is taken, or reports an error.
 */
module SendQueue {
  import opened Bytes

  /** What a session keeps of its write side. */
  datatype WriteChain = WriteChain(
    queue: seq<seq<byte>>,      // the C++ deque
    writes: nat,                // async writes outstanding
    failed: bool                // a write has completed with an error
  ) {
    /** Session::Send. */
    function Push(msg: seq<byte>): WriteChain {
      this.(queue := queue + [msg], writes := if queue == [] then writes + 1 else writes)
    }

    /** The completion handler, without error: pop, and write the next message if there is one. */
    function WriteOk(): WriteChain
      requires writes > 0 && queue != []
    {
      this.(queue := queue[1..], writes := if queue[1..] != [] then writes else writes - 1)
    }

    /** The completion handler, with an error: the message stays in the queue. */
    function WriteFailed(): WriteChain
      requires writes > 0
    {
      this.(writes := writes - 1, failed := true)
    }

    /** One write is outstanding exactly while something is queued and no write has failed. */
    predicate Inv() {
      writes == (if queue != [] && !failed then 1 else 0) && (failed ==> queue != [])
    }
  }

  const IDLE_CHAIN: WriteChain := WriteChain([], 0, false)

  /** The write chain together with what the socket has done for it. */
  datatype Sender = Sender(
    chain: WriteChain,
    progress: nat,              // bytes of the front message already taken by the socket
    sent: seq<seq<byte>>,       // every message given to Send
    completed: seq<seq<byte>>,  // messages whose write has completed
    wire: seq<byte>             // every byte taken by the socket
  ) {
    predicate CanTransmit(n: nat) {
      chain.writes > 0 && chain.queue != [] && progress + n <= |chain.queue[0]|
    }

    predicate CanComplete() {
      chain.writes > 0 && chain.queue != [] && progress == |chain.queue[0]|
    }

    function Push(msg: seq<byte>): Sender {
      this.(chain := chain.Push(msg), sent := sent + [msg])
    }

    /** The socket takes n more bytes of the message being written. */
    function Transmit(n: nat): Sender
      requires CanTransmit(n)
    {
      this.(progress := progress + n, wire := wire + chain.queue[0][progress..progress + n])
    }

    function WriteOk(): Sender
      requires CanComplete()
    {
      this.(chain := chain.WriteOk(), completed := completed + [chain.queue[0]], progress := 0)
    }

    function WriteFailed(): Sender
      requires chain.writes > 0
    {
      this.(chain := chain.WriteFailed())
    }

    function Front(): seq<byte> {
      if chain.queue == [] then [] else chain.queue[0]
    }

    predicate Inv() {
      && sent == completed + chain.queue
      && chain.Inv()
      && progress <= |Front()|
      && wire == Flatten(completed) + Front()[..progress]
    }

    /** Bytes accepted by Send and not yet on the wire. */
    function Unsent(): nat
      requires progress <= |Front()|
    {
      |Flatten(chain.queue)| - progress
    }
  }

  const IDLE_SENDER: Sender := Sender(IDLE_CHAIN, 0, [], [], [])

  lemma PushInv(s: Sender, msg: seq<byte>)
    requires s.Inv()
    ensures s.Push(msg).Inv()
  {
    assert s.completed + s.chain.queue + [msg] == s.completed + (s.chain.queue + [msg]);
  }

  lemma TransmitInv(s: Sender, n: nat)
    requires s.Inv() && s.CanTransmit(n)
    ensures s.Transmit(n).Inv() && s.Transmit(n).Unsent() == s.Unsent() - n
  {
    var t := s.Transmit(n);
    assert t.wire == Flatten(s.completed) + (s.Front()[..s.progress] + s.chain.queue[0][s.progress..s.progress + n]);
    assert s.Front()[..s.progress] + s.chain.queue[0][s.progress..s.progress + n] == t.Front()[..t.progress];
  }

  lemma WriteOkInv(s: Sender)
    requires s.Inv() && s.CanComplete()
    ensures s.WriteOk().Inv() && s.WriteOk().Unsent() == s.Unsent()
  {
    FlattenSnoc(s.completed, s.chain.queue[0]);
    var t := s.WriteOk();
    assert s.Front()[..s.progress] == s.chain.queue[0];
    assert t.Front()[..t.progress] == [];
    assert t.completed + t.chain.queue == s.completed + s.chain.queue;
  }

  /** What has reached the wire is always an initial part of what was sent, and all of it once the queue is empty. */
  lemma WireIsPrefix(s: Sender)
    requires s.Inv()
    ensures s.wire <= Flatten(s.sent)
    ensures s.chain.queue == [] ==> s.wire == Flatten(s.sent) && s.completed == s.sent
    ensures |Flatten(s.sent)| == |s.wire| + s.Unsent()
  {
    FlattenAppend(s.completed, s.chain.queue);
    if s.chain.queue != [] {
      var f, rest := s.chain.queue[0], Flatten(s.chain.queue[1..]);
      hide Flatten;
      assert f + rest == f[..s.progress] + (f[s.progress..] + rest);
      Associative(Flatten(s.completed), f[..s.progress], f[s.progress..] + rest);
    } else {
      assert s.completed + s.chain.queue == s.completed;
    }
  }
}

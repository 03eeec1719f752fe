/**
 Whole receive histories: Session::DoRead's completion handler applied to one chunk after another.
 The state keeps the two cursors, so the arithmetic of compaction is part of the model.
 */
module Reception {
  import opened Bytes
  import opened Framing
  import opened RecvBuffers

  const MAX_REMAINDER: nat := U16_RANGE - 2

  datatype Receiver = Receiver(cursors: Cursors, window: seq<byte>, delivered: seq<seq<byte>>) {
    predicate Consistent(bufferSize: nat) {
      cursors.Within(bufferSize) && |window| == cursors.writePos - cursors.readPos
    }
  }

  const EMPTY_RECEIVER: Receiver := Receiver(Cursors(0, 0, 0), [], [])

  /** OnWrite: the chunk becomes readable. */
  function Written(r: Receiver, bufferSize: nat, chunk: seq<byte>): (r': Receiver)
    requires r.Consistent(bufferSize)
    requires |chunk| <= r.cursors.FreeSize(bufferSize)
    ensures r'.Consistent(bufferSize)
  {
    Receiver(r.cursors.(writePos := r.cursors.writePos + |chunk|), r.window + chunk, r.delivered)
  }

  /** OnRecv, OnRead and Clean: whole packets are delivered and consumed, and the buffer is tidied. */
  function Processed(r: Receiver, bufferSize: nat): (r': Receiver)
    requires r.Consistent(bufferSize)
    ensures r'.Consistent(bufferSize)
  {
    var rest := Rest(r.window);
    var read := r.cursors.(readPos := r.cursors.writePos - |rest|);
    Receiver(read.Cleaned(bufferSize), rest, r.delivered + Parse(r.window))
  }

  /** The handler of one successful read. */
  function AfterRead(r: Receiver, bufferSize: nat, chunk: seq<byte>): (r': Receiver)
    requires r.Consistent(bufferSize)
    requires |chunk| <= r.cursors.FreeSize(bufferSize)
    ensures r'.Consistent(bufferSize)
  {
    Processed(Written(r, bufferSize, chunk), bufferSize)
  }

  /** The socket layer never returns more than it was given room for. */
  predicate Fits(bufferSize: nat, chunks: seq<seq<byte>>)
    decreases |chunks|, 0
  {
    chunks == [] ||
    var n := |chunks| - 1;
    Fits(bufferSize, chunks[..n]) &&
    |chunks[n]| <= Run(bufferSize, chunks[..n]).cursors.FreeSize(bufferSize)
  }

  /** The session after the given chunks have been received. */
  function Run(bufferSize: nat, chunks: seq<seq<byte>>): (r: Receiver)
    requires Fits(bufferSize, chunks)
    ensures r.Consistent(bufferSize)
    decreases |chunks|, 1
  {
    if chunks == [] then EMPTY_RECEIVER
    else
      var n := |chunks| - 1;
      AfterRead(Run(bufferSize, chunks[..n]), bufferSize, chunks[n])
  }

  /** The room offered to the next read. */
  function Room(bufferSize: nat, chunks: seq<seq<byte>>): nat
    requires Fits(bufferSize, chunks)
  {
    Run(bufferSize, chunks).cursors.FreeSize(bufferSize)
  }

  lemma FlattenLast(chunks: seq<seq<byte>>)
    requires chunks != []
    ensures Flatten(chunks) == Flatten(chunks[..|chunks| - 1]) + chunks[|chunks| - 1]
  {
    var n := |chunks| - 1;
    FlattenSnoc(chunks[..n], chunks[n]);
    assert chunks == chunks[..n] + [chunks[n]];
  }

  /** Every initial part of a legal run is legal, and the next chunk fits. */
  lemma {:induction false} FitsPrefix(bufferSize: nat, chunks: seq<seq<byte>>, i: nat)
    requires Fits(bufferSize, chunks) && i <= |chunks|
    ensures Fits(bufferSize, chunks[..i])
    ensures i < |chunks| ==> |chunks[i]| <= Run(bufferSize, chunks[..i]).cursors.FreeSize(bufferSize)
    decreases |chunks|
  {
    var n := |chunks| - 1;
    if i == |chunks| {
      assert chunks[..i] == chunks;
    } else if i < n {
      FitsPrefix(bufferSize, chunks[..n], i);
      assert chunks[..n][..i] == chunks[..i];
    }
  }

  /** One more chunk is one more handler call. */
  lemma RunSnoc(bufferSize: nat, chunks: seq<seq<byte>>, chunk: seq<byte>)
    requires Fits(bufferSize, chunks) && |chunk| <= Run(bufferSize, chunks).cursors.FreeSize(bufferSize)
    ensures Fits(bufferSize, chunks + [chunk])
    ensures Run(bufferSize, chunks + [chunk]) == AfterRead(Run(bufferSize, chunks), bufferSize, chunk)
    ensures Flatten(chunks + [chunk]) == Flatten(chunks) + chunk
  {
    hide Flatten, Parse, Rest;
    assert (chunks + [chunk])[..|chunks|] == chunks;
    FlattenSnoc(chunks, chunk);
  }

  /** Reception in chunks, with compaction, is Parse of the whole byte history: for every stream and every chunking. */
  lemma {:induction false} ReceptionIsParse(bufferSize: nat, chunks: seq<seq<byte>>)
    requires Fits(bufferSize, chunks)
    ensures Run(bufferSize, chunks).delivered == Parse(Flatten(chunks))
    ensures Run(bufferSize, chunks).window == Rest(Flatten(chunks))
    decreases |chunks|
  {
    if chunks != [] {
      var n := |chunks| - 1;
      ReceptionIsParse(bufferSize, chunks[..n]);
      FlattenLast(chunks);
      ParseAppend(Flatten(chunks[..n]), chunks[n]);
    }
  }

  /** Two chunkings of one stream deliver the same packets and keep the same remainder. */
  lemma ChunkingIrrelevant(b1: nat, c1: seq<seq<byte>>, b2: nat, c2: seq<seq<byte>>)
    requires Fits(b1, c1) && Fits(b2, c2) && Flatten(c1) == Flatten(c2)
    ensures Run(b1, c1).delivered == Run(b2, c2).delivered
    ensures Run(b1, c1).window == Run(b2, c2).window
  {
    ReceptionIsParse(b1, c1);
    ReceptionIsParse(b2, c2);
  }

  /** After a Clean, the cursors are those of an empty buffer, or leave room, or start at 0. */
  lemma CleanedShape(bufferSize: nat, chunks: seq<seq<byte>>)
    requires Fits(bufferSize, chunks)
    ensures var r := Run(bufferSize, chunks);
      || r.cursors.readPos == 0
      || (r.window != [] && Room(bufferSize, chunks) >= bufferSize)
    ensures Run(bufferSize, chunks).window == [] ==> Run(bufferSize, chunks).cursors.writePos == 0
  {
  }

  /** Exactly when a read is given a full buffer's worth of room, and exactly when it is given none. */
  lemma RoomExact(bufferSize: nat, chunks: seq<seq<byte>>)
    requires Fits(bufferSize, chunks) && bufferSize > 0
    ensures Room(bufferSize, chunks) >= bufferSize
      <==> |Rest(Flatten(chunks))| <= (CAPACITY_FACTOR - 1) * bufferSize
    ensures Room(bufferSize, chunks) == 0
      <==> |Rest(Flatten(chunks))| == CAPACITY_FACTOR * bufferSize
  {
    ReceptionIsParse(bufferSize, chunks);
    CleanedShape(bufferSize, chunks);
  }

  /** A single chunk that announces the longest packet and stops short of it. */
  function Announce(n: nat): (s: seq<byte>)
    requires HEADER_SIZE <= n <= MAX_REMAINDER
    ensures |s| == n && !Complete(s) && !Malformed(s)
  {
    seq(n, i => 255)
  }

  /**
   A buffer size gives every read its full room, on every stream that is not stuck, if and only if
   nine buffers hold the longest incomplete packet.
   */
  lemma BufferSizeSuffices(bufferSize: nat)
    requires bufferSize > 0
    ensures (forall chunks ::
      Fits(bufferSize, chunks) && !Stuck(Flatten(chunks)) ==> Room(bufferSize, chunks) >= bufferSize)
      <==> (CAPACITY_FACTOR - 1) * bufferSize >= MAX_REMAINDER
  {
    if (CAPACITY_FACTOR - 1) * bufferSize >= MAX_REMAINDER {
      forall chunks | Fits(bufferSize, chunks) && !Stuck(Flatten(chunks))
        ensures Room(bufferSize, chunks) >= bufferSize
      {
        RestBound(Flatten(chunks));
        RoomExact(bufferSize, chunks);
      }
    } else {
      var chunk := Announce((CAPACITY_FACTOR - 1) * bufferSize + 1);
      OneChunk(bufferSize, chunk);
      RoomExact(bufferSize, [chunk]);
      assert !Stuck(Flatten([chunk])) && Room(bufferSize, [chunk]) < bufferSize;
    }
  }

  lemma OneChunk(bufferSize: nat, chunk: seq<byte>)
    requires |chunk| <= CAPACITY_FACTOR * bufferSize
    ensures Fits(bufferSize, [chunk]) && Flatten([chunk]) == chunk
  {
    assert [chunk][..0] == [];
    assert Run(bufferSize, []) == EMPTY_RECEIVER;
    FlattenLast([chunk]);
  }

  /** Reads never starve on streams that are not stuck if and only if the capacity exceeds the longest incomplete packet. */
  lemma NoStarvation(bufferSize: nat)
    requires bufferSize > 0
    ensures (forall chunks ::
      Fits(bufferSize, chunks) && !Stuck(Flatten(chunks)) ==> Room(bufferSize, chunks) > 0)
      <==> CAPACITY_FACTOR * bufferSize > MAX_REMAINDER
  {
    if CAPACITY_FACTOR * bufferSize > MAX_REMAINDER {
      forall chunks | Fits(bufferSize, chunks) && !Stuck(Flatten(chunks))
        ensures Room(bufferSize, chunks) > 0
      {
        RestBound(Flatten(chunks));
        RoomExact(bufferSize, chunks);
      }
    } else {
      var chunk := Announce(CAPACITY_FACTOR * bufferSize);
      OneChunk(bufferSize, chunk);
      RoomExact(bufferSize, [chunk]);
      assert !Stuck(Flatten([chunk])) && Room(bufferSize, [chunk]) == 0;
    }
  }

  /** How far the write cursor stands beyond the longest remainder: the credit that pays for compaction. */
  function Credit(c: Cursors): nat {
    if c.writePos > MAX_REMAINDER then c.writePos - MAX_REMAINDER else 0
  }

  /** With D the longest remainder: (9 * bufferSize - D) * moved + D * credit <= D * received. */
  predicate Paid(bufferSize: nat, c: Cursors, received: nat) {
    ((CAPACITY_FACTOR - 1) * bufferSize - MAX_REMAINDER) * c.moved + MAX_REMAINDER * Credit(c)
    <= MAX_REMAINDER * received
  }

  lemma PaidByCredit(slack: nat, moved: nat, credit: nat, before: nat, rest: nat, received: nat)
    requires slack * moved + MAX_REMAINDER * credit <= MAX_REMAINDER * before
    requires rest <= MAX_REMAINDER && slack <= credit + received
    ensures slack * (moved + rest) <= MAX_REMAINDER * (before + received)
  {
    MulDistributes(moved, rest, slack);
    MulMonotone(rest, MAX_REMAINDER, slack);
  }

  lemma CompactionStep(bufferSize: nat, c: Cursors, before: nat, rest: nat, received: nat)
    requires (CAPACITY_FACTOR - 1) * bufferSize >= MAX_REMAINDER
    requires rest <= MAX_REMAINDER && rest <= c.writePos + received <= CAPACITY_FACTOR * bufferSize
    requires Paid(bufferSize, c, before)
    ensures Paid(bufferSize,
      Cursors(c.writePos + received - rest, c.writePos + received, c.moved).Cleaned(bufferSize),
      before + received)
  {
    var slack: nat := (CAPACITY_FACTOR - 1) * bufferSize - MAX_REMAINDER;
    var c' := Cursors(c.writePos + received - rest, c.writePos + received, c.moved).Cleaned(bufferSize);
    if c'.moved == c.moved {
      assert Credit(c') <= Credit(c) + received;
    } else {
      assert c'.moved == c.moved + rest && Credit(c') == 0;
      assert slack <= Credit(c) + received;
      PaidByCredit(slack, c.moved, Credit(c), before, rest, received);
    }
  }

  /** What one more chunk does to the cursors and to the number of bytes received, on a stream that is not stuck. */
  lemma LastRead(bufferSize: nat, chunks: seq<seq<byte>>)
    requires Fits(bufferSize, chunks) && !Stuck(Flatten(chunks)) && chunks != []
    ensures var n := |chunks| - 1;
      && Fits(bufferSize, chunks[..n])
      && !Stuck(Flatten(chunks[..n]))
      && |Flatten(chunks)| == |Flatten(chunks[..n])| + |chunks[n]|
      && var c, rest := Run(bufferSize, chunks[..n]).cursors, |Run(bufferSize, chunks).window|;
      && rest <= MAX_REMAINDER && rest <= c.writePos + |chunks[n]| <= CAPACITY_FACTOR * bufferSize
      && Run(bufferSize, chunks).cursors
      == Cursors(c.writePos + |chunks[n]| - rest, c.writePos + |chunks[n]|, c.moved).Cleaned(bufferSize)
  {
    hide Flatten, Parse, Rest;
    var n := |chunks| - 1;
    FlattenLast(chunks);
    if Stuck(Flatten(chunks[..n])) {
      StuckForever(Flatten(chunks[..n]), chunks[n]);
    }
    ReceptionIsParse(bufferSize, chunks);
    RestBound(Flatten(chunks));
  }

  /**
   Where the cursors stand, in every run, and what compaction has cost: a read leaves the buffer as it
   is while a buffer size of room is left, and otherwise moves exactly the bytes not yet framed.
   */
  lemma CursorsExact(bufferSize: nat, chunks: seq<seq<byte>>, chunk: seq<byte>)
    requires Fits(bufferSize, chunks + [chunk])
    ensures Fits(bufferSize, chunks)
    ensures var c, c' := Run(bufferSize, chunks).cursors, Run(bufferSize, chunks + [chunk]).cursors;
      var unread, written := |Rest(Flatten(chunks + [chunk]))|, c.writePos + |chunk|;
      var room := CAPACITY_FACTOR * bufferSize - written;
      && 0 <= unread <= written && room >= 0
      && c'.readPos == (if unread > 0 && room >= bufferSize then written - unread else 0)
      && c'.writePos == c'.readPos + unread
      && c'.moved == c.moved + (if room < bufferSize then unread else 0)
  {
    hide Flatten, Parse, Rest, Cursors.Cleaned;
    assert (chunks + [chunk])[..|chunks|] == chunks;
    ReceptionIsParse(bufferSize, chunks + [chunk]);
    var r := Written(Run(bufferSize, chunks), bufferSize, chunk);
    CleanedExactly(r.cursors.(readPos := r.cursors.writePos - |Rest(r.window)|), bufferSize);
  }

  lemma PaidAtStart(bufferSize: nat)
    ensures Fits(bufferSize, []) && Paid(bufferSize, Run(bufferSize, []).cursors, |Flatten([])|)
  {
    assert Run(bufferSize, []) == EMPTY_RECEIVER;
  }

  /**
   Amortised cost of compaction: every legal run over a stream that is not stuck is paid for, for every
   buffer size large enough.
   */
  lemma {:induction false} CompactionCost(bufferSize: nat, chunks: seq<seq<byte>>)
    requires Fits(bufferSize, chunks) && !Stuck(Flatten(chunks))
    requires (CAPACITY_FACTOR - 1) * bufferSize >= MAX_REMAINDER
    ensures Paid(bufferSize, Run(bufferSize, chunks).cursors, |Flatten(chunks)|)
    decreases |chunks|
  {
    hide Flatten, Parse, Rest, Paid, Run, Fits;
    if chunks == [] {
      PaidAtStart(bufferSize);
    } else {
      var n := |chunks| - 1;
      LastRead(bufferSize, chunks);
      CompactionCost(bufferSize, chunks[..n]);
      CompactionStep(bufferSize, Run(bufferSize, chunks[..n]).cursors, |Flatten(chunks[..n])|,
        |Run(bufferSize, chunks).window|, |chunks[n]|);
    }
  }

  /** With the session's buffer size, eight bytes are received for every byte that compaction moves. */
  lemma CompactionIsRare(bufferSize: nat, chunks: seq<seq<byte>>)
    requires Fits(bufferSize, chunks) && !Stuck(Flatten(chunks))
    requires bufferSize >= MAX_REMAINDER
    ensures 8 * Run(bufferSize, chunks).cursors.moved <= |Flatten(chunks)|
  {
    hide Run, Fits, Flatten, Parse, Rest;
    CompactionCost(bufferSize, chunks);
    MulMonotone(8 * MAX_REMAINDER, (CAPACITY_FACTOR - 1) * bufferSize - MAX_REMAINDER,
      Run(bufferSize, chunks).cursors.moved);
  }

  /** What the session passes to its RecvBuffer. */
  const SESSION_BUFFER_SIZE: nat := 65536

  /** The session's own buffer: full room for every read and cheap compaction, on every stream that is not stuck. */
  lemma SessionBuffer(chunks: seq<seq<byte>>)
    requires Fits(SESSION_BUFFER_SIZE, chunks) && !Stuck(Flatten(chunks))
    ensures Room(SESSION_BUFFER_SIZE, chunks) >= SESSION_BUFFER_SIZE
    ensures 8 * Run(SESSION_BUFFER_SIZE, chunks).cursors.moved <= |Flatten(chunks)|
  {
    BufferSizeSuffices(SESSION_BUFFER_SIZE);
    CompactionIsRare(SESSION_BUFFER_SIZE, chunks);
  }
}

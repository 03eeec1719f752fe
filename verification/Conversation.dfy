/**
 One server session and the peer at the other end: the heartbeat's pings travel down one link, the
 peer answers each ping dispatched to it with a pong, the pongs travel up the other link, and the
 detector is fed by the reads of that link. Every event carries the time at which it happens.
 */
module Conversation {
  import opened Bytes
  import opened Framing
  import opened Cipher
  import opened ClientPackets
  import opened PacketStreams
  import opened SendQueue
  import EndToEnd
  import Heartbeat
  import Lifecycle

  /** The two links, when the session started, and the timeout. */
  datatype Config = Config(down: EndToEnd.Config, up: EndToEnd.Config, start: nat, timeout: nat)

  datatype Action =
    | Tick                        // CheckHeartbeat runs
    | Down(e: EndToEnd.Event)     // a step of the link from the server to the peer; the server may send other messages
    | Up(e: EndToEnd.Event)       // a step of the link from the peer to the server; so may the peer
    | Answer                      // the peer handles the next packet dispatched to it

  datatype Event = Event(at: nat, action: Action)

  datatype Talk = Talk(detector: Heartbeat.Detector, down: EndToEnd.Link, up: EndToEnd.Link, answered: nat)

  const PING: seq<byte> := Packet.Ping.Buffer()
  const PONG: seq<byte> := Packet.Pong.Buffer()

  predicate WellFormed(c: Config, t: Talk) {
    EndToEnd.WellFormed(c.down, t.down) && EndToEnd.WellFormed(c.up, t.up)
  }

  /** A tick finds the session in the registry: no write of it has failed. */
  predicate Meets(t: Talk, e: Event) {
    e.action.Tick? && !t.down.sender.chain.failed
  }

  /** The tick finds the session alive and pings it. */
  predicate Pings(c: Config, t: Talk, e: Event) {
    Meets(t, e) && Lifecycle.Elapsed(e.at, t.detector.lastRecv) <= c.timeout
  }

  /** The peer answers a packet by its id. */
  predicate IsPing(packet: seq<byte>) {
    |packet| >= HEADER_SIZE && IdField(packet) == S_PING
  }

  predicate Handles(t: Talk, e: Event) {
    e.action.Answer? && t.answered < |t.down.dispatched|
  }

  /** What an event does to the link down, if anything. */
  function DownOf(c: Config, t: Talk, e: Event): (es: seq<EndToEnd.Event>)
    ensures |es| <= 1
  {
    if Pings(c, t, e) then [EndToEnd.Send(PING)] else if e.action.Down? then [e.action.e] else []
  }

  /** What an event does to the link up, if anything. */
  function UpOf(t: Talk, e: Event): (es: seq<EndToEnd.Event>)
    ensures |es| <= 1
  {
    if Handles(t, e) && IsPing(t.down.dispatched[t.answered]) then [EndToEnd.Send(PONG)]
    else if e.action.Up? then [e.action.e] else []
  }

  /** What the detector sees of an event: the ticks, and the completed reads of the link up. */
  function BeatOf(c: Config, t: Talk, e: Event): (beats: seq<Heartbeat.Beat>)
    requires WellFormed(c, t)
    ensures |beats| <= 1
  {
    if Meets(t, e) then [Heartbeat.Tick(e.at)]
    else if e.action.Up? && e.action.e.Read? && EndToEnd.Enabled(c.up, t.up, e.action.e) then [Heartbeat.Recv(e.at)]
    else []
  }

  function Moved(c: EndToEnd.Config, l: EndToEnd.Link, es: seq<EndToEnd.Event>): (l': EndToEnd.Link)
    requires EndToEnd.WellFormed(c, l) && |es| <= 1
    ensures EndToEnd.WellFormed(c, l')
  {
    if es == [] then l else EndToEnd.Step(c, l, es[0])
  }

  function Step(c: Config, t: Talk, e: Event): (t': Talk)
    requires WellFormed(c, t)
    ensures WellFormed(c, t')
  {
    var beats := BeatOf(c, t, e);
    Talk(
      if beats == [] then t.detector else Heartbeat.Step(t.detector, c.timeout, beats[0]),
      Moved(c.down, t.down, DownOf(c, t, e)),
      Moved(c.up, t.up, UpOf(t, e)),
      if Handles(t, e) then t.answered + 1 else t.answered)
  }

  function Run(c: Config, events: seq<Event>): (t: Talk)
    ensures WellFormed(c, t)
    decreases |events|
  {
    if events == [] then Talk(Heartbeat.Detector(c.start, None), EndToEnd.FRESH_LINK, EndToEnd.FRESH_LINK, 0)
    else Step(c, Run(c, events[..|events| - 1]), events[|events| - 1])
  }

  function Beats(c: Config, events: seq<Event>): seq<Heartbeat.Beat>
    decreases |events|
  {
    if events == [] then []
    else
      var n := |events| - 1;
      Beats(c, events[..n]) + BeatOf(c, Run(c, events[..n]), events[n])
  }

  function DownEvents(c: Config, events: seq<Event>): seq<EndToEnd.Event>
    decreases |events|
  {
    if events == [] then []
    else
      var n := |events| - 1;
      DownEvents(c, events[..n]) + DownOf(c, Run(c, events[..n]), events[n])
  }

  function UpEvents(c: Config, events: seq<Event>): seq<EndToEnd.Event>
    decreases |events|
  {
    if events == [] then []
    else
      var n := |events| - 1;
      UpEvents(c, events[..n]) + UpOf(Run(c, events[..n]), events[n])
  }

  /** The state after the first n events. */
  function After(c: Config, events: seq<Event>, n: nat): (t: Talk)
    requires n <= |events|
    ensures WellFormed(c, t)
  {
    Run(c, events[..n])
  }

  lemma AfterNext(c: Config, events: seq<Event>, n: nat)
    requires n < |events|
    ensures After(c, events, n + 1) == Step(c, After(c, events, n), events[n])
    ensures Beats(c, events[..n + 1]) == Beats(c, events[..n]) + BeatOf(c, After(c, events, n), events[n])
    ensures DownEvents(c, events[..n + 1]) == DownEvents(c, events[..n]) + DownOf(c, After(c, events, n), events[n])
    ensures UpEvents(c, events[..n + 1]) == UpEvents(c, events[..n]) + UpOf(After(c, events, n), events[n])
  {
    hide Step, BeatOf, DownOf, UpOf;
    assert events[..n + 1][..n] == events[..n];
  }

  lemma MovedRun(c: EndToEnd.Config, before: seq<EndToEnd.Event>, es: seq<EndToEnd.Event>)
    requires |es| <= 1
    ensures EndToEnd.Run(c, before + es) == Moved(c, EndToEnd.Run(c, before), es)
  {
    hide EndToEnd.Run, EndToEnd.Step;
    if es == [] {
      assert before + es == before;
    } else {
      EndToEnd.RunSnoc(c, before, es[0]);
      assert es == [es[0]];
    }
  }

  lemma ProjectedFirst(c: Config, events: seq<Event>)
    ensures After(c, events, 0).detector == Heartbeat.Run(c.start, c.timeout, Beats(c, events[..0]))
    ensures After(c, events, 0).down == EndToEnd.Run(c.down, DownEvents(c, events[..0]))
    ensures After(c, events, 0).up == EndToEnd.Run(c.up, UpEvents(c, events[..0]))
  {
    assert events[..0] == [];
  }

  /** The three parts are runs of the detector and of two links. */
  lemma {:induction false} Projected(c: Config, events: seq<Event>, n: nat)
    requires n <= |events|
    ensures After(c, events, n).detector == Heartbeat.Run(c.start, c.timeout, Beats(c, events[..n]))
    ensures After(c, events, n).down == EndToEnd.Run(c.down, DownEvents(c, events[..n]))
    ensures After(c, events, n).up == EndToEnd.Run(c.up, UpEvents(c, events[..n]))
  {
    hide Run, Beats, DownEvents, UpEvents, EndToEnd.Run, Heartbeat.Run, After, BeatOf, DownOf, UpOf, Moved, WellFormed;
    if n == 0 {
      ProjectedFirst(c, events);
    } else {
      Projected(c, events, n - 1);
      AfterNext(c, events, n - 1);
      var t, e := After(c, events, n - 1), events[n - 1];
      MovedRun(c.down, DownEvents(c, events[..n - 1]), DownOf(c, t, e));
      MovedRun(c.up, UpEvents(c, events[..n - 1]), UpOf(t, e));
      Heartbeat.RunBeat(c.start, c.timeout, Beats(c, events[..n - 1]), BeatOf(c, t, e));
    }
  }

  // ----- what only grows -----

  function BytesSent(l: EndToEnd.Link): nat {
    |Flatten(l.sender.sent)|
  }

  /** What the peer has dispatched and handled, what it has sent, and what the server has read of it. */
  predicate NoLess(t: Talk, t': Talk) {
    && t.down.dispatched <= t'.down.dispatched && t.answered <= t'.answered
    && BytesSent(t.up) <= BytesSent(t'.up) && t.up.consumed <= t'.up.consumed
  }

  lemma LinkGrows(c: EndToEnd.Config, l: EndToEnd.Link, e: EndToEnd.Event)
    requires EndToEnd.WellFormed(c, l)
    ensures var l' := EndToEnd.Step(c, l, e);
      && l.dispatched <= l'.dispatched && BytesSent(l) <= BytesSent(l') && l.consumed <= l'.consumed
      && (l.consumed < l'.consumed ==> e.Read? && EndToEnd.Enabled(c, l, e))
      && (e.Send? ==> BytesSent(l') == BytesSent(l) + |e.msg|)
  {
    hide Parse, Rest, Flatten, Sender.Inv;
    if e.Send? {
      FlattenSnoc(l.sender.sent, Encipher(e.msg, c.cipher));
    }
  }

  lemma StepGrows(c: Config, t: Talk, e: Event)
    requires WellFormed(c, t)
    ensures var t' := Step(c, t, e);
      && NoLess(t, t')
      && (t.up.consumed < t'.up.consumed ==> BeatOf(c, t, e) == [Heartbeat.Recv(e.at)])
      && (t.answered < t'.answered ==> t'.answered == t.answered + 1 && t.answered < |t.down.dispatched|)
      && (t.answered < t'.answered && IsPing(t.down.dispatched[t.answered]) ==> BytesSent(t.up) < BytesSent(t'.up))
  {
    hide EndToEnd.Step, BytesSent, EndToEnd.WellFormed;
    if DownOf(c, t, e) != [] {
      LinkGrows(c.down, t.down, DownOf(c, t, e)[0]);
    }
    if UpOf(t, e) != [] {
      LinkGrows(c.up, t.up, UpOf(t, e)[0]);
    }
    assert |PONG| >= HEADER_SIZE;
  }

  lemma {:induction false} Grows(c: Config, events: seq<Event>, i: nat, q: nat)
    requires i <= q <= |events|
    ensures NoLess(After(c, events, i), After(c, events, q))
  {
    hide After, Step, BeatOf, WellFormed, BytesSent, IsPing;
    if i < q {
      Grows(c, events, i, q - 1);
      AfterNext(c, events, q - 1);
      StepGrows(c, After(c, events, q - 1), events[q - 1]);
    }
  }

  lemma AtStart(c: Config, events: seq<Event>)
    ensures After(c, events, 0).answered == |After(c, events, 0).down.dispatched| == 0
  {
    assert events[..0] == [];
  }

  lemma {:induction false} HandledWereDispatched(c: Config, events: seq<Event>, n: nat)
    requires n <= |events|
    ensures After(c, events, n).answered <= |After(c, events, n).down.dispatched|
  {
    hide After, Step, BeatOf, WellFormed, BytesSent, IsPing;
    if n == 0 {
      AtStart(c, events);
    } else {
      HandledWereDispatched(c, events, n - 1);
      AfterNext(c, events, n - 1);
      StepGrows(c, After(c, events, n - 1), events[n - 1]);
    }
  }

  /** If the server has read more of the link up, one of the events was a completed read. */
  lemma {:induction false} SomeRead(c: Config, events: seq<Event>, i: nat, q: nat) returns (r: nat)
    requires i <= q <= |events| && After(c, events, i).up.consumed < After(c, events, q).up.consumed
    ensures i <= r < q && BeatOf(c, After(c, events, r), events[r]) == [Heartbeat.Recv(events[r].at)]
  {
    hide After, Step, BeatOf, WellFormed, BytesSent;
    AfterNext(c, events, q - 1);
    StepGrows(c, After(c, events, q - 1), events[q - 1]);
    if After(c, events, i).up.consumed < After(c, events, q - 1).up.consumed {
      r := SomeRead(c, events, i, q - 1);
    } else {
      Grows(c, events, i, q - 1);
      r := q - 1;
    }
  }

  /** If the peer has handled the p-th packet dispatched to it, one of the events was that. */
  lemma {:induction false} SomeAnswer(c: Config, events: seq<Event>, i: nat, q: nat, p: nat) returns (r: nat)
    requires i <= q <= |events| && After(c, events, i).answered <= p < After(c, events, q).answered
    ensures i <= r < q && After(c, events, r).answered == p < After(c, events, r + 1).answered
  {
    hide After, Step, BeatOf, WellFormed, BytesSent, IsPing;
    AfterNext(c, events, q - 1);
    StepGrows(c, After(c, events, q - 1), events[q - 1]);
    if p < After(c, events, q - 1).answered {
      r := SomeAnswer(c, events, i, q - 1, p);
    } else {
      r := q - 1;
    }
  }

  // ----- a ping is answered -----

  /** All that the server itself sends are packets. */
  predicate SendsPackets(events: seq<Event>) {
    forall i :: 0 <= i < |events| && events[i].action.Down? && events[i].action.e.Send? ==>
      IsPacket(events[i].action.e.msg)
  }

  /**
   After q events the peer has nothing left to run or to handle, and as many packets have been
   dispatched to it as had been sent when the i-th event was over.
   */
  predicate PeerCaughtUp(c: Config, events: seq<Event>, i: nat, q: nat)
    requires i < q <= |events|
  {
    var t := After(c, events, q);
    t.down.tasks == [] && t.answered == |t.down.dispatched| >= |EndToEnd.Sent(DownEvents(c, events[..i + 1]))|
  }

  /** After q' events the server has read as many bytes of the link up as the peer had sent after q events. */
  predicate ServerCaughtUp(c: Config, events: seq<Event>, q: nat, q': nat)
    requires q <= q' <= |events|
  {
    After(c, events, q').up.consumed >= BytesSent(After(c, events, q).up)
  }

  lemma PingIsPacket()
    ensures IsPacket(PING) && IsPing(PING)
  {
    hide SendBuffer, EncodeAll, SizeField, IdField, Parse, Rest;
    BodyLength(Packet.Ping);
    HeaderFields(S_PING, EncodeAll(Packet.Ping.Fields()));
    FramedExactlyWhenShort(S_PING, EncodeAll(Packet.Ping.Fields()));
  }

  lemma SentSnoc(before: seq<EndToEnd.Event>, e: EndToEnd.Event)
    ensures EndToEnd.Sent(before + [e]) == EndToEnd.Sent(before) + (if e.Send? then [e.msg] else [])
  {
    assert (before + [e])[..|before|] == before;
  }

  lemma NothingDown(c: Config, events: seq<Event>)
    ensures EndToEnd.Sent(DownEvents(c, events[..0])) == []
  {
    assert events[..0] == [];
    assert DownEvents(c, []) == [];
  }

  /** All that travels down is packets, and what was sent stays sent. */
  lemma {:induction false} DownPackets(c: Config, events: seq<Event>, i: nat, q: nat)
    requires SendsPackets(events) && i <= q <= |events|
    ensures ArePackets(EndToEnd.Sent(DownEvents(c, events[..q])))
    ensures EndToEnd.Sent(DownEvents(c, events[..i])) <= EndToEnd.Sent(DownEvents(c, events[..q]))
    decreases q
  {
    hide After, Run, DownOf, DownEvents, EndToEnd.Sent, IsPacket, Pings, WellFormed;
    if q == 0 {
      NothingDown(c, events);
    } else {
      hide ArePackets;
      DownPackets(c, events, if i < q then i else q - 1, q - 1);
      DownSends(c, events, q - 1);
      PacketsSnoc(EndToEnd.Sent(DownEvents(c, events[..q - 1])), EndToEnd.Sent(DownEvents(c, events[..q])));
    }
  }

  /** An event sends down at most one packet: a ping, exactly if it pings. */
  lemma DownSends(c: Config, events: seq<Event>, n: nat)
    requires SendsPackets(events) && n < |events|
    ensures var t := After(c, events, n);
      var before, after := EndToEnd.Sent(DownEvents(c, events[..n])), EndToEnd.Sent(DownEvents(c, events[..n + 1]));
      && before <= after && |after| <= |before| + 1
      && (|after| > |before| ==> IsPacket(after[|before|]))
      && (Pings(c, t, events[n]) ==> after == before + [PING])
  {
    hide After, Run, DownEvents, EndToEnd.Sent, IsPacket;
    AfterNext(c, events, n);
    PingIsPacket();
    var es := DownOf(c, After(c, events, n), events[n]);
    if es == [] {
      assert DownEvents(c, events[..n]) + es == DownEvents(c, events[..n]);
    } else {
      assert es == [es[0]];
      SentSnoc(DownEvents(c, events[..n]), es[0]);
    }
  }

  lemma PacketsSnoc(before: seq<seq<byte>>, after: seq<seq<byte>>)
    requires ArePackets(before) && before <= after && |after| <= |before| + 1
    requires |after| > |before| ==> IsPacket(after[|before|])
    ensures ArePackets(after)
  {
    hide IsPacket;
    forall i | 0 <= i < |after| ensures IsPacket(after[i]) {
      if i < |before| {
        assert after[i] == before[i];
      }
    }
  }

  /** An element that occurs more often in the whole than in its first k occurs behind them. */
  lemma Behind(s: seq<seq<byte>>, k: nat, x: seq<byte>) returns (p: nat)
    requires k <= |s| && multiset(s)[x] > multiset(s[..k])[x]
    ensures k <= p < |s| && s[p] == x
  {
    assert s == s[..k] + s[k..];
    assert multiset(s)[x] == multiset(s[..k])[x] + multiset(s[k..])[x];
    assert x in multiset(s[k..]);
    assert x in s[k..];
    var j :| 0 <= j < |s[k..]| && s[k..][j] == x;
    p := k + j;
  }

  /** What has been dispatched to the peer was sent; while no task waits, it is the first packets sent, in some order. */
  lemma SentBefore(c: Config, events: seq<Event>, n: nat)
    requires SendsPackets(events) && n <= |events|
    ensures var l, sent := After(c, events, n).down, EndToEnd.Sent(DownEvents(c, events[..n]));
      && multiset(l.dispatched) <= multiset(sent)
      && (l.tasks == [] ==> |l.dispatched| <= |sent| && multiset(l.dispatched) == multiset(sent[..|l.dispatched|]))
  {
    Projected(c, events, n);
    hide After, Run, DownEvents, EndToEnd.Sent, EndToEnd.Run, WellFormed, IsPacket, Heartbeat.Run, Beats, UpEvents;
    DownPackets(c, events, n, n);
    EndToEnd.DispatchedAmongSent(c.down, DownEvents(c, events[..n]));
    if After(c, events, n).down.tasks == [] {
      DispatchedAreFirst(c.down, DownEvents(c, events[..n]));
    }
  }

  /** By the time the peer has caught up, a ping sent by the i-th event has been dispatched to it and handled. */
  lemma PingDispatched(c: Config, events: seq<Event>, i: nat, q: nat) returns (p: nat)
    requires SendsPackets(events) && i < q <= |events|
    requires Pings(c, After(c, events, i), events[i]) && PeerCaughtUp(c, events, i, q)
    ensures After(c, events, i).answered <= p < After(c, events, q).answered
    ensures After(c, events, q).down.dispatched[p] == PING
  {
    var t, u := After(c, events, i), After(c, events, q);
    var sent, sent' := EndToEnd.Sent(DownEvents(c, events[..i])), EndToEnd.Sent(DownEvents(c, events[..q]));
    hide After, Run, DownEvents, EndToEnd.Sent, EndToEnd.Run, EndToEnd.Settled, Pings, IsPacket, WellFormed;
    SentBefore(c, events, i);
    SentBefore(c, events, q);
    DownPackets(c, events, i + 1, q);
    DownSends(c, events, i);
    Grows(c, events, i, q);
    HandledWereDispatched(c, events, i);
    OneMore(t.down.dispatched, sent, u.down.dispatched, sent', PING, t.answered);
    p := Behind(u.down.dispatched, t.answered, PING);
  }

  /** While no task waits, the packets dispatched are the first ones sent, in some order. */
  lemma DispatchedAreFirst(c: EndToEnd.Config, events: seq<EndToEnd.Event>)
    requires ArePackets(EndToEnd.Sent(events)) && EndToEnd.Run(c, events).tasks == []
    ensures var l := EndToEnd.Run(c, events);
      |l.dispatched| <= |EndToEnd.Sent(events)|
      && multiset(l.dispatched) == multiset(EndToEnd.Sent(events)[..|l.dispatched|])
  {
    EndToEnd.PooledDelivery(c, events);
    hide EndToEnd.Run, EndToEnd.Sent, EndToEnd.Drained, ArePackets;
    var l, sent := EndToEnd.Run(c, events), EndToEnd.Sent(events);
    var k :| 0 <= k <= |sent|
      && multiset(l.dispatched) + multiset(EncipherAll(l.tasks, c.cipher)) == multiset(sent[..k])
      && (EndToEnd.Drained(l) ==> k == |sent|);
    assert EncipherAll(l.tasks, c.cipher) == [];
    assert |multiset(l.dispatched)| == |multiset(sent[..k])|;
  }

  lemma OneMore(some: seq<seq<byte>>, sent: seq<seq<byte>>, all: seq<seq<byte>>, sent': seq<seq<byte>>, x: seq<byte>,
                k: nat)
    requires multiset(some) <= multiset(sent) && sent + [x] <= sent'
    requires |sent| < |all| <= |sent'| && multiset(all) == multiset(sent'[..|all|])
    requires some <= all && k <= |some|
    ensures multiset(all)[x] > multiset(all[..k])[x]
  {
    var first := sent'[..|all|];
    assert first == sent + [x] + first[|sent| + 1..];
    assert multiset(first)[x] >= multiset(sent)[x] + 1;
    assert some == some[..k] + some[k..];
    assert all[..k] == some[..k];
  }

  /** A ping is answered: once the peer and then the server have caught up, the server has completed a read in between. */
  lemma PingAnswered(c: Config, events: seq<Event>, i: nat, q: nat, q': nat) returns (r: nat)
    requires SendsPackets(events) && i < q <= q' <= |events|
    requires Pings(c, After(c, events, i), events[i])
    requires PeerCaughtUp(c, events, i, q) && ServerCaughtUp(c, events, q, q')
    ensures i < r < q' && BeatOf(c, After(c, events, r), events[r]) == [Heartbeat.Recv(events[r].at)]
  {
    hide After, Step, Run, Pings, IsPing, WellFormed, SendsPackets, ServerCaughtUp;
    var p := PingDispatched(c, events, i, q);
    PingIsPacket();
    TickBeat(c, After(c, events, i), events[i]);
    hide BeatOf, IsPacket, PeerCaughtUp;
    var a := SomeAnswer(c, events, i, q, p);
    PongRead(c, events, a, q, q');
    r := SomeRead(c, events, a, q');
  }

  lemma TickBeat(c: Config, t: Talk, e: Event)
    requires WellFormed(c, t) && Pings(c, t, e)
    ensures BeatOf(c, t, e) == [Heartbeat.Tick(e.at)]
  {
  }

  /** The pong sent at the a-th event has been read once the server has caught up. */
  lemma PongRead(c: Config, events: seq<Event>, a: nat, q: nat, q': nat)
    requires a < q <= q' <= |events| && ServerCaughtUp(c, events, q, q')
    requires After(c, events, a).answered < After(c, events, a + 1).answered
    requires After(c, events, a).answered < |After(c, events, q).down.dispatched|
    requires IsPing(After(c, events, q).down.dispatched[After(c, events, a).answered])
    ensures After(c, events, a).up.consumed < After(c, events, q').up.consumed
  {
    hide After, Step, BeatOf, IsPing;
    var t := After(c, events, a);
    AfterNext(c, events, a);
    StepGrows(c, t, events[a]);
    Grows(c, events, a, q);
    Grows(c, events, a + 1, q);
    WireIsPrefix(t.up.sender);
  }

  // ----- beats and the events they come from -----

  lemma BeatsNext(c: Config, events: seq<Event>, n: nat)
    requires n < |events|
    ensures Beats(c, events[..n + 1]) == Beats(c, events[..n]) + BeatOf(c, After(c, events, n), events[n])
  {
    AfterNext(c, events, n);
  }

  lemma {:induction false} BeatsGrow(c: Config, events: seq<Event>, i: nat, n: nat)
    requires i <= n <= |events|
    ensures Beats(c, events[..i]) <= Beats(c, events[..n])
    decreases n
  {
    hide After, Beats, BeatOf;
    if i < n {
      BeatsGrow(c, events, i, n - 1);
      BeatsNext(c, events, n - 1);
    }
  }

  lemma NoBeatsAtFirst(c: Config, events: seq<Event>)
    ensures Beats(c, events[..0]) == []
  {
    assert events[..0] == [];
  }

  /** The event that a beat comes from. */
  lemma {:induction false} EventOfBeat(c: Config, events: seq<Event>, n: nat, b: nat) returns (i: nat)
    requires n <= |events| && b < |Beats(c, events[..n])|
    ensures i < n && |Beats(c, events[..i])| == b
    ensures BeatOf(c, After(c, events, i), events[i]) == [Beats(c, events[..n])[b]]
    decreases n
  {
    hide After, Beats, BeatOf, Run, WellFormed;
    NoBeatsAtFirst(c, events);
    BeatsNext(c, events, n - 1);
    if b < |Beats(c, events[..n - 1])| {
      i := EventOfBeat(c, events, n - 1, b);
    } else {
      i := n - 1;
    }
  }

  /** An event's beat stands behind those of the events before it. */
  lemma BeatPlace(c: Config, events: seq<Event>, i: nat, n: nat)
    requires i < n <= |events| && BeatOf(c, After(c, events, i), events[i]) != []
    ensures var b := |Beats(c, events[..i])|;
      b < |Beats(c, events[..n])| && BeatOf(c, After(c, events, i), events[i]) == [Beats(c, events[..n])[b]]
  {
    BeatsNext(c, events, i);
    hide After, Beats, BeatOf;
    BeatsGrow(c, events, i + 1, n);
  }

  predicate InOrder(c: Config, events: seq<Event>) {
    && (forall i :: 0 <= i < |events| ==> c.start <= events[i].at < U64_RANGE)
    && forall i, j :: 0 <= i < j < |events| ==> events[i].at <= events[j].at
  }

  lemma BeatTime(c: Config, t: Talk, e: Event)
    requires WellFormed(c, t) && BeatOf(c, t, e) != []
    ensures BeatOf(c, t, e)[0].time == e.at && (BeatOf(c, t, e)[0].Tick? ==> Meets(t, e))
  {
  }

  lemma BeatsOrdered(c: Config, events: seq<Event>, n: nat)
    requires n <= |events| && InOrder(c, events)
    ensures Heartbeat.Ordered(c.start, Beats(c, events[..n]))
  {
    hide Beats, After, BeatOf;
    var beats := Beats(c, events[..n]);
    forall b | 0 <= b < |beats| ensures c.start <= beats[b].time < U64_RANGE {
      var i := EventOfBeat(c, events, n, b);
      BeatTime(c, After(c, events, i), events[i]);
    }
    forall a, b | 0 <= a < b < |beats| ensures beats[a].time <= beats[b].time {
      var i := EventOfBeat(c, events, n, a);
      var j := EventOfBeat(c, events, n, b);
      BeatTime(c, After(c, events, i), events[i]);
      BeatTime(c, After(c, events, j), events[j]);
      if j <= i {
        BeatsGrow(c, events, j, i);
      }
    }
  }

  /** After the i-th event, by the deadline and before the m-th, the peer has caught up, and then the server. */
  predicate CaughtUpBetween(c: Config, events: seq<Event>, i: nat, m: nat, deadline: nat)
    requires m <= |events|
  {
    exists q, q' :: i < q <= q' <= m && PeerCaughtUp(c, events, i, q) && ServerCaughtUp(c, events, q, q')
      && events[q' - 1].at <= deadline
  }

  /** After every ping the two sides catch up within `reply`, before any tick at that time or later. */
  predicate CatchesUp(c: Config, events: seq<Event>, reply: nat) {
    forall i, m :: 0 <= i < m < |events| && Pings(c, After(c, events, i), events[i])
      && Meets(After(c, events, m), events[m]) && events[m].at >= events[i].at + reply
      ==> CaughtUpBetween(c, events, i, m, events[i].at + reply)
  }

  /** A tick of the detector that finds the session alive is an event that pings it. */
  lemma AliveIsPinged(c: Config, events: seq<Event>, n: nat, b: nat, i: nat)
    requires i < n <= |events| && b == |Beats(c, events[..i])| < |Beats(c, events[..n])|
    requires Meets(After(c, events, i), events[i]) && events[i].at == Beats(c, events[..n])[b].time
    requires !Heartbeat.Overdue(c.start, c.timeout, Beats(c, events[..n]), b) && Beats(c, events[..n])[b].Tick?
    ensures Pings(c, After(c, events, i), events[i])
  {
    hide Beats, After, Run, DownEvents, UpEvents, EndToEnd.Run, Heartbeat.Run, Heartbeat.LastRecv, WellFormed;
    var beats := Beats(c, events[..n]);
    Projected(c, events, i);
    BeatsGrow(c, events, i, n);
    assert beats[..b] == Beats(c, events[..i]);
    var _ := Heartbeat.RunPrefix(c.start, c.timeout, beats, b);
  }

  /** The read that a ping leads to, in time. */
  lemma ReadInTime(c: Config, events: seq<Event>, i: nat, m: nat, deadline: nat) returns (r: nat)
    requires SendsPackets(events) && InOrder(c, events) && i < m <= |events|
    requires Pings(c, After(c, events, i), events[i]) && CaughtUpBetween(c, events, i, m, deadline)
    ensures i < r < m && events[r].at <= deadline
    ensures BeatOf(c, After(c, events, r), events[r]) == [Heartbeat.Recv(events[r].at)]
  {
    hide After, BeatOf, PeerCaughtUp, ServerCaughtUp, Pings, SendsPackets;
    var q, q' :| i < q <= q' <= m && PeerCaughtUp(c, events, i, q) && ServerCaughtUp(c, events, q, q')
      && events[q' - 1].at <= deadline;
    r := PingAnswered(c, events, i, q, q');
  }

  /** A ping and a later tick with which the reply time is over. */
  lemma ReadWhenDue(c: Config, events: seq<Event>, reply: nat, i: nat, m: nat) returns (r: nat)
    requires SendsPackets(events) && InOrder(c, events) && CatchesUp(c, events, reply)
    requires i < m < |events| && Pings(c, After(c, events, i), events[i])
    requires Meets(After(c, events, m), events[m]) && events[m].at >= events[i].at + reply
    ensures i < r < m && events[r].at <= events[i].at + reply
    ensures BeatOf(c, After(c, events, r), events[r]) == [Heartbeat.Recv(events[r].at)]
  {
    assert CaughtUpBetween(c, events, i, m, events[i].at + reply);
    hide *;
    r := ReadInTime(c, events, i, m, events[i].at + reply);
  }

  /** One ping, in the detector's terms. */
  lemma RepliedTo(c: Config, events: seq<Event>, n: nat, reply: nat, a: nat, b: nat)
    requires SendsPackets(events) && InOrder(c, events) && CatchesUp(c, events, reply) && n <= |events|
    requires var beats := Beats(c, events[..n]);
      && a < b < |beats| && beats[a].Tick? && !Heartbeat.Overdue(c.start, c.timeout, beats, a)
      && beats[b].Tick? && beats[b].time >= beats[a].time + reply
    ensures Heartbeat.RepliedBetween(Beats(c, events[..n]), a, b, Beats(c, events[..n])[a].time + reply)
  {
    hide Beats, After, BeatOf, Pings, Heartbeat.Overdue, SendsPackets, InOrder, CatchesUp, Meets, WellFormed;
    var beats := Beats(c, events[..n]);
    var i := EventOfBeat(c, events, n, a);
    var m := EventOfBeat(c, events, n, b);
    BeatTime(c, After(c, events, i), events[i]);
    BeatTime(c, After(c, events, m), events[m]);
    if m <= i {
      BeatsGrow(c, events, m, i);
    }
    AliveIsPinged(c, events, n, a, i);
    var r := ReadWhenDue(c, events, reply, i, m);
    ReadBetween(c, events, n, i, r, m);
    assert beats[|Beats(c, events[..r])|] == Heartbeat.Recv(events[r].at);
  }

  /** Beats come in the order of their events. */
  lemma ReadBetween(c: Config, events: seq<Event>, n: nat, i: nat, r: nat, m: nat)
    requires i < r < m < n <= |events|
    requires BeatOf(c, After(c, events, i), events[i]) != []
    requires BeatOf(c, After(c, events, r), events[r]) == [Heartbeat.Recv(events[r].at)]
    ensures var k := |Beats(c, events[..r])|;
      && |Beats(c, events[..i])| < k < |Beats(c, events[..m])| <= |Beats(c, events[..n])|
      && Beats(c, events[..n])[k] == Heartbeat.Recv(events[r].at)
  {
    hide Beats, After, BeatOf;
    BeatPlace(c, events, i, r);
    BeatPlace(c, events, r, m);
    BeatsGrow(c, events, m, n);
  }

  /** The session answers in time. */
  lemma PeerAnswers(c: Config, events: seq<Event>, base: nat, interval: nat, jitter: nat, reply: nat)
    requires SendsPackets(events) && InOrder(c, events) && CatchesUp(c, events, reply)
    requires Heartbeat.Scheduled(c.start, base, interval, jitter, Beats(c, events))
    ensures Heartbeat.Answering(c.start, c.timeout, base, interval, jitter, reply, Beats(c, events))
  {
    hide Beats, Heartbeat.Overdue, Heartbeat.Scheduled, Heartbeat.Ordered, Heartbeat.RepliedBetween;
    hide SendsPackets, InOrder, CatchesUp;
    var beats := Beats(c, events);
    BeatsOrdered(c, events, |events|);
    assert events[..|events|] == events;
    forall a, b | 0 <= a < b < |beats| && beats[a].Tick? && !Heartbeat.Overdue(c.start, c.timeout, beats, a)
      && beats[b].Tick? && beats[b].time >= beats[a].time + reply
      ensures Heartbeat.RepliedBetween(beats, a, b, beats[a].time + reply)
    {
      RepliedTo(c, events, |events|, reply, a, b);
    }
  }

  /** What the main result assumes of a conversation. */
  predicate Lively(c: Config, events: seq<Event>, base: nat, interval: nat, jitter: nat, reply: nat) {
    && SendsPackets(events) && InOrder(c, events) && CatchesUp(c, events, reply)
    && Heartbeat.Scheduled(c.start, base, interval, jitter, Beats(c, events))
    && interval > 0 && reply > 0 && Heartbeat.WorstGap(interval, jitter, reply) <= c.timeout
  }

  /**
   Transport, handlers and detector together: if the two sides catch up within `reply` after every
   ping, the ticks are at most `jitter` late and the worst gap is within the timeout, then the
   heartbeat never closes the session, whatever else the two sides send.
   */
  lemma AnsweringPeerStaysOpen(c: Config, events: seq<Event>, base: nat, interval: nat, jitter: nat, reply: nat)
    requires Lively(c, events, base, interval, jitter, reply)
    ensures Run(c, events).detector.closed.None?
    ensures Heartbeat.Answering(c.start, c.timeout, base, interval, jitter, reply, Beats(c, events))
  {
    hide Run, Beats, Heartbeat.Answering, Heartbeat.Scheduled, Heartbeat.WorstGap, Heartbeat.Run;
    hide CatchesUp, SendsPackets, InOrder, DownEvents, UpEvents;
    PeerAnswers(c, events, base, interval, jitter, reply);
    Heartbeat.InTimeNeverClosed(c.start, c.timeout, base, interval, jitter, reply, Beats(c, events));
    Projected(c, events, |events|);
    WholeRun(c, events);
    assert events[..|events|] == events;
  }

  /** And the session of the registry that meets these beats: nobody but ForceDisconnect closes its socket. */
  lemma AnsweringPeerInRegistry(c: Config, events: seq<Event>, base: nat, interval: nat, jitter: nat, reply: nat,
                                lives: seq<Lifecycle.Event>, k: nat)
    requires Lively(c, events, base, interval, jitter, reply)
    requires Heartbeat.SameTimeout(lives, c.timeout) && k < |Lifecycle.Run(lives).conns|
    requires Heartbeat.StartTime(lives, k) == c.start && Heartbeat.Beats(lives, k) == Beats(c, events)
    ensures !Lifecycle.Run(lives).conns[k].forced ==>
      Lifecycle.Run(lives).conns[k].open && (Lifecycle.SocketOpenAt(lives, k) <==> Lifecycle.HeldAt(lives, k))
  {
    hide Run, Beats, Heartbeat.Beats, Heartbeat.Answering, Heartbeat.Scheduled, Heartbeat.WorstGap;
    hide Lifecycle.Run, Heartbeat.StartTime, SendsPackets, InOrder, CatchesUp;
    AnsweringPeerStaysOpen(c, events, base, interval, jitter, reply);
    Heartbeat.PromptSessionStaysOpen(lives, k, c.timeout, base, interval, jitter, reply);
  }

  // ----- the two sides can always catch up -----

  function AllDown(at: nat, es: seq<EndToEnd.Event>): seq<Event> {
    seq(|es|, i requires 0 <= i < |es| => Event(at, Down(es[i])))
  }

  function AllUp(at: nat, es: seq<EndToEnd.Event>): seq<Event> {
    seq(|es|, i requires 0 <= i < |es| => Event(at, Up(es[i])))
  }

  function AllAnswer(at: nat, n: nat): seq<Event> {
    seq(n, i => Event(at, Answer))
  }

  lemma RunSnoc(c: Config, events: seq<Event>, e: Event)
    ensures Run(c, events + [e]) == Step(c, Run(c, events), e)
    ensures DownEvents(c, events + [e]) == DownEvents(c, events) + DownOf(c, Run(c, events), e)
    ensures UpEvents(c, events + [e]) == UpEvents(c, events) + UpOf(Run(c, events), e)
  {
    hide Step, DownOf, UpOf;
    assert (events + [e])[..|events|] == events;
  }

  lemma DownOne(c: Config, events: seq<Event>, at: nat, e: EndToEnd.Event)
    ensures DownEvents(c, events + [Event(at, Down(e))]) == DownEvents(c, events) + [e]
    ensures UpEvents(c, events + [Event(at, Down(e))]) == UpEvents(c, events)
    ensures Run(c, events + [Event(at, Down(e))]).answered == Run(c, events).answered
  {
    RunSnoc(c, events, Event(at, Down(e)));
    hide Run, DownEvents, UpEvents, Moved, BeatOf, WellFormed;
  }

  lemma {:induction false} DownGoesOn(c: Config, events: seq<Event>, at: nat, es: seq<EndToEnd.Event>)
    ensures DownEvents(c, events + AllDown(at, es)) == DownEvents(c, events) + es
    ensures UpEvents(c, events + AllDown(at, es)) == UpEvents(c, events)
    ensures Run(c, events + AllDown(at, es)).answered == Run(c, events).answered
    decreases |es|
  {
    hide Run, DownEvents, UpEvents, WellFormed;
    if es == [] {
      assert events + AllDown(at, es) == events;
    } else {
      var n := |es| - 1;
      DownGoesOn(c, events, at, es[..n]);
      DownOne(c, events + AllDown(at, es[..n]), at, es[n]);
      assert events + AllDown(at, es) == events + AllDown(at, es[..n]) + [Event(at, Down(es[n]))];
      assert es == es[..n] + [es[n]];
    }
  }

  lemma UpOne(c: Config, events: seq<Event>, at: nat, e: EndToEnd.Event)
    ensures UpEvents(c, events + [Event(at, Up(e))]) == UpEvents(c, events) + [e]
    ensures DownEvents(c, events + [Event(at, Up(e))]) == DownEvents(c, events)
    ensures Run(c, events + [Event(at, Up(e))]).answered == Run(c, events).answered
  {
    RunSnoc(c, events, Event(at, Up(e)));
    hide Run, DownEvents, UpEvents, Moved, BeatOf, WellFormed;
  }

  lemma {:induction false} UpGoesOn(c: Config, events: seq<Event>, at: nat, es: seq<EndToEnd.Event>)
    ensures UpEvents(c, events + AllUp(at, es)) == UpEvents(c, events) + es
    ensures DownEvents(c, events + AllUp(at, es)) == DownEvents(c, events)
    ensures Run(c, events + AllUp(at, es)).answered == Run(c, events).answered
    decreases |es|
  {
    hide Run, DownEvents, UpEvents, WellFormed;
    if es == [] {
      assert events + AllUp(at, es) == events;
    } else {
      var n := |es| - 1;
      UpGoesOn(c, events, at, es[..n]);
      UpOne(c, events + AllUp(at, es[..n]), at, es[n]);
      assert events + AllUp(at, es) == events + AllUp(at, es[..n]) + [Event(at, Up(es[n]))];
      assert es == es[..n] + [es[n]];
    }
  }

  /** The peer handles one packet more; the pong it may send is a packet and fails no write. */
  lemma AnswerOne(c: Config, events: seq<Event>, at: nat)
    requires Run(c, events).answered < |Run(c, events).down.dispatched|
    ensures var t, t' := Run(c, events), Run(c, events + [Event(at, Answer)]);
      && t'.down == t.down && t'.answered == t.answered + 1
      && t'.up.sender.chain.failed == t.up.sender.chain.failed
    ensures ArePackets(EndToEnd.Sent(UpEvents(c, events)))
      ==> ArePackets(EndToEnd.Sent(UpEvents(c, events + [Event(at, Answer)])))
  {
    var e := Event(at, Answer);
    RunSnoc(c, events, e);
    hide Run, DownEvents, UpEvents, BeatOf, WellFormed, EndToEnd.Sent, IsPacket;
    var es := UpOf(Run(c, events), e);
    if es == [] {
      assert UpEvents(c, events) + es == UpEvents(c, events);
    } else {
      assert es == [EndToEnd.Send(PONG)];
      PongIsPacket();
      SentSnoc(UpEvents(c, events), es[0]);
    }
  }

  lemma PongIsPacket()
    ensures IsPacket(PONG)
  {
    hide SendBuffer, EncodeAll, SizeField, IdField, Parse, Rest;
    BodyLength(Packet.Pong);
    FramedExactlyWhenShort(C_PONG, EncodeAll(Packet.Pong.Fields()));
  }

  lemma {:induction false} AnswersGoOn(c: Config, events: seq<Event>, at: nat, n: nat)
    requires Run(c, events).answered + n <= |Run(c, events).down.dispatched|
    requires ArePackets(EndToEnd.Sent(UpEvents(c, events)))
    ensures var t, t' := Run(c, events), Run(c, events + AllAnswer(at, n));
      && t'.down == t.down && t'.answered == t.answered + n
      && t'.up.sender.chain.failed == t.up.sender.chain.failed
    ensures ArePackets(EndToEnd.Sent(UpEvents(c, events + AllAnswer(at, n))))
  {
    hide Run, UpEvents, WellFormed, ArePackets, EndToEnd.Sent;
    if n == 0 {
      assert events + AllAnswer(at, n) == events;
    } else {
      AnswersGoOn(c, events, at, n - 1);
      AnswerOne(c, events + AllAnswer(at, n - 1), at);
      assert events + AllAnswer(at, n) == events + AllAnswer(at, n - 1) + [Event(at, Answer)];
    }
  }

  lemma ProjectedWhole(c: Config, events: seq<Event>)
    ensures Run(c, events).down == EndToEnd.Run(c.down, DownEvents(c, events))
    ensures Run(c, events).up == EndToEnd.Run(c.up, UpEvents(c, events))
    ensures Run(c, events).answered <= |Run(c, events).down.dispatched|
  {
    hide Run, DownEvents, UpEvents, Beats, EndToEnd.Run, Heartbeat.Run, WellFormed;
    Projected(c, events, |events|);
    HandledWereDispatched(c, events, |events|);
    assert events[..|events|] == events;
  }

  /** The peer catches up. */
  lemma PeerCatchesUp(c: Config, events: seq<Event>, at: nat) returns (es: seq<EndToEnd.Event>, n: nat)
    requires ArePackets(EndToEnd.Sent(DownEvents(c, events))) && ArePackets(EndToEnd.Sent(UpEvents(c, events)))
    requires EndToEnd.RoomyBuffer(c.down) && !Run(c, events).down.sender.chain.failed
    ensures EndToEnd.AllEffective(es)
    ensures var events' := events + AllDown(at, es) + AllAnswer(at, n);
      && Run(c, events').down.tasks == []
      && Run(c, events').answered == |Run(c, events').down.dispatched| == |EndToEnd.Sent(DownEvents(c, events))|
      && Run(c, events').up.sender.chain.failed == Run(c, events).up.sender.chain.failed
      && ArePackets(EndToEnd.Sent(UpEvents(c, events')))
  {
    hide Run, DownEvents, UpEvents, WellFormed, ArePackets, EndToEnd.Sent, EndToEnd.Run, EndToEnd.RoomyBuffer;
    hide EndToEnd.Drained, EndToEnd.AllEffective;
    ProjectedWhole(c, events);
    es := EndToEnd.EverythingArrives(c.down, DownEvents(c, events));
    var arrived := events + AllDown(at, es);
    DownGoesOn(c, events, at, es);
    ProjectedWhole(c, arrived);
    var l := Run(c, arrived).down;
    assert |multiset(l.dispatched)| == |multiset(EndToEnd.Sent(DownEvents(c, events)))|;
    n := |l.dispatched| - Run(c, arrived).answered;
    AnswersGoOn(c, arrived, at, n);
  }

  /** The server catches up. */
  lemma ServerCatchesUp(c: Config, events: seq<Event>, at: nat) returns (es: seq<EndToEnd.Event>)
    requires ArePackets(EndToEnd.Sent(UpEvents(c, events)))
    requires EndToEnd.RoomyBuffer(c.up) && !Run(c, events).up.sender.chain.failed
    ensures EndToEnd.AllEffective(es)
    ensures ServerCaughtUp(c, events + AllUp(at, es), |events|, |events + AllUp(at, es)|)
  {
    hide Run, DownEvents, UpEvents, WellFormed, ArePackets, EndToEnd.Sent, EndToEnd.Run, EndToEnd.RoomyBuffer;
    hide EndToEnd.AllEffective, After;
    ProjectedWhole(c, events);
    es := EndToEnd.EverythingArrives(c.up, UpEvents(c, events));
    var all := events + AllUp(at, es);
    UpGoesOn(c, events, at, es);
    ProjectedWhole(c, all);
    WholeRun(c, all);
    WireIsPrefix(Run(c, all).up.sender);
    Grows(c, all, |events|, |all|);
  }

  lemma WholeRun(c: Config, events: seq<Event>)
    ensures After(c, events, |events|) == Run(c, events)
  {
    assert events[..|events|] == events;
  }

  lemma AfterPart(c: Config, events: seq<Event>, more: seq<Event>)
    ensures After(c, events + more, |events|) == Run(c, events)
  {
    assert (events + more)[..|events|] == events;
  }

  /** Nothing but steps of the two links and answers, all at one time; nobody sends anything of his own. */
  predicate Quiet(events: seq<Event>, at: nat) {
    forall i :: 0 <= i < |events| ==>
      && events[i].at == at && !events[i].action.Tick?
      && (events[i].action.Down? || events[i].action.Up? ==> !events[i].action.e.Send?)
  }

  lemma CatchingUpIsQuiet(down: seq<EndToEnd.Event>, n: nat, up: seq<EndToEnd.Event>, at: nat)
    requires EndToEnd.AllEffective(down) && EndToEnd.AllEffective(up)
    ensures Quiet(AllDown(at, down) + AllAnswer(at, n) + AllUp(at, up), at)
  {
  }

  /**
   Catching up is always possible: from every state in which no write has failed, steps of the links
   and of the peer alone lead to one in which the peer, and then the server, has caught up with every
   event so far.
   */
  lemma CanCatchUp(c: Config, events: seq<Event>, at: nat) returns (more: seq<Event>, q: nat)
    requires SendsPackets(events) && ArePackets(EndToEnd.Sent(UpEvents(c, events)))
    requires EndToEnd.RoomyBuffer(c.down) && EndToEnd.RoomyBuffer(c.up)
    requires !Run(c, events).down.sender.chain.failed && !Run(c, events).up.sender.chain.failed
    ensures Quiet(more, at) && |events| <= q <= |events + more|
    ensures ServerCaughtUp(c, events + more, q, |events + more|)
    ensures forall i :: 0 <= i < |events| ==> PeerCaughtUp(c, events + more, i, q)
  {
    hide Run, DownEvents, UpEvents, WellFormed, ArePackets, EndToEnd.Sent, EndToEnd.RoomyBuffer, EndToEnd.AllEffective;
    hide After, SendsPackets, ServerCaughtUp;
    DownPackets(c, events, |events|, |events|);
    assert events[..|events|] == events;
    var down, n := PeerCatchesUp(c, events, at);
    var handled := events + AllDown(at, down) + AllAnswer(at, n);
    var up := ServerCatchesUp(c, handled, at);
    more, q := AllDown(at, down) + AllAnswer(at, n) + AllUp(at, up), |handled|;
    CatchingUpIsQuiet(down, n, up, at);
    hide Quiet;
    assert events + more == handled + AllUp(at, up);
    AfterPart(c, handled, AllUp(at, up));
    forall i | 0 <= i < |events| ensures PeerCaughtUp(c, events + more, i, q) {
      DownPackets(c, events, i + 1, |events|);
      assert (events + more)[..i + 1] == events[..i + 1];
    }
  }

  lemma QuietSendsNothing(events: seq<Event>, e: Event, more: seq<Event>)
    requires SendsPackets(events) && e.action.Tick? && Quiet(more, e.at)
    ensures SendsPackets(events + [e]) && SendsPackets(events + [e] + more)
  {
  }

  /** A tick fails no write and lets the peer send nothing. */
  lemma TickSendsDown(c: Config, events: seq<Event>, e: Event)
    requires e.action.Tick?
    ensures var t, t' := Run(c, events), Run(c, events + [e]);
      && UpEvents(c, events + [e]) == UpEvents(c, events)
      && t'.down.sender.chain.failed == t.down.sender.chain.failed
      && t'.up.sender.chain.failed == t.up.sender.chain.failed
  {
    RunSnoc(c, events, e);
    hide Run, UpEvents, DownEvents, BeatOf, WellFormed;
    assert UpEvents(c, events) + [] == UpEvents(c, events);
  }

  /** A ping, and then both sides catching up with it. */
  lemma PingThenCatchUp(c: Config, events: seq<Event>, e: Event) returns (more: seq<Event>, q: nat)
    requires SendsPackets(events) && ArePackets(EndToEnd.Sent(UpEvents(c, events)))
    requires EndToEnd.RoomyBuffer(c.down) && EndToEnd.RoomyBuffer(c.up)
    requires !Run(c, events).down.sender.chain.failed && !Run(c, events).up.sender.chain.failed
    requires e.action.Tick?
    ensures Quiet(more, e.at) && SendsPackets(events + [e] + more)
    ensures |events| < q <= |events + [e] + more|
    ensures PeerCaughtUp(c, events + [e] + more, |events|, q)
    ensures ServerCaughtUp(c, events + [e] + more, q, |events + [e] + more|)
    ensures After(c, events + [e] + more, |events|) == Run(c, events)
  {
    hide *;
    TickSendsDown(c, events, e);
    QuietNothing(e.at);
    QuietSendsNothing(events, e, []);
    more, q := CanCatchUp(c, events + [e], e.at);
    QuietSendsNothing(events, e, more);
    assert events + [e] + more == events + ([e] + more);
    AfterPart(c, events, [e] + more);
  }

  /**
   Every ping can be answered: after any ping, as long as no write has failed, steps of the links and
   answers alone lead to a read completed by the server.
   */
  lemma PingCanBeAnswered(c: Config, events: seq<Event>, e: Event) returns (all: seq<Event>, r: nat)
    requires SendsPackets(events) && ArePackets(EndToEnd.Sent(UpEvents(c, events)))
    requires EndToEnd.RoomyBuffer(c.down) && EndToEnd.RoomyBuffer(c.up)
    requires !Run(c, events).down.sender.chain.failed && !Run(c, events).up.sender.chain.failed
    requires Pings(c, Run(c, events), e)
    ensures |events| < r < |all| && events + [e] <= all && Quiet(all[|events| + 1..], e.at)
    ensures BeatOf(c, After(c, all, r), all[r]) == [Heartbeat.Recv(e.at)]
  {
    assert e.action.Tick?;
    hide *;
    var more, q := PingThenCatchUp(c, events, e);
    all := events + [e] + more;
    r := PingAnswered(c, all, |events|, q, |all|);
    QuietTime(more, e.at, r - |events| - 1);
    assert all[|events| + 1..] == more;
  }

  lemma QuietNothing(at: nat)
    ensures Quiet([], at)
  {
  }

  lemma QuietTime(events: seq<Event>, at: nat, k: nat)
    requires Quiet(events, at) && k < |events|
    ensures events[k].at == at
  {
  }
}

/**
 A conversation inside the registry: the machine of Conversation and one session of the machine of
 Lifecycle take the same steps, among any steps of other sessions. The pings that travel down the link are
 those that the registry's ticks queue, and what the detector sees is what the session sees.
 */
module RegistryTalk {
  import opened Bytes
  import opened Cipher
  import opened Conversation
  import EndToEnd
  import Heartbeat
  import Lifecycle
  import SendQueue

  /** The k-th session of the world is the server's side of the conversation. */
  predicate InTouch(t: Talk, w: Lifecycle.World, k: nat) {
    k < |w.conns| &&
    var s := w.conns[k];
    && s.chain == t.down.sender.chain && s.tasks == |t.up.tasks|
    && s.lastRecv == t.detector.lastRecv && (s.open <==> t.detector.closed.None?)
    && (k in w.registry.Values <==> !t.down.sender.chain.failed)
    && !s.forced && !s.readEnded
  }

  /** What an event of the conversation is to the registry. */
  function LifeOf(c: Config, t: Talk, e: Event, k: nat): (es: seq<Lifecycle.Event>)
    requires Conversation.WellFormed(c, t)
    ensures |es| <= 1
  {
    match e.action
    case Tick => [Lifecycle.Tick(e.at, c.timeout, Encipher(PING, c.down.cipher))]
    case Answer => []
    case Down(d) =>
      if d.Send? then [Lifecycle.Send(k, Encipher(d.msg, c.down.cipher))]
      else if !EndToEnd.Enabled(c.down, t.down, d) then []
      else if d.WriteOk? then [Lifecycle.WriteOk(k)]
      else if d.WriteFailed? then [Lifecycle.WriteFailed(k)]
      else []
    case Up(u) =>
      if !EndToEnd.Enabled(c.up, t.up, u) then []
      else if u.Read? then [Lifecycle.ReadOk(k, e.at, |Moved(c.up, t.up, [u]).tasks| - |t.up.tasks|)]
      else if u.RunTask? then [Lifecycle.TaskDone(k)]
      else []
  }

  function WorldAfter(w: Lifecycle.World, es: seq<Lifecycle.Event>): Lifecycle.World
    requires |es| <= 1
  {
    if es == [] then w else Lifecycle.Step(w, es[0])
  }

  /** A tick queues the ping that travels down, or closes the session, on both sides. */
  lemma TickInTouch(c: Config, t: Talk, e: Event, w: Lifecycle.World, k: nat)
    requires Conversation.WellFormed(c, t) && InTouch(t, w, k) && e.action.Tick?
    ensures InTouch(Conversation.Step(c, t, e), WorldAfter(w, LifeOf(c, t, e, k)), k)
  {
  }

  /** One session's event, on that session. */
  lemma OwnStep(w: Lifecycle.World, le: Lifecycle.Event, k: nat)
    requires Lifecycle.RegistrySound(w) && !le.Accept? && !le.Tick? && Lifecycle.Enabled(w, le) && le.i == k
    ensures var s, w' := w.conns[k], Lifecycle.Step(w, le);
      var s' := Lifecycle.ConnStep(s, le);
      && |w'.conns| == |w.conns| && w'.conns[k] == s'
      && (s'.calls == s.calls ==> w'.registry == w.registry)
      && (s'.calls > s.calls ==> k !in w'.registry.Values)
  {
    Lifecycle.SessionStep(w, le);
    hide Lifecycle.ConnStep, Lifecycle.Takes, Lifecycle.Step, Lifecycle.Conn.Ended;
  }

  /** A step of the link down, seen from the server's end. */
  lemma DownSender(c: Config, t: Talk, e: Event)
    requires Conversation.WellFormed(c, t) && e.action.Down?
    ensures var t', d := Conversation.Step(c, t, e), e.action.e;
      && t'.detector == t.detector && t'.up == t.up
      && t'.down.sender.chain ==
         if !EndToEnd.Enabled(c.down, t.down, d) then t.down.sender.chain
         else match d
           case Send(msg) => t.down.sender.chain.Push(Encipher(msg, c.down.cipher))
           case WriteOk => t.down.sender.chain.WriteOk()
           case WriteFailed => t.down.sender.chain.WriteFailed()
           case _ => t.down.sender.chain
  {
    hide SendQueue.Sender.Inv, Encipher;
  }

  lemma DownInTouch(c: Config, t: Talk, e: Event, w: Lifecycle.World, k: nat)
    requires Conversation.WellFormed(c, t) && InTouch(t, w, k) && Lifecycle.Good(w) && e.action.Down?
    ensures InTouch(Conversation.Step(c, t, e), WorldAfter(w, LifeOf(c, t, e, k)), k)
  {
    assert w.conns[k].Inv();
    var es := LifeOf(c, t, e, k);
    hide SendQueue.Sender.Inv, EndToEnd.Receive, EndToEnd.WellFormed, Encipher;
    DownSender(c, t, e);
    if es != [] {
      OwnStep(w, es[0], k);
      hide Lifecycle.Step, Lifecycle.Good, Lifecycle.RegistrySound, Conversation.Step;
    }
  }

  lemma UpInTouch(c: Config, t: Talk, e: Event, w: Lifecycle.World, k: nat)
    requires Conversation.WellFormed(c, t) && InTouch(t, w, k) && Lifecycle.Good(w) && e.action.Up?
    ensures InTouch(Conversation.Step(c, t, e), WorldAfter(w, LifeOf(c, t, e, k)), k)
  {
    assert w.conns[k].Inv();
    var es := LifeOf(c, t, e, k);
    if es != [] {
      OwnStep(w, es[0], k);
      hide Lifecycle.Step, Lifecycle.Good;
    }
  }

  lemma MineInTouch(c: Config, t: Talk, e: Event, w: Lifecycle.World, k: nat)
    requires Conversation.WellFormed(c, t) && InTouch(t, w, k) && Lifecycle.Good(w)
    ensures InTouch(Conversation.Step(c, t, e), WorldAfter(w, LifeOf(c, t, e, k)), k)
  {
    if e.action.Tick? {
      TickInTouch(c, t, e, w, k);
    } else if e.action.Down? {
      DownInTouch(c, t, e, w, k);
    } else if e.action.Up? {
      UpInTouch(c, t, e, w, k);
    } else {
      AnswerInTouch(c, t, e, w, k);
    }
  }

  lemma AnswerInTouch(c: Config, t: Talk, e: Event, w: Lifecycle.World, k: nat)
    requires Conversation.WellFormed(c, t) && InTouch(t, w, k) && e.action.Answer?
    ensures InTouch(Conversation.Step(c, t, e), WorldAfter(w, LifeOf(c, t, e, k)), k)
  {
  }

  /** An acceptance, or an event of another session. */
  predicate Elsewhere(le: Lifecycle.Event, k: nat) {
    !le.Tick? && (!le.Accept? ==> le.i != k)
  }

  lemma OtherInTouch(t: Talk, w: Lifecycle.World, le: Lifecycle.Event, k: nat)
    requires InTouch(t, w, k) && Lifecycle.Good(w) && |w.conns| < U32_RANGE && Elsewhere(le, k)
    ensures InTouch(t, Lifecycle.Step(w, le), k)
  {
    Lifecycle.SmallIds(w);
    if le.Accept? || !Lifecycle.Enabled(w, le) {
      AcceptElsewhere(w, le, k);
    } else {
      Lifecycle.SessionStep(w, le);
      Lifecycle.ConnStepInv(w.conns[le.i], le);
      hide Lifecycle.Step, Lifecycle.ConnStep, Lifecycle.Takes, Lifecycle.Conn.Inv, Lifecycle.Conn.Ended;
      RemovedElsewhere(w, w.conns[le.i].id, k);
    }
  }

  lemma AcceptElsewhere(w: Lifecycle.World, le: Lifecycle.Event, k: nat)
    requires k < |w.conns| && (le.Accept? || !Lifecycle.Enabled(w, le))
    ensures var w' := Lifecycle.Step(w, le);
      |w.conns| <= |w'.conns| && w'.conns[k] == w.conns[k] && (k in w'.registry.Values <==> k in w.registry.Values)
  {
    var w' := Lifecycle.Step(w, le);
    if k in w.registry.Values {
      var id :| id in w.registry && w.registry[id] == k;
      assert id in w'.registry && w'.registry[id] == k;
    }
  }

  /** Taking another session's id out of the registry leaves the k-th in it. */
  lemma RemovedElsewhere(w: Lifecycle.World, id: nat, k: nat)
    requires Lifecycle.RegistrySound(w) && k < |w.conns| && w.conns[k].id != id
    ensures k in (w.registry - {id}).Values <==> k in w.registry.Values
  {
    if k in w.registry.Values {
      var own :| own in w.registry && w.registry[own] == k;
      assert own in w.registry - {id} && (w.registry - {id})[own] == k;
    }
  }

  // ----- whole runs -----

  /** A step of the conversation, or of anything else in the registry. */
  datatype Joint = Mine(e: Event) | Other(le: Lifecycle.Event)

  function TalkOf(steps: seq<Joint>): seq<Event>
    decreases |steps|
  {
    if steps == [] then []
    else
      var n := |steps| - 1;
      TalkOf(steps[..n]) + if steps[n].Mine? then [steps[n].e] else []
  }

  /** The registry's events: any run, then the acceptance of the session, then the steps in their order. */
  function LivesOf(c: Config, before: seq<Lifecycle.Event>, steps: seq<Joint>): seq<Lifecycle.Event>
    decreases |steps|
  {
    if steps == [] then before + [Lifecycle.Accept(c.start)]
    else
      var n := |steps| - 1;
      LivesOf(c, before, steps[..n]) + LivesNext(c, Conversation.Run(c, TalkOf(steps[..n])), steps[n],
        |Lifecycle.Run(before).conns|)
  }

  function LivesNext(c: Config, t: Talk, step: Joint, k: nat): (es: seq<Lifecycle.Event>)
    requires Conversation.WellFormed(c, t)
    ensures |es| <= 1
  {
    if step.Mine? then LifeOf(c, t, step.e, k) else [step.le]
  }

  predicate OthersElsewhere(steps: seq<Joint>, k: nat) {
    forall i :: 0 <= i < |steps| && steps[i].Other? ==> Elsewhere(steps[i].le, k)
  }

  lemma AcceptedRegistered(w: Lifecycle.World, now: nat)
    requires Lifecycle.Good(w) && |w.conns| + 1 < U32_RANGE
    ensures |w.conns| in Lifecycle.Added(w, now).registry.Values
  {
    Lifecycle.SmallIds(w);
    hide Lifecycle.Conn.Inv, Lifecycle.Conn.Ended;
    var w' := Lifecycle.Added(w, now);
    assert w.nextId == |w.conns| + 1 && w.nextId !in w.registry;
    assert w.nextId in w'.registry && w'.registry[w.nextId] == |w.conns|;
  }

  lemma Accepted(before: seq<Lifecycle.Event>, c: Config)
    requires |Lifecycle.Run(before).conns| + 1 < U32_RANGE
    ensures InTouch(Conversation.Run(c, []), Lifecycle.Run(before + [Lifecycle.Accept(c.start)]),
      |Lifecycle.Run(before).conns|)
  {
    Lifecycle.RunSnoc(before, Lifecycle.Accept(c.start));
    Lifecycle.RunInv(before);
    AcceptedRegistered(Lifecycle.Run(before), c.start);
    hide Lifecycle.Run, Lifecycle.Good;
  }

  lemma WorldRun(before: seq<Lifecycle.Event>, es: seq<Lifecycle.Event>)
    requires |es| <= 1
    ensures Lifecycle.Run(before + es) == WorldAfter(Lifecycle.Run(before), es)
    ensures |Lifecycle.Run(before).conns| <= |Lifecycle.Run(before + es).conns|
  {
    if es == [] {
      assert before + es == before;
    } else {
      assert es == [es[0]];
      Lifecycle.RunSnoc(before, es[0]);
      NeverFewer(Lifecycle.Run(before), es[0]);
    }
  }

  lemma NeverFewer(w: Lifecycle.World, e: Lifecycle.Event)
    ensures |w.conns| <= |Lifecycle.Step(w, e).conns|
  {
  }

  lemma TalkNext(c: Config, steps: seq<Joint>)
    requires steps != []
    ensures var n := |steps| - 1;
      && Conversation.Run(c, TalkOf(steps)) ==
         if steps[n].Mine? then Conversation.Step(c, Conversation.Run(c, TalkOf(steps[..n])), steps[n].e)
         else Conversation.Run(c, TalkOf(steps[..n]))
  {
    var n := |steps| - 1;
    hide Conversation.Run, Conversation.Step;
    if steps[n].Mine? {
      Conversation.RunSnoc(c, TalkOf(steps[..n]), steps[n].e);
    } else {
      assert TalkOf(steps[..n]) + [] == TalkOf(steps[..n]);
    }
  }

  /**
   In every run of the registry in which one session takes part in a conversation, whatever happens to
   other sessions: the session's write queue is the sending end of the link down, pings included; its
   receptions are the reads of the link up; it is registered until a write fails; and its socket is open
   until the detector closes it.
   */
  lemma {:induction false} AlwaysInTouch(c: Config, before: seq<Lifecycle.Event>, steps: seq<Joint>)
    requires OthersElsewhere(steps, |Lifecycle.Run(before).conns|)
    requires |Lifecycle.Run(LivesOf(c, before, steps)).conns| < U32_RANGE
    ensures InTouch(Conversation.Run(c, TalkOf(steps)), Lifecycle.Run(LivesOf(c, before, steps)),
      |Lifecycle.Run(before).conns|)
    decreases |steps|
  {
    var k := |Lifecycle.Run(before).conns|;
    hide Conversation.Run, Conversation.Step, Lifecycle.Run, Lifecycle.Step, InTouch, LifeOf, TalkOf, Elsewhere;
    hide Conversation.WellFormed, Lifecycle.Good;
    if steps == [] {
      NewInTouch(c, before, steps);
    } else {
      var n := |steps| - 1;
      var lives, t := LivesOf(c, before, steps[..n]), Conversation.Run(c, TalkOf(steps[..n]));
      WorldRun(lives, LivesNext(c, t, steps[n], k));
      AlwaysInTouch(c, before, steps[..n]);
      Lifecycle.RunInv(lives);
      TalkNext(c, steps);
      if steps[n].Mine? {
        MineInTouch(c, t, steps[n].e, Lifecycle.Run(lives), k);
      } else {
        OtherInTouch(t, Lifecycle.Run(lives), steps[n].le, k);
      }
    }
  }

  lemma NewInTouch(c: Config, before: seq<Lifecycle.Event>, steps: seq<Joint>)
    requires steps == [] && |Lifecycle.Run(LivesOf(c, before, steps)).conns| < U32_RANGE
    ensures InTouch(Conversation.Run(c, TalkOf(steps)), Lifecycle.Run(LivesOf(c, before, steps)),
      |Lifecycle.Run(before).conns|)
  {
    Lifecycle.RunSnoc(before, Lifecycle.Accept(c.start));
    hide Conversation.Run, Lifecycle.Run, InTouch;
    Accepted(before, c);
  }

  /**
   A peer that answers: as long as the two sides catch up in time, the session's socket is open in the
   registry, and it is registered until a write fails.
   */
  lemma AnsweringPeerIsKept(c: Config, before: seq<Lifecycle.Event>, steps: seq<Joint>, base: nat, interval: nat,
                            jitter: nat, reply: nat)
    requires OthersElsewhere(steps, |Lifecycle.Run(before).conns|)
    requires |Lifecycle.Run(LivesOf(c, before, steps)).conns| < U32_RANGE
    requires Lively(c, TalkOf(steps), base, interval, jitter, reply)
    ensures var k, w := |Lifecycle.Run(before).conns|, Lifecycle.Run(LivesOf(c, before, steps));
      && Lifecycle.SocketOpenAt(LivesOf(c, before, steps), k)
      && (k in w.registry.Values <==> !Conversation.Run(c, TalkOf(steps)).down.sender.chain.failed)
  {
    AlwaysInTouch(c, before, steps);
    AnsweringPeerStaysOpen(c, TalkOf(steps), base, interval, jitter, reply);
    Lifecycle.RunInv(LivesOf(c, before, steps));
    hide Conversation.Run, Lifecycle.Run, Lively, TalkOf, LivesOf;
  }

  lemma PingQueued(c: Config, t: Talk, w: Lifecycle.World, k: nat, e: Event)
    requires Conversation.WellFormed(c, t) && InTouch(t, w, k) && e.action.Tick?
    ensures var w' := Lifecycle.Step(w, Lifecycle.Tick(e.at, c.timeout, Encipher(PING, c.down.cipher)));
      k < |w'.conns| && w'.conns[k].chain.queue
      == w.conns[k].chain.queue + (if Pings(c, t, e) then [Encipher(PING, c.down.cipher)] else [])
  {
    hide Encipher;
  }

  /** The write queue of the k-th session. */
  function QueueAt(events: seq<Lifecycle.Event>, k: nat): seq<seq<byte>> {
    if k < |Lifecycle.Run(events).conns| then Lifecycle.Run(events).conns[k].chain.queue else []
  }

  /** The ping that travels down after a tick is the one that the tick has queued. */
  lemma TickSendsPing(c: Config, before: seq<Lifecycle.Event>, steps: seq<Joint>, now: nat)
    requires OthersElsewhere(steps, |Lifecycle.Run(before).conns|)
    requires |Lifecycle.Run(LivesOf(c, before, steps)).conns| < U32_RANGE
    ensures var k, t := |Lifecycle.Run(before).conns|, Conversation.Run(c, TalkOf(steps));
      var lives, tick := LivesOf(c, before, steps), Lifecycle.Tick(now, c.timeout, Encipher(PING, c.down.cipher));
      var ticked := Conversation.Step(c, t, Event(now, Tick)).down.sender.chain.queue;
      && QueueAt(lives, k) == t.down.sender.chain.queue && QueueAt(lives + [tick], k) == ticked
      && ticked == QueueAt(lives, k) + (if Pings(c, t, Event(now, Tick)) then [Encipher(PING, c.down.cipher)] else [])
  {
    var k, t := |Lifecycle.Run(before).conns|, Conversation.Run(c, TalkOf(steps));
    var lives, tick := LivesOf(c, before, steps), Lifecycle.Tick(now, c.timeout, Encipher(PING, c.down.cipher));
    AlwaysInTouch(c, before, steps);
    hide Conversation.Run, Conversation.Step, Lifecycle.Run, Lifecycle.Step, LivesOf, TalkOf, Conversation.WellFormed;
    hide Encipher, Pings;
    Lifecycle.RunSnoc(lives, tick);
    PingQueued(c, t, Lifecycle.Run(lives), k, Event(now, Tick));
    TickInTouch(c, t, Event(now, Tick), Lifecycle.Run(lives), k);
  }
}

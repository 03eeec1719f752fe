/**
 The life of sessions: the read chain, the write chain, forced and graceful disconnection, the
 registry, the heartbeat tick, and what keeps a session in existence. `Conn` is one session; each of
 its functions is the effect of one handler. `World` is the registry with all sessions ever accepted;
 a run is any list of events.
 */
module Lifecycle {
  import opened Bytes
  import opened SendQueue

  /** now - last in unsigned 64-bit arithmetic. */
  function Elapsed(now: nat, last: nat): nat {
    (now - last) % U64_RANGE
  }

  datatype Conn = Conn(
    id: nat,
    open: bool,                 // close() has not been called on the socket
    forced: bool,               // _disconnected
    pendingReads: nat,          // async reads outstanding
    readEnded: bool,            // the read chain has executed its Remove and OnDisconnected
    chain: WriteChain,          // a failed write chain has executed its Remove and OnDisconnected
    lastRecv: nat,
    calls: nat,                 // calls of OnDisconnected
    graceTimers: nat,           // safety timers of GracefulDisconnect still pending
    asked: bool,                // GracefulDisconnect has been called before any ForceDisconnect
    tasks: nat                  // closures posted to the pool and not yet run
  ) {
    function Sending(msg: seq<byte>): Conn {
      this.(chain := chain.Push(msg))
    }

    /** A read completes and is processed: the time is noted, packets are posted, and the next read is issued. */
    function ReadOk(now: nat, posted: nat): Conn
      requires pendingReads > 0
    {
      this.(lastRecv := now, tasks := tasks + posted, pendingReads := pendingReads - 1 + 1)
    }

    function ReadFailed(): Conn
      requires pendingReads > 0
    {
      this.(pendingReads := pendingReads - 1, readEnded := true, calls := calls + 1)
    }

    /** A pool thread has run one of the posted closures. */
    function TaskDone(): Conn
      requires tasks > 0
    {
      this.(tasks := tasks - 1)
    }

    function WriteOk(): Conn
      requires chain.writes > 0 && chain.queue != []
    {
      this.(chain := chain.WriteOk())
    }

    function WriteFailed(): Conn
      requires chain.writes > 0
    {
      this.(chain := chain.WriteFailed(), calls := calls + 1)
    }

    /** ForceDisconnect; if the socket layer throws on the way, the exception is caught before close is reached. */
    function Force(throws: bool): Conn {
      if forced then this else this.(forced := true, open := open && throws, calls := calls + 1)
    }

    /** GracefulDisconnect, for a hook that sends a notice or (no notice) the default hook. */
    function Graceful(notice: Option<seq<byte>>, hasTimer: bool, throws: bool): Conn {
      if forced then this
      else
        var c := if notice.Some? then Sending(notice.value) else Force(throws);
        if hasTimer then c.(graceTimers := graceTimers + 1, asked := true) else c.(asked := true).Force(throws)
    }

    function GraceTimer(throws: bool): Conn
      requires graceTimers > 0
    {
      this.(graceTimers := graceTimers - 1).Force(throws)
    }

    predicate Overdue(now: nat, timeout: nat) {
      Elapsed(now, lastRecv) > timeout
    }

    /** What CheckHeartbeat does with a registered session. */
    function Beat(now: nat, timeout: nat, ping: seq<byte>): Conn {
      if Overdue(now, timeout) then this.(open := false) else Sending(ping)
    }

    /** Some chain has removed the session from the registry. */
    predicate Ended() {
      readEnded || chain.failed || forced
    }

    /**
     Something keeps the session in existence: a pending read or write, a safety timer or a posted
     closure. The registry holds it too, but no longer than the read chain does (`RegisteredAreHeld`).
     */
    predicate Held() {
      pendingReads > 0 || chain.writes > 0 || graceTimers > 0 || tasks > 0
    }

    /** The socket is a member of the session: it is closed by close(), or when nothing holds the session any more. */
    predicate SocketOpen() {
      open && Held()
    }

    predicate Inv() {
      && pendingReads == (if readEnded then 0 else 1)
      && chain.Inv()
      && calls == (if readEnded then 1 else 0) + (if chain.failed then 1 else 0) + (if forced then 1 else 0)
      && (asked && graceTimers == 0 ==> forced)
    }
  }

  /** A session as it is constructed. */
  const UNSTARTED: Conn := Conn(0, true, false, 0, false, IDLE_CHAIN, 0, 0, 0, false, 0)

  /** A session just after Session::Start: registered, its first read issued. */
  function Started(id: nat, now: nat): Conn {
    UNSTARTED.(id := id, pendingReads := 1, lastRecv := now)
  }

  datatype World = World(nextId: nat, registry: map<nat, nat>, conns: seq<Conn>)

  /** _sessionIdGen starts at 1. */
  const EMPTY_WORLD: World := World(1, map[], [])

  datatype Event =
    | Accept(now: nat)
    | ReadOk(i: nat, now: nat, posted: nat)
    | ReadFailed(i: nat)
    | TaskDone(i: nat)
    | Send(i: nat, msg: seq<byte>)
    | WriteOk(i: nat)
    | WriteFailed(i: nat)
    | Force(i: nat, throws: bool)
    | Graceful(i: nat, notice: Option<seq<byte>>, hasTimer: bool, throws: bool)
    | GraceTimer(i: nat, throws: bool)
    | Tick(now: nat, timeout: nat, ping: seq<byte>)

  /** SessionManager::Add: std::map::insert does not overwrite. */
  function Added(w: World, now: nat): World {
    World((w.nextId + 1) % U32_RANGE,
      if w.nextId in w.registry then w.registry else w.registry[w.nextId := |w.conns|],
      w.conns + [Started(w.nextId, now)])
  }

  function Ticked(w: World, now: nat, timeout: nat, ping: seq<byte>): World {
    w.(conns := seq(|w.conns|, i requires 0 <= i < |w.conns| =>
      if i in w.registry.Values then w.conns[i].Beat(now, timeout, ping) else w.conns[i]))
  }

  /** What an event of a session needs: a completion needs its operation outstanding, and a call a session to call. */
  predicate Takes(c: Conn, e: Event)
    requires !e.Accept? && !e.Tick?
  {
    match e
    case ReadOk(_, _, _) => c.pendingReads > 0
    case ReadFailed(_) => c.pendingReads > 0
    case TaskDone(_) => c.tasks > 0
    case WriteOk(_) => c.chain.writes > 0 && c.chain.queue != []
    case WriteFailed(_) => c.chain.writes > 0
    case GraceTimer(_, _) => c.graceTimers > 0
    case _ => c.Held()
  }

  predicate Enabled(w: World, e: Event) {
    e.Accept? || e.Tick? || (e.i < |w.conns| && Takes(w.conns[e.i], e))
  }

  function ConnStep(c: Conn, e: Event): Conn
    requires !e.Accept? && !e.Tick? && Takes(c, e)
  {
    match e
    case ReadOk(_, now, posted) => c.ReadOk(now, posted)
    case ReadFailed(_) => c.ReadFailed()
    case TaskDone(_) => c.TaskDone()
    case Send(_, msg) => c.Sending(msg)
    case WriteOk(_) => c.WriteOk()
    case WriteFailed(_) => c.WriteFailed()
    case Force(_, throws) => c.Force(throws)
    case Graceful(_, notice, hasTimer, throws) => c.Graceful(notice, hasTimer, throws)
    case GraceTimer(_, throws) => c.GraceTimer(throws)
  }

  /** Whoever calls OnDisconnected has called SessionManager::Remove just before. */
  function Step(w: World, e: Event): World {
    if !Enabled(w, e) then w
    else match e
      case Accept(now) => Added(w, now)
      case Tick(now, timeout, ping) => Ticked(w, now, timeout, ping)
      case _ =>
        var c, c' := w.conns[e.i], ConnStep(w.conns[e.i], e);
        w.(conns := w.conns[e.i := c'], registry := if c'.calls > c.calls then w.registry - {c.id} else w.registry)
  }

  /** A session's event changes that session, and the registry exactly when OnDisconnected is called. */
  lemma SessionStep(w: World, e: Event)
    requires Enabled(w, e) && !e.Accept? && !e.Tick?
    ensures e.i < |w.conns| && Takes(w.conns[e.i], e)
    ensures var c, c' := w.conns[e.i], ConnStep(w.conns[e.i], e);
      Step(w, e) == World(w.nextId, if c'.calls > c.calls then w.registry - {c.id} else w.registry, w.conns[e.i := c'])
  {
  }

  function Run(events: seq<Event>): World
    decreases |events|
  {
    if events == [] then EMPTY_WORLD
    else Step(Run(events[..|events| - 1]), events[|events| - 1])
  }

  /** The k-th session accepted (from 0) has id k + 1, modulo 2^32. */
  predicate IdsInOrder(w: World) {
    && w.nextId == (|w.conns| + 1) % U32_RANGE
    && forall k :: 0 <= k < |w.conns| ==> w.conns[k].id == (k + 1) % U32_RANGE
  }

  predicate ConnsInv(w: World) {
    forall k :: 0 <= k < |w.conns| ==> w.conns[k].Inv()
  }

  /** The registry holds only sessions that no chain has removed, each under its own id. */
  predicate RegistrySound(w: World) {
    forall id :: id in w.registry ==>
      w.registry[id] < |w.conns| && w.conns[w.registry[id]].id == id && !w.conns[w.registry[id]].Ended()
  }

  /** The registry holds all of them. */
  predicate RegistryComplete(w: World) {
    forall k :: 0 <= k < |w.conns| && !w.conns[k].Ended() ==>
      w.conns[k].id in w.registry && w.registry[w.conns[k].id] == k
  }

  lemma GracefulInv(c: Conn, notice: Option<seq<byte>>, hasTimer: bool, throws: bool)
    requires c.Inv()
    ensures var c' := c.Graceful(notice, hasTimer, throws);
      && c'.Inv() && c'.id == c.id && c.calls <= c'.calls
      && (c.Ended() ==> c'.Ended())
      && (c'.calls > c.calls ==> c'.Ended())
      && (c'.calls == c.calls ==> c'.Ended() == c.Ended())
  {
  }

  lemma ConnStepInv(c: Conn, e: Event)
    requires !e.Accept? && !e.Tick? && c.Inv() && Takes(c, e)
    ensures var c' := ConnStep(c, e);
      && c'.Inv() && c'.id == c.id
      && (c.Ended() ==> c'.Ended())
      && (c'.calls > c.calls ==> c'.Ended())
      && (c'.calls == c.calls ==> c'.Ended() == c.Ended())
      && c.calls <= c'.calls
  {
    if e.Graceful? {
      GracefulInv(c, e.notice, e.hasTimer, e.throws);
      hide Conn.Graceful;
    }
  }

  predicate Good(w: World) {
    IdsInOrder(w) && ConnsInv(w) && RegistrySound(w) && (|w.conns| < U32_RANGE ==> RegistryComplete(w))
  }

  /** Below 2^32 sessions, ids are simply 1, 2, 3, ... */
  lemma SmallIds(w: World)
    requires IdsInOrder(w) && |w.conns| < U32_RANGE
    ensures forall k :: 0 <= k < |w.conns| ==> w.conns[k].id == k + 1
  {
  }

  lemma AddedIds(w: World, now: nat)
    requires IdsInOrder(w)
    ensures IdsInOrder(Added(w, now))
  {
    var n := |w.conns|;
    assert ((n + 1) % U32_RANGE + 1) % U32_RANGE == (n + 1 + 1) % U32_RANGE;
  }

  lemma AddedSound(w: World, now: nat)
    requires RegistrySound(w)
    ensures RegistrySound(Added(w, now))
  {
    assert !Started(w.nextId, now).Ended();
    hide Conn.Ended;
  }

  lemma AddedComplete(w: World, now: nat)
    requires RegistrySound(w) && RegistryComplete(w) && IdsInOrder(w) && |w.conns| + 1 < U32_RANGE
    ensures RegistryComplete(Added(w, now))
  {
    var w' := Added(w, now);
    SmallIds(w);
    assert w.nextId == |w.conns| + 1;
    assert w.nextId !in w.registry;
    hide Conn.Ended, IdsInOrder;
  }

  lemma AddedGood(w: World, now: nat)
    requires Good(w)
    ensures Good(Added(w, now))
  {
    AddedIds(w, now);
    AddedSound(w, now);
    assert Started(w.nextId, now).Inv();
    hide Conn.Inv, RegistrySound, RegistryComplete, IdsInOrder;
    if |w.conns| + 1 < U32_RANGE {
      AddedComplete(w, now);
    }
  }

  lemma BeatInv(c: Conn, now: nat, timeout: nat, ping: seq<byte>)
    requires c.Inv()
    ensures var c' := c.Beat(now, timeout, ping); c'.Inv() && c'.id == c.id && c'.Ended() == c.Ended()
  {
  }

  lemma TickedGood(w: World, now: nat, timeout: nat, ping: seq<byte>)
    requires Good(w)
    ensures Good(Ticked(w, now, timeout, ping))
  {
    hide Conn.Inv, Conn.Ended, Conn.Beat;
    var w' := Ticked(w, now, timeout, ping);
    forall k | 0 <= k < |w.conns|
      ensures w'.conns[k].Inv() && w'.conns[k].id == w.conns[k].id && w'.conns[k].Ended() == w.conns[k].Ended()
    {
      BeatInv(w.conns[k], now, timeout, ping);
    }
  }

  /** One session replaced, and its id taken out of the registry exactly when some chain of it has ended. */
  function Replaced(w: World, i: nat, c: Conn, removed: bool): World
    requires i < |w.conns|
  {
    w.(conns := w.conns[i := c], registry := if removed then w.registry - {c.id} else w.registry)
  }

  lemma ReplacedSound(w: World, i: nat, c: Conn, removed: bool)
    requires i < |w.conns| && c.id == w.conns[i].id && RegistrySound(w)
    requires !removed ==> c.Ended() == w.conns[i].Ended()
    ensures RegistrySound(Replaced(w, i, c, removed))
  {
    hide Conn.Ended;
  }

  lemma ReplacedComplete(w: World, i: nat, c: Conn, removed: bool)
    requires i < |w.conns| && c.id == w.conns[i].id
    requires RegistryComplete(w) && IdsInOrder(w) && |w.conns| < U32_RANGE
    requires if removed then c.Ended() else c.Ended() == w.conns[i].Ended()
    ensures RegistryComplete(Replaced(w, i, c, removed))
  {
    hide Conn.Ended, IdsInOrder;
    SmallIds(w);
  }

  lemma ReplacedGood(w: World, i: nat, c: Conn, removed: bool)
    requires Good(w) && i < |w.conns| && c.id == w.conns[i].id && c.Inv()
    requires if removed then c.Ended() else c.Ended() == w.conns[i].Ended()
    ensures Good(Replaced(w, i, c, removed))
  {
    hide Conn.Inv, Conn.Ended, RegistrySound, RegistryComplete;
    ReplacedSound(w, i, c, removed);
    if |w.conns| < U32_RANGE {
      ReplacedComplete(w, i, c, removed);
    }
  }

  /** One session's event: its id leaves the registry exactly when some chain of it has ended. */
  lemma EventGood(w: World, e: Event)
    requires Good(w) && Enabled(w, e) && !e.Accept? && !e.Tick?
    ensures Good(Step(w, e))
  {
    var c, c' := w.conns[e.i], ConnStep(w.conns[e.i], e);
    SessionStep(w, e);
    ConnStepInv(c, e);
    hide Step, Conn.Inv, Conn.Ended, Takes, ConnStep;
    assert Step(w, e) == Replaced(w, e.i, c', c'.calls > c.calls);
    assert ConnsInv(w);
    hide Good;
    ReplacedGood(w, e.i, c', c'.calls > c.calls);
  }

  lemma StepGood(w: World, e: Event)
    requires Good(w)
    ensures Good(Step(w, e))
  {
    hide Good, Ticked, Added, ConnStep;
    if Enabled(w, e) {
      match e
      case Accept(now) => AddedGood(w, now);
      case Tick(now, timeout, ping) => TickedGood(w, now, timeout, ping);
      case _ => EventGood(w, e);
    }
  }

  /** Every reachable world. */
  lemma {:induction false} RunInv(events: seq<Event>)
    ensures Good(Run(events))
    decreases |events|
  {
    hide Step;
    if events != [] {
      var n := |events| - 1;
      RunInv(events[..n]);
      StepGood(Run(events[..n]), events[n]);
    }
  }

  /**
   Over every run, each session's OnDisconnected has been called once for each of the read chain, the
   write chain and ForceDisconnect that has ended it: at most three times. One read is outstanding
   until the read chain ends, and one write exactly while the queue is not empty and no write failed.
   */
  lemma LifecycleBounds(events: seq<Event>, k: nat)
    requires k < |Run(events).conns|
    ensures var c := Run(events).conns[k];
      && c.calls == (if c.readEnded then 1 else 0) + (if c.chain.failed then 1 else 0) + (if c.forced then 1 else 0) <= 3
      && c.pendingReads == (if c.readEnded then 0 else 1)
      && c.chain.writes == (if c.chain.queue != [] && !c.chain.failed then 1 else 0)
  {
    RunInv(events);
  }

  lemma ForcedWhileSending()
    ensures Run([Accept(0), Send(0, [1]), Force(0, false)]) == World(2, map[], [Started(1, 0).Sending([1]).Force(false)])
  {
    RunSnoc([], Accept(0));
    RunSnoc([Accept(0)], Send(0, [1]));
    RunSnoc([Accept(0), Send(0, [1])], Force(0, false));
    assert [] + [Accept(0)] == [Accept(0)] && [Accept(0)] + [Send(0, [1])] == [Accept(0), Send(0, [1])];
    assert [Accept(0), Send(0, [1])] + [Force(0, false)] == [Accept(0), Send(0, [1]), Force(0, false)];
  }

  /** Three calls do happen: a forced session whose pending write and read then complete with errors. */
  lemma ThreeCalls() returns (events: seq<Event>)
    ensures |Run(events).conns| == 1 && Run(events).conns[0].calls == 3
  {
    var first := [Accept(0), Send(0, [1]), Force(0, false)];
    events := first + [WriteFailed(0)] + [ReadFailed(0)];
    ForcedWhileSending();
    RunSnoc(first, WriteFailed(0));
    RunSnoc(first + [WriteFailed(0)], ReadFailed(0));
    hide Run;
  }

  lemma RunSnoc(events: seq<Event>, e: Event)
    ensures Run(events + [e]) == Step(Run(events), e)
  {
    hide Step;
    assert (events + [e])[..|events|] == events;
  }

  /** A call of OnDisconnected is the session's first if and only if the session was still registered before it. */
  lemma FirstCallIffRegistered(events: seq<Event>, e: Event)
    requires var w := Run(events);
      && |w.conns| < U32_RANGE && Enabled(w, e) && !e.Accept? && !e.Tick?
      && ConnStep(w.conns[e.i], e).calls > w.conns[e.i].calls
    ensures var c := Run(events).conns[e.i];
      c.calls == 0 <==> c.id in Run(events).registry
    ensures Run(events).conns[e.i].id !in Step(Run(events), e).registry
  {
    hide Run, ConnStep;
    RunInv(events);
    SmallIds(Run(events));
  }

  /** What an event can do to a session already accepted. */
  lemma StepKeeps(w: World, e: Event, k: nat)
    requires ConnsInv(w) && k < |w.conns|
    ensures k < |Step(w, e).conns| && |w.conns| <= |Step(w, e).conns|
    ensures Step(w, e).conns[k].id == w.conns[k].id
    ensures w.conns[k].Ended() ==> Step(w, e).conns[k].Ended()
  {
    if Enabled(w, e) && !e.Accept? && !e.Tick? {
      ConnStepInv(w.conns[e.i], e);
      hide ConnStep, Conn.Inv, Conn.Ended;
    }
  }

  lemma {:induction false} RunKeeps(events: seq<Event>, more: seq<Event>, k: nat)
    requires k < |Run(events).conns|
    ensures k < |Run(events + more).conns|
    ensures Run(events + more).conns[k].id == Run(events).conns[k].id
    ensures Run(events).conns[k].Ended() ==> Run(events + more).conns[k].Ended()
    decreases |more|
  {
    hide Step, Conn.Ended;
    if more == [] {
      assert events + more == events;
    } else {
      var n := |more| - 1;
      RunKeeps(events, more[..n], k);
      RunInv(events + more[..n]);
      RunSnoc(events + more[..n], more[n]);
      assert events + more == events + more[..n] + [more[n]];
      StepKeeps(Run(events + more[..n]), more[n], k);
    }
  }

  /**
   An id whose session some chain has removed is never found again, in any continuation with fewer
   than 2^32 sessions.
   */
  lemma RemovedForGood(events: seq<Event>, more: seq<Event>, k: nat)
    requires k < |Run(events).conns| && Run(events).conns[k].Ended()
    requires |Run(events + more).conns| < U32_RANGE
    ensures Run(events).conns[k].id !in Run(events + more).registry
  {
    hide Run, Step, Conn.Ended;
    RunKeeps(events, more, k);
    RunInv(events + more);
    SmallIds(Run(events + more));
  }

  /**
   The limits of the 32-bit id counter: ids are non-zero below 2^32 sessions and distinct up to 2^32,
   and no further.
   */
  lemma IdsExact(events: seq<Event>)
    ensures var conns := Run(events).conns;
      && ((forall k :: 0 <= k < |conns| ==> conns[k].id != 0) <==> |conns| < U32_RANGE)
      && ((forall j, k :: 0 <= j < k < |conns| ==> conns[j].id != conns[k].id) <==> |conns| <= U32_RANGE)
  {
    RunInv(events);
    hide Run;
    var conns := Run(events).conns;
    var ids := seq(|conns|, k requires 0 <= k < |conns| => conns[k].id);
    CounterExact(U32_RANGE, ids);
    assert forall k :: 0 <= k < |conns| ==> conns[k].id == ids[k];
  }

  /** Once GracefulDisconnect has been called and its safety timers have fired, the session is disconnected and gone. */
  lemma GracefulCloses(events: seq<Event>, k: nat)
    requires k < |Run(events).conns| && |Run(events).conns| < U32_RANGE
    requires Run(events).conns[k].asked && Run(events).conns[k].graceTimers == 0
    ensures var c := Run(events).conns[k];
      c.forced && c.calls >= 1 && c.id !in Run(events).registry
  {
    RunInv(events);
    SmallIds(Run(events));
  }

  // ----- disconnections and ticks, exactly -----

  /** Neither a ForceDisconnect nor a GracefulDisconnect of the k-th session, nor one of its safety timers. */
  predicate LeavesAlone(e: Event, k: nat) {
    e.Force? || e.Graceful? || e.GraceTimer? ==> e.i != k
  }

  lemma AloneStep(w: World, e: Event, k: nat)
    requires k < |w.conns| && LeavesAlone(e, k)
    ensures k < |Step(w, e).conns|
    ensures Step(w, e).conns[k].forced == w.conns[k].forced
    ensures Step(w, e).conns[k].graceTimers == w.conns[k].graceTimers
  {
    if Enabled(w, e) && !e.Accept? && !e.Tick? {
      AloneConnStep(w.conns[e.i], e);
      hide ConnStep, Takes;
    }
  }

  lemma AloneConnStep(c: Conn, e: Event)
    requires !e.Accept? && !e.Tick? && Takes(c, e)
    ensures !e.Force? && !e.Graceful? && !e.GraceTimer? ==>
      ConnStep(c, e).forced == c.forced && ConnStep(c, e).graceTimers == c.graceTimers
  {
  }

  lemma {:induction false} AloneRun(events: seq<Event>, more: seq<Event>, k: nat)
    requires k < |Run(events).conns| && forall i :: 0 <= i < |more| ==> LeavesAlone(more[i], k)
    ensures k < |Run(events + more).conns|
    ensures Run(events + more).conns[k].forced == Run(events).conns[k].forced
    ensures Run(events + more).conns[k].graceTimers == Run(events).conns[k].graceTimers
    decreases |more|
  {
    hide Step, Run, LeavesAlone;
    if more == [] {
      assert events + more == events;
    } else {
      var n := |more| - 1;
      SplitLast(events, more);
      RunSnoc(events + more[..n], more[n]);
      AloneRun(events, more[..n], k);
      AloneStep(Run(events + more[..n]), more[n], k);
    }
  }

  /** A ForceDisconnect, or the safety timer that calls it: the first one counts. */
  lemma ForceExactly(events: seq<Event>, k: nat, e: Event)
    requires (e.Force? || e.GraceTimer?) && e.i == k && Enabled(Run(events), e)
    ensures var c, c' := Run(events).conns[k], Run(events + [e]).conns[k];
      && c'.forced && c'.open == (c.open && (e.throws || c.forced))
      && c'.calls == c.calls + (if c.forced then 0 else 1)
      && c'.graceTimers == c.graceTimers - (if e.GraceTimer? then 1 else 0)
      && c'.chain == c.chain && c'.pendingReads == c.pendingReads && c'.tasks == c.tasks && c'.lastRecv == c.lastRecv
    ensures var c := Run(events).conns[k];
      Run(events + [e]).registry == if c.forced then Run(events).registry else Run(events).registry - {c.id}
  {
    RunSnoc(events, e);
    hide Run;
  }

  /** What GracefulDisconnect changes of a session that nobody has forced. */
  predicate Asked(c: Conn, c': Conn, notice: Option<seq<byte>>, hasTimer: bool, throws: bool) {
    && (c'.forced <==> !hasTimer || notice.None?)
    && c'.open == (c.open && (throws || !c'.forced))
    && c'.calls == c.calls + (if c'.forced then 1 else 0)
    && c'.graceTimers == c.graceTimers + (if hasTimer then 1 else 0)
    && c'.chain.queue == c.chain.queue + (if notice.Some? then [notice.value] else [])
    && c'.chain.writes == c.chain.writes + (if notice.Some? && c.chain.queue == [] then 1 else 0)
    && c'.pendingReads == c.pendingReads && c'.tasks == c.tasks && c'.lastRecv == c.lastRecv
  }

  lemma GracefulAsked(c: Conn, e: Event)
    requires e.Graceful? && Takes(c, e) && !c.forced
    ensures Asked(c, ConnStep(c, e), e.notice, e.hasTimer, e.throws)
  {
  }

  /**
   GracefulDisconnect, exactly: it forces the session at once if and only if there is no timer manager or
   the hook sends no notice. Otherwise it queues the notice and starts one safety timer, and nothing else;
   and until that timer, a ForceDisconnect or another GracefulDisconnect, no event forces the session.
   */
  lemma GracefulExactly(events: seq<Event>, k: nat, notice: Option<seq<byte>>, hasTimer: bool, throws: bool,
                        more: seq<Event>)
    requires k < |Run(events).conns| && Run(events).conns[k].Held() && !Run(events).conns[k].forced
    requires forall i :: 0 <= i < |more| ==> LeavesAlone(more[i], k)
    ensures var e := Graceful(k, notice, hasTimer, throws);
      var w, w' := Run(events), Run(events + [e]);
      var c, c' := w.conns[k], w'.conns[k];
      && Asked(c, c', notice, hasTimer, throws)
      && w'.registry == (if c'.forced then w.registry - {c.id} else w.registry)
    ensures var all := events + [Graceful(k, notice, hasTimer, throws)] + more;
      k < |Run(all).conns| && (Run(all).conns[k].forced <==> !hasTimer || notice.None?)
  {
    var e := Graceful(k, notice, hasTimer, throws);
    RunSnoc(events, e);
    SessionStep(Run(events), e);
    GracefulAsked(Run(events).conns[k], e);
    assert k < |Run(events + [e]).conns|;
    hide Run, Step, ConnStep, Takes, LeavesAlone;
    AloneRun(events + [e], more, k);
  }

  /** What a tick leaves of a session: a registered one is pinged or closed, and nothing else happens. */
  predicate AfterTick(c: Conn, c': Conn, registered: bool, now: nat, timeout: nat, ping: seq<byte>) {
    var inTime := (now - c.lastRecv) % U64_RANGE <= timeout;
    && c'.chain.queue == c.chain.queue + (if registered && inTime then [ping] else [])
    && c'.chain.writes == c.chain.writes + (if registered && inTime && c.chain.queue == [] then 1 else 0)
    && c'.open == (c.open && (registered ==> inTime))
    && c' == c.(open := c'.open, chain := c.chain.(queue := c'.chain.queue, writes := c'.chain.writes))
  }

  lemma TickedExactly(w: World, now: nat, timeout: nat, ping: seq<byte>, k: nat)
    requires k < |w.conns|
    ensures var w' := Step(w, Tick(now, timeout, ping));
      && |w'.conns| == |w.conns| && w'.registry == w.registry && w'.nextId == w.nextId
      && AfterTick(w.conns[k], w'.conns[k], k in w.registry.Values, now, timeout, ping)
  {
  }

  /**
   A heartbeat tick, exactly: each registered session within the timeout is sent one ping, each registered
   one beyond it has its socket closed, and nothing else happens to any session or to the registry.
   */
  lemma TickExactly(events: seq<Event>, now: nat, timeout: nat, ping: seq<byte>, k: nat)
    requires k < |Run(events).conns|
    ensures var w, w' := Run(events), Run(events + [Tick(now, timeout, ping)]);
      && |w'.conns| == |w.conns| && w'.registry == w.registry && w'.nextId == w.nextId
      && AfterTick(w.conns[k], w'.conns[k], k in w.registry.Values, now, timeout, ping)
  {
    RunSnoc(events, Tick(now, timeout, ping));
    TickedExactly(Run(events), now, timeout, ping, k);
    hide Run, Step, AfterTick;
  }

  // ----- what holds a session, and its socket -----

  predicate HeldAt(events: seq<Event>, k: nat) {
    k < |Run(events).conns| && Run(events).conns[k].Held()
  }

  predicate SocketOpenAt(events: seq<Event>, k: nat) {
    k < |Run(events).conns| && Run(events).conns[k].SocketOpen()
  }

  /** The registry's reference to a session is never the only one: its read chain holds it too. */
  lemma RegisteredAreHeld(events: seq<Event>, k: nat)
    requires k in Run(events).registry.Values
    ensures HeldAt(events, k)
  {
    RunInv(events);
    hide Run;
    var w := Run(events);
    var id :| id in w.registry && w.registry[id] == k;
  }

  /** No event reaches a session that nothing holds any more. */
  lemma DestroyedStep(w: World, e: Event, k: nat)
    requires Good(w) && k < |w.conns| && !w.conns[k].Held()
    ensures k < |Step(w, e).conns| && Step(w, e).conns[k] == w.conns[k]
  {
    assert w.conns[k].Inv();
    assert w.conns[k].Ended() && k !in w.registry.Values;
    hide Conn.Inv, Conn.Ended, ConnStep, RegistrySound, RegistryComplete, IdsInOrder;
  }

  /** A session that nothing holds has come to its end: nothing happens to it in any continuation. */
  lemma {:induction false} DestroyedForGood(events: seq<Event>, more: seq<Event>, k: nat)
    requires k < |Run(events).conns| && !HeldAt(events, k)
    ensures k < |Run(events + more).conns| && Run(events + more).conns[k] == Run(events).conns[k]
    decreases |more|
  {
    hide Step, Run, Good, Conn.Held;
    if more == [] {
      assert events + more == events;
    } else {
      var n := |more| - 1;
      SplitLast(events, more);
      RunSnoc(events + more[..n], more[n]);
      RunInv(events + more[..n]);
      DestroyedForGood(events, more[..n], k);
      DestroyedStep(Run(events + more[..n]), more[n], k);
    }
  }

  /** The ordinary end: the read chain fails with nothing else pending, which destroys the session and closes its socket. */
  lemma LastHolderCloses(events: seq<Event>, k: nat, more: seq<Event>)
    requires Enabled(Run(events), ReadFailed(k))
    requires var c := Run(events).conns[k]; c.chain.writes == 0 && c.graceTimers == 0 && c.tasks == 0
    ensures !HeldAt(events + [ReadFailed(k)] + more, k) && !SocketOpenAt(events + [ReadFailed(k)] + more, k)
  {
    RunSnoc(events, ReadFailed(k));
    RunInv(events);
    hide Run;
    assert !HeldAt(events + [ReadFailed(k)], k);
    DestroyedForGood(events + [ReadFailed(k)], more, k);
  }

  /** On an ended session, close() is called by nothing but a first ForceDisconnect. */
  lemma EndedStep(w: World, e: Event, k: nat)
    requires Good(w) && k < |w.conns| && w.conns[k].Ended()
    ensures k < |Step(w, e).conns|
    ensures var c, c' := w.conns[k], Step(w, e).conns[k];
      c'.Ended() && (c.forced ==> c'.forced) && (c'.forced == c.forced ==> c'.open == c.open)
  {
    assert k !in w.registry.Values;
    hide RegistrySound, RegistryComplete, IdsInOrder, ConnsInv;
    if Enabled(w, e) && !e.Accept? && !e.Tick? {
      EndedConnStep(w.conns[e.i], e);
      hide ConnStep, Conn.Ended, Takes;
    }
  }

  lemma EndedConnStep(c: Conn, e: Event)
    requires !e.Accept? && !e.Tick? && Takes(c, e)
    ensures var c' := ConnStep(c, e);
      (c.Ended() ==> c'.Ended()) && (c.forced ==> c'.forced) && (c'.forced == c.forced ==> c'.open == c.open)
  {
  }

  /**
   No tick reaches an ended session: unless someone forces it for the first time, its socket is open in
   every continuation exactly as long as something holds the session, if it was not closed before.
   */
  lemma {:induction false} EndedStaysOpen(events: seq<Event>, more: seq<Event>, k: nat)
    requires k < |Run(events).conns| && Run(events).conns[k].Ended()
    ensures k < |Run(events + more).conns|
    ensures var c, c' := Run(events).conns[k], Run(events + more).conns[k];
      && c'.Ended() && (c.forced ==> c'.forced)
      && (c'.forced == c.forced ==>
          c'.open == c.open && (SocketOpenAt(events + more, k) <==> c.open && HeldAt(events + more, k)))
    decreases |more|
  {
    hide Step, Run, Conn.Ended, Conn.Held, Good;
    if more == [] {
      assert events + more == events;
    } else {
      var n := |more| - 1;
      SplitLast(events, more);
      RunSnoc(events + more[..n], more[n]);
      RunInv(events + more[..n]);
      EndedStaysOpen(events, more[..n], k);
      EndedStep(Run(events + more[..n]), more[n], k);
    }
  }

  /**
   ForceDisconnect, exactly: after the first one on an open socket, the socket stays open as long as
   something holds the session, in every continuation, if and only if the socket layer threw on the
   way. No tick, no further ForceDisconnect and no safety timer closes it then.
   */
  lemma ForcedSocketStaysOpenExactly(events: seq<Event>, k: nat, throws: bool)
    requires SocketOpenAt(events, k) && !Run(events).conns[k].forced
    ensures (forall more ::
      SocketOpenAt(events + [Force(k, throws)] + more, k) <==> HeldAt(events + [Force(k, throws)] + more, k))
      <==> throws
    ensures (forall more :: !SocketOpenAt(events + [Force(k, throws)] + more, k)) <==> !throws
  {
    var forced := events + [Force(k, throws)];
    RunSnoc(events, Force(k, throws));
    assert k < |Run(forced).conns| && Run(forced).conns[k] == Run(events).conns[k].Force(throws);
    hide Run, Step;
    forall more
      ensures SocketOpenAt(forced + more, k) <==> throws && HeldAt(forced + more, k)
    {
      EndedStaysOpen(forced, more, k);
    }
    assert forced + [] == forced;
    assert HeldAt(forced + [], k);
  }

  lemma TickOnNobody(w: World, now: nat, timeout: nat, ping: seq<byte>)
    requires w.registry == map[]
    ensures Step(w, Tick(now, timeout, ping)) == w
  {
    assert Ticked(w, now, timeout, ping).conns == w.conns;
  }

  lemma ForcedInVain()
    ensures Run([Accept(0)] + [Force(0, true)] + [Force(0, false)]) == World(2, map[], [Started(1, 0).Force(true)])
  {
    var first := [Accept(0)];
    RunSnoc([], Accept(0));
    assert [] + [Accept(0)] == first;
    RunSnoc(first, Force(0, true));
    RunSnoc(first + [Force(0, true)], Force(0, false));
    assert Run(first) == World(2, map[1 := 0], [Started(1, 0)]);
    hide Run;
    assert Run(first + [Force(0, true)]) == World(2, map[], [Started(1, 0).Force(true)]);
  }

  /**
   A run that leaves a socket behind: one session, forced while the socket layer throws, forced again,
   and ticked. Its pending read holds it; when that read fails, the socket is closed after all.
   */
  lemma SocketLeftBehind() returns (events: seq<Event>)
    ensures events == [Accept(0)] + [Force(0, true)] + [Force(0, false)] + [Tick(10001, 10000, [])]
    ensures Run(events).conns == [Started(1, 0).Force(true)] && Run(events).registry == map[]
    ensures SocketOpenAt(events, 0) && Run(events).conns[0].Overdue(10001, 10000)
    ensures !SocketOpenAt(events + [ReadFailed(0)], 0)
  {
    var forced := [Accept(0)] + [Force(0, true)] + [Force(0, false)];
    events := forced + [Tick(10001, 10000, [])];
    ForcedInVain();
    RunSnoc(forced, Tick(10001, 10000, []));
    TickOnNobody(Run(forced), 10001, 10000, []);
    hide Run, Step;
    LastHolderCloses(events, 0, []);
    assert events + [ReadFailed(0)] + [] == events + [ReadFailed(0)];
  }

  /**
   After a failed write no tick finds the session any more, while its read chain lives on: until
   someone forces it, its socket is open as long as anything holds it, at least until the read chain
   ends, in every continuation.
   */
  lemma UnwatchedAfterWriteFailure(events: seq<Event>, k: nat, more: seq<Event>)
    requires SocketOpenAt(events, k) && Enabled(Run(events), WriteFailed(k))
    ensures var w, after := Run(events + [WriteFailed(k)] + more), events + [WriteFailed(k)] + more;
      && k < |w.conns|
      && k !in w.registry.Values
      && (|w.conns| < U32_RANGE ==> w.conns[k].id !in w.registry)
      && (!w.conns[k].forced ==> (SocketOpenAt(after, k) <==> HeldAt(after, k)))
      && (!w.conns[k].readEnded ==> HeldAt(after, k) && w.conns[k].pendingReads == 1)
  {
    var failed := events + [WriteFailed(k)];
    RunSnoc(events, WriteFailed(k));
    assert k < |Run(failed).conns| && Run(failed).conns[k] == Run(events).conns[k].WriteFailed();
    hide Step, Run;
    EndedStaysOpen(failed, more, k);
    RunInv(failed + more);
    if |Run(failed + more).conns| < U32_RANGE {
      RemovedForGood(failed, more, k);
      RunKeeps(failed, more, k);
    }
  }

  function Live(w: World): set<nat> {
    set k | 0 <= k < |w.conns| && !w.conns[k].Ended()
  }

  function Shifted(s: set<nat>): set<nat> {
    set k | k in s :: k + 1
  }

  lemma {:induction false} ShiftedSize(s: set<nat>)
    ensures |Shifted(s)| == |s|
  {
    if s != {} {
      var x :| x in s;
      ShiftedSize(s - {x});
      forall y ensures y in Shifted(s) <==> y in Shifted(s - {x}) + {x + 1} {
        assert y in Shifted(s) <==> y > 0 && y - 1 in s;
        assert y in Shifted(s - {x}) <==> y > 0 && y - 1 in s - {x};
      }
      assert Shifted(s) == Shifted(s - {x}) + {x + 1};
    }
  }

  /** GetSessionCount counts the sessions that no chain has removed. */
  lemma SessionCount(events: seq<Event>)
    requires |Run(events).conns| < U32_RANGE
    ensures |Run(events).registry| == |Live(Run(events))|
  {
    hide Conn.Ended, Run, Conn.Inv;
    var w := Run(events);
    RunInv(events);
    SmallIds(w);
    ShiftedSize(Live(w));
    forall id ensures id in w.registry.Keys <==> id in Shifted(Live(w)) {
      assert id in Shifted(Live(w)) <==> id > 0 && id - 1 in Live(w);
    }
    assert w.registry.Keys == Shifted(Live(w));
  }
}

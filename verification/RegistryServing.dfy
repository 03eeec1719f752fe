/**
 The registry objects against the server machine: a SessionManager and every session ever accepted stay
 in the state of a run of Server, whichever handlers, ticks and acceptances come, in any order.
 */
module RegistryServing {
  import opened Bytes
  import opened Cipher
  import opened ClientPackets
  import opened Framing
  import opened Network
  import opened Server
  import Lifecycle
  import Reception

  ghost predicate Configured(s: Session, m: SessionManager, c: Config) {
    && s.manager == m && c == Config(s.recvBuffer.bufferSize, s.cipher, s.hasThreadPool, s.hasTimer, s.sendsNotice)
  }

  /** Two sessions that share no object. */
  ghost predicate Separate(s: Session, t: Session)
    reads s`owned, t`owned
  {
    && s != t && s.recvBuffer != t.recvBuffer
    && {s.recvBuffer.data} + s.owned !! {t.recvBuffer.data} + t.owned
  }

  ghost predicate Apart(all: seq<Session>)
    reads all`owned
  {
    forall i, j :: 0 <= i < |all| && 0 <= j < |all| && i != j ==> Separate(all[i], all[j])
  }

  /** What the session object has received, posted and dispatched. */
  ghost function InboxOf(s: Session): Inbox
    requires s.recvBuffer.Valid()
    reads s`delivered, s`pending, s`dispatched, s.recvBuffer, s.recvBuffer.data
  {
    Inbox(s.Receiver(), s.pending, s.dispatched)
  }

  /** One session object, consistent and with the given inbox. */
  ghost predicate Kept(c: Config, m: SessionManager, s: Session, b: Inbox)
    reads s`pending, s`tasks, s`owned, s`delivered, s`dispatched, s.recvBuffer, s.recvBuffer.data, s.owned
  {
    Configured(s, m, c) && s.Valid() && InboxOf(s) == b
  }

  /** One session object, consistent and in the given state. */
  ghost predicate Hosted(c: Config, m: SessionManager, s: Session, life: Lifecycle.Conn, b: Inbox)
    reads s, s.recvBuffer, s.recvBuffer.data, s.owned
  {
    Kept(c, m, s, b) && s.Life() == life
  }

  /** The sessions are consistent and in the given states, and no two share anything. */
  ghost predicate AllHosted(c: Config, m: SessionManager, all: seq<Session>, lives: seq<Lifecycle.Conn>,
                            inboxes: seq<Inbox>)
    reads all, set s | s in all :: s.recvBuffer, set s | s in all :: s.recvBuffer.data
    reads set s, o | s in all && o in s.owned :: o
  {
    && |all| == |lives| == |inboxes|
    && (forall i :: 0 <= i < |all| ==> Hosted(c, m, all[i], lives[i], inboxes[i]))
    && Apart(all)
  }

  /** The map holds the session objects that the registry holds. */
  ghost predicate Mirrors(sessions: map<nat, Session>, all: seq<Session>, registry: map<nat, nat>) {
    && sessions.Keys == registry.Keys
    && (forall id :: id in registry ==> registry[id] < |all| && sessions[id] == all[registry[id]])
  }

  /** Manager and sessions are in the state of the machine: the i-th object is the i-th session accepted. */
  ghost predicate InStep(c: Config, m: SessionManager, all: seq<Session>, st: State)
    reads m, all, set s | s in all :: s.recvBuffer, set s | s in all :: s.recvBuffer.data
    reads set s, o | s in all && o in s.owned :: o
  {
    && m.sessionIdGen == st.world.nextId && AllHosted(c, m, all, st.world.conns, st.inboxes)
    && Mirrors(m.sessions, all, st.world.registry)
  }

  /** What a command about one session makes of the session, its inbox and the manager's map. */
  ghost predicate Ran(c: Config, cmd: Command, life: Lifecycle.Conn, life': Lifecycle.Conn, b: Inbox, b': Inbox,
                      sessions: map<nat, Session>, sessions': map<nat, Session>)
    requires !cmd.Accept? && !cmd.Tick? && b.receiver.Consistent(c.bufferSize)
    requires Lifecycle.Takes(life, EventOf(c, b, cmd))
  {
    && life' == Lifecycle.ConnStep(life, EventOf(c, b, cmd)) && b' == InboxAfter(c, b, cmd)
    && sessions' == if life'.calls > life.calls then sessions - {life.id} else sessions
  }

  /** A consistent session object has a consistent inbox. */
  lemma SaneInbox(c: Config, m: SessionManager, s: Session)
    requires Configured(s, m, c) && s.Valid()
    ensures InboxOf(s).receiver.Consistent(c.bufferSize)
  {
  }

  /** The handler for a command about one session that can take it. */
  method RunHandler(c: Config, m: SessionManager, s: Session, cmd: Command)
    requires !cmd.Accept? && !cmd.Tick? && Configured(s, m, c) && s.Valid() && s.Life().Inv()
    requires InboxOf(s).receiver.Consistent(c.bufferSize)
    requires Lifecycle.Takes(s.Life(), EventOf(c, InboxOf(s), cmd))
    modifies m`sessions, s, s.recvBuffer, s.recvBuffer.data, s.owned
    ensures s.Valid() && fresh(s.owned - old(s.owned))
    ensures Ran(c, cmd, old(s.Life()), s.Life(), old(InboxOf(s)), InboxOf(s), old(m.sessions), m.sessions)
  {
    if cmd.Read? {
      RunRead(c, m, s, cmd);
    } else if cmd.ReadFailed? || cmd.RunTask? {
      RunReceiving(c, m, s, cmd);
    } else if cmd.Send? || cmd.WriteOk? || cmd.WriteFailed? {
      RunSending(c, m, s, cmd);
    } else if cmd.Graceful? {
      RunGraceful(c, m, s, cmd);
    } else {
      RunForce(c, m, s, cmd);
    }
  }

  method RunKept(c: Config, m: SessionManager, s: Session, cmd: Command, ghost b: Inbox) returns (ghost b': Inbox)
    requires !cmd.Accept? && !cmd.Tick? && Kept(c, m, s, b) && s.Life().Inv() && b.receiver.Consistent(c.bufferSize)
    requires Lifecycle.Takes(s.Life(), EventOf(c, b, cmd))
    modifies m`sessions, s, s.recvBuffer, s.recvBuffer.data, s.owned
    ensures Kept(c, m, s, b') && fresh(s.owned - old(s.owned))
    ensures Ran(c, cmd, old(s.Life()), s.Life(), b, b', old(m.sessions), m.sessions)
  {
    hide Ran, Session.Life, InboxOf, EventOf, Lifecycle.Takes, Reception.Receiver.Consistent, Holds;
    RunHandler(c, m, s, cmd);
    b' := InboxOf(s);
  }

  /** A message to send, or the end of a write. */
  method RunSending(c: Config, m: SessionManager, s: Session, cmd: Command)
    requires cmd.Send? || cmd.WriteOk? || cmd.WriteFailed?
    requires Configured(s, m, c) && s.Valid() && s.Life().Inv()
    requires InboxOf(s).receiver.Consistent(c.bufferSize)
    requires Lifecycle.Takes(s.Life(), EventOf(c, InboxOf(s), cmd))
    modifies m`sessions, s
    ensures s.Valid() && s.owned == old(s.owned)
    ensures Ran(c, cmd, old(s.Life()), s.Life(), old(InboxOf(s)), InboxOf(s), old(m.sessions), m.sessions)
  {
    hide Session.Valid, Session.Receiver, InboxOf, Encipher, PacketBuffer, Reception.Receiver.Consistent;
    hide Received, TakenOut, HasRoom;
    match cmd
    case Send(_, msg) => s.Send(msg);
    case WriteOk(_) => s.OnWriteComplete(false);
    case WriteFailed(_) => s.OnWriteComplete(true);
  }

  lemma SameNotice(c: Config, m: SessionManager, s: Session)
    requires Configured(s, m, c)
    ensures c.Notice() == s.Notice()
  {
  }

  /** ForceDisconnect, called or by the safety timer. */
  method RunForce(c: Config, m: SessionManager, s: Session, cmd: Command)
    requires cmd.Force? || cmd.GraceTimer?
    requires Configured(s, m, c) && s.Valid() && InboxOf(s).receiver.Consistent(c.bufferSize)
    requires Lifecycle.Takes(s.Life(), EventOf(c, InboxOf(s), cmd))
    modifies m`sessions, s
    ensures s.Valid() && s.owned == old(s.owned)
    ensures Ran(c, cmd, old(s.Life()), s.Life(), old(InboxOf(s)), InboxOf(s), old(m.sessions), m.sessions)
  {
    hide Session.Valid, Session.Receiver, InboxOf, Encipher, PacketBuffer, Reception.Receiver.Consistent;
    hide Received, TakenOut, HasRoom;
    match cmd
    case Force(_, throws) => s.ForceDisconnect(throws);
    case GraceTimer(_, throws) => s.OnGraceTimer(throws);
  }

  /** GracefulDisconnect. */
  method RunGraceful(c: Config, m: SessionManager, s: Session, cmd: Command)
    requires cmd.Graceful?
    requires Configured(s, m, c) && s.Valid() && InboxOf(s).receiver.Consistent(c.bufferSize)
    requires Lifecycle.Takes(s.Life(), EventOf(c, InboxOf(s), cmd))
    modifies m`sessions, s
    ensures s.Valid() && s.owned == old(s.owned)
    ensures Ran(c, cmd, old(s.Life()), s.Life(), old(InboxOf(s)), InboxOf(s), old(m.sessions), m.sessions)
  {
    hide Session.Valid, Session.Receiver, InboxOf, Encipher, PacketBuffer, Reception.Receiver.Consistent;
    hide Received, TakenOut, HasRoom, Session.Notice, Config.Notice;
    SameNotice(c, m, s);
    s.GracefulDisconnect(cmd.throws);
  }

  /** A failed read, or a thread that takes one of the waiting closures. */
  method RunReceiving(c: Config, m: SessionManager, s: Session, cmd: Command)
    requires cmd.ReadFailed? || cmd.RunTask?
    requires Configured(s, m, c) && s.Valid()
    requires InboxOf(s).receiver.Consistent(c.bufferSize)
    requires Lifecycle.Takes(s.Life(), EventOf(c, InboxOf(s), cmd))
    modifies m`sessions, s, s.recvBuffer, s.recvBuffer.data, s.owned
    ensures s.Valid() && fresh(s.owned - old(s.owned))
    ensures Ran(c, cmd, old(s.Life()), s.Life(), old(InboxOf(s)), InboxOf(s), old(m.sessions), m.sessions)
  {
    hide Parse, Rest, Encipher, Holds, Session.Incoming, Session.Posted, Session.Handed;
    match cmd
    case ReadFailed(_) => s.OnReadComplete(true, 0, 0);
    case RunTask(_, which) => s.RunTask(which % |s.tasks|);
  }

  /** A read: the socket layer stores the bytes if there is room for them, and the handler runs. */
  method RunRead(c: Config, m: SessionManager, s: Session, cmd: Command)
    requires cmd.Read? && Configured(s, m, c) && s.Valid()
    requires InboxOf(s).receiver.Consistent(c.bufferSize)
    requires Lifecycle.Takes(s.Life(), EventOf(c, InboxOf(s), cmd))
    modifies m`sessions, s, s.recvBuffer, s.recvBuffer.data
    ensures s.Valid() && fresh(s.owned - old(s.owned))
    ensures Ran(c, cmd, old(s.Life()), s.Life(), old(InboxOf(s)), InboxOf(s), old(m.sessions), m.sessions)
  {
    hide Parse, Rest, EncipherAll, Holds, Reception.AfterRead;
    if |cmd.chunk| <= s.recvBuffer.FreeSize() {
      s.recvBuffer.Fill(cmd.chunk);
      assert s.Incoming(|cmd.chunk|) == cmd.chunk;
    }
    s.OnReadComplete(false, |cmd.chunk|, cmd.now);
  }

  lemma TakeApart(c: Config, m: SessionManager, all: seq<Session>, lives: seq<Lifecycle.Conn>, inboxes: seq<Inbox>)
    requires AllHosted(c, m, all, lives, inboxes)
    ensures |all| == |lives| == |inboxes| && Apart(all)
    ensures forall i :: 0 <= i < |all| ==> Kept(c, m, all[i], inboxes[i]) && all[i].Life() == lives[i]
  {
    hide Session.Life, Apart, Kept;
  }

  lemma PutTogether(c: Config, m: SessionManager, all: seq<Session>, lives: seq<Lifecycle.Conn>, inboxes: seq<Inbox>)
    requires |all| == |lives| == |inboxes| && Apart(all)
    requires forall i :: 0 <= i < |all| ==> Kept(c, m, all[i], inboxes[i]) && all[i].Life() == lives[i]
    ensures AllHosted(c, m, all, lives, inboxes)
  {
    hide Session.Life, Apart, Kept;
  }

  /** The handler leaves the sessions apart: what it adds to its session is new. */
  method RunApart(c: Config, m: SessionManager, all: seq<Session>, cmd: Command, ghost b: Inbox)
    returns (ghost b': Inbox)
    requires Apart(all) && !cmd.Accept? && !cmd.Tick? && cmd.i < |all|
    requires Kept(c, m, all[cmd.i], b) && all[cmd.i].Life().Inv() && b.receiver.Consistent(c.bufferSize)
    requires Lifecycle.Takes(all[cmd.i].Life(), EventOf(c, b, cmd))
    modifies m`sessions, all[cmd.i], all[cmd.i].recvBuffer, all[cmd.i].recvBuffer.data, all[cmd.i].owned
    ensures Apart(all) && Kept(c, m, all[cmd.i], b') && fresh(all[cmd.i].owned - old(all[cmd.i].owned))
    ensures Ran(c, cmd, old(all[cmd.i].Life()), all[cmd.i].Life(), b, b', old(m.sessions), m.sessions)
  {
    var s := all[cmd.i];
    assert forall j :: 0 <= j < |all| && j != cmd.i ==> Separate(all[j], s);
    hide Lifecycle.Conn.Inv, Session.Life, EventOf, Lifecycle.Takes, Ran, Kept, Reception.Receiver.Consistent;
    b' := RunKept(c, m, s, cmd, b);
    forall j | 0 <= j < |all| && j != cmd.i ensures Separate(all[j], s) && Separate(s, all[j]) {
    }
    hide Separate;
  }

  /** A command about one session, on the object; nothing happens to the other sessions. */
  method ServeOne(c: Config, m: SessionManager, all: seq<Session>, ghost lives: seq<Lifecycle.Conn>,
                  ghost inboxes: seq<Inbox>, cmd: Command)
    returns (ghost life: Lifecycle.Conn, ghost b: Inbox)
    requires AllHosted(c, m, all, lives, inboxes)
    requires !cmd.Accept? && !cmd.Tick? && cmd.i < |all|
    requires lives[cmd.i].Inv() && inboxes[cmd.i].receiver.Consistent(c.bufferSize)
    requires Lifecycle.Takes(lives[cmd.i], EventOf(c, inboxes[cmd.i], cmd))
    modifies m`sessions, all[cmd.i], all[cmd.i].recvBuffer, all[cmd.i].recvBuffer.data, all[cmd.i].owned
    ensures Ran(c, cmd, lives[cmd.i], life, inboxes[cmd.i], b, old(m.sessions), m.sessions)
    ensures AllHosted(c, m, all, lives[cmd.i := life], inboxes[cmd.i := b])
    ensures fresh(all[cmd.i].owned - old(all[cmd.i].owned))
  {
    TakeApart(c, m, all, lives, inboxes);
    hide AllHosted, Hosted, Kept, Ran;
    hide Lifecycle.Conn.Inv, Session.Life, EventOf, Lifecycle.Takes, Reception.Receiver.Consistent;
    b := RunApart(c, m, all, cmd, inboxes[cmd.i]);
    life := all[cmd.i].Life();
    forall j | 0 <= j < |all| && j != cmd.i ensures Kept(c, m, all[j], inboxes[j]) && all[j].Life() == lives[j] {
      assert old(Separate(all[j], all[cmd.i]));
    }
    hide Apart, Separate;
    PutTogether(c, m, all, lives[cmd.i := life], inboxes[cmd.i := b]);
  }

  lemma MirrorsRemoved(sessions: map<nat, Session>, all: seq<Session>, registry: map<nat, nat>, id: nat)
    requires Mirrors(sessions, all, registry)
    ensures Mirrors(sessions - {id}, all, registry - {id})
  {
  }

  lemma MirrorsAdded(sessions: map<nat, Session>, all: seq<Session>, registry: map<nat, nat>, id: nat, s: Session)
    requires Mirrors(sessions, all, registry)
    ensures Mirrors(sessions, all + [s], registry)
    ensures Mirrors(sessions[id := s], all + [s], registry[id := |all|])
  {
  }

  lemma Stepped(c: Config, m: SessionManager, all: seq<Session>, st: State, cmd: Command, life: Lifecycle.Conn, b: Inbox,
                sessions: map<nat, Session>)
    requires WellFormed(c, st) && !cmd.Accept? && !cmd.Tick? && Concerns(c, st, cmd, cmd.i)
    requires m.sessionIdGen == st.world.nextId && Mirrors(sessions, all, st.world.registry)
    requires Ran(c, cmd, st.world.conns[cmd.i], life, st.inboxes[cmd.i], b, sessions, m.sessions)
    requires AllHosted(c, m, all, st.world.conns[cmd.i := life], st.inboxes[cmd.i := b])
    ensures InStep(c, m, all, Step(c, st, cmd))
  {
    MirrorsRemoved(sessions, all, st.world.registry, st.world.conns[cmd.i].id);
    EventKind(c, st.inboxes[cmd.i], cmd);
    Lifecycle.SessionStep(st.world, EventOf(c, st.inboxes[cmd.i], cmd));
    hide AllHosted, Mirrors, EventOf, InboxAfter;
    hide Lifecycle.ConnStep, Lifecycle.Step, Lifecycle.Takes, Reception.Receiver.Consistent;
  }

  /** A command about one session that can take it: its handler runs on the object, and the machine makes the step. */
  method ServeSession(c: Config, m: SessionManager, all: seq<Session>, st: State, cmd: Command)
    requires WellFormed(c, st) && InStep(c, m, all, st) && Lifecycle.ConnsInv(st.world)
    requires !cmd.Accept? && !cmd.Tick? && Concerns(c, st, cmd, cmd.i)
    modifies m`sessions, all[cmd.i], all[cmd.i].recvBuffer, all[cmd.i].recvBuffer.data, all[cmd.i].owned
    ensures InStep(c, m, all, Step(c, st, cmd)) && fresh(all[cmd.i].owned - old(all[cmd.i].owned))
  {
    assert AllHosted(c, m, all, st.world.conns, st.inboxes) && m.sessionIdGen == st.world.nextId;
    assert Mirrors(m.sessions, all, st.world.registry) && |all| == |st.world.conns|;
    hide InStep, AllHosted, Mirrors, Step, EventOf, Ran;
    hide Lifecycle.Takes, Lifecycle.Conn.Inv, Reception.Receiver.Consistent;
    ghost var life, b := ServeOne(c, m, all, st.world.conns, st.inboxes, cmd);
    hide WellFormed, Concerns;
    Stepped(c, m, all, st, cmd, life, b, old(m.sessions));
  }

  /** A session object just started joins the others. */
  lemma OneJoins(c: Config, m: SessionManager, all: seq<Session>, lives: seq<Lifecycle.Conn>, inboxes: seq<Inbox>,
                 s: Session, life: Lifecycle.Conn, b: Inbox)
    requires AllHosted(c, m, all, lives, inboxes) && Hosted(c, m, s, life, b)
    requires forall i :: 0 <= i < |all| ==> Separate(all[i], s)
    ensures AllHosted(c, m, all + [s], lives + [life], inboxes + [b])
  {
    forall i | 0 <= i < |all| ensures Separate(s, all[i]) {
      assert Separate(all[i], s);
    }
    hide Hosted, Separate;
  }

  /** A new session object is made and started. */
  method StartNew(c: Config, m: SessionManager, now: nat) returns (s: Session)
    modifies m
    ensures fresh(s) && fresh(s.recvBuffer) && fresh(s.recvBuffer.data) && s.owned == {}
    ensures Hosted(c, m, s, Lifecycle.Started(old(m.sessionIdGen), now), EMPTY_INBOX)
    ensures m.sessionIdGen == (old(m.sessionIdGen) + 1) % U32_RANGE
    ensures m.sessions == if old(m.sessionIdGen) in old(m.sessions) then old(m.sessions)
      else old(m.sessions)[old(m.sessionIdGen) := s]
  {
    s := new Session(m, c.bufferSize, c.cipher, c.hasThreadPool, c.hasTimer, c.sendsNotice);
    assert s.recvBuffer.Valid() && InboxOf(s) == EMPTY_INBOX;
    hide Session.Valid, InboxOf;
    s.Start(now);
  }

  /** It joins the others. */
  method JoinNew(c: Config, m: SessionManager, all: seq<Session>, ghost lives: seq<Lifecycle.Conn>,
                 ghost inboxes: seq<Inbox>, now: nat)
    returns (s: Session)
    requires AllHosted(c, m, all, lives, inboxes)
    modifies m
    ensures fresh(s) && fresh(s.recvBuffer) && fresh(s.recvBuffer.data) && s.owned == {}
    ensures AllHosted(c, m, all + [s], lives + [Lifecycle.Started(old(m.sessionIdGen), now)], inboxes + [EMPTY_INBOX])
    ensures m.sessionIdGen == (old(m.sessionIdGen) + 1) % U32_RANGE
    ensures m.sessions == if old(m.sessionIdGen) in old(m.sessions) then old(m.sessions)
      else old(m.sessions)[old(m.sessionIdGen) := s]
  {
    hide Hosted, AllHosted, Apart;
    s := StartNew(c, m, now);
    forall i | 0 <= i < |all| ensures Separate(all[i], s) {
    }
    hide Separate;
    OneJoins(c, m, all, lives, inboxes, s, Lifecycle.Started(old(m.sessionIdGen), now), EMPTY_INBOX);
  }

  lemma Accepted(c: Config, m: SessionManager, all: seq<Session>, st: State, now: nat)
    requires WellFormed(c, st) && m.sessionIdGen == (st.world.nextId + 1) % U32_RANGE
    requires AllHosted(c, m, all, st.world.conns + [Lifecycle.Started(st.world.nextId, now)], st.inboxes + [EMPTY_INBOX])
    requires var w := st.world;
      Mirrors(m.sessions, all, if w.nextId in w.registry then w.registry else w.registry[w.nextId := |w.conns|])
    ensures InStep(c, m, all, Step(c, st, Accept(now)))
  {
    hide AllHosted, Mirrors;
  }

  /** The machine accepts a session, and so do the objects. */
  method ServeAccept(c: Config, m: SessionManager, all: seq<Session>, st: State, now: nat)
    returns (s: Session)
    requires WellFormed(c, st) && InStep(c, m, all, st)
    modifies m
    ensures fresh(s) && fresh(s.recvBuffer) && fresh(s.recvBuffer.data) && s.owned == {}
    ensures InStep(c, m, all + [s], Step(c, st, Accept(now)))
  {
    var w := st.world;
    assert AllHosted(c, m, all, w.conns, st.inboxes) && Mirrors(m.sessions, all, w.registry);
    assert m.sessionIdGen == w.nextId && |all| == |w.conns|;
    hide InStep, Mirrors, AllHosted, Step, WellFormed;
    s := JoinNew(c, m, all, w.conns, st.inboxes, now);
    MirrorsAdded(old(m.sessions), all, w.registry, w.nextId, s);
    Accepted(c, m, all + [s], st, now);
  }

  /** No session is registered twice, and the map holds the sessions that the registry holds and no other. */
  ghost predicate Exactly(m: SessionManager, all: seq<Session>, w: Lifecycle.World)
    reads m
  {
    && m.Distinct() && Mirrors(m.sessions, all, w.registry)
    && (forall s :: s in m.sessions.Values ==> s in all)
    && (forall i :: 0 <= i < |all| && i !in w.registry.Values ==> all[i] !in m.sessions.Values)
  }

  lemma SoundIsExact(c: Config, m: SessionManager, all: seq<Session>, st: State)
    requires InStep(c, m, all, st) && Lifecycle.RegistrySound(st.world)
    ensures Exactly(m, all, st.world)
  {
    var w := st.world;
    hide Hosted;
    forall i, j | 0 <= i < j < |all| ensures all[i] != all[j] {
      assert Separate(all[i], all[j]);
    }
    forall a, b | a in m.sessions && b in m.sessions && a != b ensures m.sessions[a] != m.sessions[b] {
      assert w.registry[a] != w.registry[b];
    }
  }

  /** If every registered session has been beaten and the others have been left alone, the world has ticked. */
  lemma BeatenIsTicked(all: seq<Session>, w: Lifecycle.World, now: nat, timeout: nat, ping: seq<byte>)
    requires |all| == |w.conns|
    requires forall id :: id in w.registry ==>
      w.registry[id] < |all| && all[w.registry[id]].Life() == w.conns[w.registry[id]].Beat(now, timeout, ping)
    requires forall i :: 0 <= i < |all| && i !in w.registry.Values ==> all[i].Life() == w.conns[i]
    ensures forall i :: 0 <= i < |all| ==> all[i].Life() == Lifecycle.Ticked(w, now, timeout, ping).conns[i]
  {
    hide Session.Life, Lifecycle.Conn.Beat;
    forall i | 0 <= i < |all|
      ensures all[i].Life() == Lifecycle.Ticked(w, now, timeout, ping).conns[i]
    {
      if i in w.registry.Values {
        var id :| id in w.registry && w.registry[id] == i;
      }
    }
  }

  /** CheckHeartbeat over the objects: every session ends up where the world's tick puts it. */
  method BeatAll(m: SessionManager, all: seq<Session>, w: Lifecycle.World, now: nat, timeout: nat, ghost ping: seq<byte>)
    requires Exactly(m, all, w) && |all| == |w.conns|
    requires forall i :: 0 <= i < |all| ==> all[i].Life() == w.conns[i] && all[i].PingMessage() == ping
    modifies all`writeQueue, all`pendingWrites, all`open
    ensures var lives := Lifecycle.Ticked(w, now, timeout, ping).conns;
      |lives| == |all| && forall i :: 0 <= i < |all| ==> all[i].Life() == lives[i]
  {
    hide Session.Life, Session.PingMessage, Lifecycle.Conn.Beat, SessionManager.Distinct;
    m.CheckHeartbeat(now, timeout);
    forall id | id in w.registry
      ensures all[w.registry[id]].Life() == w.conns[w.registry[id]].Beat(now, timeout, ping)
    {
      assert id in m.sessions;
    }
    hide Mirrors;
    BeatenIsTicked(all, w, now, timeout, ping);
  }

  lemma SamePing(c: Config, m: SessionManager, s: Session, b: Inbox)
    requires Kept(c, m, s, b)
    ensures s.PingMessage() == c.PingMessage()
  {
  }

  /** A tick touches no inbox and nothing by which sessions are consistent. */
  method BeatKept(c: Config, m: SessionManager, all: seq<Session>, w: Lifecycle.World, ghost inboxes: seq<Inbox>,
                  now: nat, timeout: nat)
    requires Exactly(m, all, w) && |all| == |w.conns| == |inboxes|
    requires forall i :: 0 <= i < |all| ==> Kept(c, m, all[i], inboxes[i]) && all[i].Life() == w.conns[i]
    modifies all`writeQueue, all`pendingWrites, all`open
    ensures var lives := Lifecycle.Ticked(w, now, timeout, c.PingMessage()).conns;
      |lives| == |all| && forall i :: 0 <= i < |all| ==> Kept(c, m, all[i], inboxes[i]) && all[i].Life() == lives[i]
  {
    hide Session.Life, Config.PingMessage, Session.PingMessage, Lifecycle.Ticked, Exactly, Kept;
    forall i | 0 <= i < |all| ensures all[i].PingMessage() == c.PingMessage() {
      SamePing(c, m, all[i], inboxes[i]);
    }
    BeatAll(m, all, w, now, timeout, c.PingMessage());
    forall i | 0 <= i < |all| ensures Kept(c, m, all[i], inboxes[i]) {
      assert old(Kept(c, m, all[i], inboxes[i]));
    }
  }

  /** Nor anything by which they are apart. */
  method BeatHosted(c: Config, m: SessionManager, all: seq<Session>, w: Lifecycle.World, ghost inboxes: seq<Inbox>,
                    now: nat, timeout: nat)
    requires AllHosted(c, m, all, w.conns, inboxes) && Exactly(m, all, w)
    modifies all`writeQueue, all`pendingWrites, all`open
    ensures AllHosted(c, m, all, Lifecycle.Ticked(w, now, timeout, c.PingMessage()).conns, inboxes)
  {
    hide Session.Life, Config.PingMessage, Lifecycle.Ticked, Apart, Exactly, AllHosted, Hosted, Kept;
    TakeApart(c, m, all, w.conns, inboxes);
    BeatKept(c, m, all, w, inboxes, now, timeout);
    PutTogether(c, m, all, Lifecycle.Ticked(w, now, timeout, c.PingMessage()).conns, inboxes);
  }

  /** One heartbeat tick over the objects is one tick of the machine. */
  method ServeTick(c: Config, m: SessionManager, all: seq<Session>, st: State, now: nat, timeout: nat)
    requires WellFormed(c, st) && InStep(c, m, all, st) && Lifecycle.RegistrySound(st.world)
    modifies all`writeQueue, all`pendingWrites, all`open
    ensures InStep(c, m, all, Step(c, st, Tick(now, timeout)))
  {
    SoundIsExact(c, m, all, st);
    assert AllHosted(c, m, all, st.world.conns, st.inboxes) && Mirrors(m.sessions, all, st.world.registry);
    assert m.sessionIdGen == st.world.nextId;
    hide InStep, AllHosted, Exactly, Mirrors, Config.PingMessage, Step, WellFormed, Lifecycle.RegistrySound;
    BeatHosted(c, m, all, st.world, st.inboxes, now, timeout);
    TickedInStep(c, m, all, st, now, timeout);
  }

  lemma TickedInStep(c: Config, m: SessionManager, all: seq<Session>, st: State, now: nat, timeout: nat)
    requires WellFormed(c, st) && m.sessionIdGen == st.world.nextId && Mirrors(m.sessions, all, st.world.registry)
    requires AllHosted(c, m, all, Lifecycle.Ticked(st.world, now, timeout, c.PingMessage()).conns, st.inboxes)
    ensures InStep(c, m, all, Step(c, st, Tick(now, timeout)))
  {
    hide AllHosted, Mirrors, Config.PingMessage;
  }

  /** The objects of one session are among the given ones. */
  ghost predicate Within(s: Session, objects: set<object>)
    reads s`owned
  {
    s in objects && s.recvBuffer in objects && s.recvBuffer.data in objects && s.owned <= objects
  }

  ghost predicate AllWithin(all: seq<Session>, objects: set<object>)
    reads all`owned
  {
    forall i :: 0 <= i < |all| ==> Within(all[i], objects)
  }

  lemma MoreObjects(all: seq<Session>, objects: set<object>, more: set<object>)
    requires AllWithin(all, objects) && objects <= more
    ensures AllWithin(all, more)
  {
    forall i | 0 <= i < |all| ensures Within(all[i], more) {
      assert Within(all[i], objects);
    }
  }

  method AcceptCommand(c: Config, m: SessionManager, all: seq<Session>, st: State, now: nat, ghost objects: set<object>)
    returns (all': seq<Session>, ghost objects': set<object>)
    requires WellFormed(c, st) && InStep(c, m, all, st) && AllWithin(all, objects)
    modifies m
    ensures InStep(c, m, all', Step(c, st, Accept(now)))
    ensures AllWithin(all', objects') && objects <= objects' && fresh(objects' - objects)
  {
    hide InStep, AllWithin, Step;
    var s := ServeAccept(c, m, all, st, now);
    all', objects' := all + [s], objects + {s} + {s.recvBuffer} + {s.recvBuffer.data};
    MoreObjects(all, objects, objects');
    OneMoreWithin(all, s, objects');
  }

  lemma OneMoreWithin(all: seq<Session>, s: Session, objects: set<object>)
    requires AllWithin(all, objects) && Within(s, objects)
    ensures AllWithin(all + [s], objects)
  {
    hide Within;
  }

  method SessionCommand(c: Config, m: SessionManager, all: seq<Session>, st: State, cmd: Command,
                        ghost objects: set<object>)
    returns (ghost objects': set<object>)
    requires WellFormed(c, st) && InStep(c, m, all, st) && AllWithin(all, objects) && Lifecycle.ConnsInv(st.world)
    requires !cmd.Accept? && !cmd.Tick? && Concerns(c, st, cmd, cmd.i)
    modifies m, objects
    ensures InStep(c, m, all, Step(c, st, cmd))
    ensures AllWithin(all, objects') && objects <= objects' && fresh(objects' - objects)
  {
    assert cmd.i < |all|;
    assert Within(all[cmd.i], objects);
    hide InStep, Step, Concerns, WellFormed, Lifecycle.ConnsInv;
    ServeSession(c, m, all, st, cmd);
    objects' := objects + all[cmd.i].owned;
    forall i | 0 <= i < |all| ensures Within(all[i], objects') {
      assert old(Within(all[i], objects));
    }
  }

  /** Any command, on the objects; one that no session can take changes nothing. */
  method ServeCommand(c: Config, m: SessionManager, all: seq<Session>, st: State, cmd: Command,
                      ghost objects: set<object>)
    returns (all': seq<Session>, ghost objects': set<object>)
    requires WellFormed(c, st) && InStep(c, m, all, st) && Lifecycle.Good(st.world) && AllWithin(all, objects)
    modifies m, objects
    ensures InStep(c, m, all', Step(c, st, cmd))
    ensures AllWithin(all', objects') && objects <= objects' && fresh(objects' - objects)
  {
    all', objects' := all, objects;
    NobodyTakes(c, st, cmd);
    assert Lifecycle.RegistrySound(st.world) && Lifecycle.ConnsInv(st.world);
    hide InStep, Step, Concerns, WellFormed, Lifecycle.Good, Lifecycle.RegistrySound, Lifecycle.ConnsInv;
    if cmd.Accept? {
      hide AllWithin;
      all', objects' := AcceptCommand(c, m, all, st, cmd.now, objects);
    } else if cmd.Tick? {
      assert forall i :: 0 <= i < |all| ==> Within(all[i], objects);
      hide Within;
      ServeTick(c, m, all, st, cmd.now, cmd.timeout);
    } else if Concerns(c, st, cmd, cmd.i) {
      hide AllWithin;
      objects' := SessionCommand(c, m, all, st, cmd, objects);
    }
  }

  /**
   The whole server: any list of commands, for any number of sessions, run on a SessionManager and its
   sessions. The objects end in the state of the machine's run, so every result about the machine, its
   world included, holds of them.
   */
  method ServeWorld(c: Config, commands: seq<Command>) returns (m: SessionManager, all: seq<Session>)
    ensures InStep(c, m, all, Run(c, commands))
  {
    hide InStep, AllWithin, WellFormed, Step, Lifecycle.Good, Run;
    m := new SessionManager();
    all := [];
    ghost var objects: set<object> := {};
    var st := EMPTY_STATE;
    EmptyInStep(c, m);
    var n := 0;
    assert commands[..0] == [];
    while n < |commands|
      invariant 0 <= n <= |commands|
      invariant st == Run(c, commands[..n]) && InStep(c, m, all, st) && AllWithin(all, objects)
      invariant fresh(m) && fresh(objects)
    {
      WorldRuns(c, commands[..n]);
      Lifecycle.RunInv(Events(c, commands[..n]));
      all, objects := ServeCommand(c, m, all, st, commands[n], objects);
      RunSnoc(c, commands[..n], commands[n]);
      assert commands[..n + 1] == commands[..n] + [commands[n]];
      st := Step(c, st, commands[n]);
      n := n + 1;
    }
    assert commands[..n] == commands;
  }

  lemma EmptyInStep(c: Config, m: SessionManager)
    requires m.sessions == map[] && m.sessionIdGen == 1
    ensures InStep(c, m, [], EMPTY_STATE) && Run(c, []) == EMPTY_STATE && AllWithin([], {})
  {
  }

  /**
   What that says of the objects: below 2^32 sessions the map holds exactly the sessions that no chain
   has removed, and each session object has delivered Parse of what it has itself received.
   */
  lemma ServedWorld(c: Config, m: SessionManager, all: seq<Session>, commands: seq<Command>)
    requires InStep(c, m, all, Run(c, commands))
    ensures |all| < U32_RANGE ==>
      forall i :: 0 <= i < |all| ==> (all[i] in m.sessions.Values <==> !all[i].Life().Ended())
    ensures forall i :: 0 <= i < |all| ==>
      && all[i].delivered == Parse(Flatten(Chunks(c, commands, i)))
      && (!c.hasThreadPool ==> all[i].dispatched == EncipherAll(all[i].delivered, c.cipher))
  {
    var st := Run(c, commands);
    WorldRuns(c, commands);
    Lifecycle.RunInv(Events(c, commands));
    SoundIsExact(c, m, all, st);
    hide Run, Chunks, Flatten, Parse, Session.Life, Lifecycle.Conn.Ended, Lifecycle.Conn.Inv, Lifecycle.Run;
    forall i | 0 <= i < |all|
      ensures |all| < U32_RANGE ==> (all[i] in m.sessions.Values <==> !all[i].Life().Ended())
      ensures all[i].delivered == Parse(Flatten(Chunks(c, commands, i)))
      ensures !c.hasThreadPool ==> all[i].dispatched == EncipherAll(all[i].delivered, c.cipher)
    {
      assert Hosted(c, m, all[i], st.world.conns[i], st.inboxes[i]);
      Isolation(c, commands, i);
      if |all| < U32_RANGE && !st.world.conns[i].Ended() {
        assert m.sessions[st.world.conns[i].id] == all[i];
      } else if |all| < U32_RANGE {
        assert i !in st.world.registry.Values;
      }
    }
  }
}

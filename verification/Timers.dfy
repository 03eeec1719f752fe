/** Repeating timers: AsioTimerManager and the waits it leaves with the event loop. */
module Timers {
  import opened Bytes
  import Heartbeat
  import Lifecycle

  /**
   Where the one outstanding wait of a timer stands: still pending; expired, its handler queued without
   error; cancelled, its handler queued with an error; or gone. A timer is Ready until its handler has
   re-armed it, so a Cancel issued by the running task itself also meets it Ready.
   */
  datatype Phase = Waiting | Ready | Aborted | Dead

  /** One execution of the task: the deadline it was for and when it ran. */
  datatype Firing = Firing(deadline: nat, at: nat)

  datatype Timer = Timer(start: nat, interval: nat, expiry: nat, phase: Phase, fired: seq<Firing>) {
    /** The event loop notices that the expiry has passed. */
    function Expired(): Timer {
      this.(phase := Ready)
    }

    /** OnTimer without error: run the task, move the expiry on by the interval, wait again. */
    function Fired(now: nat): Timer {
      this.(fired := fired + [Firing(expiry, now)], expiry := expiry + interval, phase := Waiting)
    }

    /** steady_timer::cancel reaches a pending wait only. */
    function Cancelled(): Timer {
      if phase == Waiting then this.(phase := Aborted) else this
    }

    predicate Armed() {
      phase == Waiting || phase == Ready
    }

    predicate Inv() {
      && expiry == start + (|fired| + 1) * interval
      && forall k :: 0 <= k < |fired| ==>
        fired[k].deadline == start + (k + 1) * interval && fired[k].at >= fired[k].deadline
    }
  }

  function Scheduled(now: nat, interval: nat): Timer {
    Timer(now, interval, now + interval, Waiting, [])
  }

  /** The manager: the id counter, the map from ids to timers, every timer ever made and the id it was given. */
  datatype Manager = Manager(nextId: nat, table: map<nat, nat>, timers: seq<Timer>, ids: seq<nat>)

  const EMPTY_MANAGER: Manager := Manager(1, map[], [], [])

  datatype Event =
    | ScheduleRepeat(now: nat, interval: nat)
    | Expire(i: nat, now: nat)
    | OnTimer(i: nat, now: nat)
    | Cancel(id: nat)

  predicate Enabled(m: Manager, e: Event) {
    match e
    case ScheduleRepeat(_, _) => true
    case Cancel(_) => true
    case Expire(i, now) => i < |m.timers| && m.timers[i].phase == Waiting && now >= m.timers[i].expiry
    case OnTimer(i, now) =>
      && i < |m.timers|
      && (m.timers[i].phase == Ready ==> now >= m.timers[i].expiry)
      && (m.timers[i].phase == Ready || m.timers[i].phase == Aborted)
  }

  /** Every index in the table is that of a timer. */
  predicate Closed(m: Manager) {
    forall id :: id in m.table ==> m.table[id] < |m.timers|
  }

  /** No id stands for timer i. */
  predicate Unlisted(m: Manager, i: nat) {
    forall id :: id in m.table ==> m.table[id] != i
  }

  function Step(m: Manager, e: Event): (m': Manager)
    requires Closed(m)
    ensures Closed(m')
  {
    if !Enabled(m, e) then m
    else match e
      case ScheduleRepeat(now, interval) =>
        Manager((m.nextId + 1) % U64_RANGE, m.table[m.nextId := |m.timers|], m.timers + [Scheduled(now, interval)],
          m.ids + [m.nextId])
      case Expire(i, _) => m.(timers := m.timers[i := m.timers[i].Expired()])
      case OnTimer(i, now) =>
        m.(timers := m.timers[i :=
          if m.timers[i].phase == Aborted then m.timers[i].(phase := Dead) else m.timers[i].Fired(now)])
      case Cancel(id) =>
        if id !in m.table then m
        else
          var i := m.table[id];
          m.(timers := m.timers[i := m.timers[i].Cancelled()], table := m.table - {id})
  }

  function Run(events: seq<Event>): (m: Manager)
    ensures Closed(m)
    decreases |events|
  {
    if events == [] then EMPTY_MANAGER
    else Step(Run(events[..|events| - 1]), events[|events| - 1])
  }

  predicate Inv(m: Manager) {
    && (forall i :: 0 <= i < |m.timers| ==> m.timers[i].Inv())
    && |m.ids| == |m.timers|
    && (forall id :: id in m.table ==>
        m.table[id] < |m.timers| && m.timers[m.table[id]].Armed() && m.ids[m.table[id]] == id)
    && m.nextId == (|m.ids| + 1) % U64_RANGE
    && (forall k :: 0 <= k < |m.ids| ==> m.ids[k] == (k + 1) % U64_RANGE)
  }

  lemma FiredInv(t: Timer, now: nat)
    requires t.Inv() && now >= t.expiry
    ensures t.Fired(now).Inv()
  {
    assert (|t.fired| + 1) * t.interval + t.interval == (|t.fired| + 2) * t.interval;
  }

  /** The new or changed timer of a step keeps its invariant. */
  lemma TouchedInv(m: Manager, e: Event, i: nat)
    requires Closed(m) && Inv(m) && i < |Step(m, e).timers|
    ensures Step(m, e).timers[i].Inv()
  {
    if e.OnTimer? && Enabled(m, e) && m.timers[e.i].phase == Ready {
      FiredInv(m.timers[e.i], e.now);
    }
  }

  lemma StepInv(m: Manager, e: Event)
    requires Closed(m) && Inv(m)
    ensures Inv(Step(m, e))
  {
    forall i | 0 <= i < |Step(m, e).timers| ensures Step(m, e).timers[i].Inv() {
      TouchedInv(m, e, i);
    }
    hide Timer.Inv;
    assert (((|m.ids| + 1) % U64_RANGE) + 1) % U64_RANGE == (|m.ids| + 2) % U64_RANGE;
  }

  lemma {:induction false} RunInv(events: seq<Event>)
    ensures Inv(Run(events))
    decreases |events|
  {
    hide Step, Inv;
    if events != [] {
      var n := |events| - 1;
      RunInv(events[..n]);
      StepInv(Run(events[..n]), events[n]);
    } else {
      EmptyInv();
    }
  }

  lemma EmptyRun()
    ensures Run([]) == EMPTY_MANAGER
  {
  }

  lemma EmptyInv()
    ensures Inv(Run([]))
  {
    assert Run([]) == EMPTY_MANAGER;
  }

  /** No drift: in every run the k-th firing is for start + (k + 1) * interval, however late earlier ones ran. */
  lemma NoDrift(events: seq<Event>, i: nat, k: nat)
    requires i < |Run(events).timers| && k < |Run(events).timers[i].fired|
    ensures var t := Run(events).timers[i];
      t.fired[k].deadline == t.start + (k + 1) * t.interval <= t.fired[k].at
  {
    RunInv(events);
  }

  /** What an event does to a timer that exists already: its start and its interval are what they were. */
  lemma StepKeepsTimer(m: Manager, e: Event, i: nat)
    requires Closed(m) && i < |m.timers|
    ensures var m' := Step(m, e);
      i < |m'.timers| && m'.timers[i].start == m.timers[i].start && m'.timers[i].interval == m.timers[i].interval
  {
  }

  lemma {:induction false} RunKeepsTimer(events: seq<Event>, more: seq<Event>, i: nat)
    requires i < |Run(events).timers|
    ensures i < |Run(events + more).timers|
    ensures Run(events + more).timers[i].start == Run(events).timers[i].start
    ensures Run(events + more).timers[i].interval == Run(events).timers[i].interval
    decreases |more|
  {
    hide Step, Run;
    if more == [] {
      assert events + more == events;
    } else {
      var n := |more| - 1;
      RunKeepsTimer(events, more[..n], i);
      SplitLast(events, more);
      RunSnoc(events + more[..n], more[n]);
      StepKeepsTimer(Run(events + more[..n]), more[n], i);
    }
  }

  /**
   A timer made at time `now`: its id is the next one, it is due one interval later, and in every
   continuation its k-th firing has deadline now + (k + 1) * interval and it waits for the one after the last.
   */
  lemma ScheduledExactly(events: seq<Event>, now: nat, interval: nat, more: seq<Event>)
    ensures var m, made := Run(events), Run(events + [ScheduleRepeat(now, interval)]);
      && |made.timers| == |m.timers| + 1 && made.timers[..|m.timers|] == m.timers
      && made.table == m.table[m.nextId := |m.timers|]
      && made.timers[|m.timers|].expiry == now + interval
      && made.timers[|m.timers|].phase == Waiting && made.timers[|m.timers|].fired == []
    ensures var i, later := |Run(events).timers|, Run(events + [ScheduleRepeat(now, interval)] + more);
      && i < |later.timers|
      && var t := later.timers[i];
      && t.interval == interval && t.expiry == now + (|t.fired| + 1) * interval
      && forall k :: 0 <= k < |t.fired| ==> t.fired[k].deadline == now + (k + 1) * interval <= t.fired[k].at
  {
    var e, i := ScheduleRepeat(now, interval), |Run(events).timers|;
    RunSnoc(events, e);
    assert Run(events + [e]).timers[i].start == now && Run(events + [e]).timers[i].interval == interval;
    hide Run, Step;
    RunKeepsTimer(events + [e], more, i);
    RunInv(events + [e] + more);
  }

  /** Timer ids are non-zero and distinct until the 64-bit counter wraps. */
  lemma TimerIdsExact(events: seq<Event>)
    ensures var ids := Run(events).ids;
      && |ids| == |Run(events).timers|
      && ((forall k :: 0 <= k < |ids| ==> ids[k] != 0) <==> |ids| < U64_RANGE)
      && ((forall j, k :: 0 <= j < k < |ids| ==> ids[j] != ids[k]) <==> |ids| <= U64_RANGE)
  {
    RunInv(events);
    CounterExact(U64_RANGE, Run(events).ids);
  }

  lemma RunSnoc(events: seq<Event>, e: Event)
    ensures Run(events + [e]) == Step(Run(events), e)
  {
    hide Step;
    assert (events + [e])[..|events|] == events;
  }

  /** What the handler of a wait does, to its own timer and to no other. */
  lemma HandlerExactly(m: Manager, i: nat, now: nat)
    requires Closed(m) && Enabled(m, OnTimer(i, now))
    ensures var t, m' := m.timers[i], Step(m, OnTimer(i, now));
      && |m'.timers| == |m.timers| && m'.table == m.table
      && (forall j :: 0 <= j < |m.timers| && j != i ==> m'.timers[j] == m.timers[j])
      && var t' := m'.timers[i];
      if t.phase == Ready
      then t'.phase == Waiting && t'.expiry == t.expiry + t.interval && t'.fired == t.fired + [Firing(t.expiry, now)]
      else t'.phase == Dead && t'.fired == t.fired
  {
  }

  /** A cancelled wait stays cancelled. */
  lemma {:induction false} NeverAgain(events: seq<Event>, more: seq<Event>, i: nat)
    requires i < |Run(events).timers| && !Run(events).timers[i].Armed()
    requires Unlisted(Run(events), i)
    ensures i < |Run(events + more).timers| && !Run(events + more).timers[i].Armed()
    ensures Unlisted(Run(events + more), i)
    ensures Run(events + more).timers[i].fired == Run(events).timers[i].fired
    decreases |more|
  {
    if more == [] {
      assert events + more == events;
    } else {
      hide Step, Run;
      var n := |more| - 1;
      NeverAgain(events, more[..n], i);
      assert events + more == events + more[..n] + [more[n]];
      RunSnoc(events + more[..n], more[n]);
      StaysDown(Run(events + more[..n]), more[n], i);
    }
  }

  lemma StaysDown(m: Manager, e: Event, i: nat)
    requires Closed(m) && i < |m.timers| && Unlisted(m, i)
    ensures var m' := Step(m, e);
      && i < |m'.timers| && Unlisted(m', i)
      && (!m.timers[i].Armed() ==> !m'.timers[i].Armed() && m'.timers[i].fired == m.timers[i].fired)
      && (m.timers[i].Armed() ==> m'.timers[i].Armed())
  {
  }

  /** What Cancel does at once: it forgets the id, reaches only the timer of that id, and leaves every other timer alone. */
  lemma CancelIsLocal(events: seq<Event>, id: nat)
    requires id in Run(events).table
    ensures var m, m' := Run(events), Run(events + [Cancel(id)]);
      && m.table[id] < |m.timers| && m.timers[m.table[id]].Armed()
      && m'.table == m.table - {id} && Unlisted(m', m.table[id])
      && |m'.timers| == |m.timers|
      && (forall k :: 0 <= k < |m.timers| && k != m.table[id] ==> m'.timers[k] == m.timers[k])
      && m'.timers[m.table[id]] == m.timers[m.table[id]].Cancelled()
  {
    RunSnoc(events, Cancel(id));
    RunInv(events);
    hide Run;
  }

  lemma CancelUnknown(events: seq<Event>, id: nat)
    requires id !in Run(events).table
    ensures Run(events + [Cancel(id)]) == Run(events)
  {
    RunSnoc(events, Cancel(id));
  }

  /**
   Cancel, exactly: the task never runs again, in any continuation, if and only if the wait was still
   pending. If its handler was already queued, the timer runs on, re-arms itself each time, and no id
   stands for it any more.
   */
  lemma CancelExact(events: seq<Event>, id: nat)
    requires id in Run(events).table
    ensures var m := Run(events);
      var i := m.table[id];
      i < |m.timers| &&
      ((forall more :: StillSame(events + [Cancel(id)], more, i, m.timers[i].fired)) <==> m.timers[i].phase == Waiting)
  {
    CancelIsLocal(events, id);
    hide Run;
    var m := Run(events);
    var i := m.table[id];
    var cancelled := events + [Cancel(id)];
    if m.timers[i].phase == Waiting {
      forall more ensures StillSame(cancelled, more, i, m.timers[i].fired) {
        NeverAgain(cancelled, more, i);
      }
    } else {
      var e := OnTimer(i, m.timers[i].expiry);
      RunSnoc(cancelled, e);
      assert !StillSame(cancelled, [e], i, m.timers[i].fired);
    }
  }

  /** Cancelling too late is possible: a listed timer whose wait has expired and whose handler has not finished. */
  lemma TooLateReachable() returns (events: seq<Event>)
    ensures 1 in Run(events).table && Run(events).table[1] == 0
    ensures |Run(events).timers| == 1 && Run(events).timers[0].phase == Ready
    ensures Run(events + [Cancel(1)] + [OnTimer(0, 1)]).timers == [Scheduled(0, 1).Expired().Fired(1)]
    ensures Run(events + [Cancel(1)] + [OnTimer(0, 1)]).table == map[]
  {
    var first := [ScheduleRepeat(0, 1)];
    events := first + [Expire(0, 1)];
    RunSnoc([], ScheduleRepeat(0, 1));
    assert [] + [ScheduleRepeat(0, 1)] == first;
    RunSnoc(first, Expire(0, 1));
    RunSnoc(events, Cancel(1));
    RunSnoc(events + [Cancel(1)], OnTimer(0, 1));
    assert Run(first) == Manager(2, map[1 := 0], [Scheduled(0, 1)], [1]);
    hide Run;
    assert Run(events) == Manager(2, map[1 := 0], [Scheduled(0, 1).Expired()], [1]);
  }

  predicate StillSame(events: seq<Event>, more: seq<Event>, i: nat, fired: seq<Firing>) {
    i < |Run(events + more).timers| && Run(events + more).timers[i].fired == fired
  }

  /** A timer cancelled too late is armed for ever: no later event of any kind, Cancel included, stops it. */
  lemma {:induction false} TooLateForEver(events: seq<Event>, more: seq<Event>, i: nat)
    requires i < |Run(events).timers| && Run(events).timers[i].Armed() && Unlisted(Run(events), i)
    ensures i < |Run(events + more).timers| && Run(events + more).timers[i].Armed()
    ensures Unlisted(Run(events + more), i)
    decreases |more|
  {
    if more == [] {
      assert events + more == events;
    } else {
      hide Step, Run;
      var n := |more| - 1;
      TooLateForEver(events, more[..n], i);
      assert events + more == events + more[..n] + [more[n]];
      RunSnoc(events + more[..n], more[n]);
      StaysDown(Run(events + more[..n]), more[n], i);
    }
  }

  /**
   The ticks among the beats of a session that started at `start` are firings of the timer, from the
   n-th on, each at most `jitter` late.
   */
  predicate Drives(t: Timer, n: nat, jitter: nat, start: nat, beats: seq<Heartbeat.Beat>) {
    && t.start + n * t.interval <= start
    && (forall k :: 0 <= k < |t.fired| ==> t.fired[k].at <= t.fired[k].deadline + jitter)
    && (forall b :: 0 <= b < |beats| && beats[b].Tick? ==>
        n + Heartbeat.Ticks(beats, b) < |t.fired| && beats[b].time == t.fired[n + Heartbeat.Ticks(beats, b)].at)
  }

  /**
   The firings of one timer are heartbeat ticks on schedule: punctual deadlines are a theorem about
   the timer, only the lateness of the handler is an assumption.
   */
  lemma FiringsAreScheduled(events: seq<Event>, i: nat, n: nat, jitter: nat, start: nat, beats: seq<Heartbeat.Beat>)
    requires i < |Run(events).timers| && Drives(Run(events).timers[i], n, jitter, start, beats)
    ensures var t := Run(events).timers[i];
      Heartbeat.Scheduled(start, t.start + (n + 1) * t.interval, t.interval, jitter, beats)
  {
    RunInv(events);
    hide Run, Timer.Inv, Heartbeat.Ticks;
    var t := Run(events).timers[i];
    forall b | 0 <= b < |beats| && beats[b].Tick?
      ensures t.start + (n + 1) * t.interval + Heartbeat.Ticks(beats, b) * t.interval <= beats[b].time
      ensures beats[b].time <= t.start + (n + 1) * t.interval + Heartbeat.Ticks(beats, b) * t.interval + jitter
    {
      FiringTime(t, n, Heartbeat.Ticks(beats, b));
    }
    MulDistributes(n, 1, t.interval);
  }

  lemma FiringTime(t: Timer, n: nat, q: nat)
    requires t.Inv() && n + q < |t.fired|
    ensures t.fired[n + q].deadline == t.start + (n + 1) * t.interval + q * t.interval <= t.fired[n + q].at
  {
    MulDistributes(n + 1, q, t.interval);
  }

  /**
   Timer, detector and registry together: if the heartbeat ticks that the k-th session meets are the
   firings of one repeating timer and the session answers every ping within `reply`, the heartbeat
   never closes it. Only lateness and replies are assumptions; the schedule itself is the timer's.
   */
  lemma TimedSessionStaysOpen(timerEvents: seq<Event>, i: nat, n: nat, jitter: nat, reply: nat,
                              events: seq<Lifecycle.Event>, k: nat, timeout: nat)
    requires i < |Run(timerEvents).timers| && k < |Lifecycle.Run(events).conns|
    requires Heartbeat.SameTimeout(events, timeout)
    requires var t, start, beats := Run(timerEvents).timers[i], Heartbeat.StartTime(events, k), Heartbeat.Beats(events, k);
      && Drives(t, n, jitter, start, beats)
      && Heartbeat.Ordered(start, beats) && Heartbeat.Answers(start, timeout, reply, beats)
      && t.interval > 0 && reply > 0 && Heartbeat.WorstGap(t.interval, jitter, reply) <= timeout
    ensures !Lifecycle.Run(events).conns[k].forced ==>
      Lifecycle.Run(events).conns[k].open && (Lifecycle.SocketOpenAt(events, k) <==> Lifecycle.HeldAt(events, k))
  {
    hide Run, Lifecycle.Run, Heartbeat.Beats, Heartbeat.StartTime, Heartbeat.WorstGap, Heartbeat.Ticks;
    var t, start, beats := Run(timerEvents).timers[i], Heartbeat.StartTime(events, k), Heartbeat.Beats(events, k);
    FiringsAreScheduled(timerEvents, i, n, jitter, start, beats);
    Heartbeat.PromptSessionStaysOpen(events, k, timeout, t.start + (n + 1) * t.interval, t.interval, jitter, reply);
  }

  /**
   And the other way round: once the timer has fired for every deadline up to one interval after the
   timeout of the k-th session's last reception, and all those firings have reached the session, its
   socket has been closed, by a tick that came after the timeout and at most one interval and the
   jitter later. If it is still registered, its pending read can then fail, which removes it.
   */
  lemma TimedSilenceIsClosed(timerEvents: seq<Event>, i: nat, n: nat, jitter: nat,
                             events: seq<Lifecycle.Event>, k: nat, timeout: nat)
    requires i < |Run(timerEvents).timers| && k < |Lifecycle.Run(events).conns|
    requires Heartbeat.SameTimeout(events, timeout)
    requires var t, start, beats := Run(timerEvents).timers[i], Heartbeat.StartTime(events, k), Heartbeat.Beats(events, k);
      && Drives(t, n, jitter, start, beats) && Heartbeat.Ordered(start, beats)
      && n + Heartbeat.Ticks(beats, |beats|) == |t.fired|
      && t.expiry > Lifecycle.Run(events).conns[k].lastRecv + timeout + t.interval
    ensures var t, closed := Run(timerEvents).timers[i],
        Heartbeat.Run(Heartbeat.StartTime(events, k), timeout, Heartbeat.Beats(events, k)).closed;
      && closed.Some?
      && closed.value.lastRecv + timeout < closed.value.at <= closed.value.lastRecv + timeout + t.interval + jitter
    ensures !Lifecycle.Run(events).conns[k].open
    ensures |Lifecycle.Run(events).conns| < U32_RANGE && !Lifecycle.Run(events).conns[k].Ended() ==>
      Heartbeat.CanLeave(Lifecycle.Run(events), k)
  {
    hide Run, Lifecycle.Run, Heartbeat.Run, Heartbeat.Beats, Heartbeat.StartTime, Heartbeat.CanLeave, Drives;
    var start, beats := Heartbeat.StartTime(events, k), Heartbeat.Beats(events, k);
    Heartbeat.Projection(events, k, timeout);
    var _ := Heartbeat.RunWhole(start, timeout, beats);
    FiringsDetect(timerEvents, i, n, jitter, start, timeout, beats);
    if |Lifecycle.Run(events).conns| < U32_RANGE && !Lifecycle.Run(events).conns[k].Ended() {
      Heartbeat.RegisteredCanLeave(events, k);
    }
  }

  /** Timer and detector. */
  lemma FiringsDetect(events: seq<Event>, i: nat, n: nat, jitter: nat, start: nat, timeout: nat,
                      beats: seq<Heartbeat.Beat>)
    requires i < |Run(events).timers|
    requires var t := Run(events).timers[i];
      && Drives(t, n, jitter, start, beats) && Heartbeat.Ordered(start, beats)
      && n + Heartbeat.Ticks(beats, |beats|) == |t.fired|
      && t.expiry > Heartbeat.LastRecv(start, beats, |beats|) + timeout + t.interval
    ensures var t, closed := Run(events).timers[i], Heartbeat.Run(start, timeout, beats).closed;
      && closed.Some?
      && closed.value.lastRecv + timeout < closed.value.at <= closed.value.lastRecv + timeout + t.interval + jitter
  {
    var t := Run(events).timers[i];
    RunInv(events);
    FiringsAreScheduled(events, i, n, jitter, start, beats);
    hide Run, Heartbeat.Run, Heartbeat.Ticks, Heartbeat.LastRecv, Heartbeat.Ordered, Heartbeat.Scheduled, Drives, Timer.Inv;
    var m := LastFiring(t, n, jitter, start, timeout, beats);
    Heartbeat.LateTickCloses(start, timeout, t.start + (n + 1) * t.interval, t.interval, jitter, beats, m);
  }

  /** The last of those firings finds the session overdue. */
  lemma LastFiring(t: Timer, n: nat, jitter: nat, start: nat, timeout: nat, beats: seq<Heartbeat.Beat>) returns (m: nat)
    requires t.Inv() && Drives(t, n, jitter, start, beats) && Heartbeat.Ordered(start, beats)
    requires n + Heartbeat.Ticks(beats, |beats|) == |t.fired|
    requires t.expiry > Heartbeat.LastRecv(start, beats, |beats|) + timeout + t.interval
    ensures m < |beats| && beats[m].Tick? && beats[m].time > Heartbeat.LastRecv(start, beats, m) + timeout
  {
    hide Heartbeat.LastRecv, Heartbeat.Ticks;
    Heartbeat.LastRecvBounds(start, beats, |beats|);
    var ticks := Heartbeat.Ticks(beats, |beats|);
    MulDistributes(|t.fired|, 1, t.interval);
    m := Heartbeat.FindTick(beats, |beats|, ticks - 1);
    Heartbeat.LastRecvGrows(start, beats, m, |beats|);
  }

  // ----- the objects -----

  /** A steady_timer with its interval. */
  class SteadyTimer {
    ghost const start: nat
    const interval: nat
    var expiry: nat
    var phase: Phase
    ghost var fired: seq<Firing>

    constructor (now: nat, interval: nat)
      ensures View() == Scheduled(now, interval)
      ensures this.interval == interval && expiry == now + interval && phase == Waiting && fired == []
    {
      start, this.interval := now, interval;
      expiry, phase, fired := now + interval, Waiting, [];
    }

    ghost function View(): Timer
      reads this
    {
      Timer(start, interval, expiry, phase, fired)
    }

    method CancelWait()
      modifies this
      ensures View() == old(View()).Cancelled()
      ensures phase == (if old(phase) == Waiting then Aborted else old(phase))
      ensures expiry == old(expiry) && fired == old(fired)
    {
      if phase == Waiting {
        phase := Aborted;
      }
    }
  }

  class AsioTimerManager {
    var timers: map<nat, SteadyTimer>
    var nextId: nat
    ghost var all: seq<SteadyTimer>     // every timer ever made
    ghost var ids: seq<nat>             // the id each was given
    ghost var table: map<nat, nat>      // the map, by position in `all`

    ghost predicate Valid()
      reads this
    {
      && timers.Keys == table.Keys
      && (forall id :: id in table ==> table[id] < |all| && timers[id] == all[table[id]])
      && (forall i, j :: 0 <= i < j < |all| ==> all[i] != all[j])
    }

    ghost function Views(): (views: seq<Timer>)
      reads this, all
      ensures |views| == |all| && forall i :: 0 <= i < |all| ==> views[i] == all[i].View()
    {
      seq(|all|, i requires 0 <= i < |all| reads this, all => all[i].View())
    }

    /** The manager and its timers as the machine sees them. */
    ghost function View(): (m: Manager)
      requires Valid()
      reads this, all
      ensures Closed(m)
    {
      Manager(nextId, table, Views(), ids)
    }

    constructor ()
      ensures Valid() && View() == EMPTY_MANAGER && all == []
    {
      timers, nextId := map[], 1;
      all, ids, table := [], [], map[];
    }

    method ScheduleRepeat(now: nat, interval: nat) returns (id: nat, timer: SteadyTimer)
      requires Valid()
      modifies this
      ensures Valid() && fresh(timer) && all == old(all) + [timer]
      ensures id == old(nextId) && timers == old(timers)[id := timer]
      ensures timer.interval == interval && timer.expiry == now + interval && timer.phase == Waiting && timer.fired == []
      ensures View() == Step(old(View()), Event.ScheduleRepeat(now, interval))
    {
      id := nextId;
      nextId := (nextId + 1) % U64_RANGE;
      timer := new SteadyTimer(now, interval);
      timers := timers[id := timer];
      table := table[id := |all|];
      all, ids := all + [timer], ids + [id];
      assert Views() == old(Views()) + [Scheduled(now, interval)];
    }

    method Cancel(id: nat)
      requires Valid()
      modifies this, timers.Values
      ensures Valid() && all == old(all) && timers == old(timers) - {id}
      ensures View() == Step(old(View()), Event.Cancel(id))
      ensures id in old(timers) ==>
        var timer := old(timers)[id];
        && timer.expiry == old(timer.expiry) && timer.fired == old(timer.fired)
        && timer.phase == (if old(timer.phase) == Waiting then Aborted else old(timer.phase))
    {
      if id in timers {
        ghost var i := table[id];
        timers[id].CancelWait();
        timers := timers - {id};
        table := table - {id};
        assert Views() == old(Views())[i := old(Views())[i].Cancelled()];
      }
    }

    /** The event loop: the wait of the i-th timer expires. */
    method Expire(timer: SteadyTimer, ghost i: nat, ghost now: nat)
      requires Valid() && i < |all| && all[i] == timer
      requires timer.phase == Waiting && now >= timer.expiry
      modifies timer
      ensures Valid() && View() == Step(old(View()), Event.Expire(i, now))
      ensures timer.phase == Ready && timer.expiry == old(timer.expiry) && timer.fired == old(timer.fired)
    {
      timer.phase := Ready;
      assert Views() == old(Views())[i := old(Views())[i].Expired()];
    }

    /** The handler of a wait; it does not look into the map before it waits again. */
    method OnTimer(error: bool, timer: SteadyTimer, now: nat, ghost i: nat)
      requires Valid() && i < |all| && all[i] == timer
      requires if error then timer.phase == Aborted else timer.phase == Ready && now >= timer.expiry
      modifies timer
      ensures Valid() && View() == Step(old(View()), Event.OnTimer(i, now))
      ensures error ==> timer.phase == Dead && timer.expiry == old(timer.expiry) && timer.fired == old(timer.fired)
      ensures !error ==>
        && timer.phase == Waiting && timer.expiry == old(timer.expiry) + timer.interval
        && timer.fired == old(timer.fired) + [Firing(old(timer.expiry), now)]
    {
      if error {
        timer.phase := Dead;
      } else {
        timer.fired := timer.fired + [Firing(timer.expiry, now)];
        timer.expiry := timer.expiry + timer.interval;
        timer.phase := Waiting;
      }
      assert Views() == old(Views())[i := timer.View()];
    }
  }

  /**
   The event loop serving one manager: any list of events, each taken if the timer concerned is in a
   state for it. The objects end where the machine's run says, so its results hold of them.
   */
  method ServeTimers(events: seq<Event>) returns (manager: AsioTimerManager)
    ensures fresh(manager) && manager.Valid() && manager.View() == Run(events)
  {
    hide Step, Run, AsioTimerManager.View, AsioTimerManager.Valid;
    EmptyRun();
    manager := new AsioTimerManager();
    var waits: seq<SteadyTimer> := [];
    var n := 0;
    assert events[..0] == [];
    while n < |events|
      invariant 0 <= n <= |events|
      invariant fresh(manager) && manager.Valid() && manager.all == waits
      invariant forall i :: 0 <= i < |waits| ==> fresh(waits[i])
      invariant manager.View() == Run(events[..n])
    {
      waits := ServeTimer(manager, events[n], waits);
      RunSnoc(events[..n], events[n]);
      assert events[..n + 1] == events[..n] + [events[n]];
      n := n + 1;
    }
    assert events[..n] == events;
  }

  /** One turn of that loop. */
  method ServeTimer(manager: AsioTimerManager, e: Event, waits: seq<SteadyTimer>) returns (waits': seq<SteadyTimer>)
    requires manager.Valid() && manager.all == waits
    modifies manager, waits
    ensures manager.Valid() && manager.all == waits'
    ensures forall i :: 0 <= i < |waits'| ==> waits'[i] in waits || fresh(waits'[i])
    ensures manager.View() == Step(old(manager.View()), e)
  {
    waits' := waits;
    match e
    case ScheduleRepeat(now, interval) =>
      var id, timer := manager.ScheduleRepeat(now, interval);
      waits' := waits + [timer];
    case Cancel(id) =>
      manager.Cancel(id);
    case Expire(i, now) =>
      if i < |waits| && waits[i].phase == Waiting && now >= waits[i].expiry {
        manager.Expire(waits[i], i, now);
      }
    case OnTimer(i, now) =>
      if i < |waits| && waits[i].phase == Aborted {
        manager.OnTimer(true, waits[i], now, i);
      } else if i < |waits| && waits[i].phase == Ready && now >= waits[i].expiry {
        manager.OnTimer(false, waits[i], now, i);
      }
  }
}

/**
 The failure detector: SessionManager::CheckHeartbeat, driven by a repeating timer, against the times
 at which one session receives. Times are milliseconds of a 64-bit clock; a tick is atomic.
 */
module Heartbeat {
  import opened Bytes
  import Lifecycle

  // What Service::Start passes to ScheduleRepeat and to CheckHeartbeat.
  const HEARTBEAT_INTERVAL: nat := 5000
  const HEARTBEAT_TIMEOUT: nat := 10000

  /** What one session sees of the service: heartbeat ticks while it is registered, and its own receptions. */
  datatype Beat = Tick(time: nat) | Recv(time: nat)

  datatype Closure = Closure(at: nat, lastRecv: nat)

  datatype Detector = Detector(lastRecv: nat, closed: Option<Closure>)

  function Step(d: Detector, timeout: nat, b: Beat): Detector {
    match b
    case Recv(t) => d.(lastRecv := t)
    case Tick(t) =>
      if d.closed.None? && Lifecycle.Elapsed(t, d.lastRecv) > timeout
      then d.(closed := Some(Closure(t, d.lastRecv))) else d
  }

  function Run(start: nat, timeout: nat, beats: seq<Beat>): Detector
    decreases |beats|
  {
    if beats == [] then Detector(start, None)
    else Step(Run(start, timeout, beats[..|beats| - 1]), timeout, beats[|beats| - 1])
  }

  /** The last reception before the m-th beat, or the start. */
  function LastRecv(start: nat, beats: seq<Beat>, m: nat): nat
    requires m <= |beats|
  {
    if m == 0 then start
    else if beats[m - 1].Recv? then beats[m - 1].time
    else LastRecv(start, beats, m - 1)
  }

  /** The m-th beat is a tick that finds the session overdue. */
  predicate Overdue(start: nat, timeout: nat, beats: seq<Beat>, m: nat)
    requires m < |beats|
  {
    beats[m].Tick? && Lifecycle.Elapsed(beats[m].time, LastRecv(start, beats, m)) > timeout
  }

  predicate Ordered(start: nat, beats: seq<Beat>) {
    && (forall i :: 0 <= i < |beats| ==> start <= beats[i].time < U64_RANGE)
    && forall i, j :: 0 <= i < j < |beats| ==> beats[i].time <= beats[j].time
  }

  /** How many of the first m beats are ticks. */
  function Ticks(beats: seq<Beat>, m: nat): nat
    requires m <= |beats|
  {
    if m == 0 then 0 else Ticks(beats, m - 1) + if beats[m - 1].Tick? then 1 else 0
  }

  /**
   The n-th tick runs at its deadline base + n * interval, or at most jitter later; the session
   started no earlier than one interval before the first.
   */
  predicate Scheduled(start: nat, base: nat, interval: nat, jitter: nat, beats: seq<Beat>) {
    && base <= start + interval
    && forall i :: 0 <= i < |beats| && beats[i].Tick? ==>
      base + Ticks(beats, i) * interval <= beats[i].time <= base + Ticks(beats, i) * interval + jitter
  }

  predicate RepliedBetween(beats: seq<Beat>, i: nat, m: nat, deadline: nat)
    requires m <= |beats|
  {
    exists k :: i < k < m && beats[k].Recv? && beats[k].time <= deadline
  }

  /**
   Every tick that pings the session is followed by a reception within `reply`, before any tick at that
   time or later.
   */
  predicate Answers(start: nat, timeout: nat, reply: nat, beats: seq<Beat>) {
    forall i, m ::
      0 <= i < m < |beats| && beats[i].Tick? && !Overdue(start, timeout, beats, i) &&
      beats[m].Tick? && beats[m].time >= beats[i].time + reply
      ==> RepliedBetween(beats, i, m, beats[i].time + reply)
  }

  predicate NoneOverdue(start: nat, timeout: nat, beats: seq<Beat>, m: nat)
    requires m <= |beats|
  {
    forall i :: 0 <= i < m ==> !Overdue(start, timeout, beats, i)
  }

  predicate FirstOverdue(start: nat, timeout: nat, beats: seq<Beat>, i: nat)
    requires i < |beats|
  {
    Overdue(start, timeout, beats, i) && NoneOverdue(start, timeout, beats, i)
  }

  /** The detector closes at the first overdue tick, if there is one. */
  lemma {:induction false} RunPrefix(start: nat, timeout: nat, beats: seq<Beat>, m: nat) returns (i: nat)
    requires m <= |beats|
    ensures Run(start, timeout, beats[..m]).lastRecv == LastRecv(start, beats, m)
    ensures Run(start, timeout, beats[..m]).closed.None? <==> NoneOverdue(start, timeout, beats, m)
    ensures Run(start, timeout, beats[..m]).closed.Some? ==>
      && i < m && FirstOverdue(start, timeout, beats, i)
      && Run(start, timeout, beats[..m]).closed == Some(Closure(beats[i].time, LastRecv(start, beats, i)))
  {
    if m > 0 {
      i := RunPrefix(start, timeout, beats, m - 1);
      assert beats[..m][..m - 1] == beats[..m - 1];
      assert beats[..m][m - 1] == beats[m - 1];
      if Run(start, timeout, beats[..m - 1]).closed.None? {
        i := m - 1;
        assert Run(start, timeout, beats[..m]).closed.Some? <==> Overdue(start, timeout, beats, m - 1);
      } else {
        assert Run(start, timeout, beats[..m]).closed.Some?;
        assert Overdue(start, timeout, beats, i);
      }
    } else {
      assert beats[..0] == [];
      i := 0;
    }
  }

  lemma RunWhole(start: nat, timeout: nat, beats: seq<Beat>) returns (i: nat)
    ensures Run(start, timeout, beats).lastRecv == LastRecv(start, beats, |beats|)
    ensures Run(start, timeout, beats).closed.None? <==> NoneOverdue(start, timeout, beats, |beats|)
    ensures Run(start, timeout, beats).closed.Some? ==>
      && i < |beats| && FirstOverdue(start, timeout, beats, i)
      && Run(start, timeout, beats).closed == Some(Closure(beats[i].time, LastRecv(start, beats, i)))
  {
    i := RunPrefix(start, timeout, beats, |beats|);
    assert beats[..|beats|] == beats;
  }

  lemma {:induction false} LastRecvBounds(start: nat, beats: seq<Beat>, m: nat)
    requires Ordered(start, beats) && m <= |beats|
    ensures start <= LastRecv(start, beats, m)
    ensures forall k :: 0 <= k < m && beats[k].Recv? ==> beats[k].time <= LastRecv(start, beats, m)
    ensures forall k :: m <= k < |beats| ==> LastRecv(start, beats, m) <= beats[k].time
  {
    if m > 0 {
      LastRecvBounds(start, beats, m - 1);
    }
  }

  /** With times in order the unsigned difference is the real one. */
  lemma OverdueMeans(start: nat, timeout: nat, beats: seq<Beat>, m: nat)
    requires Ordered(start, beats) && m < |beats|
    ensures Overdue(start, timeout, beats, m)
      <==> beats[m].Tick? && beats[m].time > LastRecv(start, beats, m) + timeout
  {
    LastRecvBounds(start, beats, m);
  }

  lemma {:induction false} FindTick(beats: seq<Beat>, m: nat, n: nat) returns (i: nat)
    requires m <= |beats| && n < Ticks(beats, m)
    ensures i < m && beats[i].Tick? && Ticks(beats, i) == n
  {
    if n == Ticks(beats, m - 1) {
      i := m - 1;
    } else {
      i := FindTick(beats, m - 1, n);
    }
  }

  // ----- the longest silence that a prompt session can show to a tick -----

  /** How many ticks had run at the last reception before the m-th beat. */
  function AnsweredTicks(beats: seq<Beat>, m: nat): nat
    requires m <= |beats|
  {
    if m == 0 then 0
    else if beats[m - 1].Recv? then Ticks(beats, m - 1)
    else AnsweredTicks(beats, m - 1)
  }

  lemma {:induction false} TicksGrow(beats: seq<Beat>, i: nat, m: nat)
    requires i <= m <= |beats|
    ensures Ticks(beats, i) <= Ticks(beats, m)
    ensures i < m && beats[i].Tick? ==> Ticks(beats, i) < Ticks(beats, m)
  {
    if i < m {
      TicksGrow(beats, i, m - 1);
    }
  }

  /** The last reception came no earlier than one interval before the deadline of the first tick after it. */
  lemma {:induction false} AnsweredFloor(start: nat, base: nat, interval: nat, jitter: nat, beats: seq<Beat>, m: nat)
    requires Ordered(start, beats) && Scheduled(start, base, interval, jitter, beats) && m <= |beats|
    ensures AnsweredTicks(beats, m) <= Ticks(beats, m)
    ensures base + AnsweredTicks(beats, m) * interval <= LastRecv(start, beats, m) + interval
  {
    if m > 0 {
      if beats[m - 1].Recv? {
        var n := Ticks(beats, m - 1);
        if n > 0 {
          var i := FindTick(beats, m - 1, n - 1);
          MulMonotone(1, n, interval);
        }
      } else {
        AnsweredFloor(start, base, interval, jitter, beats, m - 1);
      }
    }
  }

  /** Nothing has been received since a tick that comes after the last reception. */
  lemma {:induction false} NothingSince(beats: seq<Beat>, i: nat, m: nat)
    requires i < m <= |beats| && beats[i].Tick? && Ticks(beats, i) >= AnsweredTicks(beats, m)
    ensures forall k :: i < k < m ==> !beats[k].Recv?
  {
    if i < m - 1 {
      TicksGrow(beats, i, m - 1);
      NothingSince(beats, i, m - 1);
    }
  }

  /**
   The longest time from a reception to a later tick, if every ping is answered within `reply` and
   ticks are up to `jitter` late.
   */
  function WorstGap(interval: nat, jitter: nat, reply: nat): nat
    requires interval > 0 && reply > 0
  {
    var k := reply - 1 + jitter;
    var whole := (k / interval) * interval;
    interval + if whole + jitter < k then whole + jitter else k
  }

  lemma WholePart(k: nat, q: nat, interval: nat)
    requires interval > 0
    ensures (k / interval) * interval <= k < (k / interval) * interval + interval
    ensures q * interval <= k ==> q <= k / interval && q * interval <= (k / interval) * interval
  {
    var whole := k / interval;
    assert k == whole * interval + k % interval;
    if q <= whole {
      MulMonotone(q, whole, interval);
    } else {
      MulMonotone(whole + 1, q, interval);
      MulDistributes(whole, 1, interval);
    }
  }

  /** The arithmetic: a is the first tick after the reception, n the tick in question, t and ta when they run. */
  lemma GapBound(base: nat, interval: nat, jitter: nat, reply: nat, a: nat, n: nat, last: nat, t: nat, ta: nat)
    requires interval > 0 && reply > 0 && a <= n
    requires base + a * interval <= last + interval
    requires base + n * interval <= t <= base + n * interval + jitter
    requires a < n ==> ta <= base + a * interval + jitter && t < ta + reply
    ensures t <= last + WorstGap(interval, jitter, reply)
  {
    var k := reply - 1 + jitter;
    if a < n {
      MulMonotone(a, n, interval);
      WholePart(k, n - a, interval);
    }
  }

  /** One tick: if all earlier ticks pinged and the session answered them in time, this tick finds it alive. */
  lemma TickFindsAlive(start: nat, timeout: nat, base: nat, interval: nat, jitter: nat, reply: nat,
                       beats: seq<Beat>, m: nat)
    requires Ordered(start, beats) && Scheduled(start, base, interval, jitter, beats)
    requires Answers(start, timeout, reply, beats)
    requires interval > 0 && reply > 0 && WorstGap(interval, jitter, reply) <= timeout
    requires m < |beats| && beats[m].Tick?
    requires NoneOverdue(start, timeout, beats, m)
    ensures !Overdue(start, timeout, beats, m)
  {
    hide WorstGap, LastRecv;
    OverdueMeans(start, timeout, beats, m);
    AnsweredFloor(start, base, interval, jitter, beats, m);
    var a, n, t := AnsweredTicks(beats, m), Ticks(beats, m), beats[m].time;
    var ta := 0;
    if a < n {
      var i := FindTick(beats, m, a);
      NothingSince(beats, i, m);
      assert !RepliedBetween(beats, i, m, beats[i].time + reply);
      ta := beats[i].time;
    }
    GapBound(base, interval, jitter, reply, a, n, LastRecv(start, beats, m), t, ta);
  }

  /** A run in which ticks are at most `jitter` late and every ping is answered within `reply`. */
  predicate Answering(start: nat, timeout: nat, base: nat, interval: nat, jitter: nat, reply: nat, beats: seq<Beat>) {
    && Ordered(start, beats)
    && Scheduled(start, base, interval, jitter, beats)
    && Answers(start, timeout, reply, beats)
  }

  /** Accuracy: if the worst gap is within the timeout, a session that answers in time is closed by no tick of any run. */
  lemma InTimeNeverClosed(start: nat, timeout: nat, base: nat, interval: nat, jitter: nat, reply: nat, beats: seq<Beat>)
    requires Answering(start, timeout, base, interval, jitter, reply, beats)
    requires interval > 0 && reply > 0 && WorstGap(interval, jitter, reply) <= timeout
    ensures Run(start, timeout, beats).closed == None
  {
    hide WorstGap;
    var m := 0;
    while m < |beats|
      invariant 0 <= m <= |beats|
      invariant NoneOverdue(start, timeout, beats, m)
    {
      if beats[m].Tick? {
        TickFindsAlive(start, timeout, base, interval, jitter, reply, beats, m);
      }
      m := m + 1;
    }
    var _ := RunWhole(start, timeout, beats);
  }

  /**
   A simpler sufficient condition: c intervals cover the reply time and the jitter, and with the jitter
   stay within the timeout.
   */
  lemma WorstGapWithin(interval: nat, jitter: nat, reply: nat, c: nat)
    requires interval > 0 && reply > 0 && c >= 1 && reply + jitter <= c * interval
    ensures WorstGap(interval, jitter, reply) <= c * interval + jitter
  {
    var k := reply - 1 + jitter;
    WholePart(k, 0, interval);
    if k / interval >= c {
      MulMonotone(c, k / interval, interval);
    } else {
      MulMonotone(k / interval, c - 1, interval);
      MulMonotone(1, c, interval);
    }
  }

  lemma WorstGapOfOne(interval: nat, jitter: nat)
    requires interval > 0
    ensures WorstGap(interval, jitter, 1) <= interval + jitter
  {
  }

  /** Without jitter the worst gap is within the timeout exactly when the reply time is at most its whole intervals. */
  lemma WorstGapPunctual(interval: nat, reply: nat, timeout: nat)
    requires interval > 0 && reply > 0
    ensures WorstGap(interval, 0, reply) <= timeout <==> reply <= (timeout / interval) * interval
  {
    var k, q := reply - 1, timeout / interval;
    WholePart(k, 0, interval);
    WholePart(timeout, k / interval + 1, interval);
    assert (k / interval + 1) * interval == (k / interval) * interval + interval by {
      MulDistributes(k / interval, 1, interval);
    }
    assert k < (k / interval) * interval + interval;
    if reply <= q * interval {
      if k / interval >= q {
        MulMonotone(q, k / interval, interval);
      } else {
        MulMonotone(k / interval + 1, q, interval);
      }
    }
  }

  /** Answering within a shorter time is answering within a longer one. */
  lemma AnswersWithin(start: nat, timeout: nat, reply: nat, longer: nat, beats: seq<Beat>)
    requires Answers(start, timeout, reply, beats) && reply <= longer
    ensures Answers(start, timeout, longer, beats)
  {
    hide Overdue;
    forall i, m | 0 <= i < m < |beats| && beats[i].Tick? && !Overdue(start, timeout, beats, i)
      && beats[m].Tick? && beats[m].time >= beats[i].time + longer
      ensures RepliedBetween(beats, i, m, beats[i].time + longer)
    {
      assert RepliedBetween(beats, i, m, beats[i].time + reply);
    }
  }

  /** Accuracy with jitter, for the simpler condition. */
  lemma NeverClosed(start: nat, timeout: nat, base: nat, interval: nat, jitter: nat, reply: nat, c: nat,
                    beats: seq<Beat>)
    requires Ordered(start, beats) && Scheduled(start, base, interval, jitter, beats)
    requires Answers(start, timeout, reply, beats)
    requires c >= 1 && reply + jitter <= c * interval && c * interval + jitter <= timeout
    ensures Run(start, timeout, beats).closed == None
  {
    hide Ordered, Scheduled, Answers, Run, WorstGap;
    if interval == 0 {
      assert c * interval == 0;
      AllAtOnce(start, timeout, base, beats);
    } else if reply == 0 {
      AnswersWithin(start, timeout, 0, 1, beats);
      WorstGapOfOne(interval, jitter);
      MulMonotone(1, c, interval);
      InTimeNeverClosed(start, timeout, base, interval, jitter, 1, beats);
    } else {
      WorstGapWithin(interval, jitter, reply, c);
      InTimeNeverClosed(start, timeout, base, interval, jitter, reply, beats);
    }
  }

  lemma AllAtOnce(start: nat, timeout: nat, base: nat, beats: seq<Beat>)
    requires Ordered(start, beats) && Scheduled(start, base, 0, 0, beats)
    ensures Run(start, timeout, beats).closed == None
  {
    var _ := RunWhole(start, timeout, beats);
    forall m | 0 <= m < |beats| ensures !Overdue(start, timeout, beats, m) {
      LastRecvBounds(start, beats, m);
      OverdueMeans(start, timeout, beats, m);
    }
  }

  // ----- a silent run that is closed as soon as the worst gap exceeds the timeout -----

  /** Ticks as early as the first one, which is as late as it may be, allows; the last at the worst gap. */
  function LateTicks(interval: nat, jitter: nat, reply: nat): (r: seq<Beat>)
    requires interval > 0 && reply > 0
    ensures |r| == (reply - 1 + jitter) / interval + 1
  {
    var n := (reply - 1 + jitter) / interval + 1;
    seq(n, i requires 0 <= i < n => Tick(LateTime(interval, jitter, reply, i)))
  }

  function LateTime(interval: nat, jitter: nat, reply: nat, i: nat): nat
    requires interval > 0 && reply > 0
  {
    if i == (reply - 1 + jitter) / interval then WorstGap(interval, jitter, reply)
    else if (i + 1) * interval < interval + jitter then interval + jitter
    else (i + 1) * interval
  }

  lemma LateTimeBounds(interval: nat, jitter: nat, reply: nat, i: nat, j: nat)
    requires interval > 0 && reply > 0 && i <= j <= (reply - 1 + jitter) / interval
    ensures var t, u := LateTime(interval, jitter, reply, i), LateTime(interval, jitter, reply, j);
      && interval + jitter <= t <= u <= interval + reply - 1 + jitter
      && interval + i * interval <= t <= interval + i * interval + jitter
  {
    var k := reply - 1 + jitter;
    WholePart(k, 0, interval);
    MulMonotone(i, j, interval);
    MulMonotone(j, k / interval, interval);
    MulDistributes(i, 1, interval);
    MulDistributes(j, 1, interval);
    if i < k / interval {
      MulMonotone(i + 1, k / interval, interval);
    }
    if i < j {
      MulMonotone(i + 1, j, interval);
    }
  }

  lemma {:induction false} OnlyTicks(beats: seq<Beat>, m: nat)
    requires m <= |beats| && forall i :: 0 <= i < |beats| ==> beats[i].Tick?
    ensures Ticks(beats, m) == m && LastRecv(0, beats, m) == 0
  {
    if m > 0 {
      OnlyTicks(beats, m - 1);
    }
  }

  lemma LateTicksAnswering(timeout: nat, interval: nat, jitter: nat, reply: nat)
    requires interval > 0 && reply > 0 && interval + jitter + reply <= U64_RANGE
    ensures Answering(0, timeout, interval, interval, jitter, reply, LateTicks(interval, jitter, reply))
  {
    var beats := LateTicks(interval, jitter, reply);
    hide Overdue, LateTime;
    forall i | 0 <= i < |beats|
      ensures 0 <= beats[i].time < U64_RANGE && Ticks(beats, i) == i
      ensures interval + Ticks(beats, i) * interval <= beats[i].time <= interval + Ticks(beats, i) * interval + jitter
    {
      OnlyTicks(beats, i);
      LateTimeBounds(interval, jitter, reply, i, i);
    }
    forall i, j | 0 <= i < j < |beats|
      ensures beats[i].time <= beats[j].time < beats[i].time + reply
    {
      LateTimeBounds(interval, jitter, reply, i, j);
    }
  }

  lemma LateTicksClosed(timeout: nat, interval: nat, jitter: nat, reply: nat)
    requires interval > 0 && reply > 0 && interval + jitter + reply <= U64_RANGE
    requires WorstGap(interval, jitter, reply) > timeout
    ensures Run(0, timeout, LateTicks(interval, jitter, reply)).closed != None
  {
    var beats, last := LateTicks(interval, jitter, reply), (reply - 1 + jitter) / interval;
    OnlyTicks(beats, last);
    assert beats[last] == Tick(WorstGap(interval, jitter, reply));
    LateTicksAnswering(timeout, interval, jitter, reply);
    hide LateTicks, WorstGap, Run, LastRecv, Ticks;
    OverdueMeans(0, timeout, beats, last);
    var _ := RunWhole(0, timeout, beats);
  }

  /**
   Accuracy, exactly, with jitter: no session that answers every ping within `reply` is ever closed by
   ticks up to `jitter` late, if and only if the worst gap is within the timeout.
   */
  lemma AccuracyExactWithJitter(timeout: nat, interval: nat, jitter: nat, reply: nat)
    requires interval > 0 && reply > 0 && interval + jitter + reply <= U64_RANGE
    ensures (forall start, base, beats ::
      Answering(start, timeout, base, interval, jitter, reply, beats) ==> Run(start, timeout, beats).closed == None)
      <==> WorstGap(interval, jitter, reply) <= timeout
  {
    hide Answering, WorstGap, Run, LateTicks;
    if WorstGap(interval, jitter, reply) <= timeout {
      forall start, base, beats | Answering(start, timeout, base, interval, jitter, reply, beats)
        ensures Run(start, timeout, beats).closed == None
      {
        InTimeNeverClosed(start, timeout, base, interval, jitter, reply, beats);
      }
    } else {
      var beats := LateTicks(interval, jitter, reply);
      LateTicksAnswering(timeout, interval, jitter, reply);
      LateTicksClosed(timeout, interval, jitter, reply);
      assert Answering(0, timeout, interval, interval, jitter, reply, beats);
    }
  }

  /** A run with ticks at their exact deadlines in which every ping is answered within `reply`. */
  predicate Prompt(start: nat, timeout: nat, base: nat, interval: nat, reply: nat, beats: seq<Beat>) {
    Answering(start, timeout, base, interval, 0, reply, beats)
  }

  /**
   Accuracy, exactly: with punctual ticks, no session that answers every ping within `reply` is ever
   closed, if and only if the reply time is at most the whole intervals contained in the timeout.
   */
  lemma AccuracyExact(timeout: nat, interval: nat, reply: nat)
    requires interval > 0 && reply > 0 && timeout + interval < U64_RANGE
    ensures (forall start, base, beats ::
      Prompt(start, timeout, base, interval, reply, beats) ==> Run(start, timeout, beats).closed == None)
      <==> reply <= (timeout / interval) * interval
  {
    hide Run, LateTicks, WorstGap;
    WholePart(timeout, 0, interval);
    if reply <= (timeout / interval) * interval {
      WorstGapPunctual(interval, reply, timeout);
      forall start, base, beats | Prompt(start, timeout, base, interval, reply, beats)
        ensures Run(start, timeout, beats).closed == None
      {
        InTimeNeverClosed(start, timeout, base, interval, 0, reply, beats);
      }
    } else {
      var slow := (timeout / interval) * interval + 1;
      var beats := LateTicks(interval, 0, slow);
      WorstGapPunctual(interval, slow, timeout);
      LateTicksAnswering(timeout, interval, 0, slow);
      LateTicksClosed(timeout, interval, 0, slow);
      AnswersWithin(0, timeout, slow, reply, beats);
      assert Prompt(0, timeout, interval, interval, reply, beats);
    }
  }

  /** With the service's 5 s ticks and 10 s timeout: replies within exactly 10 s, and not a millisecond more. */
  lemma ServiceAccuracy(reply: nat)
    requires reply > 0
    ensures (forall start, base, beats ::
      Prompt(start, HEARTBEAT_TIMEOUT, base, HEARTBEAT_INTERVAL, reply, beats)
      ==> Run(start, HEARTBEAT_TIMEOUT, beats).closed == None)
      <==> reply <= HEARTBEAT_TIMEOUT
  {
    AccuracyExact(HEARTBEAT_TIMEOUT, HEARTBEAT_INTERVAL, reply);
  }

  /**
   Late ticks cost reply time, exactly: with punctual ticks replies within 10 s are in time, but as soon
   as ticks may be late at all, reply time and lateness together must not exceed 5001 ms.
   */
  lemma ServiceAccuracyWithJitter(jitter: nat, reply: nat)
    requires reply > 0 && HEARTBEAT_INTERVAL + jitter + reply <= U64_RANGE
    ensures (forall start, base, beats ::
      Answering(start, HEARTBEAT_TIMEOUT, base, HEARTBEAT_INTERVAL, jitter, reply, beats)
      ==> Run(start, HEARTBEAT_TIMEOUT, beats).closed == None)
      <==> if jitter == 0 then reply <= HEARTBEAT_TIMEOUT else reply + jitter <= HEARTBEAT_INTERVAL + 1
  {
    AccuracyExactWithJitter(HEARTBEAT_TIMEOUT, HEARTBEAT_INTERVAL, jitter, reply);
    hide Answering, Run;
  }

  /** Never closed, exactly, whatever the schedule: every tick finds a reception no older than the timeout. */
  lemma NeverClosedExactly(start: nat, timeout: nat, beats: seq<Beat>)
    requires Ordered(start, beats)
    ensures Run(start, timeout, beats).closed == None
      <==> forall m :: 0 <= m < |beats| && beats[m].Tick? ==> beats[m].time <= LastRecv(start, beats, m) + timeout
  {
    var _ := RunWhole(start, timeout, beats);
    hide Run, Ordered, LastRecv;
    forall m | 0 <= m < |beats|
      ensures Overdue(start, timeout, beats, m)
        <==> beats[m].Tick? && beats[m].time > LastRecv(start, beats, m) + timeout
    {
      OverdueMeans(start, timeout, beats, m);
    }
  }

  /** A closure is never early and never late: it comes after the timeout and within one more interval and the jitter. */
  lemma DetectionLatency(start: nat, timeout: nat, base: nat, interval: nat, jitter: nat, beats: seq<Beat>)
    requires Ordered(start, beats) && Scheduled(start, base, interval, jitter, beats)
    requires Run(start, timeout, beats).closed.Some?
    ensures var c := Run(start, timeout, beats).closed.value;
      c.lastRecv + timeout < c.at <= c.lastRecv + timeout + interval + jitter
  {
    hide Run, Overdue, LastRecv, Ordered;
    var m := RunWhole(start, timeout, beats);
    OverdueMeans(start, timeout, beats, m);
    LastRecvBounds(start, beats, m);
    if Ticks(beats, m) == 0 {
      assert Ticks(beats, m) * interval == 0;
    } else {
      var i := PreviousTick(start, timeout, base, interval, jitter, beats, m);
      LastRecvGrows(start, beats, i, m);
      OverdueMeans(start, timeout, beats, i);
    }
  }

  /** A tick later than the last reception and the timeout leaves the session closed, by then in time. */
  lemma LateTickCloses(start: nat, timeout: nat, base: nat, interval: nat, jitter: nat, beats: seq<Beat>, m: nat)
    requires Ordered(start, beats) && Scheduled(start, base, interval, jitter, beats)
    requires m < |beats| && beats[m].Tick? && beats[m].time > LastRecv(start, beats, m) + timeout
    ensures var closed := Run(start, timeout, beats).closed;
      && closed.Some?
      && closed.value.lastRecv + timeout < closed.value.at <= closed.value.lastRecv + timeout + interval + jitter
  {
    hide Run, Ordered, Scheduled, LastRecv;
    NeverClosedExactly(start, timeout, beats);
    DetectionLatency(start, timeout, base, interval, jitter, beats);
  }

  /** Two ticks in a row are at most one interval and the jitter apart. */
  lemma PreviousTick(start: nat, timeout: nat, base: nat, interval: nat, jitter: nat, beats: seq<Beat>, m: nat)
    returns (i: nat)
    requires Ordered(start, beats) && Scheduled(start, base, interval, jitter, beats)
    requires m < |beats| && beats[m].Tick? && Ticks(beats, m) > 0
    ensures i < m && beats[i].Tick? && beats[m].time <= beats[i].time + interval + jitter
  {
    var n := Ticks(beats, m);
    i := FindTick(beats, m, n - 1);
    MulMonotone(1, n, interval);
  }

  lemma {:induction false} LastRecvGrows(start: nat, beats: seq<Beat>, i: nat, m: nat)
    requires Ordered(start, beats) && i <= m <= |beats|
    ensures LastRecv(start, beats, i) <= LastRecv(start, beats, m)
  {
    if i < m {
      LastRecvGrows(start, beats, i, m - 1);
      LastRecvBounds(start, beats, m - 1);
    }
  }

  /** Completeness, exactly: a session that falls silent is closed if and only if a tick comes after its timeout. */
  lemma SilenceDetected(start: nat, timeout: nat, beats: seq<Beat>, k: nat)
    requires Ordered(start, beats) && k <= |beats|
    requires forall i :: k <= i < |beats| ==> beats[i].Tick?
    requires Run(start, timeout, beats[..k]).closed.None?
    ensures Run(start, timeout, beats).closed.Some?
      <==> exists m :: k <= m < |beats| && beats[m].time > LastRecv(start, beats, k) + timeout
  {
    var _ := RunWhole(start, timeout, beats);
    var _ := RunPrefix(start, timeout, beats, k);
    forall m | k <= m < |beats|
      ensures Overdue(start, timeout, beats, m) <==> beats[m].time > LastRecv(start, beats, k) + timeout
    {
      OverdueMeans(start, timeout, beats, m);
      SameLastRecv(start, beats, k, m);
    }
  }

  lemma {:induction false} SameLastRecv(start: nat, beats: seq<Beat>, k: nat, m: nat)
    requires k <= m <= |beats| && forall i :: k <= i < m ==> beats[i].Tick?
    ensures LastRecv(start, beats, m) == LastRecv(start, beats, k)
  {
    if k < m {
      SameLastRecv(start, beats, k, m - 1);
    }
  }

  // ----- the detector inside the registry of Lifecycle -----

  /** When the k-th session was accepted. */
  function StartTime(events: seq<Lifecycle.Event>, k: nat): nat
    decreases |events|
  {
    if events == [] then 0
    else
      var n := |events| - 1;
      if events[n].Accept? && |Lifecycle.Run(events[..n]).conns| == k then events[n].now
      else StartTime(events[..n], k)
  }

  /** What an event is to the k-th session. */
  function BeatOf(w: Lifecycle.World, e: Lifecycle.Event, k: nat): seq<Beat> {
    if k >= |w.conns| || !Lifecycle.Enabled(w, e) then []
    else if e.ReadOk? && e.i == k then [Recv(e.now)]
    else if e.Tick? && k in w.registry.Values then [Tick(e.now)]
    else []
  }

  function Beats(events: seq<Lifecycle.Event>, k: nat): seq<Beat>
    decreases |events|
  {
    if events == [] then []
    else
      var n := |events| - 1;
      Beats(events[..n], k) + BeatOf(Lifecycle.Run(events[..n]), events[n], k)
  }

  predicate SameTimeout(events: seq<Lifecycle.Event>, timeout: nat) {
    forall i :: 0 <= i < |events| && events[i].Tick? ==> events[i].timeout == timeout
  }

  /** The k-th session agrees with a detector: nothing but the heartbeat and ForceDisconnect closes its socket. */
  predicate Agrees(c: Lifecycle.Conn, d: Detector) {
    c.lastRecv == d.lastRecv && (c.open ==> d.closed.None?) && (!c.open ==> d.closed.Some? || c.forced)
  }

  lemma StepAgrees(w: Lifecycle.World, e: Lifecycle.Event, k: nat, d: Detector, timeout: nat)
    requires k < |w.conns| && Agrees(w.conns[k], d)
    requires e.Tick? ==> e.timeout == timeout
    ensures k < |Lifecycle.Step(w, e).conns|
    ensures Agrees(Lifecycle.Step(w, e).conns[k],
      if BeatOf(w, e, k) == [] then d else Step(d, timeout, BeatOf(w, e, k)[0]))
  {
    if Lifecycle.Enabled(w, e) {
      match e
      case Accept(_) =>
      case Tick(_, _, _) =>
      case _ =>
        if e.i == k {
          ConnStepAgrees(w.conns[k], e, d);
        }
        hide Lifecycle.ConnStep, Agrees;
    }
  }

  /** Of the events of a session only a reception and a first ForceDisconnect concern its detector. */
  lemma ConnStepAgrees(c: Lifecycle.Conn, e: Lifecycle.Event, d: Detector)
    requires !e.Accept? && !e.Tick? && Agrees(c, d) && Lifecycle.Takes(c, e)
    ensures Agrees(Lifecycle.ConnStep(c, e), if e.ReadOk? then d.(lastRecv := e.now) else d)
  {
  }

  lemma RunBeat(start: nat, timeout: nat, beats: seq<Beat>, more: seq<Beat>)
    requires |more| <= 1
    ensures Run(start, timeout, beats + more)
      == if more == [] then Run(start, timeout, beats) else Step(Run(start, timeout, beats), timeout, more[0])
  {
    if more == [] {
      assert beats + more == beats;
    } else {
      assert (beats + more)[..|beats|] == beats;
    }
  }

  /** In every run of the registry, each session behaves as a detector of its own. */
  lemma {:induction false} Projection(events: seq<Lifecycle.Event>, k: nat, timeout: nat)
    requires SameTimeout(events, timeout) && k < |Lifecycle.Run(events).conns|
    ensures Agrees(Lifecycle.Run(events).conns[k], Run(StartTime(events, k), timeout, Beats(events, k)))
    decreases |events|
  {
    hide Lifecycle.Step, Step, Agrees;
    var n := |events| - 1;
    var w := Lifecycle.Run(events[..n]);
    if k < |w.conns| {
      Projection(events[..n], k, timeout);
      StepAgrees(w, events[n], k, Run(StartTime(events[..n], k), timeout, Beats(events[..n], k)), timeout);
      RunBeat(StartTime(events, k), timeout, Beats(events[..n], k), BeatOf(w, events[n], k));
    } else {
      NoBeats(events[..n], k);
      AcceptAgrees(w, events[n], k);
    }
  }

  /** The event that brings in the k-th session accepts it: it starts as a fresh detector. */
  lemma AcceptAgrees(w: Lifecycle.World, e: Lifecycle.Event, k: nat)
    requires k >= |w.conns| && k < |Lifecycle.Step(w, e).conns|
    ensures e.Accept? && |w.conns| == k && BeatOf(w, e, k) == []
    ensures Agrees(Lifecycle.Step(w, e).conns[k], Detector(e.now, None))
  {
  }

  lemma {:induction false} NoBeats(events: seq<Lifecycle.Event>, k: nat)
    requires k >= |Lifecycle.Run(events).conns|
    ensures Beats(events, k) == []
    decreases |events|
  {
    if events != [] {
      var n := |events| - 1;
      Lifecycle.RunInv(events[..n]);
      if k < |Lifecycle.Run(events[..n]).conns| {
        Lifecycle.StepKeeps(Lifecycle.Run(events[..n]), events[n], k);
      }
      NoBeats(events[..n], k);
    }
  }

  /**
   In the full registry, exactly: the socket of a session that nobody forces is open if and only if
   something still holds the session and every tick found a reception no older than the timeout.
   Completed reads of no bytes count as receptions.
   */
  lemma OpenExactlyWhileReceiving(events: seq<Lifecycle.Event>, k: nat, timeout: nat)
    requires SameTimeout(events, timeout) && k < |Lifecycle.Run(events).conns|
    requires Ordered(StartTime(events, k), Beats(events, k)) && !Lifecycle.Run(events).conns[k].forced
    ensures var start, beats := StartTime(events, k), Beats(events, k);
      Lifecycle.SocketOpenAt(events, k) <==> (Lifecycle.HeldAt(events, k)
        && forall m :: 0 <= m < |beats| && beats[m].Tick? ==> beats[m].time <= LastRecv(start, beats, m) + timeout)
  {
    hide Lifecycle.Run, Run, Ordered, Beats, StartTime, LastRecv;
    Projection(events, k, timeout);
    NeverClosedExactly(StartTime(events, k), timeout, Beats(events, k));
  }

  /**
   In the full registry, late ticks included: a session whose pings are all answered in time is never
   closed by the heartbeat: unless someone forces it, its socket is open as long as anything holds it.
   */
  lemma PromptSessionStaysOpen(events: seq<Lifecycle.Event>, k: nat, timeout: nat, base: nat, interval: nat,
                               jitter: nat, reply: nat)
    requires SameTimeout(events, timeout) && k < |Lifecycle.Run(events).conns|
    requires Answering(StartTime(events, k), timeout, base, interval, jitter, reply, Beats(events, k))
    requires interval > 0 && reply > 0 && WorstGap(interval, jitter, reply) <= timeout
    ensures !Lifecycle.Run(events).conns[k].forced ==>
      Lifecycle.Run(events).conns[k].open && (Lifecycle.SocketOpenAt(events, k) <==> Lifecycle.HeldAt(events, k))
  {
    hide Lifecycle.Run, Run, Answering, Beats, StartTime, WorstGap;
    Projection(events, k, timeout);
    InTimeNeverClosed(StartTime(events, k), timeout, base, interval, jitter, reply, Beats(events, k));
  }

  /**
   The k-th session is registered with its socket closed, and one read is pending that can complete
   with an error; that takes the session out of the registry and calls OnDisconnected for the first time.
   */
  predicate CanLeave(w: Lifecycle.World, k: nat) {
    && k < |w.conns| && !w.conns[k].open && w.conns[k].id in w.registry
    && Lifecycle.Enabled(w, Lifecycle.ReadFailed(k))
    && w.conns[k].id !in Lifecycle.Step(w, Lifecycle.ReadFailed(k)).registry
    && Lifecycle.Step(w, Lifecycle.ReadFailed(k)).conns[k].calls == 1
  }

  lemma RegisteredCanLeave(events: seq<Lifecycle.Event>, k: nat)
    requires k < |Lifecycle.Run(events).conns| < U32_RANGE
    requires !Lifecycle.Run(events).conns[k].Ended() && !Lifecycle.Run(events).conns[k].open
    ensures CanLeave(Lifecycle.Run(events), k)
  {
    Lifecycle.RunInv(events);
    hide Lifecycle.Run;
  }

  /**
   In the full registry: a session still registered that has received nothing since its j-th beat, and
   has met a tick later than its last reception plus the timeout, is closed and can leave.
   */
  lemma SilentSessionLeaves(events: seq<Lifecycle.Event>, k: nat, timeout: nat, j: nat, m: nat)
    requires SameTimeout(events, timeout) && k < |Lifecycle.Run(events).conns| < U32_RANGE
    requires !Lifecycle.Run(events).conns[k].Ended()
    requires var beats, start := Beats(events, k), StartTime(events, k);
      && Ordered(start, beats) && j <= m < |beats|
      && (forall i :: j <= i < |beats| ==> beats[i].Tick?)
      && beats[m].time > LastRecv(start, beats, j) + timeout
    ensures CanLeave(Lifecycle.Run(events), k)
  {
    hide Lifecycle.Run, Run, Beats, StartTime, CanLeave;
    var beats, start := Beats(events, k), StartTime(events, k);
    Projection(events, k, timeout);
    var _ := RunWhole(start, timeout, beats);
    var _ := RunPrefix(start, timeout, beats, j);
    if Run(start, timeout, beats).closed.None? {
      SilenceDetected(start, timeout, beats, j);
    }
    RegisteredCanLeave(events, k);
  }
}

/** The drain rule on a lossless, in-order transport: may the receive thread give up early?

    Message k is sent at a[k] and reaches the receiver at b[k]. A receive call that finds nothing
    for `timeout` returns TimedOut; the thread then stops if it sees that all sends are done. The
    thread may be held up by at most `pause` between its last look for a message and that. */
module Drain {
  import opened Basics
  import opened Schedule
  import opened Pacing
  import opened Scenario
  import opened InOrder
  import opened Transport

  datatype Call = Call(start: nat, end: nat, got: bool)

  function Got(calls: seq<Call>, n: nat): nat
    requires n <= |calls|
  {
    if n == 0 then 0 else Got(calls, n - 1) + if calls[n - 1].got then 1 else 0
  }

  /** Nothing is lost, nothing overtakes, nothing takes longer than `delay`. */
  ghost predicate Delivers(a: seq<nat>, b: seq<nat>, delay: nat) {
    && |a| == |b|
    && (forall k :: 0 <= k < |a| ==> a[k] <= b[k] <= a[k] + delay)
    && (forall i, j :: 0 <= i <= j < |b| ==> b[i] <= b[j])
  }

  /** Call `n` follows the one before. It returns the next message once that is in, or else times
      out, having waited `timeout`; the message was not in when the call last looked. `end` is when
      the thread goes on, at most `pause` after that look. */
  ghost predicate CallReturns(calls: seq<Call>, b: seq<nat>, begin: nat, timeout: nat, pause: nat, n: nat)
    requires n < |calls|
  {
    var c, k := calls[n], Got(calls, n);
    && (if n == 0 then begin else calls[n - 1].end) <= c.start <= c.end
    && k < |b|
    && if c.got then b[k] <= c.end else c.start + timeout <= c.end <= b[k] + pause
  }

  /** The calls the receive thread makes, one after the other, while messages are missing. */
  ghost predicate Receives(calls: seq<Call>, b: seq<nat>, begin: nat, timeout: nat, pause: nat) {
    forall n :: 0 <= n < |calls| ==> CallReturns(calls, b, begin, timeout, pause, n)
  }

  lemma {:induction false} EarlierMessageIsIn(
    calls: seq<Call>, b: seq<nat>, begin: nat, timeout: nat, pause: nat, n: nat)
    requires Receives(calls, b, begin, timeout, pause) && n < |calls|
    ensures begin <= calls[n].start
    ensures Got(calls, n) > 0 ==> Got(calls, n) <= |b| && b[Got(calls, n) - 1] <= calls[n].start
  {
    assert CallReturns(calls, b, begin, timeout, pause, n);
    if n > 0 {
      assert CallReturns(calls, b, begin, timeout, pause, n - 1);
      EarlierMessageIsIn(calls, b, begin, timeout, pause, n - 1);
    }
  }

  // ------------------------------------------- what the receive thread counts

  /** The call results a sequence of calls hands to the receive thread: a call that got a message
      carries the next one off the wire; one that timed out finds the flag set if it ended at or
      after `done`. */
  function Script(calls: seq<Call>, wire: seq<Bytes>, done: nat): (events: seq<RxEvent>)
    requires forall n :: 0 <= n < |calls| ==> Got(calls, n) < |wire|
    ensures |events| == |calls|
    ensures forall n :: 0 <= n < |calls| ==>
              events[n] == if calls[n].got then Arrived(wire[Got(calls, n)], calls[n].end)
                           else Quiet(done <= calls[n].end)
  {
    seq(|calls|, n requires 0 <= n < |calls| && Got(calls, n) < |wire| =>
      if calls[n].got then Arrived(wire[Got(calls, n)], calls[n].end) else Quiet(done <= calls[n].end))
  }

  /** The messages of the first `n` calls are the wire up to there. */
  lemma {:induction false} ScriptFollowsTheWire(calls: seq<Call>, wire: seq<Bytes>, done: nat, n: nat)
    requires n <= |calls| && forall i :: 0 <= i < |calls| ==> Got(calls, i) < |wire|
    ensures Got(calls, n) <= |wire|
    ensures Arrivals(Script(calls, wire, done)[..n]) == wire[..Got(calls, n)]
  {
    if n > 0 {
      var events := Script(calls, wire, done);
      ScriptFollowsTheWire(calls, wire, done, n - 1);
      assert Got(calls, n - 1) < |wire|;
      ArrivalsOfPrefix(events, n);
      if calls[n - 1].got {
        OneMoreOfTheWire(wire, Got(calls, n - 1));
      }
    }
  }

  lemma OneMoreOfTheWire(wire: seq<Bytes>, k: nat)
    requires k < |wire|
    ensures wire[..k] + [wire[k]] == wire[..k + 1]
  {
  }

  /** Some call timed out and found the flag set. */
  ghost predicate FallsShort(calls: seq<Call>, done: nat) {
    exists n :: 0 <= n < |calls| && !calls[n].got && done <= calls[n].end
  }

  lemma ScriptsHaveHeaders(calls: seq<Call>, b: seq<nat>, begin: nat, timeout: nat, pause: nat,
                           wire: seq<Bytes>, msgSize: nat, done: nat)
    requires Receives(calls, b, begin, timeout, pause) && IsWire(wire, msgSize) && |wire| == |b|
    ensures forall n :: 0 <= n < |calls| ==> Got(calls, n) < |wire|
    ensures forall e :: e in Script(calls, wire, done) ==> HasHeader(e) && (e.Arrived? || e.Quiet?)
  {
    forall n | 0 <= n < |calls|
      ensures Got(calls, n) < |wire| && |wire[Got(calls, n)]| >= SEQ_HEADER_BYTES
    {
      assert CallReturns(calls, b, begin, timeout, pause, n);
      assert IsMessage(wire[Got(calls, n)], Got(calls, n), msgSize);
    }
  }

  /** A run that falls short ends with the drain break and reports fewer received than sent. */
  lemma ShortRunIsReported(
    calls: seq<Call>, b: seq<nat>, begin: nat, timeout: nat, pause: nat,
    wire: seq<Bytes>, msgSize: nat, done: nat, plan: Plan)
    requires Receives(calls, b, begin, timeout, pause) && FallsShort(calls, done)
    requires IsWire(wire, msgSize) && |wire| == |b| == plan.total
    ensures forall n :: 0 <= n < |calls| ==> Got(calls, n) < |wire|
    ensures forall e :: e in Script(calls, wire, done) ==> HasHeader(e)
    ensures var r := Collect(Script(calls, wire, done), plan, NOTHING_YET);
            r.exit == Drained && r.received < plan.total
  {
    ScriptsHaveHeaders(calls, b, begin, timeout, pause, wire, msgSize, done);
    var events := Script(calls, wire, done);
    var n :| 0 <= n < |calls| && !calls[n].got && done <= calls[n].end;
    ScriptFollowsTheWire(calls, wire, done, n);
    QuietDrains(events, n, plan, NOTHING_YET);
  }

  /** The sample of message `k` beyond the warmup is the time from its intended send to the end of the
      call that returned it. */
  ghost predicate SampledCall(latencies: seq<nat>, c: Call, k: nat, plan: Plan) {
    c.got && k >= plan.warmup ==>
      && k - plan.warmup < |latencies|
      && Clamped(latencies[k - plan.warmup], c.end - (plan.start + k * plan.interval))
  }

  ghost predicate SampledWhenReturned(latencies: seq<nat>, calls: seq<Call>, plan: Plan) {
    forall n :: 0 <= n < |calls| ==> SampledCall(latencies, calls[n], Got(calls, n), plan)
  }

  lemma CallIsSampled(
    calls: seq<Call>, wire: seq<Bytes>, msgSize: nat, done: nat, plan: Plan, events: seq<RxEvent>, n: nat)
    requires n < |calls| && forall i :: 0 <= i < |calls| ==> Got(calls, i) < |wire|
    requires events == Script(calls, wire, done)
    requires forall e :: e in events ==> HasHeader(e) && (e.Arrived? || e == Quiet(false))
    requires IsWire(wire, msgSize) && Arrivals(events) <= wire && |wire| == plan.total
    ensures SampledCall(Collect(events, plan, NOTHING_YET).latencies, calls[n], Got(calls, n), plan)
  {
    if calls[n].got {
      ScriptFollowsTheWire(calls, wire, done, n);
      ArrivalIsSampled(events, n, calls[n], Got(calls, n), plan, wire, msgSize);
    }
  }

  lemma ArrivalIsSampled(
    events: seq<RxEvent>, n: nat, c: Call, k: nat, plan: Plan, wire: seq<Bytes>, msgSize: nat)
    requires forall e :: e in events ==> HasHeader(e) && (e.Arrived? || e == Quiet(false))
    requires IsWire(wire, msgSize) && Arrivals(events) <= wire && |wire| == plan.total
    requires n < |events| && events[n].Arrived? && events[n].at == c.end
    requires k < |wire| && Arrivals(events[..n]) == wire[..k]
    ensures SampledCall(Collect(events, plan, NOTHING_YET).latencies, c, k, plan)
  {
    assert wire[0..] == wire;
    LatencyOfTheNth(events, n, plan, NOTHING_YET, wire, msgSize);
  }

  /** A run that does not takes every message in as it comes: the call that completes `total` is its
      last, and by then it has measured all but the warmup. */
  lemma OtherRunsAreComplete(
    calls: seq<Call>, b: seq<nat>, begin: nat, timeout: nat, pause: nat,
    wire: seq<Bytes>, msgSize: nat, done: nat, plan: Plan)
    requires Receives(calls, b, begin, timeout, pause) && !FallsShort(calls, done)
    requires IsWire(wire, msgSize) && |wire| == |b| == plan.total && plan.warmup <= plan.total
    ensures forall n :: 0 <= n < |calls| ==> Got(calls, n) < |wire|
    ensures forall e :: e in Script(calls, wire, done) ==> HasHeader(e)
    ensures var r := Collect(Script(calls, wire, done), plan, NOTHING_YET);
            && r.received == Got(calls, |calls|) <= plan.total
            && r.exit == (if r.received == plan.total then Complete else Waiting)
            && (r.received == plan.total ==> r.measured == |r.latencies| == plan.total - plan.warmup)
            && SampledWhenReturned(r.latencies, calls, plan)
  {
    ScriptsHaveHeaders(calls, b, begin, timeout, pause, wire, msgSize, done);
    var events := Script(calls, wire, done);
    ScriptFollowsTheWire(calls, wire, done, |calls|);
    assert events[..|calls|] == events;
    if calls != [] {
      assert Got(calls, |calls| - 1) < |wire|;
    }
    forall e | e in events
      ensures e != Quiet(true)
    {
      var n :| 0 <= n < |events| && events[n] == e;
      assert calls[n].got || calls[n].end < done;
    }
    QuietNeverEnds(events, plan, NOTHING_YET);
    InOrderAccounting(events, plan, wire, msgSize);
    forall n | 0 <= n < |calls|
      ensures SampledCall(Collect(events, plan, NOTHING_YET).latencies, calls[n], Got(calls, n), plan)
    {
      CallIsSampled(calls, wire, msgSize, done, plan, events, n);
    }
  }

  // ------------------------------------------------------- bounded silences

  ghost predicate GapWithin(a: seq<nat>, begin: nat, gap: nat, k: nat)
    requires k < |a|
  {
    a[k] <= (if k == 0 then begin else a[k - 1]) + gap
  }

  /** Message 0 leaves at most `gap` after the receive thread began, every later one at most `gap`
      after its predecessor. */
  ghost predicate GapsWithin(a: seq<nat>, begin: nat, gap: nat) {
    forall k :: 0 <= k < |a| ==> GapWithin(a, begin, gap, k)
  }

  /** When a gap, a delivery and a pause together stay below the timeout, no call times out while a
      message is missing. */
  lemma NoCallTimesOut(
    a: seq<nat>, b: seq<nat>, calls: seq<Call>, begin: nat, gap: nat, delay: nat, timeout: nat, pause: nat, n: nat)
    requires Delivers(a, b, delay) && GapsWithin(a, begin, gap) && Receives(calls, b, begin, timeout, pause)
    requires gap + delay + pause < timeout && n < |calls|
    ensures calls[n].got
  {
    var k := Got(calls, n);
    EarlierMessageIsIn(calls, b, begin, timeout, pause, n);
    assert CallReturns(calls, b, begin, timeout, pause, n);
    assert GapWithin(a, begin, gap, k);
    if k > 0 {
      assert a[k - 1] <= b[k - 1];
    }
    assert b[k] <= a[k] + delay;
  }

  lemma {:induction false} EveryCallCounts(
    a: seq<nat>, b: seq<nat>, calls: seq<Call>, begin: nat, gap: nat, delay: nat, timeout: nat, pause: nat, n: nat)
    requires Delivers(a, b, delay) && GapsWithin(a, begin, gap) && Receives(calls, b, begin, timeout, pause)
    requires gap + delay + pause < timeout && n <= |calls|
    ensures Got(calls, n) == n
  {
    if n > 0 {
      EveryCallCounts(a, b, calls, begin, gap, delay, timeout, pause, n - 1);
      NoCallTimesOut(a, b, calls, begin, gap, delay, timeout, pause, n - 1);
    }
  }

  /** For any sender whose silences are bounded so, the receive thread takes one message with every
      call; the call that completes `total` is its last, and it has measured all but the warmup. */
  lemma LosslessRunIsComplete(
    a: seq<nat>, b: seq<nat>, calls: seq<Call>, begin: nat, gap: nat, delay: nat, timeout: nat, pause: nat,
    wire: seq<Bytes>, msgSize: nat, done: nat, plan: Plan)
    requires Delivers(a, b, delay) && GapsWithin(a, begin, gap) && Receives(calls, b, begin, timeout, pause)
    requires gap + delay + pause < timeout
    requires IsWire(wire, msgSize) && |wire| == |b| == plan.total && plan.warmup <= plan.total
    ensures |calls| <= plan.total
    ensures forall n :: 0 <= n < |calls| ==> Got(calls, n) < |wire|
    ensures forall e :: e in Script(calls, wire, done) ==> HasHeader(e)
    ensures var r := Collect(Script(calls, wire, done), plan, NOTHING_YET);
            && r.received == |calls| && r.exit == (if |calls| == plan.total then Complete else Waiting)
            && (|calls| == plan.total ==>
                  r.received == plan.total && r.measured == |r.latencies| == plan.total - plan.warmup)
  {
    forall n | 0 <= n < |calls|
      ensures calls[n].got
    {
      NoCallTimesOut(a, b, calls, begin, gap, delay, timeout, pause, n);
    }
    EveryCallCounts(a, b, calls, begin, gap, delay, timeout, pause, |calls|);
    OtherRunsAreComplete(calls, b, begin, timeout, pause, wire, msgSize, done, plan);
  }

  // ------------------------------------------- the exact bound for paced runs

  /** What the machine and the transport allow: the longest send, the lateness of a wait, the delivery
      delay, the pause before a timeout takes effect, and how long after the receive thread the
      sender's loop may begin. */
  datatype Limits = Limits(slowest: nat, late: nat, delay: nat, pause: nat, spinUp: nat)

  /** A run: sends at `a` taking `s`, the sender's loop ready at `ready` for a schedule from `start`
      on; deliveries at `b`; receive calls from `begin` on; the flag set at `done`. */
  datatype Run = Run(
    a: seq<nat>, s: seq<nat>, start: nat, ready: nat, b: seq<nat>, calls: seq<Call>, begin: nat, done: nat)

  /** A run of `total` sends at `interval` over a lossless, in-order transport. Both threads begin after
      the schedule was fixed, LEAD before its start. */
  ghost predicate IsPacedRun(r: Run, total: nat, interval: nat, lim: Limits) {
    && |r.a| == total <= |r.s|
    && Paced(r.a, r.s, r.start, interval, r.ready, lim.late)
    && r.start <= r.begin + LEAD && r.start <= r.ready + LEAD && r.ready <= r.begin + lim.spinUp
    && (forall k :: 0 <= k < total ==> r.s[k] <= lim.slowest)
    && Delivers(r.a, r.b, lim.delay) && Receives(r.calls, r.b, r.begin, RECV_TIMEOUT, lim.pause)
    && (total > 0 ==> r.a[total - 1] + r.s[total - 1] <= r.done)
  }

  /** The receive thread loses no time: each call starts where the one before ended, ends with the
      message's arrival, and otherwise times out exactly when it may. */
  ghost predicate Prompt(r: Run) {
    forall n :: 0 <= n < |r.calls| ==> PromptCall(r, n)
  }

  ghost predicate PromptCall(r: Run, n: nat)
    requires n < |r.calls|
  {
    var c, k := r.calls[n], Got(r.calls, n);
    && c.start == (if n == 0 then r.begin else r.calls[n - 1].end)
    && k < |r.b|
    && if c.got then c.end == Max(c.start, r.b[k]) <= c.start + RECV_TIMEOUT else c.end == c.start + RECV_TIMEOUT
  }

  ghost predicate SomeRunFallsShort(total: nat, interval: nat, lim: Limits) {
    exists r :: IsPacedRun(r, total, interval, lim) && FallsShort(r.calls, r.done)
  }

  ghost predicate SomePromptRunFallsShort(total: nat, interval: nat, lim: Limits) {
    exists r :: IsPacedRun(r, total, interval, lim) && Prompt(r) && FallsShort(r.calls, r.done)
  }

  function Slack(lim: Limits): nat {
    lim.late + lim.delay + lim.pause
  }

  /** Three ways to miss a message: both threads are up, but the sender's later than the timeout
      bears; the whole schedule fits between its first target and the late arrival of its first
      message; or a later message is overdue by an interval or a slow send. */
  predicate CanFallShort(total: nat, interval: nat, lim: Limits) {
    && total > 0
    && (|| RECV_TIMEOUT <= lim.spinUp + Slack(lim)
        || (RECV_TIMEOUT <= LEAD + Slack(lim) && (total - 1) * interval <= Slack(lim))
        || (total > 1 && RECV_TIMEOUT <= Max(interval, lim.slowest) + Slack(lim)))
  }

  /** A call can time out on a message after the first only if that is overdue. */
  lemma LaterMessageOverdue(r: Run, total: nat, interval: nat, lim: Limits, n: nat)
    requires IsPacedRun(r, total, interval, lim) && n < |r.calls| && !r.calls[n].got && Got(r.calls, n) > 0
    ensures total > 1 && RECV_TIMEOUT <= Max(interval, lim.slowest) + Slack(lim)
  {
    var k := Got(r.calls, n);
    EarlierMessageIsIn(r.calls, r.b, r.begin, RECV_TIMEOUT, lim.pause, n);
    assert CallReturns(r.calls, r.b, r.begin, RECV_TIMEOUT, lim.pause, n);
    assert r.b[k] <= r.a[k] + lim.delay && r.a[k - 1] <= r.b[k - 1] && r.s[k - 1] <= lim.slowest;
    GapsAreBounded(r.a, r.s, r.start, interval, r.ready, lim.late, k - 1);
  }

  /** On the first message it can if the sender is late, or if the lead is long enough; the call then
      ends at most the slack after the schedule's start. */
  lemma FirstMessageOverdue(r: Run, total: nat, interval: nat, lim: Limits, n: nat)
    requires IsPacedRun(r, total, interval, lim) && n < |r.calls| && !r.calls[n].got && Got(r.calls, n) == 0
    ensures total > 0
    ensures || RECV_TIMEOUT <= lim.spinUp + Slack(lim)
            || (RECV_TIMEOUT <= LEAD + Slack(lim) && r.calls[n].end <= r.start + Slack(lim))
  {
    EarlierMessageIsIn(r.calls, r.b, r.begin, RECV_TIMEOUT, lim.pause, n);
    assert CallReturns(r.calls, r.b, r.begin, RECV_TIMEOUT, lim.pause, n);
    assert r.b[0] <= r.a[0] + lim.delay;
    assert r.a[0] <= Due(r.a, r.s, r.start, interval, r.ready, 0) + lim.late;
    assert Target(r.start, 0, interval) == r.start;
  }

  /** Otherwise every call that times out does so before the last send has returned. */
  lemma TimeoutsComeBeforeDone(r: Run, total: nat, interval: nat, lim: Limits, n: nat)
    requires IsPacedRun(r, total, interval, lim) && !CanFallShort(total, interval, lim)
    requires n < |r.calls| && !r.calls[n].got
    ensures r.calls[n].end < r.done
  {
    if Got(r.calls, n) > 0 {
      LaterMessageOverdue(r, total, interval, lim, n);
    } else {
      FirstMessageOverdue(r, total, interval, lim, n);
      NeverBeforeItsTarget(r, total, interval, lim, total - 1);
    }
  }

  lemma NeverBeforeItsTarget(r: Run, total: nat, interval: nat, lim: Limits, k: nat)
    requires IsPacedRun(r, total, interval, lim) && k < total
    ensures r.start + k * interval <= r.a[k]
  {
    assert Due(r.a, r.s, r.start, interval, r.ready, k) <= r.a[k];
  }

  /** The drain rule's exact bound, for the schedule of any configuration: some run of it reports fewer
      messages than were sent if and only if the condition holds, and then one does in which the
      receive thread is never idle and never late. */
  lemma DrainFallsShortExactly(rate: Positive, warmup: nat, duration: nat, lim: Limits)
    ensures var total, interval := TotalMsgs(rate, warmup, duration), IntervalNs(rate);
            && (SomeRunFallsShort(total, interval, lim) <==> CanFallShort(total, interval, lim))
            && (SomePromptRunFallsShort(total, interval, lim) <==> CanFallShort(total, interval, lim))
  {
    var total, interval := TotalMsgs(rate, warmup, duration), IntervalNs(rate);
    IntervalWithinTheTimeout(rate);
    if CanFallShort(total, interval, lim) {
      PromptRunFallsShort(total, interval, lim);
    } else {
      forall r | IsPacedRun(r, total, interval, lim)
        ensures !FallsShort(r.calls, r.done)
      {
        forall n | 0 <= n < |r.calls| && !r.calls[n].got
          ensures r.calls[n].end < r.done
        {
          TimeoutsComeBeforeDone(r, total, interval, lim, n);
        }
      }
    }
  }

  lemma IntervalWithinTheTimeout(rate: Positive)
    ensures IntervalNs(rate) <= RECV_TIMEOUT
  {
  }

  lemma PromptRunFallsShort(total: nat, interval: nat, lim: Limits)
    requires CanFallShort(total, interval, lim) && interval <= RECV_TIMEOUT
    ensures SomePromptRunFallsShort(total, interval, lim)
  {
    if RECV_TIMEOUT <= lim.spinUp + Slack(lim) {
      LateSenderMissesTheFirst(total, interval, lim);
    } else if RECV_TIMEOUT <= LEAD + Slack(lim) && (total - 1) * interval <= Slack(lim) {
      LongLeadMissesTheFirst(total, interval, lim);
    } else {
      var most := Max(interval, lim.slowest) + lim.late;
      LastMessageMissed(total, interval, lim, Min(most, RECV_TIMEOUT));
    }
  }

  function Min(a: nat, b: nat): nat {
    if a < b then a else b
  }

  /** The schedule has passed before the threads begin: all messages leave at once. */
  lemma LateSenderMissesTheFirst(total: nat, interval: nat, lim: Limits)
    requires total > 0 && RECV_TIMEOUT <= lim.spinUp + Slack(lim)
    ensures SomePromptRunFallsShort(total, interval, lim)
  {
    var span := (total - 1) * interval;
    assert span >= 0;
    var begin := LEAD + span;
    var up := Min(lim.spinUp, RECV_TIMEOUT);
    FirstMessageMissed(total, interval, lim, LEAD, begin + up, begin, Min(lim.late, RECV_TIMEOUT - up));
  }

  /** The schedule starts as late as it may and still be over when the first call times out. */
  lemma LongLeadMissesTheFirst(total: nat, interval: nat, lim: Limits)
    requires total > 0 && RECV_TIMEOUT <= LEAD + Slack(lim) && (total - 1) * interval <= Slack(lim)
    ensures SomePromptRunFallsShort(total, interval, lim)
  {
    var span := (total - 1) * interval;
    assert span >= 0;
    var begin := LEAD + span;
    var start := Min(begin + LEAD, LEAD + RECV_TIMEOUT);
    FirstMessageMissed(total, interval, lim, start, start - LEAD, begin, Min(lim.late, begin + RECV_TIMEOUT - start));
  }

  /** Every message leaves on its target, or with the first one at `first` if that is later. */
  function BunchedStarts(total: nat, interval: nat, start: nat, first: nat): (a: seq<nat>)
    ensures |a| == total
  {
    seq(total, k requires 0 <= k => Max(Target(start, k, interval), first))
  }

  lemma BunchedStartsArePaced(total: nat, interval: nat, start: nat, ready: nat, l: nat, late: nat)
    requires l <= late
    ensures var a, s := BunchedStarts(total, interval, start, Max(start, ready) + l), seq(total, _ => 0);
            Paced(a, s, start, interval, ready, late)
  {
    var a, s := BunchedStarts(total, interval, start, Max(start, ready) + l), seq(total, _ => 0);
    forall k | 0 <= k < total
      ensures Due(a, s, start, interval, ready, k) <= a[k] <= Due(a, s, start, interval, ready, k) + late
    {
      if k > 0 {
        PrefixOfProduct(k - 1, k, interval);
        assert a[k - 1] == Max(Target(start, k - 1, interval), Max(start, ready) + l);
      } else {
        assert Target(start, 0, interval) == start;
      }
    }
  }

  lemma BunchedStartsAreOrdered(total: nat, interval: nat, start: nat, first: nat, i: nat, j: nat)
    requires i <= j < total
    ensures var a := BunchedStarts(total, interval, start, first); a[i] <= a[j]
  {
    PrefixOfProduct(i, j, interval);
  }

  /** The first call times out on the first message, with all messages sent. */
  lemma FirstMessageMissed(
    total: nat, interval: nat, lim: Limits, start: nat, ready: nat, begin: nat, l: nat)
    requires total > 0 && l <= lim.late
    requires start <= begin + LEAD && start <= ready + LEAD && ready <= begin + lim.spinUp
    requires start + (total - 1) * interval <= begin + RECV_TIMEOUT
    requires Max(start, ready) + l <= begin + RECV_TIMEOUT <= Max(start, ready) + l + lim.delay + lim.pause
    ensures SomePromptRunFallsShort(total, interval, lim)
  {
    var first := Max(start, ready) + l;
    var a, s := BunchedStarts(total, interval, start, first), seq(total, _ => 0);
    var b := seq(total, k requires 0 <= k < total => a[k] + lim.delay);
    var calls := [Call(begin, begin + RECV_TIMEOUT, false)];
    var r := Run(a, s, start, ready, b, calls, begin, a[total - 1]);
    BunchedStartsArePaced(total, interval, start, ready, l, lim.late);
    forall i, j | 0 <= i <= j < total
      ensures b[i] <= b[j]
    {
      BunchedStartsAreOrdered(total, interval, start, first, i, j);
    }
    assert Target(start, 0, interval) == start && a[0] == first;
    assert Got(calls, 0) == 0;
    assert CallReturns(calls, b, begin, RECV_TIMEOUT, lim.pause, 0) && PromptCall(r, 0);
    assert IsPacedRun(r, total, interval, lim) && Prompt(r);
    assert !calls[0].got && r.done <= calls[0].end;
  }

  /** All but the last message leave and arrive on target; the last follows after `gap`. */
  function LastLate(total: nat, interval: nat, gap: nat): (a: seq<nat>)
    ensures |a| == total
  {
    seq(total, k requires 0 <= k =>
      if k < total - 1 then Target(LEAD, k, interval) else Target(LEAD, if k > 0 then k - 1 else 0, interval) + gap)
  }

  /** The calls to go with it: one for each message on target, then one that times out. */
  function CallsUpToTheLast(total: nat, interval: nat): (calls: seq<Call>)
    ensures |calls| == total
  {
    seq(total, n requires 0 <= n =>
      var from := if n == 0 then 0 else Target(LEAD, n - 1, interval);
      if n < total - 1 then Call(from, Target(LEAD, n, interval), true) else Call(from, from + RECV_TIMEOUT, false))
  }

  lemma {:induction false} AllButTheLastAreGot(total: nat, interval: nat, n: nat)
    requires n < total
    ensures Got(CallsUpToTheLast(total, interval), n) == n
  {
    if n > 0 {
      AllButTheLastAreGot(total, interval, n - 1);
    }
  }

  /** The last call times out on the last message, just sent. */
  lemma LastMessageMissed(total: nat, interval: nat, lim: Limits, gap: nat)
    requires total > 1 && interval <= gap <= Max(interval, lim.slowest) + lim.late && interval <= RECV_TIMEOUT
    requires gap <= RECV_TIMEOUT <= gap + lim.delay + lim.pause
    ensures SomePromptRunFallsShort(total, interval, lim)
  {
    var slow := if lim.slowest < gap then lim.slowest else gap;
    var a, calls := LastLate(total, interval, gap), CallsUpToTheLast(total, interval);
    var s, b := OneSlowSend(total, slow), LateDelivery(total, interval, gap, lim.delay);
    var r := Run(a, s, LEAD, 0, b, calls, 0, a[total - 1]);
    forall k | 0 <= k < total
      ensures Due(a, s, LEAD, interval, 0, k) <= a[k] <= Due(a, s, LEAD, interval, 0, k) + lim.late
    {
      LastLateIsPaced(total, interval, gap, slow, lim.late, k);
    }
    LastLateIsDelivered(total, interval, gap, lim.delay);
    forall n | 0 <= n < total
      ensures CallReturns(calls, b, 0, RECV_TIMEOUT, lim.pause, n) && PromptCall(r, n)
    {
      LastCallTimesOut(r, total, interval, gap, lim, n);
    }
    assert IsPacedRun(r, total, interval, lim) && Prompt(r);
    LastTimeoutIsAfterDone(r, total, interval, gap);
  }

  function OneSlowSend(total: nat, slow: nat): (s: seq<nat>)
    ensures |s| == total
  {
    seq(total, k => if k == total - 2 then slow else 0)
  }

  function LateDelivery(total: nat, interval: nat, gap: nat, delay: nat): (b: seq<nat>)
    ensures |b| == total
  {
    var a := LastLate(total, interval, gap);
    seq(total, k requires 0 <= k < total => if k < total - 1 then a[k] else a[k] + delay)
  }

  lemma LastLateIsDelivered(total: nat, interval: nat, gap: nat, delay: nat)
    requires total > 1
    ensures Delivers(LastLate(total, interval, gap), LateDelivery(total, interval, gap, delay), delay)
  {
    var b := LateDelivery(total, interval, gap, delay);
    forall i, j | 0 <= i <= j < total
      ensures b[i] <= b[j]
    {
      if j < total - 1 {
        PrefixOfProduct(i, j, interval);
      } else if i < total - 1 {
        PrefixOfProduct(i, total - 2, interval);
      }
    }
  }

  lemma LastCallTimesOut(r: Run, total: nat, interval: nat, gap: nat, lim: Limits, n: nat)
    requires n < total && total > 1 && interval <= RECV_TIMEOUT <= gap + lim.delay + lim.pause
    requires r.calls == CallsUpToTheLast(total, interval) && r.begin == 0
    requires r.b == LateDelivery(total, interval, gap, lim.delay)
    ensures CallReturns(r.calls, r.b, 0, RECV_TIMEOUT, lim.pause, n) && PromptCall(r, n)
  {
    AllButTheLastAreGot(total, interval, n);
    assert Target(LEAD, 0, interval) == LEAD;
    if n > 0 {
      assert Target(LEAD, n, interval) == Target(LEAD, n - 1, interval) + interval;
    }
  }

  lemma LastTimeoutIsAfterDone(r: Run, total: nat, interval: nat, gap: nat)
    requires total > 1 && gap <= RECV_TIMEOUT
    requires r.calls == CallsUpToTheLast(total, interval) && r.done == LastLate(total, interval, gap)[total - 1]
    ensures FallsShort(r.calls, r.done)
  {
    assert !r.calls[total - 1].got && r.done <= r.calls[total - 1].end;
  }

  lemma LastLateIsPaced(total: nat, interval: nat, gap: nat, slow: nat, late: nat, k: nat)
    requires total > 1 && k < total && Max(interval, slow) <= gap <= Max(interval, slow) + late
    ensures var a, s := LastLate(total, interval, gap), OneSlowSend(total, slow);
            Due(a, s, LEAD, interval, 0, k) <= a[k] <= Due(a, s, LEAD, interval, 0, k) + late
  {
    if k > 0 {
      assert Target(LEAD, k, interval) == Target(LEAD, k - 1, interval) + interval;
    }
  }

  /** The sample of message `k`, sent at `sent`: how late it left plus how long it then took to come
      back, so a stalled sender shows in full. */
  ghost predicate LagPlusTransit(
    latencies: seq<nat>, c: Call, k: nat, sent: nat, start: nat, interval: nat, warmup: nat)
  {
    c.got && k >= warmup ==>
      && k - warmup < |latencies|
      && start + k * interval <= sent <= c.end
      && Clamped(latencies[k - warmup], (sent - (start + k * interval)) + (c.end - sent))
  }

  lemma LagAndTransitAddUp(latencies: seq<nat>, c: Call, k: nat, sent: nat, plan: Plan)
    requires SampledCall(latencies, c, k, plan)
    requires c.got ==> plan.start + k * plan.interval <= sent <= c.end
    ensures LagPlusTransit(latencies, c, k, sent, plan.start, plan.interval, plan.warmup)
  {
  }

  lemma EndsAfterItsSend(r: Run, total: nat, interval: nat, lim: Limits, n: nat)
    requires IsPacedRun(r, total, interval, lim) && n < |r.calls|
    ensures Got(r.calls, n) < |r.a| == total
    ensures r.calls[n].got ==> r.a[Got(r.calls, n)] <= r.calls[n].end
  {
    assert CallReturns(r.calls, r.b, r.begin, RECV_TIMEOUT, lim.pause, n);
  }

  lemma SampleIsLagPlusTransit(r: Run, interval: nat, lim: Limits, latencies: seq<nat>, plan: Plan, n: nat)
    requires IsPacedRun(r, plan.total, interval, lim) && n < |r.calls|
    requires SampledCall(latencies, r.calls[n], Got(r.calls, n), plan)
    requires plan.start == r.start && plan.interval == interval
    ensures Got(r.calls, n) < |r.a|
    ensures var k := Got(r.calls, n);
            LagPlusTransit(latencies, r.calls[n], k, r.a[k], plan.start, plan.interval, plan.warmup)
  {
    EndsAfterItsSend(r, plan.total, interval, lim, n);
    NeverBeforeItsTarget(r, plan.total, interval, lim, Got(r.calls, n));
    LagAndTransitAddUp(latencies, r.calls[n], Got(r.calls, n), r.a[Got(r.calls, n)], plan);
  }

  /** A whole benchmark run below that bound: no call that times out ends the thread; once `total`
      messages are in it is complete, with everything received and all but the warmup measured; and
      each sample is its message's send lag plus the time it then took to come back. */
  lemma PacedRunReceivesEverything(
    r: Run, interval: nat, lim: Limits, wire: seq<Bytes>, msgSize: nat, plan: Plan)
    requires IsPacedRun(r, plan.total, interval, lim) && !CanFallShort(plan.total, interval, lim)
    requires IsWire(wire, msgSize) && |wire| == plan.total && plan.warmup <= plan.total
    ensures !FallsShort(r.calls, r.done)
    ensures forall n :: 0 <= n < |r.calls| ==> Got(r.calls, n) < |wire|
    ensures forall e :: e in Script(r.calls, wire, r.done) ==> HasHeader(e)
    ensures var stats := Collect(Script(r.calls, wire, r.done), plan, NOTHING_YET);
            && stats.received == Got(r.calls, |r.calls|) <= plan.total
            && stats.exit == (if stats.received == plan.total then Complete else Waiting)
            && (stats.received == plan.total ==> stats.measured == |stats.latencies| == plan.total - plan.warmup)
            && (plan.start == r.start && plan.interval == interval ==>
                  forall n :: 0 <= n < |r.calls| ==>
                    var k := Got(r.calls, n);
                    && k < |r.a|
                    && LagPlusTransit(stats.latencies, r.calls[n], k, r.a[k], r.start, interval, plan.warmup))
  {
    forall n | 0 <= n < |r.calls| && !r.calls[n].got
      ensures r.calls[n].end < r.done
    {
      TimeoutsComeBeforeDone(r, plan.total, interval, lim, n);
    }
    OtherRunsAreComplete(r.calls, r.b, r.begin, RECV_TIMEOUT, lim.pause, wire, msgSize, r.done, plan);
    if plan.start == r.start && plan.interval == interval {
      var stats := Collect(Script(r.calls, wire, r.done), plan, NOTHING_YET);
      forall n | 0 <= n < |r.calls|
        ensures var k := Got(r.calls, n);
                && k < |r.a|
                && LagPlusTransit(stats.latencies, r.calls[n], k, r.a[k], r.start, interval, plan.warmup)
      {
        SampleIsLagPlusTransit(r, interval, lim, stats.latencies, plan, n);
      }
    }
  }

  /** At one message a second the interval equals the timeout: two sends exactly on schedule, echoed
      after 20 and 21 ms, nothing held up, and the second message is never received. */
  lemma OneMessageASecondCanLoseItsLast()
    ensures IntervalNs(1) == RECV_TIMEOUT && TotalMsgs(1, 1, 1) == 2
    ensures var r := Run([LEAD, LEAD + RECV_TIMEOUT], [0, 0], LEAD, 0,
                         [LEAD + 20_000_000, LEAD + RECV_TIMEOUT + 21_000_000],
                         [Call(0, LEAD + 20_000_000, true),
                          Call(LEAD + 20_000_000, LEAD + 20_000_000 + RECV_TIMEOUT, false)],
                         0, LEAD + RECV_TIMEOUT);
            && IsPacedRun(r, 2, IntervalNs(1), Limits(0, 0, 21_000_000, 0, 0)) && Prompt(r)
            && FallsShort(r.calls, r.done) && Got(r.calls, 2) == 1
  {
    var r := Run([LEAD, LEAD + RECV_TIMEOUT], [0, 0], LEAD, 0,
                 [LEAD + 20_000_000, LEAD + RECV_TIMEOUT + 21_000_000],
                 [Call(0, LEAD + 20_000_000, true),
                  Call(LEAD + 20_000_000, LEAD + 20_000_000 + RECV_TIMEOUT, false)],
                 0, LEAD + RECV_TIMEOUT);
    assert Got(r.calls, 0) == 0 && Got(r.calls, 1) == 1 && Got(r.calls, 2) == 1;
    assert CallReturns(r.calls, r.b, 0, RECV_TIMEOUT, 0, 0) && CallReturns(r.calls, r.b, 0, RECV_TIMEOUT, 0, 1);
    assert PromptCall(r, 0) && PromptCall(r, 1);
    assert Due(r.a, r.s, LEAD, IntervalNs(1), 0, 0) == r.a[0];
    assert Due(r.a, r.s, LEAD, IntervalNs(1), 0, 1) == r.a[1];
    assert !r.calls[1].got && r.done <= r.calls[1].end;
  }
}

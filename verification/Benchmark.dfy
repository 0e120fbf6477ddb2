/** A benchmark run as a whole: both threads. */
module Benchmark {
  import opened Basics
  import opened LittleEndian
  import opened Clock
  import opened Schedule
  import opened Pacing
  import opened Scenario
  import opened InOrder
  import opened Transport
  import Drain

  // ------------------------------------------------------------ one whole run

  /** Unfinished: the receive thread has used up its script and waits for one more call. */
  datatype Result =
    | Ran(sent: nat, received: nat, measured: nat, latencies: seq<nat>, lags: seq<nat>)
    | SendFailed | ReceiveFailed | Unfinished

  function PlanOf(rate: Positive, warmup: nat, duration: nat, start: nat): Plan {
    Plan(TotalMsgs(rate, warmup, duration), WarmupMsgs(rate, warmup), start, IntervalNs(rate))
  }

  /** `sends` scripts the transport's sending half, `events` what the receive thread's calls return.
      The ghost results are the schedule's start, the clock at each send and the wire. */
  method RunRtt(
    clock: MonotonicClock, rate: Positive, warmup: nat, duration: nat, msgSize: nat,
    sends: seq<SendResult>, events: seq<RxEvent>)
    returns (result: Result, ghost plan: Plan, ghost ready: nat, ghost starts: seq<nat>, ghost wire: seq<Bytes>)
    requires clock.Valid() && SEQ_HEADER_BYTES <= msgSize
    requires TotalMsgs(rate, warmup, duration) <= |sends| && TotalMsgs(rate, warmup, duration) <= U64_LIMIT
    requires forall e :: e in events ==> HasHeader(e)
    modifies clock
    ensures plan == PlanOf(rate, warmup, duration, ready + LEAD)
    ensures Paced(starts, Durations(sends), plan.start, plan.interval, ready, TurnLateness(clock))
    ensures TurnsAreKept(starts, sends, plan.start, plan.interval, ready, clock.oversleep, clock.tick)
    ensures IsWire(wire, msgSize) && |wire| == |starts| <= plan.total
    ensures result.SendFailed? <==> exists k :: 0 <= k < plan.total && !sends[k].ok
    ensures var r := Collect(events, plan, NOTHING_YET);
            !result.SendFailed? ==>
              && |wire| == plan.total
              && (result.ReceiveFailed? <==> r.exit == Failed) && (result.Unfinished? <==> r.exit == Waiting)
              && (result.Ran? ==>
                    && result.sent == plan.total && |result.lags| == result.sent
                    && LagsMatch(result.lags, starts, plan.start, plan.interval)
                    && result.received == r.received <= result.sent
                    && result.measured == r.measured == |result.latencies| && result.latencies == r.latencies)
  {
    var interval := IntervalNs(rate);
    var warmupMsgs := WarmupMsgs(rate, warmup);
    var total := TotalMsgs(rate, warmup, duration);
    var now := clock.Now();
    var start := now + LEAD;
    ready := now;
    plan := Plan(total, warmupMsgs, start, interval);
    var ok, begun, lags, sent := SendLoop(clock, total, start, interval, msgSize, sends);
    starts, wire := begun, sent;
    if !ok {
      return SendFailed, plan, ready, starts, wire;
    }
    var stats := ReceiveLoop(events, Plan(total, warmupMsgs, start, interval));
    Accounting(events, plan);
    match stats.exit {
      case Waiting => result := Unfinished;
      case Failed => result := ReceiveFailed;
      case _ => result := Ran(total, stats.received, stats.measured, stats.latencies, lags);
    }
  }

  /** The sender's side of a run above, over a lossless in-order transport, at limits under which the
      drain rule cannot fall short: once `total` messages are in, the run is complete, with everything
      received and all but the warmup measured, and each sample is the message's send lag plus the time
      from that send to the end of the call that returned it. */
  lemma LosslessRunMeasuresEverything(
    starts: seq<nat>, sends: seq<SendResult>, rate: Positive, warmup: nat, duration: nat, ready: nat,
    lim: Drain.Limits, wire: seq<Bytes>, msgSize: nat,
    b: seq<nat>, calls: seq<Drain.Call>, begin: nat, done: nat)
    requires var plan := PlanOf(rate, warmup, duration, ready + LEAD);
             && Paced(starts, Durations(sends), plan.start, plan.interval, ready, lim.late)
             && |starts| == |wire| == plan.total
             && !Drain.CanFallShort(plan.total, plan.interval, lim)
             && (plan.total > 0 ==> starts[plan.total - 1] + sends[plan.total - 1].took <= done)
    requires IsWire(wire, msgSize) && ready <= begin
    requires forall k :: 0 <= k < |starts| ==> sends[k].took <= lim.slowest
    requires Drain.Delivers(starts, b, lim.delay) && Drain.Receives(calls, b, begin, RECV_TIMEOUT, lim.pause)
    ensures forall n :: 0 <= n < |calls| ==> Drain.Got(calls, n) < |wire|
    ensures forall e :: e in Drain.Script(calls, wire, done) ==> HasHeader(e)
    ensures var plan := PlanOf(rate, warmup, duration, ready + LEAD);
            var r := Collect(Drain.Script(calls, wire, done), plan, NOTHING_YET);
            && r.received == Drain.Got(calls, |calls|) <= plan.total
            && r.exit == (if r.received == plan.total then Complete else Waiting)
            && (r.received == plan.total ==> r.measured == |r.latencies| == rate * duration)
            && forall n :: 0 <= n < |calls| ==>
                 var k := Drain.Got(calls, n);
                 Drain.LagPlusTransit(
                   r.latencies, calls[n], k, starts[k], ready + 10_000_000, 1_000_000_000 / rate, rate * warmup)
  {
    var plan := PlanOf(rate, warmup, duration, ready + LEAD);
    assert rate * warmup >= 0 && rate * duration >= 0;
    var run := Drain.Run(starts, Durations(sends), plan.start, ready, b, calls, begin, done);
    assert Drain.IsPacedRun(run, plan.total, plan.interval, lim);
    Drain.PacedRunReceivesEverything(run, plan.interval, lim, wire, msgSize, plan);
  }
}

/** The round-trip scenario: the paced sender loop, the receive thread, and what their counts mean
    over an arbitrary transport. */
module Scenario {
  import opened Basics
  import opened LittleEndian
  import opened Clock
  import opened Schedule
  import opened Pacing

  /** Largest duration a histogram tells apart: one hour. */
  const HIST_MAX_NS: nat := 3_600_000_000_000

  /** The value a histogram keeps for a duration: at least 1, at most an hour. */
  function Recorded(ns: nat): nat {
    if ns < 1 then 1 else if ns > HIST_MAX_NS then HIST_MAX_NS else ns
  }

  /** The sample a histogram keeps for a duration of `ns`, which may have come out negative. */
  predicate Clamped(sample: nat, ns: int) {
    && (ns < 1 ==> sample == 1)
    && (1 <= ns <= 3_600_000_000_000 ==> sample == ns)
    && (3_600_000_000_000 < ns ==> sample == 3_600_000_000_000)
  }

  function SaturatingSince(t: nat, from: nat): nat {
    if from <= t then t - from else 0
  }

  // -------------------------------------------------------------- the sender

  datatype SendResult = SendResult(took: nat, ok: bool)

  function Durations(sends: seq<SendResult>): (s: seq<nat>)
    ensures |s| == |sends|
    ensures forall k :: 0 <= k < |s| ==> s[k] == sends[k].took
  {
    seq(|sends|, k requires 0 <= k < |sends| => sends[k].took)
  }

  function Zeros(n: nat): (z: Bytes)
    ensures |z| == n
  {
    seq(n, _ => 0)
  }

  /** The lateness of one turn of the loop: the wait's own, and the second reading of the clock. */
  function TurnLateness(clock: MonotonicClock): nat {
    Lateness(clock.oversleep) + 2 * clock.tick
  }

  /** A turn at `at` that was due at `due`: never early, late by two readings of the clock and by
      what a sleep overshoots beyond 300 microseconds. */
  predicate TurnIsKept(at: nat, due: nat, oversleep: nat, tick: nat) {
    && due <= at
    && (oversleep <= 300_000 ==> at <= due + 2 * tick)
    && (oversleep > 300_000 ==> at + 300_000 <= due + oversleep + 2 * tick)
  }

  /** The wait of one turn and the clock reading its lag is taken from. */
  method WaitForTurn(clock: MonotonicClock, target: nat) returns (sent: nat)
    requires clock.Valid()
    modifies clock
    ensures sent == clock.now
    ensures TurnIsKept(sent, Max(target, old(clock.now)), clock.oversleep, clock.tick)
    ensures Max(target, old(clock.now)) <= sent <= Max(target, old(clock.now)) + TurnLateness(clock)
  {
    var woke := SpinSleepUntil(clock, target);
    sent := clock.Now();
  }

  /** Message `k` on the wire: its sequence number in the header, zeros behind it. */
  ghost predicate IsMessage(msg: Bytes, k: nat, msgSize: nat) {
    && |msg| == msgSize && SEQ_HEADER_BYTES <= msgSize && SeqOf(msg) == k
    && msg[SEQ_HEADER_BYTES..] == Zeros(msgSize)[SEQ_HEADER_BYTES..]
  }

  ghost predicate LagsMatch(lags: seq<nat>, starts: seq<nat>, start: nat, interval: nat) {
    && |lags| <= |starts|
    && forall k :: 0 <= k < |lags| ==>
         && start + k * interval <= starts[k]
         && Clamped(lags[k], starts[k] - (start + k * interval))
  }

  /** Every turn is kept: message `k` is due at its intended time or when the send before it has
      returned, whichever is later. */
  ghost predicate TurnsAreKept(
    starts: seq<nat>, sends: seq<SendResult>, start: nat, interval: nat, ready: nat, oversleep: nat, tick: nat)
  {
    && |starts| <= |sends|
    && forall k :: 0 <= k < |starts| ==>
         TurnIsKept(starts[k],
                    Max(start + k * interval, if k == 0 then ready else starts[k - 1] + sends[k - 1].took),
                    oversleep, tick)
  }

  /** The sender's loop. `sends` scripts how long each send takes and whether it succeeds; the loop
      stops at the first failure. `starts` are the clock readings the lags are taken from. */
  method SendLoop(clock: MonotonicClock, total: nat, start: nat, interval: nat, msgSize: nat, sends: seq<SendResult>)
    returns (ok: bool, starts: seq<nat>, lags: seq<nat>, wire: seq<Bytes>)
    requires clock.Valid() && total <= |sends| && total <= U64_LIMIT && SEQ_HEADER_BYTES <= msgSize
    modifies clock
    ensures |wire| == |starts| <= total
    ensures |lags| == if ok then |starts| else |starts| - 1
    ensures ok <==> |starts| == total && forall k :: 0 <= k < total ==> sends[k].ok
    ensures !ok ==> starts != [] && !sends[|starts| - 1].ok && forall k :: 0 <= k < |starts| - 1 ==> sends[k].ok
    ensures Paced(starts, Durations(sends), start, interval, old(clock.now), TurnLateness(clock))
    ensures TurnsAreKept(starts, sends, start, interval, old(clock.now), clock.oversleep, clock.tick)
    ensures LagsMatch(lags, starts, start, interval)
    ensures forall k :: 0 <= k < |wire| ==> IsMessage(wire[k], k, msgSize)
  {
    starts, lags, wire := [], [], [];
    var buf := Zeros(msgSize);
    ghost var s := Durations(sends);
    for seqNo := 0 to total
      invariant |starts| == |lags| == |wire| == seqNo
      invariant |buf| == msgSize && buf[SEQ_HEADER_BYTES..] == Zeros(msgSize)[SEQ_HEADER_BYTES..]
      invariant clock.now == if seqNo == 0 then old(clock.now) else starts[seqNo - 1] + s[seqNo - 1]
      invariant forall k :: 0 <= k < seqNo ==> sends[k].ok
      invariant Paced(starts, s, start, interval, old(clock.now), TurnLateness(clock))
      invariant LagsMatch(lags, starts, start, interval)
      invariant forall k :: 0 <= k < seqNo ==> IsMessage(wire[k], k, msgSize)
    {
      var target := Target(start, seqNo, interval);
      assert Due(starts, s, start, interval, old(clock.now), seqNo) == Max(target, clock.now);
      var sent := WaitForTurn(clock, target);
      var lag := SaturatingSince(sent, target);
      OneMoreStart(starts, sent, s, start, interval, old(clock.now), TurnLateness(clock));
      OneMoreLag(lags, starts, sent, start, interval);
      BothSidesAgreeOnTheTarget(buf, seqNo, start, interval);
      buf := Stamped(buf, seqNo);
      wire := wire + [buf];
      starts := starts + [sent];
      clock.Spend(sends[seqNo].took);
      if !sends[seqNo].ok {
        PacedTurnsAreKept(clock, starts, sends, start, interval, old(clock.now));
        return false, starts, lags, wire;
      }
      lags := lags + [Recorded(lag)];
    }
    PacedTurnsAreKept(clock, starts, sends, start, interval, old(clock.now));
    ok := true;
  }

  lemma PacedTurnsAreKept(
    clock: MonotonicClock, starts: seq<nat>, sends: seq<SendResult>, start: nat, interval: nat, ready: nat)
    requires Paced(starts, Durations(sends), start, interval, ready, TurnLateness(clock))
    ensures TurnsAreKept(starts, sends, start, interval, ready, clock.oversleep, clock.tick)
  {
    var s := Durations(sends);
    forall k | 0 <= k < |starts|
      ensures var due := Max(start + k * interval, if k == 0 then ready else starts[k - 1] + sends[k - 1].took);
              TurnIsKept(starts[k], due, clock.oversleep, clock.tick)
    {
      assert Due(starts, s, start, interval, ready, k) <= starts[k];
    }
  }

  lemma OneMoreLag(lags: seq<nat>, starts: seq<nat>, sent: nat, start: nat, interval: nat)
    requires LagsMatch(lags, starts, start, interval) && |lags| == |starts|
    requires Target(start, |starts|, interval) <= sent
    ensures LagsMatch(lags, starts + [sent], start, interval)
    ensures LagsMatch(lags + [Recorded(sent - Target(start, |starts|, interval))], starts + [sent], start, interval)
  {
  }

  lemma DueLooksBackOnly(a: seq<nat>, a': seq<nat>, s: seq<nat>, start: nat, interval: nat, ready: nat, k: nat)
    requires a <= a' && k <= |a| && k <= |s|
    ensures Due(a', s, start, interval, ready, k) == Due(a, s, start, interval, ready, k)
  {
  }

  lemma OneMoreStart(a: seq<nat>, t: nat, s: seq<nat>, start: nat, interval: nat, ready: nat, late: nat)
    requires Paced(a, s, start, interval, ready, late) && |a| < |s|
    requires Due(a, s, start, interval, ready, |a|) <= t <= Due(a, s, start, interval, ready, |a|) + late
    ensures Paced(a + [t], s, start, interval, ready, late)
  {
    var a' := a + [t];
    forall k | 0 <= k < |a'|
      ensures Due(a', s, start, interval, ready, k) <= a'[k] <= Due(a', s, start, interval, ready, k) + late
    {
      DueLooksBackOnly(a, a', s, start, interval, ready, k);
    }
  }

  // ------------------------------------------------------ the receive thread

  /** What one receive call returned. `done` is the flag as the drain rule reads it. */
  datatype RxEvent = Arrived(msg: Bytes, at: nat) | Quiet(done: bool) | PeerClosed | Broken

  datatype Exit = Waiting | Complete | Drained | Closed | Failed

  datatype RxStats = RxStats(received: nat, measured: nat, latencies: seq<nat>, exit: Exit)

  datatype Plan = Plan(total: nat, warmup: nat, start: nat, interval: nat)

  predicate HasHeader(e: RxEvent) {
    e.Arrived? ==> |e.msg| >= SEQ_HEADER_BYTES
  }

  function Count(stats: RxStats, plan: Plan, msg: Bytes, at: nat): RxStats
    requires |msg| >= SEQ_HEADER_BYTES
  {
    var n := stats.(received := stats.received + 1);
    var seqNo := SeqOf(msg);
    if seqNo < plan.warmup then n
    else
      var ns := SaturatingSince(at, Target(plan.start, seqNo, plan.interval));
      n.(measured := n.measured + 1, latencies := n.latencies + [Recorded(ns)])
  }

  /** The receive thread over a script of call results; Waiting while the script is used up and a
      further call would be made. */
  function Collect(events: seq<RxEvent>, plan: Plan, stats: RxStats): RxStats
    requires forall e :: e in events ==> HasHeader(e)
  {
    if stats.received >= plan.total then stats.(exit := Complete)
    else if events == [] then stats.(exit := Waiting)
    else
      match events[0]
      case Arrived(msg, at) =>
        assert HasHeader(events[0]);
        Collect(events[1..], plan, Count(stats, plan, msg, at))
      case Quiet(done) => if done then stats.(exit := Drained) else Collect(events[1..], plan, stats)
      case PeerClosed => stats.(exit := Closed)
      case Broken => stats.(exit := Failed)
  }

  const NOTHING_YET: RxStats := RxStats(0, 0, [], Waiting)

  method ReceiveLoop(events: seq<RxEvent>, plan: Plan) returns (stats: RxStats)
    requires forall e :: e in events ==> HasHeader(e)
    ensures stats == Collect(events, plan, NOTHING_YET)
  {
    stats := NOTHING_YET;
    var i := 0;
    while stats.received < plan.total
      invariant i <= |events| && stats.exit == Waiting
      invariant Collect(events[i..], plan, stats) == Collect(events, plan, NOTHING_YET)
      decreases |events| - i
    {
      if i == |events| {
        return;
      }
      assert events[i..][0] == events[i] && events[i..][1..] == events[i + 1..];
      assert HasHeader(events[i]);
      match events[i] {
        case Arrived(msg, at) =>
          stats := Count(stats, plan, msg, at);
        case Quiet(done) =>
          if done {
            stats := stats.(exit := Drained);
            return;
          }
        case PeerClosed =>
          stats := stats.(exit := Closed);
          return;
        case Broken =>
          stats := stats.(exit := Failed);
          return;
      }
      i := i + 1;
    }
    stats := stats.(exit := Complete);
  }

  /** Sequence numbers the thread took in, oldest first. */
  function Taken(events: seq<RxEvent>, plan: Plan, received: nat): seq<nat>
    requires forall e :: e in events ==> HasHeader(e)
  {
    if received >= plan.total || events == [] then []
    else
      match events[0]
      case Arrived(msg, at) =>
        assert HasHeader(events[0]);
        [SeqOf(msg)] + Taken(events[1..], plan, received + 1)
      case Quiet(done) => if done then [] else Taken(events[1..], plan, received)
      case _ => []
  }

  function CountFrom(seqs: seq<nat>, warmup: nat): nat {
    if seqs == [] then 0 else (if seqs[0] >= warmup then 1 else 0) + CountFrom(seqs[1..], warmup)
  }

  lemma {:induction false} CollectCountsTaken(events: seq<RxEvent>, plan: Plan, stats: RxStats)
    requires forall e :: e in events ==> HasHeader(e)
    requires stats.received <= plan.total && stats.measured == |stats.latencies|
    ensures var r := Collect(events, plan, stats);
            var taken := Taken(events, plan, stats.received);
            && r.received == stats.received + |taken| <= plan.total
            && r.measured == stats.measured + CountFrom(taken, plan.warmup) == |r.latencies|
            && (r.exit == Complete <==> r.received == plan.total)
  {
    if stats.received < plan.total && events != [] {
      assert HasHeader(events[0]);
      match events[0]
      case Arrived(msg, at) =>
        var rest := Taken(events[1..], plan, stats.received + 1);
        CollectCountsTaken(events[1..], plan, Count(stats, plan, msg, at));
        assert ([SeqOf(msg)] + rest)[1..] == rest;
      case Quiet(done) =>
        if !done {
          CollectCountsTaken(events[1..], plan, stats);
        }
      case _ =>
    }
  }

  /** The calls whose message is measured: those taken in that are at or beyond the warmup. */
  function Measured(events: seq<RxEvent>, plan: Plan, received: nat): seq<RxEvent>
    requires forall e :: e in events ==> HasHeader(e)
  {
    if received >= plan.total || events == [] then []
    else
      match events[0]
      case Arrived(msg, at) =>
        assert HasHeader(events[0]);
        (if SeqOf(msg) >= plan.warmup then [events[0]] else []) + Measured(events[1..], plan, received + 1)
      case Quiet(done) => if done then [] else Measured(events[1..], plan, received)
      case _ => []
  }

  /** The sample of one call: the time from the intended send of its message, start + seq * interval,
      to its arrival. */
  ghost predicate IsSample(latency: nat, e: RxEvent, plan: Plan) {
    && e.Arrived? && |e.msg| >= SEQ_HEADER_BYTES
    && Clamped(latency, e.at - (plan.start + SeqOf(e.msg) * plan.interval))
  }

  ghost predicate SampledFromTheSchedule(latencies: seq<nat>, m: seq<RxEvent>, plan: Plan) {
    |latencies| == |m| && forall i :: 0 <= i < |m| ==> IsSample(latencies[i], m[i], plan)
  }

  lemma OneMoreSample(before: seq<nat>, all: seq<nat>, e: RxEvent, m: seq<RxEvent>, plan: Plan)
    requires |before| < |all| && SampledFromTheSchedule(all[|before| + 1..], m, plan)
    requires IsSample(all[|before|], e, plan)
    ensures SampledFromTheSchedule(all[|before|..], [e] + m, plan)
  {
    var latencies, m' := all[|before|..], [e] + m;
    forall i | 0 <= i < |m'|
      ensures IsSample(latencies[i], m'[i], plan)
    {
      if i > 0 {
        assert latencies[i] == all[|before| + 1..][i - 1] && m'[i] == m[i - 1];
      }
    }
  }

  lemma CountedSample(stats: RxStats, plan: Plan, msg: Bytes, at: nat)
    requires |msg| >= SEQ_HEADER_BYTES && SeqOf(msg) >= plan.warmup
    ensures var latencies := Count(stats, plan, msg, at).latencies;
            && |latencies| == |stats.latencies| + 1 && latencies[..|stats.latencies|] == stats.latencies
            && IsSample(latencies[|stats.latencies|], Arrived(msg, at), plan)
  {
  }

  /** For every script of calls the samples are those of the messages measured, in order, each taken
      from the intended send of its message. */
  lemma {:induction false} LatenciesAreFromTheSchedule(events: seq<RxEvent>, plan: Plan, stats: RxStats)
    requires forall e :: e in events ==> HasHeader(e)
    ensures var r := Collect(events, plan, stats);
            && stats.latencies <= r.latencies
            && SampledFromTheSchedule(r.latencies[|stats.latencies|..], Measured(events, plan, stats.received), plan)
  {
    if stats.received < plan.total && events != [] {
      assert HasHeader(events[0]);
      match events[0]
      case Arrived(msg, at) =>
        var n := Count(stats, plan, msg, at);
        LatenciesAreFromTheSchedule(events[1..], plan, n);
        if SeqOf(msg) >= plan.warmup {
          CountedSample(stats, plan, msg, at);
          var all := Collect(events, plan, stats).latencies;
          assert all[..|n.latencies|] == n.latencies;
          OneMoreSample(stats.latencies, all, events[0], Measured(events[1..], plan, n.received), plan);
        }
      case Quiet(done) =>
        if !done {
          LatenciesAreFromTheSchedule(events[1..], plan, stats);
        }
      case _ =>
    }
  }

  /** For every transport, lossy or duplicating: `received` never exceeds `total`, so the report's
      `sent - received` never underflows, and `measured` is the number of latencies and the number
      of messages taken in at or beyond the warmup. */
  lemma Accounting(events: seq<RxEvent>, plan: Plan)
    requires forall e :: e in events ==> HasHeader(e)
    ensures var r := Collect(events, plan, NOTHING_YET);
            && r.received == |Taken(events, plan, 0)| <= plan.total
            && r.measured == |r.latencies| == CountFrom(Taken(events, plan, 0), plan.warmup)
            && (r.exit == Complete <==> r.received == plan.total)
  {
    CollectCountsTaken(events, plan, NOTHING_YET);
  }

  // ------------------------------------------------------- without duplicates

  ghost predicate Distinct(s: seq<nat>) {
    forall i, j :: 0 <= i < j < |s| ==> s[i] != s[j]
  }

  ghost function AtLeast(s: seq<nat>, lo: nat): set<nat> {
    set x | x in s && x >= lo
  }

  ghost function Below(s: seq<nat>, hi: nat): set<nat> {
    set x | x in s && x < hi
  }

  lemma {:induction false} SplitCount(s: seq<nat>, warmup: nat)
    requires Distinct(s)
    ensures CountFrom(s, warmup) == |AtLeast(s, warmup)|
    ensures |s| - CountFrom(s, warmup) == |Below(s, warmup)|
  {
    if s != [] {
      SplitCount(s[1..], warmup);
      assert s == [s[0]] + s[1..] && s[0] !in s[1..];
      OneMoreElement(s[0], s[1..], warmup);
    }
  }

  lemma OneMoreElement(x: nat, s: seq<nat>, warmup: nat)
    ensures AtLeast([x] + s, warmup) == AtLeast(s, warmup) + if x >= warmup then {x} else {}
    ensures Below([x] + s, warmup) == Below(s, warmup) + if x < warmup then {x} else {}
  {
  }

  lemma {:induction false} RangeSize(s: set<nat>, lo: nat, hi: nat)
    requires lo <= hi && forall x :: x in s ==> lo <= x < hi
    ensures |s| <= hi - lo
  {
    if lo < hi {
      RangeSize(s - {hi - 1}, lo, hi - 1);
    } else {
      assert s == {};
    }
  }

  /** Without duplicates the warmup accounts for all unmeasured messages; with nothing lost either,
      exactly the messages after the warmup are measured. */
  lemma MeasuredWithoutDuplicates(events: seq<RxEvent>, plan: Plan)
    requires forall e :: e in events ==> HasHeader(e)
    requires Distinct(Taken(events, plan, 0)) && forall x :: x in Taken(events, plan, 0) ==> x < plan.total
    requires plan.warmup <= plan.total
    ensures var r := Collect(events, plan, NOTHING_YET);
            && r.received - plan.warmup <= r.measured <= plan.total - plan.warmup
            && (r.received == plan.total ==> r.measured == plan.total - plan.warmup)
  {
    var taken := Taken(events, plan, 0);
    Accounting(events, plan);
    SplitCount(taken, plan.warmup);
    RangeSize(AtLeast(taken, plan.warmup), plan.warmup, plan.total);
    RangeSize(Below(taken, plan.warmup), 0, plan.warmup);
  }

  /** Once the flag reads true the thread makes at most one call more than messages are missing. */
  lemma {:induction false} EndsSoonAfterDone(events: seq<RxEvent>, plan: Plan, stats: RxStats)
    requires forall e :: e in events ==> HasHeader(e)
    requires forall e :: e in events && e.Quiet? ==> e.done
    requires stats.received <= plan.total && |events| >= plan.total - stats.received + 1
    ensures Collect(events, plan, stats).exit != Waiting
  {
    if stats.received < plan.total && events[0].Arrived? {
      assert HasHeader(events[0]);
      EndsSoonAfterDone(events[1..], plan, Count(stats, plan, events[0].msg, events[0].at));
    }
  }

  // --------------------------------------------------------- both threads

  /** The two threads interleaved over any transport: sends in order, then the flag; a receive call
      returns a copy of something already sent, or times out and reads the flag, or ends. */
  datatype Move = Send | SetDone | Take(seqNo: nat, at: nat) | TimeOut | Close | Break

  datatype World = World(sent: nat, done: bool, taken: seq<nat>, exit: Exit)

  function Idle(total: nat): World {
    World(0, false, [], if total == 0 then Complete else Waiting)
  }

  predicate CanMove(w: World, m: Move, total: nat) {
    match m
    case Send => w.sent < total
    case SetDone => w.sent == total && !w.done
    case Take(n, _) => w.exit == Waiting && n < w.sent
    case _ => w.exit == Waiting
  }

  function MakeMove(w: World, m: Move, total: nat): World
    requires CanMove(w, m, total)
  {
    match m
    case Send => w.(sent := w.sent + 1)
    case SetDone => w.(done := true)
    case Take(n, _) =>
      w.(taken := w.taken + [n], exit := if |w.taken| + 1 == total then Complete else Waiting)
    case TimeOut => if w.done then w.(exit := Drained) else w
    case Close => w.(exit := Closed)
    case Break => w.(exit := Failed)
  }

  ghost predicate IsRun(trace: seq<World>, moves: seq<Move>, total: nat) {
    && |trace| == |moves| + 1 && trace[0] == Idle(total)
    && forall i :: 0 <= i < |moves| ==>
         CanMove(trace[i], moves[i], total) && trace[i + 1] == MakeMove(trace[i], moves[i], total)
  }

  /** In every interleaving: the drain break happens only after all sends, and every message counted
      was sent before. */
  lemma {:induction false} ThreadsAgree(trace: seq<World>, moves: seq<Move>, total: nat, n: nat)
    requires IsRun(trace, moves, total) && n < |trace|
    ensures var w := trace[n];
            && w.sent <= total && |w.taken| <= total
            && (w.exit == Waiting ==> |w.taken| < total)
            && (w.exit == Complete <==> |w.taken| == total)
            && (w.done ==> w.sent == total)
            && (w.exit == Drained ==> w.done && w.sent == total)
            && (forall x :: x in w.taken ==> x < w.sent)
  {
    if n > 0 {
      ThreadsAgree(trace, moves, total, n - 1);
      assert trace[n] == MakeMove(trace[n - 1], moves[n - 1], total);
    }
  }

  /** The call results the receive thread sees from move `i` on. */
  function Observed(trace: seq<World>, moves: seq<Move>, i: nat): (events: seq<RxEvent>)
    requires |trace| == |moves| + 1 && i <= |moves|
    ensures forall e :: e in events ==> HasHeader(e)
    decreases |moves| - i
  {
    if i == |moves| then []
    else
      var rest := Observed(trace, moves, i + 1);
      match moves[i]
      case Take(n, at) => [Arrived(Stamped(Zeros(SEQ_HEADER_BYTES), n), at)] + rest
      case TimeOut => [Quiet(trace[i].done)] + rest
      case Close => [PeerClosed] + rest
      case Break => [Broken] + rest
      case _ => rest
  }

  lemma {:induction false} NothingTakenAfterTheEnd(trace: seq<World>, moves: seq<Move>, total: nat, i: nat)
    requires IsRun(trace, moves, total) && i <= |moves| && trace[i].exit != Waiting
    ensures trace[|moves|].exit == trace[i].exit && trace[|moves|].taken == trace[i].taken
    decreases |moves| - i
  {
    if i < |moves| {
      assert trace[i + 1] == MakeMove(trace[i], moves[i], total);
      NothingTakenAfterTheEnd(trace, moves, total, i + 1);
    }
  }

  /** The receive loop, run over what the interleaving lets it see, takes in and ends as the
      interleaving says. */
  lemma {:induction false} LoopFollowsTheRun(
    trace: seq<World>, moves: seq<Move>, plan: Plan, i: nat, stats: RxStats)
    requires IsRun(trace, moves, plan.total) && plan.total <= U64_LIMIT && i <= |moves|
    requires trace[i].exit == Waiting && stats.received == |trace[i].taken|
    ensures Collect(Observed(trace, moves, i), plan, stats).exit == trace[|moves|].exit
    ensures trace[i].taken + Taken(Observed(trace, moves, i), plan, stats.received) == trace[|moves|].taken
    decreases |moves| - i
  {
    ThreadsAgree(trace, moves, plan.total, i);
    if i < |moves| {
      var w, m := trace[i], moves[i];
      assert trace[i + 1] == MakeMove(w, m, plan.total);
      var events, rest := Observed(trace, moves, i), Observed(trace, moves, i + 1);
      match m
      case Take(n, at) =>
        var msg := Stamped(Zeros(SEQ_HEADER_BYTES), n);
        BothSidesAgreeOnTheTarget(Zeros(SEQ_HEADER_BYTES), n, plan.start, plan.interval);
        assert events[0] == Arrived(msg, at) && events[1..] == rest;
        if trace[i + 1].exit == Waiting {
          LoopFollowsTheRun(trace, moves, plan, i + 1, Count(stats, plan, msg, at));
        } else {
          NothingTakenAfterTheEnd(trace, moves, plan.total, i + 1);
        }
      case TimeOut =>
        assert events[0] == Quiet(w.done) && events[1..] == rest;
        if w.done {
          NothingTakenAfterTheEnd(trace, moves, plan.total, i + 1);
        } else {
          LoopFollowsTheRun(trace, moves, plan, i + 1, stats);
        }
      case Close =>
        NothingTakenAfterTheEnd(trace, moves, plan.total, i + 1);
      case Break =>
        NothingTakenAfterTheEnd(trace, moves, plan.total, i + 1);
      case _ =>
        LoopFollowsTheRun(trace, moves, plan, i + 1, stats);
    }
  }

  /** The whole scenario over any transport. What the receive loop reports never exceeds what was
      sent; a drain break means all sends were done; and on a transport that duplicates nothing the
      warmup accounts for every unmeasured message, so a complete run measures exactly the rest. */
  lemma ScenarioAccounting(trace: seq<World>, moves: seq<Move>, plan: Plan)
    requires IsRun(trace, moves, plan.total) && plan.warmup <= plan.total <= U64_LIMIT
    ensures var w := trace[|moves|];
            var r := Collect(Observed(trace, moves, 0), plan, NOTHING_YET);
            && r.received == |w.taken| <= plan.total
            && r.measured == |r.latencies| == CountFrom(w.taken, plan.warmup)
            && (r.exit == Drained ==> w.sent == plan.total)
            && (r.exit == Complete <==> r.received == plan.total)
            && (Distinct(w.taken) ==>
                  && r.received <= w.sent
                  && r.received - plan.warmup <= r.measured <= plan.total - plan.warmup
                  && (r.received == plan.total ==> r.measured == plan.total - plan.warmup))
  {
    var w := trace[|moves|];
    var events := Observed(trace, moves, 0);
    ThreadsAgree(trace, moves, plan.total, |moves|);
    Accounting(events, plan);
    if plan.total == 0 {
      NothingTakenAfterTheEnd(trace, moves, 0, 0);
    } else {
      LoopFollowsTheRun(trace, moves, plan, 0, NOTHING_YET);
    }
    assert Taken(events, plan, 0) == w.taken;
    if Distinct(w.taken) {
      MeasuredWithoutDuplicates(events, plan);
      SplitCount(w.taken, 0);
      RangeSize(AtLeast(w.taken, 0), 0, w.sent);
      RangeSize(Below(w.taken, 0), 0, 0);
    }
  }
}

/** The transports under a benchmark run: what their receive calls return along their own runs, and so
    what the receive thread counts. */
module BenchmarkTransports {
  import opened Basics
  import opened Transport
  import opened MappedRing
  import opened Scenario
  import opened InOrder
  import Drain
  import EchoPair
  import Framing
  import FramingTheorems
  import RedisStream
  import RedisTheorems
  import RingProtocol

  // ------------------------------------------------- the ring's receive calls

  /** From `arrival` on, and not before, a load made at `at` returns the awaited stamp. */
  ghost predicate SeesFrom(polls: seq<StampPoll>, at: seq<nat>, want: nat, arrival: nat) {
    && |at| == |polls|
    && forall x :: 0 <= x < |polls| ==> (polls[x].stamp == want <==> arrival <= at[x])
  }

  /** The loads of a call come after its start, each before its reading of the clock; the thread goes
      on at `end`, no more than `pause` after its last load. */
  ghost predicate InTime(polls: seq<StampPoll>, at: seq<nat>, start: nat, end: nat, pause: nat) {
    && |at| == |polls| && polls != []
    && (forall x :: 0 <= x < |polls| ==> start <= at[x] <= polls[x].now)
    && polls[|polls| - 1].now <= end <= at[|polls| - 1] + pause
  }

  /** A `recv` of the ring is a receive call as the drain rule knows it: a match comes no earlier than
      the message, and a timeout waited a full second and missed the message at its last load. */
  lemma RingCallsAreTimedCalls(
    calls: seq<Drain.Call>, b: seq<nat>, begin: nat, pause: nat, n: nat,
    polls: seq<StampPoll>, at: seq<nat>, want: nat)
    requires n < |calls| && Drain.Got(calls, n) < |b|
    requires (if n == 0 then begin else calls[n - 1].end) <= calls[n].start
    requires SeesFrom(polls, at, want, b[Drain.Got(calls, n)])
    requires InTime(polls, at, calls[n].start, calls[n].end, pause)
    requires PollLoop(polls, want, 0, Unset) != MappedRing.Waiting
    requires PollLoop(polls[..|polls| - 1], want, 0, Unset) == MappedRing.Waiting
    requires calls[n].got <==> PollLoop(polls, want, 0, Unset) == Matched
    ensures Drain.CallReturns(calls, b, begin, RECV_TIMEOUT, pause, n)
  {
    if calls[n].got {
      MatchedPoll(polls, want, 0, Unset);
    } else {
      LastPollAfterArming(polls, want, 0);
    }
  }

  lemma {:induction false} MatchedPoll(polls: seq<StampPoll>, want: nat, misses: nat, deadline: Deadline)
    requires polls != [] && PollLoop(polls, want, misses, deadline) == Matched
    requires PollLoop(polls[..|polls| - 1], want, misses, deadline) == MappedRing.Waiting
    ensures polls[|polls| - 1].stamp == want
  {
    if |polls| > 1 {
      FrontAndRest(polls);
      var missed := (misses + 1) % U32_LIMIT;
      if missed < SPIN_POLLS || missed % SPIN_STRIDE != 0 || deadline.Expires? {
        MatchedPoll(polls[1..], want, missed, deadline);
      } else {
        MatchedPoll(polls[1..], want, missed, Expires(polls[0].now + RECV_TIMEOUT));
      }
    }
  }

  // ---------------------------------------------------------- the transports

  /** What the receive thread's calls return along a run of the two rings. `clock` and `flags` are the
      clock and the flag as it reads them at each step. */
  ghost function RingEvents(
    trace: seq<EchoPair.Pair>, steps: seq<EchoPair.PairStep>, n: nat, clock: seq<nat>, flags: seq<bool>): seq<RxEvent>
    requires n <= |steps| == |clock| == |flags| < |trace|
  {
    if n == 0 then []
    else
      var before := RingEvents(trace, steps, n - 1, clock, flags);
      if steps[n - 1] == EchoPair.ClientRx(RingProtocol.BumpConsumer) then
        before + [Arrived(trace[n - 1].s2c.c.buf, clock[n - 1])]
      else if steps[n - 1] == EchoPair.ClientRx(RingProtocol.RecvTimeout) then before + [Quiet(flags[n - 1])]
      else before
  }

  /** The messages the sender's loop has passed to `send`. */
  function RingCalls(steps: seq<EchoPair.PairStep>, n: nat): seq<Bytes>
    requires n <= |steps|
  {
    if n == 0 then []
    else
      var before := RingCalls(steps, n - 1);
      if steps[n - 1].ClientTx? && steps[n - 1].st.SendCall? then before + [steps[n - 1].st.msg] else before
  }

  predicate HasFailed(steps: seq<EchoPair.PairStep>, n: nat)
    requires n <= |steps|
  {
    n > 0 && (HasFailed(steps, n - 1) || steps[n - 1] == EchoPair.ClientTx(RingProtocol.SendTimeout))
  }

  /** The sender's loop ends with its first failed send. */
  ghost predicate StopsAtAFailure(steps: seq<EchoPair.PairStep>, n: nat)
    requires n <= |steps|
  {
    forall i :: 0 <= i < n && HasFailed(steps, i) ==> !(steps[i].ClientTx? && steps[i].st.SendCall?)
  }

  lemma {:induction false} ArrivalsAreTheRings(
    trace: seq<EchoPair.Pair>, steps: seq<EchoPair.PairStep>, n: nat, clock: seq<nat>, flags: seq<bool>)
    requires EchoPair.IsPairRun(trace, steps) && n <= |steps| == |clock| == |flags|
    ensures trace[n].s2c.c.nextSeq <= |trace[n].s2c.received|
    ensures Arrivals(RingEvents(trace, steps, n, clock, flags)) == trace[n].s2c.received[..trace[n].s2c.c.nextSeq]
  {
    EchoPair.PairRunKeeps(trace, steps, n);
    if n > 0 {
      EchoPair.PairRunKeeps(trace, steps, n - 1);
      ArrivalsAreTheRings(trace, steps, n - 1, clock, flags);
      HandOutStep(trace[n - 1], steps[n - 1]);
      var before := RingEvents(trace, steps, n - 1, clock, flags);
      ArrivalsOfOneMore(before, Arrived(trace[n - 1].s2c.c.buf, clock[n - 1]));
      ArrivalsOfOneMore(before, Quiet(flags[n - 1]));
    }
  }

  /** The counter of the consumer moves with the step that hands a message out, and only then. */
  lemma CounterMovesWithAHandOut(r: RingProtocol.Ring, st: RingProtocol.Step)
    requires RingProtocol.Inv(r) && RingProtocol.Enabled(r, st) && !RingProtocol.IsProducerStep(st)
    ensures r.c.nextSeq <= |r.received|
    ensures RingProtocol.Apply(r, st).c.nextSeq == r.c.nextSeq + if st.BumpConsumer? then 1 else 0
    ensures st.BumpConsumer? ==> |r.received| == r.c.nextSeq + 1 && r.received[r.c.nextSeq] == r.c.buf
  {
  }

  lemma PrefixWithOneMore(got: seq<Bytes>, more: seq<Bytes>, k: nat)
    requires k <= |got|
    ensures (got + more)[..k] == got[..k]
    ensures k < |got| ==> got[..k + 1] == got[..k] + [got[k]]
  {
  }

  /** What one step hands to the client. */
  lemma HandOutStep(w: EchoPair.Pair, ps: EchoPair.PairStep)
    requires EchoPair.PairInv(w) && EchoPair.PairEnabled(w, ps)
    ensures var c, c' := w.s2c.c, EchoPair.PairApply(w, ps).s2c.c;
            var got := EchoPair.PairApply(w, ps).s2c.received;
            && c.nextSeq <= |w.s2c.received| && c'.nextSeq <= |got|
            && got[..c'.nextSeq] == w.s2c.received[..c.nextSeq]
                 + (if ps == EchoPair.ClientRx(RingProtocol.BumpConsumer) then [c.buf] else [])
  {
    match ps
    case ClientRx(st) =>
      EchoPair.ConsumerEffect(w.s2c, st);
      CounterMovesWithAHandOut(w.s2c, st);
      PrefixWithOneMore(w.s2c.received, if st.StoreCursor? then [w.s2c.c.buf] else [], w.s2c.c.nextSeq);
    case EchoTx(st) =>
      EchoPair.ProducerEffect(w.s2c, st);
    case _ =>
  }

  /** How the calls made and the messages published compare. */
  ghost predicate CallsAndSends(p: RingProtocol.Producer, sent: seq<Bytes>, calls: seq<Bytes>, failed: bool) {
    && sent <= calls
    && (failed ==> p.phase.Ready?)
    && (!failed ==> calls == if p.phase.Ready? || p.phase.Bump? then sent else sent + [p.msg])
  }

  lemma {:induction false} SendsAreTheCalls(trace: seq<EchoPair.Pair>, steps: seq<EchoPair.PairStep>, n: nat)
    requires EchoPair.IsPairRun(trace, steps) && n <= |steps| && StopsAtAFailure(steps, n)
    ensures CallsAndSends(trace[n].c2s.p, trace[n].c2s.sent, RingCalls(steps, n), HasFailed(steps, n))
  {
    if n > 0 {
      EchoPair.PairRunKeeps(trace, steps, n - 1);
      SendsAreTheCalls(trace, steps, n - 1);
      CallStep(trace[n - 1], steps[n - 1], RingCalls(steps, n - 1), HasFailed(steps, n - 1));
    }
  }

  lemma CallStep(w: EchoPair.Pair, ps: EchoPair.PairStep, calls: seq<Bytes>, failed: bool)
    requires EchoPair.PairInv(w) && EchoPair.PairEnabled(w, ps)
    requires CallsAndSends(w.c2s.p, w.c2s.sent, calls, failed)
    requires failed ==> !(ps.ClientTx? && ps.st.SendCall?)
    ensures var w' := EchoPair.PairApply(w, ps);
            CallsAndSends(w'.c2s.p, w'.c2s.sent,
                          if ps.ClientTx? && ps.st.SendCall? then calls + [ps.st.msg] else calls,
                          failed || ps == EchoPair.ClientTx(RingProtocol.SendTimeout))
  {
    match ps
    case ClientTx(st) => EchoPair.ProducerEffect(w.c2s, st);
    case EchoRx(st) => EchoPair.ConsumerEffect(w.c2s, st);
    case _ =>
  }

  /** Over the two rings, for every run: if the sender's loop passes the wire to `send`, message by
      message until one fails, the receive thread, fed by that same run, counts each message once, in
      sending order. */
  lemma RingCountsEachOnce(
    trace: seq<EchoPair.Pair>, steps: seq<EchoPair.PairStep>, n: nat, clock: seq<nat>, flags: seq<bool>,
    msgSize: nat, plan: Plan)
    requires EchoPair.IsPairRun(trace, steps) && n <= |steps| == |clock| == |flags|
    requires StopsAtAFailure(steps, n) && IsWire(RingCalls(steps, n), msgSize)
    ensures forall e :: e in RingEvents(trace, steps, n, clock, flags) ==> HasHeader(e)
    ensures CountsEachOnce(RingEvents(trace, steps, n, clock, flags), plan)
    ensures Collect(RingEvents(trace, steps, n, clock, flags), plan, NOTHING_YET).received <= |trace[n].c2s.sent|
  {
    var events := RingEvents(trace, steps, n, clock, flags);
    EchoPair.EchoReturnsAPrefix(trace, steps, n);
    ArrivalsAreTheRings(trace, steps, n, clock, flags);
    SendsAreTheCalls(trace, steps, n);
    ReadOffTheWire(events, RingCalls(steps, n), msgSize);
    InOrderAccounting(events, plan, RingCalls(steps, n), msgSize);
  }

  /** Over a byte stream to the echo and one back, cut up in any way. */
  lemma StreamCountsEachOnce(
    wire: seq<Bytes>, msgSize: Positive, sendSink: seq<Framing.WriteEvent>, toEcho: seq<Framing.Event>,
    echoSink: seq<Framing.WriteEvent>, toClient: seq<Framing.Event>, events: seq<RxEvent>, plan: Plan)
    requires IsWire(wire, msgSize)
    requires Framing.NeverRefuses(sendSink) && Framing.NeverRefuses(echoSink)
    requires FramingTheorems.Input(toEcho) == FramingTheorems.SendAll(wire, sendSink).1
    requires FramingTheorems.EndsCleanly(toEcho)
    requires FramingTheorems.Unbroken(toClient) && !FramingTheorems.Overstalled(toClient, msgSize)
    requires Framing.Content(toClient) == Framing.Echo(toEcho, echoSink, msgSize).1
    requires forall e :: e in events ==> HasHeader(e)
    requires Arrivals(events) == FramingTheorems.RecvAll(toClient, msgSize).0
    ensures Arrivals(events) == wire && CountsEachOnce(events, plan)
  {
    forall m | m in wire
      ensures |m| == msgSize
    {
      var k :| 0 <= k < |wire| && wire[k] == m;
      assert IsMessage(wire[k], k, msgSize);
    }
    FramingTheorems.RoundTrip(wire, msgSize, sendSink, toEcho, echoSink, toClient);
    InOrderAccounting(events, plan, wire, msgSize);
  }

  /** What the receive thread's calls return along a run of the two Redis streams. */
  ghost function RedisEvents(
    trace: seq<RedisTheorems.Chain>, steps: seq<RedisTheorems.ChainStep>, n: nat, msgSize: nat,
    clock: seq<nat>, flags: seq<bool>): seq<RxEvent>
    requires n <= |steps| == |clock| == |flags| < |trace|
  {
    if n == 0 then []
    else
      var before := RedisEvents(trace, steps, n - 1, msgSize, clock, flags);
      var s := trace[n - 1].s2c;
      if !steps[n - 1].ClientRecv? then before
      else before + [RedisEvent(s, msgSize, clock[n - 1], flags[n - 1])]
  }

  function RedisEvent(s: RedisStream.Stream, msgSize: nat, at: nat, flag: bool): RxEvent {
    match RedisStream.RecvExact(s.rx, RedisStream.Retained(s), true, msgSize).1
    case Msg(data) => Arrived(data, at)
    case TimedOut => Quiet(flag)
    case Error(_) => Broken
  }

  /** The messages the sender's loop has appended. */
  function RedisSends(steps: seq<RedisTheorems.ChainStep>, n: nat): seq<Bytes>
    requires n <= |steps|
  {
    if n == 0 then []
    else RedisSends(steps, n - 1) + if steps[n - 1].ClientSend? then [steps[n - 1].x.data] else []
  }

  /** The client receives into a buffer of one message. */
  ghost predicate ReceivesMessages(steps: seq<RedisTheorems.ChainStep>, n: nat, msgSize: nat) {
    n <= |steps| && forall i :: 0 <= i < n && steps[i].ClientRecv? ==> steps[i].room == msgSize
  }

  lemma {:induction false} AppendsAreTheSends(
    trace: seq<RedisTheorems.Chain>, steps: seq<RedisTheorems.ChainStep>, maxlen: nat, n: nat)
    requires RedisTheorems.IsChainRun(trace, steps, maxlen) && n <= |steps|
    ensures RedisTheorems.Datas(trace[n].c2s.all) == RedisSends(steps, n)
  {
    if n > 0 {
      AppendsAreTheSends(trace, steps, maxlen, n - 1);
      AppendStep(trace[n - 1], steps[n - 1], maxlen);
    }
  }

  lemma AppendStep(w: RedisTheorems.Chain, st: RedisTheorems.ChainStep, maxlen: nat)
    requires RedisTheorems.CanStep(w, st, maxlen)
    ensures RedisTheorems.Datas(RedisTheorems.TakeStep(w, st, maxlen).c2s.all)
         == RedisTheorems.Datas(w.c2s.all) + if st.ClientSend? then [st.x.data] else []
  {
  }

  ghost predicate StaysWithinCap(trace: seq<RedisTheorems.Chain>, n: nat, maxlen: nat) {
    n < |trace| && forall k :: 0 <= k <= n ==> RedisTheorems.WithinCap(trace[k], maxlen)
  }

  lemma {:induction false} ArrivalsAreTheStreams(
    trace: seq<RedisTheorems.Chain>, steps: seq<RedisTheorems.ChainStep>, maxlen: nat, n: nat, msgSize: nat,
    clock: seq<nat>, flags: seq<bool>)
    requires RedisTheorems.IsChainRun(trace, steps, maxlen) && n <= |steps| == |clock| == |flags|
    requires StaysWithinCap(trace, n, maxlen) && ReceivesMessages(steps, n, msgSize)
    requires IsWire(RedisSends(steps, n), msgSize)
    ensures Arrivals(RedisEvents(trace, steps, n, msgSize, clock, flags)) == RedisTheorems.Datas(trace[n].s2c.taken)
  {
    if n > 0 {
      ShorterWire(RedisSends(steps, n - 1), RedisSends(steps, n), msgSize);
      ArrivalsAreTheStreams(trace, steps, maxlen, n - 1, msgSize, clock, flags);
      TakenIsOnTheWire(trace, steps, maxlen, n);
      RedisTheorems.ChainRunKeeps(trace, steps, maxlen, n - 1);
      StreamEventStep(
        RedisEvents(trace, steps, n - 1, msgSize, clock, flags), trace[n - 1], steps[n - 1], maxlen,
        RedisSends(steps, n), msgSize, clock[n - 1], flags[n - 1]);
    }
  }

  lemma TakenIsOnTheWire(
    trace: seq<RedisTheorems.Chain>, steps: seq<RedisTheorems.ChainStep>, maxlen: nat, n: nat)
    requires RedisTheorems.IsChainRun(trace, steps, maxlen) && n <= |steps| && StaysWithinCap(trace, n, maxlen)
    ensures RedisTheorems.Datas(trace[n].s2c.taken) <= RedisSends(steps, n)
  {
    AppendsAreTheSends(trace, steps, maxlen, n);
    RedisTheorems.EchoDropsNothingWithinTheCap(trace, steps, maxlen, n);
  }

  lemma StreamEventStep(
    before: seq<RxEvent>, w: RedisTheorems.Chain, st: RedisTheorems.ChainStep, maxlen: nat,
    wire: seq<Bytes>, msgSize: nat, at: nat, flag: bool)
    requires RedisTheorems.ChainInv(w) && RedisTheorems.CanStep(w, st, maxlen)
    requires (st.ClientRecv? ==> st.room == msgSize) && IsWire(wire, msgSize)
    requires RedisTheorems.Datas(RedisTheorems.TakeStep(w, st, maxlen).s2c.taken) <= wire
    requires Arrivals(before) == RedisTheorems.Datas(w.s2c.taken)
    ensures Arrivals(if st.ClientRecv? then before + [RedisEvent(w.s2c, msgSize, at, flag)] else before)
         == RedisTheorems.Datas(RedisTheorems.TakeStep(w, st, maxlen).s2c.taken)
  {
    if st.ClientRecv? {
      TakenArrives(before, w, st, maxlen, wire, msgSize, at, flag);
    } else {
      OthersTakeNothing(w, st, maxlen);
    }
  }

  lemma OthersTakeNothing(w: RedisTheorems.Chain, st: RedisTheorems.ChainStep, maxlen: nat)
    requires RedisTheorems.CanStep(w, st, maxlen) && !st.ClientRecv?
    ensures RedisTheorems.TakeStep(w, st, maxlen).s2c.taken == w.s2c.taken
  {
  }

  lemma ShorterWire(short: seq<Bytes>, wire: seq<Bytes>, msgSize: nat)
    requires short <= wire && IsWire(wire, msgSize)
    ensures IsWire(short, msgSize)
  {
    forall k | 0 <= k < |short|
      ensures IsMessage(short[k], k, msgSize)
    {
      assert IsMessage(wire[k], k, msgSize);
    }
  }

  /** A receive on a stream that holds the wire's messages returns what it takes. */
  lemma TakenIsReturned(
    w: RedisTheorems.Chain, st: RedisTheorems.ChainStep, maxlen: nat, wire: seq<Bytes>, msgSize: nat)
    requires RedisTheorems.ChainInv(w) && RedisTheorems.CanStep(w, st, maxlen)
    requires st.ClientRecv? && st.room == msgSize && IsWire(wire, msgSize)
    requires RedisTheorems.Datas(RedisTheorems.TakeStep(w, st, maxlen).s2c.taken) <= wire
    ensures var before, after := w.s2c.taken, RedisTheorems.TakeStep(w, st, maxlen).s2c.taken;
            var outcome := RedisStream.RecvExact(w.s2c.rx, RedisStream.Retained(w.s2c), true, msgSize).1;
            && (outcome.TimedOut? || outcome.Msg?)
            && RedisTheorems.Datas(after) == RedisTheorems.Datas(before) + if outcome.Msg? then [outcome.data] else []
  {
    var before, after := w.s2c.taken, RedisTheorems.TakeStep(w, st, maxlen).s2c.taken;
    RedisTheorems.EveryTakenEntryIsReturnedOrReported(w.s2c, msgSize);
    if after != before {
      assert RedisTheorems.Datas(after)[|before|] == wire[|before|];
      assert IsMessage(wire[|before|], |before|, msgSize);
      assert RedisTheorems.Datas(after) == RedisTheorems.Datas(before) + [after[|before|].data];
    }
  }

  lemma TakenArrives(
    before: seq<RxEvent>, w: RedisTheorems.Chain, st: RedisTheorems.ChainStep, maxlen: nat,
    wire: seq<Bytes>, msgSize: nat, at: nat, flag: bool)
    requires RedisTheorems.ChainInv(w) && RedisTheorems.CanStep(w, st, maxlen)
    requires st.ClientRecv? && st.room == msgSize && IsWire(wire, msgSize)
    requires RedisTheorems.Datas(RedisTheorems.TakeStep(w, st, maxlen).s2c.taken) <= wire
    requires Arrivals(before) == RedisTheorems.Datas(w.s2c.taken)
    ensures Arrivals(before + [RedisEvent(w.s2c, msgSize, at, flag)])
         == RedisTheorems.Datas(RedisTheorems.TakeStep(w, st, maxlen).s2c.taken)
  {
    TakenIsReturned(w, st, maxlen, wire, msgSize);
    ArrivalsOfOneMore(before, RedisEvent(w.s2c, msgSize, at, flag));
  }

  /** Over the two Redis streams, for every run in which neither backlog outgrows the cap: if the
      sender's loop appends the wire, the receive thread, fed by that same run, counts each message
      once, in sending order. */
  lemma RedisCountsEachOnce(
    trace: seq<RedisTheorems.Chain>, steps: seq<RedisTheorems.ChainStep>, maxlen: nat, n: nat, msgSize: nat,
    clock: seq<nat>, flags: seq<bool>, plan: Plan)
    requires RedisTheorems.IsChainRun(trace, steps, maxlen) && n <= |steps| == |clock| == |flags|
    requires StaysWithinCap(trace, n, maxlen) && ReceivesMessages(steps, n, msgSize)
    requires IsWire(RedisSends(steps, n), msgSize)
    ensures forall e :: e in RedisEvents(trace, steps, n, msgSize, clock, flags) ==> HasHeader(e)
    ensures CountsEachOnce(RedisEvents(trace, steps, n, msgSize, clock, flags), plan)
    ensures Collect(RedisEvents(trace, steps, n, msgSize, clock, flags), plan, NOTHING_YET).received
         <= |trace[n].c2s.all|
  {
    var events := RedisEvents(trace, steps, n, msgSize, clock, flags);
    ArrivalsAreTheStreams(trace, steps, maxlen, n, msgSize, clock, flags);
    AppendsAreTheSends(trace, steps, maxlen, n);
    TakenIsOnTheWire(trace, steps, maxlen, n);
    ReadOffTheWire(events, RedisSends(steps, n), msgSize);
    InOrderAccounting(events, plan, RedisSends(steps, n), msgSize);
  }
}

/** The code of `send` and `recv` under interference: while one side waits, the other side's steps
    interleave with its loads, each load returns any coherent write, and the clock advances as it
    likes. Every such wait, given to the code as its script of polls, is a run of the protocol that
    makes exactly those loads and ends as the code ends. */
module RingScripts {
  import opened Basics
  import opened LittleEndian
  import opened Layout
  import opened RingProtocol
  import opened RingInvariant
  import opened RingTheorems
  import opened FlatRing
  import opened MappedRing
  import opened RingCode
  import opened Transport

  lemma FirstOfBoth<T>(first: seq<T>, rest: seq<T>)
    requires first != []
    ensures first + rest == [first[0]] + (first[1..] + rest)
  {
  }

  lemma {:induction false} LeadsThen(
    b: Bytes, r: Ring, first: seq<Step>, b1: Bytes, r1: Ring, rest: seq<Step>, b2: Bytes, r2: Ring)
    requires Leads(b, r, first, b1, r1) && Leads(b1, r1, rest, b2, r2)
    ensures Leads(b, r, first + rest, b2, r2)
    decreases |first|
  {
    if first == [] {
      assert first + rest == rest;
    } else {
      LeadsThen(FlatStore(b, r, first[0]), Apply(r, first[0]), first[1..], b1, r1, rest, b2, r2);
      LeadsBy(b, r, first[0], first[1..] + rest, b2, r2);
      FirstOfBoth(first, rest);
    }
  }

  lemma CountersMoveByOne(r: Ring, st: Step)
    requires WellFormed(r) && Enabled(r, st)
    ensures Apply(r, st).p.nextSeq <= r.p.nextSeq + 1 && Apply(r, st).c.nextSeq <= r.c.nextSeq + 1
  {
  }

  /** Along any steps the invariant and the simulation hold on, while the counters fit 64 bits. */
  lemma {:induction false} SimulatesAlong(b: Bytes, r: Ring, steps: seq<Step>, b': Bytes, r': Ring)
    requires Inv(r) && Simulates(b, r) && Leads(b, r, steps, b', r')
    requires r.p.nextSeq + |steps| < U64_LIMIT && r.c.nextSeq + |steps| < U64_LIMIT
    ensures Inv(r') && Simulates(b', r') && r'.size == r.size && r'.capacity == r.capacity
    decreases |steps|
  {
    if steps != [] {
      StepKeeps(r, steps[0]);
      CountersMoveByOne(r, steps[0]);
      ApplyIsWellFormed(r, steps[0]);
      FlatArraySimulatesProtocol(b, r, steps[0]);
      SimulatesAlong(FlatStore(b, r, steps[0]), Apply(r, steps[0]), steps[1..], b', r');
    }
  }

  /** The same without the bytes. */
  ghost predicate RunsTo(r: Ring, steps: seq<Step>, r': Ring)
    decreases |steps|
  {
    if steps == [] then r' == r
    else WellFormed(r) && Enabled(r, steps[0]) && RunsTo(Apply(r, steps[0]), steps[1..], r')
  }

  lemma {:induction false} LeadingIsRunning(b: Bytes, r: Ring, steps: seq<Step>, b': Bytes, r': Ring)
    requires Leads(b, r, steps, b', r')
    ensures RunsTo(r, steps, r')
    decreases |steps|
  {
    if steps != [] {
      LeadingIsRunning(FlatStore(b, r, steps[0]), Apply(r, steps[0]), steps[1..], b', r');
    }
  }

  // ------------------------------------------------------------------- send

  /** What happens while a `send` waits for room: its own loads, and anything the consumer does. */
  ghost predicate WaitsForRoom(wait: seq<Step>) {
    forall st :: st in wait ==> !IsProducerStep(st) || st.LoadCursor?
  }

  /** The loads of a wait as the code sees them: the value returned, and the clock at that step. */
  ghost function CursorPolls(r: Ring, wait: seq<Step>, clock: seq<nat>): seq<CursorPoll>
    requires |clock| == |wait|
    decreases |wait|
  {
    if wait == [] || !WellFormed(r) || !Enabled(r, wait[0]) then []
    else
      (if wait[0].LoadCursor? then [CursorPoll(r.cursor[wait[0].j].val, clock[0])] else [])
      + CursorPolls(Apply(r, wait[0]), wait[1..], clock[1..])
  }

  /** The code polls on only while the deadline has not passed. */
  ghost predicate NoneLateBeforeTheLast(polls: seq<CursorPoll>, deadline: nat) {
    forall x :: 0 <= x < |polls| - 1 ==> polls[x].now <= deadline
  }

  /** The producer's own view of a wait. */
  ghost predicate SameSend(r: Ring, r': Ring) {
    && r'.p.nextSeq == r.p.nextSeq && r'.p.msg == r.p.msg && r'.p.copied == r.p.copied
    && r'.sent == r.sent && r'.size == r.size && r'.capacity == r.capacity
    && |r.received| <= |r'.received|
  }

  lemma ConsumerStepLeavesTheSend(r: Ring, st: Step)
    requires Inv(r) && Enabled(r, st) && !IsProducerStep(st)
    ensures Inv(Apply(r, st)) && SameSend(r, Apply(r, st)) && Apply(r, st).p == r.p
  {
    StepKeeps(r, st);
  }

  /** Once there is room the producer loads no more. */
  lemma {:induction false} NoLoadsOnceThereIsRoom(
    r: Ring, wait: seq<Step>, clock: seq<nat>, rw: Ring)
    requires Inv(r) && r.p.phase.Fill? && RunsTo(r, wait, rw)
    requires WaitsForRoom(wait) && |clock| == |wait|
    ensures CursorPolls(r, wait, clock) == [] && Inv(rw) && rw.p == r.p && SameSend(r, rw)
    decreases |wait|
  {
    if wait != [] {
      ConsumerStepLeavesTheSend(r, wait[0]);
      NoLoadsOnceThereIsRoom(Apply(r, wait[0]), wait[1..], clock[1..], rw);
    }
  }

  lemma OneLoad(r: Ring, j: nat)
    requires Inv(r) && Enabled(r, LoadCursor(j))
    ensures var r' := Apply(r, LoadCursor(j));
            && Inv(r') && SameSend(r, r') && r'.received == r.received
            && r'.p.cachedCursor == r.cursor[j].val <= |r.received|
            && (r'.p.phase.Fill? || r'.p.phase.Full?)
            && (r'.p.phase.Fill? <==> r.p.nextSeq - r.cursor[j].val < r.capacity)
  {
    LoadCursorKeeps(r, j);
    LoadedCursor(r, j);
  }

  ghost predicate PollsUpTo(polls: seq<CursorPoll>, bound: nat) {
    forall x :: 0 <= x < |polls| ==> polls[x].cursor <= bound
  }

  lemma FirstPoll(
    poll: CursorPoll, later: seq<CursorPoll>, nextSeq: nat, cached: nat, capacity: Positive, deadline: nat)
    requires NoneLateBeforeTheLast([poll] + later, deadline)
    ensures NoneLateBeforeTheLast(later, deadline)
    ensures later != [] ==> poll.now <= deadline
    ensures WaitForRoom([poll] + later, nextSeq, cached, capacity, deadline)
         == if Decides(poll, nextSeq, capacity, deadline) then (nextSeq - poll.cursor < capacity, poll.cursor)
            else WaitForRoom(later, nextSeq, poll.cursor, capacity, deadline)
  {
    var polls := [poll] + later;
    assert polls[1..] == later;
    forall x | 0 <= x < |later| - 1
      ensures later[x].now <= deadline
    {
      assert polls[x + 1] == later[x];
    }
    if later != [] {
      assert polls[0] == poll;
    }
  }

  /** The polls decide the producer's wait exactly as they decide the code's. */
  ghost predicate SendDecided(r: Ring, polls: seq<CursorPoll>, deadline: nat, rw: Ring) {
    && Inv(rw) && SameSend(r, rw) && PollsUpTo(polls, |rw.received|)
    && (rw.p.phase.Refresh? || rw.p.phase.Full? || rw.p.phase.Fill?)
    && (polls != [] || r.p.phase.Full? ==> !rw.p.phase.Refresh?)
    && WaitForRoom(polls, r.p.nextSeq, r.p.cachedCursor, r.capacity, deadline) == (rw.p.phase.Fill?, rw.p.cachedCursor)
  }

  lemma DecidedAfterTheConsumer(r: Ring, st: Step, polls: seq<CursorPoll>, deadline: nat, rw: Ring)
    requires Inv(r) && Enabled(r, st) && !IsProducerStep(st)
    requires SendDecided(Apply(r, st), polls, deadline, rw)
    ensures SendDecided(r, polls, deadline, rw)
  {
    ConsumerStepLeavesTheSend(r, st);
  }

  lemma DecidedAfterALoad(
    r: Ring, j: nat, poll: CursorPoll, later: seq<CursorPoll>, deadline: nat, rw: Ring)
    requires Inv(r) && Enabled(r, LoadCursor(j)) && poll.cursor == r.cursor[j].val
    requires NoneLateBeforeTheLast([poll] + later, deadline)
    requires Apply(r, LoadCursor(j)).p.phase.Full? && SendDecided(Apply(r, LoadCursor(j)), later, deadline, rw)
    ensures SendDecided(r, [poll] + later, deadline, rw)
  {
    OneLoad(r, j);
    FirstPoll(poll, later, r.p.nextSeq, r.p.cachedCursor, r.capacity, deadline);
    PollsFromTheFirst(poll, later, |rw.received|);
  }

  lemma PollsFromTheFirst(poll: CursorPoll, later: seq<CursorPoll>, bound: nat)
    requires poll.cursor <= bound && PollsUpTo(later, bound)
    ensures PollsUpTo([poll] + later, bound)
  {
  }

  lemma DecidedByALoad(r: Ring, j: nat, poll: CursorPoll, deadline: nat, rw: Ring)
    requires Inv(r) && Enabled(r, LoadCursor(j)) && poll.cursor == r.cursor[j].val
    requires var r1 := Apply(r, LoadCursor(j)); r1.p.phase.Fill? && rw.p == r1.p && SameSend(r1, rw) && Inv(rw)
    ensures SendDecided(r, [poll], deadline, rw)
  {
    OneLoad(r, j);
  }

  lemma PollsOfALoad(r: Ring, wait: seq<Step>, clock: seq<nat>)
    requires WellFormed(r) && wait != [] && |clock| == |wait| && Enabled(r, wait[0]) && wait[0].LoadCursor?
    ensures CursorPolls(r, wait, clock)
         == [CursorPoll(r.cursor[wait[0].j].val, clock[0])] + CursorPolls(Apply(r, wait[0]), wait[1..], clock[1..])
  {
  }

  lemma LaterPollsAreNotLate(poll: CursorPoll, later: seq<CursorPoll>, deadline: nat)
    requires NoneLateBeforeTheLast([poll] + later, deadline)
    ensures NoneLateBeforeTheLast(later, deadline)
  {
    FirstPoll(poll, later, 0, 0, 1, deadline);
  }

  lemma PollsOfAConsumerStep(r: Ring, wait: seq<Step>, clock: seq<nat>)
    requires WellFormed(r) && wait != [] && |clock| == |wait| && Enabled(r, wait[0]) && !wait[0].LoadCursor?
    ensures CursorPolls(r, wait, clock) == CursorPolls(Apply(r, wait[0]), wait[1..], clock[1..])
  {
  }

  lemma LoadThatFindsRoom(r: Ring, wait: seq<Step>, clock: seq<nat>, deadline: nat, rw: Ring)
    requires Inv(r) && wait != [] && RunsTo(r, wait, rw) && WaitsForRoom(wait) && |clock| == |wait|
    requires wait[0].LoadCursor? && Apply(r, wait[0]).p.phase.Fill?
    ensures SendDecided(r, CursorPolls(r, wait, clock), deadline, rw)
  {
    OneLoad(r, wait[0].j);
    PollsOfALoad(r, wait, clock);
    NoLoadsOnceThereIsRoom(Apply(r, wait[0]), wait[1..], clock[1..], rw);
    DecidedByALoad(r, wait[0].j, CursorPoll(r.cursor[wait[0].j].val, clock[0]), deadline, rw);
  }

  lemma {:induction false} LoadsDecideTheSend(
    r: Ring, wait: seq<Step>, clock: seq<nat>, deadline: nat, rw: Ring)
    requires Inv(r) && (r.p.phase.Refresh? || r.p.phase.Full?) && RunsTo(r, wait, rw)
    requires WaitsForRoom(wait) && |clock| == |wait|
    requires NoneLateBeforeTheLast(CursorPolls(r, wait, clock), deadline)
    ensures SendDecided(r, CursorPolls(r, wait, clock), deadline, rw)
    decreases |wait|
  {
    if wait != [] {
      var r1 := Apply(r, wait[0]);
      var later := CursorPolls(r1, wait[1..], clock[1..]);
      if !wait[0].LoadCursor? {
        ConsumerStepLeavesTheSend(r, wait[0]);
        PollsOfAConsumerStep(r, wait, clock);
        LoadsDecideTheSend(r1, wait[1..], clock[1..], deadline, rw);
        DecidedAfterTheConsumer(r, wait[0], later, deadline, rw);
      } else if r1.p.phase.Fill? {
        LoadThatFindsRoom(r, wait, clock, deadline, rw);
      } else {
        OneLoad(r, wait[0].j);
        PollsOfALoad(r, wait, clock);
        LaterPollsAreNotLate(CursorPoll(r.cursor[wait[0].j].val, clock[0]), later, deadline);
        LoadsDecideTheSend(r1, wait[1..], clock[1..], deadline, rw);
        DecidedAfterALoad(r, wait[0].j, CursorPoll(r.cursor[wait[0].j].val, clock[0]), later, deadline, rw);
      }
    }
  }

  /** What `Send` returns for a state and its polls: success, and the cursor it then caches. */
  ghost function SendOutcome(r: Ring, polls: seq<CursorPoll>, began: nat): (bool, nat) {
    if r.p.nextSeq - r.p.cachedCursor < r.capacity then (true, r.p.cachedCursor)
    else WaitForRoom(polls, r.p.nextSeq, r.p.cachedCursor, r.capacity, began + FULL_TIMEOUT)
  }

  ghost predicate SomePollDecides(r: Ring, polls: seq<CursorPoll>, began: nat) {
    r.p.nextSeq - r.p.cachedCursor >= r.capacity ==>
      exists x :: 0 <= x < |polls| && Decides(polls[x], r.p.nextSeq, r.capacity, began + FULL_TIMEOUT)
  }

  /** A wait of `send`: from the call on, `wait` leads to (bw, rw), and the code's polls are its loads. */
  ghost predicate IsSendWait(
    b: Bytes, r: Ring, msg: Bytes, wait: seq<Step>, clock: seq<nat>, began: nat, bw: Bytes, rw: Ring)
  {
    && Inv(r) && |b| == Total(r.size, r.capacity) && Enabled(r, SendCall(msg))
    && Leads(b, Apply(r, SendCall(msg)), wait, bw, rw) && WaitsForRoom(wait) && |clock| == |wait|
    && var polls := CursorPolls(Apply(r, SendCall(msg)), wait, clock);
       NoneLateBeforeTheLast(polls, began + FULL_TIMEOUT) && SomePollDecides(r, polls, began)
  }

  lemma SendWaitEnds(
    b: Bytes, r: Ring, msg: Bytes, wait: seq<Step>, clock: seq<nat>, began: nat, bw: Bytes, rw: Ring)
    requires IsSendWait(b, r, msg, wait, clock, began, bw, rw)
    ensures var polls := CursorPolls(Apply(r, SendCall(msg)), wait, clock);
            var (ok, cached) := SendOutcome(r, polls, began);
            && Inv(rw) && SameSend(Apply(r, SendCall(msg)), rw) && rw.p.cachedCursor == cached
            && r.p.cachedCursor <= |rw.received| && PollsUpTo(polls, |rw.received|)
            && (if ok then rw.p.phase.Fill? else rw.p.phase.Full?)
  {
    var r1 := Apply(r, SendCall(msg));
    StepKeeps(r, SendCall(msg));
    LeadingIsRunning(b, r1, wait, bw, rw);
    if r1.p.phase.Fill? {
      NoLoadsOnceThereIsRoom(r1, wait, clock, rw);
    } else {
      LoadsDecideTheSend(r1, wait, clock, began + FULL_TIMEOUT, rw);
      var polls := CursorPolls(r1, wait, clock);
      if !rw.p.phase.Fill? {
        assert polls != [];
      }
    }
  }

  /** For every script of coherent loads, with the consumer at work meanwhile, a call of `send` is the
      run of the protocol that makes those loads: it succeeds exactly when the code does, caches the
      same cursor, leaves the bytes the code leaves, and on a timeout nothing but its loads was done. */
  lemma SendIsTheRunOfItsLoads(
    b: Bytes, r: Ring, msg: Bytes, wait: seq<Step>, clock: seq<nat>, began: nat, bw: Bytes, rw: Ring)
    returns (steps: seq<Step>, b': Bytes, r': Ring)
    requires IsSendWait(b, r, msg, wait, clock, began, bw, rw)
    requires |bw| == Total(r.size, r.capacity)
    ensures Leads(b, r, [SendCall(msg)] + wait + steps, b', r') && r'.p.phase.Ready?
    ensures var (ok, cached) := SendOutcome(r, CursorPolls(Apply(r, SendCall(msg)), wait, clock), began);
            && r'.p.cachedCursor == cached
            && (ok ==> b' == Published(bw, r.size, r.capacity, r.p.nextSeq, msg)
                       && r'.sent == r.sent + [msg] && r'.p.nextSeq == r.p.nextSeq + 1)
            && (!ok ==> steps == [SendTimeout] && b' == bw
                        && r'.sent == r.sent && r'.p.nextSeq == r.p.nextSeq)
  {
    SendWaitEnds(b, r, msg, wait, clock, began, bw, rw);
    if rw.p.phase.Fill? {
      steps, r' := CopyAndStampFrom(bw, rw);
      b' := Published(bw, r.size, r.capacity, r.p.nextSeq, msg);
    } else {
      steps, b', r' := [SendTimeout], bw, Apply(rw, SendTimeout);
      LeadsBy(bw, rw, SendTimeout, [], bw, r');
    }
    CallWaitAndEnd(b, r, SendCall(msg), wait, bw, rw, steps, b', r');
  }

  lemma CopyAndStampFrom(b: Bytes, r: Ring) returns (steps: seq<Step>, r': Ring)
    requires WellFormed(r) && r.p.phase.Fill? && r.p.copied == {} && |b| == Total(r.size, r.capacity)
    ensures Leads(b, r, steps, Published(b, r.size, r.capacity, r.p.nextSeq, r.p.msg), r')
    ensures r'.sent == r.sent + [r.p.msg] && r'.p.phase.Ready? && r'.p.nextSeq == r.p.nextSeq + 1
    ensures r'.p.cachedCursor == r.p.cachedCursor
  {
    steps, r' := CopyAndStamp(b, r, 0);
    assert r.p.msg[0..] == r.p.msg;
  }

  lemma CallWaitAndEnd(
    b: Bytes, r: Ring, call: Step, wait: seq<Step>, bw: Bytes, rw: Ring, end: seq<Step>, b': Bytes, r': Ring)
    requires WellFormed(r) && Enabled(r, call) && |b| == Total(r.size, r.capacity)
    requires Leads(FlatStore(b, r, call), Apply(r, call), wait, bw, rw) && Leads(bw, rw, end, b', r')
    ensures Leads(b, r, [call] + wait + end, b', r')
  {
    LeadsBy(b, r, call, wait, bw, rw);
    LeadsThen(b, r, [call] + wait, bw, rw, end, b', r');
  }

  /** Every such wait meets what the method `Send` asks of its caller: the bytes at its end hold a
      queue that the sequence number continues, and no poll is ahead of the consumer. */
  lemma SendsCallersAreMet(
    b: Bytes, r: Ring, msg: Bytes, wait: seq<Step>, clock: seq<nat>, began: nat, bw: Bytes, rw: Ring)
    requires IsSendWait(b, r, msg, wait, clock, began, bw, rw) && Simulates(b, r)
    requires r.p.nextSeq + |wait| + 1 < U64_LIMIT && r.c.nextSeq + |wait| + 1 < U64_LIMIT
    ensures var polls := CursorPolls(Apply(r, SendCall(msg)), wait, clock);
            && |rw.received| <= |rw.sent|
            && HoldsQueue(bw, r.size, r.capacity, |rw.received|, Queue(rw))
            && r.p.nextSeq == |rw.received| + |Queue(rw)|
            && r.p.cachedCursor <= |rw.received| && PollsUpTo(polls, |rw.received|)
  {
    SendWaitEnds(b, r, msg, wait, clock, began, bw, rw);
    StepKeeps(r, SendCall(msg));
    OtherStepsSimulate(b, r, SendCall(msg));
    SimulatesAlong(b, Apply(r, SendCall(msg)), wait, bw, rw);
    SimulatedBytesHoldTheQueue(bw, rw);
  }

  // ------------------------------------------------------------------- recv

  /** What happens while a `recv` waits for its stamp: its own loads, and anything the producer does. */
  ghost predicate WaitsForStamp(wait: seq<Step>) {
    forall st :: st in wait ==> IsProducerStep(st) || st.LoadStamp?
  }

  ghost function StampPolls(r: Ring, wait: seq<Step>, clock: seq<nat>): seq<StampPoll>
    requires |clock| == |wait|
    decreases |wait|
  {
    if wait == [] || !WellFormed(r) || !Enabled(r, wait[0]) then []
    else
      (if wait[0].LoadStamp? then [StampPoll(r.stamps[Slot(r, r.c.nextSeq)][wait[0].j].val, clock[0])] else [])
      + StampPolls(Apply(r, wait[0]), wait[1..], clock[1..])
  }

  ghost predicate SameRecv(r: Ring, r': Ring) {
    && r'.c.nextSeq == r.c.nextSeq && r'.c.buf == r.c.buf && r'.c.copied == r.c.copied
    && r'.received == r.received && r'.size == r.size && r'.capacity == r.capacity
  }

  lemma ProducerStepLeavesTheRecv(r: Ring, st: Step)
    requires Inv(r) && Enabled(r, st) && IsProducerStep(st)
    ensures Inv(Apply(r, st)) && SameRecv(r, Apply(r, st)) && Apply(r, st).c == r.c
  {
    StepKeeps(r, st);
  }

  lemma OneStampLoad(r: Ring, j: nat)
    requires Inv(r) && Enabled(r, LoadStamp(j))
    ensures var r' := Apply(r, LoadStamp(j));
            && Inv(r') && SameRecv(r, r') && r'.sent == r.sent
            && (r'.c.phase.Drain? || r'.c.phase.Missed?)
            && (r'.c.phase.Drain? <==> r.stamps[Slot(r, r.c.nextSeq)][j].val == r.c.nextSeq + 1)
  {
    LoadStampKeeps(r, j);
  }

  /** Once the stamp matched the consumer polls no more. */
  lemma {:induction false} NoPollsOnceMatched(
    r: Ring, wait: seq<Step>, clock: seq<nat>, rw: Ring)
    requires Inv(r) && r.c.phase.Drain? && RunsTo(r, wait, rw)
    requires WaitsForStamp(wait) && |clock| == |wait|
    ensures StampPolls(r, wait, clock) == [] && Inv(rw) && rw.c == r.c && SameRecv(r, rw)
    decreases |wait|
  {
    if wait != [] {
      ProducerStepLeavesTheRecv(r, wait[0]);
      NoPollsOnceMatched(Apply(r, wait[0]), wait[1..], clock[1..], rw);
    }
  }

  ghost predicate OnlyTheLastMayMatch(polls: seq<StampPoll>, want: nat) {
    forall x :: 0 <= x < |polls| - 1 ==> polls[x].stamp != want
  }

  lemma OneMorePollInFront(poll: StampPoll, later: seq<StampPoll>, want: nat)
    requires OnlyTheLastMayMatch(later, want) && (later == [] || poll.stamp != want)
    ensures OnlyTheLastMayMatch([poll] + later, want)
    ensures later != [] ==> ([poll] + later)[|later|] == later[|later| - 1]
  {
  }

  /** The consumer leaves its wait exactly with a poll that returned the awaited stamp. */
  ghost predicate RecvDecided(r: Ring, polls: seq<StampPoll>, rw: Ring) {
    && Inv(rw) && SameRecv(r, rw) && OnlyTheLastMayMatch(polls, r.c.nextSeq + 1)
    && (polls == [] ==> rw.c.phase == r.c.phase)
    && (polls != [] ==>
          if polls[|polls| - 1].stamp == r.c.nextSeq + 1 then rw.c.phase.Drain? else rw.c.phase.Missed?)
  }

  lemma DecidedAfterTheProducer(r: Ring, st: Step, polls: seq<StampPoll>, rw: Ring)
    requires Inv(r) && Enabled(r, st) && IsProducerStep(st)
    requires RecvDecided(Apply(r, st), polls, rw)
    ensures RecvDecided(r, polls, rw)
  {
    ProducerStepLeavesTheRecv(r, st);
  }

  lemma MissedBefore(r: Ring, j: nat, poll: StampPoll, later: seq<StampPoll>, rw: Ring)
    requires Inv(r) && Enabled(r, LoadStamp(j)) && poll.stamp == r.stamps[Slot(r, r.c.nextSeq)][j].val
    requires Apply(r, LoadStamp(j)).c.phase.Missed? && RecvDecided(Apply(r, LoadStamp(j)), later, rw)
    ensures RecvDecided(r, [poll] + later, rw)
  {
    OneStampLoad(r, j);
    OneMorePollInFront(poll, later, r.c.nextSeq + 1);
  }

  lemma PollsOfAStampLoad(r: Ring, wait: seq<Step>, clock: seq<nat>)
    requires WellFormed(r) && wait != [] && |clock| == |wait| && Enabled(r, wait[0]) && wait[0].LoadStamp?
    ensures StampPolls(r, wait, clock)
         == [StampPoll(r.stamps[Slot(r, r.c.nextSeq)][wait[0].j].val, clock[0])]
            + StampPolls(Apply(r, wait[0]), wait[1..], clock[1..])
  {
  }

  lemma PollsOfAProducerStep(r: Ring, wait: seq<Step>, clock: seq<nat>)
    requires WellFormed(r) && wait != [] && |clock| == |wait| && Enabled(r, wait[0]) && !wait[0].LoadStamp?
    ensures StampPolls(r, wait, clock) == StampPolls(Apply(r, wait[0]), wait[1..], clock[1..])
  {
  }

  lemma LoadThatMatches(r: Ring, wait: seq<Step>, clock: seq<nat>, rw: Ring)
    requires Inv(r) && wait != [] && RunsTo(r, wait, rw) && WaitsForStamp(wait) && |clock| == |wait|
    requires wait[0].LoadStamp? && Apply(r, wait[0]).c.phase.Drain?
    ensures RecvDecided(r, StampPolls(r, wait, clock), rw)
  {
    OneStampLoad(r, wait[0].j);
    PollsOfAStampLoad(r, wait, clock);
    NoPollsOnceMatched(Apply(r, wait[0]), wait[1..], clock[1..], rw);
  }

  lemma {:induction false} LoadsDecideTheRecv(
    r: Ring, wait: seq<Step>, clock: seq<nat>, rw: Ring)
    requires Inv(r) && (r.c.phase.Poll? || r.c.phase.Missed?) && RunsTo(r, wait, rw)
    requires WaitsForStamp(wait) && |clock| == |wait|
    ensures RecvDecided(r, StampPolls(r, wait, clock), rw)
    decreases |wait|
  {
    if wait != [] {
      var r1 := Apply(r, wait[0]);
      var later := StampPolls(r1, wait[1..], clock[1..]);
      if !wait[0].LoadStamp? {
        ProducerStepLeavesTheRecv(r, wait[0]);
        PollsOfAProducerStep(r, wait, clock);
        LoadsDecideTheRecv(r1, wait[1..], clock[1..], rw);
        DecidedAfterTheProducer(r, wait[0], later, rw);
      } else if r1.c.phase.Drain? {
        LoadThatMatches(r, wait, clock, rw);
      } else {
        OneStampLoad(r, wait[0].j);
        PollsOfAStampLoad(r, wait, clock);
        LoadsDecideTheRecv(r1, wait[1..], clock[1..], rw);
        MissedBefore(r, wait[0].j, StampPoll(r.stamps[Slot(r, r.c.nextSeq)][wait[0].j].val, clock[0]), later, rw);
      }
    }
  }

  /** A poll loop that was still waiting before its last poll matches exactly if that poll does. */
  lemma {:induction false} LastPollDecides(polls: seq<StampPoll>, want: nat, misses: nat, deadline: Deadline)
    requires polls != [] && OnlyTheLastMayMatch(polls, want)
    requires PollLoop(polls[..|polls| - 1], want, misses, deadline) == Waiting
    ensures PollLoop(polls, want, misses, deadline) == Matched <==> polls[|polls| - 1].stamp == want
  {
    if |polls| > 1 {
      var front, later := polls[..|polls| - 1], polls[1..];
      assert polls[0].stamp != want && front[0] == polls[0];
      assert front[1..] == later[..|later| - 1];
      forall x | 0 <= x < |later| - 1
        ensures later[x].stamp != want
      {
        assert later[x] == polls[x + 1];
      }
      var missed := (misses + 1) % U32_LIMIT;
      if missed < SPIN_POLLS || missed % SPIN_STRIDE != 0 || deadline.Expires? {
        LastPollDecides(later, want, missed, deadline);
      } else {
        LastPollDecides(later, want, missed, Expires(polls[0].now + RECV_TIMEOUT));
      }
    }
  }

  /** A wait of `recv`: the code's polls are its loads, and the last of them ends the code's loop. */
  ghost predicate IsRecvWait(
    b: Bytes, r: Ring, buf: Bytes, wait: seq<Step>, clock: seq<nat>, bw: Bytes, rw: Ring)
  {
    && Inv(r) && |b| == Total(r.size, r.capacity) && Enabled(r, RecvCall(buf))
    && Leads(b, Apply(r, RecvCall(buf)), wait, bw, rw) && WaitsForStamp(wait) && |clock| == |wait|
    && var polls := StampPolls(Apply(r, RecvCall(buf)), wait, clock);
       && polls != [] && PollLoop(polls, r.c.nextSeq + 1, 0, Unset) != Waiting
       && PollLoop(polls[..|polls| - 1], r.c.nextSeq + 1, 0, Unset) == Waiting
  }

  /** The code's loop ends the way the protocol's wait does. */
  lemma RecvWaitEnds(
    b: Bytes, r: Ring, buf: Bytes, wait: seq<Step>, clock: seq<nat>, bw: Bytes, rw: Ring)
    requires IsRecvWait(b, r, buf, wait, clock, bw, rw)
    ensures var polls := StampPolls(Apply(r, RecvCall(buf)), wait, clock);
            && Inv(rw) && SameRecv(Apply(r, RecvCall(buf)), rw)
            && (if PollLoop(polls, r.c.nextSeq + 1, 0, Unset) == Matched then rw.c.phase.Drain? else rw.c.phase.Missed?)
  {
    StepKeeps(r, RecvCall(buf));
    LeadingIsRunning(b, Apply(r, RecvCall(buf)), wait, bw, rw);
    LoadsDecideTheRecv(Apply(r, RecvCall(buf)), wait, clock, rw);
    LastPollDecides(StampPolls(Apply(r, RecvCall(buf)), wait, clock), r.c.nextSeq + 1, 0, Unset);
  }

  /** For every script of coherent loads, with the producer at work meanwhile, a call of `recv` is the
      run of the protocol that makes those loads: it gets a message exactly when the code does, the
      first of the queue, copied out of the same bytes; on a timeout nothing but its loads was done. */
  lemma RecvIsTheRunOfItsLoads(
    b: Bytes, r: Ring, buf: Bytes, wait: seq<Step>, clock: seq<nat>, bw: Bytes, rw: Ring)
    returns (steps: seq<Step>, b': Bytes, r': Ring)
    requires IsRecvWait(b, r, buf, wait, clock, bw, rw) && Simulates(b, r)
    requires r.p.nextSeq + |wait| + 1 < U64_LIMIT && r.c.nextSeq + |wait| + 1 < U64_LIMIT
    ensures |bw| == Total(r.size, r.capacity) && |rw.received| <= |rw.sent|
    ensures HoldsQueue(bw, r.size, r.capacity, r.c.nextSeq, Queue(rw))
    ensures Leads(b, r, [RecvCall(buf)] + wait + steps, b', r') && r'.c.phase.Idle?
    ensures var polls := StampPolls(Apply(r, RecvCall(buf)), wait, clock);
            var matched := PollLoop(polls, r.c.nextSeq + 1, 0, Unset) == Matched;
            && (matched ==>
                  && |Queue(rw)| > 0 && b' == Released(bw, r.size, r.capacity, r.c.nextSeq)
                  && r'.c.buf == PayloadAt(bw, r.size, r.capacity, r.c.nextSeq) == Queue(rw)[0]
                  && r'.received == r.received + [r'.c.buf] && r'.c.nextSeq == r.c.nextSeq + 1)
            && (!matched ==>
                  && steps == [RecvTimeout] && b' == bw && r'.c.buf == buf
                  && r'.received == r.received && r'.c.nextSeq == r.c.nextSeq)
  {
    RecvWaitEnds(b, r, buf, wait, clock, bw, rw);
    WaitSimulates(b, r, buf, wait, bw, rw);
    steps, b', r' := EndOfRecv(bw, rw);
    CallWaitAndEnd(b, r, RecvCall(buf), wait, bw, rw, steps, b', r');
  }

  /** What `recv` still does once its wait is decided. */
  lemma EndOfRecv(b: Bytes, r: Ring) returns (steps: seq<Step>, b': Bytes, r': Ring)
    requires |b| == Total(r.size, r.capacity)
    requires Inv(r) && Simulates(b, r) && (r.c.phase.Drain? || r.c.phase.Missed?) && r.c.copied == {}
    ensures |r.received| <= |r.sent| && Leads(b, r, steps, b', r') && r'.c.phase.Idle?
    ensures r.c.phase.Drain? ==>
              && |Queue(r)| > 0 && b' == Released(b, r.size, r.capacity, r.c.nextSeq)
              && r'.c.buf == PayloadAt(b, r.size, r.capacity, r.c.nextSeq) == Queue(r)[0]
              && r'.received == r.received + [r'.c.buf] && r'.c.nextSeq == r.c.nextSeq + 1
    ensures r.c.phase.Missed? ==>
              && steps == [RecvTimeout] && b' == b && r'.c.buf == r.c.buf
              && r'.received == r.received && r'.c.nextSeq == r.c.nextSeq
  {
    if r.c.phase.Drain? {
      steps, r' := CopyOutAndRelease(b, r, 0);
      b' := Released(b, r.size, r.capacity, r.c.nextSeq);
      PayloadIsTheNextMessage(b, r);
    } else {
      steps, b', r' := [RecvTimeout], b, Apply(r, RecvTimeout);
      LeadsBy(b, r, RecvTimeout, [], b, r');
    }
  }

  lemma WaitSimulates(b: Bytes, r: Ring, buf: Bytes, wait: seq<Step>, bw: Bytes, rw: Ring)
    requires Inv(r) && Simulates(b, r) && Enabled(r, RecvCall(buf))
    requires Leads(b, Apply(r, RecvCall(buf)), wait, bw, rw)
    requires r.p.nextSeq + |wait| + 1 < U64_LIMIT && r.c.nextSeq + |wait| + 1 < U64_LIMIT
    ensures Inv(rw) && Simulates(bw, rw) && rw.size == r.size && rw.capacity == r.capacity
    ensures HoldsQueue(bw, rw.size, rw.capacity, |rw.received|, Queue(rw))
  {
    StepKeeps(r, RecvCall(buf));
    OtherStepsSimulate(b, r, RecvCall(buf));
    SimulatesAlong(b, Apply(r, RecvCall(buf)), wait, bw, rw);
    SimulatedBytesHoldTheQueue(bw, rw);
  }
}

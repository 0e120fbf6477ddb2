/** The queue the ring promises to be. */
module BoundedFifo {
  datatype Op<T> = Skip | Put(x: T) | Take(x: T)

  ghost predicate FifoStep<T>(capacity: nat, q: seq<T>, op: Op<T>, q': seq<T>) {
    match op
    case Skip => q' == q
    case Put(x) => |q| < capacity && q' == q + [x]
    case Take(x) => q == [x] + q'
  }
}

/** What the ring guarantees over every run, however its steps interleave and however stale its
    loads are. */
module RingTheorems {
  import opened Basics
  import opened Memory
  import opened RingProtocol
  import opened RingInvariant
  import opened BoundedFifo

  ghost predicate IsRun(trace: seq<Ring>, steps: seq<Step>) {
    && |trace| == |steps| + 1
    && trace[0] == Fresh(trace[0].capacity, trace[0].size)
    && forall i {:trigger steps[i]} :: 0 <= i < |steps| ==>
         && WellFormed(trace[i]) && Enabled(trace[i], steps[i])
         && trace[i + 1] == Apply(trace[i], steps[i])
  }

  lemma {:induction false} RunKeeps(trace: seq<Ring>, steps: seq<Step>, n: nat)
    requires IsRun(trace, steps) && n < |trace|
    ensures Inv(trace[n])
    ensures trace[n].capacity == trace[0].capacity && trace[n].size == trace[0].size
  {
    if n == 0 {
      FreshKeeps(trace[0].capacity, trace[0].size);
    } else {
      RunKeeps(trace, steps, n - 1);
      StepKeeps(trace[n - 1], steps[n - 1]);
    }
  }

  /** The consumer has the producer's first messages, unchanged and in order, and at most a ring's
      worth is unread. */
  lemma ReceivedIsAPrefixOfSent(trace: seq<Ring>, steps: seq<Step>, n: nat)
    requires IsRun(trace, steps) && n < |trace|
    ensures trace[n].received <= trace[n].sent
    ensures |trace[n].sent| - |trace[n].received| <= trace[0].capacity
  {
    RunKeeps(trace, steps, n);
    BacklogFits(trace[n]);
  }

  // ------------------------------------------------------------ refinement

  ghost function Queue(r: Ring): seq<Bytes>
    requires |r.received| <= |r.sent|
  {
    r.sent[|r.received|..]
  }

  /** The stamp store is where a message enters the queue, the cursor store where it leaves. */
  ghost function Effect(r: Ring, st: Step): Op<Bytes> {
    match st
    case StoreStamp => Put(r.p.msg)
    case StoreCursor => Take(r.c.buf)
    case _ => Skip
  }

  lemma OtherStepsKeepTheQueue(r: Ring, st: Step)
    requires Inv(r) && Enabled(r, st) && Effect(r, st).Skip?
    ensures var r' := Apply(r, st); r'.sent == r.sent && r'.received == r.received
  {
  }

  /** Every micro-step, seen through Queue, is one operation of a bounded FIFO queue. */
  lemma StepRefinesFifo(r: Ring, st: Step)
    requires Inv(r) && Enabled(r, st)
    requires var r' := Apply(r, st); |r'.received| <= |r'.sent|
    ensures FifoStep(r.capacity, Queue(r), Effect(r, st), Queue(Apply(r, st)))
  {
    if st.StoreCursor? {
      DrainedMessage(r);
    } else if !st.StoreStamp? {
      OtherStepsKeepTheQueue(r, st);
    }
  }

  /** Run by run: the queue starts empty and moves by queue operations only. */
  lemma RunRefinesFifo(trace: seq<Ring>, steps: seq<Step>)
    requires IsRun(trace, steps)
    ensures forall n :: 0 <= n < |trace| ==> |trace[n].received| <= |trace[n].sent|
    ensures Queue(trace[0]) == []
    ensures forall n :: 0 <= n < |steps| ==>
              FifoStep(trace[0].capacity, Queue(trace[n]), Effect(trace[n], steps[n]), Queue(trace[n + 1]))
  {
    forall n | 0 <= n < |trace|
      ensures Inv(trace[n]) && trace[n].capacity == trace[0].capacity
    {
      RunKeeps(trace, steps, n);
    }
    forall n | 0 <= n < |steps| {
      StepRefinesFifo(trace[n], steps[n]);
    }
  }

  /** What the stamp store publishes is the message of the latest `send` call. */
  lemma {:induction false} PublishedMessageIsTheCallers(trace: seq<Ring>, steps: seq<Step>, n: nat) returns (i: nat)
    requires IsRun(trace, steps) && n < |trace| && !trace[n].p.phase.Ready?
    ensures i < n && steps[i] == SendCall(trace[n].p.msg)
    ensures forall x :: i < x < n ==> !steps[x].SendCall?
  {
    var before := trace[n - 1];
    assert Enabled(before, steps[n - 1]) && trace[n] == Apply(before, steps[n - 1]);
    if steps[n - 1].SendCall? {
      i := n - 1;
    } else {
      assert !before.p.phase.Ready? && trace[n].p.msg == before.p.msg;
      i := PublishedMessageIsTheCallers(trace, steps, n - 1);
    }
  }

  /** A `recv` that returns a message hands its caller the next message in sending order. */
  lemma RecvReturnsTheNextMessage(trace: seq<Ring>, steps: seq<Step>, n: nat)
    requires IsRun(trace, steps) && n < |steps| && steps[n].BumpConsumer?
    ensures var r := trace[n]; r.c.nextSeq < |r.sent| && r.c.buf == r.sent[r.c.nextSeq]
  {
    RunKeeps(trace, steps, n);
  }

  // ------------------------------------------------- no races, no torn slots

  /** Every plain access is ordered after each conflicting access of the other side by a Release
      store and an Acquire load. */
  ghost predicate RaceFree(r: Ring, st: Step)
    requires WellFormed(r) && Enabled(r, st)
  {
    match st
    case WriteByte(k) => r.lastRead[Cell(Slot(r, r.p.nextSeq), k)].at <= r.p.seen
    case ReadByte(k, j) =>
      forall w :: w in r.bytes[Cell(Slot(r, r.c.nextSeq), k)] ==> w.at <= r.c.seen
    case _ => true
  }

  lemma NoStepRaces(trace: seq<Ring>, steps: seq<Step>, n: nat)
    requires IsRun(trace, steps) && n < |steps|
    ensures RaceFree(trace[n], steps[n])
  {
    var r := trace[n];
    RunKeeps(trace, steps, n);
    match steps[n]
    case WriteByte(k) => ReadsOfFilledSlotAreSeen(r, k);
    case ReadByte(k, j) =>
      DrainReadsNewest(r, k, j);
      assert IsCell(r, Cell(Slot(r, r.c.nextSeq), k));
    case _ =>
  }

  /** The slot being filled and the slot being drained are never the same one. */
  lemma NoTornSlot(trace: seq<Ring>, steps: seq<Step>, n: nat)
    requires IsRun(trace, steps) && n < |trace|
    requires trace[n].p.phase.Fill? && trace[n].c.phase.Drain?
    ensures Slot(trace[n], trace[n].p.nextSeq) != Slot(trace[n], trace[n].c.nextSeq)
  {
    RunKeeps(trace, steps, n);
    FilledSlotIsFree(trace[n], trace[n].c.nextSeq);
  }

  /** A payload load returns the byte that was sent, and no other write is left for it to return. */
  lemma EveryByteReadIsTheByteSent(trace: seq<Ring>, steps: seq<Step>, n: nat, k: nat, j: nat)
    requires IsRun(trace, steps) && n < |steps| && steps[n] == ReadByte(k, j)
    ensures var r := trace[n];
            && r.c.nextSeq < |r.sent| && k < |r.sent[r.c.nextSeq]|
            && k < |trace[n + 1].c.buf| && trace[n + 1].c.buf[k] == r.sent[r.c.nextSeq][k]
            && forall j': nat :: Enabled(r, ReadByte(k, j')) ==> j' == j
  {
    RunKeeps(trace, steps, n);
    OnlyOneWriteIsLeftToRead(trace[n], k, j);
  }

  lemma OnlyOneWriteIsLeftToRead(r: Ring, k: nat, j: nat)
    requires Inv(r) && Enabled(r, ReadByte(k, j))
    ensures r.c.nextSeq < |r.sent| && k < |r.sent[r.c.nextSeq]|
    ensures Apply(r, ReadByte(k, j)).c.buf[k] == r.sent[r.c.nextSeq][k]
    ensures forall j': nat :: Enabled(r, ReadByte(k, j')) ==> j' == j
  {
    DrainReadsNewest(r, k, j);
    forall j': nat | Enabled(r, ReadByte(k, j'))
      ensures j' == j
    {
      DrainReadsNewest(r, k, j');
    }
  }

  // ---------------------------------------------------------- stamps, cursor

  /** Nothing clears a stamp when its slot is reused, yet a poll observes either the stamp it waits
      for or the one a lap before (on the first lap, 0). Any match means the message is published; a
      load of the newest stamp matches exactly when it is. */
  lemma PolledStampIsNeverFromALaterLap(trace: seq<Ring>, steps: seq<Step>, n: nat, j: nat)
    requires IsRun(trace, steps) && n < |steps| && steps[n] == LoadStamp(j)
    ensures var r := trace[n];
            var want := r.c.nextSeq + 1;
            var h := r.stamps[Slot(r, r.c.nextSeq)];
            && (h[j].val == want || h[j].val == if r.capacity < want then want - r.capacity else 0)
            && (h[j].val == want ==> r.c.nextSeq < |r.sent|)
            && (j == |h| - 1 ==> (h[j].val == want <==> r.c.nextSeq < |r.sent|))
  {
    RunKeeps(trace, steps, n);
    PollSees(trace[n], j);
  }

  /** What a slot that holds nothing new reads: 0 before its first use, and from then on the stamp of
      its last use. It is zero if and only if the first lap is still on. */
  lemma EmptySlotShowsItsLastStamp(trace: seq<Ring>, steps: seq<Step>, n: nat)
    requires IsRun(trace, steps) && n < |trace| && trace[n].c.nextSeq == |trace[n].sent|
    ensures WellFormed(trace[n])
    ensures var r := trace[n];
            var h := r.stamps[Slot(r, r.c.nextSeq)];
            && h != []
            && Newest(h).val == (if r.capacity <= r.c.nextSeq then r.c.nextSeq + 1 - r.capacity else 0)
            && (Newest(h).val == 0 <==> r.c.nextSeq < r.capacity)
  {
    var r := trace[n];
    RunKeeps(trace, steps, n);
    var h := r.stamps[Slot(r, r.c.nextSeq)];
    assert StampChain(h, Slot(r, r.c.nextSeq), r.capacity, |r.sent|, r.p.now);
    StaleStampIsALapBehind(h, |h| - 1, r.c.nextSeq, r.capacity, |r.sent|, r.p.now, r.c.seen);
  }

  /** `cached_cursor <= cursor <= next_seq` in every reachable state, and every cursor value a
      refresh may load lies between the cached one and the true one: the unsigned subtraction
      `next_seq - cached_cursor` never underflows. */
  lemma NeverUnderflows(trace: seq<Ring>, steps: seq<Step>, n: nat)
    requires IsRun(trace, steps) && n < |trace|
    ensures WellFormed(trace[n])
    ensures var r := trace[n];
            && r.p.cachedCursor <= |r.received| <= |r.sent|
            && r.p.cachedCursor <= r.p.nextSeq <= r.p.cachedCursor + r.capacity
            && r.cursor != [] && Newest(r.cursor).val == |r.received|
            && forall j: nat :: Enabled(r, LoadCursor(j)) ==>
                 r.p.cachedCursor <= r.cursor[j].val <= |r.received| <= r.p.nextSeq
  {
    var r := trace[n];
    RunKeeps(trace, steps, n);
    forall j: nat | Enabled(r, LoadCursor(j))
      ensures r.p.cachedCursor <= r.cursor[j].val <= |r.received| <= r.p.nextSeq
    {
      LoadedCursor(r, j);
    }
  }

  /** A run of `n` steps moves neither sequence counter beyond `n`, so 64-bit counters and stamps
      cannot wrap in a run shorter than 2^64 steps. */
  lemma {:induction false} CountersAreBoundedByTheRun(trace: seq<Ring>, steps: seq<Step>, n: nat)
    requires IsRun(trace, steps) && n < |trace|
    ensures trace[n].p.nextSeq <= n && trace[n].c.nextSeq <= n && |trace[n].sent| <= n
  {
    if n > 0 {
      RunKeeps(trace, steps, n - 1);
      CountersAreBoundedByTheRun(trace, steps, n - 1);
      StepKeeps(trace[n - 1], steps[n - 1]);
    }
  }

  // --------------------------------------------------------------- timeouts

  /** The producer's share of the shared state, and its counter. */
  ghost predicate ProducerIdleSince(r: Ring, r': Ring) {
    && r'.p.nextSeq == r.p.nextSeq && r'.sent == r.sent
    && r'.stamps == r.stamps && r'.bytes == r.bytes && r'.p.now == r.p.now
    && r'.size == r.size && r'.capacity == r.capacity
  }

  ghost predicate ConsumerIdleSince(r: Ring, r': Ring) {
    && r'.c.nextSeq == r.c.nextSeq && r'.received == r.received
    && r'.cursor == r.cursor && r'.lastRead == r.lastRead && r'.c.now == r.c.now
    && r'.size == r.size && r'.capacity == r.capacity
  }

  ghost predicate OnlyLoadsCursor(steps: seq<Step>, i: nat, n: nat) {
    n <= |steps| && forall x :: i < x < n && IsProducerStep(steps[x]) ==> steps[x].LoadCursor?
  }

  ghost predicate OnlyLoadsStamp(steps: seq<Step>, i: nat, n: nat) {
    n <= |steps| && forall x :: i < x < n && !IsProducerStep(steps[x]) ==> steps[x].LoadStamp?
  }

  lemma WaitingForRoom(r: Ring, st: Step)
    requires WellFormed(r) && Enabled(r, st) && (Apply(r, st).p.phase.Refresh? || Apply(r, st).p.phase.Full?)
    ensures ProducerIdleSince(r, Apply(r, st))
    ensures IsProducerStep(st) ==> st.SendCall? || st.LoadCursor?
    ensures !st.SendCall? ==> r.p.phase.Refresh? || r.p.phase.Full?
    ensures st.SendCall? ==> r.p.phase.Ready?
  {
  }

  lemma WaitingForStamp(r: Ring, st: Step)
    requires WellFormed(r) && Enabled(r, st) && (Apply(r, st).c.phase.Poll? || Apply(r, st).c.phase.Missed?)
    ensures ConsumerIdleSince(r, Apply(r, st))
    ensures !IsProducerStep(st) ==> st.RecvCall? || st.LoadStamp?
    ensures !st.RecvCall? ==> (r.c.phase.Poll? || r.c.phase.Missed?) && Apply(r, st).c.buf == r.c.buf
    ensures st.RecvCall? ==> r.c.phase.Idle? && Apply(r, st).c.buf == st.buf
  {
  }

  /** A producer waiting for room has done nothing but load the cursor since its call. */
  lemma {:induction false} WaitForRoomOnlyLoads(trace: seq<Ring>, steps: seq<Step>, n: nat) returns (i: nat)
    requires IsRun(trace, steps) && n < |trace| && (trace[n].p.phase.Refresh? || trace[n].p.phase.Full?)
    ensures i < n && steps[i].SendCall? && OnlyLoadsCursor(steps, i, n)
    ensures trace[i].p.phase.Ready? && ProducerIdleSince(trace[i], trace[n])
  {
    var before := trace[n - 1];
    assert Enabled(before, steps[n - 1]) && trace[n] == Apply(before, steps[n - 1]);
    WaitingForRoom(before, steps[n - 1]);
    if steps[n - 1].SendCall? {
      i := n - 1;
    } else {
      i := WaitForRoomOnlyLoads(trace, steps, n - 1);
    }
  }

  /** A consumer waiting for its stamp has done nothing but load it since its call. */
  lemma {:induction false} WaitForStampOnlyLoads(trace: seq<Ring>, steps: seq<Step>, n: nat) returns (i: nat)
    requires IsRun(trace, steps) && n < |trace| && (trace[n].c.phase.Poll? || trace[n].c.phase.Missed?)
    ensures i < n && steps[i].RecvCall? && OnlyLoadsStamp(steps, i, n)
    ensures trace[i].c.phase.Idle? && ConsumerIdleSince(trace[i], trace[n]) && trace[n].c.buf == steps[i].buf
  {
    var before := trace[n - 1];
    assert Enabled(before, steps[n - 1]) && trace[n] == Apply(before, steps[n - 1]);
    WaitingForStamp(before, steps[n - 1]);
    if steps[n - 1].RecvCall? {
      i := n - 1;
    } else {
      i := WaitForStampOnlyLoads(trace, steps, n - 1);
    }
  }

  /** A `send` that timed out, as a whole: from its call on, the producer only loaded the cursor;
      no byte, no stamp, no message and no sequence number came of it, so that the next call sends
      under the number this one would have had. */
  lemma TimedOutSendIsAStutter(trace: seq<Ring>, steps: seq<Step>, n: nat) returns (i: nat)
    requires IsRun(trace, steps) && n < |steps| && steps[n].SendTimeout?
    ensures i < n && steps[i].SendCall? && OnlyLoadsCursor(steps, i, n)
    ensures ProducerIdleSince(trace[i], trace[n + 1])
    ensures trace[i].p.phase.Ready? && trace[n + 1].p.phase.Ready?
  {
    assert Enabled(trace[n], steps[n]) && trace[n + 1] == Apply(trace[n], steps[n]);
    i := WaitForRoomOnlyLoads(trace, steps, n);
  }

  /** A `recv` that timed out, as a whole: from its call on, the consumer only loaded stamps; no
      payload byte was read, no cursor stored, the caller's buffer is as it was, and the next call
      waits for the same sequence number. */
  lemma TimedOutRecvIsAStutter(trace: seq<Ring>, steps: seq<Step>, n: nat) returns (i: nat)
    requires IsRun(trace, steps) && n < |steps| && steps[n].RecvTimeout?
    ensures i < n && steps[i].RecvCall? && OnlyLoadsStamp(steps, i, n)
    ensures ConsumerIdleSince(trace[i], trace[n + 1]) && trace[n + 1].c.buf == steps[i].buf
    ensures trace[i].c.phase.Idle? && trace[n + 1].c.phase.Idle?
  {
    assert Enabled(trace[n], steps[n]) && trace[n + 1] == Apply(trace[n], steps[n]);
    i := WaitForStampOnlyLoads(trace, steps, n);
  }

  /** A load that leaves the producer still short of room. */
  lemma LoadFoundFull(trace: seq<Ring>, steps: seq<Step>, n: nat)
    requires IsRun(trace, steps) && n < |steps| && steps[n].LoadCursor? && trace[n + 1].p.phase.Full?
    ensures var r, j := trace[n], steps[n].j;
            && j < |r.cursor| && r.cursor[j].val + trace[0].capacity == r.p.nextSeq == trace[n + 1].p.nextSeq
            && (j == |r.cursor| - 1 ==> |r.sent| - |r.received| == trace[0].capacity)
  {
    RunKeeps(trace, steps, n);
    LoadCursorKeeps(trace[n], steps[n].j);
  }

  /** Any other step after which it is short of room found it so. */
  lemma StillFull(trace: seq<Ring>, steps: seq<Step>, n: nat)
    requires IsRun(trace, steps) && n < |steps| && !steps[n].LoadCursor? && trace[n + 1].p.phase.Full?
    ensures trace[n].p == trace[n + 1].p && !steps[n].SendCall?
  {
    assert Enabled(trace[n], steps[n]) && trace[n + 1] == Apply(trace[n], steps[n]);
  }

  /** Whenever a send may fail, a load of the shared cursor made during that same call has shown a
      whole capacity unread; a stale cached cursor alone never fails it. If that load returned the
      newest cursor, the queue was truly full at that moment. */
  lemma {:induction false} SendFailsOnlyAfterARefresh(trace: seq<Ring>, steps: seq<Step>, n: nat)
    returns (i: nat, j: nat)
    requires IsRun(trace, steps) && n < |trace| && trace[n].p.phase.Full?
    ensures i < n && steps[i] == LoadCursor(j) && j < |trace[i].cursor|
    ensures forall x :: i <= x < n ==> !steps[x].SendCall?
    ensures trace[i].cursor[j].val + trace[0].capacity == trace[i].p.nextSeq == trace[n].p.nextSeq
    ensures j == |trace[i].cursor| - 1 ==> |trace[i].sent| - |trace[i].received| == trace[0].capacity
  {
    if steps[n - 1].LoadCursor? {
      LoadFoundFull(trace, steps, n - 1);
      i, j := n - 1, steps[n - 1].j;
    } else {
      StillFull(trace, steps, n - 1);
      i, j := SendFailsOnlyAfterARefresh(trace, steps, n - 1);
    }
  }

  // ------------------------------------------------ the orderings are needed

  /** The Acquire load is what rules the stale byte out: a run up to just before it, with the stamp
      already stored, in which the old content of the payload is still a coherent result of a payload
      load. */
  lemma BeforeTheAcquireAStaleByteIsReadable() returns (trace: seq<Ring>, steps: seq<Step>)
    ensures IsRun(trace, steps) && Inv(trace[|steps|])
    ensures var r := trace[|steps|];
            && Enabled(r, LoadStamp(1)) && r.sent == [[7]] && r.size == 1
            && var h := r.bytes[Cell(0, 0)];
               && h != [] && h[0].val == 0
               && Coherent(h, 0, r.c.seen)
               && !Coherent(h, 0, Apply(r, LoadStamp(1)).c.seen)
  {
    trace, steps := OneBytePolled();
  }

  /** On the second lap the stamp of an empty slot is not zero: a run of a one-slot ring that waits
      for message 1 on a slot still stamped for message 0. */
  lemma EmptySlotOnTheSecondLap() returns (trace: seq<Ring>, steps: seq<Step>)
    ensures IsRun(trace, steps) && Inv(trace[|steps|])
    ensures var r := trace[|steps|];
            && r.capacity == 1 && r.received == r.sent == [[7]] && r.c.nextSeq == 1 && r.c.phase.Idle?
            && r.stamps[0] != [] && Newest(r.stamps[0]).val == 1
  {
    trace, steps := OneByteDrained();
    trace, steps := Extend(trace, steps, StoreCursor);
    trace, steps := Extend(trace, steps, BumpConsumer);
    EmptySlotShowsItsLastStamp(trace, steps, |steps|);
  }

  lemma Extend(trace: seq<Ring>, steps: seq<Step>, st: Step) returns (trace': seq<Ring>, steps': seq<Step>)
    requires IsRun(trace, steps) && WellFormed(trace[|steps|]) && Enabled(trace[|steps|], st)
    ensures IsRun(trace', steps') && |steps'| == |steps| + 1
    ensures trace'[|steps'|] == Apply(trace[|steps|], st) && Inv(trace'[|steps'|])
  {
    trace', steps' := trace + [Apply(trace[|steps|], st)], steps + [st];
    forall i | 0 <= i < |steps'|
      ensures WellFormed(trace'[i]) && Enabled(trace'[i], steps'[i]) && trace'[i + 1] == Apply(trace'[i], steps'[i])
    {
      if i < |steps| {
        assert steps'[i] == steps[i] && trace'[i] == trace[i] && trace'[i + 1] == trace[i + 1];
      }
    }
    RunKeeps(trace', steps', |steps'|);
  }

  lemma OneByteDrained() returns (trace: seq<Ring>, steps: seq<Step>)
    ensures IsRun(trace, steps) && Inv(trace[|steps|])
    ensures var r := trace[|steps|];
            && Enabled(r, StoreCursor) && r.size == 1 && r.capacity == 1
            && r.sent == [[7]] && r.received == [] && r.c.nextSeq == 0
  {
    trace, steps := OneByteMatched();
    trace, steps := Extend(trace, steps, ReadByte(0, 1));
  }

  lemma OneByteMatched() returns (trace: seq<Ring>, steps: seq<Step>)
    ensures IsRun(trace, steps) && Inv(trace[|steps|])
    ensures var r := trace[|steps|];
            && Enabled(r, ReadByte(0, 1)) && r.size == 1 && r.capacity == 1 && r.c.copied == {}
            && r.sent == [[7]] && r.received == [] && r.c.nextSeq == 0
  {
    trace, steps := OneBytePolled();
    trace, steps := Extend(trace, steps, LoadStamp(1));
  }

  lemma OneBytePolled() returns (trace: seq<Ring>, steps: seq<Step>)
    ensures IsRun(trace, steps) && Inv(trace[|steps|])
    ensures var r := trace[|steps|];
            && Enabled(r, LoadStamp(1)) && r.size == 1 && r.capacity == 1 && r.c.copied == {}
            && r.sent == [[7]] && r.received == [] && r.c.nextSeq == 0
            && r.bytes[Cell(0, 0)] == [Write(0, 0), Write(7, 1)]
            && r.stamps[0] == [Write(0, 0), Write(1, 2)] && r.c.seen == 0
  {
    trace, steps := OneByteSent();
    trace, steps := Extend(trace, steps, RecvCall([0]));
  }

  lemma OneByteSent() returns (trace: seq<Ring>, steps: seq<Step>)
    ensures IsRun(trace, steps) && Inv(trace[|steps|])
    ensures var r := trace[|steps|];
            && r.size == 1 && r.capacity == 1 && r.sent == [[7]] && r.received == []
            && r.bytes[Cell(0, 0)] == [Write(0, 0), Write(7, 1)]
            && r.stamps[0] == [Write(0, 0), Write(1, 2)]
            && r.c == Fresh(1, 1).c
  {
    trace, steps := OneByteWritten();
    trace, steps := Extend(trace, steps, StoreStamp);
  }

  lemma OneByteWritten() returns (trace: seq<Ring>, steps: seq<Step>)
    ensures IsRun(trace, steps) && Inv(trace[|steps|])
    ensures var r := trace[|steps|];
            && Enabled(r, StoreStamp) && r.size == 1 && r.capacity == 1 && r.sent == [] && r.received == []
            && r.bytes[Cell(0, 0)] == [Write(0, 0), Write(7, 1)]
            && r.stamps == [[Write(0, 0)]] && r.c == Fresh(1, 1).c
            && r.p.nextSeq == 0 && r.p.now == 1 && r.p.msg == [7]
  {
    trace, steps := OneByteCalled();
    trace, steps := Extend(trace, steps, WriteByte(0));
  }

  lemma OneByteCalled() returns (trace: seq<Ring>, steps: seq<Step>)
    ensures IsRun(trace, steps) && Inv(trace[|steps|])
    ensures var r := trace[|steps|];
            && Enabled(r, WriteByte(0)) && r.size == 1 && r.capacity == 1 && r.sent == [] && r.received == []
            && r.bytes[Cell(0, 0)] == [Write(0, 0)]
            && r.stamps == [[Write(0, 0)]] && r.c == Fresh(1, 1).c
            && r.p.nextSeq == 0 && r.p.now == 0 && r.p.msg == [7]
  {
    var r := FreshByte();
    trace, steps := [r], [];
    trace, steps := Extend(trace, steps, SendCall([7]));
  }

  lemma FreshByte() returns (r: Ring)
    ensures Inv(r) && r == Fresh(1, 1) && IsCell(r, Cell(0, 0)) && r.p.phase.Ready?
    ensures r.size == 1 && r.capacity == 1 && r.sent == [] && r.c == Fresh(1, 1).c
    ensures r.p.nextSeq == 0 && r.p.now == 0 && r.p.cachedCursor == 0
    ensures r.bytes[Cell(0, 0)] == [Write(0, 0)] && r.stamps == [[Write(0, 0)]]
  {
    r := Fresh(1, 1);
    FreshKeeps(1, 1);
    assert IsCell(r, Cell(0, 0));
  }
}

/** The ring as one flat array of bytes, and its simulation of the slot-array view of the
    protocol. */
module FlatRing {
  import opened Basics
  import opened Memory
  import opened LittleEndian
  import opened Layout
  import opened RingProtocol
  import opened RingInvariant
  import opened RingTheorems

  function Patch(b: Bytes, off: nat, bs: Bytes): (b': Bytes)
    requires off + |bs| <= |b|
    ensures |b'| == |b|
    ensures forall k :: 0 <= k < |b| ==> b'[k] == if off <= k < off + |bs| then bs[k - off] else b[k]
  {
    b[..off] + bs + b[off + |bs|..]
  }

  function WordAt(b: Bytes, off: nat): nat
    requires off + 8 <= |b|
  {
    Decode(b[off..off + 8])
  }

  /** A store changes its own range and nothing else. */
  lemma PatchedRange(b: Bytes, off: nat, bs: Bytes, lo: nat, hi: nat)
    requires off + |bs| <= |b| && lo <= hi <= |b|
    ensures lo == off && hi == off + |bs| ==> Patch(b, off, bs)[lo..hi] == bs
    ensures hi <= off || off + |bs| <= lo ==> Patch(b, off, bs)[lo..hi] == b[lo..hi]
  {
  }

  lemma PatchedByte(b: Bytes, lo: nat, hi: nat, k: nat, v: Byte)
    requires lo + k < hi <= |b|
    ensures Patch(b, lo + k, [v])[lo..hi] == b[lo..hi][k := v]
  {
  }

  lemma StoredWord(b: Bytes, off: nat, v: nat)
    requires off + 8 <= |b| && v < U64_LIMIT
    ensures WordAt(Patch(b, off, U64(v)), off) == v
  {
    PatchedRange(b, off, U64(v), off, off + 8);
    U64RoundTrip(v);
  }

  // ------------------------------------------------------------- simulation

  /** The bytes agree with the newest write to every location of the protocol. */
  ghost predicate Simulates(b: Bytes, r: Ring)
    requires WellFormed(r)
  {
    && |b| == Total(r.size, r.capacity)
    && r.cursor != [] && CursorWord(b) == Newest(r.cursor).val
    && forall i :: 0 <= i < r.capacity ==> SimulatesSlot(b, r, i)
  }

  function CursorWord(b: Bytes): nat {
    if CURSOR_OFF + 8 <= |b| then WordAt(b, CURSOR_OFF) else 0
  }

  ghost predicate SimulatesSlot(b: Bytes, r: Ring, i: nat)
    requires WellFormed(r) && i < r.capacity
  {
    var off := SlotOff(i, r.size);
    && off + 8 + r.size <= |b|
    && r.stamps[i] != [] && WordAt(b, off) == Newest(r.stamps[i]).val
    && forall k :: 0 <= k < r.size ==> b[off + 8..off + 8 + r.size][k] == Newest(r.bytes[Cell(i, k)]).val
  }

  /** What each micro-step stores, at the offsets the source computes. */
  ghost function FlatStore(b: Bytes, r: Ring, st: Step): Bytes
    requires WellFormed(r) && Enabled(r, st) && |b| == Total(r.size, r.capacity)
  {
    match st
    case WriteByte(k) =>
      SlotInsideMapping(r.p.nextSeq % r.capacity, r.size, r.capacity);
      Patch(b, PayloadOff(r.p.nextSeq, r.size, r.capacity) + k, [r.p.msg[k]])
    case StoreStamp =>
      SlotInsideMapping(r.p.nextSeq % r.capacity, r.size, r.capacity);
      Patch(b, StampOff(r.p.nextSeq, r.size, r.capacity), U64(r.p.nextSeq + 1))
    case StoreCursor =>
      SlotInsideMapping(0, r.size, r.capacity);
      Patch(b, CURSOR_OFF, U64(r.c.nextSeq + 1))
    case _ => b
  }

  lemma SlotsApart(i: nat, j: nat, r: Ring)
    requires i < r.capacity && j < r.capacity && i != j
    ensures SlotOff(i, r.size) + 8 + r.size <= SlotOff(j, r.size)
         || SlotOff(j, r.size) + 8 + r.size <= SlotOff(i, r.size)
  {
    StrideHoldsASlot(r.size);
    if i < j {
      SlotsInOrder(i, j, r.size);
    } else {
      SlotsInOrder(j, i, r.size);
    }
  }

  /** A store outside slot `j` and outside the cursor leaves both as they read. */
  lemma PatchElsewhere(b: Bytes, off: nat, bs: Bytes, r: Ring, j: nat)
    requires j < r.capacity && |b| == Total(r.size, r.capacity) && off + |bs| <= |b|
    requires off + |bs| <= SlotOff(j, r.size) || SlotOff(j, r.size) + 8 + r.size <= off
    ensures SlotOff(j, r.size) + 8 + r.size <= |b|
    ensures var o := SlotOff(j, r.size);
            var b' := Patch(b, off, bs);
            && WordAt(b', o) == WordAt(b, o)
            && b'[o + 8..o + 8 + r.size] == b[o + 8..o + 8 + r.size]
  {
    SlotInsideMapping(j, r.size, r.capacity);
    PatchedRange(b, off, bs, SlotOff(j, r.size), SlotOff(j, r.size) + 8);
    PatchedRange(b, off, bs, SlotOff(j, r.size) + 8, SlotOff(j, r.size) + 8 + r.size);
  }

  lemma PatchBehindHeader(b: Bytes, off: nat, bs: Bytes)
    requires HEADER_BYTES <= off && off + |bs| <= |b|
    ensures CursorWord(Patch(b, off, bs)) == CursorWord(b)
    ensures Patch(b, off, bs)[..CURSOR_OFF] == b[..CURSOR_OFF]
  {
    PatchedRange(b, off, bs, CURSOR_OFF, CURSOR_OFF + 8);
  }

  /** Writing byte `k` of slot `i`, given what it does to the protocol's slot. */
  lemma PatchInSlot(b: Bytes, r: Ring, r': Ring, i: nat, k: nat, v: Byte)
    requires WellFormed(r) && WellFormed(r') && i < r.capacity && k < r.size && SimulatesSlot(b, r, i)
    requires r'.capacity == r.capacity && r'.size == r.size && r'.stamps[i] == r.stamps[i]
    requires forall x :: 0 <= x < r.size ==>
               Newest(r'.bytes[Cell(i, x)]).val == if x == k then v else Newest(r.bytes[Cell(i, x)]).val
    ensures SimulatesSlot(Patch(b, SlotOff(i, r.size) + 8 + k, [v]), r', i)
  {
    var o := SlotOff(i, r.size);
    PatchedRange(b, o + 8 + k, [v], o, o + 8);
    PatchedByte(b, o + 8, o + 8 + r.size, k, v);
  }

  /** A store outside slot `j`, by a step that leaves the protocol's slot `j` alone. */
  lemma OtherSlotStillSimulated(b: Bytes, off: nat, bs: Bytes, r: Ring, r': Ring, j: nat)
    requires WellFormed(r) && WellFormed(r') && j < r.capacity && SimulatesSlot(b, r, j)
    requires r'.capacity == r.capacity && r'.size == r.size && r'.stamps[j] == r.stamps[j]
    requires forall k :: 0 <= k < r.size ==> r'.bytes[Cell(j, k)] == r.bytes[Cell(j, k)]
    requires |b| == Total(r.size, r.capacity) && off + |bs| <= |b|
    requires off + |bs| <= SlotOff(j, r.size) || SlotOff(j, r.size) + 8 + r.size <= off
    ensures SimulatesSlot(Patch(b, off, bs), r', j)
  {
    PatchElsewhere(b, off, bs, r, j);
  }

  lemma WriteByteSimulates(b: Bytes, r: Ring, k: nat)
    requires WellFormed(r) && Enabled(r, WriteByte(k)) && Simulates(b, r)
    requires WellFormed(Apply(r, WriteByte(k)))
    ensures Simulates(FlatStore(b, r, WriteByte(k)), Apply(r, WriteByte(k)))
    ensures FlatStore(b, r, WriteByte(k))[..CURSOR_OFF] == b[..CURSOR_OFF]
  {
    var i := Slot(r, r.p.nextSeq);
    var r' := Apply(r, WriteByte(k));
    var b' := FlatStore(b, r, WriteByte(k));
    SlotInsideMapping(i, r.size, r.capacity);
    PatchBehindHeader(b, SlotOff(i, r.size) + 8 + k, [r.p.msg[k]]);
    forall j | 0 <= j < r.capacity
      ensures SimulatesSlot(b', r', j)
    {
      if j == i {
        PatchInSlot(b, r, r', i, k, r.p.msg[k]);
      } else {
        SlotsApart(i, j, r);
        OtherSlotStillSimulated(b, SlotOff(i, r.size) + 8 + k, [r.p.msg[k]], r, r', j);
      }
    }
  }

  lemma StampInItsSlot(b: Bytes, r: Ring)
    requires WellFormed(r) && Enabled(r, StoreStamp) && |b| == Total(r.size, r.capacity)
    requires SimulatesSlot(b, r, Slot(r, r.p.nextSeq)) && WellFormed(Apply(r, StoreStamp))
    requires r.p.nextSeq + 1 < U64_LIMIT
    ensures SimulatesSlot(FlatStore(b, r, StoreStamp), Apply(r, StoreStamp), Slot(r, r.p.nextSeq))
  {
    var o := SlotOff(Slot(r, r.p.nextSeq), r.size);
    SlotInsideMapping(Slot(r, r.p.nextSeq), r.size, r.capacity);
    StoredWord(b, o, r.p.nextSeq + 1);
    PatchedRange(b, o, U64(r.p.nextSeq + 1), o + 8, o + 8 + r.size);
  }

  lemma StoreStampSimulates(b: Bytes, r: Ring)
    requires WellFormed(r) && Enabled(r, StoreStamp) && Simulates(b, r) && r.p.nextSeq + 1 < U64_LIMIT
    requires WellFormed(Apply(r, StoreStamp))
    ensures Simulates(FlatStore(b, r, StoreStamp), Apply(r, StoreStamp))
    ensures FlatStore(b, r, StoreStamp)[..CURSOR_OFF] == b[..CURSOR_OFF]
  {
    var i := Slot(r, r.p.nextSeq);
    SlotInsideMapping(i, r.size, r.capacity);
    PatchBehindHeader(b, SlotOff(i, r.size), U64(r.p.nextSeq + 1));
    forall j | 0 <= j < r.capacity
      ensures SimulatesSlot(FlatStore(b, r, StoreStamp), Apply(r, StoreStamp), j)
    {
      if j == i {
        StampInItsSlot(b, r);
      } else {
        SlotsApart(i, j, r);
        OtherSlotStillSimulated(b, SlotOff(i, r.size), U64(r.p.nextSeq + 1), r, Apply(r, StoreStamp), j);
      }
    }
  }

  lemma StoreCursorSimulates(b: Bytes, r: Ring)
    requires WellFormed(r) && Enabled(r, StoreCursor) && Simulates(b, r) && r.c.nextSeq + 1 < U64_LIMIT
    requires WellFormed(Apply(r, StoreCursor))
    ensures Simulates(FlatStore(b, r, StoreCursor), Apply(r, StoreCursor))
    ensures FlatStore(b, r, StoreCursor)[..CURSOR_OFF] == b[..CURSOR_OFF]
  {
    var r' := Apply(r, StoreCursor);
    var b' := FlatStore(b, r, StoreCursor);
    SlotInsideMapping(0, r.size, r.capacity);
    StoredWord(b, CURSOR_OFF, r.c.nextSeq + 1);
    forall j | 0 <= j < r.capacity
      ensures SimulatesSlot(b', r', j)
    {
      SlotInsideMapping(j, r.size, r.capacity);
      OtherSlotStillSimulated(b, CURSOR_OFF, U64(r.c.nextSeq + 1), r, r', j);
    }
  }

  /** The flat array follows the protocol step by step, never touching the static header, as long
      as the sequence numbers fit 64 bits. */
  lemma FlatArraySimulatesProtocol(b: Bytes, r: Ring, st: Step)
    requires WellFormed(r) && Enabled(r, st) && Simulates(b, r)
    requires r.p.nextSeq + 1 < U64_LIMIT && r.c.nextSeq + 1 < U64_LIMIT
    ensures WellFormed(Apply(r, st)) && Simulates(FlatStore(b, r, st), Apply(r, st))
    ensures FlatStore(b, r, st)[..CURSOR_OFF] == b[..CURSOR_OFF]
  {
    ApplyIsWellFormed(r, st);
    match st
    case WriteByte(k) => WriteByteSimulates(b, r, k);
    case StoreStamp => StoreStampSimulates(b, r);
    case StoreCursor => StoreCursorSimulates(b, r);
    case _ => OtherStepsSimulate(b, r, st);
  }

  lemma ApplyIsWellFormed(r: Ring, st: Step)
    requires WellFormed(r) && Enabled(r, st)
    ensures WellFormed(Apply(r, st))
    ensures Apply(r, st).size == r.size && Apply(r, st).capacity == r.capacity
  {
  }

  lemma OtherStepsSimulate(b: Bytes, r: Ring, st: Step)
    requires WellFormed(r) && Enabled(r, st) && WellFormed(Apply(r, st)) && Simulates(b, r)
    requires !st.WriteByte? && !st.StoreStamp? && !st.StoreCursor?
    ensures Simulates(b, Apply(r, st))
  {
    forall i | 0 <= i < r.capacity
      ensures SimulatesSlot(b, Apply(r, st), i)
    {
      assert SimulatesSlot(b, r, i);
    }
  }

  // ------------------------------------------------- the queue in the bytes

  /** The bytes hold queue `q` whose first message has sequence number `first`: each queued message
      is stamped and whole in its slot, and no slot is stamped beyond the last one. */
  ghost predicate HoldsQueue(b: Bytes, size: nat, capacity: Positive, first: nat, q: seq<Bytes>) {
    && |b| == Total(size, capacity) && |q| <= capacity
    && CursorWord(b) == first
    && (forall i :: 0 <= i < capacity ==> StampWord(b, size, i) <= first + |q|)
    && HoldsMessages(b, size, capacity, first, q)
  }

  ghost predicate HoldsMessages(b: Bytes, size: nat, capacity: Positive, first: nat, q: seq<Bytes>) {
    forall x :: 0 <= x < |q| ==> HoldsMessage(b, size, capacity, first + x, q[x])
  }

  function StampWord(b: Bytes, size: nat, i: nat): nat {
    if SlotOff(i, size) + 8 <= |b| then WordAt(b, SlotOff(i, size)) else 0
  }

  predicate HoldsMessage(b: Bytes, size: nat, capacity: Positive, seqNo: nat, msg: Bytes) {
    var off := StampOff(seqNo, size, capacity);
    && |msg| == size && off + 8 + size <= |b|
    && WordAt(b, off) == seqNo + 1
    && b[off + 8..off + 8 + size] == msg
  }

  /** Bytes that simulate a reachable ring hold exactly the ring's abstract queue. */
  lemma SimulatedBytesHoldTheQueue(b: Bytes, r: Ring)
    requires Inv(r) && Simulates(b, r)
    ensures HoldsQueue(b, r.size, r.capacity, |r.received|, Queue(r))
  {
    BacklogFits(r);
    forall i | 0 <= i < r.capacity
      ensures StampWord(b, r.size, i) <= |r.sent|
    {
      assert SimulatesSlot(b, r, i);
      assert StampChain(r.stamps[i], i, r.capacity, |r.sent|, r.p.now);
    }
    forall x | 0 <= x < |Queue(r)|
      ensures HoldsMessage(b, r.size, r.capacity, |r.received| + x, Queue(r)[x])
    {
      UnreadMessageIsInTheBytes(b, r, |r.received| + x);
    }
  }

  lemma UnreadMessageIsInTheBytes(b: Bytes, r: Ring, t: nat)
    requires Inv(r) && Simulates(b, r) && |r.received| <= t < |r.sent|
    ensures HoldsMessage(b, r.size, r.capacity, t, r.sent[t])
  {
    UnreadStampIsNewest(r, t);
    assert SimulatesSlot(b, r, Slot(r, t));
    assert Holds(r, Slot(r, t), r.sent[t]);
    var off := StampOff(t, r.size, r.capacity);
    assert b[off + 8..off + 8 + r.size] == r.sent[t];
  }

  // ------------------------------------------------------------ whole runs

  /** Nothing written behind the static header yet. */
  ghost predicate Blank(b: Bytes) {
    forall k :: CURSOR_OFF <= k < |b| ==> b[k] == 0
  }

  lemma BlankWord(b: Bytes, off: nat)
    requires Blank(b) && CURSOR_OFF <= off && off + 8 <= |b|
    ensures WordAt(b, off) == 0
  {
    ZerosDecodeToZero(b[off..off + 8]);
  }

  lemma BlankBytesHoldNothing(b: Bytes, size: nat, capacity: Positive)
    requires |b| == Total(size, capacity) && Blank(b)
    ensures HoldsQueue(b, size, capacity, 0, [])
  {
    SlotInsideMapping(0, size, capacity);
    BlankWord(b, CURSOR_OFF);
    forall i | 0 <= i < capacity
      ensures StampWord(b, size, i) == 0
    {
      SlotInsideMapping(i, size, capacity);
      BlankWord(b, SlotOff(i, size));
    }
  }

  lemma BlankBytesSimulateAFreshRing(b: Bytes, size: nat, capacity: Positive)
    requires |b| == Total(size, capacity) && Blank(b)
    ensures Inv(Fresh(capacity, size)) && Simulates(b, Fresh(capacity, size))
  {
    var r := Fresh(capacity, size);
    FreshKeeps(capacity, size);
    SlotInsideMapping(0, size, capacity);
    BlankWord(b, CURSOR_OFF);
    forall i | 0 <= i < capacity
      ensures SimulatesSlot(b, r, i)
    {
      SlotInsideMapping(i, size, capacity);
      BlankWord(b, SlotOff(i, size));
      forall k | 0 <= k < size
        ensures Newest(r.bytes[Cell(i, k)]).val == 0
      {
        assert IsCell(r, Cell(i, k));
      }
    }
  }

  /** The successive contents of the mapping along a run of the protocol. */
  ghost predicate StoresAlong(bs: seq<Bytes>, trace: seq<Ring>, steps: seq<Step>) {
    && IsRun(trace, steps) && |bs| == |trace|
    && |bs[0]| == Total(trace[0].size, trace[0].capacity) && Blank(bs[0])
    && forall n {:trigger steps[n]} :: 0 <= n < |steps| ==>
         && |bs[n]| == Total(trace[n].size, trace[n].capacity)
         && bs[n + 1] == FlatStore(bs[n], trace[n], steps[n])
  }

  lemma CountersFit(trace: seq<Ring>, steps: seq<Step>, n: nat)
    requires IsRun(trace, steps) && n < |steps| && |trace| < U64_LIMIT
    ensures Inv(trace[n]) && trace[n].p.nextSeq + 1 < U64_LIMIT && trace[n].c.nextSeq + 1 < U64_LIMIT
  {
    CountersAreBoundedByTheRun(trace, steps, n);
    RunKeeps(trace, steps, n);
  }

  lemma {:induction false} BytesSimulateEveryRun(bs: seq<Bytes>, trace: seq<Ring>, steps: seq<Step>, n: nat)
    requires StoresAlong(bs, trace, steps) && n < |trace| < U64_LIMIT
    ensures WellFormed(trace[n]) && Simulates(bs[n], trace[n])
    ensures bs[0][..CURSOR_OFF] == bs[n][..CURSOR_OFF]
  {
    if n == 0 {
      BlankBytesSimulateAFreshRing(bs[0], trace[0].size, trace[0].capacity);
    } else {
      BytesSimulateEveryRun(bs, trace, steps, n - 1);
      CountersFit(trace, steps, n - 1);
      FlatArraySimulatesProtocol(bs[n - 1], trace[n - 1], steps[n - 1]);
    }
  }

  /** From a freshly created mapping on, over every run shorter than 2^64 steps, the bytes simulate
      the protocol, hold exactly its queue, and keep the header they were created with. */
  lemma BytesHoldTheQueueOverEveryRun(bs: seq<Bytes>, trace: seq<Ring>, steps: seq<Step>, n: nat)
    requires StoresAlong(bs, trace, steps) && n < |trace| < U64_LIMIT
    ensures Inv(trace[n]) && Simulates(bs[n], trace[n])
    ensures HoldsQueue(bs[n], trace[n].size, trace[n].capacity, |trace[n].received|, Queue(trace[n]))
    ensures bs[n][..CURSOR_OFF] == bs[0][..CURSOR_OFF]
  {
    RunKeeps(trace, steps, n);
    BytesSimulateEveryRun(bs, trace, steps, n);
    SimulatedBytesHoldTheQueue(bs[n], trace[n]);
  }

  /** Copying a payload byte by byte, as the protocol does, is one store of the whole. */
  function BytewiseCopy(b: Bytes, off: nat, msg: Bytes, k: nat): (b': Bytes)
    requires off + |msg| <= |b| && k <= |msg|
    ensures |b'| == |b|
  {
    if k == 0 then b else Patch(BytewiseCopy(b, off, msg, k - 1), off + k - 1, [msg[k - 1]])
  }

  lemma {:induction false} BytewiseCopyIsOneStore(b: Bytes, off: nat, msg: Bytes, k: nat)
    requires off + |msg| <= |b| && k <= |msg|
    ensures BytewiseCopy(b, off, msg, k) == Patch(b, off, msg[..k])
  {
    if k > 0 {
      BytewiseCopyIsOneStore(b, off, msg, k - 1);
    }
  }
}

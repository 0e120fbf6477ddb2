/** The code of `send` and `recv` refines the step machine: what one call does to the bytes is what
    a sequence of the protocol's micro-steps does to them. */
module RingCode {
  import opened Basics
  import opened LittleEndian
  import opened Layout
  import opened RingProtocol
  import opened RingTheorems
  import opened FlatRing

  /** `steps` take ring `r`, lying in bytes `b`, to ring `r'`, lying in bytes `b'`. */
  ghost predicate Leads(b: Bytes, r: Ring, steps: seq<Step>, b': Bytes, r': Ring)
    decreases |steps|
  {
    if steps == [] then b' == b && r' == r
    else
      && WellFormed(r) && Enabled(r, steps[0]) && |b| == Total(r.size, r.capacity)
      && Leads(FlatStore(b, r, steps[0]), Apply(r, steps[0]), steps[1..], b', r')
  }

  lemma LeadsBy(b: Bytes, r: Ring, st: Step, rest: seq<Step>, b': Bytes, r': Ring)
    requires WellFormed(r) && Enabled(r, st) && |b| == Total(r.size, r.capacity)
    requires Leads(FlatStore(b, r, st), Apply(r, st), rest, b', r')
    ensures Leads(b, r, [st] + rest, b', r')
  {
    assert ([st] + rest)[1..] == rest;
  }

  ghost predicate CopiedUpTo(copied: set<nat>, k: nat) {
    forall x: nat :: x in copied <==> x < k
  }

  // ------------------------------------------------------------------- send

  /** Bytes `b` once the payload is copied from byte `k` on and stamped. */
  function Finished(b: Bytes, size: nat, capacity: Positive, seqNo: nat, msg: Bytes, k: nat): Bytes
    requires |b| == Total(size, capacity) && |msg| == size && k <= size
  {
    SlotInsideMapping(seqNo % capacity, size, capacity);
    Patch(Patch(b, PayloadOff(seqNo, size, capacity) + k, msg[k..]), StampOff(seqNo, size, capacity), U64(seqNo + 1))
  }

  lemma PatchInTwo(b: Bytes, off: nat, msg: Bytes, k: nat)
    requires off + |msg| <= |b| && k < |msg|
    ensures Patch(Patch(b, off + k, [msg[k]]), off + k + 1, msg[k + 1..]) == Patch(b, off + k, msg[k..])
  {
  }

  lemma FinishedAfterOneByte(b: Bytes, size: nat, capacity: Positive, seqNo: nat, msg: Bytes, k: nat)
    requires |b| == Total(size, capacity) && |msg| == size && k < size
    ensures PayloadOff(seqNo, size, capacity) + size <= |b|
    ensures Finished(Patch(b, PayloadOff(seqNo, size, capacity) + k, [msg[k]]), size, capacity, seqNo, msg, k + 1)
         == Finished(b, size, capacity, seqNo, msg, k)
  {
    SlotInsideMapping(seqNo % capacity, size, capacity);
    PatchInTwo(b, PayloadOff(seqNo, size, capacity), msg, k);
  }

  lemma FinishedWithoutCopying(b: Bytes, r: Ring)
    requires WellFormed(r) && Enabled(r, StoreStamp) && |b| == Total(r.size, r.capacity)
    ensures Finished(b, r.size, r.capacity, r.p.nextSeq, r.p.msg, r.size) == FlatStore(b, r, StoreStamp)
  {
    var off := PayloadOff(r.p.nextSeq, r.size, r.capacity);
    SlotInsideMapping(r.p.nextSeq % r.capacity, r.size, r.capacity);
    assert Patch(b, off + r.size, r.p.msg[r.size..]) == b;
  }

  lemma StampAndBump(b: Bytes, r: Ring) returns (steps: seq<Step>, r': Ring)
    requires WellFormed(r) && Enabled(r, StoreStamp) && |b| == Total(r.size, r.capacity)
    ensures var b' := FlatStore(b, r, StoreStamp); Leads(b, r, steps, b', r')
    ensures r'.sent == r.sent + [r.p.msg] && r'.p.phase.Ready? && r'.p.nextSeq == r.p.nextSeq + 1
    ensures r'.p.cachedCursor == r.p.cachedCursor
  {
    ApplyIsWellFormed(r, StoreStamp);
    var b1, r1 := FlatStore(b, r, StoreStamp), Apply(r, StoreStamp);
    r' := Apply(r1, BumpProducer);
    LeadsBy(b1, r1, BumpProducer, [], b1, r');
    LeadsBy(b, r, StoreStamp, [BumpProducer], b1, r');
    steps := [StoreStamp, BumpProducer];
    assert steps == [StoreStamp] + [BumpProducer];
  }

  /** Copying the payload from byte `k` on, in order, then stamping. */
  lemma {:induction false} CopyAndStamp(b: Bytes, r: Ring, k: nat) returns (steps: seq<Step>, r': Ring)
    requires WellFormed(r) && r.p.phase.Fill? && k <= r.size && CopiedUpTo(r.p.copied, k)
    requires |b| == Total(r.size, r.capacity)
    ensures Leads(b, r, steps, Finished(b, r.size, r.capacity, r.p.nextSeq, r.p.msg, k), r')
    ensures r'.sent == r.sent + [r.p.msg] && r'.p.phase.Ready? && r'.p.nextSeq == r.p.nextSeq + 1
    ensures r'.p.cachedCursor == r.p.cachedCursor
    decreases r.size - k
  {
    if k == r.size {
      FinishedWithoutCopying(b, r);
      steps, r' := StampAndBump(b, r);
    } else {
      var r1 := WrittenOneByte(b, r, k);
      FinishedAfterOneByte(b, r.size, r.capacity, r.p.nextSeq, r.p.msg, k);
      steps, r' := CopyAndStamp(FlatStore(b, r, WriteByte(k)), r1, k + 1);
      LeadsBy(b, r, WriteByte(k), steps, Finished(b, r.size, r.capacity, r.p.nextSeq, r.p.msg, k), r');
      steps := [WriteByte(k)] + steps;
    }
  }

  lemma WrittenOneByte(b: Bytes, r: Ring, k: nat) returns (r1: Ring)
    requires WellFormed(r) && r.p.phase.Fill? && k < r.size && CopiedUpTo(r.p.copied, k)
    requires |b| == Total(r.size, r.capacity)
    ensures Enabled(r, WriteByte(k)) && r1 == Apply(r, WriteByte(k)) && WellFormed(r1)
    ensures |FlatStore(b, r, WriteByte(k))| == |b| && r1.size == r.size && r1.capacity == r.capacity
    ensures r1.p == r.p.(copied := r.p.copied + {k}, now := r.p.now + 1) && r1.sent == r.sent
  {
    r1 := Apply(r, WriteByte(k));
    ApplyIsWellFormed(r, WriteByte(k));
  }

  // ------------------------------------------------------------------- recv

  function PayloadAt(b: Bytes, size: nat, capacity: Positive, seqNo: nat): (p: Bytes)
    requires |b| == Total(size, capacity)
    ensures |p| == size
  {
    SlotInsideMapping(seqNo % capacity, size, capacity);
    var off := PayloadOff(seqNo, size, capacity);
    b[off..off + size]
  }

  function Released(b: Bytes, size: nat, capacity: Positive, seqNo: nat): Bytes
    requires |b| == Total(size, capacity)
  {
    SlotInsideMapping(0, size, capacity);
    Patch(b, CURSOR_OFF, U64(seqNo + 1))
  }

  lemma ReleaseAndBump(b: Bytes, r: Ring) returns (steps: seq<Step>, r': Ring)
    requires WellFormed(r) && Enabled(r, StoreCursor) && |b| == Total(r.size, r.capacity)
    ensures Leads(b, r, steps, FlatStore(b, r, StoreCursor), r')
    ensures r'.received == r.received + [r.c.buf] && r'.c.phase.Idle? && r'.c.nextSeq == r.c.nextSeq + 1
    ensures r'.c.buf == r.c.buf
  {
    ApplyIsWellFormed(r, StoreCursor);
    var b1, r1 := FlatStore(b, r, StoreCursor), Apply(r, StoreCursor);
    r' := Apply(r1, BumpConsumer);
    LeadsBy(b1, r1, BumpConsumer, [], b1, r');
    LeadsBy(b, r, StoreCursor, [BumpConsumer], b1, r');
    steps := [StoreCursor] + [BumpConsumer];
  }

  /** Copying the payload out from byte `k` on, in order, then storing the cursor. */
  lemma {:induction false} CopyOutAndRelease(b: Bytes, r: Ring, k: nat) returns (steps: seq<Step>, r': Ring)
    requires |b| == Total(r.size, r.capacity)
    requires WellFormed(r) && Simulates(b, r) && r.c.phase.Drain? && k <= r.size && CopiedUpTo(r.c.copied, k)
    requires forall x :: 0 <= x < k ==> r.c.buf[x] == PayloadAt(b, r.size, r.capacity, r.c.nextSeq)[x]
    ensures Leads(b, r, steps, Released(b, r.size, r.capacity, r.c.nextSeq), r')
    ensures r'.received == r.received + [r'.c.buf] && r'.c.buf == PayloadAt(b, r.size, r.capacity, r.c.nextSeq)
    ensures r'.c.phase.Idle? && r'.c.nextSeq == r.c.nextSeq + 1
    decreases r.size - k
  {
    if k == r.size {
      assert r.c.buf == PayloadAt(b, r.size, r.capacity, r.c.nextSeq);
      steps, r' := ReleaseAndBump(b, r);
    } else {
      var st, r1 := ReadNewest(b, r, k);
      steps, r' := CopyOutAndRelease(b, r1, k + 1);
      LeadsBy(b, r, st, steps, Released(b, r.size, r.capacity, r.c.nextSeq), r');
      steps := [st] + steps;
    }
  }

  lemma ReadNewest(b: Bytes, r: Ring, k: nat) returns (st: Step, r': Ring)
    requires |b| == Total(r.size, r.capacity)
    requires WellFormed(r) && Simulates(b, r) && r.c.phase.Drain? && k < r.size && k !in r.c.copied
    ensures st.ReadByte? && Enabled(r, st) && r' == Apply(r, st) && WellFormed(r') && Simulates(b, r')
    ensures r'.c == r.c.(buf := r.c.buf[k := PayloadAt(b, r.size, r.capacity, r.c.nextSeq)[k]],
                         copied := r.c.copied + {k}, now := r.c.now + 1)
    ensures r'.size == r.size && r'.capacity == r.capacity && r'.received == r.received
  {
    var i := Slot(r, r.c.nextSeq);
    assert IsCell(r, Cell(i, k));
    assert SimulatesSlot(b, r, i);
    st := ReadByte(k, |r.bytes[Cell(i, k)]| - 1);
    r' := Apply(r, st);
    ApplyIsWellFormed(r, st);
    OtherStepsSimulate(b, r, st);
  }

  lemma PayloadIsTheNextMessage(b: Bytes, r: Ring)
    requires |b| == Total(r.size, r.capacity)
    requires Inv(r) && Simulates(b, r) && !r.c.phase.Advance? && |r.received| < |r.sent|
    ensures PayloadAt(b, r.size, r.capacity, r.c.nextSeq) == Queue(r)[0]
  {
    UnreadMessageIsInTheBytes(b, r, r.c.nextSeq);
  }
}

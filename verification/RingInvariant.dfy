/** Every micro-step of the ring keeps the invariant. */
module RingInvariant {
  import opened Basics
  import opened Memory
  import opened RingProtocol

  lemma FreshKeeps(capacity: Positive, size: nat)
    ensures Inv(Fresh(capacity, size))
  {
    var r := Fresh(capacity, size);
    forall x: Cell | IsCell(r, x)
      ensures x in r.bytes && r.bytes[x] == [Write(0, 0)] && x in r.lastRead
    {
      assert Cell(x.slot, x.byte) == x;
    }
    assert Newest(r.stamps[0]) == Write(0, 0);
  }

  // ------------------------------------------------- facts used by the steps

  lemma {:induction false} StampsGrow(i: nat, a: nat, b: nat, capacity: Positive)
    requires a <= b
    ensures StampOfLap(i, a, capacity) <= StampOfLap(i, b, capacity)
    ensures a < b ==> StampOfLap(i, a, capacity) < StampOfLap(i, b, capacity)
  {
    if a < b {
      StampsGrow(i, a, b - 1, capacity);
    }
  }

  lemma {:induction false} StampsNameTheirSlot(i: nat, lap: nat, capacity: Positive)
    requires i < capacity && 0 < lap
    ensures StampOfLap(i, lap, capacity) > 0
    ensures (StampOfLap(i, lap, capacity) - 1) % capacity == i
  {
    if lap == 1 {
      RemainderIsUnique(i, 0, i, capacity);
    } else {
      StampsNameTheirSlot(i, lap - 1, capacity);
      OneLapLaterIsTheSameSlot(StampOfLap(i, lap - 1, capacity) - 1, capacity);
    }
  }

  /** Exactly the laps whose stamp is at most `published` are in the history: the slot of sequence
      number `n` has been stamped for `n` if and only if `n < published`. */
  lemma {:induction false} LapOf(i: nat, n: nat, capacity: Positive) returns (lap: nat)
    requires n % capacity == i
    ensures 0 < lap && StampOfLap(i, lap, capacity) == n + 1
    ensures n < capacity ==> lap == 1
    ensures capacity <= n ==> 1 < lap && StampOfLap(i, lap - 1, capacity) == n + 1 - capacity
  {
    if n < capacity {
      RemainderIsUnique(n, 0, n, capacity);
      lap := 1;
    } else {
      OneLapLaterIsTheSameSlot(n - capacity, capacity);
      lap := LapOf(i, n - capacity, capacity);
      lap := lap + 1;
    }
  }

  /** At most a ring's worth of messages is published and unread. */
  lemma BacklogFits(r: Ring)
    requires Inv(r)
    ensures |r.sent| <= |r.received| + r.capacity
  {
  }

  /** A lap is in the slot's history exactly when its sequence number is published. */
  lemma LapInHistory(h: seq<Write<nat>>, i: nat, lap: nat, capacity: Positive, published: nat, now: nat)
    requires StampChain(h, i, capacity, published, now)
    ensures lap < |h| <==> StampOfLap(i, lap, capacity) <= published
  {
    if lap < |h| {
      StampsGrow(i, lap, |h| - 1, capacity);
    } else {
      StampsGrow(i, |h|, lap, capacity);
    }
  }

  /** The stamp of an unread message is the newest write to its slot's stamp. */
  lemma UnreadStampIsNewest(r: Ring, t: nat)
    requires Inv(r) && |r.received| <= t < |r.sent|
    ensures Newest(r.stamps[Slot(r, t)]).val == t + 1
  {
    var i := Slot(r, t);
    var h := r.stamps[i];
    assert StampChain(h, i, r.capacity, |r.sent|, r.p.now);
    var lap := LapOf(i, t, r.capacity);
    LapInHistory(h, i, lap, r.capacity, |r.sent|, r.p.now);
    LapInHistory(h, i, lap + 1, r.capacity, |r.sent|, r.p.now);
  }

  /** While the producer fills slot `sent mod capacity`, that slot holds no unread message. */
  lemma FilledSlotIsFree(r: Ring, t: nat)
    requires Inv(r) && r.p.phase.Fill? && |r.received| <= t < |r.sent|
    ensures Slot(r, t) != Slot(r, r.p.nextSeq)
  {
    if Slot(r, t) == Slot(r, r.p.nextSeq) {
      SameSlotIsALapApart(t, r.p.nextSeq, r.capacity);
    }
  }

  /** Whatever was read from the slot being filled was read before the producer's last
      synchronisation: no plain read races with the producer's plain write. */
  lemma ReadsOfFilledSlotAreSeen(r: Ring, k: nat)
    requires Inv(r) && r.p.phase.Fill? && k < r.size
    ensures r.lastRead[Cell(Slot(r, r.p.nextSeq), k)].at <= r.p.seen
  {
    var x := Cell(Slot(r, r.p.nextSeq), k);
    assert IsCell(r, x);
    if r.lastRead[x].tag > 0 {
      var t := r.lastRead[x].tag - 1;
      SameSlotIsALapApart(t, r.p.nextSeq, r.capacity);
      assert t + 1 <= r.p.cachedCursor;
    }
  }

  // ------------------------------------------------------- producer's steps

  lemma SendCallKeeps(r: Ring, m: Bytes)
    requires Inv(r) && Enabled(r, SendCall(m))
    ensures Inv(Apply(r, SendCall(m)))
  {
  }

  lemma LoadedCursor(r: Ring, j: nat)
    requires Inv(r) && Enabled(r, LoadCursor(j))
    ensures r.p.cachedCursor <= r.cursor[j].val <= |r.received|
  {
    // A write older than the cached one is already overwritten in the producer's past.
    assert j >= r.p.cachedCursor;
  }

  lemma LoadCursorKeeps(r: Ring, j: nat)
    requires Inv(r) && Enabled(r, LoadCursor(j))
    ensures Inv(Apply(r, LoadCursor(j)))
  {
    LoadedCursor(r, j);
  }

  lemma WriteByteKeepsPayload(r: Ring, k: nat)
    requires Inv(r) && Enabled(r, WriteByte(k)) && WellFormed(Apply(r, WriteByte(k)))
    ensures PayloadInv(Apply(r, WriteByte(k)))
  {
    var r' := Apply(r, WriteByte(k));
    forall t | |r.received| <= t < |r.sent|
      ensures Holds(r', Slot(r', t), r.sent[t])
    {
      FilledSlotIsFree(r, t);
      assert Holds(r, Slot(r, t), r.sent[t]);
    }
  }

  lemma WriteByteKeepsBytes(r: Ring, k: nat)
    requires Inv(r) && Enabled(r, WriteByte(k))
    ensures var r' := Apply(r, WriteByte(k)); WellFormed(r') && BytesInv(r'.bytes, r'.p.now)
  {
    assert IsCell(r, Cell(Slot(r, r.p.nextSeq), k));
  }

  lemma WriteByteKeeps(r: Ring, k: nat)
    requires Inv(r) && Enabled(r, WriteByte(k))
    ensures Inv(Apply(r, WriteByte(k)))
  {
    WriteByteKeepsBytes(r, k);
    WriteByteKeepsPayload(r, k);
  }

  /** Stamping sequence number `n` extends its own slot's history and leaves the others complete. */
  lemma StampExtendsChain(h: seq<Write<nat>>, i: nat, capacity: Positive, n: nat, now: nat)
    requires i < capacity && StampChain(h, i, capacity, n, now)
    ensures n % capacity == i ==> StampChain(h + [Write(n + 1, now + 1)], i, capacity, n + 1, now + 1)
    ensures n % capacity != i ==> StampChain(h, i, capacity, n + 1, now + 1)
  {
    if n % capacity == i {
      var lap := LapOf(i, n, capacity);
      LapInHistory(h, i, lap, capacity, n, now);
      LapInHistory(h, i, lap - 1, capacity, n, now);
      StampsGrow(i, |h|, |h| + 1, capacity);
    } else {
      StampsNameTheirSlot(i, |h|, capacity);
    }
  }

  lemma StampStoreKeepsChains(r: Ring)
    requires Inv(r) && Enabled(r, StoreStamp)
    ensures var r' := Apply(r, StoreStamp); StampInv(r'.stamps, r.capacity, |r'.sent|, r'.p.now)
  {
    forall i | 0 <= i < r.capacity {
      StampExtendsChain(r.stamps[i], i, r.capacity, r.p.nextSeq, r.p.now);
    }
  }

  lemma StampStoreKeepsUnread(r: Ring, t: nat)
    requires Inv(r) && Enabled(r, StoreStamp) && |r.received| <= t < |r.sent|
    ensures Holds(Apply(r, StoreStamp), Slot(r, t), r.sent[t])
  {
    FilledSlotIsFree(r, t);
    assert Holds(r, Slot(r, t), r.sent[t]);
  }

  lemma StampStorePublishes(r: Ring)
    requires Inv(r) && Enabled(r, StoreStamp)
    ensures Holds(Apply(r, StoreStamp), Slot(r, r.p.nextSeq), r.p.msg)
  {
    forall k | 0 <= k < r.size
      ensures Newest(r.bytes[Cell(Slot(r, r.p.nextSeq), k)]).at <= r.p.now
    {
      assert IsCell(r, Cell(Slot(r, r.p.nextSeq), k));
    }
  }

  lemma StampStoreKeepsPayload(r: Ring)
    requires Inv(r) && Enabled(r, StoreStamp)
    ensures PayloadInv(Apply(r, StoreStamp))
  {
    var r' := Apply(r, StoreStamp);
    forall t | |r.received| <= t < |r'.sent|
      ensures Holds(r', Slot(r', t), r'.sent[t])
    {
      if t < |r.sent| {
        StampStoreKeepsUnread(r, t);
      } else {
        StampStorePublishes(r);
      }
    }
  }

  lemma StampStoreKeepsSeen(r: Ring)
    requires Inv(r) && Enabled(r, StoreStamp)
    ensures SeenInv(Apply(r, StoreStamp).stamps, |r.received|, r.c.seen)
  {
    var stamps: seq<seq<Write<nat>>> := Apply(r, StoreStamp).stamps;
    forall i: nat, j: nat | i < r.capacity && j < |stamps[i]| && stamps[i][j].val <= |r.received|
      ensures stamps[i][j].at <= r.c.seen
    {
      assert j < |r.stamps[i]| && stamps[i][j] == r.stamps[i][j];
    }
  }

  lemma StoreStampKeeps(r: Ring)
    requires Inv(r) && Enabled(r, StoreStamp)
    ensures Inv(Apply(r, StoreStamp))
  {
    StampStoreKeepsChains(r);
    StampStoreKeepsSeen(r);
    StampStoreKeepsPayload(r);
    if r.c.phase.Drain? {
      FilledSlotIsFree(r, r.c.nextSeq);
    }
  }

  lemma ProducerStepKeeps(r: Ring, st: Step)
    requires Inv(r) && Enabled(r, st) && IsProducerStep(st)
    ensures Inv(Apply(r, st))
  {
    match st
    case SendCall(m) => SendCallKeeps(r, m);
    case LoadCursor(j) => LoadCursorKeeps(r, j);
    case SendTimeout =>
    case WriteByte(k) => WriteByteKeeps(r, k);
    case StoreStamp => StoreStampKeeps(r);
    case BumpProducer =>
  }

  // ------------------------------------------------------- consumer's steps

  /** Loading the stamp of expected sequence number `n` when the previous lap's stamp is already
      in the reader's past and at most one lap is published ahead. */
  lemma StaleStampIsALapBehind(
    h: seq<Write<nat>>, j: nat, n: nat, capacity: Positive, published: nat, now: nat, seen: nat)
    requires StampChain(h, n % capacity, capacity, published, now)
    requires n <= published <= n + capacity
    requires forall x :: 0 <= x < |h| && h[x].val <= n ==> h[x].at <= seen
    requires Coherent(h, j, seen)
    ensures h[j].val == n + 1 || h[j].val == if capacity <= n then n + 1 - capacity else 0
    ensures h[j].val == n + 1 ==> n < published && j == |h| - 1
    ensures j == |h| - 1 && n < published ==> h[j].val == n + 1
  {
    var i := n % capacity;
    var lap := LapOf(i, n, capacity);
    LapInHistory(h, i, lap - 1, capacity, published, now);
    LapInHistory(h, i, lap, capacity, published, now);
    LapInHistory(h, i, lap + 1, capacity, published, now);
    assert h[lap - 1].val <= n;
    assert lap - 1 <= j <= lap;
  }

  /** The stamp a poll may observe, however stale: this lap's, or the previous lap's (0 on the
      first lap), and this lap's exactly when the message is published. */
  lemma PollSees(r: Ring, j: nat)
    requires Inv(r) && Enabled(r, LoadStamp(j))
    ensures var n := r.c.nextSeq;
            var h := r.stamps[Slot(r, n)];
            && (h[j].val == n + 1 || h[j].val == if r.capacity <= n then n + 1 - r.capacity else 0)
            && (h[j].val == n + 1 ==> n < |r.sent| && j == |h| - 1)
            && (j == |h| - 1 && n < |r.sent| ==> h[j].val == n + 1)
  {
    var n := r.c.nextSeq;
    BacklogFits(r);
    StaleStampIsALapBehind(r.stamps[Slot(r, n)], j, n, r.capacity, |r.sent|, r.p.now, r.c.seen);
  }

  lemma LoadStampKeeps(r: Ring, j: nat)
    requires Inv(r) && Enabled(r, LoadStamp(j))
    ensures Inv(Apply(r, LoadStamp(j)))
  {
    PollSees(r, j);
  }

  /** Once the stamp matched, the only write a payload load can return is the newest one. */
  lemma DrainReadsNewest(r: Ring, k: nat, j: nat)
    requires Inv(r) && Enabled(r, ReadByte(k, j))
    ensures var h := r.bytes[Cell(Slot(r, r.c.nextSeq), k)];
            && Newest(h).at <= r.c.seen && j == |h| - 1
            && h[j].val == r.sent[r.c.nextSeq][k]
  {
    var x := Cell(Slot(r, r.c.nextSeq), k);
    assert IsCell(r, x);
    assert Holds(r, x.slot, r.sent[r.c.nextSeq]);
  }

  lemma ReadByteKeeps(r: Ring, k: nat, j: nat)
    requires Inv(r) && Enabled(r, ReadByte(k, j))
    ensures Inv(Apply(r, ReadByte(k, j)))
  {
    DrainReadsNewest(r, k, j);
  }

  /** The only write that carries the drained message's stamp is the newest one of its slot. */
  lemma ConsumedStampIsSeen(r: Ring, i: nat, j: nat)
    requires Inv(r) && r.c.phase.Drain? && i < r.capacity && j < |r.stamps[i]|
    requires r.stamps[i][j].val == r.c.nextSeq + 1
    ensures r.stamps[i][j].at <= r.c.seen
  {
    var n := r.c.nextSeq;
    var h := r.stamps[i];
    assert StampChain(h, i, r.capacity, |r.sent|, r.p.now);
    StampsNameTheirSlot(i, j, r.capacity);
    UnreadStampIsNewest(r, n);
    if j < |h| - 1 {
      StampsGrow(i, j, |h| - 1, r.capacity);
    }
  }

  lemma CursorStoreKeepsSeen(r: Ring)
    requires Inv(r) && Enabled(r, StoreCursor)
    ensures SeenInv(r.stamps, |r.received| + 1, r.c.seen)
  {
    forall i, j | 0 <= i < r.capacity && 0 <= j < |r.stamps[i]| && r.stamps[i][j].val == r.c.nextSeq + 1
      ensures r.stamps[i][j].at <= r.c.seen
    {
      ConsumedStampIsSeen(r, i, j);
    }
  }

  lemma DrainedMessage(r: Ring)
    requires Inv(r) && Enabled(r, StoreCursor)
    ensures |r.received| == r.c.nextSeq < |r.sent| && r.c.buf == r.sent[r.c.nextSeq]
  {
  }

  lemma CursorStoreOrdersReads(r: Ring)
    requires Inv(r) && Enabled(r, StoreCursor)
    ensures ReadInv(Apply(r, StoreCursor))
  {
    var r' := Apply(r, StoreCursor);
    forall x: Cell | IsCell(r, x)
      ensures ReadOrdered(x, r.lastRead[x], r'.cursor, r.capacity, r'.c.now, false)
    {
      assert ReadOrdered(x, r.lastRead[x], r.cursor, r.capacity, r.c.now, true);
    }
  }

  lemma StoreCursorKeeps(r: Ring)
    requires Inv(r) && Enabled(r, StoreCursor)
    ensures Inv(Apply(r, StoreCursor))
  {
    CursorStoreKeepsSeen(r);
    DrainedMessage(r);
    CursorStoreOrdersReads(r);
    assert r.received + [r.c.buf] == r.sent[..|r.received| + 1];
  }

  lemma ConsumerStepKeeps(r: Ring, st: Step)
    requires Inv(r) && Enabled(r, st) && !IsProducerStep(st)
    ensures Inv(Apply(r, st))
  {
    match st
    case RecvCall(b) =>
    case LoadStamp(j) => LoadStampKeeps(r, j);
    case RecvTimeout =>
    case ReadByte(k, j) => ReadByteKeeps(r, k, j);
    case StoreCursor => StoreCursorKeeps(r);
    case BumpConsumer =>
  }

  lemma StepKeeps(r: Ring, st: Step)
    requires Inv(r) && Enabled(r, st)
    ensures Inv(Apply(r, st))
  {
    if IsProducerStep(st) {
      ProducerStepKeeps(r, st);
    } else {
      ConsumerStepKeeps(r, st);
    }
  }
}

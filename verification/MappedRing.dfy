/** The ring's own code: a mapping of bytes, a producer and a consumer that update it in place.

    What another process or the clock contributes is a script: each turn of a wait loop consumes
    one entry, the value its Acquire load returned and what the clock reads, in nanoseconds. Loads
    may lag behind the true cursor or stamp, as the protocol allows. */
module MappedRing {
  import opened Basics
  import opened LittleEndian
  import opened Layout
  import opened FlatRing
  import opened Transport

  datatype CursorPoll = CursorPoll(cursor: nat, now: nat)
  datatype StampPoll = StampPoll(stamp: nat, now: nat)

  /** Longest wait of one `send` for room, in nanoseconds. */
  const FULL_TIMEOUT: nat := 5_000_000_000

  /** How a call ended; while its script is used up in the wait it is still going on. */
  datatype SendEnd = Sent | RingFull | FullSoFar
  datatype RecvOutcome = GotMsg | TimedOut | StillWaiting

  datatype OpenError = UnexpectedSize | HeaderMismatch

  ghost predicate HeaderMatches(b: Bytes, msgSize: nat, capacity: Positive) {
    && CURSOR_OFF <= |b|
    && WordAt(b, MAGIC_OFF) == MAGIC
    && WordAt(b, MSG_SIZE_OFF) == msgSize
    && WordAt(b, CAPACITY_OFF) == capacity
  }

  // ------------------------------------------------------------- the mapping

  /** An access to the mapping that the other process may depend on. */
  datatype Access = Wrote(off: nat, bytes: Bytes) | CopiedOut(off: nat, size: nat)

  /** One rewrite of the first word of every page, in order, with the bytes it holds. */
  ghost predicate TouchesEveryPage(accesses: seq<Access>, b: Bytes) {
    && |accesses| * 4096 >= |b|
    && forall i :: 0 <= i < |accesses| ==> TouchesPage(accesses[i], b, i * 4096)
  }

  ghost predicate TouchesPage(a: Access, b: Bytes, off: nat) {
    off + 8 <= |b| && a == Wrote(off, b[off..off + 8])
  }

  /** Size and capacity, and only then the magic word that declares them written. */
  function HeaderStores(msgSize: nat, capacity: Positive): (stores: seq<Access>)
    ensures |stores| == 3
  {
    [Wrote(8, U64(msgSize)), Wrote(16, U64(capacity)), Wrote(0, U64(MAGIC))]
  }

  /** A ring in the making: every page of the zero-filled mapping, then the header. */
  ghost predicate TouchesThenHeader(log: seq<Access>, length: nat, msgSize: nat, capacity: Positive) {
    && |log| >= 3 && TouchesEveryPage(log[..|log| - 3], Zeroed(length))
    && log[|log| - 3..] == HeaderStores(msgSize, capacity)
  }

  lemma TouchesComeFirst(touches: seq<Access>, length: nat, msgSize: nat, capacity: Positive)
    requires TouchesEveryPage(touches, Zeroed(length))
    ensures TouchesThenHeader(touches + HeaderStores(msgSize, capacity), length, msgSize, capacity)
  {
    var log := touches + HeaderStores(msgSize, capacity);
    assert log[..|log| - 3] == touches;
  }

  class Mapping {
    const data: array<Byte>
    const msgSize: nat
    const capacity: Positive
    /** The stores and payload copies made through this mapping, in program order. */
    ghost var log: seq<Access>

    ghost predicate Valid() {
      data.Length == Total(msgSize, capacity)
    }

    constructor Over(data: array<Byte>, msgSize: nat, capacity: Positive)
      ensures this.data == data && this.msgSize == msgSize && this.capacity == capacity && log == []
    {
      this.data, this.msgSize, this.capacity := data, msgSize, capacity;
      log := [];
    }

    /** A fresh ring: zero-filled, pages touched, header written with the magic word last. */
    constructor Create(msgSize: nat, capacity: Positive)
      requires msgSize < U64_LIMIT && capacity < U64_LIMIT
      ensures Valid() && fresh(data) && this.msgSize == msgSize && this.capacity == capacity
      ensures HeaderMatches(data[..], msgSize, capacity)
      ensures HoldsQueue(data[..], msgSize, capacity, 0, [])
      ensures Blank(data[..])
      ensures TouchesThenHeader(log, data.Length, msgSize, capacity)
    {
      this.data := new Byte[Total(msgSize, capacity)](_ => 0);
      this.msgSize, this.capacity := msgSize, capacity;
      log := [];
      new;
      TotalHoldsTheHeader(msgSize, capacity);
      assert data[..] == Zeroed(data.Length);
      Prefault();
      ghost var touches := log[0..];
      WriteHeader();
      TouchesComeFirst(touches, data.Length, msgSize, capacity);
      NewRingIsEmpty(msgSize, capacity);
    }

    /** Size and capacity first: the magic word declares them written. */
    method WriteHeader()
      requires CURSOR_OFF <= data.Length
      modifies data, `log
      ensures data[..] == WithHeader(old(data[..]), msgSize, capacity)
      ensures log == old(log) + HeaderStores(msgSize, capacity)
    {
      WriteU64(MSG_SIZE_OFF, msgSize);
      WriteU64(CAPACITY_OFF, capacity);
      WriteU64(MAGIC_OFF, MAGIC);
    }

    method WriteU64(off: nat, v: nat)
      requires off + 8 <= data.Length
      modifies data, `log
      ensures data[..] == Patch(old(data[..]), off, U64(v))
      ensures log == old(log) + [Wrote(off, U64(v))]
    {
      Store(off, U64(v));
    }

    method ReadU64(off: nat) returns (v: nat)
      requires off + 8 <= data.Length
      ensures v == WordAt(data[..], off)
    {
      assert data[off..off + 8] == data[..][off..off + 8];
      v := Decode(data[off..off + 8]);
    }

    /** One copy into the mapping. */
    method Store(off: nat, bs: Bytes)
      requires off + |bs| <= data.Length
      modifies data, `log
      ensures data[..] == Patch(old(data[..]), off, bs)
      ensures log == old(log) + [Wrote(off, bs)]
    {
      forall k | 0 <= k < |bs| {
        data[off + k] := bs[k];
      }
      log := log + [Wrote(off, bs)];
    }

    /** Copies the payload into its slot, then stores the stamp. */
    method Publish(seqNo: nat, msg: Bytes)
      requires Valid() && |msg| == msgSize
      modifies data, `log
      ensures data[..] == Published(old(data[..]), msgSize, capacity, seqNo, msg)
      ensures log == old(log) + PayloadThenStampStores(msgSize, capacity, seqNo, msg)
    {
      SlotInsideMapping(seqNo % capacity, msgSize, capacity);
      Store(PayloadOff(seqNo, msgSize, capacity), msg);
      WriteU64(StampOff(seqNo, msgSize, capacity), seqNo + 1);
    }

    /** Copies the payload of a slot out. */
    method CopyOut(seqNo: nat, buf: array<Byte>)
      requires Valid() && buf.Length == msgSize && buf != data
      requires SlotOff(seqNo % capacity, msgSize) + 8 + msgSize <= data.Length
      modifies buf, `log
      ensures var off := PayloadOff(seqNo, msgSize, capacity); buf[..] == data[..][off..off + msgSize]
      ensures log == old(log) + [CopiedOut(PayloadOff(seqNo, msgSize, capacity), msgSize)]
    {
      var off := PayloadOff(seqNo, msgSize, capacity);
      forall k | 0 <= k < buf.Length {
        buf[k] := data[off + k];
      }
      log := log + [CopiedOut(off, msgSize)];
    }

    /** Copies the payload of a slot out, then releases the slot. */
    method Consume(seqNo: nat, buf: array<Byte>)
      requires Valid() && buf.Length == msgSize && buf != data
      modifies data, buf, `log
      ensures data.Length >= CURSOR_OFF + 8 && data[..] == Patch(old(data[..]), CURSOR_OFF, U64(seqNo + 1))
      ensures var off := PayloadOff(seqNo, msgSize, capacity);
              off + msgSize <= data.Length && buf[..] == old(data[..])[off..off + msgSize]
      ensures log == old(log) + PayloadThenCursor(msgSize, capacity, seqNo)
    {
      SlotInsideMapping(seqNo % capacity, msgSize, capacity);
      CopyOut(seqNo, buf);
      WriteU64(CURSOR_OFF, seqNo + 1);
    }

    /** Touches the first word of every page with a write, and changes nothing. */
    method Prefault()
      requires Valid()
      modifies data, `log
      ensures data[..] == old(data[..])
      ensures |old(log)| <= |log| && log[..|old(log)|] == old(log)
      ensures TouchesEveryPage(log[|old(log)|..], data[..])
    {
      var off := 0;
      ghost var touches: seq<Access> := [];
      TotalIsWholeLines(msgSize, capacity);
      while off < data.Length
        invariant off == |touches| * 4096
        invariant data[..] == old(data[..]) && log == old(log) + touches
        invariant forall i :: 0 <= i < |touches| ==> TouchesPage(touches[i], data[..], i * 4096)
      {
        assert off % CACHE_LINE == 0;
        assert off + 8 <= data.Length;
        var word := ReadU64(off);
        RewritingAWordChangesNothing(data[..], off);
        WriteU64(off, word);
        touches := touches + [Wrote(off, U64(word))];
        off := off + PAGE;
      }
      assert log[|old(log)|..] == touches;
    }
  }

  function Zeroed(n: nat): Bytes {
    seq(n, _ => 0)
  }

  /** What `Publish` stores: the payload, and only then the stamp that declares it complete. */
  function PayloadThenStampStores(size: nat, capacity: Positive, seqNo: nat, msg: Bytes): seq<Access> {
    [Wrote(4096 + (seqNo % capacity) * Stride(size) + 8, msg),
     Wrote(4096 + (seqNo % capacity) * Stride(size), U64(seqNo + 1))]
  }

  /** What `Consume` does: the payload is copied out, and only then the slot released. */
  function PayloadThenCursor(size: nat, capacity: Positive, seqNo: nat): seq<Access> {
    [CopiedOut(4096 + (seqNo % capacity) * Stride(size) + 8, size), Wrote(64, U64(seqNo + 1))]
  }

  lemma TotalIsWholeLines(msgSize: nat, capacity: Positive)
    ensures Total(msgSize, capacity) % CACHE_LINE == 0
  {
    var lines := DivCeil(8 + msgSize, CACHE_LINE);
    assert Total(msgSize, capacity) == (64 + lines * capacity) * CACHE_LINE;
  }

  lemma RewritingAWordChangesNothing(b: Bytes, off: nat)
    requires off + 8 <= |b|
    ensures Patch(b, off, U64(WordAt(b, off))) == b && U64(WordAt(b, off)) == b[off..off + 8]
  {
    EncodeDecode(b[off..off + 8]);
  }

  function WithHeader(b: Bytes, msgSize: nat, capacity: Positive): Bytes
    requires CURSOR_OFF <= |b|
  {
    Patch(Patch(Patch(b, MSG_SIZE_OFF, U64(msgSize)), CAPACITY_OFF, U64(capacity)), MAGIC_OFF, U64(MAGIC))
  }

  lemma HeaderIsWritten(b: Bytes, msgSize: nat, capacity: Positive)
    requires CURSOR_OFF <= |b| && msgSize < U64_LIMIT && capacity < U64_LIMIT
    ensures HeaderMatches(WithHeader(b, msgSize, capacity), msgSize, capacity)
  {
    var b1 := Patch(b, MSG_SIZE_OFF, U64(msgSize));
    var b2 := Patch(b1, CAPACITY_OFF, U64(capacity));
    StoredWord(b, MSG_SIZE_OFF, msgSize);
    StoredWord(b1, CAPACITY_OFF, capacity);
    StoredWord(b2, MAGIC_OFF, MAGIC);
    PatchedRange(b1, CAPACITY_OFF, U64(capacity), MSG_SIZE_OFF, MSG_SIZE_OFF + 8);
    PatchedRange(b2, MAGIC_OFF, U64(MAGIC), MSG_SIZE_OFF, MSG_SIZE_OFF + 8);
    PatchedRange(b2, MAGIC_OFF, U64(MAGIC), CAPACITY_OFF, CAPACITY_OFF + 8);
  }

  lemma TotalHoldsTheHeader(msgSize: nat, capacity: Positive)
    ensures Total(msgSize, capacity) >= CURSOR_OFF
  {
    SlotInsideMapping(0, msgSize, capacity);
  }

  lemma NewRingIsEmpty(msgSize: nat, capacity: Positive)
    requires msgSize < U64_LIMIT && capacity < U64_LIMIT
    ensures Total(msgSize, capacity) >= CURSOR_OFF
    ensures var b := WithHeader(Zeroed(Total(msgSize, capacity)), msgSize, capacity);
            HeaderMatches(b, msgSize, capacity) && HoldsQueue(b, msgSize, capacity, 0, []) && Blank(b)
  {
    TotalHoldsTheHeader(msgSize, capacity);
    var zero := Zeroed(Total(msgSize, capacity));
    HeaderIsWritten(zero, msgSize, capacity);
    BlankBytesHoldNothing(WithHeader(zero, msgSize, capacity), msgSize, capacity);
  }

  /** Opens a ring file: accepted exactly when its length and its three header words match. */
  method OpenExisting(file: array<Byte>, msgSize: nat, capacity: Positive)
    returns (ring: Mapping?, error: OpenError)
    requires file.Length < U64_LIMIT
    modifies file
    ensures file[..] == old(file[..])
    ensures ring != null <==> file.Length == Total(msgSize, capacity) && HeaderMatches(file[..], msgSize, capacity)
    ensures ring != null ==> ring.Valid() && ring.data == file && ring.msgSize == msgSize && ring.capacity == capacity
    ensures ring != null ==> TouchesEveryPage(ring.log, file[..])
    ensures ring == null ==> (error == UnexpectedSize <==> file.Length != Total(msgSize, capacity))
  {
    ring, error := null, UnexpectedSize;
    if file.Length != Total(msgSize, capacity) {
      return;
    }
    SlotInsideMapping(0, msgSize, capacity);
    var candidate := new Mapping.Over(file, msgSize, capacity);
    var magic := candidate.ReadU64(MAGIC_OFF);
    var size := candidate.ReadU64(MSG_SIZE_OFF);
    var slots := candidate.ReadU64(CAPACITY_OFF);
    if magic != MAGIC || size != msgSize || slots != capacity {
      error := HeaderMismatch;
      return;
    }
    candidate.Prefault();
    assert candidate.log[0..] == candidate.log;
    ring := candidate;
  }

  // ------------------------------------------------------------ the producer

  /** Where the refresh loop of a full ring ends: room seen, or past the deadline. */
  function WaitForRoom(
    polls: seq<CursorPoll>, nextSeq: nat, cached: nat, capacity: Positive, deadline: nat): (bool, nat)
  {
    if polls == [] then (false, cached)
    else if nextSeq - polls[0].cursor < capacity then (true, polls[0].cursor)
    else if polls[0].now > deadline then (false, polls[0].cursor)
    else WaitForRoom(polls[1..], nextSeq, polls[0].cursor, capacity, deadline)
  }

  datatype RoomEnd = Room | Full | Undecided

  /** A poll after which the refresh loop goes on. */
  predicate StillFull(poll: CursorPoll, nextSeq: nat, capacity: Positive, deadline: nat) {
    nextSeq - poll.cursor >= capacity && poll.now <= deadline
  }

  ghost predicate RoomAt(polls: seq<CursorPoll>, nextSeq: nat, capacity: Positive, deadline: nat, x: nat) {
    && x < |polls| && nextSeq - polls[x].cursor < capacity
    && forall y :: 0 <= y < x ==> StillFull(polls[y], nextSeq, capacity, deadline)
  }

  ghost predicate FullAt(polls: seq<CursorPoll>, nextSeq: nat, capacity: Positive, deadline: nat, x: nat) {
    && x < |polls| && nextSeq - polls[x].cursor >= capacity && polls[x].now > deadline
    && forall y :: 0 <= y < x ==> StillFull(polls[y], nextSeq, capacity, deadline)
  }

  /** Some poll shows room, and none before it was late. */
  ghost predicate FindsRoom(polls: seq<CursorPoll>, nextSeq: nat, capacity: Positive, deadline: nat) {
    exists x: nat :: RoomAt(polls, nextSeq, capacity, deadline, x)
  }

  /** Some poll is late, and none up to it showed room. */
  ghost predicate FindsItFull(polls: seq<CursorPoll>, nextSeq: nat, capacity: Positive, deadline: nat) {
    exists x: nat :: FullAt(polls, nextSeq, capacity, deadline, x)
  }

  predicate Decides(poll: CursorPoll, nextSeq: nat, capacity: Positive, deadline: nat) {
    nextSeq - poll.cursor < capacity || poll.now > deadline
  }

  /** The payload copied into its slot, then the stamp. */
  function Published(b: Bytes, size: nat, capacity: Positive, seqNo: nat, msg: Bytes): Bytes
    requires |b| == Total(size, capacity) && |msg| == size
  {
    SlotInsideMapping(seqNo % capacity, size, capacity);
    Patch(Patch(b, PayloadOff(seqNo, size, capacity), msg), StampOff(seqNo, size, capacity), U64(seqNo + 1))
  }

  lemma PublishedMessageIsHeld(b: Bytes, size: nat, capacity: Positive, seqNo: nat, msg: Bytes)
    requires |b| == Total(size, capacity) && |msg| == size && seqNo + 1 < U64_LIMIT
    ensures HoldsMessage(Published(b, size, capacity, seqNo, msg), size, capacity, seqNo, msg)
    ensures StampWord(Published(b, size, capacity, seqNo, msg), size, seqNo % capacity) == seqNo + 1
  {
    SlotInsideMapping(seqNo % capacity, size, capacity);
    PayloadThenStamp(b, StampOff(seqNo, size, capacity), msg, seqNo + 1);
  }

  lemma PayloadThenStamp(b: Bytes, off: nat, msg: Bytes, stamp: nat)
    requires off + 8 + |msg| <= |b| && stamp < U64_LIMIT
    ensures var b' := Patch(Patch(b, off + 8, msg), off, U64(stamp));
            WordAt(b', off) == stamp && b'[off + 8..off + 8 + |msg|] == msg
  {
    var b1 := Patch(b, off + 8, msg);
    PatchedRange(b, off + 8, msg, off + 8, off + 8 + |msg|);
    PatchedRange(b1, off, U64(stamp), off + 8, off + 8 + |msg|);
    StoredWord(b1, off, stamp);
  }

  lemma PublishingKeepsTheCursor(b: Bytes, size: nat, capacity: Positive, seqNo: nat, msg: Bytes)
    requires |b| == Total(size, capacity) && |msg| == size
    ensures CursorWord(Published(b, size, capacity, seqNo, msg)) == CursorWord(b)
  {
    var off := StampOff(seqNo, size, capacity);
    SlotInsideMapping(seqNo % capacity, size, capacity);
    PatchBehindHeader(b, off + 8, msg);
    PatchBehindHeader(Patch(b, off + 8, msg), off, U64(seqNo + 1));
  }

  /** Slot `i` reads the same in both. */
  ghost predicate SameSlot(b: Bytes, b': Bytes, size: nat, i: nat) {
    var o := SlotOff(i, size);
    |b'| == |b| && o + 8 + size <= |b| && b'[o..o + 8 + size] == b[o..o + 8 + size]
  }

  /** Publishing into one slot leaves every other slot as it was. */
  lemma PublishedElsewhere(b: Bytes, size: nat, capacity: Positive, seqNo: nat, msg: Bytes, i: nat)
    requires |b| == Total(size, capacity) && |msg| == size
    requires i < capacity && i != seqNo % capacity
    ensures SameSlot(b, Published(b, size, capacity, seqNo, msg), size, i)
  {
    var j := seqNo % capacity;
    var off, o := SlotOff(j, size), SlotOff(i, size);
    SlotInsideMapping(i, size, capacity);
    SlotInsideMapping(j, size, capacity);
    if i < j {
      SlotsInOrder(i, j, size);
    } else {
      SlotsInOrder(j, i, size);
    }
    PatchedRange(b, off + 8, msg, o, o + 8 + size);
    PatchedRange(Patch(b, off + 8, msg), off, U64(seqNo + 1), o, o + 8 + size);
  }

  lemma SameSlotHoldsTheSame(b: Bytes, b': Bytes, size: nat, i: nat)
    requires SameSlot(b, b', size, i)
    ensures StampWord(b', size, i) == StampWord(b, size, i)
    ensures forall seqNo: nat, capacity: Positive, msg :: seqNo % capacity == i ==>
              HoldsMessage(b, size, capacity, seqNo, msg) == HoldsMessage(b', size, capacity, seqNo, msg)
  {
    var o := SlotOff(i, size);
    assert b'[o..o + 8] == b'[o..o + 8 + size][..8];
    assert b[o..o + 8] == b[o..o + 8 + size][..8];
    assert b'[o + 8..o + 8 + size] == b'[o..o + 8 + size][8..];
    assert b[o + 8..o + 8 + size] == b[o..o + 8 + size][8..];
  }

  /** A queued message survives whatever leaves its slot alone. */
  lemma QueuedMessageSurvives(b: Bytes, b': Bytes, size: nat, capacity: Positive, seqNo: nat, msg: Bytes)
    requires HoldsMessage(b, size, capacity, seqNo, msg) && SameSlot(b, b', size, seqNo % capacity)
    ensures HoldsMessage(b', size, capacity, seqNo, msg)
  {
    SameSlotHoldsTheSame(b, b', size, seqNo % capacity);
  }

  lemma OtherSlotThanLive(a: nat, b: nat, capacity: Positive)
    requires a < b < a + capacity
    ensures a % capacity != b % capacity
  {
    if a % capacity == b % capacity {
      SameSlotIsALapApart(a, b, capacity);
    }
  }

  lemma PublishingKeepsStampsBounded(
    b: Bytes, size: nat, capacity: Positive, first: nat, q: seq<Bytes>, msg: Bytes, i: nat)
    requires HoldsQueue(b, size, capacity, first, q) && |msg| == size && i < capacity
    requires first + |q| + 1 < U64_LIMIT
    ensures StampWord(Published(b, size, capacity, first + |q|, msg), size, i) <= first + |q| + 1
  {
    var n := first + |q|;
    var b' := Published(b, size, capacity, n, msg);
    if i == n % capacity {
      PublishedMessageIsHeld(b, size, capacity, n, msg);
    } else {
      PublishedElsewhere(b, size, capacity, n, msg, i);
      SameSlotHoldsTheSame(b, b', size, i);
    }
  }

  lemma PublishingKeepsMessages(
    b: Bytes, size: nat, capacity: Positive, first: nat, q: seq<Bytes>, msg: Bytes)
    requires HoldsQueue(b, size, capacity, first, q) && |q| < capacity && |msg| == size
    ensures HoldsMessages(Published(b, size, capacity, first + |q|, msg), size, capacity, first, q)
  {
    var n := first + |q|;
    var b' := Published(b, size, capacity, n, msg);
    forall x | 0 <= x < |q|
      ensures HoldsMessage(b', size, capacity, first + x, q[x])
    {
      OtherSlotThanLive(first + x, n, capacity);
      PublishedElsewhere(b, size, capacity, n, msg, (first + x) % capacity);
      QueuedMessageSurvives(b, b', size, capacity, first + x, q[x]);
    }
  }

  lemma HoldsOneMore(b: Bytes, size: nat, capacity: Positive, first: nat, q: seq<Bytes>, msg: Bytes)
    requires HoldsMessages(b, size, capacity, first, q) && HoldsMessage(b, size, capacity, first + |q|, msg)
    ensures HoldsMessages(b, size, capacity, first, q + [msg])
  {
  }

  /** Publishing the next sequence number appends its message to the queue in the bytes. */
  lemma PublishingAppends(b: Bytes, size: nat, capacity: Positive, first: nat, q: seq<Bytes>, msg: Bytes)
    requires HoldsQueue(b, size, capacity, first, q) && |q| < capacity && |msg| == size
    requires first + |q| + 1 < U64_LIMIT
    ensures HoldsQueue(Published(b, size, capacity, first + |q|, msg), size, capacity, first, q + [msg])
  {
    var b' := Published(b, size, capacity, first + |q|, msg);
    PublishedMessageIsHeld(b, size, capacity, first + |q|, msg);
    PublishingKeepsTheCursor(b, size, capacity, first + |q|, msg);
    PublishingKeepsMessages(b, size, capacity, first, q, msg);
    HoldsOneMore(b', size, capacity, first, q, msg);
    forall i | 0 <= i < capacity
      ensures StampWord(b', size, i) <= first + |q| + 1
    {
      PublishingKeepsStampsBounded(b, size, capacity, first, q, msg, i);
    }
  }

  class RingProducer {
    const ring: Mapping
    var nextSeq: nat
    /** A lower bound on the consumer's progress, exact when it was loaded. */
    var cachedCursor: nat

    constructor Open(ring: Mapping)
      ensures this.ring == ring && nextSeq == 0 && cachedCursor == 0
    {
      this.ring, nextSeq, cachedCursor := ring, 0, 0;
    }

    /** The refresh loop of a ring that looks full. */
    method AwaitRoom(polls: seq<CursorPoll>, deadline: nat) returns (end: RoomEnd)
      modifies `cachedCursor
      ensures (end == Room, cachedCursor) == WaitForRoom(polls, nextSeq, old(cachedCursor), ring.capacity, deadline)
      ensures end == Room <==> FindsRoom(polls, nextSeq, ring.capacity, deadline)
      ensures end == Full <==> FindsItFull(polls, nextSeq, ring.capacity, deadline)
      ensures end == Undecided ==>
                && (polls == [] ==> cachedCursor == old(cachedCursor))
                && (polls != [] ==> cachedCursor == polls[|polls| - 1].cursor <= nextSeq - ring.capacity)
      ensures end != Undecided ==>
                exists x :: && 0 <= x < |polls| && cachedCursor == polls[x].cursor
                            && if end == Room then nextSeq - polls[x].cursor < ring.capacity
                               else nextSeq - polls[x].cursor >= ring.capacity && polls[x].now > deadline
    {
      var x := 0;
      while x < |polls|
        invariant 0 <= x <= |polls|
        invariant forall y :: 0 <= y < x ==> StillFull(polls[y], nextSeq, ring.capacity, deadline)
        invariant cachedCursor == if x == 0 then old(cachedCursor) else polls[x - 1].cursor
        invariant WaitForRoom(polls[x..], nextSeq, cachedCursor, ring.capacity, deadline)
               == WaitForRoom(polls, nextSeq, old(cachedCursor), ring.capacity, deadline)
      {
        cachedCursor := polls[x].cursor;
        if nextSeq - cachedCursor < ring.capacity {
          assert RoomAt(polls, nextSeq, ring.capacity, deadline, x);
          return Room;
        }
        if polls[x].now > deadline {
          assert FullAt(polls, nextSeq, ring.capacity, deadline, x);
          return Full;
        }
        assert polls[x..][1..] == polls[x + 1..];
        x := x + 1;
      }
      end := Undecided;
    }

    /** Sends one message, waiting for room from `began` on if the ring looks full. `first` and `q`
        describe the queue in the bytes once the wait is over: the consumer may take messages
        meanwhile, but no load is ahead of it. */
    method Send(msg: Bytes, began: nat, polls: seq<CursorPoll>, ghost first: nat, ghost q: seq<Bytes>)
      returns (end: SendEnd)
      requires ring.Valid() && |msg| == ring.msgSize && nextSeq + 1 < U64_LIMIT
      requires HoldsQueue(ring.data[..], ring.msgSize, ring.capacity, first, q) && nextSeq == first + |q|
      requires cachedCursor <= first && forall x :: 0 <= x < |polls| ==> polls[x].cursor <= first
      modifies this, ring.data, ring`log
      ensures end == Sent <==>
                || old(nextSeq - cachedCursor) < ring.capacity
                || FindsRoom(polls, old(nextSeq), ring.capacity, began + 5_000_000_000)
      ensures end == RingFull <==>
                && old(nextSeq - cachedCursor) >= ring.capacity
                && FindsItFull(polls, old(nextSeq), ring.capacity, began + 5_000_000_000)
      ensures (end == Sent, cachedCursor)
           == if old(nextSeq - cachedCursor) < ring.capacity then (true, old(cachedCursor))
              else WaitForRoom(polls, old(nextSeq), old(cachedCursor), ring.capacity, began + FULL_TIMEOUT)
      ensures cachedCursor <= first
      ensures end == Sent ==> HoldsQueue(ring.data[..], ring.msgSize, ring.capacity, first, q + [msg])
      ensures end == Sent ==> nextSeq == old(nextSeq) + 1
      ensures end == Sent ==>
                && ring.data[..] == Published(old(ring.data[..]), ring.msgSize, ring.capacity, old(nextSeq), msg)
                && ring.log == old(ring.log)
                             + PayloadThenStampStores(ring.msgSize, ring.capacity, old(nextSeq), msg)
      ensures end != Sent ==>
                ring.data[..] == old(ring.data[..]) && ring.log == old(ring.log) && nextSeq == old(nextSeq)
      ensures end != Sent ==> nextSeq - cachedCursor >= ring.capacity
      ensures end == RingFull ==>
                exists x :: && 0 <= x < |polls| && polls[x].cursor == cachedCursor
                            && polls[x].now > began + 5_000_000_000
    {
      ghost var b := ring.data[..];
      if nextSeq - cachedCursor >= ring.capacity {
        var room := AwaitRoom(polls, began + FULL_TIMEOUT);
        if room == Full {
          return RingFull;
        }
        if room == Undecided {
          return FullSoFar;
        }
      }
      PublishingAppends(b, ring.msgSize, ring.capacity, first, q, msg);
      ring.Publish(nextSeq, msg);
      nextSeq := nextSeq + 1;
      end := Sent;
    }
  }

  // ------------------------------------------------------------ the consumer

  const SPIN_POLLS: nat := 1_000
  const SPIN_STRIDE: nat := 256
  const U32_LIMIT: nat := 0x1_0000_0000

  datatype PollEnd = Matched | GaveUp | Waiting
  datatype Deadline = Unset | Expires(at: nat)

  /** The wait loop of `recv`: the clock is consulted every 256th miss from the 1000th on, the
      first consultation sets the deadline, later ones check it. */
  function PollLoop(polls: seq<StampPoll>, want: nat, misses: nat, deadline: Deadline): PollEnd {
    if polls == [] then Waiting
    else if polls[0].stamp == want then Matched
    else
      var missed := (misses + 1) % U32_LIMIT;
      if missed < SPIN_POLLS || missed % SPIN_STRIDE != 0 then PollLoop(polls[1..], want, missed, deadline)
      else
        match deadline
        case Unset => PollLoop(polls[1..], want, missed, Expires(polls[0].now + RECV_TIMEOUT))
        case Expires(at) => if polls[0].now > at then GaveUp else PollLoop(polls[1..], want, missed, deadline)
  }

  ghost predicate AllMiss(polls: seq<StampPoll>, want: nat, last: nat) {
    && last < |polls|
    && forall x :: 0 <= x <= last ==> polls[x].stamp != want
  }

  lemma OneMoreMiss(polls: seq<StampPoll>, want: nat, last: nat)
    requires polls != [] && polls[0].stamp != want && AllMiss(polls[1..], want, last)
    ensures AllMiss(polls, want, last + 1)
  {
    forall x | 1 <= x <= last + 1
      ensures polls[x].stamp != want
    {
      assert polls[x] == polls[1..][x - 1];
    }
  }

  /** The loop looks at the clock after `m` misses, counted in 32 bits. */
  ghost predicate Consults(m: nat) {
    m % 256 == 0 && m % 0x1_0000_0000 >= 1_000
  }

  lemma OneMissMore(c: nat)
    ensures (c % U32_LIMIT + 1) % U32_LIMIT == (c + 1) % U32_LIMIT
    ensures ((c + 1) % U32_LIMIT) % SPIN_STRIDE == (c + 1) % SPIN_STRIDE
  {
    var laps, m := c / U32_LIMIT, c % U32_LIMIT;
    if m + 1 < U32_LIMIT {
      RemainderIsUnique(c + 1, laps, m + 1, U32_LIMIT);
    } else {
      RemainderIsUnique(c + 1, laps + 1, 0, U32_LIMIT);
    }
    var strides, rest := (c + 1) / SPIN_STRIDE, (c + 1) % SPIN_STRIDE;
    var whole := (c + 1) / U32_LIMIT;
    RemainderIsUnique((c + 1) % U32_LIMIT, strides - whole * 0x100_0000, rest, SPIN_STRIDE);
  }

  /** Poll `y` is a miss after which a loop with `c` misses behind it finds the deadline passed. */
  ghost predicate Expired(polls: seq<StampPoll>, want: nat, c: nat, at: nat, y: nat) {
    AllMiss(polls, want, y) && Consults(c + y + 1) && polls[y].now > at
  }

  lemma ExpiredLater(polls: seq<StampPoll>, want: nat, c: nat, at: nat, y: nat)
    requires polls != [] && polls[0].stamp != want
    ensures y < |polls| - 1 ==> (Expired(polls[1..], want, c + 1, at, y) <==> Expired(polls, want, c, at, y + 1))
  {
    if y < |polls| - 1 {
      var later := polls[1..];
      assert forall x :: 0 <= x < |later| ==> later[x] == polls[x + 1];
    }
  }

  lemma {:induction false} ArmedLoopGivesUpExactly(polls: seq<StampPoll>, want: nat, c: nat, at: nat)
    ensures PollLoop(polls, want, c % U32_LIMIT, Expires(at)) == GaveUp
       <==> exists y: nat :: Expired(polls, want, c, at, y)
  {
    if polls != [] && polls[0].stamp != want {
      var later, c' := polls[1..], c + 1;
      OneMissMore(c);
      ArmedLoopGivesUpExactly(later, want, c', at);
      assert Expired(polls, want, c, at, 0) <==> Consults(c + 1) && polls[0].now > at;
      if y: nat :| Expired(later, want, c', at, y) {
        ExpiredLater(polls, want, c, at, y);
      }
      if y: nat :| Expired(polls, want, c, at, y) && y > 0 {
        ExpiredLater(polls, want, c, at, y - 1);
      }
    }
  }

  /** The first `m` polls miss; the clock, looked at after the last of them, is more than a second
      past what it read after the 1024th. */
  ghost predicate GivesUpAt(polls: seq<StampPoll>, want: nat, m: nat) {
    && 1280 <= m <= |polls| && m % 256 == 0 && m % 0x1_0000_0000 >= 1_000
    && (forall x :: 0 <= x < m ==> polls[x].stamp != want)
    && polls[m - 1].now > polls[1023].now + 1_000_000_000
  }

  ghost predicate GivesUp(polls: seq<StampPoll>, want: nat) {
    exists m: nat :: GivesUpAt(polls, want, m)
  }

  lemma OneMoreOrNot(polls: seq<StampPoll>, want: nat, last: nat)
    requires polls != [] && polls[0].stamp != want
    ensures AllMiss(polls, want, last + 1) <==> AllMiss(polls[1..], want, last)
  {
    if AllMiss(polls[1..], want, last) {
      OneMoreMiss(polls, want, last);
    }
    if AllMiss(polls, want, last + 1) {
      var later := polls[1..];
      assert forall x :: 0 <= x < |later| ==> later[x] == polls[x + 1];
    }
  }

  lemma {:induction false} UnarmedLoop(polls: seq<StampPoll>, want: nat, c: nat)
    requires c < 1024
    ensures var r := PollLoop(polls, want, c, Unset);
            if AllMiss(polls, want, 1023 - c) then
              r == PollLoop(polls[1024 - c..], want, 1024, Expires(polls[1023 - c].now + RECV_TIMEOUT))
            else r != GaveUp
  {
    if polls != [] && polls[0].stamp != want {
      if c < 1023 {
        UnarmedLoop(polls[1..], want, c + 1);
        OneMoreOrNot(polls, want, 1022 - c);
        if AllMiss(polls, want, 1023 - c) {
          assert polls[1..][1023 - c..] == polls[1024 - c..];
        }
      }
    }
  }

  lemma GivesUpAfterArming(polls: seq<StampPoll>, want: nat, m: nat)
    requires m > 1024 && AllMiss(polls, want, 1023)
    ensures GivesUpAt(polls, want, m)
       <==> Expired(polls[1024..], want, 1024, polls[1023].now + RECV_TIMEOUT, m - 1025)
  {
    var later := polls[1024..];
    assert forall x :: 0 <= x < |later| ==> later[x] == polls[x + 1024];
    if Expired(later, want, 1024, polls[1023].now + RECV_TIMEOUT, m - 1025) {
      forall x | 1024 <= x < m
        ensures polls[x].stamp != want
      {
        assert later[x - 1024] == polls[x];
      }
    }
  }

  /** The wait is given up exactly if, at a look at the clock, all polls so far have missed and a
      second has passed since the first look, after the 1024th. */
  lemma GivesUpExactly(polls: seq<StampPoll>, want: nat)
    ensures PollLoop(polls, want, 0, Unset) == GaveUp <==> GivesUp(polls, want)
  {
    UnarmedLoop(polls, want, 0);
    if AllMiss(polls, want, 1023) {
      var at := polls[1023].now + RECV_TIMEOUT;
      var later := polls[1024..];
      ArmedLoopGivesUpExactly(later, want, 1024, at);
      if m: nat :| GivesUpAt(polls, want, m) {
        GivesUpAfterArming(polls, want, m);
      }
      if y: nat :| Expired(later, want, 1024, at, y) {
        GivesUpAfterArming(polls, want, y + 1025);
      }
    }
  }

  lemma {:induction false} MatchesIfAny(polls: seq<StampPoll>, want: nat, misses: nat, deadline: Deadline)
    ensures var r := PollLoop(polls, want, misses, deadline);
            && (r == Matched ==> exists x :: 0 <= x < |polls| && polls[x].stamp == want)
            && (r == Waiting ==> forall x :: 0 <= x < |polls| ==> polls[x].stamp != want)
  {
    if polls != [] && polls[0].stamp != want {
      var missed := (misses + 1) % U32_LIMIT;
      MatchesIfAny(polls[1..], want, missed, deadline);
      MatchesIfAny(polls[1..], want, missed, Expires(polls[0].now + RECV_TIMEOUT));
      assert forall x :: 1 <= x < |polls| ==> polls[1..][x - 1] == polls[x];
    }
  }

  /** A receive times out only after at least 1280 polls in a row have missed, the last of them
      more than the receive timeout after the 1024th: never early, whatever the clock does. */
  lemma NoEarlyTimeout(polls: seq<StampPoll>, want: nat) returns (y: nat)
    requires PollLoop(polls, want, 0, Unset) == GaveUp
    ensures 1279 <= y && AllMiss(polls, want, y)
    ensures polls[y].now > polls[1023].now + RECV_TIMEOUT
  {
    GivesUpExactly(polls, want);
    var m: nat :| GivesUpAt(polls, want, m);
    y := m - 1;
  }

  lemma FrontAndRest(polls: seq<StampPoll>)
    requires |polls| > 1
    ensures polls[..|polls| - 1] != [] && polls[..|polls| - 1][0] == polls[0]
    ensures polls[..|polls| - 1][1..] == polls[1..][..|polls| - 2]
  {
  }

  /** A script that ends with the poll at which an armed loop gave up. */
  lemma {:induction false} LastPollIsPastTheDeadline(polls: seq<StampPoll>, want: nat, misses: nat, at: nat)
    requires polls != [] && PollLoop(polls, want, misses, Expires(at)) == GaveUp
    requires PollLoop(polls[..|polls| - 1], want, misses, Expires(at)) == Waiting
    ensures AllMiss(polls, want, |polls| - 1) && polls[|polls| - 1].now > at
  {
    if |polls| > 1 {
      FrontAndRest(polls);
      LastPollIsPastTheDeadline(polls[1..], want, (misses + 1) % U32_LIMIT, at);
      OneMoreMiss(polls, want, |polls| - 2);
    }
  }

  lemma {:induction false} LastPollAfterArming(polls: seq<StampPoll>, want: nat, misses: nat)
    requires misses < 1024 && PollLoop(polls, want, misses, Unset) == GaveUp
    requires PollLoop(polls[..|polls| - 1], want, misses, Unset) == Waiting
    ensures AllMiss(polls, want, |polls| - 1) && 1023 - misses < |polls| - 1
    ensures polls[|polls| - 1].now > polls[1023 - misses].now + RECV_TIMEOUT
  {
    FrontAndRest(polls);
    if misses + 1 < 1024 {
      LastPollAfterArming(polls[1..], want, misses + 1);
    } else {
      LastPollIsPastTheDeadline(polls[1..], want, 1024, polls[0].now + RECV_TIMEOUT);
    }
    OneMoreMiss(polls, want, |polls| - 2);
  }

  /** The wait loop of `recv`. */
  method AwaitStamp(polls: seq<StampPoll>, want: nat) returns (end: PollEnd)
    ensures end == PollLoop(polls, want, 0, Unset)
    ensures end == GaveUp <==> GivesUp(polls, want)
    ensures end == Matched <==> !GivesUp(polls, want) && exists x :: 0 <= x < |polls| && polls[x].stamp == want
  {
    GivesUpExactly(polls, want);
    MatchesIfAny(polls, want, 0, Unset);
    var x, misses := 0, 0;
    var deadline := Unset;
    while x < |polls|
      invariant 0 <= x <= |polls| && 0 <= misses
      invariant PollLoop(polls[x..], want, misses, deadline) == PollLoop(polls, want, 0, Unset)
    {
      if polls[x].stamp == want {
        return Matched;
      }
      assert polls[x..][1..] == polls[x + 1..];
      misses := (misses + 1) % U32_LIMIT;
      if misses >= SPIN_POLLS && misses % SPIN_STRIDE == 0 {
        match deadline {
          case Unset =>
            deadline := Expires(polls[x].now + RECV_TIMEOUT);
          case Expires(at) =>
            if polls[x].now > at {
              return GaveUp;
            }
        }
      }
      x := x + 1;
    }
    end := Waiting;
  }

  lemma CursorStoreLeavesSlots(b: Bytes, size: nat, capacity: Positive, cursor: nat, i: nat)
    requires |b| == Total(size, capacity) && i < capacity
    ensures CURSOR_OFF + 8 <= |b|
    ensures SameSlot(b, Patch(b, CURSOR_OFF, U64(cursor)), size, i)
    ensures StampWord(Patch(b, CURSOR_OFF, U64(cursor)), size, i) == StampWord(b, size, i)
  {
    SlotInsideMapping(i, size, capacity);
    PatchedRange(b, CURSOR_OFF, U64(cursor), SlotOff(i, size), SlotOff(i, size) + 8 + size);
    SameSlotHoldsTheSame(b, Patch(b, CURSOR_OFF, U64(cursor)), size, i);
  }

  lemma CursorStoreKeepsMessage(b: Bytes, size: nat, capacity: Positive, cursor: nat, seqNo: nat, msg: Bytes)
    requires |b| == Total(size, capacity) && HoldsMessage(b, size, capacity, seqNo, msg)
    ensures CURSOR_OFF + 8 <= |b|
    ensures HoldsMessage(Patch(b, CURSOR_OFF, U64(cursor)), size, capacity, seqNo, msg)
  {
    CursorStoreLeavesSlots(b, size, capacity, cursor, seqNo % capacity);
    QueuedMessageSurvives(b, Patch(b, CURSOR_OFF, U64(cursor)), size, capacity, seqNo, msg);
  }

  lemma CursorStoreKeepsStamps(b: Bytes, size: nat, capacity: Positive, cursor: nat, i: nat, bound: nat)
    requires |b| == Total(size, capacity) && i < capacity && StampWord(b, size, i) <= bound
    ensures CURSOR_OFF + 8 <= |b|
    ensures StampWord(Patch(b, CURSOR_OFF, U64(cursor)), size, i) <= bound
  {
    CursorStoreLeavesSlots(b, size, capacity, cursor, i);
  }

  lemma CursorStoreKeepsTheRest(b: Bytes, size: nat, capacity: Positive, first: nat, q: seq<Bytes>)
    requires HoldsQueue(b, size, capacity, first, q) && q != []
    ensures CURSOR_OFF + 8 <= |b|
    ensures HoldsMessages(Patch(b, CURSOR_OFF, U64(first + 1)), size, capacity, first + 1, q[1..])
  {
    CursorStoreLeavesSlots(b, size, capacity, first + 1, 0);
    var rest := q[1..];
    forall x | 0 <= x < |rest|
      ensures HoldsMessage(Patch(b, CURSOR_OFF, U64(first + 1)), size, capacity, first + 1 + x, rest[x])
    {
      assert HoldsMessage(b, size, capacity, first + (x + 1), q[x + 1]);
      CursorStoreKeepsMessage(b, size, capacity, first + 1, first + (x + 1), q[x + 1]);
    }
  }

  /** Storing the cursor drops the first message from the queue in the bytes. */
  lemma CursorStoreTakes(b: Bytes, size: nat, capacity: Positive, first: nat, q: seq<Bytes>)
    requires HoldsQueue(b, size, capacity, first, q) && q != [] && first + 1 < U64_LIMIT
    ensures CURSOR_OFF + 8 <= |b|
    ensures HoldsQueue(Patch(b, CURSOR_OFF, U64(first + 1)), size, capacity, first + 1, q[1..])
  {
    CursorStoreKeepsTheRest(b, size, capacity, first, q);
    StoredWord(b, CURSOR_OFF, first + 1);
    var b' := Patch(b, CURSOR_OFF, U64(first + 1));
    forall i | 0 <= i < capacity
      ensures StampWord(b', size, i) <= first + |q|
    {
      CursorStoreKeepsStamps(b, size, capacity, first + 1, i, first + |q|);
    }
  }

  lemma FirstMessageIsHeld(b: Bytes, size: nat, capacity: Positive, first: nat, q: seq<Bytes>)
    requires HoldsQueue(b, size, capacity, first, q) && q != []
    ensures var off := PayloadOff(first, size, capacity); off + size <= |b| && b[off..off + size] == q[0]
  {
    SlotInsideMapping(first % capacity, size, capacity);
    assert HoldsMessage(b, size, capacity, first + 0, q[0]);
  }

  function EndOfRecv(end: PollEnd): RecvOutcome {
    match end
    case Matched => GotMsg
    case GaveUp => TimedOut
    case Waiting => StillWaiting
  }

  class RingConsumer {
    const ring: Mapping
    var nextSeq: nat

    constructor Open(ring: Mapping)
      ensures this.ring == ring && nextSeq == 0
    {
      this.ring, nextSeq := ring, 0;
    }

    /** Receives one message into `buf`. `q` is the queue in the bytes once the wait is over; a
        stamp load that matched means it is not empty. */
    method Recv(buf: array<Byte>, polls: seq<StampPoll>, ghost q: seq<Bytes>) returns (outcome: RecvOutcome)
      requires ring.Valid() && buf.Length == ring.msgSize && buf != ring.data && nextSeq + 1 < U64_LIMIT
      requires HoldsQueue(ring.data[..], ring.msgSize, ring.capacity, nextSeq, q)
      requires forall x :: 0 <= x < |polls| && polls[x].stamp == nextSeq + 1 ==> q != []
      modifies this, ring.data, ring`log, buf
      ensures outcome == EndOfRecv(PollLoop(polls, old(nextSeq) + 1, 0, Unset))
      ensures outcome.TimedOut? <==> GivesUp(polls, old(nextSeq) + 1)
      ensures outcome.GotMsg? <==>
                && !GivesUp(polls, old(nextSeq) + 1)
                && exists x :: 0 <= x < |polls| && polls[x].stamp == old(nextSeq) + 1
      ensures outcome.GotMsg? ==>
                && q != [] && buf[..] == q[0] && nextSeq == old(nextSeq) + 1
                && HoldsQueue(ring.data[..], ring.msgSize, ring.capacity, nextSeq, q[1..])
      ensures outcome.GotMsg? ==>
                && CURSOR_OFF + 8 <= ring.data.Length
                && ring.data[..] == Patch(old(ring.data[..]), CURSOR_OFF, U64(nextSeq))
                && ring.log == old(ring.log) + PayloadThenCursor(ring.msgSize, ring.capacity, old(nextSeq))
      ensures !outcome.GotMsg? ==>
                && ring.data[..] == old(ring.data[..]) && ring.log == old(ring.log)
                && buf[..] == old(buf[..]) && nextSeq == old(nextSeq)
    {
      var end := AwaitStamp(polls, nextSeq + 1);
      if end == GaveUp {
        return TimedOut;
      }
      if end == Waiting {
        return StillWaiting;
      }
      ghost var b := ring.data[..];
      FirstMessageIsHeld(b, ring.msgSize, ring.capacity, nextSeq, q);
      CursorStoreTakes(b, ring.msgSize, ring.capacity, nextSeq, q);
      ring.Consume(nextSeq, buf);
      nextSeq := nextSeq + 1;
      outcome := GotMsg;
    }
  }
}

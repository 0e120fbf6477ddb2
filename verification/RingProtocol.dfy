/** The shared-memory ring as a step system: one producer and one consumer, interleaved at the
    granularity of a single byte copy or a single atomic access, over release/acquire memory. */
module RingProtocol {
  import opened Basics
  import opened Memory

  datatype Cell = Cell(slot: nat, byte: nat)

  /** The last plain read of a payload byte: `tag` is one more than the sequence number it served
      (0 for a byte never read), `at` the consumer's clock. */
  datatype Read = Read(tag: nat, at: nat)

  /** Ready: between calls. Refresh: the ring looked full, the shared cursor must be loaded. Full:
      the loaded cursor still showed a full ring. Fill: copying the payload. Bump: stamp stored. */
  datatype SendPhase = Ready | Refresh | Full | Fill | Bump
  /** Idle: between calls. Poll: about to load the stamp. Missed: the stamp did not match.
      Drain: copying the payload out. Advance: cursor stored. */
  datatype RecvPhase = Idle | Poll | Missed | Drain | Advance

  datatype Producer = Producer(
    phase: SendPhase, nextSeq: nat, cachedCursor: nat,
    msg: Bytes, copied: set<nat>, now: nat, seen: nat)

  datatype Consumer = Consumer(
    phase: RecvPhase, nextSeq: nat, buf: Bytes, copied: set<nat>, now: nat, seen: nat)

  /** `sent` and `received` are history: the messages whose stamp, respectively whose cursor, has
      been stored. */
  datatype Ring = Ring(
    capacity: Positive, size: nat,
    cursor: seq<Write<nat>>,
    stamps: seq<seq<Write<nat>>>,
    bytes: map<Cell, seq<Write<Byte>>>,
    lastRead: map<Cell, Read>,
    p: Producer, c: Consumer,
    sent: seq<Bytes>, received: seq<Bytes>)

  function Slot(r: Ring, seqNo: nat): (i: nat)
    ensures i < r.capacity
  {
    seqNo % r.capacity
  }

  predicate IsCell(r: Ring, x: Cell) {
    x.slot < r.capacity && x.byte < r.size
  }

  function Fresh(capacity: Positive, size: nat): Ring {
    var cells := set i, k | 0 <= i < capacity && 0 <= k < size :: Cell(i, k);
    Ring(capacity, size,
         [Write(0, 0)],
         seq(capacity, _ => [Write(0, 0)]),
         map x | x in cells :: [Write(0, 0)],
         map x | x in cells :: Read(0, 0),
         Producer(Ready, 0, 0, [], {}, 0, 0),
         Consumer(Idle, 0, seq(size, _ => 0), {}, 0, 0),
         [], [])
  }

  // ---------------------------------------------------------------- steps

  /** One micro-step. A load names the index of the write it returns. */
  datatype Step =
    | SendCall(msg: Bytes) | LoadCursor(j: nat) | SendTimeout
    | WriteByte(k: nat) | StoreStamp | BumpProducer
    | RecvCall(buf: Bytes) | LoadStamp(j: nat) | RecvTimeout
    | ReadByte(k: nat, j: nat) | StoreCursor | BumpConsumer

  predicate IsProducerStep(st: Step) {
    st.SendCall? || st.LoadCursor? || st.SendTimeout? || st.WriteByte? || st.StoreStamp? || st.BumpProducer?
  }

  ghost predicate WellFormed(r: Ring) {
    && |r.stamps| == r.capacity
    && (forall x: Cell :: IsCell(r, x) ==> x in r.bytes && r.bytes[x] != [] && x in r.lastRead)
    && |r.c.buf| == r.size
    && (!r.p.phase.Ready? ==> |r.p.msg| == r.size)
  }

  ghost predicate AllCopied(r: Ring, copied: set<nat>) {
    forall k :: 0 <= k < r.size ==> k in copied
  }

  ghost predicate Enabled(r: Ring, st: Step)
    requires WellFormed(r)
  {
    match st
    case SendCall(m) => r.p.phase.Ready? && |m| == r.size
    case LoadCursor(j) => (r.p.phase.Refresh? || r.p.phase.Full?) && Coherent(r.cursor, j, r.p.seen)
    case SendTimeout => r.p.phase.Full?
    case WriteByte(k) => r.p.phase.Fill? && k < r.size && k !in r.p.copied
    case StoreStamp => r.p.phase.Fill? && AllCopied(r, r.p.copied)
    case BumpProducer => r.p.phase.Bump?
    case RecvCall(b) => r.c.phase.Idle? && |b| == r.size
    case LoadStamp(j) =>
      (r.c.phase.Poll? || r.c.phase.Missed?) && Coherent(r.stamps[Slot(r, r.c.nextSeq)], j, r.c.seen)
    case RecvTimeout => r.c.phase.Missed?
    case ReadByte(k, j) =>
      r.c.phase.Drain? && k < r.size && k !in r.c.copied
      && Coherent(r.bytes[Cell(Slot(r, r.c.nextSeq), k)], j, r.c.seen)
    case StoreCursor => r.c.phase.Drain? && AllCopied(r, r.c.copied)
    case BumpConsumer => r.c.phase.Advance?
  }

  /** The producer's side of one step. `nextSeq - cachedCursor` is the source's unsigned
      subtraction; NeverUnderflows shows it is never negative. */
  ghost function ApplyProducer(r: Ring, st: Step): Ring
    requires WellFormed(r) && Enabled(r, st) && IsProducerStep(st)
  {
    var p := r.p;
    match st
    case SendCall(m) =>
      r.(p := p.(msg := m, copied := {},
                 phase := if p.nextSeq - p.cachedCursor >= r.capacity then Refresh else Fill))
    case LoadCursor(j) =>
      var w := r.cursor[j];
      r.(p := p.(cachedCursor := w.val, seen := Max(p.seen, w.at),
                 phase := if p.nextSeq - w.val < r.capacity then Fill else Full))
    case SendTimeout => r.(p := p.(phase := Ready))
    case WriteByte(k) =>
      var x := Cell(Slot(r, p.nextSeq), k);
      r.(bytes := r.bytes[x := r.bytes[x] + [Write(p.msg[k], p.now + 1)]],
         p := p.(copied := p.copied + {k}, now := p.now + 1))
    case StoreStamp =>
      var i := Slot(r, p.nextSeq);
      r.(stamps := r.stamps[i := r.stamps[i] + [Write(p.nextSeq + 1, p.now + 1)]],
         p := p.(phase := Bump, now := p.now + 1),
         sent := r.sent + [p.msg])
    case BumpProducer => r.(p := p.(phase := Ready, nextSeq := p.nextSeq + 1))
  }

  ghost function ApplyConsumer(r: Ring, st: Step): Ring
    requires WellFormed(r) && Enabled(r, st) && !IsProducerStep(st)
  {
    var c := r.c;
    match st
    case RecvCall(b) => r.(c := c.(phase := Poll, buf := b, copied := {}))
    case LoadStamp(j) =>
      var w := r.stamps[Slot(r, c.nextSeq)][j];
      r.(c := c.(seen := Max(c.seen, w.at), phase := if w.val == c.nextSeq + 1 then Drain else Missed))
    case RecvTimeout => r.(c := c.(phase := Idle))
    case ReadByte(k, j) =>
      var x := Cell(Slot(r, c.nextSeq), k);
      r.(c := c.(buf := c.buf[k := r.bytes[x][j].val], copied := c.copied + {k}, now := c.now + 1),
         lastRead := r.lastRead[x := Read(c.nextSeq + 1, c.now + 1)])
    case StoreCursor =>
      r.(cursor := r.cursor + [Write(c.nextSeq + 1, c.now + 1)],
         c := c.(phase := Advance, now := c.now + 1),
         received := r.received + [c.buf])
    case BumpConsumer => r.(c := c.(phase := Idle, nextSeq := c.nextSeq + 1))
  }

  ghost function Apply(r: Ring, st: Step): Ring
    requires WellFormed(r) && Enabled(r, st)
  {
    if IsProducerStep(st) then ApplyProducer(r, st) else ApplyConsumer(r, st)
  }

  // ------------------------------------------------------------ invariant

  /** Every cursor value from 0 to the number of messages received, in order. */
  ghost predicate CursorInv(cursor: seq<Write<nat>>, received: nat, now: nat) {
    && |cursor| == received + 1
    && (forall j :: 0 <= j < |cursor| ==> cursor[j].val == j && cursor[j].at <= now)
    && (forall i, j :: 0 <= i <= j < |cursor| ==> cursor[i].at <= cursor[j].at)
  }

  /** The stamp slot `i` carries on its `lap`-th use: 0 before the first, then one capacity more
      each lap. */
  function StampOfLap(i: nat, lap: nat, capacity: Positive): nat {
    if lap == 0 then 0
    else if lap == 1 then i + 1
    else StampOfLap(i, lap - 1, capacity) + capacity
  }

  /** The modification order of slot `i`'s stamp when `published` messages have been stamped: one
      write a lap, never cleared, and every lap up to `published` present. */
  ghost predicate StampChain(h: seq<Write<nat>>, i: nat, capacity: Positive, published: nat, now: nat) {
    && h != [] && h[0].at == 0
    && (forall j :: 0 <= j < |h| ==> h[j].val == StampOfLap(i, j, capacity) && h[j].at <= now)
    && Newest(h).val <= published < StampOfLap(i, |h|, capacity)
  }

  ghost predicate StampInv(stamps: seq<seq<Write<nat>>>, capacity: Positive, published: nat, now: nat) {
    && |stamps| == capacity
    && forall i :: 0 <= i < capacity ==> StampChain(stamps[i], i, capacity, published, now)
  }

  /** The consumer has synchronised with the stamp of everything it received. */
  ghost predicate SeenInv(stamps: seq<seq<Write<nat>>>, received: nat, seen: nat) {
    forall i, j :: 0 <= i < |stamps| && 0 <= j < |stamps[i]| && stamps[i][j].val <= received ==>
      stamps[i][j].at <= seen
  }

  ghost predicate BytesInv(bytes: map<Cell, seq<Write<Byte>>>, now: nat) {
    forall x, j :: x in bytes && 0 <= j < |bytes[x]| ==> bytes[x][j].at <= Newest(bytes[x]).at <= now
  }

  /** The payload of one published message sits whole in its slot, written before its stamp. */
  ghost predicate Holds(r: Ring, i: nat, msg: Bytes)
    requires WellFormed(r) && i < r.capacity && |msg| == r.size
  {
    r.stamps[i] != [] &&
    forall k :: 0 <= k < r.size ==>
      var w := Newest(r.bytes[Cell(i, k)]);
      w.val == msg[k] && w.at <= Newest(r.stamps[i]).at
  }

  ghost predicate PayloadInv(r: Ring)
    requires WellFormed(r)
  {
    && (forall t :: 0 <= t < |r.sent| ==> |r.sent[t]| == r.size)
    && (forall t :: |r.received| <= t < |r.sent| ==> Holds(r, Slot(r, t), r.sent[t]))
  }

  /** What the producer knows of the cursor, and how far ahead of it it may be. */
  ghost predicate ProducerInv(p: Producer, cursor: seq<Write<nat>>, published: nat, capacity: Positive) {
    && published == p.nextSeq + (if p.phase.Bump? then 1 else 0)
    && p.cachedCursor < |cursor| && cursor[p.cachedCursor].at <= p.seen
    && published <= p.cachedCursor + capacity
    && p.cachedCursor <= p.nextSeq
    && (p.phase.Refresh? || p.phase.Full? ==> p.nextSeq == p.cachedCursor + capacity && p.copied == {})
    && (p.phase.Fill? ==> p.nextSeq < p.cachedCursor + capacity)
  }

  ghost predicate FillInv(r: Ring)
    requires WellFormed(r)
  {
    r.p.phase.Fill? ==>
      forall k :: k in r.p.copied && k < r.size ==>
        Newest(r.bytes[Cell(Slot(r, r.p.nextSeq), k)]).val == r.p.msg[k]
  }

  ghost predicate ConsumerInv(c: Consumer, sent: seq<Bytes>, received: seq<Bytes>, size: nat) {
    && |received| == c.nextSeq + (if c.phase.Advance? then 1 else 0)
    && |received| <= |sent|
    && received == sent[..|received|]
    && (c.phase.Poll? || c.phase.Missed? ==> c.copied == {})
    && (c.phase.Advance? ==> c.buf == received[c.nextSeq])
    && (c.phase.Drain? ==>
          && c.nextSeq < |sent|
          && |c.buf| == |sent[c.nextSeq]| == size
          && forall k :: k in c.copied && k < size ==> c.buf[k] == sent[c.nextSeq][k])
  }

  /** While a message is drained, the consumer has synchronised with its stamp. */
  ghost predicate DrainInv(r: Ring)
    requires WellFormed(r)
  {
    r.c.phase.Drain? ==>
      var h := r.stamps[Slot(r, r.c.nextSeq)];
      h != [] && Newest(h).at <= r.c.seen
  }

  /** Every plain read served a sequence number of its own slot, and is ordered before the cursor
      store that released that slot, unless it belongs to the message being drained now. */
  ghost predicate ReadOrdered(
    x: Cell, last: Read, cursor: seq<Write<nat>>, capacity: Positive, now: nat, draining: bool)
  {
    if last.tag == 0 then last.at == 0
    else
      var t := last.tag - 1;
      && t % capacity == x.slot && last.at <= now
      && (if t + 1 < |cursor| then last.at <= cursor[t + 1].at else t + 1 == |cursor| && draining)
  }

  ghost predicate ReadInv(r: Ring)
    requires WellFormed(r)
  {
    forall x: Cell :: IsCell(r, x) ==>
      ReadOrdered(x, r.lastRead[x], r.cursor, r.capacity, r.c.now, r.c.phase.Drain?)
  }

  ghost predicate Inv(r: Ring) {
    && WellFormed(r)
    && CursorInv(r.cursor, |r.received|, r.c.now)
    && StampInv(r.stamps, r.capacity, |r.sent|, r.p.now)
    && SeenInv(r.stamps, |r.received|, r.c.seen)
    && BytesInv(r.bytes, r.p.now)
    && PayloadInv(r)
    && ProducerInv(r.p, r.cursor, |r.sent|, r.capacity)
    && FillInv(r)
    && ConsumerInv(r.c, r.sent, r.received, r.size)
    && DrainInv(r)
    && ReadInv(r)
  }
}

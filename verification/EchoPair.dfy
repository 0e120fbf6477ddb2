/** Two rings and the echo loop between them: the client sends on `c2s` and receives on `s2c`; the
    echo thread receives on `c2s` and sends each message back on `s2c`. */
module EchoPair {
  import opened Basics
  import opened RingProtocol
  import opened RingInvariant
  import opened RingTheorems

  /** Dead: the echo's send timed out and its loop returned the error. */
  datatype EchoPhase = Receiving | Sending | Dead

  datatype Pair = Pair(c2s: Ring, s2c: Ring, echo: EchoPhase, buf: Bytes)

  /** The client's sending thread, the client's receive thread, and the echo thread's two halves. */
  datatype PairStep = ClientTx(st: Step) | ClientRx(st: Step) | EchoRx(st: Step) | EchoTx(st: Step)

  function Start(capacity: Positive, size: nat): Pair {
    Pair(Fresh(capacity, size), Fresh(capacity, size), Receiving, seq(size, _ => 0))
  }

  ghost predicate PairWellFormed(w: Pair) {
    WellFormed(w.c2s) && WellFormed(w.s2c)
  }

  ghost predicate PairEnabled(w: Pair, ps: PairStep)
    requires PairWellFormed(w)
  {
    match ps
    case ClientTx(st) => IsProducerStep(st) && Enabled(w.c2s, st)
    case ClientRx(st) => !IsProducerStep(st) && Enabled(w.s2c, st)
    case EchoRx(st) => w.echo.Receiving? && !IsProducerStep(st) && Enabled(w.c2s, st)
    case EchoTx(st) =>
      w.echo.Sending? && IsProducerStep(st) && Enabled(w.s2c, st) && (st.SendCall? ==> st.msg == w.buf)
  }

  ghost function PairApply(w: Pair, ps: PairStep): Pair
    requires PairWellFormed(w) && PairEnabled(w, ps)
  {
    match ps
    case ClientTx(st) => w.(c2s := Apply(w.c2s, st))
    case ClientRx(st) => w.(s2c := Apply(w.s2c, st))
    case EchoRx(st) =>
      var w' := w.(c2s := Apply(w.c2s, st));
      if st.BumpConsumer? then w'.(echo := Sending, buf := w.c2s.c.buf) else w'
    case EchoTx(st) =>
      var w' := w.(s2c := Apply(w.s2c, st));
      if st.BumpProducer? then w'.(echo := Receiving)
      else if st.SendTimeout? then w'.(echo := Dead)
      else w'
  }

  // -------------------------------------------------------------- invariant

  function InHand(w: Pair): int {
    |w.c2s.received| - |w.s2c.sent|
  }

  /** Where the echo thread is, and what it therefore holds. */
  ghost predicate Handoff(
    echo: EchoPhase, buf: Bytes, c: Consumer, p: Producer, got: seq<Bytes>, back: seq<Bytes>, size: nat)
  {
    && |back| <= |got| <= |back| + 1
    && back == got[..|back|]
    && match echo
       case Receiving =>
         && p.phase.Ready?
         && |got| == |back| + (if c.phase.Advance? then 1 else 0)
       case Sending =>
         && c.phase.Idle? && |buf| == size
         && (p.phase.Bump? ==> |got| == |back|)
         && (!p.phase.Bump? ==> |got| == |back| + 1 && got[|back|] == buf)
         && (!p.phase.Ready? ==> p.msg == buf)
       case Dead => c.phase.Idle? && p.phase.Ready? && |got| == |back| + 1
  }

  ghost predicate PairInv(w: Pair) {
    && Inv(w.c2s) && Inv(w.s2c)
    && w.c2s.size == w.s2c.size && w.c2s.capacity == w.s2c.capacity
    && Handoff(w.echo, w.buf, w.c2s.c, w.s2c.p, w.c2s.received, w.s2c.sent, w.s2c.size)
  }

  /** How one step moves the parts the other side of the echo looks at. */
  lemma ConsumerEffect(r: Ring, st: Step)
    requires Inv(r) && Enabled(r, st) && !IsProducerStep(st)
    ensures var r' := Apply(r, st);
            && r'.size == r.size && r'.capacity == r.capacity && r'.p == r.p && r'.sent == r.sent
            && r'.received == r.received + (if st.StoreCursor? then [r.c.buf] else [])
            && (r'.c.phase.Advance? <==> st.StoreCursor?)
            && (st.BumpConsumer? ==> r'.c.phase.Idle?)
            && (st.BumpConsumer? ==> r.c.phase.Advance? && |r.received| > 0
                                     && r.c.buf == r.received[|r.received| - 1] && |r.c.buf| == r.size)
            && (r.c.phase.Advance? ==> st.BumpConsumer?)
  {
  }

  lemma ProducerEffect(r: Ring, st: Step)
    requires Inv(r) && Enabled(r, st) && IsProducerStep(st)
    ensures var r' := Apply(r, st);
            && r'.size == r.size && r'.capacity == r.capacity && r'.c == r.c && r'.received == r.received
            && r'.sent == r.sent + (if st.StoreStamp? then [r.p.msg] else [])
            && (r'.p.phase.Bump? <==> st.StoreStamp?)
            && (r'.p.phase.Ready? <==> st.BumpProducer? || st.SendTimeout?)
            && (st.BumpProducer? <==> r.p.phase.Bump?) && (st.SendCall? <==> r.p.phase.Ready?)
            && r'.p.msg == if st.SendCall? then st.msg else r.p.msg
  {
  }

  lemma EchoRxKeepsHandoff(w: Pair, st: Step)
    requires PairInv(w) && PairEnabled(w, EchoRx(st))
    ensures var w' := PairApply(w, EchoRx(st));
            Handoff(w'.echo, w'.buf, w'.c2s.c, w'.s2c.p, w'.c2s.received, w'.s2c.sent, w'.s2c.size)
  {
    ConsumerEffect(w.c2s, st);
  }

  /** The echo's sending half, seen only through what the handoff looks at. */
  lemma SendingKeepsHandoff(
    buf: Bytes, c: Consumer, p: Producer, p': Producer, got: seq<Bytes>, back: seq<Bytes>, size: nat, st: Step)
    requires Handoff(Sending, buf, c, p, got, back, size) && IsProducerStep(st)
    requires st.SendCall? ==> st.msg == buf
    requires p'.phase.Bump? <==> st.StoreStamp?
    requires p'.phase.Ready? <==> st.BumpProducer? || st.SendTimeout?
    requires (st.BumpProducer? <==> p.phase.Bump?) && (st.SendCall? <==> p.phase.Ready?)
    requires p'.msg == if st.SendCall? then st.msg else p.msg
    ensures var echo' := if st.BumpProducer? then Receiving else if st.SendTimeout? then Dead else Sending;
            Handoff(echo', buf, c, p', got, back + (if st.StoreStamp? then [p.msg] else []), size)
  {
    assert st.StoreStamp? ==> back + [buf] == got[..|back| + 1];
  }

  lemma EchoTxKeepsHandoff(w: Pair, st: Step)
    requires PairInv(w) && PairEnabled(w, EchoTx(st))
    ensures var w' := PairApply(w, EchoTx(st));
            Handoff(w'.echo, w'.buf, w'.c2s.c, w'.s2c.p, w'.c2s.received, w'.s2c.sent, w'.s2c.size)
  {
    ProducerEffect(w.s2c, st);
    SendingKeepsHandoff(w.buf, w.c2s.c, w.s2c.p, Apply(w.s2c, st).p, w.c2s.received, w.s2c.sent, w.s2c.size, st);
  }

  lemma PairStepKeeps(w: Pair, ps: PairStep)
    requires PairInv(w) && PairEnabled(w, ps)
    ensures PairInv(PairApply(w, ps))
    ensures var w' := PairApply(w, ps); w'.c2s.capacity == w.c2s.capacity && w'.c2s.size == w.c2s.size
  {
    match ps
    case ClientTx(st) => ClientTxKeeps(w, st);
    case ClientRx(st) => ClientRxKeeps(w, st);
    case EchoRx(st) => EchoRxKeeps(w, st);
    case EchoTx(st) => EchoTxKeeps(w, st);
  }

  lemma ClientTxKeeps(w: Pair, st: Step)
    requires PairInv(w) && PairEnabled(w, ClientTx(st))
    ensures var w' := PairApply(w, ClientTx(st));
            PairInv(w') && w'.c2s.capacity == w.c2s.capacity && w'.c2s.size == w.c2s.size
  {
    StepKeeps(w.c2s, st);
    ProducerEffect(w.c2s, st);
  }

  lemma ClientRxKeeps(w: Pair, st: Step)
    requires PairInv(w) && PairEnabled(w, ClientRx(st))
    ensures var w' := PairApply(w, ClientRx(st));
            PairInv(w') && w'.c2s.capacity == w.c2s.capacity && w'.c2s.size == w.c2s.size
  {
    StepKeeps(w.s2c, st);
    ConsumerEffect(w.s2c, st);
  }

  lemma EchoRxKeeps(w: Pair, st: Step)
    requires PairInv(w) && PairEnabled(w, EchoRx(st))
    ensures var w' := PairApply(w, EchoRx(st));
            PairInv(w') && w'.c2s.capacity == w.c2s.capacity && w'.c2s.size == w.c2s.size
  {
    StepKeeps(w.c2s, st);
    ConsumerEffect(w.c2s, st);
    EchoRxKeepsHandoff(w, st);
  }

  lemma EchoTxKeeps(w: Pair, st: Step)
    requires PairInv(w) && PairEnabled(w, EchoTx(st))
    ensures var w' := PairApply(w, EchoTx(st));
            PairInv(w') && w'.c2s.capacity == w.c2s.capacity && w'.c2s.size == w.c2s.size
  {
    StepKeeps(w.s2c, st);
    ProducerEffect(w.s2c, st);
    EchoTxKeepsHandoff(w, st);
  }

  ghost predicate IsPairRun(trace: seq<Pair>, steps: seq<PairStep>) {
    && |trace| == |steps| + 1
    && trace[0] == Start(trace[0].c2s.capacity, trace[0].c2s.size)
    && forall i :: 0 <= i < |steps| ==>
         && PairWellFormed(trace[i]) && PairEnabled(trace[i], steps[i])
         && trace[i + 1] == PairApply(trace[i], steps[i])
  }

  lemma {:induction false} PairRunKeeps(trace: seq<Pair>, steps: seq<PairStep>, n: nat)
    requires IsPairRun(trace, steps) && n < |trace|
    ensures PairInv(trace[n]) && trace[n].c2s.capacity == trace[0].c2s.capacity
  {
    if n == 0 {
      FreshKeeps(trace[0].c2s.capacity, trace[0].c2s.size);
    } else {
      PairRunKeeps(trace, steps, n - 1);
      PairStepKeeps(trace[n - 1], steps[n - 1]);
    }
  }

  /** End to end: the client receives a prefix of what it sent, byte for byte; every message sent
      is received, or in one of the rings, or the single one in the echo's hand; at most two rings
      and one message are in flight. */
  lemma EchoReturnsAPrefix(trace: seq<Pair>, steps: seq<PairStep>, n: nat)
    requires IsPairRun(trace, steps) && n < |trace|
    ensures var w := trace[n];
            && w.s2c.received <= w.c2s.sent
            && |w.s2c.received| <= |w.s2c.sent| && |w.c2s.received| <= |w.c2s.sent|
            && 0 <= InHand(w) <= 1
            && |w.c2s.sent| == |w.s2c.received| + |Queue(w.s2c)| + InHand(w) + |Queue(w.c2s)|
            && |w.c2s.sent| - |w.s2c.received| <= 2 * trace[0].c2s.capacity + 1
  {
    PairRunKeeps(trace, steps, n);
    BacklogFits(trace[n].c2s);
    BacklogFits(trace[n].s2c);
  }

  // --------------------------------------------------------------- progress

  function Uncopied(copied: set<nat>, size: nat): nat {
    |set k: nat | 0 <= k < size && k !in copied|
  }

  lemma CopyingOneMore(copied: set<nat>, size: nat, k: nat)
    requires k < size && k !in copied
    ensures Uncopied(copied + {k}, size) < Uncopied(copied, size)
  {
    var before := set x: nat | 0 <= x < size && x !in copied;
    var after := set x: nat | 0 <= x < size && x !in copied + {k};
    assert after == before - {k};
  }

  lemma {:induction false} UncopiedIsAtMostSize(copied: set<nat>, size: nat)
    ensures Uncopied(copied, size) <= size
  {
    var s := set k: nat | 0 <= k < size && k !in copied;
    if size > 0 {
      UncopiedIsAtMostSize(copied, size - 1);
      var t := set k: nat | 0 <= k < size - 1 && k !in copied;
      assert s <= t + {size - 1};
      assert s == t || s == t + {size - 1};
    } else {
      assert s == {};
    }
  }

  /** Micro-steps a receiver still has to make before it stores the cursor. */
  function RecvRank(c: Consumer, size: nat): nat {
    match c.phase
    case Advance => size + 4
    case Idle => size + 3
    case Poll => size + 2
    case Missed => size + 2
    case Drain => Uncopied(c.copied, size) + 1
  }

  function SendRank(p: Producer, size: nat): nat {
    match p.phase
    case Ready => size + 4
    case Refresh => size + 2
    case Full => size + 2
    case Fill => Uncopied(p.copied, size) + 1
    case Bump => size + 4
  }

  function EchoRank(w: Pair): nat {
    match w.echo
    case Receiving => if w.c2s.c.phase.Advance? then w.s2c.size + 5 else RecvRank(w.c2s.c, w.s2c.size)
    case Sending => SendRank(w.s2c.p, w.s2c.size)
    case Dead => 0
  }

  /** Hops the undelivered messages still have to make: three from `c2s`, two from the echo's hand,
      one from `s2c`. */
  function HopsLeft(w: Pair): int {
    3 * (|w.c2s.sent| - |w.c2s.received|) + 2 * InHand(w) + (|w.s2c.sent| - |w.s2c.received|)
  }

  function MicroLeft(w: Pair): nat {
    EchoRank(w) + RecvRank(w.s2c.c, w.s2c.size)
  }

  /** A step that brings the undelivered messages closer to the client. */
  ghost predicate Advances(w: Pair, w': Pair) {
    || HopsLeft(w') < HopsLeft(w)
    || (HopsLeft(w') == HopsLeft(w) && MicroLeft(w') < MicroLeft(w))
  }

  lemma SomeUncopied(r: Ring, copied: set<nat>) returns (k: nat)
    requires !AllCopied(r, copied)
    ensures k < r.size && k !in copied
  {
    k :| k < r.size && k !in copied;
  }

  /** With an unread message, or one just taken, the consumer has a step that is neither a timeout
      nor a failed poll: loading the newest stamp matches. */
  lemma ConsumerCanAdvance(r: Ring) returns (st: Step)
    requires Inv(r) && (r.c.phase.Advance? || |r.received| < |r.sent|)
    ensures Enabled(r, st) && !IsProducerStep(st) && !st.RecvTimeout?
    ensures r.c.phase.Advance? <==> st.BumpConsumer?
    ensures !st.StoreCursor? ==> RecvRank(Apply(r, st).c, r.size) < RecvRank(r.c, r.size)
    ensures st.LoadStamp? ==> Apply(r, st).c.phase.Drain?
  {
    var i := Slot(r, r.c.nextSeq);
    match r.c.phase
    case Advance => st := BumpConsumer;
    case Idle => st := RecvCall(r.c.buf);
    case Drain =>
      if AllCopied(r, r.c.copied) {
        st := StoreCursor;
      } else {
        var k := SomeUncopied(r, r.c.copied);
        assert IsCell(r, Cell(i, k));
        st := ReadByte(k, |r.bytes[Cell(i, k)]| - 1);
        CopyingOneMore(r.c.copied, r.size, k);
      }
    case _ =>
      assert StampChain(r.stamps[i], i, r.capacity, |r.sent|, r.p.now);
      st := LoadStamp(|r.stamps[i]| - 1);
      PollSees(r, st.j);
      UncopiedIsAtMostSize(r.c.copied, r.size);
  }

  /** With room in the ring, the producer inside a `send` has a step that is not a timeout. */
  lemma ProducerCanAdvance(r: Ring, msg: Bytes) returns (st: Step)
    requires Inv(r) && |msg| == r.size
    requires |r.sent| < |r.received| + r.capacity || r.p.phase.Bump?
    ensures Enabled(r, st) && IsProducerStep(st) && !st.SendTimeout? && (st.SendCall? ==> st.msg == msg)
    ensures r.p.phase.Bump? <==> st.BumpProducer?
    ensures !st.StoreStamp? && !st.BumpProducer? ==> SendRank(Apply(r, st).p, r.size) < SendRank(r.p, r.size)
    ensures st.LoadCursor? ==> Apply(r, st).p.phase.Fill?
  {
    match r.p.phase
    case Ready =>
      st := SendCall(msg);
      UncopiedIsAtMostSize({}, r.size);
    case Fill =>
      if AllCopied(r, r.p.copied) {
        st := StoreStamp;
      } else {
        var k := SomeUncopied(r, r.p.copied);
        st := WriteByte(k);
        CopyingOneMore(r.p.copied, r.size, k);
      }
    case Bump => st := BumpProducer;
    case _ =>
      st := LoadCursor(|r.cursor| - 1);
      UncopiedIsAtMostSize(r.p.copied, r.size);
  }

  /** A step of the echo or of the client's receive thread that is no timeout, no poll that misses and
      no refresh that finds the ring full. */
  ghost predicate Productive(w: Pair, ps: PairStep)
    requires PairWellFormed(w) && PairEnabled(w, ps)
  {
    match ps
    case ClientTx(_) => false
    case ClientRx(st) => !st.RecvTimeout? && (st.LoadStamp? ==> Apply(w.s2c, st).c.phase.Drain?)
    case EchoRx(st) => !st.RecvTimeout? && (st.LoadStamp? ==> Apply(w.c2s, st).c.phase.Drain?)
    case EchoTx(st) => !st.SendTimeout? && (st.LoadCursor? ==> Apply(w.s2c, st).p.phase.Fill?)
  }

  lemma ClientRxAdvances(w: Pair) returns (st: Step)
    requires PairInv(w) && |w.s2c.received| < |w.s2c.sent|
    ensures PairEnabled(w, ClientRx(st)) && !st.RecvTimeout? && Productive(w, ClientRx(st))
    ensures Advances(w, PairApply(w, ClientRx(st)))
  {
    st := ConsumerCanAdvance(w.s2c);
    ConsumerEffect(w.s2c, st);
  }

  lemma EchoRxAdvances(w: Pair) returns (st: Step)
    requires PairInv(w) && w.echo.Receiving?
    requires w.c2s.c.phase.Advance? || |w.c2s.received| < |w.c2s.sent|
    ensures PairEnabled(w, EchoRx(st)) && !st.RecvTimeout? && Productive(w, EchoRx(st))
    ensures Advances(w, PairApply(w, EchoRx(st)))
  {
    st := ConsumerCanAdvance(w.c2s);
    ConsumerEffect(w.c2s, st);
  }

  lemma EchoTxAdvances(w: Pair) returns (st: Step)
    requires PairInv(w) && w.echo.Sending? && |w.s2c.received| == |w.s2c.sent|
    ensures PairEnabled(w, EchoTx(st)) && !st.SendTimeout? && Productive(w, EchoTx(st))
    ensures Advances(w, PairApply(w, EchoTx(st)))
  {
    st := ProducerCanAdvance(w.s2c, w.buf);
    ProducerEffect(w.s2c, st);
  }

  /** No deadlock: while the echo runs and a published message is undelivered, the client's
      receive thread or the echo has an enabled step that is no timeout, no failed poll and no
      failed refresh, and that step brings delivery strictly closer (HopsLeft, then MicroLeft). */
  lemma UndeliveredMessagesAdvance(w: Pair) returns (ps: PairStep)
    requires PairInv(w) && !w.echo.Dead? && |w.s2c.received| < |w.c2s.sent|
    ensures PairEnabled(w, ps) && !ps.ClientTx? && !ps.st.SendTimeout? && !ps.st.RecvTimeout?
    ensures Productive(w, ps) && Advances(w, PairApply(w, ps)) && HopsLeft(w) > 0
    ensures var w' := PairApply(w, ps); w'.c2s.sent == w.c2s.sent && !w'.echo.Dead?
  {
    if |w.s2c.received| < |w.s2c.sent| {
      var st := ClientRxAdvances(w);
      ps := ClientRx(st);
    } else if w.echo.Sending? {
      var st := EchoTxAdvances(w);
      ps := EchoTx(st);
    } else {
      var st := EchoRxAdvances(w);
      ConsumerEffect(w.c2s, st);
      ps := EchoRx(st);
    }
  }

  ghost predicate Reaches(w: Pair, steps: seq<PairStep>, w': Pair)
    decreases |steps|
  {
    if steps == [] then w' == w
    else
      && PairWellFormed(w) && PairEnabled(w, steps[0])
      && Reaches(PairApply(w, steps[0]), steps[1..], w')
  }

  ghost predicate NoNewSendsNoTimeouts(steps: seq<PairStep>) {
    forall ps :: ps in steps ==> !ps.ClientTx? && !ps.st.SendTimeout? && !ps.st.RecvTimeout?
  }

  /** Hence every message published before the echo fails can still be delivered: from every state
      a run reaches, the echo and the receive thread alone bring back all of them. */
  lemma {:induction false} EverythingCanBeDelivered(w: Pair) returns (steps: seq<PairStep>, w': Pair)
    requires PairInv(w) && !w.echo.Dead?
    ensures Reaches(w, steps, w') && NoNewSendsNoTimeouts(steps)
    ensures PairInv(w') && w'.s2c.received == w.c2s.sent == w'.c2s.sent
    decreases if HopsLeft(w) < 0 then 0 else HopsLeft(w), MicroLeft(w)
  {
    if |w.s2c.received| < |w.c2s.sent| {
      var ps := UndeliveredMessagesAdvance(w);
      PairStepKeeps(w, ps);
      steps, w' := EverythingCanBeDelivered(PairApply(w, ps));
      steps := [ps] + steps;
    } else {
      steps, w' := [], w;
    }
  }

  // -------------------------------------------------- every productive step

  lemma ConsumerStepRank(r: Ring, st: Step)
    requires Inv(r) && Enabled(r, st) && !IsProducerStep(st)
    ensures var before, after := RecvRank(r.c, r.size), RecvRank(Apply(r, st).c, r.size);
            && (!st.StoreCursor? && !st.RecvTimeout? ==> after <= before)
            && (!st.StoreCursor? && !st.RecvTimeout? ==>
                  (st.LoadStamp? ==> Apply(r, st).c.phase.Drain?) ==> after < before)
            && (st.RecvTimeout? ==> after == before + 1)
  {
    UncopiedIsAtMostSize(r.c.copied, r.size);
    if st.ReadByte? {
      CopyingOneMore(r.c.copied, r.size, st.k);
    }
  }

  lemma ProducerStepRank(r: Ring, st: Step)
    requires Inv(r) && Enabled(r, st) && IsProducerStep(st)
    requires !st.StoreStamp? && !st.BumpProducer? && !st.SendTimeout?
    ensures var before, after := SendRank(r.p, r.size), SendRank(Apply(r, st).p, r.size);
            && after <= before
            && ((st.LoadCursor? ==> Apply(r, st).p.phase.Fill?) ==> after < before)
  {
    UncopiedIsAtMostSize(r.p.copied, r.size);
    UncopiedIsAtMostSize({}, r.size);
    if st.WriteByte? {
      CopyingOneMore(r.p.copied, r.size, st.k);
    }
  }

  /** Hops and micro-steps left, as one number: no state has as many micro-steps left as a hop is
      worth. */
  function Measure(w: Pair): int {
    HopsLeft(w) * (2 * w.s2c.size + 10) + MicroLeft(w)
  }

  lemma RanksAreBounded(w: Pair)
    ensures RecvRank(w.s2c.c, w.s2c.size) <= w.s2c.size + 4
    ensures EchoRank(w) <= w.s2c.size + 5
  {
    UncopiedIsAtMostSize(w.s2c.c.copied, w.s2c.size);
    UncopiedIsAtMostSize(w.c2s.c.copied, w.s2c.size);
    UncopiedIsAtMostSize(w.s2c.p.copied, w.s2c.size);
  }

  lemma Distributes(a: int, d: int, c: int)
    ensures (a + d) * c == a * c + d * c
  {
  }

  lemma AtLeastOnce(d: int, c: nat)
    requires d >= 1
    ensures d * c >= c
  {
    Distributes(d - 1, 1, c);
    assert (d - 1) * c >= 0;
  }

  lemma HopsOutweighMicroSteps(h: int, h': int, m: nat, m': nat, hop: nat)
    requires h' < h || (h' == h && m' < m)
    requires m' < hop
    ensures h' * hop + m' < h * hop + m
  {
    if h' < h {
      Distributes(h', h - h', hop);
      AtLeastOnce(h - h', hop);
    }
  }

  lemma AdvancingLowersTheMeasure(w: Pair, w': Pair)
    requires Advances(w, w') && w'.s2c.size == w.s2c.size
    ensures Measure(w') < Measure(w)
  {
    RanksAreBounded(w');
    HopsOutweighMicroSteps(HopsLeft(w), HopsLeft(w'), MicroLeft(w), MicroLeft(w'), 2 * w.s2c.size + 10);
  }

  /** How far one step that is no client send moves the two counts. */
  ghost predicate MovesOn(w: Pair, ps: PairStep)
    requires PairWellFormed(w) && PairEnabled(w, ps)
  {
    var w' := PairApply(w, ps);
    && (Productive(w, ps) ==> Advances(w, w'))
    && (HopsLeft(w') < HopsLeft(w)
        || (HopsLeft(w') == HopsLeft(w)
            && MicroLeft(w') <= MicroLeft(w) + if !ps.ClientTx? && ps.st.RecvTimeout? then 1 else 0))
  }

  lemma ClientRxMovesOn(w: Pair, st: Step)
    requires PairInv(w) && PairEnabled(w, ClientRx(st))
    ensures MovesOn(w, ClientRx(st))
  {
    ConsumerEffect(w.s2c, st);
    ConsumerStepRank(w.s2c, st);
  }

  lemma EchoRxMovesOn(w: Pair, st: Step)
    requires PairInv(w) && PairEnabled(w, EchoRx(st))
    ensures MovesOn(w, EchoRx(st))
  {
    ConsumerEffect(w.c2s, st);
    ConsumerStepRank(w.c2s, st);
  }

  lemma EchoTxMovesOn(w: Pair, st: Step)
    requires PairInv(w) && PairEnabled(w, EchoTx(st))
    ensures MovesOn(w, EchoTx(st))
  {
    ProducerEffect(w.s2c, st);
    if !st.StoreStamp? && !st.BumpProducer? && !st.SendTimeout? {
      ProducerStepRank(w.s2c, st);
    }
    UncopiedIsAtMostSize(w.c2s.c.copied, w.s2c.size);
  }

  lemma AnyStepMovesOn(w: Pair, ps: PairStep)
    requires PairInv(w) && PairEnabled(w, ps) && !ps.ClientTx?
    ensures MovesOn(w, ps)
  {
    match ps
    case ClientRx(st) => ClientRxMovesOn(w, st);
    case EchoRx(st) => EchoRxMovesOn(w, st);
    case EchoTx(st) => EchoTxMovesOn(w, st);
  }

  lemma SizeStays(w: Pair, ps: PairStep)
    requires PairInv(w) && PairEnabled(w, ps)
    ensures PairApply(w, ps).s2c.size == w.s2c.size
  {
    PairStepKeeps(w, ps);
  }

  /** Every productive step, whichever thread takes it and in whatever order, brings delivery strictly
      closer. */
  lemma ProductiveStepsAdvance(w: Pair, ps: PairStep)
    requires PairInv(w) && PairEnabled(w, ps) && Productive(w, ps)
    ensures Advances(w, PairApply(w, ps)) && Measure(PairApply(w, ps)) < Measure(w)
  {
    AnyStepMovesOn(w, ps);
    SizeStays(w, ps);
    AdvancingLowersTheMeasure(w, PairApply(w, ps));
  }

  /** No other step but a receive timeout takes delivery back, and that by one micro-step. */
  lemma OtherStepsLoseLittle(w: Pair, ps: PairStep)
    requires PairInv(w) && PairEnabled(w, ps) && !ps.ClientTx?
    ensures Measure(PairApply(w, ps)) <= Measure(w) + if ps.st.RecvTimeout? then 1 else 0
  {
    AnyStepMovesOn(w, ps);
    SizeStays(w, ps);
    if HopsLeft(PairApply(w, ps)) < HopsLeft(w) {
      AdvancingLowersTheMeasure(w, PairApply(w, ps));
    }
  }

  ghost function ProductiveCount(w: Pair, steps: seq<PairStep>): nat
    decreases |steps|
  {
    if steps == [] || !PairWellFormed(w) || !PairEnabled(w, steps[0]) then 0
    else (if Productive(w, steps[0]) then 1 else 0) + ProductiveCount(PairApply(w, steps[0]), steps[1..])
  }

  function RecvTimeouts(steps: seq<PairStep>): nat {
    if steps == [] then 0 else (if steps[0].st.RecvTimeout? then 1 else 0) + RecvTimeouts(steps[1..])
  }

  ghost predicate NoNewSends(steps: seq<PairStep>) {
    forall ps :: ps in steps ==> !ps.ClientTx?
  }

  /** With no new client sends, however the two processes are scheduled: a run makes at most as many
      productive steps as the measure allows, and one more for each receive timeout in it. */
  lemma {:induction false} ProductiveStepsAreBounded(w: Pair, steps: seq<PairStep>, w': Pair)
    requires PairInv(w) && Reaches(w, steps, w') && NoNewSends(steps)
    ensures PairInv(w') && w'.c2s.sent == w.c2s.sent
    ensures 0 <= Measure(w') && ProductiveCount(w, steps) + Measure(w') <= Measure(w) + RecvTimeouts(steps)
    decreases |steps|
  {
    if steps == [] {
      MeasureIsNatural(w);
    } else {
      PairStepKeeps(w, steps[0]);
      EchoSideKeepsTheSends(w, steps[0]);
      ProductiveStepsAreBounded(PairApply(w, steps[0]), steps[1..], w');
      OneStepIsCounted(w, steps[0]);
    }
  }

  lemma MeasureIsNatural(w: Pair)
    requires PairInv(w)
    ensures Measure(w) >= 0
  {
    assert HopsLeft(w) >= 0;
    assert HopsLeft(w) * (2 * w.s2c.size + 10) >= 0;
  }

  lemma OneStepIsCounted(w: Pair, ps: PairStep)
    requires PairInv(w) && PairEnabled(w, ps) && !ps.ClientTx?
    ensures (if Productive(w, ps) then 1 else 0) + Measure(PairApply(w, ps))
         <= Measure(w) + if ps.st.RecvTimeout? then 1 else 0
  {
    OtherStepsLoseLittle(w, ps);
    if Productive(w, ps) {
      ProductiveStepsAdvance(w, ps);
    }
  }

  lemma EchoSideKeepsTheSends(w: Pair, ps: PairStep)
    requires PairInv(w) && PairEnabled(w, ps) && !ps.ClientTx?
    ensures PairApply(w, ps).c2s.sent == w.c2s.sent
  {
    if ps.EchoRx? {
      ConsumerEffect(w.c2s, ps.st);
    }
  }

  /** And when it has no productive step left, everything published is delivered, unless the echo has
      given up: delivery needs nothing but that productive steps are eventually taken. */
  lemma NothingLeftToDoMeansDelivered(w: Pair)
    requires PairInv(w) && !w.echo.Dead?
    requires forall ps :: PairEnabled(w, ps) ==> !Productive(w, ps)
    ensures w.s2c.received == w.c2s.sent
  {
    if |w.s2c.received| < |w.c2s.sent| {
      var ps := UndeliveredMessagesAdvance(w);
    }
  }

  /** If the echo gives up on a send, the cursor it loaded had left a whole capacity of echoed
      messages unread, and the message it drops is the one in its hand. */
  lemma EchoGivesUpOnlyOnAFullRing(w: Pair)
    requires PairInv(w) && PairEnabled(w, EchoTx(SendTimeout))
    ensures PairApply(w, EchoTx(SendTimeout)).echo.Dead?
    ensures |w.s2c.sent| == w.s2c.p.cachedCursor + w.s2c.capacity
    ensures InHand(w) == 1 && w.buf == w.c2s.received[|w.s2c.sent|]
  {
  }
}

/** What the batch consumer guarantees over every run, alone and through the echo. */
module RedisTheorems {
  import opened Basics
  import opened RedisStream

  // ------------------------------------------------------------- one stream

  datatype Step = XAdd(x: Item, trim: nat) | Recv(room: nat)

  ghost predicate Enabled(s: Stream, st: Step, maxlen: nat) {
    st.XAdd? ==> CanAppend(s, st.x, st.trim, maxlen)
  }

  function Apply(s: Stream, st: Step): Stream {
    match st
    case XAdd(x, trim) => Append(s, x, trim)
    case Recv(room) => Receive(s, room)
  }

  ghost predicate IsRun(trace: seq<Stream>, steps: seq<Step>, maxlen: nat) {
    && |trace| == |steps| + 1 && trace[0] == EMPTY
    && forall i {:trigger steps[i]} :: 0 <= i < |steps| ==>
         Enabled(trace[i], steps[i], maxlen) && trace[i + 1] == Apply(trace[i], steps[i])
  }

  lemma StepKeeps(s: Stream, st: Step, maxlen: nat)
    requires Inv(s) && Enabled(s, st, maxlen)
    ensures Inv(Apply(s, st))
  {
    match st
    case XAdd(x, trim) => AppendKeeps(s, x, trim, maxlen);
    case Recv(room) => ReceiveKeeps(s, room);
  }

  lemma {:induction false} RunKeeps(trace: seq<Stream>, steps: seq<Step>, maxlen: nat, n: nat)
    requires IsRun(trace, steps, maxlen) && n < |trace|
    ensures Inv(trace[n])
  {
    if n > 0 {
      RunKeeps(trace, steps, maxlen, n - 1);
      StepKeeps(trace[n - 1], steps[n - 1], maxlen);
    }
  }

  /** However appends, trims and receives interleave, entries are handed out in strictly
      increasing id order, each was appended, each appended one is handed out, in the batch, lost
      or not fetched yet, and nothing is lost exactly when the hand-outs are the log's own prefix. */
  lemma HandedOutInOrder(trace: seq<Stream>, steps: seq<Step>, maxlen: nat, n: nat)
    requires IsRun(trace, steps, maxlen) && n < |trace|
    ensures var s := trace[n];
            && (forall i, j :: 0 <= i < j < |s.taken| ==> s.taken[i].id < s.taken[j].id)
            && (forall x :: x in s.taken ==> x in s.all)
            && |s.taken| + |s.rx.pending| + s.lost + (|s.all| - s.next) == |s.all|
            && 0 <= Position(s) <= |s.all|
            && (s.lost == 0 <==> s.taken == s.all[..Position(s)])
  {
    RunKeeps(trace, steps, maxlen, n);
  }

  /** An entry already fetched is handed out next even if the server has trimmed it meanwhile. */
  lemma FetchedEntriesSurviveTrimming(s: Stream, room: nat)
    requires Inv(s) && s.rx.pending != []
    ensures 0 <= Position(s) < |s.all|
    ensures var x := s.all[Position(s)];
            && Receive(s, room).taken == s.taken + [x] && Receive(s, room).lost == s.lost
            && RecvAny(s.rx, Retained(s), true, room).1
               == if |x.data| > room then Failed(TooLarge) else Handed(x.data)
  {
    ReceiveFromBatchKeeps(s, room);
    PopKeeps(s, Position(s), s.next, room);
  }

  /** Every call takes at most one entry, and takes it whatever its length: the caller gets it as a
      message exactly when it fills the buffer, and otherwise an error, after which the next call
      goes on behind it. A call that takes nothing times out. */
  lemma EveryTakenEntryIsReturnedOrReported(s: Stream, size: nat)
    requires Inv(s)
    ensures Receive(s, size).rx == RecvExact(s.rx, Retained(s), true, size).0
    ensures Receive(s, size).taken == s.taken <==> RecvExact(s.rx, Retained(s), true, size).1 == TimedOut
    ensures Receive(s, size).taken != s.taken ==>
              exists x :: && Receive(s, size).taken == s.taken + [x]
                          && ReturnedOrReported(x, RecvExact(s.rx, Retained(s), true, size).1, size)
  {
    if s.rx.pending == [] {
      TakenByFetch(s, size);
    } else {
      TakenFromBatch(s, size);
    }
  }

  predicate ReturnedOrReported(x: Item, outcome: RecvOutcome, size: nat) {
    outcome == if |x.data| == size then Msg(x.data)
               else if |x.data| > size then Error(TooLarge)
               else Error(WrongLength)
  }

  lemma TakenFromBatch(s: Stream, size: nat)
    requires Inv(s) && s.rx.pending != []
    ensures 0 <= Position(s) < |s.all|
    ensures Receive(s, size).rx == RecvExact(s.rx, Retained(s), true, size).0
    ensures Receive(s, size).taken == s.taken + [s.all[Position(s)]]
    ensures ReturnedOrReported(s.all[Position(s)], RecvExact(s.rx, Retained(s), true, size).1, size)
  {
    ReceiveFromBatchKeeps(s, size);
    PopKeeps(s, Position(s), s.next, size);
  }

  lemma FetchedStateIsReceived(s: Stream, size: nat)
    requires Inv(s) && s.rx.pending == []
    ensures Receive(s, size).rx == RecvExact(s.rx, Retained(s), true, size).0
    ensures FirstUnfetched(s) <= |s.all|
    ensures Receive(s, size).taken
         == if FirstUnfetched(s) < |s.all| then s.taken + [s.all[FirstUnfetched(s)]] else s.taken
  {
    ReadReturnsTheUnfetched(s);
    FetchOutcome(s, size);
  }

  lemma FetchedOutcome(s: Stream, size: nat)
    requires Inv(s) && s.rx.pending == []
    ensures FirstUnfetched(s) <= |s.all|
    ensures RecvAny(s.rx, Retained(s), true, size).1
         == if FirstUnfetched(s) < |s.all| then Handing(s.all[FirstUnfetched(s)], size) else NoEntry
  {
    var from := FirstUnfetched(s);
    ReadReturnsTheUnfetched(s);
    FetchAndPop(s.rx, Retained(s), s.all[from..], size);
    if from < |s.all| {
      assert s.all[from..][0] == s.all[from];
    }
  }

  lemma TakenByFetch(s: Stream, size: nat)
    requires Inv(s) && s.rx.pending == []
    ensures Receive(s, size).rx == RecvExact(s.rx, Retained(s), true, size).0
    ensures FirstUnfetched(s) <= |s.all|
    ensures FirstUnfetched(s) == |s.all| ==>
              Receive(s, size).taken == s.taken && RecvExact(s.rx, Retained(s), true, size).1 == TimedOut
    ensures FirstUnfetched(s) < |s.all| ==>
              && Receive(s, size).taken == s.taken + [s.all[FirstUnfetched(s)]]
              && ReturnedOrReported(s.all[FirstUnfetched(s)], RecvExact(s.rx, Retained(s), true, size).1, size)
  {
    FetchedStateIsReceived(s, size);
    FetchedOutcome(s, size);
  }

  /** The reference reader: the first retained entry after the last id handed out. */
  function OneAtATime(s: Stream): seq<Item> {
    var reply := After(Retained(s), s.rx.lastId);
    if reply != [] && HasField(reply[0]) then [Item(reply[0].id, reply[0].field.data)] else []
  }

  lemma ReferenceReads(s: Stream)
    requires Inv(s)
    ensures var from := if s.trimmed < Position(s) then Position(s) else s.trimmed;
            OneAtATime(s) == if from < |s.all| then [s.all[from]] else []
  {
    var from := if s.trimmed < Position(s) then Position(s) else s.trimmed;
    var log := Retained(s);
    AfterIsASuffix(log, s.rx.lastId, from - s.trimmed);
  }

  /** Fetching in batches hands out what one-at-a-time reading would, except that a batch keeps an
      entry the server has trimmed since: the two agree if and only if there is no batch in hand or
      its next entry is still retained. */
  lemma BatchAgreesWithOneAtATime(s: Stream, room: nat)
    requires Inv(s)
    ensures Receive(s, room).taken == s.taken + OneAtATime(s)
       <==> s.rx.pending == [] || s.trimmed <= Position(s)
  {
    ReferenceReads(s);
    if s.rx.pending == [] {
      ReadReturnsTheUnfetched(s);
      FetchOutcome(s, room);
    } else {
      FetchedEntriesSurviveTrimming(s, room);
      var taken := Receive(s, room).taken;
      assert taken[|s.taken|] == s.all[Position(s)];
      if s.trimmed > Position(s) {
        assert |OneAtATime(s)| == 1 ==> (s.taken + OneAtATime(s))[|s.taken|] == s.all[s.trimmed];
      }
    }
  }

  // ------------------------------------------------------------------- loss

  /** Entries appended and not fetched yet. */
  function Backlog(s: Stream): int {
    |s.all| - s.next
  }

  /** The receiver has passed entry `x` without handing it out. */
  ghost predicate PassedOver(s: Stream, x: Item) {
    x in s.all && x.id <= s.rx.lastId && x !in s.taken
  }

  lemma TakesOnlyLaterEntries(s: Stream, room: nat)
    requires Inv(s)
    ensures var t := Receive(s, room);
            && t.all == s.all && s.rx.lastId <= t.rx.lastId
            && forall y :: y in t.taken ==> y in s.taken || y.id > s.rx.lastId
  {
    if s.rx.pending != [] {
      ReceiveFromBatchKeeps(s, room);
      PopOutcome(s, room);
    } else {
      ReadReturnsTheUnfetched(s);
      FetchOutcome(s, room);
    }
  }

  lemma PassedOverStays(s: Stream, st: Step, maxlen: nat, x: Item)
    requires Inv(s) && Enabled(s, st, maxlen) && PassedOver(s, x)
    ensures PassedOver(Apply(s, st), x)
  {
    if st.Recv? {
      TakesOnlyLaterEntries(s, st.room);
    }
  }

  lemma {:induction false} PassedOverForGood(
    trace: seq<Stream>, steps: seq<Step>, maxlen: nat, n: nat, m: nat, x: Item)
    requires IsRun(trace, steps, maxlen) && n <= m < |trace| && PassedOver(trace[n], x)
    ensures PassedOver(trace[m], x)
  {
    if n < m {
      PassedOverForGood(trace, steps, maxlen, n, m - 1, x);
      RunKeeps(trace, steps, maxlen, m - 1);
      PassedOverStays(trace[m - 1], steps[m - 1], maxlen, x);
    }
  }

  /** What one fetch does with each entry it had not fetched before, when it returns any. */
  lemma FetchSkipsTheTrimmed(s: Stream, room: nat, k: nat)
    requires Inv(s) && s.rx.pending == [] && FirstUnfetched(s) < |s.all| && s.next <= k < |s.all|
    ensures var t := Receive(s, room);
            && t.lost == s.lost + (FirstUnfetched(s) - s.next)
            && (k < s.trimmed ==> PassedOver(t, s.all[k]))
            && (s.trimmed <= k ==> s.all[k] in t.taken || s.all[k] in t.rx.pending)
  {
    ReadReturnsTheUnfetched(s);
    FetchOutcome(s, room);
    if k < s.trimmed {
      TrimmedIsPassedOver(s, FirstUnfetched(s), k);
    } else {
      RetainedIsInHand(s, FirstUnfetched(s), k);
    }
  }

  lemma TrimmedIsPassedOver(s: Stream, from: nat, k: nat)
    requires Inv(s) && s.rx.pending == [] && s.next <= k < from < |s.all|
    ensures PassedOver(AfterFetch(s, from), s.all[k])
  {
    UnfetchedIsNotTaken(s, k);
    assert s.all[k].id < s.all[from].id;
  }

  lemma RetainedIsInHand(s: Stream, from: nat, k: nat)
    requires from <= k < |s.all|
    ensures var t := AfterFetch(s, from); s.all[k] in t.taken || s.all[k] in t.rx.pending
  {
    if k == from {
      assert AfterFetch(s, from).taken[|s.taken|] == s.all[from];
    } else {
      ReversedAt(s.all[from + 1..], |s.all| - 1 - k);
      assert Reversed(s.all[from + 1..])[|s.all| - 1 - k] == s.all[k];
    }
  }

  lemma UnfetchedIsNotTaken(s: Stream, k: nat)
    requires Inv(s) && s.rx.pending == [] && s.next <= k < |s.all|
    ensures s.all[k] !in s.taken
  {
    assert s.rx.lastId < s.all[k].id;
    forall y | y in s.taken
      ensures y.id <= s.rx.lastId
    {
      TakenIsBehindTheLastId(s, y);
    }
  }

  lemma TakenIsBehindTheLastId(s: Stream, y: Item)
    requires Inv(s) && y in s.taken
    ensures y.id <= s.rx.lastId
  {
    var i :| 0 <= i < |s.taken| && s.taken[i] == y;
    assert i < |s.taken| - 1 ==> s.taken[i].id < s.taken[|s.taken| - 1].id;
  }

  /** Loss is for good: when a fetch returns something, an unfetched entry that was trimmed before it
      is never handed out in any later state, and every other one is in hand at once. */
  lemma SkippedEntriesAreNeverHandedOut(
    trace: seq<Stream>, steps: seq<Step>, maxlen: nat, n: nat, m: nat, k: nat)
    requires IsRun(trace, steps, maxlen) && n < m < |trace| && steps[n].Recv?
    requires trace[n].rx.pending == [] && FirstUnfetched(trace[n]) < |trace[n].all|
    requires trace[n].next <= k < |trace[n].all|
    ensures var x, s := trace[n].all[k], trace[n + 1];
            if k < trace[n].trimmed then x !in trace[m].taken else x in s.taken || x in s.rx.pending
  {
    RunKeeps(trace, steps, maxlen, n);
    FetchSkipsTheTrimmed(trace[n], steps[n].room, k);
    if k < trace[n].trimmed {
      PassedOverForGood(trace, steps, maxlen, n + 1, m, trace[n].all[k]);
    }
  }

  /** A consumer that never falls further behind than the cap the server keeps loses nothing. */
  lemma {:induction false} NothingIsLostWithinTheCap(trace: seq<Stream>, steps: seq<Step>, maxlen: nat, n: nat)
    requires IsRun(trace, steps, maxlen) && n < |trace|
    requires forall k :: 0 <= k <= n ==> Backlog(trace[k]) <= maxlen
    ensures trace[n].lost == 0 && trace[n].trimmed <= trace[n].next
    ensures Inv(trace[n]) && trace[n].taken == trace[n].all[..Position(trace[n])]
  {
    RunKeeps(trace, steps, maxlen, n);
    if n > 0 {
      NothingIsLostWithinTheCap(trace, steps, maxlen, n - 1);
      assert Backlog(trace[n]) <= maxlen;
      if steps[n - 1].Recv? {
        ReceiveLosesNothing(trace[n - 1], steps[n - 1].room);
      }
    }
  }

  /** The cap is exact: the server may trim an unfetched entry at an append if and only if one is
      trimmed already or the append takes the backlog beyond the cap. */
  lemma TrimmingReachesTheBacklogExactlyBeyondTheCap(s: Stream, x: Item, maxlen: nat)
    requires Inv(s) && CanAppend(s, x, s.trimmed, maxlen)
    ensures (exists trim: nat :: CanAppend(s, x, trim, maxlen) && s.next < trim)
       <==> s.next < s.trimmed || maxlen < Backlog(Append(s, x, s.trimmed))
  {
    if s.next < s.trimmed {
      assert CanAppend(s, x, s.trimmed, maxlen);
    } else if maxlen < |s.all| + 1 - s.next {
      assert CanAppend(s, x, s.next + 1, maxlen);
    }
  }

  // ----------------------------- one call, whatever the server holds and answers

  lemma {:induction false} AfterHasTheLater(log: seq<Entry>, id: nat)
    ensures forall e :: e in After(log, id) <==> e in log && e.id > id
  {
    if log != [] {
      AfterHasTheLater(log[1..], id);
      assert log == [log[0]] + log[1..];
    }
  }

  lemma {:induction false} FirstOfAfter(log: seq<Entry>, id: nat, i: nat)
    requires i < |log| && log[i].id > id && forall j :: 0 <= j < i ==> log[j].id <= id
    ensures After(log, id) != [] && After(log, id)[0] == log[i]
  {
    if i > 0 {
      FirstOfAfter(log[1..], id, i - 1);
    }
  }

  lemma FetchingCall(rx: Rx, log: seq<Entry>, size: nat)
    requires rx.pending == []
    ensures var (rx', outcome) := RecvExact(rx, log, true, size);
            && (outcome == TimedOut <==> After(log, rx.lastId) == [])
            && (outcome == Error(MissingField) <==> exists e :: e in After(log, rx.lastId) && !HasField(e))
            && outcome != Error(Offline) && (outcome == TimedOut ==> rx' == rx)
  {
    var reply := After(log, rx.lastId);
    ParsedStopsAtTheFirstMissing(reply);
    if |Parsed(reply)| == |reply| && reply != [] {
      ReversedPop(Parsed(reply));
    }
  }

  /** One call, whatever the server holds and whether or not it answers. A batch in hand comes first.
      Without one the call times out exactly if the server answers that it holds nothing later; a
      server that does not answer is an error, never a quiet second. */
  lemma OneCallExactly(rx: Rx, log: seq<Entry>, online: bool, size: nat)
    ensures var (rx', outcome) := RecvExact(rx, log, online, size);
            && (outcome == TimedOut <==> rx.pending == [] && online && forall e :: e in log ==> e.id <= rx.lastId)
            && (outcome == Error(Offline) <==> rx.pending == [] && !online)
            && (outcome == Error(MissingField) <==>
                  && rx.pending == [] && online
                  && exists e :: e in log && e.id > rx.lastId && e.field == Missing)
            && (outcome == TimedOut || outcome == Error(Offline) ==> rx' == rx)
            && (rx.pending != [] ==>
                  var n := |rx.pending| - 1;
                  rx' == Rx(rx.pending[n].id, rx.pending[..n]) && ReturnedOrReported(rx.pending[n], outcome, size))
  {
    if rx.pending == [] && online {
      FetchingCall(rx, log, size);
      AfterHasTheLater(log, rx.lastId);
      var reply := After(log, rx.lastId);
      assert reply != [] ==> reply[0] in reply;
      assert forall e :: e in reply ==> (HasField(e) <==> e.field != Missing);
    }
  }

  /** Without a batch in hand, it hands out the first entry the server holds beyond the last id. */
  lemma FirstLaterEntryIsHandedOut(rx: Rx, log: seq<Entry>, size: nat, i: nat)
    requires rx.pending == [] && i < |log| && log[i].id > rx.lastId && forall j :: 0 <= j < i ==> log[j].id <= rx.lastId
    requires forall e :: e in log && e.id > rx.lastId ==> e.field.Present?
    ensures var (rx', outcome) := RecvExact(rx, log, true, size);
            rx'.lastId == log[i].id && ReturnedOrReported(Item(log[i].id, log[i].field.data), outcome, size)
  {
    var reply := After(log, rx.lastId);
    AfterHasTheLater(log, rx.lastId);
    FirstOfAfter(log, rx.lastId, i);
    ParsedStopsAtTheFirstMissing(reply);
    assert Parsed(reply)[0] == Item(log[i].id, log[i].field.data);
    ReversedPop(Parsed(reply));
  }

  // ---------------------------------------------------- an entry without `d`

  lemma {:induction false} ParsedStopsAtTheFirstMissing(reply: seq<Entry>)
    ensures |Parsed(reply)| <= |reply|
    ensures |Parsed(reply)| < |reply| <==> exists e :: e in reply && !HasField(e)
    ensures forall k :: 0 <= k < |Parsed(reply)| ==> Parsed(reply)[k].id == reply[k].id
  {
    if reply != [] && HasField(reply[0]) {
      ParsedStopsAtTheFirstMissing(reply[1..]);
      assert reply == [reply[0]] + reply[1..];
    }
  }

  /** A fetched entry without its field makes the call return early, with the entries before it left
      in arrival order instead of stack order. Calling again hands them out in order if and only if
      there was at most one. */
  lemma MissingFieldLeavesTheBatchUnreversed(rx: Rx, log: seq<Entry>, room: nat)
    requires rx.pending == []
    requires forall i, j :: 0 <= i < j < |After(log, rx.lastId)| ==>
               After(log, rx.lastId)[i].id < After(log, rx.lastId)[j].id
    ensures var reply := After(log, rx.lastId);
            var (rx', outcome) := RecvAny(rx, log, true, room);
            && (outcome == Failed(MissingField) <==> exists e :: e in reply && !HasField(e))
            && (outcome == Failed(MissingField) ==>
                  && rx' == Rx(rx.lastId, Parsed(reply))
                  && (rx'.pending == Reversed(Parsed(reply)) <==> |Parsed(reply)| <= 1))
  {
    var items := Parsed(After(log, rx.lastId));
    ParsedStopsAtTheFirstMissing(After(log, rx.lastId));
    if |items| > 1 {
      ReversedAt(items, 0);
      assert items[0].id < items[|items| - 1].id;
    }
  }

  /** Concretely: ids 1 and 2 before a broken entry 3. After the error the next two calls hand out
      entry 2, then entry 1, and leave the cursor at 1, so that entry 2 would be read again. */
  lemma RetryAfterMissingFieldGoesBackwards(a: Bytes, b: Bytes)
    requires |a| <= 8 && |b| <= 8
    ensures var log := [Entry(1, Present(a)), Entry(2, Present(b)), Entry(3, Missing)];
            var (rx1, first) := RecvAny(Rx(0, []), log, true, 8);
            var (rx2, second) := RecvAny(rx1, log, true, 8);
            var (rx3, third) := RecvAny(rx2, log, true, 8);
            && first == Failed(MissingField) && second == Handed(b) && third == Handed(a)
            && rx3 == Rx(1, [])
  {
    var log := [Entry(1, Present(a)), Entry(2, Present(b)), Entry(3, Missing)];
    AfterIsASuffix(log, 0, 0);
    assert log[1..] == [Entry(2, Present(b)), Entry(3, Missing)];
    assert log[2..] == [Entry(3, Missing)];
    assert Parsed(log[2..]) == [];
    assert Parsed(log[1..]) == [Item(2, b)];
    assert Parsed(log) == [Item(1, a), Item(2, b)];
  }

  // ------------------------------------------------------- through the echo

  /** Both streams and the echo between them; `hand` is what the echo has received and not yet
      appended. */
  datatype Chain = Chain(c2s: Stream, s2c: Stream, hand: seq<Bytes>)

  datatype ChainStep =
    | ClientSend(x: Item, trim: nat) | EchoRecv(room: nat) | EchoSend(id: nat, trim: nat) | ClientRecv(room: nat)

  function Datas(items: seq<Item>): (ds: seq<Bytes>)
    ensures |ds| == |items| && forall k :: 0 <= k < |ds| ==> ds[k] == items[k].data
  {
    seq(|items|, k requires 0 <= k < |items| => items[k].data)
  }

  /** The echo appends each message before it receives the next, and stops at one its buffer
      cannot hold. */
  ghost predicate CanStep(w: Chain, st: ChainStep, maxlen: nat) {
    match st
    case ClientSend(x, trim) => CanAppend(w.c2s, x, trim, maxlen)
    case EchoRecv(room) =>
      w.hand == [] && !RecvAny(w.c2s.rx, Retained(w.c2s), true, room).1.Failed?
    case EchoSend(id, trim) => w.hand != [] && CanAppend(w.s2c, Item(id, w.hand[0]), trim, maxlen)
    case ClientRecv(room) => true
  }

  function Fresh(before: seq<Item>, after: seq<Item>): seq<Item> {
    if |before| <= |after| then after[|before|..] else []
  }

  ghost function TakeStep(w: Chain, st: ChainStep, maxlen: nat): Chain
    requires CanStep(w, st, maxlen)
  {
    match st
    case ClientSend(x, trim) => w.(c2s := Append(w.c2s, x, trim))
    case EchoRecv(room) =>
      var s := Receive(w.c2s, room);
      w.(c2s := s, hand := Datas(Fresh(w.c2s.taken, s.taken)))
    case EchoSend(id, trim) => w.(s2c := Append(w.s2c, Item(id, w.hand[0]), trim), hand := [])
    case ClientRecv(room) => w.(s2c := Receive(w.s2c, room))
  }

  ghost predicate ChainInv(w: Chain) {
    && Inv(w.c2s) && Inv(w.s2c) && |w.hand| <= 1
    && Datas(w.s2c.all) + w.hand == Datas(w.c2s.taken)
  }

  lemma ReceiveTakesAtMostOne(s: Stream, room: nat)
    requires Inv(s)
    ensures var t := Receive(s, room);
            && s.taken <= t.taken && |t.taken| <= |s.taken| + 1 && t.all == s.all
  {
  }

  lemma DatasOfFresh(before: seq<Item>, after: seq<Item>)
    requires before <= after
    ensures Datas(after) == Datas(before) + Datas(Fresh(before, after))
    ensures |Fresh(before, after)| == |after| - |before|
  {
    assert after == before + Fresh(before, after);
  }

  lemma EchoRecvKeeps(w: Chain, room: nat, maxlen: nat)
    requires ChainInv(w) && CanStep(w, EchoRecv(room), maxlen)
    ensures ChainInv(TakeStep(w, EchoRecv(room), maxlen))
  {
    var s := Receive(w.c2s, room);
    ReceiveKeeps(w.c2s, room);
    ReceiveTakesAtMostOne(w.c2s, room);
    DatasOfFresh(w.c2s.taken, s.taken);
    assert Datas(w.s2c.all) == Datas(w.c2s.taken);
  }

  lemma EchoSendKeeps(w: Chain, id: nat, trim: nat, maxlen: nat)
    requires ChainInv(w) && CanStep(w, EchoSend(id, trim), maxlen)
    ensures ChainInv(TakeStep(w, EchoSend(id, trim), maxlen))
  {
    var x := Item(id, w.hand[0]);
    AppendKeeps(w.s2c, x, trim, maxlen);
    assert Datas(w.s2c.all + [x]) == Datas(w.s2c.all) + w.hand;
  }

  lemma ChainStepKeeps(w: Chain, st: ChainStep, maxlen: nat)
    requires ChainInv(w) && CanStep(w, st, maxlen)
    ensures ChainInv(TakeStep(w, st, maxlen))
  {
    match st
    case ClientSend(x, trim) => AppendKeeps(w.c2s, x, trim, maxlen);
    case EchoRecv(room) => EchoRecvKeeps(w, room, maxlen);
    case EchoSend(id, trim) => EchoSendKeeps(w, id, trim, maxlen);
    case ClientRecv(room) => ReceiveKeeps(w.s2c, room);
  }

  ghost predicate IsChainRun(trace: seq<Chain>, steps: seq<ChainStep>, maxlen: nat) {
    && |trace| == |steps| + 1 && trace[0] == Chain(EMPTY, EMPTY, [])
    && forall i {:trigger steps[i]} :: 0 <= i < |steps| ==>
         CanStep(trace[i], steps[i], maxlen) && trace[i + 1] == TakeStep(trace[i], steps[i], maxlen)
  }

  ghost predicate WithinCap(w: Chain, maxlen: nat) {
    Backlog(w.c2s) <= maxlen && Backlog(w.s2c) <= maxlen
  }

  lemma {:induction false} ChainRunKeeps(trace: seq<Chain>, steps: seq<ChainStep>, maxlen: nat, n: nat)
    requires IsChainRun(trace, steps, maxlen) && n < |trace|
    ensures ChainInv(trace[n])
  {
    if n > 0 {
      ChainRunKeeps(trace, steps, maxlen, n - 1);
      ChainStepKeeps(trace[n - 1], steps[n - 1], maxlen);
    }
  }

  /** Every message sent is received, batched, lost or waiting, on one side or the other, or in the
      echo's hand; losing nothing, the client gets back a prefix of what it sent. */
  lemma EchoedMessagesAreAccounted(trace: seq<Chain>, steps: seq<ChainStep>, maxlen: nat, n: nat)
    requires IsChainRun(trace, steps, maxlen) && n < |trace|
    ensures var w := trace[n];
            && |w.c2s.all| == |w.s2c.taken|
                 + |w.s2c.rx.pending| + w.s2c.lost + Backlog(w.s2c) + |w.hand|
                 + |w.c2s.rx.pending| + w.c2s.lost + Backlog(w.c2s)
            && (w.c2s.lost == 0 && w.s2c.lost == 0 ==> Datas(w.s2c.taken) <= Datas(w.c2s.all))
  {
    ChainRunKeeps(trace, steps, maxlen, n);
    var w := trace[n];
    assert |Datas(w.s2c.all) + w.hand| == |Datas(w.c2s.taken)|;
    if w.c2s.lost == 0 && w.s2c.lost == 0 {
      forall k | 0 <= k < |w.s2c.taken|
        ensures w.s2c.taken[k].data == w.c2s.all[k].data
      {
        assert (Datas(w.s2c.all) + w.hand)[k] == Datas(w.c2s.taken)[k];
      }
    }
  }

  ghost predicate LostNothing(s: Stream) {
    s.lost == 0 && s.trimmed <= s.next
  }

  lemma ChainStepLosesNothing(w: Chain, st: ChainStep, maxlen: nat)
    requires ChainInv(w) && CanStep(w, st, maxlen) && LostNothing(w.c2s) && LostNothing(w.s2c)
    requires WithinCap(TakeStep(w, st, maxlen), maxlen)
    ensures var w' := TakeStep(w, st, maxlen); LostNothing(w'.c2s) && LostNothing(w'.s2c)
  {
    match st
    case EchoRecv(room) => ReceiveLosesNothing(w.c2s, room);
    case ClientRecv(room) => ReceiveLosesNothing(w.s2c, room);
    case _ =>
  }

  lemma ChainRunStepLosesNothing(trace: seq<Chain>, steps: seq<ChainStep>, maxlen: nat, n: nat)
    requires IsChainRun(trace, steps, maxlen) && n < |steps| && WithinCap(trace[n + 1], maxlen)
    requires LostNothing(trace[n].c2s) && LostNothing(trace[n].s2c)
    ensures LostNothing(trace[n + 1].c2s) && LostNothing(trace[n + 1].s2c)
  {
    ChainRunKeeps(trace, steps, maxlen, n);
    ChainStepLosesNothing(trace[n], steps[n], maxlen);
  }

  lemma {:induction false} ChainLosesNothingWithinTheCap(trace: seq<Chain>, steps: seq<ChainStep>, maxlen: nat, n: nat)
    requires IsChainRun(trace, steps, maxlen) && n < |trace|
    requires forall k :: 0 <= k <= n ==> WithinCap(trace[k], maxlen)
    ensures LostNothing(trace[n].c2s) && LostNothing(trace[n].s2c)
  {
    if n > 0 {
      ChainLosesNothingWithinTheCap(trace, steps, maxlen, n - 1);
      ChainRunStepLosesNothing(trace, steps, maxlen, n - 1);
    }
  }

  lemma ReceiveLosesNothing(s: Stream, room: nat)
    requires Inv(s) && s.trimmed <= s.next
    ensures Receive(s, room).lost == s.lost && Receive(s, room).trimmed <= Receive(s, room).next
    ensures Receive(s, room).all == s.all && Receive(s, room).next >= s.next
  {
    if s.rx.pending == [] {
      ReadReturnsTheUnfetched(s);
      FetchOutcome(s, room);
    } else {
      ReceiveFromBatchKeeps(s, room);
    }
  }

  /** Through both streams and the echo, drops are impossible while neither backlog outgrows the
      cap: the client receives a prefix of what it sent, payload for payload. */
  lemma EchoDropsNothingWithinTheCap(trace: seq<Chain>, steps: seq<ChainStep>, maxlen: nat, n: nat)
    requires IsChainRun(trace, steps, maxlen) && n < |trace|
    requires forall k :: 0 <= k <= n ==> WithinCap(trace[k], maxlen)
    ensures Datas(trace[n].s2c.taken) <= Datas(trace[n].c2s.all)
  {
    ChainLosesNothingWithinTheCap(trace, steps, maxlen, n);
    EchoedMessagesAreAccounted(trace, steps, maxlen, n);
  }
}

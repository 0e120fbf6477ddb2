/** The receive thread on a transport that hands back what was sent, in order. */
module InOrder {
  import opened Basics
  import opened Schedule
  import opened Scenario

  /** The messages among the call results, oldest first. */
  function Arrivals(events: seq<RxEvent>): seq<Bytes> {
    if events == [] then []
    else (if events[0].Arrived? then [events[0].msg] else []) + Arrivals(events[1..])
  }

  /** What the sender's loop puts on the wire: message `k` carries sequence number `k`. */
  ghost predicate IsWire(wire: seq<Bytes>, msgSize: nat) {
    forall k :: 0 <= k < |wire| ==> IsMessage(wire[k], k, msgSize)
  }

  ghost predicate Consecutive(s: seq<nat>, first: nat) {
    forall k :: 0 <= k < |s| ==> s[k] == first + k
  }

  /** Reading the wire in order means reading consecutive sequence numbers. */
  lemma {:induction false} TakenIsConsecutive(
    events: seq<RxEvent>, plan: Plan, received: nat, wire: seq<Bytes>, msgSize: nat)
    requires forall e :: e in events ==> HasHeader(e)
    requires IsWire(wire, msgSize) && received <= |wire| && Arrivals(events) <= wire[received..]
    ensures Consecutive(Taken(events, plan, received), received)
    ensures |Taken(events, plan, received)| <= |Arrivals(events)|
  {
    if received < plan.total && events != [] {
      assert HasHeader(events[0]);
      match events[0]
      case Arrived(msg, at) =>
        assert Arrivals(events)[0] == msg && Arrivals(events)[1..] == Arrivals(events[1..]);
        assert wire[received..][0] == wire[received] == msg && wire[received..][1..] == wire[received + 1..];
        TakenIsConsecutive(events[1..], plan, received + 1, wire, msgSize);
        assert IsMessage(wire[received], received, msgSize);
      case Quiet(done) =>
        if !done {
          TakenIsConsecutive(events[1..], plan, received, wire, msgSize);
        }
      case _ =>
    }
  }

  /** Elements of `first`, `first` + 1, ... that lie at or beyond `warmup`. */
  lemma {:induction false} CountConsecutive(s: seq<nat>, first: nat, warmup: nat)
    requires Consecutive(s, first)
    ensures CountFrom(s, warmup) == Max(first + |s|, warmup) - Max(first, warmup)
  {
    if s != [] {
      assert s[0] == first + 0;
      CountConsecutive(s[1..], first + 1, warmup);
    }
  }

  /** The receive thread counts no message twice, and measures exactly those beyond the warmup. */
  ghost predicate CountsEachOnce(events: seq<RxEvent>, plan: Plan)
    requires forall e :: e in events ==> HasHeader(e)
  {
    var r := Collect(events, plan, NOTHING_YET);
    && Consecutive(Taken(events, plan, 0), 0) && Distinct(Taken(events, plan, 0))
    && r.received == |Taken(events, plan, 0)| <= plan.total
    && r.measured == |r.latencies| == (if r.received > plan.warmup then r.received - plan.warmup else 0)
    && (r.exit == Complete <==> r.received == plan.total)
  }

  /** So it does on any such transport, whatever is lost at the end and however the run ends. */
  lemma InOrderAccounting(events: seq<RxEvent>, plan: Plan, wire: seq<Bytes>, msgSize: nat)
    requires forall e :: e in events ==> HasHeader(e)
    requires IsWire(wire, msgSize) && Arrivals(events) <= wire
    ensures CountsEachOnce(events, plan)
    ensures Collect(events, plan, NOTHING_YET).received <= |Arrivals(events)|
  {
    assert wire[0..] == wire;
    TakenIsConsecutive(events, plan, 0, wire, msgSize);
    CountConsecutive(Taken(events, plan, 0), 0, plan.warmup);
    Accounting(events, plan);
  }

  /** Events whose messages come off the wire have headers. */
  lemma {:induction false} ReadOffTheWire(events: seq<RxEvent>, wire: seq<Bytes>, msgSize: nat)
    requires IsWire(wire, msgSize) && Arrivals(events) <= wire
    ensures forall e :: e in events ==> HasHeader(e)
  {
    forall m | m in wire
      ensures |m| >= SEQ_HEADER_BYTES
    {
      var k :| 0 <= k < |wire| && wire[k] == m;
      assert IsMessage(wire[k], k, msgSize);
    }
    forall e | e in events
      ensures HasHeader(e)
    {
      ArrivedMessageIsAnArrival(events, e);
    }
  }

  lemma {:induction false} ArrivedMessageIsAnArrival(events: seq<RxEvent>, e: RxEvent)
    requires e in events
    ensures e.Arrived? ==> e.msg in Arrivals(events)
  {
    if e != events[0] {
      ArrivedMessageIsAnArrival(events[1..], e);
    }
  }

  lemma {:induction false} ArrivalsOfOneMore(events: seq<RxEvent>, e: RxEvent)
    ensures Arrivals(events + [e]) == Arrivals(events) + if e.Arrived? then [e.msg] else []
  {
    if events != [] {
      ArrivalsOfOneMore(events[1..], e);
      assert (events + [e])[1..] == events[1..] + [e];
    }
  }

  lemma ArrivalsOfPrefix(events: seq<RxEvent>, n: nat)
    requires 0 < n <= |events|
    ensures Arrivals(events[..n])
         == Arrivals(events[..n - 1]) + if events[n - 1].Arrived? then [events[n - 1].msg] else []
  {
    ArrivalsOfOneMore(events[..n - 1], events[n - 1]);
    assert events[..n] == events[..n - 1] + [events[n - 1]];
  }

  /** A timeout that finds the flag set, short of `total`, ends the thread with the drain break. */
  lemma {:induction false} QuietDrains(events: seq<RxEvent>, n: nat, plan: Plan, stats: RxStats)
    requires forall e :: e in events ==> HasHeader(e) && (e.Arrived? || e.Quiet?)
    requires n < |events| && events[n] == Quiet(true)
    requires stats.received + |Arrivals(events[..n])| < plan.total
    ensures var r := Collect(events, plan, stats); r.exit == Drained && r.received < plan.total
  {
    assert HasHeader(events[0]);
    if n > 0 {
      assert events[..n][1..] == events[1..][..n - 1] && events[..n][0] == events[0];
      match events[0]
      case Arrived(msg, at) => QuietDrains(events[1..], n - 1, plan, Count(stats, plan, msg, at));
      case Quiet(done) =>
        if !done {
          QuietDrains(events[1..], n - 1, plan, stats);
        }
      case _ =>
    }
  }

  /** Timeouts that find the flag unset change nothing: the thread goes on until it has `total`. */
  lemma {:induction false} QuietNeverEnds(events: seq<RxEvent>, plan: Plan, stats: RxStats)
    requires forall e :: e in events ==> HasHeader(e) && (e.Arrived? || e == Quiet(false))
    requires stats.exit == Waiting && stats.received + |Arrivals(events)| <= plan.total
    ensures var r := Collect(events, plan, stats);
            && r.received == stats.received + |Arrivals(events)|
            && r.exit == if r.received == plan.total then Complete else Waiting
  {
    if events != [] {
      assert HasHeader(events[0]);
      match events[0]
      case Arrived(msg, at) => QuietNeverEnds(events[1..], plan, Count(stats, plan, msg, at));
      case Quiet(done) =>
        if stats.received < plan.total {
          QuietNeverEnds(events[1..], plan, stats);
        } else {
          NoArrivalsInNone(events);
        }
      case _ =>
    }
  }

  /** The first call that ends the thread, before `total` messages are in, decides how it ends. */
  lemma {:induction false} EndsAtTheFirstStop(events: seq<RxEvent>, n: nat, plan: Plan, stats: RxStats)
    requires forall e :: e in events ==> HasHeader(e)
    requires n < |events| && forall i :: 0 <= i < n ==> events[i].Arrived? || events[i] == Quiet(false)
    requires stats.received + |Arrivals(events[..n])| < plan.total
    ensures var r := Collect(events, plan, stats);
            && (!events[n].Arrived? && events[n] != Quiet(false) ==>
                  r.received == stats.received + |Arrivals(events[..n])|)
            && (events[n] == Quiet(true) ==> r.exit == Drained)
            && (events[n] == PeerClosed ==> r.exit == Closed)
            && (events[n] == Broken ==> r.exit == Failed)
  {
    assert HasHeader(events[0]);
    if n > 0 {
      assert events[..n][1..] == events[1..][..n - 1] && events[..n][0] == events[0];
      match events[0]
      case Arrived(msg, at) => EndsAtTheFirstStop(events[1..], n - 1, plan, Count(stats, plan, msg, at));
      case Quiet(_) => EndsAtTheFirstStop(events[1..], n - 1, plan, stats);
      case _ =>
    }
  }

  /** On such a transport the samples are those of the messages from the warmup on, in sending order,
      each taken from start + k * interval, the intended send of its message. */
  lemma {:induction false} LatencyOfTheNth(
    events: seq<RxEvent>, n: nat, plan: Plan, stats: RxStats, wire: seq<Bytes>, msgSize: nat)
    requires forall e :: e in events ==> HasHeader(e) && (e.Arrived? || e == Quiet(false))
    requires IsWire(wire, msgSize) && stats.received <= |wire| && Arrivals(events) <= wire[stats.received..]
    requires stats.received + |Arrivals(events)| <= plan.total
    requires |stats.latencies| == Max(stats.received, plan.warmup) - plan.warmup
    requires n < |events| && events[n].Arrived?
    ensures var k := stats.received + |Arrivals(events[..n])|;
            var r := Collect(events, plan, stats);
            k >= plan.warmup ==>
              && k - plan.warmup < |r.latencies|
              && Clamped(r.latencies[k - plan.warmup], events[n].at - (plan.start + k * plan.interval))
  {
    assert HasHeader(events[0]);
    if events[0].Arrived? {
      var msg, at := events[0].msg, events[0].at;
      var after := Count(stats, plan, msg, at);
      assert Arrivals(events)[0] == msg && Arrivals(events)[1..] == Arrivals(events[1..]);
      assert wire[stats.received..][0] == wire[stats.received] == msg;
      assert wire[stats.received..][1..] == wire[after.received..];
      assert IsMessage(wire[stats.received], stats.received, msgSize);
      if n == 0 {
        LatenciesAreFromTheSchedule(events[1..], plan, after);
      } else {
        assert events[..n][1..] == events[1..][..n - 1] && events[..n][0] == events[0];
        LatencyOfTheNth(events[1..], n - 1, plan, after, wire, msgSize);
      }
    } else {
      assert events[..n][1..] == events[1..][..n - 1] && events[..n][0] == events[0];
      if stats.received < plan.total {
        LatencyOfTheNth(events[1..], n - 1, plan, stats, wire, msgSize);
      } else {
        ArrivedMessageIsAnArrival(events, events[n]);
      }
    }
  }

  lemma NoArrivalsInNone(events: seq<RxEvent>)
    requires |Arrivals(events)| <= 0
    ensures Arrivals(events) == []
  {
  }
}

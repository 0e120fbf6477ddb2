/** The arithmetic of the send schedule, and the sequence header that carries it to the receiver. */
module Schedule {
  import opened Basics
  import opened LittleEndian

  const NANOS: nat := 1_000_000_000
  const SEQ_HEADER_BYTES: nat := 8
  /** How far in the future the schedule starts. */
  const LEAD: nat := 10_000_000

  function IntervalNs(rate: Positive): nat {
    NANOS / rate
  }

  function WarmupMsgs(rate: Positive, warmup: nat): nat {
    rate * warmup
  }

  function TotalMsgs(rate: Positive, warmup: nat, duration: nat): nat {
    WarmupMsgs(rate, warmup) + rate * duration
  }

  function Target(start: nat, seqNo: nat, interval: nat): nat {
    start + seqNo * interval
  }

  lemma TruncationSlack(seconds: nat, rate: nat, interval: nat, rest: nat, nanos: nat)
    requires rate * interval + rest == nanos && rest < rate
    ensures (rate * seconds) * interval <= seconds * nanos
    ensures seconds > 0 ==> seconds * nanos - (rate * seconds) * interval < rate * seconds
  {
    calc {
      seconds * nanos;
      seconds * (rate * interval) + seconds * rest;
      { assert seconds * (rate * interval) == (rate * seconds) * interval; }
      (rate * seconds) * interval + seconds * rest;
    }
    if seconds > 0 {
      assert seconds * (rate - rest) > 0;
    }
  }

  /** The whole schedule fits the configured window and falls short of it by less than one
      nanosecond a message. */
  lemma ScheduleFillsItsWindow(rate: Positive, warmup: nat, duration: nat)
    ensures var total := TotalMsgs(rate, warmup, duration);
            var window := (warmup + duration) * NANOS;
            && total * IntervalNs(rate) <= window
            && (total > 0 ==> window - total * IntervalNs(rate) < total)
  {
    TruncationSlack(warmup + duration, rate, NANOS / rate, NANOS % rate, NANOS);
  }

  lemma PrefixOfProduct(a: nat, b: nat, c: nat)
    requires a <= b
    ensures a * c <= b * c && (c >= 1 ==> b <= b * c)
  {
    assert (b - a) * c >= 0;
    if c >= 1 {
      assert b * (c - 1) >= 0;
    }
  }

  /** With at most 2^64 nanoseconds of window no offset the source computes wraps, and neither do
      the message counts at any rate the clock can resolve. */
  lemma ScheduleFitsU64(rate: Positive, warmup: nat, duration: nat, seqNo: nat)
    requires (warmup + duration) * NANOS < U64_LIMIT && seqNo < TotalMsgs(rate, warmup, duration)
    ensures seqNo * IntervalNs(rate) < U64_LIMIT
    ensures rate <= NANOS ==> WarmupMsgs(rate, warmup) <= TotalMsgs(rate, warmup, duration) < U64_LIMIT
  {
    ScheduleFillsItsWindow(rate, warmup, duration);
    PrefixOfProduct(seqNo, TotalMsgs(rate, warmup, duration), IntervalNs(rate));
    if rate <= NANOS {
      RateAtLeastOneNano(rate);
    }
  }

  lemma RateAtLeastOneNano(rate: Positive)
    requires rate <= NANOS
    ensures IntervalNs(rate) >= 1
  {
  }

  // ------------------------------------------------------- the wire message

  function Stamped(buf: Bytes, seqNo: nat): Bytes
    requires |buf| >= SEQ_HEADER_BYTES
  {
    U64(seqNo) + buf[SEQ_HEADER_BYTES..]
  }

  function SeqOf(msg: Bytes): nat
    requires |msg| >= SEQ_HEADER_BYTES
  {
    Decode(msg[..SEQ_HEADER_BYTES])
  }

  /** The receiver reads back the sender's sequence number, so the target it
      computes is the sender's own; the rest of the buffer is untouched. */
  lemma BothSidesAgreeOnTheTarget(buf: Bytes, seqNo: nat, start: nat, interval: nat)
    requires |buf| >= SEQ_HEADER_BYTES && seqNo < U64_LIMIT
    ensures var msg := Stamped(buf, seqNo);
            && |msg| == |buf| && msg[SEQ_HEADER_BYTES..] == buf[SEQ_HEADER_BYTES..]
            && SeqOf(msg) == seqNo
            && Target(start, SeqOf(msg), interval) == Target(start, seqNo, interval)
  {
    U64RoundTrip(seqNo);
    assert Stamped(buf, seqNo)[..SEQ_HEADER_BYTES] == U64(seqNo);
  }
}

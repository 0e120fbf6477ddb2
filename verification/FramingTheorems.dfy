/** Framing recovers the message list for every chunking of the byte stream. */
module FramingTheorems {
  import opened Basics
  import opened Framing

  function Flatten(msgs: seq<Bytes>): Bytes {
    if msgs == [] then [] else msgs[0] + Flatten(msgs[1..])
  }

  ghost predicate AllOfSize(msgs: seq<Bytes>, size: nat) {
    forall m :: m in msgs ==> |m| == size
  }

  /** The longest prefix that is a whole number of frames. */
  function WholeFrames(bs: Bytes, size: Positive): Bytes {
    bs[..|bs| - |bs| % size]
  }

  lemma OneFrameMore(frame: Bytes, rest: Bytes, size: Positive)
    requires |frame| == size
    ensures (|frame + rest|) % size == |rest| % size
    ensures WholeFrames(frame + rest, size) == frame + WholeFrames(rest, size)
  {
    OneLapLaterIsTheSameSlot(|rest|, size);
    var n := |rest| - |rest| % size;
    assert (frame + rest)[..size + n] == frame + rest[..n];
  }

  lemma NotYetAFrame(bs: Bytes, size: Positive)
    requires |bs| < size
    ensures |bs| % size == |bs| && WholeFrames(bs, size) == []
  {
    RemainderIsUnique(|bs|, 0, |bs|, size);
  }

  /** Frames of one size are recovered from their concatenation in only one way. */
  lemma {:induction false} FlattenIsInjective(a: seq<Bytes>, b: seq<Bytes>, size: Positive)
    requires AllOfSize(a, size) && AllOfSize(b, size) && Flatten(a) == Flatten(b)
    ensures a == b
  {
    assert (a != [] ==> |a[0]| == size) && (b != [] ==> |b[0]| == size);
    if a != [] && b != [] {
      assert a[0] == Flatten(a)[..size] && b[0] == Flatten(b)[..size];
      assert Flatten(a[1..]) == Flatten(a)[size..] && Flatten(b[1..]) == Flatten(b)[size..];
      FlattenIsInjective(a[1..], b[1..], size);
    }
  }

  // -------------------------------------------------------------------- echo

  /** What a blocking reader gets before its stream ends or fails. */
  function Input(script: seq<Event>): Bytes {
    if script == [] then []
    else match script[0]
      case Chunk(bs) => if bs == [] then [] else bs + Input(script[1..])
      case Interrupted => Input(script[1..])
      case _ => []
  }

  predicate EndsCleanly(script: seq<Event>) {
    if script == [] then true
    else match script[0]
      case Chunk(bs) => bs == [] || EndsCleanly(script[1..])
      case Interrupted => EndsCleanly(script[1..])
      case Reset => true
      case _ => false
  }

  lemma InputOfRemainder(bs: Bytes, rest: seq<Event>)
    requires bs != []
    ensures Input([Chunk(bs)] + rest) == bs + Input(rest)
    ensures EndsCleanly([Chunk(bs)] + rest) == EndsCleanly(rest)
  {
    assert ([Chunk(bs)] + rest)[1..] == rest;
  }

  lemma {:induction false} FillTakesOneFrame(script: seq<Event>, size: nat, acc: Bytes)
    requires |acc| <= size
    ensures var (end, rest) := Fill(script, size, acc);
            if |acc| + |Input(script)| >= size then
              && end.Frame? && acc + Input(script) == end.bytes + Input(rest) && |end.bytes| == size
              && EndsCleanly(rest) == EndsCleanly(script)
            else end == if EndsCleanly(script) then PeerDone else ReadFailed
    decreases |script|
  {
    if |acc| < size && script != [] {
      var rest := script[1..];
      match script[0]
      case Chunk(bs) =>
        var room := size - |acc|;
        if bs != [] && |bs| <= room {
          FillTakesOneFrame(rest, size, acc + bs);
          Reassociate(acc, bs, Input(rest));
        } else if bs != [] {
          InputOfRemainder(bs[room..], rest);
          CutChunk(acc, bs, room, Input(rest));
        }
      case Interrupted => FillTakesOneFrame(rest, size, acc);
      case _ =>
    }
  }

  /** Whatever the chunking, interrupts and short writes: the echo writes back every complete frame
      of its input and no part of an incomplete one, and ends normally exactly when its input does. */
  lemma {:induction false} EchoWritesWholeFrames(script: seq<Event>, sink: seq<WriteEvent>, size: Positive)
    requires NeverRefuses(sink)
    ensures Echo(script, sink, size) == (EndsCleanly(script), WholeFrames(Input(script), size))
    decreases Weight(script)
  {
    FillTakesOneFrame(script, size, []);
    FillConserves(script, size, []);
    var (end, rest) := Fill(script, size, []);
    assert [] + Input(script) == Input(script);
    if end.Frame? {
      WriteAllWritesAPrefix(sink, end.bytes);
      EchoWritesWholeFrames(rest, WriteAll(sink, end.bytes).2, size);
      OneFrameMore(end.bytes, Input(rest), size);
    } else {
      NotYetAFrame(Input(script), size);
    }
  }

  /** For messages of no bytes one turn of the echo loop neither reads, nor writes, nor ends: the
      loop goes on forever, which is why Echo asks for a positive size. */
  lemma EmptyMessagesNeverEnd(script: seq<Event>, sink: seq<WriteEvent>)
    ensures Fill(script, 0, []) == (Frame([]), script) && WriteAll(sink, []) == (true, [], sink)
  {
  }

  /** Even over a socket whose writes fail, the echo writes nothing but a prefix of that; it ends
      normally exactly if it has written all of it and its input ended so. */
  lemma {:induction false} EchoInventsNothing(script: seq<Event>, sink: seq<WriteEvent>, size: Positive)
    ensures var (ok, out) := Echo(script, sink, size);
            && out <= WholeFrames(Input(script), size)
            && (ok <==> EndsCleanly(script) && out == WholeFrames(Input(script), size))
    decreases Weight(script)
  {
    FillTakesOneFrame(script, size, []);
    FillConserves(script, size, []);
    var (end, rest) := Fill(script, size, []);
    assert [] + Input(script) == Input(script);
    if end.Frame? {
      var (ok, out, sink') := WriteAll(sink, end.bytes);
      WriteAllWritesAPrefix(sink, end.bytes);
      OneFrameMore(end.bytes, Input(rest), size);
      if ok {
        EchoInventsNothing(rest, sink', size);
      } else {
        FailedWriteIsShort(sink, end.bytes);
      }
    } else {
      NotYetAFrame(Input(script), size);
    }
  }

  lemma FailedWriteIsShort(sink: seq<WriteEvent>, bs: Bytes)
    requires !WriteAll(sink, bs).0
    ensures |WriteAll(sink, bs).1| < |bs|
  {
    WriteFailsExactly(sink, bs);
    var i: nat :| RefusedAt(sink, |bs|, i);
  }

  /** Data and interrupts only. */
  ghost predicate Steady(script: seq<Event>) {
    forall e :: e in script ==> (e.Chunk? && e.bytes != []) || e.Interrupted?
  }

  /** What ends the echo's input: a close and a reset do it cleanly, a timeout and any other error do
      not; what came before counts in full, what comes after not at all. */
  lemma {:induction false} InputEndsAt(good: seq<Event>, e: Event, rest: seq<Event>)
    requires Steady(good) && !Steady([e])
    ensures Input(good) == Input(good + [e] + rest) == Content(good)
    ensures EndsCleanly(good) && (EndsCleanly(good + [e] + rest) <==> e == Chunk([]) || e == Reset)
  {
    var script := good + [e] + rest;
    if good == [] {
      assert script[0] == e;
      assert e in [e];
    } else {
      assert good[0] in good && script[0] == good[0] && script[1..] == good[1..] + [e] + rest;
      InputEndsAt(good[1..], e, rest);
    }
  }

  // ---------------------------------------------------------------- receiver

  /** A message takes exactly its own bytes off the stream. */
  lemma {:induction false} MessageConserves(script: seq<Event>, size: nat, acc: Bytes, stalls: nat)
    requires |acc| <= size && Recv(script, size, acc, stalls).0.Msg?
    ensures var (outcome, rest) := Recv(script, size, acc, stalls);
            |outcome.bytes| == size && TakesItsOwnBytes(script, acc, outcome.bytes, rest)
    decreases |script|
  {
    if |acc| < size {
      var (outcome, rest) := Recv(script, size, acc, stalls);
      match script[0]
      case Chunk(bs) =>
        if |bs| <= size - |acc| {
          MessageConserves(script[1..], size, acc + bs, stalls);
          ChunkTakenWhole(script, acc, outcome.bytes, rest);
        } else {
          ChunkTakenInPart(script, acc, size - |acc|);
        }
      case Stall => MessageConserves(script[1..], size, acc, stalls + 1);
      case Interrupted => MessageConserves(script[1..], size, acc, stalls);
      case _ =>
    }
  }

  /** A call times out between messages only, and takes nothing off the stream. */
  lemma {:induction false} TimeoutConserves(script: seq<Event>, size: nat, acc: Bytes, stalls: nat)
    requires Recv(script, size, acc, stalls).0.TimedOut?
    ensures var rest := Recv(script, size, acc, stalls).1;
            acc == [] && |rest| < |script| && Content(rest) == Content(script)
    decreases |script|
  {
    match script[0]
    case Chunk(bs) =>
      if bs != [] && |bs| <= size - |acc| {
        TimeoutConserves(script[1..], size, acc + bs, stalls);
      }
    case Stall =>
      if acc != [] {
        TimeoutConserves(script[1..], size, acc, stalls + 1);
      }
    case Interrupted => TimeoutConserves(script[1..], size, acc, stalls);
    case _ =>
  }

  lemma RecvConserves(script: seq<Event>, size: nat, acc: Bytes, stalls: nat)
    requires |acc| <= size
    ensures var (outcome, rest) := Recv(script, size, acc, stalls);
            && (outcome.Msg? ==>
                 |outcome.bytes| == size && TakesItsOwnBytes(script, acc, outcome.bytes, rest))
            && (outcome.TimedOut? ==> acc == [] && |rest| < |script| && Content(rest) == Content(script))
  {
    match Recv(script, size, acc, stalls).0
    case Msg(_) => MessageConserves(script, size, acc, stalls);
    case TimedOut => TimeoutConserves(script, size, acc, stalls);
    case _ =>
  }

  /** Receive until the stream closes or fails, going on after timeouts between messages. */
  function RecvAll(script: seq<Event>, size: Positive): (seq<Bytes>, Outcome)
    decreases Weight(script)
  {
    RecvConserves(script, size, [], 0);
    var (outcome, rest) := Recv(script, size, [], 0);
    match outcome
    case Msg(m) =>
      assert |Content(script)| == size + |Content(rest)|;
      var (msgs, end) := RecvAll(rest, size);
      ([m] + msgs, end)
    case TimedOut => RecvAll(rest, size)
    case _ => ([], outcome)
  }

  /** For every script at all, failing ones included, the messages received are the first frames of
      the bytes delivered, in order. */
  lemma {:induction false} ReceivedFramesAreAPrefix(script: seq<Event>, size: Positive)
    ensures AllOfSize(RecvAll(script, size).0, size)
    ensures Flatten(RecvAll(script, size).0) <= Content(script)
    decreases Weight(script)
  {
    RecvConserves(script, size, [], 0);
    var (outcome, rest) := Recv(script, size, [], 0);
    assert [] + Content(script) == Content(script);
    match outcome
    case Msg(m) =>
      ReceivedFramesAreAPrefix(rest, size);
      var msgs := RecvAll(rest, size).0;
      assert ([m] + msgs)[1..] == msgs;
    case TimedOut => ReceivedFramesAreAPrefix(rest, size);
    case _ =>
  }

  /** Only data, stalls and interrupts, closed at the end. */
  ghost predicate Unbroken(script: seq<Event>) {
    forall e :: e in script ==> !e.Reset? && !e.Broken? && (e.Chunk? ==> e.bytes != [])
  }

  /** Stream offsets at which a read stalls, the first byte being at `base`. */
  function Stalls(script: seq<Event>, base: nat): seq<nat> {
    if script == [] then []
    else match script[0]
      case Chunk(bs) => Stalls(script[1..], base + |bs|)
      case Stall => [base] + Stalls(script[1..], base)
      case _ => Stalls(script[1..], base)
  }

  /** How many of them lie strictly inside the frame that spans `lo` to `hi`. */
  function Inside(offsets: seq<nat>, lo: nat, hi: nat): nat {
    if offsets == [] then 0
    else (if lo < offsets[0] < hi then 1 else 0) + Inside(offsets[1..], lo, hi)
  }

  /** Some frame, counted from the start of the stream, meets two stalls or more in its middle. */
  ghost predicate Overstalled(script: seq<Event>, size: Positive) {
    exists f: nat :: StallsIn(script, f, size) >= 2
  }

  function StallsIn(script: seq<Event>, f: nat, size: Positive): nat {
    Inside(Stalls(script, 0), f * size, f * size + size)
  }

  lemma StallsOfCons(o: nat, offsets: seq<nat>, lo: nat, hi: nat)
    ensures Inside([o] + offsets, lo, hi) == (if lo < o < hi then 1 else 0) + Inside(offsets, lo, hi)
  {
    assert ([o] + offsets)[1..] == offsets;
  }

  lemma {:induction false} StallsShift(script: seq<Event>, base: nat, lo: nat, hi: nat, d: nat)
    ensures Inside(Stalls(script, base + d), lo + d, hi + d) == Inside(Stalls(script, base), lo, hi)
  {
    if script != [] {
      match script[0]
      case Chunk(bs) => StallsShift(script[1..], base + |bs|, lo, hi, d);
      case Stall =>
        StallsShift(script[1..], base, lo, hi, d);
        StallsOfCons(base, Stalls(script[1..], base), lo, hi);
        StallsOfCons(base + d, Stalls(script[1..], base + d), lo + d, hi + d);
      case _ => StallsShift(script[1..], base, lo, hi, d);
    }
  }

  lemma {:induction false} NoStallsBefore(script: seq<Event>, base: nat, lo: nat, hi: nat)
    requires hi <= base
    ensures Inside(Stalls(script, base), lo, hi) == 0
  {
    if script != [] {
      match script[0]
      case Chunk(bs) => NoStallsBefore(script[1..], base + |bs|, lo, hi);
      case Stall =>
        NoStallsBefore(script[1..], base, lo, hi);
        StallsOfCons(base, Stalls(script[1..], base), lo, hi);
      case _ => NoStallsBefore(script[1..], base, lo, hi);
    }
  }

  lemma {:induction false} StallsNeedContent(script: seq<Event>, base: nat, lo: nat, hi: nat)
    requires Inside(Stalls(script, base), lo, hi) > 0
    ensures lo < base + |Content(script)|
  {
    if script != [] {
      match script[0]
      case Chunk(bs) => StallsNeedContent(script[1..], base + |bs|, lo, hi);
      case Stall =>
        StallsOfCons(base, Stalls(script[1..], base), lo, hi);
        if !(lo < base < hi) {
          StallsNeedContent(script[1..], base, lo, hi);
        }
      case _ => StallsNeedContent(script[1..], base, lo, hi);
    }
  }

  /** What a receive call does with part of a frame in hand, `stalls` of its stalls behind it. */
  lemma {:induction false} RecvMidFrame(script: seq<Event>, size: nat, acc: Bytes, stalls: nat)
    requires Unbroken(script) && 0 < |acc| <= size && stalls <= 1
    ensures var (outcome, rest) := Recv(script, size, acc, stalls);
            var more := Inside(Stalls(script, |acc|), 0, size);
            if stalls + more >= 2 then outcome == Error(StalledMidMessage)
            else if |acc| + |Content(script)| >= size then outcome.Msg? && Unbroken(rest)
            else outcome == Error(UnexpectedEof)
    decreases |script|
  {
    if |acc| == size {
      NoStallsBefore(script, size, 0, size);
    } else if script != [] {
      var rest := script[1..];
      match script[0]
      case Chunk(bs) =>
        var room := size - |acc|;
        if |bs| <= room {
          RecvMidFrame(rest, size, acc + bs, stalls);
        } else {
          NoStallsBefore(rest, |acc| + |bs|, 0, size);
        }
      case Stall =>
        StallsOfCons(|acc|, Stalls(rest, |acc|), 0, size);
        if stalls == 0 {
          RecvMidFrame(rest, size, acc, 1);
        }
      case Interrupted => RecvMidFrame(rest, size, acc, stalls);
      case _ =>
    }
  }

  /** Stalls beyond the frame a receive call completes are still to come, where they were. */
  lemma {:induction false} LaterStallsRemain(
    script: seq<Event>, size: nat, acc: Bytes, stalls: nat, lo: nat, hi: nat)
    requires |acc| <= size <= lo && Recv(script, size, acc, stalls).0.Msg?
    ensures Inside(Stalls(Recv(script, size, acc, stalls).1, size), lo, hi) == Inside(Stalls(script, |acc|), lo, hi)
    decreases |script|
  {
    if |acc| < size {
      var rest := script[1..];
      match script[0]
      case Chunk(bs) =>
        var room := size - |acc|;
        if |bs| <= room {
          LaterStallsRemain(rest, size, acc + bs, stalls, lo, hi);
        } else {
          assert ([Chunk(bs[room..])] + rest)[1..] == rest;
        }
      case Stall =>
        StallsOfCons(|acc|, Stalls(rest, |acc|), lo, hi);
        LaterStallsRemain(rest, size, acc, stalls + 1, lo, hi);
      case Interrupted => LaterStallsRemain(rest, size, acc, stalls, lo, hi);
      case _ =>
    }
  }

  /** One receive call at a frame boundary. */
  lemma {:induction false} RecvAtBoundary(script: seq<Event>, size: Positive)
    requires Unbroken(script)
    ensures var (outcome, rest) := Recv(script, size, [], 0);
            && Unbroken(rest)
            && (outcome.TimedOut? ==>
                  forall lo: nat, hi: nat :: Inside(Stalls(rest, 0), lo, hi) == Inside(Stalls(script, 0), lo, hi))
            && (!outcome.TimedOut? ==>
                  if Content(script) == [] then outcome == Closed
                  else if Inside(Stalls(script, 0), 0, size) >= 2 then outcome == Error(StalledMidMessage)
                  else if |Content(script)| >= size then outcome.Msg?
                  else outcome == Error(UnexpectedEof))
    decreases |script|
  {
    if script != [] {
      var rest := script[1..];
      match script[0]
      case Chunk(bs) =>
        if |bs| <= size {
          RecvMidFrame(rest, size, bs, 0);
          assert [] + bs == bs;
        } else {
          NoStallsBefore(rest, |bs|, 0, size);
        }
        RestIsUnbroken(script, size, [], 0);
      case Stall =>
        forall lo: nat, hi: nat {
          StallsOfCons(0, Stalls(rest, 0), lo, hi);
        }
      case Interrupted => RecvAtBoundary(rest, size);
      case _ =>
    }
  }

  lemma {:induction false} RestIsUnbroken(script: seq<Event>, size: nat, acc: Bytes, stalls: nat)
    requires Unbroken(script) && |acc| <= size
    ensures Unbroken(Recv(script, size, acc, stalls).1)
    decreases |script|
  {
    if |acc| < size && script != [] {
      match script[0]
      case Chunk(bs) =>
        if |bs| <= size - |acc| {
          RestIsUnbroken(script[1..], size, acc + bs, stalls);
        }
      case Stall =>
        if acc != [] && stalls == 0 {
          RestIsUnbroken(script[1..], size, acc, 1);
        }
      case Interrupted => RestIsUnbroken(script[1..], size, acc, stalls);
      case _ =>
    }
  }

  lemma StallsAfterOneFrame(script: seq<Event>, rest: seq<Event>, size: Positive, f: nat)
    requires Recv(script, size, [], 0).0.Msg? && rest == Recv(script, size, [], 0).1
    ensures StallsIn(rest, f, size) == StallsIn(script, f + 1, size)
  {
    assert (f + 1) * size == f * size + size && f * size >= 0;
    LaterStallsRemain(script, size, [], 0, f * size + size, f * size + size + size);
    StallsShift(rest, 0, f * size, f * size + size, size);
  }

  lemma OverstalledAfterOneFrame(script: seq<Event>, rest: seq<Event>, size: Positive)
    requires Recv(script, size, [], 0).0.Msg? && rest == Recv(script, size, [], 0).1
    requires StallsIn(script, 0, size) < 2
    ensures Overstalled(script, size) <==> Overstalled(rest, size)
  {
    if Overstalled(script, size) {
      var f: nat :| StallsIn(script, f, size) >= 2;
      StallsAfterOneFrame(script, rest, size, f - 1);
    }
    if Overstalled(rest, size) {
      var f: nat :| StallsIn(rest, f, size) >= 2;
      StallsAfterOneFrame(script, rest, size, f);
    }
  }

  /** The first frame that meets two stalls in its middle is frame `n`. */
  ghost predicate FirstOverstalled(script: seq<Event>, size: Positive, n: nat) {
    StallsIn(script, n, size) >= 2 && forall f: nat :: f < n ==> StallsIn(script, f, size) < 2
  }

  lemma FirstOverstalledAfterOneFrame(script: seq<Event>, rest: seq<Event>, size: Positive, n: nat)
    requires Recv(script, size, [], 0).0.Msg? && rest == Recv(script, size, [], 0).1
    requires StallsIn(script, 0, size) < 2 && FirstOverstalled(rest, size, n)
    ensures FirstOverstalled(script, size, n + 1)
  {
    StallsAfterOneFrame(script, rest, size, n);
    forall f: nat | f < n + 1
      ensures StallsIn(script, f, size) < 2
    {
      if f > 0 {
        StallsAfterOneFrame(script, rest, size, f - 1);
      }
    }
  }

  lemma NotOverstalledWithoutAFrame(script: seq<Event>, size: Positive)
    requires |Content(script)| < size && StallsIn(script, 0, size) < 2
    ensures !Overstalled(script, size)
  {
    forall f: nat
      ensures StallsIn(script, f, size) < 2
    {
      if f > 0 {
        assert (f - 1) * size >= 0;
        if StallsIn(script, f, size) >= 2 {
          StallsNeedContent(script, 0, f * size, f * size + size);
        }
      }
    }
  }

  lemma NoContentNoStallsInside(script: seq<Event>, size: Positive)
    requires Content(script) == []
    ensures StallsIn(script, 0, size) == 0
  {
    if StallsIn(script, 0, size) > 0 {
      StallsNeedContent(script, 0, 0, size);
    }
  }

  /** How reading an unbroken stream to its end comes out. */
  ghost predicate DeliveredUnlessOverstalled(script: seq<Event>, size: Positive) {
    var (msgs, end) := RecvAll(script, size);
    && (Overstalled(script, size) <==> end == Error(StalledMidMessage))
    && (Overstalled(script, size) ==> FirstOverstalled(script, size, |msgs|))
    && (!Overstalled(script, size) ==>
          && Flatten(msgs) == WholeFrames(Content(script), size)
          && end == if |Content(script)| % size == 0 then Closed else Error(UnexpectedEof))
  }

  lemma DeliveredAfterAMessage(script: seq<Event>, size: Positive)
    requires Unbroken(script) && Recv(script, size, [], 0).0.Msg?
    requires DeliveredUnlessOverstalled(Recv(script, size, [], 0).1, size)
    ensures DeliveredUnlessOverstalled(script, size)
  {
    var (outcome, rest) := Recv(script, size, [], 0);
    var msgs := RecvAll(rest, size).0;
    RecvConserves(script, size, [], 0);
    RecvAtBoundary(script, size);
    assert [] + Content(script) == Content(script);
    OverstalledAfterOneFrame(script, rest, size);
    OneFrameMore(outcome.bytes, Content(rest), size);
    assert ([outcome.bytes] + msgs)[1..] == msgs;
    if Overstalled(rest, size) {
      FirstOverstalledAfterOneFrame(script, rest, size, |msgs|);
    }
  }

  lemma DeliveredAfterATimeout(script: seq<Event>, size: Positive)
    requires Unbroken(script) && Recv(script, size, [], 0).0.TimedOut?
    requires DeliveredUnlessOverstalled(Recv(script, size, [], 0).1, size)
    ensures DeliveredUnlessOverstalled(script, size)
  {
    var rest := Recv(script, size, [], 0).1;
    RecvConserves(script, size, [], 0);
    RecvAtBoundary(script, size);
    assert forall f: nat :: StallsIn(rest, f, size) == StallsIn(script, f, size);
  }

  lemma DeliveredAtTheEnd(script: seq<Event>, size: Positive)
    requires Unbroken(script)
    requires !Recv(script, size, [], 0).0.Msg? && !Recv(script, size, [], 0).0.TimedOut?
    ensures DeliveredUnlessOverstalled(script, size)
  {
    RecvAtBoundary(script, size);
    assert StallsIn(script, 0, size) == Inside(Stalls(script, 0), 0, size);
    if Content(script) == [] {
      NoContentNoStallsInside(script, size);
    }
    if StallsIn(script, 0, size) < 2 {
      NotOverstalledWithoutAFrame(script, size);
    }
    NotYetAFrame(if |Content(script)| < size then Content(script) else [], size);
  }

  /** Reading an unbroken stream to its end, whatever the chunks, interrupts and timeouts: if no
      frame meets two stalls in its middle, every whole frame is delivered and the end is Closed,
      or UnexpectedEof when bytes are left over; otherwise, and only then, the receiver gives the
      connection up as stalled, at the first such frame. */
  lemma {:induction false} DeliversEverythingUnlessOverstalled(script: seq<Event>, size: Positive)
    requires Unbroken(script)
    ensures DeliveredUnlessOverstalled(script, size)
    decreases Weight(script)
  {
    RecvConserves(script, size, [], 0);
    RestIsUnbroken(script, size, [], 0);
    var (outcome, rest) := Recv(script, size, [], 0);
    match outcome
    case Msg(m) =>
      DeliversEverythingUnlessOverstalled(rest, size);
      DeliveredAfterAMessage(script, size);
    case TimedOut =>
      DeliversEverythingUnlessOverstalled(rest, size);
      DeliveredAfterATimeout(script, size);
    case _ =>
      DeliveredAtTheEnd(script, size);
  }

  // ------------------------------------------------- streams that break or close

  /** Up to where a stream breaks or closes. */
  function Sound(script: seq<Event>): seq<Event> {
    if script == [] || !StaysOpen(script[0]) then [] else [script[0]] + Sound(script[1..])
  }

  predicate StaysOpen(e: Event) {
    !e.Reset? && !e.Broken? && (e.Chunk? ==> e.bytes != [])
  }

  /** It breaks rather than closes. */
  predicate Breaks(script: seq<Event>) {
    script != [] && if StaysOpen(script[0]) then Breaks(script[1..]) else !script[0].Chunk?
  }

  function OrBroken(end: Outcome, broken: bool): Outcome {
    if broken && (end.Closed? || end == Error(UnexpectedEof)) then Error(Io) else end
  }

  lemma SoundOfCons(e: Event, rest: seq<Event>)
    requires StaysOpen(e)
    ensures Sound([e] + rest) == [e] + Sound(rest) && Breaks([e] + rest) == Breaks(rest)
  {
    assert ([e] + rest)[1..] == rest;
  }

  /** A call on a stream that breaks does what it does on one that closes there, but for the end. */
  lemma {:induction false} RecvOfTheSoundPart(script: seq<Event>, size: nat, acc: Bytes, stalls: nat)
    requires |acc| <= size
    ensures var (outcome, rest) := Recv(script, size, acc, stalls);
            var (outcome', rest') := Recv(Sound(script), size, acc, stalls);
            && outcome == OrBroken(outcome', Breaks(script))
            && (outcome.Msg? || outcome.TimedOut? ==> Sound(rest) == rest' && Breaks(rest) == Breaks(script))
    decreases |script|
  {
    if |acc| < size && script != [] && StaysOpen(script[0]) {
      var later := script[1..];
      assert Sound(script)[0] == script[0] && Sound(script)[1..] == Sound(later);
      match script[0]
      case Chunk(bs) =>
        var room := size - |acc|;
        if |bs| <= room {
          RecvOfTheSoundPart(later, size, acc + bs, stalls);
        } else {
          SoundOfCons(Chunk(bs[room..]), later);
        }
      case Stall =>
        if acc != [] && stalls == 0 {
          RecvOfTheSoundPart(later, size, acc, 1);
        }
      case Interrupted => RecvOfTheSoundPart(later, size, acc, stalls);
      case _ =>
    }
  }

  lemma {:induction false} RecvAllOfTheSoundPart(script: seq<Event>, size: Positive)
    ensures var (msgs, end) := RecvAll(Sound(script), size);
            RecvAll(script, size) == (msgs, OrBroken(end, Breaks(script)))
    decreases Weight(script)
  {
    RecvOfTheSoundPart(script, size, [], 0);
    RecvConserves(script, size, [], 0);
    var (outcome, rest) := Recv(script, size, [], 0);
    if outcome.Msg? || outcome.TimedOut? {
      RecvAllOfTheSoundPart(rest, size);
    }
  }

  lemma {:induction false} SoundUpTo(good: seq<Event>, e: Event, rest: seq<Event>)
    requires Unbroken(good) && !StaysOpen(e)
    ensures Sound(good + [e] + rest) == good && Breaks(good + [e] + rest) == !e.Chunk?
  {
    var script := good + [e] + rest;
    if good == [] {
      assert script[0] == e;
    } else {
      assert good[0] in good && script[0] == good[0] && script[1..] == good[1..] + [e] + rest;
      SoundUpTo(good[1..], e, rest);
    }
  }

  /** A stream that breaks or closes at `e`, whatever else might follow: the whole frames before it are
      delivered, and a reset or failure is an error whether or not a frame is in hand, a close one
      only if it is. A frame that meets two stalls before that ends the run there. */
  lemma BrokenStreamFails(good: seq<Event>, e: Event, rest: seq<Event>, size: Positive)
    requires Unbroken(good) && (e == Reset || e == Broken || e == Chunk([]))
    ensures var (msgs, end) := RecvAll(good + [e] + rest, size);
            if Overstalled(good, size) then
              end == Error(StalledMidMessage) && FirstOverstalled(good, size, |msgs|)
            else
              && Flatten(msgs) == WholeFrames(Content(good), size)
              && end == if e != Chunk([]) then Error(Io)
                        else if |Content(good)| % size == 0 then Closed else Error(UnexpectedEof)
  {
    SoundUpTo(good, e, rest);
    RecvAllOfTheSoundPart(good + [e] + rest, size);
    DeliversEverythingUnlessOverstalled(good, size);
  }

  /** A call times out exactly if a stall comes first, interrupts aside, and uses up nothing else. */
  lemma {:induction false} TimesOutExactly(script: seq<Event>, size: Positive)
    ensures Recv(script, size, [], 0).0.TimedOut? <==> exists i: nat :: StallsFirst(script, i)
    ensures forall i: nat :: StallsFirst(script, i) ==> Recv(script, size, [], 0) == (TimedOut, script[i + 1..])
  {
    if script != [] {
      var later := script[1..];
      match script[0]
      case Chunk(bs) =>
        if bs != [] && |bs| <= size {
          RecvConserves(later, size, bs, 0);
          assert [] + bs == bs;
        }
      case Stall =>
        assert StallsFirst(script, 0);
      case Interrupted =>
        TimesOutExactly(later, size);
        if i: nat :| StallsFirst(later, i) {
          assert forall j :: 0 < j <= i + 1 ==> script[j] == later[j - 1];
          assert StallsFirst(script, i + 1);
        }
        forall i: nat | StallsFirst(script, i)
          ensures i > 0 && StallsFirst(later, i - 1) && script[i + 1..] == later[i..]
        {
          assert forall j :: 0 <= j < i ==> later[j] == script[j + 1];
        }
      case _ =>
    }
  }

  ghost predicate StallsFirst(script: seq<Event>, i: nat) {
    && i < |script| && script[i] == Stall
    && forall j :: 0 <= j < i ==> script[j] == Interrupted
  }

  // -------------------------------------------------------------- round trip

  /** Sends the messages one after the other over one connection. */
  function SendAll(msgs: seq<Bytes>, sink: seq<WriteEvent>): (bool, Bytes) {
    if msgs == [] then (true, [])
    else
      var (ok, out, sink') := WriteAll(sink, msgs[0]);
      if !ok then (false, out)
      else
        var (ok', out') := SendAll(msgs[1..], sink');
        (ok', out + out')
  }

  lemma {:induction false} SenderConcatenates(msgs: seq<Bytes>, sink: seq<WriteEvent>)
    requires NeverRefuses(sink)
    ensures SendAll(msgs, sink) == (true, Flatten(msgs))
  {
    if msgs != [] {
      WriteAllWritesAPrefix(sink, msgs[0]);
      SenderConcatenates(msgs[1..], WriteAll(sink, msgs[0]).2);
    }
  }

  /** Over a connection whose writes fail the sender puts a prefix of that on the wire, and reports
      success exactly if it is all there. */
  lemma {:induction false} SenderReportsFailures(msgs: seq<Bytes>, sink: seq<WriteEvent>)
    ensures var (ok, out) := SendAll(msgs, sink);
            out <= Flatten(msgs) && (ok <==> out == Flatten(msgs))
  {
    if msgs != [] {
      WriteAllWritesAPrefix(sink, msgs[0]);
      if WriteAll(sink, msgs[0]).0 {
        SenderReportsFailures(msgs[1..], WriteAll(sink, msgs[0]).2);
      } else {
        FailedWriteIsShort(sink, msgs[0]);
      }
    }
  }

  lemma {:induction false} FlattenedIsWhole(msgs: seq<Bytes>, size: Positive)
    requires AllOfSize(msgs, size)
    ensures |Flatten(msgs)| % size == 0 && WholeFrames(Flatten(msgs), size) == Flatten(msgs)
  {
    if msgs != [] {
      assert |msgs[0]| == size;
      FlattenedIsWhole(msgs[1..], size);
      OneFrameMore(msgs[0], Flatten(msgs[1..]), size);
    } else {
      NotYetAFrame([], size);
    }
  }

  /** Sender, echo loop, receiver: whatever the two networks do to the chunking, with interrupts
      anywhere, timeouts between messages and at most one timeout inside each, the receiver gets
      exactly the messages sent, in order, and then the close. */
  lemma RoundTrip(
    msgs: seq<Bytes>, size: Positive,
    sendSink: seq<WriteEvent>, toEcho: seq<Event>, echoSink: seq<WriteEvent>, toClient: seq<Event>)
    requires AllOfSize(msgs, size)
    requires NeverRefuses(sendSink) && NeverRefuses(echoSink)
    requires Input(toEcho) == SendAll(msgs, sendSink).1 && EndsCleanly(toEcho)
    requires Unbroken(toClient) && Content(toClient) == Echo(toEcho, echoSink, size).1
    requires !Overstalled(toClient, size)
    ensures Echo(toEcho, echoSink, size).0
    ensures RecvAll(toClient, size) == (msgs, Closed)
  {
    SenderConcatenates(msgs, sendSink);
    EchoWritesWholeFrames(toEcho, echoSink, size);
    FlattenedIsWhole(msgs, size);
    DeliversEverythingUnlessOverstalled(toClient, size);
    ReceivedFramesAreAPrefix(toClient, size);
    FlattenIsInjective(RecvAll(toClient, size).0, msgs, size);
  }
}

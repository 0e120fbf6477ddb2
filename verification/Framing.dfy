/** Fixed-size messages over a byte stream, for every way the stream may be cut into reads. */
module Framing {
  import opened Basics

  /** What the next read of the stream finds. A chunk larger than the buffer is left for later
      reads; an empty chunk is the end of the stream, and so is an exhausted script. A stall is
      `WouldBlock` or `TimedOut`. */
  datatype Event = Chunk(bytes: Bytes) | Stall | Interrupted | Reset | Broken

  datatype ReadResult = Got(n: nat) | Stalled | Retry | WasReset | Failed

  class Source {
    var script: seq<Event>

    constructor (script: seq<Event>)
      ensures this.script == script
    {
      this.script := script;
    }

    /** One read into `buf` from index `from` on. */
    method Read(buf: array<Byte>, from: nat) returns (r: ReadResult)
      requires from < buf.Length
      modifies this, buf
      ensures var (r', bytes, rest) := NextRead(old(script), buf.Length - from);
              && r == r' && script == rest
              && (r.Got? ==> r.n == |bytes| <= buf.Length - from)
              && buf[from..from + |bytes|] == bytes
      ensures buf[..from] == old(buf[..from])
    {
      var (r', bytes, rest) := NextRead(script, buf.Length - from);
      script := rest;
      forall k | 0 <= k < |bytes| {
        buf[from + k] := bytes[k];
      }
      r := r';
    }
  }

  function NextRead(script: seq<Event>, room: nat): (r: (ReadResult, Bytes, seq<Event>))
    ensures |r.1| <= room
  {
    if script == [] then (Got(0), [], [])
    else
      var rest := script[1..];
      match script[0]
      case Chunk(bs) =>
        if |bs| <= room then (Got(|bs|), bs, rest) else (Got(room), bs[..room], [Chunk(bs[room..])] + rest)
      case Stall => (Stalled, [], rest)
      case Interrupted => (Retry, [], rest)
      case Reset => (WasReset, [], rest)
      case Broken => (Failed, [], rest)
  }

  /** All bytes still to come. */
  function Content(script: seq<Event>): Bytes {
    if script == [] then []
    else (if script[0].Chunk? then script[0].bytes else []) + Content(script[1..])
  }

  // ------------------------------------------------------------ the receiver

  datatype RecvError = UnexpectedEof | StalledMidMessage | Io
  datatype Outcome = Msg(bytes: Bytes) | TimedOut | Closed | Error(e: RecvError)

  /** What `recv` does with `acc` already in the buffer and `stalls` stalls behind it. */
  function Recv(script: seq<Event>, size: nat, acc: Bytes, stalls: nat): (Outcome, seq<Event>)
    decreases |script|
  {
    if |acc| >= size then (Msg(acc), script)
    else if script == [] then (if acc == [] then Closed else Error(UnexpectedEof), [])
    else
      var rest := script[1..];
      match script[0]
      case Chunk(bs) =>
        var room := size - |acc|;
        if bs == [] then (if acc == [] then Closed else Error(UnexpectedEof), rest)
        else if |bs| <= room then Recv(rest, size, acc + bs, stalls)
        else (Msg(acc + bs[..room]), [Chunk(bs[room..])] + rest)
      case Stall =>
        if acc == [] then (TimedOut, rest)
        else if stalls + 1 > 1 then (Error(StalledMidMessage), rest)
        else Recv(rest, size, acc, stalls + 1)
      case Interrupted => Recv(rest, size, acc, stalls)
      case Reset => (Error(Io), rest)
      case Broken => (Error(Io), rest)
  }

  class StreamReceiver {
    const source: Source

    constructor (source: Source)
      ensures this.source == source
    {
      this.source := source;
    }

    method Receive(buf: array<Byte>) returns (outcome: Outcome)
      modifies source, buf
      ensures (outcome, source.script) == Recv(old(source.script), buf.Length, [], 0)
      ensures outcome.Msg? ==> buf[..] == outcome.bytes
    {
      var filled, stalls := 0, 0;
      ghost var script := source.script;
      while filled < buf.Length
        invariant filled <= buf.Length && stalls <= 1
        invariant Recv(source.script, buf.Length, buf[..filled], stalls) == Recv(script, buf.Length, [], 0)
        decreases |source.script|, buf.Length - filled
      {
        ghost var was := source.script;
        ghost var acc := buf[..filled];
        var r := source.Read(buf, filled);
        assert buf[..filled] == acc;
        match r {
          case Got(n) =>
            if n == 0 {
              return if filled == 0 then Closed else Error(UnexpectedEof);
            }
            assert buf[..filled + n] == acc + buf[filled..filled + n];
            filled := filled + n;
          case Stalled =>
            if filled == 0 {
              return TimedOut;
            }
            stalls := stalls + 1;
            if stalls > 1 {
              return Error(StalledMidMessage);
            }
          case Retry =>
          case WasReset =>
            return Error(Io);
          case Failed =>
            return Error(Io);
        }
      }
      assert buf[..] == buf[..filled];
      outcome := Msg(buf[..]);
    }
  }

  // ---------------------------------------------------------------- the sender

  /** What the next write does: take at most `n` bytes, be interrupted, or fail. An exhausted
      script takes everything. */
  datatype WriteEvent = Accept(n: nat) | InterruptedWrite | Refuse

  class Sink {
    var script: seq<WriteEvent>
    var written: Bytes

    constructor (script: seq<WriteEvent>)
      ensures this.script == script && written == []
    {
      this.script, written := script, [];
    }

    /** Writes all of `bs`, or a prefix of it and then fails. */
    method WriteAllBytes(bs: Bytes) returns (ok: bool)
      modifies this
      ensures var (ok', out, rest) := WriteAll(old(script), bs);
              ok == ok' && written == old(written) + out && script == rest
    {
      var left := bs;
      while left != []
        invariant WriteAll(old(script), bs).0 == WriteAll(script, left).0
        invariant WriteAll(old(script), bs).2 == WriteAll(script, left).2
        invariant old(written) + WriteAll(old(script), bs).1 == written + WriteAll(script, left).1
        decreases |script|, |left|
      {
        if script == [] {
          written, left := written + left, [];
        } else {
          var event := script[0];
          script := script[1..];
          match event {
            case Accept(n) =>
              var took := if n < |left| then n else |left|;
              if took == 0 {
                return false;
              }
              written, left := written + left[..took], left[took..];
            case InterruptedWrite =>
            case Refuse =>
              return false;
          }
        }
      }
      ok := true;
    }
  }

  function WriteAll(script: seq<WriteEvent>, bs: Bytes): (bool, Bytes, seq<WriteEvent>)
    decreases |script|
  {
    if bs == [] then (true, [], script)
    else if script == [] then (true, bs, [])
    else
      match script[0]
      case Accept(n) =>
        var took := if n < |bs| then n else |bs|;
        if took == 0 then (false, [], script[1..])
        else
          var (ok, out, rest) := WriteAll(script[1..], bs[took..]);
          (ok, bs[..took] + out, rest)
      case InterruptedWrite => WriteAll(script[1..], bs)
      case Refuse => (false, [], script[1..])
  }

  ghost predicate NeverRefuses(script: seq<WriteEvent>) {
    forall e :: e in script ==> !e.Refuse? && (e.Accept? ==> e.n > 0)
  }

  /** Short writes and interrupts never reorder, drop or repeat a byte. */
  lemma {:induction false} WriteAllWritesAPrefix(script: seq<WriteEvent>, bs: Bytes)
    ensures var (ok, out, rest) := WriteAll(script, bs);
            && out <= bs && (ok ==> out == bs)
            && (NeverRefuses(script) ==> ok && NeverRefuses(rest))
    decreases |script|
  {
    if bs != [] && script != [] {
      match script[0]
      case Accept(n) =>
        var took := if n < |bs| then n else |bs|;
        WriteAllWritesAPrefix(script[1..], bs[took..]);
        assert bs == bs[..took] + bs[took..];
      case InterruptedWrite =>
        WriteAllWritesAPrefix(script[1..], bs);
      case Refuse =>
    }
  }

  /** A write that takes nothing: the call fails at it. */
  predicate Refuses(e: WriteEvent) {
    e == Refuse || e == Accept(0)
  }

  /** How many bytes the first `i` writes take if there are enough. */
  function Accepted(script: seq<WriteEvent>, i: nat): nat
    requires i <= |script|
  {
    if i == 0 then 0 else (if script[0].Accept? then script[0].n else 0) + Accepted(script[1..], i - 1)
  }

  /** Write `i` is the first that takes nothing, and bytes are left for it. */
  ghost predicate RefusedAt(script: seq<WriteEvent>, bytes: nat, i: nat) {
    && i < |script| && Refuses(script[i]) && Accepted(script, i) < bytes
    && forall j :: 0 <= j < i ==> !Refuses(script[j])
  }

  lemma RefusedLater(script: seq<WriteEvent>, bytes: nat, left: nat, i: nat)
    requires script != [] && !Refuses(script[0])
    requires script[0].Accept? ==> left == if script[0].n < bytes then bytes - script[0].n else 0
    requires !script[0].Accept? ==> left == bytes
    ensures RefusedAt(script, bytes, i + 1) <==> RefusedAt(script[1..], left, i)
  {
    var later := script[1..];
    assert forall j :: 0 <= j < |later| ==> later[j] == script[j + 1];
  }

  /** A call fails exactly if a write takes nothing before the last byte is out, and then it has
      written what the writes before that one took. */
  lemma {:induction false} WriteFailsExactly(script: seq<WriteEvent>, bs: Bytes)
    ensures !WriteAll(script, bs).0 <==> exists i: nat :: RefusedAt(script, |bs|, i)
    ensures forall i: nat :: RefusedAt(script, |bs|, i) ==> |WriteAll(script, bs).1| == Accepted(script, i)
    decreases |script|
  {
    if bs != [] && script != [] {
      if Refuses(script[0]) {
        assert RefusedAt(script, |bs|, 0);
      } else {
        var took := if script[0].InterruptedWrite? then 0 else if script[0].n < |bs| then script[0].n else |bs|;
        var later, left := script[1..], |bs| - took;
        assert bs[0..] == bs;
        WriteFailsExactly(later, bs[took..]);
        if i: nat :| RefusedAt(later, left, i) {
          RefusedLater(script, |bs|, left, i);
        }
        forall i: nat | RefusedAt(script, |bs|, i)
          ensures i > 0 && RefusedAt(later, left, i - 1)
        {
          RefusedLater(script, |bs|, left, i - 1);
        }
      }
    }
  }

  // ------------------------------------------------------------ the echo loop

  datatype FillEnd = Frame(bytes: Bytes) | PeerDone | ReadFailed

  /** The echo's inner loop: one frame, or the end of the run. Its socket is blocking, so a stall
      is an error here; a reset is a normal end. */
  function Fill(script: seq<Event>, size: nat, acc: Bytes): (FillEnd, seq<Event>)
    decreases |script|
  {
    if |acc| >= size then (Frame(acc), script)
    else if script == [] then (PeerDone, [])
    else
      var rest := script[1..];
      match script[0]
      case Chunk(bs) =>
        var room := size - |acc|;
        if bs == [] then (PeerDone, rest)
        else if |bs| <= room then Fill(rest, size, acc + bs)
        else (Frame(acc + bs[..room]), [Chunk(bs[room..])] + rest)
      case Stall => (ReadFailed, rest)
      case Interrupted => Fill(rest, size, acc)
      case Reset => (PeerDone, rest)
      case Broken => (ReadFailed, rest)
  }

  function Weight(script: seq<Event>): nat {
    |Content(script)| + |script|
  }

  lemma ContentOfRemainder(bs: Bytes, rest: seq<Event>)
    ensures Content([Chunk(bs)] + rest) == bs + Content(rest)
  {
    assert ([Chunk(bs)] + rest)[1..] == rest;
  }

  lemma Reassociate(a: Bytes, b: Bytes, c: Bytes)
    ensures a + (b + c) == (a + b) + c
  {
  }

  /** A chunk that completes a frame, cut where the frame ends. */
  lemma CutChunk(acc: Bytes, bs: Bytes, room: nat, later: Bytes)
    requires room <= |bs|
    ensures acc + (bs + later) == (acc + bs[..room]) + (bs[room..] + later)
  {
  }

  /** Completing `acc` to `frame` took exactly the missing bytes off the stream. */
  ghost predicate TakesItsOwnBytes(script: seq<Event>, acc: Bytes, frame: Bytes, rest: seq<Event>) {
    |rest| <= |script| && acc + Content(script) == frame + Content(rest)
  }

  lemma ChunkTakenWhole(script: seq<Event>, acc: Bytes, frame: Bytes, rest: seq<Event>)
    requires script != [] && script[0].Chunk?
    requires TakesItsOwnBytes(script[1..], acc + script[0].bytes, frame, rest)
    ensures TakesItsOwnBytes(script, acc, frame, rest)
  {
    Reassociate(acc, script[0].bytes, Content(script[1..]));
  }

  lemma ChunkTakenInPart(script: seq<Event>, acc: Bytes, room: nat)
    requires script != [] && script[0].Chunk? && room <= |script[0].bytes|
    ensures var bs := script[0].bytes;
            TakesItsOwnBytes(script, acc, acc + bs[..room], [Chunk(bs[room..])] + script[1..])
  {
    var bs := script[0].bytes;
    ContentOfRemainder(bs[room..], script[1..]);
    CutChunk(acc, bs, room, Content(script[1..]));
  }

  /** A frame takes exactly its own bytes off the stream. */
  lemma {:induction false} FillConserves(script: seq<Event>, size: nat, acc: Bytes)
    requires |acc| <= size
    ensures var (end, rest) := Fill(script, size, acc);
            end.Frame? ==> |end.bytes| == size && TakesItsOwnBytes(script, acc, end.bytes, rest)
    decreases |script|
  {
    if |acc| < size && script != [] {
      var (end, rest) := Fill(script, size, acc);
      match script[0]
      case Chunk(bs) =>
        if bs != [] && |bs| <= size - |acc| {
          FillConserves(script[1..], size, acc + bs);
          if end.Frame? {
            ChunkTakenWhole(script, acc, end.bytes, rest);
          }
        } else if bs != [] {
          ChunkTakenInPart(script, acc, size - |acc|);
        }
      case Interrupted => FillConserves(script[1..], size, acc);
      case _ =>
    }
  }

  /** The echo loop: frames are written back one by one until the peer is done. */
  function Echo(script: seq<Event>, sink: seq<WriteEvent>, size: nat): (bool, Bytes)
    requires size > 0
    decreases Weight(script)
  {
    FillConserves(script, size, []);
    var (end, rest) := Fill(script, size, []);
    match end
    case PeerDone => (true, [])
    case ReadFailed => (false, [])
    case Frame(bs) =>
      var (ok, out, sink') := WriteAll(sink, bs);
      if !ok then (false, out)
      else
        var (ok', out') := Echo(rest, sink', size);
        (ok', out + out')
  }

  /** The inner loop of the echo: reads one frame into `buf`. */
  method FillBuffer(source: Source, buf: array<Byte>) returns (end: FillEnd)
    modifies source, buf
    ensures (end, source.script) == Fill(old(source.script), buf.Length, [])
    ensures end.Frame? ==> buf[..] == end.bytes
  {
    var filled := 0;
    ghost var script := source.script;
    while filled < buf.Length
      invariant filled <= buf.Length
      invariant Fill(source.script, buf.Length, buf[..filled]) == Fill(script, buf.Length, [])
      decreases |source.script|, buf.Length - filled
    {
      ghost var acc := buf[..filled];
      var r := source.Read(buf, filled);
      assert buf[..filled] == acc;
      match r {
        case Got(n) =>
          if n == 0 {
            return PeerDone;
          }
          assert buf[..filled + n] == acc + buf[filled..filled + n];
          filled := filled + n;
        case Stalled =>
          return ReadFailed;
        case Retry =>
        case WasReset =>
          return PeerDone;
        case Failed =>
          return ReadFailed;
      }
    }
    assert buf[..] == buf[..filled];
    end := Frame(buf[..]);
  }

  /** Returns true when the loop ended normally. */
  method EchoLoop(source: Source, sink: Sink, size: nat) returns (ok: bool)
    requires size > 0
    modifies source, sink
    ensures var (ok', out) := Echo(old(source.script), old(sink.script), size);
            ok == ok' && sink.written == old(sink.written) + out
  {
    var buf := new Byte[size](_ => 0);
    while true
      invariant Echo(old(source.script), old(sink.script), size).0 == Echo(source.script, sink.script, size).0
      invariant old(sink.written) + Echo(old(source.script), old(sink.script), size).1
             == sink.written + Echo(source.script, sink.script, size).1
      decreases Weight(source.script)
    {
      FillConserves(source.script, size, []);
      var end := FillBuffer(source, buf);
      if end.PeerDone? {
        return true;
      }
      if end.ReadFailed? {
        return false;
      }
      var wrote := sink.WriteAllBytes(buf[..]);
      if !wrote {
        return false;
      }
    }
  }
}

/** The Redis stream consumer: an append-only log with trimming on the server, a last-seen id and a
    batch of fetched entries on the client. */
module RedisStream {
  import opened Basics

  /** A stream entry; one without field `d` cannot come from the benchmark's own sender. */
  datatype Field = Present(data: Bytes) | Missing
  datatype Entry = Entry(id: nat, field: Field)

  datatype Item = Item(id: nat, data: Bytes)

  // -------------------------------------------------------------- the server

  /** What XREAD returns: every retained entry with a later id, oldest first. */
  function After(log: seq<Entry>, id: nat): seq<Entry> {
    if log == [] then []
    else (if log[0].id > id then [log[0]] else []) + After(log[1..], id)
  }

  predicate HasField(e: Entry) {
    e.field.Present?
  }

  /** Fields of the entries before the first one without `d`. */
  function Parsed(reply: seq<Entry>): seq<Item> {
    if reply == [] || !HasField(reply[0]) then []
    else [Item(reply[0].id, reply[0].field.data)] + Parsed(reply[1..])
  }

  function Reversed<T>(s: seq<T>): (r: seq<T>)
    ensures |r| == |s|
  {
    if s == [] then [] else Reversed(s[1..]) + [s[0]]
  }

  // ------------------------------------------------------------ the receiver

  datatype RecvError = Offline | MissingField | TooLarge | WrongLength
  datatype Outcome = Handed(data: Bytes) | NoEntry | Failed(e: RecvError)
  datatype RecvOutcome = Msg(data: Bytes) | TimedOut | Error(e: RecvError)

  /** The receiver's own state. Between calls that succeed `pending` is a stack, newest at the
      bottom. */
  datatype Rx = Rx(lastId: nat, pending: seq<Item>)

  function Pop(rx: Rx, room: nat): (Rx, Outcome) {
    if rx.pending == [] then (rx, NoEntry)
    else
      var top := rx.pending[|rx.pending| - 1];
      (Rx(top.id, rx.pending[..|rx.pending| - 1]),
       Handing(top, room))
  }

  function Handing(x: Item, room: nat): Outcome {
    if |x.data| > room then Failed(TooLarge) else Handed(x.data)
  }

  /** The batch a call pops from: what is pending, else what one read returns. */
  function Fetch(rx: Rx, log: seq<Entry>): Rx {
    if rx.pending != [] then rx else rx.(pending := Reversed(Parsed(After(log, rx.lastId))))
  }

  /** One call of `recv_any` against the retained part of the log. */
  function RecvAny(rx: Rx, log: seq<Entry>, online: bool, room: nat): (Rx, Outcome) {
    if rx.pending != [] then Pop(rx, room)
    else if !online then (rx, Failed(Offline))
    else
      var reply := After(log, rx.lastId);
      var items := Parsed(reply);
      if |items| < |reply| then (rx.(pending := items), Failed(MissingField))
      else Pop(Fetch(rx, log), room)
  }

  /** One call of `recv`: the entry must fill the buffer exactly. */
  function RecvExact(rx: Rx, log: seq<Entry>, online: bool, size: nat): (Rx, RecvOutcome) {
    var (rx', outcome) := RecvAny(rx, log, online, size);
    match outcome
    case Handed(data) => (rx', if |data| == size then Msg(data) else Error(WrongLength))
    case NoEntry => (rx', TimedOut)
    case Failed(e) => (rx', Error(e))
  }

  class StreamReceiver {
    var lastId: nat
    var pending: seq<Item>

    constructor Open()
      ensures State() == Rx(0, [])
    {
      lastId, pending := 0, [];
    }

    function State(): Rx
      reads this
    {
      Rx(lastId, pending)
    }

    /** `log` is what the server retains when the read is answered; `online` whether it answers. */
    method ReceiveAny(buf: array<Byte>, log: seq<Entry>, online: bool) returns (outcome: Outcome)
      modifies this, buf
      ensures (State(), outcome) == RecvAny(old(State()), log, online, buf.Length)
      ensures outcome.Handed? ==> |outcome.data| <= buf.Length && buf[..|outcome.data|] == outcome.data
    {
      if pending == [] {
        if !online {
          return Failed(Offline);
        }
        var reply := After(log, lastId);
        var i := 0;
        while i < |reply|
          invariant i <= |reply| && lastId == old(lastId)
          invariant |pending| == i && Parsed(reply) == pending + Parsed(reply[i..])
        {
          assert reply[i..][0] == reply[i] && reply[i..][1..] == reply[i + 1..];
          if !HasField(reply[i]) {
            assert Parsed(reply) == pending + [] == pending;
            return Failed(MissingField);
          }
          pending := pending + [Item(reply[i].id, reply[i].field.data)];
          i := i + 1;
        }
        assert Parsed(reply) == pending;
        Reverse();
      }
      if pending == [] {
        return NoEntry;
      }
      var top := pending[|pending| - 1];
      pending := pending[..|pending| - 1];
      lastId := top.id;
      if |top.data| > buf.Length {
        return Failed(TooLarge);
      }
      forall k | 0 <= k < |top.data| {
        buf[k] := top.data[k];
      }
      outcome := Handed(top.data);
    }

    method ReceiveMessage(buf: array<Byte>, log: seq<Entry>, online: bool) returns (outcome: RecvOutcome)
      modifies this, buf
      ensures (State(), outcome) == RecvExact(old(State()), log, online, buf.Length)
      ensures outcome.Msg? ==> buf[..] == outcome.data
    {
      var any := ReceiveAny(buf, log, online);
      match any {
        case Handed(data) =>
          if |data| != buf.Length {
            return Error(WrongLength);
          }
          assert buf[..] == buf[..|data|];
          outcome := Msg(data);
        case NoEntry =>
          outcome := TimedOut;
        case Failed(e) =>
          outcome := Error(e);
      }
    }

    /** Reverses the batch in place, so that popping from the back hands out the oldest first. */
    method Reverse()
      modifies this`pending
      ensures pending == Reversed(old(pending))
    {
      var i := 0;
      ghost var was := pending;
      while i < |pending| / 2
        invariant i <= |pending| / 2 && |pending| == |was|
        invariant forall k :: 0 <= k < i ==> pending[k] == was[|was| - 1 - k] && pending[|was| - 1 - k] == was[k]
        invariant forall k :: i <= k < |was| - i ==> pending[k] == was[k]
      {
        var j := |pending| - 1 - i;
        pending := pending[i := pending[j]][j := pending[i]];
        i := i + 1;
      }
      MirroredIsReversed(was, pending);
    }
  }

  lemma {:induction false} ReversedAt<T>(s: seq<T>, k: nat)
    requires k < |s|
    ensures Reversed(s)[k] == s[|s| - 1 - k]
  {
    if k < |s| - 1 {
      ReversedAt(s[1..], k);
    }
  }

  lemma MirroredIsReversed<T>(s: seq<T>, r: seq<T>)
    requires |r| == |s| && forall k :: 0 <= k < |s| ==> r[k] == s[|s| - 1 - k]
    ensures r == Reversed(s)
  {
    forall k | 0 <= k < |s|
      ensures r[k] == Reversed(s)[k]
    {
      ReversedAt(s, k);
    }
  }

  lemma ReversedPop<T>(s: seq<T>)
    requires s != []
    ensures Reversed(s)[|s| - 1] == s[0] && Reversed(s)[..|s| - 1] == Reversed(s[1..])
  {
  }

  // -------------------------------------------------- runs of one stream

  /** One stream and its one consumer. `all` is every entry ever appended, of which the server
      retains those from index `trimmed` on. History: `taken`, the entries popped so far; `next`,
      the index after the last entry fetched; `lost`, how many entries a fetch found trimmed away. */
  datatype Stream = Stream(
    all: seq<Item>, trimmed: nat, rx: Rx, taken: seq<Item>, next: nat, lost: nat)

  const EMPTY: Stream := Stream([], 0, Rx(0, []), [], 0, 0)

  function Entries(items: seq<Item>): (es: seq<Entry>)
    ensures |es| == |items|
    ensures forall k :: 0 <= k < |es| ==> es[k] == Entry(items[k].id, Present(items[k].data))
  {
    seq(|items|, k requires 0 <= k < |items| => Entry(items[k].id, Present(items[k].data)))
  }

  ghost predicate Increasing(items: seq<Item>) {
    && (forall k :: 0 <= k < |items| ==> items[k].id > 0)
    && forall i, j :: 0 <= i < j < |items| ==> items[i].id < items[j].id
  }

  /** An append with approximate trimming: the new id is larger than any before, and at least
      `maxlen` entries are kept. */
  ghost predicate CanAppend(s: Stream, x: Item, trim: nat, maxlen: nat) {
    && x.id > 0 && (s.all != [] ==> s.all[|s.all| - 1].id < x.id)
    && s.trimmed <= trim <= |s.all| + 1
    && (trim == s.trimmed || trim + maxlen <= |s.all| + 1)
  }

  function Append(s: Stream, x: Item, trim: nat): Stream {
    s.(all := s.all + [x], trimmed := trim)
  }

  function Top(rx: Rx): seq<Item> {
    if rx.pending == [] then [] else [rx.pending[|rx.pending| - 1]]
  }

  function Retained(s: Stream): seq<Entry> {
    if s.trimmed <= |s.all| then Entries(s.all[s.trimmed..]) else []
  }

  /** One receive call that the server answers. */
  function Receive(s: Stream, room: nat): Stream {
    var batch := Fetch(s.rx, Retained(s));
    var fetched := s.rx.pending == [] && batch.pending != [];
    Stream(s.all, s.trimmed,
           RecvAny(s.rx, Retained(s), true, room).0,
           s.taken + Top(batch),
           if fetched then |s.all| else s.next,
           if fetched && s.next < s.trimmed then s.lost + (s.trimmed - s.next) else s.lost)
  }

  /** Index of the next entry to hand out. */
  function Position(s: Stream): int {
    s.next - |s.rx.pending|
  }

  /** The batch in hand is a contiguous stretch of the log in stack order, `lastId` names the entry
      before it, and what was taken is increasing: all of the log up to there unless a fetch came
      too late. */
  ghost predicate Inv(s: Stream) {
    && Increasing(s.all) && s.trimmed <= |s.all|
    && 0 <= Position(s) && s.next <= |s.all|
    && s.rx.pending == Reversed(s.all[Position(s)..s.next])
    && s.rx.lastId == (if Position(s) == 0 then 0 else s.all[Position(s) - 1].id)
    && |s.taken| + |s.rx.pending| + s.lost == s.next
    && Increasing(s.taken)
    && (s.taken == [] ==> s.next == 0)
    && (s.taken != [] ==> s.taken[|s.taken| - 1].id == s.rx.lastId)
    && (forall x :: x in s.taken ==> x in s.all)
    && (s.lost == 0 ==> s.taken == s.all[..Position(s)])
  }

  lemma {:induction false} AfterIsASuffix(log: seq<Entry>, id: nat, n: nat)
    requires n <= |log|
    requires forall k :: 0 <= k < n ==> log[k].id <= id
    requires forall k :: n <= k < |log| ==> log[k].id > id
    ensures After(log, id) == log[n..]
  {
    if log != [] {
      AfterIsASuffix(log[1..], id, if n > 0 then n - 1 else 0);
    }
  }

  lemma {:induction false} ParsedEntries(items: seq<Item>)
    ensures Parsed(Entries(items)) == items
  {
    if items != [] {
      ParsedEntries(items[1..]);
      assert Entries(items)[1..] == Entries(items[1..]);
    }
  }

  /** First index a fetch can still get. */
  function FirstUnfetched(s: Stream): nat {
    if s.trimmed < s.next then s.next else s.trimmed
  }

  /** A read returns exactly the retained entries that were not fetched before. */
  lemma ReadReturnsTheUnfetched(s: Stream)
    requires Inv(s) && s.rx.pending == []
    ensures FirstUnfetched(s) <= |s.all|
    ensures After(Retained(s), s.rx.lastId) == Entries(s.all[FirstUnfetched(s)..])
    ensures forall k :: FirstUnfetched(s) <= k < |s.all| ==> s.all[k].id > s.rx.lastId
  {
    var from := FirstUnfetched(s);
    var log := Retained(s);
    AfterIsASuffix(log, s.rx.lastId, from - s.trimmed);
    assert log[from - s.trimmed..] == Entries(s.all[from..]);
  }

  lemma AppendKeeps(s: Stream, x: Item, trim: nat, maxlen: nat)
    requires Inv(s) && CanAppend(s, x, trim, maxlen)
    ensures Inv(Append(s, x, trim))
  {
    var s' := Append(s, x, trim);
    assert s'.all[Position(s)..s.next] == s.all[Position(s)..s.next];
    assert s'.all[..Position(s)] == s.all[..Position(s)];
  }

  /** Popping entry `i` from a batch that holds all[i..end]. */
  lemma PopKeeps(s: Stream, i: nat, end: nat, room: nat)
    requires Increasing(s.all) && i < end <= |s.all|
    ensures var rx := Rx(s.rx.lastId, Reversed(s.all[i..end]));
            && Top(rx) == [s.all[i]]
            && Pop(rx, room) == (Rx(s.all[i].id, Reversed(s.all[i + 1..end])), Handing(s.all[i], room))
  {
    ReversedPop(s.all[i..end]);
    assert s.all[i..end][1..] == s.all[i + 1..end];
  }

  function AfterPop(s: Stream, i: nat): Stream
    requires i < s.next <= |s.all|
  {
    s.(rx := Rx(s.all[i].id, Reversed(s.all[i + 1..s.next])), taken := s.taken + [s.all[i]])
  }

  lemma PopOutcome(s: Stream, room: nat)
    requires Inv(s) && s.rx.pending != []
    ensures 0 <= Position(s) && Receive(s, room) == AfterPop(s, Position(s))
  {
    PopKeeps(s, Position(s), s.next, room);
  }

  lemma AfterPopKeeps(s: Stream, i: nat)
    requires Inv(s) && s.rx.pending != [] && i == Position(s)
    ensures Inv(AfterPop(s, i))
  {
    assert Increasing(s.taken + [s.all[i]]);
    assert s.all[..i] + [s.all[i]] == s.all[..i + 1];
  }

  lemma ReceiveFromBatchKeeps(s: Stream, room: nat)
    requires Inv(s) && s.rx.pending != []
    ensures Inv(Receive(s, room))
    ensures Receive(s, room).taken == s.taken + [s.all[Position(s)]]
    ensures Receive(s, room).lost == s.lost
  {
    PopOutcome(s, room);
    AfterPopKeeps(s, Position(s));
  }

  /** One call that fetches `items`. */
  lemma FetchAndPop(rx: Rx, log: seq<Entry>, items: seq<Item>, room: nat)
    requires rx.pending == [] && After(log, rx.lastId) == Entries(items)
    ensures Top(Fetch(rx, log)) == (if items == [] then [] else [items[0]])
    ensures Fetch(rx, log).pending != [] <==> items != []
    ensures RecvAny(rx, log, true, room)
         == if items == [] then (rx, NoEntry)
            else (Rx(items[0].id, Reversed(items[1..])), Handing(items[0], room))
  {
    ParsedEntries(items);
    if items != [] {
      ReversedPop(items);
    }
  }

  function AfterFetch(s: Stream, from: nat): Stream
    requires from < |s.all|
  {
    Stream(s.all, s.trimmed, Rx(s.all[from].id, Reversed(s.all[from + 1..])),
           s.taken + [s.all[from]], |s.all|, s.lost + if from < s.next then 0 else from - s.next)
  }

  lemma FetchOutcome(s: Stream, room: nat)
    requires s.rx.pending == [] && s.trimmed <= |s.all| && FirstUnfetched(s) <= |s.all|
    requires After(Retained(s), s.rx.lastId) == Entries(s.all[FirstUnfetched(s)..])
    ensures var from := FirstUnfetched(s);
            Receive(s, room) == if from == |s.all| then s else AfterFetch(s, from)
  {
    var items := s.all[FirstUnfetched(s)..];
    FetchAndPop(s.rx, Retained(s), items, room);
    if items != [] {
      assert items[1..] == s.all[FirstUnfetched(s) + 1..];
    }
  }

  lemma TakingKeepsIncreasing(s: Stream, i: nat)
    requires Inv(s) && i < |s.all| && s.all[i].id > s.rx.lastId
    ensures Increasing(s.taken + [s.all[i]])
  {
  }

  lemma AfterFetchKeeps(s: Stream, from: nat)
    requires Inv(s) && s.rx.pending == [] && from == FirstUnfetched(s) < |s.all|
    requires s.all[from].id > s.rx.lastId
    ensures Inv(AfterFetch(s, from))
  {
    var s' := AfterFetch(s, from);
    TakingKeepsIncreasing(s, from);
    assert s'.lost == 0 ==> s'.taken == s.all[..from + 1];
    assert s.all[from + 1..|s.all|] == s.all[from + 1..];
  }

  lemma ReceiveByFetchKeeps(s: Stream, room: nat)
    requires Inv(s) && s.rx.pending == []
    ensures Inv(Receive(s, room))
  {
    ReadReturnsTheUnfetched(s);
    FetchOutcome(s, room);
    if FirstUnfetched(s) < |s.all| {
      AfterFetchKeeps(s, FirstUnfetched(s));
    }
  }

  lemma ReceiveKeeps(s: Stream, room: nat)
    requires Inv(s)
    ensures Inv(Receive(s, room))
  {
    if s.rx.pending == [] {
      ReceiveByFetchKeeps(s, room);
    } else {
      ReceiveFromBatchKeeps(s, room);
    }
  }
}

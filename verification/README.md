# wire-gauge in Dafny

wire-gauge measures transports by sending fixed-size messages to a peer that echoes them back. This
project models four parts of it that carry real arguments, and proves what they promise:

- **The shared-memory ring** (`crates/backend-shm/src/lib.rs`), a lock-free single-producer,
  single-consumer ring in a file mapping.
  - `RingProtocol` is its step machine: one step is one byte copied or one atomic access, producer
    and consumer interleave freely, the capacity is arbitrary. Memory is release/acquire, not
    sequentially consistent: every location keeps its whole modification order, and a load may
    return any write that is not already overwritten in the loader's past (`Memory.Coherent`). A
    plain payload load may go stale in the same way, so the order of the accesses is what makes the
    protocol work.
  - `RingInvariant` proves that each step keeps the invariant, `RingTheorems` what follows over every
    run: it refines a bounded FIFO queue, races on no byte, never sees a later lap's stamp.
  - `EchoPair` composes two rings with the echo loop: end-to-end prefix, conservation, no deadlock.
  - `Layout`, `LittleEndian`, `FlatRing` bring the same machine down to one flat array of bytes with
    the source's offsets.
  - `MappedRing` is the ring's own code on a mutable byte array (create, open, prefault, `send`,
    `recv`), proved against the queue those bytes hold and the order of its stores. `RingCode` and
    `RingScripts` show that a call, for every script of loads it may see while the other side works
    on, is a run of the step machine that makes those loads and leaves the same bytes.
  - `Handshake` interleaves the process that creates both rings with the one that opens them.
- **The load generator** (`crates/harness/src/scenario.rs`, `crates/harness/src/clock.rs`). `Clock`
  is the two-phase wait; `Schedule` the nanosecond arithmetic; `Pacing` the recursion of the send
  times; `Drain` the rule that ends the receive thread; `Scenario` both loops, and their counts over
  an arbitrary transport; `InOrder` the counts over one that keeps order; `Benchmark` a whole run;
  `BenchmarkTransports` the ring, the byte streams and Redis under it.
- **Framing over byte streams** (`crates/backend-sockets/src/stream.rs`). `Framing` has the read and
  write loops over scripts of short reads, stalls, interrupts, resets and closes; `FramingTheorems`
  shows that the message list is recovered for every chunking.
- **The Redis stream consumer** (`crates/backend-redis/src/lib.rs`). `RedisStream` has the batch
  buffer over a log with trimming; `RedisTheorems` relates it to reading one entry at a time.

Code that updates state in place is a class with methods (`Mapping`, `RingProducer`, `RingConsumer`,
the two `StreamReceiver`s, `Sink`, `MonotonicClock`); each method's contract equates its result and
new state with a function, and the lemmas are about that function. What the operating system, the
network, the server or another process contributes is a parameter: a script of results, or the index
of the write a load returns.

## What the proofs found

- Stamps are not zero "on every lap" (`crates/backend-shm/src/lib.rs:9-10`): they are never cleared,
  and an empty slot reads zero if and only if the first lap is still on
  (`RingTheorems.EmptySlotShowsItsLastStamp`; `RingTheorems.EmptySlotOnTheSecondLap` is a run that
  meets a nonzero one). The equality test is exact all the same
  (`RingTheorems.PolledStampIsNeverFromALaterLap`).
- The drain rule can abandon messages of a lossless transport. For any configuration the exact
  condition is `Drain.CanFallShort`, proved in both directions by `Drain.DrainFallsShortExactly`: with
  slack = a wait's lateness + delivery delay + pause before a timeout takes effect, one second is at
  most (i) the sender's late start + slack, or (ii) the 10 ms lead + slack while the whole schedule
  after its first target fits the slack, or (iii), with more than one message, the longer of interval
  and slowest send + slack. At one message a second (iii) holds for any slack at all, and
  `Drain.OneMessageASecondCanLoseItsLast` is such a run, on schedule and never held up.
- A Redis entry without field `d` leaves the batch in arrival order
  (`crates/backend-redis/src/lib.rs:135`); calling again would hand entries out backwards
  (`RedisTheorems.RetryAfterMissingFieldGoesBackwards`). Both callers stop at the error.
- A Redis entry whose length does not match is consumed all the same
  (`RedisTheorems.EveryTakenEntryIsReturnedOrReported`).

## Model

| member | source | states |
|---|---|---|
| Basics.SameSlotIsALapApart | crates/backend-shm/src/lib.rs:190-193 | two sequence numbers that share a slot are at least a whole capacity apart |
| RingInvariant.FreshKeeps | crates/backend-shm/src/lib.rs:117-128 | a zero-filled ring with both counters 0 satisfies the invariant, for every capacity and message size |
| RingInvariant.LoadedCursor | crates/backend-shm/src/lib.rs:225-226 | however stale, a loaded cursor lies between the cached one and the number of messages received |
| RingInvariant.WriteByteKeeps | crates/backend-shm/src/lib.rs:239-241 | writing any payload byte, in any order, keeps the invariant: no unread message is disturbed |
| RingInvariant.StoreStampKeeps | crates/backend-shm/src/lib.rs:242 | publishing a filled slot keeps the invariant: its payload is complete and older than its stamp |
| RingInvariant.StampExtendsChain | crates/backend-shm/src/lib.rs:190-193 | storing a stamp appends the next lap to its own slot's history and leaves every other slot's history complete, with no clearing in between |
| RingInvariant.StaleStampIsALapBehind | crates/backend-shm/src/lib.rs:272 | any coherent load of the awaited slot returns the awaited stamp or the one a lap before (0 on the first lap), the former exactly for the newest write of a published message |
| RingInvariant.UnreadStampIsNewest | crates/backend-shm/src/lib.rs:12-15 | an unread message's stamp is never overwritten: it is the newest write of its slot |
| RingInvariant.FilledSlotIsFree | crates/backend-shm/src/lib.rs:222-241 | the slot being filled holds no unread message |
| RingInvariant.ReadsOfFilledSlotAreSeen | crates/backend-shm/src/lib.rs:225-241 | every earlier read of the slot being filled happens before the producer's writes, through the cursor it loaded |
| RingInvariant.DrainReadsNewest | crates/backend-shm/src/lib.rs:272-288 | after the stamp matched, a payload load can return only the newest write, which is the byte sent |
| RingInvariant.StoreCursorKeeps | crates/backend-shm/src/lib.rs:289 | releasing a slot keeps the invariant: all its reads are ordered before the cursor store |
| RingInvariant.StepKeeps | crates/backend-shm/src/lib.rs:219-293 | every micro-step of either side keeps the invariant |
| RingTheorems.RunKeeps | crates/backend-shm/src/lib.rs:219-293 | the invariant holds in every state of every interleaving; capacity and message size never change |
| RingTheorems.ReceivedIsAPrefixOfSent | crates/backend-shm/src/lib.rs:4-15 | messages received are a prefix of the messages sent, byte for byte, and at most a capacity is unread |
| RingTheorems.StepRefinesFifo | crates/backend-shm/src/lib.rs:219-293 | each micro-step is one operation of a bounded FIFO queue: the stamp store enqueues, the cursor store dequeues, all else leaves it alone |
| RingTheorems.RunRefinesFifo | crates/backend-shm/src/lib.rs:4-15 | every run is a run of the bounded FIFO queue, from empty |
| RingTheorems.PublishedMessageIsTheCallers | crates/backend-shm/src/lib.rs:220-244 | what a send publishes is the message of the latest call |
| RingTheorems.RecvReturnsTheNextMessage | crates/backend-shm/src/lib.rs:286-291 | a receive that returns hands out the next message in sending order |
| RingTheorems.NoStepRaces | crates/backend-shm/src/lib.rs:239-242 | every plain write is ordered after the other side's reads of that byte, and every plain read after all writes of it |
| RingTheorems.NoTornSlot | crates/backend-shm/src/lib.rs:239-288 | the slot being filled is never the slot being drained |
| RingTheorems.EveryByteReadIsTheByteSent | crates/backend-shm/src/lib.rs:286-288 | each payload byte read is the byte sent, and memory leaves no other value it could have been |
| RingTheorems.PolledStampIsNeverFromALaterLap | crates/backend-shm/src/lib.rs:9-10 | a poll sees the awaited stamp or the previous lap's, never a later one; a match means published, and a load of the newest stamp matches exactly then |
| RingTheorems.EmptySlotShowsItsLastStamp | crates/backend-shm/src/lib.rs:9-10 | a slot awaited and not yet published reads 0 if and only if the first lap is still on; afterwards it reads the stamp of its last use |
| RingTheorems.EmptySlotOnTheSecondLap | crates/backend-shm/src/lib.rs:9-10 | a run of a one-slot ring that waits on an empty slot whose stamp is 1 |
| RingTheorems.NeverUnderflows | crates/backend-shm/src/lib.rs:222-226 | cached cursor <= cursor <= published, for the cached value and for every value a refresh may load, so the unsigned subtraction never wraps |
| RingTheorems.CountersAreBoundedByTheRun | crates/backend-shm/src/lib.rs:201-207 | a run of n steps moves neither counter beyond n |
| RingTheorems.TimedOutSendIsAStutter | crates/backend-shm/src/lib.rs:222-237 | from its call to its timeout a send only loads the cursor: no byte, stamp, message or sequence number comes of it, whatever the consumer does meanwhile |
| RingTheorems.TimedOutRecvIsAStutter | crates/backend-shm/src/lib.rs:262-285 | from its call to its timeout a receive only loads stamps: no byte is read, no cursor stored, the buffer is unchanged and the next call waits for the same message |
| RingTheorems.SendFailsOnlyAfterARefresh | crates/backend-shm/src/lib.rs:222-237 | before any failing send, a cursor load of that same call showed a whole capacity unread; if the load was current, the ring was truly full |
| RingTheorems.BeforeTheAcquireAStaleByteIsReadable | crates/backend-shm/src/lib.rs:272 | the Acquire load is needed: a run after which the stamp is stored and the old payload byte is still readable, until that load |
| EchoPair.PairStepKeeps | crates/backend-shm/src/lib.rs:64-87 | every step of the client's two threads and of the echo keeps both rings' invariants and the echo's handoff |
| EchoPair.SendingKeepsHandoff | crates/backend-shm/src/lib.rs:73-75 | the echo's send publishes the very message it received, once |
| EchoPair.EchoReturnsAPrefix | crates/backend-shm/src/lib.rs:64-87 | the client receives a prefix of what it sent; every message is received, in a ring or the one in the echo's hand; at most 2 * capacity + 1 are in flight |
| EchoPair.ConsumerCanAdvance | crates/backend-shm/src/lib.rs:272-291 | with an unread message the receiver has a step that is no timeout, with fewer micro-steps left after it |
| EchoPair.ProducerCanAdvance | crates/backend-shm/src/lib.rs:222-244 | with room in the ring the sender has a step that is no timeout, with fewer micro-steps left after it |
| EchoPair.UndeliveredMessagesAdvance | crates/backend-shm/src/lib.rs:64-87 | no deadlock: unless the echo has given up, while a message is undelivered the echo or the receive thread has an enabled productive step (no timeout, no missed poll, no refresh that stays full) |
| EchoPair.ProductiveStepsAdvance | crates/backend-shm/src/lib.rs:64-87 | every enabled productive step, of whichever thread, brings delivery strictly closer |
| EchoPair.ProductiveStepsAreBounded | crates/backend-shm/src/lib.rs:64-87 | with no new client sends, every run whatsoever makes at most as many productive steps as its start's measure, plus one for each receive timeout in it |
| EchoPair.NothingLeftToDoMeansDelivered | crates/backend-shm/src/lib.rs:64-87 | unless the echo has given up, a state without an enabled productive step has delivered everything published |
| EchoPair.EverythingCanBeDelivered | crates/backend-shm/src/lib.rs:64-87 | from every reachable state in which the echo has not given up, the echo and the receive thread alone have a schedule that delivers all that was published |
| EchoPair.EchoGivesUpOnlyOnAFullRing | crates/backend-shm/src/lib.rs:229-234 | when the echo's send times out, a whole capacity of echoes was unread by the cursor it loaded, and exactly the message in its hand is dropped |
| LittleEndian.DecodeEncode | crates/backend-shm/src/lib.rs:173-179 | every value below 256^n survives the trip through n bytes |
| LittleEndian.EncodeDecode | crates/backend-shm/src/lib.rs:162-171 | every byte string survives the trip through its number |
| LittleEndian.U64RoundTrip | crates/harness/src/scenario.rs:101-131 | a 64-bit value is recovered from its eight bytes, and no other eight bytes stand for it |
| LittleEndian.BytesOfU64 | crates/harness/src/scenario.rs:101-131 | byte k of a 64-bit value is (v / 256^k) % 256: least significant first |
| LittleEndian.ByteIsDigit | crates/backend-shm/src/lib.rs:173-179 | so for any width |
| Layout.StrideHoldsASlot | crates/backend-shm/src/lib.rs:102-105 | a stride is whole cache lines, holds stamp and payload, and wastes less than a line |
| Layout.SlotsFillTheMapping | crates/backend-shm/src/lib.rs:102-105 | the slots lie back to back from byte 4096 on and the last one ends exactly with the mapping |
| Layout.SlotInsideMapping | crates/backend-shm/src/lib.rs:102-105 | every slot lies behind the header and inside the mapping, 8-aligned and on a line boundary |
| Layout.LiveSlotsShareNoCacheLine | crates/backend-shm/src/lib.rs:190-198 | sequence numbers less than a lap apart use disjoint cache lines |
| Layout.CursorHasItsOwnCacheLine | crates/backend-shm/src/lib.rs:33-39 | the header words are disjoint and the cursor shares a line with no header word and no slot |
| Layout.OffsetsFitInU64 | crates/backend-shm/src/lib.rs:102-105 | with 65 536 slots no offset overflows 64 bits for messages up to 2^46 bytes |
| FlatRing.WriteByteSimulates | crates/backend-shm/src/lib.rs:195-198 | a payload byte stored at its offset changes that byte of that slot only |
| FlatRing.StoreStampSimulates | crates/backend-shm/src/lib.rs:190-193 | a stamp stored at its offset changes that stamp only |
| FlatRing.StoreCursorSimulates | crates/backend-shm/src/lib.rs:186-188 | a cursor store changes the cursor only |
| FlatRing.FlatArraySimulatesProtocol | crates/backend-shm/src/lib.rs:173-198 | one flat byte array follows the slot-array protocol step by step and never touches the static header, while sequence numbers fit 64 bits |
| FlatRing.SimulatedBytesHoldTheQueue | crates/backend-shm/src/lib.rs:4-15 | the bytes of a reachable ring hold exactly its queue: the cursor, each unread message stamped and whole, no stamp beyond the last |
| FlatRing.BytesHoldTheQueueOverEveryRun | crates/backend-shm/src/lib.rs:117-293 | from a zero-filled mapping on, over every run shorter than 2^64 steps, the bytes hold exactly the queue and keep their header |
| FlatRing.BytewiseCopyIsOneStore | crates/backend-shm/src/lib.rs:239-241 | copying a payload byte by byte leaves the bytes one copy of the whole leaves |
| MappedRing.Mapping.Create | crates/backend-shm/src/lib.rs:107-129 | a new ring carries matching header words and holds the empty queue; its stores are one per page, then size and capacity, and the magic word last |
| MappedRing.Mapping.Prefault | crates/backend-shm/src/lib.rs:162-171 | every page's first word, in order, is rewritten with the value it holds; all stays inside the mapping and nothing changes |
| MappedRing.OpenExisting | crates/backend-shm/src/lib.rs:131-151 | a file is accepted if and only if its length, magic, message size and capacity match, and then every page is touched; either way it is unchanged |
| MappedRing.Mapping.Publish | crates/backend-shm/src/lib.rs:238-242 | stores the payload at its slot and only then the stamp, and nothing else |
| MappedRing.Mapping.Consume | crates/backend-shm/src/lib.rs:286-289 | copies the payload out and only then stores the cursor, and nothing else |
| MappedRing.PublishingAppends | crates/backend-shm/src/lib.rs:238-243 | payload and stamp written for the next sequence number append its message to the queue in the bytes and disturb no queued one |
| MappedRing.CursorStoreTakes | crates/backend-shm/src/lib.rs:289 | storing the cursor removes the first message of the queue and no other |
| MappedRing.RingProducer.AwaitRoom | crates/backend-shm/src/lib.rs:223-237 | the refresh loop ends with room exactly if some poll shows it and none before was late, full exactly if some poll is late and none up to it showed room; the cached cursor is the last one polled |
| MappedRing.RingProducer.Send | crates/backend-shm/src/lib.rs:220-245 | succeeds exactly with room by the cached cursor or by a polled one before any poll past five seconds, then stores payload and stamp in that order and appends exactly its message; it fails exactly at such a late poll, and then nothing changes but the cached cursor |
| MappedRing.GivesUpExactly | crates/backend-shm/src/lib.rs:264-285 | the wait is given up if and only if, after some number m >= 1280 of polls at which the clock is looked at (a multiple of 256, counted in 32 bits), all m have missed and the clock is more than a second past what it read after the 1024th |
| MappedRing.NoEarlyTimeout | crates/backend-shm/src/lib.rs:264-285 | a receive times out only after at least 1280 misses in a row, the last more than a second after the 1024th |
| MappedRing.RingConsumer.Recv | crates/backend-shm/src/lib.rs:260-292 | times out exactly when GivesUpExactly says and changes nothing; otherwise a poll that matches makes it return the first queued message, payload copied before the cursor is stored, and remove exactly it |
| MappedRing.AwaitStamp | crates/backend-shm/src/lib.rs:264-285 | for every script of polls the wait loop gives up exactly as GivesUpExactly says, and otherwise matches exactly if some poll does |
| RingCode.CopyAndStamp | crates/backend-shm/src/lib.rs:239-243 | copying the rest of a payload byte by byte and stamping is a run of the protocol that leaves the bytes of two plain stores and publishes the message |
| RingScripts.SendIsTheRunOfItsLoads | crates/backend-shm/src/lib.rs:220-245 | for every script of coherent loads, however stale, with the consumer's steps in between and any clock: the call is the run of the protocol that makes those loads, succeeds and caches exactly as the code does, publishes its message and leaves the code's bytes, or times out having done nothing but load |
| RingScripts.SendsCallersAreMet | crates/backend-shm/src/lib.rs:220-245 | in every such wait the bytes hold a queue that the send's sequence number continues and no poll is ahead of the consumer, which is all MappedRing.RingProducer.Send asks for |
| RingScripts.RecvIsTheRunOfItsLoads | crates/backend-shm/src/lib.rs:260-292 | for every script of coherent stamp loads with the producer's steps in between: the call is the run that makes those loads, gets a message exactly when the code does, the first of the queue, copied out of the code's bytes, or times out having done nothing but load |
| RingScripts.LastPollDecides | crates/backend-shm/src/lib.rs:272-285 | a poll loop still waiting before its last poll matches if and only if that poll does, whatever the miss counter and the deadline |
| Handshake.StepKeeps | crates/backend-shm/src/lib.rs:107-171 | every step of creator, opener and message traffic keeps the handshake invariant |
| Handshake.AcceptedRingIsInitialised | crates/backend-shm/src/lib.rs:124-150 | whenever the opener looked and however stale its loads, a ring past its checks is completely created with the opener's own size and capacity, because the magic word is stored last |
| Handshake.PrefaultUndoesNothing | crates/backend-shm/src/lib.rs:153-171 | no rewrite of a page's first word, by either side, undoes a store made since it was read |
| Handshake.OpenAfterReadySucceeds | crates/backend-shm/src/lib.rs:17-19 | a matching client that starts after READY is never refused |
| Clock.SpinSleepUntil | crates/harness/src/clock.rs:12-25 | never returns before the target; a sleep that overshoots by up to 300 us costs one clock tick, a longer one what it overshoots beyond that; a past target costs one reading; awake for at most 300 us and two readings; terminates |
| Schedule.ScheduleFillsItsWindow | crates/harness/src/scenario.rs:78-80 | total * interval fits the configured window and falls short of it by less than a nanosecond a message |
| Schedule.ScheduleFitsU64 | crates/harness/src/scenario.rs:78-103 | in a window below 2^64 ns no seq * interval wraps, nor do the message counts up to a message a nanosecond |
| Schedule.BothSidesAgreeOnTheTarget | crates/harness/src/scenario.rs:101-131 | the receiver reads back the sender's sequence number and so computes the same intended time; the rest of the buffer is untouched |
| Pacing.IdealIsTheLongestChain | crates/harness/src/scenario.rs:127-134 | send k starts at the end of the longest chain of back-to-back sends: from some message j <= k that left on its target, or from the initial readiness |
| Pacing.StartsFollowTheRecursion | crates/harness/src/scenario.rs:127-134 | observed starts follow the max-plus recursion up to the accumulated lateness of the waits, exactly when waits are exact |
| Pacing.SlowSendsAccumulateLag | crates/harness/src/scenario.rs:129-133 | if every send before the k-th takes R or more, the k-th is late by no less than k * (R - interval) |
| Pacing.FastSendsStayOnSchedule | crates/harness/src/scenario.rs:127-134 | sends within the interval keep the lag within one wait's lateness |
| Pacing.ZeroLagExactlyWhenEverySendFits | crates/harness/src/scenario.rs:127-134 | with exact waits there is no lag if and only if the thread was ready in time and every send but the last fits the interval |
| Pacing.GapsAreBounded | crates/harness/src/scenario.rs:127-134 | consecutive sends are at most the longer of interval and send apart, plus one late wait |
| Drain.NoCallTimesOut | crates/harness/src/scenario.rs:96-119 | for any sender on a lossless in-order transport with gap + delay + pause below the timeout, no receive call times out while a message is missing |
| Drain.EveryCallCounts | crates/harness/src/scenario.rs:96-119 | hence n calls receive n messages |
| Drain.LosslessRunIsComplete | crates/harness/src/scenario.rs:96-119 | with gap + delay + pause below the timeout the receive thread takes one message per call and never drains early; after total calls it has ended with received = total and measured = total - warmup |
| Drain.DrainFallsShortExactly | crates/harness/src/scenario.rs:78-135 | for every rate, warmup and duration, with that configuration's own number of messages: some run is abandoned by the drain rule if and only if CanFallShort holds of the limits, and then one is in which the receive thread is never idle and never late |
| Drain.LaterMessageOverdue | crates/harness/src/scenario.rs:109-134 | a call can time out on a message after the first only if interval or slowest send, with the slack, reaches the timeout |
| Drain.FirstMessageOverdue | crates/harness/src/scenario.rs:82-116 | on the first message it can only if the sender is late by that much, or the lead is, and then the call ends within the slack after the schedule's start |
| Drain.ShortRunIsReported | crates/harness/src/scenario.rs:109-116 | a run in which a timed-out call finds the flag set ends with the drain break and reports fewer received than sent |
| Drain.OtherRunsAreComplete | crates/harness/src/scenario.rs:96-119 | any other run takes every message as it comes, goes on through timeouts, and at total ends Complete with measured = total - warmup; the sample of message k is the time from start + k * interval to the end of its call, clamped to [1 ns, one hour] |
| Drain.PacedRunReceivesEverything | crates/harness/src/scenario.rs:86-142 | a paced run at limits where CanFallShort fails is never abandoned, whatever times out on the way: once total messages are in, the thread is complete with received = total and measured = total - warmup; each sample is the message's send lag plus the time from that send to the end of its call |
| Drain.OneMessageASecondCanLoseItsLast | crates/harness/src/scenario.rs:109-116 | a run at rate 1, warmup and duration 1 s, every send on schedule, every echo within 21 ms and nothing held up, that abandons its last message |
| Scenario.WaitForTurn | crates/harness/src/scenario.rs:128-130 | a turn starts at or after its target and the thread's readiness, late by two clock ticks and what a sleep overshoots beyond 300 us |
| Scenario.SendLoop | crates/harness/src/scenario.rs:124-135 | the messages go out in order with their sequence numbers, each turn kept within two clock ticks and what a sleep overshoots beyond 300 us; one lag sample per completed send, the time since start + k * interval clamped to [1 ns, one hour]; stops at the first failure |
| Scenario.ReceiveLoop | crates/harness/src/scenario.rs:86-121 | counts the script of call results as the specification Collect does |
| Scenario.LatenciesAreFromTheSchedule | crates/harness/src/scenario.rs:98-107 | for every script of calls the samples are those of the messages taken in at or beyond the warmup, in order, each the time from start + seq * interval to its arrival, clamped to [1 ns, one hour] |
| Scenario.CollectCountsTaken | crates/harness/src/scenario.rs:96-119 | received counts the messages taken in, measured those at or beyond the warmup; Complete if and only if total were received |
| Scenario.Accounting | crates/harness/src/report.rs:116-119 | for every transport, duplicating ones included, received <= total, so the report's dropped never underflows, and measured is the number of latencies |
| Scenario.SplitCount | crates/harness/src/scenario.rs:102-107 | without duplicates, the measured count is the number of distinct sequence numbers beyond the warmup |
| Scenario.MeasuredWithoutDuplicates | crates/harness/src/scenario.rs:78-107 | without duplicates received - warmup <= measured <= total - warmup, and a complete run measures exactly total - warmup |
| Scenario.EndsSoonAfterDone | crates/harness/src/scenario.rs:109-117 | once the flag reads true, at most one call more than messages are missing is made |
| InOrder.InOrderAccounting | crates/harness/src/scenario.rs:96-119 | if the calls return a prefix of what the sender put on the wire, every message is counted once, in order, and exactly those beyond the warmup are measured |
| InOrder.LatencyOfTheNth | crates/harness/src/scenario.rs:98-107 | on a transport that keeps order the sample of message k is the (k - warmup)th, taken from start + k * interval |
| InOrder.QuietDrains | crates/harness/src/scenario.rs:109-116 | a timeout that finds the flag set short of total ends the thread Drained with received < total |
| InOrder.EndsAtTheFirstStop | crates/harness/src/scenario.rs:96-119 | the first timeout that finds the flag set, close or failure before total messages are in decides whether the thread ends Drained, Closed or Failed, with what arrived before it received |
| InOrder.QuietNeverEnds | crates/harness/src/scenario.rs:96-119 | timeouts that find it unset change nothing: every message that arrives is received, and the thread ends exactly at total |
| Benchmark.RunRtt | crates/harness/src/scenario.rs:67-150 | a whole run for any sending and receiving script: it fails exactly when a send or the receive thread does; otherwise sent = total, received <= sent, measured = number of latencies, one lag per send, starts paced by the recursion |
| Benchmark.LosslessRunMeasuresEverything | crates/harness/src/scenario.rs:67-150 | over a lossless in-order transport at limits where CanFallShort fails, the run is complete once total messages are in, with everything received and rate * duration messages measured; each sample is the message's send lag plus the time from that send to the end of its call |
| BenchmarkTransports.RingCallsAreTimedCalls | crates/backend-shm/src/lib.rs:260-292 | a receive of the ring is a call as the drain rule takes it: a match comes no earlier than the message, and a timeout waited a full second and missed the message at its last load, at most a pause before the thread went on |
| BenchmarkTransports.SendsAreTheCalls | crates/backend-shm/src/lib.rs:220-245 | along every run of the two rings, with a sender that stops at its first failed send, the messages published are the messages passed to send, but for the one under way or the one that failed |
| BenchmarkTransports.ArrivalsAreTheRings | crates/backend-shm/src/lib.rs:259-292 | along every run the messages the client's receive calls return are exactly those its ring has handed out, in order |
| BenchmarkTransports.RingCountsEachOnce | crates/backend-shm/src/lib.rs:64-87 | for every run of the two rings, wire and call results both read off that run: the receive thread counts each message once, in sending order |
| BenchmarkTransports.StreamCountsEachOnce | crates/backend-sockets/src/stream.rs:10-85 | over byte streams, for any chunking with at most one stall in a frame, the thread's messages are exactly the wire and each is counted once |
| BenchmarkTransports.ArrivalsAreTheStreams | crates/backend-redis/src/lib.rs:156-167 | along every run within the cap the client's receive calls return exactly the entries taken off its stream: none is reported as an error |
| BenchmarkTransports.RedisCountsEachOnce | crates/backend-redis/src/lib.rs:56-102 | for every run of the two Redis streams within the cap, wire and call results both read off that run: each message is counted once, in sending order |
| Scenario.ThreadsAgree | crates/harness/src/scenario.rs:96-139 | in every interleaving of the two threads the drain break happens only after all sends, and every message counted was sent |
| Scenario.LoopFollowsTheRun | crates/harness/src/scenario.rs:96-121 | the receive loop, run over what an interleaving lets it see, takes in the same messages and ends the same way |
| Scenario.ScenarioAccounting | crates/harness/src/scenario.rs:86-149 | the accounting of whole runs over any transport: never more received than total, drain only after all sends, and without duplicates never more than was sent |
| Framing.StreamReceiver.Receive | crates/backend-sockets/src/stream.rs:19-63 | the filling loop returns what the specification Recv says for that script, and on success the buffer is the message |
| Framing.Sink.WriteAllBytes | crates/backend-sockets/src/stream.rs:11-13 | appends all bytes, or a prefix before it fails, across short and interrupted writes |
| Framing.WriteAllWritesAPrefix | crates/backend-sockets/src/stream.rs:11-13 | short writes and interrupts never reorder, drop or repeat a byte; without a refusal everything is written |
| Framing.WriteFailsExactly | crates/backend-sockets/src/stream.rs:11-13 | a write fails if and only if a refusal or an empty accept comes before its last byte, having written what the accepts before that took |
| Framing.FillConserves | crates/backend-sockets/src/stream.rs:71-82 | a frame takes exactly its own bytes off the stream |
| Framing.FillBuffer | crates/backend-sockets/src/stream.rs:71-82 | the echo's inner loop reads what the specification Fill says, and the buffer is the frame |
| Framing.EchoLoop | crates/backend-sockets/src/stream.rs:68-85 | writes back what the specification Echo says and ends as it does |
| FramingTheorems.FlattenIsInjective | crates/backend-sockets/src/stream.rs:1-2 | a concatenation of equal-sized frames comes from one frame list only |
| FramingTheorems.EchoWritesWholeFrames | crates/backend-sockets/src/stream.rs:68-85 | for every chunking the echo writes back all complete frames of its input and no part of an incomplete one, and ends normally exactly when its input ends by close or reset |
| FramingTheorems.InputEndsAt | crates/backend-sockets/src/stream.rs:71-82 | the echo's input ends at the first close, reset, timeout or failure; the first two are clean ends, the others errors |
| FramingTheorems.EchoInventsNothing | crates/backend-sockets/src/stream.rs:68-85 | even with failing writes the echo writes only a prefix of that, and ends normally if and only if it wrote all of it and its input ended cleanly |
| FramingTheorems.ReceivedFramesAreAPrefix | crates/backend-sockets/src/stream.rs:18-63 | for every script, failing ones included, the messages received are the first frames of the stream |
| FramingTheorems.DeliversEverythingUnlessOverstalled | crates/backend-sockets/src/stream.rs:46-57 | an unbroken stream is delivered whole and ends Closed or UnexpectedEof, unless some frame meets two stalls in its middle; exactly then the receiver gives up as stalled, having delivered the frames before the first such |
| FramingTheorems.BrokenStreamFails | crates/backend-sockets/src/stream.rs:24-60 | a stream that is reset, fails or closes, whatever would follow, delivers the whole frames before that; a reset or failure is an error with or without a frame in hand, a close exactly with one; a frame overstalled before it ends the run there |
| FramingTheorems.TimesOutExactly | crates/backend-sockets/src/stream.rs:35-45 | a call times out if and only if a stall comes first, interrupts aside, and consumes nothing else |
| FramingTheorems.SenderConcatenates | crates/backend-sockets/src/stream.rs:10-14 | the sender puts exactly the concatenation of its messages on the wire |
| FramingTheorems.SenderReportsFailures | crates/backend-sockets/src/stream.rs:10-14 | with failing writes the sender puts a prefix of that on the wire and reports success exactly if it is all there |
| FramingTheorems.RoundTrip | crates/backend-sockets/src/stream.rs:10-85 | sender, echo loop and receiver together return exactly the messages sent, in order, then the close, for every chunking on both legs with at most one stall inside a frame |
| RedisStream.StreamReceiver.ReceiveAny | crates/backend-redis/src/lib.rs:124-153 | fetch, reverse and pop leave the state and outcome the specification RecvAny says, error paths included, and the buffer starts with the entry |
| RedisStream.StreamReceiver.ReceiveMessage | crates/backend-redis/src/lib.rs:157-166 | a message is returned only if it fills the buffer exactly, and then the buffer is the entry |
| RedisStream.StreamReceiver.Reverse | crates/backend-redis/src/lib.rs:139-140 | the batch is reversed in place |
| RedisStream.ReadReturnsTheUnfetched | crates/backend-redis/src/lib.rs:125-130 | reading after the last id handed out returns exactly the retained entries not fetched before |
| RedisStream.AppendKeeps | crates/backend-redis/src/lib.rs:95-102 | an append that trims anything beyond the cap keeps the consumer's invariant, whatever the batch holds |
| RedisStream.ReceiveKeeps | crates/backend-redis/src/lib.rs:124-153 | a receive keeps it: the batch is a stretch of the log in stack order right behind the last id handed out |
| RedisTheorems.HandedOutInOrder | crates/backend-redis/src/lib.rs:124-153 | over every run ids are handed out strictly increasing, each entry handed out, batched, lost or unfetched; nothing is lost if and only if the hand-outs are the log's own prefix |
| RedisTheorems.FetchedEntriesSurviveTrimming | crates/backend-redis/src/lib.rs:109-110 | a fetched entry is handed out next even if the server has trimmed it |
| RedisTheorems.EveryTakenEntryIsReturnedOrReported | crates/backend-redis/src/lib.rs:142-166 | a call takes at most one entry; it is returned if and only if its length matches, else reported as too large or of the wrong length; a call that takes none times out |
| RedisTheorems.BatchAgreesWithOneAtATime | crates/backend-redis/src/lib.rs:124-153 | batching hands out what reading one entry at a time would, if and only if there is no batch or its next entry is still retained |
| RedisTheorems.OneCallExactly | crates/backend-redis/src/lib.rs:124-166 | a receive times out if and only if no batch is in hand and the server answers that it holds nothing beyond the last id; unanswered it is an error and the state is as it was; a missing field is an error exactly if a later entry lacks it; a batch in hand is handed out whether or not the server answers |
| RedisTheorems.FirstLaterEntryIsHandedOut | crates/backend-redis/src/lib.rs:125-150 | without a batch in hand the call hands out, or reports by its length, the first entry the server holds beyond the last id |
| RedisTheorems.SkippedEntriesAreNeverHandedOut | crates/backend-redis/src/lib.rs:125-145 | when a fetch returns something, an unfetched entry trimmed before it is never handed out in any later state, and every other unfetched entry is in hand at once |
| RedisTheorems.NothingIsLostWithinTheCap | crates/backend-redis/src/lib.rs:95-102 | a consumer never further behind than the cap loses nothing, and its hand-outs are the log's prefix |
| RedisTheorems.TrimmingReachesTheBacklogExactlyBeyondTheCap | crates/backend-redis/src/lib.rs:95-102 | the server may trim an unfetched entry at an append if and only if one is trimmed already or the append takes the backlog beyond the cap |
| RedisTheorems.MissingFieldLeavesTheBatchUnreversed | crates/backend-redis/src/lib.rs:131-140 | the early error occurs if and only if a fetched entry lacks its field; the entries before it stay unreversed, which is stack order if and only if there is at most one |
| RedisTheorems.RetryAfterMissingFieldGoesBackwards | crates/backend-redis/src/lib.rs:131-145 | a concrete reply after which retries hand out entry 2, then entry 1, and leave the last id back at entry 1 |
| RedisTheorems.ChainStepKeeps | crates/backend-redis/src/lib.rs:56-72 | every step of client and echo keeps both streams' invariants and the echo's handoff |
| RedisTheorems.EchoedMessagesAreAccounted | crates/backend-redis/src/lib.rs:56-72 | every message sent is received, batched, lost, unfetched or in the echo's hand; with no loss the client gets a prefix of what it sent |
| RedisTheorems.EchoDropsNothingWithinTheCap | crates/backend-redis/src/lib.rs:56-102 | while neither backlog outgrows the cap the client receives a prefix of what it sent, payload for payload |

## Left out

- RingTheorems.CountersAreBoundedByTheRun: sequence numbers are unbounded; the 64-bit counters are covered by this bound (a run below 2^64 steps), not by modelling wrap-around.
- RingTheorems.TimedOutSendIsAStutter: in the step machine a wait may time out after any failed load; the clock readings that decide it are in MappedRing and RingScripts.
- MappedRing.RingProducer.Send: one thread's code, so the consumer appears as the loads it answers and the queue it leaves behind; RingScripts ties it to the interleavings of the step machine during the wait, and the copy after it is then one uninterrupted stretch.
- MappedRing.RingConsumer.Recv: a script of polls used up before the wait is over leaves the call StillWaiting, as FullSoFar does for RingProducer.Send; the u32 miss counter wraps as in a release build.
- EchoPair.EverythingCanBeDelivered: exhibits one schedule; EchoPair.ProductiveStepsAreBounded and EchoPair.NothingLeftToDoMeansDelivered speak of all of them. That the operating system lets both processes run is not modelled.
- EchoPair.EchoReturnsAPrefix: each ring keeps its own synchronisation clocks, so a thread carries no ordering from one ring to the other; that only admits more behaviours than the hardware.
- Handshake.PrefaultUndoesNothing: the first words of pages are read and rewritten sequentially consistently; the header words are not.
- Layout.OffsetsFitInU64: messages above 2^46 bytes, whose layout arithmetic would overflow, are not modelled further.
- Schedule.ScheduleFitsU64: counts beyond one message a nanosecond and windows of 2^64 ns and more are not modelled further.
- Scenario.SendLoop: the script names a duration and a result for each send; which transport is behind it does not appear.
- Scenario.Accounting: a transport that corrupts the sequence header could make the source's seq * interval_ns exceed 64 bits; the model multiplies without bound there (for headers the sender wrote, Schedule.ScheduleFitsU64 excludes it). Latencies are clamped to [1, one hour] as the histogram does; its three-digit bucket rounding and quantiles are not modelled.
- Framing.EchoLoop: message size 0 is excluded, because there the source's loop never ends (FramingTheorems.EmptyMessagesNeverEnd: one turn leaves stream and socket as they were); the benchmark itself insists on at least 8 bytes.
- RedisTheorems.HandedOutInOrder: claims nothing about calls after a missing-field error, where both callers stop; the two lemmas on that error say what happens if one did not.
- RedisTheorems.NothingIsLostWithinTheCap: the cap is a parameter (the source uses 200 000), and approximate trimming is any trim that keeps at least that many entries.
- BenchmarkTransports.RingCallsAreTimedCalls: ties the ring's receive calls to the timed calls of Drain; for the other transports their one-second timeout is taken to work so.
- Drain.DrainFallsShortExactly: sends that fail, and times beyond 64 bits, do not occur in its runs.
- Files, mappings, sockets, the Redis server and its client library, Instant and sleep: scripts and parameters stand in for them; an existing ring file, its removal and file-system errors are not modelled.
- The Aeron, iceoryx2, NATS and Kafka backends: their behaviour is in libraries; to Scenario they are an arbitrary transport.
- TCP, UDS and UDP connection set-up, process and broker lifecycle, command line, reports, charts and infrastructure scripts: plumbing and presentation without a comparable argument.
- Speed: what faults, contended lines or jitter cost is not modelled; of the measures against them only the cache-line layout is proved.

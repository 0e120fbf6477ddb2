/** Creating and opening the two rings: the echo process creates `c2s`, then `s2c`; the client
    opens them in the same order, possibly too early; only then do messages flow.

    A page's first word is what `prefault` reads and writes back. The first page's word is the
    magic word. Header loads may return any coherent write. */
module Handshake {
  import opened Basics
  import opened Memory
  import opened Layout

  datatype Held = Nothing | Word(v: nat)

  /** One ring file: its header words as histories, and the current first word of every page. */
  datatype File = File(
    sized: bool, magic: seq<Write<nat>>, size: seq<Write<nat>>, slots: seq<Write<nat>>, pages: seq<nat>)

  datatype CreatorPhase = Creating | Touching | PutSlots | PutMagic
  /** `ring` is the ring being created; 2 once both are and READY is announced. */
  datatype Creator = Creator(
    ring: nat, phase: CreatorPhase, page: nat, held: Held, now: nat, msgSize: nat, capacity: Positive)

  datatype OpenerPhase = CheckLength | CheckMagic | CheckSize | CheckSlots | TouchPages | Failed
  /** `ring` is the ring being opened; 2 once both are open. */
  datatype Opener = Opener(
    ring: nat, phase: OpenerPhase, page: nat, held: Held, seen: nat, msgSize: nat, capacity: Positive)

  /** `flowing`: the client has sent something, so the echo may store into `s2c`. */
  datatype World = World(files: seq<File>, c: Creator, o: Opener, flowing: bool)

  function Pages(msgSize: nat, capacity: Positive): nat {
    DivCeil(Total(msgSize, capacity), PAGE)
  }

  function Blank(pages: nat): File {
    File(false, [Write(0, 0)], [Write(0, 0)], [Write(0, 0)], seq(pages, _ => 0))
  }

  function Boot(msgSize: nat, capacity: Positive, openerSize: nat, openerCapacity: Positive): World {
    var f := Blank(Pages(msgSize, capacity));
    World([f, f],
          Creator(0, Creating, 0, Nothing, 0, msgSize, capacity),
          Opener(0, CheckLength, 0, Nothing, 0, openerSize, openerCapacity),
          false)
  }

  datatype Step =
    | CreateFile | CreatorRead | CreatorRewrite | StoreSize | StoreSlots | StoreMagic
    | SeeReady | OpenLength | LoadMagic(j: nat) | LoadSize(j: nat) | LoadSlots(j: nat)
    | OpenerRead | OpenerRewrite | OpenDone
    | Message(ring: nat, page: nat, v: nat)

  ghost predicate Shaped(w: World) {
    && |w.files| == 2
    && forall i :: 0 <= i < 2 ==> |w.files[i].pages| == Pages(w.c.msgSize, w.c.capacity)
  }

  ghost predicate Enabled(w: World, st: Step)
    requires Shaped(w)
  {
    var pages := Pages(w.c.msgSize, w.c.capacity);
    match st
    case CreateFile => w.c.ring < 2 && w.c.phase.Creating?
    case CreatorRead => w.c.ring < 2 && w.c.phase.Touching? && w.c.held.Nothing? && w.c.page < pages
    case CreatorRewrite => w.c.ring < 2 && w.c.held.Word? && w.c.page < pages
    case StoreSize => w.c.ring < 2 && w.c.phase.Touching? && w.c.held.Nothing? && w.c.page == pages
    case StoreSlots => w.c.ring < 2 && w.c.phase.PutSlots?
    case StoreMagic => w.c.ring < 2 && w.c.phase.PutMagic?
    case SeeReady => w.c.ring == 2
    case OpenLength => w.o.ring < 2 && w.o.phase.CheckLength?
    case LoadMagic(j) => w.o.ring < 2 && w.o.phase.CheckMagic? && Coherent(w.files[w.o.ring].magic, j, w.o.seen)
    case LoadSize(j) => w.o.ring < 2 && w.o.phase.CheckSize? && Coherent(w.files[w.o.ring].size, j, w.o.seen)
    case LoadSlots(j) => w.o.ring < 2 && w.o.phase.CheckSlots? && Coherent(w.files[w.o.ring].slots, j, w.o.seen)
    case OpenerRead => w.o.ring < 2 && w.o.phase.TouchPages? && w.o.held.Nothing? && w.o.page < pages
    case OpenerRewrite => w.o.ring < 2 && w.o.held.Word? && w.o.page < pages
    case OpenDone => w.o.ring < 2 && w.o.phase.TouchPages? && w.o.held.Nothing? && w.o.page == pages
    // A stamp or payload store into a later page's first word: the client's into c2s once it is
    // connected, the echo's into s2c once something reached it.
    case Message(i, p, v) => 1 <= p < pages && ((i == 0 && w.o.ring == 2) || (i == 1 && w.flowing && w.c.ring == 2))
  }

  function WithPage(w: World, i: nat, p: nat, v: nat): World
    requires i < |w.files| && p < |w.files[i].pages|
  {
    w.(files := w.files[i := w.files[i].(pages := w.files[i].pages[p := v])])
  }

  ghost function Apply(w: World, st: Step): World
    requires Shaped(w) && Enabled(w, st)
  {
    match st
    case CreateFile =>
      w.(files := w.files[w.c.ring := w.files[w.c.ring].(sized := true)], c := w.c.(phase := Touching, page := 0))
    case CreatorRead => w.(c := w.c.(held := Word(w.files[w.c.ring].pages[w.c.page])))
    case CreatorRewrite =>
      var w1 := WithPage(w, w.c.ring, w.c.page, w.c.held.v);
      var f := w1.files[w.c.ring];
      var f' := if w.c.page == 0 then f.(magic := f.magic + [Write(w.c.held.v, w.c.now + 1)]) else f;
      w1.(files := w1.files[w.c.ring := f'],
          c := w.c.(held := Nothing, page := w.c.page + 1, now := w.c.now + 1))
    case StoreSize =>
      var f := w.files[w.c.ring];
      w.(files := w.files[w.c.ring := f.(size := f.size + [Write(w.c.msgSize, w.c.now + 1)])],
         c := w.c.(phase := PutSlots, now := w.c.now + 1))
    case StoreSlots =>
      var f := w.files[w.c.ring];
      w.(files := w.files[w.c.ring := f.(slots := f.slots + [Write(w.c.capacity, w.c.now + 1)])],
         c := w.c.(phase := PutMagic, now := w.c.now + 1))
    case StoreMagic =>
      var f := w.files[w.c.ring];
      w.(files := w.files[w.c.ring := f.(magic := f.magic + [Write(MAGIC, w.c.now + 1)],
                                         pages := if f.pages == [] then [] else f.pages[0 := MAGIC])],
         c := w.c.(phase := Creating, ring := w.c.ring + 1, now := w.c.now + 1))
    case SeeReady => w.(o := w.o.(seen := Max(w.o.seen, w.c.now)))
    case OpenLength =>
      var fits := w.files[w.o.ring].sized && Total(w.o.msgSize, w.o.capacity) == Total(w.c.msgSize, w.c.capacity);
      w.(o := w.o.(phase := if fits then CheckMagic else Failed))
    case LoadMagic(j) =>
      var x := w.files[w.o.ring].magic[j];
      w.(o := w.o.(seen := Max(w.o.seen, x.at), phase := if x.val == MAGIC then CheckSize else Failed))
    case LoadSize(j) =>
      var x := w.files[w.o.ring].size[j];
      w.(o := w.o.(seen := Max(w.o.seen, x.at), phase := if x.val == w.o.msgSize then CheckSlots else Failed))
    case LoadSlots(j) =>
      var x := w.files[w.o.ring].slots[j];
      w.(o := w.o.(seen := Max(w.o.seen, x.at), page := 0,
                   phase := if x.val == w.o.capacity then TouchPages else Failed))
    case OpenerRead => w.(o := w.o.(held := Word(w.files[w.o.ring].pages[w.o.page])))
    case OpenerRewrite =>
      WithPage(w, w.o.ring, w.o.page, w.o.held.v).(o := w.o.(held := Nothing, page := w.o.page + 1))
    case OpenDone => w.(o := w.o.(ring := w.o.ring + 1, phase := CheckLength))
    case Message(i, p, v) => WithPage(w, i, p, v).(flowing := true)
  }

  // -------------------------------------------------------------- invariant

  /** File `i` while the creator has not stored its magic word, and after. */
  ghost predicate FileInv(f: File, i: nat, c: Creator) {
    && (forall j :: 0 <= j < |f.magic| ==> f.magic[j].at <= c.now)
    && f.magic != [] && f.size != [] && f.slots != []
    && (c.ring < i || (c.ring == i && c.phase.Creating?) ==> !f.sized)
    && (c.ring > i || (c.ring == i && !c.phase.Creating?) ==> f.sized)
    && (c.ring > i || (c.ring == i && (c.phase.PutSlots? || c.phase.PutMagic?)) ==>
          Newest(f.size).val == c.msgSize && Newest(f.size).at <= c.now)
    && (c.ring > i || (c.ring == i && c.phase.PutMagic?) ==>
          Newest(f.slots).val == c.capacity && Newest(f.slots).at <= c.now)
    && (c.ring <= i ==>
          && (forall j :: 0 <= j < |f.magic| ==> f.magic[j].val == 0)
          && (forall p :: 0 <= p < |f.pages| ==> f.pages[p] == 0))
    && (c.ring > i ==>
          && Newest(f.magic).val == MAGIC
          && Newest(f.size).at <= Newest(f.magic).at && Newest(f.slots).at <= Newest(f.magic).at
          && (forall j :: 0 <= j < |f.magic| - 1 ==> f.magic[j].val == 0))
  }

  ghost predicate CreatorInv(w: World)
    requires Shaped(w)
  {
    && w.c.ring <= 2
    && (w.c.ring == 2 ==> w.c.held.Nothing?)
    && (w.c.held.Word? ==>
          && w.c.ring < 2 && w.c.phase.Touching? && w.c.page < Pages(w.c.msgSize, w.c.capacity)
          && w.files[w.c.ring].pages[w.c.page] == w.c.held.v)
  }

  ghost predicate PastMagic(o: Opener) {
    o.phase.CheckSize? || o.phase.CheckSlots? || o.phase.TouchPages?
  }

  ghost predicate OpenerInv(w: World)
    requires Shaped(w)
  {
    && w.o.ring <= 2 && w.o.ring <= w.c.ring
    && (w.flowing ==> w.o.ring == 2)
    && (w.o.ring > 0 ==> w.o.msgSize == w.c.msgSize && w.o.capacity == w.c.capacity)
    && (w.o.phase.CheckSlots? || w.o.phase.TouchPages? ==> w.o.msgSize == w.c.msgSize)
    && (w.o.phase.TouchPages? ==> w.o.capacity == w.c.capacity)
    && (w.o.ring < 2 && PastMagic(w.o) ==>
          && w.o.ring < w.c.ring
          && w.files[w.o.ring].magic != [] && Newest(w.files[w.o.ring].magic).at <= w.o.seen)
    && (w.o.held.Word? ==>
          && w.o.ring < 2 && w.o.phase.TouchPages? && w.o.page < Pages(w.c.msgSize, w.c.capacity)
          && w.files[w.o.ring].pages[w.o.page] == w.o.held.v)
  }

  ghost predicate Inv(w: World) {
    && Shaped(w)
    && FileInv(w.files[0], 0, w.c) && FileInv(w.files[1], 1, w.c)
    && CreatorInv(w) && OpenerInv(w)
  }

  lemma BootKeeps(msgSize: nat, capacity: Positive, openerSize: nat, openerCapacity: Positive)
    ensures Inv(Boot(msgSize, capacity, openerSize, openerCapacity))
  {
  }

  predicate IsTouchStep(st: Step) {
    st.CreateFile? || st.CreatorRead? || st.CreatorRewrite?
  }

  predicate IsHeaderStore(st: Step) {
    st.StoreSize? || st.StoreSlots? || st.StoreMagic?
  }

  lemma TouchStepKeeps(w: World, st: Step)
    requires Inv(w) && Enabled(w, st) && IsTouchStep(st)
    ensures Inv(Apply(w, st))
  {
  }

  lemma HeaderStoreKeeps(w: World, st: Step)
    requires Inv(w) && Enabled(w, st) && (st.StoreSize? || st.StoreSlots?)
    ensures Inv(Apply(w, st))
  {
  }

  lemma StoreMagicKeeps(w: World)
    requires Inv(w) && Enabled(w, StoreMagic)
    ensures Inv(Apply(w, StoreMagic))
  {
    var w' := Apply(w, StoreMagic);
    assert FileInv(w'.files[w.c.ring], w.c.ring, w'.c);
  }

  predicate IsCheck(st: Step) {
    st.OpenLength? || st.LoadMagic? || st.LoadSize? || st.LoadSlots?
  }

  lemma CheckKeeps(w: World, st: Step)
    requires Inv(w) && Enabled(w, st) && IsCheck(st)
    ensures Inv(Apply(w, st))
  {
  }

  lemma OpenerTouchKeeps(w: World, st: Step)
    requires Inv(w) && Enabled(w, st) && (st.OpenerRead? || st.OpenerRewrite? || st.OpenDone? || st.SeeReady?)
    ensures Inv(Apply(w, st))
  {
  }

  lemma MessageKeeps(w: World, st: Step)
    requires Inv(w) && Enabled(w, st) && st.Message?
    ensures Inv(Apply(w, st))
  {
  }

  lemma StepKeeps(w: World, st: Step)
    requires Inv(w) && Enabled(w, st)
    ensures Inv(Apply(w, st))
  {
    if IsTouchStep(st) {
      TouchStepKeeps(w, st);
    } else if st.StoreMagic? {
      StoreMagicKeeps(w);
    } else if IsHeaderStore(st) {
      HeaderStoreKeeps(w, st);
    } else if IsCheck(st) {
      CheckKeeps(w, st);
    } else if st.Message? {
      MessageKeeps(w, st);
    } else {
      OpenerTouchKeeps(w, st);
    }
  }

  ghost predicate IsRun(trace: seq<World>, steps: seq<Step>) {
    && |trace| == |steps| + 1
    && trace[0] == Boot(trace[0].c.msgSize, trace[0].c.capacity, trace[0].o.msgSize, trace[0].o.capacity)
    && forall i :: 0 <= i < |steps| ==>
         Shaped(trace[i]) && Enabled(trace[i], steps[i]) && trace[i + 1] == Apply(trace[i], steps[i])
  }

  lemma {:induction false} RunKeeps(trace: seq<World>, steps: seq<Step>, n: nat)
    requires IsRun(trace, steps) && n < |trace|
    ensures Inv(trace[n])
  {
    if n == 0 {
      BootKeeps(trace[0].c.msgSize, trace[0].c.capacity, trace[0].o.msgSize, trace[0].o.capacity);
    } else {
      RunKeeps(trace, steps, n - 1);
      StepKeeps(trace[n - 1], steps[n - 1]);
    }
  }

  // --------------------------------------------------------------- theorems

  /** A ring past its header checks is fully created and its header carries the opener's own
      message size and capacity, whenever the opener looked and however stale its loads. */
  lemma AcceptedRingIsInitialised(trace: seq<World>, steps: seq<Step>, n: nat, i: nat)
    requires IsRun(trace, steps) && n < |trace| && i < 2
    requires i < trace[n].o.ring || (i == trace[n].o.ring && trace[n].o.phase.TouchPages?)
    ensures var w := trace[n];
            && i < w.c.ring && w.o.msgSize == w.c.msgSize && w.o.capacity == w.c.capacity
            && |w.files| == 2 && w.files[i].sized
            && w.files[i].magic != [] && Newest(w.files[i].magic).val == MAGIC
            && w.files[i].size != [] && Newest(w.files[i].size).val == w.o.msgSize
            && w.files[i].slots != [] && Newest(w.files[i].slots).val == w.o.capacity
  {
    RunKeeps(trace, steps, n);
  }

  /** No prefault undoes a store: each rewrites the very value its word holds at that moment. */
  lemma PrefaultUndoesNothing(trace: seq<World>, steps: seq<Step>, n: nat)
    requires IsRun(trace, steps) && n < |steps|
    requires steps[n].CreatorRewrite? || steps[n].OpenerRewrite?
    ensures |trace[n].files| == |trace[n + 1].files| == 2
    ensures forall i :: 0 <= i < 2 ==> trace[n + 1].files[i].pages == trace[n].files[i].pages
  {
    RunKeeps(trace, steps, n);
  }

  /** An opener that matches the creator and starts after READY is never refused. */
  lemma {:induction false} OpenAfterReadySucceeds(trace: seq<World>, steps: seq<Step>, n: nat, m: nat)
    requires IsRun(trace, steps) && n < m < |trace| && steps[n] == SeeReady
    requires trace[n].o.ring == 0 && trace[n].o.phase.CheckLength?
    requires trace[0].o.msgSize == trace[0].c.msgSize && trace[0].o.capacity == trace[0].c.capacity
    ensures trace[m].c.ring == 2 && trace[m].c.now <= trace[m].o.seen && !trace[m].o.phase.Failed?
    ensures trace[m].o.msgSize == trace[m].c.msgSize && trace[m].o.capacity == trace[m].c.capacity
  {
    RunKeeps(trace, steps, m - 1);
    if n + 1 < m {
      OpenAfterReadySucceeds(trace, steps, n, m - 1);
      MatchedOpenerStep(trace[m - 1], steps[m - 1]);
    } else {
      SizesNeverChange(trace, steps, n);
    }
  }

  lemma {:induction false} SizesNeverChange(trace: seq<World>, steps: seq<Step>, n: nat)
    requires IsRun(trace, steps) && n < |trace|
    ensures trace[n].c.msgSize == trace[0].c.msgSize && trace[n].c.capacity == trace[0].c.capacity
    ensures trace[n].o.msgSize == trace[0].o.msgSize && trace[n].o.capacity == trace[0].o.capacity
  {
    if n > 0 {
      SizesNeverChange(trace, steps, n - 1);
    }
  }

  lemma MatchedOpenerStep(w: World, st: Step)
    requires Inv(w) && Enabled(w, st) && w.c.ring == 2 && w.c.now <= w.o.seen && !w.o.phase.Failed?
    requires w.o.msgSize == w.c.msgSize && w.o.capacity == w.c.capacity
    ensures var w' := Apply(w, st);
            && w'.c.ring == 2 && w'.c.now <= w'.o.seen && !w'.o.phase.Failed?
            && w'.o.msgSize == w'.c.msgSize && w'.o.capacity == w'.c.capacity
  {
  }
}

/** Locations with a single writer under release/acquire ordering.

    Two threads share the locations. Each thread counts its own memory events on a private
    clock, and a write is tagged with the writer's clock. A thread's `seen` is how far along its
    peer's clock it has synchronised: every peer event at or before `seen` happens before
    whatever the thread does next. An Acquire load of a Release write joins the write's tag into
    `seen`; nothing else does. */
module Memory {
  datatype Write<V> = Write(val: V, at: nat)

  /** A load may return write `j` of a location's modification order, however old, unless a newer
      write to that location already happens before the load. */
  ghost predicate Coherent<V>(history: seq<Write<V>>, j: nat, seen: nat) {
    && j < |history|
    && forall x :: j < x < |history| ==> seen < history[x].at
  }

  function Newest<V>(history: seq<Write<V>>): Write<V>
    requires history != []
  {
    history[|history| - 1]
  }
}

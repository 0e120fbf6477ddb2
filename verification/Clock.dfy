/** The monotonic clock and the two-phase wait of the load generator. Times are nanoseconds. */
module Clock {
  const SPIN_WINDOW: nat := 300_000

  /** A clock that advances by 1 to `tick` between readings, and a sleep that wakes at most
      `oversleep` late and never early. */
  class MonotonicClock {
    var now: nat
    /** How much of the time so far was slept away. */
    ghost var asleep: nat
    const tick: nat
    const oversleep: nat

    ghost predicate Valid() {
      tick > 0
    }

    constructor (start: nat, tick: nat, oversleep: nat)
      requires tick > 0
      ensures Valid() && now == start && this.tick == tick && this.oversleep == oversleep
      ensures asleep == 0
    {
      this.now, this.tick, this.oversleep := start, tick, oversleep;
      asleep := 0;
    }

    method Now() returns (t: nat)
      requires Valid()
      modifies this`now
      ensures t == now && old(now) < now <= old(now) + tick
    {
      var passed :| 1 <= passed <= tick by { assert 1 <= 1 <= tick; }
      now := now + passed;
      t := now;
    }

    method Sleep(d: nat)
      modifies this
      ensures old(now) + d <= now <= old(now) + d + oversleep
      ensures asleep == old(asleep) + (now - old(now))
    {
      var late :| 0 <= late <= oversleep by { assert 0 <= 0 <= oversleep; }
      now, asleep := now + d + late, asleep + d + late;
    }

    /** Time spent in a call that takes `d`. */
    method Spend(d: nat)
      modifies this`now
      ensures now == old(now) + d
    {
      now := now + d;
    }
  }

  /** How late a wait can end: what a sleep may overshoot beyond the spin window. */
  function Lateness(oversleep: nat): nat {
    if oversleep > SPIN_WINDOW then oversleep - SPIN_WINDOW else 0
  }

  function Remaining(target: nat, now: nat): nat {
    if now < target then target - now else 0
  }

  /** Sleep, then spin, until `target`: never returns before it, and later than it only by an
      overlong sleep and one reading of the clock. A target already passed costs one reading. A
      sleep that overshoots by 300 microseconds at most is absorbed whole; of a longer one, that
      much. In return the thread spins for no longer than that and two readings. */
  method SpinSleepUntil(clock: MonotonicClock, target: nat) returns (woke: nat)
    requires clock.Valid()
    modifies clock
    ensures woke == clock.now && woke >= target && woke > old(clock.now)
    ensures old(clock.now) < target ==> woke <= target + Lateness(clock.oversleep) + clock.tick
    ensures old(clock.now) < target && clock.oversleep <= 300_000 ==> woke <= target + clock.tick
    ensures old(clock.now) < target && clock.oversleep > 300_000 ==>
              woke + 300_000 <= target + clock.oversleep + clock.tick
    ensures old(clock.now) < target <= old(clock.now) + 300_000 ==> woke <= target + clock.tick
    ensures old(clock.now) >= target ==> woke <= old(clock.now) + clock.tick
    ensures old(clock.asleep) <= clock.asleep
    ensures woke - old(clock.now) <= clock.asleep - old(clock.asleep) + 300_000 + 2 * clock.tick
  {
    ghost var begun, slept := clock.now, clock.asleep;
    while true
      invariant clock.now >= begun && clock.asleep >= slept
      invariant begun >= target ==> clock.now == begun
      invariant begun < target ==> clock.now <= target + Lateness(clock.oversleep)
      invariant begun < target <= begun + 300_000 ==> clock.now < target
      invariant clock.now != begun ==> target - clock.now <= SPIN_WINDOW
      invariant var spun := clock.now - begun - (clock.asleep - slept);
                clock.now != begun ==> spun + Remaining(target, clock.now) <= SPIN_WINDOW + clock.tick
      decreases target - clock.now
    {
      woke := clock.Now();
      if woke >= target {
        return;
      }
      var remaining := target - woke;
      if remaining > SPIN_WINDOW {
        clock.Sleep(remaining - SPIN_WINDOW);
      }
    }
  }
}

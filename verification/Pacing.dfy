/** When the sender's loop really sends: the send times of a schedule whose sends take time. */
module Pacing {
  import opened Basics
  import opened Schedule

  /** Total duration of sends `j` to `k - 1`. */
  function Busy(s: seq<nat>, j: nat, k: nat): nat
    requires j <= k <= |s|
    decreases k
  {
    if j == k then 0 else Busy(s, j, k - 1) + s[k - 1]
  }

  /** Earliest start of send `k` when every wait ends exactly on time: its target, or the end of the
      previous send, whichever is later. The thread is ready for message 0 at `ready`. */
  function Ideal(s: seq<nat>, start: nat, interval: nat, ready: nat, k: nat): nat
    requires k <= |s|
  {
    if k == 0 then Max(Target(start, 0, interval), ready)
    else Max(Target(start, k, interval), Ideal(s, start, interval, ready, k - 1) + s[k - 1])
  }

  /** Unrolled, send `k` starts at the latest of the chains "message j left on its target, then
      sends j to k-1 ran back to back", and one of those chains is tight. */
  lemma {:induction false} IdealIsTheLongestChain(s: seq<nat>, start: nat, interval: nat, ready: nat, k: nat)
    requires k <= |s|
    ensures forall j :: 0 <= j <= k ==>
              Target(start, j, interval) + Busy(s, j, k) <= Ideal(s, start, interval, ready, k)
    ensures ready + Busy(s, 0, k) <= Ideal(s, start, interval, ready, k)
    ensures Ideal(s, start, interval, ready, k) == ready + Busy(s, 0, k)
         || exists j :: 0 <= j <= k && Ideal(s, start, interval, ready, k) == Target(start, j, interval) + Busy(s, j, k)
  {
    var now := Ideal(s, start, interval, ready, k);
    if k == 0 {
      assert Busy(s, 0, 0) == 0;
      if now != ready {
        assert now == Target(start, 0, interval) + Busy(s, 0, 0);
      }
    } else {
      var before := Ideal(s, start, interval, ready, k - 1);
      IdealIsTheLongestChain(s, start, interval, ready, k - 1);
      forall j | 0 <= j <= k
        ensures Target(start, j, interval) + Busy(s, j, k) <= now
      {
        if j < k {
          assert Target(start, j, interval) + Busy(s, j, k - 1) <= before;
        }
      }
      if now == Target(start, k, interval) {
        assert now == Target(start, k, interval) + Busy(s, k, k);
      } else if before != ready + Busy(s, 0, k - 1) {
        var j :| 0 <= j <= k - 1 && before == Target(start, j, interval) + Busy(s, j, k - 1);
        assert now == Target(start, j, interval) + Busy(s, j, k);
      }
    }
  }

  // ---------------------------------------------------------------- real runs

  /** Send `k` may not start before this. */
  function Due(a: seq<nat>, s: seq<nat>, start: nat, interval: nat, ready: nat, k: nat): nat
    requires k <= |s| && k <= |a|
  {
    if k == 0 then Max(Target(start, 0, interval), ready)
    else Max(Target(start, k, interval), a[k - 1] + s[k - 1])
  }

  /** Observed start times `a` of sends with durations `s`: every wait ends between its due time
      and `late` after it. */
  ghost predicate Paced(a: seq<nat>, s: seq<nat>, start: nat, interval: nat, ready: nat, late: nat) {
    && |a| <= |s|
    && forall k {:trigger Due(a, s, start, interval, ready, k)} :: 0 <= k < |a| ==>
         Due(a, s, start, interval, ready, k) <= a[k] <= Due(a, s, start, interval, ready, k) + late
  }

  /** The observed starts follow the ideal recursion up to the accumulated lateness of the waits;
      exact waits (late = 0) follow it exactly. */
  lemma {:induction false} StartsFollowTheRecursion(
    a: seq<nat>, s: seq<nat>, start: nat, interval: nat, ready: nat, late: nat, k: nat)
    requires Paced(a, s, start, interval, ready, late) && k < |a|
    ensures Ideal(s, start, interval, ready, k) <= a[k] <= Ideal(s, start, interval, ready, k) + (k + 1) * late
    ensures late == 0 ==> a[k] == Ideal(s, start, interval, ready, k)
  {
    assert Due(a, s, start, interval, ready, k) <= a[k];
    if k > 0 {
      StartsFollowTheRecursion(a, s, start, interval, ready, late, k - 1);
      assert (k + 1) * late == k * late + late;
    }
  }

  /** Sends that take at least `cost` fall behind by at least `cost - interval` a message. */
  lemma {:induction false} SlowSendsAccumulateLag(
    a: seq<nat>, s: seq<nat>, start: nat, interval: nat, ready: nat, late: nat, cost: nat, k: nat)
    requires Paced(a, s, start, interval, ready, late) && k < |a|
    requires forall i :: 0 <= i < k ==> cost <= s[i]
    ensures a[k] - Target(start, k, interval) >= k * (cost - interval)
  {
    assert Due(a, s, start, interval, ready, k) <= a[k];
    if k > 0 {
      SlowSendsAccumulateLag(a, s, start, interval, ready, late, cost, k - 1);
      assert k * (cost - interval) == (k - 1) * (cost - interval) + (cost - interval);
    }
  }

  /** Sends that leave room for the waits' own lateness never accumulate lag. */
  lemma {:induction false} FastSendsStayOnSchedule(
    a: seq<nat>, s: seq<nat>, start: nat, interval: nat, ready: nat, late: nat, k: nat)
    requires Paced(a, s, start, interval, ready, late) && k < |a| && ready <= start
    requires forall i :: 0 <= i < k ==> s[i] + late <= interval
    ensures Target(start, k, interval) <= a[k] <= Target(start, k, interval) + late
  {
    assert Due(a, s, start, interval, ready, k) <= a[k];
    if k > 0 {
      FastSendsStayOnSchedule(a, s, start, interval, ready, late, k - 1);
    }
  }

  ghost predicate OnTime(a: seq<nat>, start: nat, interval: nat) {
    forall k :: 0 <= k < |a| ==> a[k] == Target(start, k, interval)
  }

  /** With exact waits the run shows no lag at all if and only if the thread was ready in time and
      no send except the last took longer than the interval. */
  lemma ZeroLagExactlyWhenEverySendFits(a: seq<nat>, s: seq<nat>, start: nat, interval: nat, ready: nat)
    requires Paced(a, s, start, interval, ready, 0) && a != []
    ensures OnTime(a, start, interval)
       <==> ready <= start && forall k :: 0 <= k < |a| - 1 ==> s[k] <= interval
  {
    if ready <= start && forall k :: 0 <= k < |a| - 1 ==> s[k] <= interval {
      forall k | 0 <= k < |a|
        ensures a[k] == Target(start, k, interval)
      {
        FastSendsStayOnSchedule(a, s, start, interval, ready, 0, k);
      }
    }
    if OnTime(a, start, interval) {
      assert Due(a, s, start, interval, ready, 0) <= a[0];
      forall k | 0 <= k < |a| - 1
        ensures s[k] <= interval
      {
        assert Due(a, s, start, interval, ready, k + 1) <= a[k + 1];
      }
    }
  }

  /** Two consecutive sends are never further apart than the longer of the interval and the send,
      plus one late wait. */
  lemma GapsAreBounded(a: seq<nat>, s: seq<nat>, start: nat, interval: nat, ready: nat, late: nat, k: nat)
    requires Paced(a, s, start, interval, ready, late) && k + 1 < |a|
    ensures a[k] + s[k] <= a[k + 1] <= a[k] + Max(interval, s[k]) + late
  {
    assert Due(a, s, start, interval, ready, k) <= a[k];
    assert a[k + 1] <= Due(a, s, start, interval, ready, k + 1) + late;
  }
}

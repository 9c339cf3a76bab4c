/**
 The rate limiter: a call fires when at least a period has passed since the stored tick. A stored
 tick of 0 means none is stored yet; a stored tick ahead of the current one means the counter wrapped.
 */
module Tick {
  import opened Bytes

  /** One call with a positive period: whether it fires, and the stored tick afterwards. */
  function Call(prev: u32, period: u32, cur: u32): (r: (bool, u32)) {
    if prev == 0 then (false, cur)
    else if prev > cur then (true, cur)
    else if cur - prev < period then (false, prev)
    else (true, cur)
  }

  class StoredTick {
    var prev: u32

    /** run_per_x_ticks. */
    method RunPerXTicks(xTicks: int, cur: u32) returns (fired: bool)
      requires xTicks < 0x8000_0000
      modifies this
      ensures xTicks <= 0 ==> fired && prev == old(prev)
      ensures xTicks > 0 ==> (fired, prev) == Call(old(prev), xTicks, cur)
    {
      if xTicks <= 0 {
        return true;
      }
      if prev == 0 {
        prev := cur;
        return false;
      }
      if prev > cur {
        prev := cur;
        return true;
      }
      if cur - prev < xTicks {
        return false;
      }
      prev := cur;
      return true;
    }

    /** run_per_x_seconds: the period is a product of ints, compared as an unsigned number. */
    method RunPerXSeconds(second: int, cur: u32, ticksPerSecond: int) returns (fired: bool)
      requires -0x8000_0000 <= ticksPerSecond * second < 0x8000_0000
      modifies this
      ensures second <= 0 ==> fired && prev == old(prev)
      ensures second > 0 ==> (fired, prev) == Call(old(prev), Trunc32(ticksPerSecond * second), cur)
    {
      if second <= 0 {
        return true;
      }
      if prev == 0 {
        prev := cur;
        return false;
      }
      if prev > cur {
        prev := cur;
        return true;
      }
      if cur - prev < Trunc32(ticksPerSecond * second) {
        return false;
      }
      prev := cur;
      return true;
    }
  }

  // ---------------------------------------------------------------------------------------
  // Runs of calls.

  predicate NonDecreasing(ticks: seq<u32>) {
    forall i, j :: 0 <= i <= j < |ticks| ==> ticks[i] <= ticks[j]
  }

  /** The stored tick after the first `n` calls. */
  function Stored(prev: u32, period: u32, ticks: seq<u32>, n: nat): u32
    requires n <= |ticks|
  {
    if n == 0 then prev else Call(Stored(prev, period, ticks, n - 1), period, ticks[n - 1]).1
  }

  predicate Fires(prev: u32, period: u32, ticks: seq<u32>, i: nat)
    requires i < |ticks|
  {
    Call(Stored(prev, period, ticks, i), period, ticks[i]).0
  }

  function Firings(prev: u32, period: u32, ticks: seq<u32>, n: nat): nat
    requires n <= |ticks|
  {
    if n == 0 then 0
    else Firings(prev, period, ticks, n - 1) + (if Fires(prev, period, ticks, n - 1) then 1 else 0)
  }

  /** A stored tick never runs ahead and never goes back while ticks do not. */
  lemma {:induction false} StoredIsBehind(prev: u32, period: u32, ticks: seq<u32>, m: nat, n: nat)
    requires m <= n <= |ticks| && NonDecreasing(ticks)
    requires ticks != [] ==> prev <= ticks[0]
    ensures Stored(prev, period, ticks, m) <= Stored(prev, period, ticks, n)
    ensures n > 0 ==> Stored(prev, period, ticks, n) <= ticks[n - 1]
    decreases n
  {
    if n > 0 {
      StoredIsBehind(prev, period, ticks, if m < n then m else n - 1, n - 1);
    }
  }

  /** Over any run with non-decreasing ticks two firings are at least a period apart. */
  lemma FiringsAreApart(prev: u32, period: u32, ticks: seq<u32>, i: nat, j: nat)
    requires period > 0 && i < j < |ticks| && NonDecreasing(ticks) && prev <= ticks[0]
    requires Fires(prev, period, ticks, i) && Fires(prev, period, ticks, j)
    ensures ticks[j] - ticks[i] >= period
  {
    StoredIsBehind(prev, period, ticks, 0, i);
    assert Stored(prev, period, ticks, i + 1) == ticks[i];
    StoredIsBehind(prev, period, ticks, i + 1, j);
  }

  /** No call between `i` and `k` fires. */
  predicate Silent(prev: u32, period: u32, ticks: seq<u32>, i: nat, k: nat)
    requires i < k <= |ticks|
  {
    forall j :: i < j < k ==> !Fires(prev, period, ticks, j)
  }

  lemma {:induction false} StoredStays(prev: u32, period: u32, ticks: seq<u32>, i: nat, k: nat)
    requires i < k <= |ticks| && Stored(prev, period, ticks, i + 1) == ticks[i] > 0 && Silent(prev, period, ticks, i, k)
    ensures Stored(prev, period, ticks, k) == ticks[i]
    decreases k
  {
    if k > i + 1 {
      assert Silent(prev, period, ticks, i, k - 1) && !Fires(prev, period, ticks, k - 1);
      StoredStays(prev, period, ticks, i, k - 1);
    }
  }

  /** No firing is missed, whatever the ticks: after a firing, or after the first call when none was stored,
      the next call to fire is the first whose tick is a period later, or has gone back. */
  lemma FiresIff(prev: u32, period: u32, ticks: seq<u32>, i: nat, k: nat)
    requires i < k < |ticks| && ticks[i] > 0 && Silent(prev, period, ticks, i, k)
    requires Fires(prev, period, ticks, i) || (i == 0 && prev == 0)
    ensures Fires(prev, period, ticks, k) <==> ticks[k] < ticks[i] || ticks[k] - ticks[i] >= period
  {
    assert Stored(prev, period, ticks, i) == prev || i > 0;
    assert Stored(prev, period, ticks, i + 1) == ticks[i];
    StoredStays(prev, period, ticks, i, k);
  }

  /** Nor is one before the first firing, when a tick is stored to begin with. */
  lemma {:induction false} FirstFiresIff(prev: u32, period: u32, ticks: seq<u32>, k: nat)
    requires k < |ticks| && prev > 0 && forall j :: 0 <= j < k ==> !Fires(prev, period, ticks, j)
    ensures Stored(prev, period, ticks, k) == prev
    ensures Fires(prev, period, ticks, k) <==> ticks[k] < prev || ticks[k] - prev >= period
    decreases k
  {
    if k > 0 {
      FirstFiresIff(prev, period, ticks, k - 1);
      assert !Fires(prev, period, ticks, k - 1);
    }
  }

  lemma OnePeriodMore(k: nat, period: nat)
    ensures (k + 1) * period == k * period + period
  {
  }

  /** So firings times the period never exceed the ticks elapsed since the stored one, or since the
      first call when none is stored. */
  lemma {:induction false} RateIsLimited(prev: u32, period: u32, ticks: seq<u32>, n: nat)
    requires period > 0 && 0 < n <= |ticks| && NonDecreasing(ticks) && prev <= ticks[0]
    ensures var base := if prev == 0 then ticks[0] else prev;
            && Firings(prev, period, ticks, n) * period <= ticks[n - 1] - base
            && (Stored(prev, period, ticks, n) > 0 ==>
                  Firings(prev, period, ticks, n) * period <= Stored(prev, period, ticks, n) - base)
    decreases n
  {
    StoredIsBehind(prev, period, ticks, 0, n - 1);
    if n > 1 {
      RateIsLimited(prev, period, ticks, n - 1);
      OnePeriodMore(Firings(prev, period, ticks, n - 1), period);
    }
  }

  /** A counter that fell below the stored tick fires at once and stores the new tick. After that it
      fires again exactly a period later, unless it fell to 0: a stored 0 means none is stored, so
      the next call only stores its tick. */
  lemma WrappedTickFiresOnce(prev: u32, period: u32, cur: u32, next: u32)
    requires period > 0 && prev > cur && next >= cur
    ensures Call(prev, period, cur) == (true, cur)
    ensures Call(cur, period, next).0 <==> cur > 0 && next - cur >= period
    ensures cur == 0 ==> Call(cur, period, next) == (false, next)
  {
  }

  // ---------------------------------------------------------------------------------------
  // Runs in which the tick may go back, any number of times.

  /** The tick before call `n`: the one stored at the start, or that of the first call when none is. */
  function TickBefore(prev: u32, ticks: seq<u32>, n: nat): u32
    requires n <= |ticks| && ticks != []
  {
    if n > 0 then ticks[n - 1] else if prev > 0 then prev else ticks[0]
  }

  /** How often the tick goes back, and how far it goes forward in all. */
  function Wraps(prev: u32, ticks: seq<u32>, n: nat): nat
    requires n <= |ticks|
  {
    if n == 0 then 0
    else Wraps(prev, ticks, n - 1) + (if ticks[n - 1] < TickBefore(prev, ticks, n - 1) then 1 else 0)
  }

  function Forward(prev: u32, ticks: seq<u32>, n: nat): nat
    requires n <= |ticks|
  {
    if n == 0 then 0
    else
      var before := TickBefore(prev, ticks, n - 1);
      Forward(prev, ticks, n - 1) + (if ticks[n - 1] > before then ticks[n - 1] - before else 0)
  }

  /** Firings other than those of a tick below the stored one. */
  function TimedFirings(prev: u32, period: u32, ticks: seq<u32>, n: nat): nat
    requires n <= |ticks|
  {
    if n == 0 then 0
    else TimedFirings(prev, period, ticks, n - 1) +
         (if Fires(prev, period, ticks, n - 1) && Stored(prev, period, ticks, n - 1) <= ticks[n - 1] then 1 else 0)
  }

  lemma {:induction false} StoredIsBelow(prev: u32, period: u32, ticks: seq<u32>, n: nat)
    requires 0 < n <= |ticks|
    ensures Stored(prev, period, ticks, n) <= ticks[n - 1]
  {
    if n > 1 {
      StoredIsBelow(prev, period, ticks, n - 1);
    }
  }

  /** Only a tick that goes back can fire below the stored one. */
  lemma {:induction false} OtherFiringsAreWraps(prev: u32, period: u32, ticks: seq<u32>, n: nat)
    requires n <= |ticks|
    ensures Firings(prev, period, ticks, n) <= TimedFirings(prev, period, ticks, n) + Wraps(prev, ticks, n)
  {
    if n > 0 {
      OtherFiringsAreWraps(prev, period, ticks, n - 1);
      if n > 1 {
        StoredIsBelow(prev, period, ticks, n - 1);
      }
    }
  }

  /** What the forward way up to a call pays for: a period for each timed firing, and the way from
      the stored tick. */
  lemma {:induction false} TimedFiringsArePaid(prev: u32, period: u32, ticks: seq<u32>, n: nat)
    requires period > 0 && 0 < n <= |ticks|
    ensures TimedFirings(prev, period, ticks, n) * period + (ticks[n - 1] - Stored(prev, period, ticks, n))
            <= Forward(prev, ticks, n)
  {
    if n > 1 {
      TimedFiringsArePaid(prev, period, ticks, n - 1);
      StoredIsBelow(prev, period, ticks, n - 1);
      OnePeriodMore(TimedFirings(prev, period, ticks, n - 1), period);
    } else {
      OnePeriodMore(0, period);
    }
  }

  /** Over any run of ticks whatever, firings times the period never exceed the way the tick has gone
      forward by more than a period for each time it went back. */
  lemma RateIsLimitedAcrossWraps(prev: u32, period: u32, ticks: seq<u32>, n: nat)
    requires period > 0 && n <= |ticks|
    ensures Firings(prev, period, ticks, n) * period <= Forward(prev, ticks, n) + Wraps(prev, ticks, n) * period
  {
    if n > 0 {
      TimedFiringsArePaid(prev, period, ticks, n);
      StoredIsBelow(prev, period, ticks, n);
      OtherFiringsAreWraps(prev, period, ticks, n);
      AllArePaid(Firings(prev, period, ticks, n), TimedFirings(prev, period, ticks, n), Wraps(prev, ticks, n),
                 period, Forward(prev, ticks, n));
    }
  }

  lemma AllArePaid(firings: nat, timed: nat, wraps: nat, period: nat, forward: nat)
    requires firings <= timed + wraps && timed * period <= forward
    ensures firings * period <= forward + wraps * period
  {
    var spare := timed + wraps - firings;
    assert (timed + wraps) * period == timed * period + wraps * period;
    assert (timed + wraps) * period == firings * period + spare * period;
  }
}

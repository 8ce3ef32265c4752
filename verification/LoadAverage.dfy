/**
 * The load average: a fixed-point moving average of how many processes want the
 * CPU, sampled every five seconds.
 */
module LoadAverage {
  import opened Arith
  import opened Words

  const ONE := 2048
  const EXP_1 := 1884
  const EXP_5 := 2014
  const EXP_15 := 2037
  const MAX_PROCESSES := 64
  const SAMPLE_SECONDS := 5

  /** One of the three decay factors. */
  type Factor = e: nat | e == 1884 || e == 2014 || e == 2037 witness 1884

  /** A load in fixed point: at most every process, all the time. */
  type Load = n: nat | n <= 64 * 2048

  function Blend(load: nat, e: Factor, active: nat): nat {
    (load * e + active * (ONE - e)) / ONE
  }

  /** The new average lies between the old one and the sample, and no product or sum
      on the way leaves 32 bits. */
  lemma BlendBetween(load: Load, e: Factor, active: Load)
    ensures load <= active ==> load <= Blend(load, e, active) <= active
    ensures active <= load ==> active <= Blend(load, e, active) <= load
    ensures load * e + active * (ONE - e) < WORD_SIZE
  {
  }

  /** The distance to the sample shrinks to e of 2048 parts, but for rounding the average
      down. */
  lemma BlendStep(load: Load, e: Factor, active: Load)
    ensures 0 <= 2048 * (active - Blend(load, e, active)) - e * (active - load) < 2048
  {
    assert load * e + active * (ONE - e) == active * 2048 - e * (active - load);
  }

  /** One sample with n runnable processes. */
  function Sample(avg: Load, e: Factor, runnable: nat): Load
    requires runnable <= MAX_PROCESSES
  {
    BlendBetween(avg, e, runnable * ONE);
    Blend(avg, e, runnable * ONE)
  }

  /** The average after a series of samples. */
  function Series(avg: Load, e: Factor, samples: seq<nat>): Load
    requires forall k :: 0 <= k < |samples| ==> samples[k] <= MAX_PROCESSES
  {
    if samples == [] then avg else Sample(Series(avg, e, samples[..|samples| - 1]), e, samples[|samples| - 1])
  }

  /** Every average stays between the smallest and the largest value seen, samples
      and starting value (0 at boot). */
  lemma {:induction false} SeriesBounded(avg: Load, e: Factor, samples: seq<nat>, lo: nat, hi: nat)
    requires forall k :: 0 <= k < |samples| ==> samples[k] <= MAX_PROCESSES
    requires lo * ONE <= avg <= hi * ONE && forall k :: 0 <= k < |samples| ==> lo <= samples[k] <= hi
    ensures lo * ONE <= Series(avg, e, samples) <= hi * ONE
  {
    if samples != [] {
      var init, last := samples[..|samples| - 1], samples[|samples| - 1];
      SeriesBounded(avg, e, init, lo, hi);
      BlendBetween(Series(avg, e, init), e, last * ONE);
    }
  }

  // ---------- A steady load ----------

  /** k samples of the same count. */
  function Steady(avg: Load, e: Factor, runnable: nat, k: nat): Load
    requires runnable <= MAX_PROCESSES
  {
    if k == 0 then avg else Sample(Steady(avg, e, runnable, k - 1), e, runnable)
  }

  function Pow(b: nat, k: nat): (p: nat)
    ensures b > 0 ==> p > 0
  {
    if k == 0 then 1 else Pow(b, k - 1) * b
  }

  lemma LowerStep(e: nat, p: nat, q: nat, d: int, d0: int, d1: int)
    requires q * d0 <= p * d && e * d <= 2048 * d1
    ensures (q * e) * d0 <= (p * 2048) * d1
  {
    MulMonotone(e, q * d0, p * d);
    MulMonotone(p, e * d, 2048 * d1);
    assert e * (q * d0) == (q * e) * d0;
    assert e * (p * d) == p * (e * d);
    assert p * (2048 * d1) == (p * 2048) * d1;
  }

  lemma UpperStep(e: nat, p: nat, q: nat, d: int, d0: int, d1: int, k: nat)
    requires e <= 2048 && p * d <= q * d0 + k * p && 2048 * d1 <= e * d + 2048
    ensures (p * 2048) * d1 <= (q * e) * d0 + (k + 1) * (p * 2048)
  {
    MulMonotone(e, p * d, q * d0 + k * p);
    MulMonotone(p, 2048 * d1, e * d + 2048);
    MulMonotone(k * p, e, 2048);
    assert e * (q * d0 + k * p) == (q * e) * d0 + (k * p) * e;
    assert e * (p * d) == p * (e * d);
    assert p * (2048 * d1) == (p * 2048) * d1 && p * (e * d + 2048) == p * (e * d) + p * 2048;
    assert (k + 1) * (p * 2048) == (k * p) * 2048 + p * 2048;
  }

  /** After k samples of the same count the distance is the k-th power of e / 2048 of what
      it was, and what the k roundings added to it. */
  lemma {:induction false} Decays(avg: Load, e: Factor, runnable: nat, k: nat)
    requires runnable <= MAX_PROCESSES
    ensures
      var d0, d := runnable * 2048 - avg, runnable * 2048 - Steady(avg, e, runnable, k);
      Pow(e, k) * d0 <= Pow(2048, k) * d <= Pow(e, k) * d0 + k * Pow(2048, k)
  {
    if k > 0 {
      Decays(avg, e, runnable, k - 1);
      var now := Steady(avg, e, runnable, k - 1);
      BlendStep(now, e, runnable * ONE);
      var d0, d, d1 := runnable * 2048 - avg, runnable * 2048 - now, runnable * 2048 - Steady(avg, e, runnable, k);
      LowerStep(e, Pow(2048, k - 1), Pow(e, k - 1), d, d0, d1);
      UpperStep(e, Pow(2048, k - 1), Pow(e, k - 1), d, d0, d1, k - 1);
    }
  }

  /** Too close below the target for the rounding to let it move. */
  predicate Stuck(avg: int, e: Factor, target: int) {
    avg <= target && (target - avg) * (ONE - e) < ONE
  }

  lemma FromAbove(avg: Load, e: Factor, target: Load)
    requires avg > target
    ensures target <= Blend(avg, e, target) < avg
  {
  }

  /** From below a sample moves the average up, unless it is stuck. */
  lemma FromBelow(avg: Load, e: Factor, target: Load)
    requires avg <= target
    ensures avg <= Blend(avg, e, target) <= target
    ensures Blend(avg, e, target) == avg <==> Stuck(avg, e, target)
  {
  }

  /** A steady load is approached from above without ever turning back, and reached
      exactly after at most as many samples as the distance. */
  lemma {:induction false} ReachedFromAbove(avg: Load, e: Factor, runnable: nat, k: nat)
    requires runnable <= MAX_PROCESSES && avg >= runnable * ONE
    ensures var now := Steady(avg, e, runnable, k);
      && runnable * ONE <= now && (now == runnable * ONE || now <= avg - k)
      && Steady(avg, e, runnable, k + 1) <= now
  {
    if k > 0 {
      ReachedFromAbove(avg, e, runnable, k - 1);
    }
    var now := Steady(avg, e, runnable, k);
    if now > runnable * ONE {
      FromAbove(now, e, runnable * ONE);
    } else {
      FromBelow(now, e, runnable * ONE);
    }
  }

  /** From below it rises without ever turning back, and after at most as many samples
      as the distance stops for good, less than 2048 / (2048 - e) short. */
  lemma {:induction false} SettlesFromBelow(avg: Load, e: Factor, runnable: nat, k: nat)
    requires runnable <= MAX_PROCESSES && avg <= runnable * ONE
    ensures var now, next := Steady(avg, e, runnable, k), Steady(avg, e, runnable, k + 1);
      && now <= next <= runnable * ONE
      && (next == now <==> Stuck(now, e, runnable * ONE))
      && (Stuck(now, e, runnable * ONE) || now >= avg + k)
      && (k >= runnable * ONE - avg ==> Stuck(now, e, runnable * ONE))
  {
    if k > 0 {
      SettlesFromBelow(avg, e, runnable, k - 1);
    }
    FromBelow(Steady(avg, e, runnable, k), e, runnable * ONE);
  }

  /** In numbers: at most 12, 60 or 186 of 2048 short. */
  lemma HowShort(avg: Load, e: Factor, target: Load)
    requires avg <= target
    ensures Stuck(avg, e, target) <==> target - avg <= (if e == EXP_1 then 12 else if e == EXP_5 then 60 else 186)
  {
  }

  // ---------- In place ----------

  function Hundredths(avg: Load): nat {
    (avg * 100 + ONE / 2) / ONE
  }

  /** The shown hundredths are the nearest ones. */
  lemma Nearest(avg: Load)
    ensures -(ONE / 2) < Hundredths(avg) * ONE - avg * 100 <= ONE / 2
    ensures avg * 100 + ONE / 2 < WORD_SIZE
  {
  }

  class Meter {
    const averages: array<Load>     // 1, 5 and 15 minutes
    var ticks: Word

    ghost predicate Valid()
      reads this
    {
      averages.Length == 3
    }

    /** Every tick; a sample when five seconds are over. */
    method Tick(hz: Word, runnable: nat)
      requires Valid() && runnable <= MAX_PROCESSES
      modifies this, averages
      ensures Valid()
      ensures var due := hz != 0 && Inc(old(ticks)) >= Wrap(SAMPLE_SECONDS * hz);
        && ticks == (if hz == 0 then old(ticks) else if due then 0 else Inc(old(ticks)))
        && averages[0] == (if due then Sample(old(averages[0]), EXP_1, runnable) else old(averages[0]))
        && averages[1] == (if due then Sample(old(averages[1]), EXP_5, runnable) else old(averages[1]))
        && averages[2] == if due then Sample(old(averages[2]), EXP_15, runnable) else old(averages[2])
    {
      if hz == 0 {
        return;
      }
      ticks := Inc(ticks);
      if ticks < Wrap(SAMPLE_SECONDS * hz) {
        return;
      }
      ticks := 0;
      var active: Load := runnable * ONE;
      BlendBetween(averages[0], EXP_1, active);
      BlendBetween(averages[1], EXP_5, active);
      BlendBetween(averages[2], EXP_15, active);
      averages[0] := Blend(averages[0], EXP_1, active);
      averages[1] := Blend(averages[1], EXP_5, active);
      averages[2] := Blend(averages[2], EXP_15, active);
    }
  }
}

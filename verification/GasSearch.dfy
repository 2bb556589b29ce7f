/**
  The gas-limit search inside `ChiselRunner::call`: a bisection over limits that
  stops early once two successive sufficient limits are close. Arithmetic is on
  64-bit words, so every sum, difference and product is checked against them.
 */
module GasSearch {
  import opened Prelude

  newtype u64 = x: int | 0 <= x < 0x1_0000_0000_0000_0000

  const ACCURACY: u64 := 10

  /** How a probe ends; `Failed` is the executor's own error. */
  datatype Probe = Failed | Revert | OutOfGas | OutOfFund | Passed

  function CeilLog2(n: nat): nat {
    if n <= 1 then 0 else 1 + CeilLog2((n + 1) / 2)
  }

  lemma {:induction false} CeilLog2Monotone(m: nat, n: nat)
    requires m <= n
    ensures CeilLog2(m) <= CeilLog2(n)
  {
    if m > 1 {
      CeilLog2Monotone((m + 1) / 2, (n + 1) / 2);
    }
  }

  /** It is the least exponent whose power of two reaches n. */
  lemma {:induction false} CeilLog2Least(n: nat, m: nat)
    requires n >= 1
    ensures CeilLog2(n) <= m <==> n <= Pow(2, m)
  {
    PowPositive(2, m);
    if n > 1 && m > 0 {
      CeilLog2Least((n + 1) / 2, m - 1);
    }
  }

  /** One halving of an interval wider than one uses up one probe. */
  lemma HalvingStep(width: nat, narrowed: nat)
    requires width > 1 && narrowed <= (width + 1) / 2
    ensures CeilLog2(narrowed) + 1 <= CeilLog2(width)
  {
    CeilLog2Monotone(narrowed, (width + 1) / 2);
  }

  /** The midpoint lies inside, closer to the lower end, and halves the interval. */
  lemma Midpoint(lowest: int, highest: int, mid: int)
    requires highest - lowest > 1 && mid == (highest + lowest) / 2
    ensures lowest < mid < highest && mid - lowest <= highest - mid
    ensures CeilLog2(mid - lowest) + 1 <= CeilLog2(highest - lowest)
    ensures CeilLog2(highest - mid) + 1 <= CeilLog2(highest - lowest)
  {
    HalvingStep(highest - lowest, mid - lowest);
    HalvingStep(highest - lowest, highest - mid);
  }

  /** The accuracy test on two successive sufficient limits. */
  predicate CloseEnough(last: u64, now: u64)
    requires now <= last && last > 0 && (last as int - now as int) * 10 < 0x1_0000_0000_0000_0000
  {
    (last - now) * ACCURACY / last < 1
  }

  /** What passing the test says of any value from the lower end on. */
  lemma WithinTenth(lowest: u64, mid: u64, last: u64)
    requires lowest < mid < last && mid as int - lowest as int <= last as int - mid as int
    requires (last as int - mid as int) * 10 < 0x1_0000_0000_0000_0000
    ensures CloseEnough(last, mid) <==> (last as int - mid as int) * 10 < last as int
    ensures CloseEnough(last, mid) ==> 9 * (mid as int - lowest as int) < mid as int
  {
    TenthOf(last as int - mid as int, last as int);
  }

  lemma TenthOf(gap: nat, last: nat)
    requires last > 0
    ensures gap * 10 / last < 1 <==> gap * 10 < last
  {
  }

  /** Every limit probed was inside the range; whether some probe failed. */
  ghost predicate Probed(call: u64 -> Probe, measured: u64, probes: seq<u64>, failed: bool) {
    && (forall p :: p in probes ==> InRange(measured, p))
    && (failed <==> exists p :: p in probes && call(p).Failed?)
  }

  lemma ProbedNone(call: u64 -> Probe, measured: u64)
    ensures Probed(call, measured, [], false)
  {
  }

  lemma ProbedSnoc(call: u64 -> Probe, measured: u64, probes: seq<u64>, p: u64)
    requires Probed(call, measured, probes, false) && InRange(measured, p)
    ensures Probed(call, measured, probes + [p], call(p).Failed?)
  {
    if call(p).Failed? {
      assert p in probes + [p];
    }
  }

  predicate InRange(measured: u64, p: u64) {
    measured < p && p as int < 3 * measured as int
  }

  /** Probes pass exactly from the limit t on. */
  ghost predicate Threshold(call: u64 -> Probe, t: int) {
    forall limit: u64 :: call(limit).Passed? <==> limit as int >= t
  }

  // ---- When the early stop is reached ----

  /** Whether the bisection of (lowest, highest) ends early when probes pass from t on. */
  ghost predicate StopsEarly(lowest: nat, highest: nat, t: nat)
    decreases highest - lowest
  {
    if highest - lowest <= 1 then false
    else
      var mid := (highest + lowest) / 2;
      if mid < t then StopsEarly(mid, highest, t)
      else (highest - mid) * 10 < highest || StopsEarly(lowest, mid, t)
  }

  /** Once half the interval is a tenth of its upper end, the next pass stops it. */
  lemma {:induction false} LastStretch(lowest: nat, highest: nat, t: nat)
    requires lowest <= t && lowest + 1 < highest
    requires 10 * ((highest - lowest + 1) / 2) < highest
    ensures StopsEarly(lowest, highest, t) <==> t < highest
    decreases highest - lowest
  {
    var mid := (highest + lowest) / 2;
    if mid < t && highest - mid > 1 {
      LastStretch(mid, highest, t);
    }
  }

  /**
    The thresholds on which the search stalls: the upper ends it can be left with
    before an early stop becomes possible. The points near 9g/8 and 9g/4 belong
    to them only for some remainders of g.
   */
  predicate Stalls(g: nat, t: nat) {
    var low, high := 3 * g / 2, 5 * g / 2;
    var fiveQuarters, sevenQuarters := (g + low) / 2, (low + 2 * g) / 2;
    var nineEighths, nineQuarters := (g + fiveQuarters) / 2, (2 * g + high) / 2;
    || t >= 3 * g || t == high || t == 2 * g || t == sevenQuarters || t == low || t == fiveQuarters
    || (t == nineQuarters && 10 * (high - nineQuarters) >= high)
    || (t == nineEighths && 10 * (fiveQuarters - nineEighths) >= fiveQuarters)
  }

  lemma UpperHalf(g: nat, t: nat)
    requires g >= 28 && 2 * g < t
    ensures StopsEarly(2 * g, 3 * g, t) <==> !Stalls(g, t)
  {
    var high := 5 * g / 2;
    var nineQuarters := (2 * g + high) / 2;
    assert (3 * g + 2 * g) / 2 == high;
    if t > high {
      LastStretch(high, 3 * g, t);
    } else if t > nineQuarters {
      LastStretch(nineQuarters, high, t);
    } else if 10 * (high - nineQuarters) >= high {
      LastStretch(2 * g, nineQuarters, t);
    }
  }

  lemma LowerHalf(g: nat, t: nat)
    requires g >= 28 && g <= t <= 2 * g
    ensures StopsEarly(g, 2 * g, t) <==> !Stalls(g, t)
  {
    var low := 3 * g / 2;
    assert (2 * g + g) / 2 == low;
    if t > low {
      var sevenQuarters := (low + 2 * g) / 2;
      if t > sevenQuarters {
        LastStretch(sevenQuarters, 2 * g, t);
      } else {
        LastStretch(low, sevenQuarters, t);
      }
    } else {
      hide Stalls;
      LowestQuarter(g, t);
    }
  }

  lemma LowestQuarter(g: nat, t: nat)
    requires g >= 28 && g <= t <= 3 * g / 2
    ensures StopsEarly(g, 3 * g / 2, t) <==> !Stalls(g, t)
  {
    var low := 3 * g / 2;
    var fiveQuarters := (g + low) / 2;
    var nineEighths := (g + fiveQuarters) / 2;
    if t > fiveQuarters {
      LastStretch(fiveQuarters, low, t);
    } else if t > nineEighths {
      LastStretch(nineEighths, fiveQuarters, t);
    } else if 10 * (fiveQuarters - nineEighths) >= fiveQuarters {
      LastStretch(g, nineEighths, t);
    }
  }

  /** From 28 gas on, the search stops early exactly off the stalling thresholds. */
  lemma StopsExactly(g: nat, t: nat)
    requires g >= 28 && g <= t
    ensures StopsEarly(g, 3 * g, t) <==> !Stalls(g, t)
  {
    assert (3 * g + g) / 2 == 2 * g;
    if t > 2 * g {
      UpperHalf(g, t);
    } else {
      LowerHalf(g, t);
    }
  }

  /** For every threshold the probes may have, the search ends early or not. */
  ghost predicate Stops(call: u64 -> Probe, measured: u64, early: bool) {
    forall t: nat :: Threshold(call, t) ==>
      StopsEarly(measured as int, 3 * measured as int, t) == early
  }

  /** The interval reached decides the same as the one started from. */
  ghost predicate SameStop(call: u64 -> Probe, measured: u64, lowest: u64, highest: u64) {
    forall t: nat :: Threshold(call, t) ==>
      StopsEarly(measured as int, 3 * measured as int, t) == StopsEarly(lowest as int, highest as int, t)
  }

  lemma StopStep(call: u64 -> Probe, measured: u64, lowest: u64, highest: u64, mid: u64)
    requires highest as int - lowest as int > 1 && mid as int == (highest as int + lowest as int) / 2
    requires SameStop(call, measured, lowest, highest)
    ensures !call(mid).Passed? ==> SameStop(call, measured, mid, highest)
    ensures call(mid).Passed? ==>
              if (highest as int - mid as int) * 10 < highest as int
              then Stops(call, measured, true) else SameStop(call, measured, lowest, mid)
  {
  }

  lemma StopStart(call: u64 -> Probe, measured: u64)
    requires 3 * measured as int < 0x1_0000_0000_0000_0000
    ensures SameStop(call, measured, measured, measured * 3)
  {
  }

  lemma StopEnd(call: u64 -> Probe, measured: u64, lowest: u64, highest: u64)
    requires highest as int - lowest as int <= 1 && SameStop(call, measured, lowest, highest)
    ensures Stops(call, measured, false)
  {
  }

  // ---- The search ----

  class Executor {
    var gasLimit: u64
    const call: u64 -> Probe

    constructor (gasLimit: u64, call: u64 -> Probe)
      ensures this.gasLimit == gasLimit && this.call == call
    {
      this.gasLimit, this.call := gasLimit, call;
    }
  }

  /**
    The search after a successful first call that measured `measured` gas.
    `early` tells whether the accuracy test ended it; `below` is then the largest
    limit known to be too small, or the measured gas when none was found.
   */
  method EstimateGas(exec: Executor, measured: u64)
    returns (gasUsed: Option<u64>, ghost early: bool, ghost below: u64, ghost probes: seq<u64>)
    requires 10 * measured as int < 0x1_0000_0000_0000_0000
    modifies exec
    // Probing: strictly inside the range, a logarithmic number of times.
    ensures Probed(exec.call, measured, probes, gasUsed.None?)
    ensures |probes| <= CeilLog2(2 * measured as int)
    // An executor error ends the search and leaves the probed limit in place.
    ensures gasUsed.None? ==> probes != [] && exec.gasLimit == probes[|probes| - 1]
    ensures gasUsed.Some? ==> exec.gasLimit == old(exec.gasLimit)
    // The early stop depends only on where probes begin to pass.
    ensures gasUsed.Some? ==> Stops(exec.call, measured, early)
    // Without the early stop the measured gas is returned unchanged.
    ensures gasUsed.Some? && !early ==> gasUsed.value == measured
    ensures gasUsed.Some? && early ==>
              && gasUsed.value in probes && exec.call(gasUsed.value).Passed?
              && measured <= below < gasUsed.value
              && (below == measured || (below in probes && !exec.call(below).Passed?))
              && 9 * (gasUsed.value as int - below as int) < gasUsed.value as int
  {
    hide CeilLog2, SameStop, Stops, Probed, CloseEnough;
    StopStart(exec.call, measured);
    ProbedNone(exec.call, measured);
    gasUsed, early, below, probes := Some(measured), false, measured, [];
    var initGasLimit := exec.gasLimit;
    var highest := measured * 3;
    var lowest := measured;
    var lastHighest := highest;
    while highest - lowest > 1
      invariant measured <= lowest <= highest <= measured * 3 && lastHighest == highest
      invariant gasUsed == Some(measured) && !early
      invariant lowest == measured || (lowest in probes && !exec.call(lowest).Passed?)
      invariant Probed(exec.call, measured, probes, false)
      invariant SameStop(exec.call, measured, lowest, highest)
      invariant |probes| + CeilLog2((highest - lowest) as int) <= CeilLog2(2 * measured as int)
      decreases highest - lowest
    {
      var mid := (highest + lowest) / 2;
      exec.gasLimit := mid;
      Midpoint(lowest as int, highest as int, mid as int);
      StopStep(exec.call, measured, lowest, highest, mid);
      ProbedSnoc(exec.call, measured, probes, mid);
      probes := probes + [mid];
      var res := exec.call(mid);
      if res.Failed? {
        assert probes[|probes| - 1] == mid;
        gasUsed := None;
        return;
      }
      if res.Revert? || res.OutOfGas? || res.OutOfFund? {
        lowest := mid;
      } else {
        highest := mid;
        WithinTenth(lowest, mid, lastHighest);
        if CloseEnough(lastHighest, highest) {
          gasUsed, early, below := Some(highest), true, lowest;
          break;
        }
        lastHighest := highest;
      }
    }
    if !early {
      StopEnd(exec.call, measured, lowest, highest);
    }
    exec.gasLimit := initGasLimit;
  }

  /**
    What the search is worth when probes pass exactly from a threshold t at or
    above the measured gas. After an early stop the limit is sufficient and
    exceeds t by less than a ninth of itself; otherwise the measured gas comes
    back, which is too small unless it is itself the threshold. From 28 gas on
    that happens exactly for the stalling thresholds.
   */
  method EstimateGasAboveThreshold(exec: Executor, measured: u64, ghost t: nat)
    returns (gasUsed: u64, ghost early: bool)
    requires 10 * measured as int < 0x1_0000_0000_0000_0000
    requires Threshold(exec.call, t) && measured as int <= t
    requires forall limit: u64 :: !exec.call(limit).Failed?
    modifies exec
    ensures exec.gasLimit == old(exec.gasLimit)
    ensures early ==> t <= gasUsed as int && 9 * (gasUsed as int - t) < gasUsed as int
    ensures t <= gasUsed as int <==> early || t == measured as int
    ensures early == StopsEarly(measured as int, 3 * measured as int, t)
    ensures measured >= 28 ==> (early <==> !Stalls(measured as int, t))
  {
    var r;
    ghost var below, probes;
    r, early, below, probes := EstimateGas(exec, measured);
    gasUsed := r.value;
    if measured >= 28 {
      StopsExactly(measured as int, t);
    }
  }
}

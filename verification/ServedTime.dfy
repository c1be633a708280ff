/**
  How well the served time follows GPS time: the captured crystal rate is smoothed by a truncating
  integer filter, the smoothed rate goes into each anchor, and the anchor is what time is served from.
 */
module ServedTime {
  import opened Wrappers
  import opened MachineInts
  import opened PpsState
  import opened PpsSync
  import opened ClosedLoop
  import opened AnchoredTime

  // ---- The rate filter on a constant reading ----

  /** One step of the filter on the reading `raw`; a mean of exactly zero is taken for "not yet set". */
  function Smoothed(mean: int, raw: int): int {
    if mean == 0 then raw * 256 else mean + TruncDiv(raw * 256 - mean, 16)
  }

  function SmoothedTimes(mean: int, raw: int, n: nat): int {
    if n == 0 then mean else Smoothed(SmoothedTimes(mean, raw, n - 1), raw)
  }

  function Gap(mean: int, raw: int): nat {
    Abs(raw * 256 - mean)
  }

  /** A step never widens the gap, and narrows a gap of 16u or more by at least u. */
  lemma StepNarrowsGap(mean: int, raw: int, u: nat)
    ensures Gap(Smoothed(mean, raw), raw) <= Gap(mean, raw)
    ensures Gap(mean, raw) >= 16 * u ==> Gap(Smoothed(mean, raw), raw) <= Gap(mean, raw) - u
  {
  }

  lemma {:induction false} StepsNarrowGap(mean: int, raw: int, u: nat, n: nat)
    requires Gap(mean, raw) <= 32 * u
    ensures Gap(SmoothedTimes(mean, raw, n), raw) <= Max(16 * u, 32 * u - n * u)
  {
    if n > 0 {
      StepsNarrowGap(mean, raw, u, n - 1);
      StepNarrowsGap(SmoothedTimes(mean, raw, n - 1), raw, u);
      assert (n - 1) * u == n * u - u;
    }
  }

  lemma {:induction false} StepsCompose(mean: int, raw: int, m: nat, n: nat)
    ensures SmoothedTimes(mean, raw, m + n) == SmoothedTimes(SmoothedTimes(mean, raw, m), raw, n)
  {
    if n > 0 { StepsCompose(mean, raw, m, n - 1); }
  }

  function Power2(j: nat): nat {
    if j == 0 then 1 else 2 * Power2(j - 1)
  }

  /** Sixteen steps halve the gap, so it is down to 16 after 16 steps for every halving. */
  lemma {:induction false} GapHalves(mean: int, raw: int, j: nat)
    requires Gap(mean, raw) <= 32 * Power2(j)
    ensures Gap(SmoothedTimes(mean, raw, 16 * (j + 1)), raw) <= 16
    decreases j
  {
    StepsNarrowGap(mean, raw, Power2(j), 16);
    if j > 0 {
      GapHalves(SmoothedTimes(mean, raw, 16), raw, j - 1);
      StepsCompose(mean, raw, 16, 16 * j);
    }
  }

  const SETTLING_EDGES := 353

  lemma {:induction false} GapStaysSmall(mean: int, raw: int, n: nat)
    ensures Gap(SmoothedTimes(mean, raw, n), raw) <= Gap(mean, raw)
  {
    if n > 0 {
      GapStaysSmall(mean, raw, n - 1);
      StepNarrowsGap(SmoothedTimes(mean, raw, n - 1), raw, 0);
    }
  }

  /** From any mean the device can hold, the smoothed rate is within 1 ppb of the reading after 353 edges. */
  lemma {:induction false} RateSettles(mean: int, raw: int, n: nat)
    requires -RATE_LIMIT_PPB < raw < RATE_LIMIT_PPB && Abs(mean) <= (RATE_LIMIT_PPB - 1) * 256 && n >= SETTLING_EDGES
    ensures -1 <= TruncDiv(SmoothedTimes(mean, raw, n), 256) - raw <= 1
  {
    assert Power2(7) == 128 && Power2(14) == 16384 && Power2(21) == 2097152;
    GapHalves(mean, raw, 21);
    var near := SmoothedTimes(mean, raw, 352);
    StepNarrowsGap(near, raw, 1);
    var m := SmoothedTimes(mean, raw, 353);
    assert Gap(m, raw) <= 15;
    GapStaysSmall(m, raw, n - 353);
    StepsCompose(mean, raw, 353, n - 353);
  }

  // ---- The device on a constant capture ----

  /** The capture shows `interval` ticks of 12.5 ns at every edge, less than 100 ppm off nominal. */
  predicate ConstantCapture(inputs: seq<PulseInput>, interval: U32) {
    && -8000 < interval - CAPTURE_HZ < 8000
    && forall n :: 0 <= n < |inputs| ==> inputs[n].capCount >= 3 && inputs[n].capInterval == interval
  }

  lemma CaptureReading(interval: U32)
    requires -8000 < interval - CAPTURE_HZ < 8000
    ensures -RATE_LIMIT_PPB < CapturePpb(interval) < RATE_LIMIT_PPB
    ensures Abs(25 * (interval - CAPTURE_HZ) - 2 * CapturePpb(interval)) <= 1
  {
    var x := interval - CAPTURE_HZ;
    var t := TruncDiv(x * 1000000000, CAPTURE_HZ);
    assert Abs(25 * x - 2 * t) <= 1;
    assert Signed32(Wrap(t)) == t;
  }

  lemma {:induction false} DeviceFollowsFilter(
      gain: int, states: seq<Pps>, inputs: seq<PulseInput>, talk: seq<seq<Handler>>, clocks: seq<int>,
      interval: U32, n: nat)
    requires -50 < gain < 50 && IsClosedLoop(gain, states, inputs, talk, clocks) && n <= |inputs|
    requires ConstantCapture(inputs, interval)
    ensures states[n].rateMean256 == SmoothedTimes(states[0].rateMean256, CapturePpb(interval), n)
  {
    if n > 0 {
      DeviceFollowsFilter(gain, states, inputs, talk, clocks, interval, n - 1);
      EdgeOfLoop(gain, states, inputs, talk, clocks, n - 1);
      CaptureReading(interval);
    }
  }

  // ---- Against GPS time ----

  /** The GPS microseconds that pass while micros() advances by `elapsed`, at `interval` ticks a GPS second. */
  function GpsElapsed(elapsed: nat, interval: U32): real
    requires interval > 0
  {
    elapsed as real * CAPTURE_HZ as real / interval as real
  }

  lemma TrueElapsedIsBounded(e: nat, p: int)
    requires e <= MAX_ELAPSED_US && -100000 < p < 100000
    ensures 0.0 <= TrueElapsed(e, p) <= 2001000.0
  {
    var x, d := TrueElapsed(e, p), (GIGA + p) as real;
    assert x * d == e as real * 1000000000.0;
    assert (x - 2001000.0) * d == x * d - 2001000.0 * d < 0.0;
    SignOfProduct(x, d);
    SignOfProduct(x - 2001000.0, d);
  }

  lemma ProductIsBounded(x: real, m: real)
    requires 0.0 <= x <= 2001000.0 && -4.0 <= m <= 4.0
    ensures -8004000.0 <= x * m <= 8004000.0
  {
    NonNegProduct(x, 4.0 - m);
    NonNegProduct(x, 4.0 + m);
  }

  lemma NonNegProduct(x: real, y: real)
    requires x >= 0.0 && y >= 0.0
    ensures x * y >= 0.0
  {
  }

  /** An assumed rate within 2 ppb of the true one costs less than a hundredth of a microsecond. */
  lemma RateMismatchIsSmall(e: nat, p: int, interval: U32)
    requires e <= MAX_ELAPSED_US && -8000 < interval - CAPTURE_HZ < 8000 && -100000 < p < 100000
    requires Abs(25 * (interval - CAPTURE_HZ) - 2 * p) <= 4
    ensures -0.01 <= TrueElapsed(e, p) - GpsElapsed(e, interval) <= 0.01
  {
    var x, d, iv, ticks := TrueElapsed(e, p), (GIGA + p) as real, interval as real, e as real * CAPTURE_HZ as real;
    assert x * d == e as real * 1000000000.0;
    TrueElapsedIsBounded(e, p);
    var miss := 25.0 * iv - 2.0 * d;
    assert miss == (25 * (interval - CAPTURE_HZ) - 2 * p) as real;
    ProductIsBounded(x, miss);
    assert 25.0 * (x * iv - ticks) == x * miss by {
      assert x * miss == 25.0 * (x * iv) - 2.0 * (x * d);
    }
    DivideThrough(x, ticks, iv, 0.01);
  }

  /**
    End to end: on a crystal of constant rate, with the hardware rate selected, every anchor from the
    353rd edge on serves GPS time to within 1.04 us until the next edge and for two seconds in all.
   */
  lemma {:induction false} ServedTimeFollowsGps(
      gain: int, states: seq<Pps>, inputs: seq<PulseInput>, talk: seq<seq<Handler>>, clocks: seq<int>,
      interval: U32, n: nat, edge: int, at: int)
    requires -50 < gain < 50 && IsClosedLoop(gain, states, inputs, talk, clocks)
    requires ConstantCapture(inputs, interval) && SETTLING_EDGES <= n + 1 && n < |inputs| && states[n].useHwRate
    requires inputs[n].edgeMicros == Wrap(edge) && 0 <= at - edge <= MAX_ELAPSED_US
    ensures var served, second := AnchorEpochUs(states[n + 1].anchor, at), states[0].epoch + n + 1;
      && served.Some?
      && -1.04 <= (served.value - second * SECOND) as real - GpsElapsed(at - edge, interval) <= 1.04
  {
    EdgeOfLoop(gain, states, inputs, talk, clocks, n);
    DeviceFollowsFilter(gain, states, inputs, talk, clocks, interval, n + 1);
    CaptureReading(interval);
    RateSettles(states[0].rateMean256, CapturePpb(interval), n + 1);
    WrappedDifference(at, edge);
    var a := states[n + 1].anchor;
    CorrectedIsAccurate(at - edge, a.ratePpb);
    RateMismatchIsSmall(at - edge, a.ratePpb, interval);
  }
}

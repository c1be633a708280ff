/**
  The discipline loop closed around a crystal with a constant error: each correction is finished
  before the next edge, and each second the clock gains D microseconds.

  The integer mean and the one-second delay between measuring and seeing the correction make this a
  delayed recurrence with truncating division; what it settles to is not zero but about half of D.
 */
module ClosedLoop {
  import opened MachineInts
  import opened PpsState
  import opened PpsSync

  // ---- The recurrence ----

  /** The mean before an edge and the drift measured at it. */
  datatype Point = Point(mean: int, drift: int)

  /** `n` edges after `start`. */
  function Loop(gain: int, start: Point, n: nat): Point {
    if n == 0 then start else Advance(gain, Loop(gain, start, n - 1))
  }

  function Advance(gain: int, p: Point): Point {
    Point(DriftMean(p.mean, p.drift), gain - TruncDiv(p.mean, 256))
  }

  /** Where the drift settles: half of D, rounded away from zero. */
  function HalfUp(gain: int): int {
    if gain >= 0 then gain - gain / 2 else -(-gain - -gain / 2)
  }

  /** The mean still leans too little. Every edge adds at least 2 to it. */
  predicate Rising(gain: nat, n: nat, p: Point) {
    && 2 * n - 100 <= p.mean < 256 * (gain / 2)
    && -98 <= p.mean && gain / 2 > 0
    && gain - TruncDiv(p.mean, 256) <= p.drift <= gain
  }

  /** The mean just got there; the drift still shows the lean of one edge before. */
  predicate Crossing(gain: nat, p: Point) {
    && 256 * (gain / 2) <= p.mean <= 256 * (gain / 2) + 97
    && gain - gain / 2 <= p.drift <= gain
  }

  predicate Settled(gain: nat, p: Point) {
    && p.drift == gain - gain / 2
    && (if gain / 2 == 0 then -98 <= p.mean else 256 * (gain / 2) <= p.mean)
    && p.mean <= 256 * (gain / 2) + 255
  }

  /** From the second edge on the loop rises, crosses, and stays settled. */
  lemma {:induction false} LoopPhases(gain: nat, first: int, n: nat)
    requires gain < 50 && n >= 1
    ensures var p := Loop(gain, Point(0, first), n);
      Rising(gain, n, p) || Crossing(gain, p) || Settled(gain, p)
    ensures n >= 2 && !Rising(gain, n - 1, Loop(gain, Point(0, first), n - 1)) ==>
      Settled(gain, Loop(gain, Point(0, first), n))
  {
    if n > 1 {
      LoopPhases(gain, first, n - 1);
      PhaseStep(gain, n - 1, Loop(gain, Point(0, first), n - 1));
    }
  }

  lemma {:induction false} PhaseStep(gain: nat, n: nat, p: Point)
    requires gain < 50
    ensures Rising(gain, n, p) ==> Rising(gain, n + 1, Advance(gain, p)) || Crossing(gain, Advance(gain, p))
    ensures Crossing(gain, p) || Settled(gain, p) ==> Settled(gain, Advance(gain, p))
  {
  }

  /** The number of edges after which the loop has settled, whatever the first reading was. */
  function SettlingEdges(gain: int): nat {
    128 * (Abs(gain) / 2) + 52
  }

  /** The drift lies between D and half of D, on D's side of zero. */
  predicate BetweenHalfAndWhole(drift: int, gain: int) {
    if gain >= 0 then HalfUp(gain) <= drift <= gain else gain <= drift <= HalfUp(gain)
  }

  /** What convergence means at edge `n`. */
  predicate Converged(gain: int, n: nat, drift: int) {
    BetweenHalfAndWhole(drift, gain) && (n >= SettlingEdges(gain) ==> drift == HalfUp(gain))
  }

  lemma {:induction false} LoopOfGain(gain: nat, first: int, n: nat)
    requires gain < 50 && n >= 1
    ensures Converged(gain, n, Loop(gain, Point(0, first), n).drift)
  {
    LoopPhases(gain, first, n);
    if n >= SettlingEdges(gain) {
      LoopPhases(gain, first, n - 1);
    }
  }

  lemma {:induction false} AdvanceIsOdd(gain: int, p: Point)
    ensures Advance(-gain, Mirror(p)) == Mirror(Advance(gain, p))
  {
    TruncDivOdd(p.mean, 256);
    TruncDivOdd(p.drift * 256 - p.mean, 128);
  }

  function Mirror(p: Point): Point {
    Point(-p.mean, -p.drift)
  }

  /** A slow crystal behaves as the mirror image of a fast one, because the division truncates. */
  lemma {:induction false} LoopIsOdd(gain: int, start: Point, n: nat)
    ensures Loop(-gain, Mirror(start), n) == Mirror(Loop(gain, start, n))
  {
    if n > 0 {
      LoopIsOdd(gain, start, n - 1);
      AdvanceIsOdd(gain, Loop(gain, start, n - 1));
    }
  }

  lemma {:induction false} ConvergedIsOdd(gain: int, n: nat, drift: int)
    requires gain > 0 && Converged(gain, n, drift)
    ensures Converged(-gain, n, -drift)
  {
  }

  lemma {:induction false} LoopConverges(gain: int, first: int, n: nat)
    requires -50 < gain < 50 && n >= 1
    ensures Converged(gain, n, Loop(gain, Point(0, first), n).drift)
  {
    if gain >= 0 {
      LoopOfGain(gain, first, n);
    } else {
      LoopOfGain(-gain, -first, n);
      LoopIsOdd(gain, Point(0, first), n);
      ConvergedIsOdd(-gain, n, Loop(-gain, Point(0, -first), n).drift);
    }
  }

  // ---- The device in the loop ----

  /** The correction that the slew will have applied by the next edge. */
  function SlewOf(actions: seq<ClockAction>): int {
    if |actions| == 1 && actions[0].Slew? then actions[0].sec * SECOND + actions[0].usec else 0
  }

  predicate Serving(s: Pps) {
    Inv(s) && s.synced && s.epoch > 0 && !s.satellites.NoneReported()
  }

  // ---- Between two edges ----

  /** Nothing for the device to act on: satellites are reported, and clock and epoch agree with the sentence. */
  predicate ShowsNoError(s: Pps, n: Sentence) {
    && !n.satellites.NoneReported()
    && (n.usable && n.year >= 2025 ==>
          && SecondsOff(DeltaMs(n.nowUs, n.stamp)) == 0
          && (n.pending || -2 <= n.stamp - s.epoch <= 2))
  }

  /** Any number of such sentences, and of flips of the rate switch. */
  predicate Quiet(s: Pps, hs: seq<Handler>) {
    hs == [] ||
    (var front, h := hs[..|hs| - 1], hs[|hs| - 1];
     Quiet(s, front) && !h.Pulse? && (h.Nmea? ==> ShowsNoError(After(s, front), h.n)))
  }

  /** `t` is `s` but for what quiet handlers touch. */
  predicate Alike(s: Pps, t: Pps) {
    t == s.(satellites := t.satellites, errorStreak := t.errorStreak, useHwRate := t.useHwRate)
  }

  lemma QuietSentence(s: Pps, n: Sentence)
    requires Serving(s) && ShowsNoError(s, n)
    ensures ApplySentence(s, n).actions == []
    ensures Alike(s, ApplySentence(s, n).state) && Serving(ApplySentence(s, n).state)
  {
  }

  lemma {:induction false} QuietKeepsServing(s: Pps, hs: seq<Handler>)
    requires Serving(s) && Quiet(s, hs)
    ensures Alike(s, After(s, hs)) && Serving(After(s, hs))
  {
    if hs != [] {
      var front, h := hs[..|hs| - 1], hs[|hs| - 1];
      QuietKeepsServing(s, front);
      if h.Nmea? { QuietSentence(After(s, front), h.n); }
    }
  }

  /**
    A run of the real handlers: `clocks[n]` is the system clock at edge `n`, `talk[n]` what comes
    after it. Edges come every 1000000 + D ticks of micros(), which shares the crystal; the clock
    gains as much plus the slew.
   */
  predicate IsClosedLoop(
      gain: int, states: seq<Pps>, inputs: seq<PulseInput>, talk: seq<seq<Handler>>, clocks: seq<int>) {
    && |states| == |inputs| + 1 && |clocks| == |talk| == |inputs| > 0
    && Serving(states[0])
    && -100000 <= clocks[0] - (states[0].epoch + 1) * SECOND <= 100000
    && (forall n :: 0 <= n < |inputs| ==> SecondAt(gain, states, inputs, talk, clocks, n))
  }

  predicate SecondAt(
      gain: int, states: seq<Pps>, inputs: seq<PulseInput>, talk: seq<seq<Handler>>, clocks: seq<int>, n: nat)
    requires n < |inputs| && |states| == |inputs| + 1 && |clocks| == |talk| == |inputs|
  {
    && EdgeAndTalk(gain, states[n], inputs[n], talk[n], states[n + 1], clocks[n])
    && (n + 1 < |clocks| ==>
          clocks[n + 1] == clocks[n] + SECOND + gain + SlewOf(ApplyPulse(states[n], inputs[n]).actions))
  }

  /** The loop's start: the mean that the device holds, and the drift of the first edge. */
  function StartOf(states: seq<Pps>, clocks: seq<int>): Point
    requires states != [] && clocks != []
  {
    Point(states[0].driftMean256, clocks[0] - (states[0].epoch + 1) * SECOND)
  }

  /** One second of it. */
  predicate EdgeAndTalk(gain: int, s: Pps, i: PulseInput, hs: seq<Handler>, s': Pps, clock: int) {
    && Sub32(i.edgeMicros, s.prevMicros) == SECOND + gain && SystemAtEdge(i) == clock
    && Quiet(ApplyPulse(s, i).state, hs) && s' == After(ApplyPulse(s, i).state, hs)
  }

  /** One edge in normal operation. */
  lemma {:induction false} NormalEdge(s: Pps, i: PulseInput, gain: int)
    requires Serving(s) && -50 < gain < 50
    requires Sub32(i.edgeMicros, s.prevMicros) == SECOND + gain
    requires -100000 <= SystemAtEdge(i) - (s.epoch + 1) * SECOND <= 100000
    ensures var o, drift := ApplyPulse(s, i), SystemAtEdge(i) - (s.epoch + 1) * SECOND;
      && Serving(o.state) && o.state.epoch == s.epoch + 1
      && o.state.driftUs == drift
      && o.state.driftMean256 == DriftMean(s.driftMean256, drift)
      && o.state.offsetUs == (if -50 < drift < 50 then drift else TruncDiv(s.driftMean256, 256))
      && SlewOf(o.actions) == CorrectionUs(drift, s.driftMean256)
      && o.state.rateMean256 == RateMean(s.rateMean256, i) && o.state.useHwRate == s.useHwRate
      && o.state.anchor.epoch == s.epoch + 1 && o.state.anchor.micros == i.edgeMicros
      && o.state.anchor.ratePpb == (if i.capCount >= 3 && s.useHwRate then TruncDiv(o.state.rateMean256, 256)
                                    else TruncDiv(o.state.driftMean256, 256) * 1000)
  {
    PulseKeepsInv(s, i);
    var c := s.(count := s.count + 1, lastPulseMillis := i.millis);
    assert ExtraEpochs(SECOND + gain) == 0;
    assert ApplyPulse(s, i) == Discipline(Measure(c, i), i);
    SlewPairIsCorrection(CorrectionUs(Measure(c, i).driftUs, c.driftMean256));
  }

  lemma {:induction false} DeviceFollowsLoop(
      gain: int, states: seq<Pps>, inputs: seq<PulseInput>, talk: seq<seq<Handler>>, clocks: seq<int>, n: nat)
    requires -50 < gain < 50 && IsClosedLoop(gain, states, inputs, talk, clocks) && n < |inputs|
    ensures var p := Loop(gain, StartOf(states, clocks), n);
      && Serving(states[n]) && states[n].epoch == states[0].epoch + n
      && p == Point(states[n].driftMean256, clocks[n] - (states[n].epoch + 1) * SECOND)
      && -100000 <= p.drift <= 100000
  {
    if n > 0 {
      DeviceFollowsLoop(gain, states, inputs, talk, clocks, n - 1);
      assert SecondAt(gain, states, inputs, talk, clocks, n - 1);
      NormalEdge(states[n - 1], inputs[n - 1], gain);
      QuietKeepsServing(ApplyPulse(states[n - 1], inputs[n - 1]).state, talk[n - 1]);
    }
  }

  /** What edge `n` of such a run does, seen in the state before the next edge. */
  lemma {:induction false} EdgeOfLoop(
      gain: int, states: seq<Pps>, inputs: seq<PulseInput>, talk: seq<seq<Handler>>, clocks: seq<int>, n: nat)
    requires -50 < gain < 50 && IsClosedLoop(gain, states, inputs, talk, clocks) && n < |inputs|
    ensures var s, s', i := states[n], states[n + 1], inputs[n];
      && Serving(s) && Serving(s') && s.epoch == states[0].epoch + n && s'.epoch == s.epoch + 1
      && s'.driftUs == clocks[n] - (s.epoch + 1) * SECOND
      && s'.driftMean256 == DriftMean(s.driftMean256, s'.driftUs)
      && s'.offsetUs == (if -50 < s'.driftUs < 50 then s'.driftUs else TruncDiv(s.driftMean256, 256))
      && s'.rateMean256 == RateMean(s.rateMean256, i)
      && s'.anchor.epoch == s'.epoch && s'.anchor.micros == i.edgeMicros
      && s'.anchor.ratePpb == (if i.capCount >= 3 && s.useHwRate then TruncDiv(s'.rateMean256, 256)
                               else TruncDiv(s'.driftMean256, 256) * 1000)
  {
    DeviceFollowsLoop(gain, states, inputs, talk, clocks, n);
    assert SecondAt(gain, states, inputs, talk, clocks, n);
    NormalEdge(states[n], inputs[n], gain);
    QuietKeepsServing(ApplyPulse(states[n], inputs[n]).state, talk[n]);
  }

  /**
    After a fresh sync, with a crystal that gains D microseconds a second, |D| < 50, the drift the
    device measures is between half of D and D from the second edge on, so no reading is filtered as
    a spike; and after at most 128 * floor(|D| / 2) + 52 edges it is, and stays, D / 2 rounded away from zero.
    Sentences that show no error may come at any time.
   */
  lemma {:induction false} DisciplineConverges(
      gain: int, states: seq<Pps>, inputs: seq<PulseInput>, talk: seq<seq<Handler>>, clocks: seq<int>, n: nat)
    requires -50 < gain < 50 && IsClosedLoop(gain, states, inputs, talk, clocks) && 1 <= n < |inputs|
    requires states[0].driftMean256 == 0
    ensures states[n + 1].synced && BetweenHalfAndWhole(states[n + 1].driftUs, gain)
    ensures states[n + 1].offsetUs == states[n + 1].driftUs
    ensures n >= SettlingEdges(gain) ==> states[n + 1].driftUs == HalfUp(gain)
  {
    DeviceFollowsLoop(gain, states, inputs, talk, clocks, n);
    EdgeOfLoop(gain, states, inputs, talk, clocks, n);
    LoopConverges(gain, clocks[0] - (states[0].epoch + 1) * SECOND, n);
  }

  /**
    Once settled, with the hardware rate switched off or not yet captured, every anchor carries the part
    of D that the drift does not show, in ppb: half of the crystal's error, rounded toward zero.
   */
  lemma {:induction false} LegacyRateIsHalfTheError(
      gain: int, states: seq<Pps>, inputs: seq<PulseInput>, talk: seq<seq<Handler>>, clocks: seq<int>, n: nat)
    requires -50 < gain < 50 && IsClosedLoop(gain, states, inputs, talk, clocks)
    requires SettlingEdges(gain) <= n < |inputs| && states[0].driftMean256 == 0
    requires inputs[n].capCount < 3 || !states[n].useHwRate
    ensures states[n + 1].anchor.ratePpb == 1000 * (gain - HalfUp(gain))
    ensures states[n + 1].anchor.ratePpb == 1000 * TruncDiv(gain, 2)
  {
    EdgeOfLoop(gain, states, inputs, talk, clocks, n);
    MeanOfEdge(gain, states, inputs, talk, clocks, n);
    LeanWhenSettled(gain, clocks[0] - (states[0].epoch + 1) * SECOND, n);
  }

  /** The mean an edge leaves is the loop's next. */
  lemma {:induction false} MeanOfEdge(
      gain: int, states: seq<Pps>, inputs: seq<PulseInput>, talk: seq<seq<Handler>>, clocks: seq<int>, n: nat)
    requires -50 < gain < 50 && IsClosedLoop(gain, states, inputs, talk, clocks) && n < |inputs|
    ensures states[n + 1].driftMean256 == Loop(gain, StartOf(states, clocks), n + 1).mean
  {
    DeviceFollowsLoop(gain, states, inputs, talk, clocks, n);
    EdgeOfLoop(gain, states, inputs, talk, clocks, n);
    LoopStep(gain, StartOf(states, clocks), n, Point(states[n].driftMean256, states[n + 1].driftUs));
  }

  lemma LoopStep(gain: int, start: Point, n: nat, p: Point)
    requires p == Loop(gain, start, n)
    ensures Loop(gain, start, n + 1) == Advance(gain, p)
  {
  }

  /** After a settled edge the mean leans by what the next drift will not show. */
  lemma {:induction false} LeanWhenSettled(gain: int, first: int, n: nat)
    requires -50 < gain < 50 && n >= SettlingEdges(gain)
    ensures TruncDiv(Loop(gain, Point(0, first), n + 1).mean, 256) == gain - HalfUp(gain)
    ensures gain - HalfUp(gain) == TruncDiv(gain, 2)
  {
    LoopConverges(gain, first, n + 2);
    LoopStep(gain, Point(0, first), n + 1, Loop(gain, Point(0, first), n + 1));
  }
}

/**
  The discipline loop from any mean the device can hold, as after the crystal's error has changed.

  Readings of 50 us or more do not move the mean. If the loop's own drift is that large, it never
  moves again; otherwise it settles where it would have settled from a fresh sync.
 */
module Reconvergence {
  import opened MachineInts
  import opened PpsState
  import opened PpsSync
  import opened ClosedLoop

  const MEAN_MAX := 49 * 256
  const STEP_MAX := 196

  /** The part of the mean that is taken off every correction. */
  function Lean(mean: int): int {
    TruncDiv(mean, 256)
  }

  /** What `ReachableStatesKeepInv` says of the mean. */
  predicate Bounded(mean: int) {
    -MEAN_MAX <= mean <= MEAN_MAX
  }

  lemma MeanStep(mean: int, drift: int)
    requires Bounded(mean)
    ensures Bounded(DriftMean(mean, drift)) && Abs(DriftMean(mean, drift) - mean) <= STEP_MAX
  {
  }

  // ---- One edge, for a fast crystal ----

  /** The mean after an edge at which the drift still showed the lean of `prev`. */
  function NextMean(gain: int, prev: int, mean: int): int {
    DriftMean(mean, gain - Lean(prev))
  }

  lemma BelowRises(gain: nat, prev: int, mean: int)
    requires gain < 50 && Bounded(prev) && Bounded(mean) && Lean(mean) < gain / 2
    requires prev <= mean && gain - Lean(prev) < 50
    ensures mean + 2 <= NextMean(gain, prev, mean) <= mean + STEP_MAX
  {
    assert Lean(prev) <= Lean(mean);
  }

  lemma AboveFalls(gain: nat, prev: int, mean: int)
    requires gain < 50 && Bounded(prev) && Bounded(mean) && Lean(mean) > gain / 2 && prev >= mean
    ensures mean - STEP_MAX <= NextMean(gain, prev, mean) <= mean - 2
  {
    assert Lean(prev) >= Lean(mean);
  }

  lemma InsideStays(gain: nat, prev: int, mean: int)
    requires gain < 50 && Lean(mean) == gain / 2 && (Abs(mean - prev) <= STEP_MAX || Lean(prev) == gain / 2)
    ensures Lean(NextMean(gain, prev, mean)) == gain / 2
  {
    var h, d := gain / 2, gain - Lean(prev);
    assert h - 1 <= Lean(prev) <= h + 1;
    if Lean(prev) == h - 1 {
      assert mean <= 256 * h - 1 + STEP_MAX;
    } else if Lean(prev) == h + 1 {
      assert mean >= 256 * (h + 1) - STEP_MAX;
    }
  }

  /** Right after a disturbance the lag of one edge may show the wrong way; one edge puts it right. */
  lemma LagTurns(gain: nat, prev: int, mean: int)
    requires gain < 50 && Bounded(prev) && Bounded(mean) && Abs(mean - prev) <= STEP_MAX
    ensures Lean(mean) < gain / 2 ==> NextMean(gain, prev, mean) >= mean
    ensures Lean(mean) > gain / 2 ==> NextMean(gain, prev, mean) <= mean
  {
    assert Lean(mean) - 1 <= Lean(prev) <= Lean(mean) + 1;
  }

  // ---- Moving pairs ----

  /** Two consecutive means between which the loop is on its way to where it settles. */
  predicate OnTheWay(gain: nat, prev: int, mean: int) {
    && Bounded(prev) && Bounded(mean) && Abs(mean - prev) <= STEP_MAX
    && (Lean(mean) < gain / 2 ==> prev <= mean && gain - Lean(prev) < 50)
    && (Lean(mean) > gain / 2 ==> prev >= mean)
  }

  /** How far the mean still has to go. */
  function Distance(gain: nat, mean: int): nat {
    if Lean(mean) == gain / 2 then 0 else Abs(mean - 256 * (gain / 2))
  }

  /** An edge keeps the loop on its way, and two nearer if it is not there yet. */
  predicate StepsOn(gain: nat, prev: int, mean: int) {
    var next := NextMean(gain, prev, mean);
    OnTheWay(gain, mean, next) && Distance(gain, next) <= Max(0, Distance(gain, mean) - 2)
  }

  lemma OnTheWayFromBelow(gain: nat, prev: int, mean: int)
    requires gain < 50 && OnTheWay(gain, prev, mean) && Lean(mean) < gain / 2
    ensures StepsOn(gain, prev, mean)
  {
    MeanStep(mean, gain - Lean(prev));
    BelowRises(gain, prev, mean);
    assert Lean(prev) <= Lean(mean);
  }

  lemma OnTheWayFromAbove(gain: nat, prev: int, mean: int)
    requires gain < 50 && OnTheWay(gain, prev, mean) && Lean(mean) > gain / 2
    ensures StepsOn(gain, prev, mean)
  {
    MeanStep(mean, gain - Lean(prev));
    AboveFalls(gain, prev, mean);
  }

  lemma OnTheWayStep(gain: nat, prev: int, mean: int)
    requires gain < 50 && OnTheWay(gain, prev, mean)
    ensures StepsOn(gain, prev, mean)
  {
    if Lean(mean) < gain / 2 {
      OnTheWayFromBelow(gain, prev, mean);
    } else if Lean(mean) > gain / 2 {
      OnTheWayFromAbove(gain, prev, mean);
    } else {
      MeanStep(mean, gain - Lean(prev));
      InsideStays(gain, prev, mean);
    }
  }

  datatype Pair = Pair(prev: int, mean: int)

  /** `k` edges on. */
  function Walk(gain: int, p: Pair, k: nat): Pair {
    if k == 0 then p
    else
      var q := Walk(gain, p, k - 1);
      Pair(q.mean, NextMean(gain, q.prev, q.mean))
  }

  lemma {:induction false} WalkLeadsHome(gain: nat, p: Pair, k: nat)
    requires gain < 50 && OnTheWay(gain, p.prev, p.mean)
    ensures var q := Walk(gain, p, k);
      OnTheWay(gain, q.prev, q.mean) && Distance(gain, q.mean) <= Max(0, Distance(gain, p.mean) - 2 * k)
  {
    if k > 0 {
      WalkLeadsHome(gain, p, k - 1);
      var q := Walk(gain, p, k - 1);
      OnTheWayStep(gain, q.prev, q.mean);
    }
  }

  lemma {:induction false} WalkComposes(gain: int, p: Pair, j: nat, k: nat)
    ensures Walk(gain, p, j + k) == Walk(gain, Walk(gain, p, j), k)
  {
    if k > 0 { WalkComposes(gain, p, j, k - 1); }
  }

  /** A disturbed pair: its lag may show the wrong way. */
  predicate Disturbed(p: Pair) {
    Bounded(p.prev) && Bounded(p.mean) && Abs(p.mean - p.prev) <= STEP_MAX
  }

  /** One of the two drifts after it is small enough to move the mean. */
  predicate WalkMoves(gain: int, p: Pair) {
    Abs(gain - Lean(p.mean)) < 50 || Abs(gain - Lean(NextMean(gain, p.prev, p.mean))) < 50
  }

  /** Then it takes one or two edges to be on the way. */
  lemma SoonOnTheWay(gain: nat, p: Pair, k: nat) returns (q: Pair, left: nat)
    requires gain < 50 && Disturbed(p) && WalkMoves(gain, p) && k >= 2
    ensures left >= k - 2 && Walk(gain, p, k) == Walk(gain, q, left)
    ensures OnTheWay(gain, q.prev, q.mean) && Abs(q.mean) <= Abs(p.mean) + STEP_MAX
  {
    var m2 := NextMean(gain, p.prev, p.mean);
    MeanStep(p.mean, gain - Lean(p.prev));
    OneEdge(gain, p, k);
    q, left := Pair(p.mean, m2), k - 1;
    if gain - Lean(p.mean) < 50 {
      SecondPairIsOnTheWay(gain, p);
    } else {
      OneEdge(gain, q, left);
      RestsWhenFiltered(gain, q);
      q, left := Pair(m2, m2), k - 2;
    }
  }

  lemma {:induction false} OneEdge(gain: int, p: Pair, k: nat)
    requires k >= 1
    ensures Walk(gain, p, k) == Walk(gain, Pair(p.mean, NextMean(gain, p.prev, p.mean)), k - 1)
  {
    WalkComposes(gain, p, 1, k - 1);
    assert Walk(gain, p, 0) == p;
    assert Walk(gain, p, 1) == Pair(p.mean, NextMean(gain, p.prev, p.mean));
  }

  lemma SecondPairIsOnTheWay(gain: nat, p: Pair)
    requires gain < 50 && Disturbed(p) && gain - Lean(p.mean) < 50
    ensures OnTheWay(gain, p.mean, NextMean(gain, p.prev, p.mean))
  {
    MeanStep(p.mean, gain - Lean(p.prev));
    LagTurns(gain, p.prev, p.mean);
    if Lean(p.mean) == gain / 2 { InsideStays(gain, p.prev, p.mean); }
  }

  lemma RestsWhenFiltered(gain: int, q: Pair)
    requires Abs(gain - Lean(q.prev)) >= 50
    ensures NextMean(gain, q.prev, q.mean) == q.mean
  {
  }

  lemma {:induction false} WalkSettles(gain: nat, p: Pair, k: nat)
    requires gain < 50 && Disturbed(p) && WalkMoves(gain, p) && 2 * k >= Abs(p.mean) + 256 * (gain / 2) + 200
    ensures Lean(Walk(gain, p, k).mean) == gain / 2
  {
    var q, left := SoonOnTheWay(gain, p, k);
    WalkLeadsHome(gain, q, left);
    DistanceIsSpent(gain, q.mean, left, Walk(gain, q, left).mean);
  }

  lemma DistanceIsSpent(gain: nat, mean: int, k: nat, final: int)
    requires Distance(gain, final) <= Max(0, Distance(gain, mean) - 2 * k) && 2 * k >= Abs(mean) + 256 * (gain / 2)
    ensures Lean(final) == gain / 2
  {
    ZeroDistance(gain, final);
  }

  lemma ZeroDistance(gain: nat, mean: int)
    requires Distance(gain, mean) == 0
    ensures Lean(mean) == gain / 2
  {
  }

  // ---- The loop ----

  /** The first two means. */
  function FirstPair(gain: int, start: Point): Pair {
    Pair(start.mean, Advance(gain, start).mean)
  }

  lemma AdvanceIsNext(gain: int, p: Point, prev: int)
    requires p.drift == gain - Lean(prev)
    ensures Advance(gain, p).mean == NextMean(gain, prev, p.mean)
    ensures Advance(gain, p).drift == gain - Lean(p.mean)
  {
  }

  /** From the first edge on the loop is a walk of means, each drift showing the lean before. */
  lemma {:induction false} LoopIsWalk(gain: int, start: Point, n: nat)
    ensures Loop(gain, start, n + 1).mean == Walk(gain, FirstPair(gain, start), n).mean
    ensures Loop(gain, start, n + 1).drift == gain - Lean(Walk(gain, FirstPair(gain, start), n).prev)
    ensures Loop(gain, start, n + 2).drift == gain - Lean(Walk(gain, FirstPair(gain, start), n).mean)
  {
    if n == 0 {
      assert Loop(gain, start, 1) == Advance(gain, start);
    } else {
      LoopIsWalk(gain, start, n - 1);
      AdvanceIsNext(gain, Loop(gain, start, n), Walk(gain, FirstPair(gain, start), n - 1).prev);
    }
  }

  /** The third or fourth drift is small enough to move the mean. */
  predicate Moves(gain: int, start: Point) {
    Abs(Loop(gain, start, 2).drift) < 50 || Abs(Loop(gain, start, 3).drift) < 50
  }

  lemma {:induction false} MovesIsWalkMoves(gain: int, start: Point)
    ensures Moves(gain, start) <==> WalkMoves(gain, FirstPair(gain, start))
  {
    LoopIsWalk(gain, start, 0);
    LoopIsWalk(gain, start, 1);
    var p := FirstPair(gain, start);
    assert Walk(gain, p, 1) == Pair(p.mean, NextMean(gain, p.prev, p.mean));
  }

  lemma FirstPairIsDisturbed(gain: int, start: Point)
    requires Bounded(start.mean)
    ensures Disturbed(FirstPair(gain, start))
  {
    MeanStep(start.mean, start.drift);
  }

  /** How many edges settling takes from a mean. */
  function ResettlingEdges(gain: int, mean: int): nat {
    Abs(mean) / 2 + 128 * (Abs(gain) / 2) + 202
  }

  lemma {:induction false} FastLoopResettles(gain: nat, start: Point, n: nat)
    requires gain < 50 && Bounded(start.mean) && Moves(gain, start) && n >= ResettlingEdges(gain, start.mean)
    ensures Loop(gain, start, n).drift == HalfUp(gain)
  {
    FirstPairIsDisturbed(gain, start);
    MovesIsWalkMoves(gain, start);
    EnoughEdges(gain, start, n);
    WalkSettles(gain, FirstPair(gain, start), n - 2);
    SettledWalkSettlesLoop(gain, start, n);
  }

  lemma EnoughEdges(gain: nat, start: Point, n: nat)
    requires Bounded(start.mean) && n >= ResettlingEdges(gain, start.mean)
    ensures 2 * (n - 2) >= Abs(FirstPair(gain, start).mean) + 256 * (gain / 2) + 200
  {
    MeanStep(start.mean, start.drift);
  }

  lemma {:induction false} SettledWalkSettlesLoop(gain: nat, start: Point, n: nat)
    requires n >= 2 && Lean(Walk(gain, FirstPair(gain, start), n - 2).mean) == gain / 2
    ensures Loop(gain, start, n).drift == HalfUp(gain)
  {
    var mean := Walk(gain, FirstPair(gain, start), n - 2).mean;
    DriftShowsMean(gain, start, n, mean);
    HalfUpIsRest(gain, mean);
  }

  lemma {:induction false} DriftShowsMean(gain: int, start: Point, n: nat, mean: int)
    requires n >= 2 && mean == Walk(gain, FirstPair(gain, start), n - 2).mean
    ensures Loop(gain, start, n).drift == gain - Lean(mean)
  {
    LoopIsWalk(gain, start, n - 2);
  }

  lemma HalfUpIsRest(gain: nat, mean: int)
    requires Lean(mean) == gain / 2
    ensures gain - Lean(mean) == HalfUp(gain)
  {
  }

  lemma {:induction false} LargeDriftStays(gain: int, start: Point, n: nat)
    requires !Moves(gain, start) && n >= 3
    ensures Loop(gain, start, n) == Loop(gain, start, 3)
  {
    if n == 3 {
    } else if n == 4 {
      LargeDriftRests(gain, Loop(gain, start, 2));
    } else {
      LargeDriftStays(gain, start, n - 1);
      LargeDriftStays(gain, start, n - 2);
      assert Loop(gain, start, n) == Advance(gain, Loop(gain, start, n - 1));
    }
  }

  /** Two filtered readings in a row are followed by the same again. */
  lemma LargeDriftRests(gain: int, p: Point)
    requires Abs(p.drift) >= 50 && Abs(Advance(gain, p).drift) >= 50
    ensures Advance(gain, Advance(gain, p)) == Advance(gain, p)
  {
  }

  /**
    From any mean: if the third or fourth drift is below 50 us the loop settles where it does from a
    fresh sync; if not, it never moves again and every reading is filtered.
   */
  lemma {:induction false} LoopResettlesIff(gain: int, start: Point, n: nat)
    requires -50 < gain < 50 && Bounded(start.mean) && n >= ResettlingEdges(gain, start.mean)
    ensures Loop(gain, start, n).drift == HalfUp(gain) <==> Moves(gain, start)
    ensures !Moves(gain, start) ==>
      Loop(gain, start, n) == Loop(gain, start, 3) && Abs(Loop(gain, start, n).drift) >= 50
  {
    if Moves(gain, start) {
      if gain >= 0 {
        FastLoopResettles(gain, start, n);
      } else {
        LoopIsOdd(gain, start, 2);
        LoopIsOdd(gain, start, 3);
        LoopIsOdd(gain, start, n);
        FastLoopResettles(-gain, Mirror(start), n);
      }
    } else {
      LargeDriftStays(gain, start, n);
    }
  }

  /** The drift shows the mean that the device has been leaning by. */
  predicate Rested(gain: int, start: Point) {
    start.drift == gain - Lean(start.mean)
  }

  /** A loop at rest moves exactly when its drift is below 50 us. */
  lemma {:induction false} RestedMovesIff(gain: int, start: Point)
    requires -50 < gain < 50 && Bounded(start.mean) && Rested(gain, start)
    ensures Moves(gain, start) <==> Abs(gain - Lean(start.mean)) < 50
  {
    if gain >= 0 {
      FastRestedMovesIff(gain, start);
    } else {
      LoopIsOdd(gain, start, 2);
      LoopIsOdd(gain, start, 3);
      TruncDivOdd(start.mean, 256);
      FastRestedMovesIff(-gain, Mirror(start));
    }
  }

  lemma {:induction false} FastRestedMovesIff(gain: nat, start: Point)
    requires gain < 50 && Bounded(start.mean) && Rested(gain, start)
    ensures Moves(gain, start) <==> Abs(gain - Lean(start.mean)) < 50
  {
    var m0, p := start.mean, FirstPair(gain, start);
    MovesIsWalkMoves(gain, start);
    AdvanceIsNext(gain, start, m0);
    if Abs(gain - Lean(m0)) < 50 {
      OnTheWayStep(gain, m0, m0);
      OnTheWayIsSmall(gain, m0, p.mean);
    } else {
      assert p == Pair(m0, m0) && NextMean(gain, m0, m0) == m0;
    }
  }

  lemma OnTheWayIsSmall(gain: nat, prev: int, mean: int)
    requires gain < 50 && OnTheWay(gain, prev, mean)
    ensures -50 < gain - Lean(mean) < 50
  {
    if Lean(mean) < gain / 2 { assert Lean(prev) <= Lean(mean); }
  }

  // ---- The device ----

  /**
    A crystal whose error moves to D while the device is running: after at most ResettlingEdges edges
    the measured drift is D / 2 rounded away from zero if and only if the loop moves at all; if it does
    not, the drift stays where it is, at 50 us or more, and what is reported as the offset is the rest of
    D instead.
   */
  lemma {:induction false} DisciplineReconvergesIff(
      gain: int, states: seq<Pps>, inputs: seq<PulseInput>, talk: seq<seq<Handler>>, clocks: seq<int>, n: nat)
    requires -50 < gain < 50 && IsClosedLoop(gain, states, inputs, talk, clocks)
    requires ResettlingEdges(gain, states[0].driftMean256) <= n < |inputs|
    ensures states[n + 1].synced
    ensures states[n + 1].driftUs == HalfUp(gain) <==> Moves(gain, StartOf(states, clocks))
    ensures !Moves(gain, StartOf(states, clocks)) ==>
      && Abs(states[n + 1].driftUs) >= 50 && states[n + 1].driftUs == states[4].driftUs
      && states[n + 1].offsetUs == gain - states[n + 1].driftUs
  {
    DeviceFollowsLoop(gain, states, inputs, talk, clocks, n);
    DeviceFollowsLoop(gain, states, inputs, talk, clocks, 3);
    EdgeOfLoop(gain, states, inputs, talk, clocks, n);
    EdgeOfLoop(gain, states, inputs, talk, clocks, 3);
    DeviceMeanIsBounded(gain, states, inputs, talk, clocks);
    LoopResettlesIff(gain, StartOf(states, clocks), n);
    if !Moves(gain, StartOf(states, clocks)) {
      LargeDriftStays(gain, StartOf(states, clocks), n + 1);
      AdvanceOf(gain, StartOf(states, clocks), n);
    }
  }

  lemma AdvanceOf(gain: int, start: Point, n: nat)
    ensures Loop(gain, start, n + 1).drift == gain - Lean(Loop(gain, start, n).mean)
  {
  }

  lemma DeviceMeanIsBounded(
      gain: int, states: seq<Pps>, inputs: seq<PulseInput>, talk: seq<seq<Handler>>, clocks: seq<int>)
    requires IsClosedLoop(gain, states, inputs, talk, clocks)
    ensures Bounded(StartOf(states, clocks).mean)
  {
  }

  lemma {:induction false} RestingLoopStays(gain: int, start: Point, n: nat)
    requires Advance(gain, start) == start
    ensures Loop(gain, start, n) == start
  {
    if n > 0 { RestingLoopStays(gain, start, n - 1); }
  }

  /** The input: settled at 49 us a second, a crystal that moves to -30 leaves the drift at -54 for ever. */
  lemma {:induction false} JumpCanStopTheLoop(mean: int, n: nat)
    requires Lean(mean) == 24
    ensures Loop(-30, Point(mean, -54), n) == Point(mean, -54)
  {
    RestingLoopStays(-30, Point(mean, -54), n);
  }
}

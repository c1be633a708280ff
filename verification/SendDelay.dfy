/**
  `SendEstimator` and `PatchDelayEstimator`: bounded-memory learners of a send delay.

  The claims are about histories of samples: when a re-seed can and must happen, how far the
  estimate can ever be, and where a constant sample pulls it.
 */
module SendDelay {
  import opened MachineInts

  const US_MIN := 50
  const US_MAX := 5000
  const STEP_MAX_US := 100
  const RESEED_AFTER := 4
  const RESEED_MIN_SPAN_US := 3000000

  datatype Result = Ignored | Seeded | Learned | Rejected | Reseeded

  datatype Estimator = Estimator(
    estimate: int, rejectRun: nat, rejectMin: int, rejectMax: int, rejectFirst: int)

  const INITIAL := Estimator(0, 0, 0, 0, 0)

  /** `estimate + ((sample - estimate) >> 3)`; the shift is arithmetic, so it floors. */
  function Ewma(estimate: int, sample: int): int {
    estimate + (sample - estimate) / 8
  }

  predicate InRange(us: int) {
    US_MIN < us < US_MAX
  }

  function NoteReject(e: Estimator, actual: int, now: int): Estimator {
    if e.rejectRun == 0 || Max(e.rejectMax, actual) - Min(e.rejectMin, actual) >= STEP_MAX_US then
      Estimator(e.estimate, 1, actual, actual, now)
    else
      e.(rejectMin := Min(e.rejectMin, actual), rejectMax := Max(e.rejectMax, actual),
         rejectRun := if e.rejectRun < 255 then e.rejectRun + 1 else e.rejectRun)
  }

  function AfterSample(e: Estimator, actual: int, now: int): (Estimator, Result) {
    if !InRange(actual) then (e, Ignored)
    else if e.estimate == 0 then (e.(estimate := actual, rejectRun := 0), Seeded)
    else if -STEP_MAX_US < actual - e.estimate < STEP_MAX_US then
      (e.(estimate := Ewma(e.estimate, actual), rejectRun := 0), Learned)
    else
      var r := NoteReject(e, actual, now);
      if r.rejectRun >= RESEED_AFTER && now - r.rejectFirst >= RESEED_MIN_SPAN_US then
        (r.(estimate := r.rejectMin + (r.rejectMax - r.rejectMin) / 2, rejectRun := 0), Reseeded)
      else (r, Rejected)
  }

  function AfterFallback(e: Estimator, dur: int): Estimator {
    if InRange(dur) then e.(estimate := Ewma(e.estimate, dur)) else e
  }

  /** The estimator object, updated in place as in the firmware. */
  class SendEstimator {
    var estimateUs: int
    var rejectRun: nat
    var rejectMin: int
    var rejectMax: int
    var rejectFirstUs: int

    function View(): Estimator
      reads this
    {
      Estimator(estimateUs, rejectRun, rejectMin, rejectMax, rejectFirstUs)
    }

    constructor ()
      ensures View() == INITIAL
    {
      estimateUs, rejectRun, rejectMin, rejectMax, rejectFirstUs := 0, 0, 0, 0, 0;
    }

    method Learn(actual: int, now: int) returns (result: Result)
      modifies this
      ensures (View(), result) == AfterSample(old(View()), actual, now)
    {
      if actual <= US_MIN || actual >= US_MAX {
        return Ignored;
      }
      if estimateUs == 0 {
        estimateUs := actual;
        rejectRun := 0;
        return Seeded;
      }
      var innov := actual - estimateUs;
      if innov > -STEP_MAX_US && innov < STEP_MAX_US {
        estimateUs := estimateUs + innov / 8;
        rejectRun := 0;
        return Learned;
      }
      if rejectRun == 0 || Max(rejectMax, actual) - Min(rejectMin, actual) >= STEP_MAX_US {
        rejectMin := actual;
        rejectMax := actual;
        rejectFirstUs := now;
        rejectRun := 1;
      } else {
        rejectMin := Min(rejectMin, actual);
        rejectMax := Max(rejectMax, actual);
        if rejectRun < 255 {
          rejectRun := rejectRun + 1;
        }
      }
      if rejectRun >= RESEED_AFTER && now - rejectFirstUs >= RESEED_MIN_SPAN_US {
        estimateUs := rejectMin + (rejectMax - rejectMin) / 2;
        rejectRun := 0;
        return Reseeded;
      }
      return Rejected;
    }

    method LearnFallback(dur: int)
      modifies this
      ensures View() == AfterFallback(old(View()), dur)
    {
      if dur > US_MIN && dur < US_MAX {
        estimateUs := estimateUs + (dur - estimateUs) / 8;
      }
    }
  }

  // ---- Histories ----

  datatype Event = Sample(actual: int, now: int) | Fallback(dur: int)

  function Front<T>(s: seq<T>): seq<T>
    requires s != []
  {
    s[..|s| - 1]
  }

  function Last<T>(s: seq<T>): T
    requires s != []
  {
    s[|s| - 1]
  }

  /** The state after a history of calls, oldest first. */
  function Run(h: seq<Event>): Estimator {
    if h == [] then INITIAL
    else match Last(h)
      case Sample(actual, now) => AfterSample(Run(Front(h)), actual, now).0
      case Fallback(dur) => AfterFallback(Run(Front(h)), dur)
  }

  /** A sample that was not ignored, with what `learn` answered. */
  datatype Decision = Decision(actual: int, now: int, result: Result)

  function Decisions(h: seq<Event>): seq<Decision> {
    if h == [] then []
    else match Last(h)
      case Fallback(_) => Decisions(Front(h))
      case Sample(actual, now) =>
        if !InRange(actual) then Decisions(Front(h))
        else Decisions(Front(h)) + [Decision(actual, now, AfterSample(Run(Front(h)), actual, now).1)]
  }

  /** The reject fields summarise the last `k` decisions, all of them rejects. */
  ghost predicate Summarises(e: Estimator, d: seq<Decision>, k: nat) {
    && e.rejectRun <= k <= |d| && 0 < k
    && e.rejectFirst == d[|d| - k].now
    && e.rejectMax - e.rejectMin < STEP_MAX_US
    && (forall i :: |d| - k <= i < |d| ==>
          d[i].result == Rejected && e.rejectMin <= d[i].actual <= e.rejectMax)
    && (exists i :: |d| - k <= i < |d| && d[i].actual == e.rejectMin)
    && (exists i :: |d| - k <= i < |d| && d[i].actual == e.rejectMax)
  }

  ghost predicate Consistent(e: Estimator, d: seq<Decision>) {
    e.rejectRun > 0 ==> exists k: nat :: Summarises(e, d, k)
  }

  /** One more reject extends the summarised window, or opens a window of one. */
  lemma RejectExtendsWindow(e: Estimator, d: seq<Decision>, x: Decision) returns (k: nat)
    requires Consistent(e, d) && x.result == Rejected
    ensures Summarises(NoteReject(e, x.actual, x.now), d + [x], k)
  {
    var r, all := NoteReject(e, x.actual, x.now), d + [x];
    if e.rejectRun == 0 || Max(e.rejectMax, x.actual) - Min(e.rejectMin, x.actual) >= STEP_MAX_US {
      k := 1;
      assert all[|d|] == x;
    } else {
      var j: nat :| Summarises(e, d, j);
      k := j + 1;
      var lo :| |d| - j <= lo < |d| && d[lo].actual == e.rejectMin;
      var hi :| |d| - j <= hi < |d| && d[hi].actual == e.rejectMax;
      assert all[lo].actual == e.rejectMin && all[hi].actual == e.rejectMax && all[|d|] == x;
    }
  }

  lemma {:induction false} HistoryIsConsistent(h: seq<Event>)
    ensures Consistent(Run(h), Decisions(h))
  {
    if h != [] {
      HistoryIsConsistent(Front(h));
      var e, d := Run(Front(h)), Decisions(Front(h));
      match Last(h)
      case Fallback(dur) =>
        assert e.rejectRun > 0 ==> forall k: nat :: Summarises(e, d, k) ==> Summarises(Run(h), d, k);
      case Sample(actual, now) =>
        var result := AfterSample(e, actual, now).1;
        if result == Rejected {
          var k := RejectExtendsWindow(e, d, Decision(actual, now, Rejected));
        }
    }
  }

  /** What must have happened for a re-seed: the last `k` decisions are one sustained, agreeing run. */
  ghost predicate SustainedRun(d: seq<Decision>, k: nat) {
    && RESEED_AFTER <= k <= |d|
    && (forall i :: |d| - k <= i < |d| - 1 ==> d[i].result == Rejected)
    && (forall i, j :: |d| - k <= i < |d| && |d| - k <= j < |d| ==> d[i].actual - d[j].actual < STEP_MAX_US)
    && Last(d).now - d[|d| - k].now >= RESEED_MIN_SPAN_US
  }

  /** `us` lies between two samples of the last `k` decisions. */
  ghost predicate WithinRun(d: seq<Decision>, k: nat, us: int)
    requires k <= |d|
  {
    exists i, j :: |d| - k <= i < |d| && |d| - k <= j < |d| && d[i].actual <= us <= d[j].actual
  }

  ghost predicate Justified(d: seq<Decision>, estimate: int) {
    exists k: nat :: SustainedRun(d, k) && WithinRun(d, k, estimate)
  }

  lemma FullWindowJustifies(e: Estimator, d: seq<Decision>, actual: int, now: int)
    requires Consistent(e, d)
    requires var r := NoteReject(e, actual, now);
      r.rejectRun >= RESEED_AFTER && now - r.rejectFirst >= RESEED_MIN_SPAN_US
    ensures var r := NoteReject(e, actual, now);
      Justified(d + [Decision(actual, now, Reseeded)], r.rejectMin + (r.rejectMax - r.rejectMin) / 2)
  {
    var r := NoteReject(e, actual, now);
    var asReject, d' := d + [Decision(actual, now, Rejected)], d + [Decision(actual, now, Reseeded)];
    var k := RejectExtendsWindow(e, d, Decision(actual, now, Rejected));
    var lo :| |asReject| - k <= lo < |asReject| && asReject[lo].actual == r.rejectMin;
    var hi :| |asReject| - k <= hi < |asReject| && asReject[hi].actual == r.rejectMax;
    assert d'[lo].actual == r.rejectMin && d'[hi].actual == r.rejectMax;
    assert WithinRun(d', k, r.rejectMin + (r.rejectMax - r.rejectMin) / 2);
    forall i | |d'| - k <= i < |d'|
      ensures r.rejectMin <= d'[i].actual <= r.rejectMax && (i < |d'| - 1 ==> d'[i].result == Rejected)
    {
      assert d'[i].actual == asReject[i].actual && (i < |d'| - 1 ==> d'[i] == asReject[i]);
    }
    assert d'[|d'| - k].now == asReject[|asReject| - k].now;
    assert SustainedRun(d', k);
  }

  /**
    A re-seed needs at least four consecutive decisive rejects that agree to within 100 us and
    span at least 3 s, and the new estimate lies within that run.
   */
  lemma ReseedNeedsSustainedRun(h: seq<Event>, actual: int, now: int)
    requires AfterSample(Run(h), actual, now).1 == Reseeded
    ensures Justified(Decisions(h + [Sample(actual, now)]), Run(h + [Sample(actual, now)]).estimate)
  {
    assert Front(h + [Sample(actual, now)]) == h;
    HistoryIsConsistent(h);
    FullWindowJustifies(Run(h), Decisions(h), actual, now);
  }

  /** `n` samples of value `d` at the given times. */
  function Constant(d: int, times: seq<int>): seq<Event> {
    if times == [] then [] else Constant(d, Front(times)) + [Sample(d, Last(times))]
  }

  /** Feeding a list of events to an estimator in any state. */
  function Feed(e: Estimator, h: seq<Event>): Estimator {
    if h == [] then e
    else match Last(h)
      case Sample(actual, now) => AfterSample(Feed(e, Front(h)), actual, now).0
      case Fallback(dur) => AfterFallback(Feed(e, Front(h)), dur)
  }

  /**
    The other direction: a send path that really changed to `d` and stays there re-seeds the
    estimate to exactly `d` at the first sample that is both the fourth or later and at least
    3 s after the first; until then the estimate does not move.
   */
  lemma {:induction false} SustainedChangeReseeds(e: Estimator, d: int, times: seq<int>)
    requires e.estimate != 0 && e.rejectRun == 0 && InRange(d) && Abs(d - e.estimate) >= STEP_MAX_US
    requires times != []
    requires forall i :: 0 <= i < |times| - 1 ==> i + 1 < RESEED_AFTER || times[i] - times[0] < RESEED_MIN_SPAN_US
    ensures var r := Feed(e, Constant(d, times));
      if |times| >= RESEED_AFTER && Last(times) - times[0] >= RESEED_MIN_SPAN_US
      then r.estimate == d && r.rejectRun == 0
      else r == Estimator(e.estimate, Min(|times|, 255), d, d, times[0])
  {
    var front := Front(times);
    FeedConstant(e, d, times);
    if |times| > 1 {
      SustainedChangeReseeds(e, d, front);
      assert Last(front) == times[|times| - 2];
      SustainedStep(e, d, |front|, times[0], Last(times));
    }
  }

  /** The reject fields as every history leaves them: a run under way began no later than `now` and agrees. */
  predicate RunUnderWay(e: Estimator, now: int) {
    e.rejectRun > 0 ==>
      && e.rejectFirst <= now && US_MIN < e.rejectMin <= e.rejectMax < US_MAX
      && e.rejectMax - e.rejectMin < STEP_MAX_US
  }

  /** Still rejecting `d`: the run holds at least `n` rejects, since `first` at the latest. */
  predicate StillRejecting(e: Estimator, estimate: int, d: int, n: nat, first: int) {
    && e.estimate == estimate && e.rejectRun >= Min(n, 255) && e.rejectRun > 0 && RunUnderWay(e, first)
    && e.rejectMin <= d <= e.rejectMax
  }

  /** The estimate has come over: within 50 us of `d`. */
  predicate CameOver(e: Estimator, d: int) {
    e.estimate > 0 && Abs(d - e.estimate) <= 50 && e.rejectRun == 0
  }

  lemma RejectingStep(e: Estimator, estimate: int, d: int, n: nat, first: int, now: int)
    requires estimate > 0 && InRange(d) && Abs(d - estimate) >= STEP_MAX_US && first <= now
    requires e.estimate == estimate && RunUnderWay(e, first) && (n > 0 ==> StillRejecting(e, estimate, d, n, first))
    ensures var r := AfterSample(e, d, now).0;
      && (StillRejecting(r, estimate, d, n + 1, if n == 0 then now else first) || CameOver(r, d))
      && (n + 1 >= RESEED_AFTER && now - first >= RESEED_MIN_SPAN_US ==> CameOver(r, d))
  {
  }

  lemma CameOverStays(e: Estimator, d: int, now: int)
    requires CameOver(e, d) && InRange(d)
    ensures CameOver(AfterSample(e, d, now).0, d)
  {
  }

  /**
    The same from any state, with any reject run already under way: at the latest at that same sample
    the estimate is within 50 us of `d`, and it stays so. An older run that `d` agrees with can only
    bring the re-seed forward, and its samples shift it by at most half their spread.
   */
  lemma {:induction false} SustainedChangeTakesOver(e: Estimator, d: int, times: seq<int>)
    requires e.estimate > 0 && InRange(d) && Abs(d - e.estimate) >= STEP_MAX_US
    requires times != [] && RunUnderWay(e, times[0])
    requires forall i, j :: 0 <= i <= j < |times| ==> times[i] <= times[j]
    ensures var r := Feed(e, Constant(d, times));
      && (CameOver(r, d) || StillRejecting(r, e.estimate, d, |times|, times[0]))
      && (|times| >= RESEED_AFTER && Last(times) - times[0] >= RESEED_MIN_SPAN_US ==> CameOver(r, d))
  {
    var front := Front(times);
    FeedConstant(e, d, times);
    if front == [] {
      assert Feed(e, Constant(d, front)) == e;
      RejectingStep(e, e.estimate, d, 0, times[0], times[0]);
    } else {
      SustainedChangeTakesOver(e, d, front);
      var before := Feed(e, Constant(d, front));
      if CameOver(before, d) {
        CameOverStays(before, d, Last(times));
      } else {
        RejectingStep(before, e.estimate, d, |front|, times[0], Last(times));
      }
    }
  }

  lemma {:induction false} FeedConstant(e: Estimator, d: int, times: seq<int>)
    requires times != []
    ensures Feed(e, Constant(d, times)) == AfterSample(Feed(e, Constant(d, Front(times))), d, Last(times)).0
  {
    assert Front(Constant(d, times)) == Constant(d, Front(times));
  }

  /** One more agreeing reject, after `n` of them. */
  lemma SustainedStep(e: Estimator, d: int, n: nat, first: int, now: int)
    requires e.estimate != 0 && InRange(d) && Abs(d - e.estimate) >= STEP_MAX_US && n > 0
    ensures var r := AfterSample(Estimator(e.estimate, Min(n, 255), d, d, first), d, now).0;
      if n + 1 >= RESEED_AFTER && now - first >= RESEED_MIN_SPAN_US
      then r.estimate == d && r.rejectRun == 0
      else r == Estimator(e.estimate, Min(n + 1, 255), d, d, first)
  {
  }

  /** No history of samples and fallbacks takes the estimate outside 0..4999. */
  lemma {:induction false} EstimateStaysInRange(h: seq<Event>)
    ensures 0 <= Run(h).estimate < US_MAX
    ensures Run(h).rejectRun > 0 ==> US_MIN < Run(h).rejectMin <= Run(h).rejectMax < US_MAX
  {
    if h != [] {
      EstimateStaysInRange(Front(h));
    }
  }

  /** The estimate after `n` accepted samples of the same value. */
  function Pull(estimate: int, d: int, n: nat): int {
    if n == 0 then estimate else Ewma(Pull(estimate, d, n - 1), d)
  }

  /**
    A constant accepted sample pulls the estimate toward it one step at a time, never past it and
    never away from it, and after at most |d - estimate| samples it rests in [d - 7, d].
   */
  lemma {:induction false} ConstantSamplePulls(estimate: int, d: int, n: nat)
    ensures d <= estimate ==> d <= Pull(estimate, d, n + 1) <= Pull(estimate, d, n) <= estimate
    ensures estimate <= d ==> estimate <= Pull(estimate, d, n) <= Pull(estimate, d, n + 1) <= d
    ensures n >= Abs(d - estimate) ==> d - 7 <= Pull(estimate, d, n) <= d
    ensures n < Abs(d - estimate) ==>
      Abs(d - Pull(estimate, d, n)) <= Abs(d - estimate) - n || d - 7 <= Pull(estimate, d, n) <= d
  {
    if n > 0 {
      ConstantSamplePulls(estimate, d, n - 1);
    }
  }

  /** The pull is what `learn` does: an accepted sample keeps being accepted, so a run of them is `Pull`. */
  lemma {:induction false} AcceptedRunIsPull(e: Estimator, d: int, times: seq<int>)
    requires InRange(d) && e.estimate > 0 && Abs(d - e.estimate) < STEP_MAX_US
    ensures Feed(e, Constant(d, times)).estimate == Pull(e.estimate, d, |times|)
    ensures times != [] ==>
      AfterSample(Feed(e, Constant(d, Front(times))), d, Last(times)).1 == Learned
  {
    if times != [] {
      AcceptedRunIsPull(e, d, Front(times));
      assert Front(Constant(d, times)) == Constant(d, Front(times));
      ConstantSamplePulls(e.estimate, d, |times| - 1);
    }
  }

  /** A step goes an eighth of the way, rounded down; it goes nowhere exactly from 0 to 7 us below the sample. */
  lemma StepIsAnEighth(estimate: int, sample: int)
    ensures sample - estimate - 7 <= 8 * (Ewma(estimate, sample) - estimate) <= sample - estimate
    ensures Ewma(estimate, sample) == estimate <==> 0 <= sample - estimate <= 7
  {
  }

  /** The first sample between 51 and 4999 us is the estimate; others do nothing, then or later. */
  lemma FirstSampleSeeds(e: Estimator, actual: int, now: int)
    ensures actual <= 50 || actual >= 5000 ==> AfterSample(e, actual, now) == (e, Ignored)
    ensures e.estimate == 0 && 51 <= actual <= 4999 ==>
      AfterSample(e, actual, now).0.estimate == actual && AfterSample(e, actual, now).0.rejectRun == 0
      && AfterSample(e, actual, now).1 == Seeded
  {
  }

  /** The verdict on an in-range sample says what it did to estimate and reject run. */
  lemma VerdictSaysWhatHappened(e: Estimator, actual: int, now: int)
    requires 51 <= actual <= 4999 && e.estimate != 0
    ensures var (r, verdict) := AfterSample(e, actual, now);
      if Abs(actual - e.estimate) < 100
      then verdict == Learned && r.rejectRun == 0 && r.estimate == Pull(e.estimate, actual, 1)
      else
        && (verdict == Reseeded <==> r.rejectRun == 0)
        && (verdict == Rejected <==> r.rejectRun > 0)
        && (verdict == Rejected ==> r.estimate == e.estimate)
  {
  }

  /** `n` fallbacks of `dur`. */
  function Fallbacks(dur: int, n: nat): seq<Event> {
    if n == 0 then [] else Fallbacks(dur, n - 1) + [Fallback(dur)]
  }

  /**
    Fallbacks pull the estimate like accepted samples, from any distance, and leave a reject run as it
    is; out of range they do nothing.
   */
  lemma {:induction false} FallbacksPull(e: Estimator, dur: int, n: nat)
    ensures Feed(e, Fallbacks(dur, n)) ==
      if 51 <= dur <= 4999 then e.(estimate := Pull(e.estimate, dur, n)) else e
  {
    if n > 0 {
      FallbacksPull(e, dur, n - 1);
      assert Front(Fallbacks(dur, n)) == Fallbacks(dur, n - 1);
    }
  }

  // ---- PatchDelayEstimator ----

  const PATCH_MIN := 10
  const PATCH_MAX := 500
  const PATCH_INITIAL := 60

  function AfterPatchSample(estimate: int, us: int): int {
    if us < PATCH_MIN || us > PATCH_MAX then estimate else Ewma(estimate, us)
  }

  class PatchDelayEstimator {
    var estimateUs: int

    constructor ()
      ensures estimateUs == PATCH_INITIAL
    {
      estimateUs := PATCH_INITIAL;
    }

    method Learn(us: int)
      modifies this
      ensures estimateUs == AfterPatchSample(old(estimateUs), us)
    {
      if us < PATCH_MIN || us > PATCH_MAX {
        return;
      }
      estimateUs := estimateUs + (us - estimateUs) / 8;
    }
  }

  function PatchRun(samples: seq<int>): int {
    if samples == [] then PATCH_INITIAL else AfterPatchSample(PatchRun(Front(samples)), Last(samples))
  }

  /** T3 is never projected forward by less than 10 us or more than 500 us. */
  lemma {:induction false} PatchDelayStaysInRange(samples: seq<int>)
    ensures PATCH_MIN <= PatchRun(samples) <= PATCH_MAX
  {
    if samples != [] {
      PatchDelayStaysInRange(Front(samples));
    }
  }

  function PatchFeed(estimate: int, us: int, n: nat): int {
    if n == 0 then estimate else AfterPatchSample(PatchFeed(estimate, us, n - 1), us)
  }

  /** Samples of 10 to 500 us pull the patch delay like accepted send samples; others do nothing. */
  lemma {:induction false} PatchSamplesPull(estimate: int, us: int, n: nat)
    ensures PatchFeed(estimate, us, n) == if 10 <= us <= 500 then Pull(estimate, us, n) else estimate
  {
    if n > 0 { PatchSamplesPull(estimate, us, n - 1); }
  }
}

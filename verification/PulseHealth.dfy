/**
  The pulse-period hysteresis of `apply_pps_correction_`: three consecutive out-of-spec
  periods take the server off the air, ten consecutive in-spec ones bring it back.

  The fields are two saturating counters; the reference is the whole history of verdicts.
 */
module PulseHealth {

  const BAD_STREAK := 3
  const GOOD_STREAK := 10

  datatype Health = Health(healthy: bool, bad: nat, good: nat)

  const INITIAL := Health(true, 0, 0)

  function Step(h: Health, inSpec: bool): Health {
    if !inSpec then
      var bad := if h.bad < BAD_STREAK then h.bad + 1 else h.bad;
      Health(h.healthy && bad < BAD_STREAK, bad, 0)
    else
      var good := if h.good < GOOD_STREAK then h.good + 1 else h.good;
      Health(h.healthy || good >= GOOD_STREAK, 0, good)
  }

  /** The state after a history of verdicts, oldest first. */
  function Run(verdicts: seq<bool>): Health {
    if verdicts == [] then INITIAL
    else Step(Run(verdicts[..|verdicts| - 1]), verdicts[|verdicts| - 1])
  }

  /** The `n` verdicts before position `end` all equal `v`. */
  ghost predicate StreakEnds(verdicts: seq<bool>, end: int, n: nat, v: bool) {
    n <= end <= |verdicts| && forall i :: end - n <= i < end ==> verdicts[i] == v
  }

  /** Some run of three bad verdicts has not since been followed by a run of ten good ones. */
  ghost predicate Condemned(verdicts: seq<bool>) {
    exists b :: StreakEnds(verdicts, b, BAD_STREAK, false) && Unpardoned(verdicts, b)
  }

  ghost predicate Unpardoned(verdicts: seq<bool>, since: int) {
    forall g :: since < g <= |verdicts| ==> !StreakEnds(verdicts, g, GOOD_STREAK, true)
  }

  /** What each saturating counter counts: the trailing run of its verdict. */
  lemma {:induction false} CountersMeasureStreaks(verdicts: seq<bool>)
    ensures var h := Run(verdicts);
      && h.bad <= BAD_STREAK && h.good <= GOOD_STREAK
      && forall n: nat ::
        && (n <= BAD_STREAK ==> (StreakEnds(verdicts, |verdicts|, n, false) <==> n <= h.bad))
        && (n <= GOOD_STREAK ==> (StreakEnds(verdicts, |verdicts|, n, true) <==> n <= h.good))
  {
    if verdicts != [] {
      var front, v := verdicts[..|verdicts| - 1], verdicts[|verdicts| - 1];
      CountersMeasureStreaks(front);
      forall n: nat, w: bool | n > 0
        ensures StreakEnds(verdicts, |verdicts|, n, w) <==> v == w && StreakEnds(front, |front|, n - 1, w)
      {
        if StreakEnds(verdicts, |verdicts|, n, w) { assert verdicts[|verdicts| - 1] == w; }
      }
    }
  }

  /** The gate refuses exactly when the history condemns the pulse. */
  lemma {:induction false} HealthyIffNotCondemned(verdicts: seq<bool>)
    ensures Run(verdicts).healthy <==> !Condemned(verdicts)
  {
    if verdicts != [] {
      var n := |verdicts| - 1;
      var front := verdicts[..n];
      HealthyIffNotCondemned(front);
      CountersMeasureStreaks(verdicts);
      forall e, k: nat, w | e <= n
        ensures StreakEnds(verdicts, e, k, w) == StreakEnds(front, e, k, w)
      {
      }
      if Condemned(front) {
        var b :| StreakEnds(front, b, BAD_STREAK, false) && Unpardoned(front, b);
        assert StreakEnds(verdicts, b, BAD_STREAK, false);
        if !StreakEnds(verdicts, n + 1, GOOD_STREAK, true) {
          assert Unpardoned(verdicts, b);
        }
      }
      if Condemned(verdicts) {
        var b :| StreakEnds(verdicts, b, BAD_STREAK, false) && Unpardoned(verdicts, b);
        if b <= n {
          assert StreakEnds(front, b, BAD_STREAK, false) && Unpardoned(front, b);
        }
      }
      if StreakEnds(verdicts, n + 1, BAD_STREAK, false) {
        assert Unpardoned(verdicts, n + 1);
      }
    }
  }
}

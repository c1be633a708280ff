/**
  Whole-second errors: what a sentence shows of the error between clock and GPS time, how a small
  error is stepped away and a large one resets the device.

  A sentence describes a second that has passed and arrives less than a second after it. How late it
  is matters: the decoder rounds, so a late sentence can show one second more than there is.
 */
module PpsRepair {
  import opened MachineInts
  import opened PpsState
  import opened PpsSync
  import opened PpsEpoch
  import opened PpsResync

  /** A sentence for `second` that arrives `delayUs` after it, on a clock `k` seconds ahead. */
  predicate SentenceOnClock(n: Sentence, second: int, delayUs: int, k: int) {
    && GoodSentence(n, second) && 0 <= delayUs < SECOND
    && n.nowUs == (second + k) * SECOND + delayUs
  }

  /** What rounding adds to an error of `k` seconds for a sentence delay. */
  function Extra(k: int, delayUs: int): int {
    var latest := if k > 0 then 499 else if k == 0 then 900 else 500;
    if delayUs / 1000 <= latest then 0 else 1
  }

  /** The decoder, for every delay below a second and every error: k, or one more, as an int8_t. */
  lemma DecoderReads(second: int, delayUs: int, k: int)
    requires 0 <= delayUs < SECOND
    ensures SecondsOff(DeltaMs((second + k) * SECOND + delayUs, second)) == Signed8(k + Extra(k, delayUs))
  {
    assert ((second + k) * SECOND + delayUs) / SECOND == second + k;
    assert ((second + k) * SECOND + delayUs) % SECOND == delayUs;
    DecoderRounds(k, delayUs / 1000);
  }

  lemma DecoderRounds(k: int, ms: int)
    requires 0 <= ms < 1000
    ensures SecondsOff(k * 1000 + ms) == Signed8(k + Extra(k, ms * 1000))
  {
  }

  /**
    So an error that fits the int8_t is decoded exactly if and only if the sentence is early enough:
    below 500 ms for a fast clock, below 901 ms for a right one, below 501 ms for a slow one.
   */
  lemma DecoderIsExactIff(second: int, delayUs: int, k: int)
    requires 0 <= delayUs < SECOND && -128 <= k <= 127
    ensures SecondsOff(DeltaMs((second + k) * SECOND + delayUs, second)) == k <==>
      delayUs < (if k > 0 then 500000 else if k == 0 then 901000 else 501000)
  {
    DecoderReads(second, delayUs, k);
  }

  /** How many sentences in a row, this one included, will have shown the error `e`. */
  function Agreeing(s: Pps, e: int): int {
    if s.errorLast == e then s.errorStreak + 1 else 1
  }

  /** Ready to take a sentence: synchronised, with the epoch `k` seconds ahead, as the clock is. */
  predicate Off(s: Pps, second: int, k: int) {
    s.synced && s.hasGpsTime && s.gpsTimeValid && s.epoch == second + k && -2 <= k <= 2
  }

  /** A good sentence for `second` in which the decoder reads the error `e`. */
  predicate Shows(n: Sentence, second: int, e: int) {
    GoodSentence(n, second) && SecondsOff(DeltaMs(n.nowUs, n.stamp)) == e
  }

  /** A sentence whose delay makes rounding add `late` to the error. */
  predicate Rounded(n: Sentence, second: int, delayUs: int, k: int, late: int) {
    SentenceOnClock(n, second, delayUs, k) && Extra(k, delayUs) == late
  }

  lemma RoundedShows(n: Sentence, second: int, delayUs: int, k: int, late: int)
    requires Rounded(n, second, delayUs, k, late) && -2 <= k <= 2
    ensures Shows(n, second, k + late) && 0 <= late <= 1
  {
    SmallErrorShows(n, second, delayUs, k);
  }

  /** A small error, with what rounding adds, is what the sentence shows. */
  lemma SmallErrorShows(n: Sentence, second: int, delayUs: int, k: int)
    requires SentenceOnClock(n, second, delayUs, k) && -2 <= k <= 2
    ensures Shows(n, second, k + Extra(k, delayUs))
  {
    DecoderReads(second, delayUs, k);
  }

  /** A sentence that shows no error changes nothing but the count of agreeing ones. */
  lemma NoErrorShown(s: Pps, n: Sentence, second: int, k: int)
    requires Off(s, second, k) && Shows(n, second, 0)
    ensures ApplySentence(s, n) == Outcome(s.(satellites := n.satellites, errorStreak := 0), [])
  {
  }

  /** A sentence that shows a small error, other than the third to do so, only counts it. */
  lemma SmallErrorIsCounted(s: Pps, n: Sentence, second: int, k: int, e: int)
    requires Off(s, second, k) && Shows(n, second, e) && e != 0 && Agreeing(s, e) < EPOCH_FIX_STREAK
    ensures ApplySentence(s, n) ==
      Outcome(s.(satellites := n.satellites, errorLast := e, errorStreak := Agreeing(s, e)), [])
  {
  }

  lemma ThirdAgreeingSentenceRepairs(s: Pps, n: Sentence, second: int, k: int, e: int)
    requires Off(s, second, k) && Shows(n, second, e) && e != 0 && Agreeing(s, e) == EPOCH_FIX_STREAK
    requires 0 <= e - k <= 1
    ensures ApplySentence(s, n) ==
      Outcome(s.(satellites := n.satellites, epoch := s.epoch - e, errorLast := e, errorStreak := 0),
              [SetTo(n.fixUs - e * SECOND)])
  {
  }

  /** A pulse one second after the last processed one, on a clock less than 1.99 s off the epoch. */
  predicate SteadyPulse(i: PulseInput, prevMicros: U32, marked: int) {
    ExtraEpochs(Sub32(i.edgeMicros, prevMicros)) == 0 && Abs(SystemAtEdge(i) - marked * SECOND) < 1990000
  }

  /** Such a pulse counts one second and keeps sync. */
  lemma SteadyPulseCountsOne(s: Pps, i: PulseInput)
    requires Inv(s) && s.synced && s.epoch != 0 && !s.satellites.NoneReported()
    requires SteadyPulse(i, s.prevMicros, s.epoch + 1)
    ensures var t := ApplyPulse(s, i).state;
      t.synced && t.epoch == s.epoch + 1 && t.errorStreak == s.errorStreak && t.errorLast == s.errorLast
      && t.satellites == s.satellites && t.prevMicros == i.edgeMicros && Inv(t)
  {
    PulseKeepsInv(s, i);
  }

  /** One second of it: the sentence counts the error it shows, the pulse goes on. */
  lemma CountedSecond(s: Pps, n: Sentence, p: PulseInput, second: int, k: int, e: int)
    requires Inv(s) && Off(s, second, k) && second + k > 0 && Shows(n, second, e)
    requires e != 0 && Agreeing(s, e) < EPOCH_FIX_STREAK
    requires SteadyPulse(p, s.prevMicros, second + k + 1)
    ensures var a := ApplySentence(s, n);
      var t := ApplyPulse(a.state, p).state;
      && a.actions == [] && Inv(t) && Off(t, second + 1, k) && t.prevMicros == p.edgeMicros
      && t.errorLast == e && t.errorStreak == Agreeing(s, e)
  {
    SmallErrorIsCounted(s, n, second, k, e);
    SteadyPulseCountsOne(ApplySentence(s, n).state, p);
  }

  /** What three sentences with two pulses between them do. */
  function ThreeSentences(
      s: Pps, n0: Sentence, p1: PulseInput, n1: Sentence, p2: PulseInput, n2: Sentence): (o: seq<Outcome>)
    ensures |o| == 3
  {
    var a := ApplySentence(s, n0);
    var c := ApplySentence(ApplyPulse(a.state, p1).state, n1);
    [a, c, ApplySentence(ApplyPulse(c.state, p2).state, n2)]
  }

  /** Only the third one acts: it steps the clock back by `e`, and leaves the device synchronised at `epoch`. */
  predicate SteppedBy(o: seq<Outcome>, fixUs: int, epoch: int, e: int) {
    && |o| == 3 && o[0].actions == [] && o[1].actions == [] && o[2].actions == [SetTo(fixUs - e * SECOND)]
    && o[2].state.synced && o[2].state.epoch == epoch && o[2].state.errorStreak == 0
  }

  lemma AgreeingErrorIsStepped(s: Pps, second: int, k: int, e: int,
                               n0: Sentence, p1: PulseInput, n1: Sentence, p2: PulseInput, n2: Sentence)
    requires Inv(s) && Off(s, second, k) && second > 2 && e != 0 && 0 <= e - k <= 1 && Agreeing(s, e) == 1
    requires Shows(n0, second, e) && Shows(n1, second + 1, e) && Shows(n2, second + 2, e)
    requires SteadyPulse(p1, s.prevMicros, second + k + 1) && SteadyPulse(p2, p1.edgeMicros, second + k + 2)
    ensures SteppedBy(ThreeSentences(s, n0, p1, n1, p2, n2), n2.fixUs, second + 2 + k - e, e)
  {
    CountedSecond(s, n0, p1, second, k, e);
    var b := ApplyPulse(ApplySentence(s, n0).state, p1).state;
    CountedSecond(b, n1, p2, second + 1, k, e);
    ThirdAgreeingSentenceRepairs(ApplyPulse(ApplySentence(b, n1).state, p2).state, n2, second + 2, k, e);
  }

  /**
    A constant error of at most two seconds, on sentences that are all early or all late enough to
    show the same value: the third sentence steps epoch and clock by what was shown, pulses going on
    in between and whatever other error was being counted before. The epoch is then the true second
    if and only if the sentences were early enough; on late ones even a right device is stepped back
    one second.
   */
  lemma ConstantErrorIsStepped(s: Pps, second: int, k: int, late: int, delay0: int, delay1: int, delay2: int,
                               n0: Sentence, p1: PulseInput, n1: Sentence, p2: PulseInput, n2: Sentence)
    requires Inv(s) && Off(s, second, k) && second > 2 && k + late != 0 && Agreeing(s, k + late) == 1
    requires Rounded(n0, second, delay0, k, late)
    requires Rounded(n1, second + 1, delay1, k, late)
    requires Rounded(n2, second + 2, delay2, k, late)
    requires SteadyPulse(p1, s.prevMicros, second + k + 1) && SteadyPulse(p2, p1.edgeMicros, second + k + 2)
    ensures SteppedBy(ThreeSentences(s, n0, p1, n1, p2, n2), n2.fixUs, second + 2 - late, k + late)
    ensures ThreeSentences(s, n0, p1, n1, p2, n2)[2].state.epoch == second + 2 <==> late == 0
  {
    RoundedShows(n0, second, delay0, k, late);
    RoundedShows(n1, second + 1, delay1, k, late);
    RoundedShows(n2, second + 2, delay2, k, late);
    AgreeingErrorIsStepped(s, second, k, k + late, n0, p1, n1, p2, n2);
  }

  /** An error of one second, on sentences late enough to show none, is never noticed. */
  lemma LateSentenceHidesError(s: Pps, n: Sentence, second: int, delayUs: int)
    requires Off(s, second, -1) && SentenceOnClock(n, second, delayUs, -1) && delayUs >= 501000
    ensures ApplySentence(s, n) == Outcome(s.(satellites := n.satellites, errorStreak := 0), [])
  {
    SmallErrorShows(n, second, delayUs, -1);
    NoErrorShown(s, n, second, -1);
  }

  /** Stepping epoch and clock together leaves every pulse's measured drift, and all else, as it was. */
  lemma RepairKeepsDrift(s: Pps, i: PulseInput, k: int)
    ensures Measure(s.(epoch := s.epoch - k), i.(systemUs := i.systemUs - k * SECOND))
         == Measure(s, i).(epoch := Measure(s, i).epoch - k)
  {
  }

  /**
    An error of three seconds or more, of any size, loses sync on its first sentence, with exactly one
    exception: the repair fires on that sentence and the error, as shown, fits the decoder, -128 to
    127 s. Then the device keeps sync and the shown error is removed. A repair that fires on a larger
    error fires on a wrong value, and the device still resets.
   */
  lemma LargeErrorResetsIff(s: Pps, n: Sentence, second: int, delayUs: int, k: int)
    requires Inv(s) && s.synced && s.epoch == second + k && (k <= -3 || 3 <= k)
    requires SentenceOnClock(n, second, delayUs, k)
    ensures var o, e := ApplySentence(s, n), k + Extra(k, delayUs);
      && (!o.state.synced <==> !(RepairFires(s, n) && -128 <= e <= 127))
      && (!o.state.synced ==>
            && o.state.count == 0 && o.state.epoch == 0 && o.state.anchor == NO_ANCHOR
            && o.actions != [] && o.actions[|o.actions| - 1] == SetTo(second * SECOND))
      && (o.state.synced ==>
            o.state.epoch == second - Extra(k, delayUs) && o.actions == [SetTo(n.fixUs - e * SECOND)])
  {
    DecoderReads(second, delayUs, k);
    SentenceOnSynced(s, n, second, Signed8(k + Extra(k, delayUs)));
    NearOnlyIfExact(k, k + Extra(k, delayUs));
  }

  /** A sentence on a synchronised device: repair or not, then the divergence check. */
  lemma SentenceOnSynced(s: Pps, n: Sentence, second: int, shown: int)
    requires Inv(s) && s.synced && GoodSentence(n, second) && SecondsOff(DeltaMs(n.nowUs, n.stamp)) == shown
    ensures var o, epoch := ApplySentence(s, n), if RepairFires(s, n) then s.epoch - shown else s.epoch;
      var repair := if RepairFires(s, n) then [SetTo(n.fixUs - shown * SECOND)] else [];
      && (o.state.synced <==> -2 <= second - epoch <= 2)
      && (o.state.synced ==> o.state.epoch == epoch && o.actions == repair)
      && (!o.state.synced ==>
            && o.state.count == 0 && o.state.epoch == 0 && o.state.anchor == NO_ANCHOR
            && o.actions == repair + [SetTo(second * SECOND)])
  {
  }

  /** An int8_t within two of a value next to the one it was made from is that value. */
  lemma NearOnlyIfExact(k: int, x: int)
    requires x == k || x == k + 1
    ensures -2 <= k - Signed8(x) <= 2 <==> -128 <= x <= 127
    ensures -128 <= x <= 127 ==> Signed8(x) == x
  {
  }

  /**
    What it takes for the repair to fire: the two usable sentences before showed the same value as an
    int8_t, so two errors of 1 s followed by one of 257 s are enough.
   */
  lemma RepairFiresIffAgreeing(s: Pps, n: Sentence, second: int, delayUs: int, k: int)
    requires Inv(s) && s.synced && SentenceOnClock(n, second, delayUs, k)
    ensures RepairFires(s, n) <==> s.errorStreak == 2 && s.errorLast == Signed8(k + Extra(k, delayUs))
  {
    DecoderReads(second, delayUs, k);
  }
}

/**
  When the epoch of a synchronised device can be zero, which the rest of the firmware reads as "not
  set".
 */
module PpsEpoch {
  import opened MachineInts
  import opened PpsState
  import opened PpsSync

  /** The error a sentence shows, in whole seconds as an int8_t. */
  function Shown(n: Sentence): int {
    SecondsOff(DeltaMs(n.nowUs, n.stamp))
  }

  /** The repair steps the epoch to zero, and the divergence check does not catch it. */
  predicate SentenceZeroes(s: Pps, n: Sentence) {
    RepairFires(s, n) && s.epoch == Shown(n) && (n.pending || -2 <= n.stamp <= 2)
  }

  /** The pulse counts up to zero, and the device is or stays synchronised. */
  predicate PulseZeroes(s: Pps, i: PulseInput) {
    && Counted(s) && s.count >= 1
    && s.epoch + 1 + ExtraEpochs(IntervalOf(s, i)) == 0
    && (!s.synced || Abs(SystemAtEdge(i) - IsrLatencyUs(IntervalOf(s, i))) <= 2000000)
  }

  predicate Zeroes(s: Pps, h: Handler) {
    match h
    case Pulse(i) => PulseZeroes(s, i)
    case Nmea(n) => SentenceZeroes(s, n)
    case RateSource(_) => false
  }

  /**
    A handler leads from a nonzero epoch to "synchronised with epoch zero" exactly when it is a pulse
    that counts up to zero or a sentence whose repair steps to zero.
   */
  lemma EpochZeroedIff(s: Pps, h: Handler)
    requires Inv(s) && s.epoch != 0
    ensures Handle(s, h).synced && Handle(s, h).epoch == 0 <==> Zeroes(s, h)
  {
    match h
    case Pulse(i) =>
    case Nmea(n) => SentenceZeroedIff(s, n);
    case RateSource(_) =>
  }

  lemma SentenceZeroedIff(s: Pps, n: Sentence)
    requires Inv(s) && s.epoch != 0
    ensures ApplySentence(s, n).state.synced && ApplySentence(s, n).state.epoch == 0 <==> SentenceZeroes(s, n)
  {
  }

  /** Some handler of the history zeroed the epoch of a device that was or became synchronised. */
  ghost predicate SomeHandlerZeroed(hs: seq<Handler>) {
    exists k :: 0 <= k < |hs| && Run(hs[..k]).epoch != 0 && Zeroes(Run(hs[..k]), hs[k])
  }

  /** Over whole histories: a device that is synchronised with epoch zero got there by such a handler. */
  lemma {:induction false} ZeroEpochIsExplained(hs: seq<Handler>)
    requires Run(hs).synced && Run(hs).epoch == 0
    ensures SomeHandlerZeroed(hs)
  {
    var n := |hs| - 1;
    var s := Run(hs[..n]);
    ReachableStatesKeepInv(hs[..n]);
    if s.epoch != 0 {
      EpochZeroedIff(s, hs[n]);
      assert hs[..n + 1] == hs;
    } else {
      if !s.synced { ZeroEpochNeedsSync(s, hs[n]); }
      ZeroEpochIsExplained(hs[..n]);
      var k :| 0 <= k < n && Run(hs[..n][..k]).epoch != 0 && Zeroes(Run(hs[..n][..k]), hs[..n][k]);
      assert hs[..n][..k] == hs[..k];
    }
  }

  /** A device with epoch zero does not become synchronised. */
  lemma ZeroEpochNeedsSync(s: Pps, h: Handler)
    requires Inv(s) && s.epoch == 0 && !s.synced
    ensures !Handle(s, h).synced
  {
  }

  /**
    The failing input: a sentence whose converted time is -1, then two pulses a second apart, on a
    device that just started.
   */
  lemma {:induction false} MinusOneStampZeroesEpoch(n: Sentence, p1: PulseInput, p2: PulseInput)
    requires n.usable && n.year >= 2025 && n.stamp == -1 && !n.pending && !n.satellites.NoneReported()
    requires ExtraEpochs(Sub32(p2.edgeMicros, p1.edgeMicros)) == 0
    ensures var hs := [Nmea(n), Pulse(p1), Pulse(p2)]; Run(hs).synced && Run(hs).epoch == 0
  {
    var hs := [Nmea(n), Pulse(p1), Pulse(p2)];
    assert hs[..2] == [Nmea(n), Pulse(p1)] && hs[..2][..1] == [Nmea(n)] && [Nmea(n)][..0] == [];
    var a := ApplySentence(BOOT, n).state;
    var b := ApplyPulse(a, p1).state;
    assert Run([Nmea(n)]) == a && Run(hs[..2]) == b && Run(hs) == ApplyPulse(b, p2).state;
  }

  // ---- Away from zero on plausible sentences ----

  /** 2025-01-01T00:00:00Z. */
  const EPOCH_2025 := 1735689600

  /**
    An assumption about a foreign function: the conversion of the sentence's date and time gives a
    second of 2025 or later when its year field says so. The firmware itself checks only that field.
   */
  predicate Plausible(h: Handler) {
    h.Nmea? && h.n.usable && h.n.year >= 2025 ==> h.n.stamp >= EPOCH_2025
  }

  /** Usable sentences that found a pulse pending, since the last one that did not. */
  function PendingSentences(hs: seq<Handler>): nat {
    if hs == [] then 0
    else
      var h, before := hs[|hs| - 1], PendingSentences(hs[..|hs| - 1]);
      if !h.Nmea? || !h.n.usable || h.n.year < 2025 then before
      else if h.n.pending then before + 1
      else 0
  }

  /** A live epoch (synchronised, or set by NMEA) is at least `floor`. */
  predicate EpochAtLeast(s: Pps, floor: int) {
    s.synced || s.epoch != 0 ==> s.epoch >= floor
  }

  lemma PulseKeepsFloor(s: Pps, i: PulseInput, floor: int)
    requires EpochAtLeast(s, floor)
    ensures EpochAtLeast(ApplyPulse(s, i).state, floor)
  {
  }

  lemma SentenceMovesFloor(s: Pps, n: Sentence, floor: int)
    requires EpochAtLeast(s, floor) && Plausible(Nmea(n)) && floor <= EPOCH_2025 - 2
    ensures EpochAtLeast(ApplySentence(s, n).state,
      if !n.usable || n.year < 2025 then floor else if n.pending then floor - 128 else EPOCH_2025 - 2)
  {
    assert -128 <= SecondsOff(DeltaMs(n.nowUs, n.stamp)) <= 128;
    var checked := CheckSecond(s.(satellites := n.satellites, gpsTimeValid := true), n).state;
    assert EpochAtLeast(checked, floor - 128);
  }

  /**
    While synchronised the epoch is a second of 2025 or later, short of at most 128 s for each
    sentence in a row that arrived with a pulse pending; in particular it is nonzero unless more
    than thirteen million such sentences come in a row.
   */
  lemma {:induction false} EpochIsPresentDay(hs: seq<Handler>)
    requires forall i :: 0 <= i < |hs| ==> Plausible(hs[i])
    ensures EpochAtLeast(Run(hs), EPOCH_2025 - 2 - 128 * PendingSentences(hs))
    ensures Run(hs).synced && PendingSentences(hs) < 13500000 ==> Run(hs).epoch > 0
  {
    if hs != [] {
      var front, h := hs[..|hs| - 1], hs[|hs| - 1];
      EpochIsPresentDay(front);
      assert Plausible(h);
      var floor := EPOCH_2025 - 2 - 128 * PendingSentences(front);
      match h
      case Pulse(i) => PulseKeepsFloor(Run(front), i, floor);
      case Nmea(n) => SentenceMovesFloor(Run(front), n, floor);
      case RateSource(_) =>
    }
  }
}

/**
  What one pulse and one sentence do to clock and state, case by case and in true time: how the edge
  is placed on the system clock, what is set or slewed, and what a lost fix or a lost epoch clears.
 */
module PpsPulse {
  import opened MachineInts
  import opened PpsState
  import opened PpsSync
  import PulseHealth

  // ---- Placing the edge on the system clock ----

  /**
    The clock reading is taken `read - edge` microseconds after the edge. A clock that runs with
    micros() meanwhile, `offset` ahead of it, is placed at exactly what it showed at the edge.
   */
  lemma ClockIsReadAtEdge(i: PulseInput, edge: int, read: int, offset: int)
    requires i.edgeMicros == Wrap(edge) && i.readMicros == Wrap(read) && 0 <= read - edge < TWO_31
    requires i.systemUs == read + offset
    ensures SystemAtEdge(i) == edge + offset
  {
    WrappedDifference(read, edge);
  }

  /**
    An interrupt that runs `late` microseconds after a punctual pulse stamps it that much later.
    The measured drift is what a punctual interrupt would have measured exactly when it was not late
    at all or 501 to 9999 us late.
   */
  lemma LateInterruptIsCompensatedIff(s: Pps, i: PulseInput, prev: int, late: int)
    requires s.prevMicros == Wrap(prev) && i.edgeMicros == Wrap(prev + SECOND) && 0 <= late < 500000
    requires 0 <= Signed32(Sub32(i.readMicros, i.edgeMicros)) - late
    ensures var j := i.(edgeMicros := Wrap(prev + SECOND + late));
      && Measure(s, j).epoch == Measure(s, i).epoch == s.epoch + 1
      && (Measure(s, j).driftUs == Measure(s, i).driftUs <==> late == 0 || 501 <= late <= 9999)
  {
    WrappedDifference(prev + SECOND, prev);
    WrappedDifference(prev + SECOND + late, prev);
    LaterStampReadsLater(i.readMicros, prev + SECOND, late);
    LatencyOf(late);
  }

  lemma LatencyOf(late: int)
    requires 0 <= late < 500000
    ensures ExtraEpochs(SECOND + late) == 0
    ensures IsrLatencyUs(SECOND + late) == (if 501 <= late <= 9999 then late else 0)
  {
  }

  lemma LaterStampReadsLater(read: U32, edge: int, late: int)
    requires 0 <= late <= Signed32(Sub32(read, Wrap(edge)))
    ensures Signed32(Sub32(read, Wrap(edge + late))) == Signed32(Sub32(read, Wrap(edge))) - late
  {
    var gap := Signed32(Sub32(read, Wrap(edge)));
    assert read == Wrap(edge + gap) by { ReadingIsImage(read, edge); }
    WrappedDifference(edge + gap, edge + late);
  }

  lemma ReadingIsImage(read: U32, edge: int)
    requires Signed32(Sub32(read, Wrap(edge))) >= 0
    ensures read == Wrap(edge + Signed32(Sub32(read, Wrap(edge))))
  {
  }

  /** A period is in spec exactly when it lies within 20 ms of some whole number of seconds, at least one. */
  lemma PeriodInSpecIff(interval: U32)
    ensures PeriodInSpec(interval) <==>
      exists n :: 1 <= n <= 4294 && NearWhole(interval, n)
  {
    var n := ExtraEpochs(interval) + 1;
    if PeriodInSpec(interval) {
      assert NearWhole(interval, n);
    }
    if m :| 1 <= m <= 4294 && NearWhole(interval, m) {
      assert interval + 500000 < TWO_32 ==> (interval + 500000) / SECOND == m;
    }
  }

  predicate NearWhole(interval: int, n: int) {
    Abs(interval - n * SECOND) <= 20000
  }

  // ---- A pulse on a synchronised device ----

  /** The device believed second `t1` at its last pulse, and this one comes `t2 - t1` seconds later. */
  predicate PulseAt(s: Pps, i: PulseInput, t1: int, t2: int) {
    && Inv(s) && s.synced && Counted(s) && s.epoch == t1
    && ExtraEpochs(IntervalOf(s, i)) + 1 == t2 - t1
  }

  /** How far the clock was ahead of second `t` at the edge, with a late interrupt taken out. */
  function AheadOf(s: Pps, i: PulseInput, t: int): int {
    SystemAtEdge(i) - IsrLatencyUs(IntervalOf(s, i)) - t * SECOND
  }

  /** Everything that sync rests on is gone, and no anchor is on offer. */
  predicate Unsynchronised(t: Pps) {
    && !t.synced && !t.gpsTimeValid && !t.hasGpsTime && t.epoch == 0 && t.count == 0
    && t.anchor.epoch == 0 && t.driftUs == 0 && t.driftMean256 == 0
  }

  /** What a reset must not touch. */
  predicate LearnedIsKept(s: Pps, t: Pps) {
    && t.rateMean256 == s.rateMean256 && t.useHwRate == s.useHwRate && t.offsetUs == s.offsetUs
    && t.errorStreak == s.errorStreak && t.errorLast == s.errorLast && t.satellites == s.satellites
  }

  /** More than two seconds off: everything is reset, and the clock is left alone. */
  lemma FarOffResets(s: Pps, i: PulseInput, t1: int, t2: int)
    requires PulseAt(s, i, t1, t2) && Abs(AheadOf(s, i, t2)) > 2000000
    ensures var o := ApplyPulse(s, i);
      o.actions == [] && Unsynchronised(o.state) && LearnedIsKept(s, o.state)
  {
  }

  /** Off by 100 ms to two seconds: the clock is set to the edge's second, and sync is kept. */
  lemma HardSyncSetsTrueSecond(s: Pps, i: PulseInput, t1: int, t2: int)
    requires PulseAt(s, i, t1, t2) && 100000 < Abs(AheadOf(s, i, t2)) <= 2000000
    ensures var o := ApplyPulse(s, i);
      && o.actions == [SetTo(t2 * SECOND)]
      && o.state.synced && o.state.epoch == t2 && o.state.count == s.count + 1
      && o.state.driftUs == 0 && o.state.driftMean256 == 0
      && o.state.anchor == s.anchor && LearnedIsKept(s, o.state)
  {
  }

  /** Closer: the clock is slewed against what it is ahead by and what it gains, and an anchor is published. */
  lemma CloseIsSlewed(s: Pps, i: PulseInput, t1: int, t2: int)
    requires PulseAt(s, i, t1, t2) && Abs(AheadOf(s, i, t2)) <= 100000
    ensures var o := ApplyPulse(s, i);
      && |o.actions| == 1 && o.actions[0].Slew? && 0 <= o.actions[0].usec < SECOND
      && o.actions[0].sec * SECOND + o.actions[0].usec == -(AheadOf(s, i, t2) + TruncDiv(s.driftMean256, 256))
      && o.state.synced && o.state.epoch == t2 && o.state.driftUs == AheadOf(s, i, t2)
      && o.state.anchor.epoch == t2 && o.state.anchor.micros == i.edgeMicros
  {
    SlewPairIsCorrection(CorrectionUs(AheadOf(s, i, t2), s.driftMean256));
  }

  // ---- A pulse that is not counted ----

  /**
    Without satellites a synchronised device is reset; an unsynchronised one keeps all but the stamp
    that limits its log, which moves once it is more than 10 s old and no pulse is counted.
   */
  lemma PulseWithoutSatellites(s: Pps, i: PulseInput)
    requires Inv(s) && s.gpsTimeValid && s.epoch != 0 && s.satellites.NoneReported()
    ensures var o := ApplyPulse(s, i);
      && o.actions == []
      && (s.synced ==> Unsynchronised(o.state) && LearnedIsKept(s, o.state)
                       && o.state.health == s.health && o.state.prevMicros == s.prevMicros)
      && o.state.lastPulseMillis ==
           (if (s.synced || s.count == 0) && Sub32(i.millis, s.lastPulseMillis) >= 10001 then i.millis
            else s.lastPulseMillis)
      && (!s.synced ==> o.state == s.(lastPulseMillis := o.state.lastPulseMillis))
  {
  }

  /** Before a sentence has set time and epoch, a pulse does nothing. */
  lemma PulseWithoutTime(s: Pps, i: PulseInput)
    requires !s.gpsTimeValid || s.epoch == 0
    ensures ApplyPulse(s, i) == Outcome(s, [])
  {
  }

  // ---- Satellites ----

  /** Satellites are reported unless both counts are zero; the four in view are added in 16 bits. */
  lemma SatellitesReportedIff(sat: Satellites)
    ensures !sat.NoneReported() <==>
      sat.inUse > 0 || !(exists k :: 0 <= k <= 3 && sat.gps + sat.glonass + sat.galileo + sat.beidou == k * 0x1_0000)
  {
    var sum: int := sat.gps + sat.glonass + sat.galileo + sat.beidou;
    if sum % 0x1_0000 == 0 {
      assert sum == sum / 0x1_0000 * 0x1_0000 && 0 <= sum / 0x1_0000 <= 3;
    }
  }

  // ---- A sentence ----

  /** Without a valid, fresh time of 2025 or later only the satellite counts are taken. */
  lemma UnusableSentence(s: Pps, n: Sentence)
    requires !n.usable || n.year <= 2024
    ensures ApplySentence(s, n) == Outcome(s.(satellites := n.satellites), [])
  {
  }

  /**
    On an unsynchronised device a usable sentence makes GPS time valid, sets the clock if it was not
    yet, coarsely, to the sentence's second, and clears any error count.
   */
  lemma CoarseTimeIsSetOnce(s: Pps, n: Sentence)
    requires Inv(s) && !s.synced && n.usable && n.year >= 2025
    ensures var o := ApplySentence(s, n);
      && o.state.gpsTimeValid && o.state.hasGpsTime && !o.state.synced && o.state.errorStreak == 0
      && o.actions == (if s.hasGpsTime then [] else [SetTo(n.stamp * SECOND)])
      && o.state.epoch == (if n.pending then s.epoch else n.stamp)
  {
  }

  // ---- When requests may be answered ----

  /** The time of the latest counted pulse of a history. */
  function LastCountedMillis(hs: seq<Handler>): U32 {
    if hs == [] then 0
    else
      var h, front := hs[|hs| - 1], hs[..|hs| - 1];
      if h.Pulse? && Counted(Run(front)) then h.i.millis else LastCountedMillis(front)
  }

  lemma {:induction false} PulseTimeIsKept(hs: seq<Handler>)
    ensures Run(hs).count >= 1 ==> Run(hs).lastPulseMillis == LastCountedMillis(hs)
  {
    if hs != [] {
      var front, h := hs[..|hs| - 1], hs[|hs| - 1];
      PulseTimeIsKept(front);
      ReachableStatesKeepInv(front);
      HandlerKeepsPulseTime(Run(front), h);
    }
  }

  lemma HandlerKeepsPulseTime(s: Pps, h: Handler)
    requires Inv(s)
    ensures var t := Handle(s, h);
      if h.Pulse? && Counted(s) then t.lastPulseMillis == h.i.millis
      else t.count >= 1 ==> s.count >= 1 && t.lastPulseMillis == s.lastPulseMillis
  {
  }

  /**
    Over every history, requests may be answered exactly when the device is synchronised, no three bad
    periods in a row are still held against it, and its latest counted pulse is less than 10 s old.
   */
  lemma {:induction false} MayServeIff(hs: seq<Handler>, nowMillis: U32)
    ensures MayServe(Run(hs), nowMillis) <==>
      && Run(hs).synced && !PulseHealth.Condemned(Verdicts(hs))
      && Sub32(nowMillis, LastCountedMillis(hs)) < PPS_TIMEOUT_MS
  {
    ReachableStatesKeepInv(hs);
    PulseTimeIsKept(hs);
    DeviceHealthFollowsVerdicts(hs);
  }

  // ---- The captured rate ----

  /**
    A captured second is taken for a rate exactly when it is less than 8000 ticks, 100 ppm, off; up to
    where the conversion to 32 bits wraps.
   */
  lemma CaptureAcceptedIff(interval: U32)
    requires interval > 0 && Abs(interval - CAPTURE_HZ) <= 171798691
    ensures -RATE_LIMIT_PPB < CapturePpb(interval) < RATE_LIMIT_PPB <==> Abs(interval - CAPTURE_HZ) < 8000
  {
    var t := TruncDiv((interval - CAPTURE_HZ) * 1000000000, CAPTURE_HZ);
    assert Signed32(Wrap(t)) == t;
  }

  /** The first two captures, and wilder ones, never reach the smoothed rate. */
  lemma WildCaptureIsIgnored(mean: int, i: PulseInput)
    requires i.capCount <= 2 || (i.capInterval > 0 && 8000 <= Abs(i.capInterval - CAPTURE_HZ) <= 171798691)
    ensures RateMean(mean, i) == mean
  {
    if i.capCount > 2 { CaptureAcceptedIff(i.capInterval); }
  }

  /** A capture register that was never written reads as no error. */
  lemma EmptyCaptureReadsZero()
    ensures CapturePpb(0) == 0
  {
  }

  /** Until the third capture the smoothed rate is zero and every anchor carries the legacy one. */
  lemma {:induction false} NoRateBeforeThirdCapture(hs: seq<Handler>)
    requires forall k :: 0 <= k < |hs| && hs[k].Pulse? ==> hs[k].i.capCount <= 2
    ensures Run(hs).rateMean256 == 0
    ensures exists lean :: LegacyAnchor(Run(hs).anchor, lean)
  {
    if hs == [] {
      assert LegacyAnchor(BOOT.anchor, 0);
    } else {
      var front, h := hs[..|hs| - 1], hs[|hs| - 1];
      NoRateBeforeThirdCapture(front);
      assert h.Pulse? ==> hs[|hs| - 1].i.capCount <= 2;
      HandlerWithoutCapture(Run(front), h);
    }
  }

  /** A whole number of microseconds a second, in ppb. */
  predicate LegacyAnchor(a: Anchor, lean: int) {
    a.ratePpb == lean * 1000
  }

  lemma HandlerWithoutCapture(s: Pps, h: Handler)
    requires s.rateMean256 == 0 && (exists lean :: LegacyAnchor(s.anchor, lean)) && (h.Pulse? ==> h.i.capCount <= 2)
    ensures Handle(s, h).rateMean256 == 0 && exists lean :: LegacyAnchor(Handle(s, h).anchor, lean)
  {
    assert LegacyAnchor(NO_ANCHOR, 0);
    if Processed(s, h) {
      SteerWithoutCapture(Measure(s.(count := s.count + 1, lastPulseMillis := h.i.millis), h.i), h.i);
    } else {
      UnprocessedPublishesNothing(s, h);
    }
  }

  lemma UnprocessedPublishesNothing(s: Pps, h: Handler)
    requires !Processed(s, h)
    ensures Handle(s, h).rateMean256 == s.rateMean256
    ensures Handle(s, h).anchor == s.anchor || Handle(s, h).anchor == NO_ANCHOR
  {
    match h
    case Pulse(i) =>
    case Nmea(n) => SentencePublishesNothing(s, n);
    case RateSource(_) =>
  }

  lemma SentencePublishesNothing(s: Pps, n: Sentence)
    ensures var t := ApplySentence(s, n).state;
      t.rateMean256 == s.rateMean256 && (t.anchor == s.anchor || t.anchor == NO_ANCHOR)
  {
  }

  lemma SteerWithoutCapture(s: Pps, i: PulseInput)
    requires s.rateMean256 == 0 && (exists lean :: LegacyAnchor(s.anchor, lean)) && i.capCount <= 2
    ensures Steer(s, i).state.rateMean256 == 0 && exists lean :: LegacyAnchor(Steer(s, i).state.anchor, lean)
  {
    assert LegacyAnchor(NO_ANCHOR, 0);
    assert LegacyAnchor(Discipline(s, i).state.anchor, TruncDiv(DriftMean(s.driftMean256, s.driftUs), 256));
  }
}

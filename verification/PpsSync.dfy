/**
  The sync state machine over whole handlers, and what holds in every state it reaches.
 */
module PpsSync {
  import opened MachineInts
  import opened PpsState
  import PulseHealth
  import IsrLatency

  /** A pulse, a sentence, or the user switching the source of the anchor's rate. */
  datatype Handler = Pulse(i: PulseInput) | Nmea(n: Sentence) | RateSource(hardware: bool)

  function Handle(s: Pps, h: Handler): Pps {
    match h
    case Pulse(i) => ApplyPulse(s, i).state
    case Nmea(n) => ApplySentence(s, n).state
    case RateSource(hardware) => s.(useHwRate := hardware)
  }

  /** The state after a history of handlers, oldest first. */
  function Run(hs: seq<Handler>): Pps {
    if hs == [] then BOOT else Handle(Run(hs[..|hs| - 1]), hs[|hs| - 1])
  }

  /** The state that more handlers lead to from `s`. */
  function After(s: Pps, hs: seq<Handler>): Pps {
    if hs == [] then s else Handle(After(s, hs[..|hs| - 1]), hs[|hs| - 1])
  }

  /** The pulse handler gets past its three guards and stores the edge stamp. */
  predicate Counted(s: Pps) {
    s.gpsTimeValid && s.epoch != 0 && !s.satellites.NoneReported()
  }

  /** The third sentence agreeing on the same nonzero whole-second error. */
  predicate RepairFires(s: Pps, n: Sentence) {
    var err := SecondsOff(DeltaMs(n.nowUs, n.stamp));
    && n.usable && n.year >= 2025 && s.synced && err != 0
    && err == s.errorLast && s.errorStreak + 1 >= EPOCH_FIX_STREAK
  }

  const RATE_LIMIT_PPB := 100000

  /** What every handler keeps. */
  predicate Inv(s: Pps) {
    && (s.synced <==> s.count >= 2)
    && (s.synced ==> s.gpsTimeValid)
    && (s.gpsTimeValid ==> s.hasGpsTime)
    && (s.anchor.epoch != 0 ==> s.synced)
    && (!s.synced ==> s.driftMean256 == 0)
    && 0 <= s.errorStreak < EPOCH_FIX_STREAK
    && (s.errorStreak > 0 ==> s.errorLast != 0)
    && -49 * 256 <= s.driftMean256 <= 49 * 256
    && -(RATE_LIMIT_PPB - 1) * 256 <= s.rateMean256 <= (RATE_LIMIT_PPB - 1) * 256
    && -RATE_LIMIT_PPB < s.anchor.ratePpb < RATE_LIMIT_PPB
  }

  /** A truncated EMA step moves toward the sample and not past it. */
  lemma EmaStaysBetween(mean: int, sample: int)
    ensures Min(mean, sample) <= mean + TruncDiv(sample - mean, 16) <= Max(mean, sample)
    ensures Min(mean, sample) <= mean + TruncDiv(sample - mean, 128) <= Max(mean, sample)
  {
  }

  /** What holds of the measured state before it is steered: the pulse is counted, sync not yet decided. */
  predicate Countable(s: Pps) {
    Inv(s.(count := if s.synced then 2 else 0)) && s.count >= 2 && s.gpsTimeValid
  }

  lemma DisciplineKeepsInv(s: Pps, i: PulseInput)
    requires Countable(s) && s.synced
    ensures Inv(Discipline(s, i).state)
  {
    if -50 < s.driftUs < 50 { EmaStaysBetween(s.driftMean256, s.driftUs * 256); }
    var raw := CapturePpb(i.capInterval);
    if -RATE_LIMIT_PPB < raw < RATE_LIMIT_PPB { EmaStaysBetween(s.rateMean256, raw * 256); }
  }

  lemma SteerKeepsInv(s: Pps, i: PulseInput)
    requires Countable(s)
    ensures Inv(Steer(s, i).state)
  {
    if s.synced { DisciplineKeepsInv(s, i); }
  }

  lemma PulseKeepsInv(s: Pps, i: PulseInput)
    requires Inv(s)
    ensures Inv(ApplyPulse(s, i).state)
  {
    var c := s.(count := s.count + 1, lastPulseMillis := i.millis);
    if s.gpsTimeValid && c.count > 1 {
      assert Countable(Measure(c, i));
      SteerKeepsInv(Measure(c, i), i);
    }
  }

  lemma SentenceKeepsInv(s: Pps, n: Sentence)
    requires Inv(s)
    ensures Inv(ApplySentence(s, n).state)
  {
  }

  lemma HandleKeepsInv(s: Pps, h: Handler)
    requires Inv(s)
    ensures Inv(Handle(s, h))
  {
    match h
    case Pulse(i) => PulseKeepsInv(s, i);
    case Nmea(n) => SentenceKeepsInv(s, n);
    case RateSource(_) =>
  }

  lemma {:induction false} AfterKeepsInv(s: Pps, hs: seq<Handler>)
    requires Inv(s)
    ensures Inv(After(s, hs))
  {
    if hs != [] {
      AfterKeepsInv(s, hs[..|hs| - 1]);
      HandleKeepsInv(After(s, hs[..|hs| - 1]), hs[|hs| - 1]);
    }
  }

  /**
    In every reachable state: synchronised means two pulses counted, a valid GPS time and a set
    clock; an anchor is on offer only while synchronised; and its rate always passes the serving
    side's +/-100 ppm guard.
   */
  lemma {:induction false} ReachableStatesKeepInv(hs: seq<Handler>)
    ensures Inv(Run(hs))
  {
    if hs != [] {
      ReachableStatesKeepInv(hs[..|hs| - 1]);
      HandleKeepsInv(Run(hs[..|hs| - 1]), hs[|hs| - 1]);
    }
  }

  // ---- Health and latency over the same runs ----

  /** The pulse's interval is measured, not only its stamp taken. */
  predicate Processed(s: Pps, h: Handler) {
    h.Pulse? && Counted(s) && s.count >= 1
  }

  function IntervalOf(s: Pps, i: PulseInput): U32 {
    Sub32(i.edgeMicros, s.prevMicros)
  }

  /** The verdicts on the processed intervals of a history. */
  function Verdicts(hs: seq<Handler>): seq<bool> {
    if hs == [] then []
    else
      var s, h, before := Run(hs[..|hs| - 1]), hs[|hs| - 1], Verdicts(hs[..|hs| - 1]);
      if Processed(s, h) then before + [PeriodInSpec(IntervalOf(s, h.i))] else before
  }

  /** What the latency diagnostic was fed. */
  function Readings(hs: seq<Handler>): seq<IsrLatency.Reading> {
    if hs == [] then []
    else
      var s, h, before := Run(hs[..|hs| - 1]), hs[|hs| - 1], Readings(hs[..|hs| - 1]);
      if Processed(s, h) then
        before + [IsrLatency.Reading(h.i.edgeMicros, h.i.capPrev, h.i.capCount,
                                     PeriodInSpec(IntervalOf(s, h.i)) && ExtraEpochs(IntervalOf(s, h.i)) == 0)]
      else before
  }

  lemma HandlerFeedsDiagnostics(s: Pps, h: Handler)
    ensures Handle(s, h).health ==
      if Processed(s, h) then PulseHealth.Step(s.health, PeriodInSpec(IntervalOf(s, h.i))) else s.health
    ensures Handle(s, h).latency ==
      if Processed(s, h)
      then IsrLatency.Step(s.latency, h.i.edgeMicros, h.i.capPrev, h.i.capCount,
                           PeriodInSpec(IntervalOf(s, h.i)) && ExtraEpochs(IntervalOf(s, h.i)) == 0)
      else s.latency
  {
    match h
    case Pulse(i) =>
      if Processed(s, h) {
        SteerLeavesDiagnostics(Measure(s.(count := s.count + 1, lastPulseMillis := i.millis), i), i);
      }
    case Nmea(n) => SentenceLeavesDiagnostics(s, n);
    case RateSource(_) =>
  }

  lemma SteerLeavesDiagnostics(s: Pps, i: PulseInput)
    ensures Steer(s, i).state.health == s.health && Steer(s, i).state.latency == s.latency
  {
  }

  lemma SentenceLeavesDiagnostics(s: Pps, n: Sentence)
    ensures ApplySentence(s, n).state.health == s.health && ApplySentence(s, n).state.latency == s.latency
  {
  }

  /**
    Through every reset, the device's health is the hysteresis over the verdicts of its own
    processed intervals: it is unhealthy exactly when some three bad ones in a row have not since
    been followed by ten good ones.
   */
  lemma {:induction false} DeviceHealthFollowsVerdicts(hs: seq<Handler>)
    ensures Run(hs).health == PulseHealth.Run(Verdicts(hs))
    ensures Run(hs).health.healthy <==> !PulseHealth.Condemned(Verdicts(hs))
  {
    if hs != [] {
      var front, h := hs[..|hs| - 1], hs[|hs| - 1];
      DeviceHealthFollowsVerdicts(front);
      HandlerFeedsDiagnostics(Run(front), h);
      if Processed(Run(front), h) {
        assert Verdicts(hs)[..|Verdicts(hs)| - 1] == Verdicts(front);
      }
    }
    PulseHealth.HealthyIffNotCondemned(Verdicts(hs));
  }

  lemma {:induction false} DeviceLatencyFollowsReadings(hs: seq<Handler>)
    ensures Run(hs).latency == IsrLatency.Follow(IsrLatency.INITIAL, Readings(hs))
  {
    if hs != [] {
      var front, h := hs[..|hs| - 1], hs[|hs| - 1];
      DeviceLatencyFollowsReadings(front);
      HandlerFeedsDiagnostics(Run(front), h);
      if Processed(Run(front), h) {
        assert Readings(hs)[..|Readings(hs)| - 1] == Readings(front);
      }
    }
  }

  /**
    Over every history whose readings end in an unbroken run of pulses that began with a restart,
    the device's latency level is the true latency change over that run.
   */
  lemma {:induction false} DeviceLatencyTelescopes(
      hs: seq<Handler>, before: seq<IsrLatency.Reading>, pulses: seq<IsrLatency.Pulse>)
    requires IsrLatency.Unbroken(pulses) && Readings(hs) == before + IsrLatency.Images(pulses)
    requires IsrLatency.Restarts(IsrLatency.Follow(IsrLatency.INITIAL, before), pulses[0])
    ensures Run(hs).latency.level == IsrLatency.LevelAt(pulses, |pulses| - 1)
    ensures IsrLatency.IsLeastLevel(Run(hs).latency.floor, pulses)
  {
    DeviceLatencyFollowsReadings(hs);
    IsrLatency.FollowedRunTelescopes(before, pulses);
  }
}

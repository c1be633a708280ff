/**
  The PPS discipline as functions on its state: what one processed pulse
  (`apply_pps_correction_`) and one NMEA sentence (`on_update`) do to the fields and to the system
  clock. The firmware object that updates the fields in place is in PpsDevice.dfy.
 */
module PpsState {
  import opened MachineInts
  import PulseHealth
  import IsrLatency

  const SECOND := 1000000
  const PERIOD_TOLERANCE_US := 20000
  const CAPTURE_HZ := 80000000
  const EPOCH_FIX_STREAK := 3

  datatype Anchor = Anchor(epoch: int, micros: U32, ratePpb: int)

  const NO_ANCHOR := Anchor(0, 0, 0)

  /** Satellites in use (GGA) and in view per constellation (GSV). */
  datatype Satellites = Satellites(inUse: U16, gps: U16, glonass: U16, galileo: U16, beidou: U16) {
    predicate NoneReported() {
      inUse == 0 && (gps + glonass + galileo + beidou) % 0x1_0000 == 0
    }
  }

  datatype Pps = Pps(
    gpsTimeValid: bool,
    hasGpsTime: bool,
    synced: bool,
    epoch: int,
    count: nat,
    prevMicros: U32,
    driftUs: int,
    offsetUs: int,
    driftMean256: int,
    rateMean256: int,
    useHwRate: bool,
    anchor: Anchor,
    health: PulseHealth.Health,
    latency: IsrLatency.Latency,
    errorStreak: int,
    errorLast: int,
    satellites: Satellites,
    lastPulseMillis: U32)

  const BOOT := Pps(
    false, false, false, 0, 0, 0, 0, 0, 0, 0, true, NO_ANCHOR, PulseHealth.INITIAL, IsrLatency.INITIAL,
    0, 0, Satellites(0, 0, 0, 0, 0), 0)

  /** What is done to the system clock: set it, or start a slew given as adjtime's (sec, usec) pair. */
  datatype ClockAction = SetTo(us: int) | Slew(sec: int, usec: int)

  datatype Outcome = Outcome(state: Pps, actions: seq<ClockAction>)

  const PPS_TIMEOUT_MS := 10000

  /** `is_synchronized`: requests may be answered. */
  predicate MayServe(s: Pps, nowMillis: U32) {
    s.synced && s.health.healthy && Sub32(nowMillis, s.lastPulseMillis) < PPS_TIMEOUT_MS
  }

  // ---- One processed pulse ----

  /** What the handler reads: the system clock and micros() back to back, the snapshotted edge stamp,
      the hardware capture and millis(). */
  datatype PulseInput = PulseInput(
    systemUs: int, readMicros: U32, edgeMicros: U32, capPrev: U32, capInterval: U32, capCount: U32, millis: U32)

  /** Loss of sync: everything that must be re-established is cleared, and serving must fall back. */
  function Reset(s: Pps): Pps {
    s.(synced := false, anchor := NO_ANCHOR, gpsTimeValid := false, hasGpsTime := false, epoch := 0,
       driftUs := 0, driftMean256 := 0, count := 0)
  }

  function ApplyPulse(s: Pps, i: PulseInput): Outcome {
    if !s.gpsTimeValid || s.epoch == 0 then Outcome(s, [])
    else if s.satellites.NoneReported() then
      var r := if s.synced then Reset(s) else s;
      Outcome(if r.count == 0 && Sub32(i.millis, r.lastPulseMillis) > 10000
              then r.(lastPulseMillis := i.millis) else r, [])
    else
      var c := s.(count := s.count + 1, lastPulseMillis := i.millis);
      if c.count == 1 then Outcome(c.(prevMicros := i.edgeMicros), [])
      else Steer(Measure(c, i), i)
  }

  /** Whole seconds that passed beyond the one expected; -1 when the same edge is processed twice. */
  function ExtraEpochs(interval: U32): int {
    Wrap(interval + 500000) / SECOND - 1
  }

  /** A late interrupt: a single-second interval 0.5 to 10 ms long. */
  function IsrLatencyUs(interval: U32): int {
    if ExtraEpochs(interval) == 0 && 500 < interval - SECOND < 10000 then interval - SECOND else 0
  }

  predicate PeriodInSpec(interval: U32) {
    ExtraEpochs(interval) >= 0
    && -PERIOD_TOLERANCE_US <= interval - (ExtraEpochs(interval) + 1) * SECOND <= PERIOD_TOLERANCE_US
  }

  /** What the system clock read at the edge: slewing is over, so the elapsed micros() cancel. */
  function SystemAtEdge(i: PulseInput): int {
    i.systemUs - Signed32(Sub32(i.readMicros, i.edgeMicros))
  }

  /** Interval, verdicts, epoch and drift. */
  function Measure(s: Pps, i: PulseInput): Pps {
    var interval := Sub32(i.edgeMicros, s.prevMicros);
    var extra := ExtraEpochs(interval);
    var epoch := s.epoch + 1 + extra;
    s.(prevMicros := i.edgeMicros,
       health := PulseHealth.Step(s.health, PeriodInSpec(interval)),
       latency := IsrLatency.Step(s.latency, i.edgeMicros, i.capPrev, i.capCount, PeriodInSpec(interval) && extra == 0),
       epoch := epoch,
       driftUs := SystemAtEdge(i) - IsrLatencyUs(interval) - epoch * SECOND)
  }

  function Steer(s: Pps, i: PulseInput): Outcome {
    if !s.synced then Outcome(s.(driftUs := 0, synced := true), [SetTo(s.epoch * SECOND)])
    else if s.driftUs > 2000000 || s.driftUs < -2000000 then Outcome(Reset(s), [])
    else if s.driftUs > 100000 || s.driftUs < -100000 then
      Outcome(s.(driftUs := 0, driftMean256 := 0), [SetTo(s.epoch * SECOND)])
    else Discipline(s, i)
  }

  /** `correction_us`: undo the drift, and lean against its mean. */
  function CorrectionUs(driftUs: int, driftMean256: int): int {
    -(driftUs + TruncDiv(driftMean256, 256))
  }

  /** The (sec, usec) pair adjtime is given: C++ division, then usec brought into [0, 1e6). */
  function AsTimeval(us: int): ClockAction {
    var sec, usec := TruncDiv(us, SECOND), us - TruncDiv(us, SECOND) * SECOND;
    if usec < 0 then Slew(sec - 1, usec + SECOND) else Slew(sec, usec)
  }

  /** The running mean of clean drift readings, x256, weight 1/128. */
  function DriftMean(mean: int, driftUs: int): int {
    if -50 < driftUs < 50 then mean + TruncDiv(driftUs * 256 - mean, 128) else mean
  }

  /** The crystal error of one captured interval, in ppb, as an int32_t. */
  function CapturePpb(interval: U32): int {
    if interval == 0 then 0
    else Signed32(Wrap(TruncDiv((interval - CAPTURE_HZ) * 1000000000, CAPTURE_HZ)))
  }

  function RateMean(mean: int, i: PulseInput): int {
    var raw := CapturePpb(i.capInterval);
    if i.capCount < 3 || raw <= -100000 || 100000 <= raw then mean
    else if mean == 0 then raw * 256
    else mean + TruncDiv(raw * 256 - mean, 16)
  }

  /** Normal operation: slew, learn, publish the anchor. */
  function Discipline(s: Pps, i: PulseInput): Outcome {
    var mean := DriftMean(s.driftMean256, s.driftUs);
    var rateMean := RateMean(s.rateMean256, i);
    var ratePpb := if i.capCount >= 3 && s.useHwRate then TruncDiv(rateMean, 256) else TruncDiv(mean, 256) * 1000;
    Outcome(
      s.(driftMean256 := mean,
         offsetUs := if -50 < s.driftUs < 50 then s.driftUs else TruncDiv(mean, 256),
         rateMean256 := rateMean,
         anchor := Anchor(s.epoch, i.edgeMicros, ratePpb)),
      [AsTimeval(CorrectionUs(s.driftUs, s.driftMean256))])
  }

  // ---- One NMEA sentence ----

  /** `stamp` is the sentence's UTC second; `nowUs` and `fixUs` are the two readings of the system
      clock the handler may take; `pending` is the pulse flag the ISR sets. */
  datatype Sentence = Sentence(
    satellites: Satellites, usable: bool, year: int, stamp: int, nowUs: int, fixUs: int, pending: bool)

  function ApplySentence(s: Pps, n: Sentence): Outcome {
    var t := s.(satellites := n.satellites);
    if !n.usable || n.year < 2025 then Outcome(t, [])
    else
      var checked := CheckSecond(t.(gpsTimeValid := true), n);
      var managed := ManageEpoch(checked.state, n);
      if !managed.synced && !managed.hasGpsTime
      then Outcome(managed.(hasGpsTime := true), checked.actions + [SetTo(n.stamp * SECOND)])
      else Outcome(managed, checked.actions)
  }

  /** System clock minus the sentence's second, in ms. */
  function DeltaMs(nowUs: int, stamp: int): int {
    (nowUs / SECOND - stamp) * 1000 + nowUs % SECOND / 1000
  }

  /** The whole-second error the delta shows, as an int8_t. */
  function SecondsOff(deltaMs: int): int {
    if deltaMs > 900 then Signed8(TruncDiv(deltaMs + 500, 1000))
    else if deltaMs < -100 then Signed8(-TruncDiv(-deltaMs + 500, 1000))
    else 0
  }

  /** Three sentences agreeing on the same whole-second error step epoch and clock together. */
  function CheckSecond(s: Pps, n: Sentence): Outcome {
    var err := SecondsOff(DeltaMs(n.nowUs, n.stamp));
    if !s.synced || err == 0 then Outcome(s.(errorStreak := 0), [])
    else
      var streak := if err == s.errorLast then s.errorStreak + 1 else 1;
      if streak >= EPOCH_FIX_STREAK
      then Outcome(s.(epoch := s.epoch - err, errorLast := err, errorStreak := 0), [SetTo(n.fixUs - err * SECOND)])
      else Outcome(s.(errorLast := err, errorStreak := streak), [])
  }

  /** Before sync NMEA manages the epoch; after it, a divergence of more than 2 s resets. */
  function ManageEpoch(s: Pps, n: Sentence): Pps {
    if n.pending then s
    else if !s.synced then s.(epoch := n.stamp)
    else if n.stamp - s.epoch > 2 || n.stamp - s.epoch < -2 then Reset(s)
    else s
  }

  /** The pair handed to adjtime is the correction, in the form its contract asks for. */
  lemma SlewPairIsCorrection(us: int)
    ensures var a := AsTimeval(us); a.Slew? && a.sec * SECOND + a.usec == us && 0 <= a.usec < SECOND
  {
  }
}

/**
  The firmware object of the PPS discipline: an interrupt handler and main-loop handlers that
  update its fields in place.
 */
module PpsDevice {
  import opened MachineInts
  import PulseHealth
  import IsrLatency
  import opened PpsState

  const ISR_GUARD_US := 900000

  /** The two stamps and the flag shared with the interrupt. */
  datatype Shared = Shared(lastMicros: U32, guardMicros: U32, flag: bool)

  /** `pps_isr` drops an edge less than 900 ms after the last one it accepted. */
  predicate Accepts(s: Shared, now: U32) {
    s.guardMicros == 0 || Sub32(now, s.guardMicros) >= ISR_GUARD_US
  }

  function OnEdge(s: Shared, now: U32): Shared {
    if Accepts(s, now) then Shared(now, now, true) else s
  }

  /** The 32-bit residual is the true one for every interval that rounds to a second or more. */
  lemma ResidualIsExact(interval: U32)
    ensures ExtraEpochs(interval) >= 0 ==>
      Signed32(Sub32(interval, Wrap((ExtraEpochs(interval) + 1) * SECOND)))
        == interval - (ExtraEpochs(interval) + 1) * SECOND
  {
    WrappedDifference(interval, (ExtraEpochs(interval) + 1) * SECOND);
  }

  class GpsPpsTime {
    // written by the interrupt
    var lastPpsMicros: U32
    var isrAnchorMicros: U32
    var ppsFlag: bool
    // the fields only the main loop writes
    var st: Pps

    function Interrupt(): Shared
      reads this`lastPpsMicros, this`isrAnchorMicros, this`ppsFlag
    {
      Shared(lastPpsMicros, isrAnchorMicros, ppsFlag)
    }

    constructor ()
      ensures st == BOOT && Interrupt() == Shared(0, 0, false)
    {
      lastPpsMicros, isrAnchorMicros, ppsFlag := 0, 0, false;
      st := BOOT;
    }

    method PpsIsr(now: U32)
      modifies this
      ensures st == old(st)
      ensures Interrupt() == OnEdge(old(Interrupt()), now)
    {
      if isrAnchorMicros != 0 && Sub32(now, isrAnchorMicros) < ISR_GUARD_US {
        return;
      }
      lastPpsMicros := now;
      isrAnchorMicros := now;
      ppsFlag := true;
    }

    /** One pass of the main loop; the edge stamp is the one the interrupt left last. */
    method Loop(i: PulseInput) returns (actions: seq<ClockAction>)
      requires i.edgeMicros == lastPpsMicros
      modifies this
      ensures Interrupt() == old(Interrupt()).(flag := false)
      ensures Outcome(st, actions) == if old(ppsFlag) then ApplyPulse(old(st), i) else Outcome(old(st), [])
    {
      actions := [];
      if ppsFlag {
        ppsFlag := false;
        actions := ApplyPpsCorrection(i);
      }
    }

    /** `set_use_hw_rate`; takes effect at the next edge. */
    method SetUseHwRate(use: bool)
      modifies this`st
      ensures st == old(st).(useHwRate := use)
    {
      st := st.(useHwRate := use);
    }

    method SuspendSync()
      modifies this`st
      ensures st == Reset(old(st))
    {
      st := st.(synced := false);
      st := st.(anchor := NO_ANCHOR);
      st := st.(gpsTimeValid := false);
      st := st.(hasGpsTime := false);
      st := st.(epoch := 0);
      st := st.(driftUs := 0);
      st := st.(driftMean256 := 0);
      st := st.(count := 0);
    }

    method JudgePeriod(inSpec: bool)
      modifies this`st
      ensures st == old(st).(health := PulseHealth.Step(old(st.health), inSpec))
    {
      if !inSpec {
        st := st.(health := st.health.(good := 0));
        if st.health.bad < PulseHealth.BAD_STREAK {
          st := st.(health := st.health.(bad := st.health.bad + 1));
        }
        if st.health.bad >= PulseHealth.BAD_STREAK && st.health.healthy {
          st := st.(health := st.health.(healthy := false));
        }
      } else {
        st := st.(health := st.health.(bad := 0));
        if st.health.good < PulseHealth.GOOD_STREAK {
          st := st.(health := st.health.(good := st.health.good + 1));
        }
        if st.health.good >= PulseHealth.GOOD_STREAK && !st.health.healthy {
          st := st.(health := st.health.(healthy := true));
        }
      }
    }

    method TrackIsrLatency(isr: U32, cap: U32, capCount: U32, clean: bool)
      modifies this`st
      ensures st == old(st).(latency := IsrLatency.Step(old(st.latency), isr, cap, capCount, clean))
    {
      if !clean || capCount == 0 {
        st := st.(latency := st.latency.(paired := false));
        return;
      }
      if st.latency.paired && capCount == Wrap(st.latency.prevCount + 1) {
        var isrTicks := Sub32(isr, st.latency.prevIsr) * IsrLatency.TICKS_PER_US;
        var capTicks := Sub32(cap, st.latency.prevCap);
        var diff := isrTicks - capTicks;
        if diff > IsrLatency.PAIR_LIMIT_TICKS || diff < -IsrLatency.PAIR_LIMIT_TICKS {
          st := st.(latency := st.latency.(level := 0, floor := 0));
        } else {
          st := st.(latency := st.latency.(level := st.latency.level + diff));
          if st.latency.level < st.latency.floor {
            st := st.(latency := st.latency.(floor := st.latency.level));
          }
        }
      } else {
        st := st.(latency := st.latency.(level := 0, floor := 0));
      }
      st := st.(latency := st.latency.(prevIsr := isr, prevCap := cap, prevCount := capCount, paired := true));
    }

    /** Missed pulses, interrupt latency and the period verdict, from one interval, in 32-bit arithmetic. */
    static method JudgeInterval(interval: U32) returns (extraEpochs: int, isrLatencyUs: int, inSpec: bool)
      ensures extraEpochs == ExtraEpochs(interval)
      ensures isrLatencyUs == IsrLatencyUs(interval)
      ensures inSpec == PeriodInSpec(interval)
    {
      extraEpochs := Wrap(interval + 500000) / SECOND - 1;
      isrLatencyUs := 0;
      if extraEpochs == 0 {
        var deviation := Signed32(interval) - SECOND;
        if deviation > 500 && deviation < 10000 {
          isrLatencyUs := deviation;
        }
      }
      var residual := Signed32(Sub32(interval, Wrap((extraEpochs + 1) * SECOND)));
      ResidualIsExact(interval);
      inSpec := extraEpochs >= 0 && residual <= PERIOD_TOLERANCE_US && residual >= -PERIOD_TOLERANCE_US;
    }

    method MeasurePulse(i: PulseInput)
      modifies this`st
      ensures st == Measure(old(st), i)
    {
      var interval := Sub32(i.edgeMicros, st.prevMicros);
      var extraEpochs, isrLatencyUs, inSpec := JudgeInterval(interval);
      st := st.(prevMicros := i.edgeMicros);
      JudgePeriod(inSpec);
      TrackIsrLatency(i.edgeMicros, i.capPrev, i.capCount, inSpec && extraEpochs == 0);
      var correctedEpoch := st.epoch + 1 + extraEpochs;
      st := st.(epoch := correctedEpoch);
      var systemAtPulse := i.systemUs - Signed32(Sub32(i.readMicros, i.edgeMicros)) - isrLatencyUs;
      st := st.(driftUs := systemAtPulse - correctedEpoch * SECOND);
    }

    method ApplyPpsCorrection(i: PulseInput) returns (actions: seq<ClockAction>)
      modifies this`st
      ensures Outcome(st, actions) == ApplyPulse(old(st), i)
    {
      actions := [];
      if !st.gpsTimeValid {
        return;
      }
      if st.epoch == 0 {
        return;
      }
      if st.satellites.NoneReported() {
        if st.synced {
          SuspendSync();
        }
        if st.count == 0 && Sub32(i.millis, st.lastPulseMillis) > 10000 {
          st := st.(lastPulseMillis := i.millis);
        }
        return;
      }
      st := st.(count := st.count + 1);
      st := st.(lastPulseMillis := i.millis);
      if st.count == 1 {
        st := st.(prevMicros := i.edgeMicros);
        return;
      }
      MeasurePulse(i);
      var correctedEpoch := st.epoch;
      if !st.synced {
        actions := [SetTo(correctedEpoch * SECOND)];
        st := st.(driftUs := 0);
        st := st.(synced := true);
      } else if st.driftUs > 2000000 || st.driftUs < -2000000 {
        SuspendSync();
      } else if st.driftUs > 100000 || st.driftUs < -100000 {
        actions := [SetTo(correctedEpoch * SECOND)];
        st := st.(driftUs := 0);
        st := st.(driftMean256 := 0);
      } else {
        actions := DisciplineClock(correctedEpoch, i);
      }
    }

    /** Only clean readings move the running mean; a spike leaves it and reports the mean instead. */
    method LearnDrift()
      modifies this`st
      ensures st == old(st).(
        driftMean256 := DriftMean(old(st.driftMean256), old(st.driftUs)),
        offsetUs := if -50 < old(st.driftUs) < 50 then old(st.driftUs) else TruncDiv(old(st.driftMean256), 256))
    {
      if st.driftUs > -50 && st.driftUs < 50 {
        st := st.(driftMean256 := st.driftMean256 + TruncDiv(st.driftUs * 256 - st.driftMean256, 128));
        st := st.(offsetUs := st.driftUs);
      } else {
        st := st.(offsetUs := TruncDiv(st.driftMean256, 256));
      }
    }

    method LearnRate(i: PulseInput)
      modifies this`st
      ensures st == old(st).(rateMean256 := RateMean(old(st.rateMean256), i))
    {
      if i.capCount >= 3 {
        var raw := CapturePpb(i.capInterval);
        if raw > -100000 && raw < 100000 {
          if st.rateMean256 == 0 {
            st := st.(rateMean256 := raw * 256);
          } else {
            st := st.(rateMean256 := st.rateMean256 + TruncDiv(raw * 256 - st.rateMean256, 16));
          }
        }
      }
    }

    method DisciplineClock(epoch: int, i: PulseInput) returns (actions: seq<ClockAction>)
      requires st.epoch == epoch
      modifies this`st
      ensures Outcome(st, actions) == Discipline(old(st), i)
    {
      var overcorrection := TruncDiv(st.driftMean256, 256);
      var correction := -(st.driftUs + overcorrection);
      var sec := TruncDiv(correction, SECOND);
      var usec := correction - sec * SECOND;
      if usec < 0 {
        sec := sec - 1;
        usec := usec + SECOND;
      }
      actions := [Slew(sec, usec)];
      LearnDrift();
      LearnRate(i);
      var ratePpb: int;
      if i.capCount >= 3 && st.useHwRate {
        ratePpb := TruncDiv(st.rateMean256, 256);
      } else {
        ratePpb := TruncDiv(st.driftMean256, 256) * 1000;
      }
      st := st.(anchor := Anchor(epoch, i.edgeMicros, ratePpb));
    }

    method CheckWholeSecond(n: Sentence) returns (actions: seq<ClockAction>)
      modifies this`st
      ensures Outcome(st, actions) == CheckSecond(old(st), n)
    {
      actions := [];
      var deltaMs := (n.nowUs / SECOND - n.stamp) * 1000 + n.nowUs % SECOND / 1000;
      var err := 0;
      if deltaMs > 900 {
        err := Signed8(TruncDiv(deltaMs + 500, 1000));
      } else if deltaMs < -100 {
        err := Signed8(-TruncDiv(-deltaMs + 500, 1000));
      }
      if !st.synced || err == 0 {
        st := st.(errorStreak := 0);
      } else {
        st := st.(errorStreak := if err == st.errorLast then st.errorStreak + 1 else 1);
        st := st.(errorLast := err);
        if st.errorStreak >= EPOCH_FIX_STREAK {
          st := st.(epoch := st.epoch - err);
          actions := [SetTo(n.fixUs - err * SECOND)];
          st := st.(errorStreak := 0);
        }
      }
    }

    method ManageNmeaEpoch(n: Sentence)
      requires n.pending == ppsFlag
      modifies this`st
      ensures st == ManageEpoch(old(st), n)
    {
      if !st.synced && !ppsFlag {
        st := st.(epoch := n.stamp);
      } else if st.synced && !ppsFlag {
        var epochDiff := n.stamp - st.epoch;
        if epochDiff > 2 || epochDiff < -2 {
          SuspendSync();
        }
      }
    }

    method OnUpdate(n: Sentence) returns (actions: seq<ClockAction>)
      requires n.pending == ppsFlag
      modifies this`st
      ensures Outcome(st, actions) == ApplySentence(old(st), n)
    {
      actions := [];
      st := st.(satellites := n.satellites);
      if !n.usable || n.year < 2025 {
        return;
      }
      st := st.(gpsTimeValid := true);
      actions := CheckWholeSecond(n);
      ManageNmeaEpoch(n);
      if !st.synced && !st.hasGpsTime {
        actions := actions + [SetTo(n.stamp * SECOND)];
        st := st.(hasGpsTime := true);
      }
    }

    /** Serving is allowed only from a synchronised, healthy and recent pulse. */
    method IsSynchronized(nowMillis: U32) returns (ok: bool)
      ensures ok <==> MayServe(st, nowMillis)
    {
      if !st.synced {
        return false;
      }
      if !st.health.healthy {
        return false;
      }
      return Sub32(nowMillis, st.lastPulseMillis) < PPS_TIMEOUT_MS;
    }
  }
}

# Verification of the GPS/PPS-disciplined NTP server

A Dafny 4.11 model of the firmware's time path, from the pulse interrupt to the bytes of a reply, and
of its bounded-memory recorders, with proofs of what each part promises.

`dafny verify dfyconfig.toml` checks everything.

## What is modelled

**Clock discipline.** `PpsState` holds the main loop's fields and says what one pulse and one NMEA
sentence do to them; `PpsDevice` is the object that does it step by step, in place, and is proved
against those functions. `PpsSync` proves the invariant of every reachable state and ties health and
latency to the history, `PpsResync` to which second a device synchronises, `PpsEpoch` when its epoch can
be zero, and `PpsRepair` what becomes of whole-second errors. `PpsPulse` says in true time, case by case,
what one pulse and one sentence do to clock and state. `PpsInterleaving` runs interrupt and main loop as small
steps and proves that no second is lost or counted twice. `ClosedLoop` closes the loop around a crystal
with a constant error, sentences arriving at any time, and proves where, and how fast, the truncating
integer filter settles; `Reconvergence` does the same from any mean the device can hold.
`PulseHealth` and `IsrLatency` compare two counters-and-flags machines with the history they summarise.

**Served time.** `Seqlock` is the sequence lock as interleaved steps, word by word; it is used by the
anchor (`AnchorSeqlock`) and by the hook ring (`HookRingSteps`), whose quiescent, in-place form is
`HookRing`. `AnchoredTime` turns an anchor into UTC and UTC into NTP format (section 6 of RFC 5905).
`ServedTime` joins capture, rate filter, anchor and serving into one bound against GPS time.
`ReceiveStamp` rebuilds T2 from 32-bit stamps and decides admission.

**The transmit patch.** `UdpChecksum` proves the incremental update (RFC 1624, section 3, equation 3)
equal to the checksum of RFC 768 computed from scratch. `TxPatch` proves what the 16 KB ring holds after
a patch, also when one SPI transfer fails. `TxDriver` is the write callback that tracks a frame and
patches it, in place on the ring and the header buffer.

**Recorders and learners.** `SendDelay`, `TalkerTable` and `NetBins` update their state in place and are
each compared with the full history they saw.

Times are unbounded integers and a 32-bit counter is the image of one modulo 2^32;
`MachineInts.WrappedDifference` is the one fact that connects them.

## What the proofs found

* A device synchronises to the right second exactly when the last sentence that set its epoch describes the
  second of the first counted pulse (`PpsResync.SyncSecondIff`). "Sentence, pulse, sentence, pulse" does
  that, also with pulses missing. Without the second sentence the device is one second behind
  (`PpsResync.SecondSentenceIsNeeded`); after a one-second satellite dropout between the two pulses it
  is one second ahead (`PpsResync.DropoutSynchronisesAhead`).
* A synchronised device can hold epoch zero. It gets there by a pulse that counts up to zero or by a
  whole-second repair that steps to zero, exactly as `PpsEpoch.EpochZeroedIff` says; a sentence whose
  converted time is -1 and two pulses are enough (`PpsEpoch.MinusOneStampZeroesEpoch`).
  `PpsEpoch.EpochIsPresentDay` shows how far away such states are if the conversion of date and time,
  a foreign function, gives a second of 2025 or later whenever the year field says so. The firmware
  checks only that field.
* The source calls sentence delays of 0 to 999 ms physical. An error is decoded exactly only below 500 ms
  for a fast clock, 901 ms for a right one and 501 ms for a slow one (`PpsRepair.DecoderIsExactIff`);
  three sentences later than that step even a right device back one second
  (`PpsRepair.ConstantErrorIsStepped`), or hide an error of one second for ever
  (`PpsRepair.LateSentenceHidesError`).
* An error of three seconds or more resets the device on its first sentence unless the repair fires on
  that very sentence and the error, as shown, fits the decoder, -128 to 127 s
  (`PpsRepair.LargeErrorResetsIff`). The decoder is an int8_t, so two sentences that show 1 s followed by
  one that shows 257 s make the repair fire on a wrong value; the device then still resets
  (`PpsRepair.RepairFiresIffAgreeing`).
* An edge that lands between the clearing of the flag and the snapshot is processed twice
  (`PpsInterleaving.EdgeDuringPassIsProcessedTwice`), and no other edge is
  (`PpsInterleaving.SecondPassIff`). The second pass keeps the epoch but counts as an out-of-spec period.
* A late interrupt is compensated exactly when it is 501 to 9999 us late
  (`PpsPulse.LateInterruptIsCompensatedIff`).
* The 900 ms guard is off after an edge whose stamp reads zero (`PpsInterleaving.AcceptsIff`).
* The settled drift is not zero but half of the crystal's error, rounded away from zero.
* If the crystal's error changes while the device runs, the loop settles again exactly when its own drift is
  below 50 us (`Reconvergence.LoopResettlesIff`, `RestedMovesIff`). Settled at 49 us a second, a crystal
  that moves to -30 leaves the drift at -54 for ever (`Reconvergence.JumpCanStopTheLoop`).
* A T3 or checksum field that crosses the ring end and would change can be torn by one failed transfer:
  the restore path rewrites T3 but never half a field. `TxPatch.AllOrNothingIff` gives the exact condition.
  If the checksum write and the restore both fail, the new T3 is sent under the old checksum
  (`TxPatch.FailedRestoreLeavesNewT3`).
* A reply is not recognised in the 128-byte header capture exactly when its IPv4 header is 60 bytes long
  (`TxPatch.CaptureDecidesIff`).
* A frame the ring end splits is tracked exactly when its first piece has at least 14 bytes and the second
  has too or is not needed to fill the capture (`TxDriver.TwoPiecesAreTrackedIff`). With a short tail
  only the first piece is seen, so a 90-byte reply split into 80 and 10 bytes is sent unpatched, while one
  whose NTP message ends in the first piece is patched correctly (`TxDriver.SplitReplyIsPatchedIff`).
  With a short first piece the second is taken for a frame (`TxDriver.ShortFirstPieceIsMissed`).
* A slot of the hook ring that was never written matches exactly when the key is all zero, the ring is not
  full yet and the clock has not passed one second. The lookup's answer is then wrong exactly when no real
  record hides that slot (`HookRing.AnswersHistoryIff`).
* The comment on `get` in the talker table promises insertion order. An eviction from any slot but the
  last breaks it (`TalkerTable.OrderKeptIff`), as the 33rd of 33 distinct talkers does
  (`TalkerTable.ThirtyThirdKeyBreaksOrder`).
* The recorder reads the clock before it takes its lock. A reading that is older than the current bin's
  start erases all 120 s of recording (`NetBins.EarlierReadingWipes`), while one a whole counter period late
  finds the old recording and rolls on from it (`NetBins.OldRecordingCanSurvive`).

## Model

| member | source | states |
|---|---|---|
| `MachineInts.WrappedDifference` | components/gps_pps_time/gps_pps_time.cpp:252-255 | the 32-bit difference of two counter readings is the true difference, signed or unsigned, whenever that difference fits, across any number of wraps |
| `PulseHealth.CountersMeasureStreaks` | components/gps_pps_time/gps_pps_time.cpp:352-369 | each saturating counter is the length of the current run of its verdict, up to its cap |
| `PulseHealth.HealthyIffNotCondemned` | components/gps_pps_time/gps_pps_time.cpp:348-369 | for every history of verdicts, unhealthy exactly when some run of three bad ones has not since been followed by a run of ten good ones |
| `IsrLatency.LevelTelescopes` | components/gps_pps_time/gps_pps_time.cpp:174-208 | over an unbroken pairing run the level is 80 times the ISR span minus the capture span in true time, and the floor is the least level since the restart, for any wraps |
| `IsrLatency.RestartsExactlyWhenUnpaired` | components/gps_pps_time/gps_pps_time.cpp:181-207 | a pulse becomes a new reference exactly when it does not continue the pair or the spans disagree by more than 5 ms |
| `IsrLatency.UncleanPulseOnlyUnpairs` | components/gps_pps_time/gps_pps_time.cpp:177-180 | an unclean pulse leaves level and floor alone and only ends the pairing |
| `PpsDevice.GpsPpsTime.PpsIsr` | components/gps_pps_time/gps_pps_time.cpp:38-59 | an edge within 900 ms of the last accepted one changes nothing; any other sets both stamps and the flag; main-loop state untouched |
| `PpsDevice.GpsPpsTime.Loop` | components/gps_pps_time/gps_pps_time.cpp:140-144 | one pass clears the flag and processes the pulse exactly when the flag was set |
| `PpsDevice.GpsPpsTime.ApplyPpsCorrection` | components/gps_pps_time/gps_pps_time.cpp:224-562 | the step-by-step handler computes exactly `ApplyPulse`, state and clock actions, on every path |
| `PpsDevice.GpsPpsTime.OnUpdate` | components/gps_pps_time/gps_pps_time.cpp:564-704 | the step-by-step sentence handler computes exactly `ApplySentence` |
| `PpsDevice.GpsPpsTime.IsSynchronized` | components/gps_pps_time/gps_pps_time.cpp:793-802 | the three tests in sequence are `MayServe`, whose meaning over histories is `PpsPulse.MayServeIff` |
| `PpsDevice.GpsPpsTime.TrackIsrLatency` | components/gps_pps_time/gps_pps_time.cpp:174-208 | the in-place update is the latency step that `IsrLatency` reasons about |
| `PpsDevice.ResidualIsExact` | components/gps_pps_time/gps_pps_time.cpp:348-349 | the 32-bit period residual is the true one for every interval that rounds to a second or more, also beyond 2^31 us |
| `PpsDevice.GpsPpsTime.JudgePeriod` | components/gps_pps_time/gps_pps_time.cpp:352-369 | the in-place update is the hysteresis step that `PulseHealth` reasons about |
| `PpsState.SlewPairIsCorrection` | components/gps_pps_time/gps_pps_time.cpp:456-468 | the (sec, usec) pair given to adjtime is the correction, with usec in 0..999999, also for negative corrections |
| `PpsSync.ReachableStatesKeepInv` | components/gps_pps_time/gps_pps_time.cpp:257-311 | in every reachable state synced means two pulses counted, valid GPS time and a set clock; a nonzero anchor means synced; every published rate, from either source, lies strictly inside +/-100000 ppb |
| `PpsSync.DeviceHealthFollowsVerdicts` | components/gps_pps_time/gps_pps_time.cpp:348-369 | over every history, resets included, the device is unhealthy exactly when some three bad verdicts in a row on its processed intervals have not since been followed by ten good ones |
| `PpsSync.DeviceLatencyTelescopes` | components/gps_pps_time/gps_pps_time.cpp:371-373 | over every history whose latency readings end in an unbroken run after a restart, the device's level and floor are those of the true latency changes |
| `PpsPulse.ClockIsReadAtEdge` | components/gps_pps_time/gps_pps_time.cpp:243-255 | a clock that runs with micros() is placed at exactly what it showed at the edge, however long after it was read and across wraps |
| `PpsPulse.LateInterruptIsCompensatedIff` | components/gps_pps_time/gps_pps_time.cpp:325-389 | the measured drift of a pulse whose interrupt ran late is that of a punctual one if and only if it was not late or 501 to 9999 us late |
| `PpsPulse.PeriodInSpecIff` | components/gps_pps_time/gps_pps_time.cpp:348-351 | a period is in spec if and only if it lies within 20 ms of some whole number of seconds, at least one |
| `PpsPulse.FarOffResets` | components/gps_pps_time/gps_pps_time.cpp:412-427 | a clock more than 2 s off true second t2 resets the device: nothing sync rests on is left, no anchor is on offer, the clock is left alone, what was learned is kept |
| `PpsPulse.HardSyncSetsTrueSecond` | components/gps_pps_time/gps_pps_time.cpp:428-447 | off by 100 ms to 2 s, the clock is set to exactly second t2, sync, epoch t2 and the anchor are kept and the drift mean is zeroed |
| `PpsPulse.CloseIsSlewed` | components/gps_pps_time/gps_pps_time.cpp:448-544 | closer, the clock is slewed by minus what it is ahead and leans, and an anchor for t2 and this edge is published |
| `PpsPulse.PulseWithoutSatellites` | components/gps_pps_time/gps_pps_time.cpp:269-297 | without satellites a synchronised device is reset and an unsynchronised one keeps everything but the stamp that limits its log |
| `PpsPulse.PulseWithoutTime` | components/gps_pps_time/gps_pps_time.cpp:257-267 | before a sentence has set time and epoch a pulse does nothing |
| `PpsPulse.SatellitesReportedIff` | components/gps_pps_time/gps_pps_time.cpp:274-276 | satellites count as reported unless the count in use is zero and the counts in view add up to zero in 16 bits |
| `PpsPulse.UnusableSentence` | components/gps_pps_time/gps_pps_time.cpp:575-596 | without a valid, fresh time of 2025 or later a sentence moves only the satellite counts |
| `PpsPulse.CoarseTimeIsSetOnce` | components/gps_pps_time/gps_pps_time.cpp:609-703 | before sync a usable sentence makes time valid, clears the error count, sets the epoch if no pulse is pending, and sets the clock to its second only if it was not set yet |
| `PpsPulse.MayServeIff` | components/gps_pps_time/gps_pps_time.cpp:793-802 | over every history requests may be answered if and only if the device is synchronised, no three bad periods in a row are held against it, and its latest counted pulse is less than 10 s old |
| `PpsPulse.CaptureAcceptedIff` | components/gps_pps_time/gps_pps_time.cpp:488-490 | a captured second is taken for a rate if and only if it is less than 8000 ticks off, up to where the 32-bit conversion wraps |
| `PpsPulse.EmptyCaptureReadsZero` | components/gps_pps_time/gps_pps_time.h:197-203 | a capture register that was never written reads as no error |
| `PpsPulse.WildCaptureIsIgnored` | components/gps_pps_time/gps_pps_time.cpp:488-497 | the first two captures and wilder ones leave the smoothed rate alone |
| `PpsPulse.NoRateBeforeThirdCapture` | components/gps_pps_time/gps_pps_time.cpp:487-504 | over every history without a third capture the smoothed rate is zero and every anchor carries a whole number of us per second |
| `PpsEpoch.EpochZeroedIff` | components/gps_pps_time/gps_pps_time.cpp:313-448 | a handler leads from a nonzero epoch to synchronised with epoch zero if and only if it is a counted pulse whose seconds bring the epoch to zero on a device that stays synchronised, or a repair by the whole epoch that the divergence check does not catch |
| `PpsEpoch.ZeroEpochIsExplained` | components/gps_pps_time/gps_pps_time.cpp:224-704 | over every history, a device that is synchronised with epoch zero got there by such a handler |
| `PpsEpoch.MinusOneStampZeroesEpoch` | components/gps_pps_time/gps_pps_time.cpp:592-668 | a sentence whose converted time is -1 and two pulses reach that state from boot |
| `PpsEpoch.EpochIsPresentDay` | components/gps_pps_time/gps_pps_time.cpp:592-691 | over every history of sentences that convert to 2025 or later, while synchronised the epoch is in 2025 or later, short of at most 128 s per sentence in a row that found a pulse pending, hence nonzero |
| `PpsResync.SyncSecondIff` | components/gps_pps_time/gps_pps_time.cpp:262-411 | for every run from a state without counted pulse through the first counted one to the one that synchronises, the device is off by exactly as much as its last sentence was from the first pulse's second; right if and only if that sentence described that second |
| `PpsResync.ResynchronisesToTrueSecond` | components/gps_pps_time/gps_pps_time.cpp:299-411 | from every reset state, sentence, pulse, sentence, pulse synchronises to the true second, also when pulses are missed, with a zeroed drift mean, which is where `ClosedLoop` starts |
| `PpsResync.SecondSentenceIsNeeded` | components/gps_pps_time/gps_pps_time.cpp:302-311 | without the second sentence the device synchronises one second behind |
| `PpsResync.DropoutSynchronisesAhead` | components/gps_pps_time/gps_pps_time.cpp:269-297 | with one pulse skipped for want of satellites after the first counted one, it synchronises one second ahead |
| `PpsRepair.DecoderReads` | components/gps_pps_time/gps_pps_time.cpp:615-630 | for every error and every delay below a second the decoder returns the error, or one more when the sentence is late, as an int8_t |
| `PpsRepair.DecoderIsExactIff` | components/gps_pps_time/gps_pps_time.cpp:622-630 | an error that fits the int8_t is decoded exactly if and only if the delay is below 500, 901 or 501 ms, for a fast, right or slow clock |
| `PpsRepair.ConstantErrorIsStepped` | components/gps_pps_time/gps_pps_time.cpp:632-659 | a constant error of up to two seconds is stepped, epoch and clock alike, on the third agreeing sentence, with pulses in between and whatever was counted before; to the true second if and only if the sentences were early enough |
| `PpsRepair.LateSentenceHidesError` | components/gps_pps_time/gps_pps_time.cpp:626-633 | sentences later than 500 ms never show a clock that is one second slow |
| `PpsRepair.RepairKeepsDrift` | components/gps_pps_time/gps_pps_time.cpp:641-647 | stepping epoch and clock together leaves the measured drift of every pulse, and all other state, as it was |
| `PpsRepair.LargeErrorResetsIff` | components/gps_pps_time/gps_pps_time.cpp:626-703 | an error of three seconds or more, of any size and at any delay, loses sync on its first sentence if and only if not both the repair fires on it and it lies, as shown, in -128..127 s; in that case what was shown is removed |
| `PpsRepair.RepairFiresIffAgreeing` | components/gps_pps_time/gps_pps_time.cpp:632-640 | the repair fires if and only if the two usable sentences before showed the same int8_t value |
| `PpsInterleaving.RoundingCountsSeconds` | components/gps_pps_time/gps_pps_time.cpp:313-319 | rounding the wrapped interval gives the GPS seconds between any two edges within half a second of whole-second spacing that lie less than a counter period apart |
| `PpsInterleaving.EpochFollowsGpsSeconds` | components/gps_pps_time/gps_pps_time.cpp:140-379 | over every interleaving of interrupt, loop, sentences and switch flips, of any length, while synced and without a repair, the epoch moves by exactly the GPS seconds between the snapshotted edges |
| `PpsInterleaving.AcceptsIff` | components/gps_pps_time/gps_pps_time.cpp:45-47 | in true time an edge is accepted if and only if it comes at least 900 ms after the last accepted one, modulo a counter period, or that one's stamp reads zero |
| `PpsInterleaving.AcceptedEdgesAreGuarded` | components/gps_pps_time/gps_pps_time.cpp:38-59 | over every interleaving any two accepted edges in a row are that far apart |
| `PpsInterleaving.SecondPassIff` | components/gps_pps_time/gps_pps_time.cpp:140-144 | over every interleaving, a pass takes an edge taken before if and only if none landed since it began and the edge whose flag it cleared had landed during a pass that got past the guards |
| `PpsInterleaving.EdgeDuringPassIsProcessedTwice` | components/gps_pps_time/gps_pps_time.cpp:247-250 | an edge between the clearing of the flag and the snapshot is taken by this pass and again by the next, with interval 0 |
| `PpsInterleaving.SecondPassKeepsEpoch` | components/gps_pps_time/gps_pps_time.cpp:313-379 | that second pass reads extra -1, keeps the epoch, and counts as an out-of-spec, unpaired period |
| `ClosedLoop.LoopPhases` | components/gps_pps_time/gps_pps_time.cpp:455-472 | from the second edge on the delayed recurrence rises by at least 2 an edge, crosses once, and stays settled |
| `ClosedLoop.LoopIsOdd` | components/gps_pps_time/gps_pps_time.cpp:455-472 | truncating division makes a slow crystal the exact mirror image of a fast one |
| `ClosedLoop.DisciplineConverges` | components/gps_pps_time/gps_pps_time.cpp:449-479 | after a fresh sync, for abs(D) < 50, with error-free sentences and switch flips at any time between edges, the handler's measured drift lies between half of D and D from the second edge on, is never filtered as a spike, and becomes and stays D/2 rounded away from zero within 128*floor(abs(D)/2)+52 edges |
| `ClosedLoop.LegacyRateIsHalfTheError` | components/gps_pps_time/gps_pps_time.cpp:498-504 | once settled, without the hardware rate, every anchor carries half of the crystal's error in ppb, rounded toward zero to whole us per second |
| `Reconvergence.LoopResettlesIff` | components/gps_pps_time/gps_pps_time.cpp:455-479 | from any mean the device can hold and any first reading, the loop settles at D/2 rounded away from zero if and only if the third or fourth drift is below 50 us; otherwise it never moves again |
| `Reconvergence.RestedMovesIff` | components/gps_pps_time/gps_pps_time.cpp:455-479 | from a loop at rest that is if and only if D and the mean's lean differ by less than 50 us |
| `Reconvergence.DisciplineReconvergesIff` | components/gps_pps_time/gps_pps_time.cpp:449-479 | the same for the running device with sentences between its edges |
| `Reconvergence.JumpCanStopTheLoop` | components/gps_pps_time/gps_pps_time.cpp:469-479 | settled at 49, a crystal that moves to -30 leaves the drift at -54 for ever |
| `Seqlock.PassedCheckIsWhole` | components/gps_pps_time/gps_pps_time.h:69-79 | a reader whose two sequence reads agree has copied, whole, the record published last, given fewer than 2^31 writes meanwhile |
| `Seqlock.CheckPassesIff` | components/gps_pps_time/gps_pps_time.h:71-76 | the check passes if and only if no write is under way and the record was completely rewritten a multiple of 2^31 times, zero included |
| `AnchorSeqlock.ReturnedAnchorIsPublished` | components/gps_pps_time/gps_pps_time.h:69-79 | for every interleaving of the publish with up to four attempts, a returned anchor is one published triple with nonzero epoch, current at some moment of the call |
| `AnchorSeqlock.QuietCallSucceeds` | components/gps_pps_time/gps_pps_time.h:69-79 | over runs, a call that began with no write under way and during which the writer takes no step never needs a second attempt, and returns the record published last, as an anchor if and only if its epoch is not zero |
| `AnchorSeqlock.QuietCallReturns` | components/gps_pps_time/gps_pps_time.h:69-79 | seven steps of the reader alone complete such a call |
| `AnchorSeqlock.RefusalIsExplained` | components/gps_pps_time/gps_pps_time.h:70-78 | a call that finds no anchor has lost four attempts or was handed a record with epoch zero published meanwhile |
| `AnchorSeqlock.LostAttemptWasDisturbed` | components/gps_pps_time/gps_pps_time.h:71-76 | an attempt is lost only when a write was under way or began since its first load |
| `AnchorSeqlock.AnchorWordsRoundTrip` | components/gps_pps_time/gps_pps_time.h:57-61 | the words a reader gets back are one triple of epoch, micros and rate |
| `HookRing.KeyIdentifiesRequest` | components/ntp_server/hook_ring.h:87-91 | two requests have the same 14-byte key only if transmit stamp, address and port all agree |
| `HookRing.HookRing.Record` | components/ntp_server/hook_ring.h:30-43 | the record is appended to the history and takes the oldest slot, whose sequence number advances by two and stays even |
| `HookRing.HookRing.Lookup` | components/ntp_server/hook_ring.h:48-78 | the slot loop finds the first newest matching slot that is at most 1 s old, or none when there is none |
| `HookRing.LookupIsNewestRecentRecord` | components/ntp_server/hook_ring.h:48-78 | for every history, that is a newest match among the last eight records, except for the zero key on a ring not yet full |
| `HookRing.UnusedSlotMatchesIff` | components/ntp_server/hook_ring.h:81-85 | a slot never written matches if and only if the key is all zero, a slot is unused and the clock has not passed 1 s |
| `HookRing.AnswersHistoryIff` | components/ntp_server/hook_ring.h:48-78 | for every history the lookup's answer is wrong if and only if an unused slot matches and no real record hides it |
| `HookRingSteps.HitIsWholeAndNewest` | components/ntp_server/hook_ring.h:30-78 | for every interleaving a hit is one whole record that was in its slot at some moment of the lookup, with exactly the key, at most 1 s old, and at least as new as any that would do in a slot left alone during the lookup |
| `HookRingSteps.WriterGoesRound` | components/ntp_server/hook_ring.h:33-42 | over every interleaving the slots are filled strictly in turn, each with its share of the records completed |
| `AnchoredTime.CorrectedIsMonotone` | components/ntp_server/ntp_server.cpp:1148-1150 | the rate-corrected elapsed time never decreases as the instant grows |
| `AnchoredTime.CorrectedIsAccurate` | components/ntp_server/ntp_server.cpp:1146-1150 | for elapsed up to 2 s it is within 1.03 us of elapsed/(1 + rate) |
| `AnchoredTime.ServedTimeIsMonotone` | components/ntp_server/ntp_server.cpp:1131-1153 | under one anchor later instants never get an earlier time, across counter wraps |
| `AnchoredTime.HandoverStepIsSmall` | components/ntp_server/ntp_server.cpp:1131-1153 | at the next edge old and new anchor differ by at most 1.001 us plus a thousandth of the rate difference in ppb plus a ten-thousandth of the second's error, for any second up to 2 s; 1.02 us and the rate difference for one within 100 us of nominal |
| `AnchoredTime.ReachableAnchorServesAccurately` | components/gps_pps_time/gps_pps_time.cpp:487-544 | every anchor a reachable device offers serves within 1.03 us for exactly two seconds, and the rate guard never drops its rate |
| `AnchoredTime.AnchorAnswersIff` | components/ntp_server/ntp_server.cpp:1136-1144 | an anchor answers if and only if its epoch is set and its edge at most two seconds back |
| `AnchoredTime.WildRateIsIgnored` | components/ntp_server/ntp_server.cpp:1146-1150 | at a rate of 100 ppm or more time runs with the timer from the edge on |
| `AnchoredTime.EncodingIsFloor` | components/ntp_server/ntp_server.cpp:1103-1114 | within the NTP era to 2036 the timestamp is the time since 1900 in units of 2^-32 s, rounded down |
| `AnchoredTime.EncodingIsStrictlyIncreasing` | components/ntp_server/ntp_server.cpp:1103-1114 | later microseconds get strictly larger timestamps |
| `AnchoredTime.EncodingRoundTrips` | components/ntp_server/ntp_server.cpp:1103-1114 | rounding up, a client recovers the very microsecond |
| `AnchoredTime.GetNtpTimestamp` | components/ntp_server/ntp_server.cpp:1300-1338 | anchored time when it is in use and answers, else the system clock; the carry and borrow loops give the same timestamp as the direct conversion, for any offset |
| `AnchoredTime.WireBytesRoundTrip` | components/ntp_server/ntp_server.cpp:141-150 | the eight bytes on the wire determine both fields |
| `ServedTime.GapHalves` | components/gps_pps_time/gps_pps_time.cpp:488-497 | on a constant reading every sixteen edges halve the distance of the smoothed rate, despite truncation |
| `ServedTime.RateSettles` | components/gps_pps_time/gps_pps_time.cpp:488-499 | from any mean the device can hold, the smoothed rate is within 1 ppb of a constant reading from the 353rd edge on |
| `ServedTime.ServedTimeFollowsGps` | components/gps_pps_time/gps_pps_time.cpp:487-544 | on a crystal of constant rate every anchor from the 353rd edge on serves GPS time to within 1.04 us, for two seconds |
| `ReceiveStamp.InputHook.Stamp` | components/ntp_server/ntp_server.cpp:685-799 | the step-by-step hook computes T2, remembers the edge exactly when it used it, and records the raw admission inputs |
| `ReceiveStamp.T2IsNeverLate` | components/ntp_server/ntp_server.cpp:685-799 | T2 is never after the hook's own reading |
| `ReceiveStamp.T2FromEdgeIsExact` | components/ntp_server/ntp_server.cpp:739-797 | for every setting of the switches an edge-based T2 is the true edge, less floor((len+4)*80/1000) if on and in 1..130, less 17 if on, across wraps |
| `ReceiveStamp.T2WithoutEdgeIsExact` | components/ntp_server/ntp_server.cpp:704-797 | without an edge and with an own size read T2 is the burst start if 1 to 999 us before the size read, else the size read, if 1 to 19999 us back, else the hook's reading; less the same corrections |
| `ReceiveStamp.T2OfStrayFrame` | components/ntp_server/ntp_server.cpp:685-797 | without an edge and an own size read T2 is the hook's reading less the corrections |
| `ReceiveStamp.EdgeUsableIff` | components/ntp_server/rx_admission.h:40-46 | an edge is usable if and only if one was captured and a burst seen 1 us to just under 2 s later; the lead is the true one |
| `ReceiveStamp.EdgeTakenIffFreshAndTight` | components/ntp_server/ntp_server.cpp:739-747 | in true time, the edge is taken exactly when its lead is 1 to 199 us, it is younger than 2 s, and it is not the one used last |
| `ReceiveStamp.NoEdgeIsUsedTwice` | components/ntp_server/ntp_server.cpp:739-747 | over whole runs, however the switches are flipped, no two frames take T2 from the same edge |
| `ReceiveStamp.StrictAcceptNeedsTightEdge` | components/ntp_server/rx_admission.h:83-98 | strict, armed, short wait off: ACCEPT if and only if a usable edge leads by 1 to 199 us |
| `ReceiveStamp.ShortWaitRelaxesOnlyFreshBursts` | components/ntp_server/rx_admission.h:83-98 | the short wait only adds admissions, and exactly those of edgeless requests whose own size read showed fewer than 60 bytes behind them and whose T2 opened a fresh burst |
| `ReceiveStamp.VerdictIff` | components/ntp_server/rx_admission.h:83-98 | every verdict for every setting: old edge from 200 us (strict) or 1 ms of lead, no edge only when strict, armed and not excused, accepted otherwise and always before the first edge |
| `ReceiveStamp.PredictionIsAnchoredToPatchInstant` | components/ntp_server/ntp_server.cpp:895-905 | the predicted send instant is the patch instant plus the learned delay, however late the callback read its clock |
| `UdpChecksum.UdpCsumUpdate` | components/ntp_server/ntp_tx_patch.h:108-122 | the two loops terminate, stay within 32 bits and return the finished one's-complement update |
| `UdpChecksum.FoldKeepsClass` | components/ntp_server/ntp_tx_patch.h:116-117 | folding ends below 2^16, in the same class modulo 0xFFFF, and is zero only for zero |
| `UdpChecksum.IncrementalIsFull` | components/ntp_server/ntp_tx_patch.h:108-122 | for every frame with a correct checksum and every T3 the incremental result is exactly the from-scratch checksum, including the 0x0000/0xFFFF cases |
| `UdpChecksum.PatchKeepsChecksumValid` | components/ntp_server/ntp_tx_patch.h:100-122 | the patched frame passes a receiver's check |
| `TxPatch.PatchesExactlyNtpReplies` | components/ntp_server/ntp_tx_patch.h:39-98 | a plan is made for a frame if and only if, read layer by layer, it is an IPv4 UDP datagram from the server's port holding a whole NTP message of mode 4 |
| `TxPatch.PlanDescribesFrame` | components/ntp_server/ntp_tx_patch.h:39-98 | an accepted plan's fields lie in the frame and its saved bytes are the frame's |
| `TxPatch.PrefixDecidesIff` | components/ntp_server/ntp_tx_patch.h:39-98 | an accepted prefix gives the frame's own plan, and a prefix is decided otherwise than the frame if and only if the frame is a reply and the prefix ends before its NTP message does |
| `TxPatch.CaptureDecidesIff` | components/ethernet/w5500_custom_spi.cpp:353-355 | the 128-byte capture is decided as the frame is, if and only if the frame is not a reply with a 60-byte IPv4 header |
| `TxPatch.PlannedWritesDoNotCross` | components/ntp_server/ntp_tx_patch.h:141-157 | the planned writes cover the source range in order, at the right ring positions, and none crosses a 16 KB boundary |
| `TxPatch.StoreIsSplice` | components/ntp_server/ntp_tx_patch.h:132-140 | a write to the ring is a splice of the ring read from the frame's start |
| `TxPatch.PatchRewritesOnlyT3AndChecksum` | components/ethernet/w5500_custom_spi.cpp:352-375 | with every transfer succeeding, the ring is the old one with only T3 and, if present, the checksum replaced |
| `TxPatch.PatchedReplyStaysValid` | components/ethernet/w5500_custom_spi.cpp:353-375 | a recognised reply with a right UDP checksum has one after the patch |
| `TxPatch.RestoreUndoesT3` | components/ethernet/w5500_custom_spi.cpp:366-370 | the restore brings the whole ring back byte for byte |
| `TxPatch.SafeUnderOneFailure` | components/ethernet/w5500_custom_spi.cpp:356-375 | if no straddling field would change, one failed transfer leaves the ring unchanged or fully patched, and `patched` tells which |
| `TxPatch.AllOrNothingIff` | components/ethernet/w5500_custom_spi.cpp:356-375 | that condition is necessary and sufficient |
| `TxPatch.PatchedIffWritten` | components/ethernet/w5500_custom_spi.cpp:358-374 | for every pattern of failures `patched` is set if and only if every transfer of T3 and, if present, the checksum succeeded |
| `TxPatch.FailedRestoreLeavesNewT3` | components/ethernet/w5500_custom_spi.cpp:365-370 | if checksum write and restore both fail, the ring holds the new T3 under the old checksum |
| `TxPatch.DeclinedT3LeavesRing` | components/ethernet/w5500_custom_spi.cpp:355-358 | without a T3 from the callback the ring is untouched and `patched` is 0, for every ring, capture and pattern of failures |
| `TxPatch.ForeignFrameLeavesRing` | components/ethernet/w5500_custom_spi.cpp:352-355 | so it is for every captured frame that is no reply of ours |
| `TxDriver.W5500Tx.PatchWriteRing` | components/ethernet/w5500_custom_spi.cpp:314-329 | the write loop attempts every planned write and leaves the ring as `WriteField` says, for every pattern of failures |
| `TxDriver.W5500Tx.OnSend` | components/ethernet/w5500_custom_spi.cpp:343-394 | the SEND path patches the ring as `PatchRing` says and always drops the tracking |
| `TxDriver.W5500Tx.OnTxBufWrite` | components/ethernet/w5500_custom_spi.cpp:407-445 | a write of 14 bytes or more extends the capture up to 128 bytes, and reaches the ring |
| `TxDriver.W5500Tx.SetTxPatch` | components/ethernet/w5500_custom_spi.cpp:585-594 | (re-)registering drops whatever was tracked |
| `TxDriver.FrameIsTracked` | components/ethernet/w5500_custom_spi.cpp:407-434 | after a whole frame is written in pieces of at least 14 bytes the ring holds it and the capture is its first 128 bytes |
| `TxDriver.OnePieceIsTrackedIff` | components/ethernet/w5500_custom_spi.cpp:407-434 | a frame in one write is tracked if and only if it has at least 14 bytes |
| `TxDriver.TwoPiecesAreTrackedIff` | components/ethernet/w5500_custom_spi.cpp:407-434 | of a frame in two writes the start is found if and only if the first has at least 14 bytes, and the capture is complete if and only if besides the second has too or the first fills it |
| `TxDriver.SplitReplyIsPatchedIff` | components/ethernet/w5500_custom_spi.cpp:331-434 | a reply in two writes, the first of at least 14 bytes, is correctly patched if and only if the part seen reaches the end of the NTP message, and sent as written otherwise |
| `TxDriver.ShortFirstPieceIsMissed` | components/ethernet/w5500_custom_spi.cpp:407-424 | with a first write shorter than 14 bytes something is patched if and only if the second, taken for a frame, reads as a reply |
| `TxDriver.SentReplyIsPatched` | components/ethernet/w5500_custom_spi.cpp:331-434 | end to end: what is sent is the written frame with only T3 and checksum changed, still valid, or the frame as written when it is not recognised |
| `TxDriver.DeclinedReplyIsSentAsWritten` | components/ntp_server/ntp_server.cpp:876-880 | when the device is not synchronised and the callback declines, every frame is sent as it was written |
| `TxDriver.UntrackedSendLeavesRing` | components/ethernet/w5500_custom_spi.cpp:346-352 | a SEND with no tracked frame before it touches nothing |
| `SendDelay.SendEstimator.Learn` | components/ntp_server/send_estimator.h:38-72 | the in-place learner computes exactly the step function, state and verdict |
| `SendDelay.SendEstimator.LearnFallback` | components/ntp_server/send_estimator.h:76-79 | the same for the fallback sample |
| `SendDelay.ReseedNeedsSustainedRun` | components/ntp_server/send_estimator.h:52-70 | for every history, a re-seed means at least four consecutive decisive rejects, pairwise less than 100 us apart, spanning at least 3 s, and the new estimate lies within them |
| `SendDelay.SustainedChangeReseeds` | components/ntp_server/send_estimator.h:54-70 | conversely a sustained change re-seeds to exactly the new value at the first sample that is both the fourth or later and 3 s after the first |
| `SendDelay.SustainedChangeTakesOver` | components/ntp_server/send_estimator.h:52-70 | with any reject run already under way, the estimate is within 50 us of the new value at that sample at the latest, and stays so |
| `SendDelay.EstimateStaysInRange` | components/ntp_server/send_estimator.h:38-79 | no history takes the estimate outside 0..4999 |
| `SendDelay.ConstantSamplePulls` | components/ntp_server/send_estimator.h:46-50 | a constant sample d pulls monotonically, without overshoot, into [d-7, d] within abs(d - estimate) samples |
| `SendDelay.StepIsAnEighth` | components/ntp_server/send_estimator.h:48 | a step goes an eighth of the way, rounded down, and nowhere if and only if the estimate is 0 to 7 us below the sample |
| `SendDelay.FirstSampleSeeds` | components/ntp_server/send_estimator.h:39-45 | the first sample of 51 to 4999 us becomes the estimate; any other does nothing |
| `SendDelay.VerdictSaysWhatHappened` | components/ntp_server/send_estimator.h:46-71 | learned, rejected and re-seeded are reported if and only if that is what was done |
| `SendDelay.FallbacksPull` | components/ntp_server/send_estimator.h:76-79 | fallbacks in range pull like accepted samples from any distance and leave a reject run as it is; others do nothing |
| `SendDelay.PatchSamplesPull` | components/ntp_server/ntp_tx_patch.h:173-177 | patch samples of 10 to 500 us pull likewise; others do nothing |
| `SendDelay.AcceptedRunIsPull` | components/ntp_server/send_estimator.h:46-50 | an accepted constant sample keeps being accepted, so a run of `learn` is that pull |
| `SendDelay.PatchDelayEstimator.Learn` | components/ntp_server/ntp_tx_patch.h:173-177 | the in-place patch-delay learner computes its step function |
| `SendDelay.PatchDelayStaysInRange` | components/ntp_server/ntp_tx_patch.h:164-181 | the learned patch delay stays in 10..500 us over every history |
| `TalkerTable.TalkerTable.Find` | components/ethernet/w5500_talker_table.h:80-86 | the search loop returns the key's slot, or -1 exactly when no used slot has the key |
| `TalkerTable.TalkerTable.MakeRoom` | components/ethernet/w5500_talker_table.h:90-118 | the first free slot, or the first least active one, is opened for the key |
| `TalkerTable.TalkerTable.Note` | components/ethernet/w5500_talker_table.h:33-44 | the in-place note computes exactly the step that the history lemmas reason about; used slots stay a prefix |
| `TalkerTable.TalkerTable.Clear` | components/ethernet/w5500_talker_table.h:46-49 | empties the table |
| `TalkerTable.TalkerTable.Get` | components/ethernet/w5500_talker_table.h:52-65 | entry i exactly when the table has one |
| `TalkerTable.KeysStayDistinct` | components/ethernet/w5500_talker_table.h:33-44 | in every reachable table keys are distinct and there are at most 32 |
| `TalkerTable.EntriesAreHistorySums` | components/ethernet/w5500_talker_table.h:38-43 | every entry's frames, bursts, bytes (modulo 2^32), first and last time and first destination are those of the frames with its key since its insertion |
| `TalkerTable.NoKeyIsLost` | components/ethernet/w5500_talker_table.h:90-98 | while at most 32 distinct keys were seen the table holds exactly those keys |
| `TalkerTable.ExactWhileFewKeys` | components/ethernet/w5500_talker_table.h:33-44 | and each entry's counters are the totals over the whole history |
| `TalkerTable.EvictionTakesLeastActive` | components/ethernet/w5500_talker_table.h:99-117 | a new key on a full table replaces one entry: every other one has more frames, or as many and a last time not earlier; no other entry changes |
| `TalkerTable.EvictedHasFewestFrames` | components/ethernet/w5500_talker_table.h:99-117 | in the history's own totals: no other key in the table had fewer frames since its insertion (modulo 2^32), nor as many and an earlier last one |
| `TalkerTable.OrderKeptIff` | components/ethernet/w5500_talker_table.h:51-65 | a frame keeps slot order equal to insertion order if and only if it does not evict from a slot before the last |
| `TalkerTable.ThirtyThirdKeyBreaksOrder` | components/ethernet/w5500_talker_table.h:99-117 | after 32 distinct keys the order holds, and a 33rd key takes slot 0 and breaks it |
| `NetBins.NetRecorder.NetBinNow` | components/ethernet/w5500_custom_spi.cpp:187-202 | the roll loop turns the ring exactly as `Rolled` turns the list of bins, in at most 1199 turns |
| `NetBins.NetRecorder.Note` | components/ethernet/w5500_custom_spi.cpp:204-250 | an event changes only the bin that covers it |
| `NetBins.NetRecorder.Get` | components/ethernet/w5500_custom_spi.cpp:625-632 | bins are read oldest first, unused ones before the used |
| `NetBins.StartsAfreshIff` | components/ethernet/w5500_custom_spi.cpp:188-194 | in true time the ring starts afresh exactly when the current start's image is zero or lies 120 s or more back |
| `NetBins.RunKeepsShape` | components/ethernet/w5500_custom_spi.cpp:187-202 | over every steady run neighbours start exactly 100 ms apart, the newest bin covers the latest event, and at most 1200 are in use, across counter wraps |
| `NetBins.BinsLieInWindow` | components/ethernet/w5500_custom_spi.cpp:187-202 | so no bin in use starts more than 120 s ago |
| `NetBins.BinsHoldTheirTraffic` | components/ethernet/w5500_custom_spi.cpp:187-250 | every bin holds exactly the traffic of its own 100 ms since the ring last started afresh; rolling neither loses nor moves any |
| `NetBins.RecentEventHasItsBin` | components/ethernet/w5500_custom_spi.cpp:187-202 | every event not older than the oldest bin lies in exactly one bin |
| `NetBins.NoBinIsDroppedEarly` | components/ethernet/w5500_custom_spi.cpp:187-202 | since the ring last started afresh all bins are in use, or the last 1200 of them |
| `NetBins.LockWaitIsLongest` | components/ethernet/w5500_custom_spi.cpp:230-239 | a bin's lock wait is the longest of its window, zero if none |
| `NetBins.RetriesSaturate` | components/ethernet/w5500_custom_spi.cpp:241-250 | its retries are the true number of its window, saturated at 65535 |
| `NetBins.FrameCountsSaturate` | components/ethernet/w5500_custom_spi.cpp:211-213 | a bin's frame counts are the true counts of its window, saturated at 65535 |
| `NetBins.ByteTotalsWrap` | components/ethernet/w5500_custom_spi.cpp:214 | its byte totals are the true totals of its window modulo 2^32 |
| `NetBins.EarlierReadingWipes` | components/ethernet/w5500_custom_spi.cpp:187-194 | a reading before the current bin's start erases the whole ring |
| `NetBins.RecordingSurvivesIff` | components/ethernet/w5500_custom_spi.cpp:187-194 | for every reading, the recording survives if and only if the current start does not read as zero and the reading lies, modulo a counter period, less than 120 s after it |
| `NetBins.OldRecordingCanSurvive` | components/ethernet/w5500_custom_spi.cpp:187-202 | so bins of a whole counter period ago are taken for recent ones |

## Left out

- SPI, MCPWM, GPIO, lwIP, sockets and FreeRTOS are foreign; transfers that succeed or fail, stamps and clock readings are inputs.
- C++ memory orders: the seqlock steps are sequentially consistent.
- The main-loop fields of `gps_pps_time` are one record field of the `GpsPpsTime` object, updated member by member; aliasing between them is therefore not modelled.
- `pps_count` is unbounded in the model; the source counts it in 32 bits, enough for 136 years.
- The capture registers are read once per pulse, as handler inputs; a capture interrupt between two of those reads is not modelled.
- Signed overflow in the period residual, undefined in C++ for intervals above 2^31 us, is taken to wrap.
- `adjtime` is taken to have finished before the next edge in `ClosedLoop`, as the comment in the source says of steady state; the slew itself is not modelled.
- PpsDevice.GpsPpsTime.TrackIsrLatency: without the running sum and sample count, which only feed a sensor.
- PpsDevice.GpsPpsTime.ApplyPpsCorrection: without the anchor prediction error and its skip flag, which only feed a sensor.
- PpsDevice.GpsPpsTime.OnUpdate: takes the parsed sentence as given; the clock delta it also stores only feeds a sensor.
- ReceiveStamp.InputHook.Stamp: starts after the frame was recognised as an NTP request; the IPv4 parsing before it repeats the checks of the transmit plan. The window statistics of the lead and the gap only feed sensors.
- The system-clock fallback of `hook_to_ntp_timestamp_` reads a clock that is an input elsewhere.
- NetBins.NetRecorder.Note: takes the frame's class as given; `classify_frame` and the hand-over of broadcast frames to the talker table are not modelled.
- Dead-man timer, ARP wait, INTLEVEL re-check, `Sn_CR` statistics, `WindowMax`, crash context, logging and the UDP diagnostics dump.
- The other network components, the Python and YAML configuration and the platforms without ESP-IDF.
- The measured constants (17 us, 57 us, 800 us) are taken as given; nothing is claimed about physical accuracy.

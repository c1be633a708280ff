/**
  How the device comes back after a reset, and to which second.

  Before sync the epoch is whatever sentence spoke last; the first counted pulse only leaves its
  stamp, and the second one adds the seconds between the two.
 */
module PpsResync {
  import opened MachineInts
  import opened PpsState
  import opened PpsSync

  /** The sentence sets the epoch of an unsynchronised device. */
  predicate SetsEpoch(h: Handler) {
    h.Nmea? && h.n.usable && h.n.year >= 2025 && !h.n.pending
  }

  /** The second described by the last such sentence, or `start` if there was none. */
  function LastStamp(start: int, hs: seq<Handler>): int {
    if hs == [] then start
    else if SetsEpoch(hs[|hs| - 1]) then hs[|hs| - 1].n.stamp
    else LastStamp(start, hs[..|hs| - 1])
  }

  /** Not synchronised at any moment of the run. */
  predicate Unsynced(s: Pps, hs: seq<Handler>) {
    !After(s, hs).synced && (hs != [] ==> Unsynced(s, hs[..|hs| - 1]))
  }

  lemma UnsyncedHandler(s: Pps, h: Handler)
    requires Inv(s) && !s.synced && !Handle(s, h).synced
    ensures Handle(s, h).epoch == if SetsEpoch(h) then h.n.stamp else s.epoch
    ensures s.count == 1 ==> Handle(s, h).count == 1 && Handle(s, h).prevMicros == s.prevMicros
  {
  }

  /** While unsynchronised the epoch is the last sentence's, and a first pulse's stamp stays. */
  lemma {:induction false} UnsyncedRun(s: Pps, hs: seq<Handler>)
    requires Inv(s) && Unsynced(s, hs)
    ensures var t := After(s, hs);
      && Inv(t) && t.epoch == LastStamp(s.epoch, hs)
      && (s.count == 1 ==> t.count == 1 && t.prevMicros == s.prevMicros)
  {
    if hs != [] {
      var front := hs[..|hs| - 1];
      UnsyncedRun(s, front);
      UnsyncedHandler(After(s, front), hs[|hs| - 1]);
      HandleKeepsInv(After(s, front), hs[|hs| - 1]);
    }
  }

  /** The syncing pulse: with one pulse counted at true second `t1`, another at `t2` synchronises. */
  lemma SyncingPulse(c: Pps, i: PulseInput, t1: int, t2: int)
    requires Inv(c) && c.count == 1 && Counted(c)
    requires ExtraEpochs(Sub32(i.edgeMicros, c.prevMicros)) + 1 == t2 - t1
    ensures var d := ApplyPulse(c, i);
      && d.state.synced && d.actions == [SetTo(d.state.epoch * SECOND)]
      && d.state.epoch == c.epoch + t2 - t1 && Inv(d.state)
      && d.state.driftMean256 == 0 && d.state.driftUs == 0
  {
    PulseKeepsInv(c, i);
  }

  /**
    From any state without a counted pulse: handlers `before`, the first counted pulse at true second
    `t1`, any handlers `between` that do not synchronise, and the pulse at true second `t2` that does.
    The device then always believes the second it should have reached if its last sentence had
    described second `t1`; so it is right exactly when that sentence did.
   */
  lemma {:induction false} SyncSecondIff(
      r: Pps, before: seq<Handler>, p1: PulseInput, between: seq<Handler>, p2: PulseInput, t1: int, t2: int)
    requires Inv(r) && Unsynced(r, before)
    requires var a := After(r, before); a.count == 0 && Counted(a)
    requires var b := ApplyPulse(After(r, before), p1).state; Unsynced(b, between) && Counted(After(b, between))
    requires ExtraEpochs(Sub32(p2.edgeMicros, p1.edgeMicros)) + 1 == t2 - t1
    ensures var c := After(ApplyPulse(After(r, before), p1).state, between);
      var d, said := ApplyPulse(c, p2), LastStamp(LastStamp(r.epoch, before), between);
      && d.state.synced && d.actions == [SetTo(d.state.epoch * SECOND)] && d.state.driftMean256 == 0
      && d.state.epoch - t2 == said - t1
      && (d.state.epoch == t2 <==> said == t1)
  {
    UnsyncedRun(r, before);
    var a := After(r, before);
    PulseKeepsInv(a, p1);
    var b := ApplyPulse(a, p1).state;
    UnsyncedRun(b, between);
    SyncingPulse(After(b, between), p2, t1, t2);
  }

  // ---- The sequences that matter ----

  predicate GoodSentence(n: Sentence, second: int) {
    n.usable && n.year >= 2025 && n.stamp == second && !n.pending && !n.satellites.NoneReported()
  }

  /** A good sentence on an unsynchronised device: the epoch is set, a counted pulse's stamp is kept. */
  lemma GoodSentenceSets(s: Pps, n: Sentence, second: int)
    requires Inv(s) && !s.synced && GoodSentence(n, second) && second != 0
    ensures var t := ApplySentence(s, n).state;
      Inv(t) && !t.synced && Counted(t) && t.epoch == second && t.count == s.count && t.prevMicros == s.prevMicros
  {
    SentenceKeepsInv(s, n);
  }

  lemma FirstPulseStamps(s: Pps, i: PulseInput)
    requires Inv(s) && s.count == 0 && Counted(s)
    ensures var t := ApplyPulse(s, i).state;
      Inv(t) && !t.synced && Counted(t) && t.count == 1 && t.prevMicros == i.edgeMicros && t.epoch == s.epoch
  {
    PulseKeepsInv(s, i);
  }

  /**
    From any reset state, "sentence, pulse, sentence, pulse" synchronises to the right second, also
    when pulses were missed in between: the second sentence describes the first pulse's second S+1.
   */
  lemma ResynchronisesToTrueSecond(
      r: Pps, second: int, t2: int, n0: Sentence, p1: PulseInput, n1: Sentence, p2: PulseInput)
    requires Inv(r) && !r.synced && r.count == 0 && second > 0
    requires GoodSentence(n0, second) && GoodSentence(n1, second + 1)
    requires ExtraEpochs(Sub32(p2.edgeMicros, p1.edgeMicros)) + 1 == t2 - (second + 1)
    ensures var a := ApplySentence(r, n0).state;
      var b := ApplyPulse(a, p1).state;
      var c := ApplySentence(b, n1).state;
      var d := ApplyPulse(c, p2);
      && d.state.synced && d.state.epoch == t2 && d.actions == [SetTo(t2 * SECOND)]
      && d.state.driftMean256 == 0 && Inv(d.state)
  {
    GoodSentenceSets(r, n0, second);
    var a := ApplySentence(r, n0).state;
    FirstPulseStamps(a, p1);
    var b := ApplyPulse(a, p1).state;
    GoodSentenceSets(b, n1, second + 1);
    SyncingPulse(ApplySentence(b, n1).state, p2, second + 1, t2);
  }

  /** A failing input: without the second sentence the device synchronises one second behind. */
  lemma SecondSentenceIsNeeded(r: Pps, second: int, n0: Sentence, p1: PulseInput, p2: PulseInput)
    requires Inv(r) && !r.synced && r.count == 0 && second > 0
    requires GoodSentence(n0, second)
    requires ExtraEpochs(Sub32(p2.edgeMicros, p1.edgeMicros)) == 0
    ensures var a := ApplySentence(r, n0).state;
      var b := ApplyPulse(a, p1).state;
      var d := ApplyPulse(b, p2);
      d.state.synced && d.state.epoch == second + 1 && d.actions == [SetTo((second + 1) * SECOND)]
  {
    GoodSentenceSets(r, n0, second);
    var a := ApplySentence(r, n0).state;
    FirstPulseStamps(a, p1);
    SyncingPulse(ApplyPulse(a, p1).state, p2, second + 1, second + 2);
  }

  /**
    Another: the satellites drop out for one second after the first counted pulse. The pulse of that
    second is skipped but its predecessor stays counted, sentences go on, and the device synchronises
    one second ahead.
   */
  lemma DropoutSynchronisesAhead(
      r: Pps, second: int, n0: Sentence, p1: PulseInput, n1: Sentence, skipped: PulseInput,
      n2: Sentence, p3: PulseInput)
    requires Inv(r) && !r.synced && r.count == 0 && second > 0
    requires GoodSentence(n0, second) && GoodSentence(n2, second + 2)
    requires n1.usable && n1.year >= 2025 && n1.stamp == second + 1 && !n1.pending && n1.satellites.NoneReported()
    requires ExtraEpochs(Sub32(p3.edgeMicros, p1.edgeMicros)) == 1
    ensures var a := ApplySentence(r, n0).state;
      var b := ApplyPulse(a, p1).state;
      var c := ApplyPulse(ApplySentence(b, n1).state, skipped).state;
      var d := ApplyPulse(ApplySentence(c, n2).state, p3);
      d.state.synced && d.state.epoch == second + 4 && d.actions == [SetTo((second + 4) * SECOND)]
  {
    GoodSentenceSets(r, n0, second);
    var a := ApplySentence(r, n0).state;
    FirstPulseStamps(a, p1);
    var b := ApplyPulse(a, p1).state;
    SentenceKeepsInv(b, n1);
    var c := ApplyPulse(ApplySentence(b, n1).state, skipped).state;
    PulseKeepsInv(ApplySentence(b, n1).state, skipped);
    assert !c.synced && c.count == 1 && c.prevMicros == p1.edgeMicros;
    GoodSentenceSets(c, n2, second + 2);
    SyncingPulse(ApplySentence(c, n2).state, p3, second + 1, second + 3);
  }
}

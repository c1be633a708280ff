/**
  The interrupt and the main loop, interleaved. The loop tests and clears the flag, reads the
  clock, and only then snapshots the edge stamp, so an edge may land between any two of these; an
  edge may also overwrite one that the loop has not processed yet.

  Edges carry their true time (unbounded microseconds) and the GPS second they mark.
 */
module PpsInterleaving {
  import opened MachineInts
  import opened PpsState
  import opened PpsDevice
  import opened PpsSync

  datatype Edge = Edge(second: int, time: int)

  /** Where the main loop is. */
  datatype Pc = Idle | Cleared | ClockRead(systemUs: int, readMicros: U32)

  /**
    What the proofs remember beside the program state: `edges` are all edges the interrupt accepted,
    the last of them the one whose stamp it left, and `snap` is the one whose stamp is in
    prev_pps_micros; `landed` says that the latest accepted edge landed while a pass was under way,
    `passed` that the latest pass got past the handler's guards, and `again` that both were so when
    the current pass began.
   */
  datatype Trace = Trace(edges: seq<Edge>, snap: int, landed: bool, passed: bool, again: bool)

  datatype System = System(shared: Shared, st: Pps, pc: Pc, trace: Trace)

  datatype Step =
    | EdgeArrives(e: Edge)
    | ClearFlag
    | ReadClock(systemUs: int, readMicros: U32)
    | Snapshot(i: PulseInput)
    | NmeaSentence(n: Sentence)
    | SetRateSource(hardware: bool)

  predicate Next(s: System, step: Step, s': System) {
    match step
    case EdgeArrives(e) =>
      s' == s.(shared := OnEdge(s.shared, Wrap(e.time)),
               trace := if Accepts(s.shared, Wrap(e.time))
                        then s.trace.(edges := s.trace.edges + [e], landed := !s.pc.Idle?)
                        else s.trace)
    case ClearFlag =>
      && s.pc.Idle? && s.shared.flag
      && s' == s.(shared := s.shared.(flag := false), pc := Cleared,
                  trace := s.trace.(again := s.trace.landed && s.trace.passed))
    case ReadClock(systemUs, readMicros) =>
      s.pc.Cleared? && s' == s.(pc := ClockRead(systemUs, readMicros))
    case Snapshot(i) =>
      && s.pc.ClockRead?
      && i.systemUs == s.pc.systemUs && i.readMicros == s.pc.readMicros && i.edgeMicros == s.shared.lastMicros
      && s' == s.(st := ApplyPulse(s.st, i).state, pc := Idle,
                  trace := s.trace.(snap := if Counted(s.st) then Last(s) else s.trace.snap, passed := Counted(s.st)))
    case NmeaSentence(n) =>
      s.pc.Idle? && n.pending == s.shared.flag && s' == s.(st := ApplySentence(s.st, n).state)
    case SetRateSource(hardware) =>
      s.pc.Idle? && s' == s.(st := s.st.(useHwRate := hardware))
  }

  /** The index of the latest accepted edge; -1 before the first. */
  function Last(s: System): int {
    |s.trace.edges| - 1
  }

  /**
    Any two edges that lie less than a counter period apart are within half a second of whole-second
    spacing. Over longer spans the crystal may be off by any amount.
   */
  predicate WellSpaced(edges: seq<Edge>) {
    forall i, j :: 0 <= i <= j < |edges| ==>
      && edges[i].time <= edges[j].time
      && (edges[j].time - edges[i].time + 500000 < TWO_32 ==>
            -500000 <= (edges[j].time - edges[i].time) - (edges[j].second - edges[i].second) * SECOND < 500000)
  }

  /** While synchronised: less than 2^32 us, less half a second, from the edge processed last to the latest one. */
  predicate GapFits(s: System) {
    s.st.synced && 0 <= s.trace.snap <= Last(s) ==>
      s.trace.edges[Last(s)].time - s.trace.edges[s.trace.snap].time + 500000 < TWO_32
  }

  predicate StepAt(states: seq<System>, steps: seq<Step>, i: nat)
    requires i < |steps| < |states|
  {
    Next(states[i], steps[i], states[i + 1])
  }

  predicate IsRun(states: seq<System>, steps: seq<Step>) {
    && |states| == |steps| + 1
    && states[0] == System(Shared(0, 0, false), BOOT, Idle, Trace([], -1, false, false, false))
    && (forall i :: 0 <= i < |steps| ==> StepAt(states, steps, i))
    && (forall i :: 0 <= i < |states| ==> WellSpaced(states[i].trace.edges) && GapFits(states[i]))
  }

  ghost predicate SystemInv(s: System) {
    && Inv(s.st)
    && -1 <= s.trace.snap <= Last(s)
    && (Last(s) == -1 ==> !s.shared.flag && s.pc.Idle?)
    && (Last(s) >= 0 ==> s.shared.lastMicros == Wrap(s.trace.edges[Last(s)].time))
    && s.shared.guardMicros == (if Last(s) >= 0 then s.shared.lastMicros else 0)
    && EdgesGuarded(s.trace.edges)
    && (s.st.count >= 1 ==> s.trace.snap >= 0 && s.st.prevMicros == Wrap(s.trace.edges[s.trace.snap].time))
    && PassInv(s)
  }

  /** Of two accepted edges in a row, the second comes at least 900 ms later, modulo a counter period. */
  predicate EdgesGuarded(edges: seq<Edge>) {
    forall k :: 1 <= k < |edges| ==> GuardPassed(edges[k - 1].time, edges[k].time)
  }

  predicate GuardPassed(before: int, time: int) {
    before % TWO_32 == 0 || (time - before) % TWO_32 >= 900000
  }

  /** The guard in true time; a last edge whose stamp reads zero counts as none. */
  lemma AcceptsIff(shared: Shared, before: int, time: int)
    requires shared.guardMicros == Wrap(before)
    ensures Accepts(shared, Wrap(time)) <==> GuardPassed(before, time)
  {
    DifferenceOfImages(time, before);
  }

  /** Over every interleaving, edges closer than 900 ms to the last accepted one are never processed. */
  lemma {:induction false} AcceptedEdgesAreGuarded(states: seq<System>, steps: seq<Step>, n: nat)
    requires IsRun(states, steps) && n < |states|
    ensures EdgesGuarded(states[n].trace.edges)
  {
    RunKeepsSystemInv(states, steps);
  }

  /** Which edge a set flag, or the pass under way, stands for: one already taken, or a later one. */
  predicate PassInv(s: System) {
    if s.pc.Idle? then
      s.shared.flag ==> (s.trace.snap == Last(s) <==> s.trace.landed && s.trace.passed)
    else if s.shared.flag then s.trace.landed && s.trace.snap < Last(s)
    else s.trace.snap == Last(s) <==> s.trace.again
  }

  /** Rounding the wrapped interval gives the whole seconds between two well-spaced edges. */
  lemma RoundingCountsSeconds(edges: seq<Edge>, from: int, to: int)
    requires WellSpaced(edges) && 0 <= from <= to < |edges|
    requires edges[to].time - edges[from].time + 500000 < TWO_32
    ensures ExtraEpochs(Sub32(Wrap(edges[to].time), Wrap(edges[from].time))) + 1
         == edges[to].second - edges[from].second
  {
    WrappedDifference(edges[to].time, edges[from].time);
    var span := edges[to].time - edges[from].time;
    var n := edges[to].second - edges[from].second;
    assert n * SECOND <= span + 500000 < (n + 1) * SECOND;
    assert (span + 500000) / SECOND == n;
  }

  /** Epoch minus the GPS second of the edge it was last advanced to. */
  function Offset(s: System): int
    requires 0 <= s.trace.snap <= Last(s)
  {
    s.st.epoch - s.trace.edges[s.trace.snap].second
  }

  predicate StepsEpoch(s: System, step: Step) {
    step.NmeaSentence? && RepairFires(s.st, step.n)
  }

  lemma SnapshotKeepsSystemInv(s: System, i: PulseInput, s': System)
    requires SystemInv(s) && Next(s, Snapshot(i), s')
    ensures SystemInv(s')
  {
    PulseKeepsInv(s.st, i);
    PulseStampsIffCounted(s.st, i);
  }

  /** A pulse leaves its stamp exactly when it gets past the guards; otherwise the count does not rise. */
  lemma PulseStampsIffCounted(s: Pps, i: PulseInput)
    ensures var t := ApplyPulse(s, i).state;
      if Counted(s) then t.prevMicros == i.edgeMicros else t.prevMicros == s.prevMicros && t.count <= s.count
  {
  }

  lemma StepKeepsSystemInv(s: System, step: Step, s': System)
    requires SystemInv(s) && Next(s, step, s')
    ensures SystemInv(s')
  {
    match step
    case Snapshot(i) => SnapshotKeepsSystemInv(s, i, s');
    case NmeaSentence(n) =>
      SentenceKeepsInv(s.st, n);
      SentenceKeepsStamp(s.st, n);
    case EdgeArrives(e) =>
      if Last(s) >= 0 { AcceptsIff(s.shared, s.trace.edges[Last(s)].time, e.time); }
    case ClearFlag =>
    case ReadClock(_, _) =>
    case SetRateSource(_) =>
  }

  lemma SentenceKeepsStamp(s: Pps, n: Sentence)
    ensures var t := ApplySentence(s, n).state; t.prevMicros == s.prevMicros && t.count <= s.count
  {
  }

  /**
    One step while synchronised: the epoch advances by exactly the GPS seconds between the edge
    processed before and the one processed now, whether edges were overwritten in between or the
    same edge is processed a second time.
   */
  lemma StepKeepsOffset(s: System, step: Step, s': System)
    requires SystemInv(s) && Next(s, step, s') && WellSpaced(s.trace.edges) && GapFits(s)
    requires s.st.synced && s'.st.synced && !StepsEpoch(s, step)
    ensures SystemInv(s') && s.trace.snap >= 0 && s'.trace.snap >= 0
    ensures s'.st.epoch - s.st.epoch
         == s'.trace.edges[s'.trace.snap].second - s.trace.edges[s.trace.snap].second
    ensures Offset(s') == Offset(s)
  {
    StepKeepsSystemInv(s, step, s');
    if step.Snapshot? && Counted(s.st) {
      RoundingCountsSeconds(s.trace.edges, s.trace.snap, Last(s));
    }
  }

  lemma {:induction false} RunKeepsSystemInv(states: seq<System>, steps: seq<Step>)
    requires IsRun(states, steps)
    ensures forall i :: 0 <= i < |states| ==> SystemInv(states[i])
  {
    if |steps| > 0 {
      var n := |steps| - 1;
      var before, taken := states[..n + 1], steps[..n];
      forall i | 0 <= i < n
        ensures StepAt(before, taken, i)
      {
        assert StepAt(states, steps, i);
      }
      RunKeepsSystemInv(before, taken);
      assert forall i {:trigger states[i]} :: 0 <= i <= n ==> states[i] == before[i];
      assert StepAt(states, steps, n);
      StepKeepsSystemInv(states[n], steps[n], states[n + 1]);
    }
  }

  /**
    Over every interleaving, for as long as the device stays synchronised and no NMEA repair steps
    the epoch, epoch and GPS second move together: no edge is lost or counted twice.
   */
  lemma {:induction false} EpochFollowsGpsSeconds(states: seq<System>, steps: seq<Step>, from: nat, to: nat)
    requires IsRun(states, steps) && from <= to < |states|
    requires forall i :: from <= i <= to ==> states[i].st.synced
    requires forall i :: from <= i < to ==> !StepsEpoch(states[i], steps[i])
    ensures 0 <= states[from].trace.snap <= Last(states[from]) && 0 <= states[to].trace.snap <= Last(states[to])
    ensures Offset(states[to]) == Offset(states[from])
  {
    SyncedHasSnap(states, steps, from);
    SyncedHasSnap(states, steps, to);
    if from < to {
      EpochFollowsGpsSeconds(states, steps, from, to - 1);
      StepInRunKeepsOffset(states, steps, to - 1);
    }
  }

  lemma {:induction false} SyncedHasSnap(states: seq<System>, steps: seq<Step>, k: nat)
    requires IsRun(states, steps) && k < |states| && states[k].st.synced
    ensures 0 <= states[k].trace.snap <= Last(states[k])
  {
    RunKeepsSystemInv(states, steps);
    SyncedCounted(states[k]);
  }

  lemma SyncedCounted(s: System)
    requires SystemInv(s) && s.st.synced
    ensures 0 <= s.trace.snap <= Last(s)
  {
  }

  lemma {:induction false} StepInRunKeepsOffset(states: seq<System>, steps: seq<Step>, k: nat)
    requires IsRun(states, steps) && k < |steps|
    requires states[k].st.synced && states[k + 1].st.synced && !StepsEpoch(states[k], steps[k])
    ensures 0 <= states[k].trace.snap <= Last(states[k]) && 0 <= states[k + 1].trace.snap <= Last(states[k + 1])
    ensures Offset(states[k + 1]) == Offset(states[k])
  {
    SyncedHasSnap(states, steps, k);
    SyncedHasSnap(states, steps, k + 1);
    RunKeepsSystemInv(states, steps);
    StepInRun(states, steps, k);
    StepKeepsOffset(states[k], steps[k], states[k + 1]);
  }

  lemma StepInRun(states: seq<System>, steps: seq<Step>, k: nat)
    requires IsRun(states, steps) && k < |steps|
    ensures Next(states[k], steps[k], states[k + 1])
    ensures WellSpaced(states[k].trace.edges) && GapFits(states[k])
  {
    assert StepAt(states, steps, k);
  }

  // ---- Edges processed twice ----

  /**
    A pass processes an edge that was processed before exactly when no edge landed since it began and
    the edge whose flag it cleared had landed during the pass before, which got past the guards.
   */
  lemma {:induction false} SecondPassIff(states: seq<System>, steps: seq<Step>, k: nat)
    requires IsRun(states, steps) && k < |steps| && steps[k].Snapshot?
    ensures var s := states[k];
      s.trace.snap == Last(s) <==> !s.shared.flag && s.trace.again
  {
    RunKeepsSystemInv(states, steps);
    StepInRun(states, steps, k);
  }

  /**
    The input: an edge lands between the clearing of the flag and the snapshot. The snapshot takes it,
    its flag stays set, and the next pass, if no further edge lands, takes it again: interval zero,
    which leaves the epoch alone but counts as an out-of-spec period.
   */
  lemma EdgeDuringPassIsProcessedTwice(
      s0: System, e: Edge, s1: System, i: PulseInput, s2: System, s3: System, systemUs: int, readMicros: U32,
      s4: System, j: PulseInput, s5: System)
    requires SystemInv(s0) && s0.pc.ClockRead? && Counted(s0.st) && Accepts(s0.shared, Wrap(e.time))
    requires Next(s0, EdgeArrives(e), s1) && Next(s1, Snapshot(i), s2)
    requires Next(s2, ClearFlag, s3) && Next(s3, ReadClock(systemUs, readMicros), s4) && Next(s4, Snapshot(j), s5)
    requires Counted(s2.st)
    ensures s2.trace.snap == Last(s2) && s2.shared.flag && s4.trace.snap == Last(s4) && s4.trace.again
    ensures j.edgeMicros == s4.st.prevMicros && IntervalOf(s4.st, j) == 0
    ensures s2.st.synced && s5.st.synced ==> s5.st.epoch == s2.st.epoch && s5.st.health.good == 0
  {
    StepKeepsSystemInv(s0, EdgeArrives(e), s1);
    StepKeepsSystemInv(s1, Snapshot(i), s2);
    PulseStampsIffCounted(s1.st, i);
    SecondPassKeepsEpoch(s4.st, j);
  }

  /** The second pass over an edge. */
  lemma SecondPassKeepsEpoch(s: Pps, i: PulseInput)
    requires i.edgeMicros == s.prevMicros
    ensures IntervalOf(s, i) == 0 && ExtraEpochs(0) == -1 && !PeriodInSpec(0)
    ensures var m := Measure(s, i);
      m.epoch == s.epoch && m.prevMicros == s.prevMicros && m.health.good == 0 && !m.latency.paired
    ensures Counted(s) && s.synced && s.count >= 1 && ApplyPulse(s, i).state.synced ==>
      ApplyPulse(s, i).state.epoch == s.epoch && ApplyPulse(s, i).state.health.good == 0
  {
  }
}

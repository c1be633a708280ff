/**
  The interrupt-latency diagnostic `track_isr_latency_`: the ISR stamps a pulse with a 1 us
  counter, the MCPWM unit latches the same pulse with a 12.5 ns counter, and the running sum of
  span differences is claimed to be the change in latency since pairing (re)started.
 */
module IsrLatency {
  import opened MachineInts

  const TICKS_PER_US := 80
  const PAIR_LIMIT_TICKS := 400000

  datatype Latency = Latency(
    paired: bool, prevIsr: U32, prevCap: U32, prevCount: U32, level: int, floor: int)

  const INITIAL := Latency(false, 0, 0, 0, 0, 0)

  function Step(l: Latency, isr: U32, cap: U32, count: U32, clean: bool): Latency {
    if !clean || count == 0 then
      l.(paired := false)
    else if l.paired && count == Wrap(l.prevCount + 1) then
      var diff := Sub32(isr, l.prevIsr) * TICKS_PER_US - Sub32(cap, l.prevCap);
      if diff > PAIR_LIMIT_TICKS || diff < -PAIR_LIMIT_TICKS then
        Latency(true, isr, cap, count, 0, 0)
      else
        Latency(true, isr, cap, count, l.level + diff, Min(l.floor, l.level + diff))
    else
      Latency(true, isr, cap, count, 0, 0)
  }

  /** One pulse in unwrapped time: ISR microseconds, capture ticks, and the pulse's ordinal. */
  datatype Pulse = Pulse(isr: int, cap: int, ordinal: int)

  function Feed(l: Latency, p: Pulse): Latency {
    Step(l, Wrap(p.isr), Wrap(p.cap), Wrap(p.ordinal), true)
  }

  /** Latency of pulse `i` relative to pulse 0, in ticks of true time. */
  function LevelAt(pulses: seq<Pulse>, i: nat): int
    requires i < |pulses|
  {
    TICKS_PER_US * (pulses[i].isr - pulses[0].isr) - (pulses[i].cap - pulses[0].cap)
  }

  /** Two pulses that the code keeps paired. */
  predicate Adjacent(p: Pulse, q: Pulse) {
    && q.ordinal == p.ordinal + 1
    && Wrap(q.ordinal) != 0
    && 0 <= q.isr - p.isr < TWO_32
    && 0 <= q.cap - p.cap < TWO_32
    && Abs(TICKS_PER_US * (q.isr - p.isr) - (q.cap - p.cap)) <= PAIR_LIMIT_TICKS
  }

  predicate Unbroken(pulses: seq<Pulse>) {
    && pulses != []
    && Wrap(pulses[0].ordinal) != 0
    && forall i :: 0 < i < |pulses| ==> Adjacent(pulses[i - 1], pulses[i])
  }

  /** The state after a restart at pulse 0 and every later pulse of an unbroken run. */
  function Run(pulses: seq<Pulse>): Latency
    requires pulses != []
  {
    if |pulses| == 1 then Feed(INITIAL, pulses[0])
    else Feed(Run(pulses[..|pulses| - 1]), pulses[|pulses| - 1])
  }

  /** `floor` is the least of the levels of all pulses of the run, pulse 0 (level 0) included. */
  ghost predicate IsLeastLevel(floor: int, pulses: seq<Pulse>)
    requires pulses != []
  {
    && (forall i :: 0 <= i < |pulses| ==> floor <= LevelAt(pulses, i))
    && (exists i :: 0 <= i < |pulses| && floor == LevelAt(pulses, i))
  }

  /** The state remembers pulse `p` as the one to pair with. */
  ghost predicate Remembers(l: Latency, p: Pulse) {
    l.paired && l.prevIsr == Wrap(p.isr) && l.prevCap == Wrap(p.cap) && l.prevCount == Wrap(p.ordinal)
  }

  /** What one adjacent pulse adds, in true time. */
  function Gain(p: Pulse, q: Pulse): int {
    TICKS_PER_US * (q.isr - p.isr) - (q.cap - p.cap)
  }

  lemma AdjacentPulseAddsGain(l: Latency, p: Pulse, q: Pulse)
    requires Remembers(l, p) && Adjacent(p, q)
    ensures Remembers(Feed(l, q), q)
    ensures Feed(l, q).level == l.level + Gain(p, q)
    ensures Feed(l, q).floor == Min(l.floor, l.level + Gain(p, q))
  {
    WrappedDifference(q.isr, p.isr);
    WrappedDifference(q.cap, p.cap);
    NextImage(p.ordinal);
  }

  lemma NextImage(n: int)
    ensures Wrap(n + 1) == Wrap(Wrap(n) + 1)
  {
    WrappedDifference(n + 1, n);
  }

  /**
    The sum telescopes: whatever number of times either counter wrapped, the level is the
    latency change in true time since the reference pulse, and the floor is the fastest pulse.
   */
  lemma {:induction false} LevelTelescopes(pulses: seq<Pulse>)
    requires Unbroken(pulses)
    ensures var l := Run(pulses);
      && l.level == LevelAt(pulses, |pulses| - 1)
      && IsLeastLevel(l.floor, pulses)
      && Remembers(l, pulses[|pulses| - 1])
  {
    var n := |pulses| - 1;
    if n == 0 {
      assert LevelAt(pulses, 0) == 0;
    } else {
      var front := pulses[..n];
      LevelTelescopes(front);
      assert Adjacent(pulses[n - 1], pulses[n]);
      AdjacentPulseAddsGain(Run(front), pulses[n - 1], pulses[n]);
      forall i | 0 <= i < n ensures LevelAt(front, i) == LevelAt(pulses, i) {}
      var w :| 0 <= w < n && Run(front).floor == LevelAt(front, w);
      assert Run(pulses).floor == LevelAt(pulses, w) || Run(pulses).floor == LevelAt(pulses, n);
    }
  }

  /**
    When pairing starts over: the new pulse becomes the reference with level and floor zero
    exactly when it does not continue the pair or its spans disagree by more than 5 ms.
   */
  lemma RestartsExactlyWhenUnpaired(l: Latency, p: Pulse)
    requires Wrap(p.ordinal) != 0
    ensures
      var diff := Sub32(Wrap(p.isr), l.prevIsr) * TICKS_PER_US - Sub32(Wrap(p.cap), l.prevCap);
      var continues := l.paired && Wrap(p.ordinal) == Wrap(l.prevCount + 1) && Abs(diff) <= PAIR_LIMIT_TICKS;
      && (!continues ==> Feed(l, p) == Run([p]))
      && (continues ==> Feed(l, p).level == l.level + diff)
  {
  }

  /**
    A pulse that is not a clean single second, or comes before any capture, never moves the level; it
    only ends the pairing.
   */
  lemma UncleanPulseOnlyUnpairs(l: Latency, isr: U32, cap: U32, count: U32, clean: bool, p: Pulse)
    requires Wrap(p.ordinal) != 0 && (!clean || count == 0)
    ensures var u := Step(l, isr, cap, count, clean);
      u.level == l.level && u.floor == l.floor && !u.paired && Feed(u, p) == Run([p])
  {
  }

  // ---- Any sequence of readings ----

  /** What `track_isr_latency_` is called with. */
  datatype Reading = Reading(isr: U32, cap: U32, count: U32, clean: bool)

  function Follow(l: Latency, rs: seq<Reading>): Latency {
    if rs == [] then l
    else
      var r := rs[|rs| - 1];
      Step(Follow(l, rs[..|rs| - 1]), r.isr, r.cap, r.count, r.clean)
  }

  /** The readings that pulses in true time give. */
  function Images(pulses: seq<Pulse>): (rs: seq<Reading>)
    ensures |rs| == |pulses|
  {
    seq(|pulses|, i requires 0 <= i < |pulses| =>
      Reading(Wrap(pulses[i].isr), Wrap(pulses[i].cap), Wrap(pulses[i].ordinal), true))
  }

  /** Pulse `p` becomes the new reference. */
  predicate Restarts(l: Latency, p: Pulse) {
    Feed(l, p) == Run([p])
  }

  lemma {:induction false} FollowedRun(before: seq<Reading>, pulses: seq<Pulse>)
    requires pulses != [] && Restarts(Follow(INITIAL, before), pulses[0])
    ensures Follow(INITIAL, before + Images(pulses)) == Run(pulses)
  {
    var n, rs := |pulses| - 1, before + Images(pulses);
    assert rs[..|rs| - 1] == before + Images(pulses[..n]);
    if n == 0 {
      assert rs[..|rs| - 1] == before;
      assert pulses == [pulses[0]];
    } else {
      FollowedRun(before, pulses[..n]);
    }
  }

  /** Whatever came before, an unbroken run that began with a restart telescopes. */
  lemma {:induction false} FollowedRunTelescopes(before: seq<Reading>, pulses: seq<Pulse>)
    requires Unbroken(pulses) && Restarts(Follow(INITIAL, before), pulses[0])
    ensures var l := Follow(INITIAL, before + Images(pulses));
      l.level == LevelAt(pulses, |pulses| - 1) && IsLeastLevel(l.floor, pulses)
  {
    FollowedRun(before, pulses);
    LevelTelescopes(pulses);
  }
}

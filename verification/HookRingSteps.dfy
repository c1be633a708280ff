/**
  The hook ring under every interleaving: eight seqlocked slots, the driver task writing them
  round-robin and the NTP task scanning them once per request.
 */
module HookRingSteps {
  import opened Wrappers
  import opened MachineInts
  import opened Seqlock
  import HookRing

  const SLOTS := HookRing.SIZE
  const MAX_AGE_US := HookRing.MAX_AGE_US

  /** A record as words: 14 key bytes, the two halves of the 64-bit stamp, ten more words of info. */
  const KEY_WORDS := 14
  const RECORD_WORDS := 26

  function KeyOf(w: Words): Words
    requires |w| == RECORD_WORDS
  {
    w[..KEY_WORDS]
  }

  function TimeOf(w: Words): int
    requires |w| == RECORD_WORDS
  {
    w[KEY_WORDS] + w[KEY_WORDS + 1] * TWO_32
  }

  predicate Admissible(w: Words, key: Words, now: int) {
    |w| == RECORD_WORDS && KeyOf(w) == key && now - TimeOf(w) <= MAX_AGE_US
  }

  /** `vers` are the slots' counts at the call; it is not program state. */
  datatype Scanner =
    | Idle
    | Scanning(key: Words, now: int, i: nat, attempt: Option<Attempt>, best: Option<Words>, vers: seq<nat>)
    | Returned(key: Words, now: int, best: Option<Words>, vers: seq<nat>)

  datatype System = System(slots: seq<Cell>, next: nat, scanner: Scanner)

  const UNUSED: Words := seq(RECORD_WORDS, _ => 0)

  function Versions(slots: seq<Cell>): seq<nat> {
    seq(|slots|, i requires 0 <= i < |slots| => slots[i].ver)
  }

  /** On to the next slot, or done. */
  function Advance(s: Scanner, best: Option<Words>): Scanner
    requires s.Scanning?
  {
    if s.i + 1 < SLOTS then Scanning(s.key, s.now, s.i + 1, None, best, s.vers)
    else Returned(s.key, s.now, best, s.vers)
  }

  function Consider(s: Scanner, w: Words): Option<Words>
    requires s.Scanning? && |w| == RECORD_WORDS && (s.best.Some? ==> |s.best.value| == RECORD_WORDS)
  {
    if KeyOf(w) != s.key then s.best
    else if s.now - TimeOf(w) > MAX_AGE_US then s.best
    else if s.best.None? || TimeOf(w) > TimeOf(s.best.value) then Some(w)
    else s.best
  }

  datatype Step = Write(op: WriterOp) | Call(key: Words, now: int) | Load(buf: Words) | Copy(j: nat) | Check

  predicate Next(s: System, step: Step, s': System) {
    && |s.slots| == SLOTS && s.next < SLOTS
    && match step
       case Write(op) =>
         && |s'.slots| == SLOTS
         && WriterStep(s.slots[s.next], op, s'.slots[s.next])
         && s' == s.(slots := s.slots[s.next := s'.slots[s.next]],
                     next := if op.End? then (s.next + 1) % SLOTS else s.next)
       case Call(key, now) =>
         && (s.scanner.Idle? || s.scanner.Returned?)
         && s' == s.(scanner := Scanning(key, now, 0, None, None, Versions(s.slots)))
       case Load(buf) =>
         && s.scanner.Scanning? && s.scanner.attempt.None? && s.scanner.i < SLOTS && |buf| == RECORD_WORDS
         && var c := s.slots[s.scanner.i];
            s' == s.(scanner :=
              if c.ver % 2 == 1 then Advance(s.scanner, s.scanner.best)
              else s.scanner.(attempt := Some(Copying(c.ver, buf, {}))))
       case Copy(j) =>
         && s.scanner.Scanning? && s.scanner.attempt.Some? && s.scanner.i < SLOTS
         && var c, a := s.slots[s.scanner.i], s.scanner.attempt.value;
            && s'.scanner.Scanning? && s'.scanner.attempt.Some?
            && Copied(c, a, j, s'.scanner.attempt.value)
            && s' == s.(scanner := s.scanner.(attempt := s'.scanner.attempt))
       case Check =>
         && s.scanner.Scanning? && s.scanner.attempt.Some? && s.scanner.i < SLOTS
         && var c, a := s.slots[s.scanner.i], s.scanner.attempt.value;
            && CopiedAll(a) && |a.buf| == RECORD_WORDS
            && (s.scanner.best.Some? ==> |s.scanner.best.value| == RECORD_WORDS)
            && var best := if CheckPasses(c, a) then Consider(s.scanner, a.buf) else s.scanner.best;
               s' == s.(scanner := Advance(s.scanner, best))
  }

  /** Fewer than 2^31 writes to one slot during one copy of it. */
  predicate Timely(s: System) {
    |s.slots| == SLOTS && s.scanner.Scanning? && s.scanner.attempt.Some? && s.scanner.i < SLOTS ==>
      Recent(s.slots[s.scanner.i], s.scanner.attempt.value)
  }

  predicate StepAt(states: seq<System>, steps: seq<Step>, i: nat)
    requires i < |steps| < |states|
  {
    Next(states[i], steps[i], states[i + 1])
  }

  predicate IsRun(states: seq<System>, steps: seq<Step>) {
    && |states| == |steps| + 1
    && states[0] == System(seq(SLOTS, _ => Fresh(UNUSED)), 0, Idle)
    && (forall i :: 0 <= i < |steps| ==> StepAt(states, steps, i))
    && (forall i :: 0 <= i < |states| ==> Timely(states[i]))
  }

  /**
    `w` is one whole record (or the initial content) of some slot, and was the latest one there at
    some moment since `vers` was taken.
   */
  predicate HeldSince(w: Words, slots: seq<Cell>, vers: seq<nat>) {
    exists i, k :: 0 <= i < |slots| == |vers| && vers[i] / 2 <= k < |slots[i].published| && slots[i].published[k] == w
  }

  /** Slot `i` has not been written since the call. */
  predicate Untouched(slots: seq<Cell>, vers: seq<nat>, i: nat) {
    i < |slots| == |vers| && slots[i].ver == vers[i] && vers[i] % 2 == 0
  }

  /** `best` is at least as new as the record in every untouched slot among the first `n` that would do. */
  ghost predicate NewestOf(best: Option<Words>, slots: seq<Cell>, vers: seq<nat>, n: nat, key: Words, now: int) {
    forall i :: 0 <= i < n && Untouched(slots, vers, i) && Admissible(slots[i].mem, key, now) ==>
      best.Some? && |best.value| == RECORD_WORDS && TimeOf(slots[i].mem) <= TimeOf(best.value)
  }

  ghost predicate BestInv(best: Option<Words>, slots: seq<Cell>, vers: seq<nat>, key: Words, now: int) {
    best.Some? ==> Admissible(best.value, key, now) && HeldSince(best.value, slots, vers)
  }

  ghost predicate Inv(s: System) {
    && |s.slots| == SLOTS && s.next < SLOTS
    && (forall i :: 0 <= i < SLOTS ==> CellInv(s.slots[i], RECORD_WORDS))
    && match s.scanner
       case Idle => true
       case Scanning(key, now, i, attempt, best, vers) =>
         && i < SLOTS && |vers| == SLOTS && (forall j :: 0 <= j < SLOTS ==> vers[j] <= s.slots[j].ver)
         && BestInv(best, s.slots, vers, key, now)
         && NewestOf(best, s.slots, vers, i, key, now)
         && (attempt.Some? ==> AttemptInv(s.slots[i], attempt.value) && vers[i] <= attempt.value.seen)
       case Returned(key, now, best, vers) =>
         && |vers| == SLOTS && (forall j :: 0 <= j < SLOTS ==> vers[j] <= s.slots[j].ver)
         && BestInv(best, s.slots, vers, key, now)
         && NewestOf(best, s.slots, vers, SLOTS, key, now)
  }

  lemma HeldStaysHeld(w: Words, slots: seq<Cell>, slots': seq<Cell>, vers: seq<nat>)
    requires HeldSince(w, slots, vers) && |slots'| == |slots|
    requires forall i :: 0 <= i < |slots| ==> slots[i].published <= slots'[i].published
    ensures HeldSince(w, slots', vers)
  {
    var i, k :| 0 <= i < |slots| && vers[i] / 2 <= k < |slots[i].published| && slots[i].published[k] == w;
    assert slots'[i].published[k] == w;
  }

  lemma {:induction false} WriteKeepsSlots(s: System, op: WriterOp, s': System)
    requires Inv(s) && Next(s, Write(op), s')
    ensures |s'.slots| == SLOTS && s'.next < SLOTS && s'.scanner == s.scanner
    ensures forall i :: 0 <= i < SLOTS ==>
      && CellInv(s'.slots[i], RECORD_WORDS)
      && s.slots[i].ver <= s'.slots[i].ver && s.slots[i].published <= s'.slots[i].published
      && (s'.slots[i].ver == s.slots[i].ver && s.slots[i].ver % 2 == 0 ==> s'.slots[i] == s.slots[i])
  {
    WriterKeepsInv(s.slots[s.next], op, s'.slots[s.next], RECORD_WORDS);
  }

  /** A slot that is still untouched was untouched before, and holds what it held. */
  lemma NewestStaysNewest(best: Option<Words>, slots: seq<Cell>, slots': seq<Cell>, vers: seq<nat>, n: nat,
                          key: Words, now: int)
    requires NewestOf(best, slots, vers, n, key, now) && n <= |slots| == |slots'| == |vers|
    requires forall i :: 0 <= i < |slots| ==> vers[i] <= slots[i].ver <= slots'[i].ver
    requires forall i :: 0 <= i < |slots| ==>
      (slots'[i].ver == slots[i].ver && slots[i].ver % 2 == 0 ==> slots'[i] == slots[i])
    ensures NewestOf(best, slots', vers, n, key, now)
  {
  }

  lemma {:induction false} WriteKeepsInv(s: System, op: WriterOp, s': System)
    requires Inv(s) && Next(s, Write(op), s')
    ensures Inv(s')
  {
    WriteKeepsSlots(s, op, s');
    if !s.scanner.Idle? {
      var vers, best := s.scanner.vers, s.scanner.best;
      if best.Some? {
        HeldStaysHeld(best.value, s.slots, s'.slots, vers);
      }
      NewestStaysNewest(best, s.slots, s'.slots, vers, if s.scanner.Scanning? then s.scanner.i else SLOTS,
                        s.scanner.key, s.scanner.now);
      if s.scanner.Scanning? && s.scanner.attempt.Some? && s.scanner.i == s.next {
        WriterKeepsAttempt(s.slots[s.next], op, s'.slots[s.next], s.scanner.attempt.value, RECORD_WORDS);
      }
    }
  }

  lemma {:induction false} CheckKeepsInv(s: System, s': System)
    requires Inv(s) && Next(s, Check, s') && Timely(s)
    ensures Inv(s')
  {
    var sc := s.scanner;
    var i, c, a := sc.i, s.slots[sc.i], sc.attempt.value;
    if CheckPasses(c, a) {
      PassedCheckIsWhole(c, a, RECORD_WORDS);
      assert c.published[c.ver / 2] == a.buf && sc.vers[i] / 2 <= c.ver / 2;
      assert HeldSince(a.buf, s.slots, sc.vers);
      var best := Consider(sc, a.buf);
      assert BestInv(best, s.slots, sc.vers, sc.key, sc.now);
      assert NewestOf(best, s.slots, sc.vers, i + 1, sc.key, sc.now);
    } else {
      assert !Untouched(s.slots, sc.vers, i);
      assert NewestOf(sc.best, s.slots, sc.vers, i + 1, sc.key, sc.now);
    }
  }

  lemma {:induction false} StepKeepsInv(s: System, step: Step, s': System)
    requires Inv(s) && Next(s, step, s') && Timely(s)
    ensures Inv(s')
  {
    match step
    case Write(op) => WriteKeepsInv(s, op, s');
    case Call(_, _) =>
    case Load(buf) =>
      var sc := s.scanner;
      if s.slots[sc.i].ver % 2 == 1 {
        assert !Untouched(s.slots, sc.vers, sc.i);
        assert NewestOf(sc.best, s.slots, sc.vers, sc.i + 1, sc.key, sc.now);
      }
    case Copy(j) =>
    case Check => CheckKeepsInv(s, s');
  }

  /** A run without its last step. */
  lemma RunPrefix(states: seq<System>, steps: seq<Step>)
    requires IsRun(states, steps) && steps != []
    ensures var n := |steps|;
      IsRun(states[..n], steps[..n - 1]) && Next(states[n - 1], steps[n - 1], states[n]) && Timely(states[n - 1])
  {
    var n := |steps|;
    var before, taken := states[..n], steps[..n - 1];
    forall i | 0 <= i < n - 1
      ensures StepAt(before, taken, i)
    {
      assert StepAt(states, steps, i);
    }
    assert StepAt(states, steps, n - 1);
  }

  /**
    For every interleaving: a hit is one record of one slot, never a mixture, which was in that slot
    at some moment of the lookup, with exactly the key asked for and at most a second old; and it is
    at least as new as any record that would do in a slot the writer left alone during the lookup, so
    such a record is never missed.
   */
  lemma {:induction false} HitIsWholeAndNewest(states: seq<System>, steps: seq<Step>)
    requires IsRun(states, steps)
    ensures Inv(states[|steps|])
    ensures var s := states[|steps|];
      s.scanner.Returned? ==>
        && BestInv(s.scanner.best, s.slots, s.scanner.vers, s.scanner.key, s.scanner.now)
        && NewestOf(s.scanner.best, s.slots, s.scanner.vers, SLOTS, s.scanner.key, s.scanner.now)
  {
    var n := |steps|;
    if n > 0 {
      RunPrefix(states, steps);
      HitIsWholeAndNewest(states[..n], steps[..n - 1]);
      StepKeepsInv(states[n - 1], steps[n - 1], states[n]);
    }
  }

  // ---- The writer goes round ----

  /** The number of records completed. */
  function Completed(steps: seq<Step>): nat {
    if steps == [] then 0
    else Completed(steps[..|steps| - 1]) + if steps[|steps| - 1] == Write(End) then 1 else 0
  }

  /** How many of the first `n` records fall to slot `i`, round-robin. */
  function ShareOf(n: nat, i: nat): nat
    requires i < SLOTS
  {
    (n + SLOTS - 1 - i) / SLOTS
  }

  /** The next record goes to the slot whose turn it is, and every slot has had its share. */
  predicate GoesRound(s: System, n: nat) {
    && |s.slots| == SLOTS && s.next == n % SLOTS
    && forall i :: 0 <= i < SLOTS ==> s.slots[i].ver / 2 == ShareOf(n, i) && (i != s.next ==> s.slots[i].ver % 2 == 0)
  }

  lemma RoundStep(s: System, step: Step, s': System, n: nat)
    requires GoesRound(s, n) && Next(s, step, s')
    ensures GoesRound(s', if step == Write(End) then n + 1 else n)
  {
    forall i | 0 <= i < SLOTS
      ensures ShareOf(n + 1, i) == ShareOf(n, i) + if i == n % SLOTS then 1 else 0
    {
      ShareStep(n, i);
    }
  }

  lemma ShareStep(n: nat, i: nat)
    requires i < SLOTS
    ensures ShareOf(n + 1, i) == ShareOf(n, i) + if i == n % SLOTS then 1 else 0
  {
  }

  /** Over every interleaving the writer fills the slots strictly in turn, so the oldest is overwritten. */
  lemma {:induction false} WriterGoesRound(states: seq<System>, steps: seq<Step>)
    requires IsRun(states, steps)
    ensures GoesRound(states[|steps|], Completed(steps))
  {
    var n := |steps|;
    if n > 0 {
      RunPrefix(states, steps);
      WriterGoesRound(states[..n], steps[..n - 1]);
      RoundStep(states[n - 1], steps[n - 1], states[n], Completed(steps[..n - 1]));
    }
  }
}

/**
  The seqlock protocol shared by the PPS anchor and the hook ring, as small steps under sequential
  consistency: one writer stores a record word by word between two increments of a sequence number,
  a reader copies it word by word between two loads of that number. Words may be stored and copied
  in any order.

  The sequence number the program sees is 32 bits wide; `ver` is its unbounded true count.
 */
module Seqlock {
  import opened MachineInts

  type Words = seq<int>

  /** `published[k]` is the value after k completed writes; `pending` is the one being written. */
  datatype Cell = Cell(ver: nat, mem: Words, pending: Words, published: seq<Words>)

  ghost predicate CellInv(c: Cell, n: nat) {
    && |c.mem| == |c.pending| == n
    && |c.published| == c.ver / 2 + 1
    && (forall k :: 0 <= k < |c.published| ==> |c.published[k]| == n)
    && (c.ver % 2 == 0 ==> c.mem == c.published[c.ver / 2])
  }

  function Fresh(initial: Words): Cell {
    Cell(0, initial, initial, [initial])
  }

  // ---- Writer ----

  datatype WriterOp = Begin(value: Words) | StoreWord(j: nat) | End

  predicate WriterStep(c: Cell, op: WriterOp, c': Cell) {
    match op
    case Begin(v) => c.ver % 2 == 0 && |v| == |c.mem| && c' == c.(ver := c.ver + 1, pending := v)
    case StoreWord(j) =>
      c.ver % 2 == 1 && j < |c.mem| == |c.pending| && c' == c.(mem := c.mem[j := c.pending[j]])
    case End =>
      c.ver % 2 == 1 && c.mem == c.pending && c' == c.(ver := c.ver + 1, published := c.published + [c.pending])
  }

  // ---- Reader ----

  /** One attempt: `seen` is the true count behind the sequence number it loaded first. */
  datatype Attempt = Copying(seen: nat, buf: Words, got: set<nat>)

  predicate Copied(c: Cell, a: Attempt, j: nat, a': Attempt) {
    j < |c.mem| == |a.buf| && a' == Copying(a.seen, a.buf[j := c.mem[j]], a.got + {j})
  }

  predicate CopiedAll(a: Attempt) {
    forall j: nat :: j < |a.buf| ==> j in a.got
  }

  /** The second load shows the same 32-bit number as the first. */
  predicate CheckPasses(c: Cell, a: Attempt) {
    Wrap(c.ver) == Wrap(a.seen)
  }

  /** Fewer than 2^31 writes happened since the attempt began. */
  predicate Recent(c: Cell, a: Attempt) {
    c.ver - a.seen < TWO_32
  }

  ghost predicate AttemptInv(c: Cell, a: Attempt) {
    && a.seen % 2 == 0 && a.seen <= c.ver && |a.buf| == |c.mem|
    && (c.ver == a.seen ==> forall j: nat :: j in a.got && j < |a.buf| ==> a.buf[j] == c.mem[j])
  }

  lemma WriterKeepsInv(c: Cell, op: WriterOp, c': Cell, n: nat)
    requires CellInv(c, n) && WriterStep(c, op, c')
    ensures CellInv(c', n)
    ensures c.ver <= c'.ver && c.published <= c'.published
    ensures c.ver == c'.ver && c.ver % 2 == 0 ==> c == c'
  {
  }

  lemma WriterKeepsAttempt(c: Cell, op: WriterOp, c': Cell, a: Attempt, n: nat)
    requires CellInv(c, n) && WriterStep(c, op, c') && AttemptInv(c, a)
    ensures AttemptInv(c', a)
  {
    WriterKeepsInv(c, op, c', n);
  }

  /**
    A check that passes proves the copy: no write touched the record since the first load, and the
    buffer is the record published last, whole.
   */
  lemma PassedCheckIsWhole(c: Cell, a: Attempt, n: nat)
    requires CellInv(c, n) && AttemptInv(c, a) && CopiedAll(a) && CheckPasses(c, a) && Recent(c, a)
    ensures c.ver == a.seen
    ensures a.buf == c.mem == c.published[|c.published| - 1]
  {
    WrappedDifference(c.ver, a.seen);
  }

  /**
    Why the number of writes during one read must stay below 2^31: the check passes exactly when the
    record was completely rewritten a multiple of 2^31 times since the first load, zero included.
   */
  lemma CheckPassesIff(c: Cell, a: Attempt, n: nat)
    requires CellInv(c, n) && AttemptInv(c, a)
    ensures CheckPasses(c, a) <==> c.ver % 2 == 0 && (|c.published| - 1 - a.seen / 2) % TWO_31 == 0
  {
    SameImageIff(c.ver, a.seen);
    HalvesIff(c.ver, a.seen);
  }

  lemma HalvesIff(ver: nat, seen: nat)
    requires seen % 2 == 0
    ensures (ver - seen) % TWO_32 == 0 <==> ver % 2 == 0 && (ver / 2 - seen / 2) % TWO_31 == 0
  {
    if ver % 2 == 0 {
      assert ver - seen == 2 * (ver / 2 - seen / 2);
    }
  }

  lemma SameImageIff(x: int, y: int)
    ensures Wrap(x) == Wrap(y) <==> (x - y) % TWO_32 == 0
  {
  }
}

/** The PPS anchor: `publish_pps_anchor_` against `get_pps_anchor` with its four attempts. */
module AnchorSeqlock {
  import opened MachineInts
  import opened Seqlock

  /** Two words of epoch (time_t is 64 bits), one of micros, one of rate. */
  const ANCHOR_WORDS := 4
  const ATTEMPTS := 4

  function EpochOf(w: Words): int
    requires |w| == ANCHOR_WORDS
  {
    w[0] + w[1] * TWO_32
  }

  /** How a triple lies in memory: a 64-bit epoch, micros, and the rate in two's complement. */
  function AnchorWords(epoch: int, micros: U32, ratePpb: int): Words {
    [epoch % TWO_32, epoch / TWO_32, micros, ratePpb % TWO_32]
  }

  /** The words a reader gets back are one triple. */
  lemma AnchorWordsRoundTrip(epoch: int, micros: U32, ratePpb: int)
    requires -TWO_31 <= ratePpb < TWO_31
    ensures var w := AnchorWords(epoch, micros, ratePpb);
      EpochOf(w) == epoch && w[2] == micros && 0 <= w[3] < TWO_32 && Signed32(w[3]) == ratePpb
  {
  }

  /**
    `since` is the number of anchors published before the call, `lost` the number of attempts that
    failed; they are not program state.
   */
  datatype Reader =
    | Idle
    | Looking(since: nat, attempt: nat)
    | Reading(since: nat, attempt: nat, a: Attempt)
    | Returned(since: nat, ok: bool, value: Words, lost: nat)

  datatype System = System(cell: Cell, reader: Reader)

  function NextAttempt(since: nat, attempt: nat, value: Words): Reader {
    if attempt + 1 < ATTEMPTS then Looking(since, attempt + 1) else Returned(since, false, value, attempt + 1)
  }

  datatype Step =
    | Write(op: WriterOp)
    | Call
    | Load(buf: Words)
    | Copy(j: nat)
    | Check

  predicate Next(s: System, step: Step, s': System) {
    match step
    case Write(op) => WriterStep(s.cell, op, s'.cell) && s'.reader == s.reader
    case Call =>
      s'.cell == s.cell && (s.reader.Idle? || s.reader.Returned?) && s.cell.published != []
      && s'.reader == Looking(|s.cell.published| - 1, 0)
    case Load(buf) =>
      s'.cell == s.cell && s.reader.Looking? && |buf| == ANCHOR_WORDS
      && s'.reader == if s.cell.ver % 2 == 1 then NextAttempt(s.reader.since, s.reader.attempt, buf)
                      else Reading(s.reader.since, s.reader.attempt, Copying(s.cell.ver, buf, {}))
    case Copy(j) =>
      s'.cell == s.cell && s.reader.Reading? && s'.reader.Reading?
      && s'.reader == s.reader.(a := s'.reader.a)
      && Copied(s.cell, s.reader.a, j, s'.reader.a)
    case Check =>
      s'.cell == s.cell && s.reader.Reading? && CopiedAll(s.reader.a) && |s.reader.a.buf| == ANCHOR_WORDS
      && s'.reader == if CheckPasses(s.cell, s.reader.a)
                      then Returned(s.reader.since, EpochOf(s.reader.a.buf) != 0, s.reader.a.buf, s.reader.attempt)
                      else NextAttempt(s.reader.since, s.reader.attempt, s.reader.a.buf)
  }

  predicate StepAt(states: seq<System>, steps: seq<Step>, i: nat)
    requires i < |steps| < |states|
  {
    Next(states[i], steps[i], states[i + 1])
  }

  /** Fewer than 2^31 writes during one copy. */
  predicate Timely(s: System) {
    s.reader.Reading? ==> Recent(s.cell, s.reader.a)
  }

  /** An interleaving: states and the steps between them. */
  predicate IsRun(states: seq<System>, steps: seq<Step>) {
    && |states| == |steps| + 1
    && states[0] == System(Fresh([0, 0, 0, 0]), Idle)
    && (forall i :: 0 <= i < |steps| ==> StepAt(states, steps, i))
    && (forall i :: 0 <= i < |states| ==> Timely(states[i]))
  }

  /** `value` is what was published last at some moment between call and return. */
  predicate PublishedSince(value: Words, since: nat, published: seq<Words>) {
    exists k :: since <= k < |published| && value == published[k]
  }

  ghost predicate Inv(s: System) {
    && CellInv(s.cell, ANCHOR_WORDS)
    && match s.reader
       case Idle => true
       case Looking(since, attempt) => since < |s.cell.published| && attempt < ATTEMPTS
       case Reading(since, attempt, a) => since <= a.seen / 2 && attempt < ATTEMPTS && AttemptInv(s.cell, a)
       case Returned(since, ok, value, lost) =>
         && (lost < ATTEMPTS ==>
               && |value| == ANCHOR_WORDS && PublishedSince(value, since, s.cell.published)
               && (ok <==> EpochOf(value) != 0))
         && (ok ==> lost < ATTEMPTS) && lost <= ATTEMPTS
  }

  lemma StepKeepsInv(s: System, step: Step, s': System)
    requires Inv(s) && Next(s, step, s')
    requires s.reader.Reading? ==> Recent(s.cell, s.reader.a)
    ensures Inv(s')
  {
    match step
    case Write(op) =>
      WriterKeepsInv(s.cell, op, s'.cell, ANCHOR_WORDS);
      if s.reader.Reading? { WriterKeepsAttempt(s.cell, op, s'.cell, s.reader.a, ANCHOR_WORDS); }
      if s.reader.Returned? && s.reader.lost < ATTEMPTS {
        var k :| s.reader.since <= k < |s.cell.published| && s.reader.value == s.cell.published[k];
        assert s'.cell.published[k] == s.reader.value;
      }
    case Call =>
    case Load(buf) =>
    case Copy(j) =>
    case Check =>
      if CheckPasses(s.cell, s.reader.a) {
        PassedCheckIsWhole(s.cell, s.reader.a, ANCHOR_WORDS);
      }
  }

  /** A run up to its `k`th step, and that step. */
  lemma RunPrefix(states: seq<System>, steps: seq<Step>, k: nat)
    requires IsRun(states, steps) && k < |steps|
    ensures IsRun(states[..k + 1], steps[..k]) && Next(states[k], steps[k], states[k + 1]) && Timely(states[k])
  {
    var before, taken := states[..k + 1], steps[..k];
    forall i | 0 <= i < k
      ensures StepAt(before, taken, i)
    {
      assert StepAt(states, steps, i);
    }
    assert StepAt(states, steps, k);
  }

  /**
    For every interleaving: an anchor that `get_pps_anchor` returns is one that was published, whole,
    and current at some moment during the call, with a nonzero epoch.
   */
  lemma {:induction false} ReturnedAnchorIsPublished(states: seq<System>, steps: seq<Step>)
    requires IsRun(states, steps)
    ensures Inv(states[|steps|])
    ensures var r := states[|steps|].reader;
      r.Returned? && r.ok ==>
        |r.value| == ANCHOR_WORDS && EpochOf(r.value) != 0
        && PublishedSince(r.value, r.since, states[|steps|].cell.published)
  {
    var n := |steps|;
    if n > 0 {
      RunPrefix(states, steps, n - 1);
      ReturnedAnchorIsPublished(states[..n], steps[..n - 1]);
      StepKeepsInv(states[n - 1], steps[n - 1], states[n]);
    }
  }

  // ---- When a call succeeds ----

  /** An attempt is lost only to the writer: a write was under way, or one began since the first load. */
  lemma LostAttemptWasDisturbed(s: System, step: Step, s': System)
    requires Inv(s) && Next(s, step, s') && (step.Load? || step.Check?)
    requires (s'.reader.Looking?) || (s'.reader.Returned? && s'.reader.lost == ATTEMPTS)
    ensures if step.Load? then s.cell.ver % 2 == 1 else s.cell.ver > s.reader.a.seen
  {
  }

  /** A call that finds no anchor has lost four attempts, or was handed one with epoch zero, published meanwhile. */
  lemma {:induction false} RefusalIsExplained(states: seq<System>, steps: seq<Step>)
    requires IsRun(states, steps)
    ensures var r := states[|steps|].reader;
      r.Returned? && !r.ok ==>
        || r.lost == ATTEMPTS
        || (|r.value| == ANCHOR_WORDS && EpochOf(r.value) == 0
            && PublishedSince(r.value, r.since, states[|steps|].cell.published))
  {
    ReturnedAnchorIsPublished(states, steps);
  }

  /** Where a call is that the writer has left alone: in its first attempt, or back with the latest record. */
  predicate Undisturbed(cell: Cell, s: System) {
    && s.cell == cell && cell.published != []
    && match s.reader
       case Idle => false
       case Looking(_, attempt) => attempt == 0
       case Reading(_, attempt, a) => attempt == 0 && a.seen == cell.ver
       case Returned(_, ok, value, lost) =>
         lost == 0 && value == cell.published[|cell.published| - 1] && |value| == ANCHOR_WORDS
         && (ok <==> EpochOf(value) != 0)
  }

  lemma UndisturbedStep(cell: Cell, s: System, step: Step, s': System)
    requires Inv(s) && Next(s, step, s') && Undisturbed(cell, s) && cell.ver % 2 == 0
    requires !step.Write? && !step.Call? && (s.reader.Reading? ==> Recent(s.cell, s.reader.a))
    ensures Undisturbed(cell, s')
  {
    if step.Check? {
      PassedCheckIsWhole(s.cell, s.reader.a, ANCHOR_WORDS);
    }
  }

  /**
    Over runs: a call that began with no write under way, and during which the writer takes no step,
    never goes into a second attempt; when it returns, it returns the record published last, as an
    anchor exactly when its epoch is not zero.
   */
  lemma {:induction false} QuietCallSucceeds(states: seq<System>, steps: seq<Step>, call: nat, now: nat)
    requires IsRun(states, steps) && call < now <= |steps| && steps[call].Call? && states[call].cell.ver % 2 == 0
    requires forall j :: call < j < now ==> !steps[j].Write? && !steps[j].Call?
    ensures Undisturbed(states[call].cell, states[now])
  {
    InvAt(states, steps, now - 1);
    RunPrefix(states, steps, now - 1);
    if now - 1 > call {
      QuietCallSucceeds(states, steps, call, now - 1);
      UndisturbedStep(states[call].cell, states[now - 1], steps[now - 1], states[now]);
    }
  }

  lemma {:induction false} InvAt(states: seq<System>, steps: seq<Step>, k: nat)
    requires IsRun(states, steps) && k <= |steps|
    ensures Inv(states[k])
  {
    if k < |steps| {
      RunPrefix(states, steps, k);
      ReturnedAnchorIsPublished(states[..k + 1], steps[..k]);
    } else {
      ReturnedAnchorIsPublished(states, steps);
    }
  }

  /** And it can return: seven steps of the reader alone are enough. */
  lemma QuietCallReturns(s0: System, buf: Words) returns (states: seq<System>, steps: seq<Step>)
    requires Inv(s0) && s0.reader.Idle? && s0.cell.ver % 2 == 0 && |buf| == ANCHOR_WORDS
    ensures steps == [Call, Load(buf), Copy(0), Copy(1), Copy(2), Copy(3), Check]
    ensures |states| == 8 && states[0] == s0
    ensures forall i :: 0 <= i < 7 ==> Next(states[i], steps[i], states[i + 1])
    ensures states[7].reader.Returned? && Undisturbed(s0.cell, states[7])
  {
    var c := s0.cell;
    var since := |c.published| - 1;
    var s1 := s0.(reader := Looking(since, 0));
    var a0 := Copying(c.ver, buf, {});
    var a1 := Copying(c.ver, a0.buf[0 := c.mem[0]], {0});
    var a2 := Copying(c.ver, a1.buf[1 := c.mem[1]], {0, 1});
    var a3 := Copying(c.ver, a2.buf[2 := c.mem[2]], {0, 1, 2});
    var a4 := Copying(c.ver, a3.buf[3 := c.mem[3]], {0, 1, 2, 3});
    assert {} + {0} == {0} && {0} + {1} == {0, 1} && {0, 1} + {2} == {0, 1, 2} && {0, 1, 2} + {3} == {0, 1, 2, 3};
    assert a4.buf == c.mem;
    var s7 := s0.(reader := Returned(since, EpochOf(a4.buf) != 0, a4.buf, 0));
    states := [s0, s1, s1.(reader := Reading(since, 0, a0)), s1.(reader := Reading(since, 0, a1)),
               s1.(reader := Reading(since, 0, a2)), s1.(reader := Reading(since, 0, a3)),
               s1.(reader := Reading(since, 0, a4)), s7];
    steps := [Call, Load(buf), Copy(0), Copy(1), Copy(2), Copy(3), Check];
  }
}

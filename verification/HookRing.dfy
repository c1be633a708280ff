/**
  The hook ring: the driver task records who sent a request and when, the NTP task looks the
  request up. First the data structure on its own against the history of records, then the same
  lookup as small steps interleaved with the writer.
 */
module HookRing {
  import opened MachineInts

  const SIZE := 8
  const MAX_AGE_US := 1000000

  /** What the hook learned about one frame; `t` is the receive stamp T2. */
  datatype HookInfo = HookInfo(
    t: int, rxGapUs: int, edgeUsable: bool, leadUs: int, captureArmed: bool,
    rxRsr: int, frameLen: int, t2FromEdge: bool, t2FromFrameStart: bool, t2ChipLatency: bool)

  const NO_INFO := HookInfo(0, -1, false, 0, false, -1, -1, false, false, false)

  datatype Entry = Entry(key: seq<Byte>, info: HookInfo)

  const ZERO_KEY: seq<Byte> := [0, 0, 0, 0, 0, 0, 0, 0, 0, 0, 0, 0, 0, 0]
  const UNUSED := Entry(ZERO_KEY, NO_INFO)

  /** The little-endian bytes of an integer, as memcpy lays them out. */
  function Bytes(x: nat, n: nat): (b: seq<Byte>)
    ensures |b| == n
  {
    if n == 0 then [] else [x % 0x100] + Bytes(x / 0x100, n - 1)
  }

  function Key(tx: seq<Byte>, ip: U32, port: U16): seq<Byte>
    requires |tx| == 8
  {
    tx + Bytes(ip, 4) + Bytes(port, 2)
  }

  lemma {:induction false} BytesInjective(x: nat, y: nat, n: nat, bound: nat)
    requires x < bound && y < bound && Bytes(x, n) == Bytes(y, n)
    requires bound == Power256(n)
    ensures x == y
  {
    if n > 0 {
      assert Bytes(x, n)[0] == Bytes(y, n)[0] && Bytes(x, n)[1..] == Bytes(y, n)[1..];
      BytesInjective(x / 0x100, y / 0x100, n - 1, Power256(n - 1));
    }
  }

  function Power256(n: nat): nat {
    if n == 0 then 1 else 0x100 * Power256(n - 1)
  }

  /** Two requests have the same key only if all three parts are the same. */
  lemma {:induction false} KeyIdentifiesRequest(tx: seq<Byte>, ip: U32, port: U16, tx': seq<Byte>, ip': U32, port': U16)
    requires |tx| == |tx'| == 8 && Key(tx, ip, port) == Key(tx', ip', port')
    ensures tx == tx' && ip == ip' && port == port'
  {
    var k, k' := Key(tx, ip, port), Key(tx', ip', port');
    assert k[..8] == tx && k'[..8] == tx';
    assert k[8..12] == Bytes(ip, 4) && k'[8..12] == Bytes(ip', 4);
    assert k[12..] == Bytes(port, 2) && k'[12..] == Bytes(port', 2);
    assert Power256(2) == 0x1_0000 && Power256(4) == 0x1_0000 * Power256(2);
    BytesInjective(ip, ip', 4, Power256(4));
    BytesInjective(port, port', 2, Power256(2));
  }

  predicate Matches(e: Entry, key: seq<Byte>, now: int) {
    e.key == key && now - e.info.t <= MAX_AGE_US
  }

  /** `info` is that of a newest match among `entries`, or there is none. */
  predicate IsNewestMatch(entries: seq<Entry>, key: seq<Byte>, now: int, found: bool, info: HookInfo) {
    if found then
      && Entry(key, info) in entries && now - info.t <= MAX_AGE_US
      && forall e :: e in entries && Matches(e, key, now) ==> e.info.t <= info.t
    else
      forall e :: e in entries ==> !Matches(e, key, now)
  }

  /** Position `i` holds the first of the newest matches. */
  predicate FirstNewestAt(entries: seq<Entry>, key: seq<Byte>, now: int, i: int) {
    && 0 <= i < |entries| && Matches(entries[i], key, now)
    && forall j :: 0 <= j < |entries| && Matches(entries[j], key, now) ==>
      if j < i then entries[j].info.t < entries[i].info.t else entries[j].info.t <= entries[i].info.t
  }

  /** What the scan of the slots comes to, ties included. */
  ghost predicate IsFirstNewest(entries: seq<Entry>, key: seq<Byte>, now: int, found: bool, info: HookInfo) {
    if found then exists i :: FirstNewestAt(entries, key, now, i) && entries[i].info == info
    else forall i :: 0 <= i < |entries| ==> !Matches(entries[i], key, now)
  }

  lemma FirstNewestIsNewest(entries: seq<Entry>, key: seq<Byte>, now: int, found: bool, info: HookInfo)
    requires IsFirstNewest(entries, key, now, found, info)
    ensures IsNewestMatch(entries, key, now, found, info)
  {
    if found {
      var i :| FirstNewestAt(entries, key, now, i) && entries[i].info == info;
      assert entries[i] == Entry(key, info);
    }
  }

  /** One more slot scanned. */
  lemma ScanOneMore(entries: seq<Entry>, e: Entry, key: seq<Byte>, now: int, found: bool, info: HookInfo)
    requires IsFirstNewest(entries, key, now, found, info)
    ensures var take := Matches(e, key, now) && (!found || e.info.t > info.t);
      IsFirstNewest(entries + [e], key, now, found || take, if take then e.info else info)
  {
    var more := entries + [e];
    if Matches(e, key, now) && (!found || e.info.t > info.t) {
      assert FirstNewestAt(more, key, now, |entries|);
    } else if found {
      var i :| FirstNewestAt(entries, key, now, i) && entries[i].info == info;
      assert FirstNewestAt(more, key, now, i);
    }
  }

  /** What slot `i` holds after a history of records written round-robin. */
  function SlotAt(history: seq<Entry>, i: nat): Entry {
    if history == [] then UNUSED
    else if (|history| - 1) % SIZE == i then history[|history| - 1]
    else SlotAt(history[..|history| - 1], i)
  }

  function Slots(history: seq<Entry>): seq<Entry> {
    seq(SIZE, i requires 0 <= i < SIZE => SlotAt(history, i))
  }

  /** The last SIZE records of the history. */
  function Recent(history: seq<Entry>): seq<Entry> {
    history[Max(0, |history| - SIZE)..]
  }

  class HookRing {
    const ring: array<Entry>
    const seqs: array<U32>
    var next: nat
    ghost var history: seq<Entry>

    ghost predicate Valid()
      reads this, ring, seqs
    {
      && ring.Length == seqs.Length == SIZE
      && (forall i :: 0 <= i < SIZE ==> seqs[i] % 2 == 0)
      && next == |history| % SIZE
      && ring[..] == Slots(history)
    }

    constructor ()
      ensures Valid() && history == [] && fresh(ring) && fresh(seqs)
    {
      ring := new Entry[SIZE](i => UNUSED);
      seqs := new U32[SIZE](i => 0);
      next := 0;
      history := [];
      new;
      assert ring[..] == Slots([]);
    }

    /** Called from the driver task only: the oldest slot is overwritten. */
    method Record(tx: seq<Byte>, srcIp: U32, srcPort: U16, info: HookInfo)
      requires Valid() && |tx| == 8
      modifies this, ring, seqs
      ensures Valid() && history == old(history) + [Entry(Key(tx, srcIp, srcPort), info)]
    {
      var slot, e := next, Entry(Key(tx, srcIp, srcPort), info);
      next := (next + 1) % SIZE;
      var number: int := seqs[slot];
      TwoOnIsEven(number);
      SlotsStep(history, e);
      ghost var was := ring[..];
      seqs[slot] := Wrap(number + 1);
      ring[slot] := e;
      seqs[slot] := Wrap(number + 2);
      history := history + [e];
      assert ring[..] == was[slot := e];
    }

    /** Called from the reader task; here with no write in progress. */
    method Lookup(tx: seq<Byte>, srcIp: U32, srcPort: U16, now: int) returns (found: bool, info: HookInfo)
      requires Valid() && |tx| == 8
      ensures IsFirstNewest(Slots(history), Key(tx, srcIp, srcPort), now, found, info)
      ensures IsNewestMatch(Slots(history), Key(tx, srcIp, srcPort), now, found, info)
    {
      var key := Key(tx, srcIp, srcPort);
      found := false;
      info := NO_INFO;
      var i := 0;
      while i < SIZE
        invariant 0 <= i <= SIZE
        invariant IsFirstNewest(ring[..i], key, now, found, info)
      {
        var e, number := ring[i], seqs[i];
        assert ring[..i + 1] == ring[..i] + [e];
        ScanOneMore(ring[..i], e, key, now, found, info);
        if number % 2 == 0 && seqs[i] == number
           && e.key == key && now - e.info.t <= MAX_AGE_US && (!found || e.info.t > info.t) {
          found := true;
          info := e.info;
        }
        i := i + 1;
      }
      assert ring[..SIZE] == ring[..];
      FirstNewestIsNewest(ring[..], key, now, found, info);
    }
  }

  lemma TwoOnIsEven(number: int)
    requires number % 2 == 0
    ensures Wrap(number + 2) % 2 == 0
  {
  }

  lemma {:induction false} SlotsStep(history: seq<Entry>, e: Entry)
    ensures Slots(history + [e]) == Slots(history)[|history| % SIZE := e]
  {
    assert (history + [e])[..|history|] == history;
  }

  /** Each of the last SIZE records is in its slot. */
  lemma {:induction false} RecentRecordHasSlot(history: seq<Entry>, j: nat)
    requires |history| - SIZE <= j < |history|
    ensures SlotAt(history, j % SIZE) == history[j]
  {
    if j < |history| - 1 {
      DistinctResidues(j, |history| - 1);
      RecentRecordHasSlot(history[..|history| - 1], j);
    }
  }

  lemma DistinctResidues(a: int, b: int)
    requires 0 < b - a < SIZE
    ensures a % SIZE != b % SIZE
  {
  }

  lemma {:induction false} UnwrittenSlotIsUnused(history: seq<Entry>, i: nat)
    requires |history| <= i < SIZE
    ensures SlotAt(history, i) == UNUSED
  {
    if history != [] { UnwrittenSlotIsUnused(history[..|history| - 1], i); }
  }

  /** The record a written slot holds: the one of the last SIZE whose ordinal fits. */
  lemma ResidueInWindow(n: nat, i: nat) returns (j: nat)
    requires i < SIZE && i < n
    ensures n - SIZE <= j < n && j % SIZE == i
  {
    j := n - 1 - (n - 1 - i) % SIZE;
  }

  /** The only way an unused slot can be taken for a record. */
  predicate UnusedSlotMatches(history: seq<Entry>, key: seq<Byte>, now: int) {
    |history| < SIZE && key == ZERO_KEY && now <= MAX_AGE_US
  }

  /**
    The slots answer for the history: unless the key is all zero while a slot is still unused and
    the clock has not passed one second, a lookup finds exactly the newest of the last SIZE records
    with that key that are at most a second old.
   */
  lemma {:induction false} LookupIsNewestRecentRecord(
      history: seq<Entry>, key: seq<Byte>, now: int, found: bool, info: HookInfo)
    requires !UnusedSlotMatches(history, key, now)
    ensures IsNewestMatch(Slots(history), key, now, found, info) <==>
      IsNewestMatch(Recent(history), key, now, found, info)
  {
    forall e | Matches(e, key, now)
      ensures e in Slots(history) <==> e in Recent(history)
    {
      if e in Slots(history) { SlotIsRecent(history, e, key, now); }
      if e in Recent(history) { RecentIsSlot(history, e); }
    }
  }

  lemma {:induction false} SlotIsRecent(history: seq<Entry>, e: Entry, key: seq<Byte>, now: int)
    requires !UnusedSlotMatches(history, key, now) && Matches(e, key, now) && e in Slots(history)
    ensures e in Recent(history)
  {
    var i :| 0 <= i < SIZE && Slots(history)[i] == e;
    if |history| <= i {
      UnwrittenSlotIsUnused(history, i);
    } else {
      var j := ResidueInWindow(|history|, i);
      RecentRecordHasSlot(history, j);
      assert Recent(history)[j - Max(0, |history| - SIZE)] == e;
    }
  }

  lemma {:induction false} RecentIsSlot(history: seq<Entry>, e: Entry)
    requires e in Recent(history)
    ensures e in Slots(history)
  {
    var k :| 0 <= k < |Recent(history)| && Recent(history)[k] == e;
    var j := Max(0, |history| - SIZE) + k;
    RecentRecordHasSlot(history, j);
    assert Slots(history)[j % SIZE] == e;
  }

  /** In exactly that case an unused slot is taken for a record. */
  lemma {:induction false} UnusedSlotMatchesIff(history: seq<Entry>, key: seq<Byte>, now: int)
    ensures UnusedSlotMatches(history, key, now) <==>
      exists i :: |history| <= i < SIZE && Matches(Slots(history)[i], key, now)
  {
    forall i | |history| <= i < SIZE
      ensures Slots(history)[i] == UNUSED
    {
      UnwrittenSlotIsUnused(history, i);
    }
    if UnusedSlotMatches(history, key, now) {
      assert Matches(Slots(history)[SIZE - 1], key, now);
    }
  }

  /** The lookup's answer is one the history supports. */
  ghost predicate AnswersHistory(history: seq<Entry>, key: seq<Byte>, now: int) {
    forall found, info :: IsFirstNewest(Slots(history), key, now, found, info) ==>
      IsNewestMatch(Recent(history), key, now, found, info)
  }

  /** Some real record matches that hides the unused slots, whose stamp reads zero. */
  predicate RecordHidesUnused(history: seq<Entry>, key: seq<Byte>, now: int) {
    exists e :: e in Recent(history) && Matches(e, key, now) && e.info.t >= 0
  }

  /**
    The lookup's own condition: its answer is wrong exactly when an unused slot matches and no real
    record hides it.
   */
  lemma {:induction false} AnswersHistoryIff(history: seq<Entry>, key: seq<Byte>, now: int)
    ensures AnswersHistory(history, key, now) <==>
      !UnusedSlotMatches(history, key, now) || RecordHidesUnused(history, key, now)
  {
    if !UnusedSlotMatches(history, key, now) {
      forall found, info | IsFirstNewest(Slots(history), key, now, found, info)
        ensures IsNewestMatch(Recent(history), key, now, found, info)
      {
        FirstNewestIsNewest(Slots(history), key, now, found, info);
        LookupIsNewestRecentRecord(history, key, now, found, info);
      }
    } else {
      SlotsOfPartialRing(history);
      if RecordHidesUnused(history, key, now) {
        forall found, info | IsFirstNewest(Slots(history), key, now, found, info)
          ensures IsNewestMatch(history, key, now, found, info)
        {
          HiddenUnusedIsNotFound(history, Slots(history), key, now, found, info);
        }
      } else {
        assert FirstNewestAt(Slots(history), key, now, |history|);
        assert IsFirstNewest(Slots(history), key, now, true, NO_INFO);
      }
    }
  }

  lemma HiddenUnusedIsNotFound(
      history: seq<Entry>, slots: seq<Entry>, key: seq<Byte>, now: int, found: bool, info: HookInfo)
    requires |slots| == SIZE > |history|
    requires forall i :: 0 <= i < SIZE ==> slots[i] == if i < |history| then history[i] else UNUSED
    requires exists e :: e in history && Matches(e, key, now) && e.info.t >= 0
    requires IsFirstNewest(slots, key, now, found, info)
    ensures IsNewestMatch(history, key, now, found, info)
  {
    var e :| e in history && Matches(e, key, now) && e.info.t >= 0;
    var k :| 0 <= k < |history| && history[k] == e;
    assert Matches(slots[k], key, now);
    var i :| FirstNewestAt(slots, key, now, i) && slots[i].info == info;
    assert i < |history|;
    assert history[i] == Entry(key, info);
    forall d | d in history && Matches(d, key, now)
      ensures d.info.t <= info.t
    {
      var j :| 0 <= j < |history| && history[j] == d;
      assert slots[j] == d;
    }
  }

  /** Before the ring first wraps, the slots are the history followed by unused entries. */
  lemma {:induction false} SlotsOfPartialRing(history: seq<Entry>)
    requires |history| < SIZE
    ensures forall i :: 0 <= i < SIZE ==> Slots(history)[i] == if i < |history| then history[i] else UNUSED
    ensures Recent(history) == history
  {
    forall i | 0 <= i < SIZE
      ensures Slots(history)[i] == if i < |history| then history[i] else UNUSED
    {
      if i < |history| { RecentRecordHasSlot(history, i); } else { UnwrittenSlotIsUnused(history, i); }
    }
  }
}

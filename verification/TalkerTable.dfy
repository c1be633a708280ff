/**
  The fixed table of broadcast talkers, keyed on source address and EtherType.

  `TalkerTable` changes its 32 slots in place. `Noted` says what one frame does to the used slots,
  and the lemmas compare a whole run with the history of frames that produced it.
 */
module TalkerTable {
  import opened MachineInts

  const SIZE := 32

  datatype Key = Key(srcMac: seq<Byte>, etherType: U16)

  datatype Entry = Entry(used: bool, key: Key, firstDst: seq<Byte>, frames: U32, burst: U32, bytes: U32,
                         firstUs: U32, lastUs: U32)

  /** What the table is told about one frame. */
  datatype Frame = Frame(key: Key, dst: seq<Byte>, len: U32, nowUs: U32, burst: bool)

  const EMPTY := Entry(false, Key([], 0), [], 0, 0, 0, 0, 0)

  // ---- What one frame does ----

  function IndexOf(es: seq<Entry>, key: Key): (r: nat)
    ensures r <= |es| && (r < |es| ==> es[r].key == key)
    ensures forall j :: 0 <= j < r ==> es[j].key != key
  {
    if es == [] || es[0].key == key then 0 else 1 + IndexOf(es[1..], key)
  }

  predicate LessActive(a: Entry, b: Entry) {
    a.frames < b.frames || (a.frames == b.frames && a.lastUs < b.lastUs)
  }

  /** The slot eviction takes: the first of the least active ones. */
  function Victim(es: seq<Entry>): (v: nat)
    requires es != []
    ensures v < |es|
    ensures forall j :: 0 <= j < |es| ==> !LessActive(es[j], es[v])
    ensures forall j :: 0 <= j < v ==> LessActive(es[v], es[j])
  {
    var n := |es| - 1;
    if n == 0 then 0
    else
      var v := Victim(es[..n]);
      if LessActive(es[n], es[v]) then n else v
  }

  function Opened(f: Frame): Entry {
    Entry(true, f.key, f.dst, 0, 0, 0, f.nowUs, f.nowUs)
  }

  function Bumped(e: Entry, f: Frame): Entry {
    e.(frames := Wrap(e.frames + 1), burst := Wrap(e.burst + if f.burst then 1 else 0),
       bytes := Wrap(e.bytes + f.len), lastUs := f.nowUs)
  }

  /** The used slots once room has been made for a new key. */
  function RoomMade(es: seq<Entry>, f: Frame): seq<Entry> {
    if |es| < SIZE then es + [Opened(f)] else es[Victim(es) := Opened(f)]
  }

  function SlotFor(es: seq<Entry>, f: Frame): nat {
    var k := IndexOf(es, f.key);
    if k < |es| || |es| < SIZE then k else Victim(es)
  }

  function Noted(es: seq<Entry>, f: Frame): seq<Entry> {
    var room := if IndexOf(es, f.key) < |es| then es else RoomMade(es, f);
    var k := SlotFor(es, f);
    room[k := Bumped(room[k], f)]
  }

  // ---- The table in place ----

  /** The used slots are exactly a prefix of the table, and that prefix is `es`. */
  ghost predicate Represents(slots: seq<Entry>, es: seq<Entry>) {
    && |es| <= |slots| == SIZE
    && (forall i :: 0 <= i < |es| ==> slots[i] == es[i] && es[i].used)
    && (forall i :: |es| <= i < |slots| ==> !slots[i].used)
  }

  class TalkerTable {
    const entries: array<Entry>
    ghost var contents: seq<Entry>

    ghost predicate Valid()
      reads this, entries
    {
      Represents(entries[..], contents)
    }

    constructor ()
      ensures Valid() && contents == [] && fresh(entries)
    {
      entries := new Entry[SIZE](i => EMPTY);
      contents := [];
    }

    method Find(key: Key) returns (idx: int)
      requires Valid()
      ensures idx == if IndexOf(contents, key) < |contents| then IndexOf(contents, key) else -1
    {
      for i := 0 to SIZE
        invariant forall j :: 0 <= j < i ==> !(entries[j].used && entries[j].key == key)
      {
        if entries[i].used && entries[i].key == key {
          assert i < |contents|;
          return i;
        }
      }
      assert forall j :: 0 <= j < |contents| ==> entries[j] == contents[j];
      return -1;
    }

    /** A free slot, or the least active one evicted; opened for the frame's key. */
    method MakeRoom(f: Frame) returns (idx: nat)
      requires Valid() && IndexOf(contents, f.key) == |contents|
      modifies this, entries
      ensures Valid() && contents == RoomMade(old(contents), f) && idx == SlotFor(old(contents), f)
    {
      var free := -1;
      var i := 0;
      while i < SIZE && free < 0
        invariant 0 <= i <= SIZE
        invariant if free < 0 then i <= |contents| else free == |contents| < SIZE
      {
        if !entries[i].used {
          free := i;
        }
        i := i + 1;
      }
      if free < 0 {
        assert |contents| == SIZE;
        idx := 0;
        for k := 1 to SIZE
          invariant 0 <= idx < k
          invariant forall j :: 0 <= j < k ==> !LessActive(entries[j], entries[idx])
          invariant forall j :: 0 <= j < idx ==> LessActive(entries[idx], entries[j])
        {
          if entries[k].frames < entries[idx].frames
             || (entries[k].frames == entries[idx].frames && entries[k].lastUs < entries[idx].lastUs) {
            idx := k;
          }
        }
        VictimIsUnique(contents, idx);
        contents := contents[idx := Opened(f)];
      } else {
        idx := free;
        contents := contents + [Opened(f)];
      }
      entries[idx] := Opened(f);
    }

    method Note(f: Frame)
      requires Valid()
      modifies this, entries
      ensures Valid() && contents == Noted(old(contents), f)
    {
      var found := Find(f.key);
      var idx: nat;
      if found < 0 {
        idx := MakeRoom(f);
      } else {
        idx := found;
      }
      var e := entries[idx];
      e := e.(frames := Wrap(e.frames + 1));
      if f.burst {
        e := e.(burst := Wrap(e.burst + 1));
      }
      e := e.(bytes := Wrap(e.bytes + f.len));
      e := e.(lastUs := f.nowUs);
      assert e == Bumped(contents[idx], f);
      entries[idx] := e;
      contents := contents[idx := e];
    }

    method Clear()
      requires Valid()
      modifies this, entries
      ensures Valid() && contents == []
    {
      for i := 0 to SIZE
        modifies entries
        invariant forall j :: 0 <= j < i ==> entries[j] == EMPTY
      {
        entries[i] := EMPTY;
      }
      contents := [];
    }

    /** Entry `i` exactly when there is one, in slot order. */
    method Get(i: int) returns (ok: bool, e: Entry)
      requires Valid()
      ensures ok <==> 0 <= i < |contents|
      ensures ok ==> e == contents[i]
    {
      if i < 0 || i >= SIZE || !entries[i].used {
        return false, EMPTY;
      }
      return true, entries[i];
    }
  }

  /** The first least active slot is one slot. */
  lemma VictimIsUnique(es: seq<Entry>, v: nat)
    requires v < |es|
    requires forall j :: 0 <= j < |es| ==> !LessActive(es[j], es[v])
    requires forall j :: 0 <= j < v ==> LessActive(es[v], es[j])
    ensures v == Victim(es)
  {
    var w := Victim(es);
    assert !LessActive(es[w], es[v]) && !LessActive(es[v], es[w]);
  }

  // ---- The table against its history ----

  /** The used slots after a run of frames since the last clear. */
  function Run(h: seq<Frame>): seq<Entry> {
    if h == [] then [] else Noted(Run(h[..|h| - 1]), h[|h| - 1])
  }

  predicate Has(es: seq<Entry>, key: Key) {
    exists i :: 0 <= i < |es| && es[i].key == key
  }

  predicate DistinctKeys(es: seq<Entry>) {
    forall i, j :: 0 <= i < j < |es| ==> es[i].key != es[j].key
  }

  /** The frame at which a key now in the table was last inserted: it has been there ever since. */
  function Since(h: seq<Frame>, key: Key): (r: nat)
    requires Has(Run(h), key)
    ensures r < |h|
  {
    var n := |h| - 1;
    if Has(Run(h[..n]), key) then Since(h[..n], key) else n
  }

  function FramesOf(h: seq<Frame>, key: Key): nat {
    if h == [] then 0
    else FramesOf(h[..|h| - 1], key) + if h[|h| - 1].key == key then 1 else 0
  }

  function BurstsOf(h: seq<Frame>, key: Key): nat {
    if h == [] then 0
    else BurstsOf(h[..|h| - 1], key) + if h[|h| - 1].key == key && h[|h| - 1].burst then 1 else 0
  }

  function BytesOf(h: seq<Frame>, key: Key): nat {
    if h == [] then 0
    else BytesOf(h[..|h| - 1], key) + if h[|h| - 1].key == key then h[|h| - 1].len else 0
  }

  /** The time of the latest frame with the key. */
  function LastOf(h: seq<Frame>, key: Key): U32 {
    if h == [] then 0
    else if h[|h| - 1].key == key then h[|h| - 1].nowUs
    else LastOf(h[..|h| - 1], key)
  }

  /** An entry's counters are the totals, modulo 2^32, of the frames with its key since it was inserted. */
  predicate Sums(e: Entry, h: seq<Frame>, since: nat) {
    && since < |h| && h[since].key == e.key
    && e.firstDst == h[since].dst && e.firstUs == h[since].nowUs
    && var tail := h[since..];
      e.frames == Wrap(FramesOf(tail, e.key)) && e.burst == Wrap(BurstsOf(tail, e.key))
      && e.bytes == Wrap(BytesOf(tail, e.key)) && e.lastUs == LastOf(tail, e.key)
  }

  /** What one frame does, slot by slot: its own slot is bumped or opened, every other is untouched. */
  lemma NotedAt(es: seq<Entry>, f: Frame, i: nat)
    requires |es| <= SIZE && i < |Noted(es, f)|
    ensures |es| <= |Noted(es, f)| <= SIZE
    ensures |Noted(es, f)| > |es| ==> !Has(es, f.key)
    ensures i != SlotFor(es, f) ==> i < |es| && Noted(es, f)[i] == es[i]
    ensures i == SlotFor(es, f) ==> Noted(es, f)[i].key == f.key
    ensures i == SlotFor(es, f) && Has(es, f.key) ==>
      i < |es| && es[i].key == f.key && Noted(es, f)[i] == Bumped(es[i], f)
    ensures i == SlotFor(es, f) && !Has(es, f.key) ==> Noted(es, f)[i] == Bumped(Opened(f), f)
  {
    var k := IndexOf(es, f.key);
    if k < |es| {
      assert Has(es, f.key);
    } else {
      assert !Has(es, f.key);
    }
  }

  /** A slot other than the frame's own holds another key. */
  lemma OtherSlotsDiffer(es: seq<Entry>, f: Frame, i: nat)
    requires DistinctKeys(es) && i < |es| && i != SlotFor(es, f)
    ensures es[i].key != f.key
  {
  }

  lemma NotedKeepsDistinct(es: seq<Entry>, f: Frame)
    requires |es| <= SIZE && DistinctKeys(es)
    ensures |Noted(es, f)| <= SIZE && DistinctKeys(Noted(es, f))
  {
    var after, k := Noted(es, f), SlotFor(es, f);
    assert after != [];
    NotedAt(es, f, 0);
    forall i, j | 0 <= i < j < |after|
      ensures after[i].key != after[j].key
    {
      NotedAt(es, f, i);
      NotedAt(es, f, j);
      if i != k { OtherSlotsDiffer(es, f, i); }
      if j != k { OtherSlotsDiffer(es, f, j); }
    }
  }

  /** Keys stay distinct and the table never overflows. */
  lemma {:induction false} KeysStayDistinct(h: seq<Frame>)
    ensures |Run(h)| <= SIZE && DistinctKeys(Run(h))
  {
    if h != [] {
      KeysStayDistinct(h[..|h| - 1]);
      NotedKeepsDistinct(Run(h[..|h| - 1]), h[|h| - 1]);
    }
  }

  /** One more frame adds itself to the sums of its own key and leaves those of the others. */
  lemma {:induction false} SumsExtend(e: Entry, h: seq<Frame>, f: Frame, since: nat)
    requires Sums(e, h, since)
    ensures Sums(if f.key == e.key then Bumped(e, f) else e, h + [f], since)
  {
    var tail := h[since..];
    assert (h + [f])[since..] == tail + [f];
    assert (tail + [f])[..|tail|] == tail;
    AddWrapped(FramesOf(tail, e.key), 1);
    AddWrapped(BurstsOf(tail, e.key), if f.burst then 1 else 0);
    AddWrapped(BytesOf(tail, e.key), f.len);
  }

  lemma {:induction false} SumsStart(h: seq<Frame>, f: Frame)
    ensures Sums(Bumped(Opened(f), f), h + [f], |h|)
  {
    var tail := [f];
    assert (h + [f])[|h|..] == tail;
    assert tail[..0] == [];
    assert FramesOf(tail, f.key) == 1;
    assert BurstsOf(tail, f.key) == if f.burst then 1 else 0;
    assert BytesOf(tail, f.key) == f.len;
  }

  /**
    Every entry of every reachable table holds exactly what the frames with its key did since the
    key was inserted.
   */
  lemma {:induction false} EntriesAreHistorySums(h: seq<Frame>, i: nat)
    requires i < |Run(h)|
    ensures Has(Run(h), Run(h)[i].key) && Sums(Run(h)[i], h, Since(h, Run(h)[i].key))
  {
    var n := |h| - 1;
    var before, f := h[..n], h[n];
    var es, e := Run(before), Run(h)[i];
    assert h == before + [f];
    KeysStayDistinct(before);
    NotedAt(es, f, i);
    assert Has(Run(h), e.key);
    if i != SlotFor(es, f) {
      OtherSlotsDiffer(es, f, i);
      EntriesAreHistorySums(before, i);
      SumsExtend(es[i], before, f, Since(before, e.key));
    } else if Has(es, f.key) {
      EntriesAreHistorySums(before, i);
      SumsExtend(es[i], before, f, Since(before, e.key));
    } else {
      SumsStart(before, f);
    }
  }

  // ---- Exact while few keys were seen ----

  function KeysOf(h: seq<Frame>): set<Key> {
    set i | 0 <= i < |h| :: h[i].key
  }

  function KeysIn(es: seq<Entry>): set<Key> {
    set i | 0 <= i < |es| :: es[i].key
  }

  lemma {:induction false} DistinctKeysCount(es: seq<Entry>)
    requires DistinctKeys(es)
    ensures |KeysIn(es)| == |es|
  {
    if es != [] {
      var n := |es| - 1;
      DistinctKeysCount(es[..n]);
      assert KeysIn(es) == KeysIn(es[..n]) + {es[n].key};
    }
  }

  lemma SubsetCount(a: set<Key>, b: set<Key>)
    requires a <= b
    ensures |a| <= |b| && (|a| == |b| ==> a == b)
  {
    assert b == a + (b - a);
  }

  /** While at most 32 distinct keys have been seen, the table holds every one of them. */
  lemma {:induction false} NoKeyIsLost(h: seq<Frame>)
    requires |KeysOf(h)| <= SIZE
    ensures KeysIn(Run(h)) == KeysOf(h)
  {
    if h != [] {
      var n := |h| - 1;
      var before, f := h[..n], h[n];
      var es := Run(before);
      assert KeysOf(h) == KeysOf(before) + {f.key};
      SubsetCount(KeysOf(before), KeysOf(h));
      NoKeyIsLost(before);
      KeysStayDistinct(before);
      DistinctKeysCount(es);
      if f.key !in KeysIn(es) {
        SubsetCount(KeysIn(es) + {f.key}, KeysOf(h));
      }
      RoomKeepsKeys(es, f);
    }
  }

  /** A frame adds its key and, unless it is new to a full table, removes none. */
  lemma RoomKeepsKeys(es: seq<Entry>, f: Frame)
    requires |es| < SIZE || f.key in KeysIn(es)
    ensures KeysIn(Noted(es, f)) == KeysIn(es) + {f.key}
  {
    var after, k := Noted(es, f), SlotFor(es, f);
    assert after[k].key == f.key;
    assert forall i :: 0 <= i < |es| ==> after[i].key == es[i].key;
    assert |after| <= |es| + 1 && (|after| > |es| ==> k == |es|);
  }

  /** So every key seen has an entry, and its counters are the totals over the whole history. */
  lemma {:induction false} ExactWhileFewKeys(h: seq<Frame>, key: Key) returns (i: nat)
    requires |KeysOf(h)| <= SIZE && key in KeysOf(h)
    ensures i < |Run(h)| && Run(h)[i].key == key
    ensures Run(h)[i].frames == Wrap(FramesOf(h, key)) && Run(h)[i].burst == Wrap(BurstsOf(h, key))
    ensures Run(h)[i].bytes == Wrap(BytesOf(h, key)) && Run(h)[i].lastUs == LastOf(h, key)
  {
    NoKeyIsLost(h);
    i :| 0 <= i < |Run(h)| && Run(h)[i].key == key;
    EntriesAreHistorySums(h, i);
    SinceIsFirst(h, key);
    DropSilentHead(h, Since(h, key), key);
  }

  /** While no key is lost, a key's insertion is its first frame. */
  lemma {:induction false} SinceIsFirst(h: seq<Frame>, key: Key)
    requires |KeysOf(h)| <= SIZE && Has(Run(h), key)
    ensures key !in KeysOf(h[..Since(h, key)])
  {
    var n := |h| - 1;
    var before := h[..n];
    assert KeysOf(before) <= KeysOf(h);
    SubsetCount(KeysOf(before), KeysOf(h));
    if Has(Run(before), key) {
      SinceIsFirst(before, key);
      assert h[..Since(h, key)] == before[..Since(before, key)];
    } else {
      NoKeyIsLost(before);
      assert key !in KeysIn(Run(before));
    }
  }

  /** Frames before the key's first one add nothing to its totals. */
  lemma {:induction false} DropSilentHead(h: seq<Frame>, from: nat, key: Key)
    requires from <= |h| && key !in KeysOf(h[..from])
    ensures FramesOf(h, key) == FramesOf(h[from..], key) && BurstsOf(h, key) == BurstsOf(h[from..], key)
    ensures BytesOf(h, key) == BytesOf(h[from..], key) && LastOf(h, key) == LastOf(h[from..], key)
  {
    if h != [] {
      var n := |h| - 1;
      if from == |h| {
        assert h[n] == h[..from][n];
        assert h[..n][..n] == h[..n];
        assert KeysOf(h[..n]) <= KeysOf(h[..from]);
        DropSilentHead(h[..n], n, key);
        assert h[..n][n..] == [] && h[from..] == [];
      } else {
        assert h[..n][..from] == h[..from];
        DropSilentHead(h[..n], from, key);
        assert h[from..][..n - from] == h[..n][from..];
      }
    }
  }

  // ---- Eviction and slot order ----

  /**
    A frame with a new key on a full table removes one entry, one with the fewest frames and, among
    those, the oldest; no other entry changes.
   */
  lemma {:induction false} EvictionTakesLeastActive(h: seq<Frame>, f: Frame) returns (v: nat)
    requires |Run(h)| == SIZE && !Has(Run(h), f.key)
    ensures v < SIZE && Run(h + [f]) == Run(h)[v := Bumped(Opened(f), f)]
    ensures forall j :: 0 <= j < SIZE && j != v ==>
      || Run(h)[v].frames < Run(h)[j].frames
      || (Run(h)[v].frames == Run(h)[j].frames && Run(h)[v].lastUs <= Run(h)[j].lastUs)
    ensures forall j :: 0 <= j < v ==>
      Run(h)[v].frames < Run(h)[j].frames || Run(h)[v].lastUs < Run(h)[j].lastUs
    ensures KeysIn(Run(h + [f])) == KeysIn(Run(h)) - {Run(h)[v].key} + {f.key}
  {
    assert (h + [f])[..|h|] == h;
    v := Victim(Run(h));
    KeysStayDistinct(h);
    EvictingNote(Run(h), f);
    ReplacedKeys(Run(h), v, Bumped(Opened(f), f));
  }

  /** The same in what the history says: nobody in the table has fewer frames since its insertion. */
  lemma {:induction false} EvictedHasFewestFrames(h: seq<Frame>, f: Frame, j: nat) returns (gone: Key)
    requires |Run(h)| == SIZE && !Has(Run(h), f.key) && j < SIZE
    ensures Has(Run(h), gone) && !Has(Run(h + [f]), gone) && Has(Run(h), Run(h)[j].key)
    ensures var other := Run(h)[j].key;
      && Wrap(FramesOf(h[Since(h, gone)..], gone)) <= Wrap(FramesOf(h[Since(h, other)..], other))
      && (Wrap(FramesOf(h[Since(h, gone)..], gone)) == Wrap(FramesOf(h[Since(h, other)..], other)) ==>
            LastOf(h[Since(h, gone)..], gone) <= LastOf(h[Since(h, other)..], other))
  {
    var v := EvictionTakesLeastActive(h, f);
    gone := Run(h)[v].key;
    assert Has(Run(h), Run(h)[j].key);
    EntriesAreHistorySums(h, v);
    EntriesAreHistorySums(h, j);
    assert gone in KeysIn(Run(h)) && gone != f.key;
    HasIsInKeys(Run(h + [f]), gone);
  }

  lemma HasIsInKeys(es: seq<Entry>, key: Key)
    ensures Has(es, key) <==> key in KeysIn(es)
  {
  }

  lemma EvictingNote(es: seq<Entry>, f: Frame)
    requires |es| == SIZE && !Has(es, f.key)
    ensures Noted(es, f) == es[Victim(es) := Bumped(Opened(f), f)]
  {
    assert IndexOf(es, f.key) == |es|;
  }

  lemma ReplacedKeys(es: seq<Entry>, v: nat, e: Entry)
    requires v < |es| && DistinctKeys(es)
    ensures KeysIn(es[v := e]) == KeysIn(es) - {es[v].key} + {e.key}
  {
    var after := es[v := e];
    assert after[v].key == e.key;
    assert forall i :: 0 <= i < |es| && i != v ==> after[i] == es[i] && es[i].key != es[v].key;
  }

  /** Slot order is insertion order. */
  ghost predicate InsertionOrder(h: seq<Frame>) {
    var es := Run(h);
    && (forall i :: 0 <= i < |es| ==> Has(es, es[i].key))
    && forall i, j :: 0 <= i < j < |es| ==> Since(h, es[i].key) < Since(h, es[j].key)
  }

  /** The frame evicts an entry that is not in the last slot. */
  predicate EvictsEarlier(es: seq<Entry>, f: Frame) {
    |es| == SIZE && IndexOf(es, f.key) == |es| && Victim(es) < SIZE - 1
  }

  /** A key in the table before and after a frame keeps its insertion. */
  lemma {:induction false} SinceStep(h: seq<Frame>, f: Frame, i: nat)
    requires i < |Run(h + [f])|
    ensures var e := Run(h + [f])[i];
      && Has(Run(h + [f]), e.key)
      && Since(h + [f], e.key) == (if Has(Run(h), e.key) then Since(h, e.key) else |h|)
      && (Has(Run(h), e.key) ==> i < |Run(h)| && Run(h)[i].key == e.key)
      && (!Has(Run(h), e.key) ==> i == SlotFor(Run(h), f))
  {
    assert (h + [f])[..|h|] == h;
    var es, e := Run(h), Run(h + [f])[i];
    KeysStayDistinct(h);
    NotedAt(es, f, i);
    assert Has(Run(h + [f]), e.key);
    if i != SlotFor(es, f) {
      assert Has(es, e.key);
    }
  }

  lemma {:induction false} OrderedPair(h: seq<Frame>, f: Frame, i: nat, j: nat)
    requires InsertionOrder(h) && !EvictsEarlier(Run(h), f) && i < j < |Run(h + [f])|
    ensures Has(Run(h + [f]), Run(h + [f])[i].key) && Has(Run(h + [f]), Run(h + [f])[j].key)
    ensures Since(h + [f], Run(h + [f])[i].key) < Since(h + [f], Run(h + [f])[j].key)
  {
    assert (h + [f])[..|h|] == h;
    KeysStayDistinct(h);
    SinceStep(h, f, i);
    SinceStep(h, f, j);
    NotedAt(Run(h), f, i);
    assert Has(Run(h), Run(h + [f])[i].key);
  }

  lemma {:induction false} BrokenPair(h: seq<Frame>, f: Frame)
    requires EvictsEarlier(Run(h), f)
    ensures !InsertionOrder(h + [f])
  {
    var es, after := Run(h), Run(h + [f]);
    var v, last := Victim(es), SIZE - 1;
    assert (h + [f])[..|h|] == h;
    KeysStayDistinct(h);
    NotedAt(es, f, v);
    NotedAt(es, f, last);
    SinceStep(h, f, v);
    SinceStep(h, f, last);
    assert Has(es, es[last].key);
  }

  /**
    `get` promises insertion order. A frame keeps that order exactly when it does not evict from a
    slot before the last: the newcomer then takes the freed slot, ahead of older entries.
   */
  lemma {:induction false} OrderKeptIff(h: seq<Frame>, f: Frame)
    requires InsertionOrder(h)
    ensures InsertionOrder(h + [f]) <==> !EvictsEarlier(Run(h), f)
  {
    if EvictsEarlier(Run(h), f) {
      BrokenPair(h, f);
    } else {
      var after := Run(h + [f]);
      forall i, j | 0 <= i < j < |after|
        ensures Has(after, after[i].key) && Has(after, after[j].key)
        ensures Since(h + [f], after[i].key) < Since(h + [f], after[j].key)
      {
        OrderedPair(h, f, i, j);
      }
    }
  }

  // ---- An eviction that breaks the order ----

  /** Frame number `i` of a history of distinct keys. */
  function Nth(i: nat): Frame
    requires i <= SIZE
  {
    Frame(Key([], i), [], 0, i, false)
  }

  function Distinct(n: nat): (h: seq<Frame>)
    requires n <= SIZE
    ensures |h| == n
  {
    if n == 0 then [] else Distinct(n - 1) + [Nth(n - 1)]
  }

  /** The entry it opens. */
  function NthEntry(i: nat): Entry
    requires i <= SIZE
  {
    Entry(true, Key([], i), [], 1, 0, 0, i, i)
  }

  function Filled(n: nat): (es: seq<Entry>)
    requires n <= SIZE
    ensures |es| == n
  {
    seq(n, i requires 0 <= i < n => NthEntry(i))
  }

  /** A new key on a table that is not full goes behind the others. */
  lemma NewKeyIsAppended(n: nat)
    requires n < SIZE
    ensures Noted(Filled(n), Nth(n)) == Filled(n + 1)
    ensures !EvictsEarlier(Filled(n), Nth(n))
  {
    var es, f := Filled(n), Nth(n);
    assert IndexOf(es, f.key) == n;
    assert Bumped(Opened(f), f) == NthEntry(n);
    assert Filled(n + 1) == es + [NthEntry(n)];
  }

  lemma {:induction false} RunOneMore(h: seq<Frame>, f: Frame)
    ensures Run(h + [f]) == Noted(Run(h), f)
  {
    assert (h + [f])[..|h|] == h;
  }

  lemma {:induction false} DistinctRun(n: nat)
    requires n <= SIZE
    ensures Run(Distinct(n)) == Filled(n)
  {
    if n == 0 {
      assert Run([]) == [];
    } else {
      DistinctRun(n - 1);
      NewKeyIsAppended(n - 1);
      RunOneMore(Distinct(n - 1), Nth(n - 1));
    }
  }

  lemma FilledHas(n: nat, i: nat)
    requires n <= SIZE && i <= SIZE
    ensures Has(Filled(n), Nth(i).key) <==> i < n
    ensures i < n ==> Filled(n)[i].key == Nth(i).key
  {
    if i < n { assert Filled(n)[i].key == Nth(i).key; }
  }

  /** The insertion of the `i`th key is the `i`th frame. */
  lemma {:induction false} DistinctSince(n: nat, i: nat)
    requires i < n <= SIZE
    ensures Has(Run(Distinct(n)), Nth(i).key) && Since(Distinct(n), Nth(i).key) == i
  {
    var h, f := Distinct(n - 1), Nth(n - 1);
    assert Distinct(n) == h + [f];
    DistinctRun(n);
    DistinctRun(n - 1);
    FilledHas(n, i);
    FilledHas(n - 1, i);
    SinceStep(h, f, i);
    if i < n - 1 { DistinctSince(n - 1, i); }
  }

  /** Up to 32 distinct keys fill the table in order. */
  lemma {:induction false} DistinctKeysFill(n: nat)
    requires n <= SIZE
    ensures InsertionOrder(Distinct(n))
  {
    DistinctRun(n);
    forall i | 0 <= i < n
      ensures Filled(n)[i].key == Nth(i).key && Has(Filled(n), Nth(i).key) && Since(Distinct(n), Nth(i).key) == i
    {
      DistinctSince(n, i);
    }
  }

  /** The 33rd key after 32 distinct ones takes slot 0, and the order is broken. */
  lemma {:induction false} ThirtyThirdKeyBreaksOrder()
    ensures InsertionOrder(Distinct(SIZE)) && EvictsEarlier(Run(Distinct(SIZE)), Nth(SIZE))
    ensures !InsertionOrder(Distinct(SIZE) + [Nth(SIZE)])
  {
    DistinctKeysFill(SIZE);
    DistinctRun(SIZE);
    FullTableEvictsFirst();
    BrokenPair(Distinct(SIZE), Nth(SIZE));
  }

  lemma FullTableEvictsFirst()
    ensures EvictsEarlier(Filled(SIZE), Nth(SIZE))
  {
    var es := Filled(SIZE);
    assert IndexOf(es, Nth(SIZE).key) == SIZE;
    assert LessActive(es[0], es[SIZE - 1]);
  }
}

/**
  The network activity recorder: a ring of 1200 bins of 100 ms each.

  `NetRecorder` rolls the ring in place. `Rolled` says what one reading of the clock does to the
  list of bins in use, oldest first, and the lemmas compare a whole run with the traffic it saw.

  Times are true, unbounded instants; the recorder only ever sees their 32-bit images.
 */
module NetBins {
  import opened MachineInts

  const BIN_US := 100000
  const BINS := 1200
  const SPAN_US := BIN_US * BINS
  const U16_MAX: U16 := 0xFFFF

  datatype FrameClass = Api | Http | Ntp | Mdns | Arp | Tcp | Udp | Ipv6 | Other

  /** Per-class counters; a class without an entry counts zero. */
  type Counts = map<FrameClass, U16>

  datatype Traffic = Traffic(tx: Counts, rx: Counts, txBytes: U32, rxBytes: U32, lockWaitMax: U32, crRetried: U16)

  const SILENCE := Traffic(map[], map[], 0, 0, 0, 0)

  /** What the recorder is told. */
  datatype What =
    | Sent(cls: FrameClass, len: U32)
    | Received(cls: FrameClass, len: U32)
    | LockWait(waitUs: U32)
    | CrRetry

  datatype Event = Event(t: int, what: What)

  /** A bin with its true start. The ring stores `Wrap(start)`. */
  datatype Bin = Bin(start: int, traffic: Traffic)

  datatype StoredBin = StoredBin(startUs: U32, traffic: Traffic)

  // ---- What one call does ----

  function Count(c: Counts, cls: FrameClass): U16 {
    if cls in c then c[cls] else 0
  }

  function CountUp(c: Counts, cls: FrameClass): Counts {
    if Count(c, cls) < U16_MAX then c[cls := Count(c, cls) + 1] else c
  }

  function Recorded(b: Traffic, w: What): Traffic {
    match w
    case Sent(cls, len) => b.(tx := CountUp(b.tx, cls), txBytes := Wrap(b.txBytes + len))
    case Received(cls, len) => b.(rx := CountUp(b.rx, cls), rxBytes := Wrap(b.rxBytes + len))
    case LockWait(waitUs) => b.(lockWaitMax := Max(b.lockWaitMax, waitUs))
    case CrRetry => b.(crRetried := Min(b.crRetried + 1, U16_MAX))
  }

  function Last(bins: seq<Bin>): Bin
    requires bins != []
  {
    bins[|bins| - 1]
  }

  /** The reading's distance past the current bin's start, as the 32-bit subtraction gives it. */
  function Past(bins: seq<Bin>, now: int): U32
    requires bins != []
  {
    Sub32(Wrap(now), Wrap(Last(bins).start))
  }

  function Fresh(start: int): Bin {
    Bin(start, SILENCE)
  }

  /** The next bin is opened, and the oldest one given up when the ring is full. */
  function Opened(bins: seq<Bin>): (r: seq<Bin>)
    requires bins != []
    ensures r != [] && Last(r) == Fresh(Last(bins).start + BIN_US)
  {
    var more := bins + [Fresh(Last(bins).start + BIN_US)];
    if |bins| < BINS then more else more[1..]
  }

  function Advanced(bins: seq<Bin>, n: nat): (r: seq<Bin>)
    requires bins != []
    ensures r != [] && Last(r).start == Last(bins).start + n * BIN_US
  {
    if n == 0 then bins else Opened(Advanced(bins, n - 1))
  }

  /** The current bin's start reads as "never used", or lies a whole ring span or more back. */
  predicate StartsAfresh(bins: seq<Bin>, now: int) {
    bins == [] || Wrap(Last(bins).start) == 0 || Past(bins, now) >= SPAN_US
  }

  /** `net_bin_now`: the bins in use, oldest first, once the ring was rolled up to `now`. */
  function Rolled(bins: seq<Bin>, now: int): (r: seq<Bin>)
    ensures r != []
  {
    if StartsAfresh(bins, now) then [Fresh(now)] else Advanced(bins, Past(bins, now) / BIN_US)
  }

  function Noted(bins: seq<Bin>, e: Event): (r: seq<Bin>)
    ensures r != []
  {
    var rolled := Rolled(bins, e.t);
    rolled[|rolled| - 1 := Last(rolled).(traffic := Recorded(Last(rolled).traffic, e.what))]
  }

  // ---- The ring in place ----

  /** The slot `back` places before `cur`. */
  function SlotBack(cur: nat, back: nat): (r: int)
    requires cur < BINS && back < BINS
    ensures 0 <= r < BINS
  {
    if back <= cur then cur - back else cur - back + BINS
  }

  /** The ring holds `bins`, newest at `cur`, and every other slot is unused. */
  ghost predicate Represents(ring: seq<StoredBin>, cur: nat, bins: seq<Bin>) {
    && |ring| == BINS && cur < BINS && |bins| <= BINS
    && forall back :: 0 <= back < BINS ==>
      ring[SlotBack(cur, back)] ==
        if back < |bins| then StoredBin(Wrap(bins[|bins| - 1 - back].start), bins[|bins| - 1 - back].traffic)
        else StoredBin(0, SILENCE)
  }

  lemma OpenedIsRepresented(ring: seq<StoredBin>, cur: nat, bins: seq<Bin>, start: U32)
    requires Represents(ring, cur, bins) && bins != []
    requires start == Wrap(Last(bins).start + BIN_US)
    ensures Represents(ring[(cur + 1) % BINS := StoredBin(start, SILENCE)], (cur + 1) % BINS, Opened(bins))
  {
    var next, more := (cur + 1) % BINS, Opened(bins);
    var after := ring[next := StoredBin(start, SILENCE)];
    forall back | 0 <= back < BINS
      ensures after[SlotBack(next, back)] ==
        if back < |more| then StoredBin(Wrap(more[|more| - 1 - back].start), more[|more| - 1 - back].traffic)
        else StoredBin(0, SILENCE)
    {
      if back > 0 {
        assert SlotBack(next, back) == SlotBack(cur, back - 1) != next;
        assert after[SlotBack(next, back)] == ring[SlotBack(cur, back - 1)];
        if back < |more| {
          assert more[|more| - 1 - back] == bins[|bins| - 1 - (back - 1)];
        }
      }
    }
  }

  lemma NewestIsRepresented(ring: seq<StoredBin>, cur: nat, bins: seq<Bin>, traffic: Traffic)
    requires Represents(ring, cur, bins) && bins != []
    ensures ring[cur] == StoredBin(Wrap(Last(bins).start), Last(bins).traffic)
    ensures Represents(ring[cur := ring[cur].(traffic := traffic)], cur,
                       bins[|bins| - 1 := Last(bins).(traffic := traffic)])
  {
    assert SlotBack(cur, 0) == cur;
  }

  /** Stepping both readings: `curStart` moves on by one bin, the distance past it shrinks by one bin. */
  lemma PastShrinks(nowUs: U32, curStart: U32)
    requires Sub32(nowUs, curStart) >= BIN_US
    ensures Sub32(nowUs, Wrap(curStart + BIN_US)) == Sub32(nowUs, curStart) - BIN_US
  {
  }

  class NetRecorder {
    const ring: array<StoredBin>
    var cur: nat
    var curStart: U32
    ghost var bins: seq<Bin>

    ghost predicate Valid()
      reads this, ring
    {
      && Represents(ring[..], cur, bins)
      && curStart == if bins == [] then 0 else Wrap(Last(bins).start)
    }

    constructor ()
      ensures Valid() && bins == [] && fresh(ring)
    {
      ring := new StoredBin[BINS](i => StoredBin(0, SILENCE));
      cur := 0;
      curStart := 0;
      bins := [];
    }

    /** The bin covering `now`, rolling the ring over any bins that elapsed. */
    method NetBinNow(nowUs: U32, ghost now: int) returns (ghost rolls: nat)
      requires Valid() && nowUs == Wrap(now)
      modifies this, ring
      ensures Valid() && bins == Rolled(old(bins), now)
      ensures rolls <= BINS - 1
    {
      rolls := 0;
      if curStart == 0 || Sub32(nowUs, curStart) >= SPAN_US {
        StartAfresh(nowUs, now);
        return;
      }
      ghost var past := Past(bins, now);
      while Sub32(nowUs, curStart) >= BIN_US
        invariant Valid() && rolls * BIN_US <= past < SPAN_US
        invariant bins == Advanced(old(bins), rolls)
        invariant Sub32(nowUs, curStart) == past - rolls * BIN_US
        decreases Sub32(nowUs, curStart)
      {
        RollOne(nowUs);
        rolls := rolls + 1;
      }
    }

    /** The whole ring is erased; `now` opens its first bin. */
    method StartAfresh(nowUs: U32, ghost now: int)
      requires Valid() && nowUs == Wrap(now)
      modifies this, ring
      ensures Valid() && bins == [Fresh(now)]
    {
      forall i | 0 <= i < BINS {
        ring[i] := StoredBin(0, SILENCE);
      }
      cur := 0;
      curStart := nowUs;
      ring[0] := StoredBin(nowUs, SILENCE);
      bins := [Fresh(now)];
    }

    /** One turn of the roll. */
    method RollOne(nowUs: U32)
      requires Valid() && bins != [] && Sub32(nowUs, curStart) >= BIN_US
      modifies this, ring
      ensures Valid() && bins == Opened(old(bins))
      ensures Sub32(nowUs, curStart) == Sub32(nowUs, old(curStart)) - BIN_US
    {
      OpenedIsRepresented(ring[..], cur, bins, Wrap(curStart + BIN_US));
      AddWrapped(Last(bins).start, BIN_US);
      PastShrinks(nowUs, curStart);
      cur := (cur + 1) % BINS;
      curStart := Wrap(curStart + BIN_US);
      ring[cur] := StoredBin(curStart, SILENCE);
      bins := Opened(bins);
    }

    /** Records one event in the bin that covers its reading of the clock. */
    method Note(nowUs: U32, ghost now: int, what: What)
      requires Valid() && nowUs == Wrap(now)
      modifies this, ring
      ensures Valid() && bins == Noted(old(bins), Event(now, what))
    {
      var _ := NetBinNow(nowUs, now);
      ghost var was := ring[..];
      NewestIsRepresented(was, cur, bins, Recorded(Last(bins).traffic, what));
      var b := ring[cur].traffic;
      match what {
        case Sent(cls, len) =>
          if Count(b.tx, cls) < U16_MAX {
            b := b.(tx := b.tx[cls := Count(b.tx, cls) + 1]);
          }
          b := b.(txBytes := Wrap(b.txBytes + len));
        case Received(cls, len) =>
          if Count(b.rx, cls) < U16_MAX {
            b := b.(rx := b.rx[cls := Count(b.rx, cls) + 1]);
          }
          b := b.(rxBytes := Wrap(b.rxBytes + len));
        case LockWait(waitUs) =>
          if waitUs > b.lockWaitMax {
            b := b.(lockWaitMax := waitUs);
          }
        case CrRetry =>
          if b.crRetried < U16_MAX {
            b := b.(crRetried := b.crRetried + 1);
          }
      }
      assert b == Recorded(Last(bins).traffic, what);
      ring[cur] := StoredBin(ring[cur].startUs, b);
      assert ring[..] == was[cur := was[cur].(traffic := b)];
      bins := bins[|bins| - 1 := Last(bins).(traffic := b)];
    }

    /** Bin `i`, oldest first. */
    method Get(i: nat) returns (ok: bool, out: StoredBin)
      requires Valid()
      ensures ok <==> BINS - |bins| <= i < BINS && Wrap(bins[i - (BINS - |bins|)].start) != 0
      ensures ok ==> out == StoredBin(Wrap(bins[i - (BINS - |bins|)].start), bins[i - (BINS - |bins|)].traffic)
    {
      if i >= BINS {
        return false, StoredBin(0, SILENCE);
      }
      out := ring[(cur + 1 + i) % BINS];
      assert (cur + 1 + i) % BINS == SlotBack(cur, BINS - 1 - i);
      ok := out.startUs != 0;
    }
  }

  // ---- Whole runs ----

  /** The bins in use after a run of events. */
  function Run(h: seq<Event>): (r: seq<Bin>)
    ensures r == [] <==> h == []
  {
    if h == [] then [] else Noted(Run(h[..|h| - 1]), h[|h| - 1])
  }

  /** The event at which the ring last started afresh. */
  function Since(h: seq<Event>): (r: nat)
    requires h != []
    ensures r < |h|
  {
    var before := h[..|h| - 1];
    if StartsAfresh(Run(before), h[|h| - 1].t) then |h| - 1 else Since(before)
  }

  predicate Follows(t: int, now: int) {
    t <= now <= t + TWO_32 - BIN_US
  }

  /** The clock never steps back, and two calls are never a whole counter period apart. */
  predicate Steady(h: seq<Event>) {
    |h| > 1 ==> Steady(h[..|h| - 1]) && Follows(h[|h| - 2].t, h[|h| - 1].t)
  }

  /** Consecutive starts are one bin apart, the newest bin covers `t`, and the ring holds at most 1200. */
  predicate Shape(bins: seq<Bin>, t: int) {
    && 0 < |bins| <= BINS
    && (forall i :: 0 <= i < |bins| ==> bins[i].start == Last(bins).start - (|bins| - 1 - i) * BIN_US)
    && Covers(Last(bins).start, t)
  }

  predicate Covers(start: int, t: int) {
    start <= t < start + BIN_US
  }

  lemma {:induction false} AdvancedIsSpaced(bins: seq<Bin>, t: int, n: nat)
    requires Shape(bins, t)
    ensures Shape(Advanced(bins, n), t + n * BIN_US)
  {
    if n > 0 {
      AdvancedIsSpaced(bins, t, n - 1);
      OpenedIsSpaced(Advanced(bins, n - 1), t + (n - 1) * BIN_US);
    }
  }

  lemma OpenedIsSpaced(bins: seq<Bin>, t: int)
    requires Shape(bins, t)
    ensures Shape(Opened(bins), t + BIN_US)
  {
  }

  /** In true time, the ring starts afresh exactly when it was idle too long or its start reads zero. */
  lemma StartsAfreshIff(bins: seq<Bin>, t: int, now: int)
    requires Shape(bins, t) && Follows(t, now)
    ensures Past(bins, now) == now - Last(bins).start
    ensures StartsAfresh(bins, now) <==> Last(bins).start % TWO_32 == 0 || now - Last(bins).start >= SPAN_US
  {
    WrappedDifference(now, Last(bins).start);
  }

  lemma {:induction false} RolledKeepsShape(bins: seq<Bin>, t: int, now: int)
    requires bins == [] || (Shape(bins, t) && Follows(t, now))
    ensures Shape(Rolled(bins, now), now)
  {
    if !StartsAfresh(bins, now) {
      var past := Past(bins, now);
      StartsAfreshIff(bins, t, now);
      AdvancedIsSpaced(bins, t, past / BIN_US);
      assert Last(Rolled(bins, now)).start == now - past % BIN_US;
    }
  }

  /** After every run the bins in use are 100 ms apart and the newest covers the latest event. */
  lemma {:induction false} RunKeepsShape(h: seq<Event>)
    requires h != [] && Steady(h)
    ensures Shape(Run(h), h[|h| - 1].t)
  {
    var before, e := h[..|h| - 1], h[|h| - 1];
    if before != [] {
      RunKeepsShape(before);
      RolledKeepsShape(Run(before), h[|h| - 2].t, e.t);
    } else {
      RolledKeepsShape([], e.t, e.t);
    }
    assert Run(h)[|Run(h)| - 1].start == Last(Rolled(Run(before), e.t)).start;
  }

  /** No bin in use starts more than the 120 s window ago, and neighbours start exactly 100 ms apart. */
  lemma {:induction false} BinsLieInWindow(h: seq<Event>, i: nat)
    requires h != [] && Steady(h) && i < |Run(h)|
    ensures 0 <= h[|h| - 1].t - Run(h)[i].start < SPAN_US
    ensures i > 0 ==> Run(h)[i].start == Run(h)[i - 1].start + BIN_US
    ensures i == |Run(h)| - 1 ==> Covers(Run(h)[i].start, h[|h| - 1].t)
  {
    RunKeepsShape(h);
  }

  // ---- What the bins hold ----

  /** The traffic of the events that fall into the 100 ms from `start` on. */
  function Tally(evs: seq<Event>, start: int): Traffic {
    if evs == [] then SILENCE
    else
      var e, b := evs[|evs| - 1], Tally(evs[..|evs| - 1], start);
      if Covers(start, e.t) then Recorded(b, e.what) else b
  }

  predicate Tallied(bins: seq<Bin>, evs: seq<Event>) {
    forall i :: 0 <= i < |bins| ==> bins[i].traffic == Tally(evs, bins[i].start)
  }

  predicate AllBefore(evs: seq<Event>, t: int) {
    forall k :: 0 <= k < |evs| ==> evs[k].t < t
  }

  lemma {:induction false} NothingYet(evs: seq<Event>, start: int)
    requires AllBefore(evs, start)
    ensures Tally(evs, start) == SILENCE
  {
    if evs != [] { NothingYet(evs[..|evs| - 1], start); }
  }

  lemma {:induction false} AdvancedIsTallied(bins: seq<Bin>, evs: seq<Event>, n: nat)
    requires bins != [] && Tallied(bins, evs) && AllBefore(evs, Last(bins).start + BIN_US)
    ensures Tallied(Advanced(bins, n), evs)
  {
    if n > 0 {
      AdvancedIsTallied(bins, evs, n - 1);
      NothingYet(evs, Last(Advanced(bins, n)).start);
    }
  }

  /** Recording in the newest bin is recording in the one bin that covers the event. */
  lemma {:induction false} NoteIsTallied(bins: seq<Bin>, evs: seq<Event>, e: Event)
    requires Shape(bins, e.t) && Tallied(bins, evs)
    ensures Tallied(bins[|bins| - 1 := Last(bins).(traffic := Recorded(Last(bins).traffic, e.what))], evs + [e])
  {
    assert (evs + [e])[..|evs|] == evs;
  }

  lemma {:induction false} TimesAreOrdered(h: seq<Event>, k: nat)
    requires Steady(h) && k < |h|
    ensures h[k].t <= h[|h| - 1].t
  {
    if k < |h| - 1 {
      TimesAreOrdered(h[..|h| - 1], k);
    }
  }

  lemma {:induction false} EventIsTallied(bins: seq<Bin>, evs: seq<Event>, t: int, e: Event)
    requires Shape(bins, t) && Follows(t, e.t) && Tallied(bins, evs)
    requires AllBefore(evs, Last(bins).start + BIN_US) && !StartsAfresh(bins, e.t)
    ensures Tallied(Noted(bins, e), evs + [e])
  {
    AdvancedIsTallied(bins, evs, Past(bins, e.t) / BIN_US);
    RolledKeepsShape(bins, t, e.t);
    NoteIsTallied(Rolled(bins, e.t), evs, e);
  }

  lemma {:induction false} FreshIsTallied(bins: seq<Bin>, e: Event)
    requires StartsAfresh(bins, e.t)
    ensures Tallied(Noted(bins, e), [e])
  {
    RolledKeepsShape([], e.t, e.t);
    NoteIsTallied([Fresh(e.t)], [], e);
    assert [] + [e] == [e];
  }

  lemma {:induction false} EventsAreBeforeNextBin(h: seq<Event>, from: nat)
    requires h != [] && Steady(h) && from <= |h|
    ensures AllBefore(h[from..], Last(Run(h)).start + BIN_US)
  {
    RunKeepsShape(h);
    forall k | 0 <= k < |h| - from
      ensures h[from..][k].t < Last(Run(h)).start + BIN_US
    {
      TimesAreOrdered(h, from + k);
    }
  }

  /**
    Every bin in use holds exactly the traffic, since the ring last started afresh, of its own
    100 ms: rolling neither loses nor moves any.
   */
  lemma {:induction false} BinsHoldTheirTraffic(h: seq<Event>)
    requires h != [] && Steady(h)
    ensures Tallied(Run(h), h[Since(h)..])
  {
    var n := |h| - 1;
    var before, e := h[..n], h[n];
    if StartsAfresh(Run(before), e.t) {
      assert h[n..] == [e];
      FreshIsTallied(Run(before), e);
    } else {
      var from := Since(before);
      assert h[from..] == before[from..] + [e];
      BinsHoldTheirTraffic(before);
      RunKeepsShape(before);
      EventsAreBeforeNextBin(before, from);
      EventIsTallied(Run(before), before[from..], before[n - 1].t, e);
    }
  }

  /** An event since then that is not older than the oldest bin lies in a bin, the one at its time. */
  lemma {:induction false} RecentEventHasItsBin(h: seq<Event>, k: nat) returns (i: nat)
    requires h != [] && Steady(h) && k < |h| && h[k].t >= Run(h)[0].start
    ensures i < |Run(h)| && Covers(Run(h)[i].start, h[k].t)
    ensures forall j :: 0 <= j < |Run(h)| && j != i ==> !Covers(Run(h)[j].start, h[k].t)
  {
    RunKeepsShape(h);
    TimesAreOrdered(h, k);
    i := (h[k].t - Run(h)[0].start) / BIN_US;
  }

  lemma {:induction false} AdvancedLength(bins: seq<Bin>, n: nat)
    requires 0 < |bins| <= BINS
    ensures |Advanced(bins, n)| == Min(BINS, |bins| + n)
  {
    if n > 0 { AdvancedLength(bins, n - 1); }
  }

  /** The bins reach back to `first` in whole bins, or fill the ring. */
  predicate ReachesBack(bins: seq<Bin>, first: int) {
    && bins != [] && Last(bins).start >= first && (Last(bins).start - first) % BIN_US == 0
    && |bins| == Min(BINS, (Last(bins).start - first) / BIN_US + 1)
  }

  lemma RolledReachesBack(bins: seq<Bin>, first: int, now: int)
    requires ReachesBack(bins, first) && !StartsAfresh(bins, now)
    ensures ReachesBack(Rolled(bins, now), first)
  {
    var n := Past(bins, now) / BIN_US;
    AdvancedLength(bins, n);
    BinsSince(Last(bins).start, first, n);
  }

  lemma NotedReachesBack(bins: seq<Bin>, first: int, e: Event)
    requires ReachesBack(Rolled(bins, e.t), first)
    ensures ReachesBack(Noted(bins, e), first)
  {
    assert Last(Noted(bins, e)).start == Last(Rolled(bins, e.t)).start;
  }

  /** Since the ring last started afresh no bin is given up before its turn: all of them, or the last 1200. */
  lemma {:induction false} NoBinIsDroppedEarly(h: seq<Event>)
    requires h != []
    ensures ReachesBack(Run(h), h[Since(h)].t)
  {
    var before, e := h[..|h| - 1], h[|h| - 1];
    if StartsAfresh(Run(before), e.t) {
      assert ReachesBack([Fresh(e.t)], e.t);
    } else {
      NoBinIsDroppedEarly(before);
      RolledReachesBack(Run(before), before[Since(before)].t, e.t);
    }
    NotedReachesBack(Run(before), h[Since(h)].t, e);
  }

  lemma BinsSince(start: int, first: int, n: nat)
    requires (start - first) % BIN_US == 0 && start >= first
    ensures (start + n * BIN_US - first) % BIN_US == 0
    ensures (start + n * BIN_US - first) / BIN_US == (start - first) / BIN_US + n
  {
    var q := (start - first) / BIN_US;
    assert start + n * BIN_US - first == (q + n) * BIN_US;
  }

  // ---- What a bin's counters mean ----

  predicate IsFrame(w: What, sent: bool, cls: FrameClass) {
    if sent then w.Sent? && w.cls == cls else w.Received? && w.cls == cls
  }

  function FramesIn(evs: seq<Event>, start: int, sent: bool, cls: FrameClass): nat {
    if evs == [] then 0
    else
      var e := evs[|evs| - 1];
      FramesIn(evs[..|evs| - 1], start, sent, cls) + if Covers(start, e.t) && IsFrame(e.what, sent, cls) then 1 else 0
  }

  function BytesIn(evs: seq<Event>, start: int, sent: bool): nat {
    if evs == [] then 0
    else
      var e := evs[|evs| - 1];
      BytesIn(evs[..|evs| - 1], start, sent)
      + if Covers(start, e.t) && (if sent then e.what.Sent? else e.what.Received?) then e.what.len else 0
  }

  /** Frame counts saturate at 65535; nothing else distorts them. */
  lemma {:induction false} FrameCountsSaturate(evs: seq<Event>, start: int, cls: FrameClass)
    ensures Count(Tally(evs, start).tx, cls) == Min(U16_MAX, FramesIn(evs, start, true, cls))
    ensures Count(Tally(evs, start).rx, cls) == Min(U16_MAX, FramesIn(evs, start, false, cls))
  {
    if evs != [] {
      FrameCountsSaturate(evs[..|evs| - 1], start, cls);
    }
  }

  /** Byte totals wrap at 2^32. */
  lemma {:induction false} ByteTotalsWrap(evs: seq<Event>, start: int)
    ensures Tally(evs, start).txBytes == Wrap(BytesIn(evs, start, true))
    ensures Tally(evs, start).rxBytes == Wrap(BytesIn(evs, start, false))
  {
    if evs != [] {
      var front, e := evs[..|evs| - 1], evs[|evs| - 1];
      ByteTotalsWrap(front, start);
      if e.what.Sent? || e.what.Received? {
        AddWrapped(BytesIn(front, start, e.what.Sent?), e.what.len);
      }
    }
  }

  /** The longest lock wait in the 100 ms from `start` on, zero if there was none. */
  predicate IsLongestWait(evs: seq<Event>, start: int, us: U32) {
    && (forall k :: 0 <= k < |evs| && Covers(start, evs[k].t) && evs[k].what.LockWait? ==> evs[k].what.waitUs <= us)
    && (us == 0 || exists k :: 0 <= k < |evs| && Covers(start, evs[k].t) && evs[k].what == LockWait(us))
  }

  lemma {:induction false} LockWaitIsLongest(evs: seq<Event>, start: int)
    ensures IsLongestWait(evs, start, Tally(evs, start).lockWaitMax)
  {
    if evs != [] {
      var n := |evs| - 1;
      var front := evs[..n];
      LockWaitIsLongest(front, start);
      var us := Tally(front, start).lockWaitMax;
      if us != 0 {
        var k :| 0 <= k < n && Covers(start, front[k].t) && front[k].what == LockWait(us);
        assert evs[k].what == LockWait(us);
      }
      forall k | 0 <= k < n && Covers(start, evs[k].t) && evs[k].what.LockWait?
        ensures evs[k].what.waitUs <= us
      {
        assert front[k] == evs[k];
      }
      var e := evs[n];
      if Covers(start, e.t) && e.what.LockWait? && e.what.waitUs > us {
        assert evs[n].what == LockWait(e.what.waitUs);
      }
    }
  }

  function RetriesIn(evs: seq<Event>, start: int): nat {
    if evs == [] then 0
    else
      var e := evs[|evs| - 1];
      RetriesIn(evs[..|evs| - 1], start) + if Covers(start, e.t) && e.what.CrRetry? then 1 else 0
  }

  /** Command retries saturate at 65535. */
  lemma {:induction false} RetriesSaturate(evs: seq<Event>, start: int)
    ensures Tally(evs, start).crRetried == Min(U16_MAX, RetriesIn(evs, start))
  {
    if evs != [] { RetriesSaturate(evs[..|evs| - 1], start); }
  }

  // ---- A clock that steps back ----

  /**
    A reading taken before the current bin began, as by a task that read the clock and then waited
    for the lock while another rolled the ring, throws the whole recording away.
   */
  lemma EarlierReadingWipes(bins: seq<Bin>, now: int)
    requires bins != [] && 0 < Last(bins).start - now <= TWO_32 - SPAN_US
    ensures StartsAfresh(bins, now) && Rolled(bins, now) == [Fresh(now)]
  {
    var start := Last(bins).start;
    WrappedDifference(now + TWO_32, start);
    assert Wrap(now + TWO_32) == Wrap(now);
  }

  /**
    When the recording survives a reading, for every reading: the current start does not read as zero
    and the reading lies, counted modulo a counter period, less than 120 s after it.
   */
  lemma RecordingSurvivesIff(bins: seq<Bin>, now: int)
    requires bins != []
    ensures !StartsAfresh(bins, now) <==>
      Last(bins).start % TWO_32 != 0 && (now - Last(bins).start) % TWO_32 < SPAN_US
  {
    DifferenceOfImages(now, Last(bins).start);
  }

  /**
    So bins survive a silence of one counter period, as when the recorder was switched off meanwhile:
    the next reading rolls on from them as if they were recent.
   */
  lemma OldRecordingCanSurvive(bins: seq<Bin>, now: int)
    requires bins != [] && Last(bins).start % TWO_32 != 0
    requires TWO_32 <= now - Last(bins).start < TWO_32 + BIN_US
    ensures Rolled(bins, now) == bins
  {
    RecordingSurvivesIff(bins, now);
    DifferenceOfImages(now, Last(bins).start);
  }
}

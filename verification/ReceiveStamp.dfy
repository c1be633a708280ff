/**
  The receive stamp T2 in the Ethernet input hook, and the admission rule that later decides
  whether a request stamped this way may be answered.

  Instants are 64-bit; every raw stamp is a 32-bit reading of the same timer.
 */
module ReceiveStamp {
  import opened MachineInts
  import opened HookRing

  const EDGE_MAX_AGE_US := 2000000
  const STALL_MAX_US := 1000
  const LEAD_STRICT_US := 200
  const QUEUED_MIN_BYTES := 60
  const FRESH_BURST_MIN_GAP_US := 800
  const NS_PER_BYTE := 80
  const FCS_BYTES := 4
  const FRAME_START_MAX_US := 130
  const RX_STAMP_LATE_US := 17
  const TX_STAMP_EARLY_US := 57

  // ---- rx_admission.h ----

  datatype EdgeEval = EdgeEval(usable: bool, leadUs: int)

  function EvaluateRxEdge(edgeSeq: U32, edgeUs: U32, burstStartUs: U32): EdgeEval {
    if edgeSeq == 0 || burstStartUs == 0 then EdgeEval(false, 0)
    else
      var lead := Signed32(Sub32(burstStartUs, edgeUs));
      EdgeEval(0 < lead < EDGE_MAX_AGE_US, lead)
  }

  datatype Verdict = Accept | OldEdge | NoEdge

  function QueuedBehindBytes(rxRsr: int, frameLen: int): int {
    if rxRsr < 0 || frameLen < 0 then -1 else rxRsr - (frameLen + 2)
  }

  function RxAdmission(captureArmed: bool, edgeUsable: bool, leadUs: int, strict: bool,
                       shortWait: bool, queuedBytes: int, rxGapUs: int): Verdict {
    if edgeUsable && leadUs >= (if strict then LEAD_STRICT_US else STALL_MAX_US) then OldEdge
    else if !strict || !captureArmed || edgeUsable then Accept
    else if !shortWait then NoEdge
    else if queuedBytes < 0 || queuedBytes >= QUEUED_MIN_BYTES then NoEdge
    else if rxGapUs < FRESH_BURST_MIN_GAP_US then NoEdge
    else Accept
  }

  // ---- The stamps the hook reads ----

  datatype RxStamps = RxStamps(sizeReadUs: U32, payloadsSinceSizeRead: nat, burstStartUs: U32, sizeValue: U16)

  datatype IntStamp = IntStamp(edgeUs: U32, seq32: U32)

  datatype Switches = Switches(intEdgeT2: bool, frameStart: bool, chipLatency: bool)

  /** The instant `gap` before `t`, in 64 bits, from a 32-bit stamp of it. */
  function GapBefore(t: int, stamp: U32): int {
    Signed32(Sub32(Wrap(t), stamp))
  }

  /** The burst-start stamp if it has a plausible lead over the size read, else the size read. */
  function BurstStamp(st: RxStamps): U32 {
    var lead := Signed32(Sub32(st.sizeReadUs, st.burstStartUs));
    if st.burstStartUs != 0 && 0 < lead < 1000 then st.burstStartUs else st.sizeReadUs
  }

  /** The whole-microsecond on-wire duration of a frame of `length` bytes plus its checksum. */
  function FrameDurationUs(length: U32): int {
    Signed32(Wrap(Wrap(Wrap(length + FCS_BYTES) * NS_PER_BYTE)) / 1000)
  }

  predicate StampIsOurs(st: RxStamps) {
    st.sizeReadUs != 0 && st.payloadsSinceSizeRead == 1
  }

  predicate GapUsable(t: int, st: RxStamps) {
    StampIsOurs(st) && 0 < GapBefore(t, BurstStamp(st)) < 20000
  }

  predicate TakesEdge(t: int, st: RxStamps, ist: IntStamp, lastSeq: U32, sw: Switches) {
    var e := EvaluateRxEdge(ist.seq32, ist.edgeUs, st.burstStartUs);
    && sw.intEdgeT2 && e.usable && 0 < e.leadUs < LEAD_STRICT_US && ist.seq32 != lastSeq
    && 0 < GapBefore(t, ist.edgeUs) < EDGE_MAX_AGE_US
  }

  function FrameStartCorrection(length: U32, sw: Switches): int {
    var d := FrameDurationUs(length);
    if sw.frameStart && 0 < d <= FRAME_START_MAX_US then d else 0
  }

  /** T2 for a frame that the hook saw at `t`. */
  function T2(t: int, st: RxStamps, ist: IntStamp, length: U32, lastSeq: U32, sw: Switches): int {
    (if TakesEdge(t, st, ist, lastSeq, sw) then t - GapBefore(t, ist.edgeUs)
     else if GapUsable(t, st) then t - GapBefore(t, BurstStamp(st))
     else t)
    - FrameStartCorrection(length, sw)
    - (if sw.chipLatency then RX_STAMP_LATE_US else 0)
  }

  class InputHook {
    var lastIntEdgeSeqForT2: U32
    var sw: Switches

    constructor (sw: Switches)
      ensures this.sw == sw && lastIntEdgeSeqForT2 == 0
    {
      this.sw := sw;
      lastIntEdgeSeqForT2 := 0;
    }

    /** The user may flip any switch between two frames. */
    method SetSwitches(sw: Switches)
      modifies this`sw
      ensures this.sw == sw
    {
      this.sw := sw;
    }

    /** The stamping part of `eth_input_hook_`, for a frame recognised as an NTP request. */
    method Stamp(t: int, st: RxStamps, ist: IntStamp, length: U32) returns (info: HookInfo)
      modifies this`lastIntEdgeSeqForT2
      ensures info.t == T2(t, st, ist, length, old(lastIntEdgeSeqForT2), sw)
      ensures RecordedFor(info, t, st, ist, length)
      ensures info.t2FromEdge == TakesEdge(t, st, ist, old(lastIntEdgeSeqForT2), sw)
      ensures lastIntEdgeSeqForT2 == if info.t2FromEdge then ist.seq32 else old(lastIntEdgeSeqForT2)
      ensures info.t2FromFrameStart == (FrameStartCorrection(length, sw) != 0) && info.t2ChipLatency == sw.chipLatency
    {
      var t2 := t;
      var rxGapUs: int, rxRsr: int, frameLen: int := -1, -1, -1;
      var t2FromEdge, t2FromFrameStart := false, false;
      var edge := EvaluateRxEdge(ist.seq32, ist.edgeUs, st.burstStartUs);
      if st.sizeReadUs != 0 && st.payloadsSinceSizeRead == 1 {
        rxRsr := st.sizeValue;
        frameLen := Signed32(length);
        var stamp := st.sizeReadUs;
        if st.burstStartUs != 0 {
          var lead := Signed32(Sub32(st.sizeReadUs, st.burstStartUs));
          if lead > 0 && lead < 1000 {
            stamp := st.burstStartUs;
          }
        }
        var gap := GapBefore(t, stamp);
        if gap > 0 && gap < 20000 {
          t2 := t - gap;
          rxGapUs := gap;
        }
      }
      if sw.intEdgeT2 && edge.usable && edge.leadUs > 0 && edge.leadUs < LEAD_STRICT_US
         && ist.seq32 != lastIntEdgeSeqForT2 {
        var edgeGap := GapBefore(t, ist.edgeUs);
        if edgeGap > 0 && edgeGap < EDGE_MAX_AGE_US {
          t2 := t - edgeGap;
          lastIntEdgeSeqForT2 := ist.seq32;
          t2FromEdge := true;
        }
      }
      if sw.frameStart {
        var durationUs := FrameDurationUs(length);
        if durationUs > 0 && durationUs <= FRAME_START_MAX_US {
          t2 := t2 - durationUs;
          t2FromFrameStart := true;
        }
      }
      if sw.chipLatency {
        t2 := t2 - RX_STAMP_LATE_US;
      }
      info := HookInfo(t2, rxGapUs, edge.usable, edge.leadUs, ist.seq32 != 0, rxRsr, frameLen,
                       t2FromEdge, t2FromFrameStart, sw.chipLatency);
    }
  }

  // ---- What T2 is ----

  /** T2 never names an instant after the hook ran. */
  lemma T2IsNeverLate(t: int, st: RxStamps, ist: IntStamp, length: U32, lastSeq: U32, sw: Switches)
    ensures T2(t, st, ist, length, lastSeq, sw) <= t
  {
  }

  /** A 32-bit stamp of an instant less than 2^31 us ago gives the instant back exactly. */
  lemma StampGivesInstantBack(t: int, instant: int)
    requires 0 <= t - instant < TWO_31
    ensures t - GapBefore(t, Wrap(instant)) == instant
  {
    WrappedDifference(t, instant);
  }

  /** The whole microseconds a frame and its checksum take on the wire, where that is plausible. */
  function WireTime(length: int): int {
    var us := (length + 4) * 80 / 1000;
    if 1 <= us <= 130 then us else 0
  }

  /** What the switches take off T2, in true arithmetic. */
  function Corrections(length: int, sw: Switches): int {
    (if sw.frameStart then WireTime(length) else 0) + (if sw.chipLatency then 17 else 0)
  }

  /** The 32-bit duration is the true one for every frame below 53 MB. */
  lemma CorrectionIsWireTime(length: U32, sw: Switches)
    requires (length + 4) * 80 < TWO_32
    ensures FrameStartCorrection(length, sw) == if sw.frameStart then WireTime(length) else 0
  {
    var ns := (length + FCS_BYTES) * NS_PER_BYTE;
    assert Wrap(length + FCS_BYTES) == length + FCS_BYTES;
    assert Wrap(ns) == ns;
  }

  /**
    When the edge is used T2 is the true instant of the edge, less the corrections that are on,
    whatever wraps the 32-bit stamps went through.
   */
  lemma T2FromEdgeIsExact(t: int, edge: int, st: RxStamps, ist: IntStamp, length: U32, lastSeq: U32, sw: Switches)
    requires ist.edgeUs == Wrap(edge) && 0 <= t - edge < TWO_31 && (length + 4) * 80 < TWO_32
    requires TakesEdge(t, st, ist, lastSeq, sw)
    ensures T2(t, st, ist, length, lastSeq, sw) == edge - Corrections(length, sw)
  {
    StampGivesInstantBack(t, edge);
    CorrectionIsWireTime(length, sw);
  }

  /** The stamps of a frame's own size read, and of the burst it belongs to if one was seen, in true time. */
  predicate OwnSizeRead(st: RxStamps, t: int, size: int, burst: int) {
    && st.sizeReadUs == Wrap(size) != 0 && st.payloadsSinceSizeRead == 1
    && 0 <= t - size < TWO_31 - 1000
    && (st.burstStartUs != 0 ==> st.burstStartUs == Wrap(burst) && -TWO_31 <= size - burst < TWO_31)
  }

  /** The burst's start if it lies 1 to 999 us before the size read, else the size read. */
  function ReadInstant(st: RxStamps, size: int, burst: int): int {
    if st.burstStartUs != 0 && 1 <= size - burst <= 999 then burst else size
  }

  /**
    Without an edge, T2 of a frame with its own size read is that instant if it lies 1 to 19999 us back,
    else the hook's reading; less the corrections that are on.
   */
  lemma T2WithoutEdgeIsExact(t: int, size: int, burst: int, st: RxStamps, ist: IntStamp, length: U32,
                             lastSeq: U32, sw: Switches)
    requires OwnSizeRead(st, t, size, burst) && (length + 4) * 80 < TWO_32
    requires !TakesEdge(t, st, ist, lastSeq, sw)
    ensures var read := ReadInstant(st, size, burst);
      T2(t, st, ist, length, lastSeq, sw) == (if 1 <= t - read <= 19999 then read else t) - Corrections(length, sw)
  {
    ReadGapIsExact(t, size, burst, st);
    CorrectionIsWireTime(length, sw);
  }

  /** And so is the gap that is recorded for admission. */
  lemma ReadGapIsExact(t: int, size: int, burst: int, st: RxStamps)
    requires OwnSizeRead(st, t, size, burst)
    ensures var gap := t - ReadInstant(st, size, burst);
      && GapBefore(t, BurstStamp(st)) == gap
      && (GapUsable(t, st) <==> 1 <= gap <= 19999)
  {
    WrappedDifference(size, burst);
    WrappedDifference(t, size);
    WrappedDifference(t, burst);
  }

  /** Without an edge and without an own size read, T2 is the hook's reading less the corrections. */
  lemma T2OfStrayFrame(t: int, st: RxStamps, ist: IntStamp, length: U32, lastSeq: U32, sw: Switches)
    requires (st.sizeReadUs == 0 || st.payloadsSinceSizeRead != 1) && (length + 4) * 80 < TWO_32
    requires !TakesEdge(t, st, ist, lastSeq, sw)
    ensures T2(t, st, ist, length, lastSeq, sw) == t - Corrections(length, sw)
  {
    CorrectionIsWireTime(length, sw);
  }

  /** An edge is usable exactly when one was captured and a burst seen, 1 us to 2 s later. */
  lemma EdgeUsableIff(edge: int, burst: int, seq32: U32)
    requires -TWO_31 <= burst - edge < TWO_31
    ensures var e := EvaluateRxEdge(seq32, Wrap(edge), Wrap(burst));
      && (e.usable <==> seq32 != 0 && Wrap(burst) != 0 && 1 <= burst - edge <= 1999999)
      && (seq32 != 0 && Wrap(burst) != 0 ==> e.leadUs == burst - edge)
  {
    WrappedDifference(burst, edge);
  }

  /** When the edge is taken: its true lead over the burst is 1 to 199 us and it is not yet spent. */
  lemma EdgeTakenIffFreshAndTight(t: int, edge: int, burst: int, count: int, st: RxStamps, ist: IntStamp,
                                  lastSeq: U32, sw: Switches)
    requires ist == IntStamp(Wrap(edge), Wrap(count)) && st.burstStartUs == Wrap(burst) != 0
    requires 0 < count < TWO_32 && -TWO_31 <= burst - edge < TWO_31 && 0 <= t - edge < TWO_31
    ensures TakesEdge(t, st, ist, lastSeq, sw) <==>
      sw.intEdgeT2 && 0 < burst - edge < LEAD_STRICT_US && 0 < t - edge < EDGE_MAX_AGE_US && count != lastSeq
  {
    WrappedDifference(burst, edge);
    WrappedDifference(t, edge);
    WrappedDifference(count, 0);
  }

  // ---- Over whole runs: no edge is used twice ----

  /**
    One frame: what the hook read, with the true count of INTn edges behind `ist.seq32`, and the
    switches in effect at that moment.
   */
  datatype Frame = Frame(t: int, st: RxStamps, edgeUs: U32, edges: nat, length: U32, sw: Switches)

  function Ist(f: Frame): IntStamp {
    IntStamp(f.edgeUs, Wrap(f.edges))
  }

  predicate Takes(f: Frame, lastSeq: U32) {
    TakesEdge(f.t, f.st, Ist(f), lastSeq, f.sw)
  }

  /** The last consumed edge number after a run of frames. */
  function LastSeq(frames: seq<Frame>): U32 {
    if frames == [] then 0
    else
      var f, before := frames[|frames| - 1], LastSeq(frames[..|frames| - 1]);
      if Takes(f, before) then Wrap(f.edges) else before
  }

  predicate FromEdge(frames: seq<Frame>, i: nat)
    requires i < |frames|
  {
    Takes(frames[i], LastSeq(frames[..i]))
  }

  /** The edge counter only grows, and has not wrapped. */
  predicate EdgesCounted(frames: seq<Frame>) {
    && (forall i :: 0 <= i < |frames| ==> frames[i].edges < TWO_32)
    && (forall i, j :: 0 <= i <= j < |frames| ==> frames[i].edges <= frames[j].edges)
  }

  lemma {:induction false} FromEdgeInPrefix(frames: seq<Frame>, n: nat, i: nat)
    requires i < n <= |frames|
    ensures FromEdge(frames[..n], i) == FromEdge(frames, i)
  {
    assert frames[..n][..i] == frames[..i];
  }

  /** The remembered number is that of the latest frame that used an edge. */
  lemma {:induction false} LastSeqIsLatest(frames: seq<Frame>, i: nat)
    requires EdgesCounted(frames) && i < |frames|
    ensures FromEdge(frames, i) ==> frames[i].edges <= LastSeq(frames)
    ensures LastSeq(frames) <= frames[|frames| - 1].edges
  {
    var n := |frames| - 1;
    var front := frames[..n];
    assert Wrap(frames[n].edges) == frames[n].edges;
    if n > 0 {
      LastSeqIsLatest(front, if i < n then i else 0);
      assert front[n - 1].edges <= frames[n].edges;
      if i < n { FromEdgeInPrefix(frames, n, i); }
    }
  }

  lemma TakesOnlyNew(f: Frame, lastSeq: U32)
    requires f.edges < TWO_32 && Takes(f, lastSeq)
    ensures f.edges != lastSeq
  {
    assert Wrap(f.edges) == f.edges;
  }

  /** Two different frames never take T2 from the same INTn edge, however the switches are flipped. */
  lemma {:induction false} NoEdgeIsUsedTwice(frames: seq<Frame>, i: nat, j: nat)
    requires EdgesCounted(frames) && i < j < |frames|
    requires FromEdge(frames, i) && FromEdge(frames, j)
    ensures frames[i].edges < frames[j].edges
  {
    var before := frames[..j];
    LastSeqIsLatest(before, i);
    FromEdgeInPrefix(frames, j, i);
    TakesOnlyNew(frames[j], LastSeq(before));
    assert before[j - 1].edges <= frames[j].edges;
  }

  // ---- Admission ----

  /** The verdict on a request, from what the hook recorded and the switches at request time. */
  function VerdictOn(info: HookInfo, strict: bool, shortWait: bool): Verdict {
    RxAdmission(info.captureArmed, info.edgeUsable, info.leadUs, strict, shortWait,
                QueuedBehindBytes(info.rxRsr, info.frameLen), info.rxGapUs)
  }

  /** What the hook records for a frame it sees at `t`: the fields admission depends on. */
  predicate RecordedFor(info: HookInfo, t: int, st: RxStamps, ist: IntStamp, length: U32) {
    && EdgeEval(info.edgeUsable, info.leadUs) == EvaluateRxEdge(ist.seq32, ist.edgeUs, st.burstStartUs)
    && info.captureArmed == (ist.seq32 != 0)
    && info.rxGapUs == (if GapUsable(t, st) then GapBefore(t, BurstStamp(st)) else -1)
    && info.rxRsr == (if StampIsOurs(st) then st.sizeValue else -1)
    && info.frameLen == (if StampIsOurs(st) then Signed32(length) else -1)
  }

  /**
    Strict admission without the short interrupt wait: once an edge has ever been captured, a
    request is answered exactly when it has a usable edge at most 199 us before its burst.
   */
  lemma StrictAcceptNeedsTightEdge(info: HookInfo, t: int, st: RxStamps, ist: IntStamp, length: U32)
    requires RecordedFor(info, t, st, ist, length) && ist.seq32 != 0
    ensures var e := EvaluateRxEdge(ist.seq32, ist.edgeUs, st.burstStartUs);
      VerdictOn(info, true, false) == Accept <==> e.usable && 1 <= e.leadUs <= 199
  {
  }

  /**
    The short wait only ever admits more: exactly the requests without a usable edge whose size read
    was their own, showed fewer than 60 bytes behind them, and whose T2 opened a fresh burst.
   */
  lemma ShortWaitRelaxesOnlyFreshBursts(info: HookInfo, t: int, st: RxStamps, ist: IntStamp, length: U32)
    requires RecordedFor(info, t, st, ist, length) && length < TWO_31
    ensures var without, with := VerdictOn(info, true, false), VerdictOn(info, true, true);
      && (without == Accept ==> with == Accept)
      && (with == Accept && without != Accept <==>
            && ist.seq32 != 0 && !EvaluateRxEdge(ist.seq32, ist.edgeUs, st.burstStartUs).usable
            && StampIsOurs(st) && length + 2 <= st.sizeValue < length + 2 + QUEUED_MIN_BYTES
            && FRESH_BURST_MIN_GAP_US <= GapBefore(t, BurstStamp(st)) < 20000)
  {
  }

  /**
    Every verdict, for every setting of the switches: "old edge" from 200 us of lead on when strict and
    from 1 ms on when not; "no edge" only when strict, once an edge was ever captured, and then unless the
    short wait excuses it; accepted otherwise, in particular always before the first captured edge.
   */
  lemma VerdictIff(info: HookInfo, t: int, st: RxStamps, ist: IntStamp, length: U32, strict: bool, shortWait: bool)
    requires RecordedFor(info, t, st, ist, length) && length < TWO_31
    ensures var e, v := EvaluateRxEdge(ist.seq32, ist.edgeUs, st.burstStartUs), VerdictOn(info, strict, shortWait);
      && (v == OldEdge <==> e.usable && e.leadUs >= if strict then 200 else 1000)
      && (v == NoEdge <==>
            && strict && ist.seq32 != 0 && !e.usable
            && !(shortWait && StampIsOurs(st) && length + 2 <= st.sizeValue <= length + 61
                 && 800 <= GapBefore(t, BurstStamp(st)) <= 19999))
      && (ist.seq32 == 0 ==> v == Accept)
  {
  }

  // ---- T3 prediction ----

  /** `build_patch_t3_`: the 64-bit instant SEND is expected, from the 32-bit reading of the SPI driver. */
  function PredictedSend(espNow: int, nowUs: U32, delayUs: int, chipLatency: bool): int {
    espNow - Signed32(Sub32(Wrap(espNow), nowUs)) + delayUs + if chipLatency then TX_STAMP_EARLY_US else 0
  }

  /** It is the patch instant plus the learned delay, however late the callback read its own clock. */
  lemma PredictionIsAnchoredToPatchInstant(patch: int, espNow: int, delayUs: int, chipLatency: bool)
    requires 0 <= espNow - patch < TWO_31
    ensures PredictedSend(espNow, Wrap(patch), delayUs, chipLatency)
         == patch + delayUs + if chipLatency then TX_STAMP_EARLY_US else 0
  {
    WrappedDifference(espNow, patch);
  }
}

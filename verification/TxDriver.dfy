/**
  The SPI write callback around the patch: it notices where a frame starts in the transmit ring,
  keeps the first 128 bytes of it, and rewrites T3 when the SEND command is about to go out.
 */
module TxDriver {
  import opened Wrappers
  import opened MachineInts
  import opened UdpChecksum
  import opened TxPatch

  /** Outgoing-frame tracking since the last SEND. */
  datatype Tracking = Tracking(hdr: seq<Byte>, frameStart: U16, started: bool)

  const IDLE := Tracking([], 0, false)

  /** A write to the transmit buffer; only writes of at least 14 bytes are taken for frame data. */
  function Track(t: Tracking, cmd: nat, data: seq<Byte>): Tracking
    requires |t.hdr| <= HDR_MAX
  {
    if |data| < 14 then t
    else
      var s := if t.started then t else Tracking([], cmd % 0x1_0000, true);
      s.(hdr := s.hdr + data[..Min(|data|, HDR_MAX - |s.hdr|)])
  }

  /** What the callback does to the ring before the SEND transfer, given what was tracked. */
  function Sent(ring: seq<Byte>, t: Tracking, port: U16, t3: Option<seq<Byte>>, o: Outcomes): (r: Patched)
    requires IsRing(ring) && |t.hdr| <= HDR_MAX && (t3.Some? ==> |t3.value| == 8)
    ensures IsRing(r.ring)
  {
    if t.started then PatchRing(ring, t.frameStart, t.hdr, port, t3, o) else Patched(ring, false)
  }

  class W5500Tx {
    const ring: array<Byte>
    const hdrBuf: array<Byte>
    var hdrLen: nat
    var frameStart: U16
    var frameStarted: bool
    var enabled: bool
    var port: U16
    var patched: bool

    ghost predicate Valid()
      reads this, ring, hdrBuf
    {
      ring.Length == TX_MEM_SIZE && hdrBuf.Length == HDR_MAX && hdrLen <= HDR_MAX && ring != hdrBuf
    }

    ghost function State(): Tracking
      requires Valid()
      reads this, ring, hdrBuf
    {
      Tracking(hdrBuf[..hdrLen], frameStart, frameStarted)
    }

    constructor ()
      ensures Valid() && fresh(ring) && fresh(hdrBuf)
      ensures State() == IDLE && !enabled
    {
      ring := new Byte[TX_MEM_SIZE];
      hdrBuf := new Byte[HDR_MAX];
      hdrLen, frameStart, frameStarted, enabled, port, patched := 0, 0, false, false, 0, false;
    }

    /** `w5500_set_tx_patch`: registering drops whatever was being tracked. */
    method SetTxPatch(on: bool, serverPort: U16)
      requires Valid()
      modifies this
      ensures Valid() && enabled == on && port == serverPort
      ensures !State().started && State().hdr == []
    {
      enabled := false;
      frameStarted := false;
      hdrLen := 0;
      port := serverPort;
      enabled := on;
    }

    /** One SPI transfer into the transmit ring; when it fails nothing is written. */
    method Transfer(addr: nat, data: seq<Byte>, ok: bool)
      requires Valid() && |data| <= TX_MEM_SIZE
      modifies ring
      ensures Valid() && ring[..] == if ok then Store(old(ring[..]), addr, data) else old(ring[..])
    {
      if ok {
        var i := 0;
        while i < |data|
          invariant 0 <= i <= |data|
          invariant ring[..] == Store(old(ring[..]), addr, data[..i])
        {
          StoreOneMore(old(ring[..]), addr, data, i);
          ring[(addr + i) % TX_MEM_SIZE] := data[i];
          i := i + 1;
        }
        assert data[..|data|] == data;
      }
    }

    /** Every planned write is attempted, whatever happened to the one before. */
    method PatchWriteRing(start: U16, relOff: nat, src: seq<Byte>, o: Pair) returns (ok: bool)
      requires Valid() && 0 < |src| && relOff + |src| <= TX_MEM_SIZE
      modifies ring
      ensures Valid() && Written(ring[..], ok) == WriteField(old(ring[..]), start, relOff, src, o)
    {
      var writes := PlanRingWrites(start, relOff, |src|);
      PlannedWritesDoNotCross(start, relOff, |src|);
      ok := true;
      var i := 0;
      while i < |writes|
        invariant 0 <= i <= |writes| && Valid()
        invariant i == 0 ==> ok && ring[..] == old(ring[..])
        invariant i == 1 ==> ok == o.first
        invariant i == 1 ==>
          ring[..] == if o.first then Store(old(ring[..]), writes[0].addr, src[..writes[0].len]) else old(ring[..])
        invariant i == 2 ==> Written(ring[..], ok) == WriteField(old(ring[..]), start, relOff, src, o)
      {
        var w := writes[i];
        assert i == 1 ==> src[w.src..w.src + w.len] == src[w.src..];
        var success := if i == 0 then o.first else o.second;
        Transfer(w.addr, src[w.src..w.src + w.len], success);
        if !success {
          ok := false;
        }
        i := i + 1;
      }
    }

    /** The SEND command, up to the SEND transfer itself; `t3` is what the patch callback produced. */
    method OnSend(t3: Option<seq<Byte>>, o: Outcomes)
      requires Valid() && (t3.Some? ==> |t3.value| == 8)
      modifies this, ring
      ensures Valid() && enabled == old(enabled) && port == old(port)
      ensures Patched(ring[..], patched) ==
        if old(enabled) then Sent(old(ring[..]), old(State()), old(port), t3, o) else Patched(old(ring[..]), false)
      ensures !State().started && State().hdr == []
    {
      patched := false;
      if enabled && frameStarted {
        var plan := PlanNtpTxPatch(hdrBuf[..hdrLen], port);
        PlanDescribesFrame(hdrBuf[..hdrLen], port);
        if plan.Patch? && t3.Some? {
          var t3Ok := PatchWriteRing(frameStart, plan.t3Off, t3.value, o.t3);
          var csumOk := true;
          if t3Ok && plan.csumPresent {
            var csum := UdpCsumUpdate(plan.oldCsum, plan.oldT3, t3.value);
            csumOk := PatchWriteRing(frameStart, plan.csumOff, [csum / 256, csum % 256], o.csum);
            if !csumOk {
              var restored := PatchWriteRing(frameStart, plan.t3Off, plan.oldT3, o.restore);
            }
          }
          if t3Ok && csumOk {
            patched := true;
          }
        }
      }
      frameStarted := false;
      hdrLen := 0;
    }

    /** A write to the transmit buffer by the stock driver. */
    method OnTxBufWrite(cmd: nat, data: seq<Byte>, ok: bool)
      requires Valid() && |data| <= TX_MEM_SIZE
      modifies this, ring, hdrBuf
      ensures Valid() && enabled == old(enabled) && port == old(port)
      ensures State() == if old(enabled) then Track(old(State()), cmd, data) else old(State())
      ensures ring[..] == if ok then Store(old(ring[..]), cmd % 0x1_0000, data) else old(ring[..])
    {
      if |data| >= 14 && enabled {
        if !frameStarted {
          frameStart := cmd % 0x1_0000;
          hdrLen := 0;
          frameStarted := true;
        }
        var nCopy := Min(|data|, HDR_MAX - hdrLen);
        ghost var before := hdrBuf[..hdrLen];
        var i := 0;
        while i < nCopy
          modifies hdrBuf
          invariant 0 <= i <= nCopy <= HDR_MAX - hdrLen
          invariant hdrBuf[..hdrLen + i] == before + data[..i]
        {
          hdrBuf[hdrLen + i] := data[i];
          i := i + 1;
        }
        hdrLen := hdrLen + nCopy;
      }
      Transfer(cmd % 0x1_0000, data, ok);
    }
  }

  // ---- A frame written in pieces ----

  datatype Chunk = Chunk(addr: U16, data: seq<Byte>)

  function Bytes(chunks: seq<Chunk>): seq<Byte> {
    if chunks == [] then [] else Bytes(chunks[..|chunks| - 1]) + chunks[|chunks| - 1].data
  }

  /** How the stock driver lays a frame into the ring: each piece where the previous one ended. */
  predicate IsFrameWrite(chunks: seq<Chunk>) {
    && chunks != []
    && |Bytes(chunks)| <= TX_MEM_SIZE
    && var last, front := chunks[|chunks| - 1], chunks[..|chunks| - 1];
       && |last.data| >= 14
       && (front != [] ==>
            IsFrameWrite(front) && (last.addr - chunks[0].addr - |Bytes(front)|) % TX_MEM_SIZE == 0)
  }

  function RingAfter(ring: seq<Byte>, chunks: seq<Chunk>): (r: seq<Byte>)
    requires IsRing(ring) && |Bytes(chunks)| <= TX_MEM_SIZE
    ensures IsRing(r)
  {
    if chunks == [] then ring
    else Store(RingAfter(ring, chunks[..|chunks| - 1]), chunks[|chunks| - 1].addr, chunks[|chunks| - 1].data)
  }

  function TrackingAfter(t: Tracking, chunks: seq<Chunk>): (r: Tracking)
    requires |t.hdr| <= HDR_MAX
    ensures |r.hdr| <= HDR_MAX
  {
    if chunks == [] then t
    else Track(TrackingAfter(t, chunks[..|chunks| - 1]), chunks[|chunks| - 1].addr, chunks[|chunks| - 1].data)
  }

  /** Once a whole frame is written, the ring holds it and the tracking describes it. */
  lemma {:induction false} FrameIsTracked(ring: seq<Byte>, t: Tracking, chunks: seq<Chunk>)
    requires IsRing(ring) && |t.hdr| <= HDR_MAX && !t.started && IsFrameWrite(chunks)
    ensures Holds(RingAfter(ring, chunks), chunks[0].addr, Bytes(chunks))
    ensures TrackingAfter(t, chunks) == Tracking(Captured(Bytes(chunks)), chunks[0].addr, true)
  {
    var n := |chunks| - 1;
    var front, last := chunks[..n], chunks[n];
    var start, frame := chunks[0].addr, Bytes(front);
    assert Bytes(chunks) == frame + last.data;
    if n == 0 {
      assert front == [] && frame == [];
    } else {
      FrameIsTracked(ring, t, front);
      assert front[0] == chunks[0];
    }
    var before := RingAfter(ring, front);
    assert ReadFrom(before, start)[..|frame|] == frame;
    StoreIsSplice(before, start, last.addr, |frame|, last.data);
    assert RingAfter(ring, chunks) == Store(before, last.addr, last.data);
    SpliceAtEnd(ReadFrom(before, start), |frame|, last.data);
    CaptureGrows(frame, last.data);
    assert TrackingAfter(t, chunks) == Track(TrackingAfter(t, front), last.addr, last.data);
  }

  lemma SpliceAtEnd(view: seq<Byte>, n: nat, data: seq<Byte>)
    requires n + |data| <= |view|
    ensures Splice(view, n, data)[..n + |data|] == view[..n] + data
  {
  }

  lemma CaptureGrows(frame: seq<Byte>, data: seq<Byte>)
    ensures Captured(frame + data) == Captured(frame) + data[..Min(|data|, HDR_MAX - |Captured(frame)|)]
  {
  }

  /**
    End to end: a reply written to the ring in pieces of at least 14 bytes and then sent is
    transmitted with only T3 and the checksum changed, and with a checksum a receiver accepts;
    any frame that is not recognised is transmitted as written.
   */
  lemma {:induction false} SentReplyIsPatched(
      ring: seq<Byte>, t: Tracking, chunks: seq<Chunk>, port: U16, t3: seq<Byte>)
    requires IsRing(ring) && |t.hdr| <= HDR_MAX && !t.started && IsFrameWrite(chunks) && |t3| == 8
    ensures var frame, written := Bytes(chunks), RingAfter(ring, chunks);
      IsPatchOf(Sent(written, TrackingAfter(t, chunks), port, Some(t3), ALL_OK), written, chunks[0].addr, frame,
                PlanNtpTxPatch(Captured(frame), port), port, t3)
  {
    FrameIsTracked(ring, t, chunks);
    HeldReplyIsPatched(RingAfter(ring, chunks), chunks[0].addr, Bytes(chunks),
                       Min(|Bytes(chunks)|, HDR_MAX), port, t3);
  }

  /** What is sent instead of `frame`, given the plan `p` that was made for it. */
  predicate IsPatchOf(sent: Patched, ring: seq<Byte>, fs: U16, frame: seq<Byte>, p: Plan, port: U16, t3: seq<Byte>)
    requires IsRing(sent.ring) && IsRing(ring) && |frame| <= TX_MEM_SIZE && |t3| == 8
  {
    if p.NoPatch? then !sent.patched && sent.ring == ring
    else
      && p == PlanNtpTxPatch(frame, port) && Fits(p, frame)
      && sent.patched
      && ReadFrom(sent.ring, fs) == PatchedFrame(frame, p, t3) + ReadFrom(ring, fs)[|frame|..]
      && (ValidChecksum(frame) ==> ValidChecksum(PatchedFrame(frame, p, t3)))
  }

  /** The same for a frame the ring holds from `fs` on, of which the first `n` bytes were captured. */
  lemma {:induction false} HeldReplyIsPatched(
      ring: seq<Byte>, fs: U16, frame: seq<Byte>, n: nat, port: U16, t3: seq<Byte>)
    requires Holds(ring, fs, frame) && |t3| == 8 && n <= |frame| && n <= HDR_MAX
    ensures IsPatchOf(PatchRing(ring, fs, frame[..n], port, Some(t3), ALL_OK), ring, fs, frame,
                      PlanNtpTxPatch(frame[..n], port), port, t3)
  {
    PrefixDecidesIff(frame, n, port);
    PlanDescribesFrame(frame, port);
    var p := PlanNtpTxPatch(frame[..n], port);
    if p.Patch? {
      PatchRewritesOnlyT3AndChecksum(ring, fs, frame, p, t3);
      if ValidChecksum(frame) { PatchedReplyStaysValid(frame, port, t3); }
    }
  }

  // ---- The driver's one or two pieces ----

  /** A frame the ring end splits: the second piece follows the first, and neither is empty. */
  predicate IsSplit(a: Chunk, b: Chunk) {
    && a.data != [] && b.data != [] && |a.data| + |b.data| <= TX_MEM_SIZE
    && (b.addr - a.addr - |a.data|) % TX_MEM_SIZE == 0
  }

  /** What two writes leave behind, case by case. */
  lemma {:induction false} TwoWrites(t: Tracking, a: Chunk, b: Chunk)
    requires |t.hdr| <= HDR_MAX && !t.started
    ensures TrackingAfter(t, [a]) == Track(t, a.addr, a.data)
    ensures TrackingAfter(t, [a, b]) ==
      if |a.data| >= 14 && |b.data| >= 14 then Tracking(Captured(a.data + b.data), a.addr, true)
      else if |a.data| >= 14 then Tracking(Captured(a.data), a.addr, true)
      else if |b.data| >= 14 then Tracking(Captured(b.data), b.addr, true)
      else t
  {
    assert [a, b][..1] == [a] && [a][..0] == [];
    assert TrackingAfter(t, [a]) == Track(TrackingAfter(t, []), a.addr, a.data);
    assert TrackingAfter(t, [a, b]) == Track(TrackingAfter(t, [a]), b.addr, b.data);
    CaptureGrows(a.data, b.data);
  }

  /** A frame written in one piece is tracked exactly when it is at least 14 bytes long. */
  lemma {:induction false} OnePieceIsTrackedIff(t: Tracking, a: Chunk)
    requires |t.hdr| <= HDR_MAX && !t.started
    ensures TrackingAfter(t, [a]) == Tracking(Captured(a.data), a.addr, true) <==> |a.data| >= 14
  {
    TwoWrites(t, a, a);
  }

  /**
    A frame written in two pieces: its start is found exactly when the first piece has at least 14
    bytes, and its capture is complete exactly when, besides, the second one has or is not needed to
    fill the capture.
   */
  lemma {:induction false} TwoPiecesAreTrackedIff(t: Tracking, a: Chunk, b: Chunk)
    requires |t.hdr| <= HDR_MAX && !t.started && IsSplit(a, b)
    ensures var after := TrackingAfter(t, [a, b]);
      && (after.started && after.frameStart == a.addr <==> |a.data| >= 14)
      && (after == Tracking(Captured(a.data + b.data), a.addr, true) <==>
            |a.data| >= 14 && (|b.data| >= 14 || |a.data| >= HDR_MAX))
  {
    TwoWrites(t, a, b);
    if |a.data| < 14 <= |b.data| { assert b.addr != a.addr; }
    if |a.data| < HDR_MAX { assert |Captured(a.data + b.data)| > |a.data|; }
  }

  /** How much of a two-piece frame the header buffer has seen, when the first piece was tracked. */
  function SeenOf(a: Chunk, b: Chunk): nat {
    Min(if |b.data| >= 14 then |a.data| + |b.data| else |a.data|, HDR_MAX)
  }

  /**
    What a reply in two pieces, the first of at least 14 bytes, comes to: it is sent as a correct
    patch of itself exactly when the seen part reaches the end of the NTP message, and as written
    otherwise. With a short tail only the first piece is seen.
   */
  lemma {:induction false} SplitReplyIsPatchedIff(
      ring: seq<Byte>, t: Tracking, a: Chunk, b: Chunk, port: U16, t3: seq<Byte>)
    requires IsRing(ring) && |t.hdr| <= HDR_MAX && !t.started && IsSplit(a, b) && |t3| == 8
    requires IsNtpReply(a.data + b.data, port) && |a.data| >= 14
    ensures var frame, written := a.data + b.data, Store(Store(ring, a.addr, a.data), b.addr, b.data);
      var sent := Sent(written, TrackingAfter(t, [a, b]), port, Some(t3), ALL_OK);
      && IsPatchOf(sent, written, a.addr, frame, PlanNtpTxPatch(frame[..SeenOf(a, b)], port), port, t3)
      && (sent.patched <==> Needed(frame) <= SeenOf(a, b))
  {
    var frame, n := a.data + b.data, SeenOf(a, b);
    TwoWrites(t, a, b);
    assert TrackingAfter(t, [a, b]) == Tracking(frame[..n], a.addr, true);
    TwoStoresHold(ring, a, b);
    HeldReplyIsPatched(Store(Store(ring, a.addr, a.data), b.addr, b.data), a.addr, frame, n, port, t3);
    PrefixDecidesIff(frame, n, port);
    PatchesExactlyNtpReplies(frame, port);
  }

  lemma {:induction false} TwoStoresHold(ring: seq<Byte>, a: Chunk, b: Chunk)
    requires IsRing(ring) && IsSplit(a, b)
    ensures Holds(Store(Store(ring, a.addr, a.data), b.addr, b.data), a.addr, a.data + b.data)
  {
    var first := Store(ring, a.addr, a.data);
    StoreIsSplice(ring, a.addr, a.addr, 0, a.data);
    SpliceAtEnd(ReadFrom(ring, a.addr), 0, a.data);
    StoreIsSplice(first, a.addr, b.addr, |a.data|, b.data);
    SpliceAtEnd(ReadFrom(first, a.addr), |a.data|, b.data);
    assert ReadFrom(first, a.addr)[..|a.data|] == a.data;
  }

  /**
    With a first piece shorter than 14 bytes nothing is patched unless the second piece, taken for a
    frame of its own, reads as a reply.
   */
  lemma {:induction false} ShortFirstPieceIsMissed(
      ring: seq<Byte>, t: Tracking, a: Chunk, b: Chunk, port: U16, t3: seq<Byte>)
    requires IsRing(ring) && |t.hdr| <= HDR_MAX && !t.started && |a.data| < 14 && |t3| == 8
    ensures var sent := Sent(ring, TrackingAfter(t, [a, b]), port, Some(t3), ALL_OK);
      && (sent.patched <==> |b.data| >= 14 && IsNtpReply(Captured(b.data), port))
      && (!sent.patched ==> sent.ring == ring)
  {
    TwoWrites(t, a, b);
    PatchesExactlyNtpReplies(Captured(b.data), port);
    if |b.data| >= 14 && IsNtpReply(Captured(b.data), port) {
      AllOkIsPatched(ring, b.addr, Captured(b.data), port, t3);
    }
  }

  lemma {:induction false} AllOkIsPatched(ring: seq<Byte>, fs: U16, hdr: seq<Byte>, port: U16, t3: seq<Byte>)
    requires IsRing(ring) && |hdr| <= HDR_MAX && |t3| == 8 && PlanNtpTxPatch(hdr, port).Patch?
    ensures PatchRing(ring, fs, hdr, port, Some(t3), ALL_OK).patched
  {
    var p := PlanNtpTxPatch(hdr, port);
    PlanDescribesFrame(hdr, port);
    FullWriteEffect(ring, fs, p.t3Off, t3);
    if p.csumPresent {
      FullWriteEffect(WriteField(ring, fs, p.t3Off, t3, Pair(true, true)).ring, fs, p.csumOff,
                      ChecksumBytes(UpdatedChecksum(p.oldCsum, p.oldT3, t3)));
    }
  }

  /** When the callback declines, as on a device that lost sync, every frame is sent as it was written. */
  lemma {:induction false} DeclinedReplyIsSentAsWritten(
      ring: seq<Byte>, t: Tracking, chunks: seq<Chunk>, port: U16, o: Outcomes)
    requires IsRing(ring) && |t.hdr| <= HDR_MAX && |Bytes(chunks)| <= TX_MEM_SIZE
    ensures Sent(RingAfter(ring, chunks), TrackingAfter(t, chunks), port, None, o)
         == Patched(RingAfter(ring, chunks), false)
  {
    var after := TrackingAfter(t, chunks);
    if after.started {
      DeclinedT3LeavesRing(RingAfter(ring, chunks), after.frameStart, after.hdr, port, o);
    }
  }

  /** A SEND with no tracked frame before it touches nothing. */
  lemma {:induction false} UntrackedSendLeavesRing(
      ring: seq<Byte>, t: Tracking, port: U16, t3: Option<seq<Byte>>, o: Outcomes)
    requires IsRing(ring) && |t.hdr| <= HDR_MAX && (t3.Some? ==> |t3.value| == 8) && !t.started
    ensures Sent(ring, t, port, t3, o) == Patched(ring, false)
  {
  }
}

/**
  Rewriting T3 in an NTP reply that already sits in the W5500's 16 KB transmit ring, right before
  the SEND command: recognising the reply, addressing the ring, and what the ring holds afterwards,
  also when one SPI transfer fails.
 */
module TxPatch {
  import opened Wrappers
  import opened MachineInts
  import opened UdpChecksum

  const TX_MEM_SIZE := 0x4000
  const HDR_MAX := 128

  // ---- Recognising our own reply ----

  datatype Plan =
    | NoPatch
    | Patch(t3Off: nat, csumOff: nat, csumPresent: bool, oldCsum: U16, oldT3: seq<Byte>)

  /** `plan_ntp_tx_patch`: decides from the captured start of a frame. */
  function PlanNtpTxPatch(frame: seq<Byte>, serverPort: U16): Plan {
    if |frame| < ETH_HDR_LEN + 20 then NoPatch
    else if Word(frame[12], frame[13]) != 0x0800 then NoPatch
    else if frame[ETH_HDR_LEN] / 16 != 4 || frame[ETH_HDR_LEN] % 16 < 5 then NoPatch
    else
      var udp := UdpOffset(frame);
      if |frame| < udp + UDP_HDR_LEN then NoPatch
      else if frame[ETH_HDR_LEN + 9] != IP_PROTO_UDP then NoPatch
      else if Word(frame[udp], frame[udp + 1]) != serverPort then NoPatch
      else if Word(frame[udp + 4], frame[udp + 5]) < UDP_HDR_LEN + NTP_PACKET_SIZE then NoPatch
      else
        var ntp := udp + UDP_HDR_LEN;
        if |frame| < ntp + NTP_PACKET_SIZE then NoPatch
        else if frame[ntp] % 8 != 4 then NoPatch
        else PlanAt(frame, udp)
  }

  /** The plan for the reply whose UDP header is at `udp`. */
  function PlanAt(frame: seq<Byte>, udp: nat): Plan
    requires udp + UDP_HDR_LEN + NTP_PACKET_SIZE <= |frame|
  {
    var ntp, csum := udp + UDP_HDR_LEN, Word(frame[udp + 6], frame[udp + 7]);
    Patch(ntp + 40, udp + 6, csum != 0, csum, frame[ntp + 40..ntp + 48])
  }

  lemma PlanAtFits(frame: seq<Byte>, udp: nat)
    requires udp + UDP_HDR_LEN + NTP_PACKET_SIZE <= |frame|
    ensures var p := PlanAt(frame, udp); Fits(p, frame) && (p.csumPresent <==> p.oldCsum != 0)
  {
    WordBytes(frame[udp + 6], frame[udp + 7]);
    assert frame[udp + 6..udp + 8] == [frame[udp + 6], frame[udp + 7]];
  }

  /**
    An NTP server reply, read layer by layer: an IPv4 packet in an Ethernet frame, its UDP datagram
    from the server's port, and in that a whole NTP message of mode 4.
   */
  predicate IsNtpReply(frame: seq<Byte>, port: U16) {
    && |frame| >= ETH_HDR_LEN && frame[12..14] == [0x08, 0x00]
    && IsNtpPacket(frame[ETH_HDR_LEN..], port)
  }

  predicate IsNtpPacket(ip: seq<Byte>, port: U16) {
    && |ip| >= 20 && ip[0] / 16 == 4 && ip[0] % 16 >= 5 && ip[9] == IP_PROTO_UDP
    && ip[0] % 16 * 4 <= |ip|
    && IsNtpDatagram(ip[ip[0] % 16 * 4..], port)
  }

  predicate IsNtpDatagram(udp: seq<Byte>, port: U16) {
    && |udp| >= UDP_HDR_LEN
    && Word(udp[0], udp[1]) == port && Word(udp[4], udp[5]) >= UDP_HDR_LEN + NTP_PACKET_SIZE
    && IsServerMessage(udp[UDP_HDR_LEN..])
  }

  predicate IsServerMessage(ntp: seq<Byte>) {
    |ntp| >= NTP_PACKET_SIZE && ntp[0] % 8 == 4
  }

  /** The UDP layer, by offset into the frame. */
  lemma DatagramAt(frame: seq<Byte>, udp: nat, port: U16)
    requires udp <= |frame|
    ensures IsNtpDatagram(frame[udp..], port) <==>
      && udp + UDP_HDR_LEN + NTP_PACKET_SIZE <= |frame|
      && Word(frame[udp], frame[udp + 1]) == port
      && Word(frame[udp + 4], frame[udp + 5]) >= UDP_HDR_LEN + NTP_PACKET_SIZE
      && frame[udp + UDP_HDR_LEN] % 8 == 4
  {
    var d := frame[udp..];
    if |d| >= UDP_HDR_LEN {
      assert d[0] == frame[udp] && d[1] == frame[udp + 1] && d[4] == frame[udp + 4] && d[5] == frame[udp + 5];
      var m := d[UDP_HDR_LEN..];
      assert |m| > 0 ==> m[0] == frame[udp + UDP_HDR_LEN];
    }
  }

  /** The IPv4 layer. */
  lemma PacketAt(frame: seq<Byte>, port: U16)
    requires |frame| >= ETH_HDR_LEN + 20
    ensures IsNtpPacket(frame[ETH_HDR_LEN..], port) <==>
      && frame[ETH_HDR_LEN] / 16 == 4 && frame[ETH_HDR_LEN] % 16 >= 5 && frame[ETH_HDR_LEN + 9] == IP_PROTO_UDP
      && UdpOffset(frame) <= |frame|
      && IsNtpDatagram(frame[UdpOffset(frame)..], port)
  {
    var ip := frame[ETH_HDR_LEN..];
    var n := ip[0] % 16 * 4;
    assert ip[0] == frame[ETH_HDR_LEN] && ip[9] == frame[ETH_HDR_LEN + 9];
    if n <= |ip| { assert ip[n..] == frame[ETH_HDR_LEN + n..]; }
  }

  lemma TypeField(frame: seq<Byte>)
    requires |frame| >= ETH_HDR_LEN
    ensures frame[12..14] == [0x08, 0x00] <==> Word(frame[12], frame[13]) == 0x0800
  {
    assert frame[12..14] == [frame[12], frame[13]];
  }

  /** A plan is made for exactly the NTP replies. */
  lemma {:induction false} PatchesExactlyNtpReplies(frame: seq<Byte>, port: U16)
    ensures PlanNtpTxPatch(frame, port).Patch? <==> IsNtpReply(frame, port)
  {
    if |frame| >= ETH_HDR_LEN + 20 {
      TypeField(frame);
      PacketAt(frame, port);
      if UdpOffset(frame) <= |frame| { DatagramAt(frame, UdpOffset(frame), port); }
    }
  }

  /** What a patch plan promises about the frame it was made from. */
  lemma {:induction false} PlanDescribesFrame(frame: seq<Byte>, port: U16)
    ensures var p := PlanNtpTxPatch(frame, port);
      p.Patch? ==> Fits(p, frame) && (p.csumPresent <==> p.oldCsum != 0)
  {
    if PlanNtpTxPatch(frame, port).Patch? {
      PlanAtFits(frame, UdpOffset(frame));
    }
  }

  lemma WordBytes(hi: Byte, lo: Byte)
    ensures ChecksumBytes(Word(hi, lo)) == [hi, lo]
  {
  }

  /** The plan's fields lie in the frame and its saved bytes are the frame's. */
  predicate Fits(p: Plan, frame: seq<Byte>) {
    && p.Patch?
    && p.t3Off + 8 <= |frame| && p.csumOff + 42 == p.t3Off
    && |p.oldT3| == 8 && p.oldT3 == frame[p.t3Off..p.t3Off + 8]
    && ChecksumBytes(p.oldCsum) == frame[p.csumOff..p.csumOff + 2]
  }

  /** The length up to which a frame must be seen to be recognised: through the end of the NTP message. */
  function Needed(frame: seq<Byte>): nat
    requires |frame| > ETH_HDR_LEN
  {
    UdpOffset(frame) + UDP_HDR_LEN + NTP_PACKET_SIZE
  }

  /**
    Deciding from a prefix: an accepted prefix gives the whole frame's plan, and the only frames
    decided otherwise than in full are replies of which the prefix misses a part it needs.
   */
  lemma {:induction false} PrefixDecidesIff(frame: seq<Byte>, n: nat, port: U16)
    requires n <= |frame|
    ensures PlanNtpTxPatch(frame[..n], port).Patch? ==> PlanNtpTxPatch(frame[..n], port) == PlanNtpTxPatch(frame, port)
    ensures PlanNtpTxPatch(frame[..n], port) == PlanNtpTxPatch(frame, port) <==>
      !(IsNtpReply(frame, port) && n < Needed(frame))
  {
    var prefix := frame[..n];
    PatchesExactlyNtpReplies(frame, port);
    if n > ETH_HDR_LEN && Needed(frame) <= n {
      var t3 := UdpOffset(frame) + T3_IN_DATAGRAM;
      assert prefix[t3..t3 + 8] == frame[t3..t3 + 8];
    }
  }

  /**
    Deciding from the 128 bytes that are captured goes wrong for exactly the replies with an IPv4
    header of 60 bytes, which are then left alone.
   */
  lemma {:induction false} CaptureDecidesIff(frame: seq<Byte>, port: U16)
    ensures PlanNtpTxPatch(Captured(frame), port).Patch? ==>
      PlanNtpTxPatch(Captured(frame), port) == PlanNtpTxPatch(frame, port)
    ensures PlanNtpTxPatch(Captured(frame), port) == PlanNtpTxPatch(frame, port) <==>
      !(IsNtpReply(frame, port) && frame[ETH_HDR_LEN] % 16 == 15)
  {
    PrefixDecidesIff(frame, Min(|frame|, HDR_MAX), port);
    if IsNtpReply(frame, port) {
      PatchesExactlyNtpReplies(frame, port);
      assert Needed(frame) <= |frame|;
    }
  }

  /** What the header buffer has captured of a fully tracked frame. */
  function Captured(frame: seq<Byte>): (hdr: seq<Byte>)
    ensures |hdr| <= HDR_MAX
  {
    frame[..Min(|frame|, HDR_MAX)]
  }

  // ---- Ring addressing ----

  datatype RingWrite = RingWrite(addr: U16, len: nat, src: nat)

  /** `plan_ring_writes`: one write, or two when the range reaches past the end of the ring. */
  function PlanRingWrites(frameStart: U16, relOff: nat, n: nat): seq<RingWrite> {
    var start := frameStart % TX_MEM_SIZE + relOff;
    if start < TX_MEM_SIZE && start + n > TX_MEM_SIZE then
      var first := TX_MEM_SIZE - start;
      [RingWrite(start, first, 0), RingWrite(TX_MEM_SIZE, n - first, first)]
    else
      [RingWrite(start % 0x1_0000, n, 0)]
  }

  /** The planned writes are the source range in order, and none crosses a 16 KB boundary. */
  lemma {:induction false} PlannedWritesDoNotCross(frameStart: U16, relOff: nat, n: nat)
    requires relOff + n <= TX_MEM_SIZE
    ensures var ws := PlanRingWrites(frameStart, relOff, n);
      && (forall i :: 0 <= i < |ws| ==> ws[i].len > 0 || n == 0)
      && (forall i :: 0 <= i < |ws| ==> ws[i].addr % TX_MEM_SIZE + ws[i].len <= TX_MEM_SIZE)
      && (forall i :: 0 <= i < |ws| ==> (ws[i].addr - ws[i].src - frameStart - relOff) % TX_MEM_SIZE == 0)
      && ws[0].src == 0
      && (|ws| == 2 ==> ws[1].src == ws[0].len)
      && ws[|ws| - 1].src + ws[|ws| - 1].len == n
  {
  }

  predicate IsRing(ring: seq<Byte>) {
    |ring| == TX_MEM_SIZE
  }

  /** A write of `data` at ring address `addr`; the chip ignores the address bits above the ring. */
  function Store(ring: seq<Byte>, addr: nat, data: seq<Byte>): (r: seq<Byte>)
    requires IsRing(ring) && |data| <= TX_MEM_SIZE
    ensures IsRing(r)
  {
    seq(TX_MEM_SIZE, p requires 0 <= p < TX_MEM_SIZE =>
      var k := (p - addr) % TX_MEM_SIZE;
      if k < |data| then data[k] else ring[p])
  }

  /** A store one byte longer. */
  lemma {:induction false} StoreOneMore(ring: seq<Byte>, addr: nat, data: seq<Byte>, i: nat)
    requires IsRing(ring) && i < |data| <= TX_MEM_SIZE
    ensures Store(ring, addr, data[..i + 1]) == Store(ring, addr, data[..i])[(addr + i) % TX_MEM_SIZE := data[i]]
  {
    var more, less := Store(ring, addr, data[..i + 1]), Store(ring, addr, data[..i]);
    var at := (addr + i) % TX_MEM_SIZE;
    forall p | 0 <= p < TX_MEM_SIZE
      ensures more[p] == less[at := data[i]][p]
    {
      assert (p - addr) % TX_MEM_SIZE == i <==> p == at;
    }
  }

  /** The ring read from address `start`, all the way round. */
  function ReadFrom(ring: seq<Byte>, start: nat): (r: seq<Byte>)
    requires IsRing(ring)
    ensures IsRing(r)
  {
    seq(TX_MEM_SIZE, i requires 0 <= i < TX_MEM_SIZE => ring[(start + i) % TX_MEM_SIZE])
  }

  lemma {:induction false} StoreIsSplice(ring: seq<Byte>, start: nat, addr: nat, off: nat, data: seq<Byte>)
    requires IsRing(ring) && off + |data| <= TX_MEM_SIZE
    requires (addr - start - off) % TX_MEM_SIZE == 0
    ensures ReadFrom(Store(ring, addr, data), start) == Splice(ReadFrom(ring, start), off, data)
  {
    var after, want := ReadFrom(Store(ring, addr, data), start), Splice(ReadFrom(ring, start), off, data);
    forall i | 0 <= i < TX_MEM_SIZE
      ensures after[i] == want[i]
    {
      var p := (start + i) % TX_MEM_SIZE;
      var k := (p - addr) % TX_MEM_SIZE;
      assert k == (i - off) % TX_MEM_SIZE;
    }
  }

  // ---- Patching the ring ----

  /** Whether each of the (up to two) SPI transfers of one field write succeeded. */
  datatype Pair = Pair(first: bool, second: bool)

  /** The fate of every transfer one SEND can make; those not made are ignored. */
  datatype Outcomes = Outcomes(t3: Pair, csum: Pair, restore: Pair)

  const ALL_OK := Outcomes(Pair(true, true), Pair(true, true), Pair(true, true))

  datatype Written = Written(ring: seq<Byte>, ok: bool)

  /** `patch_write_ring`: every planned write is attempted; a failed transfer has no effect. */
  function WriteField(ring: seq<Byte>, frameStart: U16, relOff: nat, src: seq<Byte>, o: Pair): (r: Written)
    requires IsRing(ring) && 0 < |src| && relOff + |src| <= TX_MEM_SIZE
    ensures IsRing(r.ring)
  {
    var ws := PlanRingWrites(frameStart, relOff, |src|);
    PlannedWritesDoNotCross(frameStart, relOff, |src|);
    var r0 := if o.first then Store(ring, ws[0].addr, src[..ws[0].len]) else ring;
    if |ws| == 1 then Written(r0, o.first)
    else Written(if o.second then Store(r0, ws[1].addr, src[ws[1].src..]) else r0, o.first && o.second)
  }

  datatype Patched = Patched(ring: seq<Byte>, patched: bool)

  /** The rewrite itself, for an accepted plan: T3, then the checksum, and a restore of T3 if that fails. */
  function PatchPlanned(ring: seq<Byte>, frameStart: U16, p: Plan, t3: seq<Byte>, o: Outcomes): (r: Patched)
    requires IsRing(ring) && |t3| == 8
    requires p.Patch? && |p.oldT3| == 8 && p.csumOff + 42 == p.t3Off && p.t3Off + 8 <= TX_MEM_SIZE
    ensures IsRing(r.ring)
  {
    var w := WriteField(ring, frameStart, p.t3Off, t3, o.t3);
    if !w.ok then Patched(w.ring, false)
    else if !p.csumPresent then Patched(w.ring, true)
    else
      var c := WriteField(w.ring, frameStart, p.csumOff,
                          ChecksumBytes(UpdatedChecksum(p.oldCsum, p.oldT3, t3)), o.csum);
      if c.ok then Patched(c.ring, true)
      else Patched(WriteField(c.ring, frameStart, p.t3Off, p.oldT3, o.restore).ring, false)
  }

  /** The part of the SEND callback that runs before the SEND transfer itself. */
  function PatchRing(ring: seq<Byte>, frameStart: U16, hdr: seq<Byte>, port: U16,
                     t3: Option<seq<Byte>>, o: Outcomes): (r: Patched)
    requires IsRing(ring) && |hdr| <= HDR_MAX && (t3.Some? ==> |t3.value| == 8)
    ensures IsRing(r.ring)
  {
    var p := PlanNtpTxPatch(hdr, port);
    PlanDescribesFrame(hdr, port);
    if p.NoPatch? || t3.None? then Patched(ring, false) else PatchPlanned(ring, frameStart, p, t3.value, o)
  }

  /** The field reaches past the end of the ring, so it takes two transfers. */
  predicate Straddles(frameStart: U16, relOff: nat, n: nat) {
    frameStart % TX_MEM_SIZE + relOff < TX_MEM_SIZE < frameStart % TX_MEM_SIZE + relOff + n
  }

  /** Where a straddling field is split. */
  function SplitAt(frameStart: U16, relOff: nat, n: nat): nat
    requires Straddles(frameStart, relOff, n)
  {
    TX_MEM_SIZE - frameStart % TX_MEM_SIZE - relOff
  }

  lemma {:induction false} TwoWritesIffStraddling(fs: U16, relOff: nat, n: nat)
    requires 0 < n && relOff + n <= TX_MEM_SIZE
    ensures var ws := PlanRingWrites(fs, relOff, n);
      if Straddles(fs, relOff, n)
      then |ws| == 2 && ws[0].len == ws[1].src == SplitAt(fs, relOff, n)
        && (ws[0].addr - fs - relOff) % TX_MEM_SIZE == 0
        && (ws[1].addr - fs - (relOff + ws[0].len)) % TX_MEM_SIZE == 0
      else |ws| == 1 && ws[0].len == n && (ws[0].addr - fs - relOff) % TX_MEM_SIZE == 0
  {
  }

  /** A field inside the ring is written by one transfer: all of it or nothing. */
  lemma {:induction false} InnerWriteEffect(ring: seq<Byte>, fs: U16, relOff: nat, src: seq<Byte>, o: Pair)
    requires IsRing(ring) && 0 < |src| && relOff + |src| <= TX_MEM_SIZE
    requires !Straddles(fs, relOff, |src|)
    ensures var w := WriteField(ring, fs, relOff, src, o);
      && w.ok == o.first
      && (!w.ok ==> w.ring == ring)
      && (w.ok ==> ReadFrom(w.ring, fs) == Splice(ReadFrom(ring, fs), relOff, src))
  {
    TwoWritesIffStraddling(fs, relOff, |src|);
    assert src[..|src|] == src;
    StoreIsSplice(ring, fs, PlanRingWrites(fs, relOff, |src|)[0].addr, relOff, src);
  }

  /** `view` with the part of `src` from `k` on, or before it, replaced if that transfer succeeded. */
  function HalfSpliced(view: seq<Byte>, off: nat, bytes: seq<Byte>, ok: bool): seq<Byte>
    requires off + |bytes| <= |view|
  {
    if ok then Splice(view, off, bytes) else view
  }

  /** A straddling field is written by two independent transfers, each of which may fail alone. */
  lemma {:induction false} StraddlingWriteEffect(ring: seq<Byte>, fs: U16, relOff: nat, src: seq<Byte>, o: Pair)
    requires IsRing(ring) && 0 < |src| && relOff + |src| <= TX_MEM_SIZE
    requires Straddles(fs, relOff, |src|)
    ensures var w, k := WriteField(ring, fs, relOff, src, o), SplitAt(fs, relOff, |src|);
      && w.ok == (o.first && o.second)
      && ReadFrom(w.ring, fs) ==
           HalfSpliced(HalfSpliced(ReadFrom(ring, fs), relOff, src[..k], o.first), relOff + k, src[k..], o.second)
  {
    var ws, k := PlanRingWrites(fs, relOff, |src|), SplitAt(fs, relOff, |src|);
    TwoWritesIffStraddling(fs, relOff, |src|);
    StoreIsSplice(ring, fs, ws[0].addr, relOff, src[..k]);
    var r0 := if o.first then Store(ring, ws[0].addr, src[..k]) else ring;
    StoreIsSplice(r0, fs, ws[1].addr, relOff + k, src[k..]);
  }

  /** With every transfer succeeding, a field write is a splice wherever the field lies. */
  lemma {:induction false} FullWriteEffect(ring: seq<Byte>, fs: U16, relOff: nat, src: seq<Byte>)
    requires IsRing(ring) && 0 < |src| && relOff + |src| <= TX_MEM_SIZE
    ensures var w := WriteField(ring, fs, relOff, src, Pair(true, true));
      w.ok && ReadFrom(w.ring, fs) == Splice(ReadFrom(ring, fs), relOff, src)
  {
    if Straddles(fs, relOff, |src|) {
      var k := SplitAt(fs, relOff, |src|);
      StraddlingWriteEffect(ring, fs, relOff, src, Pair(true, true));
      SpliceInTwo(ReadFrom(ring, fs), relOff, src, k);
    } else {
      InnerWriteEffect(ring, fs, relOff, src, Pair(true, true));
    }
  }

  lemma {:induction false} SpliceInTwo(view: seq<Byte>, off: nat, src: seq<Byte>, k: nat)
    requires off + |src| <= |view| && k <= |src|
    ensures Splice(Splice(view, off, src[..k]), off + k, src[k..]) == Splice(view, off, src)
  {
  }

  // ---- The patch preserves meaning ----

  /** The ring holds `frame`, starting at ring address `fs`. */
  predicate Holds(ring: seq<Byte>, fs: U16, frame: seq<Byte>) {
    IsRing(ring) && |frame| <= TX_MEM_SIZE && ReadFrom(ring, fs)[..|frame|] == frame
  }

  /** The reply as it should leave: new T3, and the checksum that goes with it if there was one. */
  function PatchedFrame(frame: seq<Byte>, p: Plan, t3: seq<Byte>): seq<Byte>
    requires Fits(p, frame) && |t3| == 8
  {
    var f := Splice(frame, p.t3Off, t3);
    if p.csumPresent
    then Splice(f, p.csumOff, ChecksumBytes(UpdatedChecksum(p.oldCsum, p.oldT3, t3)))
    else f
  }

  lemma {:induction false} SpliceOfPrefix(view: seq<Byte>, n: nat, off: nat, bytes: seq<Byte>)
    requires n <= |view| && off + |bytes| <= n
    ensures Splice(view, off, bytes) == Splice(view[..n], off, bytes) + view[n..]
  {
  }

  /**
    With every transfer succeeding, the ring read from the frame's start is the patched frame
    followed by exactly what followed the old one: only T3 and the checksum changed anywhere in
    the 16 KB.
   */
  lemma {:induction false} PatchRewritesOnlyT3AndChecksum(
      ring: seq<Byte>, fs: U16, frame: seq<Byte>, p: Plan, t3: seq<Byte>)
    requires Holds(ring, fs, frame) && |t3| == 8 && Fits(p, frame)
    ensures var r := PatchPlanned(ring, fs, p, t3, ALL_OK);
      r.patched && ReadFrom(r.ring, fs) == PatchedFrame(frame, p, t3) + ReadFrom(ring, fs)[|frame|..]
  {
    var view := ReadFrom(ring, fs);
    FullWriteEffect(ring, fs, p.t3Off, t3);
    SpliceOfPrefix(view, |frame|, p.t3Off, t3);
    if p.csumPresent {
      var w := WriteField(ring, fs, p.t3Off, t3, Pair(true, true));
      var c := ChecksumBytes(UpdatedChecksum(p.oldCsum, p.oldT3, t3));
      FullWriteEffect(w.ring, fs, p.csumOff, c);
      SpliceOfPrefix(ReadFrom(w.ring, fs), |frame|, p.csumOff, c);
      assert ReadFrom(w.ring, fs)[..|frame|] == Splice(frame, p.t3Off, t3);
      assert ReadFrom(w.ring, fs)[|frame|..] == view[|frame|..];
    }
  }

  lemma {:induction false} PlanFieldsAreUdpFields(frame: seq<Byte>, port: U16)
    requires IsUdpFrame(frame) && PlanNtpTxPatch(frame, port).Patch?
    ensures var p := PlanNtpTxPatch(frame, port);
      && UdpLength(frame) >= UDP_HDR_LEN + NTP_PACKET_SIZE
      && p == Patch(T3Offset(frame), UdpOffset(frame) + 6, StoredChecksum(frame) != 0, StoredChecksum(frame),
                    frame[T3Offset(frame)..T3Offset(frame) + 8])
  {
  }

  /** A reply whose UDP checksum was right is still right after the patch. */
  lemma {:induction false} PatchedReplyStaysValid(frame: seq<Byte>, port: U16, t3: seq<Byte>)
    requires ValidChecksum(frame) && |t3| == 8 && PlanNtpTxPatch(frame, port).Patch?
    ensures var p := PlanNtpTxPatch(frame, port);
      p.csumPresent && Fits(p, frame) && ValidChecksum(PatchedFrame(frame, p, t3))
  {
    PlanDescribesFrame(frame, port);
    PlanFieldsAreUdpFields(frame, port);
    FinishIsResidue(RawSum(frame));
    T3LeavesHeaders(frame, t3);
    PatchKeepsChecksumValid(frame, t3);
  }

  // ---- One failed transfer ----

  /** The one failing transfer is number `f` (none, if there is no such transfer). */
  function FailOnly(f: nat): Outcomes {
    Outcomes(Pair(f != 0, f != 1), Pair(f != 2, f != 3), Pair(f != 4, f != 5))
  }

  /** Nothing in the ring changed, or the whole patch was made; and `patched` says which. */
  predicate AllOrNothing(before: seq<Byte>, after: Patched, fs: U16, frame: seq<Byte>, p: Plan, t3: seq<Byte>)
    requires Holds(before, fs, frame) && IsRing(after.ring) && Fits(p, frame) && |t3| == 8
  {
    if after.patched
    then ReadFrom(after.ring, fs) == PatchedFrame(frame, p, t3) + ReadFrom(before, fs)[|frame|..]
    else after.ring == before
  }

  lemma {:induction false} SameViewSameRing(a: seq<Byte>, b: seq<Byte>, start: nat)
    requires IsRing(a) && IsRing(b) && ReadFrom(a, start) == ReadFrom(b, start)
    ensures a == b
  {
    forall q | 0 <= q < TX_MEM_SIZE
      ensures a[q] == b[q]
    {
      var i := (q - start) % TX_MEM_SIZE;
      assert ReadFrom(a, start)[i] == a[(start + i) % TX_MEM_SIZE];
      assert ReadFrom(b, start)[i] == b[(start + i) % TX_MEM_SIZE];
      assert (start + i) % TX_MEM_SIZE == q;
    }
  }

  /** Undoing a splice with the bytes it replaced. */
  lemma {:induction false} SpliceBack(view: seq<Byte>, off: nat, bytes: seq<Byte>)
    requires off + |bytes| <= |view|
    ensures Splice(Splice(view, off, bytes), off, view[off..off + |bytes|]) == view
  {
  }

  /** Splicing in the bytes that are already there. */
  lemma {:induction false} SpliceSame(view: seq<Byte>, off: nat, n: nat)
    requires off + n <= |view|
    ensures Splice(view, off, view[off..off + n]) == view
  {
  }

  lemma {:induction false} RestoreUndoesT3(ring: seq<Byte>, fs: U16, off: nat, t3: seq<Byte>, oldT3: seq<Byte>)
    requires IsRing(ring) && |t3| == |oldT3| == 8 && off + 8 <= TX_MEM_SIZE
    requires ReadFrom(ring, fs)[off..off + 8] == oldT3
    ensures var w := WriteField(ring, fs, off, t3, Pair(true, true)).ring;
      WriteField(w, fs, off, oldT3, Pair(true, true)).ring == ring
  {
    var w := WriteField(ring, fs, off, t3, Pair(true, true)).ring;
    FullWriteEffect(ring, fs, off, t3);
    FullWriteEffect(w, fs, off, oldT3);
    SpliceBack(ReadFrom(ring, fs), off, t3);
    SameViewSameRing(WriteField(w, fs, off, oldT3, Pair(true, true)).ring, ring, fs);
  }

  lemma {:induction false} HalvesAreNeutral(view: seq<Byte>, off: nat, src: seq<Byte>, k: nat, o: Pair)
    requires off + |src| <= |view| && k <= |src| && view[off..off + |src|] == src
    ensures HalfSpliced(HalfSpliced(view, off, src[..k], o.first), off + k, src[k..], o.second) == view
  {
    SliceOfSlice(view, off, |src|, 0, k);
    SliceOfSlice(view, off, |src|, k, |src|);
    SpliceSame(view, off, k);
    SpliceSame(view, off + k, |src| - k);
  }

  lemma {:induction false} StraddlingRewrite(ring: seq<Byte>, fs: U16, off: nat, src: seq<Byte>, o: Pair)
    requires IsRing(ring) && 0 < |src| && off + |src| <= TX_MEM_SIZE && Straddles(fs, off, |src|)
    requires ReadFrom(ring, fs)[off..off + |src|] == src
    ensures ReadFrom(WriteField(ring, fs, off, src, o).ring, fs) == ReadFrom(ring, fs)
  {
    var view, k := ReadFrom(ring, fs), SplitAt(fs, off, |src|);
    HalvesAreNeutral(view, off, src, k, o);
    StraddlingWriteEffect(ring, fs, off, src, o);
    assert ReadFrom(WriteField(ring, fs, off, src, o).ring, fs)
        == HalfSpliced(HalfSpliced(view, off, src[..k], o.first), off + k, src[k..], o.second);
  }

  /** Writing the bytes that are already there changes nothing, whichever transfers fail. */
  lemma {:induction false} RewriteIsNeutral(ring: seq<Byte>, fs: U16, off: nat, src: seq<Byte>, o: Pair)
    requires IsRing(ring) && 0 < |src| && off + |src| <= TX_MEM_SIZE
    requires ReadFrom(ring, fs)[off..off + |src|] == src
    ensures WriteField(ring, fs, off, src, o).ring == ring
  {
    var w := WriteField(ring, fs, off, src, o);
    if Straddles(fs, off, |src|) {
      StraddlingRewrite(ring, fs, off, src, o);
      SameViewSameRing(w.ring, ring, fs);
    } else {
      InnerWriteEffect(ring, fs, off, src, o);
      if w.ok {
        SpliceSame(ReadFrom(ring, fs), off, |src|);
        SameViewSameRing(w.ring, ring, fs);
      }
    }
  }

  lemma {:induction false} OneHalfShows(view: seq<Byte>, off: nat, src: seq<Byte>, k: nat, j: nat)
    requires off + |src| <= |view| && k <= |src| && j < |src|
    ensures HalfSpliced(HalfSpliced(view, off, src[..k], j < k), off + k, src[k..], j >= k)[off + j] == src[j]
  {
    if j >= k {
      assert src[k..][j - k] == src[j];
    }
  }

  /** The transfer that carries byte `j` succeeds, the other fails. */
  function OnlyHalfWith(fs: U16, off: nat, n: nat, j: nat): Pair
    requires Straddles(fs, off, n)
  {
    Pair(j < SplitAt(fs, off, n), j >= SplitAt(fs, off, n))
  }

  lemma {:induction false} OnlyHalfWrites(ring: seq<Byte>, fs: U16, off: nat, src: seq<Byte>, j: nat)
    requires IsRing(ring) && off + |src| <= TX_MEM_SIZE && j < |src| && Straddles(fs, off, |src|)
    ensures ReadFrom(WriteField(ring, fs, off, src, OnlyHalfWith(fs, off, |src|, j)).ring, fs)[off + j] == src[j]
  {
    StraddlingWriteEffect(ring, fs, off, src, OnlyHalfWith(fs, off, |src|, j));
    OneHalfShows(ReadFrom(ring, fs), off, src, SplitAt(fs, off, |src|), j);
  }

  /** A straddling field with new bytes: one of its two transfers failing alone leaves a torn field. */
  lemma {:induction false} StraddlingWriteTears(ring: seq<Byte>, fs: U16, off: nat, src: seq<Byte>)
    returns (o: Pair, i: nat)
    requires IsRing(ring) && off + |src| <= TX_MEM_SIZE && Straddles(fs, off, |src|)
    requires ReadFrom(ring, fs)[off..off + |src|] != src
    ensures o.first != o.second && off <= i < off + |src|
    ensures ReadFrom(WriteField(ring, fs, off, src, o).ring, fs)[i] != ReadFrom(ring, fs)[i]
  {
    var j := FirstDifference(ReadFrom(ring, fs)[off..off + |src|], src);
    i, o := off + j, OnlyHalfWith(fs, off, |src|, j);
    OnlyHalfWrites(ring, fs, off, src, j);
  }

  lemma FirstDifference(a: seq<Byte>, b: seq<Byte>) returns (j: nat)
    requires |a| == |b| && a != b
    ensures j < |a| && a[j] != b[j]
  {
    j :| j < |a| && a[j] != b[j];
  }

  /**
    The condition under which no single failure can tear the reply: a field that straddles the ring
    end keeps its bytes. (The restore path puts T3 back, but never half a field.)
   */
  predicate NoTornField(fs: U16, p: Plan, t3: seq<Byte>)
    requires p.Patch? && |p.oldT3| == |t3| == 8
  {
    && (Straddles(fs, p.t3Off, 8) ==> t3 == p.oldT3)
    && (p.csumPresent && Straddles(fs, p.csumOff, 2) ==> UpdatedChecksum(p.oldCsum, p.oldT3, t3) == p.oldCsum)
  }

  lemma {:induction false} OldFieldsInView(ring: seq<Byte>, fs: U16, frame: seq<Byte>, p: Plan)
    requires Holds(ring, fs, frame) && Fits(p, frame)
    ensures ReadFrom(ring, fs)[p.t3Off..p.t3Off + 8] == p.oldT3
    ensures ReadFrom(ring, fs)[p.csumOff..p.csumOff + 2] == ChecksumBytes(p.oldCsum)
  {
    SliceOfSlice(ReadFrom(ring, fs), 0, |frame|, p.t3Off, p.t3Off + 8);
    SliceOfSlice(ReadFrom(ring, fs), 0, |frame|, p.csumOff, p.csumOff + 2);
  }

  /** The checksum field as it stands once T3 has been written. */
  lemma {:induction false} ChecksumAfterT3(ring: seq<Byte>, fs: U16, frame: seq<Byte>, p: Plan, t3: seq<Byte>)
    requires Holds(ring, fs, frame) && |t3| == 8 && Fits(p, frame)
    ensures ReadFrom(WriteField(ring, fs, p.t3Off, t3, Pair(true, true)).ring, fs)[p.csumOff..p.csumOff + 2]
         == ChecksumBytes(p.oldCsum)
  {
    OldFieldsInView(ring, fs, frame, p);
    FullWriteEffect(ring, fs, p.t3Off, t3);
    assert Splice(ReadFrom(ring, fs), p.t3Off, t3)[p.csumOff..p.csumOff + 2]
        == ReadFrom(ring, fs)[p.csumOff..p.csumOff + 2];
  }

  lemma {:induction false} FailedChecksumIsUndone(
      ring: seq<Byte>, fs: U16, frame: seq<Byte>, p: Plan, t3: seq<Byte>, o: Pair)
    requires Holds(ring, fs, frame) && |t3| == 8 && Fits(p, frame) && p.csumPresent && NoTornField(fs, p, t3)
    requires o.first != o.second
    ensures var w := WriteField(ring, fs, p.t3Off, t3, Pair(true, true)).ring;
      var c := WriteField(w, fs, p.csumOff, ChecksumBytes(UpdatedChecksum(p.oldCsum, p.oldT3, t3)), o);
      !c.ok ==> WriteField(c.ring, fs, p.t3Off, p.oldT3, Pair(true, true)).ring == ring
  {
    var w := WriteField(ring, fs, p.t3Off, t3, Pair(true, true)).ring;
    var c := ChecksumBytes(UpdatedChecksum(p.oldCsum, p.oldT3, t3));
    if Straddles(fs, p.csumOff, 2) {
      ChecksumAfterT3(ring, fs, frame, p, t3);
      RewriteIsNeutral(w, fs, p.csumOff, c, o);
    } else {
      InnerWriteEffect(w, fs, p.csumOff, c, o);
    }
    OldFieldsInView(ring, fs, frame, p);
    RestoreUndoesT3(ring, fs, p.t3Off, t3, p.oldT3);
  }

  lemma {:induction false} SafeUnderOneFailure(
      ring: seq<Byte>, fs: U16, frame: seq<Byte>, p: Plan, t3: seq<Byte>, f: nat)
    requires Holds(ring, fs, frame) && |t3| == 8 && Fits(p, frame) && NoTornField(fs, p, t3)
    ensures AllOrNothing(ring, PatchPlanned(ring, fs, p, t3, FailOnly(f)), fs, frame, p, t3)
  {
    var o := FailOnly(f);
    PatchRewritesOnlyT3AndChecksum(ring, fs, frame, p, t3);
    if f < 2 {
      OldFieldsInView(ring, fs, frame, p);
      if Straddles(fs, p.t3Off, 8) {
        RewriteIsNeutral(ring, fs, p.t3Off, t3, o.t3);
        StraddlingWriteEffect(ring, fs, p.t3Off, t3, o.t3);
      } else {
        TwoWritesIffStraddling(fs, p.t3Off, 8);
      }
    } else if f < 4 && p.csumPresent {
      FailedChecksumIsUndone(ring, fs, frame, p, t3, o.csum);
      TwoWritesIffStraddling(fs, p.csumOff, 2);
    }
  }

  lemma {:induction false} TornT3(ring: seq<Byte>, fs: U16, frame: seq<Byte>, p: Plan, t3: seq<Byte>)
    returns (f: nat)
    requires Holds(ring, fs, frame) && |t3| == 8 && Fits(p, frame)
    requires Straddles(fs, p.t3Off, 8) && t3 != p.oldT3
    ensures f < 6 && var r := PatchPlanned(ring, fs, p, t3, FailOnly(f)); !r.patched && r.ring != ring
  {
    OldFieldsInView(ring, fs, frame, p);
    var o, i := StraddlingWriteTears(ring, fs, p.t3Off, t3);
    StraddlingWriteEffect(ring, fs, p.t3Off, t3, o);
    f := if o.first then 1 else 0;
    assert FailOnly(f).t3 == o;
  }

  lemma {:induction false} TornChecksum(ring: seq<Byte>, fs: U16, frame: seq<Byte>, p: Plan, t3: seq<Byte>)
    returns (f: nat)
    requires Holds(ring, fs, frame) && |t3| == 8 && Fits(p, frame)
    requires p.csumPresent && Straddles(fs, p.csumOff, 2) && UpdatedChecksum(p.oldCsum, p.oldT3, t3) != p.oldCsum
    ensures f < 6 && var r := PatchPlanned(ring, fs, p, t3, FailOnly(f)); !r.patched && r.ring != ring
  {
    var w := WriteField(ring, fs, p.t3Off, t3, Pair(true, true));
    var c := ChecksumBytes(UpdatedChecksum(p.oldCsum, p.oldT3, t3));
    FullWriteEffect(ring, fs, p.t3Off, t3);
    ChecksumAfterT3(ring, fs, frame, p, t3);
    var o, i := StraddlingWriteTears(w.ring, fs, p.csumOff, c);
    StraddlingWriteEffect(w.ring, fs, p.csumOff, c, o);
    var torn := WriteField(w.ring, fs, p.csumOff, c, o).ring;
    FullWriteEffect(torn, fs, p.t3Off, p.oldT3);
    assert ReadFrom(WriteField(torn, fs, p.t3Off, p.oldT3, Pair(true, true)).ring, fs)[i] != ReadFrom(ring, fs)[i];
    f := if o.first then 3 else 2;
    assert FailOnly(f) == Outcomes(Pair(true, true), o, Pair(true, true));
  }

  /**
    All or nothing under any single transfer failure, exactly when no straddling field would
    change: a field inside the ring is always safe, a straddling one that changes never is.
   */
  lemma {:induction false} AllOrNothingIff(ring: seq<Byte>, fs: U16, frame: seq<Byte>, p: Plan, t3: seq<Byte>)
    requires Holds(ring, fs, frame) && |t3| == 8 && Fits(p, frame)
    ensures NoTornField(fs, p, t3) <==>
      forall f: nat :: f < 6 ==> AllOrNothing(ring, PatchPlanned(ring, fs, p, t3, FailOnly(f)), fs, frame, p, t3)
  {
    if NoTornField(fs, p, t3) {
      forall f: nat | f < 6
        ensures AllOrNothing(ring, PatchPlanned(ring, fs, p, t3, FailOnly(f)), fs, frame, p, t3)
      {
        SafeUnderOneFailure(ring, fs, frame, p, t3, f);
      }
    } else if Straddles(fs, p.t3Off, 8) && t3 != p.oldT3 {
      var f := TornT3(ring, fs, frame, p, t3);
    } else {
      var f := TornChecksum(ring, fs, frame, p, t3);
    }
  }

  // ---- Any pattern of failures, and no T3 at all ----

  /** The transfers of a field write that are made all succeed. */
  predicate Succeeds(fs: U16, off: nat, n: nat, o: Pair) {
    o.first && (Straddles(fs, off, n) ==> o.second)
  }

  lemma {:induction false} WriteOkIff(ring: seq<Byte>, fs: U16, off: nat, src: seq<Byte>, o: Pair)
    requires IsRing(ring) && 0 < |src| && off + |src| <= TX_MEM_SIZE
    ensures WriteField(ring, fs, off, src, o).ok <==> Succeeds(fs, off, |src|, o)
  {
    if Straddles(fs, off, |src|) {
      StraddlingWriteEffect(ring, fs, off, src, o);
    } else {
      InnerWriteEffect(ring, fs, off, src, o);
    }
  }

  /** For every pattern of failures, `patched` says that every transfer of T3 and checksum succeeded. */
  lemma {:induction false} PatchedIffWritten(
      ring: seq<Byte>, fs: U16, frame: seq<Byte>, p: Plan, t3: seq<Byte>, o: Outcomes)
    requires Holds(ring, fs, frame) && |t3| == 8 && Fits(p, frame)
    ensures PatchPlanned(ring, fs, p, t3, o).patched <==>
      Succeeds(fs, p.t3Off, 8, o.t3) && (p.csumPresent ==> Succeeds(fs, p.csumOff, 2, o.csum))
  {
    WriteOkIff(ring, fs, p.t3Off, t3, o.t3);
    if p.csumPresent {
      var c := ChecksumBytes(UpdatedChecksum(p.oldCsum, p.oldT3, t3));
      WriteOkIff(WriteField(ring, fs, p.t3Off, t3, o.t3).ring, fs, p.csumOff, c, o.csum);
    }
  }

  /** What a failed restore leaves, with fields inside the ring: the new T3 under the old checksum. */
  lemma {:induction false} FailedRestoreLeavesNewT3(
      ring: seq<Byte>, fs: U16, frame: seq<Byte>, p: Plan, t3: seq<Byte>, o: Outcomes)
    requires Holds(ring, fs, frame) && |t3| == 8 && Fits(p, frame) && p.csumPresent
    requires !Straddles(fs, p.t3Off, 8) && !Straddles(fs, p.csumOff, 2)
    requires o.t3.first && !o.csum.first && !o.restore.first
    ensures var r := PatchPlanned(ring, fs, p, t3, o);
      !r.patched && ReadFrom(r.ring, fs) == Splice(ReadFrom(ring, fs), p.t3Off, t3)
  {
    InnerWriteEffect(ring, fs, p.t3Off, t3, o.t3);
    var w, c := WriteField(ring, fs, p.t3Off, t3, o.t3).ring, ChecksumBytes(UpdatedChecksum(p.oldCsum, p.oldT3, t3));
    InnerWriteEffect(w, fs, p.csumOff, c, o.csum);
    InnerWriteEffect(w, fs, p.t3Off, p.oldT3, o.restore);
  }

  /** Without a T3 from the callback nothing is written, whatever was captured and whatever would have failed. */
  lemma {:induction false} DeclinedT3LeavesRing(
      ring: seq<Byte>, fs: U16, hdr: seq<Byte>, port: U16, o: Outcomes)
    requires IsRing(ring) && |hdr| <= HDR_MAX
    ensures PatchRing(ring, fs, hdr, port, None, o) == Patched(ring, false)
  {
  }

  /** A frame that is no reply of ours is left alone in the same way. */
  lemma {:induction false} ForeignFrameLeavesRing(
      ring: seq<Byte>, fs: U16, hdr: seq<Byte>, port: U16, t3: Option<seq<Byte>>, o: Outcomes)
    requires IsRing(ring) && |hdr| <= HDR_MAX && (t3.Some? ==> |t3.value| == 8) && !IsNtpReply(hdr, port)
    ensures PatchRing(ring, fs, hdr, port, t3, o) == Patched(ring, false)
  {
    PatchesExactlyNtpReplies(hdr, port);
  }
}

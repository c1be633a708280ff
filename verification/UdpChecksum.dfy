/**
  The UDP checksum: from scratch over a frame (RFC 768, with the pseudo-header) and incrementally
  when eight bytes change (RFC 1624 section 3, equation 3). `udp_csum_update` is the second; the
  first is what a receiver computes.
 */
module UdpChecksum {
  import opened MachineInts

  const ETH_HDR_LEN := 14
  const UDP_HDR_LEN := 8
  const NTP_PACKET_SIZE := 48
  const IP_PROTO_UDP := 17

  function Word(hi: Byte, lo: Byte): U16 {
    hi * 256 + lo
  }

  /** Sum of the big-endian 16-bit words, an odd last byte being padded with zero. */
  function WordSum(b: seq<Byte>): nat {
    if |b| == 0 then 0
    else if |b| == 1 then b[0] * 256
    else Word(b[0], b[1]) + WordSum(b[2..])
  }

  /** `s` with the bytes at `off` replaced. */
  function Splice(s: seq<Byte>, off: nat, bytes: seq<Byte>): (r: seq<Byte>)
    requires off + |bytes| <= |s|
    ensures |r| == |s|
  {
    s[..off] + bytes + s[off + |bytes|..]
  }

  /** End-around carry: the one's-complement sum as 16 bits. */
  function Fold(sum: nat): nat {
    if sum < 0x1_0000 then sum else Fold(sum % 0x1_0000 + sum / 0x1_0000)
  }

  /** Complement, with the UDP rule that a computed zero is sent as all ones. */
  function Finish(sum: nat): U16 {
    FoldKeepsClass(sum);
    var r := 0xFFFF - Fold(sum);
    if r == 0 then 0xFFFF else r
  }

  lemma {:induction false} FoldKeepsClass(sum: nat)
    ensures Fold(sum) < 0x1_0000
    ensures Fold(sum) % 0xFFFF == sum % 0xFFFF
    ensures sum > 0 ==> Fold(sum) > 0
  {
    if sum >= 0x1_0000 {
      FoldKeepsClass(sum % 0x1_0000 + sum / 0x1_0000);
      SameClass(sum % 0x1_0000 + sum / 0x1_0000, sum, sum / 0x1_0000);
    }
  }

  lemma SameClass(a: int, b: int, k: int)
    requires b == a + k * 0xFFFF
    ensures a % 0xFFFF == b % 0xFFFF
  {
  }

  /** The finished checksum depends only on the sum's residue modulo 0xFFFF and is never zero. */
  lemma FinishIsResidue(sum: nat)
    ensures Finish(sum) == 0xFFFF - sum % 0xFFFF
    ensures Finish(sum) != 0
  {
    FoldKeepsClass(sum);
  }

  // ---- From scratch ----

  function UdpOffset(frame: seq<Byte>): nat
    requires |frame| > ETH_HDR_LEN
  {
    ETH_HDR_LEN + frame[ETH_HDR_LEN] % 16 * 4
  }

  /** An IPv4/UDP frame that holds its whole datagram. */
  predicate IsUdpFrame(frame: seq<Byte>) {
    && |frame| > ETH_HDR_LEN
    && frame[ETH_HDR_LEN] % 16 >= 5
    && UdpOffset(frame) + UDP_HDR_LEN <= |frame|
    && UDP_HDR_LEN <= UdpLength(frame)
    && UdpOffset(frame) + UdpLength(frame) <= |frame|
  }

  function UdpLength(frame: seq<Byte>): U16
    requires |frame| > ETH_HDR_LEN && UdpOffset(frame) + UDP_HDR_LEN <= |frame|
  {
    Word(frame[UdpOffset(frame) + 4], frame[UdpOffset(frame) + 5])
  }

  function StoredChecksum(frame: seq<Byte>): U16
    requires IsUdpFrame(frame)
  {
    Word(frame[UdpOffset(frame) + 6], frame[UdpOffset(frame) + 7])
  }

  /** The UDP header and payload with the checksum field taken as zero. */
  function Datagram(frame: seq<Byte>): seq<Byte>
    requires IsUdpFrame(frame)
  {
    var u := UdpOffset(frame);
    Splice(frame[u..u + UdpLength(frame)], 6, [0, 0])
  }

  function RawSum(frame: seq<Byte>): nat
    requires IsUdpFrame(frame)
  {
    WordSum(frame[ETH_HDR_LEN + 12..ETH_HDR_LEN + 20]) + IP_PROTO_UDP + UdpLength(frame) + WordSum(Datagram(frame))
  }

  function FullChecksum(frame: seq<Byte>): U16
    requires IsUdpFrame(frame)
  {
    Finish(RawSum(frame))
  }

  predicate ValidChecksum(frame: seq<Byte>) {
    IsUdpFrame(frame) && StoredChecksum(frame) == FullChecksum(frame)
  }

  // ---- Incremental ----

  /** The unfolded sum of RFC 1624's ~HC + ~m + m', over four words at once. */
  function UpdateSum(oldCsum: U16, old8: seq<Byte>, new8: seq<Byte>): int {
    (0xFFFF - oldCsum) + 4 * 0xFFFF - WordSum(old8) + WordSum(new8)
  }

  lemma {:induction false} WordSumBound(b: seq<Byte>)
    requires |b| % 2 == 0
    ensures WordSum(b) <= 0xFFFF * (|b| / 2)
  {
    if |b| > 0 {
      WordSumBound(b[2..]);
    }
  }

  function UpdatedChecksum(oldCsum: U16, old8: seq<Byte>, new8: seq<Byte>): U16
    requires |old8| == |new8| == 8
  {
    WordSumBound(old8);
    Finish(UpdateSum(oldCsum, old8, new8))
  }

  /** `udp_csum_update`: accumulates all four words in 32 bits, then folds the carry. */
  method UdpCsumUpdate(oldCsum: U16, old8: seq<Byte>, new8: seq<Byte>) returns (csum: U16)
    requires |old8| == |new8| == 8
    ensures csum == UpdatedChecksum(oldCsum, old8, new8)
  {
    ghost var total := UpdateSum(oldCsum, old8, new8);
    WordSumBound(old8);
    var sum: nat := 0xFFFF - oldCsum;
    var i := 0;
    while i < 8
      invariant 0 <= i <= 8 && i % 2 == 0
      invariant sum + (4 - i / 2) * 0xFFFF - WordSum(old8[i..]) + WordSum(new8[i..]) == total
      invariant sum <= 0xFFFF * (1 + i)
    {
      assert old8[i..][2..] == old8[i + 2..] && new8[i..][2..] == new8[i + 2..];
      var oldWord := Word(old8[i], old8[i + 1]);
      var newWord := Word(new8[i], new8[i + 1]);
      sum := sum + (0xFFFF - oldWord);
      sum := sum + newWord;
      i := i + 2;
    }
    assert sum == total && sum < TWO_32;
    while sum / 0x1_0000 != 0
      invariant Fold(sum) == Fold(total)
      decreases sum
    {
      sum := sum % 0x1_0000 + sum / 0x1_0000;
    }
    var result := 0xFFFF - sum;
    csum := if result == 0 then 0xFFFF else result;
  }

  // ---- The two agree ----

  lemma {:induction false} WordSumConcat(a: seq<Byte>, b: seq<Byte>)
    requires |a| % 2 == 0
    ensures WordSum(a + b) == WordSum(a) + WordSum(b)
  {
    if a == [] {
      assert a + b == b;
    } else {
      WordSumConcat(a[2..], b);
      assert (a + b)[2..] == a[2..] + b;
    }
  }

  lemma {:induction false} WordSumReplace(a: seq<Byte>, was: seq<Byte>, now: seq<Byte>, b: seq<Byte>)
    requires |a| % 2 == 0 && |was| % 2 == 0 && |now| % 2 == 0
    ensures WordSum(a + now + b) == WordSum(a + was + b) - WordSum(was) + WordSum(now)
  {
    WordSumConcat(a, was);
    WordSumConcat(a + was, b);
    WordSumConcat(a, now);
    WordSumConcat(a + now, b);
  }

  /** Replacing an even-aligned even-length field changes the word sum by the field's difference. */
  lemma {:induction false} WordSumSplice(s: seq<Byte>, off: nat, bytes: seq<Byte>)
    requires off % 2 == 0 && |bytes| % 2 == 0 && off + |bytes| <= |s|
    ensures WordSum(Splice(s, off, bytes)) == WordSum(s) - WordSum(s[off..off + |bytes|]) + WordSum(bytes)
  {
    var a, was, b := s[..off], s[off..off + |bytes|], s[off + |bytes|..];
    assert a + was + b == s;
    WordSumReplace(a, was, bytes, b);
  }

  const T3_IN_DATAGRAM := UDP_HDR_LEN + 40

  function T3Offset(frame: seq<Byte>): nat
    requires IsUdpFrame(frame)
  {
    UdpOffset(frame) + T3_IN_DATAGRAM
  }

  function ChecksumBytes(csum: U16): seq<Byte> {
    [csum / 256, csum % 256]
  }

  /** The frame with T3 replaced and, when `csum` is given, the checksum field too. */
  function PatchT3(frame: seq<Byte>, t3: seq<Byte>): seq<Byte>
    requires IsUdpFrame(frame) && UdpLength(frame) >= UDP_HDR_LEN + NTP_PACKET_SIZE && |t3| == 8
  {
    Splice(frame, T3Offset(frame), t3)
  }

  function PatchChecksum(frame: seq<Byte>, csum: U16): seq<Byte>
    requires IsUdpFrame(frame)
  {
    Splice(frame, UdpOffset(frame) + 6, ChecksumBytes(csum))
  }

  /** Replacing T3 leaves every header field in place and touches only its own part of the datagram. */
  lemma T3LeavesHeaders(frame: seq<Byte>, t3: seq<Byte>)
    requires IsUdpFrame(frame) && UdpLength(frame) >= UDP_HDR_LEN + NTP_PACKET_SIZE && |t3| == 8
    ensures var f := PatchT3(frame, t3);
      && IsUdpFrame(f) && UdpOffset(f) == UdpOffset(frame) && UdpLength(f) == UdpLength(frame)
      && StoredChecksum(f) == StoredChecksum(frame)
      && f[..T3Offset(frame)] == frame[..T3Offset(frame)]
  {
    assert UdpOffset(frame) >= ETH_HDR_LEN + 20;
  }

  lemma {:induction false} SliceOfSlice(view: seq<Byte>, off: nat, n: nat, a: nat, b: nat)
    requires off + n <= |view| && a <= b <= n
    ensures view[off..off + n][a..b] == view[off + a..off + b]
  {
    var l, r := view[off..off + n][a..b], view[off + a..off + b];
    forall i | 0 <= i < b - a
      ensures l[i] == r[i]
    {
      assert view[off..off + n][a + i] == view[off + (a + i)];
    }
  }

  lemma SliceOfSplice(s: seq<Byte>, u: nat, n: nat, off: nat, bytes: seq<Byte>)
    requires off + |bytes| <= n && u + n <= |s|
    ensures Splice(s, u + off, bytes)[u..u + n] == Splice(s[u..u + n], off, bytes)
  {
  }

  lemma SplicesCommute(s: seq<Byte>, a: nat, x: seq<Byte>, b: nat, y: seq<Byte>)
    requires a + |x| <= b && b + |y| <= |s|
    ensures Splice(Splice(s, a, x), b, y) == Splice(Splice(s, b, y), a, x)
    ensures Splice(s, a, x)[b..b + |y|] == s[b..b + |y|]
  {
  }

  lemma T3IsSplicedIntoDatagram(frame: seq<Byte>, t3: seq<Byte>)
    requires IsUdpFrame(frame) && UdpLength(frame) >= UDP_HDR_LEN + NTP_PACKET_SIZE && |t3| == 8
    requires IsUdpFrame(PatchT3(frame, t3))
    ensures Datagram(PatchT3(frame, t3)) == Splice(Datagram(frame), T3_IN_DATAGRAM, t3)
    ensures Datagram(frame)[T3_IN_DATAGRAM..T3_IN_DATAGRAM + 8] == frame[T3Offset(frame)..T3Offset(frame) + 8]
  {
    T3LeavesHeaders(frame, t3);
    var u, n := UdpOffset(frame), UdpLength(frame);
    var d := frame[u..u + n];
    SliceOfSplice(frame, u, n, T3_IN_DATAGRAM, t3);
    SplicesCommute(d, 6, [0, 0], T3_IN_DATAGRAM, t3);
    SliceOfSlice(frame, u, n, T3_IN_DATAGRAM, T3_IN_DATAGRAM + 8);
  }

  lemma SameSlice(s: seq<Byte>, t: seq<Byte>, n: nat, a: nat, b: nat)
    requires a <= b <= n <= |s| && n <= |t| && s[..n] == t[..n]
    ensures s[a..b] == t[a..b]
  {
    assert s[a..b] == s[..n][a..b] && t[a..b] == t[..n][a..b];
  }

  /** Replacing T3 moves the raw sum by exactly the difference of the two timestamps' words. */
  lemma T3MovesRawSum(frame: seq<Byte>, t3: seq<Byte>)
    requires IsUdpFrame(frame) && UdpLength(frame) >= UDP_HDR_LEN + NTP_PACKET_SIZE && |t3| == 8
    ensures var f := PatchT3(frame, t3);
      && IsUdpFrame(f) && UdpOffset(f) == UdpOffset(frame) && UdpLength(f) == UdpLength(frame)
      && RawSum(f) == RawSum(frame) - WordSum(frame[T3Offset(frame)..T3Offset(frame) + 8]) + WordSum(t3)
  {
    var f := PatchT3(frame, t3);
    T3LeavesHeaders(frame, t3);
    T3IsSplicedIntoDatagram(frame, t3);
    WordSumSplice(Datagram(frame), T3_IN_DATAGRAM, t3);
    SameSlice(f, frame, T3Offset(frame), ETH_HDR_LEN + 12, ETH_HDR_LEN + 20);
  }

  lemma ChecksumFieldIsOutsideRawSum(frame: seq<Byte>, csum: U16)
    requires IsUdpFrame(frame)
    ensures var f := PatchChecksum(frame, csum);
      IsUdpFrame(f) && UdpOffset(f) == UdpOffset(frame) && RawSum(f) == RawSum(frame) && StoredChecksum(f) == csum
  {
    var f := PatchChecksum(frame, csum);
    assert f[ETH_HDR_LEN + 12..ETH_HDR_LEN + 20] == frame[ETH_HDR_LEN + 12..ETH_HDR_LEN + 20];
    var u, n := UdpOffset(frame), UdpLength(frame);
    SliceOfSplice(frame, u, n, 6, ChecksumBytes(csum));
    assert Datagram(f) == Datagram(frame);
  }

  /** For every correct frame and every new T3, the incremental update is the from-scratch checksum. */
  lemma IncrementalIsFull(frame: seq<Byte>, t3: seq<Byte>)
    requires ValidChecksum(frame) && UdpLength(frame) >= UDP_HDR_LEN + NTP_PACKET_SIZE && |t3| == 8
    ensures IsUdpFrame(PatchT3(frame, t3))
    ensures UpdatedChecksum(StoredChecksum(frame), frame[T3Offset(frame)..T3Offset(frame) + 8], t3)
         == FullChecksum(PatchT3(frame, t3))
  {
    var old8 := frame[T3Offset(frame)..T3Offset(frame) + 8];
    var c: int, s: int := StoredChecksum(frame), RawSum(frame);
    T3MovesRawSum(frame, t3);
    FinishIsResidue(s);
    WordSumBound(old8);
    FinishIsResidue(UpdateSum(c, old8, t3));
    FinishIsResidue(RawSum(PatchT3(frame, t3)));
    SameClass(RawSum(PatchT3(frame, t3)), UpdateSum(c, old8, t3), 4 - s / 0xFFFF);
  }

  /** So a patched frame passes a receiver's check again. */
  lemma PatchKeepsChecksumValid(frame: seq<Byte>, t3: seq<Byte>)
    requires ValidChecksum(frame) && UdpLength(frame) >= UDP_HDR_LEN + NTP_PACKET_SIZE && |t3| == 8
    ensures var old8 := frame[T3Offset(frame)..T3Offset(frame) + 8];
      IsUdpFrame(PatchT3(frame, t3)) &&
      ValidChecksum(PatchChecksum(PatchT3(frame, t3), UpdatedChecksum(StoredChecksum(frame), old8, t3)))
  {
    IncrementalIsFull(frame, t3);
    var old8 := frame[T3Offset(frame)..T3Offset(frame) + 8];
    ChecksumFieldIsOutsideRawSum(PatchT3(frame, t3), UpdatedChecksum(StoredChecksum(frame), old8, t3));
  }
}

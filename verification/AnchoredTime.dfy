/**
  Served time: UTC microseconds at an instant of the 64-bit timer, derived from the PPS anchor, and
  its NTP encoding (section 6 of RFC 5905).
 */
module AnchoredTime {
  import opened Wrappers
  import opened MachineInts
  import opened PpsState
  import opened PpsSync

  const MAX_ELAPSED_US := 2000000
  const GIGA := 1000000000

  /** Elapsed microseconds with the crystal's rate error taken out. */
  function Corrected(elapsed: nat, ratePpb: int): int {
    if -100000 < ratePpb < 100000 then elapsed - TruncDiv(elapsed * ratePpb, GIGA) else elapsed
  }

  /** `anchor_epoch_us_`: no answer when no anchor is on offer or it is more than 2 s old. */
  function AnchorEpochUs(a: Anchor, atUs: int): Option<int> {
    if a.epoch == 0 then None
    else
      var elapsed := Sub32(Wrap(atUs), a.micros);
      if elapsed > MAX_ELAPSED_US then None
      else Some(a.epoch * SECOND + Corrected(elapsed, a.ratePpb))
  }

  // ---- The arithmetic ----

  /** One step of the truncated quotient never exceeds one when the numerator moves by less than the divisor. */
  lemma QuotientStep(x: int, d: int)
    requires -GIGA < d < GIGA
    ensures -1 <= TruncDiv(x + d, GIGA) - TruncDiv(x, GIGA) <= 1
  {
  }

  /** Later instants never get an earlier time. */
  lemma {:induction false} CorrectedIsMonotone(e: nat, f: nat, ratePpb: int)
    requires e <= f
    ensures Corrected(e, ratePpb) <= Corrected(f, ratePpb)
    decreases f - e
  {
    if e < f {
      CorrectedIsMonotone(e, f - 1, ratePpb);
      if -100000 < ratePpb < 100000 {
        assert f * ratePpb == (f - 1) * ratePpb + ratePpb;
        QuotientStep((f - 1) * ratePpb, ratePpb);
      }
    }
  }

  lemma MulMonotone(a: int, b: int, c: int)
    requires a <= b && c >= 0
    ensures a * c <= b * c
  {
    assert (b - a) * c >= 0;
  }

  lemma ProductBound(a: int, b: int, ma: int, mb: int)
    requires Abs(a) <= ma && Abs(b) <= mb
    ensures Abs(a * b) <= ma * mb
  {
    MulMonotone(Abs(a), ma, Abs(b));
    MulMonotone(Abs(b), mb, ma);
    assert Abs(a * b) == Abs(a) * Abs(b);
  }

  /** `a / (1 + ppb * 1e-9)`, the true length of `a` microseconds of a crystal that runs fast by `ppb`. */
  function TrueElapsed(elapsed: nat, ratePpb: int): real
    requires -100000 < ratePpb < 100000
  {
    elapsed as real * GIGA as real / (GIGA + ratePpb) as real
  }

  /** The quotient and remainder behind the correction. */
  lemma QuotientOf(x: int)
    ensures Abs(x - TruncDiv(x, GIGA) * GIGA) < GIGA
    ensures Abs(TruncDiv(x, GIGA)) * GIGA <= Abs(x)
  {
  }

  lemma ErrorNumerator(e: nat, p: int) returns (num: int)
    requires e <= MAX_ELAPSED_US && -100000 < p < 100000
    ensures num == Corrected(e, p) * (GIGA + p) - e * GIGA
    ensures Abs(num) <= 1020000000
  {
    var q := TruncDiv(e * p, GIGA);
    QuotientOf(e * p);
    ProductBound(e, p, MAX_ELAPSED_US, 100000);
    assert Abs(q) <= 200;
    ProductBound(q, p, 200, 100000);
    num := e * p - q * GIGA - q * p;
    assert Corrected(e, p) * (GIGA + p) - e * GIGA == num by {
      assert (e - q) * (GIGA + p) == e * GIGA + e * p - q * GIGA - q * p;
    }
  }

  /** A bound on c * d - n, divided through by d. */
  lemma DivideThrough(c: real, n: real, d: real, bound: real)
    requires d > 0.0 && -(bound * d) <= c * d - n <= bound * d
    ensures -bound <= c - n / d <= bound
  {
    var q := n / d;
    assert (c - q - bound) * d == c * d - n - bound * d;
    assert (c - q + bound) * d == c * d - n + bound * d;
    SignOfProduct(c - q - bound, d);
    SignOfProduct(c - q + bound, d);
  }

  lemma SignOfProduct(x: real, d: real)
    requires d > 0.0
    ensures x > 0.0 ==> x * d > 0.0
    ensures x < 0.0 ==> x * d < 0.0
  {
  }

  /** The same over integers. */
  lemma DivideThroughInt(c: int, n: int, d: int, boundPerMille: int)
    requires d > 0 && 1000 * Abs(c * d - n) <= boundPerMille * d
    ensures -(boundPerMille as real / 1000.0) <= c as real - n as real / d as real <= boundPerMille as real / 1000.0
  {
    var bound := boundPerMille as real / 1000.0;
    var cd: int := c * d;
    assert cd as real == c as real * d as real;
    assert 1000.0 * (cd - n) as real <= (boundPerMille * d) as real;
    assert 1000.0 * (n - cd) as real <= (boundPerMille * d) as real;
    assert (boundPerMille * d) as real == boundPerMille as real * d as real;
    assert 1000.0 * (bound * d as real) == boundPerMille as real * d as real;
    DivideThrough(c as real, n as real, d as real, bound);
  }

  /** Within 1.03 us of elapsed / (1 + rate), truncation and linearisation together. */
  lemma CorrectedIsAccurate(e: nat, p: int)
    requires e <= MAX_ELAPSED_US && -100000 < p < 100000
    ensures -1.03 <= Corrected(e, p) as real - TrueElapsed(e, p) <= 1.03
  {
    var num := ErrorNumerator(e, p);
    DivideThroughInt(Corrected(e, p), e * GIGA, GIGA + p, 1030);
    assert (e * GIGA) as real == e as real * GIGA as real;
  }

  /** A truncated product of rate and second, against the rate itself. */
  lemma RateOverInterval(interval: nat, p: int)
    requires -100000 < p < 100000
    ensures Abs(TruncDiv(interval * p, GIGA) * 1000 - p) * SECOND <= GIGA + Abs(interval - SECOND) * 100000
  {
    var x := interval - SECOND;
    QuotientOf(interval * p);
    ProductBound(x, p, Abs(x), 100000);
    assert interval * p == SECOND * p + x * p;
  }

  /** The old anchor's reading one edge on, against the exact second. */
  lemma RateErrorOverOneSecond(interval: nat, p: int)
    requires -100000 < p < 100000 && interval <= MAX_ELAPSED_US
    ensures 1000 * Abs(Corrected(interval, p) - SECOND)
         <= 1001 + Abs((interval - SECOND) * 1000 - p) + Abs(interval - SECOND) / 10
  {
    var q := TruncDiv(interval * p, GIGA);
    RateOverInterval(interval, p);
    assert Abs(q * 1000 - p) <= 1000 + Abs(interval - SECOND) / 10 + 1;
  }

  // ---- Serving ----

  /** Two instants under the same anchor keep their order, across any wrap of micros(). */
  lemma ServedTimeIsMonotone(a: Anchor, edge: int, at: int, at': int)
    requires a.epoch != 0 && a.micros == Wrap(edge) && edge <= at <= at' <= edge + MAX_ELAPSED_US
    ensures AnchorEpochUs(a, at).Some? && AnchorEpochUs(a, at').Some?
    ensures AnchorEpochUs(a, at).value <= AnchorEpochUs(a, at').value
  {
    WrappedDifference(at, edge);
    WrappedDifference(at', edge);
    CorrectedIsMonotone(at - edge, at' - edge, a.ratePpb);
  }

  /**
    Handing over from one anchor to the next: at the new edge, where the new anchor is exact, the old
    one reads within 1.001 us plus a thousandth of the difference, in ppb, between the rate it
    assumed and the rate the second turned out to have, plus a ten-thousandth of the second's own
    error. For a second within 100 us of nominal that is 1.02 us plus the rate change.
   */
  lemma HandoverStepIsSmall(a: Anchor, b: Anchor, edge: int, next: int)
    requires a.micros == Wrap(edge) && b.micros == Wrap(next) && a.epoch > 0 && b.epoch == a.epoch + 1
    requires -100000 < a.ratePpb < 100000 && 0 <= next - edge <= MAX_ELAPSED_US
    ensures AnchorEpochUs(b, next) == Some(b.epoch * SECOND) && AnchorEpochUs(a, next).Some?
    ensures var step, x := Abs(AnchorEpochUs(a, next).value - AnchorEpochUs(b, next).value), next - edge - SECOND;
      && 1000 * step <= 1001 + Abs(x * 1000 - a.ratePpb) + Abs(x) / 10
      && (-100 <= x <= 100 ==> 1000 * step <= 1020 + Abs(x * 1000 - a.ratePpb))
  {
    WrappedDifference(next, edge);
    WrappedDifference(next, next);
    RateErrorOverOneSecond(next - edge, a.ratePpb);
  }

  /**
    In every reachable state of the device an anchor on offer serves UTC within 1.03 us of the time
    its rate implies, for two seconds after its edge, and refuses after that; the +/-100 ppm guard
    never drops its rate.
   */
  lemma {:induction false} ReachableAnchorServesAccurately(hs: seq<Handler>, edge: int, at: int)
    requires Run(hs).anchor.epoch != 0 && Run(hs).anchor.micros == Wrap(edge)
    requires 0 <= at - edge < TWO_32
    ensures var a := Run(hs).anchor;
      && Run(hs).synced
      && (AnchorEpochUs(a, at).Some? <==> at - edge <= MAX_ELAPSED_US)
      && -100000 < a.ratePpb < 100000
      && (at - edge <= MAX_ELAPSED_US ==>
            var served := AnchorEpochUs(a, at).value - a.epoch * SECOND;
            -1.03 <= served as real - TrueElapsed(at - edge, a.ratePpb) <= 1.03)
  {
    ReachableStatesKeepInv(hs);
    WrappedDifference(at, edge);
    if at - edge <= MAX_ELAPSED_US {
      CorrectedIsAccurate(at - edge, Run(hs).anchor.ratePpb);
    }
  }

  /** An anchor answers exactly when its epoch is set and its edge at most two seconds back. */
  lemma AnchorAnswersIff(a: Anchor, edge: int, at: int)
    requires a.micros == Wrap(edge) && 0 <= at - edge < TWO_32
    ensures AnchorEpochUs(a, at).Some? <==> a.epoch != 0 && at - edge <= 2000000
  {
    WrappedDifference(at, edge);
  }

  /** A rate of 100 ppm or more is no rate: time then runs with the timer from the edge on. */
  lemma WildRateIsIgnored(a: Anchor, edge: int, at: int)
    requires a.micros == Wrap(edge) && a.epoch != 0 && 0 <= at - edge <= 2000000 && Abs(a.ratePpb) >= 100000
    ensures AnchorEpochUs(a, at) == Some(a.epoch * SECOND + (at - edge))
  {
    WrappedDifference(at, edge);
  }

  // ---- NTP encoding ----

  const NTP_UNIX_OFFSET := 2208988800

  datatype NtpTimestamp = NtpTimestamp(seconds: U32, fraction: U32)

  /** The two fields of a normalised (sec, usec). */
  function NtpFields(sec: int, usec: int): NtpTimestamp {
    NtpTimestamp(Wrap(Wrap(sec) + NTP_UNIX_OFFSET), Wrap(usec * TWO_32 / SECOND))
  }

  /** `micros_epoch_to_ntp_timestamp_`: truncating C++ division, then a borrow for negative times. */
  function ToNtp(unixUs: int): NtpTimestamp {
    var sec := TruncDiv(unixUs, SECOND);
    var usec := unixUs - sec * SECOND;
    if usec < 0 then NtpFields(sec - 1, usec + SECOND) else NtpFields(sec, usec)
  }

  /** The borrow turns truncation into floor. */
  lemma {:induction false} ToNtpFloors(sec: int, usec: int)
    requires 0 <= usec < SECOND
    ensures ToNtp(sec * SECOND + usec) == NtpFields(sec, usec)
  {
    var u := sec * SECOND + usec;
    var t := TruncDiv(u, SECOND);
    assert if u - t * SECOND < 0 then t - 1 == sec else t == sec;
  }

  /** The timestamp as one 64-bit number of 2^-32 s units. */
  function Value(ts: NtpTimestamp): nat {
    ts.seconds * TWO_32 + ts.fraction
  }

  /** Unix times that fall in the era of NTP seconds 0 to 2^32 - 1 (1900 to 2036). */
  predicate InEra(unixUs: int) {
    0 <= unixUs + NTP_UNIX_OFFSET * SECOND < TWO_32 * SECOND
  }

  /** The encoding is the time since 1900 in units of 2^-32 s, rounded down. */
  lemma EncodingIsFloor(unixUs: int)
    requires InEra(unixUs)
    ensures Value(ToNtp(unixUs)) == (unixUs + NTP_UNIX_OFFSET * SECOND) * TWO_32 / SECOND
  {
    var sec, usec := unixUs / SECOND, unixUs % SECOND;
    assert unixUs == sec * SECOND + usec;
    assert 0 <= sec + NTP_UNIX_OFFSET < TWO_32;
    SecondsWrap(sec);
    FractionFits(usec);
    FloorOfSum(sec + NTP_UNIX_OFFSET, usec);
    ToNtpFloors(sec, usec);
  }

  lemma SecondsWrap(sec: int)
    requires 0 <= sec + NTP_UNIX_OFFSET < TWO_32
    ensures Wrap(Wrap(sec) + NTP_UNIX_OFFSET) == sec + NTP_UNIX_OFFSET
  {
  }

  lemma FractionFits(usec: int)
    requires 0 <= usec < SECOND
    ensures 0 <= usec * TWO_32 / SECOND < TWO_32
  {
  }

  lemma FloorOfSum(n: int, usec: int)
    requires 0 <= usec < SECOND
    ensures (n * SECOND + usec) * TWO_32 / SECOND == n * TWO_32 + usec * TWO_32 / SECOND
  {
  }

  /** Later microseconds get strictly larger timestamps, so each timestamp names one microsecond. */
  lemma EncodingIsStrictlyIncreasing(a: int, b: int)
    requires InEra(a) && InEra(b) && a < b
    ensures Value(ToNtp(a)) < Value(ToNtp(b))
  {
    EncodingIsFloor(a);
    EncodingIsFloor(b);
  }

  /** A client that converts back, rounding up, gets the very microsecond that was encoded. */
  lemma EncodingRoundTrips(unixUs: int)
    requires InEra(unixUs)
    ensures (Value(ToNtp(unixUs)) * SECOND + TWO_32 - 1) / TWO_32 - NTP_UNIX_OFFSET * SECOND == unixUs
  {
    EncodingIsFloor(unixUs);
  }

  /**
    `get_ntp_timestamp_`: from the anchor when it is in use and answers, else from the system clock,
    whose usec + offset is brought back into [0, 1e6) by loops.
   */
  method GetNtpTimestamp(useAnchor: bool, anchor: Option<Anchor>, clockUs: int, tvSec: int, tvUsec: int, offsetUs: int)
    returns (ts: NtpTimestamp)
    requires 0 <= tvUsec < SECOND
    ensures ts == ToNtp(offsetUs +
      if useAnchor && anchor.Some? && AnchorEpochUs(anchor.value, clockUs).Some?
      then AnchorEpochUs(anchor.value, clockUs).value
      else tvSec * SECOND + tvUsec)
  {
    if useAnchor && anchor.Some? {
      var anchored := AnchorEpochUs(anchor.value, clockUs);
      if anchored.Some? {
        return ToNtp(anchored.value + offsetUs);
      }
    }
    var sec, usec := tvSec, tvUsec + offsetUs;
    ghost var total := tvSec * SECOND + tvUsec + offsetUs;
    while usec >= SECOND
      invariant sec * SECOND + usec == total
    {
      usec := usec - SECOND;
      sec := sec + 1;
    }
    while usec < 0
      invariant sec * SECOND + usec == total && usec < SECOND
    {
      usec := usec + SECOND;
      sec := sec - 1;
    }
    ToNtpFloors(sec, usec);
    ts := NtpFields(sec, usec);
  }

  /** `encode_ntp_timestamp_`: eight bytes, most significant first. */
  function Encode(ts: NtpTimestamp): seq<Byte> {
    BigEndian(ts.seconds) + BigEndian(ts.fraction)
  }

  function BigEndian(x: U32): seq<Byte> {
    [x / 0x100_0000, x / 0x1_0000 % 0x100, x / 0x100 % 0x100, x % 0x100]
  }

  function FromBigEndian(b: seq<Byte>): int
    requires |b| == 4
  {
    var b0: int, b1: int, b2: int, b3: int := b[0], b[1], b[2], b[3];
    ((b0 * 0x100 + b1) * 0x100 + b2) * 0x100 + b3
  }

  lemma {:induction false} BigEndianRoundTrip(x: U32)
    ensures FromBigEndian(BigEndian(x)) == x
  {
    var q1: int := x / 0x100;
    var q2: int := q1 / 0x100;
    assert x / 0x1_0000 == q2 && x / 0x100_0000 == q2 / 0x100;
  }

  /** The eight bytes on the wire determine the timestamp. */
  lemma {:induction false} WireBytesRoundTrip(ts: NtpTimestamp)
    ensures |Encode(ts)| == 8
    ensures FromBigEndian(Encode(ts)[..4]) == ts.seconds && FromBigEndian(Encode(ts)[4..]) == ts.fraction
  {
    assert Encode(ts)[..4] == BigEndian(ts.seconds) && Encode(ts)[4..] == BigEndian(ts.fraction);
    BigEndianRoundTrip(ts.seconds);
    BigEndianRoundTrip(ts.fraction);
  }
}

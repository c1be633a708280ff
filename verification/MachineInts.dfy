/**
  The fixed-width integers of the firmware: 32-bit counters that wrap (`micros()`, the MCPWM
  capture register, edge counters) and the truncating division of C++.

  A counter is always the image modulo 2^32 of an unbounded true count, and the one fact every
  other module relies on is that the wrapped difference of two such images is the true
  difference whenever that difference fits.
 */
module MachineInts {

  const TWO_31 := 0x8000_0000
  const TWO_32 := 0x1_0000_0000

  type Byte = x: int | 0 <= x < 0x100
  type U16 = x: int | 0 <= x < 0x1_0000
  type U32 = x: int | 0 <= x < 0x1_0000_0000

  /** The 32-bit image of a true count. */
  function Wrap(x: int): U32 {
    x % TWO_32
  }

  /** `a - b` on uint32_t. */
  function Sub32(a: U32, b: U32): U32 {
    (a - b) % TWO_32
  }

  /** `static_cast<int32_t>` of a uint32_t. */
  function Signed32(a: U32): int {
    if a < TWO_31 then a else a - TWO_32
  }

  /** `static_cast<int8_t>` of a wider integer. */
  function Signed8(x: int): int {
    (x + 128) % 256 - 128
  }

  /** C++ integer division, which truncates toward zero. */
  function TruncDiv(a: int, b: int): int
    requires b > 0
  {
    if a >= 0 then a / b else -((-a) / b)
  }

  function Min(a: int, b: int): int {
    if a < b then a else b
  }

  function Max(a: int, b: int): int {
    if a > b then a else b
  }

  function Abs(a: int): int {
    if a >= 0 then a else -a
  }

  /** The wrapped difference of two counter readings is the true span, whatever the number of wraps. */
  lemma WrappedDifference(later: int, earlier: int)
    ensures 0 <= later - earlier < TWO_32 ==> Sub32(Wrap(later), Wrap(earlier)) == later - earlier
    ensures -TWO_31 <= later - earlier < TWO_31 ==> Signed32(Sub32(Wrap(later), Wrap(earlier))) == later - earlier
  {
    var ql, qe := later / TWO_32, earlier / TWO_32;
    assert later == ql * TWO_32 + Wrap(later) && earlier == qe * TWO_32 + Wrap(earlier);
    var q := (Wrap(later) - Wrap(earlier)) / TWO_32;
    assert later - earlier == (ql - qe + q) * TWO_32 + Sub32(Wrap(later), Wrap(earlier));
  }

  /** Counting on from a wrapped total is wrapping the true total. */
  lemma AddWrapped(total: int, x: int)
    ensures Wrap(Wrap(total) + x) == Wrap(total + x)
  {
  }

  /** The same for any two counts: the wrapped difference is the true one modulo 2^32. */
  lemma DifferenceOfImages(x: int, y: int)
    ensures Sub32(Wrap(x), Wrap(y)) == (x - y) % TWO_32
  {
    var r := (x - y) % TWO_32;
    var k := (x - y) / TWO_32;
    assert x == y + r + k * TWO_32;
    SameImage(y + r, k);
    WrappedDifference(y + r, y);
  }

  lemma SameImage(x: int, k: int)
    ensures Wrap(x + k * TWO_32) == Wrap(x)
  {
  }

  /** Truncating division is an odd function, which floor division is not. */
  lemma TruncDivOdd(a: int, b: int)
    requires b > 0
    ensures TruncDiv(-a, b) == -TruncDiv(a, b)
  {
  }
}

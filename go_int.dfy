/**
 * Go's fixed-width integers, as ranges of mathematical integers.
 * Go's `int` and `uint` are taken to be 64 bits wide.
 */
module GoInt {

  const MinInt64: int := -0x8000_0000_0000_0000
  const MaxInt64: int := 0x7fff_ffff_ffff_ffff
  const TwoTo64: int := 0x1_0000_0000_0000_0000

  type int64 = x: int | -0x8000_0000_0000_0000 <= x <= 0x7fff_ffff_ffff_ffff

  type uint64 = x: int | 0 <= x <= 0xffff_ffff_ffff_ffff

  /** The int64 value a wrapping (two's complement) int64 operation yields for the exact result x. */
  function WrapInt64(x: int): (r: int64)
    ensures (r - x) % TwoTo64 == 0
    ensures MinInt64 <= x <= MaxInt64 ==> r == x
  {
    (x - MinInt64) % TwoTo64 + MinInt64
  }

  /** Go's conversion uint64(x) of an int64: the bit pattern read as unsigned. */
  function Uint64Of(x: int64): (r: uint64)
    ensures (r - x) % TwoTo64 == 0
    ensures x >= 0 ==> r == x
  {
    if x < 0 then x + TwoTo64 else x
  }
}

/** Go's fixed-width integers, and the conversions big.Int offers to them. */
module Ints {

  const TWO_TO_THE_63: int := 0x8000_0000_0000_0000
  const TWO_TO_THE_64: int := 0x1_0000_0000_0000_0000
  const MAX_INT64: int := TWO_TO_THE_63 - 1
  const MIN_INT64: int := -TWO_TO_THE_63

  type int64 = x: int | -0x8000_0000_0000_0000 <= x < 0x8000_0000_0000_0000
  type uint64 = x: int | 0 <= x < 0x1_0000_0000_0000_0000

  /** Two's complement wrap-around of an int64 computation; also big.Int.Int64. */
  function WrapInt64(x: int): (r: int64)
    ensures MIN_INT64 <= x <= MAX_INT64 ==> r == x
    ensures (x - r) % TWO_TO_THE_64 == 0
  {
    var m := x % TWO_TO_THE_64;
    if m < TWO_TO_THE_63 then m else m - TWO_TO_THE_64
  }

  /** big.Int.Uint64: the low 64 bits of the magnitude. */
  function LowUint64(x: int): (r: uint64)
    ensures 0 <= x < TWO_TO_THE_64 ==> r == x
  {
    (if x < 0 then -x else x) % TWO_TO_THE_64
  }

  /** An int64 duration that saturates, as time.Time.Sub does. */
  function SaturateInt64(x: int): (r: int64)
    ensures MIN_INT64 <= x <= MAX_INT64 ==> r == x
    ensures x > MAX_INT64 ==> r == MAX_INT64
    ensures x < MIN_INT64 ==> r == MIN_INT64
  {
    if x > MAX_INT64 then MAX_INT64 else if x < MIN_INT64 then MIN_INT64 else x
  }
}

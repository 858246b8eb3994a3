/** Java's fixed-width integer types, as used by the FIFO's fields and timeouts. */
module JavaInts {

  const TWO_TO_THE_64: int := 0x1_0000_0000_0000_0000

  /** Java `int`: indices, counts and array lengths. */
  newtype Int32 = x: int | -0x8000_0000 <= x < 0x8000_0000

  /** Java `long`: the stored values, timeouts and clock readings. */
  newtype Int64 = x: int | -0x8000_0000_0000_0000 <= x < 0x8000_0000_0000_0000

  /** The largest length a Java array can have (`Integer.MAX_VALUE`). */
  const MAX_ARRAY_LENGTH: int := 0x7fff_ffff

  predicate InInt64Range(x: int) {
    -0x8000_0000_0000_0000 <= x < 0x8000_0000_0000_0000
  }

  /** Java `long` arithmetic: the two's-complement value congruent to `x` modulo 2^64. */
  function Wrap64(x: int): (r: Int64)
    ensures (r as int - x) % TWO_TO_THE_64 == 0
    ensures InInt64Range(x) ==> r as int == x
  {
    ((x + 0x8000_0000_0000_0000) % TWO_TO_THE_64 - 0x8000_0000_0000_0000) as Int64
  }
}

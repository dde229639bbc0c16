/**
 * Java's 32-bit `int`: its range and the two's-complement wrap-around that
 * `++` and unary `-` perform when a result leaves that range.
 */
module JavaInt {

  const INT32_MIN: int := -0x8000_0000
  const INT32_MAX: int := 0x7fff_ffff

  /** Size of the 32-bit value space. */
  const TWO_POW_32: int := 0x1_0000_0000

  predicate InInt32(x: int) {
    INT32_MIN <= x <= INT32_MAX
  }

  /**
   * The Java `int` that an exact integer result becomes: the unique value in
   * range that is congruent to `x` modulo 2^32.
   */
  function Wrap32(x: int): (r: int)
    ensures InInt32(r)
    ensures (x - r) % TWO_POW_32 == 0
    ensures InInt32(x) ==> r == x
  {
    (x - INT32_MIN) % TWO_POW_32 + INT32_MIN
  }
}

/** The range of the integers that fit in a tagged machine word of 64 bits. */
module Fixnum {

  const INT_PTR_MAX: int := 0x7FFF_FFFF_FFFF_FFFF
  const NUM_MAX: int := 0x1FFF_FFFF_FFFF_FFFF
  const NUM_MIN: int := -0x2000_0000_0000_0000

  predicate IsFixnum(n: int) {
    NUM_MIN <= n <= NUM_MAX
  }

  /** n, or its complement when negative: what bit counts and widths look at. */
  function Magnitude(n: int): nat {
    if n < 0 then -n - 1 else n
  }
}

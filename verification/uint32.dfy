/** Unsigned 32-bit integers, as used for capacities, indices, values and sizes
    in the register service. */
module Uint32 {

  const UINT32_LIMIT: int := 0x1_0000_0000

  newtype uint32 = x: int | 0 <= x < UINT32_LIMIT

  /** C++ unsigned arithmetic: the mathematical result reduced modulo 2^32. */
  function Wrap32(x: int): (r: uint32)
    ensures r as int == x % UINT32_LIMIT
    ensures 0 <= x < UINT32_LIMIT ==> r as int == x
  {
    (x % UINT32_LIMIT) as uint32
  }
}

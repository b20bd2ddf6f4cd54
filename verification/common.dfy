/** Value types shared by every module: bytes, unsigned 32-bit words held as
    integers, and an optional value standing for a nullable pointer. */
module Common {

  /** `uint8_t`. */
  type byte = b: int | 0 <= b < 0x100

  const U32_MODULUS: int := 0x1_0000_0000

  /** `uint32_t` (and `size_t` on the 32-bit target), as an integer. */
  type u32 = x: int | 0 <= x < U32_MODULUS

  /** A value that may be absent: a NULL pointer or an empty table entry. */
  datatype Option<T> = None | Some(value: T)

  /** `x + 1` in 32-bit unsigned arithmetic: wraps from 0xFFFF_FFFF to 0. */
  function IncU32(x: u32): (r: u32)
    ensures x < U32_MODULUS - 1 ==> r == x + 1
    ensures x == U32_MODULUS - 1 ==> r == 0
  {
    (x + 1) % U32_MODULUS
  }

  /** Quotient and remainder are determined by any decomposition with a
      remainder in range. */
  lemma DivMod(x: int, m: int, q: int, r: int)
    requires 0 < m && 0 <= r < m && x == q * m + r
    ensures x / m == q && x % m == r
  {
    MulMonotone(x / m + 1, q, m);
    MulMonotone(q + 1, x / m, m);
  }

  /** Multiplying by a positive number keeps order. */
  lemma MulMonotone(a: int, b: int, m: int)
    requires 0 < m
    ensures a <= b ==> a * m <= b * m
  {
    if a <= b {
      assert (b - a) * m >= 0;
    }
  }
}

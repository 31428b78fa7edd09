/** Small types shared by every module: options, results and 32-bit integers. */
module Common {

  datatype Option<+T> = None | Some(value: T)

  datatype Result<+T, +E> = Ok(value: T) | Err(error: E)

  const U32_MODULUS: int := 0x1_0000_0000
  const U32_MAX: int := 0xFFFF_FFFF

  /** An unsigned 32-bit machine integer. */
  type U32 = x: int | 0 <= x <= U32_MAX

  /** `+` as the release build computes it: the sum wraps around. */
  function WrappingAdd(x: U32, y: U32): U32 {
    (x + y) % U32_MODULUS
  }

  /** `saturating_mul`. */
  function SaturatingMul(x: U32, y: U32): U32 {
    if x * y <= U32_MAX then MulNonNegative(x, y); x * y else U32_MAX
  }

  lemma MulNonNegative(x: nat, y: nat)
    ensures 0 <= x * y
  {
  }
}

/**
  Types the models of the different components share.
 */
module Base {

  datatype Option<+T> = None | Some(value: T)

  type byte = b: int | 0 <= b < 256

  /** Unsigned arithmetic on 32 bits is modulo this. */
  const UINT32_RANGE: nat := 0x1_0000_0000

  /** A 32-bit word of the target. */
  type word = w: int | 0 <= w < UINT32_RANGE
}

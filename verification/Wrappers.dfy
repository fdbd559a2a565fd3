/** Option, Result and the fixed-width integers of the source, shared by every module. */
module Wrappers {

  datatype Option<+T> = None | Some(value: T)

  datatype Result<+T, +E> = Ok(value: T) | Err(error: E)

  const U8_MAX: nat := 255
  const U32_MAX: nat := 0xFFFF_FFFF
  const U64_MAX: nat := 0xFFFF_FFFF_FFFF_FFFF

  type uint8 = x: nat | x <= U8_MAX
  type uint32 = x: nat | x <= U32_MAX
  type uint64 = x: nat | x <= U64_MAX

  function Min(a: int, b: int): int {
    if a <= b then a else b
  }

  function Max(a: int, b: int): int {
    if a >= b then a else b
  }

  /** Addition that stops at `limit`, the largest value of the machine type. */
  function SaturatingAdd(a: nat, b: nat, limit: nat): nat {
    Min(a + b, limit)
  }

  /** Subtraction that stops at zero. */
  function SaturatingSub(a: nat, b: nat): nat {
    Max(a - b, 0)
  }

  /** Multiplication that stops at `limit`. */
  function SaturatingMul(a: nat, b: nat, limit: nat): nat {
    Min(a * b, limit)
  }
}

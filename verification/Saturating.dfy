/** The machine integers of the original: u32 process identifiers, u64 energies, powers and
    timestamps, and the saturating operations of Rust's `u64`. Specifications use `nat`. */
module Saturating {

  const U64_MAX: nat := 0xFFFF_FFFF_FFFF_FFFF
  const U32_MAX: nat := 0xFFFF_FFFF

  type u64 = x: int | 0 <= x <= U64_MAX
  type u32 = x: int | 0 <= x <= U32_MAX

  datatype Option<+T> = None | Some(value: T)

  /** `u64::try_from(x).unwrap_or(u64::MAX)` and the result of every saturating operation. */
  function Sat(x: nat): u64 {
    if x > U64_MAX then U64_MAX else x
  }

  function SatAdd(a: u64, b: u64): u64 {
    Sat(a + b)
  }

  function SatMul(a: u64, b: u64): u64 {
    assert a * b >= 0;
    Sat(a * b)
  }

  function SatSub(a: u64, b: u64): u64 {
    if a < b then 0 else a - b
  }
}

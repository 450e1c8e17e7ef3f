/**
 * Rust's fixed-width integer types and the `as` casts between them, on
 * unbounded integers. A cast keeps the low bits and reads them in the
 * target type (two's complement for the signed ones).
 */
module MachineInts {
  const I32_MIN: int := -0x8000_0000
  const I32_MAX: int := 0x7fff_ffff
  const I64_MIN: int := -0x8000_0000_0000_0000
  const I64_MAX: int := 0x7fff_ffff_ffff_ffff

  type I32 = x: int | -0x8000_0000 <= x <= 0x7fff_ffff
  type I64 = x: int | -0x8000_0000_0000_0000 <= x <= 0x7fff_ffff_ffff_ffff
  type U64 = x: nat | x < 0x1_0000_0000_0000_0000

  /** `x as i32`: the low 32 bits of `x`, read as two's complement. */
  function AsI32(x: int): (r: I32)
    ensures (x - r) % 0x1_0000_0000 == 0
    ensures -0x8000_0000 <= x <= 0x7fff_ffff ==> r == x
  {
    var low := x % 0x1_0000_0000;
    if low <= 0x7fff_ffff then low else low - 0x1_0000_0000
  }

  /** `x as u64` for an `i64`: negative values wrap to the top of the range. */
  function AsU64(x: I64): (r: U64)
    ensures x >= 0 ==> r == x
    ensures x < 0 ==> r == x + 0x1_0000_0000_0000_0000
  {
    if x >= 0 then x else x + 0x1_0000_0000_0000_0000
  }

  /** `x as i64` for a `u64`: the top half of the range reads as negative. */
  function AsI64(x: U64): (r: I64)
    ensures AsU64(r) == x
  {
    if x <= 0x7fff_ffff_ffff_ffff then x else x - 0x1_0000_0000_0000_0000
  }

  /** The two casts between `i64` and `u64` lose nothing. */
  lemma AsI64AsU64(x: I64)
    ensures AsI64(AsU64(x)) == x
  {
  }

  /** `AsU64` keeps the order of the non-negative and of the negative values apart: negatives land above `i64::MAX`. */
  lemma AsU64Order(x: I64, y: I64)
    requires (x < 0) == (y < 0)
    ensures x <= y <==> AsU64(x) <= AsU64(y)
  {
  }
}

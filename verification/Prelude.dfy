/** Option, Result, saturating 64-bit arithmetic and the instants shared by every component. */
module Prelude {

  datatype Option<+T> = None | Some(value: T) {
    function GetOr(default: T): T {
      match this
      case Some(v) => v
      case None => default
    }
  }

  datatype Result<+T, +E> = Ok(value: T) | Err(error: E)

  const I64_MAX: int := 0x7FFF_FFFF_FFFF_FFFF
  const I64_MIN: int := -0x8000_0000_0000_0000
  const U64_MAX: int := 0xFFFF_FFFF_FFFF_FFFF
  const U32_MAX: int := 0xFFFF_FFFF

  /** `i64::saturating_add`. */
  function SaturatingAdd(a: int, b: int): int {
    if a + b > I64_MAX then I64_MAX
    else if a + b < I64_MIN then I64_MIN
    else a + b
  }

  /** `i64::saturating_sub`. */
  function SaturatingSub(a: int, b: int): int {
    SaturatingAdd(a, -b)
  }

  /** Instants are nanoseconds of a monotonic clock. */
  const SECOND := 1_000_000_000

  /** `now.duration_since(at)`, which saturates at zero. */
  function Elapsed(now: int, at: int): nat {
    if now < at then 0 else now - at
  }

  function Min(a: nat, b: nat): nat {
    if a < b then a else b
  }

  lemma SubsetIsSmaller<T>(a: set<T>, b: set<T>)
    requires a <= b
    ensures |a| <= |b|
  {
    assert b == a + (b - a);
  }
}

/** Vocabulary shared by every component: optional values, byte strings, the
    64-bit bound, and saturating arithmetic on it. */
module Prelude {

  datatype Option<+T> = None | Some(value: T) {
    predicate IsFailure() {
      None?
    }

    function PropagateFailure<U>(): Option<U>
      requires None?
    {
      None
    }

    function Extract(): T
      requires Some?
    {
      value
    }
  }

  type byte = x: int | 0 <= x < 256
  type Bytes = seq<byte>

  const U32_MAX: nat := 0xffff_ffff
  const U64_MAX: nat := 0xffff_ffff_ffff_ffff

  type u16 = x: nat | x <= 0xffff
  type u32 = x: nat | x <= 0xffff_ffff
  type u64 = x: nat | x <= 0xffff_ffff_ffff_ffff
  type i64 = x: int | -0x8000_0000_0000_0000 <= x <= 0x7fff_ffff_ffff_ffff

  /** `u64::saturating_add` on values that may already be unbounded sums. */
  function SatAdd(a: nat, b: nat): (r: u64)
    ensures r <= a + b
    ensures r < U64_MAX ==> r == a + b
  {
    if a + b <= U64_MAX then a + b else U64_MAX
  }

  /** `u64::saturating_sub`. */
  function SatSub(a: nat, b: nat): (r: nat)
    ensures r <= a && a <= r + b
  {
    if a >= b then a - b else 0
  }
}

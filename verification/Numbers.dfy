/** The source's unsigned integers as subsets of the unbounded ones, and the smaller of two numbers. */
module Numbers {
  type u8 = x: nat | x < 256

  const U64_LIMIT: int := 0x1_0000_0000_0000_0000

  type u64 = x: nat | x < 0x1_0000_0000_0000_0000

  /** The `as i32` cast. */
  function AsI32(n: nat): int {
    var low := n % 0x1_0000_0000;
    if low < 0x8000_0000 then low else low - 0x1_0000_0000
  }

  /** The `as i64` cast. */
  function AsI64(n: nat): int {
    var low := n % U64_LIMIT;
    if low < 0x8000_0000_0000_0000 then low else low - U64_LIMIT
  }

  /** The cast keeps what fits, and otherwise changes it by a multiple of 2^32. */
  lemma {:induction false} AsI32Meaning(n: nat)
    ensures -0x8000_0000 <= AsI32(n) < 0x8000_0000 && (n - AsI32(n)) % 0x1_0000_0000 == 0
    ensures n < 0x8000_0000 <==> AsI32(n) == n
  {
  }

  /** On u64 the cast takes 2^64 off the upper half. */
  lemma {:induction false} AsI64Meaning(n: u64)
    ensures AsI64(n) == if n < 0x8000_0000_0000_0000 then n else n - 0x1_0000_0000_0000_0000
  {
  }

  function Min(a: nat, b: nat): nat { if a <= b then a else b }

  function MinReal(x: real, y: real): real { if x <= y then x else y }

  function MaxReal(x: real, y: real): real { if x >= y then x else y }
}

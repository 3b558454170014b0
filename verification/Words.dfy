/** Fixed-width integers of the code, where the width matters. */
module Words {
  const TWO_63 := 0x8000_0000_0000_0000
  const TWO_64 := 0x1_0000_0000_0000_0000

  type Uint64 = n: nat | n < TWO_64

  function WrapUint64(i: int): Uint64 {
    i % TWO_64
  }

  /** The int64 conversion of a uint64. */
  function ToInt64(n: Uint64): int {
    if n < TWO_63 then n else n - TWO_64
  }

  /** int64 arithmetic wraps. */
  function WrapInt64(i: int): int {
    ToInt64(WrapUint64(i))
  }
}

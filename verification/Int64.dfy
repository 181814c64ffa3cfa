/** Go's int64: results wrap around modulo 2^64. */
module Int64 {

  const TWO_63 := 0x8000_0000_0000_0000
  const TWO_64 := 0x1_0000_0000_0000_0000

  /** The int64 that holds `n` after wrap-around. */
  function Wrap64(n: int): (w: int)
    ensures -TWO_63 <= w < TWO_63
    ensures -TWO_63 <= n < TWO_63 ==> w == n
  {
    (n + TWO_63) % TWO_64 - TWO_63
  }

  lemma WrapShift(x: int, k: int)
    ensures Wrap64(x + k * TWO_64) == Wrap64(x)
  {
  }

  function Pow2(k: nat): nat {
    if k == 0 then 1 else 2 * Pow2(k - 1)
  }
}

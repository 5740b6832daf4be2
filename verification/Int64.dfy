/** 64-bit signed integers. */
module Int64 {

  const MAX_INT64 := 0x7fff_ffff_ffff_ffff

  newtype int64 = x: int | -0x8000_0000_0000_0000 <= x <= 0x7fff_ffff_ffff_ffff

  predicate InInt64(x: int) {
    -MAX_INT64 - 1 <= x <= MAX_INT64
  }

  /** Two's-complement wrap-around to 64 bits. */
  function Wrap64(x: int): int {
    (x + MAX_INT64 + 1) % (2 * MAX_INT64 + 2) - MAX_INT64 - 1
  }

  lemma WrapIsIdentity(x: int)
    requires InInt64(x)
    ensures Wrap64(x) == x
  {
  }
}

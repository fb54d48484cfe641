/** Integer helpers shared by the string and the ranking modules. */
module Ints {
  /** The smaller of `a` and `b`, as Python's `min`. */
  function Min(a: int, b: int): int {
    if a < b then a else b
  }
}

/** Arithmetic on the unbounded integers. */
module Integers {
  function Min(a: int, b: int): int {
    if a < b then a else b
  }
}

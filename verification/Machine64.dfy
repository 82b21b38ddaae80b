/** The machine arithmetic of a 64-bit kernel: size_t and unsigned long wrap, and loff_t is the
    two's-complement reading of the same 64 bits. */
module Machine64 {
  const TWO_63: int := 0x8000_0000_0000_0000
  const TWO_64: int := 0x1_0000_0000_0000_0000

  function U64(x: int): (r: int)
    ensures 0 <= r < TWO_64
    ensures 0 <= x < TWO_64 ==> r == x
    ensures -TWO_64 <= x < 0 ==> r == x + TWO_64
    ensures TWO_64 <= x < 2 * TWO_64 ==> r == x - TWO_64
  {
    x % TWO_64
  }

  function S64(x: int): (r: int)
    ensures IsS64(r)
    ensures IsS64(x) ==> r == x
    ensures TWO_63 <= x < TWO_64 ==> r == x - TWO_64
  {
    if U64(x) >= TWO_63 then U64(x) - TWO_64 else U64(x)
  }

  predicate IsS64(x: int) {
    -TWO_63 <= x < TWO_63
  }
}

/** The bounds checks of the memory device's mmap, in wrapping 64-bit arithmetic. */
module Mmap {
  import opened Wrappers
  import opened Machine64

  const PAGE_SIZE: int := 4096
  const BUF_LEN: int := PAGE_SIZE

  predicate IsU64(x: int) {
    0 <= x < TWO_64
  }

  function Shl(x: int): int {
    U64(x * PAGE_SIZE)
  }

  function Shr(x: int): int {
    x / PAGE_SIZE
  }

  /** The second test, on an offset that may have wrapped. */
  predicate EndsInside(offset: int, size: int) {
    !(offset > BUF_LEN || size > U64(BUF_LEN - offset))
  }

  /** What is handed to the page-table code: a first page frame and a size; None is EINVAL. */
  datatype Mapping = Mapping(pfn: int, size: int)

  /** A request is granted exactly when, over the unbounded integers, it ends inside the buffer. */
  function Remap(start: int, end: int, pgoff: int, phys: int): (m: Option<Mapping>)
    requires IsU64(start) && IsU64(end) && IsU64(pgoff) && IsU64(phys) && start <= end
    ensures m.Some? <==> pgoff * PAGE_SIZE + (end - start) <= BUF_LEN
    ensures m.Some? ==> m.value.size == end - start
  {
    var size := U64(end - start);
    var offset := Shl(pgoff);
    if Shr(offset) != pgoff then None
    else if !EndsInside(offset, size) then None
    else Some(Mapping(Shr(phys), size))
  }

  /** The physical byte that user address start + i reaches. */
  function Reached(m: Mapping, i: int): int {
    m.pfn * PAGE_SIZE + i
  }

  /** A granted non-empty whole-page mapping is the one page of the buffer. Because its page offset is
      then 0, leaving the offset out of the page frame is right: user byte i is buffer byte
      pgoff * PAGE_SIZE + i, for exactly the buffers that start on a page. */
  lemma GrantedMapsTheBuffer(start: int, end: int, pgoff: int, phys: int, i: int)
    requires IsU64(start) && IsU64(end) && IsU64(pgoff) && IsU64(phys) && start < end
    requires (end - start) % PAGE_SIZE == 0
    requires Remap(start, end, pgoff, phys).Some?
    ensures pgoff == 0 && end - start == PAGE_SIZE
    ensures Reached(Remap(start, end, pgoff, phys).value, i) == phys + pgoff * PAGE_SIZE + i
            <==> phys % PAGE_SIZE == 0
  {}

  /** How many pages the address space has. */
  const PAGES: int := 0x10_0000_0000_0000

  lemma ShlWraps(pgoff: int)
    requires IsU64(pgoff)
    ensures Shl(pgoff) == (pgoff % PAGES) * PAGE_SIZE
  {
    var q, r := pgoff / PAGES, pgoff % PAGES;
    assert pgoff == q * 0x10_0000_0000_0000 + r;
    assert pgoff * 4096 == q * 0x1_0000_0000_0000_0000 + r * 4096;
    assert 0 <= r * 4096 < 0x1_0000_0000_0000_0000;
  }

  /** The second test alone would accept a range that does not end inside the buffer exactly when the
      page number is past the last page and, once wrapped, fits. The first test turns exactly the
      page numbers past the last page away. */
  lemma WrapTestIsNeeded(pgoff: int, size: int)
    requires IsU64(pgoff) && IsU64(size)
    ensures EndsInside(Shl(pgoff), size) && pgoff * PAGE_SIZE + size > BUF_LEN
            <==> pgoff >= PAGES && (pgoff % PAGES) * PAGE_SIZE + size <= BUF_LEN
    ensures Shr(Shl(pgoff)) != pgoff <==> pgoff >= PAGES
  {
    ShlWraps(pgoff);
  }
}

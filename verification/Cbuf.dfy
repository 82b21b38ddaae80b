/** The circular-buffer helpers of the interrupt-fed device and the buffer value they describe. */
module Cbuf {
  import opened Bytes

  /** The size of the temporary that a read copies through. */
  const TMP_LEN: nat := 256

  /* ----- the helpers, as the driver writes them ----- */

  predicate IsEmpty(head: nat, tail: nat) {
    head == tail
  }

  predicate IsFull(head: nat, tail: nat, len: nat)
    requires len > 0
  {
    (head + 1) % len == tail
  }

  /** Despite its name this is the whole occupancy, wrapped part included. */
  function CountToEnd(head: nat, tail: nat, len: nat): (n: nat)
    requires head < len && tail < len
    ensures n < len
  {
    if head >= tail then head - tail else len - tail + head
  }

  function SpaceToEnd(head: nat, tail: nat, len: nat): (n: nat)
    requires head < len && tail < len
    ensures CountToEnd(head, tail, len) + n == len - 1
  {
    if head >= tail then len - head + tail - 1 else tail - head - 1
  }

  function PointerMove(ptr: nat, n: nat, len: nat): (p: nat)
    requires len > 0
    ensures p < len
  {
    (ptr + n) % len
  }

  /** The branches of CountToEnd are (head - tail) modulo len; empty and full are its two extremes. */
  lemma OccupancyIsModular(head: nat, tail: nat, len: nat)
    requires head < len && tail < len
    ensures CountToEnd(head, tail, len) == (head - tail) % len
    ensures IsEmpty(head, tail) <==> CountToEnd(head, tail, len) == 0
    ensures IsFull(head, tail, len) <==> CountToEnd(head, tail, len) == len - 1
    ensures IsFull(head, tail, len) <==> SpaceToEnd(head, tail, len) == 0
  {
    WrapAround(head + 1, len);
    if head >= tail {
      DivModUnique(head - tail, 0, head - tail, len);
    } else {
      DivModUnique(head - tail, -1, len - tail + head, len);
    }
  }

  /* ----- modular arithmetic ----- */

  /** A non-zero multiple of len is at least len away from zero. */
  lemma MultipleIsFar(k: int, len: int)
    requires len > 0
    ensures k >= 1 ==> k * len >= len
    ensures k <= -1 ==> k * len <= -len
  {
    if k >= 1 {
      assert k * len == len + (k - 1) * len;
    } else if k <= -1 {
      assert k * len == -len + (k + 1) * len;
    }
  }

  lemma DivModUnique(x: int, q: int, r: int, len: int)
    requires 0 <= r < len && x == q * len + r
    ensures x % len == r
  {
    assert x == (x / len) * len + x % len;
    assert (x / len - q) * len == r - x % len;
    MultipleIsFar(x / len - q, len);
  }

  /** Below 2 * len one subtraction replaces the remainder. */
  lemma WrapAround(x: nat, len: nat)
    requires 0 < len && x < 2 * len
    ensures x % len == if x < len then x else x - len
  {
    if x < len {
      DivModUnique(x, 0, x, len);
    } else {
      DivModUnique(x, 1, x - len, len);
    }
  }

  /* ----- the ring as a value ----- */

  datatype Ring = Ring(buf: seq<byte>, head: nat, tail: nat) {

    ghost predicate Valid() {
      2 <= |buf| && head < |buf| && tail < |buf|
    }

    function Count(): nat
      requires Valid()
    {
      CountToEnd(head, tail, |buf|)
    }

    predicate Full()
      requires Valid()
    {
      IsFull(head, tail, |buf|)
    }

    /** Where the i-th oldest byte lives. */
    function Slot(i: nat): (k: nat)
      requires Valid() && i < |buf|
      ensures k < |buf|
    {
      if tail + i < |buf| then tail + i else tail + i - |buf|
    }

    /** The buffered bytes, oldest first. */
    ghost function Contents(): (s: seq<byte>)
      requires Valid()
      ensures |s| == Count()
    {
      seq(Count(), i requires 0 <= i < Count() => buf[Slot(i)])
    }

    /** The handler's store, before the head pointer moves. */
    function Store(c: byte): Ring
      requires Valid()
    {
      this.(buf := buf[head := c])
    }

    /** The handler's move of the head pointer. */
    function Publish(): Ring
      requires Valid()
    {
      this.(head := PointerMove(head, 1, |buf|))
    }

    /** The reader's move of the tail pointer. */
    function Drop(n: nat): Ring
      requires Valid()
    {
      this.(tail := PointerMove(tail, n, |buf|))
    }

    /** One straight copy of n bytes starting at the tail stays inside the buffer. */
    predicate Fits(n: nat) {
      tail + n <= |buf|
    }

    /** What that straight copy yields. */
    function Straight(n: nat): seq<byte>
      requires Fits(n)
    {
      buf[tail..tail + n]
    }
  }

  /** The slots are (tail + i) modulo len, and moving a pointer is one step around the ring. */
  lemma RingMoves(r: Ring, n: nat)
    requires r.Valid() && n < |r.buf|
    ensures r.Slot(n) == (r.tail + n) % |r.buf|
    ensures r.Drop(n).tail == r.Slot(n)
    ensures r.Publish().head == if r.head + 1 == |r.buf| then 0 else r.head + 1
    ensures r.Full() <==> r.Count() == |r.buf| - 1
  {
    WrapAround(r.tail + n, |r.buf|);
    WrapAround(r.head + 1, |r.buf|);
  }

  /** Storing at the head never disturbs the buffered bytes; publishing appends exactly the stored byte. */
  lemma StoreThenPublishAppends(r: Ring, c: byte)
    requires r.Valid() && !r.Full()
    ensures r.Store(c).Valid() && r.Store(c).Contents() == r.Contents()
    ensures r.Store(c).Publish().Valid()
    ensures r.Store(c).Publish().Contents() == r.Contents() + [c]
  {
    RingMoves(r, 0);
    RingMoves(r.Store(c), 0);
    assert r.Store(c).Contents() == r.Contents();
    assert r.Store(c).Publish().Contents() == r.Contents() + [c];
  }

  /** Publishing alone appends whatever stands at the head. */
  lemma PublishAppends(r: Ring)
    requires r.Valid() && !r.Full()
    ensures r.Publish().Valid() && r.Publish().Contents() == r.Contents() + [r.buf[r.head]]
  {
    assert r.Store(r.buf[r.head]) == r;
    StoreThenPublishAppends(r, r.buf[r.head]);
  }

  /** Moving the tail by n forgets exactly the n oldest bytes. */
  lemma DropRemovesPrefix(r: Ring, n: nat)
    requires r.Valid() && n <= r.Count()
    ensures r.Drop(n).Valid() && r.Drop(n).Contents() == r.Contents()[n..]
  {
    RingMoves(r, n);
    assert r.Drop(n).Contents() == r.Contents()[n..];
  }

  /** The straight slice at the tail is the FIFO prefix whenever it fits. */
  lemma StraightIsPrefix(r: Ring, n: nat)
    requires r.Valid() && n <= r.Count() && r.Fits(n)
    ensures r.Straight(n) == r.Contents()[..n]
  {}

  /** Which reads fit: every one-byte read of a non-empty ring, and a read of everything exactly
      when the occupied part does not wrap past the end with bytes left at the front. */
  lemma WhenStraightFits(r: Ring)
    requires r.Valid()
    ensures r.Count() > 0 ==> r.Fits(1)
    ensures r.Fits(r.Count()) <==> r.head >= r.tail || r.head == 0
    ensures forall n | 0 <= n <= r.Count() && r.head >= r.tail :: r.Fits(n)
  {}
}

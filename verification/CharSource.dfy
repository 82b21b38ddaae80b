/** The generator of demonstration data: the capital letters, round and round. */
module CharSource {
  import opened Bytes

  const BEFORE_A: byte := 64
  const LETTER_A: byte := 65
  const AFTER_Z: byte := 91

  type GenState = d: byte | d < AFTER_Z witness BEFORE_A

  /** What the static character becomes on the next call. */
  function NextChar(d: GenState): GenState {
    if d + 1 == AFTER_Z then LETTER_A else d + 1
  }

  /** The i-th letter ever generated. */
  function Letter(i: nat): (c: byte)
    ensures LETTER_A <= c < AFTER_Z
  {
    LETTER_A + i % 26
  }

  /** The static character after i calls. */
  function StateAfter(i: nat): GenState {
    if i == 0 then BEFORE_A else Letter(i - 1)
  }

  /** The i-th call returns the i-th letter: the wrap test fires exactly every 26 calls. */
  lemma NextIsLetter(i: nat)
    ensures NextChar(StateAfter(i)) == Letter(i) == StateAfter(i + 1)
  {
    if i > 0 {
      if i % 26 == 0 {
        assert (i - 1) % 26 == 25;
      } else {
        assert (i - 1) % 26 == i % 26 - 1;
      }
    }
  }

  class CharGenerator {
    var d: byte
    ghost var calls: nat

    ghost predicate Valid()
      reads this
    {
      d == StateAfter(calls)
    }

    constructor ()
      ensures Valid() && calls == 0
    {
      d, calls := BEFORE_A, 0;
    }

    method GetNewChar() returns (c: byte)
      requires Valid()
      modifies this
      ensures Valid() && calls == old(calls) + 1
      ensures c == Letter(old(calls)) && d == c
    {
      NextIsLetter(calls);
      d := d + 1;
      if d == AFTER_Z {
        d := LETTER_A;
      }
      calls := calls + 1;
      c := d;
    }
  }
}

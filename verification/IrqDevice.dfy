/** The interrupt-fed character device, one call at a time. The interleavings are in IrqMachine. */
module IrqDevice {
  import opened Bytes
  import opened Cbuf
  import opened CharSource
  import opened Integers

  /** OutOfBounds: the memcpy would leave the ring or the temporary, and there the model stops. */
  datatype ReadOutcome = Bytes(data: seq<byte>) | NotReady | Interrupted | OutOfBounds

  class RingDevice {
    const buf: array<byte>
    var head: nat
    var tail: nat

    ghost predicate Valid()
      reads this, buf
    {
      Value().Valid()
    }

    function Value(): Ring
      reads this, buf
    {
      Ring(buf[..], head, tail)
    }

    ghost function Contents(): seq<byte>
      requires Valid()
      reads this, buf
    {
      Value().Contents()
    }

    constructor (len: nat)
      requires len >= 2
      ensures Valid() && fresh(buf) && buf.Length == len
      ensures Contents() == []
    {
      buf := new byte[len](_ => 0);
      head, tail := 0, 0;
    }

    /** One timer expiry: a byte is generated and appended, or dropped without touching the generator. */
    method TimerHandler(gen: CharGenerator)
      requires Valid() && gen.Valid()
      modifies this, buf, gen
      ensures Valid() && gen.Valid()
      ensures Value() == if old(Value().Full()) then old(Value())
                         else old(Value().Store(Letter(gen.calls)).Publish())
      ensures Contents() == if old(|Contents()|) == buf.Length - 1 then old(Contents())
                            else old(Contents()) + [Letter(old(gen.calls))]
      ensures gen.calls == old(gen.calls) + if old(|Contents()|) == buf.Length - 1 then 0 else 1
    {
      RingMoves(Value(), 0);
      if !IsFull(head, tail, buf.Length) {
        StoreThenPublishAppends(Value(), Letter(gen.calls));
        var c := gen.GetNewChar();
        buf[head] := c;
        head := PointerMove(head, 1, buf.Length);
      }
    }

    /** EPOLLIN is reported exactly when a byte is buffered. */
    method Poll() returns (readable: bool)
      requires Valid()
      ensures readable <==> Contents() != []
    {
      readable := !IsEmpty(head, tail);
    }

    /** The straight memcpy into the temporary; it must stay inside both buffers. */
    method CopyOut(tmp: array<byte>, n: nat)
      requires Valid() && Value().Fits(n) && n <= tmp.Length && tmp != buf
      modifies tmp
      ensures tmp[..n] == Value().Straight(n)
    {
      var i := 0;
      while i < n
        invariant i <= n
        invariant tmp[..i] == buf[tail..tail + i]
      {
        tmp[i] := buf[tail + i];
        i := i + 1;
      }
    }

    /** The rest of a read that has seen data: copy, and move the tail. */
    method TakeOldest(count: nat) returns (r: ReadOutcome)
      requires Valid() && Contents() != []
      modifies this`tail
      ensures Valid()
      ensures var n := Min(count, old(|Contents()|));
              if n <= 1 || (old(Value().Fits(n)) && n <= TMP_LEN)
              then r == Bytes(old(Contents())[..n]) && Contents() == old(Contents())[n..]
              else r == OutOfBounds && Value() == old(Value())
    {
      WhenStraightFits(Value());
      var tmp := new byte[TMP_LEN](_ => 0);
      var n := Min(count, CountToEnd(head, tail, buf.Length));
      if tail + n > buf.Length || n > tmp.Length {
        return OutOfBounds;
      }
      CopyOut(tmp, n);
      StraightIsPrefix(Value(), n);
      DropRemovesPrefix(Value(), n);
      r := Bytes(tmp[..n]);
      tail := PointerMove(tail, n, buf.Length);
    }

    /** A read on its own: the timer fires only while it waits. On an empty ring it comes back at once
        with O_NONBLOCK or a pending signal, and otherwise waits for the next expiry. */
    method Read(count: nat, nonblock: bool, signal: bool, gen: CharGenerator) returns (r: ReadOutcome)
      requires Valid() && gen.Valid()
      modifies this, buf, gen
      ensures Valid() && gen.Valid()
      ensures var empty, idle := old(Contents()) == [], nonblock || signal;
              gen.calls == old(gen.calls) + if empty && !idle then 1 else 0
      ensures old(Contents()) == [] && (nonblock || signal) ==>
                Value() == old(Value()) && r == if nonblock then NotReady else Interrupted
      ensures old(Contents()) != [] || !(nonblock || signal) ==>
                var all := if old(Contents()) == [] then [Letter(old(gen.calls))] else old(Contents());
                var n := Min(count, |all|);
                if n <= 1 || (old(Value().Fits(n)) && n <= TMP_LEN)
                then r == Bytes(all[..n]) && Contents() == all[n..]
                else r == OutOfBounds && Value() == old(Value())
    {
      if nonblock {
        if IsEmpty(head, tail) {
          return NotReady;
        }
      } else if IsEmpty(head, tail) {
        if signal {
          return Interrupted;
        }
        RingMoves(Value(), 0);
        TimerHandler(gen);
      }
      r := TakeOldest(count);
    }
  }
}

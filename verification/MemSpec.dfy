/** The seekable memory device as one atomic call at a time: the driver's clamp and seek arithmetic in
    64-bit machine terms, and what serial runs of calls mean. */
module MemSpec {
  import opened Wrappers
  import opened Bytes
  import opened Integers
  import opened Machine64

  type Handle = nat

  const SEEK_SET: int := 0
  const SEEK_CUR: int := 1
  const SEEK_END: int := 2

  /** Buffers are far smaller than the address space, and never empty. */
  predicate IsBufLen(len: nat) {
    1 <= len < TWO_63 / 2
  }

  /** The device and the position of every handle; a handle just opened stands at 0. */
  datatype Store = Store(buf: seq<byte>, pos: map<Handle, int>, readOnly: int) {
    function Pos(h: Handle): int {
      if h in pos then pos[h] else 0
    }

    ghost predicate Valid() {
      IsBufLen(|buf|) && forall h :: h in pos ==> 0 <= pos[h] <= |buf|
    }
  }

  datatype Op = Read(count: int) | Write(data: seq<byte>) | Seek(offset: int, whence: int) | SetRdonly(value: int)
              | GetInfo | UnknownIoctl | ForeignIoctl

  datatype Ret = Data(bytes: seq<byte>) | Wrote(n: nat) | Moved(pos: int) | Flag(value: int) | Done
               | Einval | NoIoctlCmd

  /** What the system-call layer lets through: sizes below 2^63 and 64-bit offsets. */
  predicate OpOk(op: Op) {
    match op
    case Read(count) => 0 <= count < TWO_63
    case Write(data) => |data| < TWO_63
    case Seek(offset, _) => IsS64(offset)
    case _ => true
  }

  /* ----- where a call means to go, over the unbounded integers ----- */

  function IdealTarget(len: nat, pos: int, offset: int, whence: int): int {
    offset + if whence == SEEK_CUR then pos else if whence == SEEK_END then len else 0
  }

  /** A seek is granted exactly when it has a known origin and lands on a cell of the buffer. */
  function IdealSeek(len: nat, pos: int, offset: int, whence: int): Option<nat> {
    var p := IdealTarget(len, pos, offset, whence);
    if 0 <= whence <= 2 && 0 <= p < len then Some(p) else None
  }

  /* ----- and as the driver computes it ----- */

  /** The end-of-buffer clamp, whose test and difference are both unsigned, is the minimum of the
      request and the room left, at every position and for every request the system-call layer lets
      through. */
  function Clamp(pos: int, count: int, len: nat): (n: int)
    ensures IsBufLen(len) && 0 <= pos <= len && 0 <= count < TWO_63 ==> n == Min(count, len - pos)
  {
    if U64(U64(pos) + count) >= len then U64(len - U64(pos)) else count
  }

  /** The new position on loff_t, before it is checked. */
  function SeekTarget(len: nat, pos: int, offset: int, whence: int): Option<int> {
    if whence == SEEK_SET then Some(offset)
    else if whence == SEEK_CUR then Some(S64(pos + offset))
    else if whence == SEEK_END then Some(S64(U64(len + U64(offset))))
    else None
  }

  /** No 64-bit offset, however extreme, fools the wrapping seek. */
  function Llseek(len: nat, pos: int, offset: int, whence: int): (q: Option<int>)
    ensures IsBufLen(len) && 0 <= pos <= len && IsS64(offset) ==> q == IdealSeek(len, pos, offset, whence)
  {
    match SeekTarget(len, pos, offset, whence)
    case None => None
    case Some(p) => if p < 0 || U64(p) >= len then None else Some(p)
  }

  /* ----- one call ----- */

  function Splice(buf: seq<byte>, p: nat, data: seq<byte>): (r: seq<byte>)
    requires p + |data| <= |buf|
    ensures |r| == |buf|
    ensures forall i | 0 <= i < |buf| :: r[i] == if p <= i < p + |data| then data[i - p] else buf[i]
  {
    buf[..p] + data + buf[p + |data|..]
  }

  /** A call from its lock to its unlock: a write is already past its read-only test. */
  function Commit(s: Store, h: Handle, op: Op): (r: (Store, Ret))
    requires s.Valid() && OpOk(op)
    ensures r.0.Valid() && |r.0.buf| == |s.buf|
    ensures forall g :: g != h ==> r.0.Pos(g) == s.Pos(g)
    ensures op.Write? && r.1.Wrote? ==> r.1.n <= |op.data|
  {
    var p, len := s.Pos(h), |s.buf|;
    match op
    case Read(count) =>
      var n := Min(count, len - p);
      (s.(pos := s.pos[h := p + n]), Data(s.buf[p..p + n]))
    case Write(data) =>
      var n := Min(|data|, len - p);
      (s.(buf := Splice(s.buf, p, data[..n]), pos := s.pos[h := p + n]), Wrote(n))
    case Seek(offset, whence) =>
      (match IdealSeek(len, p, offset, whence)
       case None => (s, Einval)
       case Some(q) => (s.(pos := s.pos[h := q]), Moved(q)))
    case SetRdonly(value) => (s.(readOnly := value), Done)
    case GetInfo => (s, Flag(s.readOnly))
    case UnknownIoctl => (s, NoIoctlCmd)
    case ForeignIoctl => (s, Einval)
  }

  /** What is turned away before anything else: a write while read-only, and an ioctl command that
      belongs to another driver. */
  predicate Refused(s: Store, op: Op) {
    op.ForeignIoctl? || (op.Write? && s.readOnly != 0)
  }

  /** A whole call, the tests at its entry included. */
  function Serve(s: Store, h: Handle, op: Op): (r: (Store, Ret))
    requires s.Valid() && OpOk(op)
    ensures r.0.Valid() && |r.0.buf| == |s.buf|
    ensures forall g :: g != h ==> r.0.Pos(g) == s.Pos(g)
    ensures op.Write? && r.1.Wrote? ==> r.1.n <= |op.data|
  {
    if Refused(s, op) then (s, Einval) else Commit(s, h, op)
  }

  /* ----- serial runs ----- */

  type Call = (Handle, Op)

  predicate CallsOk(calls: seq<Call>) {
    forall i | 0 <= i < |calls| :: OpOk(calls[i].1)
  }

  function Serial(s: Store, calls: seq<Call>): (r: Store)
    requires s.Valid() && CallsOk(calls)
    ensures r.Valid() && |r.buf| == |s.buf|
    decreases |calls|
  {
    if calls == [] then s else Serial(Serve(s, calls[0].0, calls[0].1).0, calls[1..])
  }

  /** Position and data of the call if it is a write that reports success. */
  function WrittenBy(s: Store, h: Handle, op: Op): seq<(int, seq<byte>)>
    requires s.Valid() && OpOk(op)
  {
    var ret := Serve(s, h, op).1;
    if op.Write? && ret.Wrote? then [(s.Pos(h), op.data[..ret.n])] else []
  }

  /** Position and data of every write that reported success, in order. */
  function Written(s: Store, calls: seq<Call>): seq<(int, seq<byte>)>
    requires s.Valid() && CallsOk(calls)
    decreases |calls|
  {
    if calls == [] then []
    else
      var (h, op) := calls[0];
      WrittenBy(s, h, op) + Written(Serve(s, h, op).0, calls[1..])
  }

  predicate Covers(w: (int, seq<byte>), i: int) {
    w.0 <= i < w.0 + |w.1|
  }

  /** The last write over cell i, searched for from the end; -1 when there is none. */
  function LastWriter(ws: seq<(int, seq<byte>)>, i: int): (k: int)
    ensures -1 <= k < |ws|
    ensures k >= 0 ==> Covers(ws[k], i)
    ensures forall m | k < m < |ws| :: !Covers(ws[m], i)
  {
    var last := |ws| - 1;
    if ws == [] then -1
    else if Covers(ws[last], i) then last
    else LastWriter(ws[..last], i)
  }

  /** What that write left in the cell, or the initial byte. */
  function LastWritten(ws: seq<(int, seq<byte>)>, i: int, initial: byte): byte {
    var k := LastWriter(ws, i);
    if k < 0 then initial else ws[k].1[i - ws[k].0]
  }

  lemma OneCallOnCells(s: Store, h: Handle, op: Op, i: nat)
    requires s.Valid() && OpOk(op) && i < |s.buf|
    ensures var (s', ret) := Serve(s, h, op);
            s'.buf[i] == if op.Write? && ret.Wrote? && s.Pos(h) <= i < s.Pos(h) + ret.n
                         then op.data[i - s.Pos(h)] else s.buf[i]
    ensures op.Write? && Serve(s, h, op).1.Wrote? ==> s.readOnly == 0
  {}

  lemma {:induction false} LastWrittenCons(w: (int, seq<byte>), rest: seq<(int, seq<byte>)>, i: int, initial: byte)
    ensures LastWritten([w] + rest, i, initial)
         == LastWritten(rest, i, if Covers(w, i) then w.1[i - w.0] else initial)
    decreases |rest|
  {
    var ws := [w] + rest;
    if rest == [] {
      assert ws == [w];
      assert ws[..0] == [];
    } else {
      var last := |rest| - 1;
      assert ws[..|ws| - 1] == [w] + rest[..last];
      if !Covers(rest[last], i) {
        LastWrittenCons(w, rest[..last], i, initial);
      }
    }
  }

  lemma OneCallLastWritten(s: Store, h: Handle, op: Op, rest: seq<(int, seq<byte>)>, i: nat)
    requires s.Valid() && OpOk(op) && i < |s.buf|
    ensures LastWritten(WrittenBy(s, h, op) + rest, i, s.buf[i]) == LastWritten(rest, i, Serve(s, h, op).0.buf[i])
  {
    OneCallOnCells(s, h, op, i);
    if WrittenBy(s, h, op) == [] {
      assert [] + rest == rest;
    } else {
      LastWrittenCons(WrittenBy(s, h, op)[0], rest, i, s.buf[i]);
    }
  }

  /** After every serial run, by any handles, each cell holds the byte of the last successful write
      covering it, or what it held at the start. */
  lemma {:induction false} CellsHoldLastWrite(s: Store, calls: seq<Call>, i: nat)
    requires s.Valid() && CallsOk(calls) && i < |s.buf|
    ensures Serial(s, calls).buf[i] == LastWritten(Written(s, calls), i, s.buf[i])
    decreases |calls|
  {
    if calls != [] {
      var (h, op) := calls[0];
      var s' := Serve(s, h, op).0;
      CellsHoldLastWrite(s', calls[1..], i);
      OneCallLastWritten(s, h, op, Written(s', calls[1..]), i);
    }
  }

  lemma OneRead(s: Store, h: Handle, count: nat)
    requires s.Valid() && OpOk(Read(count))
    ensures var (r, ret) := Serve(s, h, Read(count));
            var p, n := s.Pos(h), Min(count, |s.buf| - s.Pos(h));
            r.buf == s.buf && r.Pos(h) == p + n && ret == Data(s.buf[p..p + n])
  {}

  lemma ReadByte(s: Store, h: Handle, count: nat, k: nat)
    requires s.Valid() && OpOk(Read(count)) && k < Min(count, |s.buf| - s.Pos(h))
    ensures var ret := Serve(s, h, Read(count)).1;
            && ret.Data? && |ret.bytes| == Min(count, |s.buf| - s.Pos(h)) && ret.bytes[k] == s.buf[s.Pos(h) + k]
  {
    OneRead(s, h, count);
  }

  /** A write to a writable device stores as much as there is room for, moves on by as much, and says
      how much that was. */
  lemma OneWrite(s: Store, h: Handle, data: seq<byte>)
    requires s.Valid() && OpOk(Write(data)) && s.readOnly == 0
    ensures var (r, ret) := Serve(s, h, Write(data));
            var p, n := s.Pos(h), Min(|data|, |s.buf| - s.Pos(h));
            && ret == Wrote(n) && r.Pos(h) == p + n && r.readOnly == 0
            && forall i | 0 <= i < |s.buf| :: r.buf[i] == if p <= i < p + n then data[i - p] else s.buf[i]
  {}

  /** A read after any serial run returns, byte for byte, the last successful write over each cell from
      its position on. */
  lemma ReadsSeeLastWrites(s: Store, calls: seq<Call>, t: Store, h: Handle, count: nat, k: nat)
    requires s.Valid() && CallsOk(calls) && t == Serial(s, calls) && OpOk(Read(count))
    requires k < Min(count, |s.buf| - t.Pos(h))
    ensures var ret := Serve(t, h, Read(count)).1;
            && ret.Data? && |ret.bytes| == Min(count, |s.buf| - t.Pos(h))
            && ret.bytes[k] == LastWritten(Written(s, calls), t.Pos(h) + k, s.buf[t.Pos(h) + k])
  {
    ReadByte(t, h, count, k);
    CellsHoldLastWrite(s, calls, t.Pos(h) + k);
  }

  /** A write against a read-only device changes nothing, and nothing but SET_RDONLY changes that. */
  lemma {:induction false} ReadOnlyIsInert(s: Store, calls: seq<Call>)
    requires s.Valid() && CallsOk(calls) && s.readOnly != 0
    requires forall i | 0 <= i < |calls| :: !calls[i].1.SetRdonly?
    ensures Serial(s, calls).buf == s.buf && Serial(s, calls).readOnly == s.readOnly && Written(s, calls) == []
    decreases |calls|
  {
    if calls != [] {
      ReadOnlyIsInert(Serve(s, calls[0].0, calls[0].1).0, calls[1..]);
    }
  }

  /* ----- the flag, and the other ioctl commands ----- */

  /** The value of the last SET_RDONLY among the calls, or the initial one. */
  function LastFlag(calls: seq<Call>, initial: int): int {
    if calls == [] then initial
    else
      var (_, op) := calls[|calls| - 1];
      if op.SetRdonly? then op.value else LastFlag(calls[..|calls| - 1], initial)
  }

  lemma {:induction false} LastFlagCons(c: Call, rest: seq<Call>, initial: int)
    ensures LastFlag([c] + rest, initial) == LastFlag(rest, if c.1.SetRdonly? then c.1.value else initial)
    decreases |rest|
  {
    var calls := [c] + rest;
    if rest == [] {
      assert calls == [c] && calls[..0] == [];
    } else {
      assert calls[..|calls| - 1] == [c] + rest[..|rest| - 1];
      LastFlagCons(c, rest[..|rest| - 1], initial);
    }
  }

  /** Only SET_RDONLY touches the flag, and it leaves its value there. */
  lemma OneCallOnFlag(s: Store, h: Handle, op: Op)
    requires s.Valid() && OpOk(op)
    ensures var (r, ret) := Serve(s, h, op);
            if op.SetRdonly? then r == s.(readOnly := op.value) && ret == Done else r.readOnly == s.readOnly
  {}

  /** After any serial run the flag is the value of the last SET_RDONLY in it, or the initial one. */
  lemma {:induction false} FlagIsLastSet(s: Store, calls: seq<Call>)
    requires s.Valid() && CallsOk(calls)
    ensures Serial(s, calls).readOnly == LastFlag(calls, s.readOnly)
    decreases |calls|
  {
    if calls != [] {
      var (h, op) := calls[0];
      OneCallOnFlag(s, h, op);
      FlagIsLastSet(Serve(s, h, op).0, calls[1..]);
      assert calls == [calls[0]] + calls[1..];
      LastFlagCons(calls[0], calls[1..], s.readOnly);
    }
  }

  /** So after any serial run a write by any handle is refused, with nothing changed, if and only if
      the last value set is not 0, and GETINFO reports that value. */
  lemma LastSetDecides(s: Store, calls: seq<Call>, t: Store, h: Handle, data: seq<byte>)
    requires s.Valid() && CallsOk(calls) && t == Serial(s, calls) && OpOk(Write(data))
    ensures var v := LastFlag(calls, s.readOnly);
            && (Serve(t, h, Write(data)) == (t, Einval) <==> v != 0)
            && (Serve(t, h, Write(data)).1.Wrote? <==> v == 0)
            && Serve(t, h, GetInfo) == (t, Flag(v))
  {
    FlagIsLastSet(s, calls);
  }

  /** In particular right after SET_RDONLY, whatever came before. */
  lemma SetThenWrite(s: Store, h: Handle, value: int, g: Handle, data: seq<byte>)
    requires s.Valid() && OpOk(Write(data))
    ensures var (t, ret) := Serve(s, h, SetRdonly(value));
            && ret == Done && t.buf == s.buf && t.pos == s.pos
            && (Serve(t, g, Write(data)).1 == Einval <==> value != 0)
            && Serve(t, g, GetInfo) == (t, Flag(value))
  {}

  /** Commands that the driver does not have are turned away without effect: those of other drivers
      and those of its own that it does not know, each with its own code. */
  lemma StrangeIoctlsChangeNothing(s: Store, h: Handle)
    requires s.Valid()
    ensures Serve(s, h, ForeignIoctl) == (s, Einval) && Serve(s, h, UnknownIoctl) == (s, NoIoctlCmd)
  {}

  /* ----- where seeks lead ----- */

  /** A seek goes to the offset itself (0, SEEK_SET), to that far from the old position (1, SEEK_CUR) or
      to that far from the end (2, SEEK_END), exactly when there is such a cell, and then reports it;
      every other seek is refused and moves nothing. Buffer, flag and other handles stay as they are. */
  lemma SeekMoves(s: Store, h: Handle, offset: int, whence: int)
    requires s.Valid() && IsS64(offset)
    ensures var (r, ret) := Serve(s, h, Seek(offset, whence));
            && (whence == 0 ==> ret == if 0 <= offset < |s.buf| then Moved(offset) else Einval)
            && (whence == 1 ==>
                  ret == if 0 <= s.Pos(h) + offset < |s.buf| then Moved(s.Pos(h) + offset) else Einval)
            && (whence == 2 ==> ret == if -|s.buf| <= offset < 0 then Moved(|s.buf| + offset) else Einval)
            && (whence < 0 || whence > 2 ==> ret == Einval)
            && r.Pos(h) == (if ret.Moved? then ret.pos else s.Pos(h))
            && r.buf == s.buf && r.readOnly == s.readOnly && forall g | g != h :: r.Pos(g) == s.Pos(g)
  {}

  /** Seek(0, SEEK_CUR) reports the position without moving, except at the very end. */
  lemma TellKeepsPosition(s: Store, h: Handle)
    requires s.Valid()
    ensures var (r, ret) := Serve(s, h, Seek(0, SEEK_CUR));
            r.Pos(h) == s.Pos(h) && ret == if s.Pos(h) < |s.buf| then Moved(s.Pos(h)) else Einval
  {
    SeekMoves(s, h, 0, SEEK_CUR);
  }

  /** Seeking k back from the end and reading k bytes returns the last k bytes. */
  lemma SeekEndThenRead(s: Store, h: Handle, k: int)
    requires s.Valid() && 1 <= k <= |s.buf|
    ensures var (t, ret) := Serve(s, h, Seek(-k, SEEK_END));
            ret == Moved(|s.buf| - k) && Serve(t, h, Read(k)).1 == Data(s.buf[|s.buf| - k..])
  {
    var t := Serve(s, h, Seek(-k, SEEK_END)).0;
    SeekMoves(s, h, -k, SEEK_END);
    OneRead(t, h, k);
  }

  /** Two relative seeks add up when both are granted. */
  lemma RelativeSeeksAdd(s: Store, h: Handle, a: int, b: int)
    requires s.Valid() && IsS64(a) && IsS64(b) && IsS64(a + b)
    ensures var (t, first) := Serve(s, h, Seek(a, SEEK_CUR));
            first.Moved? ==> Serve(t, h, Seek(b, SEEK_CUR)).1 == Serve(s, h, Seek(a + b, SEEK_CUR)).1
  {
    SeekMoves(s, h, a, SEEK_CUR);
    SeekMoves(Serve(s, h, Seek(a, SEEK_CUR)).0, h, b, SEEK_CUR);
    SeekMoves(s, h, a + b, SEEK_CUR);
  }

  /* ----- chunking ----- */

  function Flat(chunks: seq<seq<byte>>): seq<byte> {
    if chunks == [] then [] else chunks[0] + Flat(chunks[1..])
  }

  function Sum(counts: seq<nat>): nat {
    if counts == [] then 0 else counts[0] + Sum(counts[1..])
  }

  function WriteAll(s: Store, h: Handle, chunks: seq<seq<byte>>): (r: Store)
    requires s.Valid() && forall i | 0 <= i < |chunks| :: OpOk(Write(chunks[i]))
    ensures r.Valid() && |r.buf| == |s.buf|
    decreases |chunks|
  {
    if chunks == [] then s else WriteAll(Serve(s, h, Write(chunks[0])).0, h, chunks[1..])
  }

  function ReadAll(s: Store, h: Handle, counts: seq<nat>): seq<byte>
    requires s.Valid() && forall i | 0 <= i < |counts| :: OpOk(Read(counts[i]))
    decreases |counts|
  {
    if counts == [] then []
    else
      var (s', ret) := Serve(s, h, Read(counts[0]));
      ret.bytes + ReadAll(s', h, counts[1..])
  }

  lemma SpliceInTwo(buf: seq<byte>, p: nat, a: seq<byte>, b: seq<byte>)
    requires p + |a| + |b| <= |buf|
    ensures Splice(Splice(buf, p, a), p + |a|, b) == Splice(buf, p, a + b)
  {}

  /** r is s after as much of data as fits was stored from handle h's position on. */
  ghost predicate Stored(s: Store, h: Handle, data: seq<byte>, r: Store)
    requires s.Valid()
  {
    var p := s.Pos(h);
    var n := Min(|data|, |s.buf| - p);
    && r.Valid() && r.buf == Splice(s.buf, p, data[..n]) && r.Pos(h) == p + n
    && r.readOnly == s.readOnly && forall g | g != h :: r.Pos(g) == s.Pos(g)
  }

  lemma TakeInTwo(a: seq<byte>, b: seq<byte>, room: nat)
    ensures var k := Min(|a|, room);
            (a + b)[..Min(|a + b|, room)] == a[..k] + b[..Min(|b|, room - k)]
  {
    if |a| >= room {
      assert (a + b)[..room] == a[..room] + [];
    } else {
      assert a[..|a|] == a;
    }
  }

  lemma SpliceAsMuchAsFits(buf: seq<byte>, p: nat, a: seq<byte>, b: seq<byte>)
    requires p <= |buf|
    ensures var room := |buf| - p;
            var k := Min(|a|, room);
            Splice(Splice(buf, p, a[..k]), p + k, b[..Min(|b|, room - k)])
            == Splice(buf, p, (a + b)[..Min(|a + b|, room)])
  {
    var room := |buf| - p;
    var k := Min(|a|, room);
    TakeInTwo(a, b, room);
    SpliceInTwo(buf, p, a[..k], b[..Min(|b|, room - k)]);
  }

  lemma StoredInTwo(s: Store, h: Handle, a: seq<byte>, b: seq<byte>, mid: Store, r: Store)
    requires s.Valid() && Stored(s, h, a, mid) && Stored(mid, h, b, r)
    ensures Stored(s, h, a + b, r)
  {
    SpliceAsMuchAsFits(s.buf, s.Pos(h), a, b);
  }

  /** However data is cut into writes, the outcome is one write of as much of it as fits. */
  lemma {:induction false} WriteSplit(s: Store, h: Handle, chunks: seq<seq<byte>>)
    requires s.Valid() && s.readOnly == 0 && forall i | 0 <= i < |chunks| :: OpOk(Write(chunks[i]))
    ensures Stored(s, h, Flat(chunks), WriteAll(s, h, chunks))
    decreases |chunks|
  {
    if chunks == [] {
      assert Splice(s.buf, s.Pos(h), []) == s.buf;
    } else {
      var s' := Serve(s, h, Write(chunks[0])).0;
      WriteSplit(s', h, chunks[1..]);
      StoredInTwo(s, h, chunks[0], Flat(chunks[1..]), s', WriteAll(s, h, chunks));
    }
  }

  function Cells(buf: seq<byte>, p: nat, n: nat): seq<byte>
    requires p + n <= |buf|
  {
    buf[p..p + n]
  }

  lemma CellsInTwo(buf: seq<byte>, p: nat, k: nat, m: nat)
    requires p + k + m <= |buf|
    ensures Cells(buf, p, k) + Cells(buf, p + k, m) == Cells(buf, p, k + m)
  {}

  /** What reads of the given sizes see, one after the other from cell p on. */
  function ReadCells(buf: seq<byte>, p: nat, counts: seq<nat>): seq<byte>
    requires p <= |buf|
    decreases |counts|
  {
    if counts == [] then []
    else
      var n := Min(counts[0], |buf| - p);
      Cells(buf, p, n) + ReadCells(buf, p + n, counts[1..])
  }

  lemma {:induction false} ReadCellsAreContiguous(buf: seq<byte>, p: nat, counts: seq<nat>)
    requires p <= |buf|
    ensures ReadCells(buf, p, counts) == Cells(buf, p, Min(Sum(counts), |buf| - p))
    decreases |counts|
  {
    if counts != [] {
      var n := Min(counts[0], |buf| - p);
      ReadCellsAreContiguous(buf, p + n, counts[1..]);
      CellsInTwo(buf, p, n, Min(Sum(counts[1..]), |buf| - p - n));
    }
  }

  lemma {:induction false} ReadAllIsReadCells(s: Store, h: Handle, counts: seq<nat>)
    requires s.Valid() && forall i | 0 <= i < |counts| :: OpOk(Read(counts[i]))
    ensures ReadAll(s, h, counts) == ReadCells(s.buf, s.Pos(h), counts)
    decreases |counts|
  {
    if counts != [] {
      var s' := Serve(s, h, Read(counts[0])).0;
      OneRead(s, h, counts[0]);
      ReadAllIsReadCells(s', h, counts[1..]);
    }
  }

  /** However a request is cut into reads, the outcome is the cells from the position on. */
  lemma ReadSplit(s: Store, h: Handle, counts: seq<nat>)
    requires s.Valid() && forall i | 0 <= i < |counts| :: OpOk(Read(counts[i]))
    ensures ReadAll(s, h, counts) == Cells(s.buf, s.Pos(h), Min(Sum(counts), |s.buf| - s.Pos(h)))
  {
    ReadAllIsReadCells(s, h, counts);
    ReadCellsAreContiguous(s.buf, s.Pos(h), counts);
  }

  lemma SeekBack(s: Store, h: Handle, p: nat)
    requires s.Valid() && p < |s.buf|
    ensures Serve(s, h, Seek(p, SEEK_SET)) == (s.(pos := s.pos[h := p]), Moved(p))
  {}

  /** Written in any split from p, sought back to p, and read in any split, data comes back (as much
      of it as the device holds past p and the reads ask for); no other byte is touched. */
  lemma ChunkingRoundTrip(s: Store, h: Handle, chunks: seq<seq<byte>>, counts: seq<nat>)
    requires s.Valid() && s.readOnly == 0 && s.Pos(h) < |s.buf|
    requires forall i | 0 <= i < |chunks| :: OpOk(Write(chunks[i]))
    requires forall i | 0 <= i < |counts| :: OpOk(Read(counts[i]))
    requires Sum(counts) == |Flat(chunks)|
    ensures var p, all := s.Pos(h), Flat(chunks);
            var w := WriteAll(s, h, chunks);
            var (b, ret) := Serve(w, h, Seek(p, SEEK_SET));
            && ret == Moved(p)
            && ReadAll(b, h, counts) == all[..Min(|all|, |s.buf| - p)]
            && forall i | 0 <= i < |s.buf| && !(p <= i < p + |all|) :: w.buf[i] == s.buf[i]
  {
    var p, all := s.Pos(h), Flat(chunks);
    var w := WriteAll(s, h, chunks);
    WriteSplit(s, h, chunks);
    SeekBack(w, h, p);
    var b := w.(pos := w.pos[h := p]);
    ReadSplit(b, h, counts);
    var n := Min(|all|, |s.buf| - p);
    assert Cells(b.buf, p, n) == all[..n];
  }
}

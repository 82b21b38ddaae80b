/** The interrupt-fed device under every interleaving of its timer handler with any number of
    readers and pollers. The handler is split at its full test, its store and its head move, because
    the reader moves the tail outside the spinlock; a reader is split at every lock operation, the
    wake-up test, the memcpy, the copy to user space and the tail move. */
module IrqMachine {
  import opened Bytes
  import opened Cbuf
  import opened Integers
  import opened Wrappers

  type Tid = nat

  type Buffer = r: Ring | r.Valid() witness Ring([0, 0], 0, 0)

  /** Where the timer handler is. It holds the spinlock except when resting. */
  datatype Handler = Resting | Storing | Publishing(c: byte)

  datatype Ret = Bytes(asked: nat, data: seq<byte>) | NotReady | Interrupted | Mask(readable: bool)

  /** Where a thread is. From Checking and Polling on it holds the mutex. */
  datatype Pc =
    | Out
    | EnterRead(count: nat, nonblock: bool)
    | EnterPoll
    | Checking(count: nat, nonblock: bool)
    | Polling
    | Saw(count: nat)
    | Copied(count: nat, tmp: seq<byte>)
    | Handed(count: nat, tmp: seq<byte>)
    | Leaving(ret: Ret)

  /** The device, its threads, and the history the theorems speak about: bytes accepted by the
      handler, bytes handed to user space, values returned in mutex order, bytes the tail has passed,
      timer expiries and dropped expiries; and whether a memcpy has left the ring or the temporary. */
  datatype Dev = Dev(
    ring: Buffer, handler: Handler, mux: Option<Tid>, pcs: map<Tid, Pc>,
    accepted: seq<byte>, delivered: seq<byte>, returned: seq<(Tid, Ret)>,
    retired: nat, ticks: nat, dropped: nat, overrun: bool, overflow: bool)

  datatype Action =
    | TickTest | TickStore(c: byte) | TickPublish
    | CallRead(t: Tid, count: nat, nonblock: bool) | CallPoll(t: Tid)
    | Signal(t: Tid)
    | Step(t: Tid)

  function Init(len: nat): Dev
    requires len >= 2
  {
    Dev(Ring(seq(len, _ => 0), 0, 0), Resting, None, map[], [], [], [], 0, 0, 0, false, false)
  }

  function At(d: Dev, t: Tid): Pc {
    if t in d.pcs then d.pcs[t] else Out
  }

  function Goto(d: Dev, t: Tid, pc: Pc): Dev {
    d.(pcs := d.pcs[t := pc])
  }

  predicate Holds(pc: Pc) {
    !pc.Out? && !pc.EnterRead? && !pc.EnterPoll?
  }

  predicate Empty(d: Dev) {
    IsEmpty(d.ring.head, d.ring.tail)
  }

  /* ----- steps ----- */

  /** Blocked are only: a thread waiting for the mutex, a blocking reader of an empty ring, and a
      reader about to copy while the handler holds the spinlock. */
  predicate CanStep(d: Dev, t: Tid) {
    match At(d, t)
    case Out => false
    case EnterRead(_, _) => d.mux == None
    case EnterPoll => d.mux == None
    case Checking(_, nonblock) => nonblock || !Empty(d)
    case Polling => true
    case Saw(_) => d.handler.Resting?
    case Copied(_, _) => true
    case Handed(_, _) => true
    case Leaving(_) => true
  }

  /** How much a read of count bytes copies. */
  function CopySize(d: Dev, count: nat): nat {
    Min(count, d.ring.Count())
  }

  predicate CopyFits(d: Dev, count: nat) {
    d.ring.Fits(CopySize(d, count)) && CopySize(d, count) <= TMP_LEN
  }

  /** A memcpy has read past the end of the ring, or written past the end of the temporary. What
      happens after that is not modelled. */
  predicate Faulted(d: Dev) {
    d.overrun || d.overflow
  }

  function StepThread(d: Dev, t: Tid): Dev
    requires CanStep(d, t)
  {
    match At(d, t)
    case EnterRead(count, nonblock) => Goto(d.(mux := Some(t)), t, Checking(count, nonblock))
    case EnterPoll => Goto(d.(mux := Some(t)), t, Polling)
    case Checking(count, nonblock) =>
      Goto(d, t, if Empty(d) then Leaving(NotReady) else Saw(count))
    case Polling => Goto(d, t, Leaving(Mask(!Empty(d))))
    case Saw(count) =>
      if CopyFits(d, count)
      then Goto(d, t, Copied(count, d.ring.Straight(CopySize(d, count))))
      else d.(overrun := !d.ring.Fits(CopySize(d, count)), overflow := CopySize(d, count) > TMP_LEN)
    case Copied(count, tmp) => Goto(d.(delivered := d.delivered + tmp), t, Handed(count, tmp))
    case Handed(count, tmp) =>
      Goto(d.(ring := d.ring.Drop(|tmp|), retired := d.retired + |tmp|), t, Leaving(Bytes(count, tmp)))
    case Leaving(ret) => Goto(d.(mux := None, returned := d.returned + [(t, ret)]), t, Out)
  }

  predicate Enabled(d: Dev, a: Action) {
    !Faulted(d) &&
    match a
    case TickTest => d.handler.Resting?
    case TickStore(_) => d.handler.Storing?
    case TickPublish => d.handler.Publishing?
    case CallRead(t, _, _) => At(d, t).Out?
    case CallPoll(t) => At(d, t).Out?
    case Signal(t) => At(d, t).Checking? && !At(d, t).nonblock && Empty(d)
    case Step(t) => CanStep(d, t)
  }

  function Apply(d: Dev, a: Action): Dev
    requires Enabled(d, a)
  {
    match a
    case TickTest =>
      if d.ring.Full() then d.(ticks := d.ticks + 1, dropped := d.dropped + 1)
      else d.(ticks := d.ticks + 1, handler := Storing)
    case TickStore(c) =>
      d.(ring := d.ring.Store(c), handler := Publishing(c), accepted := d.accepted + [c])
    case TickPublish => d.(ring := d.ring.Publish(), handler := Resting)
    case CallRead(t, count, nonblock) => Goto(d, t, EnterRead(count, nonblock))
    case CallPoll(t) => Goto(d, t, EnterPoll)
    case Signal(t) => Goto(d, t, Leaving(Interrupted))
    case Step(t) => StepThread(d, t)
  }

  predicate RunOk(d: Dev, acts: seq<Action>)
    decreases |acts|
  {
    acts == [] || (Enabled(d, acts[0]) && RunOk(Apply(d, acts[0]), acts[1..]))
  }

  function Run(d: Dev, acts: seq<Action>): Dev
    requires RunOk(d, acts)
    decreases |acts|
  {
    if acts == [] then d else Run(Apply(d, acts[0]), acts[1..])
  }

  /* ----- the invariant ----- */

  /** The mutex owner is the one thread past its lock call. */
  ghost predicate LockInv(d: Dev) {
    forall t: Tid :: Holds(At(d, t)) <==> d.mux == Some(t)
  }

  /** Once the full test has passed the ring stays non-full until the head moves. */
  ghost predicate HandlerInv(d: Dev) {
    && (!d.handler.Resting? ==> !d.ring.Full())
    && (d.handler.Publishing? ==> d.ring.buf[d.ring.head] == d.handler.c)
  }

  /** A slice in flight is the oldest part of the ring, and copied straight. */
  ghost predicate InFlight(d: Dev, count: nat, tmp: seq<byte>) {
    && |tmp| <= d.ring.Count()
    && tmp == d.ring.Contents()[..|tmp|]
    && |tmp| <= TMP_LEN && d.ring.Fits(|tmp|)
    && HonestCount(count, tmp)
  }

  /** Never more than asked for, and something whenever something was asked for. */
  predicate HonestCount(count: nat, data: seq<byte>) {
    |data| <= count && (count >= 1 ==> |data| >= 1)
  }

  predicate HonestRet(ret: Ret) {
    ret.Bytes? ==> HonestCount(ret.asked, ret.data)
  }

  ghost predicate PcInv(d: Dev, pc: Pc) {
    match pc
    case Saw(_) => !Empty(d)
    case Copied(count, tmp) => InFlight(d, count, tmp)
    case Handed(count, tmp) => InFlight(d, count, tmp)
    case Leaving(ret) => HonestRet(ret) && (ret.Mask? && ret.readable ==> !Empty(d))
    case _ => true
  }

  ghost predicate OwnerInv(d: Dev) {
    d.mux.Some? ==> PcInv(d, At(d, d.mux.value))
  }

  function OwnerPc(d: Dev): Pc {
    if d.mux.Some? then At(d, d.mux.value) else Out
  }

  /** Handed to user space, but the tail has not passed them yet. */
  function Pending(d: Dev): nat {
    if OwnerPc(d).Handed? then |OwnerPc(d).tmp| else 0
  }

  /** Stored by the handler, but the head has not passed it yet. */
  function Staged(d: Dev): seq<byte> {
    if d.handler.Publishing? then [d.handler.c] else []
  }

  /** Handed to user space by a call that has not returned yet. */
  function Unreturned(d: Dev): seq<byte> {
    match OwnerPc(d)
    case Handed(_, tmp) => tmp
    case Leaving(ret) => RetData(ret)
    case _ => []
  }

  function RetData(ret: Ret): seq<byte> {
    if ret.Bytes? then ret.data else []
  }

  /** The bytes of all returned reads, in mutex order. */
  function Joined(rs: seq<(Tid, Ret)>): seq<byte> {
    if rs == [] then [] else Joined(rs[..|rs| - 1]) + RetData(rs[|rs| - 1].1)
  }

  /** FIFO without loss, duplication or reordering. */
  ghost predicate Fifo(d: Dev) {
    && Pending(d) <= d.ring.Count()
    && d.accepted == d.delivered + d.ring.Contents()[Pending(d)..] + Staged(d)
    && d.delivered == Joined(d.returned) + Unreturned(d)
  }

  /** Every expiry is accounted for, and so is every accepted byte. */
  ghost predicate Conserved(d: Dev) {
    && d.ticks == |d.accepted| + d.dropped + (if d.handler.Storing? then 1 else 0)
    && |d.accepted| == d.retired + d.ring.Count() + |Staged(d)|
    && |d.delivered| == d.retired + Pending(d)
  }

  ghost predicate Honest(d: Dev) {
    forall i | 0 <= i < |d.returned| :: HonestRet(d.returned[i].1)
  }

  ghost predicate Inv(d: Dev) {
    && LockInv(d) && HandlerInv(d) && OwnerInv(d)
    && Fifo(d) && Conserved(d) && Honest(d)
  }

  /* ----- every action keeps the invariant ----- */

  lemma GotoKeepsLocks(d: Dev, d': Dev, t: Tid, pc: Pc)
    requires LockInv(d)
    requires d'.pcs == d.pcs[t := pc]
    requires d'.mux == (if Holds(pc) then Some(t) else if d.mux == Some(t) then None else d.mux)
    requires Holds(pc) ==> d.mux == None || d.mux == Some(t)
    ensures LockInv(d')
  {
    forall u: Tid
      ensures Holds(At(d', u)) <==> d'.mux == Some(u)
    {
      assert Holds(At(d, u)) <==> d.mux == Some(u);
    }
  }

  lemma HandlerKeepsLocks(d: Dev, d': Dev)
    requires LockInv(d) && d'.pcs == d.pcs && d'.mux == d.mux
    ensures LockInv(d') && OwnerPc(d') == OwnerPc(d)
    ensures d.mux.Some? ==> At(d', d.mux.value) == At(d, d.mux.value)
  {
    assert forall t: Tid :: At(d', t) == At(d, t);
  }

  lemma TestKeepsInv(d: Dev)
    requires Inv(d) && Enabled(d, TickTest)
    ensures Inv(Apply(d, TickTest))
  {
    HandlerKeepsLocks(d, Apply(d, TickTest));
  }

  lemma StoreKeepsInv(d: Dev, c: byte)
    requires Inv(d) && Enabled(d, TickStore(c))
    ensures Inv(Apply(d, TickStore(c)))
  {
    var d' := Apply(d, TickStore(c));
    HandlerKeepsLocks(d, d');
    StoreThenPublishAppends(d.ring, c);
    assert d'.ring.Count() == d.ring.Count();
    assert d'.ring.Full() <==> d.ring.Full();
  }

  lemma PublishKeepsFlight(d: Dev, d': Dev)
    requires Inv(d) && Enabled(d, TickPublish) && d' == Apply(d, TickPublish)
    requires d'.ring.Contents() == d.ring.Contents() + [d.handler.c]
    ensures OwnerInv(d')
  {
    HandlerKeepsLocks(d, d');
    PrefixOfLonger(d.ring.Contents(), d.handler.c);
    assert |d'.ring.Contents()| == |d.ring.Contents()| + 1;
  }

  lemma PublishKeepsFifo(d: Dev, d': Dev)
    requires Inv(d) && Enabled(d, TickPublish) && d' == Apply(d, TickPublish)
    requires d'.ring.Contents() == d.ring.Contents() + [d.handler.c]
    ensures Fifo(d') && Conserved(d')
  {
    HandlerKeepsLocks(d, d');
    assert |d'.ring.Contents()| == |d.ring.Contents()| + 1;
    LiveGrows(d.delivered, d.ring.Contents(), Pending(d), d.handler.c);
  }

  lemma LiveGrows(handed: seq<byte>, live: seq<byte>, n: nat, c: byte)
    requires n <= |live|
    ensures handed + live[n..] + [c] == handed + (live + [c])[n..] + []
  {
    assert (live + [c])[n..] == live[n..] + [c];
  }

  lemma PublishKeepsInv(d: Dev)
    requires Inv(d) && Enabled(d, TickPublish)
    ensures Inv(Apply(d, TickPublish))
  {
    var d' := Apply(d, TickPublish);
    HandlerKeepsLocks(d, d');
    PublishAppends(d.ring);
    PublishKeepsFlight(d, d');
    PublishKeepsFifo(d, d');
  }

  lemma PrefixOfLonger(s: seq<byte>, c: byte)
    ensures forall n | 0 <= n <= |s| :: (s + [c])[..n] == s[..n]
  {}

  lemma CallKeepsInv(d: Dev, a: Action)
    requires Inv(d) && Enabled(d, a) && (a.CallRead? || a.CallPoll? || a.Signal?)
    ensures Inv(Apply(d, a))
  {
    var d' := Apply(d, a);
    assert Holds(At(d, a.t)) <==> d.mux == Some(a.t);
    GotoKeepsLocks(d, d', a.t, At(d', a.t));
  }

  lemma EnterKeepsInv(d: Dev, t: Tid)
    requires Inv(d) && Enabled(d, Step(t))
    requires var pc := At(d, t); pc.EnterRead? || pc.EnterPoll? || pc.Checking? || pc.Polling?
    ensures Inv(StepThread(d, t))
  {
    var d' := StepThread(d, t);
    assert Holds(At(d, t)) <==> d.mux == Some(t);
    GotoKeepsLocks(d, d', t, At(d', t));
  }

  lemma CopyKeepsInv(d: Dev, t: Tid)
    requires Inv(d) && Enabled(d, Step(t)) && At(d, t).Saw?
    ensures Inv(StepThread(d, t))
  {
    var d', n := StepThread(d, t), CopySize(d, At(d, t).count);
    assert Holds(At(d, t)) <==> d.mux == Some(t);
    if CopyFits(d, At(d, t).count) {
      GotoKeepsLocks(d, d', t, At(d', t));
      StraightIsPrefix(d.ring, n);
      assert OwnerInv(d');
    } else {
      HandlerKeepsLocks(d, d');
    }
  }

  lemma HandKeepsFifo(d: Dev, d': Dev, tmp: seq<byte>)
    requires Fifo(d) && Conserved(d) && OwnerPc(d).Copied? && OwnerPc(d').Handed? && OwnerPc(d').tmp == tmp
    requires |tmp| <= d.ring.Count() && tmp == d.ring.Contents()[..|tmp|]
    requires d' == d.(delivered := d.delivered + tmp, pcs := d'.pcs)
    ensures Fifo(d') && Conserved(d')
  {
    var all, rest := d.ring.Contents(), d.ring.Contents()[|tmp|..];
    assert all[0..] == tmp + rest;
    assert d.delivered + (tmp + rest) + Staged(d) == d.delivered + tmp + rest + Staged(d);
    assert d.delivered == Joined(d.returned) + [];
  }

  lemma HandKeepsInv(d: Dev, t: Tid)
    requires Inv(d) && Enabled(d, Step(t)) && At(d, t).Copied?
    ensures Inv(StepThread(d, t))
  {
    var d', tmp := StepThread(d, t), At(d, t).tmp;
    assert Holds(At(d, t)) <==> d.mux == Some(t);
    GotoKeepsLocks(d, d', t, At(d', t));
    HandKeepsFifo(d, d', tmp);
  }

  lemma MoveKeepsInv(d: Dev, t: Tid)
    requires Inv(d) && Enabled(d, Step(t)) && At(d, t).Handed?
    ensures Inv(StepThread(d, t))
  {
    var d', n := StepThread(d, t), |At(d, t).tmp|;
    assert Holds(At(d, t)) <==> d.mux == Some(t);
    GotoKeepsLocks(d, d', t, At(d', t));
    DropRemovesPrefix(d.ring, n);
    assert |d'.ring.Contents()| == |d.ring.Contents()| - n;
    RingMoves(d.ring, 0);
    RingMoves(d'.ring, 0);
    assert d'.ring.Contents()[0..] == d.ring.Contents()[n..];
  }

  lemma UnlockKeepsFifo(d: Dev, d': Dev, t: Tid, ret: Ret)
    requires Fifo(d) && Conserved(d) && OwnerPc(d) == Leaving(ret) && d'.mux.None?
    requires d' == d.(mux := None, returned := d.returned + [(t, ret)], pcs := d'.pcs)
    ensures Fifo(d') && Conserved(d')
  {
    assert d'.returned[..|d.returned|] == d.returned;
    assert Joined(d'.returned) == Joined(d.returned) + RetData(ret);
    assert d'.delivered == Joined(d'.returned) + [];
  }

  lemma UnlockKeepsInv(d: Dev, t: Tid)
    requires Inv(d) && Enabled(d, Step(t)) && At(d, t).Leaving?
    ensures Inv(StepThread(d, t))
  {
    var d', ret := StepThread(d, t), At(d, t).ret;
    assert Holds(At(d, t)) <==> d.mux == Some(t);
    GotoKeepsLocks(d, d', t, At(d', t));
    UnlockKeepsFifo(d, d', t, ret);
  }

  lemma StepKeepsInv(d: Dev, t: Tid)
    requires Inv(d) && Enabled(d, Step(t))
    ensures Inv(StepThread(d, t))
  {
    match At(d, t)
    case Saw(_) => CopyKeepsInv(d, t);
    case Copied(_, _) => HandKeepsInv(d, t);
    case Handed(_, _) => MoveKeepsInv(d, t);
    case Leaving(_) => UnlockKeepsInv(d, t);
    case _ => EnterKeepsInv(d, t);
  }

  lemma ActionKeepsInv(d: Dev, a: Action)
    requires Inv(d) && Enabled(d, a)
    ensures Inv(Apply(d, a))
  {
    match a
    case TickTest => TestKeepsInv(d);
    case TickStore(c) => StoreKeepsInv(d, c);
    case TickPublish => PublishKeepsInv(d);
    case Step(t) => StepKeepsInv(d, t);
    case _ => CallKeepsInv(d, a);
  }

  lemma {:induction false} RunKeepsInv(d: Dev, acts: seq<Action>)
    requires Inv(d) && RunOk(d, acts)
    ensures Inv(Run(d, acts))
    decreases |acts|
  {
    if acts != [] {
      ActionKeepsInv(d, acts[0]);
      RunKeepsInv(Apply(d, acts[0]), acts[1..]);
    }
  }
}

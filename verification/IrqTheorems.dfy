/** What the interleavings of IrqMachine guarantee, over whole runs from a freshly registered device. */
module IrqTheorems {
  import opened Bytes
  import opened Cbuf
  import opened Integers
  import opened Wrappers
  import opened IrqMachine

  lemma InitHolds(len: nat)
    requires len >= 2
    ensures Inv(Init(len))
  {
    assert forall t: Tid :: At(Init(len), t) == Out;
    assert Init(len).ring.Contents()[0..] == [];
  }

  lemma {:induction false} RunConcat(d: Dev, a: seq<Action>, b: seq<Action>)
    requires RunOk(d, a) && RunOk(Run(d, a), b)
    ensures RunOk(d, a + b) && Run(d, a + b) == Run(Run(d, a), b)
    decreases |a|
  {
    if a == [] {
      assert a + b == b;
    } else {
      RunConcat(Apply(d, a[0]), a[1..], b);
      assert (a + b)[0] == a[0] && (a + b)[1..] == a[1..] + b;
    }
  }

  lemma RunOfOne(d: Dev, a: Action)
    requires Enabled(d, a)
    ensures RunOk(d, [a]) && Run(d, [a]) == Apply(d, a)
  {
    assert [a][1..] == [];
  }

  lemma {:induction false} LengthIsFixed(d: Dev, acts: seq<Action>)
    requires RunOk(d, acts)
    ensures |Run(d, acts).ring.buf| == |d.ring.buf|
    decreases |acts|
  {
    if acts != [] {
      LengthIsFixed(Apply(d, acts[0]), acts[1..]);
    }
  }

  /* ----- FIFO and honest results ----- */

  lemma QuietIsComplete(d: Dev)
    requires Fifo(d) && d.mux.None? && d.handler.Resting?
    ensures d.accepted == Joined(d.returned) + d.ring.Contents()
  {
    assert d.ring.Contents()[0..] == d.ring.Contents();
    assert d.delivered == Joined(d.returned) + [];
  }

  lemma FifoPrefixes(d: Dev)
    requires Fifo(d)
    ensures Joined(d.returned) <= d.delivered <= d.accepted
  {
    var rest := d.ring.Contents()[Pending(d)..];
    assert d.accepted == d.delivered + (rest + Staged(d));
  }

  /** At every point of every run, what returned reads got is a prefix of what the handler accepted;
      when nobody is inside, the rest is exactly the ring. Reads return at most what they asked for,
      and never nothing when they asked for something. */
  lemma DeliveryIsFifo(len: nat, acts: seq<Action>)
    requires len >= 2 && RunOk(Init(len), acts)
    ensures var d := Run(Init(len), acts);
            && Joined(d.returned) <= d.delivered <= d.accepted
            && (d.mux.None? && d.handler.Resting? ==> d.accepted == Joined(d.returned) + d.ring.Contents())
            && (forall i | 0 <= i < |d.returned| && d.returned[i].1.Bytes? ::
                  HonestCount(d.returned[i].1.asked, d.returned[i].1.data))
  {
    InitHolds(len);
    RunKeepsInv(Init(len), acts);
    var d := Run(Init(len), acts);
    FifoPrefixes(d);
    if d.mux.None? && d.handler.Resting? {
      QuietIsComplete(d);
    }
    forall i | 0 <= i < |d.returned| && d.returned[i].1.Bytes?
      ensures HonestCount(d.returned[i].1.asked, d.returned[i].1.data)
    {
      assert HonestRet(d.returned[i].1);
    }
  }

  lemma SawMeansData(d: Dev, t: Tid)
    requires Inv(d) && At(d, t).Saw?
    ensures d.ring.Contents() != []
  {
    assert Holds(At(d, t)) <==> d.mux == Some(t);
    assert PcInv(d, At(d, t));
  }

  /** A reader that saw data still finds data, however many steps of others come in between. */
  lemma SeenDataStays(len: nat, acts: seq<Action>, d: Dev, t: Tid)
    requires len >= 2 && RunOk(Init(len), acts) && d == Run(Init(len), acts)
    requires At(d, t).Saw?
    ensures d.ring.Contents() != []
  {
    InitHolds(len);
    RunKeepsInv(Init(len), acts);
    SawMeansData(d, t);
  }

  /* ----- the slice between memcpy and tail move ----- */

  predicate InTransit(pc: Pc) {
    pc.Copied? || pc.Handed?
  }

  predicate StaysInTransit(d: Dev, acts: seq<Action>, t: Tid)
    requires RunOk(d, acts)
    decreases |acts|
  {
    InTransit(At(d, t)) && (acts != [] ==> StaysInTransit(Apply(d, acts[0]), acts[1..], t))
  }

  /** A reader in transit owns the mutex, and its copy is the straight slice at the tail. */
  lemma TransitIsStraight(d: Dev, t: Tid)
    requires Inv(d) && InTransit(At(d, t))
    ensures d.mux == Some(t) && |At(d, t).tmp| <= d.ring.Count()
    ensures d.ring.Fits(|At(d, t).tmp|) && d.ring.Straight(|At(d, t).tmp|) == At(d, t).tmp
  {
    assert Holds(At(d, t)) <==> d.mux == Some(t);
    assert PcInv(d, At(d, t));
    StraightIsPrefix(d.ring, |At(d, t).tmp|);
  }

  lemma TransitStep(d: Dev, a: Action, t: Tid)
    requires Inv(d) && Enabled(d, a)
    requires InTransit(At(d, t)) && InTransit(At(Apply(d, a), t))
    ensures At(Apply(d, a), t).tmp == At(d, t).tmp && Apply(d, a).ring.tail == d.ring.tail
  {
    TransitIsStraight(d, t);
  }

  /** While a reader sits between its memcpy and its tail move, no sequence of actions of the handler
      and of other threads moves the tail or changes any copied slot. */
  lemma {:induction false} CopiedSlotsAreFrozen(d: Dev, acts: seq<Action>, t: Tid)
    requires Inv(d) && RunOk(d, acts) && StaysInTransit(d, acts, t)
    ensures var d', n := Run(d, acts), |At(d, t).tmp|;
            && d'.ring.tail == d.ring.tail
            && d.ring.Fits(n) && d'.ring.Fits(n)
            && d'.ring.Straight(n) == d.ring.Straight(n) == At(d, t).tmp
    decreases |acts|
  {
    TransitIsStraight(d, t);
    if acts != [] {
      TransitStep(d, acts[0], t);
      ActionKeepsInv(d, acts[0]);
      CopiedSlotsAreFrozen(Apply(d, acts[0]), acts[1..], t);
    }
  }

  /* ----- drops ----- */

  /** Expiries never run ahead of the tail by more than the capacity. */
  predicate WithinBudget(d: Dev) {
    d.ticks <= d.retired + |d.ring.buf| - 1
  }

  predicate AlwaysWithinBudget(d: Dev, acts: seq<Action>)
    requires RunOk(d, acts)
    decreases |acts|
  {
    WithinBudget(d) && (acts != [] ==> AlwaysWithinBudget(Apply(d, acts[0]), acts[1..]))
  }

  /** One action drops exactly when it is an expiry that finds len - 1 bytes buffered. */
  lemma DropsExactlyWhenFull(d: Dev, a: Action)
    requires Inv(d) && Enabled(d, a)
    ensures Apply(d, a).dropped == d.dropped + (if a.TickTest? && d.ring.Count() == |d.ring.buf| - 1 then 1 else 0)
  {
    RingMoves(d.ring, 0);
  }

  lemma BudgetMeansNoDrop(d: Dev)
    requires Inv(d)
    ensures d.dropped == 0 ==> WithinBudget(d)
  {
    RingMoves(d.ring, 0);
  }

  lemma {:induction false} DropsNeverForgotten(d: Dev, acts: seq<Action>)
    requires RunOk(d, acts)
    ensures Run(d, acts).dropped >= d.dropped
    decreases |acts|
  {
    if acts != [] {
      DropsNeverForgotten(Apply(d, acts[0]), acts[1..]);
    }
  }

  lemma {:induction false} NoDropFrom(d: Dev, acts: seq<Action>)
    requires Inv(d) && d.dropped == 0 && RunOk(d, acts)
    ensures Run(d, acts).dropped == 0 <==> AlwaysWithinBudget(d, acts)
    decreases |acts|
  {
    BudgetMeansNoDrop(d);
    if acts != [] {
      var d' := Apply(d, acts[0]);
      ActionKeepsInv(d, acts[0]);
      DropsExactlyWhenFull(d, acts[0]);
      if d'.dropped == 0 {
        NoDropFrom(d', acts[1..]);
      } else {
        DropsNeverForgotten(d', acts[1..]);
        assert d'.ticks == d.retired + |d.ring.buf|;
        assert !WithinBudget(d');
      }
    }
  }

  /** Conservation in every reachable state, and the exact bound on drop-free runs: nothing is dropped
      if and only if expiries never exceed the bytes the tail has passed by more than len - 1. */
  lemma DropBound(len: nat, acts: seq<Action>)
    requires len >= 2 && RunOk(Init(len), acts)
    ensures var d := Run(Init(len), acts);
            && d.ticks == |d.accepted| + d.dropped + (if d.handler.Storing? then 1 else 0)
            && |d.accepted| == d.retired + d.ring.Count() + |Staged(d)|
            && |d.delivered| == d.retired + Pending(d)
            && (d.dropped == 0 <==> AlwaysWithinBudget(Init(len), acts))
  {
    InitHolds(len);
    RunKeepsInv(Init(len), acts);
    NoDropFrom(Init(len), acts);
  }

  /* ----- progress ----- */

  /** The rest of a timer expiry, storing c if a byte is still to be stored. */
  function FinishExpiry(h: Handler, c: byte): seq<Action> {
    match h
    case Resting => []
    case Storing => [TickStore(c), TickPublish]
    case Publishing(_) => [TickPublish]
  }

  predicate WaitsForData(d: Dev) {
    OwnerPc(d).Checking? && !OwnerPc(d).nonblock && Empty(d)
  }

  predicate OnlyTimer(acts: seq<Action>) {
    forall i | 0 <= i < |acts| :: acts[i].TickTest? || acts[i].TickStore? || acts[i].TickPublish?
  }

  /** What the timer has to do before some thread can move: nothing, or at most one expiry. */
  function Unblocking(d: Dev, c: byte): seq<Action> {
    if WaitsForData(d) && d.handler.Resting? then [TickTest, TickStore(c), TickPublish]
    else if WaitsForData(d) || OwnerPc(d).Saw? then FinishExpiry(d.handler, c)
    else []
  }

  lemma FinishedExpiry(d: Dev, c: byte)
    requires Inv(d) && !Faulted(d)
    ensures RunOk(d, FinishExpiry(d.handler, c))
    ensures var d' := Run(d, FinishExpiry(d.handler, c));
            && d'.handler.Resting? && !Faulted(d') && d'.mux == d.mux && d'.pcs == d.pcs
            && (!Empty(d) || !d.handler.Resting? ==> !Empty(d'))
  {
    RingMoves(d.ring, 0);
    match d.handler
    case Resting =>
    case Storing =>
      var d1 := Apply(d, TickStore(c));
      ActionKeepsInv(d, TickStore(c));
      FinishedExpiry1(d1);
      assert FinishExpiry(d.handler, c)[1..] == [TickPublish];
    case Publishing(_) =>
      FinishedExpiry1(d);
      assert FinishExpiry(d.handler, c) == [TickPublish];
  }

  lemma FinishedExpiry1(d: Dev)
    requires Inv(d) && !Faulted(d) && d.handler.Publishing?
    ensures RunOk(d, [TickPublish]) && Run(d, [TickPublish]) == Apply(d, TickPublish)
    ensures !Empty(Apply(d, TickPublish))
  {
    RingMoves(d.ring, 0);
    assert [TickPublish][1..] == [];
  }

  lemma WholeExpiryBringsData(d: Dev, c: byte)
    requires Inv(d) && !Faulted(d) && Empty(d) && d.handler.Resting?
    ensures var acts := [TickTest, TickStore(c), TickPublish];
            && RunOk(d, acts)
            && var d' := Run(d, acts);
               d'.handler.Resting? && !Faulted(d') && d'.mux == d.mux && d'.pcs == d.pcs && !Empty(d')
  {
    RingMoves(d.ring, 0);
    var d1 := Apply(d, TickTest);
    ActionKeepsInv(d, TickTest);
    FinishedExpiry(d1, c);
    RunOfOne(d, TickTest);
    RunConcat(d, [TickTest], FinishExpiry(d1.handler, c));
    assert [TickTest] + FinishExpiry(d1.handler, c) == [TickTest, TickStore(c), TickPublish];
  }

  lemma Unblocked(d: Dev, c: byte, acts: seq<Action>)
    requires Inv(d) && !Faulted(d) && acts == Unblocking(d, c)
    ensures |acts| <= 3 && RunOk(d, acts) && OnlyTimer(acts)
    ensures var d' := Run(d, acts);
            && !Faulted(d') && d'.mux == d.mux && d'.pcs == d.pcs
            && (WaitsForData(d) ==> !Empty(d'))
            && (OwnerPc(d).Saw? ==> d'.handler.Resting?)
            && (!WaitsForData(d) && !OwnerPc(d).Saw? ==> d' == d)
  {
    if WaitsForData(d) && d.handler.Resting? {
      WholeExpiryBringsData(d, c);
    } else if WaitsForData(d) || OwnerPc(d).Saw? {
      FinishedExpiry(d, c);
    } else {
      assert acts == [];
    }
  }

  /** No reachable state is stuck: if a call is in progress then some thread can step, or the mutex
      owner is held up by the timer (the ring is empty, or the spinlock taken at its copy), and then
      the timer alone, within one expiry, makes the owner able to step. */
  lemma AlwaysRecoverable(d: Dev, t: Tid, c: byte) returns (u: Tid)
    requires Inv(d) && !Faulted(d) && !At(d, t).Out?
    ensures |Unblocking(d, c)| <= 3 && RunOk(d, Unblocking(d, c)) && OnlyTimer(Unblocking(d, c))
    ensures !Faulted(Run(d, Unblocking(d, c)))
    ensures CanStep(Run(d, Unblocking(d, c)), u)
    ensures Unblocking(d, c) != [] ==> d.mux == Some(u) && (WaitsForData(d) || !d.handler.Resting?)
    ensures Unblocking(d, c) == [] ==> CanStep(d, u)
  {
    Unblocked(d, c, Unblocking(d, c));
    if d.mux.None? {
      assert Holds(At(d, t)) <==> d.mux == Some(t);
      u := t;
    } else {
      u := d.mux.value;
      assert Holds(At(d, u)) <==> d.mux == Some(u);
    }
  }

  /** Steps the owner still has to take before its unlock. */
  function Remaining(pc: Pc): nat {
    match pc
    case Checking(_, _) => 6
    case Saw(_) => 5
    case Copied(_, _) => 4
    case Handed(_, _) => 3
    case Polling => 2
    case Leaving(_) => 1
    case _ => 0
  }

  /** Only the timer and thread t act. */
  predicate OwnOrTimer(acts: seq<Action>, t: Tid) {
    forall i | 0 <= i < |acts| ::
      var a := acts[i]; a == Step(t) || a.TickTest? || a.TickStore? || a.TickPublish?
  }

  lemma OwnerStepRanks(d: Dev, t: Tid)
    requires Inv(d) && d.mux == Some(t) && Enabled(d, Step(t))
    ensures var d' := Apply(d, Step(t));
            && Inv(d')
            && (!Faulted(d') && d'.mux.Some? ==> d'.mux == Some(t) && Remaining(At(d', t)) < Remaining(At(d, t)))
  {
    assert Holds(At(d, t)) <==> d.mux == Some(t);
    ActionKeepsInv(d, Step(t));
  }

  lemma OwnerStep(d: Dev, t: Tid, c: byte) returns (acts: seq<Action>)
    requires Inv(d) && !Faulted(d) && d.mux == Some(t)
    ensures RunOk(d, acts) && OwnOrTimer(acts, t)
    ensures var d' := Run(d, acts);
            && Inv(d')
            && (!Faulted(d') && d'.mux.Some? ==> d'.mux == Some(t) && Remaining(At(d', t)) < Remaining(At(d, t)))
  {
    assert Holds(At(d, t)) <==> d.mux == Some(t);
    var pre := Unblocking(d, c);
    var u := AlwaysRecoverable(d, t, c);
    var d1 := Run(d, pre);
    Unblocked(d, c, pre);
    RunKeepsInv(d, pre);
    assert Holds(At(d1, u)) <==> d1.mux == Some(u);
    RunOfOne(d1, Step(t));
    OwnerStepRanks(d1, t);
    RunConcat(d, pre, [Step(t)]);
    acts := pre + [Step(t)];
  }

  /** Whoever holds the mutex can always get to its unlock (or, with an ill-fitting request, to the
      out-of-bounds copy) with no help but the timer's: every exit path releases it. */
  lemma {:induction false} OwnerAlwaysReleases(d: Dev, t: Tid, c: byte) returns (acts: seq<Action>)
    requires Inv(d) && !Faulted(d) && d.mux == Some(t)
    ensures RunOk(d, acts) && OwnOrTimer(acts, t)
    ensures Run(d, acts).mux.None? || Faulted(Run(d, acts))
    decreases Remaining(At(d, t))
  {
    acts := OwnerStep(d, t, c);
    var d' := Run(d, acts);
    if d'.mux.Some? && !Faulted(d') {
      var rest := OwnerAlwaysReleases(d', t, c);
      RunConcat(d, acts, rest);
      acts := acts + rest;
    }
  }

  /* ----- the machine against the whole methods ----- */

  lemma RunOfTwo(d: Dev, a: Action, b: Action)
    requires Enabled(d, a) && Enabled(Apply(d, a), b)
    ensures RunOk(d, [a, b]) && Run(d, [a, b]) == Apply(Apply(d, a), b)
  {
    RunOfOne(d, a);
    RunOfOne(Apply(d, a), b);
    RunConcat(d, [a], [b]);
    assert [a] + [b] == [a, b];
  }

  /** An expiry that nothing interrupts does to the ring what RingDevice.TimerHandler does. */
  lemma UninterruptedExpiry(d: Dev, c: byte)
    requires Inv(d) && !Faulted(d) && d.handler.Resting?
    ensures var acts := if d.ring.Full() then [TickTest] else [TickTest, TickStore(c), TickPublish];
            RunOk(d, acts) && Run(d, acts).ring == if d.ring.Full() then d.ring else d.ring.Store(c).Publish()
  {
    RunOfOne(d, TickTest);
    if !d.ring.Full() {
      var d1 := Apply(d, TickTest);
      RunOfTwo(d1, TickStore(c), TickPublish);
      RunConcat(d, [TickTest], [TickStore(c), TickPublish]);
      assert [TickTest] + [TickStore(c), TickPublish] == [TickTest, TickStore(c), TickPublish];
    }
  }

  /** A read that nothing interrupts, from the test that finds data to the unlock, does what
      RingDevice.Read does: it returns the oldest bytes and removes exactly them. */
  lemma UninterruptedRead(d: Dev, t: Tid) returns (acts: seq<Action>)
    requires Inv(d) && !Faulted(d) && d.handler.Resting?
    requires At(d, t).Checking? && !Empty(d) && CopyFits(d, At(d, t).count)
    ensures RunOk(d, acts) && |acts| == 5 && forall i | 0 <= i < |acts| :: acts[i] == Step(t)
    ensures var d', n := Run(d, acts), Min(At(d, t).count, |d.ring.Contents()|);
            && d'.returned == d.returned + [(t, Bytes(At(d, t).count, d.ring.Contents()[..n]))]
            && d'.ring.Contents() == d.ring.Contents()[n..] && d'.mux.None?
  {
    var n := Min(At(d, t).count, |d.ring.Contents()|);
    StraightIsPrefix(d.ring, n);
    DropRemovesPrefix(d.ring, n);
    RunOfTwo(d, Step(t), Step(t));
    var d2 := Apply(Apply(d, Step(t)), Step(t));
    RunOfTwo(d2, Step(t), Step(t));
    var d4 := Apply(Apply(d2, Step(t)), Step(t));
    RunOfOne(d4, Step(t));
    RunConcat(d2, [Step(t), Step(t)], [Step(t)]);
    acts := [Step(t), Step(t)] + ([Step(t), Step(t)] + [Step(t)]);
    RunConcat(d, [Step(t), Step(t)], [Step(t), Step(t)] + [Step(t)]);
  }

  /** A reader of an empty ring comes back empty-handed, by O_NONBLOCK or by a signal: the ring and
      what was delivered are untouched and the mutex is free. */
  lemma EmptyHandedRead(d: Dev, t: Tid)
    requires Inv(d) && !Faulted(d) && At(d, t).Checking? && Empty(d)
    ensures var nonblock := At(d, t).nonblock;
            var way, ret := if nonblock then Step(t) else Signal(t), if nonblock then NotReady else Interrupted;
            && RunOk(d, [way, Step(t)])
            && var d' := Run(d, [way, Step(t)]);
               d'.ring == d.ring && d'.delivered == d.delivered && d'.mux.None?
               && d'.returned == d.returned + [(t, ret)]
  {
    RunOfTwo(d, if At(d, t).nonblock then Step(t) else Signal(t), Step(t));
  }

  /** A poll reports exactly whether bytes are buffered; and when it does report some, they are still
      there when it returns, whatever happens in between. */
  lemma PollIsTruthful(d: Dev, t: Tid)
    requires Inv(d) && !Faulted(d)
    ensures At(d, t).Polling? ==> At(StepThread(d, t), t) == Leaving(Mask(d.ring.Contents() != []))
    ensures At(d, t) == Leaving(Mask(true)) ==> d.ring.Contents() != []
  {
    assert Holds(At(d, t)) <==> d.mux == Some(t);
  }
}

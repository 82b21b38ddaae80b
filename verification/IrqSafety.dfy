/** Exactly which request sizes keep the reader's single straight memcpy inside the ring, and inside the
    temporary on its stack. */
module IrqSafety {
  import opened Bytes
  import opened Cbuf
  import opened Wrappers
  import opened IrqMachine
  import opened IrqTheorems

  /** Every read request of the run asks for at most c bytes. */
  predicate Bounded(acts: seq<Action>, c: nat) {
    forall i | 0 <= i < |acts| :: acts[i].CallRead? ==> acts[i].count <= c
  }

  predicate RequestAtMost(pc: Pc, c: nat) {
    pc.EnterRead? || pc.Checking? || pc.Saw? ==> pc.count <= c
  }

  ghost predicate AllAtMost(d: Dev, c: nat) {
    forall t: Tid :: RequestAtMost(At(d, t), c)
  }

  lemma AtMostStays(d: Dev, a: Action, c: nat)
    requires AllAtMost(d, c) && Enabled(d, a) && Bounded([a], c)
    ensures AllAtMost(Apply(d, a), c)
  {
    var d' := Apply(d, a);
    assert [a][0] == a;
    forall t: Tid
      ensures RequestAtMost(At(d', t), c)
    {
      assert RequestAtMost(At(d, t), c);
    }
  }

  predicate RingSafe(len: nat, c: nat) {
    c <= 1 || len == 2
  }

  predicate TemporarySafe(len: nat, c: nat) {
    c <= TMP_LEN || len <= TMP_LEN + 1
  }

  /** One step: what fits the sizes does not fault. */
  lemma SmallCopyFits(d: Dev, a: Action, c: nat)
    requires Inv(d) && Enabled(d, a) && AllAtMost(d, c)
    ensures RingSafe(|d.ring.buf|, c) ==> !Apply(d, a).overrun
    ensures TemporarySafe(|d.ring.buf|, c) ==> !Apply(d, a).overflow
  {
    if a.Step? && At(d, a.t).Saw? {
      assert Holds(At(d, a.t)) <==> d.mux == Some(a.t);
      assert RequestAtMost(At(d, a.t), c);
      WhenStraightFits(d.ring);
    }
  }

  lemma StepKeepsLength(d: Dev, a: Action)
    requires Enabled(d, a)
    ensures |Apply(d, a).ring.buf| == |d.ring.buf|
  {}

  /** After a fault nothing happens any more. */
  lemma FaultEnds(d: Dev, acts: seq<Action>)
    requires Faulted(d) && RunOk(d, acts)
    ensures acts == []
  {}

  lemma StepStaysSmall(d: Dev, acts: seq<Action>, c: nat)
    requires Inv(d) && AllAtMost(d, c) && acts != [] && RunOk(d, acts) && Bounded(acts, c)
    ensures var d' := Apply(d, acts[0]);
            && Inv(d') && AllAtMost(d', c) && |d'.ring.buf| == |d.ring.buf|
            && RunOk(d', acts[1..]) && Bounded(acts[1..], c)
            && (RingSafe(|d.ring.buf|, c) ==> !d'.overrun) && (TemporarySafe(|d.ring.buf|, c) ==> !d'.overflow)
  {
    assert Bounded([acts[0]], c);
    SmallCopyFits(d, acts[0], c);
    AtMostStays(d, acts[0], c);
    ActionKeepsInv(d, acts[0]);
    StepKeepsLength(d, acts[0]);
    assert forall i | 0 <= i < |acts[1..]| :: acts[1..][i] == acts[i + 1];
  }

  lemma {:induction false} SmallRequestsNeverFault(d: Dev, acts: seq<Action>, c: nat)
    requires Inv(d) && !Faulted(d) && AllAtMost(d, c) && RunOk(d, acts) && Bounded(acts, c)
    ensures RingSafe(|d.ring.buf|, c) ==> !Run(d, acts).overrun
    ensures TemporarySafe(|d.ring.buf|, c) ==> !Run(d, acts).overflow
    ensures AllAtMost(Run(d, acts), c)
    decreases |acts|
  {
    if acts != [] {
      var d' := Apply(d, acts[0]);
      StepStaysSmall(d, acts, c);
      if Faulted(d') {
        FaultEnds(d', acts[1..]);
      } else {
        SmallRequestsNeverFault(d', acts[1..], c);
      }
    }
  }

  /** So with requests of at most one byte, or a two-slot ring, whoever holds the mutex at any point of
      any run gets to its unlock with no help but the timer's. */
  lemma SmallReadersRelease(len: nat, before: seq<Action>, c: nat, t: Tid, b: byte) returns (acts: seq<Action>)
    requires len >= 2 && RunOk(Init(len), before) && Bounded(before, c) && (c <= 1 || len == 2)
    requires Run(Init(len), before).mux == Some(t)
    ensures var d := Run(Init(len), before);
            RunOk(d, acts) && OwnOrTimer(acts, t) && Run(d, acts).mux.None?
  {
    var d := Run(Init(len), before);
    InitHolds(len);
    LengthIsFixed(Init(len), before);
    RunKeepsInv(Init(len), before);
    SmallRequestsNeverFault(Init(len), before, c);
    acts := OwnerAlwaysReleases(d, t, b);
    assert Bounded(acts, c);
    SmallRequestsNeverFault(d, acts, c);
  }

  /* ----- larger requests do fault: runs that lead there ----- */

  /** d is what acts lead to from a fresh device; nobody is inside, head and tail are as given. */
  ghost predicate QuietAt(len: nat, acts: seq<Action>, d: Dev, head: nat, tail: nat) {
    && Trace(len, acts, d, Out)
    && d.mux.None? && d.handler.Resting?
    && d.ring.head == head && d.ring.tail == tail
  }

  ghost predicate Trace(len: nat, acts: seq<Action>, d: Dev, pc: Pc) {
    && len >= 2 && RunOk(Init(len), acts) && d == Run(Init(len), acts)
    && !Faulted(d) && |d.ring.buf| == len && At(d, 0) == pc
  }

  lemma Extend(len: nat, acts: seq<Action>, d: Dev, a: Action) returns (acts': seq<Action>, d': Dev)
    requires Trace(len, acts, d, At(d, 0)) && Enabled(d, a)
    ensures acts' == acts + [a] && d' == Apply(d, a)
    ensures RunOk(Init(len), acts') && d' == Run(Init(len), acts')
    ensures !Faulted(d') ==> Trace(len, acts', d', At(d', 0))
    ensures forall c | Bounded(acts, c) && Bounded([a], c) :: Bounded(acts', c)
  {
    acts', d' := acts + [a], Apply(d, a);
    RunOfOne(d, a);
    RunConcat(Init(len), acts, [a]);
    LengthIsFixed(Init(len), acts');
    forall c | Bounded(acts, c) && Bounded([a], c)
      ensures Bounded(acts', c)
    {
      assert [a][0] == a;
    }
  }

  lemma TickOnce(len: nat, acts: seq<Action>, d: Dev, c: nat) returns (acts': seq<Action>, d': Dev)
    requires QuietAt(len, acts, d, d.ring.head, d.ring.tail) && Bounded(acts, c) && !d.ring.Full()
    ensures QuietAt(len, acts', d', PointerMove(d.ring.head, 1, len), d.ring.tail) && Bounded(acts', c)
  {
    acts', d' := Extend(len, acts, d, TickTest);
    acts', d' := Extend(len, acts', d', TickStore(0));
    acts', d' := Extend(len, acts', d', TickPublish);
  }

  /** A blocking read of count bytes, up to the point where it is about to copy. */
  lemma ReadUpToCopy(len: nat, acts: seq<Action>, d: Dev, count: nat, c: nat) returns (acts': seq<Action>, d': Dev)
    requires QuietAt(len, acts, d, d.ring.head, d.ring.tail) && Bounded(acts, c) && !Empty(d)
    requires count <= c
    ensures Trace(len, acts', d', Saw(count)) && Bounded(acts', c)
    ensures d'.ring == d.ring && d'.handler.Resting?
  {
    acts', d' := Extend(len, acts, d, CallRead(0, count, false));
    acts', d' := Extend(len, acts', d', Step(0));
    acts', d' := Extend(len, acts', d', Step(0));
  }

  lemma ReadOnce(len: nat, acts: seq<Action>, d: Dev, c: nat) returns (acts': seq<Action>, d': Dev)
    requires QuietAt(len, acts, d, d.ring.head, d.ring.tail) && Bounded(acts, c) && c >= 1 && !Empty(d)
    ensures QuietAt(len, acts', d', d.ring.head, PointerMove(d.ring.tail, 1, len)) && Bounded(acts', c)
  {
    acts', d' := ReadUpToCopy(len, acts, d, 1, c);
    WhenStraightFits(d'.ring);
    acts', d' := Extend(len, acts', d', Step(0));
    acts', d' := Extend(len, acts', d', Step(0));
    acts', d' := Extend(len, acts', d', Step(0));
    acts', d' := Extend(len, acts', d', Step(0));
  }

  lemma {:induction false} WalkTo(len: nat, k: nat, c: nat) returns (acts: seq<Action>, d: Dev)
    requires len >= 2 && k < len && c >= 1
    ensures QuietAt(len, acts, d, k, k) && Bounded(acts, c)
    decreases k
  {
    if k == 0 {
      acts, d := [], Init(len);
    } else {
      acts, d := WalkTo(len, k - 1, c);
      RingMoves(d.ring, 0);
      WrapAround(k, len);
      acts, d := TickOnce(len, acts, d, c);
      acts, d := ReadOnce(len, acts, d, c);
    }
  }

  /** The ring filled up to its last slot but one, and then read across its end. */
  lemma WrappedReadOverruns(len: nat, c: nat) returns (acts: seq<Action>)
    requires len >= 3 && c >= 2
    ensures RunOk(Init(len), acts) && Bounded(acts, c)
    ensures Run(Init(len), acts).overrun && !Run(Init(len), acts).overflow
  {
    var d;
    acts, d := WalkTo(len, len - 1, c);
    RingMoves(d.ring, 0);
    acts, d := TickOnce(len, acts, d, c);
    WrapAround(len, len);
    RingMoves(d.ring, 0);
    acts, d := TickOnce(len, acts, d, c);
    WrapAround(1, len);
    acts, d := ReadUpToCopy(len, acts, d, 2, c);
    acts, d := Extend(len, acts, d, Step(0));
  }

  lemma {:induction false} FillTo(len: nat, k: nat, c: nat) returns (acts: seq<Action>, d: Dev)
    requires len >= 2 && k < len
    ensures QuietAt(len, acts, d, k, 0) && Bounded(acts, c)
    decreases k
  {
    if k == 0 {
      acts, d := [], Init(len);
    } else {
      acts, d := FillTo(len, k - 1, c);
      RingMoves(d.ring, 0);
      WrapAround(k, len);
      acts, d := TickOnce(len, acts, d, c);
    }
  }

  /** More than the temporary holds, buffered and asked for at once. */
  lemma LongReadOverflows(len: nat, c: nat) returns (acts: seq<Action>)
    requires len >= TMP_LEN + 2 && c >= TMP_LEN + 1
    ensures RunOk(Init(len), acts) && Bounded(acts, c)
    ensures Run(Init(len), acts).overflow && !Run(Init(len), acts).overrun
  {
    var d;
    acts, d := FillTo(len, TMP_LEN + 1, c);
    acts, d := ReadUpToCopy(len, acts, d, TMP_LEN + 1, c);
    acts, d := Extend(len, acts, d, Step(0));
  }

  /** The straight copy stays inside the ring in every run whose requests are at most c bytes if and
      only if c <= 1 or the ring has two slots; the shipped clients ask for one byte. */
  lemma SafeRequestSizes(len: nat, c: nat)
    requires len >= 2
    ensures (forall acts :: RunOk(Init(len), acts) && Bounded(acts, c) ==> !Run(Init(len), acts).overrun)
            <==> c <= 1 || len == 2
  {
    if c <= 1 || len == 2 {
      forall acts | RunOk(Init(len), acts) && Bounded(acts, c)
        ensures !Run(Init(len), acts).overrun
      {
        InitHolds(len);
        SmallRequestsNeverFault(Init(len), acts, c);
      }
    } else {
      var acts := WrappedReadOverruns(len, c);
    }
  }

  /** It stays inside the temporary in every such run if and only if no request exceeds the temporary
      or the ring cannot hold more than that. */
  lemma SafeForTheTemporary(len: nat, c: nat)
    requires len >= 2
    ensures (forall acts :: RunOk(Init(len), acts) && Bounded(acts, c) ==> !Run(Init(len), acts).overflow)
            <==> c <= TMP_LEN || len <= TMP_LEN + 1
  {
    if c <= TMP_LEN || len <= TMP_LEN + 1 {
      forall acts | RunOk(Init(len), acts) && Bounded(acts, c)
        ensures !Run(Init(len), acts).overflow
      {
        InitHolds(len);
        SmallRequestsNeverFault(Init(len), acts, c);
      }
    } else {
      var acts := LongReadOverflows(len, c);
    }
  }
}

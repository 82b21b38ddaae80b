/** What the mutex buys: calls take effect one at a time, in the order they took it. */
module MuxTheorems {
  import opened Wrappers
  import opened MemSpec
  import opened MuxMachine

  lemma {:induction false} BehaviorKeepsInv(s: Store, ds: seq<Dev>, acts: seq<Action>, i: nat)
    requires Behavior(s, ds, acts) && i < |ds|
    ensures Inv(ds[i]) && ds[i].start == s && ds[i].now == i
    decreases i
  {
    if i == 0 {
      InitInv(s);
    } else {
      BehaviorKeepsInv(s, ds, acts, i - 1);
      assert NextAt(ds, acts, i - 1);
      NextKeepsInv(ds[i - 1], acts[i - 1], ds[i]);
    }
  }

  /** Any interleaving of any calls: at every point each call of the history has had its reply, the
      very one that running the history atomically gives it, except for the mutex owner's if that is
      under way; and when none is, the store (buffer, positions and flag) is what the history makes
      of it. */
  lemma Linearizable(s: Store, ds: seq<Dev>, acts: seq<Action>, i: nat)
    requires Behavior(s, ds, acts) && i < |ds|
    ensures var d := ds[i];
            && LogOk(d.log)
            && (forall k: nat :: k in d.replies <==> k < |d.log| && !(Underway(d) && k == d.current))
            && (forall k: nat | k < |d.log| && k in d.replies :: d.replies[k].ret == Outcome(s, d.log, k))
            && (if Underway(d) then d.current < |d.log| && d.log[d.current].h == d.mux.value
                else d.store == After(s, d.log, |d.log|))
  {
    BehaviorKeepsInv(s, ds, acts, i);
  }

  /* ----- release ----- */

  function Remaining(pc: Pc): int {
    match pc
    case Locked(op) =>
      if op.Read? then 3 + (if op.count < 0 then 0 else op.count)
      else if op.Write? then 3 + |op.data|
      else 2
    case CopyingOut(count, n, out) => 2 + (if n < |out| then 0 else n - |out|)
    case CopyingIn(_, n, k) => 2 + (if n < k then 0 else n - k)
    case Leaving(_) => 1
    case _ => 0
  }

  lemma BeginRanks(s: Store, h: Handle, op: Op)
    requires s.Valid() && OpOk(op)
    ensures 0 < Remaining(Begin(s, h, op).1) < Remaining(Locked(op))
  {}

  lemma OwnerStepRanks(base: Store, h: Handle, op: Op, s: Store, pc: Pc)
    requires base.Valid() && OpOk(op) && Partly(base, h, op, s, pc) && CopyInBounds(s, h, pc) && !pc.Leaving?
    ensures 0 < Remaining(Inside(s, h, pc).1) < Remaining(pc)
  {}

  /** The owner is never blocked and every step brings it nearer to the unlock, so each way through
      each call releases the mutex and leaves nothing unanswered. */
  lemma OwnerAlwaysReleases(d: Dev, h: Handle)
    requires Inv(d) && d.mux == Some(h)
    ensures Enabled(d, Step(h)) && InBounds(d, Step(h))
    ensures var d' := Apply(d, Step(h));
            if d'.mux.None? then At(d', h).Out? && forall k: nat | k < |d'.log| :: k in d'.replies
            else d'.mux == Some(h) && 0 < Remaining(At(d', h)) < Remaining(At(d, h))
  {
    assert (Holds(At(d, h)) <==> d.mux == Some(h)) && PcOk(At(d, h));
    CopiesStayInside(d, Step(h));
    if At(d, h).Locked? {
      BeginRanks(d.store, h, At(d, h).op);
    } else if !At(d, h).Leaving? {
      OwnerStepRanks(After(d.start, d.log, d.current), h, d.log[d.current].op, d.store, At(d, h));
    }
  }
}

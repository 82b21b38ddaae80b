/** A blocking reader of an empty ring sleeps with the mutex in its hands. Who has to wait behind it,
    and for how long. */
module IrqBlocking {
  import opened Wrappers
  import opened IrqMachine
  import opened IrqTheorems

  /** At the mutex: a read, blocking or not, or a poll. */
  predicate Entering(pc: Pc) {
    pc.EnterRead? || pc.EnterPoll?
  }

  /** The mutex owner sleeps on an empty ring, and no expiry is on its way. */
  predicate Asleep(d: Dev) {
    !Faulted(d) && WaitsForData(d) && d.handler.Resting?
  }

  lemma ActionWhileAsleep(d: Dev, a: Action, t: Tid)
    requires Inv(d) && Asleep(d) && Enabled(d, a) && !a.TickTest? && !a.Signal?
    ensures (a.CallRead? || a.CallPoll?) && Asleep(Apply(d, a))
    ensures Apply(d, a).mux == d.mux && Apply(d, a).ring == d.ring
    ensures Entering(At(d, t)) ==> At(Apply(d, a), t) == At(d, t)
  {
    if a.Step? {
      assert Holds(At(d, a.t)) <==> d.mux == Some(a.t);
    }
  }

  /** Without an expiry or a signal nobody else gets anywhere: all that can happen is that more calls
      come in, and whoever is at the mutex, O_NONBLOCK readers and pollers included, stays there. */
  lemma {:induction false} SleeperHoldsEveryoneUp(d: Dev, acts: seq<Action>, t: Tid)
    requires Inv(d) && Asleep(d) && RunOk(d, acts)
    requires forall i | 0 <= i < |acts| :: !acts[i].TickTest? && !acts[i].Signal?
    ensures forall i | 0 <= i < |acts| :: acts[i].CallRead? || acts[i].CallPoll?
    ensures var d' := Run(d, acts);
            && Asleep(d') && d'.mux == d.mux && d'.ring == d.ring
            && (Entering(At(d, t)) ==> At(d', t) == At(d, t) && !CanStep(d', t))
    decreases |acts|
  {
    if acts != [] {
      ActionWhileAsleep(d, acts[0], t);
      ActionKeepsInv(d, acts[0]);
      SleeperHoldsEveryoneUp(Apply(d, acts[0]), acts[1..], t);
    }
  }

  /** n threads from t on call poll, one after the other. */
  lemma {:induction false} MorePollers(d: Dev, t: Tid, n: nat) returns (acts: seq<Action>)
    requires !Faulted(d) && forall u: Tid | u >= t :: At(d, u).Out?
    ensures |acts| == n && RunOk(d, acts) && forall i | 0 <= i < |acts| :: acts[i].CallPoll? && acts[i].t >= t
    decreases n
  {
    if n == 0 {
      acts := [];
    } else {
      var d' := Apply(d, CallPoll(t));
      assert forall u: Tid | u >= t + 1 :: At(d, u).Out? && At(d', u) == At(d, u);
      var rest := MorePollers(d', t + 1, n - 1);
      acts := [CallPoll(t)] + rest;
      assert acts[1..] == rest;
    }
  }

  /** Thread 0 reads, blocking, from a fresh device and falls asleep. */
  lemma FallAsleep(len: nat, acts: seq<Action>)
    requires len >= 2 && acts == [CallRead(0, 1, false), Step(0)]
    ensures RunOk(Init(len), acts)
    ensures var d := Run(Init(len), acts);
            Asleep(d) && d.mux == Some(0) && forall u: Tid | u >= 1 :: At(d, u).Out?
  {
    var d1 := Apply(Init(len), CallRead(0, 1, false));
    assert At(d1, 0) == EnterRead(1, false);
    RunOfTwo(Init(len), CallRead(0, 1, false), Step(0));
    assert Apply(d1, Step(0)).pcs == map[0 := Checking(1, false)];
  }

  predicate CallOfOne(call: Action) {
    call == CallPoll(1) || (call.CallRead? && call.t == 1)
  }

  lemma CallEnters(d: Dev, call: Action)
    requires Inv(d) && Asleep(d) && CallOfOne(call) && forall u: Tid | u >= 1 :: At(d, u).Out?
    ensures Enabled(d, call)
    ensures var d' := Apply(d, call);
            && Inv(d') && Asleep(d') && d'.mux == d.mux && Entering(At(d', 1))
            && forall u: Tid | u >= 2 :: At(d', u).Out?
  {
    ActionWhileAsleep(d, call, 1);
    ActionKeepsInv(d, call);
    assert forall u: Tid | u >= 2 :: At(d, u).Out? && At(Apply(d, call), u) == At(d, u);
  }

  /** Then thread 1 calls. */
  lemma CallBehindSleeper(len: nat, call: Action) returns (before: seq<Action>)
    requires len >= 2 && CallOfOne(call)
    ensures |before| == 3 && before[2] == call && RunOk(Init(len), before)
    ensures var d := Run(Init(len), before);
            && Inv(d) && Asleep(d) && d.mux == Some(0) && Entering(At(d, 1))
            && forall u: Tid | u >= 2 :: At(d, u).Out?
  {
    var two := [CallRead(0, 1, false), Step(0)];
    var d := Run(Init(len), two);
    FallAsleep(len, two);
    InitHolds(len);
    RunKeepsInv(Init(len), two);
    CallEnters(d, call);
    RunOfOne(d, call);
    RunConcat(Init(len), two, [call]);
    before := two + [call];
  }

  /** So an O_NONBLOCK read or a poll can be made to wait: for every n there is a run in which it makes
      no step during n further actions, because it can step exactly when the mutex is free. */
  lemma NonblockingCallWaits(len: nat, n: nat, call: Action) returns (before: seq<Action>, more: seq<Action>)
    requires len >= 2 && (call == CallPoll(1) || (call.CallRead? && call.t == 1 && call.nonblock))
    ensures |before| == 3 && before[2] == call && |more| == n && RunOk(Init(len), before + more)
    ensures forall i | 0 <= i < n :: more[i] != Step(1)
    ensures var d := Run(Init(len), before + more);
            && Entering(At(d, 1)) && !CanStep(d, 1) && d.mux == Some(0) && Empty(d)
            && (forall e: Dev | At(e, 1) == At(d, 1) :: CanStep(e, 1) <==> e.mux.None?)
  {
    before := CallBehindSleeper(len, call);
    var d := Run(Init(len), before);
    more := MorePollers(d, 2, n);
    SleeperHoldsEveryoneUp(d, more, 1);
    RunConcat(Init(len), before, more);
  }
}

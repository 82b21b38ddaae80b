/** What each thread gets is what it asked for: its calls, with their sizes and flags, against the
    values returned to it. */
module IrqCalls {
  import opened Bytes
  import opened Cbuf
  import opened Integers
  import opened IrqMachine
  import opened IrqTheorems

  datatype Request = ReadRequest(count: nat, nonblock: bool) | PollRequest

  /** The calls thread t makes in a run, in order. */
  function Made(acts: seq<Action>, t: Tid): seq<Request> {
    if acts == [] then [] else MadeBy(acts[0], t) + Made(acts[1..], t)
  }

  function MadeBy(a: Action, t: Tid): seq<Request> {
    match a
    case CallRead(u, count, nonblock) => if u == t then [ReadRequest(count, nonblock)] else []
    case CallPoll(u) => if u == t then [PollRequest] else []
    case _ => []
  }

  /** The values returned to thread t, in order. */
  function ReturnedTo(returned: seq<(Tid, Ret)>, t: Tid): seq<Ret> {
    if returned == [] then []
    else
      var last := |returned| - 1;
      ReturnedTo(returned[..last], t) + if returned[last].0 == t then [returned[last].1] else []
  }

  /** ret is a possible answer to req: data for a read of that size, EAGAIN for one with O_NONBLOCK
      only, an interruption for one without only, and a mask for a poll. */
  predicate Answers(ret: Ret, req: Request) {
    match ret
    case Bytes(asked, _) => req.ReadRequest? && req.count == asked
    case NotReady => req.ReadRequest? && req.nonblock
    case Interrupted => req.ReadRequest? && !req.nonblock
    case Mask(_) => req.PollRequest?
  }

  /** A thread at pc is serving req. */
  predicate Serves(pc: Pc, req: Request) {
    match pc
    case Out => false
    case EnterRead(count, nonblock) => req == ReadRequest(count, nonblock)
    case Checking(count, nonblock) => req == ReadRequest(count, nonblock)
    case Saw(count) => req.ReadRequest? && req.count == count
    case Copied(count, _) => req.ReadRequest? && req.count == count
    case Handed(count, _) => req.ReadRequest? && req.count == count
    case EnterPoll => req.PollRequest?
    case Polling => req.PollRequest?
    case Leaving(ret) => Answers(ret, req)
  }

  /** Of the requests, all but one in progress have been answered, in order. */
  ghost predicate Matches(reqs: seq<Request>, rets: seq<Ret>, pc: Pc) {
    && |reqs| == |rets| + (if pc.Out? then 0 else 1)
    && (forall k | 0 <= k < |rets| :: Answers(rets[k], reqs[k]))
    && (!pc.Out? ==> Serves(pc, reqs[|rets|]))
  }

  ghost predicate MatchesIn(reqs: seq<Request>, d: Dev, t: Tid) {
    Matches(reqs, ReturnedTo(d.returned, t), At(d, t))
  }

  lemma ReturnedAppend(returned: seq<(Tid, Ret)>, u: Tid, ret: Ret, t: Tid)
    ensures ReturnedTo(returned + [(u, ret)], t) == ReturnedTo(returned, t) + if u == t then [ret] else []
  {
    assert (returned + [(u, ret)])[..|returned|] == returned;
  }

  /** How an action moves thread t: on to where it serves the same request, into a call that it makes,
      or out of a call with the answer. */
  lemma ActionOnThread(d: Dev, a: Action, t: Tid)
    requires Enabled(d, a)
    ensures var d', pc, pc' := Apply(d, a), At(d, t), At(Apply(d, a), t);
            if MadeBy(a, t) != [] then
              d'.returned == d.returned && pc.Out? && !pc'.Out? && Serves(pc', MadeBy(a, t)[0])
            else if a == Step(t) && pc.Leaving? then
              d'.returned == d.returned + [(t, pc.ret)] && pc'.Out?
            else
              && (d'.returned == d.returned || exists u, ret | u != t :: d'.returned == d.returned + [(u, ret)])
              && (pc'.Out? <==> pc.Out?) && forall req | Serves(pc, req) :: Serves(pc', req)
  {
    if a.Step? && At(d, a.t).Leaving? {
      assert Apply(d, a).returned == d.returned + [(a.t, At(d, a.t).ret)];
    }
  }

  lemma StepMatches(reqs: seq<Request>, d: Dev, a: Action, t: Tid)
    requires MatchesIn(reqs, d, t) && Enabled(d, a)
    ensures MatchesIn(reqs + MadeBy(a, t), Apply(d, a), t)
  {
    ActionOnThread(d, a, t);
    var d' := Apply(d, a);
    if d'.returned != d.returned {
      var (u, ret) := d'.returned[|d.returned|];
      ReturnedAppend(d.returned, u, ret, t);
      assert d'.returned == d.returned + [(u, ret)];
    }
  }

  lemma MadeConcat(reqs: seq<Request>, acts: seq<Action>, t: Tid)
    ensures acts == [] ==> reqs + Made(acts, t) == reqs
    ensures acts != [] ==> reqs + MadeBy(acts[0], t) + Made(acts[1..], t) == reqs + Made(acts, t)
  {}

  lemma {:induction false} RunMatches(reqs: seq<Request>, d: Dev, acts: seq<Action>, t: Tid)
    requires MatchesIn(reqs, d, t) && RunOk(d, acts)
    ensures MatchesIn(reqs + Made(acts, t), Run(d, acts), t)
    decreases |acts|
  {
    MadeConcat(reqs, acts, t);
    if acts != [] {
      StepMatches(reqs, d, acts[0], t);
      RunMatches(reqs + MadeBy(acts[0], t), Apply(d, acts[0]), acts[1..], t);
    }
  }

  /** In every run each thread's calls are answered one by one in the order made, at most the last one
      being still in progress. A read is answered with at most as many bytes as it asked for, and with
      at least one if it asked for any; it comes back without data only by O_NONBLOCK if it was made
      with that flag, and only by a signal if it was made without. A poll is answered with a mask. */
  lemma CallsAreAnswered(len: nat, acts: seq<Action>, t: Tid)
    requires len >= 2 && RunOk(Init(len), acts)
    ensures var d, reqs := Run(Init(len), acts), Made(acts, t);
            var rets := ReturnedTo(d.returned, t);
            && |reqs| == |rets| + (if At(d, t).Out? then 0 else 1)
            && (!At(d, t).Out? ==> Serves(At(d, t), reqs[|rets|]))
            && forall k | 0 <= k < |rets| ::
                 match reqs[k]
                 case PollRequest => rets[k].Mask?
                 case ReadRequest(count, nonblock) =>
                   || (rets[k].NotReady? && nonblock)
                   || (rets[k].Interrupted? && !nonblock)
                   || (rets[k].Bytes? && |rets[k].data| <= count && (count >= 1 ==> |rets[k].data| >= 1))
  {
    InitHolds(len);
    RunKeepsInv(Init(len), acts);
    RunMatches([], Init(len), acts, t);
    var d, reqs := Run(Init(len), acts), Made(acts, t);
    assert [] + reqs == reqs;
    var rets := ReturnedTo(d.returned, t);
    ReturnsAreHonest(d.returned, t);
    forall k | 0 <= k < |rets|
      ensures Answers(rets[k], reqs[k]) && HonestRet(rets[k])
    {}
  }

  lemma {:induction false} ReturnsAreHonest(returned: seq<(Tid, Ret)>, t: Tid)
    requires forall i | 0 <= i < |returned| :: HonestRet(returned[i].1)
    ensures forall k | 0 <= k < |ReturnedTo(returned, t)| :: HonestRet(ReturnedTo(returned, t)[k])
    decreases |returned|
  {
    if returned != [] {
      ReturnsAreHonest(returned[..|returned| - 1], t);
    }
  }

  /* ----- every answer was true at a moment of the call ----- */

  /** The call has its answer. */
  predicate Decided(pc: Pc) {
    pc.Copied? || pc.Handed? || pc.Leaving?
  }

  /** What the answer says of the ring is true in d, where thread t is at the point of finding out: data
      is the oldest there is, as much as asked for and buffered; a call that comes back without data
      finds none; a mask tells whether there is some. */
  ghost predicate TrueIn(d: Dev, t: Tid, answer: Pc) {
    match answer
    case Copied(count, tmp) => Copies(d, t, count, tmp)
    case Handed(count, tmp) => Copies(d, t, count, tmp)
    case Leaving(Bytes(count, data)) => Copies(d, t, count, data)
    case Leaving(Mask(readable)) => At(d, t).Polling? && (readable <==> d.ring.Contents() != [])
    case Leaving(_) => At(d, t).Checking? && d.ring.Contents() == []
    case _ => false
  }

  ghost predicate Copies(d: Dev, t: Tid, count: nat, data: seq<byte>) {
    At(d, t) == Saw(count) && data == d.ring.Contents()[..Min(count, |d.ring.Contents()|)]
  }

  lemma StepDecides(d: Dev, a: Action, t: Tid)
    requires Inv(d) && Enabled(d, a) && Decided(At(Apply(d, a), t))
    ensures !At(d, t).Out?
    ensures if Decided(At(d, t)) then forall e | TrueIn(e, t, At(d, t)) :: TrueIn(e, t, At(Apply(d, a), t))
            else TrueIn(d, t, At(Apply(d, a), t))
  {
    if a == Step(t) && At(d, t).Saw? {
      StraightIsPrefix(d.ring, CopySize(d, At(d, t).count));
    }
  }

  /** All states of a run. */
  function States(d: Dev, acts: seq<Action>): (ds: seq<Dev>)
    requires RunOk(d, acts)
    ensures |ds| == |acts| + 1
    decreases |acts|
  {
    if acts == [] then [d] else [d] + States(Apply(d, acts[0]), acts[1..])
  }

  ghost predicate Trace(len: nat, ds: seq<Dev>, acts: seq<Action>) {
    && len >= 2 && |ds| == |acts| + 1 && ds[0] == Init(len)
    && forall i: nat | i < |acts| :: StepAt(ds, acts, i)
  }

  predicate StepAt(ds: seq<Dev>, acts: seq<Action>, i: nat)
    requires |ds| == |acts| + 1 && i < |acts|
  {
    Enabled(ds[i], acts[i]) && ds[i + 1] == Apply(ds[i], acts[i])
  }

  lemma {:induction false} StatesStep(d: Dev, acts: seq<Action>, i: nat)
    requires RunOk(d, acts) && i < |acts|
    ensures StepAt(States(d, acts), acts, i) && States(d, acts)[0] == d && States(d, acts)[|acts|] == Run(d, acts)
    decreases |acts|
  {
    var d', rest := Apply(d, acts[0]), acts[1..];
    if i > 0 {
      StatesStep(d', rest, i - 1);
      assert StepAt(States(d', rest), rest, i - 1);
    }
    if rest != [] {
      StatesStep(d', rest, 0);
    }
  }

  /** Every run is such a trace. */
  lemma RunIsTrace(len: nat, acts: seq<Action>)
    requires len >= 2 && RunOk(Init(len), acts)
    ensures Trace(len, States(Init(len), acts), acts) && States(Init(len), acts)[|acts|] == Run(Init(len), acts)
  {
    forall i: nat | i < |acts|
      ensures StepAt(States(Init(len), acts), acts, i)
    {
      StatesStep(Init(len), acts, i);
    }
    if acts != [] {
      StatesStep(Init(len), acts, 0);
    }
  }

  lemma {:induction false} TraceKeepsInv(len: nat, ds: seq<Dev>, acts: seq<Action>, i: nat)
    requires Trace(len, ds, acts) && i < |ds|
    ensures Inv(ds[i])
    decreases i
  {
    if i == 0 {
      InitHolds(len);
    } else {
      TraceKeepsInv(len, ds, acts, i - 1);
      assert StepAt(ds, acts, i - 1);
      ActionKeepsInv(ds[i - 1], acts[i - 1]);
    }
  }

  lemma DecidedAt(len: nat, ds: seq<Dev>, acts: seq<Action>, i: nat, t: Tid)
    requires Trace(len, ds, acts) && i < |acts| && Decided(At(ds[i + 1], t))
    ensures !At(ds[i], t).Out?
    ensures if Decided(At(ds[i], t)) then forall e | TrueIn(e, t, At(ds[i], t)) :: TrueIn(e, t, At(ds[i + 1], t))
            else TrueIn(ds[i], t, At(ds[i + 1], t))
  {
    TraceKeepsInv(len, ds, acts, i);
    assert StepAt(ds, acts, i);
    StepDecides(ds[i], acts[i], t);
  }

  lemma {:induction false} DecidedBefore(len: nat, ds: seq<Dev>, acts: seq<Action>, n: nat, t: Tid) returns (i: nat)
    requires Trace(len, ds, acts) && n < |ds| && Decided(At(ds[n], t))
    ensures i < n && TrueIn(ds[i], t, At(ds[n], t))
    ensures forall j | i <= j <= n :: !At(ds[j], t).Out?
    decreases n
  {
    if n == 0 {
      assert false;
    } else {
      DecidedAt(len, ds, acts, n - 1, t);
      if Decided(At(ds[n - 1], t)) {
        i := DecidedBefore(len, ds, acts, n - 1, t);
      } else {
        i := n - 1;
      }
    }
  }

  /** Whatever answer a call has got in a run, it was true of the ring at an earlier moment of the same
      call. */
  lemma AnswersWereTrue(len: nat, acts: seq<Action>, t: Tid) returns (i: nat)
    requires len >= 2 && RunOk(Init(len), acts) && Decided(At(Run(Init(len), acts), t))
    ensures var ds := States(Init(len), acts);
            && i < |acts| && TrueIn(ds[i], t, At(Run(Init(len), acts), t))
            && forall j | i <= j <= |acts| :: !At(ds[j], t).Out?
  {
    RunIsTrace(len, acts);
    i := DecidedBefore(len, States(Init(len), acts), acts, |acts|, t);
  }
}

/** The history is the history of what happened: it holds every call once, each decided at a moment
    between its beginning and its return, and in the order of those moments. */
module MuxHistory {
  import opened Wrappers
  import opened MemSpec
  import opened MuxMachine
  import opened MuxTheorems

  /** What the invariant says about the history as such, whatever the calls do. */
  ghost predicate Books(d: Dev) {
    && Threads(d)
    && (Underway(d) ==> d.current < |d.log| && d.log[d.current].h == d.mux.value)
    && (forall k: nat :: k in d.replies <==> k < |d.log| && !(Underway(d) && k == d.current))
  }

  lemma BehaviorKeepsBooks(s: Store, ds: seq<Dev>, acts: seq<Action>, i: nat)
    requires Behavior(s, ds, acts) && i < |ds|
    ensures Books(ds[i]) && ds[i].now == i
  {
    BehaviorKeepsInv(s, ds, acts, i);
  }

  /* ----- nothing is rewritten ----- */

  lemma OneStepGrows(d: Dev, a: Action, d': Dev)
    requires Books(d) && Next(d, a, d')
    ensures d.log <= d'.log
    ensures forall k: nat | k in d.replies :: k in d'.replies && d'.replies[k] == d.replies[k]
  {
    if a.Step? {
      assert Holds(At(d, a.h)) <==> d.mux == Some(a.h);
    }
  }

  /** Entries and replies, once there, stay as they are. */
  lemma {:induction false} HistoryGrows(s: Store, ds: seq<Dev>, acts: seq<Action>, i: nat, j: nat)
    requires Behavior(s, ds, acts) && i <= j < |ds|
    ensures ds[i].log <= ds[j].log
    ensures forall k: nat | k in ds[i].replies :: k in ds[j].replies && ds[j].replies[k] == ds[i].replies[k]
    decreases j
  {
    if i < j {
      HistoryGrows(s, ds, acts, i, j - 1);
      BehaviorKeepsBooks(s, ds, acts, j - 1);
      assert NextAt(ds, acts, j - 1);
      OneStepGrows(ds[j - 1], acts[j - 1], ds[j]);
    }
  }

  /* ----- every call is in it once ----- */

  /** What handle h called by the first i actions. */
  function Made(acts: seq<Action>, i: nat, h: Handle): seq<Op>
    requires i <= |acts|
  {
    if i == 0 then []
    else Made(acts, i - 1, h) + if acts[i - 1].Enter? && acts[i - 1].h == h then [acts[i - 1].op] else []
  }

  /** What the history says handle h called. */
  function Logged(log: seq<Entry>, h: Handle): seq<Op> {
    if log == [] then []
    else Logged(log[..|log| - 1], h) + if log[|log| - 1].h == h then [log[|log| - 1].op] else []
  }

  /** A call that is not decided yet. */
  function Undecided(pc: Pc): seq<Op> {
    if pc.Testing? || pc.WantLock? || pc.Locked? then [pc.op] else []
  }

  lemma LoggedAppend(log: seq<Entry>, e: Entry, h: Handle)
    ensures Logged(log + [e], h) == Logged(log, h) + if e.h == h then [e.op] else []
  {
    assert (log + [e])[..|log|] == log;
  }

  lemma InsideIsDecided(s: Store, h: Handle, pc: Pc)
    requires CopyInBounds(s, h, pc) && Undecided(pc) == []
    ensures Undecided(Inside(s, h, pc).1) == []
  {}

  /** What an action does to the history, told by where the acting call stands. */
  ghost predicate Records(d: Dev, a: Action, d': Dev) {
    var pc, pc', h := At(d, a.h), At(d', a.h), a.h;
    && (forall g | g != h :: At(d', g) == At(d, g))
    && if a.Enter? then d'.log == d.log && Undecided(pc) == [] && Undecided(pc') == [a.op]
       else if pc.Locked? || (pc.Testing? && Refused(d.store, pc.op)) then
         d'.log == d.log + [Entry(h, pc.op, pc.Locked?, Since(d, h), d.now)] && Undecided(pc') == []
       else d'.log == d.log && Undecided(pc') == Undecided(pc)
  }

  lemma StepRecords(d: Dev, a: Action, d': Dev)
    requires Next(d, a, d')
    ensures Records(d, a, d')
  {
    if a.Step? && (At(d, a.h).CopyingOut? || At(d, a.h).CopyingIn?) {
      InsideIsDecided(d.store, a.h, At(d, a.h));
    }
  }

  lemma OneStepIsLogged(d: Dev, a: Action, d': Dev, h: Handle)
    requires Records(d, a, d')
    ensures Logged(d'.log, h) + Undecided(At(d', h))
         == Logged(d.log, h) + Undecided(At(d, h)) + if a.Enter? && a.h == h then [a.op] else []
  {
    if |d'.log| > |d.log| {
      LoggedAppend(d.log, d'.log[|d.log|], h);
    }
  }

  lemma BehaviorRecords(s: Store, ds: seq<Dev>, acts: seq<Action>, i: nat)
    requires Behavior(s, ds, acts) && i < |acts|
    ensures Records(ds[i], acts[i], ds[i + 1])
  {
    assert NextAt(ds, acts, i);
    StepRecords(ds[i], acts[i], ds[i + 1]);
  }

  lemma BehaviorLogs(s: Store, ds: seq<Dev>, acts: seq<Action>, i: nat, h: Handle)
    requires Behavior(s, ds, acts) && i < |acts|
    ensures Logged(ds[i + 1].log, h) + Undecided(At(ds[i + 1], h))
         == Logged(ds[i].log, h) + Undecided(At(ds[i], h))
            + if acts[i].Enter? && acts[i].h == h then [acts[i].op] else []
  {
    BehaviorRecords(s, ds, acts, i);
    OneStepIsLogged(ds[i], acts[i], ds[i + 1], h);
  }

  /** The calls of each handle are in the history completely, once each, in the order they were made;
      only its latest one may be still to come. */
  lemma {:induction false} EveryCallIsLogged(s: Store, ds: seq<Dev>, acts: seq<Action>, i: nat, h: Handle)
    requires Behavior(s, ds, acts) && i < |ds|
    ensures Made(acts, i, h) == Logged(ds[i].log, h) + Undecided(At(ds[i], h))
    decreases i
  {
    if i > 0 {
      EveryCallIsLogged(s, ds, acts, i - 1, h);
      BehaviorLogs(s, ds, acts, i - 1, h);
    }
  }

  /* ----- at its time ----- */

  /** By action number begin handle h called op, and up to state number last it has not returned. */
  ghost predicate InCall(ds: seq<Dev>, acts: seq<Action>, h: Handle, op: Op, begin: nat, last: nat) {
    && begin < |acts| && acts[begin] == Enter(h, op)
    && last < |ds| && forall m: nat | begin < m <= last :: !At(ds[m], h).Out?
  }

  /** What a call was begun with: it carries that until it is decided, and then the history does. */
  function OpOf(d: Dev, h: Handle): Op
    requires Undecided(At(d, h)) == [] ==> d.current < |d.log|
  {
    if Undecided(At(d, h)) != [] then Undecided(At(d, h))[0] else d.log[d.current].op
  }

  lemma DecidedIsCurrent(d: Dev, h: Handle)
    requires Books(d) && !At(d, h).Out? && Undecided(At(d, h)) == []
    ensures Underway(d) && d.mux == Some(h) && d.current < |d.log|
  {
    assert Holds(At(d, h)) <==> d.mux == Some(h);
  }

  /** A call in progress was begun at the time kept for it, with the operation it carries. */
  ghost predicate Tracked(ds: seq<Dev>, acts: seq<Action>, i: nat, h: Handle) {
    && i < |ds|
    && (Undecided(At(ds[i], h)) == [] ==>
          ds[i].current < |ds[i].log| && ds[i].log[ds[i].current].begin == Since(ds[i], h))
    && Since(ds[i], h) < i
    && InCall(ds, acts, h, OpOf(ds[i], h), Since(ds[i], h), i)
  }

  lemma StepTracks(ds: seq<Dev>, acts: seq<Action>, i: nat, h: Handle)
    requires i < |acts| && i + 1 < |ds| && Next(ds[i], acts[i], ds[i + 1])
    requires Books(ds[i]) && Books(ds[i + 1]) && ds[i].now == i
    requires !At(ds[i + 1], h).Out? && (!At(ds[i], h).Out? ==> Tracked(ds, acts, i, h))
    ensures Tracked(ds, acts, i + 1, h)
  {
    var d, d' := ds[i], ds[i + 1];
    StepRecords(d, acts[i], d');
    if Undecided(At(d', h)) == [] {
      DecidedIsCurrent(d', h);
    }
    if !At(d, h).Out? && Undecided(At(d, h)) == [] {
      DecidedIsCurrent(d, h);
    }
  }

  lemma {:induction false} CallIsTracked(s: Store, ds: seq<Dev>, acts: seq<Action>, i: nat, h: Handle)
    requires Behavior(s, ds, acts) && i < |ds| && !At(ds[i], h).Out?
    ensures Tracked(ds, acts, i, h)
    decreases i
  {
    if i == 0 {
      assert false;
    } else {
      if !At(ds[i - 1], h).Out? {
        CallIsTracked(s, ds, acts, i - 1, h);
      }
      BehaviorKeepsBooks(s, ds, acts, i - 1);
      BehaviorKeepsBooks(s, ds, acts, i);
      assert NextAt(ds, acts, i - 1);
      StepTracks(ds, acts, i - 1, h);
    }
  }

  /** Every call in the history was decided during that very call: refused at its test, by what the
      test saw, or admitted at the first step of its turn with the mutex. */
  lemma {:induction false} CallsAreDecidedInTime(s: Store, ds: seq<Dev>, acts: seq<Action>, i: nat, k: nat)
    requires Behavior(s, ds, acts) && i < |ds| && k < |ds[i].log|
    ensures var e := ds[i].log[k];
            && e.begin < e.at < i && acts[e.at] == Step(e.h)
            && InCall(ds, acts, e.h, e.op, e.begin, e.at) && Since(ds[e.at], e.h) == e.begin
            && (if e.admitted then At(ds[e.at], e.h) == Locked(e.op)
                else At(ds[e.at], e.h) == Testing(e.op) && Refused(ds[e.at].store, e.op))
    decreases i
  {
    if i > 0 {
      BehaviorKeepsBooks(s, ds, acts, i - 1);
      BehaviorRecords(s, ds, acts, i - 1);
      if k < |ds[i - 1].log| {
        CallsAreDecidedInTime(s, ds, acts, i - 1, k);
      } else {
        CallIsTracked(s, ds, acts, i - 1, acts[i - 1].h);
      }
    }
  }

  /** A new reply is that of the stepping handle's call, which ends. */
  lemma NewReply(d: Dev, a: Action, d': Dev, k: nat)
    requires Books(d) && Next(d, a, d') && k in d'.replies && k !in d.replies
    ensures a.Step? && d'.replies[k].time == d.now && At(d', a.h).Out? && k < |d'.log| && d'.log[k].h == a.h
    ensures k == |d.log| || (Undecided(At(d, a.h)) == [] && k == d.current)
  {
    assert Holds(At(d, a.h)) <==> d.mux == Some(a.h);
  }

  /** And every reply was given by the return from that very call. */
  lemma {:induction false} RepliesAreReturns(s: Store, ds: seq<Dev>, acts: seq<Action>, i: nat, k: nat)
    requires Behavior(s, ds, acts) && i < |ds| && k in ds[i].replies
    ensures k < |ds[i].log|
    ensures var e, t := ds[i].log[k], ds[i].replies[k].time;
            && e.at <= t < i && acts[t] == Step(e.h)
            && InCall(ds, acts, e.h, e.op, e.begin, t) && At(ds[t + 1], e.h).Out?
    decreases i
  {
    if i > 0 {
      var d, a := ds[i - 1], acts[i - 1];
      BehaviorKeepsBooks(s, ds, acts, i - 1);
      BehaviorKeepsBooks(s, ds, acts, i);
      assert NextAt(ds, acts, i - 1);
      OneStepGrows(d, a, ds[i]);
      if k in d.replies {
        RepliesAreReturns(s, ds, acts, i - 1, k);
      } else {
        NewReply(d, a, ds[i], k);
        StepRecords(d, a, ds[i]);
        CallIsTracked(s, ds, acts, i - 1, a.h);
        CallsAreDecidedInTime(s, ds, acts, i, k);
      }
    }
  }

  /* ----- in real-time order ----- */

  lemma {:induction false} DecidedInOrder(s: Store, ds: seq<Dev>, acts: seq<Action>, i: nat, j: nat, k: nat)
    requires Behavior(s, ds, acts) && i < |ds| && j < k < |ds[i].log|
    ensures ds[i].log[j].at < ds[i].log[k].at
    decreases i
  {
    if i > 0 {
      BehaviorKeepsBooks(s, ds, acts, i - 1);
      BehaviorRecords(s, ds, acts, i - 1);
      if k < |ds[i - 1].log| {
        DecidedInOrder(s, ds, acts, i - 1, j, k);
      } else {
        CallsAreDecidedInTime(s, ds, acts, i - 1, j);
      }
    }
  }

  /** A call that returned before another began precedes it in the history. */
  lemma RealTimeOrder(s: Store, ds: seq<Dev>, acts: seq<Action>, i: nat, j: nat, k: nat)
    requires Behavior(s, ds, acts) && i < |ds|
    requires j in ds[i].replies && k < |ds[i].log| && ds[i].replies[j].time < ds[i].log[k].begin
    ensures j < k
  {
    RepliesAreReturns(s, ds, acts, i, j);
    CallsAreDecidedInTime(s, ds, acts, i, k);
    if k < j {
      DecidedInOrder(s, ds, acts, i, k, j);
    }
  }
}

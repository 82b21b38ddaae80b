/** The read-only flag is tested before the mutex is taken. What that costs, exactly. */
module MuxFlag {
  import opened MemSpec
  import opened MuxMachine
  import opened MuxTheorems
  import opened MuxHistory

  /* ----- serial runs of whole calls ----- */

  function Calls(log: seq<Entry>): (calls: seq<Call>)
    ensures |calls| == |log|
    ensures LogOk(log) ==> CallsOk(calls)
  {
    seq(|log|, k requires 0 <= k < |log| => (log[k].h, log[k].op))
  }

  function SerialStore(s: Store, calls: seq<Call>, k: nat): (r: Store)
    requires s.Valid() && CallsOk(calls) && k <= |calls|
    ensures r.Valid()
  {
    Serial(s, calls[..k])
  }

  function SerialRet(s: Store, calls: seq<Call>, k: nat): Ret
    requires s.Valid() && CallsOk(calls) && k < |calls|
  {
    Serve(SerialStore(s, calls, k), calls[k].0, calls[k].1).1
  }

  lemma {:induction false} SerialAppend(s: Store, calls: seq<Call>, c: Call)
    requires s.Valid() && CallsOk(calls) && OpOk(c.1)
    ensures Serial(s, calls + [c]) == Serve(Serial(s, calls), c.0, c.1).0
    decreases |calls|
  {
    if calls == [] {
      assert [c][1..] == [];
    } else {
      SerialAppend(Serve(s, calls[0].0, calls[0].1).0, calls[1..], c);
      assert (calls + [c])[0] == calls[0] && (calls + [c])[1..] == calls[1..] + [c];
    }
  }

  lemma SerialStep(s: Store, calls: seq<Call>, k: nat)
    requires s.Valid() && CallsOk(calls) && k < |calls|
    ensures SerialStore(s, calls, k + 1) == Serve(SerialStore(s, calls, k), calls[k].0, calls[k].1).0
  {
    SerialAppend(s, calls[..k], calls[k]);
    assert calls[..k + 1] == calls[..k] + [calls[k]];
  }

  /** An admitted write that had its turn with the mutex only after the flag was set. */
  predicate Late(s: Store, log: seq<Entry>, k: nat)
    requires s.Valid() && LogOk(log) && k < |log|
  {
    log[k].admitted && log[k].op.Write? && After(s, log, k).readOnly != 0
  }

  /** A call that is not late does what it would do as a whole, tests included. */
  lemma OnTimeIsWhole(s: Store, log: seq<Entry>, k: nat)
    requires s.Valid() && LogOk(log) && k < |log| && JudgedAt(s, log, k)
    ensures Late(s, log, k) ==> Serve(After(s, log, k), log[k].h, log[k].op).1 != Outcome(s, log, k)
    ensures !Late(s, log, k) ==> Serve(After(s, log, k), log[k].h, log[k].op) == Take(After(s, log, k), log[k])
  {}

  lemma {:induction false} OnTimeIsSerial(s: Store, log: seq<Entry>, k: nat)
    requires s.Valid() && LogOk(log) && Judged(s, log) && k <= |log|
    requires forall m: nat | m < k :: !Late(s, log, m)
    ensures SerialStore(s, Calls(log), k) == After(s, log, k)
  {
    if k > 0 {
      OnTimeIsSerial(s, log, k - 1);
      assert JudgedAt(s, log, k - 1);
      OnTimeIsWhole(s, log, k - 1);
      SerialStep(s, Calls(log), k - 1);
    }
  }

  lemma {:induction false} FirstLate(s: Store, log: seq<Entry>, k: nat) returns (m: nat)
    requires s.Valid() && LogOk(log) && k < |log| && Late(s, log, k)
    ensures m <= k && Late(s, log, m) && forall j: nat | j < m :: !Late(s, log, j)
  {
    if j: nat :| j < k && Late(s, log, j) {
      m := FirstLate(s, log, j);
    } else {
      m := k;
    }
  }

  ghost predicate NoneLate(s: Store, log: seq<Entry>)
    requires s.Valid() && LogOk(log)
  {
    forall k: nat | k < |log| :: !Late(s, log, k)
  }

  ghost predicate SerialReplies(s: Store, log: seq<Entry>)
    requires s.Valid() && LogOk(log)
  {
    forall k: nat | k < |log| :: Outcome(s, log, k) == SerialRet(s, Calls(log), k)
  }

  lemma SerialWhenNoneLate(s: Store, log: seq<Entry>)
    requires s.Valid() && LogOk(log) && Judged(s, log)
    ensures NoneLate(s, log) ==> SerialStore(s, Calls(log), |log|) == After(s, log, |log|)
    ensures SerialReplies(s, log) <==> NoneLate(s, log)
  {
    if NoneLate(s, log) {
      forall k: nat | k <= |log|
        ensures SerialStore(s, Calls(log), k) == After(s, log, k)
        ensures k < |log| ==> Outcome(s, log, k) == SerialRet(s, Calls(log), k)
      {
        OnTimeIsSerial(s, log, k);
        if k < |log| {
          assert JudgedAt(s, log, k);
          OnTimeIsWhole(s, log, k);
        }
      }
    } else {
      var k: nat :| k < |log| && Late(s, log, k);
      k := FirstLate(s, log, k);
      OnTimeIsSerial(s, log, k);
      assert JudgedAt(s, log, k);
      OnTimeIsWhole(s, log, k);
    }
  }

  /* ----- late writes, as they happen ----- */

  /** A write takes its first step under the mutex while the flag is set. */
  predicate BeginsLate(d: Dev, a: Action) {
    a.Step? && At(d, a.h).Locked? && At(d, a.h).op.Write? && d.store.readOnly != 0
  }

  ghost predicate NeverLate(ds: seq<Dev>, acts: seq<Action>, i: nat)
    requires |ds| == |acts| + 1 && i <= |acts|
  {
    forall j: nat | j < i :: !BeginsLate(ds[j], acts[j])
  }

  lemma LatePrefix(s: Store, log: seq<Entry>, e: Entry, k: nat)
    requires s.Valid() && LogOk(log) && OpOk(e.op) && k <= |log|
    ensures LogOk(log + [e])
    ensures k < |log| ==> (Late(s, log + [e], k) <==> Late(s, log, k))
    ensures Late(s, log + [e], |log|) <==> e.admitted && e.op.Write? && After(s, log, |log|).readOnly != 0
  {
    AfterPrefix(s, log, e, k);
    AfterPrefix(s, log, e, |log|);
  }

  lemma LateAppend(s: Store, log: seq<Entry>, e: Entry, log': seq<Entry>)
    requires s.Valid() && LogOk(log) && LogOk(log') && log' == log + [e]
    requires forall k: nat | k < |log| :: Late(s, log', k) <==> Late(s, log, k)
    ensures NoneLate(s, log') <==> NoneLate(s, log) && !Late(s, log', |log|)
  {}

  lemma LateStep(s: Store, d: Dev, a: Action, d': Dev)
    requires Inv(d) && d.start == s && Records(d, a, d') && LogOk(d'.log)
    ensures NoneLate(s, d'.log) <==> NoneLate(s, d.log) && !BeginsLate(d, a)
  {
    if |d'.log| > |d.log| {
      var e := d'.log[|d.log|];
      assert PcOk(At(d, a.h));
      FlagIsCurrent(d);
      forall k: nat | k <= |d.log|
        ensures k < |d.log| ==> (Late(s, d'.log, k) <==> Late(s, d.log, k))
        ensures Late(s, d'.log, |d.log|) <==> BeginsLate(d, a)
      {
        LatePrefix(s, d.log, e, k);
      }
      LateAppend(s, d.log, e, d'.log);
    }
  }

  lemma BehaviorLateStep(s: Store, ds: seq<Dev>, acts: seq<Action>, i: nat)
    requires Behavior(s, ds, acts) && i < |acts|
    ensures LogOk(ds[i].log) && LogOk(ds[i + 1].log)
    ensures NoneLate(s, ds[i + 1].log) <==> NoneLate(s, ds[i].log) && !BeginsLate(ds[i], acts[i])
  {
    BehaviorKeepsInv(s, ds, acts, i);
    BehaviorKeepsInv(s, ds, acts, i + 1);
    BehaviorRecords(s, ds, acts, i);
    LateStep(s, ds[i], acts[i], ds[i + 1]);
  }

  lemma {:induction false} LateIsLogged(s: Store, ds: seq<Dev>, acts: seq<Action>, i: nat)
    requires Behavior(s, ds, acts) && i < |ds|
    ensures LogOk(ds[i].log) && (NoneLate(s, ds[i].log) <==> NeverLate(ds, acts, i))
    decreases i
  {
    if i > 0 {
      LateIsLogged(s, ds, acts, i - 1);
      BehaviorLateStep(s, ds, acts, i - 1);
    }
  }

  /** Past their test, writes no longer look at the flag. So what the calls did and returned is what
      they would do and return in mutex order as whole calls, tests included, if and only if no write
      began its turn with the mutex while the flag was set. Refused writes never stand in the way. */
  lemma SerialExactlyWhenNeverLate(s: Store, ds: seq<Dev>, acts: seq<Action>, i: nat)
    requires Behavior(s, ds, acts) && i < |ds| && ds[i].mux.None?
    ensures var d := ds[i];
            && LogOk(d.log)
            && (forall k: nat :: k in d.replies <==> k < |d.log|)
            && ((&& d.store == SerialStore(s, Calls(d.log), |d.log|)
                 && forall k: nat | k < |d.log| :: d.replies[k].ret == SerialRet(s, Calls(d.log), k))
                <==> NeverLate(ds, acts, i))
  {
    var d := ds[i];
    BehaviorKeepsInv(s, ds, acts, i);
    LateIsLogged(s, ds, acts, i);
    SerialWhenNoneLate(s, d.log);
    if forall k: nat | k < |d.log| :: d.replies[k].ret == SerialRet(s, Calls(d.log), k) {
      forall k: nat | k < |d.log|
        ensures Outcome(s, d.log, k) == SerialRet(s, Calls(d.log), k)
      {
        assert d.replies[k].ret == Outcome(s, d.log, k);
      }
      assert SerialReplies(s, d.log);
    }
  }

  lemma {:induction false} AfterFlag(s: Store, log: seq<Entry>, k: nat)
    requires s.Valid() && LogOk(log) && Judged(s, log) && k <= |log|
    ensures After(s, log, k).readOnly == LastFlag(Calls(log)[..k], s.readOnly)
  {
    if k > 0 {
      AfterFlag(s, log, k - 1);
      assert JudgedAt(s, log, k - 1);
      assert Calls(log)[..k][..k - 1] == Calls(log)[..k - 1];
    }
  }

  /** At every moment of every behaviour the flag is the value of the last SET_RDONLY in the history, or
      the initial one. */
  lemma FlagIsLastInHistory(s: Store, ds: seq<Dev>, acts: seq<Action>, i: nat)
    requires Behavior(s, ds, acts) && i < |ds|
    ensures ds[i].store.readOnly == LastFlag(Calls(ds[i].log), s.readOnly)
  {
    var log := ds[i].log;
    BehaviorKeepsInv(s, ds, acts, i);
    FlagIsCurrent(ds[i]);
    AfterFlag(s, log, |log|);
    assert Calls(log)[..|log|] == Calls(log);
  }

  /* ----- with the flag left alone ----- */

  predicate ChangesFlag(a: Action) {
    a.Enter? && a.op.SetRdonly?
  }

  /** Nobody is about to change the flag, and whoever is past the test saw it clear. */
  ghost predicate FlagFixed(s: Store, d: Dev) {
    && d.store.readOnly == s.readOnly
    && forall h: Handle :: FlagFixedPc(s, At(d, h))
  }

  predicate FlagFixedPc(s: Store, pc: Pc) {
    pc.WantLock? || pc.Locked? ==> !pc.op.SetRdonly? && (pc.op.Write? ==> s.readOnly == 0)
  }

  lemma FlagStaysFixed(s: Store, d: Dev, a: Action, d': Dev)
    requires FlagFixed(s, d) && Threads(d) && Next(d, a, d') && !ChangesFlag(a)
    ensures FlagFixed(s, d') && !BeginsLate(d, a)
  {
    assert FlagFixedPc(s, At(d, a.h)) && PcOk(At(d, a.h));
    forall h: Handle
      ensures FlagFixedPc(s, At(d', h))
    {
      assert FlagFixedPc(s, At(d, h));
    }
  }

  lemma StepKeepsFlag(s: Store, ds: seq<Dev>, acts: seq<Action>, i: nat)
    requires Behavior(s, ds, acts) && i < |acts| && FlagFixed(s, ds[i]) && !ChangesFlag(acts[i])
    ensures FlagFixed(s, ds[i + 1]) && !BeginsLate(ds[i], acts[i])
  {
    BehaviorKeepsBooks(s, ds, acts, i);
    assert NextAt(ds, acts, i);
    FlagStaysFixed(s, ds[i], acts[i], ds[i + 1]);
  }

  lemma {:induction false} BehaviorKeepsFlag(s: Store, ds: seq<Dev>, acts: seq<Action>, i: nat)
    requires Behavior(s, ds, acts) && i < |ds|
    requires forall j | 0 <= j < |acts| :: !ChangesFlag(acts[j])
    ensures FlagFixed(s, ds[i]) && NeverLate(ds, acts, i)
    decreases i
  {
    if i == 0 {
      assert forall h: Handle :: At(ds[0], h) == Out;
    } else {
      BehaviorKeepsFlag(s, ds, acts, i - 1);
      StepKeepsFlag(s, ds, acts, i - 1);
    }
  }

  /** With the flag left alone, set or clear, every interleaving is a serial run of whole calls: the
      same store whenever nothing is under way and, for every call that returned, refused or not, the
      same return value. */
  lemma FixedFlagIsSerial(s: Store, ds: seq<Dev>, acts: seq<Action>, i: nat)
    requires Behavior(s, ds, acts) && i < |ds|
    requires forall j | 0 <= j < |acts| :: !ChangesFlag(acts[j])
    ensures var d := ds[i];
            && LogOk(d.log)
            && (!Underway(d) ==> d.store == SerialStore(s, Calls(d.log), |d.log|))
            && (forall k: nat | k in d.replies :: k < |d.log| && d.replies[k].ret == SerialRet(s, Calls(d.log), k))
  {
    var d := ds[i];
    BehaviorKeepsInv(s, ds, acts, i);
    BehaviorKeepsFlag(s, ds, acts, i);
    LateIsLogged(s, ds, acts, i);
    SerialWhenNoneLate(s, d.log);
    forall k: nat | k in d.replies
      ensures k < |d.log| && d.replies[k].ret == SerialRet(s, Calls(d.log), k)
    {
      assert d.replies[k].ret == Outcome(s, d.log, k);
    }
  }

  /* ----- what each write saw ----- */

  /** Whoever changes the flag meanwhile: a write in the history was refused because it saw the flag
      set at a moment of its call. */
  lemma EveryRefusalSawSet(s: Store, ds: seq<Dev>, acts: seq<Action>, i: nat, k: nat)
    requires Behavior(s, ds, acts) && i < |ds| && k < |ds[i].log|
    requires !ds[i].log[k].admitted && ds[i].log[k].op.Write?
    ensures var e := ds[i].log[k];
            && e.begin < e.at < i && InCall(ds, acts, e.h, e.op, e.begin, e.at)
            && At(ds[e.at], e.h) == Testing(e.op) && ds[e.at].store.readOnly != 0
            && k in ds[i].replies && ds[i].replies[k].ret == Einval
  {
    CallsAreDecidedInTime(s, ds, acts, i, k);
    BehaviorKeepsInv(s, ds, acts, i);
  }

  predicate Admitted(pc: Pc, op: Op) {
    pc == WantLock(op) || pc == Locked(op)
  }

  lemma AdmittedByStep(d: Dev, h: Handle, op: Op)
    requires CopyInBounds(d.store, h, At(d, h)) && op.Write? && Admitted(At(StepHandle(d, h), h), op)
    ensures Admitted(At(d, h), op) || (At(d, h) == Testing(op) && d.store.readOnly == 0)
  {
    if At(d, h).CopyingOut? || At(d, h).CopyingIn? {
      InsideIsDecided(d.store, h, At(d, h));
    }
  }

  lemma StepFrame(d: Dev, h: Handle)
    requires CopyInBounds(d.store, h, At(d, h))
    ensures StepHandle(d, h).since == d.since
    ensures forall g | g != h :: At(StepHandle(d, h), g) == At(d, g)
  {}

  lemma AdmittedByTest(d: Dev, a: Action, d': Dev, h: Handle, op: Op)
    requires Next(d, a, d') && op.Write? && Admitted(At(d', h), op)
    ensures Admitted(At(d, h), op) || (At(d, h) == Testing(op) && d.store.readOnly == 0)
    ensures Since(d', h) == Since(d, h)
  {
    if a.Step? {
      StepFrame(d, a.h);
      if a.h == h {
        AdmittedByStep(d, h, op);
      }
    }
  }

  lemma {:induction false} WaitingSawClear(s: Store, ds: seq<Dev>, acts: seq<Action>, i: nat, h: Handle, op: Op)
    returns (j: nat)
    requires Behavior(s, ds, acts) && i < |ds| && op.Write? && Admitted(At(ds[i], h), op)
    ensures Since(ds[i], h) < j < i && At(ds[j], h) == Testing(op) && ds[j].store.readOnly == 0
    decreases i
  {
    if i == 0 {
      assert false;
    } else {
      assert NextAt(ds, acts, i - 1);
      AdmittedByTest(ds[i - 1], acts[i - 1], ds[i], h, op);
      if At(ds[i - 1], h).Testing? {
        CallIsTracked(s, ds, acts, i - 1, h);
        j := i - 1;
      } else {
        j := WaitingSawClear(s, ds, acts, i - 1, h, op);
      }
    }
  }

  /** And an admitted one saw it clear at a moment of its call, before its turn with the mutex. */
  lemma EveryCommitSawClear(s: Store, ds: seq<Dev>, acts: seq<Action>, i: nat, k: nat) returns (j: nat)
    requires Behavior(s, ds, acts) && i < |ds| && k < |ds[i].log|
    requires ds[i].log[k].admitted && ds[i].log[k].op.Write?
    ensures var e := ds[i].log[k];
            && e.begin < j < e.at < i && InCall(ds, acts, e.h, e.op, e.begin, e.at)
            && At(ds[j], e.h) == Testing(e.op) && ds[j].store.readOnly == 0
  {
    var e := ds[i].log[k];
    CallsAreDecidedInTime(s, ds, acts, i, k);
    j := WaitingSawClear(s, ds, acts, e.at, e.h, e.op);
  }
}

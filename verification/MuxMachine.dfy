/** The memory device with its mutex: any number of handles call read, write, llseek and ioctl
    concurrently, and every copy moves one byte at a time. A write tests the read-only flag, and an
    ioctl its command, before it takes the mutex. */
module MuxMachine {
  import opened Wrappers
  import opened Bytes
  import opened Integers
  import opened MemSpec

  /** Where a call is. From Locked on it holds the mutex. */
  datatype Pc =
    | Out
    | Testing(op: Op)
    | WantLock(op: Op)
    | Locked(op: Op)
    | CopyingOut(count: int, n: int, out: seq<byte>)
    | CopyingIn(data: seq<byte>, n: int, k: nat)
    | Leaving(ret: Ret)

  /** A call in the history: admitted past the tests at its entry or refused there, begun by action
      number begin, and placed in the history by action number at. */
  datatype Entry = Entry(h: Handle, op: Op, admitted: bool, begin: nat, at: nat)

  /** What a call returned, and the number of the action by which it did. */
  datatype Reply = Reply(ret: Ret, time: nat)

  /** The device and the history the theorems speak about: the number of actions so far, when each
      handle began its latest call, every call in the order of the moments that decide it (a refused
      call's test, an admitted call's first step under the mutex), which of them owns the mutex, and
      the replies of those that returned. */
  datatype Dev = Dev(
    store: Store, mux: Option<Handle>, pcs: map<Handle, Pc>,
    start: Store, now: nat, since: map<Handle, nat>,
    log: seq<Entry>, current: nat, replies: map<nat, Reply>)

  datatype Action = Enter(h: Handle, op: Op) | Step(h: Handle)

  function Init(s: Store): Dev {
    Dev(s, None, map[], s, 0, map[], [], 0, map[])
  }

  function At(d: Dev, h: Handle): Pc {
    if h in d.pcs then d.pcs[h] else Out
  }

  function Since(d: Dev, h: Handle): nat {
    if h in d.since then d.since[h] else 0
  }

  function Goto(d: Dev, h: Handle, pc: Pc): Dev {
    d.(pcs := d.pcs[h := pc])
  }

  predicate Holds(pc: Pc) {
    !pc.Out? && !pc.Testing? && !pc.WantLock?
  }

  /* ----- steps ----- */

  predicate Enabled(d: Dev, a: Action) {
    match a
    case Enter(h, op) => At(d, h).Out? && OpOk(op)
    case Step(h) => !At(d, h).Out? && (At(d, h).WantLock? ==> d.mux.None?)
  }

  /** The byte that the owner's step copies lies inside the buffer. */
  predicate CopyInBounds(s: Store, h: Handle, pc: Pc) {
    match pc
    case CopyingOut(_, n, out) => |out| < n ==> 0 <= s.Pos(h) + |out| < |s.buf|
    case CopyingIn(data, n, k) => k < n ==> k < |data| && 0 <= s.Pos(h) + k < |s.buf|
    case _ => true
  }

  /** Required of every step; CopiesStayInside shows that it never fails. */
  predicate InBounds(d: Dev, a: Action) {
    a.Step? ==> CopyInBounds(d.store, a.h, At(d, a.h))
  }

  function MovePos(s: Store, h: Handle, n: int): Store {
    s.(pos := s.pos[h := s.Pos(h) + n])
  }

  /** What a call does first once it owns the mutex. */
  function Begin(s: Store, h: Handle, op: Op): (Store, Pc) {
    var p, len := s.Pos(h), |s.buf|;
    match op
    case Read(count) => (s, CopyingOut(count, Clamp(p, count, len), []))
    case Write(data) => (s, CopyingIn(data, Clamp(p, |data|, len), 0))
    case Seek(offset, whence) =>
      (match Llseek(len, p, offset, whence)
       case None => (s, Leaving(Einval))
       case Some(q) => (s.(pos := s.pos[h := q]), Leaving(Moved(q))))
    case SetRdonly(value) => (s.(readOnly := value), Leaving(Done))
    case GetInfo => (s, Leaving(Flag(s.readOnly)))
    case UnknownIoctl => (s, Leaving(NoIoctlCmd))
    case ForeignIoctl => (s, Leaving(Einval))
  }

  /** And what it does after that, one byte or one position at a time. */
  function Inside(s: Store, h: Handle, pc: Pc): (Store, Pc)
    requires CopyInBounds(s, h, pc)
  {
    var p := s.Pos(h);
    match pc
    case CopyingOut(count, n, out) =>
      if |out| < n then (s, CopyingOut(count, n, out + [s.buf[p + |out|]]))
      else (MovePos(s, h, n), Leaving(Data(out)))
    case CopyingIn(data, n, k) =>
      if k < n then (s.(buf := s.buf[p + k := data[k]]), CopyingIn(data, n, k + 1))
      else (MovePos(s, h, n), Leaving(Wrote(k)))
    case _ => (s, pc)
  }

  predicate TestedFirst(op: Op) {
    op.Write? || op.ForeignIoctl?
  }

  function Place(d: Dev, h: Handle, op: Op, admitted: bool): Dev {
    d.(log := d.log + [Entry(h, op, admitted, Since(d, h), d.now)])
  }

  function Answer(d: Dev, k: nat, ret: Ret): Dev {
    d.(replies := d.replies[k := Reply(ret, d.now)])
  }

  function StepHandle(d: Dev, h: Handle): Dev
    requires CopyInBounds(d.store, h, At(d, h))
  {
    match At(d, h)
    case Testing(op) =>
      if Refused(d.store, op) then Goto(Answer(Place(d, h, op, false), |d.log|, Einval), h, Out)
      else Goto(d, h, WantLock(op))
    case WantLock(op) => Goto(d.(mux := Some(h)), h, Locked(op))
    case Locked(op) =>
      var (s, pc) := Begin(d.store, h, op);
      Goto(Place(d, h, op, true).(store := s, current := |d.log|), h, pc)
    case Leaving(ret) => Goto(Answer(d, d.current, ret).(mux := None), h, Out)
    case _ =>
      var (s, pc) := Inside(d.store, h, At(d, h));
      Goto(d.(store := s), h, pc)
  }

  function Apply(d: Dev, a: Action): Dev
    requires Enabled(d, a) && InBounds(d, a)
  {
    match a
    case Enter(h, op) =>
      Goto(d.(since := d.since[h := d.now], now := d.now + 1), h, if TestedFirst(op) then Testing(op) else WantLock(op))
    case Step(h) => StepHandle(d, h).(now := d.now + 1)
  }

  /* ----- behaviours ----- */

  predicate Next(d: Dev, a: Action, d': Dev) {
    Enabled(d, a) && InBounds(d, a) && d' == Apply(d, a)
  }

  ghost predicate Behavior(s: Store, ds: seq<Dev>, acts: seq<Action>) {
    && s.Valid()
    && |ds| == |acts| + 1 && ds[0] == Init(s)
    && forall i: nat | i < |acts| :: NextAt(ds, acts, i)
  }

  predicate NextAt(ds: seq<Dev>, acts: seq<Action>, i: nat)
    requires |ds| == |acts| + 1 && i < |acts|
  {
    Next(ds[i], acts[i], ds[i + 1])
  }

  /* ----- the atomic meaning of a history ----- */

  predicate LogOk(log: seq<Entry>) {
    forall k | 0 <= k < |log| :: OpOk(log[k].op)
  }

  /** An admitted call from its lock to its unlock, in one piece; a refused one does nothing. */
  function Take(s: Store, e: Entry): (r: (Store, Ret))
    requires s.Valid() && OpOk(e.op)
    ensures r.0.Valid() && |r.0.buf| == |s.buf|
  {
    if e.admitted then Commit(s, e.h, e.op) else (s, Einval)
  }

  /** The store after the first k calls, one after the other. */
  function After(s: Store, log: seq<Entry>, k: nat): (r: Store)
    requires s.Valid() && LogOk(log) && k <= |log|
    ensures r.Valid() && |r.buf| == |s.buf|
  {
    if k == 0 then s else Take(After(s, log, k - 1), log[k - 1]).0
  }

  function Outcome(s: Store, log: seq<Entry>, k: nat): Ret
    requires s.Valid() && LogOk(log) && k < |log|
  {
    Take(After(s, log, k), log[k]).1
  }

  lemma {:induction false} AfterPrefix(s: Store, log: seq<Entry>, e: Entry, k: nat)
    requires s.Valid() && LogOk(log) && OpOk(e.op) && k <= |log|
    ensures LogOk(log + [e]) && After(s, log + [e], k) == After(s, log, k)
  {
    if k > 0 {
      AfterPrefix(s, log, e, k - 1);
    }
  }

  lemma OutcomePrefix(s: Store, log: seq<Entry>, e: Entry, k: nat)
    requires s.Valid() && LogOk(log) && OpOk(e.op) && k < |log|
    ensures LogOk(log + [e]) && Outcome(s, log + [e], k) == Outcome(s, log, k)
  {
    AfterPrefix(s, log, e, k);
  }

  lemma AfterLast(s: Store, log: seq<Entry>, e: Entry)
    requires s.Valid() && LogOk(log) && OpOk(e.op)
    ensures LogOk(log + [e])
    ensures After(s, log + [e], |log| + 1) == Take(After(s, log, |log|), e).0
    ensures Outcome(s, log + [e], |log|) == Take(After(s, log, |log|), e).1
  {
    AfterPrefix(s, log, e, |log|);
  }

  /** Refused calls change nothing. */
  lemma {:induction false} AfterRefusals(s: Store, log: seq<Entry>, k: nat, n: nat)
    requires s.Valid() && LogOk(log) && k <= n <= |log|
    requires forall m | k <= m < n :: !log[m].admitted
    ensures After(s, log, n) == After(s, log, k)
    decreases n
  {
    if k < n {
      AfterRefusals(s, log, k, n - 1);
    }
  }

  /* ----- the invariant ----- */

  predicate PcOk(pc: Pc) {
    match pc
    case Testing(op) => OpOk(op) && TestedFirst(op)
    case WantLock(op) => OpOk(op) && !op.ForeignIoctl?
    case Locked(op) => OpOk(op) && !op.ForeignIoctl?
    case _ => true
  }

  ghost predicate Threads(d: Dev) {
    && (forall h: Handle :: Holds(At(d, h)) <==> d.mux == Some(h))
    && (forall h: Handle :: PcOk(At(d, h)))
  }

  /** The owner has taken its first step under the mutex, so its call is in the history. */
  predicate Underway(d: Dev) {
    d.mux.Some? && !At(d, d.mux.value).Locked?
  }

  /** The store is base with the first part of call (h, op) carried out, as far as pc says. */
  ghost predicate Partly(base: Store, h: Handle, op: Op, store: Store, pc: Pc)
    requires base.Valid() && OpOk(op)
  {
    var p, len := base.Pos(h), |base.buf|;
    match pc
    case CopyingOut(count, n, out) =>
      && op == Read(count) && n == Min(count, len - p) && store == base
      && |out| <= n && out == base.buf[p..p + |out|]
    case CopyingIn(data, n, k) =>
      && op == Write(data) && n == Min(|data|, len - p) && k <= n
      && store == base.(buf := Splice(base.buf, p, data[..k]))
    case Leaving(ret) => (store, ret) == Commit(base, h, op)
    case _ => false
  }

  /** The store is what the calls of the history made of it; of the last admitted one only a part
      while it is under way. */
  ghost predicate Explained(d: Dev)
    requires d.start.Valid() && LogOk(d.log)
  {
    if Underway(d) then
      && d.current < |d.log| && d.log[d.current].admitted && d.log[d.current].h == d.mux.value
      && (forall m | d.current < m < |d.log| :: !d.log[m].admitted)
      && Partly(After(d.start, d.log, d.current), d.mux.value, d.log[d.current].op, d.store, At(d, d.mux.value))
    else d.store == After(d.start, d.log, |d.log|)
  }

  /** Every call of the history but the one under way has its reply, and it is the atomic one. */
  ghost predicate Answered(d: Dev)
    requires d.start.Valid() && LogOk(d.log)
  {
    && (forall k: nat :: k in d.replies <==> k < |d.log| && !(Underway(d) && k == d.current))
    && (forall k: nat | k < |d.log| && k in d.replies :: d.replies[k].ret == Outcome(d.start, d.log, k))
  }

  /** Whoever was refused found the flag set, or had a foreign command. */
  ghost predicate Judged(s: Store, log: seq<Entry>)
    requires s.Valid() && LogOk(log)
  {
    forall k: nat | k < |log| :: JudgedAt(s, log, k)
  }

  predicate JudgedAt(s: Store, log: seq<Entry>, k: nat)
    requires s.Valid() && LogOk(log) && k < |log|
  {
    Fair(After(s, log, k), log[k])
  }

  predicate Fair(s: Store, e: Entry) {
    if e.admitted then !e.op.ForeignIoctl? else Refused(s, e.op)
  }

  ghost predicate Inv(d: Dev) {
    && d.start.Valid() && LogOk(d.log) && |d.store.buf| == |d.start.buf|
    && Threads(d) && Explained(d) && Answered(d) && Judged(d.start, d.log)
  }

  lemma InitInv(s: Store)
    requires s.Valid()
    ensures Inv(Init(s))
  {
    assert forall h: Handle :: At(Init(s), h) == Out;
  }

  lemma ThreadsMove(d: Dev, d': Dev, h: Handle, pc: Pc)
    requires Threads(d) && d'.pcs == d.pcs[h := pc] && PcOk(pc)
    requires d'.mux == (if Holds(pc) then Some(h) else if d.mux == Some(h) then None else d.mux)
    requires Holds(pc) ==> d.mux == None || d.mux == Some(h)
    ensures Threads(d')
  {
    forall g: Handle
      ensures (Holds(At(d', g)) <==> d'.mux == Some(g)) && PcOk(At(d', g))
    {
      assert (Holds(At(d, g)) <==> d.mux == Some(g)) && PcOk(At(d, g));
    }
  }

  /** In every reachable state each byte copied lies inside the buffer. */
  lemma CopiesStayInside(d: Dev, a: Action)
    requires Inv(d) && Enabled(d, a)
    ensures InBounds(d, a)
  {
    if a.Step? {
      assert Holds(At(d, a.h)) <==> d.mux == Some(a.h);
    }
  }

  lemma PartlyFlag(base: Store, h: Handle, op: Op, s: Store, pc: Pc)
    requires base.Valid() && OpOk(op) && Partly(base, h, op, s, pc)
    ensures s.readOnly == Commit(base, h, op).0.readOnly
  {}

  /** While a call is under way the flag is already what the history makes of it. */
  lemma FlagIsCurrent(d: Dev)
    requires Inv(d)
    ensures d.store.readOnly == After(d.start, d.log, |d.log|).readOnly
  {
    if Underway(d) {
      var base, e := After(d.start, d.log, d.current), d.log[d.current];
      AfterRefusals(d.start, d.log, d.current + 1, |d.log|);
      PartlyFlag(base, e.h, e.op, d.store, At(d, e.h));
      assert After(d.start, d.log, d.current + 1) == Take(base, e).0;
    }
  }

  lemma JudgedAppend(s: Store, log: seq<Entry>, e: Entry)
    requires s.Valid() && LogOk(log) && OpOk(e.op) && Judged(s, log) && Fair(After(s, log, |log|), e)
    ensures LogOk(log + [e]) && Judged(s, log + [e])
  {
    forall k: nat | k < |log + [e]|
      ensures LogOk(log + [e]) && JudgedAt(s, log + [e], k)
    {
      AfterPrefix(s, log, e, k);
      assert k < |log| ==> JudgedAt(s, log, k);
    }
  }

  /** One more entry leaves the replies to the others right. */
  lemma RepliesStayRight(d: Dev, d': Dev, e: Entry)
    requires d.start.Valid() && LogOk(d.log) && Answered(d) && OpOk(e.op)
    requires d'.start == d.start && d'.log == d.log + [e]
    requires forall k: nat | k < |d.log| && k in d'.replies :: k in d.replies && d'.replies[k] == d.replies[k]
    ensures LogOk(d'.log)
    ensures forall k: nat | k < |d.log| && k in d'.replies :: d'.replies[k].ret == Outcome(d'.start, d'.log, k)
  {
    forall k: nat | k < |d.log| && k in d'.replies
      ensures LogOk(d'.log) && d'.replies[k].ret == Outcome(d'.start, d'.log, k)
    {
      OutcomePrefix(d.start, d.log, e, k);
    }
    assert OpOk(e.op);
  }

  /** Steps that neither place a call nor touch the store. */
  lemma QuietKeepsInv(d: Dev, a: Action)
    requires Inv(d) && Enabled(d, a) && InBounds(d, a)
    requires a.Enter? || At(d, a.h).WantLock? || (At(d, a.h).Testing? && !Refused(d.store, At(d, a.h).op))
    ensures Inv(Apply(d, a))
  {
    var d' := Apply(d, a);
    assert (Holds(At(d, a.h)) <==> d.mux == Some(a.h)) && PcOk(At(d, a.h));
    ThreadsMove(d, d', a.h, At(d', a.h));
    if d.mux.Some? {
      assert At(d', d.mux.value) == At(d, d.mux.value);
    }
  }

  /** The device after a refusal. */
  function AfterRefusal(d: Dev, h: Handle, e: Entry): Dev {
    d.(log := d.log + [e], replies := d.replies[|d.log| := Reply(Einval, d.now)],
       pcs := d.pcs[h := Out], now := d.now + 1)
  }

  lemma RefusalKeepsOwner(d: Dev, h: Handle, e: Entry)
    requires Threads(d) && At(d, h).Testing?
    ensures Underway(AfterRefusal(d, h, e)) <==> Underway(d)
    ensures d.mux.Some? ==> At(AfterRefusal(d, h, e), d.mux.value) == At(d, d.mux.value)
  {
    assert Holds(At(d, h)) <==> d.mux == Some(h);
  }

  lemma RefusalKeepsStore(d: Dev, h: Handle, e: Entry)
    requires d.start.Valid() && LogOk(d.log) && OpOk(e.op) && !e.admitted
    requires Threads(d) && At(d, h).Testing? && Explained(d)
    ensures LogOk(d.log + [e]) && Explained(AfterRefusal(d, h, e))
  {
    RefusalKeepsOwner(d, h, e);
    AfterLast(d.start, d.log, e);
    if Underway(d) {
      AfterPrefix(d.start, d.log, e, d.current);
    }
  }

  lemma RefusalKeepsReplies(d: Dev, h: Handle, e: Entry)
    requires d.start.Valid() && LogOk(d.log) && OpOk(e.op) && !e.admitted
    requires Threads(d) && At(d, h).Testing? && Answered(d) && (Underway(d) ==> d.current < |d.log|)
    ensures LogOk(d.log + [e]) && Answered(AfterRefusal(d, h, e))
  {
    var d', n := AfterRefusal(d, h, e), |d.log|;
    RefusalKeepsOwner(d, h, e);
    RepliesStayRight(d, d', e);
    AfterLast(d.start, d.log, e);
    forall k: nat
      ensures k in d'.replies <==> k < |d'.log| && !(Underway(d') && k == d'.current)
      ensures k < |d'.log| && k in d'.replies ==> d'.replies[k].ret == Outcome(d'.start, d'.log, k)
    {
      assert k != n ==> (k in d'.replies <==> k in d.replies);
    }
  }

  /** A refusal enters the history with its reply, after whatever is under way. */
  lemma RefusalKeepsInv(d: Dev, h: Handle)
    requires Inv(d) && Enabled(d, Step(h)) && InBounds(d, Step(h))
    requires At(d, h).Testing? && Refused(d.store, At(d, h).op)
    ensures Inv(Apply(d, Step(h)))
  {
    var d' := Apply(d, Step(h));
    var e := Entry(h, At(d, h).op, false, Since(d, h), d.now);
    assert (Holds(At(d, h)) <==> d.mux == Some(h)) && PcOk(At(d, h));
    ThreadsMove(d, d', h, Out);
    FlagIsCurrent(d);
    JudgedAppend(d.start, d.log, e);
    RefusalKeepsStore(d, h, e);
    RefusalKeepsReplies(d, h, e);
    assert d' == AfterRefusal(d, h, e);
  }

  lemma BeginIsPartly(base: Store, h: Handle, op: Op)
    requires base.Valid() && OpOk(op)
    ensures Partly(base, h, op, Begin(base, h, op).0, Begin(base, h, op).1)
  {
    assert Splice(base.buf, base.Pos(h), []) == base.buf;
  }

  /** An admitted call enters the history with its first step under the mutex. */
  lemma BeginKeepsInv(d: Dev, h: Handle)
    requires Inv(d) && Enabled(d, Step(h)) && InBounds(d, Step(h)) && At(d, h).Locked?
    ensures Inv(Apply(d, Step(h)))
  {
    var d', op := Apply(d, Step(h)), At(d, h).op;
    var e := Entry(h, op, true, Since(d, h), d.now);
    assert (Holds(At(d, h)) <==> d.mux == Some(h)) && PcOk(At(d, h));
    ThreadsMove(d, d', h, At(d', h));
    RepliesStayRight(d, d', e);
    AfterPrefix(d.start, d.log, e, |d.log|);
    JudgedAppend(d.start, d.log, e);
    BeginIsPartly(d.store, h, op);
  }

  lemma SpliceOneMore(buf: seq<byte>, p: nat, data: seq<byte>, k: nat)
    requires k < |data| && p + k < |buf|
    ensures Splice(buf, p, data[..k])[p + k := data[k]] == Splice(buf, p, data[..k + 1])
  {}

  lemma CopyInIsPartly(base: Store, h: Handle, op: Op, s: Store, pc: Pc)
    requires base.Valid() && OpOk(op) && Partly(base, h, op, s, pc) && CopyInBounds(s, h, pc) && pc.CopyingIn?
    ensures var (s', pc') := Inside(s, h, pc);
            Partly(base, h, op, s', pc') && Holds(pc') && |s'.buf| == |base.buf|
  {
    if pc.k < pc.n {
      SpliceOneMore(base.buf, base.Pos(h), pc.data, pc.k);
    }
  }

  /** An owner's step carries its call out a little further, and no further than Commit. */
  lemma InsideKeepsPartly(base: Store, h: Handle, op: Op, s: Store, pc: Pc)
    requires base.Valid() && OpOk(op) && Partly(base, h, op, s, pc) && CopyInBounds(s, h, pc)
    ensures var (s', pc') := Inside(s, h, pc);
            Partly(base, h, op, s', pc') && Holds(pc') && |s'.buf| == |base.buf|
  {
    if pc.CopyingIn? {
      CopyInIsPartly(base, h, op, s, pc);
    }
  }

  lemma InsideKeepsInv(d: Dev, h: Handle)
    requires Inv(d) && Enabled(d, Step(h)) && InBounds(d, Step(h))
    requires At(d, h).CopyingOut? || At(d, h).CopyingIn?
    ensures Inv(Apply(d, Step(h)))
  {
    var d' := Apply(d, Step(h));
    assert Holds(At(d, h)) <==> d.mux == Some(h);
    InsideKeepsPartly(After(d.start, d.log, d.current), h, d.log[d.current].op, d.store, At(d, h));
    ThreadsMove(d, d', h, At(d', h));
  }

  lemma UnlockKeepsInv(d: Dev, h: Handle)
    requires Inv(d) && Enabled(d, Step(h)) && InBounds(d, Step(h)) && At(d, h).Leaving?
    ensures Inv(Apply(d, Step(h)))
  {
    var d' := Apply(d, Step(h));
    assert Holds(At(d, h)) <==> d.mux == Some(h);
    AfterRefusals(d.start, d.log, d.current + 1, |d.log|);
    ThreadsMove(d, d', h, At(d', h));
  }

  lemma NextKeepsInv(d: Dev, a: Action, d': Dev)
    requires Inv(d) && Next(d, a, d')
    ensures Inv(d') && d'.start == d.start
  {
    if a.Enter? {
      QuietKeepsInv(d, a);
    } else {
      match At(d, a.h)
      case Testing(op) => if Refused(d.store, op) { RefusalKeepsInv(d, a.h); } else { QuietKeepsInv(d, a); }
      case WantLock(_) => QuietKeepsInv(d, a);
      case Locked(_) => BeginKeepsInv(d, a.h);
      case Leaving(_) => UnlockKeepsInv(d, a.h);
      case _ => InsideKeepsInv(d, a.h);
    }
  }
}

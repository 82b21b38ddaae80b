/** A run that no serial order of whole calls explains: a write overtaken by SET_RDONLY commits, after
    the handle that set the flag has seen that the write had not happened. */
module MuxWitness {
  import opened Wrappers
  import opened Bytes
  import opened MemSpec
  import opened MuxMachine
  import opened MuxFlag

  /* ----- what each handle sees ----- */

  datatype Event = Event(h: Handle, op: Op, ret: Ret)

  /** The calls of a device at rest, with what they returned. */
  function Happened(d: Dev): (events: seq<Event>)
    requires forall k: nat | k < |d.log| :: k in d.replies
    ensures |events| == |d.log|
  {
    seq(|d.log|, k requires 0 <= k < |d.log| => Event(d.log[k].h, d.log[k].op, d.replies[k].ret))
  }

  function SerialEvents(s: Store, calls: seq<Call>): (events: seq<Event>)
    requires s.Valid() && CallsOk(calls)
    ensures |events| == |calls|
  {
    seq(|calls|, k requires 0 <= k < |calls| => Event(calls[k].0, calls[k].1, SerialRet(s, calls, k)))
  }

  /** What handle h called and got, in its own order. */
  function Seen(events: seq<Event>, h: Handle): seq<Event> {
    if events == [] then []
    else
      var last := |events| - 1;
      Seen(events[..last], h) + if events[last].h == h then [events[last]] else []
  }

  /** Some serial run of whole calls looks the same to every handle. */
  ghost predicate Serializable(s: Store, events: seq<Event>)
    requires s.Valid()
  {
    exists calls: seq<Call> | CallsOk(calls) :: LooksLike(s, calls, events)
  }

  ghost predicate LooksLike(s: Store, calls: seq<Call>, events: seq<Event>)
    requires s.Valid() && CallsOk(calls)
  {
    forall h: Handle :: Seen(SerialEvents(s, calls), h) == Seen(events, h)
  }

  /** Without late writes the history itself, in the order of its entries, is such a run. */
  lemma NeverLateIsSerializable(s: Store, ds: seq<Dev>, acts: seq<Action>, i: nat)
    requires Behavior(s, ds, acts) && i < |ds| && ds[i].mux.None? && NeverLate(ds, acts, i)
    ensures (forall k: nat | k < |ds[i].log| :: k in ds[i].replies) && Serializable(s, Happened(ds[i]))
  {
    var d := ds[i];
    SerialExactlyWhenNeverLate(s, ds, acts, i);
    assert SerialEvents(s, Calls(d.log)) == Happened(d);
    assert LooksLike(s, Calls(d.log), Happened(d));
  }

  /* ----- two handles ----- */

  /** No handle but 0 and 1 saw anything. */
  ghost predicate OnlyTwo(events: seq<Event>) {
    forall h: Handle | h > 1 :: Seen(events, h) == []
  }

  /** The last event is the last that its handle saw. */
  lemma SplitLast(events: seq<Event>)
    requires OnlyTwo(events)
    ensures |events| > 0 <==> Seen(events, 0) != [] || Seen(events, 1) != []
    ensures |events| > 0 ==>
              var last, cut := events[|events| - 1], events[..|events| - 1];
              var own := Seen(events, last.h);
              && OnlyTwo(cut) && events == cut + [last] && last.h <= 1
              && own != [] && last == own[|own| - 1] && Seen(cut, last.h) == own[..|own| - 1]
              && Seen(cut, 1 - last.h) == Seen(events, 1 - last.h)
  {
    if |events| > 0 {
      var last, cut := events[|events| - 1], events[..|events| - 1];
      assert Seen(events, last.h) != [];
      forall h: Handle | h > 1
        ensures Seen(cut, h) == []
      {
        assert Seen(events, h) == [];
      }
    }
  }

  lemma {:induction false} OnlyOne(events: seq<Event>, h: Handle)
    requires OnlyTwo(events) && h <= 1 && Seen(events, 1 - h) == []
    ensures events == Seen(events, h)
    decreases |events|
  {
    SplitLast(events);
    if |events| > 0 {
      OnlyOne(events[..|events| - 1], h);
    }
  }

  lemma TwoOrders(events: seq<Event>, w: Event, x: Event)
    requires OnlyTwo(events) && Seen(events, 0) == [w] && Seen(events, 1) == [x]
    ensures events == [w, x] || events == [x, w]
  {
    SplitLast(events);
    OnlyOne(events[..|events| - 1], 1 - events[|events| - 1].h);
  }

  /** One event of handle 0 can stand in three places among two of handle 1. */
  lemma ThreeOrders(events: seq<Event>, w: Event, x: Event, y: Event)
    requires OnlyTwo(events) && Seen(events, 0) == [w] && Seen(events, 1) == [x, y]
    ensures events == [w, x, y] || events == [x, w, y] || events == [x, y, w]
  {
    SplitLast(events);
    var cut := events[..|events| - 1];
    if events[|events| - 1].h == 0 {
      OnlyOne(cut, 1);
    } else {
      TwoOrders(cut, w, x);
    }
  }

  /** What the run below shows: handle 1 sets the flag and then reads the old byte of the cell that
      handle 0 writes. */
  function Overtaking(was: byte, b: byte): seq<Event> {
    [Event(1, SetRdonly(1), Done), Event(1, Read(1), Data([was])), Event(0, Write([b]), Wrote(1))]
  }

  lemma SerialOfThree(s: Store, calls: seq<Call>)
    requires s.Valid() && CallsOk(calls) && |calls| == 3
    ensures SerialStore(s, calls, 1) == Serve(s, calls[0].0, calls[0].1).0
    ensures SerialStore(s, calls, 2) == Serve(SerialStore(s, calls, 1), calls[1].0, calls[1].1).0
  {
    assert calls[..0] == [];
    SerialStep(s, calls, 0);
    SerialStep(s, calls, 1);
  }

  lemma WriteIsSeen(s: Store, b: byte, calls: seq<Call>)
    requires s.Valid() && CallsOk(calls) && s.readOnly == 0 && s.Pos(0) == s.Pos(1) < |s.buf|
    requires |calls| == 3 && calls[0] == (0, Write([b])) && calls[1] == (1, SetRdonly(1)) && calls[2] == (1, Read(1))
    ensures SerialRet(s, calls, 2) == Data([b])
  {
    SerialOfThree(s, calls);
    var s1 := Serve(s, 0, Write([b])).0;
    assert s1.buf[s.Pos(0)] == b && s1.Pos(1) == s.Pos(1);
  }

  lemma WriteIsRefused(s: Store, calls: seq<Call>, k: nat)
    requires s.Valid() && CallsOk(calls) && |calls| == 3 && calls[0] == (1, SetRdonly(1))
    requires k == 1 || (k == 2 && calls[1].1.Read?)
    requires calls[k].1.Write?
    ensures SerialRet(s, calls, k) == Einval
  {
    SerialOfThree(s, calls);
  }

  /** Served whole, the write is refused after SET_RDONLY, and before it the read sees its byte. */
  lemma NoSerialOrder(s: Store, b: byte, calls: seq<Call>)
    requires s.Valid() && CallsOk(calls) && s.readOnly == 0
    requires s.Pos(0) == s.Pos(1) < |s.buf| && s.buf[s.Pos(0)] != b
    ensures !LooksLike(s, calls, Overtaking(s.buf[s.Pos(0)], b))
  {
    var run := Overtaking(s.buf[s.Pos(0)], b);
    var events := SerialEvents(s, calls);
    SeenOfThree(run[0], run[1], run[2]);
    if LooksLike(s, calls, run) {
      assert OnlyTwo(events) by {
        forall h: Handle | h > 1
          ensures Seen(events, h) == []
        {
          assert Seen(run, h) == [];
        }
      }
      ThreeOrders(events, run[2], run[0], run[1]);
      forall k | 0 <= k < 3
        ensures (calls[k].0, calls[k].1, SerialRet(s, calls, k)) == (events[k].h, events[k].op, events[k].ret)
      {}
      if events[0] == run[2] {
        WriteIsSeen(s, b, calls);
      } else {
        WriteIsRefused(s, calls, if events[1] == run[2] then 1 else 2);
      }
    }
  }

  lemma SeenOfThree(x: Event, y: Event, w: Event)
    requires x.h == 1 && y.h == 1 && w.h == 0
    ensures Seen([x, y, w], 0) == [w] && Seen([x, y, w], 1) == [x, y]
    ensures forall h: Handle | h > 1 :: Seen([x, y, w], h) == []
  {
    assert [x, y, w][..2] == [x, y] && [x, y][..1] == [x] && [x][..0] == [];
    assert forall h: Handle :: Seen([x], h) == if h == 1 then [x] else [];
    assert forall h: Handle :: Seen([x, y], h) == if h == 1 then [x, y] else [];
  }

  /* ----- the run ----- */

  lemma Extend(s: Store, ds: seq<Dev>, acts: seq<Action>, a: Action) returns (ds': seq<Dev>, acts': seq<Action>)
    requires Behavior(s, ds, acts)
    requires Enabled(ds[|ds| - 1], a) && InBounds(ds[|ds| - 1], a)
    ensures Behavior(s, ds', acts') && ds'[|ds'| - 1] == Apply(ds[|ds| - 1], a)
  {
    ds', acts' := ds + [Apply(ds[|ds| - 1], a)], acts + [a];
    forall i: nat | i < |acts'|
      ensures NextAt(ds', acts', i)
    {
      if i < |acts| {
        assert NextAt(ds, acts, i);
      }
    }
  }

  /** The calls of the history and their replies. */
  ghost predicate Shows(d: Dev, events: seq<Event>) {
    && |d.log| == |events|
    && forall k: nat | k < |events| ::
         k in d.replies && Event(d.log[k].h, d.log[k].op, d.replies[k].ret) == events[k]
  }

  /** At rest, with handle 0 past its test and waiting for the mutex. */
  ghost predicate Waiting(d: Dev, s: Store, b: byte) {
    d.mux.None? && d.store == s && At(d, 0) == WantLock(Write([b])) && At(d, 1) == Out
  }

  /** Handle 0 passes its test, and handle 1 sets the flag before handle 0 gets the mutex. */
  lemma FlagSetAfterTest(s: Store, b: byte) returns (ds: seq<Dev>, acts: seq<Action>)
    requires s.Valid() && s.readOnly == 0
    ensures Behavior(s, ds, acts)
    ensures Waiting(ds[|ds| - 1], s.(readOnly := 1), b)
    ensures Shows(ds[|ds| - 1], [Event(1, SetRdonly(1), Done)])
  {
    ds, acts := [Init(s)], [];
    ds, acts := Extend(s, ds, acts, Enter(0, Write([b])));
    ds, acts := Extend(s, ds, acts, Step(0));
    ds, acts := Extend(s, ds, acts, Enter(1, SetRdonly(1)));
    ds, acts := Extend(s, ds, acts, Step(1));
    ds, acts := Extend(s, ds, acts, Step(1));
    ds, acts := Extend(s, ds, acts, Step(1));
  }

  /** Taking the mutex, and the first step under it. */
  lemma LockAndBegin(s: Store, ds: seq<Dev>, acts: seq<Action>, h: Handle, op: Op)
    returns (ds': seq<Dev>, acts': seq<Action>)
    requires Behavior(s, ds, acts) && ds[|ds| - 1].mux.None? && At(ds[|ds| - 1], h) == WantLock(op) && OpOk(op)
    ensures Behavior(s, ds', acts')
    ensures var d, d' := ds[|ds| - 1], ds'[|ds'| - 1];
            var (t, pc) := Begin(d.store, h, op);
            && d'.mux == Some(h) && d'.store == t && d'.pcs == d.pcs[h := pc] && d'.current == |d.log|
            && d'.log == d.log + [Entry(h, op, true, Since(d, h), d.now + 1)] && d'.replies == d.replies
  {
    ds', acts' := Extend(s, ds, acts, Step(h));
    assert At(ds'[|ds'| - 1], h) == Locked(op);
    ds', acts' := Extend(s, ds', acts', Step(h));
    assert ds'[|ds'| - 1].pcs == ds[|ds| - 1].pcs[h := Begin(ds[|ds| - 1].store, h, op).1];
  }

  /** Copying one byte and moving the position. */
  lemma CopyOneByte(s: Store, ds: seq<Dev>, acts: seq<Action>, h: Handle, b: byte)
    returns (ds': seq<Dev>, acts': seq<Action>)
    requires Behavior(s, ds, acts)
    requires var d := ds[|ds| - 1];
             && d.mux == Some(h) && 0 <= d.store.Pos(h) < |d.store.buf|
             && (At(d, h) == CopyingOut(1, 1, []) || At(d, h) == CopyingIn([b], 1, 0))
    ensures Behavior(s, ds', acts')
    ensures var d, d' := ds[|ds| - 1], ds'[|ds'| - 1];
            var t, p, out := d.store, d.store.Pos(h), At(d, h).CopyingOut?;
            && d'.store == MovePos(if out then t else t.(buf := t.buf[p := b]), h, 1)
            && d'.pcs == d.pcs[h := Leaving(if out then Data([t.buf[p]]) else Wrote(1))]
            && d'.mux == d.mux && d'.log == d.log && d'.replies == d.replies && d'.current == d.current
  {
    var d := ds[|ds| - 1];
    var t, p, out := d.store, d.store.Pos(h), At(d, h).CopyingOut?;
    ds', acts' := Extend(s, ds, acts, Step(h));
    assert At(ds'[|ds'| - 1], h) == if out then CopyingOut(1, 1, [t.buf[p]]) else CopyingIn([b], 1, 1);
    ds', acts' := Extend(s, ds', acts', Step(h));
    assert ds'[|ds'| - 1].pcs == d.pcs[h := Leaving(if out then Data([t.buf[p]]) else Wrote(1))];
  }

  /** Copying one byte, moving the position, and giving the mutex back. */
  lemma CopyAndUnlock(s: Store, ds: seq<Dev>, acts: seq<Action>, h: Handle, b: byte, events: seq<Event>)
    returns (ds': seq<Dev>, acts': seq<Action>)
    requires Behavior(s, ds, acts)
    requires var d := ds[|ds| - 1];
             && d.mux == Some(h) && 0 <= d.store.Pos(h) < |d.store.buf|
             && (At(d, h) == CopyingOut(1, 1, []) || At(d, h) == CopyingIn([b], 1, 0))
             && d.current == |events| == |d.log| - 1
             && Shows(d.(log := d.log[..|events|]), events)
    ensures Behavior(s, ds', acts')
    ensures var d, d' := ds[|ds| - 1], ds'[|ds'| - 1];
            var t, p, e := d.store, d.store.Pos(h), d.log[|events|];
            && d'.mux.None? && d'.pcs == d.pcs[h := Out]
            && d'.store == MovePos(if At(d, h).CopyingOut? then t else t.(buf := t.buf[p := b]), h, 1)
            && Shows(d', events + [Event(e.h, e.op, if At(d, h).CopyingOut? then Data([t.buf[p]]) else Wrote(1))])
  {
    ds', acts' := CopyOneByte(s, ds, acts, h, b);
    ds', acts' := Extend(s, ds', acts', Step(h));
    assert ds'[|ds'| - 1].pcs == ds[|ds| - 1].pcs[h := Out];
  }

  /** Handle 1 reads a byte meanwhile. */
  lemma ReadMeanwhile(s: Store, ds: seq<Dev>, acts: seq<Action>, t: Store, b: byte, events: seq<Event>)
    returns (ds': seq<Dev>, acts': seq<Action>)
    requires Behavior(s, ds, acts) && t.Valid() && t.Pos(1) < |t.buf|
    requires Waiting(ds[|ds| - 1], t, b) && Shows(ds[|ds| - 1], events)
    ensures Behavior(s, ds', acts')
    ensures Waiting(ds'[|ds'| - 1], MovePos(t, 1, 1), b)
    ensures Shows(ds'[|ds'| - 1], events + [Event(1, Read(1), Data([t.buf[t.Pos(1)]]))])
  {
    ds', acts' := Extend(s, ds, acts, Enter(1, Read(1)));
    ds', acts' := LockAndBegin(s, ds', acts', 1, Read(1));
    assert ds'[|ds'| - 1].log[..|events|] == ds[|ds| - 1].log;
    ds', acts' := CopyAndUnlock(s, ds', acts', 1, b, events);
  }

  /** And then handle 0 stores its byte, whatever the flag says by now. */
  lemma WriteAtLast(s: Store, ds: seq<Dev>, acts: seq<Action>, t: Store, b: byte, events: seq<Event>)
    returns (ds': seq<Dev>, acts': seq<Action>)
    requires Behavior(s, ds, acts) && t.Valid() && t.Pos(0) < |t.buf|
    requires Waiting(ds[|ds| - 1], t, b) && Shows(ds[|ds| - 1], events)
    ensures Behavior(s, ds', acts') && ds'[|ds'| - 1].mux.None?
    ensures ds'[|ds'| - 1].store == MovePos(t.(buf := t.buf[t.Pos(0) := b]), 0, 1)
    ensures Shows(ds'[|ds'| - 1], events + [Event(0, Write([b]), Wrote(1))])
  {
    ds', acts' := LockAndBegin(s, ds, acts, 0, Write([b]));
    assert ds'[|ds'| - 1].log[..|events|] == ds[|ds| - 1].log;
    ds', acts' := CopyAndUnlock(s, ds', acts', 0, b, events);
  }

  lemma OvertakingRun(s: Store, b: byte) returns (ds: seq<Dev>, acts: seq<Action>)
    requires s.Valid() && s.readOnly == 0 && s.Pos(0) < |s.buf| && s.Pos(1) < |s.buf|
    ensures Behavior(s, ds, acts)
    ensures var d := ds[|ds| - 1];
            && d.mux.None? && d.store.readOnly == 1 && d.store.buf == s.buf[s.Pos(0) := b]
            && Shows(d, Overtaking(s.buf[s.Pos(1)], b))
  {
    var t := s.(readOnly := 1);
    var e1, e2 := Event(1, SetRdonly(1), Done), Event(1, Read(1), Data([s.buf[s.Pos(1)]]));
    ds, acts := FlagSetAfterTest(s, b);
    ds, acts := ReadMeanwhile(s, ds, acts, t, b, [e1]);
    assert [e1] + [e2] == [e1, e2];
    ds, acts := WriteAtLast(s, ds, acts, MovePos(t, 1, 1), b, [e1, e2]);
    assert [e1, e2] + [Event(0, Write([b]), Wrote(1))] == Overtaking(s.buf[s.Pos(1)], b);
  }

  /** On every writable device with two handles at the same place this can happen: handle 1 sets the
      flag and reads the old byte; then handle 0's write, let through by its test before, still
      stores its byte and reports success. No serial order of whole calls looks like that to both. */
  lemma OvertakenWriteCommits(s: Store, b: byte) returns (ds: seq<Dev>, acts: seq<Action>)
    requires s.Valid() && s.readOnly == 0
    requires s.Pos(0) == s.Pos(1) < |s.buf| && s.buf[s.Pos(0)] != b
    ensures Behavior(s, ds, acts)
    ensures var d := ds[|ds| - 1];
            && d.mux.None? && d.store.readOnly == 1 && d.store.buf == s.buf[s.Pos(0) := b]
            && (forall k: nat | k < |d.log| :: k in d.replies)
            && !Serializable(s, Happened(d))
    ensures !NeverLate(ds, acts, |acts|)
  {
    ds, acts := OvertakingRun(s, b);
    assert Happened(ds[|ds| - 1]) == Overtaking(s.buf[s.Pos(0)], b);
    forall calls: seq<Call> | CallsOk(calls)
      ensures !LooksLike(s, calls, Overtaking(s.buf[s.Pos(0)], b))
    {
      NoSerialOrder(s, b, calls);
    }
    if NeverLate(ds, acts, |acts|) {
      NeverLateIsSerializable(s, ds, acts, |acts|);
    }
  }
}

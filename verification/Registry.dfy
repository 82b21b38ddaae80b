/** The eight device slots, the staged acquisition of kernel resources with its unwinding, and the
    driver that fills and empties the slots from a list of child nodes. The same code serves both
    devices: the interrupt-fed one also arms a timer per slot. */
module Registry {
  import opened Errno
  import opened Wrappers

  const MAX_DEVICES: nat := 8
  const NAME_LEN: nat := 32

  /* ----- the kernel's books ----- */

  datatype Ledger = Ledger(heap: set<nat>, cdevs: set<nat>, devices: set<nat>, timers: map<nat, nat>)

  /** Who holds what. Each release demands that the resource is held, so nothing is ever freed twice;
      Valid, which every primitive keeps, says that an armed timer always finds its buffer alive, so
      an expiry between any two steps is safe. */
  class Kernel {
    var nextBuf: nat
    var heap: set<nat>
    var cdevs: set<nat>
    var devices: set<nat>
    var timers: map<nat, nat>

    ghost predicate Valid()
      reads this
    {
      && (forall b :: b in heap ==> b < nextBuf)
      && (forall i :: i in timers ==> timers[i] in heap)
    }

    ghost function Books(): Ledger
      reads this
    {
      Ledger(heap, cdevs, devices, timers)
    }

    constructor ()
      ensures Valid() && Books() == Ledger({}, {}, {}, map[])
    {
      nextBuf, heap, cdevs, devices, timers := 0, {}, {}, {}, map[];
    }

    method Kzalloc(ok: bool) returns (b: Option<nat>)
      requires Valid()
      modifies this`nextBuf, this`heap
      ensures Valid()
      ensures !ok ==> b == None && heap == old(heap)
      ensures ok ==> b.Some? && b.value !in old(heap) && heap == old(heap) + {b.value}
    {
      if !ok {
        return None;
      }
      b := Some(nextBuf);
      heap, nextBuf := heap + {nextBuf}, nextBuf + 1;
    }

    method Kfree(b: nat)
      requires Valid() && b in heap
      requires forall i :: i in timers ==> timers[i] != b
      modifies this`heap
      ensures Valid() && heap == old(heap) - {b}
    {
      heap := heap - {b};
    }

    method CdevAdd(id: nat, err: int) returns (ret: int)
      requires Valid() && id !in cdevs
      modifies this`cdevs
      ensures Valid() && ret == err && cdevs == old(cdevs) + if err == 0 then {id} else {}
    {
      if err == 0 {
        cdevs := cdevs + {id};
      }
      ret := err;
    }

    method CdevDel(id: nat)
      requires Valid() && id in cdevs
      modifies this`cdevs
      ensures Valid() && cdevs == old(cdevs) - {id}
    {
      cdevs := cdevs - {id};
    }

    method DeviceCreate(id: nat, err: int) returns (ret: int)
      requires Valid() && id !in devices
      modifies this`devices
      ensures Valid() && ret == err && devices == old(devices) + if err == 0 then {id} else {}
    {
      if err == 0 {
        devices := devices + {id};
      }
      ret := err;
    }

    method DeviceDestroy(id: nat)
      requires Valid() && id in devices
      modifies this`devices
      ensures Valid() && devices == old(devices) - {id}
    {
      devices := devices - {id};
    }

    /** The middle of a registration: add the cdev, create the device, and give back everything,
        the buffer included, if one of them fails. */
    method AddDevice(id: nat, b: nat, f: Faults) returns (ret: int)
      requires Valid() && id !in cdevs && id !in devices && b in heap
      requires forall i :: i in timers ==> timers[i] != b
      modifies this`heap, this`cdevs, this`devices
      ensures Valid() && ret == if f.cdevErr != 0 then f.cdevErr else f.deviceErr
      ensures Books() == if ret == 0 then old(Ledger(heap, cdevs + {id}, devices + {id}, timers))
                         else old(Ledger(heap - {b}, cdevs, devices, timers))
    {
      ret := CdevAdd(id, f.cdevErr);
      if ret != 0 {
        Kfree(b);
        return ret;
      }
      ret := DeviceCreate(id, f.deviceErr);
      if ret != 0 {
        CdevDel(id);
        Kfree(b);
        return ret;
      }
    }

    method TimerStart(id: nat, b: nat)
      requires Valid() && id !in timers && b in heap
      modifies this`timers
      ensures Valid() && timers == old(timers)[id := b]
    {
      timers := timers[id := b];
    }

    method TimerCancel(id: nat)
      requires Valid() && id in timers
      modifies this`timers
      ensures Valid() && timers == old(timers) - {id}
    {
      timers := timers - {id};
    }
  }

  /* ----- what the slots mean ----- */

  datatype Slot = Slot(busy: bool, buf: Option<nat>, name: string, id: nat, readOnly: bool)

  datatype Entry = Entry(name: string, readOnly: bool)

  /** Which acquisitions fail, and with what error. */
  datatype Faults = Faults(noMemory: bool, cdevErr: int, deviceErr: int)

  const NO_FAULTS: Faults := Faults(false, 0, 0)

  type View = v: seq<Option<Entry>> | |v| == MAX_DEVICES witness seq(MAX_DEVICES, _ => None)

  function ViewOf(slots: seq<Slot>): View
    requires |slots| == MAX_DEVICES
  {
    seq(MAX_DEVICES, i requires 0 <= i < MAX_DEVICES =>
      ViewOfSlot(slots[i]))
  }

  /** The label as strcmp will read it. A label that fills its array is stored without its end, and is
      read on into what lies behind the array in a busy slot, up to the next zero byte. */
  function Stored(name: string, behind: string): string {
    if |name| < NAME_LEN then name else name[..NAME_LEN] + behind
  }

  /** Nothing fails. */
  predicate Succeeds(f: Faults) {
    !f.noMemory && f.cdevErr == 0 && f.deviceErr == 0
  }

  /** What a registration promises, case by case: ret is 0 exactly when the number is in range, the slot
      was free and every acquisition succeeded, and then the slot is busy under its label; otherwise
      nothing changes, and ret tells the reason. */
  predicate Registered(v: View, w: View, ret: int, name: string, id: nat, readOnly: bool, f: Faults, behind: string) {
    && (ret == 0 <==> id < MAX_DEVICES && v[id].None? && Succeeds(f))
    && (ret == 0 ==>
          && w[id] == Some(Entry(Stored(name, behind), readOnly))
          && forall i | 0 <= i < MAX_DEVICES && i != id :: w[i] == v[i])
    && (ret != 0 ==> w == v)
    && (id >= MAX_DEVICES ==> ret == -EINVAL)
    && (id < MAX_DEVICES && v[id].Some? ==> ret == -EBUSY)
    && (id < MAX_DEVICES && v[id].None? && f.noMemory ==> ret == -ENOMEM)
    && (id < MAX_DEVICES && v[id].None? && !f.noMemory && f.cdevErr != 0 ==> ret == f.cdevErr)
    && (id < MAX_DEVICES && v[id].None? && !f.noMemory && f.cdevErr == 0 && f.deviceErr != 0 ==> ret == f.deviceErr)
  }

  /** Likewise for a release: ret is 0 exactly when the slot was busy under this label, and then it is
      free; otherwise nothing changes and ret is EINVAL. */
  predicate Unregistered(v: View, w: View, ret: int, name: string, id: nat) {
    && (ret == 0 <==> id < MAX_DEVICES && v[id].Some? && v[id].value.name == name)
    && (ret == 0 ==> w[id].None? && forall i | 0 <= i < MAX_DEVICES && i != id :: w[i] == v[i])
    && (ret != 0 ==> ret == -EINVAL && w == v)
  }

  function RegisterSpec(v: View, name: string, id: nat, readOnly: bool, f: Faults, behind: string): (r: (View, int))
    ensures Registered(v, r.0, r.1, name, id, readOnly, f, behind)
  {
    if id >= MAX_DEVICES then (v, -EINVAL)
    else if v[id].Some? then (v, -EBUSY)
    else if f.noMemory then (v, -ENOMEM)
    else if f.cdevErr != 0 then (v, f.cdevErr)
    else if f.deviceErr != 0 then (v, f.deviceErr)
    else (v[id := Some(Entry(Stored(name, behind), readOnly))], 0)
  }

  function UnregisterSpec(v: View, name: string, id: nat): (r: (View, int))
    ensures Unregistered(v, r.0, r.1, name, id)
  {
    if id >= MAX_DEVICES || v[id].None? || v[id].value.name != name then (v, -EINVAL)
    else (v[id := None], 0)
  }

  /** A child node: its reg, label and read-only properties, the first two possibly missing. */
  datatype Child = Child(reg: Option<nat>, name: Option<string>, readOnly: bool)

  predicate Complete(c: Child) {
    c.reg.Some? && c.name.Some?
  }

  predicate NameFits(c: Child) {
    c.name.Some? ==> |c.name.value| < NAME_LEN
  }

  function ProbeOne(v: View, c: Child, f: Faults, behind: string): View {
    if Complete(c) then RegisterSpec(v, c.name.value, c.reg.value, c.readOnly, f, behind).0 else v
  }

  function ProbeChildren(v: View, children: seq<Child>, faults: seq<Faults>, behind: string): View
    requires |faults| == |children|
    decreases |children|
  {
    if children == [] then v
    else
      ProbeChildren(ProbeOne(v, children[0], faults[0], behind), children[1..], faults[1..], behind)
  }

  function ProbeSpec(v: View, children: seq<Child>, faults: seq<Faults>, behind: string): (View, int)
    requires |faults| == |children|
  {
    if |children| == 0 then (v, -ENODEV)
    else if |children| > MAX_DEVICES then (v, -ENOMEM)
    else (ProbeChildren(v, children, faults, behind), 0)
  }

  /** The flag is true when a child without its properties stops the kernel. */
  function RemoveSpec(v: View, children: seq<Child>): (View, bool)
    decreases |children|
  {
    if children == [] then (v, false)
    else if !Complete(children[0]) then (v, true)
    else RemoveSpec(UnregisterSpec(v, children[0].name.value, children[0].reg.value).0, children[1..])
  }

  /* ----- the registry itself ----- */

  class DeviceArray {
    const slots: array<Slot>
    const kernel: Kernel
    const timed: bool
    const behind: string

    /** A slot is busy exactly when its buffer, cdev and device are held (and its timer armed on that
        buffer), and the kernel holds nothing else. */
    ghost predicate Valid()
      reads this, slots, kernel
    {
      && slots.Length == MAX_DEVICES && kernel.Valid()
      && Accounted(slots[..], timed, kernel.Books())
    }

    function View(): View
      requires slots.Length == MAX_DEVICES
      reads this, slots
    {
      ViewOf(slots[..])
    }

    constructor (timed: bool, behind: string)
      ensures Valid() && fresh(slots) && fresh(kernel) && this.timed == timed && this.behind == behind
      ensures forall i | 0 <= i < MAX_DEVICES :: View()[i] == None
    {
      slots := new Slot[MAX_DEVICES](_ => Slot(false, None, "", 0, false));
      kernel := new Kernel();
      this.timed := timed;
      this.behind := behind;
    }

    method Register(name: string, id: nat, readOnly: bool, f: Faults) returns (ret: int)
      requires Valid()
      modifies slots, kernel
      ensures Valid()
      ensures (View(), ret) == RegisterSpec(old(View()), name, id, readOnly, f, behind)
      ensures Registered(old(View()), View(), ret, name, id, readOnly, f, behind)
    {
      if id >= MAX_DEVICES {
        return -EINVAL;
      }
      if slots[id].busy {
        return -EBUSY;
      }
      ghost var before, books := slots[..], kernel.Books();
      var b := kernel.Kzalloc(!f.noMemory);
      slots[id] := slots[id].(buf := b);
      assert slots[..] == before[id := slots[id]];
      IdleSlotIsFree(before, id, slots[id], timed, books);
      if b.None? {
        return -ENOMEM;
      }
      ret := kernel.AddDevice(id, b.value, f);
      if ret != 0 {
        assert kernel.Books() == books;
        return ret;
      }
      InitData(name, id, readOnly, b.value, books);
      ret := 0;
    }

    /** The end of Register, once everything is acquired. */
    method InitData(name: string, id: nat, readOnly: bool, b: nat, ghost books: Ledger)
      requires kernel.Valid() && slots.Length == MAX_DEVICES && id < MAX_DEVICES
      requires Accounted(slots[..], timed, books) && !slots[id].busy && slots[id].buf == Some(b) && b !in books.heap
      requires kernel.Books() == Ledger(books.heap + {b}, books.cdevs + {id}, books.devices + {id}, books.timers)
      modifies slots, kernel
      ensures Valid() && View() == old(View())[id := Some(Entry(Stored(name, behind), readOnly))]
    {
      ghost var before := slots[..];
      slots[id] := slots[id].(id := id, readOnly := readOnly, busy := true, name := Stored(name, behind));
      if timed {
        kernel.TimerStart(id, b);
      }
      assert slots[..] == before[id := slots[id]];
      TakenSlotIsHeld(before, id, slots[id], timed, books);
      assert kernel.Books() == Taken(books, id, b, timed);
    }

    method Unregister(name: string, id: nat) returns (ret: int)
      requires Valid()
      modifies slots, kernel
      ensures Valid()
      ensures (View(), ret) == UnregisterSpec(old(View()), name, id)
      ensures Unregistered(old(View()), View(), ret, name, id)
    {
      if id >= MAX_DEVICES {
        return -EINVAL;
      }
      if !slots[id].busy || slots[id].name != name {
        return -EINVAL;
      }
      ghost var before, books := slots[..], kernel.Books();
      if timed {
        kernel.TimerCancel(id);
      }
      slots[id] := slots[id].(id := 0, busy := false);
      kernel.Kfree(slots[id].buf.value);
      kernel.DeviceDestroy(id);
      kernel.CdevDel(id);
      assert slots[..] == before[id := slots[id]];
      ReleasedSlotIsFree(before, id, slots[id], timed, books);
      assert kernel.Books() == Released(books, id, before[id].buf.value);
      ret := 0;
    }

    /** The driver's probe. Children without both properties are skipped; registration errors are
        reported and otherwise ignored. */
    method Probe(children: seq<Child>, faults: seq<Faults>) returns (ret: int)
      requires Valid() && |faults| == |children|
      modifies slots, kernel
      ensures Valid()
      ensures (View(), ret) == ProbeSpec(old(View()), children, faults, behind)
      ensures ret == 0 <==> 1 <= |children| <= MAX_DEVICES
      ensures ret == -ENODEV <==> |children| == 0
      ensures ret == -ENOMEM <==> |children| > MAX_DEVICES
      ensures ret != 0 ==> View() == old(View())
    {
      var count := |children|;
      if count == 0 {
        return -ENODEV;
      }
      if count > MAX_DEVICES {
        return -ENOMEM;
      }
      var i := 0;
      while i < count
        invariant i <= count && Valid()
        invariant ProbeChildren(View(), children[i..], faults[i..], behind)
               == ProbeChildren(old(View()), children, faults, behind)
      {
        assert children[i..][1..] == children[i + 1..] && faults[i..][1..] == faults[i + 1..];
        var c := children[i];
        i := i + 1;
        if c.reg.None? {
          continue;
        }
        if c.name.None? {
          continue;
        }
        var _ := Register(c.name.value, c.reg.value, c.readOnly, faults[i - 1]);
      }
      ret := 0;
    }

    /** The driver's remove; a child without both properties is a kernel bug and stops it. */
    method Remove(children: seq<Child>) returns (bug: bool)
      requires Valid()
      modifies slots, kernel
      ensures Valid()
      ensures (View(), bug) == RemoveSpec(old(View()), children)
    {
      var i := 0;
      while i < |children|
        invariant i <= |children| && Valid()
        invariant RemoveSpec(View(), children[i..]) == RemoveSpec(old(View()), children)
      {
        assert children[i..][1..] == children[i + 1..];
        var c := children[i];
        if c.reg.None? {
          return true;
        }
        if c.name.None? {
          return true;
        }
        var _ := Unregister(c.name.value, c.reg.value);
        i := i + 1;
      }
      bug := false;
    }

    /** Slot by slot: busy exactly when its cdev and its device are held and, where there are timers, its
        timer is armed; and then its buffer is held, the timer works on that buffer, and no other busy
        slot has it. */
    lemma BusyMeansHeld(i: nat)
      requires Valid() && i < MAX_DEVICES
      ensures slots[i].busy <==> i in kernel.cdevs
      ensures slots[i].busy <==> i in kernel.devices
      ensures timed ==> (slots[i].busy <==> i in kernel.timers)
      ensures !timed ==> i !in kernel.timers
      ensures slots[i].busy ==> slots[i].buf.Some? && slots[i].buf.value in kernel.heap
      ensures slots[i].busy && timed ==> slots[i].buf == Some(kernel.timers[i])
      ensures forall j | 0 <= j < MAX_DEVICES && j != i && slots[i].busy && slots[j].busy ::
                slots[j].buf != slots[i].buf
    {
      assert i in kernel.Books().cdevs <==> slots[..][i].busy;
      assert i in kernel.timers.Keys <==> (timed && i in kernel.cdevs);
      forall j | 0 <= j < MAX_DEVICES && j != i && slots[i].busy && slots[j].busy
        ensures slots[j].buf != slots[i].buf
      {
        assert slots[..][j].buf != slots[..][i].buf;
      }
    }

    /** When no slot is busy the kernel holds nothing for this driver: no leak is possible. */
    lemma AllFreeHoldsNothing()
      requires Valid() && forall i | 0 <= i < MAX_DEVICES :: View()[i] == None
      ensures kernel.Books() == Ledger({}, {}, {}, map[])
    {
      var k := kernel.Books();
      forall i | 0 <= i < MAX_DEVICES
        ensures !slots[i].busy
      {
        assert View()[i] == None;
      }
      assert forall b :: b in k.heap ==> Held(slots[..], b);
      assert k.timers.Keys == {};
    }
  }

  predicate Holder(slots: seq<Slot>, i: int, b: nat) {
    0 <= i < |slots| && slots[i].busy && slots[i].buf == Some(b)
  }

  ghost predicate Held(slots: seq<Slot>, b: nat) {
    exists i :: Holder(slots, i, b)
  }

  /** Slots and ledger agree: what is busy holds its resources, and nothing else is held. */
  ghost predicate Accounted(slots: seq<Slot>, timed: bool, k: Ledger) {
    && |slots| == MAX_DEVICES
    && (forall i | 0 <= i < |slots| && slots[i].busy ::
          slots[i].id == i && slots[i].buf.Some? && slots[i].buf.value in k.heap)
    && (forall i, j | 0 <= i < j < |slots| && slots[i].busy && slots[j].busy :: slots[i].buf != slots[j].buf)
    && (forall b :: b in k.heap ==> Held(slots, b))
    && (forall i :: i in k.cdevs <==> 0 <= i < |slots| && slots[i].busy)
    && k.devices == k.cdevs
    && k.timers.Keys == (if timed then k.cdevs else {})
    && (forall i :: i in k.timers ==> slots[i].buf == Some(k.timers[i]))
  }

  function ViewOfSlot(slot: Slot): Option<Entry> {
    if slot.busy then Some(Entry(slot.name, slot.readOnly)) else None
  }

  function Taken(k: Ledger, id: nat, b: nat, timed: bool): Ledger {
    Ledger(k.heap + {b}, k.cdevs + {id}, k.devices + {id}, if timed then k.timers[id := b] else k.timers)
  }

  function Released(k: Ledger, id: nat, b: nat): Ledger {
    Ledger(k.heap - {b}, k.cdevs - {id}, k.devices - {id}, k.timers - {id})
  }

  lemma HeldElsewhere(slots: seq<Slot>, id: nat, slot: Slot, b: nat)
    requires id < |slots| && Held(slots, b)
    requires slots[id].busy ==> slots[id].buf != Some(b)
    ensures Held(slots[id := slot], b)
  {
    var i :| Holder(slots, i, b);
    assert Holder(slots[id := slot], i, b);
  }

  lemma IdleSlotIsFree(slots: seq<Slot>, id: nat, slot: Slot, timed: bool, k: Ledger)
    requires Accounted(slots, timed, k) && id < |slots| && !slots[id].busy && !slot.busy
    ensures Accounted(slots[id := slot], timed, k)
    ensures ViewOf(slots[id := slot]) == ViewOf(slots)
  {
    forall b | b in k.heap
      ensures Held(slots[id := slot], b)
    {
      HeldElsewhere(slots, id, slot, b);
    }
  }

  lemma TakenSlotIsHeld(slots: seq<Slot>, id: nat, slot: Slot, timed: bool, k: Ledger)
    requires Accounted(slots, timed, k) && id < |slots| && !slots[id].busy
    requires slot.busy && slot.id == id && slot.buf.Some? && slot.buf.value !in k.heap
    ensures Accounted(slots[id := slot], timed, Taken(k, id, slot.buf.value, timed))
    ensures ViewOf(slots[id := slot]) == ViewOf(slots)[id := ViewOfSlot(slot)]
  {
    var s', k' := slots[id := slot], Taken(k, id, slot.buf.value, timed);
    forall b | b in k'.heap
      ensures Held(s', b)
    {
      if b == slot.buf.value {
        assert Holder(s', id, b);
      } else {
        HeldElsewhere(slots, id, slot, b);
      }
    }
  }

  lemma ReleasedSlotIsFree(slots: seq<Slot>, id: nat, slot: Slot, timed: bool, k: Ledger)
    requires Accounted(slots, timed, k) && id < |slots| && slots[id].busy && !slot.busy
    ensures Accounted(slots[id := slot], timed, Released(k, id, slots[id].buf.value))
    ensures ViewOf(slots[id := slot]) == ViewOf(slots)[id := None]
  {
    var s', k' := slots[id := slot], Released(k, id, slots[id].buf.value);
    forall b | b in k'.heap
      ensures Held(s', b)
    {
      HeldElsewhere(slots, id, slot, b);
    }
  }

  /* ----- probe, then remove ----- */

  predicate Names(c: Child, i: nat, name: string) {
    c.reg == Some(i) && c.name == Some(name)
  }

  predicate IsNamed(children: seq<Child>, i: nat, name: string) {
    exists k | 0 <= k < |children| :: Names(children[k], i, name)
  }

  lemma NamedCons(children: seq<Child>, i: nat, name: string)
    requires children != []
    ensures IsNamed(children, i, name) <==> Names(children[0], i, name) || IsNamed(children[1..], i, name)
  {
    if IsNamed(children, i, name) {
      var k :| 0 <= k < |children| && Names(children[k], i, name);
      if k > 0 {
        assert Names(children[1..][k - 1], i, name);
      }
    }
    if IsNamed(children[1..], i, name) {
      var k :| 0 <= k < |children| - 1 && Names(children[1..][k], i, name);
      assert Names(children[k + 1], i, name);
    }
  }

  /** The children that remove gets to: those before the first one without both properties. */
  function Reached(children: seq<Child>): (r: seq<Child>)
    ensures r <= children && (forall k | 0 <= k < |r| :: Complete(r[k]))
    ensures |r| < |children| ==> !Complete(children[|r|])
  {
    if children == [] || !Complete(children[0]) then [] else [children[0]] + Reached(children[1..])
  }

  /** Remove frees exactly the busy slots that some child it gets to names by number and label, and
      stops early exactly when there is a child it does not get to. */
  lemma {:induction false} RemoveFreesNamed(v: View, children: seq<Child>, i: nat)
    requires i < MAX_DEVICES
    ensures RemoveSpec(v, children).1 <==> Reached(children) != children
    ensures RemoveSpec(v, children).0[i] ==
            if v[i].Some? && IsNamed(Reached(children), i, v[i].value.name) then None else v[i]
    decreases |children|
  {
    if children != [] && Complete(children[0]) {
      var v' := UnregisterSpec(v, children[0].name.value, children[0].reg.value).0;
      RemoveFreesNamed(v', children[1..], i);
      assert Reached(children)[1..] == Reached(children[1..]);
      assert children == [children[0]] + children[1..];
      if v[i].Some? {
        NamedCons(Reached(children), i, v[i].value.name);
      }
    }
  }

  predicate Labels(c: Child, i: nat, name: string, behind: string) {
    Complete(c) && c.reg == Some(i) && Stored(c.name.value, behind) == name
  }

  predicate IsLabelled(children: seq<Child>, i: nat, name: string, behind: string) {
    exists k | 0 <= k < |children| :: Labels(children[k], i, name, behind)
  }

  lemma LabelledCons(children: seq<Child>, i: nat, name: string, behind: string)
    requires children != []
    requires Labels(children[0], i, name, behind) || IsLabelled(children[1..], i, name, behind)
    ensures IsLabelled(children, i, name, behind)
  {
    if IsLabelled(children[1..], i, name, behind) {
      var k :| 0 <= k < |children| - 1 && Labels(children[1..][k], i, name, behind);
      assert Labels(children[k + 1], i, name, behind);
    }
  }

  /** Whatever fails, probe never disturbs a busy slot, and fills a free one only for a child with its
      number, whose label it then bears. */
  lemma {:induction false} ProbeFillsForChildren(
    v: View, children: seq<Child>, faults: seq<Faults>, behind: string, i: nat)
    requires |faults| == |children| && i < MAX_DEVICES
    ensures var r := ProbeChildren(v, children, faults, behind)[i];
            if v[i].Some? then r == v[i] else r.Some? ==> IsLabelled(children, i, r.value.name, behind)
    decreases |children|
  {
    if children != [] {
      var v' := ProbeOne(v, children[0], faults[0], behind);
      var r := ProbeChildren(v, children, faults, behind)[i];
      ProbeFillsForChildren(v', children[1..], faults[1..], behind, i);
      if v[i].None? && r.Some? {
        LabelledCons(children, i, r.value.name, behind);
      }
    }
  }

  /* ----- return codes ----- */

  /** Registering fails with a code of its own for each reason, unless an acquisition itself reports
      that code. */
  lemma RegisterCodes(v: View, name: string, id: nat, readOnly: bool, f: Faults, behind: string)
    requires f.cdevErr !in {-EINVAL, -EBUSY, -ENOMEM} && f.deviceErr !in {-EINVAL, -EBUSY, -ENOMEM}
    ensures var (w, ret) := RegisterSpec(v, name, id, readOnly, f, behind);
            && Registered(v, w, ret, name, id, readOnly, f, behind)
            && (ret == -EINVAL <==> id >= MAX_DEVICES)
            && (ret == -EBUSY <==> id < MAX_DEVICES && v[id].Some?)
            && (ret == -ENOMEM <==> id < MAX_DEVICES && v[id].None? && f.noMemory)
  {}

  /* ----- over-long labels ----- */

  /** A label just registered unregisters its slot if and only if it fits its array, or goes on beyond
      it with exactly what lies behind. */
  lemma RegisterThenUnregister(v: View, name: string, id: nat, readOnly: bool, behind: string)
    requires id < MAX_DEVICES && v[id].None?
    ensures var (p, ret) := RegisterSpec(v, name, id, readOnly, NO_FAULTS, behind);
            && ret == 0
            && (UnregisterSpec(p, name, id) == (v, 0) <==> |name| < NAME_LEN || name[NAME_LEN..] == behind)
            && (UnregisterSpec(p, name, id) == (p, -EINVAL) <==> |name| >= NAME_LEN && name[NAME_LEN..] != behind)
  {
    if |name| >= NAME_LEN {
      assert name == name[..NAME_LEN] + name[NAME_LEN..];
      assert Stored(name, behind)[NAME_LEN..] == behind;
    }
    assert v[id := Some(Entry(Stored(name, behind), readOnly))][id := None] == v;
  }

  /* ----- what probe and remove restore ----- */

  /** No slot busy in v is named by a child. */
  ghost predicate SparesBusy(v: View, children: seq<Child>) {
    forall i: nat | i < MAX_DEVICES && v[i].Some? :: !IsNamed(children, i, v[i].value.name)
  }

  /** Some child names this entry of slot i. */
  predicate Undone(p: View, children: seq<Child>, i: nat)
    requires i < MAX_DEVICES
  {
    p[i].Some? ==> IsNamed(children, i, p[i].value.name)
  }

  /** In one run, with the failures it met: probe and then remove over the same children restores the
      registry if and only if the children that remove gets to spare what was busy before and name
      every slot that probe filled. */
  lemma {:induction false} ProbeThenRemove(v: View, children: seq<Child>, faults: seq<Faults>, behind: string)
    requires |faults| == |children|
    ensures var p := ProbeSpec(v, children, faults, behind).0;
            RemoveSpec(p, children).0 == v
            <==> SparesBusy(v, Reached(children))
                 && forall i: nat | i < MAX_DEVICES && v[i].None? :: Undone(p, Reached(children), i)
  {
    var p := ProbeSpec(v, children, faults, behind).0;
    var r := RemoveSpec(p, children).0;
    forall i: nat | i < MAX_DEVICES
      ensures r[i] == v[i] <==>
              if v[i].Some? then !IsNamed(Reached(children), i, v[i].value.name) else Undone(p, Reached(children), i)
    {
      ProbeFillsForChildren(v, children, faults, behind, i);
      RemoveFreesNamed(p, children, i);
    }
    if forall i: nat | i < MAX_DEVICES :: r[i] == v[i] {
      assert r == v;
    }
  }

  /** Child k can fill a slot that is free in v, if the acquisitions let it. */
  predicate MayFill(v: View, c: Child) {
    Complete(c) && c.reg.value < MAX_DEVICES && v[c.reg.value].None?
  }

  /** The label that child c leaves on its slot is the label of a child that remove gets to. */
  predicate MayUndo(children: seq<Child>, c: Child, behind: string)
    requires Complete(c)
  {
    IsNamed(children, c.reg.value, Stored(c.name.value, behind))
  }

  /** What has to hold of the device tree for probe and remove to be safe: no label of a busy slot
      occurs in it, and every child that may fill a slot leaves a label on it that remove will find. */
  ghost predicate TreeIsSafe(v: View, children: seq<Child>, behind: string) {
    && SparesBusy(v, Reached(children))
    && (|children| <= MAX_DEVICES ==>
          forall k | 0 <= k < |children| && MayFill(v, children[k]) :: MayUndo(Reached(children), children[k], behind))
  }

  lemma {:induction false} SafeTreeRestores(v: View, children: seq<Child>, faults: seq<Faults>, behind: string)
    requires |faults| == |children| && TreeIsSafe(v, children, behind)
    ensures RemoveSpec(ProbeSpec(v, children, faults, behind).0, children).0 == v
  {
    var p := ProbeSpec(v, children, faults, behind).0;
    forall i: nat | i < MAX_DEVICES && v[i].None?
      ensures Undone(p, Reached(children), i)
    {
      ProbeFillsForChildren(v, children, faults, behind, i);
      if p[i].Some? {
        var k :| 0 <= k < |children| && Labels(children[k], i, p[i].value.name, behind);
        assert MayFill(v, children[k]);
      }
    }
    ProbeThenRemove(v, children, faults, behind);
  }

  const NO_MEMORY: Faults := Faults(true, 0, 0)

  /** Every acquisition fails but those for child k. */
  function OnlyChild(n: nat, k: nat): (faults: seq<Faults>)
    ensures |faults| == n
  {
    seq(n, j => if j == k then NO_FAULTS else NO_MEMORY)
  }

  lemma {:induction false} NothingIsFilled(v: View, children: seq<Child>, faults: seq<Faults>, behind: string)
    requires |faults| == |children| && forall j | 0 <= j < |faults| :: faults[j] == NO_MEMORY
    ensures ProbeChildren(v, children, faults, behind) == v
    decreases |children|
  {
    if children != [] {
      NothingIsFilled(v, children[1..], faults[1..], behind);
    }
  }

  lemma {:induction false} OnlyChildFills(v: View, children: seq<Child>, k: nat, behind: string)
    requires k < |children| && MayFill(v, children[k])
    ensures var c := children[k];
            ProbeChildren(v, children, OnlyChild(|children|, k), behind)
            == v[c.reg.value := Some(Entry(Stored(c.name.value, behind), c.readOnly))]
    decreases |children|
  {
    var faults := OnlyChild(|children|, k);
    var v' := ProbeOne(v, children[0], faults[0], behind);
    if k == 0 {
      NothingIsFilled(v', children[1..], faults[1..], behind);
    } else {
      assert faults[1..] == OnlyChild(|children| - 1, k - 1);
      OnlyChildFills(v', children[1..], k - 1, behind);
    }
  }

  /** If child k's label would not be found, the run in which only child k succeeds is not undone. */
  lemma {:induction false} UnsafeChildStays(v: View, children: seq<Child>, k: nat, behind: string)
    requires k < |children| <= MAX_DEVICES && MayFill(v, children[k])
    requires !MayUndo(Reached(children), children[k], behind)
    ensures RemoveSpec(ProbeSpec(v, children, OnlyChild(|children|, k), behind).0, children).0 != v
  {
    var p := ProbeSpec(v, children, OnlyChild(|children|, k), behind).0;
    OnlyChildFills(v, children, k, behind);
    assert !Undone(p, Reached(children), children[k].reg.value);
    ProbeThenRemove(v, children, OnlyChild(|children|, k), behind);
  }

  ghost predicate AlwaysRestores(v: View, children: seq<Child>, behind: string) {
    forall faults: seq<Faults> | |faults| == |children| ::
      RemoveSpec(ProbeSpec(v, children, faults, behind).0, children).0 == v
  }

  /** Whatever fails, probe and then remove restores the registry, if and only if the device tree is
      safe. */
  lemma {:induction false} RestoresWhateverFails(v: View, children: seq<Child>, behind: string)
    ensures AlwaysRestores(v, children, behind) <==> TreeIsSafe(v, children, behind)
  {
    if TreeIsSafe(v, children, behind) {
      forall faults: seq<Faults> | |faults| == |children|
        ensures RemoveSpec(ProbeSpec(v, children, faults, behind).0, children).0 == v
      {
        SafeTreeRestores(v, children, faults, behind);
      }
    } else if !SparesBusy(v, Reached(children)) {
      var faults := OnlyChild(|children|, 0);
      ProbeThenRemove(v, children, faults, behind);
    } else {
      var k :| 0 <= k < |children| && MayFill(v, children[k]) && !MayUndo(Reached(children), children[k], behind);
      UnsafeChildStays(v, children, k, behind);
    }
  }

  /** Labels that fit, on complete children, are always found: then only busy slots matter, and an
      all-free registry is all free again. */
  lemma FittingLabelsAreSafe(v: View, children: seq<Child>, behind: string)
    requires forall k | 0 <= k < |children| :: Complete(children[k]) && NameFits(children[k])
    ensures TreeIsSafe(v, children, behind) <==> SparesBusy(v, children)
    ensures forall faults: seq<Faults> | |faults| == |children| ::
              RemoveSpec(ProbeSpec(v, children, faults, behind).0, children).0 == v <==> SparesBusy(v, children)
    ensures (forall i | 0 <= i < MAX_DEVICES :: v[i].None?) ==> AlwaysRestores(v, children, behind)
  {
    assert Reached(children) == children;
    forall k | 0 <= k < |children| && MayFill(v, children[k])
      ensures MayUndo(children, children[k], behind)
    {
      assert Names(children[k], children[k].reg.value, children[k].name.value);
    }
    RestoresWhateverFails(v, children, behind);
    forall faults: seq<Faults> | |faults| == |children|
      ensures RemoveSpec(ProbeSpec(v, children, faults, behind).0, children).0 == v <==> SparesBusy(v, children)
    {
      ProbeThenRemove(v, children, faults, behind);
      if SparesBusy(v, children) {
        SafeTreeRestores(v, children, faults, behind);
      }
    }
  }

  const ALL_FREE: View := seq(MAX_DEVICES, _ => None)

  /** The word behind the label array holds the busy bit. */
  const BUSY_BIT: string := "\U{0001}"

  /** A label of exactly NAME_LEN characters, with the busy bit behind it, is not found again: the
      registry that was all free stays occupied. */
  lemma OverlongLabelStays(child: Child, name: string)
    requires child == Child(Some(0), Some(name), child.readOnly) && |name| == NAME_LEN
    ensures var p := ProbeSpec(ALL_FREE, [child], [NO_FAULTS], BUSY_BIT).0;
            RemoveSpec(p, [child]) == (p, false) && p[0] == Some(Entry(name + BUSY_BIT, child.readOnly))
  {
    var p := ProbeSpec(ALL_FREE, [child], [NO_FAULTS], BUSY_BIT).0;
    assert OnlyChild(1, 0) == [NO_FAULTS];
    OnlyChildFills(ALL_FREE, [child], 0, BUSY_BIT);
    assert name[..NAME_LEN] == name;
    assert |p[0].value.name| == NAME_LEN + 1;
  }

  /** The first complete child with number i. */
  function FirstFor(children: seq<Child>, i: nat): (k: Option<nat>)
    ensures k.Some? ==> k.value < |children| && Complete(children[k.value]) && children[k.value].reg == Some(i)
    ensures forall j | 0 <= j < (if k.Some? then k.value else |children|) ::
              !(Complete(children[j]) && children[j].reg == Some(i))
  {
    if children == [] then None
    else if Complete(children[0]) && children[0].reg == Some(i) then Some(0)
    else
      match FirstFor(children[1..], i)
      case None => None
      case Some(k) => Some(k + 1)
  }

  /** When every acquisition succeeds, a free slot goes to the first child with its number, and stays
      free if there is none. */
  lemma {:induction false} FirstChildWins(v: View, children: seq<Child>, faults: seq<Faults>, behind: string, i: nat)
    requires |faults| == |children| && (forall k | 0 <= k < |faults| :: faults[k] == NO_FAULTS)
    requires i < MAX_DEVICES && v[i].None?
    ensures var k := FirstFor(children, i);
            ProbeChildren(v, children, faults, behind)[i] ==
            if k.None? then None
            else Some(Entry(Stored(children[k.value].name.value, behind), children[k.value].readOnly))
    decreases |children|
  {
    if children != [] {
      var c := children[0];
      var v' := ProbeOne(v, c, faults[0], behind);
      if Complete(c) && c.reg == Some(i) {
        ProbeFillsForChildren(v', children[1..], faults[1..], behind, i);
      } else {
        FirstChildWins(v', children[1..], faults[1..], behind, i);
      }
    }
  }
}

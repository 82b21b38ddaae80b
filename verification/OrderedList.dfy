/** The kernel's circular doubly linked list with its sentinel, kept in descending order: pointer
    updates proved to be the sequence operations of OrderedSpec. */
module OrderedList {
  import opened OrderedSpec

  /** A list head and the entry it is embedded in; the sentinel's data is never looked at. A null
      link stands for the poison that list_del leaves behind. */
  class ListHead {
    const data: int
    var prev: ListHead?
    var next: ListHead?

    constructor (data: int)
      ensures this.data == data && prev == null && next == null
    {
      this.data := data;
      prev, next := null, null;
    }
  }

  /** The neighbour of place i in a circle of n. */
  function After(i: nat, n: nat): nat {
    if i + 1 == n then 0 else i + 1
  }

  /** Places i and i + 1 of the circle point at each other. */
  ghost predicate Joined(ring: seq<ListHead>, i: nat)
    requires i < |ring|
    reads ring
  {
    ring[i].next == ring[After(i, |ring|)] && ring[After(i, |ring|)].prev == ring[i]
  }

  /** ring lists, from the sentinel on, all heads of one circle. */
  ghost predicate Linked(ring: seq<ListHead>)
    reads ring
  {
    && |ring| >= 1
    && (forall i, j | 0 <= i < j < |ring| :: ring[i] != ring[j])
    && (forall i | 0 <= i < |ring| :: Joined(ring, i))
  }

  /** Place p of the circle, counting on from the end to the sentinel. */
  function Place(ring: seq<ListHead>, p: nat): ListHead
    requires 1 <= p <= |ring|
  {
    if p == |ring| then ring[0] else ring[p]
  }

  /** __list_add between at and its predecessor, where at is place p of the ring. */
  method ListAddTail(x: ListHead, at: ListHead, ghost ring: seq<ListHead>, ghost p: nat)
    requires Linked(ring) && 1 <= p <= |ring| && at == Place(ring, p)
    requires x !in ring
    modifies x, ring
    ensures Linked(InsertAt(ring, p, x))
  {
    ghost var n := |ring|;
    assert Joined(ring, p - 1);
    var next := at;
    var prev := at.prev;
    next.prev := x;
    x.next := next;
    x.prev := prev;
    prev.next := x;
    ghost var r := InsertAt(ring, p, x);
    forall i | 0 <= i < |r|
      ensures Joined(r, i)
    {
      if i < p - 1 {
        assert old(Joined(ring, i));
        assert r[i] == ring[i] && r[i + 1] == ring[After(i, n)];
      } else if i > p {
        assert old(Joined(ring, i - 1));
        assert r[i] == ring[i - 1] && r[After(i, |r|)] == ring[After(i - 1, n)];
      }
    }
  }

  /** list_del: the neighbours are joined and the links of x poisoned. */
  method ListDel(x: ListHead, ghost ring: seq<ListHead>, ghost p: nat)
    requires Linked(ring) && 1 <= p < |ring| && x == ring[p]
    modifies ring
    ensures Linked(RemoveAt(ring, p)) && x.next == null && x.prev == null
  {
    ghost var n := |ring|;
    assert Joined(ring, p - 1) && Joined(ring, p);
    var prev, next := x.prev, x.next;
    next.prev := prev;
    prev.next := next;
    x.next := null;
    x.prev := null;
    ghost var r := RemoveAt(ring, p);
    forall i | 0 <= i < |r|
      ensures Joined(r, i)
    {
      if i < p - 1 {
        assert old(Joined(ring, i));
        assert r[i] == ring[i] && r[i + 1] == ring[After(i, n)];
      } else if i >= p {
        assert old(Joined(ring, i + 1));
        assert r[i] == ring[i + 1] && r[After(i, |r|)] == ring[After(i + 1, n)];
      }
    }
  }

  const DATA: ListHead -> int := (x: ListHead) => x.data

  /** No entry is added while it is in the list. */
  ghost predicate Playable(s: seq<ListHead>, cmds: seq<Cmd<ListHead>>)
    decreases |cmds|
  {
    cmds == [] || ((cmds[0].Add? ==> cmds[0].x !in s) && Playable(PlayOne(s, cmds[0], DATA), cmds[1..]))
  }

  class DataList {
    const head: ListHead
    ghost var nodes: seq<ListHead>

    ghost function Ring(): seq<ListHead>
      reads this
    {
      [head] + nodes
    }

    ghost predicate Valid()
      reads this, head, nodes
    {
      Linked(Ring()) && Descending(nodes, DATA)
    }

    constructor ()
      ensures Valid() && nodes == [] && fresh(head)
    {
      head := new ListHead(0);
      nodes := [];
      new;
      head.prev, head.next := head, head;
    }

    /** The loop of add_ordered_entry: the first smaller entry, or the sentinel. */
    method FirstSmaller(data: int) returns (ptr: ListHead)
      requires Valid()
      ensures ptr == Place(Ring(), FirstBelow(nodes, data, DATA) + 1)
      ensures ptr == head <==> FirstBelow(nodes, data, DATA) == |nodes|
    {
      ghost var ring, p, q := Ring(), 0, FirstBelow(nodes, data, DATA);
      assert Joined(ring, 0) && head == ring[0];
      ptr := head.next;
      while ptr != head
        invariant 0 <= p <= q <= |nodes| && ptr == Place(ring, p + 1)
        decreases |nodes| - p
      {
        assert ptr == nodes[p];
        if ptr.data < data {
          return;
        }
        assert Joined(ring, p + 1);
        ptr, p := ptr.next, p + 1;
      }
    }

    /** The new entry goes in front of the first smaller one: after all entries at least as large. */
    method AddOrderedEntry(x: ListHead)
      requires Valid() && x !in Ring()
      modifies this, Ring(), x
      ensures Valid() && nodes == Insert(old(nodes), x, DATA)
    {
      ghost var ring, was, p := Ring(), nodes, FirstBelow(nodes, x.data, DATA);
      var ptr := FirstSmaller(x.data);
      ListAddTail(x, ptr, ring, p + 1);
      InsertAtBehind(head, was, p, x);
      InsertKeepsDescending(was, x, DATA);
      SetNodes(InsertAt(was, p, x));
    }

    ghost method SetNodes(s: seq<ListHead>)
      requires Linked([head] + s) && Descending(s, DATA)
      modifies this`nodes
      ensures Valid() && nodes == s
    {
      nodes := s;
    }

    /** The loop of del_entry: the first entry with this value, or the sentinel. */
    method FirstMatch(data: int) returns (ptr: ListHead)
      requires Valid()
      ensures ptr == Place(Ring(), FirstEqual(nodes, data, DATA) + 1)
      ensures ptr == head <==> FirstEqual(nodes, data, DATA) == |nodes|
    {
      ghost var ring, p, q := Ring(), 0, FirstEqual(nodes, data, DATA);
      assert Joined(ring, 0) && head == ring[0];
      ptr := head.next;
      while ptr != head
        invariant 0 <= p <= q <= |nodes| && ptr == Place(ring, p + 1)
        decreases |nodes| - p
      {
        assert ptr == nodes[p];
        if ptr.data == data {
          return;
        }
        assert Joined(ring, p + 1);
        ptr, p := ptr.next, p + 1;
      }
    }

    /** The first entry with this value is unlinked; without one nothing changes. */
    method DelEntry(data: int)
      requires Valid()
      modifies this, Ring()
      ensures Valid() && nodes == RemoveFirst(old(nodes), data, DATA)
    {
      ghost var ring, was, p := Ring(), nodes, FirstEqual(nodes, data, DATA);
      var ptr := FirstMatch(data);
      if ptr != head {
        ListDel(ptr, ring, p + 1);
        RemoveAtBehind(head, was, p);
        RemoveKeepsDescending(was, data, DATA);
        SetNodes(RemoveAt(was, p));
      }
    }

    method PerformOne(cmd: Cmd<ListHead>)
      requires Valid() && (cmd.Add? ==> cmd.x != head && cmd.x !in nodes)
      modifies this, head, nodes, if cmd.Add? then {cmd.x} else {}
      ensures Valid() && nodes == PlayOne(old(nodes), cmd, DATA)
      ensures forall x | x in nodes :: x in old(nodes) || cmd == Add(x)
    {
      assert forall x | x in Ring() :: x == head || x in nodes;
      match cmd {
        case Add(x) => AddOrderedEntry(x);
        case Del(v) => DelEntry(v);
      }
    }

    /** Any run of additions and deletions, in the heap. */
    method Perform(cmds: seq<Cmd<ListHead>>)
      requires Valid() && Playable(nodes, cmds) && head !in Added(cmds)
      modifies this, head, nodes, Added(cmds)
      ensures Valid() && nodes == Play(old(nodes), cmds, DATA)
      decreases |cmds|
    {
      if cmds != [] {
        PerformOne(cmds[0]);
        Perform(cmds[1..]);
      }
    }

    /** The printed walk: every entry once, largest first. */
    method PrintEntries() returns (out: seq<int>)
      requires Valid()
      ensures out == Keys(nodes, DATA)
      ensures forall i, j | 0 <= i < j < |out| :: out[i] >= out[j]
    {
      ghost var ring, p := Ring(), 0;
      assert Joined(ring, 0) && head == ring[0];
      out := [];
      var ptr := head.next;
      while ptr != head
        invariant 0 <= p <= |nodes| && ptr == Place(ring, p + 1)
        invariant out == Keys(nodes, DATA)[..p]
        decreases |nodes| - p
      {
        assert ptr == nodes[p];
        out := out + [ptr.data];
        assert Joined(ring, p + 1);
        ptr, p := ptr.next, p + 1;
      }
    }
  }

  /* ----- the two walks ----- */

  /** n steps from x along next, or along prev, through heads of ring only. */
  ghost function Walk(ring: seq<ListHead>, x: ListHead, n: nat, forward: bool): ListHead?
    reads ring
  {
    if n == 0 then x
    else
      var y := Walk(ring, x, n - 1, forward);
      if y == null || y !in ring then null else if forward then y.next else y.prev
  }

  /** The forward walk from the sentinel visits the circle once and comes back; the backward walk is
      its reverse. */
  lemma {:induction false} WalksAreReverse(ring: seq<ListHead>, n: nat)
    requires Linked(ring) && n <= |ring|
    ensures Walk(ring, ring[0], n, true) == ring[if n == |ring| then 0 else n]
    ensures Walk(ring, ring[0], n, false) == ring[if n == 0 then 0 else |ring| - n]
    decreases n
  {
    if n > 0 {
      WalksAreReverse(ring, n - 1);
      var len := |ring|;
      assert Joined(ring, n - 1) && Joined(ring, len - n);
    }
  }
}

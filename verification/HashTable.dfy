/** The kernel's bucketed hash table as the module uses it: singly linked chains whose nodes also know
    the pointer that leads to them. It is proved to behave like one list, newest entry first, cut into
    buckets. */
module HashTable {
  import opened OrderedSpec

  const BUCKETS: nat := 2

  /** The remainder of C: it truncates toward zero, so odd negative numbers give -1. */
  function HashFunc(data: int): (r: int)
    ensures -1 <= r <= 1 && (data - r) % 2 == 0 && (r != 0 ==> (r < 0 <==> data < 0))
  {
    if data >= 0 then data % 2 else -((-data) % 2)
  }

  /** The pointer that leads to a node: a bucket's first field or another node's next field. */
  datatype Link = Nowhere | First(b: nat) | NextOf(node: HNode)

  class HNode {
    const data: int
    var next: HNode?
    var pprev: Link

    constructor (data: int)
      ensures this.data == data && pprev == Nowhere
    {
      this.data := data;
      next, pprev := null, Nowhere;
    }
  }

  const DATA: HNode -> int := (x: HNode) => x.data

  /* ----- one list cut into buckets ----- */

  /** The bucket that data selects: the kernel mixes the caller's key into a bucket number. */
  function Select(mix: int -> nat, data: int): nat {
    mix(HashFunc(data))
  }

  /** The remainder by 2 that C gives: the sign of an odd number. */
  function Sign(data: int): int {
    if data % 2 == 0 then 0 else if data > 0 then 1 else -1
  }

  /** So data of one parity and sign share a bucket, the one that the kernel makes of that remainder. */
  lemma SelectsBySign(mix: int -> nat, data: int)
    ensures Select(mix, data) == mix(Sign(data))
  {
    assert -1 <= HashFunc(data) <= 1;
  }

  /** The entries of s that select bucket b, in order. */
  function InBucket<T>(s: seq<T>, b: nat, mix: int -> nat, key: T -> int): seq<T> {
    if s == [] then []
    else (if Select(mix, key(s[0])) == b then [s[0]] else []) + InBucket(s[1..], b, mix, key)
  }

  lemma AddInBucket<T>(x: T, s: seq<T>, b: nat, mix: int -> nat, key: T -> int)
    ensures InBucket([x] + s, b, mix, key) ==
            var c := InBucket(s, b, mix, key); if Select(mix, key(x)) == b then [x] + c else c
  {
    assert ([x] + s)[1..] == s;
    assert [] + InBucket(s, b, mix, key) == InBucket(s, b, mix, key);
  }

  /** Bucket b's part c of s has exactly the members that select b. */
  lemma {:induction false} BucketMembers<T>(s: seq<T>, b: nat, mix: int -> nat, key: T -> int, c: seq<T>)
    requires c == InBucket(s, b, mix, key)
    ensures forall i | 0 <= i < |c| :: c[i] in s && Select(mix, key(c[i])) == b
    ensures forall i | 0 <= i < |s| && Select(mix, key(s[i])) == b :: s[i] in c
    decreases |s|
  {
    if s != [] {
      var rest := InBucket(s[1..], b, mix, key);
      BucketMembers(s[1..], b, mix, key, rest);
      forall i | 0 <= i < |s| && Select(mix, key(s[i])) == b
        ensures s[i] in c
      {
        if i > 0 {
          assert s[1..][i - 1] in rest;
        }
      }
    }
  }

  /** Searching only the bucket that v selects misses nothing. */
  lemma OneBucketIsEnough<T>(s: seq<T>, v: int, mix: int -> nat, key: T -> int, c: seq<T>)
    requires c == InBucket(s, Select(mix, v), mix, key)
    ensures FirstEqual(c, v, key) < |c| <==> exists i | 0 <= i < |s| :: key(s[i]) == v
  {
    BucketMembers(s, Select(mix, v), mix, key, c);
    if i :| 0 <= i < |s| && key(s[i]) == v {
      assert s[i] in c;
    }
    if FirstEqual(c, v, key) < |c| {
      assert c[FirstEqual(c, v, key)] in s;
    }
  }

  /** Deleting from that bucket is deleting the first match of the whole list. */
  lemma {:induction false} RemoveInBucket<T>(s: seq<T>, v: int, b: nat, mix: int -> nat, key: T -> int)
    ensures InBucket(RemoveFirst(s, v, key), b, mix, key) ==
            if b == Select(mix, v) then RemoveFirst(InBucket(s, b, mix, key), v, key)
            else InBucket(s, b, mix, key)
    decreases |s|
  {
    if s == [] {
    } else if key(s[0]) == v {
      RemoveAtHead(s, v, key);
      if b == Select(mix, v) {
        RemoveAtHead(InBucket(s, b, mix, key), v, key);
        assert InBucket(s, b, mix, key)[1..] == InBucket(s[1..], b, mix, key);
      } else {
        assert [] + InBucket(s[1..], b, mix, key) == InBucket(s[1..], b, mix, key);
      }
    } else {
      RemoveInBucket(s[1..], v, b, mix, key);
      RemoveBehind(s, v, key);
      var r, c := RemoveFirst(s[1..], v, key), InBucket(s[1..], b, mix, key);
      assert ([s[0]] + r)[1..] == r;
      if Select(mix, key(s[0])) == b {
        assert ([s[0]] + c)[1..] == c;
        RemoveBehind([s[0]] + c, v, key);
      } else {
        assert [] + c == c;
        assert [] + InBucket(r, b, mix, key) == InBucket(r, b, mix, key);
      }
    }
  }

  /** One delete takes away one copy of the value, or nothing. */
  lemma RemoveTakesOne<T>(s: seq<T>, v: int, key: T -> int)
    ensures multiset(Keys(RemoveFirst(s, v, key), key)) == multiset(Keys(s, key)) - multiset{v}
  {
    var p, k := FirstEqual(s, v, key), Keys(s, key);
    if p == |s| {
      assert v !in k;
    } else {
      assert k == k[..p] + [v] + k[p + 1..];
      assert Keys(RemoveFirst(s, v, key), key) == k[..p] + k[p + 1..];
    }
  }

  /** c0 and c1 are the distinct entries of s cut into the two buckets. */
  ghost predicate CutInto<T>(s: seq<T>, mix: int -> nat, key: T -> int, c0: seq<T>, c1: seq<T>) {
    && (forall k :: mix(k) < BUCKETS)
    && (forall i, j | 0 <= i < j < |s| :: s[i] != s[j])
    && c0 == InBucket(s, 0, mix, key) && c1 == InBucket(s, 1, mix, key)
  }

  lemma CutAdd<T>(s: seq<T>, mix: int -> nat, key: T -> int, c0: seq<T>, c1: seq<T>, x: T)
    requires CutInto(s, mix, key, c0, c1) && x !in s
    ensures x !in c0 && x !in c1
    ensures if Select(mix, key(x)) == 0 then CutInto([x] + s, mix, key, [x] + c0, c1)
            else Select(mix, key(x)) == 1 && CutInto([x] + s, mix, key, c0, [x] + c1)
  {
    BucketMembers(s, 0, mix, key, c0);
    BucketMembers(s, 1, mix, key, c1);
    AddInBucket(x, s, 0, mix, key);
    AddInBucket(x, s, 1, mix, key);
  }

  lemma RemoveKeepsDistinct<T>(s: seq<T>, v: int, key: T -> int)
    requires forall i, j | 0 <= i < j < |s| :: s[i] != s[j]
    ensures var r := RemoveFirst(s, v, key); forall i, j | 0 <= i < j < |r| :: r[i] != r[j]
  {}

  lemma CutRemove<T>(s: seq<T>, mix: int -> nat, key: T -> int, c0: seq<T>, c1: seq<T>, v: int)
    requires CutInto(s, mix, key, c0, c1)
    ensures if Select(mix, v) == 0 then CutInto(RemoveFirst(s, v, key), mix, key, RemoveFirst(c0, v, key), c1)
            else Select(mix, v) == 1 && CutInto(RemoveFirst(s, v, key), mix, key, c0, RemoveFirst(c1, v, key))
  {
    RemoveInBucket(s, v, 0, mix, key);
    RemoveInBucket(s, v, 1, mix, key);
    RemoveKeepsDistinct(s, v, key);
    assert Select(mix, v) < BUCKETS;
  }

  /** The two buckets together hold every entry once. */
  lemma {:induction false} BucketsPartition<T>(s: seq<T>, mix: int -> nat, key: T -> int)
    requires forall k :: mix(k) < BUCKETS
    ensures multiset(Keys(InBucket(s, 0, mix, key), key)) + multiset(Keys(InBucket(s, 1, mix, key), key))
         == multiset(Keys(s, key))
    decreases |s|
  {
    if s != [] {
      var x, t := s[0], s[1..];
      BucketsPartition(t, mix, key);
      KeysCons(x, t, key);
      assert s == [x] + t;
      var b := Select(mix, key(x));
      assert b < BUCKETS;
      KeysCons(x, InBucket(t, b, mix, key), key);
      assert [] + InBucket(t, 1 - b, mix, key) == InBucket(t, 1 - b, mix, key);
    }
  }

  /* ----- any run of additions and deletions ----- */

  /** The newest entry comes first; a deletion takes the first match. */
  function HashPlay<T>(s: seq<T>, cmds: seq<Cmd<T>>, key: T -> int): seq<T>
    decreases |cmds|
  {
    if cmds == [] then s else HashPlay(HashPlayOne(s, cmds[0], key), cmds[1..], key)
  }

  function HashPlayOne<T>(s: seq<T>, cmd: Cmd<T>, key: T -> int): seq<T> {
    match cmd
    case Add(x) => [x] + s
    case Del(v) => RemoveFirst(s, v, key)
  }

  /** One value's entries on their own: additions go on top, a deletion takes the top. */
  function Stack<T>(q: seq<T>, cmds: seq<Cmd<T>>, v: int, key: T -> int): seq<T>
    decreases |cmds|
  {
    if cmds == [] then q
    else
      var q' := match cmds[0]
                case Add(x) => if key(x) == v then [x] + q else q
                case Del(w) => if w == v && q != [] then q[1..] else q;
      Stack(q', cmds[1..], v, key)
  }

  /** After any run of additions and deletions each value's entries form a stack. */
  lemma {:induction false} RunsAreStacks<T>(s: seq<T>, cmds: seq<Cmd<T>>, v: int, key: T -> int)
    ensures OfKey(HashPlay(s, cmds, key), v, key) == Stack(OfKey(s, v, key), cmds, v, key)
    decreases |cmds|
  {
    if cmds != [] {
      match cmds[0] {
        case Add(x) =>
          OfKeyCons(x, s, v, key);
          assert [] + OfKey(s, v, key) == OfKey(s, v, key);
          RunsAreStacks([x] + s, cmds[1..], v, key);
        case Del(w) =>
          RemoveTakesOldest(s, w, v, key);
          RunsAreStacks(RemoveFirst(s, w, key), cmds[1..], v, key);
      }
    }
  }

  /** No node is added while it is in the table. */
  ghost predicate HashPlayable(s: seq<HNode>, cmds: seq<Cmd<HNode>>)
    decreases |cmds|
  {
    cmds == [] || ((cmds[0].Add? ==> cmds[0].x !in s) && HashPlayable(HashPlayOne(s, cmds[0], DATA), cmds[1..]))
  }

  /* ----- chains in the heap ----- */

  /** Node i of bucket b's chain: it leads to its successor, and knows what leads to it. */
  ghost predicate NodeOk(chain: seq<HNode>, b: nat, i: nat)
    requires i < |chain|
    reads chain
  {
    && chain[i].next == (if i + 1 < |chain| then chain[i + 1] else null)
    && chain[i].pprev == (if i == 0 then First(b) else NextOf(chain[i - 1]))
  }

  ghost predicate ChainOk(chain: seq<HNode>, b: nat, first: HNode?)
    reads chain
  {
    && first == (if chain == [] then null else chain[0])
    && (forall i, j | 0 <= i < j < |chain| :: chain[i] != chain[j])
    && (forall i | 0 <= i < |chain| :: NodeOk(chain, b, i))
  }

  /** hlist_add_head on bucket b. */
  method AddHead(x: HNode, first: array<HNode?>, b: nat, ghost chain: seq<HNode>)
    requires b < first.Length && ChainOk(chain, b, first[b]) && x !in chain
    modifies first, chain, x
    ensures ChainOk([x] + chain, b, first[b])
    ensures forall c | 0 <= c < first.Length && c != b :: first[c] == old(first[c])
  {
    var f := first[b];
    x.next := f;
    if f != null {
      assert NodeOk(chain, b, 0);
      f.pprev := NextOf(x);
    }
    first[b] := x;
    x.pprev := First(b);
    ghost var r := [x] + chain;
    forall i | 0 <= i < |r|
      ensures NodeOk(r, b, i)
    {
      if i > 0 {
        assert old(NodeOk(chain, b, i - 1));
      }
    }
  }

  /** hlist_del_init on place p of bucket b's chain: whatever led to x now leads past it. */
  method DelInit(x: HNode, first: array<HNode?>, ghost b: nat, ghost chain: seq<HNode>, ghost p: nat)
    requires b < first.Length && ChainOk(chain, b, first[b]) && p < |chain| && x == chain[p]
    modifies first, chain
    ensures ChainOk(RemoveAt(chain, p), b, first[b]) && x.next == null && x.pprev == Nowhere
    ensures forall c | 0 <= c < first.Length && c != b :: first[c] == old(first[c])
  {
    assert NodeOk(chain, b, p);
    var next, pprev := x.next, x.pprev;
    match pprev {
      case Nowhere => return;
      case First(c) => first[c] := next;
      case NextOf(node) => node.next := next;
    }
    if next != null {
      assert old(NodeOk(chain, b, p + 1));
      next.pprev := pprev;
    }
    x.next := null;
    x.pprev := Nowhere;
    ghost var r := RemoveAt(chain, p);
    forall i | 0 <= i < |r|
      ensures NodeOk(r, b, i)
    {
      if i < p {
        assert old(NodeOk(chain, b, i));
      } else {
        assert old(NodeOk(chain, b, i + 1));
      }
    }
  }

  ghost predicate Apart(a: seq<HNode>, b: seq<HNode>) {
    forall i | 0 <= i < |a| :: a[i] !in b
  }

  class DataHash {
    const first: array<HNode?>
    const mix: int -> nat
    ghost var chain0: seq<HNode>
    ghost var chain1: seq<HNode>
    ghost var entries: seq<HNode>

    ghost function Chain(b: nat): seq<HNode>
      reads this
    {
      if b == 0 then chain0 else chain1
    }

    /** The pointers of both buckets form two separate chains. */
    ghost predicate Heap()
      reads this, first, chain0, chain1
    {
      && first.Length == BUCKETS && Apart(chain0, chain1) && Apart(chain1, chain0)
      && ChainOk(chain0, 0, first[0]) && ChainOk(chain1, 1, first[1])
    }

    /** The chains are the entries, newest first, cut into buckets. */
    ghost predicate Valid()
      reads this, first, chain0, chain1
    {
      Heap() && CutInto(entries, mix, DATA, chain0, chain1)
    }

    constructor (mix: int -> nat)
      requires forall k :: mix(k) < BUCKETS
      ensures Valid() && entries == [] && fresh(first) && this.mix == mix
    {
      first := new HNode?[BUCKETS](_ => null);
      this.mix := mix;
      entries, chain0, chain1 := [], [], [];
    }

    /** hash_add on bucket b. */
    method HashAdd(x: HNode, b: nat)
      requires Heap() && b < BUCKETS && x !in chain0 && x !in chain1
      modifies this`chain0, this`chain1, first, chain0, chain1, x
      ensures Heap() && Chain(b) == [x] + old(Chain(b)) && Chain(1 - b) == old(Chain(1 - b))
    {
      if b == 0 {
        AddHead(x, first, 0, chain0);
        chain0 := [x] + chain0;
      } else {
        AddHead(x, first, 1, chain1);
        chain1 := [x] + chain1;
      }
    }

    /** hash_del on place p of bucket b. */
    method HashDel(x: HNode, ghost b: nat, ghost p: nat)
      requires Heap() && b < BUCKETS && p < |Chain(b)| && x == Chain(b)[p]
      modifies this`chain0, this`chain1, first, chain0, chain1
      ensures Heap() && Chain(b) == RemoveAt(old(Chain(b)), p) && Chain(1 - b) == old(Chain(1 - b))
    {
      DelInit(x, first, b, Chain(b), p);
      if b == 0 {
        chain0 := RemoveAt(chain0, p);
      } else {
        chain1 := RemoveAt(chain1, p);
      }
    }

    /** hash_for_each_possible on bucket b, up to the first match. */
    method Search(b: nat, data: int) returns (entry: HNode?)
      requires Heap() && b < BUCKETS
      ensures var p := FirstEqual(Chain(b), data, DATA); entry == if p == |Chain(b)| then null else Chain(b)[p]
    {
      ghost var chain, p := Chain(b), 0;
      entry := first[b];
      while entry != null
        invariant 0 <= p <= FirstEqual(chain, data, DATA)
        invariant entry == if p == |chain| then null else chain[p]
        decreases |chain| - p
      {
        if entry.data == data {
          return;
        }
        assert NodeOk(chain, b, p);
        entry, p := entry.next, p + 1;
      }
    }

    ghost method SetEntries(s: seq<HNode>)
      requires Heap() && CutInto(s, mix, DATA, chain0, chain1)
      modifies this`entries
      ensures Valid() && entries == s
    {
      entries := s;
    }

    method AddNode(x: HNode)
      requires Valid() && x !in entries
      modifies this, first, chain0, chain1, x
      ensures Valid() && entries == [x] + old(entries)
      ensures var b := mix(Sign(x.data)); Chain(b) == [x] + old(Chain(b)) && Chain(1 - b) == old(Chain(1 - b))
    {
      SelectsBySign(mix, x.data);
      ghost var s := [x] + entries;
      CutAdd(entries, mix, DATA, chain0, chain1, x);
      HashAdd(x, Select(mix, x.data));
      assert CutInto(s, mix, DATA, chain0, chain1);
      SetEntries(s);
    }

    /** Every entry stays in the bucket that its data selects, and in no other. */
    lemma EntriesStayInTheirBuckets(i: nat)
      requires Valid() && i < |entries|
      ensures var b := mix(Sign(entries[i].data)); entries[i] in Chain(b) && entries[i] !in Chain(1 - b)
    {
      SelectsBySign(mix, entries[i].data);
      BucketMembers(entries, 0, mix, DATA, chain0);
      BucketMembers(entries, 1, mix, DATA, chain1);
    }

    /** The search of del_node: it visits one bucket only, and yet finds an entry exactly when the whole
        table holds one. */
    method FindNode(data: int) returns (entry: HNode?)
      requires Valid()
      ensures entry != null ==> entry in entries && entry.data == data
      ensures entry == null ==> forall i | 0 <= i < |entries| :: entries[i].data != data
    {
      var b := Select(mix, data);
      assert b < BUCKETS;
      ghost var chain := Chain(b);
      BucketMembers(entries, b, mix, DATA, chain);
      OneBucketIsEnough(entries, data, mix, DATA, chain);
      entry := Search(b, data);
    }

    /** The loop of del_node in the heap: the first match of one bucket is unlinked. */
    method DelFirst(b: nat, data: int)
      requires Heap() && b < BUCKETS
      modifies this`chain0, this`chain1, first, chain0, chain1
      ensures Heap() && Chain(b) == RemoveFirst(old(Chain(b)), data, DATA) && Chain(1 - b) == old(Chain(1 - b))
    {
      var entry := Search(b, data);
      if entry != null {
        HashDel(entry, b, FirstEqual(Chain(b), data, DATA));
      }
    }

    /** The most recently added entry with this value goes; without one nothing changes. */
    method DelNode(data: int)
      requires Valid()
      modifies this, first, chain0, chain1
      ensures Valid() && entries == RemoveFirst(old(entries), data, DATA)
    {
      CutRemove(entries, mix, DATA, chain0, chain1, data);
      DelFirst(Select(mix, data), data);
      SetEntries(RemoveFirst(entries, data, DATA));
    }

    method PerformOne(cmd: Cmd<HNode>)
      requires Valid() && (cmd.Add? ==> cmd.x !in entries)
      modifies this, first, entries, if cmd.Add? then {cmd.x} else {}
      ensures Valid() && entries == HashPlayOne(old(entries), cmd, DATA)
      ensures forall x | x in entries :: x in old(entries) || cmd == Add(x)
    {
      BucketMembers(entries, 0, mix, DATA, chain0);
      BucketMembers(entries, 1, mix, DATA, chain1);
      match cmd {
        case Add(x) => AddNode(x);
        case Del(v) => DelNode(v);
      }
    }

    /** Any run of additions and deletions, in the heap. */
    method Perform(cmds: seq<Cmd<HNode>>)
      requires Valid() && HashPlayable(entries, cmds)
      modifies this, first, entries, Added(cmds)
      ensures Valid() && entries == HashPlay(old(entries), cmds, DATA)
      decreases |cmds|
    {
      if cmds != [] {
        PerformOne(cmds[0]);
        Perform(cmds[1..]);
      }
    }

    /** hash_for_each: bucket after bucket, each from its first node on. */
    method Walk() returns (out: seq<int>)
      requires Heap()
      ensures out == Keys(chain0, DATA) + Keys(chain1, DATA)
    {
      ghost var all := [[], Keys(chain0, DATA), Keys(chain0, DATA) + Keys(chain1, DATA)];
      out := [];
      var key := 0;
      while key < BUCKETS
        invariant key <= BUCKETS && out == all[key]
      {
        ghost var chain, p := Chain(key), 0;
        var entry := first[key];
        while entry != null
          invariant 0 <= p <= |chain| && entry == if p == |chain| then null else chain[p]
          invariant out == all[key] + Keys(chain, DATA)[..p]
          decreases |chain| - p
        {
          out := out + [entry.data];
          assert NodeOk(chain, key, p);
          entry, p := entry.next, p + 1;
        }
        key := key + 1;
      }
    }

    /** The printed walk visits every entry of the table exactly once. */
    method PrintNodes() returns (out: seq<int>)
      requires Valid()
      ensures multiset(out) == multiset(Keys(entries, DATA))
      ensures out == Keys(chain0, DATA) + Keys(chain1, DATA)
    {
      out := Walk();
      BucketsPartition(entries, mix, DATA);
    }
  }
}

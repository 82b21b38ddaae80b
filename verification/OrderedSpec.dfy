/** Ordered insertion and first-match deletion on sequences: what the list is proved to do. */
module OrderedSpec {

  predicate Descending<T>(s: seq<T>, key: T -> int) {
    forall i, j | 0 <= i < j < |s| :: key(s[i]) >= key(s[j])
  }

  /** The first place whose element is smaller than v, or the end. */
  function FirstBelow<T>(s: seq<T>, v: int, key: T -> int): (p: nat)
    ensures p <= |s| && (p < |s| ==> key(s[p]) < v)
    ensures forall i | 0 <= i < p :: key(s[i]) >= v
  {
    if s == [] || key(s[0]) < v then 0 else 1 + FirstBelow(s[1..], v, key)
  }

  /** The first place whose element is v, or the end. */
  function FirstEqual<T>(s: seq<T>, v: int, key: T -> int): (p: nat)
    ensures p <= |s| && (p < |s| ==> key(s[p]) == v)
    ensures forall i | 0 <= i < p :: key(s[i]) != v
  {
    if s == [] || key(s[0]) == v then 0 else 1 + FirstEqual(s[1..], v, key)
  }

  function InsertAt<T>(s: seq<T>, p: nat, x: T): seq<T>
    requires p <= |s|
  {
    s[..p] + [x] + s[p..]
  }

  function Insert<T>(s: seq<T>, x: T, key: T -> int): seq<T> {
    InsertAt(s, FirstBelow(s, key(x), key), x)
  }

  function RemoveAt<T>(s: seq<T>, p: nat): seq<T>
    requires p < |s|
  {
    s[..p] + s[p + 1..]
  }

  function RemoveFirst<T>(s: seq<T>, v: int, key: T -> int): seq<T> {
    var p := FirstEqual(s, v, key);
    if p == |s| then s else RemoveAt(s, p)
  }

  /** The elements with key v, in order. */
  function OfKey<T>(s: seq<T>, v: int, key: T -> int): seq<T> {
    if s == [] then [] else (if key(s[0]) == v then [s[0]] else []) + OfKey(s[1..], v, key)
  }

  function Keys<T>(s: seq<T>, key: T -> int): seq<int> {
    seq(|s|, i requires 0 <= i < |s| => key(s[i]))
  }

  /** All of xs, inserted one after the other into the empty list. */
  function AddAll<T>(xs: seq<T>, key: T -> int): seq<T> {
    if xs == [] then [] else Insert(AddAll(xs[..|xs| - 1], key), xs[|xs| - 1], key)
  }

  lemma InsertKeepsDescending<T>(s: seq<T>, x: T, key: T -> int)
    requires Descending(s, key)
    ensures Descending(Insert(s, x, key), key)
  {}

  lemma RemoveKeepsDescending<T>(s: seq<T>, v: int, key: T -> int)
    requires Descending(s, key)
    ensures Descending(RemoveFirst(s, v, key), key)
  {}

  lemma {:induction false} OfKeyConcat<T>(a: seq<T>, b: seq<T>, v: int, key: T -> int)
    ensures OfKey(a + b, v, key) == OfKey(a, v, key) + OfKey(b, v, key)
    decreases |a|
  {
    if a == [] {
      assert a + b == b;
    } else {
      assert (a + b)[0] == a[0] && (a + b)[1..] == a[1..] + b;
      OfKeyConcat(a[1..], b, v, key);
      var h := if key(a[0]) == v then [a[0]] else [];
      assert h + (OfKey(a[1..], v, key) + OfKey(b, v, key)) == (h + OfKey(a[1..], v, key)) + OfKey(b, v, key);
    }
  }

  lemma {:induction false} NoneOfKey<T>(s: seq<T>, v: int, key: T -> int)
    requires forall i | 0 <= i < |s| :: key(s[i]) != v
    ensures OfKey(s, v, key) == []
    decreases |s|
  {
    if s != [] {
      NoneOfKey(s[1..], v, key);
    }
  }

  lemma InsertInFront<T>(s: seq<T>, x: T, key: T -> int)
    requires s == [] || key(s[0]) < key(x)
    ensures Insert(s, x, key) == [x] + s
  {
    assert FirstBelow(s, key(x), key) == 0;
  }

  lemma InsertBehind<T>(s: seq<T>, x: T, key: T -> int)
    requires s != [] && key(s[0]) >= key(x)
    ensures Insert(s, x, key) == [s[0]] + Insert(s[1..], x, key)
  {
    var p := FirstBelow(s[1..], key(x), key);
    assert FirstBelow(s, key(x), key) == p + 1;
    assert InsertAt(s, p + 1, x) == [s[0]] + InsertAt(s[1..], p, x);
  }

  lemma RemoveAtHead<T>(s: seq<T>, v: int, key: T -> int)
    requires s != [] && key(s[0]) == v
    ensures RemoveFirst(s, v, key) == s[1..]
  {
    assert FirstEqual(s, v, key) == 0;
  }

  lemma RemoveBehind<T>(s: seq<T>, v: int, key: T -> int)
    requires s != [] && key(s[0]) != v
    ensures RemoveFirst(s, v, key) == [s[0]] + RemoveFirst(s[1..], v, key)
  {
    var p := FirstEqual(s[1..], v, key);
    assert FirstEqual(s, v, key) == p + 1;
    if p == |s[1..]| {
      assert s == [s[0]] + s[1..];
    } else {
      assert RemoveAt(s, p + 1) == [s[0]] + RemoveAt(s[1..], p);
    }
  }

  lemma OfKeyCons<T>(x: T, s: seq<T>, v: int, key: T -> int)
    ensures OfKey([x] + s, v, key) == (if key(x) == v then [x] else []) + OfKey(s, v, key)
  {
    assert ([x] + s)[1..] == s;
  }

  /** An insertion adds x after every equal key already there and moves nothing else. */
  lemma {:induction false} InsertIsStable<T>(s: seq<T>, x: T, v: int, key: T -> int)
    requires Descending(s, key)
    ensures OfKey(Insert(s, x, key), v, key) == OfKey(s, v, key) + (if key(x) == v then [x] else [])
    decreases |s|
  {
    if s == [] || key(s[0]) < key(x) {
      InsertInFront(s, x, key);
      OfKeyCons(x, s, v, key);
      if key(x) == v {
        NoneOfKey(s, v, key);
      }
    } else {
      InsertBehind(s, x, key);
      InsertIsStable(s[1..], x, v, key);
      OfKeyCons(s[0], Insert(s[1..], x, key), v, key);
    }
  }

  /** Adding entries to an empty list sorts them: largest first, and equal keys in arrival order. */
  lemma {:induction false} AddAllSorts<T>(xs: seq<T>, key: T -> int)
    ensures Descending(AddAll(xs, key), key)
    ensures forall v :: OfKey(AddAll(xs, key), v, key) == OfKey(xs, v, key)
    decreases |xs|
  {
    if xs != [] {
      var init, x := xs[..|xs| - 1], xs[|xs| - 1];
      AddAllSorts(init, key);
      InsertKeepsDescending(AddAll(init, key), x, key);
      forall v
        ensures OfKey(AddAll(xs, key), v, key) == OfKey(xs, v, key)
      {
        InsertIsStable(AddAll(init, key), x, v, key);
        assert xs == init + [x];
        OfKeyConcat(init, [x], v, key);
        assert [x][1..] == [];
      }
    }
  }

  lemma {:induction false} OfKeyHas<T>(s: seq<T>, i: nat, key: T -> int)
    requires i < |s|
    ensures OfKey(s, key(s[i]), key) != []
    decreases |s|
  {
    if i > 0 {
      OfKeyHas(s[1..], i - 1, key);
    }
  }

  lemma {:induction false} OfKeyFrom<T>(s: seq<T>, v: int, key: T -> int) returns (i: nat)
    requires OfKey(s, v, key) != []
    ensures i < |s| && key(s[i]) == v
    decreases |s|
  {
    if key(s[0]) == v {
      i := 0;
    } else {
      i := OfKeyFrom(s[1..], v, key);
      i := i + 1;
    }
  }

  lemma SameHeadKey<T>(a: seq<T>, b: seq<T>, key: T -> int)
    requires Descending(b, key) && a != []
    requires forall v :: OfKey(a, v, key) == OfKey(b, v, key)
    ensures b != [] && key(a[0]) <= key(b[0])
  {
    OfKeyHas(a, 0, key);
    var i := OfKeyFrom(b, key(a[0]), key);
  }

  /** There is only one such arrangement, so AddAll is the stable descending sort. */
  lemma {:induction false} StableSortIsUnique<T>(a: seq<T>, b: seq<T>, key: T -> int)
    requires Descending(a, key) && Descending(b, key)
    requires forall v :: OfKey(a, v, key) == OfKey(b, v, key)
    ensures a == b
    decreases |a|
  {
    if a == [] {
      if b != [] {
        SameHeadKey(b, a, key);
      }
    } else {
      SameHeadKey(a, b, key);
      SameHeadKey(b, a, key);
      var k := key(a[0]);
      assert OfKey(a, k, key)[0] == a[0] && OfKey(b, k, key)[0] == b[0];
      forall v
        ensures OfKey(a[1..], v, key) == OfKey(b[1..], v, key)
      {
        assert OfKey(a, v, key) == OfKey(b, v, key);
        if v == k {
          assert OfKey(a, v, key)[1..] == OfKey(a[1..], v, key);
          assert OfKey(b, v, key)[1..] == OfKey(b[1..], v, key);
        } else {
          assert OfKey(a, v, key) == OfKey(a[1..], v, key);
          assert OfKey(b, v, key) == OfKey(b[1..], v, key);
        }
      }
      StableSortIsUnique(a[1..], b[1..], key);
    }
  }

  lemma KeysCons<T>(x: T, s: seq<T>, key: T -> int)
    ensures Keys([x] + s, key) == [key(x)] + Keys(s, key)
  {}

  /** Among keys no larger than x's, x might as well have gone to the front, as far as keys show. */
  lemma {:induction false} InsertedKeyComesFirst<T>(s: seq<T>, x: T, key: T -> int)
    requires Descending(s, key) && (s != [] ==> key(s[0]) <= key(x))
    ensures Keys(Insert(s, x, key), key) == [key(x)] + Keys(s, key)
    decreases |s|
  {
    if s == [] || key(s[0]) < key(x) {
      InsertInFront(s, x, key);
      KeysCons(x, s, key);
    } else {
      InsertBehind(s, x, key);
      InsertedKeyComesFirst(s[1..], x, key);
      KeysCons(s[0], Insert(s[1..], x, key), key);
      assert s == [s[0]] + s[1..];
      KeysCons(s[0], s[1..], key);
    }
  }

  lemma {:induction false} InsertedStays<T>(s: seq<T>, x: T, key: T -> int)
    ensures x in Insert(s, x, key)
  {
    assert Insert(s, x, key)[FirstBelow(s, key(x), key)] == x;
  }

  predicate HasKey<T>(s: seq<T>, v: int, key: T -> int) {
    exists i | 0 <= i < |s| :: key(s[i]) == v
  }

  /** Adding x and then deleting x's value restores the sequence of values, even among equal values.
      It restores the entries themselves exactly when the value was new: otherwise the oldest equal
      entry goes and x stays. */
  lemma {:induction false} AddThenDelete<T>(s: seq<T>, x: T, key: T -> int)
    requires Descending(s, key) && x !in s
    ensures var r := RemoveFirst(Insert(s, x, key), key(x), key);
            && Keys(r, key) == Keys(s, key)
            && (r == s <==> !HasKey(s, key(x), key))
    decreases |s|
  {
    var v := key(x);
    if s == [] || key(s[0]) < v {
      InsertInFront(s, x, key);
      RemoveAtHead([x] + s, v, key);
      assert ([x] + s)[1..] == s;
    } else {
      var h, t := s[0], s[1..];
      var i := Insert(t, x, key);
      InsertBehind(s, x, key);
      assert s == [h] + t && ([h] + i)[1..] == i;
      KeysCons(h, t, key);
      if key(h) == v {
        RemoveAtHead([h] + i, v, key);
        InsertedKeyComesFirst(t, x, key);
        InsertedStays(t, x, key);
      } else {
        AddThenDelete(t, x, key);
        RemoveBehind([h] + i, v, key);
        var r := RemoveFirst(i, v, key);
        KeysCons(h, r, key);
        assert ([h] + r)[1..] == r;
        HasKeyBehind(s, v, key);
      }
    }
  }

  lemma HasKeyBehind<T>(s: seq<T>, v: int, key: T -> int)
    requires s != [] && key(s[0]) != v
    ensures HasKey(s, v, key) <==> HasKey(s[1..], v, key)
  {
    if HasKey(s, v, key) {
      var i :| 0 <= i < |s| && key(s[i]) == v;
      assert key(s[1..][i - 1]) == v;
    }
    if HasKey(s[1..], v, key) {
      var i :| 0 <= i < |s[1..]| && key(s[1..][i]) == v;
      assert key(s[i + 1]) == v;
    }
  }

  /* ----- any run of additions and deletions ----- */

  datatype Cmd<T> = Add(x: T) | Del(v: int)

  function PlayOne<T>(s: seq<T>, cmd: Cmd<T>, key: T -> int): seq<T> {
    match cmd
    case Add(x) => Insert(s, x, key)
    case Del(v) => RemoveFirst(s, v, key)
  }

  function Play<T>(s: seq<T>, cmds: seq<Cmd<T>>, key: T -> int): seq<T>
    decreases |cmds|
  {
    if cmds == [] then s else Play(PlayOne(s, cmds[0], key), cmds[1..], key)
  }

  /** Everything that the commands add. */
  function Added<T(==)>(cmds: seq<Cmd<T>>): set<T> {
    if cmds == [] then {} else (if cmds[0].Add? then {cmds[0].x} else {}) + Added(cmds[1..])
  }

  /** One value's entries on their own: additions queue up, a deletion takes the oldest. */
  function Queue<T>(q: seq<T>, cmds: seq<Cmd<T>>, v: int, key: T -> int): seq<T>
    decreases |cmds|
  {
    if cmds == [] then q
    else
      var q' := match cmds[0]
                case Add(x) => if key(x) == v then q + [x] else q
                case Del(w) => if w == v && q != [] then q[1..] else q;
      Queue(q', cmds[1..], v, key)
  }

  lemma {:induction false} RemoveTakesOldest<T>(s: seq<T>, w: int, v: int, key: T -> int)
    ensures var q := OfKey(s, v, key);
            OfKey(RemoveFirst(s, w, key), v, key) == if w == v && q != [] then q[1..] else q
    decreases |s|
  {
    if s != [] {
      if key(s[0]) == w {
        RemoveAtHead(s, w, key);
      } else {
        RemoveBehind(s, w, key);
        RemoveTakesOldest(s[1..], w, v, key);
        OfKeyCons(s[0], RemoveFirst(s[1..], w, key), v, key);
      }
    }
  }

  /** After any run of additions and deletions the list is in descending order and, value by value,
      a FIFO queue. By StableSortIsUnique this determines the list. */
  lemma {:induction false} RunsAreSortedQueues<T>(s: seq<T>, cmds: seq<Cmd<T>>, v: int, key: T -> int)
    requires Descending(s, key)
    ensures Descending(Play(s, cmds, key), key)
    ensures OfKey(Play(s, cmds, key), v, key) == Queue(OfKey(s, v, key), cmds, v, key)
    decreases |cmds|
  {
    if cmds != [] {
      match cmds[0] {
        case Add(x) =>
          InsertKeepsDescending(s, x, key);
          InsertIsStable(s, x, v, key);
          assert OfKey(s, v, key) + [] == OfKey(s, v, key);
          RunsAreSortedQueues(Insert(s, x, key), cmds[1..], v, key);
        case Del(w) =>
          RemoveKeepsDescending(s, w, key);
          RemoveTakesOldest(s, w, v, key);
          RunsAreSortedQueues(RemoveFirst(s, w, key), cmds[1..], v, key);
      }
    }
  }

  /** Behind a head nothing is different. */
  lemma InsertAtBehind<T>(h: T, s: seq<T>, p: nat, x: T)
    requires p <= |s|
    ensures InsertAt([h] + s, p + 1, x) == [h] + InsertAt(s, p, x)
  {}

  lemma RemoveAtBehind<T>(h: T, s: seq<T>, p: nat)
    requires p < |s|
    ensures RemoveAt([h] + s, p + 1) == [h] + RemoveAt(s, p)
  {}
}

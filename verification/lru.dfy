/**
 * The LRU list of buffers: a fixed set of nodes kept from most to least
 * recently used, and the map `usados` from block keys to the node holding
 * each block.
 *
 * A node is identified by its `value` (the buffer number, fixed at
 * construction, 0 .. n - 1). The doubly linked list is the sequence `order`
 * of node values from head to tail, and `keys[v]` is the `key` field of node
 * `v`; the map sends a key to the value of its node.
 */
module Lru {
  import opened Base

  /** `Integer.MIN_VALUE`, the key every node starts with. */
  const SENTINEL: int := -0x8000_0000

  datatype State = State(order: seq<int>, keys: seq<int>, usados: map<int, int>)

  /** Node `v` is on the list. */
  predicate OnList(order: seq<int>, v: int)
  {
    v in order
  }

  /** Key `k` is in the map. */
  predicate Bound(l: State, k: int)
  {
    k in l.usados
  }

  /** `order` lists every node exactly once, and every key in the map names
      a node whose key field holds that key. */
  ghost predicate Valid(l: State)
  {
    && |l.keys| >= 2 && |l.order| == |l.keys| && Distinct(l.order)
    && (forall i :: 0 <= i < |l.order| ==> 0 <= l.order[i] < |l.keys|)
    && (forall v :: 0 <= v < |l.keys| ==> OnList(l.order, v))
    && (forall k :: Bound(l, k) ==> 0 <= l.usados[k] < |l.keys| && l.keys[l.usados[k]] == k)
  }

  /** The converse as well: a node whose key is in the map is the node the
      map names, and a node is unbound only while it keeps the sentinel. */
  ghost predicate Consistent(l: State)
  {
    && Valid(l)
    && (forall v :: 0 <= v < |l.keys| && l.keys[v] in l.usados ==> l.usados[l.keys[v]] == v)
    && (forall v :: 0 <= v < |l.keys| && l.keys[v] != SENTINEL ==> l.keys[v] in l.usados)
  }

  /** `new LRU(capacity)`: the first two nodes are always built, then one
      per value below `capacity`; `new HashMap<>(capacity)` refuses a
      negative capacity. */
  function Create(capacity: int): (res: Result<State>)
    ensures res.Success? <==> capacity >= 0
    ensures res.Success? ==> Consistent(res.value)
    ensures res.Success? ==> |res.value.order| == (if capacity < 2 then 2 else capacity)
    ensures res.Success? ==> forall i :: 0 <= i < |res.value.order| ==> res.value.order[i] == i
    ensures res.Success? ==> forall i :: 0 <= i < |res.value.keys| ==> res.value.keys[i] == SENTINEL
    ensures res.Success? ==> res.value.usados == map[]
  {
    if capacity < 0 then Failure("IllegalArgumentException")
    else
      var n := if capacity < 2 then 2 else capacity;
      var order := seq(n, i => i);
      DistinctFromPlaces(order);
      assert forall v :: 0 <= v < n ==> OnList(order, v) by {
        forall v | 0 <= v < n
          ensures OnList(order, v)
        {
          assert order[v] == v;
        }
      }
      Success(State(order, seq(n, _ => SENTINEL), map[]))
  }

  /** The position of node `v` in the list. */
  function IndexOf(s: seq<int>, v: int): (i: nat)
    requires v in s
    ensures i < |s| && s[i] == v
    ensures forall j :: 0 <= j < i ==> s[j] != v
  {
    if s[0] == v then 0 else 1 + IndexOf(s[1..], v)
  }

  /** `bringToFront(no)`: unlinks the node and relinks it as the head; a
      no-op when it already is the head. */
  function BringToFront(order: seq<int>, v: int): (r: seq<int>)
    requires v in order
    ensures |r| == |order| && r[0] == v
    ensures order[0] == v ==> r == order
    ensures r[1..] == order[..IndexOf(order, v)] + order[IndexOf(order, v) + 1..]
  {
    var i := IndexOf(order, v);
    if i == 0 then order else Moved(order, i)
  }

  /** The list with the entry at `i` moved to the front. */
  function Moved(order: seq<int>, i: int): (r: seq<int>)
    requires 0 < i < |order|
    ensures |r| == |order|
  {
    [order[i]] + order[..i] + order[i + 1..]
  }

  /** The place of `order` that place `a` of `Moved(order, i)` comes from. */
  function Source(i: int, a: int): int
  {
    if a == 0 then i else if a <= i then a - 1 else a
  }

  lemma {:induction false} MovedPlace(order: seq<int>, i: int, a: int)
    requires 0 < i < |order| && 0 <= a < |order|
    ensures 0 <= Source(i, a) < |order| && Moved(order, i)[a] == order[Source(i, a)]
  {
    if 0 < a <= i {
      assert Moved(order, i)[a] == order[..i][a - 1];
    } else if a > i {
      assert Moved(order, i)[a] == order[i + 1..][a - i - 1];
    }
  }

  /** Moving an entry to the front keeps the same entries. */
  lemma {:induction false} MovedSameNodes(order: seq<int>, i: int)
    requires 0 < i < |order|
    ensures multiset(Moved(order, i)) == multiset(order)
  {
    assert order == order[..i] + [order[i]] + order[i + 1..];
  }

  /** Moving an entry to the front keeps the entries pairwise different. */
  lemma {:induction false} MovedDistinct(order: seq<int>, i: int)
    requires Distinct(order) && 0 < i < |order|
    ensures Distinct(Moved(order, i))
  {
    var r := Moved(order, i);
    forall a, b | 0 <= a < b < |r|
      ensures r[a] != r[b]
    {
      MovedPlace(order, i, a);
      MovedPlace(order, i, b);
      var pa, pb := Source(i, a), Source(i, b);
      if pa < pb {
        DistinctAt(order, pa, pb);
      } else {
        DistinctAt(order, pb, pa);
      }
    }
    DistinctFromPlaces(r);
  }

  /** Moving a node to the front keeps the same nodes, and keeps them
      pairwise different. */
  lemma {:induction false} BringToFrontKeeps(order: seq<int>, v: int)
    requires v in order
    ensures multiset(BringToFront(order, v)) == multiset(order)
    ensures Distinct(order) ==> Distinct(BringToFront(order, v))
  {
    var i := IndexOf(order, v);
    if i != 0 {
      MovedSameNodes(order, i);
      if Distinct(order) {
        MovedDistinct(order, i);
      }
    }
  }

  /** Moving a node to the front keeps the list a permutation of the
      nodes. */
  lemma {:induction false} BringToFrontValid(l: State, v: int)
    requires Valid(l) && 0 <= v < |l.keys|
    ensures v in l.order
    ensures Valid(l.(order := BringToFront(l.order, v)))
  {
    assert OnList(l.order, v);
    var r := BringToFront(l.order, v);
    BringToFrontKeeps(l.order, v);
    forall i | 0 <= i < |r|
      ensures 0 <= r[i] < |l.keys|
    {
      assert r[i] in multiset(l.order);
    }
    forall w | 0 <= w < |l.keys|
      ensures OnList(r, w)
    {
      assert OnList(l.order, w);
      assert w in multiset(l.order);
    }
  }

  /** On a duplicate-free list, the tail moved to the front rotates the
      list by one. */
  lemma {:induction false} TailToFront(order: seq<int>)
    requires Distinct(order) && |order| >= 2
    ensures BringToFront(order, order[|order| - 1]) == [order[|order| - 1]] + order[..|order| - 1]
  {
    var n := |order|;
    LastIndex(order);
    assert order[n..] == [];
    assert Moved(order, n - 1) == [order[n - 1]] + order[..n - 1];
  }

  /** On a duplicate-free list, the last node is found at the end. */
  lemma {:induction false} LastIndex(order: seq<int>)
    requires Distinct(order) && |order| >= 1
    ensures IndexOf(order, order[|order| - 1]) == |order| - 1
  {
    var n := |order|;
    var i := IndexOf(order, order[n - 1]);
    if i < n - 1 {
      DistinctAt(order, i, n - 1);
    }
  }

  /** `use(blocoId)` as written: a key in the map brings its node to the
      front; any other key takes the tail node, removes the tail's old key
      from the map whatever node that key is bound to, and binds the new
      key. Returns the node's value. */
  function UseAsWritten(l: State, k: int): (out: (int, State))
    requires Valid(l)
    ensures Valid(out.1) && |out.1.keys| == |l.keys|
    ensures out.1.order[0] == out.0 && k in out.1.usados && out.1.usados[k] == out.0
    ensures k in l.usados ==> out.0 == l.usados[k] && out.1 == l.(order := out.1.order)
    ensures k !in l.usados ==> out.0 == l.order[|l.order| - 1]
    ensures k !in l.usados ==> forall k' :: k' != k ==> (k' in out.1.usados <==> k' in l.usados && k' != l.keys[out.0])
  {
    if k in l.usados then
      var v := l.usados[k];
      BringToFrontValid(l, v);
      (v, l.(order := BringToFront(l.order, v)))
    else
      var v := l.order[|l.order| - 1];
      var l' := State(BringToFront(l.order, v), l.keys[v := k], (l.usados - {l.keys[v]})[k := v]);
      BringToFrontValid(l, v);
      assert Valid(l') by {
        forall k' | Bound(l', k')
          ensures 0 <= l'.usados[k'] < |l'.keys| && l'.keys[l'.usados[k']] == k'
        {
          if k' != k {
            assert Bound(l, k');
          }
        }
      }
      (v, l')
  }

  /** The corrected `use(blocoId)`: the tail's old key is removed from the
      map only while it is still bound to the tail. */
  function Use(l: State, k: int): (out: (int, State))
    requires Valid(l)
    ensures Valid(out.1) && |out.1.keys| == |l.keys|
    ensures out.1.order[0] == out.0 && k in out.1.usados && out.1.usados[k] == out.0
    ensures k in l.usados ==> out.0 == l.usados[k] && out.1 == l.(order := out.1.order)
    ensures k !in l.usados ==> out.0 == l.order[|l.order| - 1]
  {
    if k in l.usados then
      var v := l.usados[k];
      BringToFrontValid(l, v);
      (v, l.(order := BringToFront(l.order, v)))
    else
      var v := l.order[|l.order| - 1];
      var prior := l.keys[v];
      var m := if prior in l.usados && l.usados[prior] == v then l.usados - {prior} else l.usados;
      var l' := State(BringToFront(l.order, v), l.keys[v := k], m[k := v]);
      BringToFrontValid(l, v);
      assert Valid(l') by {
        forall k' | Bound(l', k')
          ensures 0 <= l'.usados[k'] < |l'.keys| && l'.keys[l'.usados[k']] == k'
        {
          if k' != k {
            assert Bound(l, k');
          }
        }
      }
      (v, l')
  }

  /** What `use(k)` does to the other keys: a miss unbinds exactly the keys
      bound to the evicted node, and every key bound elsewhere keeps its
      node. */
  lemma {:induction false} UseKeeps(l: State, k: int)
    requires Valid(l)
    ensures var out := Use(l, k);
      k !in l.usados ==> forall k' :: k' != k ==> (k' in out.1.usados <==> k' in l.usados && l.usados[k'] != out.0)
    ensures var out := Use(l, k);
      forall k' :: k' in l.usados && l.usados[k'] != out.0 ==> k' in out.1.usados && out.1.usados[k'] == l.usados[k']
  {
    var (v, l') := Use(l, k);
    if k !in l.usados {
      forall k' | k' != k
        ensures k' in l'.usados <==> k' in l.usados && l.usados[k'] != v
      {
        if k' in l.usados && l.usados[k'] == v {
          assert Bound(l, k');
        }
      }
    }
  }

  /** A consistent list has no stale key, so the unconditional removal of
      `use` as written removes exactly what the corrected one removes; a
      key other than the sentinel keeps the list consistent. */
  lemma {:induction false} UseAgreesWhenConsistent(l: State, k: int)
    requires Consistent(l)
    ensures UseAsWritten(l, k) == Use(l, k)
    ensures k != SENTINEL ==> Consistent(UseAsWritten(l, k).1)
  {
    var out := UseAsWritten(l, k);
    if k !in l.usados {
      var v := l.order[|l.order| - 1];
      var prior := l.keys[v];
      if prior in l.usados {
        assert l.usados[prior] == v;
      } else {
        assert l.usados - {prior} == l.usados;
      }
      assert out == Use(l, k);
      if k != SENTINEL {
        var l' := out.1;
        forall w | 0 <= w < |l'.keys| && l'.keys[w] in l'.usados
          ensures l'.usados[l'.keys[w]] == w
        {
          if w != v {
            assert l.keys[w] != k;
            assert l.keys[w] in l.usados;
          }
        }
        forall w | 0 <= w < |l'.keys| && l'.keys[w] != SENTINEL
          ensures l'.keys[w] in l'.usados
        {
          if w != v {
            assert l.keys[w] in l.usados;
            assert l.usados[l.keys[w]] == w;
          }
        }
      }
    } else {
      assert out == Use(l, k);
    }
  }

  /** `use(k)` for successive keys, returning the values handed out. */
  function UseSeq(l: State, ks: seq<int>): (out: (seq<int>, State))
    requires Valid(l)
    ensures |out.0| == |ks| && Valid(out.1) && |out.1.keys| == |l.keys|
    decreases |ks|
  {
    if ks == [] then ([], l)
    else
      var step := Use(l, ks[0]);
      var rest := UseSeq(step.1, ks[1..]);
      ([step.0] + rest.0, rest.1)
  }

  /** `use(k)` as written, for successive keys. */
  function UseSeqAsWritten(l: State, ks: seq<int>): (out: (seq<int>, State))
    requires Valid(l)
    ensures |out.0| == |ks| && Valid(out.1) && |out.1.keys| == |l.keys|
    decreases |ks|
  {
    if ks == [] then ([], l)
    else
      var step := UseAsWritten(l, ks[0]);
      var rest := UseSeqAsWritten(step.1, ks[1..]);
      ([step.0] + rest.0, rest.1)
  }

  /** While node keys and the map agree and no client key is the sentinel,
      a whole run of `use` calls as written hands out the same buffers and
      leaves the same list as the corrected `use`. */
  lemma {:induction false} UseSeqAgrees(l: State, ks: seq<int>)
    requires Consistent(l)
    requires forall i :: 0 <= i < |ks| ==> ks[i] != SENTINEL
    ensures UseSeqAsWritten(l, ks) == UseSeq(l, ks)
    decreases |ks|
  {
    if ks != [] {
      UseAgreesWhenConsistent(l, ks[0]);
      UseSeqAgrees(UseAsWritten(l, ks[0]).1, ks[1..]);
    }
  }

  /** A key not in the map rotates the list by one and binds only that
      key. */
  lemma {:induction false} MissStep(l: State, k: int)
    requires Valid(l) && k !in l.usados
    ensures var n := |l.order|; var l' := Use(l, k).1;
      && l'.order == [l.order[n - 1]] + l.order[..n - 1]
      && (forall j :: 1 <= j < n ==> FromTail(l'.order, j - 1) == FromTail(l.order, j))
      && forall k' :: k' != k && k' !in l.usados ==> k' !in l'.usados
  {
    TailToFront(l.order);
    UseKeeps(l, k);
    RotatedTails(l.order, Use(l, k).1.order);
  }

  /** Rotating the tail to the front shifts the entries counted from the
      tail by one. */
  lemma {:induction false} RotatedTails(order: seq<int>, rotated: seq<int>)
    requires |order| >= 1 && rotated == [order[|order| - 1]] + order[..|order| - 1]
    ensures forall j :: 1 <= j < |order| ==> FromTail(rotated, j - 1) == FromTail(order, j)
    ensures FromTail(rotated, |order| - 1) == FromTail(order, 0)
  {
  }

  /** `ks` are pairwise distinct keys, none of them in the map. */
  ghost predicate Misses(l: State, ks: seq<int>)
  {
    Valid(l) && Distinct(ks) && forall i :: 0 <= i < |ks| ==> ks[i] !in l.usados
  }

  /** After a key not in the map, the remaining distinct keys are still
      not in the map. */
  lemma {:induction false} RestStillMissing(l: State, ks: seq<int>)
    requires Misses(l, ks) && |ks| >= 1
    ensures Misses(Use(l, ks[0]).1, ks[1..])
  {
    var l' := Use(l, ks[0]).1;
    MissStep(l, ks[0]);
    var tail := ks[1..];
    forall i | 0 <= i < |tail|
      ensures tail[i] !in l'.usados
    {
      DistinctAt(ks, 0, i + 1);
      assert tail[i] == ks[i + 1];
    }
  }

  lemma {:induction false} UseSeqCons(l: State, ks: seq<int>)
    requires Valid(l) && ks != []
    ensures UseSeq(l, ks).0 == [Use(l, ks[0]).0] + UseSeq(Use(l, ks[0]).1, ks[1..]).0
  {
  }

  /** Keys not in the map take the nodes from the tail backwards, the
      `j`-th such key the `j`-th node from the tail; once every node has
      been taken they go round again, each key taking the node of the key
      `n` places before it. */
  lemma {:induction false} MissesTakeTails(l: State, ks: seq<int>)
    requires Valid(l) && Distinct(ks)
    requires forall i :: 0 <= i < |ks| ==> ks[i] !in l.usados
    ensures var out := UseSeq(l, ks);
      forall j :: 0 <= j < |ks| && j < |l.order| ==> out.0[j] == FromTail(l.order, j)
    ensures var out := UseSeq(l, ks);
      forall j :: |l.order| <= j < |ks| ==> out.0[j] == out.0[j - |l.order|]
  {
    MissesRun(l, ks);
    TailRunCycles(l.order, |ks|);
  }

  /** The list after its tail node moves to the front. */
  function Rotate(order: seq<int>): (r: seq<int>)
    requires |order| >= 1
    ensures |r| == |order|
  {
    [order[|order| - 1]] + order[..|order| - 1]
  }

  /** The nodes `m` misses take, one rotation after another. */
  function TailRun(order: seq<int>, m: nat): (r: seq<int>)
    requires |order| >= 1
    ensures |r| == m
    decreases m
  {
    if m == 0 then [] else [order[|order| - 1]] + TailRun(Rotate(order), m - 1)
  }

  /** A run of keys not in the map is handed out the tail run of the
      list. */
  lemma {:induction false} MissesRun(l: State, ks: seq<int>)
    requires Misses(l, ks)
    ensures UseSeq(l, ks).0 == TailRun(l.order, |ks|)
    decreases |ks|
  {
    if ks != [] {
      MissFirst(l, ks);
      MissesRun(Use(l, ks[0]).1, ks[1..]);
    }
  }

  /** The first of a run of misses: it hands out the tail node, rotates the
      list, and leaves the other keys still missing. */
  lemma {:induction false} MissFirst(l: State, ks: seq<int>)
    requires Misses(l, ks) && ks != []
    ensures Misses(Use(l, ks[0]).1, ks[1..])
    ensures UseSeq(l, ks).0 == [l.order[|l.order| - 1]] + UseSeq(Use(l, ks[0]).1, ks[1..]).0
    ensures Use(l, ks[0]).1.order == Rotate(l.order)
  {
    RestStillMissing(l, ks);
    MissHead(l, ks);
  }

  /** The tail run reads the list back from its tail, then goes round
      again. */
  lemma {:induction false} TailRunCycles(order: seq<int>, m: nat)
    requires |order| >= 1
    ensures forall j :: 0 <= j < m && j < |order| ==> TailRun(order, m)[j] == FromTail(order, j)
    ensures forall j :: |order| <= j < m ==> TailRun(order, m)[j] == TailRun(order, m)[j - |order|]
    decreases m
  {
    if m > 0 {
      TailRunCycles(Rotate(order), m - 1);
      CycledTails(TailRun(order, m), TailRun(Rotate(order), m - 1), order, Rotate(order));
    }
  }

  /** On a miss, the first value handed out is the tail node, and the tail
      node moves to the front. */
  lemma {:induction false} MissHead(l: State, ks: seq<int>)
    requires Valid(l) && ks != [] && ks[0] !in l.usados
    ensures UseSeq(l, ks).0 == [l.order[|l.order| - 1]] + UseSeq(Use(l, ks[0]).1, ks[1..]).0
    ensures Use(l, ks[0]).1.order == Rotate(l.order)
  {
    UseSeqCons(l, ks);
    TailToFront(l.order);
  }

  /** The inductive step: prepending the old tail to values that the
      rotated list hands out from its tail, and then round again, gives
      values the original list hands out the same way. */
  lemma {:induction false} CycledTails(out: seq<int>, rest: seq<int>, order: seq<int>, rotated: seq<int>)
    requires |order| == |rotated| >= 1 && out == [order[|order| - 1]] + rest
    requires rotated == [order[|order| - 1]] + order[..|order| - 1]
    requires forall j :: 0 <= j < |rest| && j < |order| ==> rest[j] == FromTail(rotated, j)
    requires forall j :: |order| <= j < |rest| ==> rest[j] == rest[j - |order|]
    ensures forall j :: 0 <= j < |out| && j < |order| ==> out[j] == FromTail(order, j)
    ensures forall j :: |order| <= j < |out| ==> out[j] == out[j - |order|]
  {
    var n := |order|;
    RotatedTails(order, rotated);
    forall j | 1 <= j < |out|
      ensures j < n ==> out[j] == FromTail(order, j)
      ensures n <= j ==> out[j] == out[j - n]
    {
      assert out[j] == rest[j - 1];
      if j > n {
        assert out[j - n] == rest[j - n - 1];
      }
    }
  }

  /** On a new list, the key after the first `n` distinct keys takes the
      buffer of the first: with three buffers, keys 1, 2, 3 and 4 receive
      three different buffers and then the first one again. */
  lemma {:induction false} EvictsFirstWhenFull(capacity: int, ks: seq<int>)
    requires capacity >= 2 && Distinct(ks) && |ks| == capacity + 1
    ensures Create(capacity).Success?
    ensures var out := UseSeq(Create(capacity).value, ks);
      && (forall i, j :: 0 <= i < j < capacity ==> out.0[i] != out.0[j])
      && out.0[capacity] == out.0[0]
  {
    var l := Create(capacity).value;
    var out := UseSeq(l, ks).0;
    MissesTakeTails(l, ks);
    TailsDistinct(l.order, out[..capacity]);
    assert out[capacity] == out[capacity - capacity];
  }

  /** The `j`-th entry counting back from the tail. */
  function FromTail(s: seq<int>, j: int): int
    requires 0 <= j < |s|
  {
    s[|s| - 1 - j]
  }

  /** The first `capacity` distinct keys used on a new list receive
      pairwise distinct buffers. */
  lemma {:induction false} FirstKeysDistinct(capacity: int, ks: seq<int>)
    requires capacity >= 2 && Distinct(ks) && |ks| <= capacity
    ensures Create(capacity).Success?
    ensures var out := UseSeq(Create(capacity).value, ks);
      forall i, j :: 0 <= i < j < |ks| ==> out.0[i] != out.0[j]
  {
    var l := Create(capacity).value;
    MissesTakeTails(l, ks);
    TailsDistinct(l.order, UseSeq(l, ks).0);
  }

  /** `LRUTest.usoMaisRemotoCedeEspaco` against `use` as written: on a new
      list of `n` buffers, `n` distinct keys other than the sentinel receive
      pairwise distinct buffers, and the next one the first key's buffer. */
  lemma {:induction false} EvictsFirstWhenFullAsWritten(capacity: int, ks: seq<int>)
    requires capacity >= 2 && Distinct(ks) && |ks| == capacity + 1
    requires forall i :: 0 <= i < |ks| ==> ks[i] != SENTINEL
    ensures Create(capacity).Success?
    ensures var out := UseSeqAsWritten(Create(capacity).value, ks);
      && (forall i, j :: 0 <= i < j < capacity ==> out.0[i] != out.0[j])
      && out.0[capacity] == out.0[0]
  {
    EvictsFirstWhenFull(capacity, ks);
    UseSeqAgrees(Create(capacity).value, ks);
  }

  /** `LRUTest.cadaBlocoBufferDistinto` against `use` as written: up to
      `capacity` distinct keys other than the sentinel on a new list receive
      pairwise distinct buffers. */
  lemma {:induction false} FirstKeysDistinctAsWritten(capacity: int, ks: seq<int>)
    requires capacity >= 2 && Distinct(ks) && |ks| <= capacity
    requires forall i :: 0 <= i < |ks| ==> ks[i] != SENTINEL
    ensures Create(capacity).Success?
    ensures var out := UseSeqAsWritten(Create(capacity).value, ks);
      forall i, j :: 0 <= i < j < |ks| ==> out.0[i] != out.0[j]
  {
    FirstKeysDistinct(capacity, ks);
    UseSeqAgrees(Create(capacity).value, ks);
  }

  /** Values read back from the tail of a list without repetitions are
      pairwise distinct. */
  lemma {:induction false} TailsDistinct(order: seq<int>, out: seq<int>)
    requires Distinct(order) && |out| <= |order|
    requires forall j :: 0 <= j < |out| ==> out[j] == FromTail(order, j)
    ensures forall i, j :: 0 <= i < j < |out| ==> out[i] != out[j]
  {
    var n := |order|;
    forall i, j | 0 <= i < j < |out|
      ensures out[i] != out[j]
    {
      assert out[i] == FromTail(order, i) && out[j] == FromTail(order, j);
      DistinctAt(order, n - 1 - j, n - 1 - i);
    }
  }

  /** A key just used is evicted only after every other node: after
      `use(k)` on a bound key, `n - 1` new keys take the other `n - 1`
      buffers, and only the `n`-th takes `k`'s buffer. */
  lemma {:induction false} ReusedEvictedLast(l: State, k: int, ks: seq<int>)
    requires Valid(l) && k in l.usados && Distinct(ks) && |ks| == |l.order|
    requires forall i :: 0 <= i < |ks| ==> ks[i] !in l.usados && ks[i] != k
    ensures var s := Use(l, k); var out := UseSeq(s.1, ks);
      && (forall j :: 0 <= j < |ks| - 1 ==> out.0[j] != s.0)
      && out.0[|ks| - 1] == s.0
  {
    var s := Use(l, k);
    assert s.1.usados == l.usados;
    HeadTakenLast(s.1, ks);
  }

  /** As many new keys as there are nodes take the head node last, and only
      then. */
  lemma {:induction false} HeadTakenLast(l: State, ks: seq<int>)
    requires Valid(l) && Distinct(ks) && |ks| == |l.order|
    requires forall i :: 0 <= i < |ks| ==> ks[i] !in l.usados
    ensures var out := UseSeq(l, ks);
      && (forall j :: 0 <= j < |ks| - 1 ==> out.0[j] != l.order[0])
      && out.0[|ks| - 1] == l.order[0]
  {
    MissesTakeTails(l, ks);
    FrontComesLast(l.order, UseSeq(l, ks).0);
  }

  /** Reading a whole list without repetitions back from its tail meets its
      head last and only there. */
  lemma {:induction false} FrontComesLast(order: seq<int>, out: seq<int>)
    requires Distinct(order) && |out| == |order| >= 1
    requires forall j :: 0 <= j < |out| ==> out[j] == FromTail(order, j)
    ensures forall j :: 0 <= j < |out| - 1 ==> out[j] != order[0]
    ensures out[|out| - 1] == order[0]
  {
    var n := |order|;
    forall j | 0 <= j < n - 1
      ensures out[j] != order[0]
    {
      assert out[j] == FromTail(order, j);
      DistinctAt(order, 0, n - 1 - j);
    }
    assert out[n - 1] == FromTail(order, n - 1);
  }

  /** As written, a client key equal to the sentinel is lost: with three or
      more buffers, `use(MIN_VALUE)` takes the last buffer, `use(1)` then
      evicts a node still carrying the sentinel and so removes
      `MIN_VALUE`'s binding, and the next `use(MIN_VALUE)` takes yet another
      buffer although its block was not evicted. The corrected `use`
      returns the same buffer. */
  lemma {:induction false} SentinelKeyLost(capacity: int)
    requires capacity >= 3 && 1 != SENTINEL
    ensures Create(capacity).Success?
    ensures var l := Create(capacity).value;
      var a := UseAsWritten(l, SENTINEL);
      var b := UseAsWritten(a.1, 1);
      var c := UseAsWritten(b.1, SENTINEL);
      a.0 == capacity - 1 && c.0 == capacity - 3
    ensures var l := Create(capacity).value;
      var a := Use(l, SENTINEL);
      var b := Use(a.1, 1);
      var c := Use(b.1, SENTINEL);
      a.0 == c.0 == capacity - 1
  {
    var n := capacity;
    var l := Create(n).value;
    TailToFront(l.order);
    var a := UseAsWritten(l, SENTINEL);
    assert a.1.order == [n - 1] + l.order[..n - 1];
    TailToFront(a.1.order);
    var b := UseAsWritten(a.1, 1);
    assert a.1.order[n - 1] == n - 2;
    assert a.1.keys[n - 2] == SENTINEL;
    assert b.1.order == [n - 2] + a.1.order[..n - 1];
    assert SENTINEL !in b.1.usados;
    assert b.1.order[n - 1] == n - 3;
    var a' := Use(l, SENTINEL);
    assert a' == a;
    var b' := Use(a'.1, 1);
    UseKeeps(a'.1, 1);
    assert a'.1.usados[SENTINEL] == n - 1;
    assert SENTINEL in b'.1.usados && b'.1.usados[SENTINEL] == n - 1;
  }
}

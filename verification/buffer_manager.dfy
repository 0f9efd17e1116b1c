/**
 * The buffer manager's pin/unpin bookkeeping: `lock` hands out the buffer
 * holding a block and counts the references to it, `unlock` drops one
 * reference and returns the buffer to the pool of unlocked buffers when
 * the last one goes.
 *
 * A `Bloco` is identified by the buffer it is permanently tied to. The
 * pool of unlocked `Bloco`s, which the manager draws from and returns to
 * through its LRU, is the sequence `free`: `lock` takes its first element
 * and `unlock` appends. Blocks are keyed by their block number only; the
 * file identifier both operations receive is never read, so it is not a
 * parameter here.
 */
module BufferManager {
  import opened Base

  /** A buffer tied for good to `buffer` and the number of references to
      the block it currently holds. */
  datatype Bloco = Bloco(buffer: int, contador: int)

  /** `locked` maps block numbers to their `Bloco`; `free` is the pool. */
  datatype State = State(locked: map<int, Bloco>, free: seq<int>)

  /** Every locked block is referenced at least once, no buffer serves two
      locked blocks, and no buffer is both locked and in the pool or twice
      in the pool. */
  predicate Valid(s: State)
  {
    && Distinct(s.free)
    && (forall b :: b in s.locked ==> s.locked[b].contador >= 1 && s.locked[b].buffer !in s.free)
    && (forall a, b :: a in s.locked && b in s.locked && a != b ==> s.locked[a].buffer != s.locked[b].buffer)
  }

  /** The buffers of the locked blocks. */
  function LockedBuffers(m: map<int, Bloco>): set<int>
  {
    set b | b in m :: m[b].buffer
  }

  /** All buffers the manager owns, locked or not. */
  function Pool(s: State): set<int>
  {
    (set x | x in s.free) + LockedBuffers(s.locked)
  }

  lemma {:induction false} RecountKeepsBuffers(m: map<int, Bloco>, k: int, c: int)
    requires k in m
    ensures LockedBuffers(m[k := m[k].(contador := c)]) == LockedBuffers(m)
  {
    var m' := m[k := m[k].(contador := c)];
    forall y | y in LockedBuffers(m)
      ensures y in LockedBuffers(m')
    {
      var b :| b in m && m[b].buffer == y;
      assert m'[b].buffer == y;
    }
  }

  lemma {:induction false} AddBuffer(m: map<int, Bloco>, k: int, x: int)
    requires k !in m
    ensures LockedBuffers(m[k := Bloco(x, 1)]) == LockedBuffers(m) + {x}
  {
    var m' := m[k := Bloco(x, 1)];
    assert m'[k].buffer == x;
    forall y | y in LockedBuffers(m)
      ensures y in LockedBuffers(m')
    {
      var b :| b in m && m[b].buffer == y;
      assert m'[b].buffer == y;
    }
  }

  lemma {:induction false} RemoveBuffer(m: map<int, Bloco>, k: int)
    requires k in m
    ensures LockedBuffers(m - {k}) + {m[k].buffer} == LockedBuffers(m)
  {
    var m' := m - {k};
    forall y | y in LockedBuffers(m)
      ensures y in LockedBuffers(m') + {m[k].buffer}
    {
      var b :| b in m && m[b].buffer == y;
      if b != k {
        assert m'[b].buffer == y;
      }
    }
  }

  /** `start(totalBuffers)`: no block locked, every buffer in the pool;
      `new HashMap<>(totalBuffers)` refuses a negative size. */
  function Start(totalBuffers: int): (res: Result<State>)
    ensures res.Success? <==> totalBuffers >= 0
    ensures res.Success? ==> Valid(res.value) && res.value.locked == map[]
    ensures res.Success? ==> |res.value.free| == totalBuffers
    ensures res.Success? ==> forall x :: x in Pool(res.value) <==> 0 <= x < totalBuffers
  {
    if totalBuffers < 0 then Failure("IllegalArgumentException")
    else
      var free := seq(totalBuffers, i => i);
      DistinctFromPlaces(free);
      forall x | 0 <= x < totalBuffers
        ensures x in free
      {
        assert free[x] == x;
      }
      Success(State(map[], free))
  }

  /** `lock(fileId, blocoId)`. A locked block gains a reference and keeps
      its buffer; any other block takes the first buffer of the pool with
      one reference. With the pool empty the source waits for an
      `unlock`, so a call needs the block locked or a buffer free. */
  function Lock(s: State, blocoId: int): (r: (int, State))
    requires Valid(s) && (blocoId in s.locked || s.free != [])
    ensures Valid(r.1)
    ensures |r.1.free| + |r.1.locked| == |s.free| + |s.locked|
    ensures r.1.locked.Keys == s.locked.Keys + {blocoId}
    ensures blocoId in s.locked ==>
      && r.0 == s.locked[blocoId].buffer
      && r.1.locked[blocoId].contador == s.locked[blocoId].contador + 1
      && r.1.free == s.free
    ensures blocoId !in s.locked ==>
      && r.0 == s.free[0] && r.1.locked[blocoId].contador == 1
      && r.1.free == s.free[1..]
    ensures r.1.locked[blocoId].buffer == r.0
    ensures forall b :: b in s.locked && b != blocoId ==> r.1.locked[b] == s.locked[b]
  {
    if blocoId in s.locked then
      var bloco := s.locked[blocoId];
      RecountedValid(s, blocoId, bloco.contador + 1);
      (bloco.buffer, Recounted(s, blocoId, bloco.contador + 1))
    else
      TakenValid(s, blocoId);
      (s.free[0], Taken(s, blocoId))
  }

  /** `unlock(fileId, blocoId)`. A block that is not locked is ignored;
      otherwise it loses a reference, and when none is left it leaves
      `locked` and its buffer goes to the back of the pool. */
  function Unlock(s: State, blocoId: int): (r: State)
    requires Valid(s)
    ensures Valid(r)
    ensures |r.free| + |r.locked| == |s.free| + |s.locked|
    ensures blocoId !in s.locked ==> r == s
    ensures blocoId in s.locked && s.locked[blocoId].contador > 1 ==>
      && r.locked.Keys == s.locked.Keys
      && r.locked[blocoId] == s.locked[blocoId].(contador := s.locked[blocoId].contador - 1)
      && r.free == s.free
    ensures blocoId in s.locked && s.locked[blocoId].contador == 1 ==>
      && r.locked.Keys == s.locked.Keys - {blocoId}
      && r.free == s.free + [s.locked[blocoId].buffer]
    ensures forall b :: b in s.locked && b != blocoId ==> b in r.locked && r.locked[b] == s.locked[b]
  {
    if blocoId !in s.locked then s
    else
      var bloco := s.locked[blocoId];
      if bloco.contador - 1 == 0 then
        ReleasedValid(s, blocoId);
        Released(s, blocoId)
      else
        RecountedValid(s, blocoId, bloco.contador - 1);
        Recounted(s, blocoId, bloco.contador - 1)
  }

  /** A locked block with its count set to `c`. */
  function Recounted(s: State, blocoId: int, c: int): State
    requires blocoId in s.locked
  {
    s.(locked := s.locked[blocoId := s.locked[blocoId].(contador := c)])
  }

  /** A block that was not locked given the first buffer of the pool. */
  function Taken(s: State, blocoId: int): State
    requires s.free != []
  {
    State(s.locked[blocoId := Bloco(s.free[0], 1)], s.free[1..])
  }

  /** A locked block dropped, its buffer put at the back of the pool. */
  function Released(s: State, blocoId: int): State
    requires blocoId in s.locked
  {
    State(s.locked - {blocoId}, s.free + [s.locked[blocoId].buffer])
  }

  lemma {:induction false} RecountedValid(s: State, blocoId: int, c: int)
    requires Valid(s) && blocoId in s.locked && c >= 1
    ensures Valid(Recounted(s, blocoId, c))
  {
  }

  lemma {:induction false} TakenValid(s: State, blocoId: int)
    requires Valid(s) && blocoId !in s.locked && s.free != []
    ensures Valid(Taken(s, blocoId))
  {
    assert s.free == [s.free[0]] + s.free[1..];
  }

  lemma {:induction false} ReleasedValid(s: State, blocoId: int)
    requires Valid(s) && blocoId in s.locked
    ensures Valid(Released(s, blocoId))
  {
    DistinctAppend(s.free, s.locked[blocoId].buffer);
  }

  /** `lock` neither creates nor loses a buffer. */
  lemma {:induction false} LockKeepsPool(s: State, blocoId: int)
    requires Valid(s) && (blocoId in s.locked || s.free != [])
    ensures Pool(Lock(s, blocoId).1) == Pool(s)
  {
    if blocoId in s.locked {
      RecountKeepsBuffers(s.locked, blocoId, s.locked[blocoId].contador + 1);
    } else {
      var x := s.free[0];
      var r := Taken(s, blocoId);
      assert s.free == [x] + r.free;
      AddBuffer(s.locked, blocoId, x);
      assert (set y | y in s.free) == {x} + (set y | y in r.free);
    }
  }

  /** `unlock` neither creates nor loses a buffer. */
  lemma {:induction false} UnlockKeepsPool(s: State, blocoId: int)
    requires Valid(s)
    ensures Pool(Unlock(s, blocoId)) == Pool(s)
  {
    if blocoId in s.locked {
      var c := s.locked[blocoId].contador;
      if c == 1 {
        var x := s.locked[blocoId].buffer;
        var r := Released(s, blocoId);
        RemoveBuffer(s.locked, blocoId);
        assert (set y | y in r.free) == (set y | y in s.free) + {x};
      } else {
        RecountKeepsBuffers(s.locked, blocoId, c - 1);
      }
    }
  }

  /** The pool after a block that was not locked is locked and unlocked
      once: its buffer went from the front to the back. */
  function Cycled(s: State): State
    requires s.free != []
  {
    s.(free := s.free[1..] + [s.free[0]])
  }

  /** `unlock` undoes `lock`: exactly, on a block already locked; on any
      other block, up to the buffer moving to the back of the pool. */
  lemma {:induction false} UnlockUndoesLock(s: State, blocoId: int)
    requires Valid(s) && (blocoId in s.locked || s.free != [])
    ensures Unlock(Lock(s, blocoId).1, blocoId) == if blocoId in s.locked then s else Cycled(s)
  {
    if blocoId in s.locked {
      RecountUndone(s, blocoId);
    } else {
      TakeUndone(s, blocoId);
    }
  }

  lemma {:induction false} RecountUndone(s: State, blocoId: int)
    requires Valid(s) && blocoId in s.locked
    ensures Unlock(Lock(s, blocoId).1, blocoId) == s
  {
    var c := s.locked[blocoId].contador;
    assert Lock(s, blocoId).1 == Recounted(s, blocoId, c + 1);
    assert Recounted(Recounted(s, blocoId, c + 1), blocoId, c).locked == s.locked;
  }

  lemma {:induction false} TakeUndone(s: State, blocoId: int)
    requires Valid(s) && blocoId !in s.locked && s.free != []
    ensures Unlock(Lock(s, blocoId).1, blocoId) == Cycled(s)
  {
    assert Lock(s, blocoId).1 == Taken(s, blocoId);
    assert Released(Taken(s, blocoId), blocoId).locked == s.locked;
  }

  /** `k` successive `lock`s of one block. */
  function LockRepeat(s: State, blocoId: int, k: nat): (r: State)
    requires Valid(s) && (blocoId in s.locked || s.free != [])
    ensures Valid(r)
    ensures k > 0 ==>
      && blocoId in r.locked
      && r.locked[blocoId].buffer == (if blocoId in s.locked then s.locked[blocoId].buffer else s.free[0])
      && r.locked[blocoId].contador == (if blocoId in s.locked then s.locked[blocoId].contador else 0) + k
    decreases k
  {
    if k == 0 then s else Lock(LockRepeat(s, blocoId, k - 1), blocoId).1
  }

  /** `k` successive `unlock`s of one block. */
  function UnlockRepeat(s: State, blocoId: int, k: nat): (r: State)
    requires Valid(s)
    ensures Valid(r)
    decreases k
  {
    if k == 0 then s else UnlockRepeat(Unlock(s, blocoId), blocoId, k - 1)
  }

  /** As many `unlock`s as `lock`s give the manager back its state; a
      block that was not locked has cycled its buffer through the pool. */
  lemma {:induction false} BalancedUnlocksRestore(s: State, blocoId: int, k: nat)
    requires Valid(s) && (blocoId in s.locked || s.free != []) && k > 0
    ensures UnlockRepeat(LockRepeat(s, blocoId, k), blocoId, k) == if blocoId in s.locked then s else Cycled(s)
    decreases k
  {
    if k > 1 {
      BalancedUnlocksRestore(s, blocoId, k - 1);
      PeelLock(s, blocoId, k);
    } else {
      OneRound(s, blocoId);
    }
  }

  lemma {:induction false} OneRound(s: State, blocoId: int)
    requires Valid(s) && (blocoId in s.locked || s.free != [])
    ensures UnlockRepeat(LockRepeat(s, blocoId, 1), blocoId, 1) == if blocoId in s.locked then s else Cycled(s)
  {
    assert LockRepeat(s, blocoId, 1) == Lock(s, blocoId).1;
    UnlockUndoesLock(s, blocoId);
  }

  /** One more `lock` and `unlock` of a block around a balanced run cancel. */
  lemma {:induction false} PeelLock(s: State, blocoId: int, k: nat)
    requires Valid(s) && (blocoId in s.locked || s.free != []) && k > 1
    requires UnlockRepeat(LockRepeat(s, blocoId, k - 1), blocoId, k - 1) == if blocoId in s.locked then s else Cycled(s)
    ensures UnlockRepeat(LockRepeat(s, blocoId, k), blocoId, k) == if blocoId in s.locked then s else Cycled(s)
  {
    var t := LockRepeat(s, blocoId, k - 1);
    assert LockRepeat(s, blocoId, k) == Lock(t, blocoId).1;
    LockThenUnlocks(t, blocoId, k);
  }

  /** On a locked block, a `lock` followed by `k` `unlock`s is `k - 1`
      `unlock`s. */
  lemma {:induction false} LockThenUnlocks(t: State, blocoId: int, k: nat)
    requires Valid(t) && blocoId in t.locked && k > 0
    ensures UnlockRepeat(Lock(t, blocoId).1, blocoId, k) == UnlockRepeat(t, blocoId, k - 1)
  {
    UnlockUndoesLock(t, blocoId);
  }

  /** With a single buffer, two `lock`s of block 987 get the same buffer and
      two `unlock`s return the manager to its initial state. */
  lemma {:induction false} SingleBufferScenario()
    ensures Start(1).Success?
    ensures var s := Start(1).value;
      var (b1, s1) := Lock(s, 987);
      var (b2, s2) := Lock(s1, 987);
      b1 == b2 == 0 && Unlock(Unlock(s2, 987), 987) == s
  {
    var s := Start(1).value;
    assert s.free == [0];
    var (b1, s1) := Lock(s, 987);
    var (b2, s2) := Lock(s1, 987);
    assert s2.locked == map[987 := Bloco(0, 2)];
  }
}

/**
 * The producer/consumer ring buffer.
 *
 * Producers `aloca` a slot, fill it and mark it produced (`produz`); a
 * consumer pass (`flush`) hands every produced slot to `consome`, oldest
 * first, in one contiguous run, flagging the last one, and makes them
 * available again. Slots are handed out by an ever-growing counter reduced
 * with the mask `size - 1`; since `size` is a power of two this is the
 * counter modulo `size` (`Bits.MaskIsModulo`), which is how `Slot` models it.
 *
 * The model is sequential: every compare-and-set succeeds, and `consome`,
 * a hook for subclasses, is the set `failing` of slots whose consumption
 * throws.
 */
module RingBuffer {
  import opened Base
  import Bits
  import opened Slots

  /** Default number of entries. */
  const SIZE: int := 1024

  /**
   * `ff` is the counter the next allocation takes (first free) and `lf` the
   * last counter that may be allocated before a flush (last free); the
   * allocated but not yet consumed counters are `[lf + 1 - size, ff)`.
   */
  datatype Ring = Ring(size: int, ff: int, lf: int, producao: seq<bool>, working: bool)

  /** One call of the consumer hook: `consome(slot, ultimo)`. */
  datatype Event = Consumed(slot: int, ultimo: bool)

  datatype FlushResult = FlushResult(ring: Ring, trace: seq<Event>, raised: bool)

  /** `aloca` returns a slot, propagates an exception thrown by the last
      consumer call of the flush it triggered, or keeps spinning because a
      flush frees nothing. */
  datatype Alloc =
    | Allocated(slot: int, ring: Ring, trace: seq<Event>)
    | Blocked(ring: Ring, trace: seq<Event>)
    | Raised(ring: Ring, trace: seq<Event>)

  predicate WellFormed(r: Ring)
  {
    r.size > 0 && |r.producao| == r.size && r.ff >= 0
  }

  /** The oldest allocated counter not yet consumed. */
  function FirstLive(r: Ring): int
  {
    r.lf + 1 - r.size
  }

  /** Counter `c` has been allocated and not yet consumed. */
  predicate Live(r: Ring, c: int)
  {
    FirstLive(r) <= c < r.ff
  }

  /** The ring invariant: between none and all `size` entries are live. */
  predicate Valid(r: Ring)
  {
    WellFormed(r) && 0 <= FirstLive(r) <= r.ff <= r.lf + 1
  }

  /** `entradasDisponiveis()`. */
  function Available(r: Ring): (n: int)
    ensures Valid(r) ==> 0 <= n <= r.size
    ensures Valid(r) ==> n == r.size - (r.ff - FirstLive(r))
  {
    r.lf - r.ff + 1
  }

  function Fresh(size: int): (r: Ring)
    requires size > 0
    ensures Valid(r) && Available(r) == size && !r.working
    ensures forall c :: !Live(r, c)
  {
    Ring(size, 0, size - 1, seq(size, _ => false), false)
  }

  /** `new RingBuffer(tamanho)`: only positive powers of two are accepted. */
  function Create(tamanho: bv32): (res: Result<Ring>)
    ensures res.Success? <==> exists k: bv32 :: k < 31 && tamanho == Bits.Pow2(k)
    ensures res.Success? ==> res.value.size == tamanho as int && Valid(res.value)
    ensures res.Success? ==> Available(res.value) == res.value.size
  {
    Bits.PowerOfTwoIff(tamanho);
    if Bits.IsPowerOfTwo(tamanho) then Success(Fresh(tamanho as int))
    else Failure("IllegalArgumentException")
  }

  /** `new RingBuffer(tamanho)` as written: `lf` starts at `SIZE - 1` whatever
      `size` is, so the first `SIZE` allocations never wait for a flush. */
  function CreateAsWritten(tamanho: bv32): (res: Result<Ring>)
    ensures res.Success? <==> Bits.IsPowerOfTwo(tamanho)
    ensures res.Success? ==> WellFormed(res.value) && Available(res.value) == SIZE
  {
    if Bits.IsPowerOfTwo(tamanho) then
      Success(Ring(tamanho as int, 0, SIZE - 1, seq(tamanho as int, _ => false), false))
    else Failure("IllegalArgumentException")
  }

  /** `produz(v)`: marks slot `v` produced. */
  function Produz(r: Ring, v: int): (res: Result<Ring>)
    requires WellFormed(r)
    ensures res.Success? <==> 0 <= v < r.size
    ensures res.Success? ==> WellFormed(res.value) && res.value.size == r.size
    ensures res.Success? ==> res.value.producao[v]
    ensures res.Success? ==> forall s :: 0 <= s < r.size && s != v ==> res.value.producao[s] == r.producao[s]
    ensures res.Success? ==> res.value.(producao := r.producao) == r
  {
    if 0 <= v < |r.producao| then Success(r.(producao := r.producao[v := true]))
    else Failure("ArrayIndexOutOfBoundsException")
  }

  /** `produzido(v)`. */
  function Produzido(r: Ring, v: int): (res: Result<bool>)
    requires WellFormed(r)
    ensures res.Success? <==> 0 <= v < r.size
  {
    if 0 <= v < |r.producao| then Success(r.producao[v])
    else Failure("ArrayIndexOutOfBoundsException")
  }

  /** `produzido` reads back what `produz` wrote: slot `v` is produced
      afterwards, every other slot answers as before. */
  lemma {:induction false} ProduzidoReadsProduz(r: Ring, v: int, w: int)
    requires WellFormed(r) && 0 <= v < r.size && 0 <= w < r.size
    ensures Produz(r, v).Success?
    ensures Produzido(Produz(r, v).value, w) == Success(w == v || r.producao[w])
  {
  }

  /** `totalDaProducao(first, last)`: the length of the run of produced slots
      starting at `first`, looking no further than `last`. */
  function TotalDaProducao(p: seq<bool>, first: int, last: int): (t: nat)
    requires |p| > 0
    ensures t == 0 || first + t <= last + 1
    ensures forall i :: first <= i < first + t ==> p[Slot(i, |p|)]
    ensures first + t <= last ==> !p[Slot(first + t, |p|)]
    decreases last - first + 1
  {
    if first > last || !p[Slot(first, |p|)] then 0
    else
      var t := TotalDaProducao(p, first + 1, last);
      assert forall i :: first + 1 <= i < first + 1 + t ==> p[Slot(i, |p|)];
      1 + t
  }

  /** No counter of `[a, b)` occupies slot `s`. */
  predicate Untouched(n: int, a: int, b: int, s: int)
    requires n > 0
  {
    forall i :: a <= i < b ==> Slot(i, n) != s
  }

  /** Clears the slots of counters `[a, b)`. */
  function ClearRun(p: seq<bool>, a: int, b: int): (q: seq<bool>)
    requires |p| > 0
    ensures |q| == |p|
    decreases b - a
  {
    if a >= b then p
    else ClearRun(p[Slot(a, |p|) := false], a + 1, b)
  }

  /** `ClearRun` clears the slot of every counter of the run ... */
  lemma {:induction false} ClearRunClears(p: seq<bool>, a: int, b: int)
    requires |p| > 0
    ensures forall i :: a <= i < b ==> !ClearRun(p, a, b)[Slot(i, |p|)]
    decreases b - a
  {
    if a < b {
      var p' := p[Slot(a, |p|) := false];
      ClearRunClears(p', a + 1, b);
      ClearRunKeeps(p', a + 1, b);
      if Untouched(|p|, a + 1, b, Slot(a, |p|)) {
        assert ClearRun(p, a, b)[Slot(a, |p|)] == p'[Slot(a, |p|)];
      }
    }
  }

  /** Clearing never marks a slot produced. */
  lemma {:induction false} ClearRunOnlyClears(p: seq<bool>, a: int, b: int)
    requires |p| > 0
    ensures forall s :: 0 <= s < |p| && ClearRun(p, a, b)[s] ==> p[s]
    decreases b - a
  {
    if a < b {
      ClearRunOnlyClears(p[Slot(a, |p|) := false], a + 1, b);
    }
  }

  /** ... and leaves every other slot as it was. */
  lemma {:induction false} ClearRunKeeps(p: seq<bool>, a: int, b: int)
    requires |p| > 0
    ensures forall s :: 0 <= s < |p| && Untouched(|p|, a, b, s) ==> ClearRun(p, a, b)[s] == p[s]
    decreases b - a
  {
    if a < b {
      var p' := p[Slot(a, |p|) := false];
      ClearRunKeeps(p', a + 1, b);
      forall s | 0 <= s < |p| && Untouched(|p|, a, b, s)
        ensures ClearRun(p, a, b)[s] == p[s]
      {
        assert Slot(a, |p|) != s;
        assert Untouched(|p|, a + 1, b, s);
      }
    }
  }

  /** `consome(i & mascara, false)` for every counter of `[a, b)`. */
  function NotLast(n: int, a: int, b: int): (es: seq<Event>)
    requires n > 0
    ensures |es| == if a <= b then b - a else 0
    ensures forall k :: 0 <= k < |es| ==> es[k] == Consumed(Slot(a + k, n), false)
  {
    if a >= b then [] else seq(b - a, k requires 0 <= k < b - a => Consumed(Slot(a + k, n), false))
  }

  /** One iteration of the `realFlush()` loop: the run of produced slots
      starting after `lf` is consumed, the last one flagged, and `lf`
      advanced past it; an exception from the flagged call escapes with `lf`
      not yet advanced. Finding no run, the loop returns. */
  function Pass(r: Ring, failing: set<int>): (f: FlushResult)
    requires WellFormed(r)
    ensures WellFormed(f.ring) && f.ring.size == r.size && f.ring.ff == r.ff
    ensures f.ring.working == r.working
    ensures f.trace == [] ==> f == FlushResult(r, [], false)
    ensures f.trace != [] && !f.raised ==> r.lf < f.ring.lf <= r.ff - 1 + r.size
  {
    var fa := r.lf + 1;
    var la := r.ff - 1 + r.size;
    var total := TotalDaProducao(r.producao, fa, la);
    if total == 0 then FlushResult(r, [], false)
    else
      var lu := r.lf + total;
      var cleared := ClearRun(r.producao, fa, lu);
      var trace := NotLast(r.size, fa, lu) + [Consumed(Slot(lu, r.size), true)];
      if Slot(lu, r.size) in failing then FlushResult(r.(producao := cleared), trace, true)
      else FlushResult(r.(producao := cleared[Slot(lu, r.size) := false], lf := lu), trace, false)
  }

  /** `realFlush()`: passes until one finds nothing produced. */
  function RealFlush(r: Ring, failing: set<int>): (f: FlushResult)
    requires WellFormed(r)
    ensures WellFormed(f.ring) && f.ring.size == r.size && f.ring.ff == r.ff
    ensures f.ring.working == r.working
    decreases r.ff - 1 + r.size - r.lf
  {
    var p := Pass(r, failing);
    if p.trace == [] || p.raised then p
    else
      var rest := RealFlush(p.ring, failing);
      FlushResult(rest.ring, p.trace + rest.trace, rest.raised)
  }

  /** `flush()`: a no-op while another flush holds `working`; otherwise a
      `realFlush` after which `working` is released, unless it threw. */
  function Flush(r: Ring, failing: set<int>): (f: FlushResult)
    requires WellFormed(r)
    ensures WellFormed(f.ring) && f.ring.size == r.size && f.ring.ff == r.ff
    ensures r.working ==> f == FlushResult(r, [], false)
    ensures !r.working ==> f.ring.working == f.raised
  {
    if r.working then FlushResult(r, [], false)
    else
      var p := RealFlush(r.(working := true), failing);
      if p.raised then p else p.(ring := p.ring.(working := false))
  }

  /** `aloca()`: takes counter `ff` when one is free; otherwise flushes and
      retries. A flush that frees nothing leaves the Java loop spinning. */
  function Aloca(r: Ring, failing: set<int>): (a: Alloc)
    requires WellFormed(r)
    ensures WellFormed(a.ring) && a.ring.size == r.size
    ensures a.Allocated? ==> a.slot == Slot(r.ff, r.size) && a.ring.ff == r.ff + 1
    ensures a.Allocated? ==> !a.ring.producao[a.slot]
  {
    if r.ff <= r.lf then
      Allocated(Slot(r.ff, r.size), Take(r), [])
    else
      var f := Flush(r, failing);
      if f.raised then Raised(f.ring, f.trace)
      else if f.ring.ff <= f.ring.lf then Allocated(Slot(r.ff, r.size), Take(f.ring), f.trace)
      else Blocked(f.ring, f.trace)
  }

  /** The successful compare-and-set on `ff` and the reset of the slot. */
  function Take(r: Ring): (r': Ring)
    requires WellFormed(r)
    ensures WellFormed(r')
  {
    r.(ff := r.ff + 1, producao := r.producao[Slot(r.ff, r.size) := false])
  }

  /** `k` successive `aloca()` calls by one producer, stopping at the first
      that does not return a slot: the slots obtained and the final ring. */
  function AlocaSeq(r: Ring, failing: set<int>, k: nat): (out: (seq<int>, Ring))
    requires WellFormed(r)
    ensures |out.0| <= k && WellFormed(out.1) && out.1.size == r.size
    decreases k
  {
    if k == 0 then ([], r)
    else
      match Aloca(r, failing)
      case Allocated(slot, r', _) =>
        var rest := AlocaSeq(r', failing, k - 1);
        ([slot] + rest.0, rest.1)
      case Blocked(r', _) => ([], r')
      case Raised(r', _) => ([], r')
  }

  lemma {:induction false} SlotShift(c: int, n: int)
    requires n > 0
    ensures Slot(c + n, n) == Slot(c, n)
  {
    SlotPeriodic(c, 1, n);
  }

  /** The slot of the `k`-th oldest live entry. */
  function LiveSlot(r: Ring, k: int): int
    requires r.size > 0
  {
    Slot(FirstLive(r) + k, r.size)
  }

  /** `realFlush` scans from `lf + 1`, one lap ahead of the oldest live
      counter: the same slots. */
  lemma {:induction false} ScanIsLive(r: Ring, k: int)
    requires r.size > 0
    ensures Slot(r.lf + 1 + k, r.size) == LiveSlot(r, k)
  {
    SlotShift(FirstLive(r) + k, r.size);
  }

  /** The scan of a valid ring covers exactly its live entries: it counts
      the produced ones from the oldest on and stops at the first entry
      still unproduced. */
  lemma {:induction false} RunSpec(r: Ring)
    requires Valid(r)
    ensures var t := TotalDaProducao(r.producao, r.lf + 1, r.ff - 1 + r.size);
      && t <= r.ff - FirstLive(r)
      && (forall k :: 0 <= k < t ==> r.producao[LiveSlot(r, k)])
      && (FirstLive(r) + t < r.ff ==> !r.producao[LiveSlot(r, t)])
  {
    RunProduced(r);
    RunStops(r);
  }

  lemma {:induction false} RunProduced(r: Ring)
    requires Valid(r)
    ensures var t := TotalDaProducao(r.producao, r.lf + 1, r.ff - 1 + r.size);
      forall k :: 0 <= k < t ==> r.producao[LiveSlot(r, k)]
  {
    var fa := r.lf + 1;
    var t := TotalDaProducao(r.producao, fa, r.ff - 1 + r.size);
    forall k | 0 <= k < t
      ensures r.producao[LiveSlot(r, k)]
    {
      ScanIsLive(r, k);
      assert fa <= fa + k < fa + t;
    }
  }

  lemma {:induction false} RunStops(r: Ring)
    requires Valid(r)
    ensures var t := TotalDaProducao(r.producao, r.lf + 1, r.ff - 1 + r.size);
      && t <= r.ff - FirstLive(r)
      && (FirstLive(r) + t < r.ff ==> !r.producao[LiveSlot(r, t)])
  {
    var fa := r.lf + 1;
    var t := TotalDaProducao(r.producao, fa, r.ff - 1 + r.size);
    if FirstLive(r) + t < r.ff {
      ScanIsLive(r, t);
      assert fa + t <= r.ff - 1 + r.size;
    }
  }

  /** After a pass that consumed a run, the next pass finds nothing: the run
      stopped at an unproduced slot or at the newest allocation. So the
      `realFlush()` loop makes at most one effective pass. */
  lemma {:induction false} SecondPassEmpty(r: Ring, failing: set<int>)
    requires WellFormed(r)
    ensures !Pass(r, failing).raised ==> Pass(Pass(r, failing).ring, failing).trace == []
    ensures RealFlush(r, failing) == Pass(r, failing)
  {
    var p := Pass(r, failing);
    if p.trace != [] && !p.raised {
      NextPassEmpty(r, failing);
      assert p.trace + [] == p.trace;
    }
  }

  lemma {:induction false} NextPassEmpty(r: Ring, failing: set<int>)
    requires WellFormed(r)
    requires Pass(r, failing).trace != [] && !Pass(r, failing).raised
    ensures Pass(Pass(r, failing).ring, failing).trace == []
  {
    var total := TotalDaProducao(r.producao, r.lf + 1, r.ff - 1 + r.size);
    var lu := r.lf + total;
    var next := Pass(r, failing).ring;
    ClearRunOnlyClears(r.producao, r.lf + 1, lu);
    assert next.lf == lu;
    if lu + 1 <= r.ff - 1 + r.size {
      assert !next.producao[Slot(lu + 1, r.size)];
    }
    assert TotalDaProducao(next.producao, lu + 1, r.ff - 1 + r.size) == 0;
  }

  /** One pass that finds a run consumes it in order with the flag on its
      last entry. */
  lemma {:induction false} PassTrace(r: Ring, failing: set<int>)
    requires WellFormed(r)
    requires TotalDaProducao(r.producao, r.lf + 1, r.ff - 1 + r.size) > 0
    ensures var t := TotalDaProducao(r.producao, r.lf + 1, r.ff - 1 + r.size);
      var f := Pass(r, failing);
      && |f.trace| == t
      && (forall k :: 0 <= k < t ==> f.trace[k] == Consumed(LiveSlot(r, k), k == t - 1))
  {
    var t := TotalDaProducao(r.producao, r.lf + 1, r.ff - 1 + r.size);
    var lu := r.lf + t;
    assert Slot(lu, r.size) == LiveSlot(r, t - 1) by {
      ScanIsLive(r, t - 1);
      assert r.lf + 1 + (t - 1) == lu;
    }
    var f := Pass(r, failing);
    assert f.trace == NotLast(r.size, r.lf + 1, lu) + [Consumed(Slot(lu, r.size), true)];
    forall k | 0 <= k < t
      ensures f.trace[k] == Consumed(LiveSlot(r, k), k == t - 1)
    {
      ScanIsLive(r, k);
    }
  }

  /** The state a pass that finds a run leaves behind: the flagged entry's
      slot is cleared and `lf` advanced past the run, unless its consumer
      call threw. */
  lemma {:induction false} PassRing(r: Ring, failing: set<int>)
    requires WellFormed(r)
    requires TotalDaProducao(r.producao, r.lf + 1, r.ff - 1 + r.size) > 0
    ensures var t := TotalDaProducao(r.producao, r.lf + 1, r.ff - 1 + r.size);
      var f := Pass(r, failing);
      var cleared := ClearRun(r.producao, r.lf + 1, r.lf + t);
      && (f.raised <==> LiveSlot(r, t - 1) in failing)
      && (f.raised ==> f.ring == r.(producao := cleared))
      && (!f.raised ==> f.ring == r.(producao := cleared[LiveSlot(r, t - 1) := false], lf := r.lf + t))
  {
    var t := TotalDaProducao(r.producao, r.lf + 1, r.ff - 1 + r.size);
    var lu := r.lf + t;
    assert Slot(lu, r.size) == LiveSlot(r, t - 1) by {
      ScanIsLive(r, t - 1);
      assert r.lf + 1 + (t - 1) == lu;
    }
  }

  /** Both halves of a pass that finds a run. */
  lemma {:induction false} PassSpec(r: Ring, failing: set<int>)
    requires WellFormed(r)
    requires TotalDaProducao(r.producao, r.lf + 1, r.ff - 1 + r.size) > 0
    ensures var t := TotalDaProducao(r.producao, r.lf + 1, r.ff - 1 + r.size);
      var f := Pass(r, failing);
      var cleared := ClearRun(r.producao, r.lf + 1, r.lf + t);
      && |f.trace| == t
      && (forall k :: 0 <= k < t ==> f.trace[k] == Consumed(LiveSlot(r, k), k == t - 1))
      && (f.raised <==> LiveSlot(r, t - 1) in failing)
      && (f.raised ==> f.ring == r.(producao := cleared))
      && (!f.raised ==> f.ring == r.(producao := cleared[LiveSlot(r, t - 1) := false], lf := r.lf + t))
  {
    PassTrace(r, failing);
    PassRing(r, failing);
  }

  /** `flush()` on a ring no other flush holds is one pass, with `working`
      released unless the pass threw. */
  lemma {:induction false} FlushOnePass(r: Ring, failing: set<int>)
    requires WellFormed(r) && !r.working
    ensures var p := Pass(r.(working := true), failing);
      Flush(r, failing) == if p.raised then p else p.(ring := p.ring.(working := false))
  {
    SecondPassEmpty(r.(working := true), failing);
  }

  /** What one pass consumes of a valid ring: the run of produced entries
      starting at the oldest live one, in allocation order, passing `ultimo`
      only to the last. */
  lemma {:induction false} PassOnValid(r: Ring, failing: set<int>)
    requires Valid(r)
    ensures var f := Pass(r, failing); var t := |f.trace|;
      && t == TotalDaProducao(r.producao, r.lf + 1, r.ff - 1 + r.size)
      && t <= r.ff - FirstLive(r)
      && (forall k :: 0 <= k < t ==> f.trace[k] == Consumed(LiveSlot(r, k), k == t - 1))
      && (f.raised <==> t > 0 && LiveSlot(r, t - 1) in failing)
      && (f.raised ==> f.ring.lf == r.lf)
      && (!f.raised ==> Valid(f.ring) && Available(f.ring) == Available(r) + t)
  {
    RunSpec(r);
    if TotalDaProducao(r.producao, r.lf + 1, r.ff - 1 + r.size) > 0 {
      PassSpec(r, failing);
    }
  }

  /**
   * What one `flush()` does to a valid ring: it consumes the longest run of
   * produced entries starting at the oldest live one, in allocation order,
   * passing `ultimo` only to the last, and stops at the first live entry
   * not yet produced.
   */
  lemma {:induction false} FlushSpec(r: Ring, failing: set<int>)
    requires Valid(r) && !r.working
    ensures var f := Flush(r, failing); var t := |f.trace|;
      && t <= r.ff - FirstLive(r)
      && (forall k :: 0 <= k < t ==> r.producao[LiveSlot(r, k)])
      && (FirstLive(r) + t < r.ff ==> !r.producao[LiveSlot(r, t)])
      && (forall k :: 0 <= k < t ==> f.trace[k] == Consumed(LiveSlot(r, k), k == t - 1))
  {
    var rw := r.(working := true);
    FlushOnePass(r, failing);
    var p := Pass(rw, failing);
    assert Flush(r, failing).trace == p.trace;
    PassOnValid(rw, failing);
    RunSpec(r);
    assert |p.trace| == TotalDaProducao(r.producao, r.lf + 1, r.ff - 1 + r.size);
  }

  /**
   * The consumed entries become available again. If the flagged call
   * throws, the exception escapes with `working` still set and `lf` not
   * advanced; exceptions from the other calls are swallowed. A flush that
   * finds nothing changes nothing.
   */
  lemma {:induction false} FlushOutcome(r: Ring, failing: set<int>)
    requires Valid(r) && !r.working
    ensures var f := Flush(r, failing); var t := |f.trace|;
      && (f.raised <==> t > 0 && LiveSlot(r, t - 1) in failing)
      && (f.raised ==> f.ring.working && f.ring.lf == r.lf)
      && (!f.raised ==> !f.ring.working && Valid(f.ring) && Available(f.ring) == Available(r) + t)
      && (t == 0 ==> f.ring == r && !f.raised)
  {
    var rw := r.(working := true);
    FlushOnePass(r, failing);
    PassOnValid(rw, failing);
  }

  /** A pass clears the slots of the run it consumed ... */
  lemma {:induction false} PassClearsRun(r: Ring, failing: set<int>)
    requires WellFormed(r) && !Pass(r, failing).raised
    ensures var f := Pass(r, failing);
      forall k :: 0 <= k < |f.trace| ==> !f.ring.producao[LiveSlot(r, k)]
  {
    var t := TotalDaProducao(r.producao, r.lf + 1, r.ff - 1 + r.size);
    if t > 0 {
      PassSpec(r, failing);
      var fa, lu := r.lf + 1, r.lf + t;
      ClearRunClears(r.producao, fa, lu);
      forall k | 0 <= k < t - 1
        ensures !ClearRun(r.producao, fa, lu)[LiveSlot(r, k)]
      {
        ScanIsLive(r, k);
        assert fa <= r.lf + 1 + k < lu;
      }
    }
  }

  /** Slot `s` belongs to none of the `t` oldest live entries. */
  predicate OutsideRun(r: Ring, t: int, s: int)
    requires r.size > 0
  {
    forall k :: 0 <= k < t ==> LiveSlot(r, k) != s
  }

  /** ... and nothing else. */
  lemma {:induction false} PassKeepsRest(r: Ring, failing: set<int>)
    requires WellFormed(r) && !Pass(r, failing).raised
    ensures var f := Pass(r, failing);
      forall s :: 0 <= s < r.size && OutsideRun(r, |f.trace|, s) ==> f.ring.producao[s] == r.producao[s]
  {
    var n := r.size;
    var t := TotalDaProducao(r.producao, r.lf + 1, r.ff - 1 + n);
    if t > 0 {
      var f := Pass(r, failing);
      var fa, lu := r.lf + 1, r.lf + t;
      var cleared := ClearRun(r.producao, fa, lu);
      ScanIsLive(r, t - 1);
      assert f.ring.producao == cleared[Slot(lu, n) := false];
      assert |f.trace| == t;
      ClearRunKeeps(r.producao, fa, lu);
      forall s | 0 <= s < n && OutsideRun(r, t, s)
        ensures f.ring.producao[s] == r.producao[s]
      {
        OutsideRunUntouched(r, t, s);
        assert LiveSlot(r, t - 1) != s;
      }
    }
  }

  /** A slot outside the run is not cleared by the scan over it. */
  lemma {:induction false} OutsideRunUntouched(r: Ring, t: int, s: int)
    requires r.size > 0 && OutsideRun(r, t, s)
    ensures Untouched(r.size, r.lf + 1, r.lf + t, s)
  {
    var fa := r.lf + 1;
    forall i | fa <= i < r.lf + t
      ensures Slot(i, r.size) != s
    {
      ScanIsLive(r, i - fa);
      assert LiveSlot(r, i - fa) != s;
    }
  }

  /** A successful flush marks the consumed entries unproduced and leaves
      the slots of every other entry as they were. */
  lemma {:induction false} FlushClears(r: Ring, failing: set<int>)
    requires Valid(r) && !r.working && !Flush(r, failing).raised
    ensures var f := Flush(r, failing); var t := |f.trace|;
      && (forall k :: 0 <= k < t ==> !f.ring.producao[LiveSlot(r, k)])
      && (forall k :: t <= k < r.size ==> f.ring.producao[LiveSlot(r, k)] == r.producao[LiveSlot(r, k)])
  {
    var n := r.size;
    var rw := r.(working := true);
    FlushOnePass(r, failing);
    PassClearsRun(rw, failing);
    PassKeepsRest(rw, failing);
    var f := Flush(r, failing);
    var t := |f.trace|;
    assert t <= n by {
      PassOnValid(rw, failing);
    }
    forall k | 0 <= k < n
      ensures LiveSlot(rw, k) == LiveSlot(r, k)
    {
    }
    forall k | t <= k < n
      ensures f.ring.producao[LiveSlot(r, k)] == r.producao[LiveSlot(r, k)]
    {
      forall j | 0 <= j < t
        ensures LiveSlot(rw, j) != LiveSlot(r, k)
      {
        SlotsDistinct(FirstLive(r) + j, FirstLive(r) + k, n);
      }
      assert OutsideRun(rw, t, LiveSlot(r, k));
    }
  }

  /** With a free entry, `aloca()` takes counter `ff` at once; its slot is
      not the slot of any entry still live, and it becomes live itself. */
  lemma {:induction false} AlocaFree(r: Ring, failing: set<int>)
    requires Valid(r) && Available(r) > 0
    ensures var a := Aloca(r, failing);
      && a.Allocated? && a.trace == [] && Valid(a.ring)
      && a.slot == Slot(r.ff, r.size)
      && (forall c :: Live(r, c) ==> Slot(c, r.size) != a.slot)
      && (forall c :: Live(a.ring, c) <==> Live(r, c) || c == r.ff)
      && Available(a.ring) == Available(r) - 1
      && a.ring.working == r.working
  {
    forall c | Live(r, c)
      ensures Slot(c, r.size) != Slot(r.ff, r.size)
    {
      SlotsDistinct(c, r.ff, r.size);
    }
  }

  /** With every entry live, `aloca()` depends on the flush it triggers: it
      propagates its exception, spins when it frees nothing, or takes counter
      `ff` from the entries it freed. */
  lemma {:induction false} AlocaFull(r: Ring, failing: set<int>)
    requires Valid(r) && Available(r) == 0 && !r.working
    ensures var a := Aloca(r, failing); var f := Flush(r, failing);
      && (f.raised <==> a.Raised?)
      && (!f.raised && f.trace == [] <==> a.Blocked?)
      && (a.Blocked? ==> a.ring == r)
      && (a.Allocated? ==> a.slot == Slot(r.ff, r.size) && a.trace == f.trace && Valid(a.ring)
                           && Available(a.ring) == |f.trace| - 1)
  {
    FlushOutcome(r, failing);
  }

  /** A full ring none of whose entries is produced makes `aloca()` spin. */
  lemma {:induction false} NothingProducedBlocks(r: Ring, failing: set<int>)
    requires Valid(r) && Available(r) == 0 && !r.working
    requires forall s :: 0 <= s < r.size ==> !r.producao[s]
    ensures Aloca(r, failing) == Blocked(r, [])
  {
    FlushSpec(r, failing);
    FlushOutcome(r, failing);
    AlocaFull(r, failing);
    assert !r.producao[LiveSlot(r, 0)];
  }

  /** Once a flagged consumer call has thrown, `working` is never released:
      every later flush returns at once, and a full ring spins forever. */
  lemma {:induction false} StuckAfterRaise(r: Ring, failing: set<int>)
    requires Valid(r) && r.working
    ensures Flush(r, failing).ring == r && Flush(r, failing).trace == []
    ensures Available(r) == 0 ==> Aloca(r, failing) == Blocked(r, [])
  {
  }

  /** Allocations that need no flush return consecutive slots and reset
      exactly those slots to unproduced. */
  lemma {:induction false} AlocaSeqDirect(r: Ring, failing: set<int>, k: nat)
    requires WellFormed(r) && r.ff + k <= r.lf + 1
    ensures var out := AlocaSeq(r, failing, k);
      && |out.0| == k
      && (forall i :: 0 <= i < k ==> out.0[i] == Slot(r.ff + i, r.size))
      && out.1 == r.(ff := r.ff + k, producao := out.1.producao)
      && (forall i :: 0 <= i < k ==> !out.1.producao[out.0[i]])
      && (forall s :: 0 <= s < r.size && (forall i :: 0 <= i < k ==> out.0[i] != s)
                      ==> out.1.producao[s] == r.producao[s])
    decreases k
  {
    if k > 0 {
      var r' := Take(r);
      assert Aloca(r, failing) == Allocated(Slot(r.ff, r.size), r', []);
      AlocaSeqDirect(r', failing, k - 1);
      var rest := AlocaSeq(r', failing, k - 1);
      var out := AlocaSeq(r, failing, k);
      assert out == ([Slot(r.ff, r.size)] + rest.0, rest.1);
      forall i | 0 < i < k
        ensures out.0[i] == Slot(r.ff + i, r.size)
      {
        assert out.0[i] == rest.0[i - 1];
        assert r'.ff + (i - 1) == r.ff + i;
      }
      var s0 := Slot(r.ff, r.size);
      if forall i :: 0 <= i < k - 1 ==> rest.0[i] != s0 {
        assert out.1.producao[s0] == r'.producao[s0];
      }
      forall i | 0 <= i < k
        ensures !out.1.producao[out.0[i]]
      {
        if i > 0 {
          assert out.0[i] == rest.0[i - 1];
        }
      }
      forall s | 0 <= s < r.size && (forall i :: 0 <= i < k ==> out.0[i] != s)
        ensures out.1.producao[s] == r.producao[s]
      {
        assert out.0[0] != s;
        forall i | 0 <= i < k - 1
          ensures rest.0[i] != s
        {
          assert rest.0[i] == out.0[i + 1];
        }
      }
    }
  }

  /** A valid size gives a fresh ring with every entry available. */
  lemma {:induction false} CreateIsFresh(tamanho: bv32)
    requires Bits.IsPowerOfTwo(tamanho)
    ensures Create(tamanho) == Success(Fresh(tamanho as int))
  {
  }

  /** A fresh ring hands out 0, 1, ..., size - 1 and is then full; the
      default one, of SIZE entries, is one instance. */
  lemma {:induction false} FreshAllocatesInOrder(tamanho: bv32, failing: set<int>)
    requires Bits.IsPowerOfTwo(tamanho)
    ensures Create(tamanho).Success?
    ensures var r := Create(tamanho).value; var n := tamanho as int;
      var out := AlocaSeq(r, failing, n);
      && Available(r) == n
      && |out.0| == n && (forall i :: 0 <= i < n ==> out.0[i] == i)
      && Valid(out.1) && Available(out.1) == 0
  {
    CreateIsFresh(tamanho);
    var n := tamanho as int;
    var r := Fresh(n);
    AlocaSeqDirect(r, failing, n);
    var out := AlocaSeq(r, failing, n);
    forall i | 0 <= i < n
      ensures out.0[i] == i
    {
      ModUnique(0 + i, n, 0, i);
    }
  }

  /** The constructor accepts the 31 positive powers of two and nothing else
      (-1 and 3 are refused). */
  lemma {:induction false} CreateRejects()
    ensures Create(0xFFFF_FFFF).Failure? && Create(3).Failure?
    ensures Create(1).Success? && Create(0x4000_0000).Success?
  {
    assert Bits.IsPowerOfTwo(1) && Bits.IsPowerOfTwo(0x4000_0000);
    assert !Bits.IsPowerOfTwo(0xFFFF_FFFF) && !Bits.IsPowerOfTwo(3);
  }

  /** As written, a ring smaller than SIZE hands out slot 0 for counter
      `size` while counter 0, never consumed, still owns it (with 32 entries,
      the 33rd `aloca()`). */
  lemma {:induction false} AsWrittenReusesLiveSlot(tamanho: bv32, failing: set<int>)
    requires Bits.IsPowerOfTwo(tamanho) && (tamanho as int) < SIZE
    ensures CreateAsWritten(tamanho).Success?
    ensures var n := tamanho as int; var out := AlocaSeq(CreateAsWritten(tamanho).value, failing, n + 1);
      |out.0| == n + 1 && out.0[0] == out.0[n] == 0
  {
    var n := tamanho as int;
    var r := CreateAsWritten(tamanho).value;
    AlocaSeqDirect(r, failing, n + 1);
    ModUnique(0, n, 0, 0);
    ModUnique(0 + n, n, 1, 0);
  }

  /** Allocating `size` entries of a fresh ring fills it with distinct
      slots, none produced. */
  lemma {:induction false} FreshFills(tamanho: bv32, failing: set<int>)
    requires Bits.IsPowerOfTwo(tamanho)
    ensures var n := tamanho as int; var out := AlocaSeq(Fresh(n), failing, n);
      && |out.0| == n && (forall i, j :: 0 <= i < j < n ==> out.0[i] != out.0[j])
      && Valid(out.1) && Available(out.1) == 0 && !out.1.working
      && (forall s :: 0 <= s < n ==> !out.1.producao[s])
  {
    var n := tamanho as int;
    var r := Fresh(n);
    AlocaSeqDirect(r, failing, n);
    var out := AlocaSeq(r, failing, n);
    forall i, j | 0 <= i < j < n
      ensures out.0[i] != out.0[j]
    {
      SlotsDistinct(0 + i, 0 + j, n);
    }
    forall s | 0 <= s < n
      ensures !out.1.producao[s]
    {
      if forall i :: 0 <= i < n ==> out.0[i] != s {
        assert out.1.producao[s] == r.producao[s];
      }
    }
  }

  /** With `size` used throughout, a ring hands out `size` distinct slots;
      while none of them is produced, the next `aloca()` spins instead of
      reusing one. */
  lemma {:induction false} CorrectedStopsAtSize(tamanho: bv32, failing: set<int>)
    requires Bits.IsPowerOfTwo(tamanho)
    ensures Create(tamanho).Success?
    ensures var n := tamanho as int; var out := AlocaSeq(Create(tamanho).value, failing, n);
      && |out.0| == n && (forall i, j :: 0 <= i < j < n ==> out.0[i] != out.0[j])
      && Aloca(out.1, failing).Blocked?
  {
    CreateIsFresh(tamanho);
    FreshFills(tamanho, failing);
    var n := tamanho as int;
    NothingProducedBlocks(AlocaSeq(Fresh(n), failing, n).1, failing);
  }
}

/**
 * The older slot pool `Shared`, the predecessor of the ring buffer.
 *
 * `reserve` hands out the slot of the ever-growing counter `firstFree`,
 * `used` marks a slot ready, and `consume` frees the run of used slots
 * starting at the counter `primeiroParaTratar`. The reserved counters not
 * yet consumed are `[primeiroParaTratar, firstFree)`; `totalFree` counts the
 * others. The model is sequential: every compare-and-set succeeds.
 */
module Shared {
  import opened Base
  import opened Slots
  import RingBuffer

  datatype State = State(
    size: int,
    totalFree: int,
    firstFree: int,
    primeiroParaTratar: int,
    usados: seq<bool>,
    working: bool)

  /** Counter `c` has been reserved and not yet consumed. */
  predicate Outstanding(s: State, c: int)
  {
    s.primeiroParaTratar <= c < s.firstFree
  }

  /** The pool invariant: `totalFree` stays within `[0, size]` and counts
      exactly the entries that are not outstanding. */
  predicate Valid(s: State)
  {
    && s.size > 0 && |s.usados| == s.size
    && 0 <= s.totalFree <= s.size
    && s.primeiroParaTratar >= 0
    && s.firstFree == s.primeiroParaTratar + (s.size - s.totalFree)
  }

  /** `n` is a positive power of two, so that the mask `n - 1` reduces a
      counter modulo `n`. */
  predicate PowerOfTwo(n: int)
    decreases n
  {
    n == 1 || (n > 1 && n % 2 == 0 && PowerOfTwo(n / 2))
  }

  /** `new Shared(size)`: only a negative size is refused, by the array
      allocation. */
  function Create(size: int): (res: Result<State>)
    ensures res.Success? <==> size >= 0
    ensures res.Success? && size > 0 ==> Valid(res.value) && !res.value.working
    ensures res.Success? ==> res.value.totalFree == size && forall c :: !Outstanding(res.value, c)
  {
    if size < 0 then Failure("NegativeArraySizeException")
    else Success(State(size, size, 0, 0, seq(size, _ => false), false))
  }

  /** `reserve()` with a free entry: takes counter `firstFree`. With none
      free the Java loop spins, since its call to `consume()` is commented
      out. */
  function Reserve(s: State): (out: (int, State))
    requires Valid(s) && s.totalFree > 0
    ensures Valid(out.1) && out.1.totalFree == s.totalFree - 1
    ensures 0 <= out.0 < s.size && out.0 == Slot(s.firstFree, s.size)
    ensures forall c :: Outstanding(s, c) ==> Slot(c, s.size) != out.0
    ensures forall c :: Outstanding(out.1, c) <==> Outstanding(s, c) || c == s.firstFree
    ensures out.1 == s.(totalFree := out.1.totalFree, firstFree := out.1.firstFree)
  {
    var slot := Slot(s.firstFree, s.size);
    assert forall c :: Outstanding(s, c) ==> Slot(c, s.size) != slot by {
      forall c | Outstanding(s, c)
        ensures Slot(c, s.size) != slot
      {
        SlotsDistinct(c, s.firstFree, s.size);
      }
    }
    (slot, s.(totalFree := s.totalFree - 1, firstFree := s.firstFree + 1))
  }

  /** `used(valor)`: marks slot `valor` ready. */
  function Used(s: State, valor: int): (res: Result<State>)
    requires Valid(s)
    ensures res.Success? <==> 0 <= valor < s.size
    ensures res.Success? ==> res.value.(usados := s.usados) == s
    ensures res.Success? ==> Valid(res.value) && res.value.usados[valor]
    ensures res.Success? ==> forall k :: 0 <= k < s.size && k != valor ==> res.value.usados[k] == s.usados[k]
  {
    if 0 <= valor < |s.usados| then Success(s.(usados := s.usados[valor := true]))
    else Failure("ArrayIndexOutOfBoundsException")
  }

  /** The array index `first` where a round of `consume()` as written
      starts: the slot of the oldest outstanding counter. The mask
      `size - 1` is `% size` for the power-of-two sizes modelled. */
  function FirstIndex(s: State): (i: int)
    requires s.size > 0
    ensures 0 <= i < s.size
  {
    Slot(s.primeiroParaTratar, s.size)
  }

  /** The array index `last` where that round stops: the slot of the
      newest outstanding counter. */
  function LastIndex(s: State): (i: int)
    requires Valid(s) && s.totalFree < s.size
    ensures 0 <= i < s.size
  {
    Slot(FirstIndex(s) + (s.size - s.totalFree) - 1, s.size)
  }

  /** The outstanding counters occupy `[first, last]` without wrapping
      round the end of the array. */
  predicate NoWrap(s: State)
    requires s.size > 0
  {
    FirstIndex(s) + (s.size - s.totalFree) <= s.size
  }

  /** The scan of a round as written: array indices from `first` while they
      are used, up to `last`. Below `size` an index is its own slot, so this
      is the ring buffer's `totalDaProducao` over `[first, last]`; when the
      outstanding counters wrap, `last < first` and it finds nothing. */
  function RunAsWritten(s: State): (t: nat)
    requires Valid(s) && s.totalFree < s.size
    ensures t <= s.size - s.totalFree
  {
    ModAtMost(FirstIndex(s) + (s.size - s.totalFree) - 1, s.size);
    RingBuffer.TotalDaProducao(s.usados, FirstIndex(s), LastIndex(s))
  }

  /** The end of a round as written: indices `[first, first + run)` are
      cleared and both `primeiroParaTratar` and `totalFree` grow by `run`. */
  function AdvanceAsWritten(s: State, run: nat): (r: State)
    requires Valid(s) && run <= s.size - s.totalFree
    ensures Valid(r) && r.size == s.size && r.firstFree == s.firstFree && r.working == s.working
    ensures r.totalFree == s.totalFree + run
  {
    s.(usados := RingBuffer.ClearRun(s.usados, FirstIndex(s), FirstIndex(s) + run),
       primeiroParaTratar := s.primeiroParaTratar + run,
       totalFree := s.totalFree + run)
  }

  /**
   * The `while (true)` loop of `consume()` as written, entered with
   * `working` set. A round that finds nothing returns at once, so only a
   * full drain releases `working`.
   */
  function DrainAsWritten(s: State): (r: State)
    requires Valid(s) && PowerOfTwo(s.size) && s.working
    ensures Valid(r) && r.size == s.size && r.firstFree == s.firstFree
    ensures s.totalFree <= r.totalFree
    ensures r.working <==> r.totalFree < r.size
    ensures forall k :: 0 <= k < r.size && r.usados[k] ==> s.usados[k]
    decreases s.size - s.totalFree
  {
    if s.totalFree == s.size then s.(working := false)
    else
      var run := RunAsWritten(s);
      if run == 0 then s
      else
        RingBuffer.ClearRunOnlyClears(s.usados, FirstIndex(s), FirstIndex(s) + run);
        DrainAsWritten(AdvanceAsWritten(s, run))
  }

  lemma {:induction false} ModAtMost(x: int, n: int)
    requires x >= 0 && n > 0
    ensures Slot(x, n) <= x
  {
    ModUnique(x, n, x / n, x % n);
    if x / n > 0 {
      MulAtLeast(n, x / n);
    }
  }

  /** `consume()` as written: a no-op while another consumer holds
      `working`; otherwise `working` is released only if everything reserved
      was consumed. */
  function ConsumeAsWritten(s: State): (r: State)
    requires Valid(s) && PowerOfTwo(s.size)
    ensures Valid(r) && r.size == s.size && r.firstFree == s.firstFree
    ensures s.working ==> r == s
    ensures !s.working ==> (r.working <==> r.totalFree < r.size)
    ensures s.totalFree <= r.totalFree
  {
    if s.working then s else DrainAsWritten(s.(working := true))
  }

  /** The slot of the `k`-th oldest outstanding counter. */
  function PendingSlot(s: State, k: int): int
    requires s.size > 0
  {
    Slot(s.primeiroParaTratar + k, s.size)
  }

  /** A consumer round that frees the `run` outstanding counters starting at
      `primeiroParaTratar`. */
  function Advance(s: State, run: nat): (r: State)
    requires Valid(s) && run <= s.size - s.totalFree
    ensures Valid(r) && r.size == s.size && r.firstFree == s.firstFree && r.working == s.working
    ensures r.totalFree == s.totalFree + run && r.primeiroParaTratar == s.primeiroParaTratar + run
  {
    s.(usados := RingBuffer.ClearRun(s.usados, s.primeiroParaTratar, s.primeiroParaTratar + run),
       primeiroParaTratar := s.primeiroParaTratar + run,
       totalFree := s.totalFree + run)
  }

  /** The scan of the corrected `consume()`: the used run among the
      outstanding counters, following them round the array. */
  function Run(s: State): (t: nat)
    requires Valid(s)
    ensures t <= s.size - s.totalFree
  {
    RingBuffer.TotalDaProducao(s.usados, s.primeiroParaTratar, s.firstFree - 1)
  }

  /** The loop of the corrected `consume()`: it scans outstanding counters
      rather than array indices, so a run may wrap round, and it releases
      `working` on every return. */
  function DrainFixed(s: State): (r: State)
    requires Valid(s)
    ensures Valid(r) && r.size == s.size && r.firstFree == s.firstFree
    ensures s.totalFree <= r.totalFree && !r.working
    decreases s.size - s.totalFree
  {
    if s.totalFree == s.size then s.(working := false)
    else
      var run := Run(s);
      if run == 0 then s.(working := false)
      else DrainFixed(Advance(s, run))
  }

  /** The corrected `consume()`. */
  function ConsumeFixed(s: State): (r: State)
    requires Valid(s)
    ensures Valid(r) && r.size == s.size && r.firstFree == s.firstFree
    ensures s.working ==> r == s
    ensures !s.working ==> !r.working
  {
    if s.working then s else DrainFixed(s.(working := true))
  }

  /** After a round that freed a run, the next round finds nothing: the run
      stopped at an unused slot or at the newest reservation. */
  lemma {:induction false} SecondRoundEmpty(s: State)
    requires Valid(s) && Run(s) > 0
    ensures Run(Advance(s, Run(s))) == 0
  {
    var t := Run(s);
    var a := Advance(s, t);
    var p := s.primeiroParaTratar + t;
    RingBuffer.ClearRunOnlyClears(s.usados, s.primeiroParaTratar, p);
    if p <= s.firstFree - 1 {
      assert !a.usados[Slot(p, s.size)];
    }
  }

  /** The corrected loop makes one effective round. */
  lemma {:induction false} ConsumeFixedOneRound(s: State)
    requires Valid(s) && !s.working
    ensures ConsumeFixed(s) == Advance(s, Run(s))
  {
    var w := s.(working := true);
    var t := Run(s);
    assert Run(w) == t;
    if t > 0 {
      SecondRoundEmpty(w);
      var a := Advance(w, t);
      assert DrainFixed(a) == a.(working := false);
    }
  }

  /**
   * What the corrected `consume()` does for a caller that finds `working`
   * clear: it frees the longest run of used slots among the outstanding
   * counters, oldest first, stopping at the first unused one, marks those
   * slots unused, and releases `working`.
   */
  lemma {:induction false} ConsumeFixedSpec(s: State)
    requires Valid(s) && !s.working
    ensures var r := ConsumeFixed(s); var t := Run(s);
      && r.totalFree == s.totalFree + t && r.primeiroParaTratar == s.primeiroParaTratar + t && !r.working
      && (forall k :: 0 <= k < t ==> s.usados[PendingSlot(s, k)])
      && (forall k :: 0 <= k < t ==> !r.usados[PendingSlot(s, k)])
      && (s.primeiroParaTratar + t < s.firstFree ==> !s.usados[PendingSlot(s, t)])
  {
    ConsumeFixedOneRound(s);
    var t := Run(s);
    RingBuffer.ClearRunClears(s.usados, s.primeiroParaTratar, s.primeiroParaTratar + t);
    forall k | 0 <= k < t
      ensures s.usados[PendingSlot(s, k)] && !ConsumeFixed(s).usados[PendingSlot(s, k)]
    {
      assert s.primeiroParaTratar <= s.primeiroParaTratar + k < s.primeiroParaTratar + t;
    }
  }

  /** Shifting a scan by whole laps of the array counts the same run. */
  lemma {:induction false} RunShift(p: seq<bool>, a: int, b: int, m: int)
    requires |p| > 0
    ensures RingBuffer.TotalDaProducao(p, a + m * |p|, b + m * |p|) == RingBuffer.TotalDaProducao(p, a, b)
    decreases b - a + 1
  {
    SlotPeriodic(a, m, |p|);
    if a <= b && p[Slot(a, |p|)] {
      RunShift(p, a + 1, b, m);
      assert a + 1 + m * |p| == a + m * |p| + 1;
    }
  }

  /** Shifting a clearing by whole laps clears the same slots. */
  lemma {:induction false} ClearShift(p: seq<bool>, a: int, b: int, m: int)
    requires |p| > 0
    ensures RingBuffer.ClearRun(p, a + m * |p|, b + m * |p|) == RingBuffer.ClearRun(p, a, b)
    decreases b - a
  {
    if a < b {
      SlotPeriodic(a, m, |p|);
      var p' := p[Slot(a, |p|) := false];
      ClearShift(p', a + 1, b, m);
      assert a + 1 + m * |p| == a + m * |p| + 1;
    }
  }

  /** While the outstanding counters do not wrap round the array, the
      as-written round scans and clears the same slots as the corrected
      one. */
  lemma {:induction false} RoundAgrees(s: State)
    requires Valid(s) && s.totalFree < s.size && NoWrap(s)
    ensures RunAsWritten(s) == Run(s)
    ensures AdvanceAsWritten(s, Run(s)) == Advance(s, Run(s))
  {
    var n := s.size;
    var first := FirstIndex(s);
    var q := s.primeiroParaTratar / n;
    var last := first + (n - s.totalFree) - 1;
    ModUnique(last, n, 0, last);
    assert s.primeiroParaTratar == first + q * n;
    RunShift(s.usados, first, last, q);
    assert last + q * n == s.firstFree - 1;
    assert RunAsWritten(s) == Run(s);
    var run := Run(s);
    ClearShift(s.usados, first, first + run, q);
    assert first + run + q * n == s.primeiroParaTratar + run;
    SameClearing(s, run);
  }

  /** When both rounds clear the same slots they end in the same state. */
  lemma {:induction false} SameClearing(s: State, run: nat)
    requires Valid(s) && run <= s.size - s.totalFree
    requires RingBuffer.ClearRun(s.usados, FirstIndex(s), FirstIndex(s) + run)
          == RingBuffer.ClearRun(s.usados, s.primeiroParaTratar, s.primeiroParaTratar + run)
    ensures AdvanceAsWritten(s, run) == Advance(s, run)
  {
  }

  /** Without wrapping, a round that frees part of the outstanding
      counters leaves the rest unwrapped too. */
  lemma {:induction false} NoWrapAfterRound(s: State, t: int)
    requires Valid(s) && 0 < t < s.size - s.totalFree && NoWrap(s)
    ensures NoWrap(Advance(s, t))
  {
    var n := s.size;
    ModUnique(s.primeiroParaTratar + t, n, s.primeiroParaTratar / n, FirstIndex(s) + t);
  }

  /** Without wrapping, the as-written loop frees what one corrected round
      frees, and keeps `working` set unless that drained everything. */
  lemma {:induction false} DrainAsWrittenNoWrap(w: State)
    requires Valid(w) && PowerOfTwo(w.size) && w.working && w.totalFree < w.size && NoWrap(w)
    ensures DrainAsWritten(w) == Advance(w, Run(w)).(working := DrainAsWritten(w).working)
  {
    RoundAgrees(w);
    var t := Run(w);
    if t > 0 {
      var a := Advance(w, t);
      assert DrainAsWritten(w) == DrainAsWritten(a);
      SecondRoundEmpty(w);
      if a.totalFree < a.size {
        NoWrapAfterRound(w, t);
        RoundAgrees(a);
      }
    }
  }

  /** Where the outstanding counters do not wrap round, `consume()` as
      written frees exactly what the corrected one frees; the two differ
      only in `working`, which the as-written one keeps set unless it
      drained everything. */
  lemma {:induction false} AsWrittenAgreesWithoutWrap(s: State)
    requires Valid(s) && PowerOfTwo(s.size) && !s.working && NoWrap(s)
    ensures ConsumeAsWritten(s) == ConsumeFixed(s).(working := ConsumeAsWritten(s).working)
  {
    var w := s.(working := true);
    var t := Run(s);
    ConsumeFixedOneRound(s);
    var d := DrainAsWritten(w);
    assert ConsumeAsWritten(s) == d;
    if s.totalFree < s.size {
      assert NoWrap(w) && Run(w) == t;
      DrainAsWrittenNoWrap(w);
      AdvanceIgnoresWorking(s, t);
    } else {
      assert d == s.(working := false);
      assert t == 0 && Advance(s, 0) == s;
    }
  }

  /** A round's effect does not depend on `working`. */
  lemma {:induction false} AdvanceIgnoresWorking(s: State, t: nat)
    requires Valid(s) && t <= s.size - s.totalFree
    ensures Advance(s.(working := true), t) == Advance(s, t).(working := true)
  {
  }

  /** As written, a round whose oldest outstanding slot is unused returns
      with `working` still set; since `consume()` returns at once while it
      is set, no later call frees anything. The corrected loop releases
      it. */
  lemma {:induction false} AsWrittenSticks(s: State)
    requires Valid(s) && PowerOfTwo(s.size) && !s.working && s.totalFree < s.size
    requires !s.usados[FirstIndex(s)]
    ensures ConsumeAsWritten(s) == s.(working := true)
    ensures !ConsumeFixed(s).working
  {
    var w := s.(working := true);
    ModUnique(FirstIndex(w), w.size, 0, FirstIndex(w));
    assert RunAsWritten(w) == 0;
  }

  /** As written, when the outstanding counters wrap round the end of the
      array, `last < first` and `consume()` frees nothing, even if every
      outstanding slot is used, and keeps `working` set. */
  lemma {:induction false} AsWrittenMissesWrappedRun(s: State)
    requires Valid(s) && PowerOfTwo(s.size) && !s.working && !NoWrap(s)
    ensures ConsumeAsWritten(s) == s.(working := true)
  {
    var w := s.(working := true);
    var n := s.size;
    var x := FirstIndex(s) + (n - s.totalFree) - 1;
    ModUnique(x, n, 1, x - n);
    assert LastIndex(w) < FirstIndex(w);
  }

  /** A pool of four entries in which counters 3 and 4, in slots 3 and 0,
      are outstanding and used: three reservations used and consumed, then
      two more reserved and used. */
  function WrappedPool(): (s: State)
    ensures Valid(s) && !NoWrap(s)
  {
    State(4, 2, 5, 3, [true, false, false, true], false)
  }

  /** In that pool `consume()` as written frees neither outstanding slot and
      keeps `working` set, while the corrected one frees both. */
  lemma {:induction false} WrappedRunScenario()
    ensures var s := WrappedPool();
      && s.usados[PendingSlot(s, 0)] && s.usados[PendingSlot(s, 1)]
      && ConsumeAsWritten(s).totalFree == 2 && ConsumeAsWritten(s).working
      && ConsumeFixed(s).totalFree == 4 && !ConsumeFixed(s).working
  {
    var s := WrappedPool();
    assert PowerOfTwo(4);
    AsWrittenMissesWrappedRun(s);
    assert PendingSlot(s, 0) == 3 && PendingSlot(s, 1) == 0 && PendingSlot(s, 2) == 1;
    ConsumeFixedSpec(s);
  }
}

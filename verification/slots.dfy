/**
 * Counters and the slots they occupy in a circular array of `n` entries.
 *
 * Both concurrency structures hand out ever-growing counters and index
 * their arrays with the counter reduced modulo the array length (by a mask
 * in the ring buffer, by `%` in the slot pool).
 */
module Slots {

  /** The array slot of counter `c`. */
  function Slot(c: int, n: int): (s: int)
    requires n > 0
    ensures 0 <= s < n
  {
    c % n
  }

  lemma {:induction false} MulAtLeast(n: int, d: int)
    requires n > 0 && d >= 1
    ensures n * d >= n
  {
    var k := d - 1;
    assert n * d == n * k + n;
    assert n * k >= 0;
  }

  /** Euclidean division has a unique quotient and remainder. */
  lemma {:induction false} ModUnique(x: int, n: int, q: int, r: int)
    requires n > 0 && 0 <= r < n && x == n * q + r
    ensures x % n == r
  {
    var q', r' := x / n, x % n;
    assert x == n * q' + r';
    if q' < q {
      MulAtLeast(n, q - q');
    } else if q' > q {
      MulAtLeast(n, q' - q);
    }
  }

  /** Counters `n` apart share a slot. */
  lemma {:induction false} SlotPeriodic(c: int, k: int, n: int)
    requires n > 0
    ensures Slot(c + k * n, n) == Slot(c, n)
  {
    ModUnique(c + k * n, n, c / n + k, c % n);
  }

  /** Fewer than `n` consecutive counters never share a slot. */
  lemma {:induction false} SlotsDistinct(a: int, b: int, n: int)
    requires n > 0 && a < b < a + n
    ensures Slot(a, n) != Slot(b, n)
  {
    var qa, qb, r := a / n, b / n, a % n;
    assert a == n * qa + r;
    if Slot(a, n) == Slot(b, n) {
      assert b == n * qb + r;
      assert b - a == n * (qb - qa);
      ModUnique(b - a, n, qb - qa, 0);
      ModUnique(b - a, n, 0, b - a);
    }
  }
}

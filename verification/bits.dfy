/**
 * Single-bit operations on a Java `int`, the power-of-two test used to
 * validate ring sizes, and the two bit-string renderings.
 *
 * A Java `int` is modelled by its two's-complement bit pattern, a `bv32`,
 * and so is a bit index: Java shifts an `int` by the low five bits of the
 * distance, `n & 31`. The same `value`/`cls`/`set` code appears in two
 * classes (the system module's `Bits` and the older shared `Bits`, whose
 * `bitValue` is this `Value`); it is modelled once here.
 */
module Bits {

  /** Reference reading of bit `k`: shift it down to position 0. */
  predicate BitSet(x: bv32, k: bv32)
    requires k < 32
  {
    (x >> k) & 1 == 1
  }

  /** `value(x, n)` / `bitValue(x, n)`: `(x & (1 << n)) >>> n`. */
  function Value(x: bv32, n: bv32): (r: bv32)
    ensures r <= 1
  {
    (x & ((1 as bv32) << (n & 31))) >> (n & 31)
  }

  /** `cls(x, n)`: `x & ~(1 << n)`. */
  function Cls(x: bv32, n: bv32): bv32
  {
    x & !((1 as bv32) << (n & 31))
  }

  /** `set(x, n)`: `x | (1 << n)`. */
  function Set(x: bv32, n: bv32): bv32
  {
    x | ((1 as bv32) << (n & 31))
  }

  /** `value` is 1 exactly when bit `n` (taken modulo 32) is set. */
  lemma {:induction false} ValueReadsBit(x: bv32, n: bv32)
    ensures Value(x, n) == 1 <==> BitSet(x, n & 31)
    ensures Value(x, n) == 0 <==> !BitSet(x, n & 31)
  {
  }

  lemma {:induction false} ClsAt(x: bv32, n: bv32, k: bv32)
    requires k < 32
    ensures BitSet(Cls(x, n), k) == (k != n & 31 && BitSet(x, k))
  {
  }

  lemma {:induction false} SetAt(x: bv32, n: bv32, k: bv32)
    requires k < 32
    ensures BitSet(Set(x, n), k) == (k == n & 31 || BitSet(x, k))
  {
  }

  /** `cls` forces bit `n` to 0 and leaves every other bit alone. */
  lemma {:induction false} ClsClearsOnlyBitN(x: bv32, n: bv32)
    ensures !BitSet(Cls(x, n), n & 31)
    ensures forall k: bv32 :: k < 32 && k != n & 31 ==> BitSet(Cls(x, n), k) == BitSet(x, k)
  {
    ClsAt(x, n, n & 31);
    forall k: bv32 | k < 32 && k != n & 31
      ensures BitSet(Cls(x, n), k) == BitSet(x, k)
    {
      ClsAt(x, n, k);
    }
  }

  /** `set` forces bit `n` to 1 and leaves every other bit alone. */
  lemma {:induction false} SetSetsOnlyBitN(x: bv32, n: bv32)
    ensures BitSet(Set(x, n), n & 31)
    ensures forall k: bv32 :: k < 32 && k != n & 31 ==> BitSet(Set(x, n), k) == BitSet(x, k)
  {
    SetAt(x, n, n & 31);
    forall k: bv32 | k < 32 && k != n & 31
      ensures BitSet(Set(x, n), k) == BitSet(x, k)
    {
      SetAt(x, n, k);
    }
  }

  /** When the bit already has the target value the word comes back
      unchanged. */
  lemma {:induction false} ClsSetIdempotent(x: bv32, n: bv32)
    ensures !BitSet(x, n & 31) ==> Cls(x, n) == x
    ensures BitSet(x, n & 31) ==> Set(x, n) == x
  {
  }

  /** Re-applying `set` or `cls` according to the bit's original value gives
      back the original word. */
  lemma {:induction false} ReapplyRestores(x: bv32, n: bv32)
    ensures (if Value(x, n) == 0 then Cls(x, n) else Set(x, n)) == x
  {
    ValueReadsBit(x, n);
    ClsSetIdempotent(x, n);
  }

  /** `isPowerOfTwo(valor)`: `valor > 0 && (valor & (valor - 1)) == 0`, where
      `valor > 0` is the signed comparison (bit 31 clear, not zero). */
  predicate IsPowerOfTwo(valor: bv32)
  {
    valor != 0 && valor & 0x8000_0000 == 0 && valor & (valor - 1) == 0
  }

  /** The positive powers of two an `int` can hold: `1 << k` for `k < 31`. */
  function Pow2(k: bv32): bv32
    requires k < 31
  {
    (1 as bv32) << k
  }

  /** The test accepts exactly the 31 positive powers of two. */
  lemma {:induction false} PowerOfTwoIff(valor: bv32)
    ensures IsPowerOfTwo(valor) <==> exists k: bv32 :: k < 31 && valor == Pow2(k)
  {
    if IsPowerOfTwo(valor) {
      OnlyPowersPass(valor);
      PowersListed();
      var k := Scan(valor, 0);
      assert valor == Pow2(k);
    } else {
      forall k: bv32 | k < 31
        ensures valor != Pow2(k)
      {
        PowerPasses(k);
      }
    }
  }

  lemma {:induction false} PowerPasses(k: bv32)
    requires k < 31
    ensures IsPowerOfTwo(Pow2(k))
  {
  }

  /** 1, 2, 4 and 1024 pass; 3, 1025, 0 and `Integer.MIN_VALUE` (the one
      bit pattern with only bit 31 set) do not. */
  lemma {:induction false} PowerExamples()
    ensures IsPowerOfTwo(1) && IsPowerOfTwo(2) && IsPowerOfTwo(4) && IsPowerOfTwo(1024)
    ensures !IsPowerOfTwo(3) && !IsPowerOfTwo(1025) && !IsPowerOfTwo(0) && !IsPowerOfTwo(0x8000_0000)
  {
  }

  /** The 31 powers, written out. */
  lemma {:induction false} PowersListed()
    ensures Pow2(0) == 0x1 && Pow2(1) == 0x2 && Pow2(2) == 0x4 && Pow2(3) == 0x8 && Pow2(4) == 0x10 && Pow2(5) == 0x20 && Pow2(6) == 0x40 && Pow2(7) == 0x80 && Pow2(8) == 0x100 && Pow2(9) == 0x200 && Pow2(10) == 0x400 && Pow2(11) == 0x800 && Pow2(12) == 0x1000 && Pow2(13) == 0x2000 && Pow2(14) == 0x4000 && Pow2(15) == 0x8000 && Pow2(16) == 0x10000 && Pow2(17) == 0x20000 && Pow2(18) == 0x40000 && Pow2(19) == 0x80000 && Pow2(20) == 0x100000 && Pow2(21) == 0x200000 && Pow2(22) == 0x400000 && Pow2(23) == 0x800000 && Pow2(24) == 0x1000000 && Pow2(25) == 0x2000000 && Pow2(26) == 0x4000000 && Pow2(27) == 0x8000000 && Pow2(28) == 0x10000000 && Pow2(29) == 0x20000000 && Pow2(30) == 0x40000000
  {
  }

  /** Bit-level enumeration of the words that pass the test. */
  lemma {:induction false} OnlyPowersPass(x: bv32)
    requires IsPowerOfTwo(x)
    ensures x == 1 || x == 2 || x == 4 || x == 8 || x == 0x10 || x == 0x20 || x == 0x40 || x == 0x80
         || x == 0x100 || x == 0x200 || x == 0x400 || x == 0x800
         || x == 0x1000 || x == 0x2000 || x == 0x4000 || x == 0x8000
         || x == 0x1_0000 || x == 0x2_0000 || x == 0x4_0000 || x == 0x8_0000
         || x == 0x10_0000 || x == 0x20_0000 || x == 0x40_0000 || x == 0x80_0000
         || x == 0x100_0000 || x == 0x200_0000 || x == 0x400_0000 || x == 0x800_0000
         || x == 0x1000_0000 || x == 0x2000_0000 || x == 0x4000_0000
  {
  }

  /** The least exponent `r >= k` with `x == Pow2(r)`; 30 when there is none. */
  function Scan(x: bv32, k: bv32): (r: bv32)
    requires k < 31
    ensures k <= r < 31
    ensures x == Pow2(r) || (forall j: bv32 :: k <= j < 31 ==> x != Pow2(j))
    decreases 31 - k
  {
    if x == Pow2(k) || k == 30 then k else Scan(x, k + 1)
  }

  /** The ASCII digit for a bit. */
  function Digit(b: bool): char
  {
    if b then '1' else '0'
  }

  /** The 32 bits of `x`, least significant first. */
  function BitList(x: bv32): (r: seq<bool>)
    ensures |r| == 32
  {
    seq(32, k requires 0 <= k < 32 => BitSet(x, k as bv32))
  }

  /** Reading bit `i` with `value` agrees with the reference list. */
  lemma {:induction false} ValueAt(x: bv32, i: int)
    requires 0 <= i < 32
    ensures (Value(x, i as bv32) == 1) == BitList(x)[i]
  {
    var n := i as bv32;
    BitListAt(x, i);
    LowIndex(n);
    ValueReadsBit(x, n);
  }

  lemma {:induction false} BitListAt(x: bv32, i: int)
    requires 0 <= i < 32
    ensures BitList(x)[i] == BitSet(x, i as bv32)
  {
  }

  lemma {:induction false} LowIndex(n: bv32)
    requires n < 32
    ensures n & 31 == n
  {
  }

  /** Expected character at position `j` of `bitsToString`: groups of four
      digits, most significant bit first, separated by single spaces. */
  function MsbFirstAt(valor: bv32, j: nat): char
    requires j < 39
  {
    if j % 5 == 4 then ' ' else Digit(BitList(valor)[31 - (j - j / 5)])
  }

  /** Expected character at position `j` of `showBits`: groups of four
      digits, least significant bit first, each followed by a space. */
  function LsbFirstAt(valor: bv32, j: nat): char
    requires j < 40
  {
    if j % 5 == 4 then ' ' else Digit(BitList(valor)[j - j / 5])
  }

  /** Where digit `i` lands once a space follows every fourth digit. */
  lemma {:induction false} DigitSlot(i: int)
    requires 0 <= i
    ensures (i + i / 4) % 5 != 4
    ensures (i + i / 4) - (i + i / 4) / 5 == i
    ensures (i + 1) % 4 == 0 ==> (i + 1 + i / 4) % 5 == 4
    ensures (i + 1) % 4 != 0 ==> (i + 1) / 4 == i / 4
    ensures (i + 1) % 4 == 0 ==> (i + 1) / 4 == i / 4 + 1
  {
    var q, r := i / 4, i % 4;
    assert i == 4 * q + r;
    assert i + i / 4 == 5 * q + r;
  }

  /** The same for `bitsToString`, which writes bit `i` after `31 - i`
      others and closes a group after every bit that is a multiple of four. */
  lemma {:induction false} DigitSlotDown(i: int)
    requires 0 <= i <= 31
    ensures var t := 31 - i;
      && (t + t / 4) % 5 != 4
      && 31 - ((t + t / 4) - (t + t / 4) / 5) == i
      && (i % 4 == 0 ==> (t + 1 + t / 4) % 5 == 4 && (t + 1) / 4 == t / 4 + 1)
      && (i % 4 != 0 ==> (t + 1) / 4 == t / 4)
  {
    var q, r := i / 4, i % 4;
    assert i == 4 * q + r;
    var t := 31 - i;
    if r == 0 {
      assert t == 4 * (7 - q) + 3;
      assert t / 4 == 7 - q;
    } else {
      assert t == 4 * (7 - q) + (3 - r);
      assert t / 4 == 7 - q;
    }
  }

  /** `bitsToString(valor)`: 32 digits MSB first with a space after every
      group of four except the last, written into a 39-character buffer. */
  method BitsToString(valor: bv32) returns (s: string)
    ensures |s| == 39
    ensures forall j :: 0 <= j < 39 ==> s[j] == MsbFirstAt(valor, j)
  {
    var bits: seq<char> := seq(39, _ => 0 as char);
    var indexSaida := 0;
    var i := 31;
    while i > 0
      invariant 0 <= i <= 31 && MsbLoop(valor, bits, indexSaida, i)
    {
      bits, indexSaida := WriteBit(valor, bits, indexSaida, i);
      i := i - 1;
    }
    MsbSlot(valor, 0);
    MsbPut(valor, bits, indexSaida, Digit(Value(valor, 0) == 1));
    bits := bits[indexSaida := Digit(Value(valor, 0) == 1)];
    s := bits;
  }

  /** The loop state of `bitsToString` before it writes bit `i`. */
  ghost predicate MsbLoop(valor: bv32, bits: seq<char>, at: int, i: int)
  {
    0 <= i <= 31 && at == (31 - i) + (31 - i) / 4 && MsbPrefix(valor, bits, at)
  }

  /** One turn of the `bitsToString` loop: the digit of bit `i`, then a
      space when `i` is a multiple of four. */
  method WriteBit(valor: bv32, bits: seq<char>, at: int, i: int) returns (bits': seq<char>, at': int)
    requires 0 < i && MsbLoop(valor, bits, at, i)
    ensures MsbLoop(valor, bits', at', i - 1)
  {
    MsbSlot(valor, i);
    MsbPut(valor, bits, at, Digit(Value(valor, i as bv32) == 1));
    bits' := bits[at := Digit(Value(valor, i as bv32) == 1)];
    at' := at + 1;
    if i % 4 == 0 {
      MsbPut(valor, bits', at', ' ');
      bits' := bits'[at' := ' '];
      at' := at' + 1;
    }
  }

  /** The first `n` characters of the 39-character buffer are in place. */
  ghost predicate MsbPrefix(valor: bv32, bits: seq<char>, n: int)
  {
    |bits| == 39 && 0 <= n <= 39 && forall j :: 0 <= j < n ==> bits[j] == MsbFirstAt(valor, j)
  }

  lemma {:induction false} MsbPut(valor: bv32, bits: seq<char>, n: int, c: char)
    requires MsbPrefix(valor, bits, n) && n < 39 && c == MsbFirstAt(valor, n)
    ensures MsbPrefix(valor, bits[n := c], n + 1)
  {
  }

  /** Bit `i` is the digit `bitsToString` writes after `31 - i` others, and
      a space follows it when `i` is a positive multiple of four. */
  lemma {:induction false} MsbSlot(valor: bv32, i: int)
    requires 0 <= i <= 31
    ensures var t := 31 - i; var at := t + t / 4;
      && at < 39 && MsbFirstAt(valor, at) == Digit(Value(valor, i as bv32) == 1)
      && (i % 4 == 0 && i > 0 ==> at + 1 < 39 && MsbFirstAt(valor, at + 1) == ' ')
      && (t + 1) + (t + 1) / 4 == at + (if i % 4 == 0 then 2 else 1)
  {
    ValueAt(valor, i);
    DigitSlotDown(i);
  }

  /** `showBits(produzidos)`: 32 digits LSB first, a space after every fourth
      digit including the last, 40 characters in all. */
  method ShowBits(produzidos: bv32) returns (s: string)
    ensures |s| == 40
    ensures forall j :: 0 <= j < 40 ==> s[j] == LsbFirstAt(produzidos, j)
  {
    s := [];
    var i := 0;
    while i < 32
      invariant 0 <= i <= 32
      invariant |s| == i + i / 4
      invariant forall j :: 0 <= j < |s| ==> s[j] == LsbFirstAt(produzidos, j)
    {
      ValueAt(produzidos, i);
      DigitSlot(i);
      s := s + [Digit(Value(produzidos, i as bv32) == 1)];
      if (i + 1) % 4 == 0 {
        s := s + [' '];
      }
      i := i + 1;
    }
  }

  /** Masking with `SIZE - 1` is reduction modulo the default ring size 1024,
      which is what lets the ring index slots without `%`. */
  lemma {:induction false} MaskIsModulo(x: bv32)
    ensures x & (1024 - 1) == x % 1024
  {
  }
}

/**
 * Machine integers and the bit-level arithmetic the decoder relies on.
 *
 * Rust's `i32` and `u32` are subset types of `int`.  A bit of an integer is
 * read in two's complement: because Dafny's `/` on a positive divisor is floor
 * division and `%` is never negative, `(x / 2^i) % 2` is exactly bit `i` of
 * the two's-complement representation of `x`, for negative `x` too.  The
 * Rust operators `&` and `>>` on `i32` are written out on top of that.
 */
module Bits {

  type int32 = x: int | -0x8000_0000 <= x < 0x8000_0000
  type uint32 = x: int | 0 <= x < 0x1_0000_0000

  /** 2 to the power n. */
  function Pow2(n: nat): (r: int)
    ensures r >= 1
  {
    if n == 0 then 1 else 2 * Pow2(n - 1)
  }

  /** Bit i of x, two's complement. */
  function Bit(x: int, i: nat): (b: nat)
    ensures b <= 1
  {
    (x / Pow2(i)) % 2
  }

  /**
   * The low k bits of the two's-complement bitwise AND of a and b, read as an
   * unsigned number.
   */
  function AndLow(a: int, b: int, k: nat): nat
    decreases k
  {
    if k == 0 then 0
    else (if a % 2 == 1 && b % 2 == 1 then 1 else 0) + 2 * AndLow(a / 2, b / 2, k - 1)
  }

  /** Reads 32 bits as a two's-complement `i32`. */
  function FromBits32(u: nat): int32
    requires u < 0x1_0000_0000
  {
    if u < 0x8000_0000 then u else u - 0x1_0000_0000
  }

  /** Rust's `a & b` on `i32`. */
  function BitAnd32(a: int32, b: int32): int32
  {
    AndLowBound(a, b, 32);
    Pow2Of32();
    FromBits32(AndLow(a, b, 32))
  }

  lemma {:induction false} AndLowBound(a: int, b: int, k: nat)
    ensures AndLow(a, b, k) < Pow2(k)
    decreases k
  {
    if k > 0 {
      AndLowBound(a / 2, b / 2, k - 1);
    }
  }

  /** Rust's arithmetic `a >> k` on `i32`, for a shift amount below 32: k halvings, each rounding down. */
  function ShiftRight32(a: int32, k: nat): int32
    requires k < 32
    decreases k
  {
    if k == 0 then a else ShiftRight32(a / 2, k - 1)
  }

  lemma {:induction false} Pow2Add(m: nat, n: nat)
    ensures Pow2(m + n) == Pow2(m) * Pow2(n)
  {
    if n > 0 {
      Pow2Add(m, n - 1);
    }
  }

  lemma Pow2Of32()
    ensures Pow2(30) == 0x4000_0000
    ensures Pow2(32) == 0x1_0000_0000
  {
    assert Pow2(8) == 0x100;
    Pow2Add(8, 8);
    Pow2Add(16, 16);
    Pow2Add(16, 14);
    Pow2Add(8, 6);
    assert Pow2(6) == 64;
  }

  lemma {:induction false} Pow2Monotone(m: nat, n: nat)
    requires m <= n
    ensures Pow2(m) <= Pow2(n)
  {
    if m < n {
      Pow2Monotone(m, n - 1);
    }
  }

  /** A positive multiple is at least each factor. */
  lemma MulAtLeast(p: int, k: int)
    requires p >= 1 && k >= 1
    ensures p * k >= p && p * k >= k
  {
    assert p * k == p * (k - 1) + p;
    assert p * k == (p - 1) * k + k;
  }

  /** A negative multiple of a positive number is at most its negation. */
  lemma MulAtMost(p: int, k: int)
    requires p >= 1 && k <= -1
    ensures p * k <= -p && p * k <= k
  {
    MulAtLeast(p, -k);
    assert p * k == -(p * -k);
  }

  /** The remainder of Euclidean division lies in [0, d). */
  lemma ModBounds(x: int, d: int)
    requires d >= 1
    ensures 0 <= x % d < d
    ensures x == d * (x / d) + x % d
  {
  }

  /** A multiple of p that lies strictly between -p and p is zero. */
  lemma SmallMultiple(p: int, k: int)
    requires p >= 1 && -p < p * k < p
    ensures k == 0
  {
    if k >= 1 {
      MulAtLeast(p, k);
    } else if k <= -1 {
      MulAtMost(p, k);
    }
  }

  /** Quotient and remainder of Euclidean division are unique. */
  lemma DivModUnique(x: int, d: int, q: int, r: int)
    requires d >= 1 && 0 <= r < d && x == d * q + r
    ensures x / d == q && x % d == r
  {
    var q', r' := x / d, x % d;
    assert x == d * q' + r';
    assert d * (q - q') == r' - r;
    SmallMultiple(d, q - q');
  }

  /** Shifting right by i + 1 is halving and then shifting right by i. */
  lemma ShiftStep(x: int, i: nat)
    ensures x / Pow2(i + 1) == (x / 2) / Pow2(i)
  {
    var p := Pow2(i);
    var a, r0 := x / 2, x % 2;
    var q, r1 := a / p, a % p;
    assert x == 2 * p * q + (2 * r1 + r0);
    DivModUnique(x, 2 * p, q, 2 * r1 + r0);
  }

  /** The low bits modulo 2P are the low bit and then the low bits of the half modulo P. */
  lemma ModDouble(x: int, p: int)
    requires p >= 1
    ensures x % (2 * p) == x % 2 + 2 * ((x / 2) % p)
  {
    var a, r0 := x / 2, x % 2;
    var q, r1 := a / p, a % p;
    assert x == 2 * p * q + (2 * r1 + r0);
    DivModUnique(x, 2 * p, q, 2 * r1 + r0);
  }

  /** Bit i is the top bit of the low i + 1 bits. */
  lemma BitIsTopOfMod(x: int, i: nat)
    ensures Bit(x, i) == (x % Pow2(i + 1)) / Pow2(i)
  {
    var p := Pow2(i);
    var m := x % (2 * p);
    var q := x / (2 * p);
    var b, s := m / p, m % p;
    assert x == p * (2 * q + b) + s;
    DivModUnique(x, p, 2 * q + b, s);
    DivModUnique(2 * q + b, 2, q, b);
  }

  /** Reading bits of 2t + b: bit 0 is b, the others are the bits of t. */
  lemma BitOfDouble(t: int, b: nat, i: nat)
    requires b <= 1
    ensures Bit(2 * t + b, 0) == b
    ensures Bit(2 * t + b, i + 1) == Bit(t, i)
  {
    DivModUnique(2 * t + b, 2, t, b);
    ShiftStep(2 * t + b, i);
  }

  /** ANDing with zero clears every bit. */
  lemma {:induction false} AndLowZero(a: int, k: nat)
    ensures AndLow(a, 0, k) == 0
    decreases k
  {
    if k > 0 {
      AndLowZero(a / 2, k - 1);
    }
  }

  /** ANDing with the mask 2^n - 1 keeps the low n bits: `x & (2^n - 1) == x mod 2^n`. */
  lemma {:induction false} AndLowMask(x: int, n: nat, k: nat)
    requires n <= k
    ensures AndLow(x, Pow2(n) - 1, k) == x % Pow2(n)
    decreases n
  {
    if n == 0 {
      AndLowZero(x, k);
    } else {
      var p := Pow2(n - 1);
      DivModUnique(Pow2(n) - 1, 2, p - 1, 1);
      AndLowMask(x / 2, n - 1, k - 1);
      ModDouble(x, p);
    }
  }

  /** An AND whose low 32 bits have bit 31 clear is non-negative and is those bits. */
  lemma BitAnd32NonNegative(a: int32, b: int32)
    requires AndLow(a, b, 32) < 0x8000_0000
    ensures BitAnd32(a, b) == AndLow(a, b, 32)
  {
  }

  /** The low n bits of x, for n <= 30, lie below 2^30. */
  lemma LowBitsBound(x: int, n: nat)
    requires n <= 30
    ensures 0 <= x % Pow2(n) < 0x4000_0000
  {
    Pow2Monotone(n, 30);
    ModBounds(x, Pow2(n));
    Pow2Of32();
  }

  /** The `i32` mask `2^n - 1` of the low n bits, for n <= 30. */
  function LowMask(n: nat): (m: int32)
    requires n <= 30
    ensures m == Pow2(n) - 1
  {
    LowBitsBound(0, n);
    Pow2Monotone(n, 30);
    Pow2Of32();
    Pow2(n) - 1
  }

  /** For 0 <= n <= 30, the `i32` expression `x & (2^n - 1)` is `x mod 2^n`. */
  lemma MaskIsMod(x: int32, mask: int32, n: nat)
    requires n <= 30 && mask == Pow2(n) - 1
    ensures BitAnd32(x, mask) == x % Pow2(n)
  {
    AndLowMask(x, n, 32);
    LowBitsBound(x, n);
    BitAnd32NonNegative(x, mask);
  }

  /** The modelled `>>` is floor division by 2^k. */
  lemma {:induction false} ShiftRightIsDiv(a: int32, k: nat)
    requires k < 32
    ensures ShiftRight32(a, k) == a / Pow2(k)
    decreases k
  {
    if k > 0 {
      ShiftRightIsDiv(a / 2, k - 1);
      ShiftStep(a, k - 1);
    }
  }

  /** Shifting right by i and then by one more is shifting right by i + 1. */
  lemma {:induction false} ShiftStepOuter(x: int, i: nat)
    ensures (x / Pow2(i)) / 2 == x / Pow2(i + 1)
    decreases i
  {
    if i == 0 {
      assert x / Pow2(0) == x;
    } else {
      ShiftStep(x, i - 1);
      ShiftStepOuter(x / 2, i - 1);
      ShiftStep(x, i);
    }
  }

  /** A number below 2^i has bit i, and every bit above, clear. */
  lemma BitAboveBound(x: nat, i: nat)
    requires x < Pow2(i)
    ensures Bit(x, i) == 0
  {
    DivModUnique(x, Pow2(i), 0, x);
  }

  /** Two numbers below 2^n with the same low n bits are equal. */
  lemma {:induction false} BitsDetermine(a: nat, b: nat, n: nat)
    requires a < Pow2(n) && b < Pow2(n)
    requires forall i :: 0 <= i < n ==> Bit(a, i) == Bit(b, i)
    ensures a == b
    decreases n
  {
    if n > 0 {
      forall i | 0 <= i < n - 1
        ensures Bit(a / 2, i) == Bit(b / 2, i)
      {
        BitOfDouble(a / 2, a % 2, i);
        BitOfDouble(b / 2, b % 2, i);
        assert Bit(a, i + 1) == Bit(b, i + 1);
      }
      BitsDetermine(a / 2, b / 2, n - 1);
      assert Bit(a, 0) == Bit(b, 0);
    }
  }

  /** x mod d, and x mod d - d, both agree with x modulo d. */
  lemma ModCongruent(x: int, d: int)
    requires d >= 1
    ensures (x % d - x) % d == 0
    ensures (x % d - d - x) % d == 0
  {
    var q := x / d;
    ModBounds(x, d);
    DivModUnique(x % d - x, d, -q, 0);
    DivModUnique(x % d - d - x, d, -q - 1, 0);
  }

  /** Two numbers that agree modulo d agree with everything the other agrees with. */
  lemma CongruentTransfer(r: int, x: int, y: int, d: int)
    requires d >= 1
    requires (r - x) % d == 0 && x % d == y % d
    ensures (r - y) % d == 0
  {
    ModBounds(r - x, d);
    ModBounds(x, d);
    ModBounds(y, d);
    var k := (r - x) / d + x / d - y / d;
    assert r - y == d * k;
    DivModUnique(r - y, d, k, 0);
  }

  /** Two numbers less than d apart that agree modulo d are equal. */
  lemma CongruentInWindow(r1: int, r2: int, x: int, d: int)
    requires d >= 1
    requires (r1 - x) % d == 0 && (r2 - x) % d == 0
    requires -d < r1 - r2 < d
    ensures r1 == r2
  {
    ModBounds(r1 - x, d);
    ModBounds(r2 - x, d);
    var k1, k2 := (r1 - x) / d, (r2 - x) / d;
    assert d * (k1 - k2) == r1 - r2;
    SmallMultiple(d, k1 - k2);
  }

  /** For 0 <= m < 2p, m / p is 0 below p and 1 from p on. */
  lemma TopOfDouble(m: int, p: int)
    requires p >= 1 && 0 <= m < 2 * p
    ensures m < p ==> m / p == 0
    ensures m >= p ==> m / p == 1
  {
    if m < p {
      DivModUnique(m, p, 0, m);
    } else {
      DivModUnique(m, p, 1, m - p);
    }
  }

  /** Agreeing modulo d is symmetric. */
  lemma NegateCongruence(a: int, b: int, d: int)
    requires d >= 1 && (a - b) % d == 0
    ensures (b - a) % d == 0
  {
    ModBounds(a - b, d);
    DivModUnique(b - a, d, -((a - b) / d), 0);
  }

  lemma DoubleProduct(a: int, b: int)
    ensures 2 * (a * b) == a * (2 * b)
  {
  }
}

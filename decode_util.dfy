/**
 * The bit-field helpers of the decoder (the `DecodeUtil` trait): sign
 * extension of an immediate, extraction of a contiguous bit range, and the
 * ordered gather that reassembles the scattered immediates of RISC-V
 * (section 2.3, "Immediate Encoding Variants", of the RISC-V Unprivileged ISA).
 */
module DecodeUtil {
  import opened Bits

  // ---------------------------------------------------------------------------
  // Sign extension: `to_signed_nbit`
  // ---------------------------------------------------------------------------

  /**
   * `to_signed_nbit`, operator for operator: mask `imm32` with
   * `2^bitSize - 1`, and if bit `bitSize - 1` of that is set subtract
   * `2^bitSize`.  Below 1 the `u32` expression `bitSize - 1` underflows, and
   * from 31 on `2_i32.pow(bitSize)` overflows `i32`, hence the precondition.
   * The result is the sign extension of the low `bitSize` bits of `imm32`.
   */
  function ToSignedNBit(imm32: int32, bitSize: uint32): (r: int32)
    requires 1 <= bitSize <= 30
    ensures IsSignExtension(imm32, bitSize, r)
  {
    var imm := BitAnd32(imm32, LowMask(bitSize));
    MaskIsMod(imm32, LowMask(bitSize), bitSize);
    LowBitsBound(imm32, bitSize);
    SignTestIsBit(imm32, bitSize);
    SignBitIsHalf(imm32, bitSize);
    LowBitsSignExtension(imm32, bitSize);
    if BitAnd32(ShiftRight32(imm, bitSize - 1), 1) == 1 then imm - Pow2(bitSize) else imm
  }

  /**
   * The meaning of sign extension: r is the value in the signed n-bit range
   * [-2^(n-1), 2^(n-1)) that agrees with x modulo 2^n.
   */
  predicate IsSignExtension(x: int, n: nat, r: int)
    requires n >= 1
  {
    -Pow2(n - 1) <= r < Pow2(n - 1) && (r - x) % Pow2(n) == 0
  }

  /** `y & 1` keeps bit 0 of y. */
  lemma AndOneIsLowBit(y: int32)
    ensures BitAnd32(y, 1) == y % 2
  {
    assert Pow2(1) == 2;
    MaskIsMod(y, 1, 1);
  }

  /** Shifting the low n bits of x right by n - 1 leaves bit n - 1 of x alone. */
  lemma MaskedShiftIsSignBit(x: int32, n: nat)
    requires 1 <= n <= 30
    ensures ShiftRight32(BitAnd32(x, LowMask(n)), n - 1) == Bit(x, n - 1)
  {
    var m := BitAnd32(x, LowMask(n));
    MaskIsMod(x, LowMask(n), n);
    LowBitsBound(x, n);
    ShiftRightIsDiv(m, n - 1);
    BitIsTopOfMod(x, n - 1);
  }

  /** The test `(x & (2^n - 1)) >> (n - 1) & 1` of `to_signed_nbit` reads bit n - 1 of x. */
  lemma SignTestIsBit(x: int32, n: nat)
    requires 1 <= n <= 30
    ensures BitAnd32(ShiftRight32(BitAnd32(x, LowMask(n)), n - 1), 1) == Bit(x, n - 1)
  {
    var s := ShiftRight32(BitAnd32(x, LowMask(n)), n - 1);
    MaskedShiftIsSignBit(x, n);
    AndOneIsLowBit(s);
  }

  /**
   * The two branches of `to_signed_nbit`: with the sign bit clear the result
   * is the low n bits of x, a non-negative number; with it set, the low n
   * bits minus 2^n, a negative number.
   */
  lemma ToSignedNBitCases(x: int32, n: uint32)
    requires 1 <= n <= 30
    ensures Bit(x, n - 1) == 0 ==> ToSignedNBit(x, n) == x % Pow2(n) && ToSignedNBit(x, n) >= 0
    ensures Bit(x, n - 1) == 1 ==> ToSignedNBit(x, n) == x % Pow2(n) - Pow2(n) && ToSignedNBit(x, n) < 0
  {
    MaskIsMod(x, LowMask(n), n);
    LowBitsBound(x, n);
    ModBounds(x, Pow2(n));
    SignTestIsBit(x, n);
  }

  /** The low n bits of x, or those bits minus 2^n, whichever lies in the signed n-bit range. */
  lemma LowBitsSignExtension(x: int, n: nat)
    requires n >= 1
    ensures x % Pow2(n) < Pow2(n - 1) ==> IsSignExtension(x, n, x % Pow2(n))
    ensures x % Pow2(n) >= Pow2(n - 1) ==> IsSignExtension(x, n, x % Pow2(n) - Pow2(n))
  {
    assert Pow2(n) == 2 * Pow2(n - 1);
    ModBounds(x, Pow2(n));
    ModCongruent(x, Pow2(n));
  }

  /** Bit n - 1 is set exactly when the low n bits reach 2^(n-1). */
  lemma SignBitIsHalf(x: int, n: nat)
    requires n >= 1
    ensures Bit(x, n - 1) == 1 <==> x % Pow2(n) >= Pow2(n - 1)
  {
    ModBounds(x, Pow2(n));
    assert Pow2(n) == 2 * Pow2(n - 1);
    BitIsTopOfMod(x, n - 1);
    TopOfDouble(x % Pow2(n), Pow2(n - 1));
  }

  /** There is one sign extension of x to n bits. */
  lemma SignExtensionUnique(x: int, n: nat, r1: int, r2: int)
    requires n >= 1
    requires IsSignExtension(x, n, r1) && IsSignExtension(x, n, r2)
    ensures r1 == r2
  {
    assert Pow2(n) == 2 * Pow2(n - 1);
    CongruentInWindow(r1, r2, x, Pow2(n));
  }

  /** Any r in the signed n-bit range that agrees with x modulo 2^n is what `to_signed_nbit` returns. */
  lemma ToSignedNBitUnique(x: int32, n: uint32, r: int)
    requires 1 <= n <= 30
    requires IsSignExtension(x, n, r)
    ensures ToSignedNBit(x, n) == r
  {
    SignExtensionUnique(x, n, ToSignedNBit(x, n), r);
  }

  /** Only the low n bits of the input matter. */
  lemma ToSignedNBitLowBitsOnly(x: int32, y: int32, n: uint32)
    requires 1 <= n <= 30
    requires x % Pow2(n) == y % Pow2(n)
    ensures ToSignedNBit(x, n) == ToSignedNBit(y, n)
  {
    var r := ToSignedNBit(x, n);
    CongruentTransfer(r, x, y, Pow2(n));
    ToSignedNBitUnique(y, n, r);
  }

  /** Sign-extending a value already sign-extended to n bits gives it back. */
  lemma ToSignedNBitIdempotent(x: int32, n: uint32)
    requires 1 <= n <= 30
    ensures ToSignedNBit(ToSignedNBit(x, n), n) == ToSignedNBit(x, n)
  {
    ToSignedNBitFixedPoint(ToSignedNBit(x, n), n);
  }

  /** The values `to_signed_nbit` leaves alone are exactly those of the signed n-bit range. */
  lemma ToSignedNBitFixedPoint(x: int32, n: uint32)
    requires 1 <= n <= 30
    ensures ToSignedNBit(x, n) == x <==> -Pow2(n - 1) <= x < Pow2(n - 1)
  {
    if -Pow2(n - 1) <= x < Pow2(n - 1) {
      DivModUnique(0, Pow2(n), 0, 0);
      ToSignedNBitUnique(x, n, x);
    }
  }

  /**
   * Encoding a signed immediate keeps its low n bits; `to_signed_nbit`
   * recovers the immediate from them.
   */
  lemma ToSignedNBitRecoversTruncation(r: int, n: uint32)
    requires 1 <= n <= 30
    requires -Pow2(n - 1) <= r < Pow2(n - 1)
    ensures 0 <= r % Pow2(n) < 0x4000_0000
    ensures ToSignedNBit(r % Pow2(n), n) == r
  {
    LowBitsBound(r, n);
    var u := r % Pow2(n);
    ModCongruent(r, Pow2(n));
    assert (u - r) % Pow2(n) == 0;
    NegateCongruence(u, r, Pow2(n));
    ToSignedNBitUnique(u, n, r);
  }

  // ---------------------------------------------------------------------------
  // Contiguous bit range: `slice`
  // ---------------------------------------------------------------------------

  /**
   * `slice(v, end, start)`: bits `start` to `end` of v, both inclusive,
   * moved down so that bit `start` becomes bit 0.  Bit positions past the
   * width of the word read as clear.
   */
  function Slice(v: nat, end: nat, start: nat): (r: nat)
    requires start <= end
    ensures r < Pow2(end - start + 1)
    decreases end - start
  {
    if start == end then Bit(v, start) else Bit(v, start) + 2 * Slice(v, end, start + 1)
  }

  /** Bit i of a slice is bit start + i of the word inside the range, and clear above it. */
  lemma {:induction false} SliceBit(v: nat, end: nat, start: nat, i: nat)
    requires start <= end
    ensures Bit(Slice(v, end, start), i) == if i <= end - start then Bit(v, start + i) else 0
    decreases end - start
  {
    var r := Slice(v, end, start);
    if i > end - start {
      Pow2Monotone(end - start + 1, i);
      BitAboveBound(r, i);
    } else if start == end {
      BitOfDouble(0, Bit(v, start), 0);
    } else {
      BitOfDouble(Slice(v, end, start + 1), Bit(v, start), if i == 0 then 0 else i - 1);
      if i > 0 {
        SliceBit(v, end, start + 1, i - 1);
      }
    }
  }

  /** A slice is the word shifted right by `start`, modulo 2^(end - start + 1). */
  lemma {:induction false} SliceIsShiftMod(v: nat, end: nat, start: nat)
    requires start <= end
    ensures Slice(v, end, start) == (v / Pow2(start)) % Pow2(end - start + 1)
    decreases end - start
  {
    var x := v / Pow2(start);
    ShiftStepOuter(v, start);
    if start == end {
      assert Pow2(1) == 2;
    } else {
      SliceIsShiftMod(v, end, start + 1);
      ModDouble(x, Pow2(end - start));
    }
  }

  /**
   * The documentation of `slice` takes 0b0101_0101_1001 with end 5 and
   * start 2.  The range 5..2 holds 0b0110, which is what is modelled; the
   * value 0b1_0110 shown there is the range 6..2 (SliceSixToTwoExample).
   */
  lemma SliceDocumentationExample()
    ensures Slice(0x559, 5, 2) == 0x6
  {
    SliceIsShiftMod(0x559, 5, 2);
    assert Pow2(2) == 4 && Pow2(4) == 16;
  }

  /** Bits 6..2 of 0b0101_0101_1001 are 0b1_0110. */
  lemma SliceSixToTwoExample()
    ensures Slice(0x559, 6, 2) == 0x16
  {
    SliceIsShiftMod(0x559, 6, 2);
    assert Pow2(2) == 4 && Pow2(5) == 32;
  }

  // ---------------------------------------------------------------------------
  // Ordered gather: `set`
  // ---------------------------------------------------------------------------

  /**
   * `set(v, mask)`: the bits of v at the positions listed in `mask`, packed
   * in list order with the first position becoming the most significant
   * output bit, so output bit |mask| - 1 - i is bit mask[i] of v.  The prose
   * of the source reads as if the bits of v were scattered to the listed
   * positions; its worked example (see GatherDocumentationExample) only fits
   * a gather, which is what is modelled.
   */
  function Gather(v: nat, mask: seq<nat>): (r: nat)
    ensures r < Pow2(|mask|)
  {
    if mask == [] then 0 else 2 * Gather(v, mask[..|mask| - 1]) + Bit(v, mask[|mask| - 1])
  }

  /** Output bit j is the input bit at position mask[|mask| - 1 - j], and clear from |mask| on. */
  lemma {:induction false} GatherBit(v: nat, mask: seq<nat>, j: nat)
    ensures Bit(Gather(v, mask), j) == if j < |mask| then Bit(v, mask[|mask| - 1 - j]) else 0
  {
    var r := Gather(v, mask);
    if j >= |mask| {
      Pow2Monotone(|mask|, j);
      BitAboveBound(r, j);
    } else {
      var init := mask[..|mask| - 1];
      BitOfDouble(Gather(v, init), Bit(v, mask[|mask| - 1]), if j == 0 then 0 else j - 1);
      if j > 0 {
        GatherBit(v, init, j - 1);
      }
    }
  }

  /** With at most 32 positions the result fits the `u32` the source returns. */
  lemma GatherFitsWord(v: nat, mask: seq<nat>)
    requires |mask| <= 32
    ensures Gather(v, mask) < 0x1_0000_0000
  {
    Pow2Monotone(|mask|, 32);
    Pow2Of32();
  }

  /**
   * Gathering two position lists one after the other places the first group
   * above the second: this is how an immediate split over several fields is
   * put back together.
   */
  lemma {:induction false} GatherAppend(v: nat, high: seq<nat>, low: seq<nat>)
    ensures Gather(v, high + low) == Gather(v, high) * Pow2(|low|) + Gather(v, low)
    decreases |low|
  {
    if low != [] {
      var all, init := high + low, low[..|low| - 1];
      var b := Bit(v, low[|low| - 1]);
      assert all[..|all| - 1] == high + init;
      assert all[|all| - 1] == low[|low| - 1];
      var gh, gi, p := Gather(v, high), Gather(v, init), Pow2(|init|);
      GatherAppend(v, high, init);
      assert Gather(v, all) == 2 * (gh * p + gi) + b;
      assert Pow2(|low|) == 2 * p;
      DoubleProduct(gh, p);
    } else {
      assert high + low == high;
    }
  }

  /** The positions end, end - 1, ..., start, from high to low. */
  function Descending(end: nat, start: nat): (s: seq<nat>)
    requires start <= end
    ensures |s| == end - start + 1
    ensures forall i :: 0 <= i < |s| ==> s[i] == end - i
  {
    seq(end - start + 1, i requires 0 <= i <= end - start => end - i)
  }

  /** Gathering a contiguous descending run of positions is slicing that range. */
  lemma GatherDescendingIsSlice(v: nat, end: nat, start: nat)
    requires start <= end
    ensures Gather(v, Descending(end, start)) == Slice(v, end, start)
  {
    var mask := Descending(end, start);
    var g, s := Gather(v, mask), Slice(v, end, start);
    forall i | 0 <= i < |mask|
      ensures Bit(g, i) == Bit(s, i)
    {
      GatherBit(v, mask, i);
      SliceBit(v, end, start, i);
    }
    BitsDetermine(g, s, |mask|);
  }

  /** Gathering the positions n - 1 down to 0 keeps the low n bits and nothing else. */
  lemma GatherAllBitsIsIdentity(v: nat, n: nat)
    ensures n >= 1 ==> Gather(v, Descending(n - 1, 0)) == v % Pow2(n)
    ensures n >= 1 && v < Pow2(n) ==> Gather(v, Descending(n - 1, 0)) == v
  {
    if n >= 1 {
      GatherDescendingIsSlice(v, n - 1, 0);
      SliceIsShiftMod(v, n - 1, 0);
      if v < Pow2(n) {
        DivModUnique(v, Pow2(n), 0, v);
      }
    }
  }

  /** Appending one position shifts what was gathered up by one and adds that bit below it. */
  lemma GatherSnoc(v: nat, mask: seq<nat>, pos: nat)
    ensures Gather(v, mask + [pos]) == 2 * Gather(v, mask) + Bit(v, pos)
  {
    assert (mask + [pos])[..|mask|] == mask;
  }

  /** The worked example of `set`: positions [7, 5, 3, 2, 0, 6, 4, 1] of 0b1010_1101 give 0b1111_1000. */
  lemma GatherDocumentationExample()
    ensures Gather(0xAD, [7, 5, 3, 2, 0, 6, 4, 1]) == 0xF8
  {
    var v := 0xAD;
    assert Bit(v, 7) == 1 && Bit(v, 5) == 1 && Bit(v, 3) == 1 && Bit(v, 2) == 1 && Bit(v, 0) == 1;
    assert Bit(v, 6) == 0 && Bit(v, 4) == 0 && Bit(v, 1) == 0;
    var m0: seq<nat> := [];
    var m1 := m0 + [7];
    var m2 := m1 + [5];
    var m3 := m2 + [3];
    var m4 := m3 + [2];
    var m5 := m4 + [0];
    var m6 := m5 + [6];
    var m7 := m6 + [4];
    var m8 := m7 + [1];
    assert m8 == [7, 5, 3, 2, 0, 6, 4, 1];
    GatherSnoc(v, m0, 7);
    GatherSnoc(v, m1, 5);
    GatherSnoc(v, m2, 3);
    GatherSnoc(v, m3, 2);
    GatherSnoc(v, m4, 0);
    GatherSnoc(v, m5, 6);
    GatherSnoc(v, m6, 4);
    GatherSnoc(v, m7, 1);
  }
}

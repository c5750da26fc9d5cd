/** The width-generic bit helpers of the crate: periodic masks, filling below
    a single set bit, clearing the upper half, and the bit width of a type.
    A value of a W-bit unsigned type is a `nat` below `Pow2(W)`.
 */
module BitUtil {
  import opened Bits

  /** The unsigned primitive integer types the crate instantiates. */
  datatype UInt = U8 | U16 | U32 | U64 | U128

  function ByteSize(t: UInt): nat
  {
    match t
    case U8 => 1
    case U16 => 2
    case U32 => 4
    case U64 => 8
    case U128 => 16
  }

  /** `bit_count::<T>()`: the size of the type in bytes, shifted left by 3
      (a `usize` shift that cannot overflow for these sizes). */
  function BitCount(t: UInt): (r: nat)
    ensures 8 <= r <= 128 && r % 8 == 0
  {
    ByteSize(t) * 8
  }

  /** The widths `bit_count` gives: 8, 16, 32, 64 and 128 bits, each a
      shift of the byte size by 3, and all even. */
  lemma BitCountValues(t: UInt)
    ensures BitCount(t) == ByteSize(t) * Pow2(3)
    ensures BitCount(U8) == 8 && BitCount(U16) == 16 && BitCount(U32) == 32
    ensures BitCount(U64) == 64 && BitCount(U128) == 128
    ensures BitCount(t) % 2 == 0 && 8 <= BitCount(t)
  {
    assert Pow2(3) == 8;
  }

  /** `mask::<T>(h)`: all ones divided by 2^h + 1, which is the pattern of
      runs of h ones and h zeros starting with ones at bit 0 (`MaskBits`). */
  function Mask(h: nat, W: nat): (r: nat)
    requires h < W
    ensures r < Pow2(W)
  {
    (Pow2(W) - 1) / (Shl(1, h, W) + 1)
  }

  /** `mask_pow2_and_under(x)`: for x zero or a power of two (the debug
      assertion), x together with every bit below it. */
  function MaskPow2AndUnder(x: nat): (r: nat)
    requires x == 0 || And(x, x - 1) == 0
    ensures r == Pow2(BitLength(x)) - 1
  {
    var m := if x < 1 then 1 else x;
    FillBelowTop(x);
    Or(x, m - 1)
  }

  /** `zero_high_bits(v)`: v with its upper half cleared. */
  function ZeroHighBits(v: nat, W: nat): (r: nat)
    requires v < Pow2(W) && W % 2 == 0
    ensures r == v % Pow2(W / 2)
  {
    var bitsWide := W / 2;
    var mask := Shr(Not(0, W), bitsWide);
    ZeroHighBitsIsMod(v, W);
    And(v, mask)
  }

  // ---------------------------------------------------------------------
  // Periodic masks

  /** n repetitions of (h ones, h zeros), as a number. */
  function Runs(h: nat, n: nat): nat
  {
    if n == 0 then 0 else (Pow2(h) - 1) + Pow2(2 * h) * Runs(h, n - 1)
  }

  lemma {:induction false} RunsTimes(h: nat, n: nat)
    ensures (Pow2(h) + 1) * Runs(h, n) == Pow2(2 * h * n) - 1
  {
    if n > 0 {
      var m := n - 1;
      RunsTimes(h, m);
      Pow2Add(h, h);
      Pow2Add(2 * h, 2 * h * m);
      PeriodSucc(h, n, m);
      RunsStep(Pow2(h), Pow2(2 * h), Runs(h, m), Pow2(2 * h * m));
    }
  }

  /** n periods of 2h bits are one period more than n - 1 (kept apart so the
      product does not enter the induction step). */
  lemma PeriodSucc(h: nat, n: nat, m: nat)
    requires m + 1 == n
    ensures 2 * h + 2 * h * m == 2 * h * n
  {
  }

  lemma RunsStep(p: nat, pp: nat, r: nat, q: nat)
    requires p >= 1 && q >= 1 && pp == p * p && (p + 1) * r == q - 1
    ensures (p + 1) * ((p - 1) + pp * r) == pp * q - 1
  {
    var a := (p + 1) * (p - 1);
    var b := (p + 1) * (pp * r);
    assert (p + 1) * ((p - 1) + pp * r) == a + b;
    assert a == pp - 1;
    assert b == pp * ((p + 1) * r);
    assert pp * (q - 1) == pp * q - pp;
  }

  lemma {:induction false} RunsBit(h: nat, n: nat, i: nat)
    requires h > 0
    ensures Bit(Runs(h, n), i) == (i < 2 * h * n && (i / h) % 2 == 0)
  {
    if n == 0 {
      ZeroBit(i);
    } else {
      var m := n - 1;
      Pow2Mono(h, 2 * h);
      BitSplit(Pow2(h) - 1, 2 * h, Runs(h, m), i);
      if i < 2 * h {
        RunsFirstPeriod(h, n, i);
      } else {
        RunsBit(h, m, i - 2 * h);
        RunsNextPeriod(h, n, m, i);
      }
    }
  }

  /** Within the first period of 2h bits, the ones are the lower h. */
  lemma RunsFirstPeriod(h: nat, n: nat, i: nat)
    requires 0 < h && 0 < n && i < 2 * h
    ensures Bit(Pow2(h) - 1, i) == ((i / h) % 2 == 0)
    ensures i < 2 * h * n
  {
    LowOnesBit(h, i);
    MulLe(1, n, 2 * h);
    assert 2 * h * n == n * (2 * h);
    if i < h {
      DivModUnique(i, h, 0, i);
    } else {
      DivModUnique(i, h, 1, i - h);
    }
  }

  /** Past the first period, position i is position i - 2h of the rest. */
  lemma RunsNextPeriod(h: nat, n: nat, m: nat, i: nat)
    requires 0 < h && m + 1 == n && 2 * h <= i
    ensures (i - 2 * h < 2 * h * m) == (i < 2 * h * n)
    ensures ((i - 2 * h) / h) % 2 == (i / h) % 2
  {
    DivModUnique(i, h, (i - 2 * h) / h + 2, (i - 2 * h) % h);
  }

  /** Bit i of `mask(h)` is set exactly when i lies in an even run of h bits. */
  lemma MaskBits(h: nat, W: nat, i: nat)
    requires 0 < h < W && W % (2 * h) == 0
    ensures Bit(Mask(h, W), i) == (i < W && (i / h) % 2 == 0)
  {
    var n := W / (2 * h);
    assert W == 2 * h * n;
    MaskIsRuns(h, W, n);
    RunsBit(h, n, i);
  }

  /** `mask(h)` is the W / 2h runs of h ones. */
  lemma MaskIsRuns(h: nat, W: nat, n: nat)
    requires 0 < h < W && W == 2 * h * n
    ensures Mask(h, W) == Runs(h, n)
  {
    ShlOne(h, W);
    RunsTimes(h, n);
    var r := Runs(h, n);
    var p := Pow2(h) + 1;
    assert Pow2(2 * h * n) == Pow2(W);
    assert p * r == r * p;
    DivModUnique(Pow2(W) - 1, p, r, 0);
  }

  /** The values the crate's unit tests expect of `mask::<u32>`. */
  lemma MaskExamples()
    ensures Mask(16, 32) == 0x0000_FFFF
    ensures Mask(8, 32) == 0x00FF_00FF
    ensures Mask(4, 32) == 0x0F0F_0F0F
    ensures Mask(2, 32) == 0x3333_3333
    ensures Mask(1, 32) == 0x5555_5555
  {
    Pow2Small();
    Pow2Wide();
    MaskValue(16, 32, 0x1_0000, 0x1_0000_0000, 0x0000_FFFF);
    MaskValue(8, 32, 0x100, 0x1_0000_0000, 0x00FF_00FF);
    MaskValue(4, 32, 16, 0x1_0000_0000, 0x0F0F_0F0F);
    MaskValue(2, 32, 4, 0x1_0000_0000, 0x3333_3333);
    MaskValue(1, 32, 2, 0x1_0000_0000, 0x5555_5555);
  }

  /** `mask(h)` on known powers of two: the m with m * (2^h + 1) = 2^W - 1. */
  lemma MaskValue(h: nat, W: nat, p: nat, P: nat, m: nat)
    requires h < W && Pow2(h) == p && Pow2(W) == P && P - 1 == m * (p + 1)
    ensures Mask(h, W) == m
  {
    ShlOne(h, W);
    DivModUnique(P - 1, p + 1, m, 0);
  }

  // ---------------------------------------------------------------------
  // Powers of two and filling below them

  /** The debug assertion of `mask_pow2_and_under` accepts exactly the
      powers of two among the non-zero values. */
  lemma {:induction false} PowerOfTwoTest(x: nat)
    requires x > 0
    ensures And(x, x - 1) == 0 <==> x == Pow2(BitLength(x) - 1)
  {
    if x % 2 == 1 {
      var q := x / 2;
      assert And(x, x - 1) == 2 * And(q, q);
      AndSelf(q);
      if q > 0 {
        assert BitLength(x) == 1 + BitLength(q);
        assert Pow2(BitLength(x) - 1) == 2 * Pow2(BitLength(q) - 1);
      }
    } else {
      var q := x / 2;
      assert x - 1 == 2 * (q - 1) + 1;
      assert And(x, x - 1) == 2 * And(q, q - 1);
      PowerOfTwoTest(q);
    }
  }

  lemma {:induction false} AndSelf(x: nat)
    ensures And(x, x) == x
  {
    if x > 0 {
      AndSelf(x / 2);
    }
  }

  lemma {:induction false} BitLengthPow2(k: nat)
    ensures BitLength(Pow2(k)) == k + 1
  {
    if k > 0 {
      BitLengthPow2(k - 1);
      assert Pow2(k) / 2 == Pow2(k - 1);
    }
  }

  lemma FillBelowTop(x: nat)
    requires x == 0 || And(x, x - 1) == 0
    ensures Or(x, (if x < 1 then 1 else x) - 1) == Pow2(BitLength(x)) - 1
  {
    if x != 0 {
      PowerOfTwoTest(x);
      FillBelowPow2(x, BitLength(x) - 1);
    }
  }

  /** 2^k together with every bit below it is k + 1 ones. */
  lemma FillBelowPow2(x: nat, k: nat)
    requires x == Pow2(k)
    ensures Or(x, x - 1) == Pow2(k + 1) - 1
  {
    var v := Or(x, x - 1);
    Pow2Mono(k, k + 1);
    OrBound(x, x - 1, k + 1);
    forall i | 0 <= i < k + 1
      ensures Bit(v, i) == Bit(Pow2(k + 1) - 1, i)
    {
      FillBelowPow2Bit(x, k, i);
    }
    BitExt(v, Pow2(k + 1) - 1, k + 1);
  }

  lemma FillBelowPow2Bit(x: nat, k: nat, i: nat)
    requires x == Pow2(k)
    ensures Bit(Or(x, x - 1), i) == Bit(Pow2(k + 1) - 1, i)
  {
    OrBit(x, x - 1, i);
    Pow2Bit(k, i);
    LowOnesBit(k, i);
    LowOnesBit(k + 1, i);
  }

  /** `mask_pow2_and_under(2^k)` sets exactly bits 0..k; zero stays zero. */
  lemma MaskPow2AndUnderPow2(k: nat, p: nat)
    requires p == Pow2(k)
    ensures And(p, p - 1) == 0
    ensures MaskPow2AndUnder(p) == Pow2(k + 1) - 1 == 2 * p - 1
  {
    BitLengthPow2(k);
    PowerOfTwoTest(p);
  }

  /** The values the crate's unit tests expect of `mask_pow2_and_under`. */
  lemma MaskPow2AndUnderExamples()
    ensures And(0x100, 0xFF) == 0 && MaskPow2AndUnder(0x100) == 0x1FF
    ensures And(0x001, 0x000) == 0 && MaskPow2AndUnder(0x001) == 0x001
    ensures MaskPow2AndUnder(0x000) == 0x000
  {
    Pow2Small();
    MaskPow2AndUnderPow2(8, 0x100);
    MaskPow2AndUnderPow2(0, 1);
  }

  // ---------------------------------------------------------------------
  // Clearing the upper half

  lemma ZeroHighBitsIsMod(v: nat, W: nat)
    requires v < Pow2(W) && W % 2 == 0
    ensures Not(0, W) / Pow2(W / 2) == Pow2(W / 2) - 1
    ensures And(v, Shr(Not(0, W), W / 2)) == v % Pow2(W / 2)
  {
    var h := W / 2;
    Pow2Add(h, h);
    DivModUnique(Pow2(W) - 1, Pow2(h), Pow2(h) - 1, Pow2(h) - 1);
    var r := And(v, Pow2(h) - 1);
    AndBound(v, Pow2(h) - 1, h);
    forall i | 0 <= i < h
      ensures Bit(r, i) == Bit(v % Pow2(h), i)
    {
      AndBit(v, Pow2(h) - 1, i);
      LowOnesBit(h, i);
      ModBit(v, h, i);
    }
    BitExt(r, v % Pow2(h), h);
  }

  /** Clearing the upper half twice is clearing it once. */
  lemma ZeroHighBitsIdempotent(v: nat, W: nat)
    requires v < Pow2(W) && W % 2 == 0
    ensures ZeroHighBits(v, W) < Pow2(W)
    ensures ZeroHighBits(ZeroHighBits(v, W), W) == ZeroHighBits(v, W)
  {
    Pow2Mono(W / 2, W);
    var r := ZeroHighBits(v, W);
    DivModUnique(r, Pow2(W / 2), 0, r);
  }

  /** The values the crate's unit tests expect of `zero_high_bits`. */
  lemma ZeroHighBitsExamples()
    ensures 0xFEDC_BA09_8765_4321 < Pow2(64) && ZeroHighBits(0xFEDC_BA09_8765_4321, 64) == 0x8765_4321
    ensures 0x8765_4321 < Pow2(32) && ZeroHighBits(0x8765_4321, 32) == 0x4321
    ensures 0x4321 < Pow2(16) && ZeroHighBits(0x4321, 16) == 0x21
    ensures 0x21 < Pow2(8) && ZeroHighBits(0x21, 8) == 0x1
  {
    Pow2Small();
    Pow2Wide();
  }
}

/** Bit interleaving: two W-bit values become one 2W-bit value whose even
    bits come from `rhs` and whose odd bits come from `lhs`.

    `Interleave` is the contract. `InterleaveBits` picks the parallel bit
    deposit path (`Pdep`) or the portable path (`InterleaveWithZero`) and is
    proved to meet the contract on both. The portable loop as the crate
    writes it (`InterleaveWithZeroAsWritten`) applies its masks in the wrong
    order; `AsWrittenCounterexample` exhibits inputs where it breaks the
    contract, and `InterleaveBitsAsWritten` is `interleave_bits` with that
    loop.
 */
module Interleaving {
  import opened Bits
  import opened BitUtil

  /** The types that implement `Interleavable`: every unsigned type but u128. */
  predicate Interleavable(t: UInt)
  {
    t != U128
  }

  /** `Interleavable::Wider`: the type twice as wide. */
  function Wider(t: UInt): (w: UInt)
    requires Interleavable(t)
    ensures BitCount(w) == 2 * BitCount(t)
  {
    match t
    case U8 => U16
    case U16 => U32
    case U32 => U64
    case U64 => U128
  }

  /** log2 of `bit_count::<T>()`. */
  function Log2BitCount(t: UInt): (m: nat)
    ensures 3 <= m <= 7 && BitCount(t) == Pow2(m)
  {
    Pow2Small();
    assert Pow2(5) == 32 && Pow2(6) == 64 && Pow2(7) == 128;
    match t
    case U8 => 3
    case U16 => 4
    case U32 => 5
    case U64 => 6
    case U128 => 7
  }

  /** `as_wider`: the cast `self as Wider`, a zero extension. */
  function AsWider(v: nat, t: UInt): (r: nat)
    requires Interleavable(t) && v < Pow2(BitCount(t))
    ensures r == v
    ensures r < Pow2(BitCount(Wider(t)))
  {
    Pow2Mono(BitCount(t), BitCount(Wider(t)));
    v
  }

  // ---------------------------------------------------------------------
  // The contract

  /** The interleave of lhs and rhs: bit i of rhs at bit 2i, bit i of lhs at
      bit 2i+1 (`InterleaveBit`). */
  function Interleave(lhs: nat, rhs: nat): nat
    decreases lhs + rhs
  {
    if lhs == 0 && rhs == 0 then 0
    else rhs % 2 + 2 * (lhs % 2) + 4 * Interleave(lhs / 2, rhs / 2)
  }

  lemma {:induction false} InterleaveBit(lhs: nat, rhs: nat, i: nat)
    ensures Bit(Interleave(lhs, rhs), i) == if i % 2 == 0 then Bit(rhs, i / 2) else Bit(lhs, i / 2)
    decreases lhs + rhs
  {
    if lhs == 0 && rhs == 0 {
      ZeroBit(i);
      ZeroBit(i / 2);
    } else {
      var rest := Interleave(lhs / 2, rhs / 2);
      BitOfPair(rhs % 2, lhs % 2, rest, i);
      if i >= 2 {
        InterleaveBit(lhs / 2, rhs / 2, i - 2);
        PairIndex(lhs, rhs, i);
      }
    }
  }

  /** The bits of a + 2b + 4 rest for single bits a and b. */
  lemma BitOfPair(a: nat, b: nat, rest: nat, i: nat)
    requires a < 2 && b < 2
    ensures Bit(a + 2 * b + 4 * rest, i) == if i == 0 then a == 1 else if i == 1 then b == 1 else Bit(rest, i - 2)
  {
    var v := a + 2 * b + 4 * rest;
    DivModUnique(v, 2, b + 2 * rest, a);
    DivModUnique(b + 2 * rest, 2, rest, b);
  }

  /** Position i = 2j + c of the pair level is position i - 2 one level down. */
  lemma PairIndex(lhs: nat, rhs: nat, i: nat)
    requires i >= 2
    ensures (i - 2) % 2 == i % 2 && (i - 2) / 2 == i / 2 - 1
    ensures Bit(lhs, i / 2) == Bit(lhs / 2, (i - 2) / 2)
    ensures Bit(rhs, i / 2) == Bit(rhs / 2, (i - 2) / 2)
  {
    var j, c := i / 2, i % 2;
    HalfIndex(i, j, c);
    BitShift(lhs, j);
    BitShift(rhs, j);
  }

  lemma HalfIndex(i: nat, j: nat, c: nat)
    requires i >= 2 && j == i / 2 && c == i % 2
    ensures j >= 1 && (i - 2) % 2 == c && (i - 2) / 2 == j - 1
  {
    DivModUnique(i - 2, 2, j - 1, c);
  }

  lemma {:induction false} InterleaveBound(lhs: nat, rhs: nat, n: nat)
    requires lhs < Pow2(n) && rhs < Pow2(n)
    ensures Interleave(lhs, rhs) < Pow2(2 * n)
    ensures lhs == 0 && n > 0 ==> Interleave(lhs, rhs) < Pow2(2 * n - 1)
    decreases lhs + rhs
  {
    if (lhs != 0 || rhs != 0) && n > 0 {
      var k := n - 1;
      InterleaveBound(lhs / 2, rhs / 2, k);
      PairBound(Interleave(lhs / 2, rhs / 2), n, k);
    }
  }

  /** One level more: four times the bound of the level below. */
  lemma PairBound(rest: nat, n: nat, k: nat)
    requires k + 1 == n
    ensures Pow2(2 * n) == 4 * Pow2(2 * k)
    ensures k > 0 ==> Pow2(2 * n - 1) == 4 * Pow2(2 * k - 1)
  {
    assert 2 * n == (2 * k + 1) + 1;
    if k > 0 {
      assert 2 * n - 1 == (2 * k - 1 + 1) + 1;
    }
  }

  /** Interleaving with zero on the low side is the rhs spread shifted up one. */
  lemma {:induction false} InterleaveLhsOnly(lhs: nat)
    ensures Interleave(lhs, 0) == 2 * Interleave(0, lhs)
    decreases lhs
  {
    if lhs != 0 {
      InterleaveLhsOnly(lhs / 2);
    }
  }

  /** The two halves of an interleave have no bit in common, so OR joins them. */
  lemma InterleaveJoin(lhs: nat, rhs: nat, n: nat)
    requires lhs < Pow2(n) && rhs < Pow2(n)
    ensures Or(Interleave(lhs, 0), Interleave(0, rhs)) == Interleave(lhs, rhs)
  {
    var a, b := Interleave(lhs, 0), Interleave(0, rhs);
    InterleaveBound(lhs, 0, n);
    InterleaveBound(0, rhs, n);
    InterleaveBound(lhs, rhs, n);
    OrBound(a, b, 2 * n);
    forall i | 0 <= i < 2 * n
      ensures Bit(Or(a, b), i) == Bit(Interleave(lhs, rhs), i)
    {
      OrBit(a, b, i);
      InterleaveBit(lhs, 0, i);
      InterleaveBit(0, rhs, i);
      InterleaveBit(lhs, rhs, i);
      ZeroBit(i / 2);
    }
    BitExt(Or(a, b), Interleave(lhs, rhs), 2 * n);
  }

  /** The expected values in the crate's unit tests of `interleave_bits`. */
  lemma InterleaveExamples()
    ensures Interleave(0x0, 0x0) == 0x00   // (0b0000, 0b0000) -> 0b0000_0000
    ensures Interleave(0xF, 0xF) == 0xFF   // (0b1111, 0b1111) -> 0b1111_1111
    ensures Interleave(0x0, 0xF) == 0x55   // (0b0000, 0b1111) -> 0b0101_0101
    ensures Interleave(0xF, 0x0) == 0xAA   // (0b1111, 0b0000) -> 0b1010_1010
    ensures Interleave(0xA, 0x5) == 0x99   // (0b1010, 0b0101) -> 0b1001_1001
  {
    assert Interleave(1, 1) == 3;
    assert Interleave(3, 3) == 15;
    assert Interleave(7, 7) == 63;
    assert Interleave(0, 1) == 1;
    assert Interleave(0, 3) == 5;
    assert Interleave(0, 7) == 21;
    assert Interleave(1, 0) == 2;
    assert Interleave(3, 0) == 10;
    assert Interleave(7, 0) == 42;
    assert Interleave(1, 0) == 2;
    assert Interleave(2, 1) == 9;
    assert Interleave(5, 2) == 38;
  }

  // ---------------------------------------------------------------------
  // The accelerated path: parallel bit deposit

  /** `_pdep_u32` / `_pdep_u64` (BMI2): the low bits of src, in order, are
      written to the positions of the set bits of mask, lowest first. */
  function Pdep(src: nat, mask: nat): (r: nat)
    ensures r <= mask
    decreases mask
  {
    if mask == 0 then 0
    else if mask % 2 == 1 then src % 2 + 2 * Pdep(src / 2, mask / 2)
    else 2 * Pdep(src, mask / 2)
  }

  /** `mask(1)` is n copies of the pair of bits 01. */
  lemma MaskOneIsRuns(W: nat)
    requires 1 < W && W % 2 == 0
    ensures Mask(1, W) == Runs(1, W / 2)
  {
    forall i | 0 <= i < W
      ensures Bit(Mask(1, W), i) == Bit(Runs(1, W / 2), i)
    {
      MaskBits(1, W, i);
      RunsBit(1, W / 2, i);
    }
    RunsBound(W / 2);
    BitExt(Mask(1, W), Runs(1, W / 2), W);
  }

  lemma {:induction false} RunsBound(n: nat)
    ensures n > 0 ==> Runs(1, n) < Pow2(2 * n - 1)
    ensures Runs(1, n) < Pow2(2 * n)
  {
    if n > 0 {
      RunsBound(n - 1);
      assert Runs(1, n) == 1 + 4 * Runs(1, n - 1);
      assert Pow2(2 * n) == 4 * Pow2(2 * (n - 1));
      if n > 1 {
        assert Pow2(2 * n - 1) == 4 * Pow2(2 * (n - 1) - 1);
      }
    }
  }

  /** Depositing into the 0101... mask spreads the low n bits of src. */
  lemma {:induction false} PdepEven(src: nat, n: nat)
    ensures Pdep(src, Runs(1, n)) == Interleave(0, src % Pow2(n))
  {
    if n > 0 {
      var m := Runs(1, n - 1);
      assert Runs(1, n) == 1 + 4 * m;
      PdepOdd(src, m);
      PdepEven(src / 2, n - 1);
      ModPow2Step(src, n);
    }
  }

  lemma PdepOdd(src: nat, m: nat)
    ensures Pdep(src, 1 + 4 * m) == src % 2 + 4 * Pdep(src / 2, m)
  {
    assert (1 + 4 * m) / 2 == 2 * m && (1 + 4 * m) % 2 == 1;
    assert Pdep(src, 1 + 4 * m) == src % 2 + 2 * Pdep(src / 2, 2 * m);
    if m != 0 {
      assert (2 * m) / 2 == m && (2 * m) % 2 == 0;
      assert Pdep(src / 2, 2 * m) == 2 * Pdep(src / 2, m);
    }
  }

  /** The accelerated path computes the interleave. */
  lemma PdepInterleave(lhs: nat, rhs: nat, n: nat)
    requires 0 < n && lhs < Pow2(n) && rhs < Pow2(n)
    ensures Or(Pdep(lhs, Shl(Mask(1, 2 * n), 1, 2 * n)), Pdep(rhs, Mask(1, 2 * n))) == Interleave(lhs, rhs)
  {
    assert (2 * n) / 2 == n;
    MaskOneIsRuns(2 * n);
    PdepOddBits(lhs, n);
    PdepEvenBits(rhs, n);
    InterleaveJoin(lhs, rhs, n);
  }

  /** Depositing an n-bit value into the even bits of 2n spreads it. */
  lemma PdepEvenBits(v: nat, n: nat)
    requires v < Pow2(n)
    ensures Pdep(v, Runs(1, n)) == Interleave(0, v)
  {
    PdepEven(v, n);
    LowHalf(v, n);
  }

  /** Depositing an n-bit value into the odd bits of 2n spreads it one up. */
  lemma PdepOddBits(v: nat, n: nat)
    requires 0 < n && v < Pow2(n)
    ensures Pdep(v, Shl(Runs(1, n), 1, 2 * n)) == Interleave(v, 0)
  {
    var m := Runs(1, n);
    RunsBound(n);
    ShlOneFits(m, 2 * n);
    assert m == 1 + 4 * Runs(1, n - 1);
    assert Pdep(v, 2 * m) == 2 * Pdep(v, m);
    PdepEvenBits(v, n);
    InterleaveLhsOnly(v);
  }

  /** Shifting left by one within W bits doubles a value of W - 1 bits. */
  lemma ShlOneFits(a: nat, W: nat)
    requires 0 < W && a < Pow2(W - 1)
    ensures Shl(a, 1, W) == 2 * a
  {
    assert Pow2(W) == 2 * Pow2(W - 1);
    DivModUnique(2 * a, Pow2(W), 0, 2 * a);
  }

  // ---------------------------------------------------------------------
  // The portable path

  /** Bit i of the input spread into runs of g bits, every other run empty:
      run number 2j + c holds, when c is 0, input bits j*g .. j*g + g - 1. */
  predicate Spread(input: nat, g: nat, i: nat)
    requires g > 0
  {
    var run := i / g;
    run % 2 == 0 && Bit(input, (run / 2) * g + i % g)
  }

  /** v holds the input spread at granularity g: the state of the portable
      loop before a step at that granularity. */
  ghost predicate Placed(v: nat, input: nat, W: nat, g: nat)
    requires g > 0
  {
    v < Pow2(W) && forall i :: 0 <= i < W ==> Bit(v, i) == Spread(input, g, i)
  }

  /** Spread evaluated at a position given as run pair j, run half c, offset r. */
  lemma SpreadAt(input: nat, g: nat, i: nat, j: nat, c: nat, r: nat)
    requires g > 0 && c < 2 && r < g && i == j * (2 * g) + c * g + r
    ensures Spread(input, g, i) == (c == 0 && Bit(input, j * g + r))
  {
    assert i == (2 * j + c) * g + r;
    DivModUnique(i, g, 2 * j + c, r);
    assert (2 * j + c) % 2 == c && (2 * j + c) / 2 == j;
  }

  lemma PlacedStart(input: nat, W: nat)
    requires W % 2 == 0 && W > 0 && input < Pow2(W / 2)
    ensures Placed(input, input, W, W / 2)
  {
    var h := W / 2;
    Pow2Mono(h, W);
    forall i | 0 <= i < W
      ensures Bit(input, i) == Spread(input, h, i)
    {
      if i < h {
        SpreadAt(input, h, i, 0, 0, i);
      } else {
        SpreadAt(input, h, i, 0, 1, i - h);
        BitHigh(input, h, i);
      }
    }
  }

  lemma PlacedDone(v: nat, input: nat, W: nat)
    requires W % 2 == 0 && input < Pow2(W / 2) && Placed(v, input, W, 1)
    ensures v == Interleave(0, input)
  {
    var h := W / 2;
    assert 2 * h == W;
    InterleaveBound(0, input, h);
    forall i | 0 <= i < W
      ensures Bit(v, i) == Bit(Interleave(0, input), i)
    {
      assert Bit(v, i) == Spread(input, 1, i);
      SpreadOne(input, i);
    }
    BitExt(v, Interleave(0, input), W);
  }

  /** Spread into runs of one bit is the interleave with zero. */
  lemma SpreadOne(input: nat, i: nat)
    ensures Spread(input, 1, i) == Bit(Interleave(0, input), i)
  {
    DivModUnique(i, 1, i, 0);
    assert (i / 2) * 1 + 0 == i / 2;
    InterleaveBit(0, input, i);
    ZeroBit(i / 2);
  }

  /** Splits i into i = j*4s + C*2s + c*s + r. */
  lemma Split4(i: nat, s: nat) returns (j: nat, C: nat, c: nat, r: nat)
    requires s > 0
    ensures C < 2 && c < 2 && r < s && i == j * (4 * s) + C * (2 * s) + c * s + r
    ensures (i / s) % 2 == c
  {
    var q := i / s;
    r := i % s;
    c := q % 2;
    var h := q / 2;
    C := h % 2;
    j := h / 2;
    assert i == q * s + r;
    assert q == 4 * j + 2 * C + c;
    Regroup4(s, j, C, c, r);
  }

  lemma Regroup4(s: nat, j: nat, C: nat, c: nat, r: nat)
    ensures (4 * j + 2 * C + c) * s + r == j * (4 * s) + C * (2 * s) + c * s + r
  {
  }

  lemma HalfDivides(W: nat, s: nat)
    requires s > 0 && W % (4 * s) == 0
    ensures W % (2 * s) == 0
  {
    var n := W / (4 * s);
    assert W == (2 * n) * (2 * s) + 0;
    DivModUnique(W, 2 * s, 2 * n, 0);
  }

  /** Regrouping i = j*4s + C*2s + c*s + r by runs of 2s and of s. */
  lemma Regroup(s: nat, i: nat, j: nat, C: nat, c: nat, r: nat)
    requires i == j * (4 * s) + C * (2 * s) + c * s + r
    ensures i == (2 * j + C) * (2 * s) + c * s + r
    ensures i == j * (2 * (2 * s)) + C * (2 * s) + (c * s + r)
  {
    assert j * (4 * s) == (2 * j) * (2 * s);
  }

  /** One step of the portable loop: `(v ^ (v << shift)) & mask(h)`. */
  function Step(v: nat, shift: nat, h: nat, W: nat): (r: nat)
    requires h < W
    ensures r < Pow2(W)
  {
    AndBound(Xor(v, Shl(v, shift, W)), Mask(h, W), W);
    And(Xor(v, Shl(v, shift, W)), Mask(h, W))
  }

  /** Bit i after one step `(v ^ (v << s)) & mask(s)`. */
  lemma StepBit(v: nat, W: nat, s: nat, i: nat)
    requires 0 < s < W && W % (2 * s) == 0 && i < W
    ensures Bit(Step(v, s, s, W), i) ==
            ((i / s) % 2 == 0 && (Bit(v, i) != (s <= i && Bit(v, i - s))))
  {
    AndBit(Xor(v, Shl(v, s, W)), Mask(s, W), i);
    XorBit(v, Shl(v, s, W), i);
    ShlBit(v, s, W, i);
    MaskBits(s, W, i);
  }

  /** One correct step, `v = (v ^ (v << s)) & mask(s)`, halves the granularity. */
  lemma SpreadStepBit(v: nat, input: nat, W: nat, s: nat, i: nat)
    requires s > 0 && 4 * s <= W && W % (4 * s) == 0 && Placed(v, input, W, 2 * s) && i < W
    ensures Bit(Step(v, s, s, W), i) == Spread(input, s, i)
  {
    HalfDivides(W, s);
    StepBit(v, W, s, i);
    var j, C, c, r := Split4(i, s);
    assert Bit(v, i) == Spread(input, 2 * s, i);
    assert s <= i ==> Bit(v, i - s) == Spread(input, 2 * s, i - s);
    StepCase(input, s, i, j, C, c, r);
  }

  /** The per-position arithmetic of one step: at i = j*4s + C*2s + c*s + r
      the new bit is the old bit at i (C = 0) or at i - s (C = 1), and the
      other contribution is an empty run. */
  lemma StepCase(input: nat, s: nat, i: nat, j: nat, C: nat, c: nat, r: nat)
    requires s > 0 && C < 2 && c < 2 && r < s && i == j * (4 * s) + C * (2 * s) + c * s + r
    ensures Spread(input, s, i) ==
            (c == 0 && (Spread(input, 2 * s, i) != (s <= i && Spread(input, 2 * s, i - s))))
  {
    Regroup(s, i, j, C, c, r);
    if c == 1 {
      SpreadAt(input, s, i, 2 * j + C, 1, r);
    } else if C == 0 {
      StepCaseLow(input, s, i, j, r);
    } else {
      StepCaseHigh(input, s, i, j, r);
    }
  }

  lemma StepCaseLow(input: nat, s: nat, i: nat, j: nat, r: nat)
    requires s > 0 && r < s && i == j * (2 * (2 * s)) + r
    ensures Spread(input, s, i) == (Spread(input, 2 * s, i) != (s <= i && Spread(input, 2 * s, i - s)))
  {
    ArithLow(s, i, j, r);
    SpreadAt(input, s, i, 2 * j, 0, r);
    SpreadAt(input, 2 * s, i, j, 0, r);
    if s <= i {
      SpreadAt(input, 2 * s, i - s, j - 1, 1, s + r);
    }
  }

  lemma ArithLow(s: nat, i: nat, j: nat, r: nat)
    requires s > 0 && r < s && i == j * (2 * (2 * s)) + r
    ensures i == (2 * j) * (2 * s) + 0 * s + r
    ensures (2 * j) * s == j * (2 * s)
    ensures s <= i ==> j > 0 && i - s == (j - 1) * (2 * (2 * s)) + 1 * (2 * s) + (s + r)
  {
  }

  lemma StepCaseHigh(input: nat, s: nat, i: nat, j: nat, r: nat)
    requires s > 0 && r < s && i == j * (2 * (2 * s)) + 1 * (2 * s) + r
    ensures Spread(input, s, i) == (Spread(input, 2 * s, i) != (s <= i && Spread(input, 2 * s, i - s)))
  {
    ArithHigh(s, i, j, r);
    SpreadAt(input, s, i, 2 * j + 1, 0, r);
    SpreadAt(input, 2 * s, i, j, 1, r);
    SpreadAt(input, 2 * s, i - s, j, 0, s + r);
  }

  lemma ArithHigh(s: nat, i: nat, j: nat, r: nat)
    requires s > 0 && r < s && i == j * (2 * (2 * s)) + 1 * (2 * s) + r
    ensures i == (2 * j + 1) * (2 * s) + 0 * s + r
    ensures s <= i && i - s == j * (2 * (2 * s)) + 0 * (2 * s) + (s + r)
    ensures j * (2 * s) + (s + r) == (2 * j + 1) * s + r
  {
  }

  lemma SpreadStep(v: nat, input: nat, W: nat, s: nat)
    requires s > 0 && 4 * s <= W && W % (4 * s) == 0 && Placed(v, input, W, 2 * s)
    ensures Placed(Step(v, s, s, W), input, W, s)
  {
    var v' := Step(v, s, s, W);
    forall i | 0 <= i < W
      ensures Bit(v', i) == Spread(input, s, i)
    {
      SpreadStepBit(v, input, W, s, i);
    }
  }

  /** The shift 2^k of a step, against the width 2^m. */
  lemma ShiftFacts(m: nat, k: nat)
    requires k + 2 <= m
    ensures 4 * Pow2(k) <= Pow2(m) && Pow2(m) % (4 * Pow2(k)) == 0
    ensures Pow2(k) < Pow2(m)
    ensures Shr(Pow2(k), 1) == if k == 0 then 0 else Pow2(k - 1)
    ensures Shr(Pow2(k), 1) < Pow2(k)
  {
    Pow2Small();
    Pow2Add(2, k);
    Pow2Mono(k + 2, m);
    Pow2Div(m, k + 2);
    if k > 0 {
      Pow2Div(k, 1);
    }
  }

  /** The loop of `interleave_with_zero`, corrected, after n steps on a
      2^m-bit type: step n shifts by 2^(m-1-n) and masks with
      `mask(2^(m-1-n))`, keeping runs as long as the shift. */
  function SpreadFixed(v: nat, m: nat, n: nat): (r: nat)
    requires 2 <= m && n <= m - 1
    ensures v < Pow2(Pow2(m)) ==> r < Pow2(Pow2(m))
  {
    if n == 0 then v
    else
      Pow2Mono(m - 1 - n, m);
      Step(SpreadFixed(v, m, n - 1), Pow2(m - 1 - n), Pow2(m - 1 - n), Pow2(m))
  }

  /** After n corrected steps on an input in the low half, the input bits sit
      in even runs of 2^(m-1-n) bits. */
  lemma {:induction false} SpreadFixedPlaced(input: nat, m: nat, n: nat)
    requires 2 <= m && n <= m - 1 && input < Pow2(Pow2(m - 1))
    ensures Placed(SpreadFixed(input, m, n), input, Pow2(m), Pow2(m - 1 - n))
  {
    ShiftFacts(m, 0);
    Pow2Div(m, 1);
    if n == 0 {
      PlacedStart(input, Pow2(m));
    } else {
      SpreadFixedPlaced(input, m, n - 1);
      var k := m - 1 - n;
      ShiftFacts(m, k);
      assert Pow2(m - 1 - (n - 1)) == 2 * Pow2(k);
      SpreadStep(SpreadFixed(input, m, n - 1), input, Pow2(m), Pow2(k));
    }
  }

  /** All m - 1 corrected steps spread an input of the low half to the even
      bits: the result `interleave_with_zero` promises. */
  lemma SpreadFixedInterleaves(input: nat, m: nat)
    requires 2 <= m && input < Pow2(Pow2(m - 1))
    ensures SpreadFixed(input, m, m - 1) == Interleave(0, input)
  {
    SpreadFixedPlaced(input, m, m - 1);
    ShiftFacts(m, 0);
    Pow2Div(m, 1);
    PlacedDone(SpreadFixed(input, m, m - 1), input, Pow2(m));
  }

  /** `interleave_with_zero`, corrected: the shift runs W/4, W/8, ..., 1 and
      the step that shifts by s keeps runs of s bits, `mask(s)`. For an input
      in the low half it spreads bit i of the input to bit 2i. */
  method InterleaveWithZero(input: nat, t: UInt) returns (output: nat)
    requires input < Pow2(BitCount(t))
    ensures output == SpreadFixed(input, Log2BitCount(t), Log2BitCount(t) - 1)
    ensures output < Pow2(BitCount(t))
    ensures input < Pow2(BitCount(t) / 2) ==> output == Interleave(0, input)
  {
    var bitsWide := BitCount(t);
    ghost var m := Log2BitCount(t);
    output := input;
    var shift := Shr(bitsWide, 2);
    FixedStart(t, shift);
    ghost var steps := 0;
    while shift > 0
      invariant 0 <= steps <= m - 1
      invariant shift == if steps < m - 1 then Pow2(m - 2 - steps) else 0
      invariant output == SpreadFixed(input, m, steps)
      decreases shift
    {
      ghost var next := steps + 1;
      FixedAdvance(input, m, steps, next, shift);
      output := Step(output, shift, shift, bitsWide);
      shift := Shr(shift, 1);
      steps := next;
    }
    assert steps == m - 1;
    FixedDone(input, t, output);
  }

  /** The first shift of the loop is a quarter of the width. */
  lemma FixedStart(t: UInt, shift: nat)
    requires shift == Shr(BitCount(t), 2)
    ensures 2 <= Log2BitCount(t)
    ensures shift == if 0 < Log2BitCount(t) - 1 then Pow2(Log2BitCount(t) - 2 - 0) else 0
  {
    Pow2Div(Log2BitCount(t), 2);
  }

  /** What the loop has computed once the shift reaches zero. */
  lemma FixedDone(input: nat, t: UInt, output: nat)
    requires input < Pow2(BitCount(t))
    requires output == SpreadFixed(input, Log2BitCount(t), Log2BitCount(t) - 1)
    ensures output < Pow2(BitCount(t))
    ensures input < Pow2(BitCount(t) / 2) ==> output == Interleave(0, input)
  {
    var m := Log2BitCount(t);
    if input < Pow2(BitCount(t) / 2) {
      Pow2Div(m, 1);
      SpreadFixedInterleaves(input, m);
    }
  }

  /** One step of the corrected loop: its shift, mask and result are those of
      `SpreadFixed` one step further on. */
  lemma FixedAdvance(input: nat, m: nat, steps: nat, next: nat, shift: nat)
    requires 2 <= m && steps < m - 1 && next == steps + 1
    requires shift == Pow2(m - 2 - steps)
    ensures shift < Pow2(m)
    ensures Step(SpreadFixed(input, m, steps), shift, shift, Pow2(m)) == SpreadFixed(input, m, next)
    ensures Shr(shift, 1) == if next < m - 1 then Pow2(m - 2 - next) else 0
    ensures Shr(shift, 1) < shift
  {
    ShiftFacts(m, m - 2 - steps);
    assert m - 1 - next == m - 2 - steps;
  }

  /** The state of the loop of `interleave_with_zero`, as the crate writes
      it, after n steps on a 2^m-bit type: step n shifts by 2^(m-1-n) and
      masks with `mask(2^(n-1))`. */
  function SpreadAsWritten(v: nat, m: nat, n: nat): nat
    requires 2 <= m && n <= m - 1
  {
    if n == 0 then v
    else
      Pow2Mono(n - 1, m);
      Step(SpreadAsWritten(v, m, n - 1), Pow2(m - 1 - n), Pow2(n - 1), Pow2(m))
  }

  /** `interleave_with_zero` as written: the shift runs W/4, W/8, ..., 1 while
      the mask half length runs 1, 2, ..., W/4, for log2(W) - 1 steps. */
  method InterleaveWithZeroAsWritten(input: nat, t: UInt) returns (output: nat)
    requires input < Pow2(BitCount(t))
    ensures output == SpreadAsWritten(input, Log2BitCount(t), Log2BitCount(t) - 1)
  {
    var bitsWide := BitCount(t);
    ghost var m := Log2BitCount(t);
    output := input;
    var maskHalfLen := 1;
    var shift := Shr(bitsWide, 2);
    FixedStart(t, shift);
    ghost var steps := 0;
    while shift > 0
      invariant 0 <= steps <= m - 1
      invariant shift == if steps < m - 1 then Pow2(m - 2 - steps) else 0
      invariant maskHalfLen == Pow2(steps)
      invariant output == SpreadAsWritten(input, m, steps)
      decreases shift
    {
      ghost var next := steps + 1;
      AsWrittenAdvance(input, m, steps, next, shift, maskHalfLen);
      output := Step(output, shift, maskHalfLen, bitsWide);
      maskHalfLen := maskHalfLen * 2;
      shift := Shr(shift, 1);
      steps := next;
    }
    assert steps == m - 1;
  }

  /** One step of the loop as written: its shift, mask and result are those
      of `SpreadAsWritten` one step further on. */
  lemma AsWrittenAdvance(input: nat, m: nat, steps: nat, next: nat, shift: nat, h: nat)
    requires 2 <= m && steps < m - 1 && next == steps + 1
    requires shift == Pow2(m - 2 - steps) && h == Pow2(steps)
    ensures h < Pow2(m) && h * 2 == Pow2(next)
    ensures Step(SpreadAsWritten(input, m, steps), shift, h, Pow2(m)) == SpreadAsWritten(input, m, next)
    ensures Shr(shift, 1) == if next < m - 1 then Pow2(m - 2 - next) else 0
    ensures Shr(shift, 1) < shift
  {
    ShiftFacts(m, m - 2 - steps);
    Pow2Mono(steps, m);
    assert m - 1 - next == m - 2 - steps;
  }

  /** The masks of the 16-bit loop: `mask(1)`, `mask(2)` and `mask(4)`. */
  lemma Mask16(h: nat, p: nat, m: nat)
    requires h < 16 && Pow2(h) == p && 0xFFFF == m * (p + 1) + 0
    ensures Pow2(16) == 0x1_0000
    ensures Mask(h, 16) == m
  {
    Pow2Small();
    MaskValue(h, 16, p, 0x1_0000, m);
  }

  lemma StepOnOne1()
    ensures Step(0x1, 4, 1, 16) == 0x11
  {
    Mask16(1, 2, 0x5555);
    assert Pow2(4) == 16;
    assert Shl(0x1, 4, 16) == 0x10;
    XorOnOne1();
    AndOnOne1();
  }

  lemma XorOnOne1()
    ensures Xor(0x1, 0x10) == 0x11
  {
    XorHalves(0x0, 0x1, 0x0);
    XorHalves(0x0, 0x2, 0x1);
    XorHalves(0x0, 0x4, 0x2);
    XorHalves(0x0, 0x8, 0x4);
    XorHalves(0x1, 0x10, 0x8);
  }

  lemma AndOnOne1()
    ensures And(0x11, 0x5555) == 0x11
  {
    AndHalves(0x1, 0x555, 0x0);
    AndHalves(0x2, 0xaaa, 0x1);
    AndHalves(0x4, 0x1555, 0x2);
    AndHalves(0x8, 0x2aaa, 0x4);
    AndHalves(0x11, 0x5555, 0x8);
  }

  /** The 16-bit loop as written on 0x1: step 2 (shift 2, mask(2)). */
  lemma StepOnOne2()
    ensures Step(0x11, 2, 2, 16) == 0x11
  {
    Mask16(2, 4, 0x3333);
    assert Pow2(2) == 4;
    assert Shl(0x11, 2, 16) == 0x44;
    XorOnOne2();
    AndOnOne2();
  }

  lemma XorOnOne2()
    ensures Xor(0x11, 0x44) == 0x55
  {
    XorHalves(0x0, 0x1, 0x0);
    XorHalves(0x0, 0x2, 0x1);
    XorHalves(0x1, 0x4, 0x2);
    XorHalves(0x2, 0x8, 0x5);
    XorHalves(0x4, 0x11, 0xa);
    XorHalves(0x8, 0x22, 0x15);
    XorHalves(0x11, 0x44, 0x2a);
  }

  lemma AndOnOne2()
    ensures And(0x55, 0x3333) == 0x11
  {
    AndHalves(0x1, 0xcc, 0x0);
    AndHalves(0x2, 0x199, 0x0);
    AndHalves(0x5, 0x333, 0x0);
    AndHalves(0xa, 0x666, 0x1);
    AndHalves(0x15, 0xccc, 0x2);
    AndHalves(0x2a, 0x1999, 0x4);
    AndHalves(0x55, 0x3333, 0x8);
  }

  /** The 16-bit loop as written on 0x1: step 3 (shift 1, mask(4)). */
  lemma StepOnOne3()
    ensures Step(0x11, 1, 4, 16) == 0x3
  {
    Mask16(4, 16, 0x0F0F);
    assert Pow2(1) == 2;
    assert Shl(0x11, 1, 16) == 0x22;
    XorOnOne3();
    AndOnOne3();
  }

  lemma XorOnOne3()
    ensures Xor(0x11, 0x22) == 0x33
  {
    XorHalves(0x0, 0x1, 0x0);
    XorHalves(0x1, 0x2, 0x1);
    XorHalves(0x2, 0x4, 0x3);
    XorHalves(0x4, 0x8, 0x6);
    XorHalves(0x8, 0x11, 0xc);
    XorHalves(0x11, 0x22, 0x19);
  }

  lemma AndOnOne3()
    ensures And(0x33, 0xf0f) == 0x3
  {
    AndHalves(0x1, 0x78, 0x0);
    AndHalves(0x3, 0xf0, 0x0);
    AndHalves(0x6, 0x1e1, 0x0);
    AndHalves(0xc, 0x3c3, 0x0);
    AndHalves(0x19, 0x787, 0x0);
    AndHalves(0x33, 0xf0f, 0x1);
  }

  /** The 16-bit loop as written on 0xff: step 1 (shift 4, mask(1)). */
  lemma StepOnFF1()
    ensures Step(0xff, 4, 1, 16) == 0x505
  {
    Mask16(1, 2, 0x5555);
    assert Pow2(4) == 16;
    assert Shl(0xff, 4, 16) == 0xff0;
    XorOnFF1();
    AndOnFF1();
  }

  lemma XorOnFF1()
    ensures Xor(0xff, 0xff0) == 0xf0f
  {
    XorHalves(0x0, 0x1, 0x0);
    XorHalves(0x0, 0x3, 0x1);
    XorHalves(0x0, 0x7, 0x3);
    XorHalves(0x0, 0xf, 0x7);
    XorHalves(0x1, 0x1f, 0xf);
    XorHalves(0x3, 0x3f, 0x1e);
    XorHalves(0x7, 0x7f, 0x3c);
    XorHalves(0xf, 0xff, 0x78);
    XorHalves(0x1f, 0x1fe, 0xf0);
    XorHalves(0x3f, 0x3fc, 0x1e1);
    XorHalves(0x7f, 0x7f8, 0x3c3);
    XorHalves(0xff, 0xff0, 0x787);
  }

  lemma AndOnFF1()
    ensures And(0xf0f, 0x5555) == 0x505
  {
    AndHalves(0x1, 0xa, 0x0);
    AndHalves(0x3, 0x15, 0x0);
    AndHalves(0x7, 0x2a, 0x1);
    AndHalves(0xf, 0x55, 0x2);
    AndHalves(0x1e, 0xaa, 0x5);
    AndHalves(0x3c, 0x155, 0xa);
    AndHalves(0x78, 0x2aa, 0x14);
    AndHalves(0xf0, 0x555, 0x28);
    AndHalves(0x1e1, 0xaaa, 0x50);
    AndHalves(0x3c3, 0x1555, 0xa0);
    AndHalves(0x787, 0x2aaa, 0x141);
    AndHalves(0xf0f, 0x5555, 0x282);
  }

  /** The 16-bit loop as written on 0xff: step 2 (shift 2, mask(2)). */
  lemma StepOnFF2()
    ensures Step(0x505, 2, 2, 16) == 0x1111
  {
    Mask16(2, 4, 0x3333);
    assert Pow2(2) == 4;
    assert Shl(0x505, 2, 16) == 0x1414;
    XorOnFF2();
    AndOnFF2();
  }

  lemma XorOnFF2()
    ensures Xor(0x505, 0x1414) == 0x1111
  {
    XorHalves(0x0, 0x1, 0x0);
    XorHalves(0x0, 0x2, 0x1);
    XorHalves(0x1, 0x5, 0x2);
    XorHalves(0x2, 0xa, 0x4);
    XorHalves(0x5, 0x14, 0x8);
    XorHalves(0xa, 0x28, 0x11);
    XorHalves(0x14, 0x50, 0x22);
    XorHalves(0x28, 0xa0, 0x44);
    XorHalves(0x50, 0x141, 0x88);
    XorHalves(0xa0, 0x282, 0x111);
    XorHalves(0x141, 0x505, 0x222);
    XorHalves(0x282, 0xa0a, 0x444);
    XorHalves(0x505, 0x1414, 0x888);
  }

  lemma AndOnFF2()
    ensures And(0x1111, 0x3333) == 0x1111
  {
    AndHalves(0x1, 0x3, 0x0);
    AndHalves(0x2, 0x6, 0x1);
    AndHalves(0x4, 0xc, 0x2);
    AndHalves(0x8, 0x19, 0x4);
    AndHalves(0x11, 0x33, 0x8);
    AndHalves(0x22, 0x66, 0x11);
    AndHalves(0x44, 0xcc, 0x22);
    AndHalves(0x88, 0x199, 0x44);
    AndHalves(0x111, 0x333, 0x88);
    AndHalves(0x222, 0x666, 0x111);
    AndHalves(0x444, 0xccc, 0x222);
    AndHalves(0x888, 0x1999, 0x444);
    AndHalves(0x1111, 0x3333, 0x888);
  }

  /** The 16-bit loop as written on 0xff: step 3 (shift 1, mask(4)). */
  lemma StepOnFF3()
    ensures Step(0x1111, 1, 4, 16) == 0x303
  {
    Mask16(4, 16, 0x0F0F);
    assert Pow2(1) == 2;
    assert Shl(0x1111, 1, 16) == 0x2222;
    XorOnFF3();
    AndOnFF3();
  }

  lemma XorOnFF3()
    ensures Xor(0x1111, 0x2222) == 0x3333
  {
    XorHalves(0x0, 0x1, 0x0);
    XorHalves(0x1, 0x2, 0x1);
    XorHalves(0x2, 0x4, 0x3);
    XorHalves(0x4, 0x8, 0x6);
    XorHalves(0x8, 0x11, 0xc);
    XorHalves(0x11, 0x22, 0x19);
    XorHalves(0x22, 0x44, 0x33);
    XorHalves(0x44, 0x88, 0x66);
    XorHalves(0x88, 0x111, 0xcc);
    XorHalves(0x111, 0x222, 0x199);
    XorHalves(0x222, 0x444, 0x333);
    XorHalves(0x444, 0x888, 0x666);
    XorHalves(0x888, 0x1111, 0xccc);
    XorHalves(0x1111, 0x2222, 0x1999);
  }

  lemma AndOnFF3()
    ensures And(0x3333, 0xf0f) == 0x303
  {
    AndHalves(0x6, 0x1, 0x0);
    AndHalves(0xc, 0x3, 0x0);
    AndHalves(0x19, 0x7, 0x0);
    AndHalves(0x33, 0xf, 0x1);
    AndHalves(0x66, 0x1e, 0x3);
    AndHalves(0xcc, 0x3c, 0x6);
    AndHalves(0x199, 0x78, 0xc);
    AndHalves(0x333, 0xf0, 0x18);
    AndHalves(0x666, 0x1e1, 0x30);
    AndHalves(0xccc, 0x3c3, 0x60);
    AndHalves(0x1999, 0x787, 0xc0);
    AndHalves(0x3333, 0xf0f, 0x181);
  }

  /** The contract's value for 0x00FF: every other bit of the low half. */
  lemma InterleaveZeroFF()
    ensures Interleave(0, 0xFF) == 0x5555
  {
    assert Interleave(0x0, 0x1) == 0x1;
    assert Interleave(0x0, 0x3) == 0x5;
    assert Interleave(0x0, 0x7) == 0x15;
    assert Interleave(0x0, 0xf) == 0x55;
    assert Interleave(0x0, 0x1f) == 0x155;
    assert Interleave(0x0, 0x3f) == 0x555;
    assert Interleave(0x0, 0x7f) == 0x1555;
  }

  lemma WrittenOnOne()
    ensures SpreadAsWritten(0x1, 4, 3) == 0x3
  {
    Pow2Small();
    StepOnOne1();
    StepOnOne2();
    StepOnOne3();
    assert SpreadAsWritten(0x1, 4, 1) == 0x11;
    assert SpreadAsWritten(0x1, 4, 2) == 0x11;
  }

  lemma WrittenOnFF()
    ensures SpreadAsWritten(0xFF, 4, 3) == 0x0303
  {
    Pow2Small();
    StepOnFF1();
    StepOnFF2();
    StepOnFF3();
    assert SpreadAsWritten(0xFF, 4, 1) == 0x505;
    assert SpreadAsWritten(0xFF, 4, 2) == 0x1111;
  }

  lemma StepZero(shift: nat, h: nat, W: nat)
    requires h < W
    ensures Step(0, shift, h, W) == 0
  {
    ShlZero(shift, W);
    AndZero(Mask(h, W));
    assert Xor(0, 0) == 0;
  }

  lemma WrittenOnZero()
    ensures SpreadAsWritten(0, 4, 3) == 0
  {
    Pow2Small();
    StepZero(4, 1, 16);
    StepZero(2, 2, 16);
    StepZero(1, 4, 16);
    assert SpreadAsWritten(0, 4, 1) == 0;
    assert SpreadAsWritten(0, 4, 2) == 0;
  }

  /** With u8 inputs (a 16-bit wider type, so four steps of log2 16) the
      portable loop as written maps 1 to 0b11, where the contract wants 0b01. */
  lemma AsWrittenCounterexample()
    ensures Log2BitCount(U16) == 4 && BitCount(U16) == 16
    ensures SpreadAsWritten(0x1, 4, 3) == 0x3 && Interleave(0, 0x1) == 0x1
  {
    WrittenOnOne();
    assert Interleave(0, 0) == 0;
  }

  /** The same loop maps 0x00FF to 0x0303, where the contract wants 0x5555. */
  lemma AsWrittenCounterexampleFF()
    ensures SpreadAsWritten(0xFF, 4, 3) == 0x0303 && Interleave(0, 0xFF) == 0x5555
  {
    WrittenOnFF();
    InterleaveZeroFF();
  }

  /** So on the portable path `interleave_bits(0u8, 1u8)` is
      `(spread(0) << 1) | spread(1)` = 0b11 instead of `Interleave(0, 1)` = 0b01. */
  lemma AsWrittenInterleaveBits()
    ensures Or(Shl(SpreadAsWritten(0, 4, 3), 1, 16), SpreadAsWritten(0x1, 4, 3)) == 0x3
  {
    WrittenOnOne();
    WrittenOnZero();
    OrOfShlZero();
  }

  lemma OrOfShlZero()
    ensures Or(Shl(0, 1, 16), 0x3) == 0x3
  {
    Pow2Small();
    assert Shl(0, 1, 16) == 0;
    assert Or(0, 0x3) == 0x3 by {
      assert Or(0, 0x1) == 0x1;
    }
  }

  // ---------------------------------------------------------------------
  // interleave_bits

  /** `interleave_bits(lhs, rhs)`: with `accelerated` (an x86 target) and a
      32- or 64-bit wider type, by parallel bit deposit; otherwise by the
      portable loop applied to each zero-extended operand. Either way the
      result is the interleave of the two operands. */
  method InterleaveBits(lhs: nat, rhs: nat, t: UInt, accelerated: bool) returns (r: nat)
    requires Interleavable(t) && lhs < Pow2(BitCount(t)) && rhs < Pow2(BitCount(t))
    ensures r == Interleave(lhs, rhs)
    ensures r < Pow2(BitCount(Wider(t)))
  {
    var wide := BitCount(Wider(t));
    if accelerated && (wide == 32 || wide == 64) {
      r := InterleavePdep(lhs, rhs, t);
    } else {
      r := InterleavePortable(lhs, rhs, t);
    }
    InterleaveFits(lhs, rhs, t);
  }

  /** The interleave of two values of a type fits in the wider type. */
  lemma InterleaveFits(lhs: nat, rhs: nat, t: UInt)
    requires Interleavable(t) && lhs < Pow2(BitCount(t)) && rhs < Pow2(BitCount(t))
    ensures Interleave(lhs, rhs) < Pow2(BitCount(Wider(t)))
  {
    InterleaveBound(lhs, rhs, BitCount(t));
  }

  /** The x86 path: `_pdep_u32`/`_pdep_u64` of lhs into the odd bits and of
      rhs into the even bits, OR-ed together. */
  function InterleavePdep(lhs: nat, rhs: nat, t: UInt): (r: nat)
    requires Interleavable(t) && lhs < Pow2(BitCount(t)) && rhs < Pow2(BitCount(t))
    requires BitCount(Wider(t)) == 32 || BitCount(Wider(t)) == 64
    ensures r == Interleave(lhs, rhs)
  {
    var wide := BitCount(Wider(t));
    PdepInterleave(lhs, rhs, BitCount(t));
    var maskLhs, maskRhs := Shl(Mask(1, wide), 1, wide), Mask(1, wide);
    Or(Pdep(lhs, maskLhs), Pdep(rhs, maskRhs))
  }

  /** The portable path: each operand zero-extended to the wider type and
      spread by `interleave_with_zero`, lhs then moved up one bit. */
  method InterleavePortable(lhs: nat, rhs: nat, t: UInt) returns (r: nat)
    requires Interleavable(t) && lhs < Pow2(BitCount(t)) && rhs < Pow2(BitCount(t))
    ensures r == Interleave(lhs, rhs)
  {
    var wide := BitCount(Wider(t));
    var a := SpreadOperand(lhs, t);
    var b := SpreadOperand(rhs, t);
    PortableJoin(lhs, rhs, BitCount(t), wide, a, b);
    r := Or(Shl(a, 1, wide), b);
  }

  /** `interleave_with_zero(zero_high_bits(v.as_wider()))`: one operand
      zero-extended, its upper half cleared, and spread to the even bits. */
  method SpreadOperand(v: nat, t: UInt) returns (a: nat)
    requires Interleavable(t) && v < Pow2(BitCount(t))
    ensures a == Interleave(0, v)
  {
    var wide := BitCount(Wider(t));
    ZeroExtendLow(v, t);
    var low := ZeroHighBits(AsWider(v, t), wide);
    a := InterleaveWithZero(low, Wider(t));
  }

  /** Clearing the upper half of a zero-extended value gives the value back,
      and it lies in the lower half of the wider type. */
  lemma ZeroExtendLow(v: nat, t: UInt)
    requires Interleavable(t) && v < Pow2(BitCount(t))
    ensures AsWider(v, t) < Pow2(BitCount(Wider(t))) && BitCount(Wider(t)) % 2 == 0
    ensures ZeroHighBits(AsWider(v, t), BitCount(Wider(t))) == v
    ensures v < Pow2(BitCount(Wider(t))) && v < Pow2(BitCount(Wider(t)) / 2)
  {
    var n := BitCount(t);
    HalfOf(BitCount(Wider(t)), n);
    LowHalf(v, n);
  }

  lemma HalfOf(W: nat, n: nat)
    requires W == 2 * n
    ensures W % 2 == 0 && W / 2 == n
  {
    DivModUnique(W, 2, n, 0);
  }

  lemma LowHalf(v: nat, n: nat)
    requires v < Pow2(n)
    ensures v % Pow2(n) == v && v < Pow2(2 * n)
  {
    DivModUnique(v, Pow2(n), 0, v);
    Pow2Mono(n, 2 * n);
  }

  /** The portable path: the spread lhs moved up one bit, OR the spread rhs. */
  lemma PortableJoin(lhs: nat, rhs: nat, n: nat, W: nat, a: nat, b: nat)
    requires 0 < n && W == 2 * n && lhs < Pow2(n) && rhs < Pow2(n)
    requires a == Interleave(0, lhs) && b == Interleave(0, rhs)
    ensures Or(Shl(a, 1, W), b) == Interleave(lhs, rhs)
  {
    InterleaveBound(0, lhs, n);
    ShlOneFits(a, W);
    InterleaveLhsOnly(lhs);
    InterleaveJoin(lhs, rhs, n);
  }

  // ---------------------------------------------------------------------
  // interleave_bits as written

  /** What the portable path of `interleave_bits` computes with the loop as
      the crate writes it: both operands spread by `SpreadAsWritten` (zero
      extension and clearing the upper half keep them, `ZeroExtendLow`), lhs
      moved up one bit and OR-ed with rhs. */
  function PortableAsWritten(lhs: nat, rhs: nat, t: UInt): nat
    requires Interleavable(t)
  {
    var m := Log2BitCount(Wider(t));
    Or(Shl(SpreadAsWritten(lhs, m, m - 1), 1, BitCount(Wider(t))), SpreadAsWritten(rhs, m, m - 1))
  }

  /** `interleave_bits(lhs, rhs)` exactly as the crate writes it: the x86
      path is the interleave, the portable path runs the loop as written. */
  method InterleaveBitsAsWritten(lhs: nat, rhs: nat, t: UInt, accelerated: bool) returns (r: nat)
    requires Interleavable(t) && lhs < Pow2(BitCount(t)) && rhs < Pow2(BitCount(t))
    ensures accelerated && (BitCount(Wider(t)) == 32 || BitCount(Wider(t)) == 64) ==> r == Interleave(lhs, rhs)
    ensures !(accelerated && (BitCount(Wider(t)) == 32 || BitCount(Wider(t)) == 64)) ==>
      r == PortableAsWritten(lhs, rhs, t)
  {
    var wide := BitCount(Wider(t));
    if accelerated && (wide == 32 || wide == 64) {
      r := InterleavePdep(lhs, rhs, t);
    } else {
      r := InterleavePortableAsWritten(lhs, rhs, t);
    }
  }

  /** The portable path as written: each operand spread by the loop as
      written, lhs then moved up one bit. */
  method InterleavePortableAsWritten(lhs: nat, rhs: nat, t: UInt) returns (r: nat)
    requires Interleavable(t) && lhs < Pow2(BitCount(t)) && rhs < Pow2(BitCount(t))
    ensures r == PortableAsWritten(lhs, rhs, t)
  {
    var wide := BitCount(Wider(t));
    var a := SpreadOperandAsWritten(lhs, t);
    var b := SpreadOperandAsWritten(rhs, t);
    r := Or(Shl(a, 1, wide), b);
  }

  /** `interleave_with_zero(zero_high_bits(v.as_wider()))` with the loop as
      written: the zero extension keeps v, and the loop spreads it. */
  method SpreadOperandAsWritten(v: nat, t: UInt) returns (a: nat)
    requires Interleavable(t) && v < Pow2(BitCount(t))
    ensures a == SpreadAsWritten(v, Log2BitCount(Wider(t)), Log2BitCount(Wider(t)) - 1)
  {
    ZeroExtendLow(v, t);
    a := InterleaveWithZeroAsWritten(ZeroHighBits(AsWider(v, t), BitCount(Wider(t))), Wider(t));
  }

  /** For u8 operands the portable path as written gives
      `interleave_bits(0, 1)` = 0b11, where the interleave is 0b01; the u8
      path never takes the parallel bit deposit, whatever the target. */
  lemma PortableAsWrittenU8()
    ensures BitCount(Wider(U8)) == 16
    ensures PortableAsWritten(0, 1, U8) == 3 && Interleave(0, 1) == 1
  {
    AsWrittenCounterexample();
    AsWrittenInterleaveBits();
  }
}

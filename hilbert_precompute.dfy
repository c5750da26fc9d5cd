/** `HilbertPrecompute<T>`: a point together with two words, `flip` and
    `swap`, that record the orientation of the Hilbert curve at every level of
    the point, and the distance and the comparison that read them.

    Bit i of `swap` and bit i of `flip` hold the frame (`Frame`, curve.dfy)
    in force just below level i, that is after level i of the point has been
    read (`AfterLevel`). `XyFlipSwap` computes both words in one pass from the
    top set bit down; `Distance` interleaves the two digit bits the words give
    at every level, with the corrected portable loop (`DistanceAsWritten` is
    the crate's own interleave, which is not the Hilbert index off the x86
    path); `PartialCmp` looks at the highest level where the two
    points differ and nowhere else. Values of the W-bit type T are `nat`s
    below `Pow2(W)`.
 */
module HilbertPrecompute {
  import opened Bits
  import opened BitUtil
  import opened Interleaving
  import opened HilbertCurve

  /** The struct: the point and its flip and swap words. */
  datatype Precompute = Precompute(x: nat, y: nat, flip: nat, swap: nat)

  /** `Ordering` and `Option`, as `partial_cmp` returns them. */
  datatype Ordering = Less | Equal | Greater

  datatype Option<T> = None | Some(value: T)

  /** `Ord::cmp` on unsigned integers. */
  function Compare(a: nat, b: nat): Ordering
  {
    if a < b then Less else if a == b then Equal else Greater
  }

  /** All four fields are values of the W-bit type. */
  predicate Fits(p: Precompute, W: nat)
  {
    p.x < Pow2(W) && p.y < Pow2(W) && p.flip < Pow2(W) && p.swap < Pow2(W)
  }

  /** The frame that bit i of the flip and swap words records. */
  function FrameOfBits(flip: nat, swap: nat, i: nat): Frame
  {
    Frame(Bit(swap, i), Bit(flip, i))
  }

  /** The words once levels n .. W-1 have been read: bit i, for i >= n,
      holds the frame after level i, and every bit below n holds the frame
      in force at level n - 1. With n == 0 every bit holds its own level. */
  ghost predicate Partial(x: nat, y: nat, W: nat, n: nat, flip: nat, swap: nat)
    requires n <= W
  {
    && flip < Pow2(W) && swap < Pow2(W)
    && (forall i :: n <= i < W ==> FrameOfBits(flip, swap, i) == AfterLevel(x, y, W, i))
    && (forall i :: 0 <= i < n ==> FrameOfBits(flip, swap, i) == FrameAt(x, y, W, n - 1))
  }

  /** What `new` stores: the frame after every level, except at the origin,
      where the early return of `xy_flip_swap` leaves both words zero. */
  ghost predicate Precomputed(p: Precompute, W: nat)
  {
    && p.x < Pow2(W) && p.y < Pow2(W)
    && if p.x == 0 && p.y == 0 then p.flip == 0 && p.swap == 0
       else Partial(p.x, p.y, W, 0, p.flip, p.swap)
  }

  /** The widths `bit_count::<T>()` takes for the types the struct is
      instantiated with: even, and at least 2 so that `mask::<T>(1)` exists.
      The operations below take the width W in place of the type T. */
  predicate Width(W: nat)
  {
    W % 2 == 0 && 2 <= W
  }

  lemma WidthOf(t: UInt)
    ensures Width(BitCount(t))
  {
  }

  // ---------------------------------------------------------------------
  // xy_flip_swap

  /** The word `mask_pow2_and_under` makes of a selected level bit: bits
      0 .. j when c holds, nothing otherwise. */
  function LowFill(c: bool, j: nat): nat
  {
    if c then Pow2(j + 1) - 1 else 0
  }

  lemma FillBit(c: bool, j: nat, i: nat)
    ensures Bit(LowFill(c, j), i) == (c && i <= j)
  {
    if c {
      LowOnesBit(j + 1, i);
    } else {
      ZeroBit(i);
    }
  }

  lemma FillBound(c: bool, j: nat, W: nat)
    requires j < W
    ensures LowFill(c, j) < Pow2(W)
  {
    Pow2Mono(j + 1, W);
  }

  /** Xor with a fill toggles exactly the bits 0 .. j. */
  lemma ToggleBits(v: nat, c: bool, j: nat, i: nat)
    ensures Bit(Xor(v, LowFill(c, j)), i) == (Bit(v, i) != (c && i <= j))
  {
    XorBit(v, LowFill(c, j), i);
    FillBit(c, j, i);
  }

  /** `mask_pow2_and_under(v & 2^j)` fills below level j when bit j of v is set. */
  lemma SelectLevel(v: nat, j: nat, bit: nat)
    requires bit == Pow2(j)
    ensures And(v, bit) == 0 || And(And(v, bit), And(v, bit) - 1) == 0
    ensures MaskPow2AndUnder(And(v, bit)) == LowFill(Bit(v, j), j)
  {
    AndPow2(v, j);
    if Bit(v, j) {
      MaskPow2AndUnderPow2(j, Pow2(j));
    }
  }

  /** The same for `v & 2^j & d`: bit j of both must be set. */
  lemma SelectLevelBoth(v: nat, d: nat, j: nat, bit: nat)
    requires bit == Pow2(j)
    ensures And(And(v, bit), d) == 0 || And(And(And(v, bit), d), And(And(v, bit), d) - 1) == 0
    ensures MaskPow2AndUnder(And(And(v, bit), d)) == LowFill(Bit(v, j) && Bit(d, j), j)
  {
    AndPow2(v, j);
    if Bit(v, j) {
      AndPow2(d, j);
      if Bit(d, j) {
        MaskPow2AndUnderPow2(j, Pow2(j));
      }
    } else {
      AndZero(d);
    }
  }

  /** The loop's update on the bits of one level: with m the bit of
      `(swap & diff) ^ flip`, swap toggles when `!y ^ m` is set and flip
      toggles when `(x ^ m) & diff` is set; that is the frame below. */
  lemma NextFromBits(f: Frame, xb: bool, yb: bool)
    ensures var d := xb != yb;
            var m := (f.swapped && d) != f.flipped;
            Next(f, Quadrant(f, xb, yb)) == Frame(f.swapped != (!yb != m), f.flipped != ((xb != m) && d))
  {
  }

  /** Above the top set bit every level is quadrant (0, 0): the frame below
      level i is transposed for odd i and never mirrored. */
  lemma StartFrames(x: nat, y: nat, W: nat, n: nat)
    requires W % 2 == 0 && 0 < n <= W && x < Pow2(n) && y < Pow2(n)
    ensures FrameAt(x, y, W, n - 1) == Frame(n < W && n % 2 == 1, false)
    ensures forall i :: n <= i < W ==> AfterLevel(x, y, W, i) == Frame(i % 2 == 1, false)
  {
    forall i | n <= i < W
      ensures AfterLevel(x, y, W, i) == Frame(i % 2 == 1, false)
    {
      ZeroFrames(x, y, W, n, i);
    }
    if n < W {
      assert FrameAt(x, y, W, n - 1) == AfterLevel(x, y, W, n);
    }
  }

  /** The top-level constants: `1 << (W-1) >> zeros` is bit n - 1, and
      `!0 >> zeros` is the n low ones, where n = W - zeros. */
  lemma TopLevel(W: nat, zeros: nat, n: nat)
    requires zeros < W && n == W - zeros
    ensures Shr(Shl(1, W - 1, W), zeros) == Pow2(n - 1)
    ensures Shr(Not(0, W), zeros) == Pow2(n) - 1 && Pow2(n) - 1 < Pow2(W)
  {
    ShlOne(W - 1, W);
    Pow2Div(W - 1, zeros);
    Pow2Mono(n, W);
    LowOnesShr(W, zeros, n);
  }

  lemma LowOnesShr(W: nat, z: nat, n: nat)
    requires z <= W && n == W - z
    ensures Shr(Not(0, W), z) == Pow2(n) - 1
  {
    Pow2Add(n, z);
    MulLessOne(Pow2(n), Pow2(z), Pow2(W));
    DivModUnique(Pow2(W) - 1, Pow2(z), Pow2(n) - 1, Pow2(z) - 1);
  }

  lemma MulLessOne(p: nat, q: nat, r: nat)
    requires p >= 1 && q >= 1 && r == p * q
    ensures r - 1 == (p - 1) * q + (q - 1)
  {
  }

  /** `bit << 1` for bit = 2^(n-1) drops off the top when n == W. */
  lemma ShlTop(n: nat, W: nat)
    requires 0 < n <= W
    ensures Shl(Pow2(n - 1), 1, W) == if n < W then Pow2(n) else 0
  {
    assert Pow2(1) == 2;
    assert Pow2(n - 1) * Pow2(1) == Pow2(n);
    if n < W {
      Pow2Mono(n, W);
      DivModUnique(Pow2(n), Pow2(W), 0, Pow2(n));
    } else {
      DivModUnique(Pow2(W), Pow2(W), 1, 0);
    }
  }

  /** `!swap_pattern & !(!0 >> zeros)`: the odd bits from n up. */
  lemma InitialSwapBit(W: nat, n: nat, i: nat)
    requires 2 <= W && W % 2 == 0 && n <= W && Pow2(n) - 1 < Pow2(W)
    ensures Bit(And(Not(Mask(1, W), W), Not(Pow2(n) - 1, W)), i) == (i < W && n <= i && i % 2 == 1)
  {
    AndBit(Not(Mask(1, W), W), Not(Pow2(n) - 1, W), i);
    NotBit(Mask(1, W), W, i);
    NotBit(Pow2(n) - 1, W, i);
    MaskBits(1, W, i);
    LowOnesBit(n, i);
  }

  /** Before the loop: the words describe the levels from the top set bit
      n - 1 up. */
  lemma StartSwap(x: nat, y: nat, W: nat, n: nat, bit: nat, swap: nat)
    requires 2 <= W && W % 2 == 0 && 0 < n <= W && x < Pow2(n) && y < Pow2(n)
    requires Pow2(n) - 1 < Pow2(W) && bit == Pow2(n - 1)
    requires swap == And(Not(Mask(1, W), W), Not(Pow2(n) - 1, W))
    ensures And(swap, Shl(bit, 1, W)) == 0
         || And(And(swap, Shl(bit, 1, W)), And(swap, Shl(bit, 1, W)) - 1) == 0
    ensures Partial(x, y, W, n, 0, Or(swap, MaskPow2AndUnder(And(swap, Shl(bit, 1, W)))))
  {
    var c := n < W && n % 2 == 1;
    ShlTop(n, W);
    if n < W {
      AndPow2(swap, n);
      InitialSwapBit(W, n, n);
      if c {
        MaskPow2AndUnderPow2(n, Pow2(n));
      }
    }
    assert MaskPow2AndUnder(And(swap, Shl(bit, 1, W))) == LowFill(c, n);
    var swap' := Or(swap, LowFill(c, n));
    AndBound(Not(Mask(1, W), W), Not(Pow2(n) - 1, W), W);
    if c {
      FillBound(c, n, W);
    }
    OrBound(swap, LowFill(c, n), W);
    StartFrames(x, y, W, n);
    forall i | 0 <= i < W
      ensures Bit(swap', i) == ((n <= i && i % 2 == 1) || (c && i <= n))
      ensures !Bit(0, i)
    {
      OrBit(swap, LowFill(c, n), i);
      InitialSwapBit(W, n, i);
      FillBit(c, n, i);
      ZeroBit(i);
    }
  }

  /** The toggles the loop computes at level j give the frame after it. */
  lemma LevelToggles(x: nat, y: nat, W: nat, j: nat, flip: nat, swap: nat, diff: nat, notY: nat, xyMask: nat)
    requires j < W && y < Pow2(W)
    requires diff == Xor(x, y) && notY == Not(y, W) && xyMask == Xor(And(swap, diff), flip)
    requires FrameOfBits(flip, swap, j) == FrameAt(x, y, W, j)
    ensures AfterLevel(x, y, W, j)
         == Frame(Bit(swap, j) != Bit(Xor(notY, xyMask), j),
                  Bit(flip, j) != (Bit(Xor(x, xyMask), j) && Bit(diff, j)))
  {
    XorBit(x, y, j);
    NotBit(y, W, j);
    AndBit(swap, diff, j);
    XorBit(And(swap, diff), flip, j);
    XorBit(notY, xyMask, j);
    XorBit(x, xyMask, j);
    NextFromBits(FrameAt(x, y, W, j), Bit(x, j), Bit(y, j));
  }

  /** Toggling bits 0 .. n-1 of the words into the frame after level n - 1
      extends them by that level. */
  lemma ToggleLevel(x: nat, y: nat, W: nat, n: nat, flip: nat, swap: nat, ts: bool, tf: bool)
    requires 0 < n <= W && Partial(x, y, W, n, flip, swap)
    requires AfterLevel(x, y, W, n - 1) == Frame(Bit(swap, n - 1) != ts, Bit(flip, n - 1) != tf)
    ensures Partial(x, y, W, n - 1, Xor(flip, LowFill(tf, n - 1)), Xor(swap, LowFill(ts, n - 1)))
  {
    var j := n - 1;
    var g := AfterLevel(x, y, W, j);
    var flip', swap' := Xor(flip, LowFill(tf, j)), Xor(swap, LowFill(ts, j));
    FillBound(tf, j, W);
    FillBound(ts, j, W);
    XorBound(flip, LowFill(tf, j), W);
    XorBound(swap, LowFill(ts, j), W);
    forall i | j <= i < W
      ensures FrameOfBits(flip', swap', i) == AfterLevel(x, y, W, i)
    {
      ToggleBits(flip, tf, j, i);
      ToggleBits(swap, ts, j, i);
    }
    forall i | 0 <= i < j
      ensures FrameOfBits(flip', swap', i) == g
    {
      assert FrameOfBits(flip, swap, i) == FrameOfBits(flip, swap, j);
      ToggleBits(flip, tf, j, i);
      ToggleBits(swap, ts, j, i);
    }
    if j > 0 {
      assert FrameAt(x, y, W, j - 1) == g;
    }
  }

  /** The body of the `xy_flip_swap` loop at level n - 1, where bit = 2^(n-1). */
  method FlipSwapLevel(x: nat, y: nat, W: nat, ghost n: nat, bit: nat, diff: nat, notY: nat, flip: nat, swap: nat)
      returns (flip': nat, swap': nat)
    requires 0 < n <= W && x < Pow2(W) && y < Pow2(W) && bit == Pow2(n - 1)
    requires diff == Xor(x, y) && notY == Not(y, W)
    requires Partial(x, y, W, n, flip, swap)
    ensures Partial(x, y, W, n - 1, flip', swap')
  {
    var xyMask := Xor(And(swap, diff), flip);
    SelectLevel(Xor(notY, xyMask), n - 1, bit);
    SelectLevelBoth(Xor(x, xyMask), diff, n - 1, bit);
    assert FrameOfBits(flip, swap, n - 1) == FrameAt(x, y, W, n - 1);
    LevelToggles(x, y, W, n - 1, flip, swap, diff, notY, xyMask);
    ToggleLevel(x, y, W, n, flip, swap, Bit(Xor(notY, xyMask), n - 1), Bit(Xor(x, xyMask), n - 1) && Bit(diff, n - 1));
    swap' := Xor(swap, MaskPow2AndUnder(And(Xor(notY, xyMask), bit)));
    flip' := Xor(flip, MaskPow2AndUnder(And(And(Xor(x, xyMask), bit), diff)));
  }

  /** `xy_flip_swap(x, y)`: the flip and swap words of (x, y). From the top
      set bit down, each level toggles the swap bits at and below it when
      the level's quadrant is a lower one, and the flip bits too when it is
      the lower right one; above the top set bit the swap word alternates.
      The origin returns early with (0, y), which is (0, 0). */
  method XyFlipSwap(x: nat, y: nat, bitsWide: nat) returns (flip: nat, swap: nat, ghost iterations: nat)
    requires Width(bitsWide) && x < Pow2(bitsWide) && y < Pow2(bitsWide)
    ensures x == 0 && y == 0 ==> flip == 0 && swap == 0
    ensures !(x == 0 && y == 0) ==> Partial(x, y, bitsWide, 0, flip, swap)
    ensures Or(x, y) < Pow2(bitsWide) && iterations == bitsWide - LeadingZeros(Or(x, y), bitsWide)
  {
    var swapPattern := Mask(1, bitsWide);
    OrBound(x, y, bitsWide);
    OrUpper(x, y);
    var zeros := LeadingZeros(Or(x, y), bitsWide);
    iterations := 0;
    if zeros == bitsWide {
      return 0, y, iterations;
    }
    ghost var n: nat := bitsWide - zeros;
    TopLevel(bitsWide, zeros, n);
    var bit := Shr(Shl(1, bitsWide - 1, bitsWide), zeros);
    flip := 0;
    swap := And(Not(swapPattern, bitsWide), Not(Shr(Not(0, bitsWide), zeros), bitsWide));
    StartSwap(x, y, bitsWide, n, bit, swap);
    swap := Or(swap, MaskPow2AndUnder(And(swap, Shl(bit, 1, bitsWide))));

    var diff := Xor(x, y);
    var notY := Not(y, bitsWide);
    while bit != 0
      invariant n <= bitsWide
      invariant bit == if n > 0 then Pow2(n - 1) else 0
      invariant Partial(x, y, bitsWide, n, flip, swap)
      invariant iterations == bitsWide - zeros - n
      decreases n
    {
      flip, swap := FlipSwapLevel(x, y, bitsWide, n, bit, diff, notY, flip, swap);
      ShrPow2One(n - 1);
      bit := Shr(bit, 1);
      n := n - 1;
      iterations := iterations + 1;
    }
  }

  /** The words of a point are determined by the point, so two structs for
      the same point are equal (the derived `PartialEq` and `Hash` agree
      with the point). */
  lemma PrecomputedUnique(p: Precompute, q: Precompute, W: nat)
    requires Precomputed(p, W) && Precomputed(q, W) && p.x == q.x && p.y == q.y
    ensures p == q
  {
    if !(p.x == 0 && p.y == 0) {
      forall i | 0 <= i < W
        ensures Bit(p.flip, i) == Bit(q.flip, i) && Bit(p.swap, i) == Bit(q.swap, i)
      {
        assert FrameOfBits(p.flip, p.swap, i) == FrameOfBits(q.flip, q.swap, i);
      }
      BitExt(p.flip, q.flip, W);
      BitExt(p.swap, q.swap, W);
    }
  }

  /** Above the highest set bit of x | y no level is mirrored, so `flip`
      has no bit set there; `swap` alternates, set at the odd levels. */
  lemma FlipAboveTop(x: nat, y: nat, W: nat, flip: nat, swap: nat)
    requires Width(W) && x < Pow2(W) && y < Pow2(W) && Partial(x, y, W, 0, flip, swap)
    ensures Or(x, y) < Pow2(W)
    ensures forall i :: W - LeadingZeros(Or(x, y), W) <= i < W ==> !Bit(flip, i) && Bit(swap, i) == (i % 2 == 1)
  {
    OrBound(x, y, W);
    OrUpper(x, y);
    var n := W - LeadingZeros(Or(x, y), W);
    forall i | n <= i < W
      ensures !Bit(flip, i) && Bit(swap, i) == (i % 2 == 1)
    {
      assert FrameOfBits(flip, swap, i) == AfterLevel(x, y, W, i);
      ZeroFrames(x, y, W, n, i);
    }
  }

  lemma PrecomputedFits(p: Precompute, W: nat)
    requires Precomputed(p, W)
    ensures Fits(p, W)
  {
  }

  /** `HilbertPrecompute::new(x, y)`; the accessors `x()` and `y()` are the
      fields `x` and `y`. */
  method New(x: nat, y: nat, W: nat) returns (p: Precompute)
    requires Width(W) && x < Pow2(W) && y < Pow2(W)
    ensures p.x == x && p.y == y
    ensures Precomputed(p, W) && Fits(p, W)
  {
    ghost var iterations;
    var flip, swap;
    flip, swap, iterations := XyFlipSwap(x, y, W);
    p := Precompute(x, y, flip, swap);
  }

  // ---------------------------------------------------------------------
  // The digit of one level

  /** The low bit the crate keeps for a level: x ^ y. */
  predicate LocalLow(xb: bool, yb: bool)
  {
    xb != yb
  }

  /** The high bit the crate keeps for a level under frame g:
      x ^ (((x ^ y) & swap) ^ flip). */
  predicate LocalHigh(xb: bool, yb: bool, g: Frame)
  {
    xb != ((LocalLow(xb, yb) && g.swapped) != g.flipped)
  }

  function LocalDigit(xb: bool, yb: bool, g: Frame): nat
  {
    2 * B2N(LocalHigh(xb, yb, g)) + B2N(LocalLow(xb, yb))
  }

  /** Read with the frame after the level, the two kept bits are the
      level's digit. */
  lemma DigitFromAfter(f: Frame, xb: bool, yb: bool)
    ensures Digit(Quadrant(f, xb, yb)) == LocalDigit(xb, yb, Next(f, Quadrant(f, xb, yb)))
  {
  }

  /** Within a level, different bit pairs keep different digits under any frame. */
  lemma LocalInjective(xb: bool, yb: bool, xb': bool, yb': bool, g: Frame)
    requires (xb, yb) != (xb', yb')
    ensures LocalDigit(xb, yb, g) != LocalDigit(xb', yb', g)
  {
  }

  /** Read with the frame after the first pair's own level (or with zero
      words, at a level where the first pair is (0, 0) in an unmirrored
      frame), two different pairs keep digits in the order of their curve
      digits in frame f. */
  lemma LocalOrder(f: Frame, xb: bool, yb: bool, xb': bool, yb': bool, g: Frame)
    requires (xb, yb) != (xb', yb')
    requires g == Next(f, Quadrant(f, xb, yb)) || (!xb && !yb && !f.flipped && g == Frame(false, false))
    ensures Compare(LocalDigit(xb, yb, g), LocalDigit(xb', yb', g))
         == Compare(Digit(Quadrant(f, xb, yb)), Digit(Quadrant(f, xb', yb')))
  {
  }

  /** The bits of `x ^ y` and of `x ^ ((x ^ y) & swap ^ flip)`. */
  lemma WordBits(x: nat, y: nat, flip: nat, swap: nat, i: nat)
    ensures Bit(Xor(x, y), i) == LocalLow(Bit(x, i), Bit(y, i))
    ensures Bit(Xor(x, Xor(And(Xor(x, y), swap), flip)), i)
         == LocalHigh(Bit(x, i), Bit(y, i), FrameOfBits(flip, swap, i))
  {
    XorBit(x, y, i);
    AndBit(Xor(x, y), swap, i);
    XorBit(And(Xor(x, y), swap), flip, i);
    XorBit(x, Xor(And(Xor(x, y), swap), flip), i);
  }

  lemma WordBounds(x: nat, y: nat, flip: nat, swap: nat, W: nat)
    requires x < Pow2(W) && y < Pow2(W) && flip < Pow2(W) && swap < Pow2(W)
    ensures Xor(x, y) < Pow2(W) && Xor(And(Xor(x, y), swap), flip) < Pow2(W)
    ensures Xor(x, Xor(And(Xor(x, y), swap), flip)) < Pow2(W)
  {
    XorBound(x, y, W);
    AndBound(Xor(x, y), swap, W);
    XorBound(And(Xor(x, y), swap), flip, W);
    XorBound(x, Xor(And(Xor(x, y), swap), flip), W);
  }

  // ---------------------------------------------------------------------
  // distance

  /** `distance()`: the interleave of `x ^ diff` (odd bits) and `x ^ y`
      (even bits), where `diff = ((x ^ y) & swap) ^ flip`, by `InterleaveBits`,
      whose portable path is the corrected loop. For a struct made by `new`
      it is the Hilbert index of the point. */
  method Distance(p: Precompute, t: UInt, accelerated: bool) returns (d: nat)
    requires Interleavable(t) && Fits(p, BitCount(t))
    ensures d < Pow2(BitCount(Wider(t)))
    ensures Precomputed(p, BitCount(t)) ==> d == HilbertIndex(p.x, p.y, BitCount(t))
  {
    var xyDiff := Xor(p.x, p.y);
    var diff := Xor(And(xyDiff, p.swap), p.flip);
    WordBounds(p.x, p.y, p.flip, p.swap, BitCount(t));
    d := InterleaveBits(Xor(p.x, diff), xyDiff, t, accelerated);
    WidthOf(t);
    DistanceIsIndex(p, BitCount(t));
  }

  /** The interleave of the kept bits is the Hilbert index. */
  lemma DistanceIsIndex(p: Precompute, W: nat)
    requires W % 2 == 0 && Fits(p, W)
    ensures Precomputed(p, W) ==>
      Interleave(Xor(p.x, Xor(And(Xor(p.x, p.y), p.swap), p.flip)), Xor(p.x, p.y)) == HilbertIndex(p.x, p.y, W)
  {
    if Precomputed(p, W) {
      if p.x == 0 && p.y == 0 {
        DistanceAtOrigin(W);
      } else {
        DistanceAwayFromOrigin(p.x, p.y, W, p.flip, p.swap);
      }
    }
  }

  lemma DistanceAtOrigin(W: nat)
    requires W % 2 == 0
    ensures Interleave(Xor(0, Xor(And(Xor(0, 0), 0), 0)), Xor(0, 0)) == HilbertIndex(0, 0, W)
  {
    OriginIndex(W);
  }

  lemma DistanceAwayFromOrigin(x: nat, y: nat, W: nat, flip: nat, swap: nat)
    requires x < Pow2(W) && y < Pow2(W) && Partial(x, y, W, 0, flip, swap)
    ensures Interleave(Xor(x, Xor(And(Xor(x, y), swap), flip)), Xor(x, y)) == HilbertIndex(x, y, W)
  {
    WordBounds(x, y, flip, swap, W);
    IndexFromInterleave(x, y, W, flip, swap, 0);
    ShrNone(Xor(x, Xor(And(Xor(x, y), swap), flip)));
    ShrNone(Xor(x, y));
  }

  /** Levels lo .. W-1 of the index are the interleave of the kept bits from lo up. */
  lemma {:induction false} IndexFromInterleave(x: nat, y: nat, W: nat, flip: nat, swap: nat, lo: nat)
    requires lo <= W && Partial(x, y, W, 0, flip, swap)
    requires Xor(x, y) < Pow2(W) && Xor(x, Xor(And(Xor(x, y), swap), flip)) < Pow2(W)
    ensures IndexFrom(x, y, W, lo)
         == Interleave(Shr(Xor(x, Xor(And(Xor(x, y), swap), flip)), lo), Shr(Xor(x, y), lo))
    decreases W - lo
  {
    var a, b := Xor(x, Xor(And(Xor(x, y), swap), flip)), Xor(x, y);
    if lo == W {
      DivModUnique(a, Pow2(W), 0, a);
      DivModUnique(b, Pow2(W), 0, b);
    } else {
      IndexFromInterleave(x, y, W, flip, swap, lo + 1);
      ShrSucc(a, lo);
      ShrSucc(b, lo);
      ShrBit(a, lo, 0);
      ShrBit(b, lo, 0);
      WordBits(x, y, flip, swap, lo);
      DigitFromAfter(FrameAt(x, y, W, lo), Bit(x, lo), Bit(y, lo));
      assert FrameOfBits(flip, swap, lo) == AfterLevel(x, y, W, lo);
      InterleaveStep(Shr(a, lo), Shr(b, lo));
    }
  }

  /** One more step of a right shift halves. */
  lemma {:induction false} ShrSucc(a: nat, k: nat)
    ensures Shr(a, k + 1) == Shr(a, k) / 2
  {
    ShrHalf(a, k + 1);
    if k > 0 {
      ShrSucc(a / 2, k - 1);
      ShrHalf(a, k);
    }
  }

  lemma InterleaveStep(a: nat, b: nat)
    ensures Interleave(a, b) == B2N(Bit(b, 0)) + 2 * B2N(Bit(a, 0)) + 4 * Interleave(a / 2, b / 2)
  {
  }

  // ---------------------------------------------------------------------
  // distance, as written

  /** `distance()` exactly as the crate writes it: the same words,
      interleaved by `interleave_bits` as written. With the parallel bit
      deposit (an x86 target, u16 or u32) it is the Hilbert index; on the
      portable path it is what the loop as written makes of the words, which
      `DistanceAsWrittenU8` shows is not the Hilbert index. */
  method DistanceAsWritten(p: Precompute, t: UInt, accelerated: bool) returns (d: nat)
    requires Interleavable(t) && Fits(p, BitCount(t))
    ensures accelerated && (BitCount(Wider(t)) == 32 || BitCount(Wider(t)) == 64) && Precomputed(p, BitCount(t))
      ==> d == HilbertIndex(p.x, p.y, BitCount(t))
    ensures !(accelerated && (BitCount(Wider(t)) == 32 || BitCount(Wider(t)) == 64)) ==>
      d == PortableAsWritten(Xor(p.x, Xor(And(Xor(p.x, p.y), p.swap), p.flip)), Xor(p.x, p.y), t)
  {
    var xyDiff := Xor(p.x, p.y);
    var diff := Xor(And(xyDiff, p.swap), p.flip);
    WordBounds(p.x, p.y, p.flip, p.swap, BitCount(t));
    d := InterleaveBitsAsWritten(Xor(p.x, diff), xyDiff, t, accelerated);
    WidthOf(t);
    DistanceIsIndex(p, BitCount(t));
  }

  /** The u8 struct for (1, 0): its kept words are 0 and 1, so the portable
      path as written gives distance 3, while the point's Hilbert index is 1. */
  lemma DistanceAsWrittenU8(p: Precompute)
    requires Precomputed(p, 8) && p.x == 1 && p.y == 0
    ensures Xor(p.x, Xor(And(Xor(p.x, p.y), p.swap), p.flip)) == 0 && Xor(p.x, p.y) == 1
    ensures HilbertIndex(1, 0, 8) == 1
    ensures PortableAsWritten(0, 1, U8) == 3
  {
    var flip, swap := p.flip, p.swap;
    assert Xor(1, 0) == 1;
    var a := Xor(1, Xor(And(1, swap), flip));
    WordBounds(1, 0, flip, swap, 8);
    ZeroFrames(1, 0, 8, 1, 1);
    forall i | 0 <= i < 8
      ensures !Bit(a, i)
    {
      WordBits(1, 0, flip, swap, i);
      ZeroBit(i);
      if i > 0 {
        ZeroFrames(1, 0, 8, 1, i);
        BitHigh(1, 1, i);
      }
    }
    NoBits(a, 8);
    DistanceIsIndex(p, 8);
    PortableAsWrittenU8();
  }

  /** `HilbertPrecompute::<u8>::new(1, 0).distance()` as written is 3 on
      every target, where the Hilbert index of (1, 0) is 1. */
  method DistanceAsWrittenExample(accelerated: bool) returns (d: nat)
    ensures d == 3 && HilbertIndex(1, 0, 8) == 1
  {
    Pow2Small();
    var p := New(1, 0, 8);
    d := DistanceAsWritten(p, U8, accelerated);
    DistanceAsWrittenU8(p);
  }

  // ---------------------------------------------------------------------
  // partial_cmp

  /** The value the masked word takes: the low kept bit at weight 2^k and
      the high kept bit at weight 2^(W+k). */
  function Kept(lo: bool, hi: bool, W: nat, k: nat): nat
  {
    (if lo then Pow2(k) else 0) + (if hi then Pow2(W + k) else 0)
  }

  /** `xy_local_dist(log2_n, x, y, flip, swap)`: the two kept bits of level
      k = W - log2_n - 1, in place in the wider word (the high bit at
      W + k, the low bit at k), every other bit cleared. */
  function XyLocalDist(log2n: nat, x: nat, y: nat, flip: nat, swap: nat, bitsWide: nat): (r: nat)
    requires log2n < bitsWide
    requires x < Pow2(bitsWide) && y < Pow2(bitsWide) && flip < Pow2(bitsWide) && swap < Pow2(bitsWide)
    ensures r == Kept(Bit(Xor(x, y), bitsWide - log2n - 1),
                      Bit(Xor(x, Xor(And(Xor(x, y), swap), flip)), bitsWide - log2n - 1),
                      bitsWide, bitsWide - log2n - 1)
  {
    var xyDiff := Xor(x, y);
    var diff := Xor(And(xyDiff, swap), flip);
    WordBounds(x, y, flip, swap, bitsWide);
    // `as_wider` keeps the value (`AsWider`); the masking is in 2W bits.
    KeepLevel(Xor(x, diff), xyDiff, bitsWide, 2 * bitsWide, bitsWide - log2n - 1)
  }

  /** `((a << W) | b) & mask` where the mask has ones at bits k and W + k
      of the 2W-bit word: bit k of b and bit k of a, in place. */
  function KeepLevel(a: nat, b: nat, W: nat, V: nat, k: nat): (r: nat)
    requires V == 2 * W && k < W && a < Pow2(W) && b < Pow2(W)
    ensures r == Kept(Bit(b, k), Bit(a, k), W, k)
  {
    var mask := Shl(Or(1, Shl(1, W, V)), k, V);
    MaskedBits(a, b, W, k, V, mask);
    And(Or(Shl(a, W, V), b), mask)
  }

  lemma MaskedBits(a: nat, b: nat, W: nat, k: nat, V: nat, mask: nat)
    requires V == 2 * W && k < W && a < Pow2(W) && b < Pow2(W)
    requires mask == Shl(Or(1, Shl(1, W, V)), k, V)
    ensures And(Or(Shl(a, W, V), b), mask) == Kept(Bit(b, k), Bit(a, k), W, k)
  {
    var r := And(Or(Shl(a, W, V), b), mask);
    var v := Kept(Bit(b, k), Bit(a, k), W, k);
    Pow2Mono(W, V);
    ShlBit(1, W, V, 0);
    ShlBit(a, W, V, 0);
    OrBound(Shl(a, W, V), b, V);
    ShlBit(Or(1, Shl(1, W, V)), k, V, 0);
    AndBound(Or(Shl(a, W, V), b), mask, V);
    KeptBits(Bit(b, k), Bit(a, k), W, k, V);
    forall i | 0 <= i < V
      ensures Bit(r, i) == Bit(v, i)
    {
      MaskedBit(a, b, W, k, V, mask, i);
    }
    BitExt(r, v, V);
  }

  /** Bit i of the masked word. */
  lemma MaskedBit(a: nat, b: nat, W: nat, k: nat, V: nat, mask: nat, i: nat)
    requires V == 2 * W && k < W && i < V && b < Pow2(W)
    requires mask == Shl(Or(1, Shl(1, W, V)), k, V)
    ensures Bit(And(Or(Shl(a, W, V), b), mask), i) == ((i == k && Bit(b, k)) || (i == W + k && Bit(a, k)))
  {
    AndBit(Or(Shl(a, W, V), b), mask, i);
    OrBit(Shl(a, W, V), b, i);
    ShlBit(a, W, V, i);
    ShlBit(Or(1, Shl(1, W, V)), k, V, i);
    if k <= i {
      var j := i - k;
      OrBit(1, Shl(1, W, V), j);
      ShlBit(1, W, V, j);
      assert Pow2(0) == 1;
      Pow2Bit(0, j);
      if W <= j {
        Pow2Bit(0, j - W);
      }
    }
    if W <= i {
      BitHigh(b, W, i);
    }
  }

  /** The bits of `Kept`, and its bound. */
  lemma KeptBits(lo: bool, hi: bool, W: nat, k: nat, V: nat)
    requires V == 2 * W && k < W
    ensures Kept(lo, hi, W, k) < Pow2(V)
    ensures forall i: nat :: Bit(Kept(lo, hi, W, k), i) == ((i == k && lo) || (i == W + k && hi))
  {
    var a := if lo then Pow2(k) else 0;
    Pow2Mono(k, W + k);
    Pow2Mono(W + k + 1, V);
    assert Pow2(W + k) * B2N(hi) == if hi then Pow2(W + k) else 0;
    forall i: nat
      ensures Bit(Kept(lo, hi, W, k), i) == ((i == k && lo) || (i == W + k && hi))
    {
      BitSplit(a, W + k, B2N(hi), i);
      Pow2Bit(k, i);
      ZeroBit(i);
      if W + k <= i {
        B2NBit(hi, i - (W + k));
      }
    }
  }

  /** `partial_cmp(&self, &(x, y))`: equal when no bit differs; otherwise
      the order of the two points' local distances at the highest level
      where they differ, both read with this struct's flip and swap words. */
  function PartialCmp(p: Precompute, that: (nat, nat), W: nat): (r: Option<Ordering>)
    requires Fits(p, W) && that.0 < Pow2(W) && that.1 < Pow2(W)
    ensures r.Some?
  {
    var (lhsX, lhsY, rhsX, rhsY) := (p.x, p.y, that.0, that.1);
    XorBound(lhsX, rhsX, W);
    XorBound(lhsY, rhsY, W);
    OrBound(Xor(lhsX, rhsX), Xor(lhsY, rhsY), W);
    var matchingPrefix := LeadingZeros(Or(Xor(lhsX, rhsX), Xor(lhsY, rhsY)), W);
    if matchingPrefix == W then Some(Equal)
    else
      var locLhs := XyLocalDist(matchingPrefix, lhsX, lhsY, p.flip, p.swap, W);
      var locRhs := XyLocalDist(matchingPrefix, rhsX, rhsY, p.flip, p.swap, W);
      Some(Compare(locLhs, locRhs))
  }

  /** `eq(&self, &(x, y))`: the same point. */
  predicate Eq(p: Precompute, that: (nat, nat))
  {
    p.x == that.0 && p.y == that.1
  }

  /** The level the comparison looks at: where the points differ, with
      agreement on every level above it. */
  lemma HighestLevel(x: nat, y: nat, x': nat, y': nat, W: nat, mp: nat)
    requires x < Pow2(W) && y < Pow2(W) && x' < Pow2(W) && y' < Pow2(W)
    requires Or(Xor(x, x'), Xor(y, y')) < Pow2(W)
    requires mp == LeadingZeros(Or(Xor(x, x'), Xor(y, y')), W) && mp < W
    ensures (Bit(x, W - mp - 1), Bit(y, W - mp - 1)) != (Bit(x', W - mp - 1), Bit(y', W - mp - 1))
    ensures forall c :: W - mp - 1 < c < W ==> Bit(x, c) == Bit(x', c) && Bit(y, c) == Bit(y', c)
  {
    var d := Or(Xor(x, x'), Xor(y, y'));
    var k := W - mp - 1;
    OrBit(Xor(x, x'), Xor(y, y'), k);
    XorBit(x, x', k);
    XorBit(y, y', k);
    forall c | k < c < W
      ensures Bit(x, c) == Bit(x', c) && Bit(y, c) == Bit(y', c)
    {
      BitHigh(d, W - mp, c);
      OrBit(Xor(x, x'), Xor(y, y'), c);
      XorBit(x, x', c);
      XorBit(y, y', c);
    }
  }

  /** When the matching prefix is the whole width, the points are equal. */
  lemma SamePoint(x: nat, y: nat, x': nat, y': nat)
    requires Or(Xor(x, x'), Xor(y, y')) == 0
    ensures x == x' && y == y'
  {
    OrUpper(Xor(x, x'), Xor(y, y'));
    XorZero(x, x');
    XorZero(y, y');
  }

  /** The two kept bits order like the two-bit number hi lo. */
  lemma CompareKept(lo: bool, hi: bool, lo': bool, hi': bool, W: nat, k: nat)
    requires k < W
    ensures Compare(Kept(lo, hi, W, k), Kept(lo', hi', W, k))
         == Compare(2 * B2N(hi) + B2N(lo), 2 * B2N(hi') + B2N(lo'))
  {
    Pow2Mono(k + 1, W + k);
    assert Pow2(k + 1) == 2 * Pow2(k);
  }

  /** Two points agreeing above level k compare along the curve as their
      digits at level k. */
  lemma IndexCompare(x: nat, y: nat, x': nat, y': nat, W: nat, k: nat)
    requires k < W
    requires forall c :: k < c < W ==> Bit(x, c) == Bit(x', c) && Bit(y, c) == Bit(y', c)
    requires (Bit(x, k), Bit(y, k)) != (Bit(x', k), Bit(y', k))
    ensures Compare(HilbertIndex(x, y, W), HilbertIndex(x', y', W))
         == Compare(Digit(LevelQuad(x, y, W, k)), Digit(LevelQuad(x', y', W, k)))
  {
    FramesAgree(x, y, x', y', W, k);
    QuadrantInjective(FrameAt(x, y, W, k), Bit(x, k), Bit(y, k), Bit(x', k), Bit(y', k));
    if Digit(LevelQuad(x, y, W, k)) < Digit(LevelQuad(x', y', W, k)) {
      IndexOrder(x, y, x', y', W, k, 0);
    } else {
      IndexOrder(x', y', x, y, W, k, 0);
    }
  }

  /** The local distances of two points at level k (the values
      `XyLocalDist` gives, with lo and hi the bits of the two words at k)
      order as their local digits there. */
  lemma LocalCompare(lo: bool, hi: bool, lo': bool, hi': bool, xb: bool, yb: bool, xb': bool, yb': bool,
                     g: Frame, W: nat, k: nat)
    requires k < W
    requires lo == LocalLow(xb, yb) && hi == LocalHigh(xb, yb, g)
    requires lo' == LocalLow(xb', yb') && hi' == LocalHigh(xb', yb', g)
    ensures Compare(Kept(lo, hi, W, k), Kept(lo', hi', W, k)) == Compare(LocalDigit(xb, yb, g), LocalDigit(xb', yb', g))
  {
    CompareKept(lo, hi, lo', hi', W, k);
  }

  /** `LocalCompare` at level k of two points read with the same words. */
  lemma LocalAt(x: nat, y: nat, x1: nat, y1: nat, flip: nat, swap: nat, W: nat, k: nat)
    requires k < W
    ensures Compare(Kept(Bit(Xor(x, y), k), Bit(Xor(x, Xor(And(Xor(x, y), swap), flip)), k), W, k),
                    Kept(Bit(Xor(x1, y1), k), Bit(Xor(x1, Xor(And(Xor(x1, y1), swap), flip)), k), W, k))
         == Compare(LocalDigit(Bit(x, k), Bit(y, k), FrameOfBits(flip, swap, k)),
                    LocalDigit(Bit(x1, k), Bit(y1, k), FrameOfBits(flip, swap, k)))
  {
    WordBits(x, y, flip, swap, k);
    WordBits(x1, y1, flip, swap, k);
    LocalCompare(Bit(Xor(x, y), k), Bit(Xor(x, Xor(And(Xor(x, y), swap), flip)), k),
                 Bit(Xor(x1, y1), k), Bit(Xor(x1, Xor(And(Xor(x1, y1), swap), flip)), k),
                 Bit(x, k), Bit(y, k), Bit(x1, k), Bit(y1, k), FrameOfBits(flip, swap, k), W, k);
  }

  /** `partial_cmp` of a struct made by `new` orders points as their
      distances along the curve (the crate's brute-force comparison test,
      for every pair of points of every width). */
  lemma PartialCmpMatchesIndex(p: Precompute, x1: nat, y1: nat, W: nat)
    requires Width(W) && Precomputed(p, W) && x1 < Pow2(W) && y1 < Pow2(W)
    ensures Fits(p, W)
    ensures PartialCmp(p, (x1, y1), W) == Some(Compare(HilbertIndex(p.x, p.y, W), HilbertIndex(x1, y1, W)))
  {
    PrecomputedFits(p, W);
    var d := Or(Xor(p.x, x1), Xor(p.y, y1));
    XorBound(p.x, x1, W);
    XorBound(p.y, y1, W);
    OrBound(Xor(p.x, x1), Xor(p.y, y1), W);
    var mp := LeadingZeros(d, W);
    if mp == W {
      SamePoint(p.x, p.y, x1, y1);
    } else {
      var k := W - mp - 1;
      HighestLevel(p.x, p.y, x1, y1, W, mp);
      FramesAgree(p.x, p.y, x1, y1, W, k);
      var f := FrameAt(p.x, p.y, W, k);
      var g := FrameOfBits(p.flip, p.swap, k);
      if p.x == 0 && p.y == 0 {
        ZeroBit(k);
        ZeroFrames(0, 0, W, 0, k);
      } else {
        assert g == AfterLevel(p.x, p.y, W, k);
      }
      LocalOrder(f, Bit(p.x, k), Bit(p.y, k), Bit(x1, k), Bit(y1, k), g);
      LocalAt(p.x, p.y, x1, y1, p.flip, p.swap, W, k);
      IndexCompare(p.x, p.y, x1, y1, W, k);
    }
  }

  /** `eq` and `partial_cmp` agree for any words: `Some(Equal)` exactly
      for the same point. */
  lemma EqMatchesPartialCmp(p: Precompute, that: (nat, nat), W: nat)
    requires Fits(p, W) && that.0 < Pow2(W) && that.1 < Pow2(W)
    ensures Eq(p, that) <==> PartialCmp(p, that, W) == Some(Equal)
  {
    var (x1, y1) := that;
    XorBound(p.x, x1, W);
    XorBound(p.y, y1, W);
    OrBound(Xor(p.x, x1), Xor(p.y, y1), W);
    var mp := LeadingZeros(Or(Xor(p.x, x1), Xor(p.y, y1)), W);
    if mp == W {
      SamePoint(p.x, p.y, x1, y1);
    } else {
      HighestLevel(p.x, p.y, x1, y1, W, mp);
      LocalDiffer(p.x, p.y, x1, y1, p.flip, p.swap, W, W - mp - 1);
    }
  }

  /** Points that differ at level k have different local distances there. */
  lemma LocalDiffer(x: nat, y: nat, x1: nat, y1: nat, flip: nat, swap: nat, W: nat, k: nat)
    requires k < W && (Bit(x, k), Bit(y, k)) != (Bit(x1, k), Bit(y1, k))
    ensures Kept(Bit(Xor(x, y), k), Bit(Xor(x, Xor(And(Xor(x, y), swap), flip)), k), W, k)
         != Kept(Bit(Xor(x1, y1), k), Bit(Xor(x1, Xor(And(Xor(x1, y1), swap), flip)), k), W, k)
  {
    WordBits(x, y, flip, swap, k);
    WordBits(x1, y1, flip, swap, k);
    KeptDiffer(Bit(Xor(x, y), k), Bit(Xor(x, Xor(And(Xor(x, y), swap), flip)), k),
               Bit(Xor(x1, y1), k), Bit(Xor(x1, Xor(And(Xor(x1, y1), swap), flip)), k),
               Bit(x, k), Bit(y, k), Bit(x1, k), Bit(y1, k), FrameOfBits(flip, swap, k), W, k);
  }

  lemma KeptDiffer(lo: bool, hi: bool, lo': bool, hi': bool, xb: bool, yb: bool, xb': bool, yb': bool,
                   g: Frame, W: nat, k: nat)
    requires k < W && (xb, yb) != (xb', yb')
    requires lo == LocalLow(xb, yb) && hi == LocalHigh(xb, yb, g)
    requires lo' == LocalLow(xb', yb') && hi' == LocalHigh(xb', yb', g)
    ensures Kept(lo, hi, W, k) != Kept(lo', hi', W, k)
  {
    LocalCompare(lo, hi, lo', hi', xb, yb, xb', yb', g, W, k);
    LocalInjective(xb, yb, xb', yb', g);
  }
}

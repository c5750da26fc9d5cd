/** The Hilbert curve order on a 2^W by 2^W grid, as a specification.

    The position of (x, y) along the curve is read from the most significant
    level down. At each level the pair of coordinate bits, seen through the
    current orientation (`Frame`), selects one of four quadrants (`Quad`),
    which contributes a base-4 digit (`Digit`) and fixes the orientation of
    the next level down (`Next`). `HilbertIndex` is the number made of those
    digits. The crate's brute-force oracle `xy2d` (reference.dfy) is proved
    to compute it, and so are `distance` and `partial_cmp` of
    hilbert_precompute.dfy.
 */
module HilbertCurve {
  import opened Bits

  /** The orientation of a sub-square: whether the roles of x and y are
      exchanged, and whether both coordinates are mirrored. */
  datatype Frame = Frame(swapped: bool, flipped: bool)

  /** The quadrant of a level, as the two bits the reference loop reads. */
  datatype Quad = Quad(rx: bool, ry: bool)

  /** The quadrant selected by the coordinate bits xb, yb in frame f. */
  function Quadrant(f: Frame, xb: bool, yb: bool): Quad
  {
    var a := if f.swapped then yb else xb;
    var b := if f.swapped then xb else yb;
    Quad(a != f.flipped, b != f.flipped)
  }

  /** The curve visits the quadrants in the order (0,0), (0,1), (1,1), (1,0). */
  function Digit(q: Quad): nat
  {
    if q.rx then (if q.ry then 2 else 3) else (if q.ry then 1 else 0)
  }

  /** The orientation of the level below: the lower quadrants (ry unset) are
      transposed, and the lower right one is also mirrored. */
  function Next(f: Frame, q: Quad): Frame
  {
    if q.ry then f else Frame(!f.swapped, f.flipped != q.rx)
  }

  /** The orientation in force at level i (level W-1 is the top). */
  function FrameAt(x: nat, y: nat, W: nat, i: nat): Frame
    requires i < W
    decreases W - i
  {
    if i == W - 1 then Frame(false, false)
    else
      var f := FrameAt(x, y, W, i + 1);
      Next(f, Quadrant(f, Bit(x, i + 1), Bit(y, i + 1)))
  }

  /** The quadrant of (x, y) at level i. */
  function LevelQuad(x: nat, y: nat, W: nat, i: nat): Quad
    requires i < W
  {
    Quadrant(FrameAt(x, y, W, i), Bit(x, i), Bit(y, i))
  }

  /** The orientation after level i has been read, in force at level i - 1. */
  function AfterLevel(x: nat, y: nat, W: nat, i: nat): Frame
    requires i < W
  {
    Next(FrameAt(x, y, W, i), LevelQuad(x, y, W, i))
  }

  /** The digits of levels lo .. W-1, as a base-4 number. */
  function IndexFrom(x: nat, y: nat, W: nat, lo: nat): nat
    requires lo <= W
    decreases W - lo
  {
    if lo == W then 0
    else Digit(LevelQuad(x, y, W, lo)) + 4 * IndexFrom(x, y, W, lo + 1)
  }

  /** The distance of (x, y) along the Hilbert curve of order W. */
  function HilbertIndex(x: nat, y: nat, W: nat): nat
  {
    IndexFrom(x, y, W, 0)
  }

  // ---------------------------------------------------------------------
  // Digits and quadrants

  /** The digit is the two bits (rx, rx xor ry), and every digit below 4
      comes from exactly one quadrant. */
  lemma DigitBits(q: Quad)
    ensures Digit(q) < 4
    ensures Digit(q) == (if q.rx then 2 else 0) + (if q.rx != q.ry then 1 else 0)
    ensures forall q': Quad :: Digit(q') == Digit(q) ==> q' == q
  {
  }

  /** Within one frame, different coordinate bits select different quadrants. */
  lemma QuadrantInjective(f: Frame, xb: bool, yb: bool, xb': bool, yb': bool)
    requires (xb, yb) != (xb', yb')
    ensures Quadrant(f, xb, yb) != Quadrant(f, xb', yb')
    ensures Digit(Quadrant(f, xb, yb)) != Digit(Quadrant(f, xb', yb'))
  {
    DigitBits(Quadrant(f, xb, yb));
  }

  // ---------------------------------------------------------------------
  // Bounds

  /** Levels lo .. W-1 make a number of 2(W - lo) bits. */
  lemma {:induction false} IndexFromBound(x: nat, y: nat, W: nat, lo: nat)
    requires lo <= W
    ensures IndexFrom(x, y, W, lo) < Pow2(2 * (W - lo))
    decreases W - lo
  {
    if lo < W {
      IndexFromBound(x, y, W, lo + 1);
      DigitBits(LevelQuad(x, y, W, lo));
      assert Pow2(2 * (W - lo)) == 4 * Pow2(2 * (W - (lo + 1)));
    }
  }

  lemma HilbertIndexBound(x: nat, y: nat, W: nat)
    ensures HilbertIndex(x, y, W) < Pow2(2 * W)
  {
    IndexFromBound(x, y, W, 0);
  }

  // ---------------------------------------------------------------------
  // Points that agree on their top levels

  /** Points with the same bits above level b are in the same frame at b. */
  lemma {:induction false} FramesAgree(x: nat, y: nat, x': nat, y': nat, W: nat, b: nat)
    requires b < W
    requires forall c :: b < c < W ==> Bit(x, c) == Bit(x', c) && Bit(y, c) == Bit(y', c)
    ensures FrameAt(x, y, W, b) == FrameAt(x', y', W, b)
    decreases W - b
  {
    if b < W - 1 {
      FramesAgree(x, y, x', y', W, b + 1);
      assert Bit(x, b + 1) == Bit(x', b + 1) && Bit(y, b + 1) == Bit(y', b + 1);
    }
  }

  /** Points with the same bits from level lo up have the same digits there. */
  lemma {:induction false} IndexFromAgree(x: nat, y: nat, x': nat, y': nat, W: nat, lo: nat)
    requires lo <= W
    requires forall c :: lo <= c < W ==> Bit(x, c) == Bit(x', c) && Bit(y, c) == Bit(y', c)
    ensures IndexFrom(x, y, W, lo) == IndexFrom(x', y', W, lo)
    decreases W - lo
  {
    if lo < W {
      IndexFromAgree(x, y, x', y', W, lo + 1);
      FramesAgree(x, y, x', y', W, lo);
      assert Bit(x, lo) == Bit(x', lo) && Bit(y, lo) == Bit(y', lo);
    }
  }

  /** The Hilbert order of two points that agree above level k is the order
      of their digits at level k. */
  lemma {:induction false} IndexOrder(x: nat, y: nat, x': nat, y': nat, W: nat, k: nat, lo: nat)
    requires lo <= k < W
    requires forall c :: k < c < W ==> Bit(x, c) == Bit(x', c) && Bit(y, c) == Bit(y', c)
    requires Digit(LevelQuad(x, y, W, k)) < Digit(LevelQuad(x', y', W, k))
    ensures IndexFrom(x, y, W, lo) < IndexFrom(x', y', W, lo)
    decreases k - lo
  {
    if lo == k {
      IndexFromAgree(x, y, x', y', W, k + 1);
    } else {
      IndexOrder(x, y, x', y', W, k, lo + 1);
      DigitBits(LevelQuad(x, y, W, lo));
    }
  }

  /** The highest level at which two different W-bit points differ. */
  lemma HighestDifference(x: nat, y: nat, x': nat, y': nat, W: nat) returns (k: nat)
    requires x < Pow2(W) && y < Pow2(W) && x' < Pow2(W) && y' < Pow2(W)
    requires (x, y) != (x', y')
    ensures k < W
    ensures (Bit(x, k), Bit(y, k)) != (Bit(x', k), Bit(y', k))
    ensures forall c :: k < c < W ==> Bit(x, c) == Bit(x', c) && Bit(y, c) == Bit(y', c)
  {
    var d := Or(Xor(x, x'), Xor(y, y'));
    XorBound(x, x', W);
    XorBound(y, y', W);
    OrBound(Xor(x, x'), Xor(y, y'), W);
    if d == 0 {
      forall i | 0 <= i < W
        ensures Bit(x, i) == Bit(x', i) && Bit(y, i) == Bit(y', i)
      {
        OrBit(Xor(x, x'), Xor(y, y'), i);
        XorBit(x, x', i);
        XorBit(y, y', i);
        ZeroBit(i);
      }
      BitExt(x, x', W);
      BitExt(y, y', W);
      assert false;
    }
    BitLengthBound(d, W);
    BitLengthTop(d);
    k := BitLength(d) - 1;
    OrBit(Xor(x, x'), Xor(y, y'), k);
    XorBit(x, x', k);
    XorBit(y, y', k);
    forall c | k < c < W
      ensures Bit(x, c) == Bit(x', c) && Bit(y, c) == Bit(y', c)
    {
      BitHigh(d, BitLength(d), c);
      OrBit(Xor(x, x'), Xor(y, y'), c);
      XorBit(x, x', c);
      XorBit(y, y', c);
    }
  }

  /** Different points have different distances along the curve. */
  lemma HilbertIndexInjective(x: nat, y: nat, x': nat, y': nat, W: nat)
    requires x < Pow2(W) && y < Pow2(W) && x' < Pow2(W) && y' < Pow2(W)
    requires (x, y) != (x', y')
    ensures HilbertIndex(x, y, W) != HilbertIndex(x', y', W)
  {
    var k := HighestDifference(x, y, x', y', W);
    FramesAgree(x, y, x', y', W, k);
    QuadrantInjective(FrameAt(x, y, W, k), Bit(x, k), Bit(y, k), Bit(x', k), Bit(y', k));
    if Digit(LevelQuad(x, y, W, k)) < Digit(LevelQuad(x', y', W, k)) {
      IndexOrder(x, y, x', y', W, k, 0);
    } else {
      IndexOrder(x', y', x, y, W, k, 0);
    }
  }

  // ---------------------------------------------------------------------
  // Empty top levels

  /** Above the highest set bit of x and y every level is quadrant (0, 0) in
      an unmirrored frame, so the frames alternate between transposed (even
      levels) and not (odd levels), counting down from an unrotated top. */
  lemma {:induction false} ZeroFrames(x: nat, y: nat, W: nat, n: nat, i: nat)
    requires W % 2 == 0 && x < Pow2(n) && y < Pow2(n) && n <= i < W
    ensures FrameAt(x, y, W, i) == Frame(i % 2 == 0, false)
    ensures LevelQuad(x, y, W, i) == Quad(false, false)
    ensures AfterLevel(x, y, W, i) == Frame(i % 2 == 1, false)
    decreases W - i
  {
    BitHigh(x, n, i);
    BitHigh(y, n, i);
    if i < W - 1 {
      ZeroFrames(x, y, W, n, i + 1);
    }
  }

  /** The origin is the start of the curve. */
  lemma OriginIndex(W: nat)
    requires W % 2 == 0
    ensures HilbertIndex(0, 0, W) == 0
  {
    OriginFrom(W, 0);
  }

  lemma {:induction false} OriginFrom(W: nat, lo: nat)
    requires W % 2 == 0 && lo <= W
    ensures IndexFrom(0, 0, W, lo) == 0
    decreases W - lo
  {
    if lo < W {
      ZeroFrames(0, 0, W, 0, lo);
      OriginFrom(W, lo + 1);
    }
  }
}

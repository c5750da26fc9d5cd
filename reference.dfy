/** The crate's brute-force oracle: the classic per-level Hilbert index loop
    over 32-bit coordinates (`xy2d`) and its quadrant rotation (`rot_b`).
    `XY2D` is proved to compute `HilbertIndex` of curve.dfy without
    overflowing its 64-bit accumulator.
 */
module Reference {
  import opened Bits
  import opened HilbertCurve

  /** A pair of u32 values. */
  predicate U32Pair(xy: (nat, nat))
  {
    xy.0 < Pow2(32) && xy.1 < Pow2(32)
  }

  /** `rot_b(xy, (rx, ry))`: for a lower quadrant (ry == 0) exchange x and y,
      complementing both first when rx == 1; otherwise leave them. */
  function RotB(xy: (nat, nat), r: (nat, nat)): (r': (nat, nat))
    requires U32Pair(xy)
    ensures U32Pair(r')
  {
    var (x, y) := xy;
    var (rx, ry) := r;
    if ry == 0 then
      var x' := if rx == 1 then Not(x, 32) else x;
      var y' := if rx == 1 then Not(y, 32) else y;
      (y', x')
    else (x, y)
  }

  /** The coordinates as the reference loop sees them in frame f: exchanged
      when the frame is transposed, complemented when it is mirrored. */
  function Transform(f: Frame, x: nat, y: nat): (r: (nat, nat))
    requires U32Pair((x, y))
    ensures U32Pair(r)
  {
    var a := if f.swapped then y else x;
    var b := if f.swapped then x else y;
    NotBit(a, 32, 0);
    NotBit(b, 32, 0);
    if f.flipped then (Not(a, 32), Not(b, 32)) else (a, b)
  }

  // ---------------------------------------------------------------------
  // rot_b

  /** For fixed quadrant bits, `rot_b` undoes itself. */
  lemma RotBInvolution(xy: (nat, nat), r: (nat, nat))
    requires U32Pair(xy)
    ensures U32Pair(RotB(xy, r))
    ensures RotB(RotB(xy, r), r) == xy
  {
    if r.1 == 0 && r.0 == 1 {
      NotNot(xy.0, 32);
      NotNot(xy.1, 32);
      var once := (Not(xy.1, 32), Not(xy.0, 32));
      assert RotB(xy, r) == once;
      assert RotB(once, r) == (Not(once.1, 32), Not(once.0, 32));
    }
  }

  /** `rot_b` moves the transformed coordinates from a frame to the next one. */
  lemma RotBFollowsFrame(f: Frame, x: nat, y: nat, q: Quad)
    requires U32Pair((x, y))
    ensures RotB(Transform(f, x, y), (B2N(q.rx), B2N(q.ry))) == Transform(Next(f, q), x, y)
  {
  }

  /** Bit i of the transformed coordinates is the quadrant bit of level i. */
  lemma TransformBit(f: Frame, x: nat, y: nat, i: nat)
    requires U32Pair((x, y)) && i < 32
    ensures Bit(Transform(f, x, y).0, i) == Quadrant(f, Bit(x, i), Bit(y, i)).rx
    ensures Bit(Transform(f, x, y).1, i) == Quadrant(f, Bit(x, i), Bit(y, i)).ry
  {
    NotBit(x, 32, i);
    NotBit(y, 32, i);
  }

  /** The bits the reference loop tests at level j are the quadrant of level j. */
  lemma LevelBits(x: nat, y: nat, j: nat, xy: (nat, nat), s: nat)
    requires U32Pair((x, y)) && j < 32 && s == Pow2(j)
    requires xy == Transform(FrameAt(x, y, 32, j), x, y)
    ensures (And(xy.0, s) > 0) == LevelQuad(x, y, 32, j).rx
    ensures (And(xy.1, s) > 0) == LevelQuad(x, y, 32, j).ry
  {
    AndPow2(xy.0, j);
    AndPow2(xy.1, j);
    TransformBit(FrameAt(x, y, 32, j), x, y, j);
  }

  /** The reference digit `(3 * rx) ^ ry` is the curve's digit. */
  lemma ReferenceDigit(q: Quad)
    ensures Xor(3 * B2N(q.rx), B2N(q.ry)) == Digit(q)
    ensures Digit(q) < 4
  {
    assert Xor(3, 1) == 2 by {
      assert Xor(1, 0) == 1;
    }
    assert Xor(3, 0) == 3 by {
      assert Xor(1, 0) == 1;
    }
    assert Xor(0, 1) == 1;
  }

  /** The digit table of the reference: a bijection from {0, 1}^2 onto 0..3. */
  lemma ReferenceDigitTable()
    ensures Xor(3 * 0, 0) == 0 && Xor(3 * 0, 1) == 1 && Xor(3 * 1, 1) == 2 && Xor(3 * 1, 0) == 3
  {
    ReferenceDigit(Quad(false, false));
    ReferenceDigit(Quad(false, true));
    ReferenceDigit(Quad(true, true));
    ReferenceDigit(Quad(true, false));
  }

  // ---------------------------------------------------------------------
  // xy2d

  /** One level of the accumulation: the digits read so far, times 4^(j+1),
      plus digit j times 4^j, stays below 2^64. */
  lemma AccumulateStep(x: nat, y: nat, j: nat)
    requires j < 32
    ensures Pow2(2 * (j + 1)) * IndexFrom(x, y, 32, j + 1) + Pow2(j) * Pow2(j) * Digit(LevelQuad(x, y, 32, j))
            == Pow2(2 * j) * IndexFrom(x, y, 32, j)
    ensures Pow2(2 * j) * IndexFrom(x, y, 32, j) < Pow2(64)
    ensures Pow2(j) * Pow2(j) <= Pow2(62)
    ensures 0 <= Pow2(j) * Pow2(j) * Digit(LevelQuad(x, y, 32, j))
  {
    Pow2Add(j, j);
    assert j + j == 2 * j;
    assert Pow2(2 * (j + 1)) == 4 * Pow2(2 * j);
    IndexFromBound(x, y, 32, j);
    Pow2Add(2 * j, 2 * (32 - j));
    assert 2 * j + 2 * (32 - j) == 64;
    Pow2Mono(2 * j, 62);
    AccumulateArith(Pow2(2 * (j + 1)), Pow2(2 * j), Pow2(j), IndexFrom(x, y, 32, j + 1),
      Digit(LevelQuad(x, y, 32, j)), IndexFrom(x, y, 32, j), Pow2(2 * (32 - j)), Pow2(64));
  }

  lemma AccumulateArith(p4: nat, p: nat, s: nat, rest: nat, dig: nat, total: nat, bound: nat, top: nat)
    requires p4 == 4 * p && s * s == p && total == dig + 4 * rest
    requires total < bound && p * bound == top && p > 0
    ensures p4 * rest + s * s * dig == p * total
    ensures p * total < top
    ensures 0 <= s * s * dig
  {
    assert p * total == p * dig + 4 * p * rest;
    MulLess(p, total, bound);
  }

  lemma OneTimes(p: nat, v: nat)
    requires p == 1
    ensures p * v == v
  {
  }

  lemma MulLess(p: nat, a: nat, b: nat)
    requires p > 0 && a < b
    ensures p * a < p * b
  {
  }

  lemma TopLevelBit()
    ensures Shl(1, 31, 32) == Pow2(31)
  {
    ShlOne(31, 32);
  }

  /** The accumulator after level j, with the reference's own digit. */
  lemma LevelStep(x: nat, y: nat, j: nat, d: nat, s: nat, rx: nat, ry: nat, increment: int)
    requires j < 32 && s == Pow2(j)
    requires d == Pow2(2 * (j + 1)) * IndexFrom(x, y, 32, j + 1)
    requires rx == B2N(LevelQuad(x, y, 32, j).rx) && ry == B2N(LevelQuad(x, y, 32, j).ry)
    requires increment == s * s * Xor(3 * rx, ry)
    ensures 0 <= increment < Pow2(64)
    ensures d + increment == Pow2(2 * j) * IndexFrom(x, y, 32, j)
    ensures d + increment < Pow2(64)
  {
    ReferenceDigit(LevelQuad(x, y, 32, j));
    AccumulateStep(x, y, j);
  }

  /** The state of `xy2d` with n levels still to read: s is the bit of the
      next level, xy the coordinates seen in that level's frame, and d the
      digits of the levels already read, in place. */
  ghost predicate Progress(x: nat, y: nat, n: nat, xy: (nat, nat), s: nat, d: nat)
    requires U32Pair((x, y)) && n <= 32
  {
    && s == (if n > 0 then Pow2(n - 1) else 0)
    && (n > 0 ==> xy == Transform(FrameAt(x, y, 32, n - 1), x, y))
    && d == Pow2(2 * n) * IndexFrom(x, y, 32, n)
  }

  /** One level of `xy2d`: the digit of level n - 1 joins the accumulator
      without overflowing 64 bits, and `rot_b` brings the coordinates into
      the frame of the level below. */
  lemma Advance(x: nat, y: nat, n: nat, xy: (nat, nat), s: nat, d: nat, rx: nat, ry: nat)
    requires U32Pair((x, y)) && 0 < n <= 32 && Progress(x, y, n, xy, s, d)
    requires rx == (if And(xy.0, s) > 0 then 1 else 0) && ry == (if And(xy.1, s) > 0 then 1 else 0)
    ensures 0 <= s * s * Xor(3 * rx, ry) < Pow2(64) && d + s * s * Xor(3 * rx, ry) < Pow2(64)
    ensures Progress(x, y, n - 1, RotB(xy, (rx, ry)), s / 2, d + s * s * Xor(3 * rx, ry))
    ensures s / 2 < s
  {
    var j := n - 1;
    var f := FrameAt(x, y, 32, j);
    var q := LevelQuad(x, y, 32, j);
    assert s == Pow2(j) && xy == Transform(f, x, y);
    assert d == Pow2(2 * (j + 1)) * IndexFrom(x, y, 32, j + 1);
    LevelBits(x, y, j, xy, s);
    var increment: int := s * s * Xor(3 * rx, ry);
    LevelStep(x, y, j, d, s, rx, ry, increment);
    assert (rx, ry) == (B2N(q.rx), B2N(q.ry));
    RotBFollowsFrame(f, x, y, q);
    HalfPow2(j);
    if j > 0 {
      assert FrameAt(x, y, 32, j - 1) == Next(f, q);
    }
    assert Progress(x, y, j, RotB(xy, (rx, ry)), s / 2, d + increment);
  }

  /** `xy2d(x, y)`: 32 levels from the top, each adding its digit times
      s * s = 4^level and rotating the coordinates with `rot_b`. */
  method XY2D(x: nat, y: nat) returns (d: nat, ghost iterations: nat)
    requires U32Pair((x, y))
    ensures d == HilbertIndex(x, y, 32)
    ensures d < Pow2(64)
    ensures iterations == 32
  {
    var xy: (nat, nat) := (x, y);
    var s: nat := Shl(1, 31, 32);
    d := 0;
    ghost var n: nat := 32;  // levels still to read
    iterations := 0;
    Start(x, y);
    while s > 0
      invariant n <= 32 && iterations == 32 - n
      invariant Progress(x, y, n, xy, s, d)
      decreases s
    {
      xy, s, d := Level(x, y, n, xy, s, d);
      n := n - 1;
      iterations := iterations + 1;
    }
    LoopExit(x, y, xy, s, d);
  }

  /** The body of the `xy2d` loop: read the quadrant bits at s, add the
      digit times s * s (no u64 overflow), rotate with `rot_b`, halve s. */
  method Level(x: nat, y: nat, ghost n: nat, xy: (nat, nat), s: nat, d: nat)
      returns (xy': (nat, nat), s': nat, d': nat)
    requires U32Pair((x, y)) && 0 < n <= 32 && Progress(x, y, n, xy, s, d)
    ensures Progress(x, y, n - 1, xy', s', d')
    ensures s' < s
  {
    var rx: nat := if And(xy.0, s) > 0 then 1 else 0;
    var ry: nat := if And(xy.1, s) > 0 then 1 else 0;
    Advance(x, y, n, xy, s, d, rx, ry);
    // u64 arithmetic: neither the product nor the sum overflows
    d' := d + s * s * Xor(3 * rx, ry);
    xy' := RotB(xy, (rx, ry));
    s' := s / 2;
  }

  /** Before the first level nothing has been read, in the unrotated frame. */
  lemma Start(x: nat, y: nat)
    requires U32Pair((x, y))
    ensures Progress(x, y, 32, (x, y), Shl(1, 31, 32), 0)
  {
    TopLevelBit();
    assert Pow2(2 * 32) * IndexFrom(x, y, 32, 32) == 0;
    assert FrameAt(x, y, 32, 31) == Frame(false, false);
  }

  /** After the last level the accumulator holds every digit. */
  lemma LoopExit(x: nat, y: nat, xy: (nat, nat), s: nat, d: nat)
    requires U32Pair((x, y)) && Progress(x, y, 0, xy, s, d)
    ensures d == HilbertIndex(x, y, 32) && d < Pow2(64)
  {
    OneTimes(Pow2(2 * 0), IndexFrom(x, y, 32, 0));
    HilbertIndexBound(x, y, 32);
  }

  /** `xy2d(0, 0) == 0`. */
  lemma XY2DOrigin()
    ensures HilbertIndex(0, 0, 32) == 0
  {
    OriginIndex(32);
  }
}

/** The reference implementation's brute-force tests: over every point of
    the 32 x 32 grid, the precomputed struct's distance is the reference
    `xy2d`, and its comparison with every other point of the grid orders
    the two as their `xy2d` values. Each test returns whether every
    assertion of the loop held, and its contract is that they all do.
 */
module ReferenceTests {
  import opened Bits
  import opened BitUtil
  import opened Reference
  import opened HilbertCurve
  import opened HilbertPrecompute

  /** The side of the grid the tests cover. */
  const N: nat := 32

  /** `test_brute_distance`: `xy2d(x0, y0) == HilbertPrecompute::new(x0, y0).distance()`
      for the 32-bit type, with `Distance`, whose portable path is the
      corrected interleave loop. */
  method TestBruteDistance(accelerated: bool) returns (ok: bool)
    ensures ok
  {
    Pow2Small();
    Pow2Wide();
    ok := true;
    var x0: nat := 0;
    while x0 < N
      invariant x0 <= N && ok
    {
      var y0: nat := 0;
      while y0 < N
        invariant y0 <= N && ok
      {
        ghost var iterations;
        var d0;
        d0, iterations := XY2D(x0, y0);
        var precompute := New(x0, y0, 32);
        var d := Distance(precompute, U32, accelerated);
        ok := ok && d0 == d;
        y0 := y0 + 1;
      }
      x0 := x0 + 1;
    }
  }

  /** `test_brute_compare`: `xy2d(x0, y0).partial_cmp(&xy2d(x1, y1))` equals
      `HilbertPrecompute::new(x0, y0).partial_cmp(&(x1, y1))`. */
  method TestBruteCompare() returns (ok: bool)
    ensures ok
  {
    Pow2Small();
    Pow2Wide();
    ok := true;
    var x0: nat := 0;
    while x0 < N
      invariant x0 <= N && ok
    {
      var y0: nat := 0;
      while y0 < N
        invariant y0 <= N && ok
      {
        ghost var iterations;
        var d0;
        d0, iterations := XY2D(x0, y0);
        var precompute := New(x0, y0, 32);
        ok := CompareRow(precompute, d0);
        y0 := y0 + 1;
      }
      x0 := x0 + 1;
    }
  }

  /** The two inner loops of `test_brute_compare` for one (x0, y0). */
  method CompareRow(precompute: Precompute, d0: nat) returns (ok: bool)
    requires Width(32) && Precomputed(precompute, 32) && d0 == HilbertIndex(precompute.x, precompute.y, 32)
    ensures ok
  {
    Pow2Small();
    Pow2Wide();
    ok := true;
    var x1: nat := 0;
    while x1 < N
      invariant x1 <= N && ok
    {
      var y1: nat := 0;
      while y1 < N
        invariant y1 <= N && ok
      {
        ghost var iterations;
        var d1;
        d1, iterations := XY2D(x1, y1);
        PartialCmpMatchesIndex(precompute, x1, y1, 32);
        ok := ok && Some(Compare(d0, d1)) == PartialCmp(precompute, (x1, y1), 32);
        y1 := y1 + 1;
      }
      x1 := x1 + 1;
    }
  }
}

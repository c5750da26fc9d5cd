/** Unsigned fixed-width integer arithmetic on natural numbers.

    A W-bit unsigned value is a `nat` below `Pow2(W)`. The bitwise operators
    of Rust's primitive integers (`^`, `&`, `|`, `!`, `<<`, `>>`,
    `leading_zeros`) are defined here on `nat`, each with the lemma that says
    what it does to every bit. Everything else in the model reasons through
    `Bit` and the extensionality lemma `BitExt`.
 */
module Bits {

  function Pow2(n: nat): (r: nat)
    ensures r >= 1
  {
    if n == 0 then 1 else 2 * Pow2(n - 1)
  }

  /** Bit i (counting from 0 at the least significant end) of x. */
  predicate Bit(x: nat, i: nat)
  {
    if i == 0 then x % 2 == 1 else Bit(x / 2, i - 1)
  }

  function Xor(a: nat, b: nat): nat
    decreases a + b
  {
    if a == 0 && b == 0 then 0
    else 2 * Xor(a / 2, b / 2) + (if a % 2 != b % 2 then 1 else 0)
  }

  function And(a: nat, b: nat): nat
    decreases a + b
  {
    if a == 0 || b == 0 then 0
    else 2 * And(a / 2, b / 2) + (if a % 2 == 1 && b % 2 == 1 then 1 else 0)
  }

  function Or(a: nat, b: nat): nat
    decreases a + b
  {
    if a == 0 && b == 0 then 0
    else 2 * Or(a / 2, b / 2) + (if a % 2 == 1 || b % 2 == 1 then 1 else 0)
  }

  /** `!x` on a W-bit value. */
  function Not(x: nat, W: nat): nat
    requires x < Pow2(W)
  {
    Pow2(W) - 1 - x
  }

  /** `x << k` on a W-bit value: bits shifted past the top are lost. */
  function Shl(x: nat, k: nat, W: nat): nat
  {
    (x * Pow2(k)) % Pow2(W)
  }

  /** `x >> k` (logical shift right). */
  function Shr(x: nat, k: nat): nat
  {
    DivNonneg(x, Pow2(k));
    x / Pow2(k)
  }

  /** A boolean as the bit 0 or 1. */
  function B2N(b: bool): nat
  {
    if b then 1 else 0
  }

  lemma DivNonneg(x: nat, d: nat)
    requires d > 0
    ensures 0 <= x / d
  {
  }

  /** Number of significant bits: the position of the highest set bit plus one. */
  function BitLength(x: nat): nat
  {
    if x == 0 then 0 else 1 + BitLength(x / 2)
  }

  /** `x.leading_zeros()` for a W-bit value x. */
  function LeadingZeros(x: nat, W: nat): (r: nat)
    requires x < Pow2(W)
    ensures r <= W
    ensures r == W <==> x == 0
    ensures x < Pow2(W - r)
    ensures x != 0 ==> Bit(x, W - 1 - r)
  {
    BitLengthBound(x, W);
    BitLengthTop(x);
    W - BitLength(x)
  }

  // ---------------------------------------------------------------------
  // Powers of two

  lemma {:induction false} Pow2Add(a: nat, b: nat)
    ensures Pow2(a + b) == Pow2(a) * Pow2(b)
  {
    if a > 0 {
      Pow2Add(a - 1, b);
      assert Pow2(a + b) == 2 * Pow2(a - 1 + b);
    }
  }

  lemma {:induction false} Pow2Mono(a: nat, b: nat)
    requires a <= b
    ensures Pow2(a) <= Pow2(b)
    ensures a < b ==> 2 * Pow2(a) <= Pow2(b)
  {
    if a < b {
      Pow2Mono(a, b - 1);
    }
  }

  lemma Pow2Div(a: nat, b: nat)
    requires b <= a
    ensures Pow2(a) / Pow2(b) == Pow2(a - b)
    ensures Pow2(a) % Pow2(b) == 0
  {
    Pow2Add(a - b, b);
    DivMulExact(Pow2(a - b), Pow2(b));
  }

  lemma DivMulExact(q: nat, m: nat)
    requires m > 0
    ensures (q * m) / m == q && (q * m) % m == 0
  {
    DivModUnique(q * m, m, q, 0);
  }

  /** Division with remainder is unique. */
  lemma DivModUnique(x: nat, m: nat, q: nat, r: nat)
    requires m > 0 && r < m && x == q * m + r
    ensures x / m == q && x % m == r
  {
    var q', r' := x / m, x % m;
    assert x == q' * m + r';
    if q' < q {
      MulLe(q' + 1, q, m);
      assert false;
    } else if q < q' {
      MulLe(q + 1, q', m);
      assert false;
    }
  }

  lemma MulLe(a: nat, b: nat, m: nat)
    requires a <= b
    ensures a * m <= b * m
  {
  }

  /** One step of evaluating `Xor` on known numbers: from the halves to the whole. */
  lemma XorHalves(a: nat, b: nat, r: nat)
    requires (a > 0 || b > 0) && Xor(a / 2, b / 2) == r
    ensures Xor(a, b) == 2 * r + (if a % 2 != b % 2 then 1 else 0)
  {
  }

  /** One step of evaluating `And` on known numbers: from the halves to the whole. */
  lemma AndHalves(a: nat, b: nat, r: nat)
    requires a > 0 && b > 0 && And(a / 2, b / 2) == r
    ensures And(a, b) == 2 * r + (if a % 2 == 1 && b % 2 == 1 then 1 else 0)
  {
  }

  /** The widths of a u32 and a u64, from the powers of `Pow2Small`. */
  lemma Pow2Wide()
    ensures Pow2(32) == 0x1_0000_0000 && Pow2(64) == 0x1_0000_0000_0000_0000
  {
    Pow2Small();
    Pow2Square(16, 0x1_0000);
    Pow2Square(32, 0x1_0000_0000);
  }

  /** The powers of two up to the width of a u16. */
  lemma Pow2Small()
    ensures Pow2(1) == 2 && Pow2(2) == 4 && Pow2(3) == 8 && Pow2(4) == 16
    ensures Pow2(8) == 0x100 && Pow2(9) == 0x200 && Pow2(16) == 0x1_0000
  {
    assert Pow2(1) == 2;
    assert Pow2(2) == 4;
    assert Pow2(3) == 8;
    assert Pow2(4) == 16;
    Pow2Square(4, 16);
    Pow2Twice(8, 0x100);
    Pow2Square(8, 0x100);
  }

  /** From a known power of two to the next one. */
  lemma Pow2Twice(k: nat, p: nat)
    requires Pow2(k) == p
    ensures Pow2(k + 1) == 2 * p
  {
  }

  /** From a known power of two to its square. */
  lemma Pow2Square(k: nat, p: nat)
    requires Pow2(k) == p
    ensures Pow2(2 * k) == p * p
  {
    Pow2Add(k, k);
  }

  // ---------------------------------------------------------------------
  // Bits of a value

  /** Shifting right by nothing keeps the value. */
  lemma ShrNone(x: nat)
    ensures Shr(x, 0) == x
  {
    assert Pow2(0) == 1;
  }

  /** Shifting right by k is shifting right by one, then by k - 1. */
  lemma ShrHalf(x: nat, k: nat)
    requires k > 0
    ensures Shr(x, k) == Shr(x / 2, k - 1)
  {
    var p := Pow2(k - 1);
    var q := (x / 2) / p;
    var r := (x / 2) % p;
    assert x / 2 == q * p + r;
    assert x == q * (2 * p) + (2 * r + x % 2);
    DivModUnique(x, 2 * p, q, 2 * r + x % 2);
  }

  lemma HalfPow2(j: nat)
    ensures Pow2(j) / 2 == if j > 0 then Pow2(j - 1) else 0
  {
    if j > 0 {
      DivModUnique(Pow2(j), 2, Pow2(j - 1), 0);
    }
  }

  /** `2^j >> 1`. */
  lemma ShrPow2One(j: nat)
    ensures Shr(Pow2(j), 1) == if j > 0 then Pow2(j - 1) else 0
  {
    assert Pow2(1) == 2;
    HalfPow2(j);
  }

  lemma {:induction false} BitHigh(x: nat, n: nat, i: nat)
    requires x < Pow2(n) && n <= i
    ensures !Bit(x, i)
  {
    if i > 0 && n > 0 {
      BitHigh(x / 2, n - 1, i - 1);
    } else if i > 0 {
      assert x == 0;
      ZeroBit(i);
    }
  }

  /** Complementing twice gives the value back, within the type. */
  lemma NotNot(x: nat, W: nat)
    requires x < Pow2(W)
    ensures Not(x, W) < Pow2(W) && Not(Not(x, W), W) == x
  {
  }

  /** 1 << k is 2^k when k is below the width. */
  lemma ShlOne(k: nat, W: nat)
    requires k < W
    ensures Shl(1, k, W) == Pow2(k)
  {
    Pow2Mono(k, W);
    DivModUnique(Pow2(k), Pow2(W), 0, Pow2(k));
  }

  lemma ShlZero(k: nat, W: nat)
    ensures Shl(0, k, W) == 0
  {
    assert 0 * Pow2(k) == 0;
    DivModUnique(0, Pow2(W), 0, 0);
  }

  lemma AndZero(m: nat)
    ensures And(0, m) == 0
  {
  }

  /** Bit k of x is bit k - 1 of x halved. */
  lemma BitShift(x: nat, k: nat)
    requires k > 0
    ensures Bit(x, k) == Bit(x / 2, k - 1)
  {
  }

  lemma {:induction false} ZeroBit(i: nat)
    ensures !Bit(0, i)
  {
    if i > 0 {
      ZeroBit(i - 1);
    }
  }

  /** Two n-bit values with the same bits are equal. */
  lemma {:induction false} BitExt(x: nat, y: nat, n: nat)
    requires x < Pow2(n) && y < Pow2(n)
    requires forall i :: 0 <= i < n ==> Bit(x, i) == Bit(y, i)
    ensures x == y
  {
    if n > 0 {
      forall i | 0 <= i < n - 1
        ensures Bit(x / 2, i) == Bit(y / 2, i)
      {
        assert Bit(x, i + 1) == Bit(y, i + 1);
      }
      BitExt(x / 2, y / 2, n - 1);
      assert Bit(x, 0) == Bit(y, 0);
    }
  }

  lemma {:induction false} XorBit(a: nat, b: nat, i: nat)
    ensures Bit(Xor(a, b), i) == (Bit(a, i) != Bit(b, i))
    decreases a + b
  {
    if a == 0 && b == 0 {
      ZeroBit(i);
    } else if i > 0 {
      XorBit(a / 2, b / 2, i - 1);
    }
  }

  lemma {:induction false} AndBit(a: nat, b: nat, i: nat)
    ensures Bit(And(a, b), i) == (Bit(a, i) && Bit(b, i))
    decreases a + b
  {
    if a == 0 || b == 0 {
      ZeroBit(i);
    } else if i > 0 {
      AndBit(a / 2, b / 2, i - 1);
    }
  }

  lemma {:induction false} OrBit(a: nat, b: nat, i: nat)
    ensures Bit(Or(a, b), i) == (Bit(a, i) || Bit(b, i))
    decreases a + b
  {
    if a == 0 && b == 0 {
      ZeroBit(i);
    } else if i > 0 {
      OrBit(a / 2, b / 2, i - 1);
    }
  }

  lemma {:induction false} XorBound(a: nat, b: nat, n: nat)
    requires a < Pow2(n) && b < Pow2(n)
    ensures Xor(a, b) < Pow2(n)
    decreases a + b
  {
    if (a != 0 || b != 0) && n > 0 {
      XorBound(a / 2, b / 2, n - 1);
    }
  }

  lemma {:induction false} AndBound(a: nat, b: nat, n: nat)
    requires a < Pow2(n) || b < Pow2(n)
    ensures And(a, b) < Pow2(n)
    decreases a + b
  {
    if a != 0 && b != 0 && n > 0 {
      AndBound(a / 2, b / 2, n - 1);
    }
  }

  lemma {:induction false} OrBound(a: nat, b: nat, n: nat)
    requires a < Pow2(n) && b < Pow2(n)
    ensures Or(a, b) < Pow2(n)
    decreases a + b
  {
    if (a != 0 || b != 0) && n > 0 {
      OrBound(a / 2, b / 2, n - 1);
    }
  }

  lemma {:induction false} NotBit(x: nat, W: nat, i: nat)
    requires x < Pow2(W)
    ensures Not(x, W) < Pow2(W)
    ensures Bit(Not(x, W), i) == (i < W && !Bit(x, i))
  {
    if W == 0 {
      ZeroBit(i);
    } else {
      assert Not(x, W) == 2 * Not(x / 2, W - 1) + (1 - x % 2);
      if i > 0 {
        NotBit(x / 2, W - 1, i - 1);
      }
    }
  }

  /** Reducing modulo 2^W drops the top bits, one bit at a time. */
  lemma ModPow2Step(v: nat, W: nat)
    requires W > 0
    ensures v % Pow2(W) == 2 * ((v / 2) % Pow2(W - 1)) + v % 2
    ensures (v % Pow2(W)) / 2 == (v / 2) % Pow2(W - 1) && (v % Pow2(W)) % 2 == v % 2
  {
    var p := Pow2(W - 1);
    var q, r := (v / 2) / p, (v / 2) % p;
    assert v / 2 == q * p + r;
    assert v == 2 * (q * p + r) + v % 2;
    assert v == q * (2 * p) + (2 * r + v % 2);
    DivModUnique(v, 2 * p, q, 2 * r + v % 2);
    DivModUnique(2 * r + v % 2, 2, r, v % 2);
  }

  lemma {:induction false} ModBit(v: nat, W: nat, i: nat)
    ensures Bit(v % Pow2(W), i) == (i < W && Bit(v, i))
  {
    if W == 0 {
      ZeroBit(i);
    } else {
      ModPow2Step(v, W);
      if i > 0 {
        ModBit(v / 2, W - 1, i - 1);
      }
    }
  }

  lemma {:induction false} MulPow2Bit(x: nat, k: nat, i: nat)
    ensures Bit(x * Pow2(k), i) == (k <= i && Bit(x, i - k))
  {
    if k > 0 {
      assert x * Pow2(k) == 2 * (x * Pow2(k - 1));
      if i > 0 {
        MulPow2Bit(x, k - 1, i - 1);
      }
    }
  }

  lemma ShlBit(x: nat, k: nat, W: nat, i: nat)
    ensures Shl(x, k, W) < Pow2(W)
    ensures Bit(Shl(x, k, W), i) == (k <= i < W && Bit(x, i - k))
  {
    ModBit(x * Pow2(k), W, i);
    MulPow2Bit(x, k, i);
  }

  lemma {:induction false} ShrBit(x: nat, k: nat, i: nat)
    ensures Bit(Shr(x, k), i) == Bit(x, i + k)
  {
    if k > 0 {
      ShrHalf(x, k);
      ShrBit(x / 2, k - 1, i);
    }
  }

  lemma {:induction false} Pow2Bit(k: nat, i: nat)
    ensures Bit(Pow2(k), i) == (i == k)
  {
    if k > 0 && i > 0 {
      Pow2Bit(k - 1, i - 1);
    } else if k > 0 {
    } else if i > 0 {
      ZeroBit(i - 1);
    }
  }

  lemma {:induction false} LowOnesBit(k: nat, i: nat)
    ensures Bit(Pow2(k) - 1, i) == (i < k)
  {
    if k == 0 {
      ZeroBit(i);
    } else {
      assert Pow2(k) - 1 == 2 * (Pow2(k - 1) - 1) + 1;
      if i > 0 {
        LowOnesBit(k - 1, i - 1);
      }
    }
  }

  /** The bits of a + 2^m * b, when a fits in m bits. */
  lemma {:induction false} BitSplit(a: nat, m: nat, b: nat, i: nat)
    requires a < Pow2(m)
    ensures Bit(a + Pow2(m) * b, i) == if i < m then Bit(a, i) else Bit(b, i - m)
  {
    if m > 0 {
      var p := Pow2(m - 1);
      assert Pow2(m) == 2 * p;
      SplitHalf(a, p, b);
      if i > 0 {
        BitShift(a + (2 * p) * b, i);
        BitShift(a, i);
        BitSplit(a / 2, m - 1, b, i - 1);
      }
    }
  }

  /** Halving a + 2p * b halves a and keeps p * b. */
  lemma SplitHalf(a: nat, p: nat, b: nat)
    ensures (a + (2 * p) * b) / 2 == a / 2 + p * b
    ensures (a + (2 * p) * b) % 2 == a % 2
    ensures a < 2 * p ==> a / 2 < p
  {
    var q := a / 2 + p * b;
    assert a + (2 * p) * b == q * 2 + a % 2;
    DivModUnique(a + (2 * p) * b, 2, q, a % 2);
  }

  lemma {:induction false} BitLengthBound(x: nat, W: nat)
    requires x < Pow2(W)
    ensures BitLength(x) <= W
    ensures x < Pow2(BitLength(x))
  {
    if x > 0 {
      BitLengthBound(x / 2, W - 1);
    }
  }

  lemma {:induction false} BitLengthTop(x: nat)
    ensures x != 0 ==> Bit(x, BitLength(x) - 1)
  {
    if x > 1 {
      BitLengthTop(x / 2);
    }
  }

  /** A value below 2^n that has bit j set and no other bit is 2^j. */
  lemma SingleBit(v: nat, j: nat, n: nat)
    requires j < n && v < Pow2(n)
    requires forall i :: 0 <= i < n ==> Bit(v, i) == (i == j)
    ensures v == Pow2(j)
  {
    Pow2Mono(j, n);
    forall i | 0 <= i < n
      ensures Bit(v, i) == Bit(Pow2(j), i)
    {
      Pow2Bit(j, i);
    }
    BitExt(v, Pow2(j), n);
  }

  /** A value below 2^n with no bit set is 0. */
  lemma NoBits(v: nat, n: nat)
    requires v < Pow2(n)
    requires forall i :: 0 <= i < n ==> !Bit(v, i)
    ensures v == 0
  {
    forall i | 0 <= i < n
      ensures Bit(v, i) == Bit(0, i)
    {
      ZeroBit(i);
    }
    BitExt(v, 0, n);
  }

  /** `v & 2^j` is 2^j when bit j of v is set and 0 otherwise. */
  lemma AndPow2(v: nat, j: nat)
    ensures And(v, Pow2(j)) == if Bit(v, j) then Pow2(j) else 0
    ensures And(Pow2(j), v) == if Bit(v, j) then Pow2(j) else 0
  {
    var n := j + 1;
    Pow2Mono(j, n);
    AndBound(v, Pow2(j), n);
    AndBound(Pow2(j), v, n);
    forall i | 0 <= i < n
      ensures Bit(And(v, Pow2(j)), i) == (Bit(v, j) && i == j)
      ensures Bit(And(Pow2(j), v), i) == (Bit(v, j) && i == j)
    {
      AndBit(v, Pow2(j), i);
      AndBit(Pow2(j), v, i);
      Pow2Bit(j, i);
    }
    if Bit(v, j) {
      SingleBit(And(v, Pow2(j)), j, n);
      SingleBit(And(Pow2(j), v), j, n);
    } else {
      NoBits(And(v, Pow2(j)), n);
      NoBits(And(Pow2(j), v), n);
    }
  }

  /** Bit i of a 0/1 value. */
  lemma B2NBit(b: bool, i: nat)
    ensures Bit(B2N(b), i) == (b && i == 0)
  {
    if i > 0 {
      ZeroBit(i - 1);
    }
  }

  /** `a | b` is at least each operand; in particular it is 0 only for 0 | 0. */
  lemma {:induction false} OrUpper(a: nat, b: nat)
    ensures a <= Or(a, b) && b <= Or(a, b)
    decreases a + b
  {
    if a != 0 || b != 0 {
      OrUpper(a / 2, b / 2);
    }
  }

  /** `a ^ b` is 0 only when a == b. */
  lemma {:induction false} XorZero(a: nat, b: nat)
    ensures Xor(a, b) == 0 <==> a == b
    decreases a + b
  {
    if a != 0 || b != 0 {
      XorZero(a / 2, b / 2);
    }
  }
}

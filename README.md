# hilbert: a verified model of Hilbert-curve distance and comparison

The `hilbert` crate places a point (x, y) of a 2^W by 2^W grid on the
Hilbert curve. It does this without walking the curve level by level for
every query. Its main type is `HilbertPrecompute`, which stores the point
together with two W-bit words, `flip` and `swap`. These words record how the
curve is oriented at every level of the point. From them the crate gets:

- `distance()`, the position along the curve, by a single bit interleave;
- `partial_cmp`, the Hilbert-order comparison of the stored point with any
  other point, by looking only at the highest level where the two differ.

The crate also has a reference implementation, `xy2d`, the classic per-level
loop. Its tests check `distance` and `partial_cmp` against `xy2d` over a
32 x 32 grid.

This project models that core in Dafny. For every point and every width it
proves `xy_flip_swap`, `partial_cmp`, `eq`, `xy2d` and the x86 path of
`interleave_bits` correct. The portable path of `interleave_bits` as the
crate writes it is wrong (see Findings). So `distance()` is proved to be the
Hilbert index on the x86 path (u16 and u32) and with the corrected loop. As
written, the crate's portable path gives other values: u8 and u64 take it on
every target, and every type takes it off x86.

- **`bits.dfy` (`Bits`)**: unsigned words as `nat`s below `Pow2(W)`. It gives
  xor, and, or, not, shifts, single bits and `leading_zeros`, with their
  bit-level laws.
- **`bit_util.dfy` (`BitUtil`)**: `mask`, `mask_pow2_and_under`,
  `zero_high_bits` and `bit_count`, with the values their unit tests
  expect.
- **`interleave.dfy` (`Interleaving`)**: `as_wider`, `interleave_bits` and
  `interleave_with_zero`. `Interleave` is the reference definition: bit i of
  `rhs` goes to bit 2i and bit i of `lhs` to bit 2i + 1. The x86 path
  (parallel bit deposit) is proved against it. So is the portable path
  with the corrected loop, `InterleaveBits`. The portable path as the crate
  writes it, `InterleaveBitsAsWritten`, does not meet it (see Findings).
- **`curve.dfy` (`HilbertCurve`)**: the Hilbert order as a specification.
  - Reading from the top level down, each level's coordinate bits, seen
    through the current orientation, select a quadrant.
  - The quadrant contributes a base-4 digit and fixes the orientation of
    the level below.
  - `HilbertIndex` is the number those digits make.
- **`reference.dfy` (`Reference`)**: `xy2d` and `rot_b`. `xy2d` is proved
  to compute `HilbertIndex` for 32-bit coordinates, and its 64-bit
  accumulator never overflows.
- **`hilbert_precompute.dfy` (`HilbertPrecompute`)**: the struct, `new`,
  `xy_flip_swap`, `distance`, `eq`, `partial_cmp` and `xy_local_dist`.
  - Bit i of `swap` and bit i of `flip` of a point are proved to be the
    orientation the curve takes below level i.
  - From that, the kept words of `distance` interleave to `HilbertIndex`.
    So `distance` is the Hilbert index on the x86 path and with the
    corrected loop (`Distance`). `DistanceAsWritten` is the crate's own
    portable path, and for the u8 point (1, 0) it returns 3, where the
    index is 1.
  - `partial_cmp` is proved to order any two points as their Hilbert
    indices do, even though it reads the other point through the stored
    point's words.
- **`reference_tests.dfy` (`ReferenceTests`)**: the two brute-force tests of
  the reference implementation, as loops whose contract is that every
  assertion in them holds.

Widths are explicit. `UInt` names the unsigned types, and `BitCount` gives a
type's width. In `HilbertPrecompute` the operations take the width W in
place of the type parameter. `Width(W)` says W is even and at least 2. The
types the crate instantiates have widths 8, 16, 32 and 64, and `WidthOf`
proves that each of them satisfies `Width`.

The early return of `xy_flip_swap` carries the comment "if x == y"
(src/hilbert_precompute.rs:73). Its condition, however, tests whether the
leading zeros of x or-ed with y equal the bit count (lines 71-74), that is,
whether x and y are both zero. The model follows the condition: only the
origin returns early, with (0, y) = (0, 0).

## Model

| member | source | states |
|---|---|---|
| Bits.LeadingZeros | src/hilbert_precompute.rs:71 | `leading_zeros` of a W-bit value is at most W, is W exactly for zero, and the value lies below bit W - r with bit W - 1 - r set when it is not zero |
| BitUtil.BitCount | src/bit_util.rs:24-27 | `bit_count` is a whole number of bytes, between 8 and 128 bits |
| BitUtil.BitCountValues | src/bit_util.rs:24-27 | `bit_count` is the byte size shifted left by 3, that is 8, 16, 32, 64 or 128, always even |
| BitUtil.Mask | src/bit_util.rs:3-6 | `mask(h)`, all ones divided by `(1 << h) + 1`, fits the W-bit type |
| BitUtil.MaskBits | src/bit_util.rs:3-6 | when 2h divides W, bit i of `mask(h)` is set exactly when i < W and i lies in an even run of h bits, `(i / h) % 2 == 0` |
| BitUtil.MaskIsRuns | src/bit_util.rs:3-6 | `mask(h)` is the word of W / 2h repetitions of h zeros above h ones |
| BitUtil.MaskValue | src/bit_util.rs:3-6 | `mask(h)` is the m with m * (2^h + 1) = 2^W - 1 |
| BitUtil.MaskExamples | src/bit_util.rs:33-40 | `mask::<u32>` of 16, 8, 4, 2, 1 is 0x0000FFFF, 0x00FF00FF, 0x0F0F0F0F, 0x33333333, 0x55555555 |
| BitUtil.MaskPow2AndUnder | src/bit_util.rs:8-15 | under the debug assertion (x zero or a power of two), the result is x with every bit below it set, 2^BitLength(x) - 1 |
| BitUtil.PowerOfTwoTest | src/bit_util.rs:13 | for x > 0, `x & (x - 1) == 0` holds exactly when x is a power of two |
| BitUtil.FillBelowPow2 | src/bit_util.rs:14 | for x = 2^k, x or-ed with x - 1 is k + 1 ones |
| BitUtil.MaskPow2AndUnderPow2 | src/bit_util.rs:9-15 | 2^k passes the debug assertion and maps to 2^(k+1) - 1 |
| BitUtil.MaskPow2AndUnderExamples | src/bit_util.rs:50-55 | 0x100 maps to 0x1FF, 0x1 to 0x1 and 0 to 0 |
| BitUtil.ZeroHighBits | src/bit_util.rs:17-22 | the result is v mod 2^(W/2): the low half kept, the high half cleared |
| BitUtil.ZeroHighBitsIsMod | src/bit_util.rs:19-21 | the mask `!0 >> W/2` is W/2 ones, and and-ing with it is reduction mod 2^(W/2) |
| BitUtil.ZeroHighBitsIdempotent | src/bit_util.rs:17-22 | clearing the high half twice is clearing it once |
| BitUtil.ZeroHighBitsExamples | src/bit_util.rs:42-48 | the four test values for u64, u32, u16 and u8 |
| Interleaving.Wider | src/interleave.rs:4-7 | the wider type of u8, u16, u32, u64 has twice the width |
| Interleaving.Log2BitCount | src/interleave.rs:59-62 | the width of each type is 2^m with 3 <= m <= 7 |
| Interleaving.AsWider | src/interleave.rs:15-17 | `as_wider` keeps the value and the result fits the wider type: a zero extension |
| Interleaving.InterleaveBit | src/interleave.rs:32-55 | bit 2i of the interleave is bit i of rhs and bit 2i + 1 is bit i of lhs |
| Interleaving.InterleaveBound | src/interleave.rs:33 | the interleave of two W-bit values fits in 2W bits |
| Interleaving.InterleaveExamples | src/interleave.rs:75-82 | the five test values of `interleave_bits` |
| Interleaving.Pdep | src/interleave.rs:40-46 | `_pdep_u32` and `_pdep_u64` deposit into the set bits of the mask only, so the result never exceeds the mask |
| Interleaving.PdepInterleave | src/interleave.rs:38-46 | depositing lhs into the odd-bit mask `mask(1) << 1` and rhs into `mask(1)`, then or-ing, is the interleave |
| Interleaving.InterleavePdep | src/interleave.rs:34-51 | the x86 path (32- or 64-bit wider type) returns the interleave |
| Interleaving.Step | src/interleave.rs:64 | one pass of the loop, `(v ^ (v << shift)) & mask(h)`, stays within the W-bit type |
| Interleaving.SpreadFixedInterleaves | src/interleave.rs:58-69 | the corrected loop spreads a low-half input to the even bits: the interleave with zero |
| Interleaving.InterleaveWithZero | src/interleave.rs:58-69 | the corrected loop method runs its log2(W) - 1 steps and returns the spread of a low-half input |
| Interleaving.InterleaveWithZeroAsWritten | src/interleave.rs:58-69 | the loop as written, with shift W/4 .. 1 and mask half length 1 .. W/4, computes `SpreadAsWritten` |
| Interleaving.AsWrittenCounterexample | src/interleave.rs:61-65 | for a 16-bit word the loop as written maps 1 to 0b11, where the interleave with zero is 0b01 |
| Interleaving.AsWrittenCounterexampleFF | src/interleave.rs:61-65 | the same loop maps 0x00FF to 0x0303, where the interleave with zero is 0x5555 |
| Interleaving.AsWrittenInterleaveBits | src/interleave.rs:53-54 | on the portable path `interleave_bits(0u8, 1u8)` as written gives 0b11, not 0b01 |
| Interleaving.ZeroExtendLow | src/interleave.rs:53-54 | `zero_high_bits(v.as_wider())` is v again, in the low half of the wider type |
| Interleaving.SpreadOperand | src/interleave.rs:53-54 | with the corrected loop, one operand zero-extended, cleared and spread is the interleave of zero with it |
| Interleaving.InterleavePortable | src/interleave.rs:53-54 | with the corrected loop, shifting the spread lhs up one bit and or-ing the spread rhs gives the interleave |
| Interleaving.SpreadOperandAsWritten | src/interleave.rs:53-54 | with the loop as written, the zero-extended, cleared operand is spread by `SpreadAsWritten` |
| Interleaving.InterleavePortableAsWritten | src/interleave.rs:53-54 | the portable path as written is `PortableAsWritten`: both operands spread by the loop as written, lhs moved up one bit |
| Interleaving.InterleaveBitsAsWritten | src/interleave.rs:32-55 | `interleave_bits` as written: the interleave on the x86 path with a 32- or 64-bit wider type, `PortableAsWritten` otherwise |
| Interleaving.PortableAsWrittenU8 | src/interleave.rs:36-54 | u8 operands (16-bit wider type) never take the x86 path, and the portable path as written gives `interleave_bits(0, 1)` = 3 where the interleave is 1 |
| Interleaving.InterleaveBits | src/interleave.rs:32-55 | on either path, accelerated or not, the result is the interleave and it fits the wider type |
| HilbertCurve.QuadrantInjective | reference-impl/lib.rs:8-10 | within one orientation, different coordinate bits give different quadrants and different digits |
| HilbertCurve.HilbertIndexBound | reference-impl/lib.rs:6-10 | the index of a point of W levels lies below 4^W |
| HilbertCurve.IndexOrder | src/hilbert_precompute.rs:56-63 | two points that agree above level k are ordered along the curve as their digits at level k |
| HilbertCurve.HilbertIndexInjective | reference-impl/lib.rs:1-15 | different points of the grid have different indices |
| HilbertCurve.ZeroFrames | src/hilbert_precompute.rs:70-80 | above the highest set bit of x and y each level is quadrant (0, 0), so the orientation alternates: transposed at the even levels, never mirrored |
| HilbertCurve.OriginIndex | reference-impl/lib.rs:1-15 | the origin is at distance 0 |
| Reference.RotB | reference-impl/lib.rs:17-27 | `rot_b` keeps both coordinates within u32 |
| Reference.RotBInvolution | reference-impl/lib.rs:17-27 | for fixed (rx, ry), `rot_b` applied twice is the identity |
| Reference.RotBFollowsFrame | reference-impl/lib.rs:17-27 | `rot_b` by a level's quadrant takes the coordinates seen in one orientation to those seen in the orientation of the level below |
| Reference.ReferenceDigit | reference-impl/lib.rs:8-10 | the digit `(3 * rx) ^ ry` is the curve's digit of the quadrant and lies below 4 |
| Reference.ReferenceDigitTable | reference-impl/lib.rs:8-10 | `(3 * rx) ^ ry` maps (0,0), (0,1), (1,1), (1,0) to 0, 1, 2, 3 |
| Reference.Level | reference-impl/lib.rs:7-13 | one pass of the loop keeps its invariant: with n levels left, s is 2^(n-1), xy is the point seen in the current orientation, and d is the digits already read, in place |
| Reference.XY2D | reference-impl/lib.rs:1-15 | `xy2d(x, y)` makes exactly 32 passes and returns `HilbertIndex(x, y, 32)`, which is below 2^64, so the u64 accumulator never overflows |
| Reference.XY2DOrigin | reference-impl/lib.rs:1-15 | `xy2d(0, 0)` is 0 |
| HilbertPrecompute.WidthOf | src/bit_util.rs:24-27 | every type's `bit_count` is a width the struct's operations accept |
| HilbertPrecompute.XyFlipSwap | src/hilbert_precompute.rs:68-96 | the origin returns (0, 0). Otherwise bit i of the returned swap and flip words is the orientation after level i of the point, at every level. The loop runs W minus the leading zeros of x or y times |
| HilbertPrecompute.StartSwap | src/hilbert_precompute.rs:78-82 | the initial words are correct above the highest set bit, and the argument given to `mask_pow2_and_under` is zero or a single bit |
| HilbertPrecompute.SelectLevel | src/hilbert_precompute.rs:90 | `(y ^ xy_mask) & bit` is zero or a single bit, and filling below it sets bits 0..j exactly when bit j is set |
| HilbertPrecompute.SelectLevelBoth | src/hilbert_precompute.rs:91 | the same for `(x ^ xy_mask) & bit & diff` |
| HilbertPrecompute.FlipSwapLevel | src/hilbert_precompute.rs:88-93 | one pass of the loop fixes level n - 1: the words then hold the orientation after each level from n - 1 up, and below it the orientation carried down |
| HilbertPrecompute.FlipAboveTop | src/hilbert_precompute.rs:78-93 | above the highest set bit of x and of y, flip has no bit set and swap is set exactly at the odd levels |
| HilbertPrecompute.New | src/hilbert_precompute.rs:17-35 | `new(x, y)` stores x and y unchanged (the accessors' values), and its words are those `xy_flip_swap` determines |
| HilbertPrecompute.PrecomputedUnique | src/hilbert_precompute.rs:7-25 | two structs built for the same point are equal, so the derived equality of the struct is the equality of the points |
| HilbertPrecompute.Distance | src/hilbert_precompute.rs:38-42 | with the corrected portable loop, `distance()` fits the wider type, and for a struct made by `new` it is `HilbertIndex` of its point |
| HilbertPrecompute.DistanceAsWritten | src/hilbert_precompute.rs:38-42 | `distance()` as written: `HilbertIndex` of the point on the x86 path (u16, u32), and otherwise `PortableAsWritten` of the two kept words |
| HilbertPrecompute.DistanceAsWrittenU8 | src/hilbert_precompute.rs:38-42 | for the u8 struct of (1, 0) the kept words are 0 and 1, so the distance as written is 3, while `HilbertIndex(1, 0, 8)` is 1 |
| HilbertPrecompute.DistanceAsWrittenExample | src/hilbert_precompute.rs:17-42 | `new(1, 0).distance()` for u8, as written, is 3 on every target, where the Hilbert index is 1 |
| HilbertPrecompute.DistanceIsIndex | src/hilbert_precompute.rs:38-42 | the interleave of `x ^ diff` and `x ^ y` is the Hilbert index, at the origin and elsewhere |
| HilbertPrecompute.IndexFromInterleave | src/hilbert_precompute.rs:39-41 | from any level lo up, the index digits are the interleave of the two words shifted right by lo |
| HilbertPrecompute.XyLocalDist | src/hilbert_precompute.rs:98-110 | the result keeps bit k = W - log2_n - 1 of `x ^ y` at bit k and bit k of `x ^ diff` at bit W + k |
| HilbertPrecompute.KeepLevel | src/hilbert_precompute.rs:102-109 | the 2W-bit mask selects bit k of b and bit W + k of `a << W` and nothing else |
| HilbertPrecompute.KeptBits | src/hilbert_precompute.rs:102-109 | the local distance has set bits only at positions k and W + k, and fits in 2W bits |
| HilbertPrecompute.PartialCmp | src/hilbert_precompute.rs:52-66 | `partial_cmp` always returns `Some` |
| HilbertPrecompute.HighestLevel | src/hilbert_precompute.rs:56 | the level `partial_cmp` looks at, k = W - 1 - matching_prefix, is one where the points differ, and they agree on every level above it |
| HilbertPrecompute.LocalOrder | src/hilbert_precompute.rs:61-63 | the two-bit local digits read with the stored point's orientation order two quadrants as the curve's digits do, also in the unrotated frame of the origin |
| HilbertPrecompute.LocalCompare | src/hilbert_precompute.rs:61-63 | comparing the two local distances is comparing the two local digits |
| HilbertPrecompute.PartialCmpMatchesIndex | src/hilbert_precompute.rs:52-66 | for a struct made by `new` and any point of the grid, `partial_cmp` is `Some` of the comparison of their Hilbert indices |
| HilbertPrecompute.Eq | src/hilbert_precompute.rs:45-50 | `eq` compares the stored point with the tuple, field by field |
| HilbertPrecompute.EqMatchesPartialCmp | src/hilbert_precompute.rs:45-66 | `eq` holds exactly when `partial_cmp` returns `Some(Equal)`, for any words |
| HilbertPrecompute.LocalDiffer | src/hilbert_precompute.rs:57-63 | points that differ at level k have different local distances there |
| ReferenceTests.TestBruteDistance | reference-impl/lib.rs:34-46 | for every point of the 32 x 32 grid, `xy2d` equals `new(x0, y0).distance()`, on the x86 path and with the corrected portable loop |
| ReferenceTests.CompareRow | reference-impl/lib.rs:57-62 | for a fixed struct, every point of the grid compares as the two `xy2d` values do |
| ReferenceTests.TestBruteCompare | reference-impl/lib.rs:48-65 | for every pair of points of the grid, `xy2d(x0, y0).partial_cmp(&xy2d(x1, y1))` equals `new(x0, y0).partial_cmp(&(x1, y1))` |

## Left out

- The target test `cfg!(target_arch = ...)` is the parameter `accelerated`.
- `_pdep_u32` and `_pdep_u64` are the function `Pdep`, defined by the semantics of the BMI2 instruction in Intel's manual.
- The `num_traits` conversions `to_u32().unwrap()`, `to_u64().unwrap()`, `from_u32` and `from_u64` are the identity: the values always fit.
- `cfg(has_i128)` is taken as set, so u64 is interleavable into u128.
- The generic type parameter T is `UInt` and its width. In `HilbertPrecompute`, `xy_flip_swap`, `new`, `xy_local_dist` and `partial_cmp` take the width W directly. `distance` keeps the type, because it calls `interleave_bits`.
- In `xy_local_dist`, `as_wider` is the identity on values (`Interleaving.AsWider`). The masking is done in 2W bits.
- The accessors `x()` and `y()` are the datatype fields `x` and `y`.
- The derived `Hash`, `Clone` and `Copy` are not modelled. The derived whole-struct `PartialEq` is datatype equality, and `PrecomputedUnique` relates it to the point.
- The struct is a datatype and `new` a method, because `xy_flip_swap` is a loop.
- `distance` is a method because the portable interleave is a loop.
- HilbertPrecompute.Distance: the portable path is the corrected loop, not the loop as written. As written, the u8 `new(1, 0).distance()` is 3 where the Hilbert index is 1 (`DistanceAsWrittenU8`).
- Interleaving.SpreadOperand: it spreads with the corrected loop. The crate's own spread is `SpreadOperandAsWritten`.
- Interleaving.InterleavePortable: it spreads with the corrected loop. The crate's own portable path is `InterleavePortableAsWritten`.
- ReferenceTests.TestBruteDistance: it runs `Distance`, so its portable path is the corrected loop. As written, the portable path does not give the Hilbert index, so `test_brute_distance` cannot be expected to pass off x86. The model proves that discrepancy for u8 (`DistanceAsWrittenU8`), not for the u32 grid of the test.
- BitUtil.MaskPow2AndUnder: the debug assertion is a precondition. What a release build returns for other inputs is not modelled.
- The benchmarks and the crate root's re-exports have no behaviour and are not part of this model.

## Findings

| source | as written | input that shows it | evidently intended | confidence | as-written member | corrected member |
|---|---|---|---|---|---|---|
| src/interleave.rs:61-65 | `mask_half_len` starts at 1 and doubles, while `shift` starts at W/4 and halves, so the step that shifts by W/4 keeps runs of only 1 bit | a 16-bit word: `interleave_with_zero(1)` is 0b11 and `interleave_with_zero(0x00FF)` is 0x0303; so `interleave_bits(0u8, 1u8)` on the portable path is 0b11, and the u8 `new(1, 0).distance()` is 3 where the Hilbert index is 1 | each step keeps runs as long as its shift, `mask(shift)`, which spreads bit i to bit 2i (0b01 and 0x5555) | not executed | Interleaving.InterleaveWithZeroAsWritten, Interleaving.AsWrittenCounterexample, Interleaving.AsWrittenCounterexampleFF, Interleaving.AsWrittenInterleaveBits, Interleaving.InterleaveBitsAsWritten, Interleaving.PortableAsWrittenU8, HilbertPrecompute.DistanceAsWritten, HilbertPrecompute.DistanceAsWrittenU8 | Interleaving.InterleaveWithZero, Interleaving.SpreadFixedInterleaves, Interleaving.SpreadOperand, Interleaving.InterleavePortable, Interleaving.InterleaveBits, HilbertPrecompute.Distance, ReferenceTests.TestBruteDistance |

The crate's own `interleave_bits` tests use u32 operands. On x86 these take
the parallel-deposit path, which is correct, so the tests do not reach the
portable loop.

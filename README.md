# bigint-unboxed in Dafny

A model of the two core files of bigint-unboxed, an immutable arbitrary-precision integer
library for JavaScript, with proofs of what each operation computes.

- `minimal.js` is the limb engine. An integer is `Int(neg, val, len)`: a sign and the
  first `len` entries of `val`, base-2^26 limbs stored least significant first. The model
  keeps this record as the datatype `MinimalInt.Int` and ties it to the integer it denotes
  through the ghost function `Value` (`Mag` for the magnitude). Every operation that
  works by loops (carry and borrow propagation, the product's columns, limb shifting,
  Knuth's long division with its quotient-digit correction, hex packing, decimal
  grouping) is a `method` over local limb sequences, proved against that abstraction:
  the result is canonical (trimmed, no negative zero) and `Value(r)` is the exact sum,
  difference, product, quotient, shifted value or two's-complement combination.
- `smallopt.js` is a dispatch layer over a backend `B`. It keeps an integer as a plain
  JavaScript number while it lies strictly inside (-2^53, 2^53) and otherwise hands the
  work to `B`. The model is the module `SmallOpt`. A value is `Num(n)` or `Big(b)`, and
  `B` is an exact backend. Each operation is a function whose contract states the exact
  result, when it stays a number, and that a backend value never becomes a number again.

Shared definitions:
- `Arith` holds floor and truncating division.
- `Limbs` holds the value of a limb sequence.
- `Bitwise` and `BitBlocks` hold the two's-complement reference `IntOp` over unbounded
  integers.
- `Numerals` holds the hexadecimal value of a numeral and the decimal rendering of an
  integer.

## Model

| member | source | states |
|---|---|---|
| MinimalInt.NewInt | minimal.js:13-21 | trims zero limbs down to len ≥ 1 and clears the sign of zero: the result is canonical, keeps `val`, and denotes ±(value of the first `len` limbs) |
| MinimalInt.CanonicalUnique | minimal.js:13-21 | two canonical Ints with the same value have the same sign, length and limbs: every integer has one representation |
| MinimalInt.LongerIsLarger | minimal.js:391-403 | a canonical Int with fewer limbs has the smaller magnitude, which is what intCmp's length test relies on |
| MinimalInt.IsZero | minimal.js:323-325 | izero holds exactly when the value is 0 |
| MinimalInt.IAbs | minimal.js:86-88 | iabs is canonical, nonnegative, of value \|x\| and the same length |
| MinimalInt.Bits | minimal.js:55-57 | ibits is the bit length of the magnitude: 2^(r-1) ≤ \|x\| < 2^r for nonzero x |
| MinimalInt.Cmp | minimal.js:391-403 | the result is -1, 0 or 1, and is -1, 0 or 1 exactly when x < y, x = y or x > y |
| MinimalInt.Neg | minimal.js:431-433 | canonical, value -x, same limbs and length |
| MinimalInt.NegNeg | minimal.js:431-433 | negating twice gives back the same Int, zero included |
| MinimalArith.Add | minimal.js:90-110 | canonical and exactly x + y; opposite signs summing to 0 give ZERO |
| MinimalArith.AddLimbs | minimal.js:100-109 | the carry loop: limbs whose value is the sum, one limb longer only with a top limb 1 |
| MinimalArith.Sub | minimal.js:112-135 | canonical and exactly x - y; equal operands give ZERO |
| MinimalArith.SubLimbs | minimal.js:127-134 | the borrow loop for a larger minuend: same length, value of the difference |
| MinimalArith.Addn | minimal.js:193-211 | for \|y\| < 2^26: canonical and exactly x + y |
| MinimalArith.CarryLimbs | minimal.js:200-210 | the in-place carry of a small addend: value grows by y, one limb longer only with top limb 1 |
| MinimalArith.Subn | minimal.js:213-229 | for \|y\| < 2^26: canonical and exactly x - y |
| MinimalArith.BorrowLimbs | minimal.js:218-228 | the in-place borrow of a small subtrahend not above the magnitude: same length, value less y |
| MinimalArith.Mul | minimal.js:405-425 | canonical and exactly x · y |
| MinimalArith.MulLimbs | minimal.js:406-424 | the column loop: value of the product, length \|x\|+\|y\|-1 or \|x\|+\|y\| with a nonzero top limb |
| MinimalArith.ColumnSum | minimal.js:411-417 | one column's sum of limb products, nonnegative |
| MinimalShift.Shl | minimal.js:162-191 | canonical and exactly x · 2^y |
| MinimalShift.ShlLimbs | minimal.js:162-191 | the bit loop then the limb move: value of the limbs times 2^bits · SHIFT^s |
| MinimalShift.ShlBitsLimbs | minimal.js:169-180 | the bit loop: value times 2^bits, one limb longer only with a nonzero carry limb |
| MinimalShift.ShlWordsLimbs | minimal.js:182-188 | the limb move: s zero limbs below the old limbs, value times SHIFT^s |
| MinimalShift.Shr | minimal.js:137-160 | canonical and floor(x / 2^y), negatives through -(shr(-(x+1))) - 1 |
| MinimalShift.ShrLimbs | minimal.js:147-158 | the move and bit loops: value of the limbs above s, divided by 2^bits |
| MinimalShift.MoveDown | minimal.js:152-153 | the move loop: the limbs from s up land at the bottom |
| MinimalDivide.Shlsubmul | minimal.js:231-261 | for a nonnegative x and a difference above -SHIFT^(y.len+shift): canonical and exactly x - y·mul·SHIFT^shift, negative results included |
| MinimalDivide.SubMulLimbs | minimal.js:238-249 | the subtract-multiple loops: limbs and final carry account exactly for x - y·mul·SHIFT^shift |
| MinimalDivide.NegateLimbs | minimal.js:254-259 | the negation loop: limbs and carry account for -value |
| MinimalDivide.QuotientDigit | minimal.js:292-299 | one step of the digit loop: a digit below SHIFT and a nonnegative remainder x - y·d·SHIFT^j below y·SHIFT^j |
| MinimalDivide.EstimateDigit | minimal.js:293-294 | the two-limb estimate, capped at MASK, is never too small and overshoots by less than SHIFT^(y.len+j) |
| MinimalDivide.CorrectDigit | minimal.js:295-299 | the correction loop ends with the exact digit and a nonnegative remainder below y·SHIFT^j |
| MinimalDivide.Normalize | minimal.js:273-280 | shifting both operands left so that y's top limb has its high bit set: values scaled by the same 2^shift, y.len kept |
| MinimalDivide.TopQuotientDigit | minimal.js:282-290 | the top digit, with zero digits below it, leaves a nonnegative remainder below y·SHIFT^m: x = digits·y + remainder |
| MinimalDivide.DivideNormalized | minimal.js:282-300 | the digit loop: digits whose value is x / y and a remainder x % y |
| MinimalDivide.LongDivision | minimal.js:270-301 | for 0 < y ≤ x nonnegative: quotient x / y and remainder x % y |
| MinimalDivide.Divmod | minimal.js:263-302 | for nonzero y: quotient truncated toward zero and remainder zero or signed like x, (0, 0) for x = 0 and (0, x) for \|x\| < \|y\| |
| MinimalDivide.TruncOfMagnitudes | minimal.js:266-269 | the sign rules of the negative branch: truncated quotient and remainder from the magnitudes' |
| MinimalDivide.Quot | minimal.js:439-441 | intQuot is the truncated quotient |
| MinimalDivide.Rem | minimal.js:435-437 | intRem is the remainder signed like x |
| MinimalDivide.FloorOfTrunc | minimal.js:334-342 | the adjustment intDiv and intMod make (-1 and +y exactly when the remainder is nonzero and signed unlike y) turns truncated into floor division |
| MinimalDivide.Div | minimal.js:334-337 | intDiv is floor(x / y) |
| MinimalDivide.Mod | minimal.js:339-342 | intMod is x - floor(x / y)·y, zero or signed like y |
| MinimalBitwise.Convert | minimal.js:353-355 | a negative operand plus 2^(bits+1) is its two's-complement residue |
| MinimalBitwise.Operands | minimal.js:345-355 | the swap, the bit count and the conversion: residues modulo 2^(bits+1) of operands below 2^bits in magnitude |
| MinimalBitwise.LimbLoop | minimal.js:356-373 | limb j of the copy of x combined with limb j of y for j below y.len, the rest copied |
| MinimalBitwise.Combine | minimal.js:356-375 | the loop and new Int(0, z, len): the combined magnitudes modulo SHIFT^len |
| MinimalBitwise.Bitop | minimal.js:344-377 | corrected ibitop (result length taken over both converted operands): exactly the two's-complement AND, OR or XOR, negative exactly by the sign rule |
| MinimalBitwise.BitopAsWritten | minimal.js:344-377 | ibitop as written: exact except when OR or XOR meets a nonnegative longer x and a negative y, where the result is cut to the converted x's length |
| MinimalBitwise.TruncatedOr | minimal.js:356 | 2^25 \| -1 as written gives -(2^26+1), while two's-complement OR gives -1 |
| MinimalBitwise.IntAnd | minimal.js:379-381 | two's-complement AND, negative exactly when both operands are |
| MinimalBitwise.IntOr | minimal.js:383-385 | over the corrected Bitop: two's-complement OR, negative exactly when either operand is |
| MinimalBitwise.IntXor | minimal.js:387-389 | over the corrected Bitop: two's-complement XOR, negative exactly when one operand is |
| MinimalBitwise.IntNot | minimal.js:427-429 | -x - 1, which equals XOR with -1 |
| Bitwise.IntOpSign | minimal.js:361-372 | the sign rule of ibitop is right: AND is negative iff both are, OR iff either is, XOR iff exactly one is |
| Bitwise.TwosComplement | minimal.js:354-375 | working on residues modulo 2^(n+1) gives the residue of the two's-complement result, which stays inside (-2^n, 2^n) |
| Bitwise.ViaResidues | minimal.js:354-376 | the result is the combined residues, less 2^(n+1) exactly when the sign rule says negative |
| Bitwise.XorAllOnes | minimal.js:427-429 | XOR with -1 is -x - 1 |
| MinimalText.Divn | minimal.js:312-321 | for y ≥ 1: canonical, magnitude \|x\| / y and value truncated toward zero |
| MinimalText.DivnLimbs | minimal.js:314-320 | the loop from the top limb down: quotient limbs and the final carry x % y |
| MinimalText.Modn | minimal.js:304-310 | the Horner loop with p = SHIFT mod y gives \|x\| mod y |
| MinimalText.ToString | minimal.js:27-37 | the decimal rendering of the value: minus sign for negatives, no leading zeros |
| MinimalText.DecimalGroups | minimal.js:30-35 | the loop of 7-digit groups, zero-padded except the top one, spells the magnitude |
| MinimalText.StringToInt | minimal.js:59-84 | for an optional '-' and one or more hex digits of either case: canonical, of the signed base-16 value |
| MinimalText.SignedDigits | minimal.js:60 | a leading '-' negates the value of the digits that follow it |
| MinimalText.ReadGroup | minimal.js:66-81 | one pass of the outer loop: the next 6 digits from the right are packed, and the limbs hold the value of all digits read |
| MinimalText.GroupValue | minimal.js:67-74 | the inner loop: a group of at most 6 hex digits has its base-16 value, below 2^24 |
| MinimalText.PutGroup | minimal.js:75-81 | or-ing a 24-bit group at bit offset off across limbs j and j+1 adds group · 2^off · SHIFT^j and advances (j, off) by 24 bits |
| MinimalText.FromSmall | minimal.js:43-53 | float64ToInt on an integer below 2^53 in magnitude: canonical, of that value |
| MinimalText.SmallMagnitude | minimal.js:48-50 | the one, two or three limbs of a magnitude below 2^53 |
| Numerals.DecimalRoundTrip | minimal.js:27-37 | the decimal rendering reads back as the same integer |
| SmallOpt.Wrap | smallopt.js:20-22 | a number goes to the backend unchanged in value; a backend value stays as it is |
| SmallOpt.I | smallopt.js:24-26 | a number stays a number, a string becomes a backend value of its hexadecimal value |
| SmallOpt.Cmp | smallopt.js:32-34 | -1, 0 or 1 by the order of the denoted integers, numbers or not |
| SmallOpt.Div | smallopt.js:36-38 | floor division; a number result exactly when both operands are numbers |
| SmallOpt.SmallMod | smallopt.js:40-44 | x % y, moved by y when nonzero and signed unlike y, is the floor remainder |
| SmallOpt.TruncToFloor | smallopt.js:42-43 | the floor remainder is the truncated remainder, plus y exactly when nonzero and signed unlike y |
| SmallOpt.Mod | smallopt.js:40-46 | the floor remainder; a number exactly when both operands are numbers |
| SmallOpt.DivModLaw | smallopt.js:36-46 | x = div·y + mod with \|mod\| < \|y\| and mod zero or signed like y |
| SmallOpt.Add | smallopt.js:48-55 | exact sum; a number exactly when both are numbers and the sum lies inside (-2^53, 2^53) |
| SmallOpt.Sub | smallopt.js:57-64 | exact difference; a number exactly when both are numbers and the difference lies inside the range |
| SmallOpt.Mul | smallopt.js:66-73 | exact product; a number exactly when both are numbers and the product lies inside the range |
| SmallOpt.SmallBitop | smallopt.js:75-86 | ibitop on numbers: the 32-bit halves of the residues modulo 2^53, recombined, less 2^53 by the sign rule, are the two's-complement result in [-2^53, 2^53) |
| SmallOpt.SmallBitopValue | smallopt.js:76-85 | the split into floor(·/2^32) and the low 32 bits, combined half by half, gives the two's-complement result |
| SmallOpt.BitopAsWritten | smallopt.js:75-98 | dispatch as written: exact value, a number exactly when both operands are, the number possibly -2^53 |
| SmallOpt.BitopLeavesRange | smallopt.js:81 | -(2^53-1) & -(2^53-2) is -2^53, kept as a number outside the range |
| SmallOpt.Bitop | smallopt.js:75-98 | corrected dispatch: exact value, results outside the range to the backend, otherwise the same as written |
| SmallOpt.IntAnd | smallopt.js:88-90 | over the corrected Bitop: two's-complement AND, negative exactly when both are |
| SmallOpt.IntOr | smallopt.js:92-94 | over the corrected Bitop: two's-complement OR, negative exactly when either is |
| SmallOpt.IntXor | smallopt.js:96-98 | over the corrected Bitop: two's-complement XOR, negative exactly when one is |
| SmallOpt.ToInt32 | smallopt.js:101 | the 32-bit reading ~ applies: in [-2^31, 2^31), the identity there |
| SmallOpt.NotAsWritten | smallopt.js:100-102 | ~x on a number is -x - 1 only inside the 32-bit range; a backend value gives -x - 1 |
| SmallOpt.NotTruncates | smallopt.js:101 | ~2^31 is 2^31 - 1, not -2^31 - 1 |
| SmallOpt.Not | smallopt.js:100-102 | corrected: -x - 1 (XOR with -1), a number exactly when that lies in the range, as written inside the 32-bit range |
| SmallOpt.Neg | smallopt.js:104-106 | -x, a number exactly when x is |
| SmallOpt.Rem | smallopt.js:108-110 | the truncated remainder, a number exactly when both are |
| SmallOpt.SmallQuot | smallopt.js:112-114 | 0 for x = 0, floor when the signs agree, -floor(-x/y) otherwise: the truncated quotient |
| SmallOpt.Quot | smallopt.js:112-116 | the truncated quotient, a number exactly when both are |
| SmallOpt.QuotRemLaw | smallopt.js:108-116 | x = quot·y + rem with \|rem\| < \|y\| and rem zero or signed like x |
| SmallOpt.Shl | smallopt.js:118-125 | x · 2^y, a number exactly when x is, y < 53 and the product lies inside the range |
| SmallOpt.ShlGuard | smallopt.js:119 | for a nonzero number, y ≥ 53 already puts the product outside the range |
| SmallOpt.SmallShr | smallopt.js:128-131 | on numbers: floor(x / 2^y), inside the range |
| SmallOpt.ShrBeyond | smallopt.js:129-130 | for y > 53 the floor quotient of a number is -1 or 0 by its sign |
| SmallOpt.Shr | smallopt.js:127-134 | floor(x / 2^y), a number exactly when x is |

## Left out

- MinimalBitwise.IntAnd: the model reads every limb at or above `len` as 0 (`Digit`, `Pad`). In the source the copies `x.val.slice(0)` in intShl and intShr (minimal.js:147-158, 163) keep old limbs above the new `len`. The AND loop of ibitop (minimal.js:356-362) reads them when the converted y has more limbs than the converted x. For X = (2^25+1)·(2^26+1), intAnd(intShr(X, 26), -1) gives 2^25+1+2^26 in the source, while IntAnd states 2^25+1. The model therefore covers Ints whose limbs above `len` are zero or never read.
- MinimalBitwise.BitopAsWritten: the same reading of limbs above `len` as 0 in its AND branch.
- MinimalShift.Shr: the result holds only the shifted limbs. The source's copy keeps x's old limbs above the new `len`, and also writes `z[-1]` once (minimal.js:154-158), a property slot of the array that nothing reads.
- MinimalShift.Shl: the result holds only the shifted limbs, for the same reason.
- MinimalDivide.Divmod: requires a nonzero divisor. The source does not guard y = 0: it returns (0, 0) for x = 0, and otherwise divides by a zero top limb.
- MinimalDivide.Div: requires a nonzero divisor, as Divmod does.
- MinimalDivide.Mod: requires a nonzero divisor, as Divmod does.
- MinimalDivide.Quot: requires a nonzero divisor, as Divmod does.
- MinimalDivide.Rem: requires a nonzero divisor, as Divmod does.
- SmallOpt.Div: requires a nonzero divisor. JavaScript division by 0 gives an infinity or NaN, and B's is unguarded.
- SmallOpt.Mod: requires a nonzero divisor, as Div does.
- SmallOpt.Quot: requires a nonzero divisor, as Div does.
- SmallOpt.Rem: requires a nonzero divisor, as Div does.
- MinimalText.StringToInt: requires an optional '-' followed by at least one hexadecimal digit. Other characters decode to meaningless limbs (minimal.js:69-73), and the empty string builds an Int with `len` 0 (minimal.js:61, 83).
- MinimalText.FromSmall: takes an integer with \|n\| < 2^53 in place of float64ToInt's double (minimal.js:43-53). Fractional values, infinities, NaN, -0 and the hard-coded third limb 1 (only right below 2^53) are not modelled.
- MinimalText.ToString: the fast path through intToFloat64(a).toString() for short values (minimal.js:28-29) is given the same decimal rendering. intToFloat64 (minimal.js:327-332) is floating point and is not part of this model.
- MinimalShift.Shl: the shift count is a natural number. JavaScript's `%`, `<<` and `>>>` on counts and limbs are given their integer meaning on the ranges the code uses. Negative, fractional or very large counts are not modelled.
- MinimalArith.Mul: the two-level carry (`ncarry`, `hncarry`, `(r / SHIFT) | 0`, minimal.js:410-418) exists to keep doubles exact and is modelled as exact integer column sums.
- MinimalDivide.Shlsubmul: `(right / SHIFT) | 0` (minimal.js:242) is modelled as exact integer division. The precondition bounds the negative difference by SHIFT^(y.len+shift), the bound every caller meets.
- SmallOpt numbers are mathematical integers in (-2^53, 2^53). IEEE-754 rounding, -0, NaN and `Math.floor` on non-integers are not modelled. `intToFloat64` (smallopt.js:28-30) is floating point and is not part of this model.
- SmallOpt.SmallBitop: `&`, `|`, `^` and `>>> 0` on the 32-bit halves are given their integer meaning on nonnegative values below 2^32.
- The backend B of smallopt.js is an exact integer backend: `Big(b)` holds the integer it denotes. native.js (host BigInt) and index.js (backend selection) are not part of this model.

## Findings

| source | as written | input that shows it | evidently intended | confidence | as-written member | corrected member |
|---|---|---|---|---|---|---|
| minimal.js:356 | ibitop starts with `len = x.len` of the converted longer x, and OR and XOR keep it, although their loops write up to the converted y's length | intOr(2^25, -1): bits = 26, the converted -1 is 2^27 - 1 with two limbs, the upper one is dropped, result -(2^26+1), as MinimalBitwise.TruncatedOr shows | the two's-complement OR, -1; the length should be the larger of the two converted lengths | not executed | MinimalBitwise.BitopAsWritten | MinimalBitwise.Bitop |
| smallopt.js:75-86 | ibitop on two numbers returns its result as a number even when it is -2^53, outside the range the layer keeps numbers in | intAnd(-(2^53-1), -(2^53-2)) is -2^53; so is intXor(-1, 2^53-1); SmallOpt.BitopLeavesRange shows the first | hand -2^53 to B, as intAdd, intSub and intMul do with results outside the range | not executed | SmallOpt.BitopAsWritten | SmallOpt.Bitop |
| smallopt.js:100-102 | intNot on a number is JavaScript's `~x`, which works on the 32-bit ToInt32(x) | intNot(2^31) gives 2^31 - 1; intNot(2^32) gives -1; SmallOpt.NotTruncates shows the first | -x - 1 for every number, as minimal.js's intNot gives | not executed | SmallOpt.NotAsWritten | SmallOpt.Not |

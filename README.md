# fixed_point_math in Dafny

A model of the header-only C++ fixed-point library `fixed_point`. The core type
is `fixed<T, fraction>`: a raw integer `v` held in an 8-, 16- or 32-bit signed
or unsigned integer `T`, standing for the value `v / 2^fraction`. The model
covers the representation (`include/fixed_point_type.hpp`) and the arithmetic
engine (`include/fixed_point_math.hpp`). It is split into six modules:

- `Arith`: powers of two, C++ truncating division (`TruncDiv`), congruence
  modulo m, and the reduction of an integer into a window of m values.
- `FixedType`: the format `(width, signed, fraction)`, the value `Fixed(v)`
  and the wrap-around into `T` (`Wrap`). It also holds the integer and helper
  constructors, the static bounds, `to_int`, `whole_part` and `frac_part`,
  cross-format conversion, `fp_from_bits` and `make_fixed`.
- `Literal`: the `_fixp_t` literal operator as a method with its two loops.
  The first loop scans the characters; the second does 64 doubling steps of
  long division.
- `Render`: `to_string` as a method that fills a 12-character array in place.
- `FixedMath`: `+ - * /` and unary `-`, both divisions, `abs`, `<=>` and `==`,
  and the closeness predicates. It also holds the overloads taking a literal
  helper on either side, and the compound assignments as methods of a class
  `FixedRef` whose raw value they update.
- `Sqrt`: `approx_sqrt`, `better_approx_sqrt` and `sqrt`, with the Newton
  step facts the three stages rest on.

Modelling choices:

- The raw value is an unbounded `int`. Every store into `T` goes through
  `Wrap`: two's-complement or unsigned reduction modulo 2^width.
- The arithmetic right shift is floor division by a power of two. C++ `/` is
  `TruncDiv`, and C++ `%` is written out where its sign matters.
- Multiplication and division work in the double-width integer, which never
  overflows for the supported widths (`ScaledFits`, `ProductBound`).
- The literal helper is one datatype `Helper(whole, frac, negative)`, with
  `frac` the 64-bit binary fraction `frac / 2^64`. The character array the
  source keeps in the helper plays no part in its behaviour.
- A format is valid when the width is 8, 16 or 32 and `0 < fraction < width`.
  64-bit `T` is refused at compile time by `*` and `/`.

Where the library's own description and the code differ:

- The unsigned branch of `correctly_rounded_division` subtracts half the
  divisor instead of adding it (see Findings). The model keeps both the
  branch as written and the intended rounding. `sqrt` calls the branch as
  written, and so does the model. In `fixed<uint8_t, 4>` the square root
  of 4.0 therefore comes out as raw 31, not 32 (`Sqrt.SqrtOfFourUnsigned`).
- `sqrt` of zero divides by zero in every format with 10 or fewer fraction
  bits, signed or unsigned. With 11 or more it divides by zero only where
  `make_fixed(2)` is zero (`Sqrt.SqrtOfZeroDefined`). Each loop pass halves
  the guess. Unless the guess started at 16 or more, it reaches zero by the
  end of the four passes, and a pass or the final division then divides by
  it.
- `make_fixed(2)` is zero when `fraction == width - 1`, signed or unsigned.
  Then `sqrt` divides by zero for every radicand (`Sqrt.MakeTwoVanishes`).
- `to_string` misprints the signed minimum and fractions where `10 * frac`
  overflows `T`. Here the model does not follow the code: `Render.ToString`
  is the intended printer, and the code's misprints are shown by the
  as-written members in Findings.

So `Sqrt.Sqrt` requires `SqrtDefined`: no divisor on its path is zero. For
a positive radicand this holds whenever no pass wraps and `make_fixed(2)` is
not zero (`Sqrt.SqrtDefinedWithoutWrap`).

## Model

| member | source | states |
|---|---|---|
| FixedType.Wrap | include/fixed_point_type.hpp:109 | storing an integer into T gives the unique representable value congruent to it modulo 2^width; a value already in range is kept |
| FixedType.WrapAdd | include/fixed_point_math.hpp:7-10 | wrapping an intermediate sum does not change the wrapped final sum |
| FixedType.WrapNeg | include/fixed_point_math.hpp:65-68 | wrapping before negating gives the same stored result as negating the exact value |
| FixedType.WrapMul | include/fixed_point_math.hpp:70-91 | wrapping a factor before multiplying does not change the wrapped product |
| FixedType.FromBits | include/fixed_point_type.hpp:229-234 | `fp_from_bits` stores its argument as the raw value, reduced modulo 2^width, and unchanged when in range |
| FixedType.WholeBits | include/fixed_point_type.hpp:145-151 | whole bits + fraction bits + sign bit == width |
| FixedType.HiSplits | include/fixed_point_type.hpp:161-176 | the raw range is [-2^(width-1), 2^(width-1)) when signed and [0, 2^width) when unsigned, and its top is supremum_as_int * 2^fraction |
| FixedType.SupremumAsInt | include/fixed_point_type.hpp:161-163 | `supremum_as_int` is 2^whole_bits, one past the largest whole number |
| FixedType.MaxAsInt | include/fixed_point_type.hpp:165-167 | `max_as_int == supremum_as_int - 1`, and its successor scaled is the top of the raw range |
| FixedType.MinimumAsInt | include/fixed_point_type.hpp:169-176 | `minimum_as_int` is `-supremum_as_int` when signed and 0 otherwise; scaled, it is the least raw value |
| FixedType.FracMask | include/fixed_point_type.hpp:153-155 | `frac_mask` is 2^fraction - 1 |
| FixedType.FromInt | include/fixed_point_type.hpp:98-100 | the integer constructor and `make_fixed(T)` store i * 2^fraction, exactly when i lies in [minimum_as_int, max_as_int] |
| FixedType.ToInt | include/fixed_point_type.hpp:178-180 | `to_int` is the floor of v / 2^fraction and lies within the integer bounds for any representable v |
| FixedType.IntRoundTrip | include/fixed_point_type.hpp:98-100 | `fixed(i).to_int() == i` for every i from minimum_as_int to max_as_int |
| FixedType.WholePart | include/fixed_point_type.hpp:182-184 | `whole_part` is a multiple of 2^fraction within 2^fraction below v |
| FixedType.FracPart | include/fixed_point_type.hpp:186-188 | `frac_part` lies in [0, 2^fraction) and is congruent to v modulo 2^fraction |
| FixedType.WholeFracSplit | include/fixed_point_type.hpp:182-188 | `whole_part() + frac_part() == v` |
| FixedType.Convert | include/fixed_point_type.hpp:121-139 | same fraction: a cast (congruent modulo the new width); fewer fraction bits: congruent to the floor division by 2^difference on every input; more: congruent to the product by 2^difference on every input; equal to these whenever the result fits |
| FixedType.ConvertRoundTrip | include/fixed_point_type.hpp:128-137 | widening the fraction and narrowing it back returns the original value when the wider format holds it |
| FixedType.NegateHelper | include/fixed_point_type.hpp:69-73 | helper unary minus flips the sign flag and keeps whole and fraction |
| FixedType.PlusHelper | include/fixed_point_type.hpp:75-78 | helper unary plus is the identity |
| FixedType.NegateHelperInvolutive | include/fixed_point_type.hpp:69-78 | double negation of a helper is the identity, and unary plus commutes with unary minus |
| FixedType.RoundedMagnitudeNearest | include/fixed_point_type.hpp:105-106 | the magnitude the helper constructor computes, `(whole << F) + (frac >> (64-F)) + bit 63-F`, is within half a unit of the exact whole + frac/2^64, with halves rounded up |
| FixedType.RoundedMagnitude | include/fixed_point_type.hpp:105-106 | the magnitude lies between whole * 2^fraction and one unit above it, because `frac >> (64 - fraction)` is below 2^fraction; so the `|` of the source is the `+` of the model |
| FixedType.FromHelper | include/fixed_point_type.hpp:102-110 | the helper constructor stores the rounded magnitude, negated iff the flag is set, reduced into T |
| FixedType.NegatedLiteral | include/fixed_point_type.hpp:102-110 | a negated literal gives exactly the wrapped raw negation of the positive literal |
| Literal.DecimalValueBounds | include/fixed_point_type.hpp:36-48 | k decimal digits denote a value in [0, 10^k) |
| Literal.ScanDigits | include/fixed_point_type.hpp:28-53 | the scan stops at the first character that is neither a digit nor a dot; otherwise `whole` is the value of the digits before the first dot, `frac` that of the digits after it, and `one` is 10^(number of fraction digits) |
| Literal.BinaryFraction | include/fixed_point_type.hpp:54-62 | 64 doubling steps of long division give `floor(frac * 2^64 / one)`, a 64-bit value |
| Literal.ParseLiteral | include/fixed_point_type.hpp:21-67 | the literal fails iff it is empty or has a character other than a digit or a dot (reporting which); otherwise it yields a non-negative helper with the decimal whole part and the fraction as floor(F * 2^64 / 10^k) |
| FixedMath.Add | include/fixed_point_math.hpp:7-10 | the sum is the wrapped exact sum of the raw values |
| FixedMath.Sub | include/fixed_point_math.hpp:36-39 | the difference is the wrapped exact difference of the raw values |
| FixedMath.Neg | include/fixed_point_math.hpp:65-68 | unary minus is the wrapped exact negation |
| FixedMath.AddNegIsZero | include/fixed_point_math.hpp:7-10 | `(a + (-a)).v == 0` |
| FixedMath.SubUndoesAdd | include/fixed_point_math.hpp:36-39 | `(a + b) - b == a` for every representable a |
| FixedMath.AddUndoesSub | include/fixed_point_math.hpp:7-10 | `(a - b) + b == a` for every representable a |
| FixedMath.AddCommutative | include/fixed_point_math.hpp:7-10 | `a + b == b + a` |
| FixedMath.AddAssociative | include/fixed_point_math.hpp:7-10 | `(a + b) + c == a + (b + c)`, wrap-around included |
| FixedMath.NegInvolutive | include/fixed_point_math.hpp:65-68 | `-(-a) == a` for every representable a, the signed minimum included |
| FixedMath.SubIsAddNeg | include/fixed_point_math.hpp:36-39 | `a - b == a + (-b)` |
| FixedMath.AddIntegers | include/fixed_point_math.hpp:7-10 | whole numbers add exactly while the sum is in range, and `to_int` of the sum is i + j |
| FixedMath.SubIntegers | include/fixed_point_math.hpp:36-39 | whole numbers subtract exactly while the difference is in range |
| FixedMath.Mul | include/fixed_point_math.hpp:70-96 | the product is congruent modulo 2^width to floor(a.v * b.v / 2^fraction) on every input, computed in the double-width type, and equal to it whenever it fits |
| FixedMath.MulIntegers | include/fixed_point_math.hpp:70-91 | `(fixed(i) * fixed(j)).to_int() == i * j` while the product is in range |
| FixedMath.MulCommutative | include/fixed_point_math.hpp:70-91 | `a * b == b * a` |
| FixedMath.MulOne | include/fixed_point_math.hpp:70-91 | multiplying by one (raw 2^fraction) is the identity |
| FixedMath.FastDivision | include/fixed_point_math.hpp:157-182 | `fast_division` is congruent modulo 2^width to a.v * 2^fraction / b.v truncated toward zero on every input; whenever that fits, its magnitude is the floor of the magnitudes' quotient, with sign negative iff exactly one operand is |
| FixedMath.Scaled | include/fixed_point_math.hpp:160-175 | the shifted dividend `a.v << fraction` is a multiple of 2^fraction whose quotient by 2^fraction is a.v |
| FixedMath.Div | include/fixed_point_math.hpp:184-187 | `operator/` is `fast_division`: congruent to the truncated quotient a.v * 2^fraction / b.v modulo 2^width |
| FixedMath.DivSelf | include/fixed_point_math.hpp:184-187 | `a / a` has raw value exactly 2^fraction for every nonzero a |
| FixedMath.DivIntegers | include/fixed_point_math.hpp:184-187 | `fixed(k * j) / fixed(j) == fixed(k)` for whole numbers in range |
| FixedMath.RoundedQuotient | include/fixed_point_math.hpp:125-130 | the signed rounding quotient: magnitude floor((abs x + floor(abs y / 2)) / abs y), negative iff exactly one operand is (round half away from zero) |
| FixedMath.RoundedNumerator | include/fixed_point_math.hpp:125-130 | the signed branches, `(x ± y/2) / y` with C++ truncation, compute exactly that rounding quotient |
| FixedMath.RoundedQuotientError | include/fixed_point_math.hpp:122-155 | the rounding quotient times the divisor is within half the divisor of the dividend |
| FixedMath.RoundedNearTruncated | include/fixed_point_math.hpp:122-182 | the rounding and truncating quotients differ by at most one |
| FixedMath.CorrectlyRoundedDivision | include/fixed_point_math.hpp:122-155 | the intended `correctly_rounded_division`: congruent modulo 2^width to the rounding quotient on every input; whenever that fits, within half a raw unit of the exact quotient, sign negative iff exactly one operand is |
| FixedMath.RoundedNearFastDivision | include/fixed_point_math.hpp:122-182 | `correctly_rounded_division` and `fast_division` differ by at most one raw unit |
| FixedMath.ScaledFits | include/fixed_point_math.hpp:139-150 | a.v * 2^fraction fits the signed double-width type, so the dividend never overflows |
| FixedMath.CorrectlyRoundedDivisionAsWritten | include/fixed_point_math.hpp:122-155 | as written: the signed branch equals the intended rounding; the unsigned branch is congruent modulo 2^width to floor((x - y/2) / y) when x >= y/2, on every input, and equal to it when it fits; when x < y/2 the subtraction wraps modulo 2^32 or 2^64 and the result is congruent to floor((x - y/2 + 2^wide) / y) |
| FixedMath.UnsignedExactDivisionAsWritten | include/fixed_point_math.hpp:131-136 | as written, an exact unsigned quotient k (divisor at least 2) comes out as k - 1 |
| FixedMath.ExactDivisionRounded | include/fixed_point_math.hpp:122-155 | the intended rounding returns an exact non-negative quotient k unchanged |
| FixedMath.UnsignedOneOverOne | include/fixed_point_math.hpp:131-136 | in `fixed<uint8_t, 4>`, 1.0 / 1.0 gives raw 15 as written and raw 16 as intended |
| FixedMath.UnsignedZeroOverOne | include/fixed_point_math.hpp:131-136 | in `fixed<uint8_t, 4>`, 0 / 1.0 wraps the unsigned difference and gives raw 255 as written, and raw 0 as intended |
| FixedMath.FixedAbs | include/fixed_point_math.hpp:293-298 | `abs(a).v == abs(a.v)` whenever that fits |
| FixedMath.FixedAbsValue | include/fixed_point_math.hpp:293-298 | `abs(a).v == abs(a.v)` except for the signed minimum, which `abs` returns unchanged |
| FixedMath.FixedAbsNeg | include/fixed_point_math.hpp:293-298 | `abs(a)` is `-a` for negative a and a otherwise |
| FixedMath.Compare | include/fixed_point_math.hpp:274-277 | `<=>` is Less, Equal or Greater exactly as v is less than, equal to or greater than the other v |
| FixedMath.Equals | include/fixed_point_type.hpp:117-119 | `==` holds iff the raw values are equal |
| FixedMath.CompareFlip | include/fixed_point_math.hpp:274-277 | swapping the operands flips the ordering |
| FixedMath.CompareTransitive | include/fixed_point_math.hpp:274-277 | Less is transitive |
| FixedMath.EqualsAgreesWithCompare | include/fixed_point_math.hpp:274-277 | `==` holds iff `<=>` gives Equal |
| FixedMath.ShiftOne | include/fixed_point_math.hpp:269-272 | `1 << n` in an int: 2^n below 31, and negative at 31 |
| FixedMath.SameUpToOneBit | include/fixed_point_math.hpp:264-267 | `same_up_to_one_bit` holds iff b.v lies in [a.v - 1, a.v + 1] |
| FixedMath.SameUpToNBits | include/fixed_point_math.hpp:269-272 | `same_up_to_n_bits` holds iff b.v lies within 2^n of a.v, for n below 31; at n = 31 `1 << 31` is negative and it never holds |
| FixedMath.SameUpToOneBitIsZeroBits | include/fixed_point_math.hpp:264-272 | `same_up_to_one_bit(a, b) == same_up_to_n_bits(a, b, 0)` |
| FixedMath.SameUpToBitsSymmetric | include/fixed_point_math.hpp:264-272 | both closeness predicates are symmetric |
| FixedMath.SameUpToBitsMonotone | include/fixed_point_math.hpp:269-272 | closeness to n bits implies closeness to every m >= n bits below 31; at 31 the negative bound makes it false |
| FixedMath.Unsigned | include/fixed_point_math.hpp:257-262 | the unsigned view of v that `countl_zero` counts on: congruent to v and below 2^width |
| FixedMath.LeadingZeros | include/fixed_point_math.hpp:257-262 | the leading-zero count r is at most width, the unsigned view is below 2^(width - r), and it is at least 2^(width - r - 1) unless r = width |
| FixedMath.SameTopMostBit | include/fixed_point_math.hpp:257-262 | `same_top_most_bit` holds iff the unsigned views of the raw values have the same bit length |
| FixedMath.SameTopMostBitInterval | include/fixed_point_math.hpp:257-262 | when a's highest set bit is k, `same_top_most_bit(a, b)` holds iff b lies in [2^k, 2^(k+1)) |
| FixedMath.SameTopMostBitZero | include/fixed_point_math.hpp:257-262 | when a is zero, `same_top_most_bit(a, b)` holds iff b is zero |
| FixedMath.Materialise | include/fixed_point_math.hpp:12-22 | a helper operand becomes a representable `fixed` through the helper constructor; a `fixed` operand is used as it is |
| FixedMath.Apply | include/fixed_point_math.hpp:7-211 | each operator gives a representable value congruent modulo 2^width to its exact result: the sum, the difference, floor(a.v * b.v / 2^fraction), or the truncated quotient a.v * 2^fraction / b.v |
| FixedMath.ApplyMixed | include/fixed_point_math.hpp:12-22 | every mixed overload is the same-type operator after materialising both sides, and with two `fixed` operands it is that operator |
| FixedMath.CompareMixed | include/fixed_point_math.hpp:280-290 | the mixed `<=>` is `<=>` after materialising, and is plain `<=>` with two `fixed` operands |
| FixedMath.MixedCommutes | include/fixed_point_math.hpp:12-22 | a literal added or multiplied on the left or right gives the same value |
| FixedMath.CompareMixedFlip | include/fixed_point_math.hpp:280-290 | comparing with the literal on the other side flips the ordering |
| FixedMath.FixedRef.constructor | include/fixed_point_type.hpp:93-96 | a reference made from a representable value holds exactly that value and format |
| FixedMath.FixedRef.Assign | include/fixed_point_type.hpp:93-96 | copy assignment replaces the raw value |
| FixedMath.FixedRef.AssignInt | include/fixed_point_type.hpp:112-115 | `operator=(int)` stores the integer constructor's value, which converts back to i when in range |
| FixedMath.FixedRef.AddAssign | include/fixed_point_math.hpp:24-34 | `+=` with a `fixed` or a helper leaves `old + materialised operand` |
| FixedMath.FixedRef.SubAssign | include/fixed_point_math.hpp:53-63 | `-=` leaves `old - operand`, which equals `old + (-operand)` |
| FixedMath.FixedRef.MulAssign | include/fixed_point_math.hpp:110-120 | `*=` leaves `old * operand` |
| FixedMath.FixedRef.DivAssign | include/fixed_point_math.hpp:201-211 | `/=` leaves `old / operand` (fast division) for a nonzero operand |
| FixedMath.AddThenSubRestores | include/fixed_point_math.hpp:24-63 | `r += b; r -= b;` leaves r as it was |
| Render.Digit | include/fixed_point_type.hpp:212 | `d + '0'` is a digit character whose value is d |
| Render.Digits10 | include/fixed_point_type.hpp:207-217 | the whole-part digits: at least one, all digits, denoting n, with no leading zero |
| Render.Digits10Unique | include/fixed_point_type.hpp:207-217 | these are the only such digit strings for n |
| Render.LowDigitsReversed | include/fixed_point_type.hpp:211-217 | the least-significant-first digits of the loop, reversed, are the most-significant-first digits |
| Render.ReverseRange | include/fixed_point_type.hpp:217 | `std::reverse` reverses the range in place and leaves the rest of the array alone |
| Render.DotBound | include/fixed_point_type.hpp:191-218 | the whole part is below 2^31, and the dot falls at index 11 or before |
| Render.TruncatedDecimal | include/fixed_point_type.hpp:204-205 | the printed whole part followed by k fraction digits denote the magnitude times 10^k divided by 2^fraction, truncated |
| Render.WriteDigitsReversed | include/fixed_point_type.hpp:207-215 | the digit loop writes the decimal digits of the whole part least significant first, and only there |
| Render.WriteWhole | include/fixed_point_type.hpp:207-217 | the digit loop plus `std::reverse` leave the most-significant-first digits of the whole part ("0" for zero) |
| Render.WriteFraction | include/fixed_point_type.hpp:220-224 | the fraction loop fills every slot up to index 10 with digits whose value is floor(frac * 10^k / 2^fraction) for k slots, touching nothing up to the dot |
| Render.FillBuffer | include/fixed_point_type.hpp:191-226 | the array holds an optional '-', the whole-part digits and one '.'; when the dot falls at index 10 or before, fraction digits follow up to index 10 and index 11 is '\0'; when it falls at index 11 (int32 with one fraction bit and v <= -2*10^9) there is no terminator |
| Render.ToString | include/fixed_point_type.hpp:191-226 | (intended) '-' at index 0 iff v < 0; then the digits of the whole part of the magnitude; then '.'; when the dot falls at index 10 or before, the truncated decimal fraction digits up to index 10 and '\0' at index 11; a dot at index 11 leaves no terminator |
| Render.WholeAsWritten | include/fixed_point_type.hpp:198-204 | as written, the digit loop starts from the magnitude's whole part except at the signed minimum |
| Render.DigitCodeAsWritten | include/fixed_point_type.hpp:212 | the character code written for a non-negative whole is '0' plus its last decimal digit |
| Render.MinimumPrintsNonDigit | include/fixed_point_type.hpp:198-214 | in `fixed<int8_t, 4>`, raw -128 starts the loop at -8 and writes code 40 '(' where the digit "8" is meant |
| Render.FracStepAsWritten | include/fixed_point_type.hpp:220-224 | as written, a pass of the fraction loop agrees with the unbounded pass whenever 10 * frac fits in T |
| Render.FractionDigitWraps | include/fixed_point_type.hpp:220-224 | in `fixed<int8_t, 4>`, raw 15 wraps 150 to -106 and writes code 41 ')' where the digit '9' is meant |
| Sqrt.NewtonStep | include/fixed_point_math.hpp:244-254 | one Babylonian step `(y + x / y) / 2` on non-negative integers is non-negative |
| Sqrt.NewtonStepNotBelowRoot | include/fixed_point_math.hpp:244-250 | after a Newton step, x < (r + 1)^2: the step never falls below the integer square root |
| Sqrt.NewtonStepDecreases | include/fixed_point_math.hpp:244-250 | a step from a guess above the root strictly decreases it |
| Sqrt.NewtonStepNearRoot | include/fixed_point_math.hpp:244-250 | a step from the integer square root stays within one above it |
| Sqrt.HighestSetBit | include/fixed_point_math.hpp:225-230 | the highest set bit h of the unsigned view satisfies 2^h <= v < 2^(h+1) |
| Sqrt.GuessExponent | include/fixed_point_math.hpp:225-230 | the exponent is the floor of (h + fraction) / 2 |
| Sqrt.ApproxSqrt | include/fixed_point_math.hpp:225-230 | `approx_sqrt` stores `1 << exponent` into T, a representable value; `ApproxSqrtValue` and `ApproxSqrtBracket` give its value |
| Sqrt.ApproxSqrtValue | include/fixed_point_math.hpp:225-230 | `approx_sqrt` returns raw 2^((h + fraction) / 2), a power of two, whenever that fits |
| Sqrt.ApproxSqrtBracket | include/fixed_point_math.hpp:225-230 | for x > 0 the guess g satisfies g^2 <= x.v * 2^fraction < 4 g^2 |
| Sqrt.ShiftAmount | include/fixed_point_math.hpp:237-238 | the shift amount s = exponent - fraction relates the two powers: 2^exponent = 2^fraction * 2^s when s >= 0, and 2^fraction = 2^exponent * 2^-s otherwise, so the shift divides X by the guess |
| Sqrt.Shifted | include/fixed_point_math.hpp:232-242 | the radicand shifted right by a non-negative amount or left by the negated one, stored into T; `ShiftedIsQuotient` shows it is X divided by the guess |
| Sqrt.ShiftedIsQuotient | include/fixed_point_math.hpp:232-242 | the shifted radicand is floor(x.v * 2^fraction / guess) when it fits |
| Sqrt.BetterGuess | include/fixed_point_math.hpp:232-242 | `better_approx_sqrt` halves the wrapped sum of the guess and the shifted radicand, a representable value; `BetterGuessIsNewtonStep` shows it is a Newton step |
| Sqrt.BetterApproxSqrt | include/fixed_point_math.hpp:232-242 | the step-by-step in-place computation equals `BetterGuess` |
| Sqrt.BetterGuessIsNewtonStep | include/fixed_point_math.hpp:232-242 | without overflow, `better_approx_sqrt` is one Newton step from the power-of-two guess, so it is not below the integer root |
| Sqrt.FastStep | include/fixed_point_math.hpp:247-250 | one loop pass `y = (y + x / y) >> 1` with the truncating division yields a representable value; `FastStepIsNewtonStep` shows it is a Newton step |
| Sqrt.FastStepIsNewtonStep | include/fixed_point_math.hpp:247-250 | without overflow, a loop pass is a Newton step on x.v * 2^fraction |
| Sqrt.Steps | include/fixed_point_math.hpp:247-250 | the guess after n passes is representable once a pass has been made; `StepsFitDefined`, `ExactRootSteps` and `StepsOnZero` say where the passes are defined and what they give |
| Sqrt.FinalStep | include/fixed_point_math.hpp:251-252 | the last step adds the as-written rounding quotient of x by the guess and divides by `make_fixed(2)` with the as-written rounding, giving a representable value |
| Sqrt.SqrtSpec | include/fixed_point_math.hpp:244-254 | what `sqrt` returns is representable: four fast passes from the better guess, then the final step as written |
| Sqrt.Iterate | include/fixed_point_math.hpp:247-250 | the loop runs exactly four passes, each dividing by a nonzero guess |
| Sqrt.Sqrt | include/fixed_point_math.hpp:244-254 | `sqrt`, with the as-written rounding division, computes `SqrtSpec`, dividing by zero nowhere |
| Sqrt.MakeTwoVanishes | include/fixed_point_math.hpp:251-252 | when fraction = width - 1, signed or unsigned, `make_fixed(2)` is zero, so `sqrt` divides by zero for every radicand |
| Sqrt.FastStepOnZero | include/fixed_point_math.hpp:247-250 | a pass on radicand zero halves the guess |
| Sqrt.GuessOneReachesZero | include/fixed_point_math.hpp:244-254 | from guess 1 on radicand zero the first pass reaches 0, so the next pass divides by zero |
| Sqrt.SqrtOfZeroDividesByZero | include/fixed_point_math.hpp:244-254 | with three or four fraction bits (`fixed<int8_t, 4>`, say), `sqrt(0)` starts from guess 1, whose first pass gives 0, and divides by zero in the loop |
| Sqrt.FastStepPositive | include/fixed_point_math.hpp:247-250 | for a positive radicand, a pass that does not wrap keeps a positive guess positive |
| Sqrt.StepsFitDefined | include/fixed_point_math.hpp:247-250 | passes that do not wrap never divide by zero and end on a positive guess |
| Sqrt.SqrtDefinedWithoutWrap | include/fixed_point_math.hpp:244-254 | for a positive radicand whose passes do not wrap, and with `make_fixed(2)` nonzero, `sqrt` divides by zero nowhere |
| Sqrt.ExactRootFixed | include/fixed_point_math.hpp:247-250 | a pass from the exact root of X stays there |
| Sqrt.ExactRootSteps | include/fixed_point_math.hpp:247-250 | any number of passes from the exact root are defined, do not wrap and stay at the root |
| Sqrt.TwoRepresentable | include/fixed_point_type.hpp:237-240 | `make_fixed(2)` is 2 * 2^fraction whenever that value is representable |
| Sqrt.FinalStepOnSignedRoot | include/fixed_point_math.hpp:251-252 | in a signed format, the last step from the exact root returns the root |
| Sqrt.FinalStepOnUnsignedRoot | include/fixed_point_math.hpp:251-252 | in an unsigned format, the last step from the exact root y returns y - 1 raw units: the first as-written division loses one unit and the halving keeps the loss |
| Sqrt.UnsignedHalvingAsWritten | include/fixed_point_math.hpp:252 | in an unsigned format, raw 2k - 1 divided by 2.0 with the as-written rounding gives k - 1 |
| Sqrt.SqrtOfExactSquare | include/fixed_point_math.hpp:244-254 | when the better guess is the exact root y of X and no pass wraps, `sqrt` is defined and returns y in a signed format and y - 1 raw units in an unsigned one |
| Sqrt.SqrtOfOne | include/fixed_point_math.hpp:244-254 | in `fixed<int16_t, 8>`, `sqrt(1.0)` is defined and is 1.0 |
| Sqrt.SqrtOfFourUnsigned | include/fixed_point_math.hpp:244-254 | in `fixed<uint8_t, 4>`, `sqrt(4.0)` is defined and is 1.9375 (raw 31) |
| Sqrt.BetterGuessOfZeroIn | include/fixed_point_math.hpp:232-242 | for radicand zero, the better guess is 2^((fraction - 1) / 2) halved |
| Sqrt.StepsOnZero | include/fixed_point_math.hpp:247-250 | from guess 2^k on radicand zero, n passes are defined iff n <= k + 1, and give 2^(k - n), or 0 after k + 1 passes |
| Sqrt.SqrtOfZeroDefined | include/fixed_point_math.hpp:244-254 | `sqrt(0)` is defined iff the format has at least 11 fraction bits and `make_fixed(2)` is not zero |

## Left out

- 64-bit `T`: `*`, `/` and `correctly_rounded_division` refuse it at compile time, so it is also not modelled for storage; a format is valid only for 8, 16 and 32 bits.
- Signed overflow: where the source overflows a signed intermediate (the `int` shifts, the 32-bit products and quotients), which is undefined behaviour in C++, the model wraps as for a store into `T`.
- Undefined corners are preconditions: division by zero, fraction bits equal to the width, `frac >> 64` with no fraction bits, and shifts by 32 or more. `same_up_to_n_bits` with n = 31, where `1 << 31` is negative, is modelled (`ShiftOne`).
- FixedMath.SameUpToNBits: the difference of the raw values is exact. That matches the code for 8- and 16-bit `T`, whose operands are promoted to `int`. With `int32_t` the subtraction can overflow, which is undefined behaviour. With `uint32_t` the subtraction would wrap, but `std::abs` of an unsigned value does not compile. The same holds for FixedMath.SameUpToOneBit.
- Literal.ParseLiteral: requires at most 18 digits on each side of the dot, so the int64 and uint64 accumulators cannot overflow.
- Literal.ParseLiteral: the compile-time `assert` failures become `Err` results, naming the offending character.
- Render.ToString: is the intended printer. The source's own loops, which misprint the signed minimum and any fraction where 10 * frac overflows T, are modelled only as the single steps in Findings. The buffer overrun for whole parts of eleven or more characters cannot happen with 32-bit storage (`Render.DotBound`).
- Render.WriteFraction: computes `frac * 10` without storing it back into `T`, so it is the intended fraction loop, and `Render.FillBuffer` inherits it. The store into `T` and its overflow are modelled by `Render.FracStepAsWritten` (one pass, agreeing whenever `10 * frac` fits) and `Render.FractionDigitWraps` (the misprint in `fixed<int8_t, 4>`).
- Sqrt: accuracy against the real square root is not proved; only the integer Newton-step facts and the bracketing of the first guess are.
- Printing to a stream (`fixed_point_print.hpp`) and the floating-point conversions (`fixed_point_float_conversions.hpp`) are not part of this model.
- The default constructor and the copy constructor do nothing observable beyond copying `v`, so they have no members of their own. The `FixedRef` constructor stands for them.
- The mixed overloads name `fixed_construction_helper` without its template argument. The model treats a helper operand as any valid `Helper`.

## Findings

| source | as written | input that shows it | evidently intended | confidence | as-written member | corrected member |
|---|---|---|---|---|---|---|
| include/fixed_point_math.hpp:131-136 | the unsigned branch of `correctly_rounded_division` computes `(x - y/2) / y`, which also wraps below y/2 (0 / 1.0 gives raw 255, `UnsignedZeroOverOne`) and makes `sqrt(4.0)` raw 31 (`Sqrt.SqrtOfFourUnsigned`) | `fixed<uint8_t, 4>` 1.0 / 1.0 (raw 16 / 16) gives raw 15 | `(x + y/2) / y`, round half up, giving raw 16 | not executed | FixedMath.UnsignedOneOverOne | FixedMath.ExactDivisionRounded |
| include/fixed_point_type.hpp:198-214 | `to_string` negates into `T`, so the signed minimum stays negative and the digit loop runs on a negative whole | `fixed<int8_t, 4>` raw -128 (-8.0) prints '(' (code 40) instead of '8' | negate in a wider type and print "-8.0000000" | not executed | Render.MinimumPrintsNonDigit | Render.ToString |
| include/fixed_point_type.hpp:220-224 | the fraction loop stores `frac * 10` back into `T`, where it can overflow | `fixed<int8_t, 4>` raw 15 (0.9375): 150 wraps to -106, printing ')' (code 41) | compute `frac * 10` in a wider type and print '9' | not executed | Render.FractionDigitWraps | Render.WriteFraction |

# Exact decimal fixed-point arithmetic

A Dafny model of a C++23 library of decimal fixed-point types: signed integers of 8 to 256 bits
scaled by a power of ten. Every operation promises to form the exact rational result, to round it
once in the requested mode and to report overflow, inexactness or a zero divisor in a fixed
precedence. The library keeps that promise through many fast and branchy implementations; the model
gives the promise one definition and proves that each implementation meets it.

`Rounding.Evaluate(num, den, mode, bits)` is that definition. It is tied to an independent,
declarative one (`Rounding.IsRounded`) by `EvaluateContract` and `OverflowContract`, and
`Operations` states `mul`, `div`, `mul_div`, `quantize` and `remainder` with it. Every kernel method
ensures that its result equals one of these functions, so two implementations of one operation are
equal to each other; `Public` states that for the run-time and the constant-expression paths.

What those functions mean is stated once more in real numbers. `Meaning.Correct` says which integer
a mode names for a real number and which error takes its place, and `ExactResults` proves every
operation correct for the real values of its operands. Texts and bit patterns get their values in
`Spelling`, `Printed` and `Formats`, with concrete instances.

| file | what it models |
|---|---|
| Arith, Words, Signs | powers and quotients; 64-bit words, their carries and shifts; two's complement |
| Rounding, Operations | rounding, error precedence, the public operations as functions |
| Meaning, ExactResults | rounding and errors for real numbers; what every operation computes, in real numbers |
| Limbs, Knuth | limb buffers and their operators; Algorithm D (Knuth, TAOCP volume 2, section 4.3.1) in place on arrays |
| Division | 128-bit products, 256/128 division without add-back |
| PortableDivision, PortableKernels | the portable 128-bit division, and what it does to the portable kernels |
| Kernels64, Kernels128, Kernels256 | the compiled kernels and the inline fast paths |
| Reference | the constant-expression reference on eight limbs |
| Public | dispatch of the public operations by width |
| Mixed | operations across widths and scales in the smallest sufficient limb tier |
| Decimal, Parser | decimal grammar and value; scanner, run-time parser, literal parser |
| Spelling | texts put together from parts: which are accepted and what they write |
| Printer, RoundTrip, Printed | decimal printing; parsing what was printed; the printed characters |
| BatchMultiply, Lanes | prepared multiplication; the certificates of the vector lanes |
| Batch, BatchBroadcast | the batch loops; a prepared multiply over a batch |
| FromFloat, Formats | binary floating point (section 3.4 of IEEE 754-2019, and x87) into fixed point; the number each pattern stands for |
| Midpoint | the two midpoints |

Conventions. A machine word is an integer in [0, 2^64) (`word`), a native double word one in
[0, 2^128) (`dword`), and wrap-around is written out. A limb buffer is a sequence with the value
`Limbs.Val`; loops that fill or rewrite limbs run on arrays. `|` of two values without a common bit
is their sum, and the absence of a common bit is proved where it is used. `Quot` and `Rem` are `/`
and `%` on naturals (`Arith.QuotRemBuiltIn`). The three error enumerations of the source are one
datatype.

Where the documentation and the code differ, the model follows the code: include/fixedwide/error.hpp
describes `overflow` as the exact result being outside the range, while every implementation tests
the truncated quotient, so that in Exact mode 127.5 is `inexact` and not `overflow` for an 8-bit
result (`EvaluateContract`, `HalfAboveLargest`). `RetryRule` is the consequence the documentation
wants from the precedence.

One property is false of the code and has its exact condition: the portable `divide128` skips its
correction for an all-ones estimate (`PortableDivision.Divide128Portable`), so portable `div` and
`mul_div` round wrongly for a divisor of 2^64+1 and a numerator in [2^128-2^64, 2^128-2] in every mode
but Exact (`PortableKernels.Div128`, `PortableKernels.DivisionMisses`).

## Model

| member | source | states |
|---|---|---|
| `Rounding.EvaluateContract` | include/fixedwide/error.hpp:26-43 | A value is returned exactly when it is the one the rounding mode names for num/den and it fits; `inexact` exactly when Exact refused a quotient whose truncation fits. |
| `Rounding.HalfAboveLargest` | include/fixedwide/error.hpp:26-43 | 127.5 in eight bits is `inexact` in Exact mode, `overflow` to nearest and 127 towards zero. |
| `Rounding.OverflowContract` | include/fixedwide/error.hpp:26-43 | `overflow` exactly when Exact did not refuse and no value in range is the rounded one. |
| `Rounding.RetryRule` | include/fixedwide/error.hpp:28-32 | After `inexact` a truncating retry succeeds; after `overflow` no mode succeeds; an exact result is every mode's result. |
| `Rounding.RoundedByOffset` | include/fixedwide/rounding.hpp:11-26 | Among all integers, the mode's value is the truncated magnitude moved by the step the rounding rule takes, and no other. |
| `Rounding.EvaluateScale` | src/mixed.cpp:117-130 | Multiplying numerator and denominator by a common factor changes neither value nor error. |
| `Rounding.NearestEvenIncrementMeaning` | src/detail.hpp:14-19 | The branchless tie test increments exactly above a half, or at a half with an odd quotient. |
| `Rounding.RoundMagnitude` | src/detail.hpp:21-42 | Its order of tests gives the decision determined by quotient, discarded part, sign and mode alone, overflow ahead of inexact and again after the step. |
| `Meaning.EvaluateIsCorrect` | include/fixedwide/error.hpp:26-43 | Evaluating num/den gives the correct result for the real number x = num/den: the value the mode names for x when it fits, `inexact` when Exact refuses a number whose integer part fits, `overflow` otherwise. |
| `Meaning.OneCorrect` | include/fixedwide/error.hpp:26-43 | The real number, the mode and the width determine the result: no other value or error is correct. |
| `Meaning.SameRounding` | include/fixedwide/rounding.hpp:11-26 | The mode names the same integer for the real number as for the rational. |
| `Meaning.OneRounding` | include/fixedwide/rounding.hpp:11-26 | A mode names at most one integer for a number. |
| `Meaning.OneOnGrid` | include/fixedwide/arithmetic.hpp:845-874 | Rounding onto a grid, too, has one correct result. |
| `Operations.RoundedIsEvaluate` | src/detail.hpp:21-42 | Rounding an exact quotient and remainder is evaluating the rational. |
| `Operations.NarrowIsEvaluate` | include/fixedwide/arithmetic.hpp:107-125 | The 64-bit result narrowed, with the truncating rerun on `inexact`, is the operation at 8, 16 or 32 bits: overflow stays ahead of inexact. |
| `Operations.NarrowQuantize` | include/fixedwide/arithmetic.hpp:107-125 | The same for quantize, whose rescaling can overflow on its own. |
| `Operations.RemainderContract` | include/fixedwide/arithmetic.hpp:810-834 | Some integer q has a = q * b + r with r smaller than b in magnitude, and a remainder that is not zero has the sign of a. |
| `ExactResults.Mul` | include/fixedwide/arithmetic.hpp:459-581 | The product of the two values, as real numbers, rounded once at their scale. |
| `ExactResults.Div` | include/fixedwide/arithmetic.hpp:593-664 | Their quotient, likewise. |
| `ExactResults.MulDiv` | include/fixedwide/arithmetic.hpp:676-763 | The product of two values over a third, likewise. |
| `ExactResults.Quantize` | include/fixedwide/arithmetic.hpp:845-874 | The value rounded once at the coarser scale and written back on the grid; `invalid_precision` for a finer one. |
| `Words.Mul64x64` | src/detail.hpp:217-234 | hi * 2^64 + lo is the product. |
| `Words.Div128By64` | src/detail.hpp:236-252 | The 64-step division is exact for high < divisor, the lost top bit of the shifted remainder included. |
| `Words.ShiftParts` | src/limbs.hpp:98-111 | A shifted word and the bits shifted out of it are together the product with the power of two. |
| `Limbs.Compare` | src/limbs.hpp:67-72 | Orders buffers as the numbers they stand for. |
| `Limbs.Add` | src/limbs.hpp:128-139 | The sum modulo the buffer. |
| `Limbs.Sub` | src/limbs.hpp:141-151 | The difference modulo the buffer. |
| `Limbs.Shl` | src/limbs.hpp:98-111 | The product with 2^shift modulo the buffer, for every shift. |
| `Limbs.MulFull` | src/limbs.hpp:207-235 | The exact product for any two limb counts. |
| `Limbs.MulAddStep` | src/limbs.hpp:217-224 | The two wrapped additions of one column, their carries and the high word together lose nothing, and the carry fits one limb. |
| `Limbs.PropagateCarry` | src/limbs.hpp:226-232 | The carry loop past a row only ever writes one untouched limb. |
| `Limbs.MulTrunc` | src/limbs.hpp:237-254 | The product modulo 2^(64L). |
| `Limbs.DivMod64` | src/limbs.hpp:266-284 | Quotient and remainder by one limb, leading zero limbs skipped. |
| `Limbs.ValInjective` | src/limbs.hpp:66 | Buffers of one length are equal when their numbers are. |
| `Knuth.EstimateDigit` | src/limbs.hpp:345-372 | The correction loop runs at most twice and leaves the true digit or one above it, the all-ones estimate and its carry included. |
| `Knuth.NextCandidate` | src/limbs.hpp:361-372 | One correction keeps the product of estimate and second divisor limb in step, and only ever drops a digit that is too large. |
| `Knuth.FinalCandidate` | src/limbs.hpp:361-372 | When the loop stops, by the test or by the carry, the estimate is within one of the digit. |
| `Knuth.NoBorrow` | src/limbs.hpp:374-397 | If the multiply-subtract does not borrow past the top, the digit was right, the window is the next remainder and its top limb is zero. |
| `Knuth.OneAddBack` | src/limbs.hpp:385-394 | If it does borrow, one less is the digit and a single add-back restores the remainder, whose top limb is zero. |
| `Knuth.MultiplySubtract` | src/limbs.hpp:374-384 | In place, the window loses digit times divisor modulo its length; every borrow fits one limb. |
| `Knuth.AddBack` | src/limbs.hpp:386-393 | In place, the window regains the divisor once, carry dropped. |
| `Knuth.DigitStep` | src/limbs.hpp:344-402 | From a remainder below the divisor, one step yields one quotient digit and a remainder below the divisor, and touches nothing outside the window. |
| `Knuth.NormalizedDivisor` | src/limbs.hpp:313-325 | The normalising shift loses no divisor bit and sets its top bit. |
| `Knuth.NormalizedDividend` | src/limbs.hpp:327-336 | With one limb of room the shifted dividend loses nothing. |
| `Knuth.FirstRemainder` | src/limbs.hpp:327-344 | The first window is below the normalised divisor. |
| `Knuth.LoopStep` | src/limbs.hpp:344-402 | The digits found, the remainder and the untouched low limbs always recompose the dividend. |
| `Knuth.Unnormalize` | src/limbs.hpp:404-412 | Shifting down across limbs divides the remainder by the normalising power, exactly. |
| `Knuth.DivMod` | src/limbs.hpp:293-415 | For every limb count and divisor: num = q * den + r with r < den; a zero divisor gives zeros. |
| `Division.Multiply128` | src/native.hpp:61-79 | The full 256-bit product of two double words. |
| `Division.MultiplyLimbs` | src/division.hpp:50-73 | The portable limb product is exact although one comparison covers two additions. |
| `Division.SecondCarryReachable` | src/division.hpp:61-68 | The one state in which that comparison would miss a carry cannot be reached. |
| `Division.Divide128By64` | src/native.hpp:86-99 | Exact for every numerator: the high limb is reduced first. |
| `Division.Divide128` | src/native.hpp:103-109 | The quotient, and the remainder when asked for. |
| `Division.DivideDigit` | src/native.hpp:113-138 | One digit and the true remainder for a normalised two-limb divisor, with no add-back. |
| `Division.ExactDigit` | src/native.hpp:126-136 | The wrapped subtraction is the true remainder even when rhat carried out of its word. |
| `Division.LeadingDigitZero` | src/native.hpp:164-175 | The 64-bit shortcut skips only a digit that is zero. |
| `Division.DivideNarrow` | src/native.hpp:143-177 | `overflow` exactly when the quotient needs more than 128 bits, and otherwise exact; a zero divisor is reported. |
| `PortableDivision.Divide128Portable` | src/detail.hpp:312-353 | Exact if and only if the divisor is not 2^64+1 with a numerator in [2^128-2^64, 2^128-2]; there the quotient is one too large and the remainder wraps to n + 1. |
| `PortableDivision.SecondTestPasses` | src/detail.hpp:344-349 | The never-refreshed product cannot cause a second decrement. |
| `PortableDivision.ProductBelowHalf` | src/detail.hpp:344-349 | The estimate's product with the low divisor limb is at most 2^127. |
| `PortableDivision.AllOnes` | src/detail.hpp:337-345 | The all-ones estimate occurs only for the two smallest two-limb divisors and the largest numerators. |
| `PortableKernels.Finish` | src/arithmetic.cpp:445-480 | The portable tail gives the rounded result exactly when the operands are not the missed ones, and for those the rounding of a quotient one too large; Exact mode is always right. |
| `PortableKernels.Mul128` | src/arithmetic.cpp:445-480 | Portable multiplication is right for all operands: no power of ten is the missed divisor. |
| `PortableKernels.Div128` | src/arithmetic.cpp:482-520 | Portable division is right if and only if the scaled magnitude and divisor are not the missed ones or the mode is Exact. |
| `PortableKernels.MulDiv128` | src/arithmetic.cpp:522-558 | The same for mul_div. |
| `PortableKernels.Remainder128` | src/arithmetic.cpp:663-675 | Portable remainders are right for all operands. |
| `PortableKernels.DivisionMisses` | src/arithmetic.cpp:482-520 | Concrete 128-bit operands of one decimal for which portable division returns 2^64 - 1 and the quotient is 2^64 - 2. |
| `Kernels64.Imul64x64` | src/detail.hpp:276-288 | The signed product in a signed high and an unsigned low word, both minima included. |
| `Kernels64.QuotientGeneral` | src/arithmetic.cpp:36-59 | Any 128-bit numerator over any divisor, rounded once into 64 bits. |
| `Kernels64.WindowFits` | src/arithmetic.cpp:16-24 | Inside the half-divisor window the truncated quotient is a signed 64-bit integer, so the hardware division cannot trap. |
| `Kernels64.WindowRounded` | src/arithmetic.cpp:26-34 | The signed quotient moved by the nearest adjustment is the rounded one, at 64 bits and above. |
| `Kernels64.QuotientSigned` | src/arithmetic.cpp:61-75 | Equal to the general path for every numerator, divisor and mode. |
| `Kernels64.Mul64` | src/arithmetic.cpp:79-85 | The product over the scale, rounded once. |
| `Kernels64.Div64` | src/arithmetic.cpp:87-94 | The scaled dividend over the divisor, rounded once, or division_by_zero. |
| `Kernels64.MulDiv64` | src/arithmetic.cpp:96-103 | Product over divisor with one rounding. |
| `Kernels64.Quantize64` | src/arithmetic.cpp:105-129 | Rounded onto the grid, or the right error; the rescaling check is exact. |
| `Kernels64.MulWindow` | include/fixedwide/arithmetic.hpp:495-503 | The reserved headroom keeps every inexact quotient one unit inside both limits. |
| `Kernels64.ScaledAdjustment` | include/fixedwide/arithmetic.hpp:285-294 | Two signed comparisons against the half-way boundaries round to nearest even. |
| `Kernels64.Fixed64Mul` | include/fixedwide/arithmetic.hpp:487-513 | The inline window and the kernel behind it return the rounded product. |
| `Kernels64.DoubledIsNearest` | include/fixedwide/arithmetic.hpp:264-283 | Doubling the remainder cannot wrap below a signed divisor and decides the tie the same way. |
| `Kernels64.InlineQuotient` | include/fixedwide/arithmetic.hpp:618-639 | The inline division reports an overflowing adjustment that really is an overflow. |
| `Kernels64.NarrowQuotient` | include/fixedwide/arithmetic.hpp:472-486 | 8-, 16- and 32-bit operations through one 64-bit quotient. |
| `Kernels64.NarrowQuantizeKernel` | include/fixedwide/arithmetic.hpp:855-864 | 8-, 16- and 32-bit quantize, narrowed. |
| `Kernels128.FinishWide` | src/arithmetic.cpp:224-237 | A 256-bit magnitude over a 128-bit divisor rounded once, truncation without a remainder included. |
| `Kernels128.RegisterQuotient` | src/arithmetic.cpp:167-196 | A numerator below 2^127 in magnitude leaves room for the rounding step. |
| `Kernels128.DivideNativeGeneral` | src/arithmetic.cpp:172-179 | The native signed division with the tie test on wrapped bits is the rounded quotient. |
| `Kernels128.DivideNative` | src/arithmetic.cpp:185-196 | The widened register path equals it, a result of 2^63 included. |
| `Kernels128.DivideScaleGeneral` | src/arithmetic.cpp:200-207 | Unsigned division of a product by any scale below 2^127. |
| `Kernels128.DivideProductByScale` | src/arithmetic.cpp:213-217 | The window test on a scale read as a signed word costs speed, never the result. |
| `Kernels128.Mul128Scaled` | src/arithmetic.cpp:292-307 | The scale-specialised multiplication is the rounded product. |
| `Kernels128.BoundedNumerator` | src/arithmetic.cpp:316-323 | One unsigned comparison proves that the scaled numerator fits and is not the signed minimum. |
| `Kernels128.Div128Scaled` | src/arithmetic.cpp:309-333 | The scale-specialised division is the rounded quotient. |
| `Kernels128.Mul128` | src/arithmetic.cpp:399-405 | The runtime-scale product, rounded once. |
| `Kernels128.Div128` | src/arithmetic.cpp:407-414 | The runtime-scale quotient, rounded once. |
| `Kernels128.MulDiv128` | src/arithmetic.cpp:427-441 | Product over divisor with one rounding, for all 128-bit operands. |
| `Kernels128.Quantize128` | src/arithmetic.cpp:636-661 | Rounded onto the grid, or the right error. |
| `Kernels128.Remainder128` | src/arithmetic.cpp:663-675 | The truncating remainder with the dividend's sign. |
| `Kernels128.Fits64LimbsMeaning` | include/fixedwide/arithmetic.hpp:269-275 | The sum test on two limbs holds exactly for 64-bit values. |
| `Kernels128.RoundWideExact` | include/fixedwide/arithmetic.hpp:295-304 | The high limb taken from the signs before the addition is right: quotient and step never disagree in sign. |
| `Kernels128.InlineMul128` | include/fixedwide/arithmetic.hpp:514-562 | Both inline paths of the 128-bit product are the rounded one and always fit. |
| `Kernels128.InlineMulDiv128` | include/fixedwide/arithmetic.hpp:727-753 | The inline mul_div of three words is the rounded one. |
| `Kernels256.Magnitude256` | include/fixedwide/wide.hpp:640-645 | The limbs of the absolute value, the signed minimum included. |
| `Kernels256.DivideWide` | src/arithmetic.cpp:688-696 | One-limb and general division agree on quotient and remainder. |
| `Kernels256.Finish256` | src/arithmetic.cpp:713-731 | Divide, check the high limbs, round, restore the sign: the evaluated rational. |
| `Kernels256.Mul256` | src/arithmetic.cpp:699-732 | The 512-bit product over the scale, rounded once. |
| `Kernels256.Div256` | src/arithmetic.cpp:734-763 | The scaled dividend over the divisor, rounded once. |
| `Kernels256.MulDiv256` | src/arithmetic.cpp:765-793 | Product over divisor with one rounding. |
| `Kernels256.Quantize256` | src/arithmetic.cpp:795-822 | Rounded onto the grid, or the right error. |
| `Kernels256.Remainder256` | src/arithmetic.cpp:824-838 | The truncating remainder with the dividend's sign. |
| `Reference.TestBitMeaning` | include/fixedwide/detail/constexpr_arith.hpp:71-73 | The tested bit is the parity of the number shifted down. |
| `Reference.BitWidth` | include/fixedwide/detail/constexpr_arith.hpp:61-69 | No bit of the number lies at or above the width. |
| `Reference.SetBit` | include/fixedwide/detail/constexpr_arith.hpp:149-162 | Setting a bit below all bits set so far adds its power of two. |
| `Reference.Divmod` | include/fixedwide/detail/constexpr_arith.hpp:147-162 | The bitwise long division is exact for every divisor, with no bit lost by the shift: numerator = quotient * divisor + remainder, remainder < divisor unless that is zero. |
| `Reference.RoundLimbs` | include/fixedwide/detail/constexpr_arith.hpp:172-201 | Rounding by the doubled remainder decides as every other implementation does. |
| `Reference.MagnitudeLimit` | include/fixedwide/detail/constexpr_arith.hpp:203-211 | The largest magnitude of the width and sign. |
| `Reference.ToMagnitude` | include/fixedwide/detail/constexpr_arith.hpp:227-252 | The magnitude of any stored value, the signed minimum included. |
| `Reference.FromMagnitude` | include/fixedwide/detail/constexpr_arith.hpp:255-266 | The signed value of a magnitude that fits. |
| `Reference.Pow10Limbs` | include/fixedwide/detail/constexpr_arith.hpp:268-273 | The power of ten, never truncated for a legal scale. |
| `Reference.Mul` | include/fixedwide/detail/constexpr_arith.hpp:288-296 | The reference product for every width: rounded once, nothing lost in 512 bits. |
| `Reference.Div` | include/fixedwide/detail/constexpr_arith.hpp:298-306 | The reference quotient. |
| `Reference.MulDiv` | include/fixedwide/detail/constexpr_arith.hpp:308-315 | The reference mul_div. |
| `Reference.Quantize` | include/fixedwide/detail/constexpr_arith.hpp:317-330 | The reference quantize with its own rescaling check. |
| `Reference.Remainder` | include/fixedwide/detail/constexpr_arith.hpp:367-374 | The reference remainder. |
| `Public.Mul` | include/fixedwide/arithmetic.hpp:459-581 | `mul` of every width, through every window and kernel, is the exact product rounded once. |
| `Public.Div` | include/fixedwide/arithmetic.hpp:593-664 | `div` of every width. |
| `Public.MulDiv` | include/fixedwide/arithmetic.hpp:676-763 | `mul_div` of every width. |
| `Public.Quantize` | include/fixedwide/arithmetic.hpp:845-874 | `quantize` of every width. |
| `Public.Remainder` | include/fixedwide/arithmetic.hpp:810-834 | `remainder` of every width. |
| `Public.MulBothWays` | include/fixedwide/detail/constexpr_arith.hpp:24-26 | The run-time and the constant-expression product agree for all operands, scales, modes and widths. |
| `Public.DivBothWays` | include/fixedwide/detail/constexpr_arith.hpp:24-26 | The same for division. |
| `Public.MulDivBothWays` | include/fixedwide/detail/constexpr_arith.hpp:24-26 | The same for mul_div. |
| `Public.QuantizeBothWays` | include/fixedwide/detail/constexpr_arith.hpp:24-26 | The same for quantize. |
| `Public.RemainderBothWays` | include/fixedwide/detail/constexpr_arith.hpp:24-26 | The same for remainder. |
| `Arith.Pow10BitsBound` | src/mixed.cpp:22-26 | 10^e is below 2^(floor(10e/3) + 1) for every e. |
| `Mixed.Reduce` | src/mixed.cpp:120-121 | Only the difference of the two decimal exponents matters to value and error. |
| `Mixed.MagnitudeBits` | src/mixed.cpp:84-87 | The exact bit width of a magnitude. |
| `Mixed.WidthFor` | src/mixed.cpp:71-82 | The chosen tier is the smallest of the four that holds the bits, whenever 1024 are enough. |
| `Mixed.Pow10At` | src/mixed.cpp:35-40 | Shifting and adding gives the power of ten whenever the width holds it. |
| `Mixed.ScaledProduct` | src/mixed.cpp:183-188 | Three truncating products in the tier are the exact product. |
| `Mixed.EvaluateRational` | src/mixed.cpp:48-69 | The rational rounded once; the limit is held by every tier that is chosen. |
| `Mixed.SumMagnitudes` | src/mixed.cpp:152-166 | Signed addition of magnitudes in every branch. |
| `Mixed.Cast` | src/mixed.cpp:117-130 | The value at the new scale and width, rounded once, or the right error, for all raws and scales. |
| `Mixed.AddSub` | src/mixed.cpp:132-172 | The exact sum or difference of two scales, rounded once into a third. |
| `Mixed.Mul` | src/mixed.cpp:174-189 | The exact product rounded once. |
| `Mixed.Div` | src/mixed.cpp:191-208 | The exact quotient rounded once, for all raws and scales, or division_by_zero. |
| `Mixed.MulDiv` | src/mixed.cpp:210-233 | The exact a * b / c rounded once; 1024 bits always suffice. |
| `ExactResults.CastTo` | src/mixed.cpp:117-130 | A cast is correct for the real value at the destination's scale. |
| `ExactResults.AddTo` | src/mixed.cpp:132-172 | So is a sum of two scales for the sum of the real values. |
| `ExactResults.MulTo` | src/mixed.cpp:174-189 | So is a product for their product. |
| `ExactResults.DivTo` | src/mixed.cpp:191-208 | So is a quotient for their quotient. |
| `ExactResults.MulDivTo` | src/mixed.cpp:210-233 | So is mul_div for a * b / c. |
| `ExactResults.CastScaleFree` | src/mixed.cpp:117-130 | Writing the operand with one more decimal changes no result. |
| `ExactResults.AddScaleFree` | src/mixed.cpp:132-172 | Nor does it for either summand. |
| `ExactResults.MulScaleFree` | src/mixed.cpp:174-189 | Nor for either factor. |
| `ExactResults.DivScaleFree` | src/mixed.cpp:191-208 | Nor for dividend or divisor. |
| `ExactResults.MulDivScaleFree` | src/mixed.cpp:210-233 | Nor for any of the three. |
| `ExactResults.CastExactly` | src/mixed.cpp:117-130 | A value the destination holds exactly is the result in every mode. |
| `ExactResults.AddExactly` | src/mixed.cpp:132-172 | The same for a sum. |
| `ExactResults.MulExactly` | src/mixed.cpp:174-189 | The same for a product. |
| `ExactResults.DivExactly` | src/mixed.cpp:191-208 | The same for a quotient: v with v * b = a, as values. |
| `ExactResults.MulDivExactly` | src/mixed.cpp:210-233 | The same for mul_div. |
| `ExactResults.DivOfWholes` | src/mixed.cpp:191-208 | Without decimals it is the division of the two integers; 1.0 / 2 at two decimals is 0.50. |
| `Decimal.CutIsRounded` | src/chars.cpp:44-46 | Cutting the significant digits at `keep` places rounds the written number once. |
| `Decimal.StandInDecides` | src/chars.cpp:92-96 | The remainder 0, 1, 5 or 6 over ten has the same part of a unit as the whole discarded tail. |
| `Decimal.DigitsExceedLimit` | include/fixedwide/detail/decimal_scan.hpp:67-74 | A number with more digits than the table entry is out of range for the width. |
| `Parser.ScanDecimal` | include/fixedwide/detail/decimal_scan.hpp:18-65 | `empty`, `invalid` or the counts of the grammar, with the written exponent clamped, for every text. |
| `Parser.ScanExponent` | include/fixedwide/detail/decimal_scan.hpp:47-63 | The exponent digits clamped to the cap, without overflow. |
| `Parser.SaturationIsHarmless` | include/fixedwide/detail/decimal_scan.hpp:55-60 | The clamped exponent either is the written one or lies on the same side of every decision. |
| `Parser.AccumulateWord` | src/chars.cpp:57-88 | The unchecked 64-bit loop keeps exactly the digits asked for and classifies the rest. |
| `Parser.AccumulateDword` | src/chars.cpp:131-162 | The 128-bit loop refuses exactly when the kept number exceeds the limit. |
| `Parser.AppendDigit` | src/chars.cpp:199-203 | Ten times the value plus a digit in four limbs, refused exactly above the limit. |
| `Parser.AccumulateLimbs` | src/chars.cpp:183-216 | The limb loop, likewise. |
| `Parser.ParseIsCut` | src/chars.cpp:42-46 | A well-formed text is zero, out of range by its digit count, or its digits cut at `keep`. |
| `Parser.FinishParse` | src/chars.cpp:92-121 | Rounding, sign and error translation on every path. |
| `Parser.ParseFixed` | src/chars.cpp:34-239 | For every text, scale, mode and width: the written decimal times 10^D rounded once (see `Spelling` for what a text writes), or the right error, whichever of the three paths runs. |
| `Parser.LiteralLimits` | include/fixedwide/literal.hpp:12-35 | Limit = 10 * cutoff + last digit, the digit taken from the shifted cutoff. |
| `Parser.AccumulateLiteral` | include/fixedwide/literal.hpp:38-61 | The literal loop keeps exactly the digits asked for, refuses exactly above the limit, and knows whether a discarded digit was not zero. |
| `Parser.ParseLiteral` | include/fixedwide/literal.hpp:22-68 | The compile-time constant is the run-time parse in Exact mode, value and error code, through its own loop. |
| `Spelling.ParseSpelled` | include/fixedwide/detail/decimal_scan.hpp:18-65 | A text put together from a sign, digits with at most one point, and a marked and signed exponent parses to its digits moved by the exponent and the fraction length, rounded once. |
| `Spelling.ParseMeans` | src/chars.cpp:34-239 | The same in real numbers: the result is correct for the number the parts write. |
| `Spelling.ParseScientific` | include/fixedwide/detail/decimal_scan.hpp:47-63 | An exponent n moves the point by n places, up or down as its sign says, for every n. |
| `Spelling.ParseWhole` | src/chars.cpp:34-239 | A text that writes a whole number of units parses to it in every mode if it fits and is `overflow` if not. |
| `Spelling.Grammar` | include/fixedwide/detail/decimal_scan.hpp:18-65 | `empty` exactly for the empty text; `invalid` exactly for a text that is too long or is not put together like that. |
| `Spelling.Literals` | include/fixedwide/detail/decimal_scan.hpp:18-65 | The raws of -12.5E-1, 1e2, 1E+2, +.5 and 1234567890. are what one reads. |
| `Printer.ChunkText` | src/integer_chars.cpp:12-21 | A number's digits are its high part's digits followed by one zero-padded chunk. |
| `Printer.AppendChunkReverse` | src/integer_chars.cpp:12-21 | One chunk, padded or not, is placed in front of what has been written. |
| `Printer.IntegerDigits128` | src/integer_chars.cpp:24-35 | The decimal digits of any 128-bit number, in chunks of nineteen. |
| `Printer.IntegerDigits256` | src/integer_chars.cpp:37-46 | The decimal digits of any 256-bit number, in chunks of eighteen. |
| `Printer.NoOverflow` | src/chars.cpp:265-275 | Rounding for text cannot overflow: the largest quotient leaves no remainder. |
| `Printer.Round64` | src/chars.cpp:256-275 | The rounded magnitude of the 64-bit head. |
| `Printer.Round128` | src/chars.cpp:316-352 | The rounded magnitude of the 128-bit head, in one word, two steps or a double division. |
| `Printer.Round256` | src/chars.cpp:402-415 | The rounded magnitude of the 256-bit head. |
| `Printer.TrimBack` | src/chars.cpp:306-309 | Backing over zeros stops at the point, which then goes too. |
| `Printer.Emit` | src/chars.cpp:277-313 | The text is copied whole or not at all; text_capacity is always enough to assemble it. |
| `Printer.Format` | src/chars.cpp:256-456 | For every width: the k-decimal text of the value rounded once, or the right error with the buffer untouched. |
| `Printed.PrintShows` | src/chars.cpp:256-456 | The text shows the real value rounded once to k decimals; `invalid_precision` exactly for too many decimals and `inexact` exactly when Exact would have to round. |
| `Printed.RenderShows` | src/chars.cpp:277-309 | A sign exactly for a negative number, no leading zero but a lone one, all k decimals untrimmed and none that is a trailing zero trimmed, no bare point. |
| `Printed.OneText` | src/chars.cpp:277-309 | Number, decimals and trimming determine the text: nothing else shows it. |
| `Printed.Literals` | src/chars.cpp:306-309 | Minus one and a half at two decimals is -1.50, and trimmed -1.5. |
| `RoundTrip.RenderSays` | src/chars.cpp:286-309 | The printed text is accepted by the grammar and says n * 10^-k, trimmed or not. |
| `RoundTrip.RenderParses` | src/chars.cpp:34-239 | Printed text parses, in any mode, to n * 10^(D-k) if that fits and to `overflow` if not. |
| `RoundTrip.ParsePrinted` | src/chars.cpp:256-456 | Printing at k decimals and parsing equals `quantize` to k, in value, overflow and inexactness. |
| `RoundTrip.ParseFullText` | src/chars.cpp:256-456 | Full-precision text, trimmed or not, parses back to the raw value, for every value and width. |
| `BatchMultiply.ReciprocalEstimate` | include/fixedwide/detail/batch_multiply.hpp:24-37 | The reciprocal's estimate is the quotient or one below. |
| `BatchMultiply.DivideLimb` | include/fixedwide/detail/batch_multiply.hpp:32-37 | One multiply-high and one correction divide every limb exactly. |
| `BatchMultiply.DividePrepared` | include/fixedwide/detail/batch_multiply.hpp:48-77 | Exact for every 128-bit value and divisor. |
| `BatchMultiply.GcdDivides` | include/fixedwide/detail/batch_multiply.hpp:99-106 | The result divides both arguments. |
| `BatchMultiply.GcdGreatest` | include/fixedwide/detail/batch_multiply.hpp:99-106 | Every common divisor divides it. |
| `BatchMultiply.ComputeGcd` | include/fixedwide/detail/batch_multiply.hpp:99-106 | The loop computes it. |
| `BatchMultiply.MultiplyLimb` | include/fixedwide/detail/batch_multiply.hpp:108-119 | Refused exactly when the product needs more than 128 bits; otherwise the product. |
| `BatchMultiply.FinishBatch` | include/fixedwide/detail/batch_multiply.hpp:121-146 | The same rounding and precedence with a doubled one-limb remainder. |
| `BatchMultiply.MultiplySplit` | include/fixedwide/detail/batch_multiply.hpp:148-180 | a * b / d rounded once, for all operands: dividing first loses no carry and reports no false overflow. |
| `BatchMultiply.CommonDivides` | include/fixedwide/detail/batch_multiply.hpp:270-283 | The divisor common to remainder and denominator divides the whole factor. |
| `BatchMultiply.PrepareBroadcast` | include/fixedwide/detail/batch_multiply.hpp:270-283 | For factors and results of up to 128 bits the constructor keeps factor and 10^decimals over one common divisor, and the divisor's reciprocal is prepared. |
| `BatchMultiply.ReducedIsExact` | include/fixedwide/detail/batch_multiply.hpp:270-314 | The reduced fraction has the value, the rounding decision and the error of the original. |
| `BatchMultiply.ApplyBroadcast` | include/fixedwide/detail/batch_multiply.hpp:289-314 | A prepared broadcast is the mixed-scale product rounded once, for every operand, width, scale and mode, whichever of its paths runs. |
| `BatchMultiply.TryExactProduct` | include/fixedwide/detail/batch_multiply.hpp:188-206 | A certified operand's product is the rounded one or out of range, with no division. |
| `BatchMultiply.MultiplyTo` | include/fixedwide/detail/batch_multiply.hpp:209-239 | The unprepared product through a certified operand, whichever factor fits a word, or the general kernel. |
| `Lanes.InverseOdd` | include/fixedwide/detail/batch_simd.hpp:83-87 | Five steps invert every odd 32-bit word modulo 2^32. |
| `Lanes.NewtonStep` | include/fixedwide/detail/batch_simd.hpp:83-87 | Each step squares the modulus up to which the product is one. |
| `Lanes.InverseOdd64` | include/fixedwide/detail/mixed_native.hpp:435-442 | Five steps from three correct bits invert every odd 64-bit word. |
| `Lanes.ExactQuotient64` | include/fixedwide/detail/mixed_native.hpp:426-447 | True exactly when the value is a signed word times 10^gap, and then with that word. |
| `Lanes.SignLaneIsNegation` | include/fixedwide/detail/batch_simd.hpp:114-118 | Masked complement and carry negate a 128-bit lane. |
| `Lanes.CarriedMeaning` | include/fixedwide/detail/batch_simd.hpp:120-123 | The signed comparison of flipped words is the unsigned carry test. |
| `Lanes.Multiply32x64Exact` | include/fixedwide/detail/batch_simd.hpp:125-130 | Two half products and a carry are the exact product of a half word and a word. |
| `Lanes.CandidateFinds` | include/fixedwide/detail/batch_simd.hpp:157-160 | If a small quotient exists, the residue modulo 2^32 is it. |
| `Lanes.UnsignedLaneExact` | include/fixedwide/detail/batch_simd.hpp:155-173 | A lane is accepted if and only if its magnitude is a 32-bit quotient times 10^gap, and then its words are exactly raw * factor / 10^gap. |
| `Lanes.SignedLane32Exact` | include/fixedwide/detail/batch_simd.hpp:142-154 | The same with signed 32-bit quotients for the gap-ten method. |
| `Batch.ForEach` | include/fixedwide/batch.hpp:128-173 | For any block size, independent map and commit: the state and the first failure of the one-row-at-a-time loop. |
| `Batch.ForEachTiled` | include/fixedwide/detail/batch_simd.hpp:204-243 | The certified tiles leave the same state and first failure. |
| `Batch.RowsInOrder` | include/fixedwide/batch.hpp:128-173 | That loop hands every row to the commit once, in order and under its own number, up to the first row that is refused or has no value, and names that row. |
| `Batch.Transform` | include/fixedwide/batch.hpp:175-216 | Over any number of spans and broadcasts, exactly the rows before the first failure are written, also when spans are the output itself. |
| `BatchBroadcast.TransformTiled` | include/fixedwide/detail/batch_simd.hpp:244-276 | Storing a certified tile at once keeps that; other rows go through the prepared multiplier. |
| `Batch.TransformReduce` | include/fixedwide/batch.hpp:295-315 | The ordered checked fold: success means every prefix sum fits, failure names the first row whose map or addition fails. |
| `Batch.FoldMeans` | include/fixedwide/batch.hpp:295-315 | The accumulator is the initial value plus the mapped values of the rows so far. |
| `BatchBroadcast.CertifyUnsignedSound` | include/fixedwide/detail/batch_simd.hpp:132-134 | An accepted unsigned lane holds the scalar plan's result. |
| `BatchBroadcast.CertifySignedSound` | include/fixedwide/detail/batch_simd.hpp:132-134 | So does an accepted signed lane. |
| `BatchBroadcast.RowIsProduct` | include/fixedwide/batch.hpp:179-216 | A row of a broadcast is correct for the product of the two real values at the destination's scale. |
| `BatchBroadcast.VectorTransform` | include/fixedwide/detail/batch_simd.hpp:313-323 | Whichever lane kind is dispatched, the rows written are the scalar rows. |
| `BatchBroadcast.BroadcastTransform` | include/fixedwide/batch.hpp:179-216 | Vector lanes or blocks of the prepared multiplier write the same rows and report the same first failure. |
| `FromFloat.DecodeInvertsPack` | include/fixedwide/detail/from_float.hpp:67-76 | Decoding a packed pattern gives the value of its sign, exponent and significand fields, denormals and specials included. |
| `FromFloat.DecodeQuadIsPacked` | include/fixedwide/detail/from_float.hpp:87-96 | The two-word decoding is the decoding of the 128-bit pattern. |
| `FromFloat.DecodeX87IsFields` | include/fixedwide/detail/from_float.hpp:77-86 | Explicit-bit numbers are the interchange numbers of the same fields. |
| `FromFloat.PseudoNumbers` | include/fixedwide/detail/from_float.hpp:82-86 | Exactly the encodings of some fields are accepted, a pseudo-denormal being those of exponent one. |
| `FromFloat.ProductFits` | include/fixedwide/detail/from_float.hpp:116-126 | The chosen width holds the product and the target's limit. |
| `FromFloat.ShiftDown` | include/fixedwide/detail/from_float.hpp:153-175 | The three flags classify the shifted-out part for every shift, the width itself and beyond included. |
| `FromFloat.ShiftUp` | include/fixedwide/detail/from_float.hpp:147-152 | Refused exactly when the shifted product exceeds the limit, without forming it. |
| `FromFloat.FloatIsShifted` | include/fixedwide/detail/from_float.hpp:139-140 | Multiplying by five and adding to the exponent is multiplying by ten. |
| `FromFloat.Convert` | include/fixedwide/detail/from_float.hpp:128-204 | The decoded value times 10^D rounded once, or the right error, for every significand, exponent and sign. |
| `FromFloat.ConvertPacked` | include/fixedwide/detail/from_float.hpp:128-204 | The same from a packed pattern of any interchange format. |
| `FromFloat.ConvertInterchange` | include/fixedwide/detail/from_float.hpp:63-97 | The same for binary32, binary64 and binary128 as they arrive, in one word or two. |
| `FromFloat.ConvertX87` | include/fixedwide/detail/from_float.hpp:128-204 | The same from an x87 value. |
| `Formats.FieldsMean` | include/fixedwide/detail/from_float.hpp:63-97 | The fields of each interchange format decode to the number the standard gives them: sign, power of two and significand with its hidden bit, denormals included. |
| `Formats.NotNumbers` | include/fixedwide/detail/from_float.hpp:63-97 | The largest exponent decodes to no number, whatever its significand. |
| `Formats.IntegersConvert` | include/fixedwide/detail/from_float.hpp:128-204 | In each format every integer below 2^precision, at its normalised pattern and either sign, converts at D decimals to itself times 10^D in every mode, or is `overflow`. |
| `Formats.OnesConvert` | include/fixedwide/detail/from_float.hpp:63-97 | The patterns 0x3F800000, 0x3FF0000000000000 and the words (0, 0x3FFF000000000000) convert to 1, and with the sign bit to -1. |
| `Formats.ExtremePatterns` | include/fixedwide/detail/from_float.hpp:63-97 | The smallest denormals are 2^-149, 2^-1074 and 2^-16494; the first pattern above the finite ones is no number. |
| `Formats.ExtendedPatterns` | include/fixedwide/detail/from_float.hpp:77-86 | One, minus one, the smallest denormal, an unnormal and an infinity of the x87 encoding. |
| `ExactResults.FloatTo` | include/fixedwide/detail/from_float.hpp:128-204 | Converting is correct for the real value of the float at the scale; `invalid_value` for what is no number. |
| `Midpoint.SumOfBits` | include/fixedwide/arithmetic.hpp:780-784 | A sum is twice the common bits plus the differing bits, in two's complement. |
| `Midpoint.Middle` | include/fixedwide/arithmetic.hpp:776-798 | (a + b) / 2 rounded once for every pair and mode; it fails only when Exact meets an odd sum. |
| `Midpoint.FloorFits` | include/fixedwide/arithmetic.hpp:796-797 | The floor of the half is a stored value, and so is the next one when the sum is odd. |
| `Midpoint.Hand` | include/fixedwide/arithmetic.hpp:887-902 | The floor is stepped up or its tie rounded upwards as the mode asks, and lower + 1 fits the storage. |
| `Midpoint.MiddleTo` | include/fixedwide/arithmetic.hpp:879-904 | (a + b) / 2 rounded once onto the coarser grid, stated by the integer the mode names for it and by the three errors, each exactly; the code goes through the stored operations without rounding twice. |
| `Midpoint.MidpointIsHalf` | include/fixedwide/arithmetic.hpp:879-904 | For g = 10^(current - target): v is returned exactly when v = m * g fits for the m that the mode names for (a + b) / 2g; each error occurs exactly when stated. |
| `ExactResults.MidpointTo` | include/fixedwide/arithmetic.hpp:879-904 | It is correct on the grid for half the sum of the real values. |
| `Midpoint.SameRounding` | include/fixedwide/arithmetic.hpp:889-901 | The stepped floor, or the tie rounded upwards, has the rounded value of the true half. |

## Left out

- Inline assembly and AVX2 instructions: a hardware division or vector instruction is the arithmetic it performs (`Words.Div128By64`, `Kernels64.DivSigned64`, the functions of `Lanes`); CPU detection, loads and stores of lanes, inlining attributes and fences are not modelled.
- Storage layout: values are integers and limb sequences; byte copying, padding and endianness of the wide types and of long double are not modelled.
- The limb primitives of the reference (`add`, `subtract`, `multiply`, `compare`) share the model of the `uint_limbs` operators, whose carry arithmetic they repeat; its bit loops, division, rounding and conversions are modelled separately.
- Rounding of limb buffers (`round_magnitude` on `uint_limbs` and on the wide structs) is modelled on the numbers they stand for; the comparison, addition and shift it uses are proved on limbs.
- include/fixedwide/detail/mixed_native.hpp: the native mixed-scale fast paths, except the exact-quotient certificate and the range check that the batch multiply uses.
- include/fixedwide/wide.hpp: the operators of the public wide integers beyond magnitude and negation; the kernels divide and multiply in limb buffers or native words.
- Commits and maps of the batch loops are functions of an explicit state; a map that breaks its documented independence from earlier commits is outside the model, and so is partial overlap of input and output, which the library forbids.
- Reference.Divmod: for a zero divisor, which no caller passes, the quotient's bits are not stated.
- Exceptions, expected/optional layout, compile-time width and scale parameters (they are ordinary arguments here) and null pointers in the character interface.
- `std::to_chars` of one chunk is the function `Printer.DecimalText`.
- Plain add, subtract, negate, abs, comparison across scales, unchecked, sticky-checked, binary, hash, stream and format adapters, log10, and the conversion back to floating point: simpler than what is covered, or foreign floating-point calls.

# The conversion core, the calendar and the particle queue

This project models three components of the library and proves what they promise.

**Decimal text and doubles** (`source/types/double-conversion`, used by `source/types/s4convertors.cpp`).
All layers of the conversion engine are modelled as they are written, with their loops, buffers and
word sizes:

- `Bignum`, the array of 28-bit digits with a hidden exponent, is a class over a mutable array. Its
  abstract value is the sum of its digits times their weights. Every operation is exact, keeps the
  number clamped and all digits above the used ones zero, and never leaves its word sizes.
- The exact algorithms on top of it generate shortest, counted and fixed digits and decide the last
  bit when reading. Shortest digits read back as the same double, nothing shorter does, and nothing of
  that length that does is closer, wherever its decimal point is. Counted and fixed digits are the double rounded half up. Reading is
  roundTiesToEven of section 4.3.1 of IEEE 754-2008, for every digit string and exponent.
- The fast paths with 64 bits (Grisu, DiyFpStrtod) and 128 bits (FastFixedDtoa) are proved against the same
  predicates, with their error bounds, so a success meets the contract of the exact path, and `DoubleToAscii`
  and `Strtod` have one contract each whatever path answers.
- Text is laid out, trimmed and scanned. Each double has one text: digits, decimal point and sign leave no
  choice. The scanner accepts exactly the texts of a grammar, stated in characters, whose printer and
  parser are inverse, and reads them to the nearest double. A decimal with at most 15 digits in the
  normal range survives the trip text, double, text, and so do the names of infinity.

**The calendar** (`source/common/offtime.cpp`, `source/common/s4time.cpp`). The self-correcting guess of
the year ends for every time, and the fields found are the only Gregorian date and time of that second.
Going back is exact in exactly known months: after 1970, up to the end of February 2100 and only up to there.

**The particle queue** (`include/queue/simpleQ_mpmc_ar.h`). Queues, handles and operations under way form
a state machine of atomic steps, so every interleaving of threads is a run of it. In every run each
particle is in exactly one place, handles live as long as something refers to them, and pages do not
overlap. The class `ParticleQueue` gives the operations of the source as sequences of those steps.

Words of 16, 32 and 64 bits without a sign are subset types of the unbounded integers: each assignment
carries a proof that the value fits, conditions use checked operations (`Plus`, `Minus`, `Times`), and the few
places where the source relies on wrap-around write it out. The signed `int`s of the source (lengths,
exponents, decimal points) are plain integers. Numbers as real
quantities (`Value`, `Denoted`, `Magnitude`) are exact reals.

## How the modules build on each other

`MachineInts`, `Powers`, `RealPowers`, `Decimals` and `Options` are foundations. `Bigits`, `BigitSteps`,
`Comba` and `WordPowers` hold the arithmetic behind `Bignums`. `DigitRatios`, `DigitBuffers`, `BignumDtoas`,
`ScaledStarts`, `DtoaBounds`, `DecimalRounding`, `RatioRounding` and `DtoaModes` lead from ratios of big
integers to statements about doubles (`Ieee`). `DiyFps`, `NormalizedDoubles`, `CachedPowers`, `RoundWeeds`,
`DigitGens`, `CountedDigitGens`, `GrisuRounding`, `CountedRounding` and `FastDtoas` are Grisu, with
`PowerNeighbours`, `PowerDigits` and `PowerTables` for the digits of the powers of ten and `DecimalLogs` for
logarithms; `UInt128s`, `DigitFilling` and `FixedDtoas` the fixed path; `AsciiDoubles` joins the paths, with
`PowerGaps` and `SingleDigits` for single digits and `DecimalTies` for ties. `StrtodBuffers`, `DigitCutting`,
`StrtodErrors`, `StrtodRounding`, `LeastDouble`, `DiyFpStrtods` and `Strtods` are reading. `RoundTrips` connects
both directions. `TextLiterals`, `Scanners`, `Layouts` and `TextConversions` are text. `Calendars`,
`ParticleQueues` and `ParticleOperations` stand alone.

Helper methods inside a class or module (for instance `Bignum.SubtractColumns`, `DigitGens.IntegralStep`)
are loops or loop bodies of the source function of which they are part, split off to keep each proof small.

## What is taken as a contract

- Rounding to doubles, in two products with the constant 0.30102999566398114: `IsRoundedLog` and
  `IsRoundedEstimate` allow several times the error of IEEE 754 arithmetic. From these alone `LogarithmsHold`
  proves the two contracts that the methods ask for, `IsCeilLog` for the rounded-up logarithm
  (`source/types/double-conversion/cached-powers.cc:148`) and `EstimateContract` for the estimated decimal power
  (`source/types/double-conversion/bignum-dtoa.cc:370-413`).
- `IsCorrectHardware`: whenever `DoubleStrtod` answers from floating-point hardware it is right.
- The memory allocator returns memory that overlaps nothing in use (`IsFree`, and `Allocate` in `Enabled`).

The table of cached powers is a parameter with the contracts `IsPowerTable` (each entry is normalized, in its
place, and closer than half a unit to its power of ten) and `StartsAtLeastPower`; `TableIsRight` proves both for
the 87 constants of the source.

## What the source does otherwise than it says

- `source/types/double-conversion/bignum-dtoa.h:60-61` says that of two shortest results at the same
  distance the upper one is chosen. The code at `bignum-dtoa.cc:246-258` makes the last digit even, and so
  does the contract (`EvenOnTie`): the upper one is taken exactly if the lower one is odd (`UpperOnTie`), and
  for 0.50000762939453125 it is not (`NotAlwaysUp`).
- The comment of `DigitGenCounted` (`fast-dtoa.cc:419-420`) allows fewer digits than asked for. The code
  gives up instead, so a success has exactly that many.
- The half-unit bound of the cached powers is what the comments of `DiyFpStrtod` argue with. For numbers near
  half of the least double (order -1075, where `DiyFpToUint64` yields zero and no bit is left to look at) the
  proof needs more: `LeastDouble` takes the constant of the first entry and shows that no number there is
  misjudged.
- `fixed-dtoa.cc:262` looks at the bit below the point when the point can be zero, which would shift by -1.
  Nothing is left then, and the bit is read as clear. The contract of `FillFractionals64` says exactly when,
  and `ShiftsByMinusOne` has a double.
- `BiggestPowerTen` (`fast-dtoa.cc:228-229`) promises the biggest power of ten not above the number for every
  number with at most the bits announced. It corrects its guess once, which is not enough for much smaller
  numbers: `SettledIsBiggest` has the exact condition and `TooSmallNumber` a number.
- `DivideModuloIntBignum` asserts equal lengths at `bignum.cc:515`. That fails exactly under `EndsUpShorter`, a
  condition on the two numbers (`RemoveExcessLength`), which 2^56 over 2^56 - 1 meets (`LosesADigit`). The proof
  does not use the assertion; what follows is right without it.
- `__offtime` says "nonzero if successful" (`offtime.cpp:42`) and returns zero then.
- The number of days in `__offtime` does not always shrink in absolute value: from -1 it goes to 364. It
  shrinks exactly if the days do not reach back by at most half of the year before; otherwise that year is
  found (`GuessConverges`, `MagnitudeCanGrow`).
- `tm_to_utc` counts every fourth year as a leap year, and its division truncates. Its comment speaks of the
  year 2100; the exact months, before 1970 as well, are in `CountsRight` (`ToUtcIsExact`).
- `StringBuilder::TrimTrailingZeros` on a literal without integral digits and with only zeros behind the
  point leaves no number: ".000" becomes the empty text (`BareZerosVanish`). `TrimmingKeepsMagnitude` has the
  exact condition; the layouts of this library always write an integral digit.
- Sending a handle in bulk that has already been sent in bulk puts a null entry into the queue
  (`simpleQ_mpmc_ar.h:161-164`). `NullsEnter` and `RunWithoutNulls` say that this is the only way a null
  gets in, and `NullRun` is a run in which one does.

## Model

| member | source | states |
|---|---|---|
| Bignums.Bignum.AssignUInt16 | source/types/double-conversion/bignum.cc:48-56 | the number becomes the word; the invariant is established from any shape |
| Bignums.Bignum.AssignUInt64 | source/types/double-conversion/bignum.cc:59-73 | the number becomes the 64-bit word, in three digits at most |
| Bignums.Bignum.AssignBignum | source/types/double-conversion/bignum.cc:76-86 | value, digits, length and exponent of the other number, with zeros above |
| Bignums.Bignum.ReadUInt64 | source/types/double-conversion/bignum.cc:89-99 | the decimal value of up to 19 digits; no step leaves 64 bits |
| Bignums.Bignum.AssignDecimalString | source/types/double-conversion/bignum.cc:102-120 | the value of any digit string below 2^(28*127), however long; above that the capacity check of the addition stops the source |
| Bignums.Bignum.AddUInt64 | source/types/double-conversion/bignum.cc:161-166 | exact sum with a word |
| Bignums.Bignum.AddBignum | source/types/double-conversion/bignum.cc:169-208 | exact sum for any mix of hidden exponents whose aligned result fits the capacity; the carry loop stops inside the buffer |
| Bignums.Bignum.SubtractBignum | source/types/double-conversion/bignum.cc:211-235 | exact difference of a smaller or equal number; the borrow, taken from the wrapped difference, stops inside the number |
| Bignums.Bignum.ShiftLeft | source/types/double-conversion/bignum.cc:238-244 | multiplication by a power of two; whole digits go into the hidden exponent |
| Bignums.Bignum.MultiplyByUInt32 | source/types/double-conversion/bignum.cc:247-270 | exact product when it fits; carry and product stay within 64 bits |
| Bignums.Bignum.MultiplyByUInt64 | source/types/double-conversion/bignum.cc:273-297 | exact product when it fits; the carry never exceeds the factor, so each shifted sum still fits 64 bits |
| Bignums.Bignum.MultiplyByPowerOfTen | source/types/double-conversion/bignum.cc:300-337 | multiplication by 10^power through factors of five that fit words, with no intermediate result above the final one |
| Bignums.Bignum.Square | source/types/double-conversion/bignum.cc:340-409 | the square, computed in place: no column reads a digit already overwritten, and no accumulator exceeds 64 bits |
| Comba.ColumnsAreSquare | source/types/double-conversion/bignum.cc:371-404 | the columns of digit products, weighted, add up to the square of the number: what in-place squaring relies on |
| WordPowers.PowerInWord | source/types/double-conversion/bignum.cc:446-465 | the 64-bit phase holds base^(leading bits) exactly, apart from at most one delayed factor, which is pending only when the word is too large to go on |
| Bignums.Bignum.AssignPowerUInt16 | source/types/double-conversion/bignum.cc:412-482 | base^power exactly, for every base and power whose result fits the capacity |
| Bignums.Bignum.DivideModuloIntBignum | source/types/double-conversion/bignum.cc:486-549 | quotient and remainder of any division whose quotient is below 2^16, from that bound alone; the remainder is below the divisor and the number stays clamped |
| Bignums.Bignum.RemoveExcessLength | source/types/double-conversion/bignum.cc:504-516 | removes multiples of the divisor until the number is no longer than it; the lengths are then different, against the assertion of the source, if and only if the number reaches 2^(28m) and its remainder lies between 2^(28m) less the divisor and 2^(28(m-1)), m being the length of the divisor |
| BigitSteps.ShorterExactly | source/types/double-conversion/bignum.cc:504-516 | that condition, on the two numbers alone, is exactly when the number left over is shorter than the divisor |
| BigitSteps.LosesADigit | source/types/double-conversion/bignum.cc:515 | 2^56 divided by 2^56 - 1 meets it |
| Bignums.Bignum.BigitAt | source/types/double-conversion/bignum.cc:611-615 | the digit of the value at an absolute position, hidden zeros included |
| Bignums.Bignum.Compare | source/types/double-conversion/bignum.cc:618-633 | the sign of the difference, for any hidden exponents |
| Bignums.Bignum.Equal | source/types/double-conversion/bignum.h:76-78 | true exactly if the values are equal |
| Bignums.Bignum.PlusCompare | source/types/double-conversion/bignum.cc:636-670 | the sign of a + b - c without computing the sum, for any hidden exponents, including every early return on lengths |
| Bignums.Bignum.Clamp | source/types/double-conversion/bignum.cc:673-681 | removes leading zeros, keeps the value, and establishes the invariant |
| Bignums.Bignum.Align | source/types/double-conversion/bignum.cc:698-719 | the smaller exponent of the two with the same value |
| Bignums.Bignum.SubtractTimes | source/types/double-conversion/bignum.cc:738-763 | subtracts a multiple that does not exceed the number; the early return when no borrow is left keeps the number clamped |
| BignumDtoas.GenerateShortestDigits | source/types/double-conversion/bignum-dtoa.cc:185-274 | ends within the digits allowed, with a shortest decimal of the interval, the closest one of its length, the even one of two that are equally close, ends of the interval included exactly for an even significand; the deltas grow tenfold while the remainder stays below the denominator, and sharing one object for equal deltas does not show |
| BignumDtoas.NoNineGoesUp | source/types/double-conversion/bignum-dtoa.cc:239-270 | a last digit that has to be rounded up is never a nine |
| BignumDtoas.DigitsLeft | source/types/double-conversion/bignum-dtoa.cc:222-231 | while no neighbour is inside the interval, the digit limit is not reached: the reason for termination |
| DigitRatios.NoRoomNoneInside | source/types/double-conversion/bignum-dtoa.cc:210-222 | when the loop goes on, no decimal with the digits so far lies in the interval, so nothing shorter is lost |
| DigitRatios.ChoiceIsClosest | source/types/double-conversion/bignum-dtoa.cc:232-272 | whichever neighbour is taken at the end is inside, no other of that length is closer, and it is even if another is as close |
| BignumDtoas.GenerateCountedDigits | source/types/double-conversion/bignum-dtoa.cc:283-318 | the ratio rounded half up to the digits asked for; a carry through nines moves the decimal point and keeps the value |
| DigitRatios.HalfUpOfDigits | source/types/double-conversion/bignum-dtoa.cc:300-302 | comparing twice the remainder with the denominator rounds half up |
| BignumDtoas.BignumToFixed | source/types/double-conversion/bignum-dtoa.cc:326-367 | the ratio rounded half up to the places asked for, with one digit, or none, when only the rounding decides |
| ScaledStarts.InitialScaledStartValues | source/types/double-conversion/bignum-dtoa.cc:565-598 | numerator over denominator is the double over a power of ten, and both deltas are its half distances to the neighbours, over one denominator that fits the capacity |
| ScaledStarts.FixupMultiply10 | source/types/double-conversion/bignum-dtoa.cc:612-639 | multiplies by ten exactly when the estimate was one too low, judged with the upper boundary |
| DtoaModes.OddIsNoPower | source/types/double-conversion/bignum-dtoa.cc:612-639 | an odd significand never makes the ratio exactly one, so the comparison without the upper delta finds the place in the rounding modes as well |
| DtoaModes.BignumDtoa | source/types/double-conversion/bignum-dtoa.cc:89-169 | shortest, counted or fixed digits of every positive finite double, in at most 17 digits for the shortest, ending in a zero character |
| DtoaModes.FarTooSmall | source/types/double-conversion/bignum-dtoa.cc:115-127 | the shortcut for fixed digits is right: the double rounds to zero there |
| DtoaModes.CountedUnique | source/types/double-conversion/bignum-dtoa.cc:283-318 | counted digits are unique, digits and decimal point |
| RatioRounding.ShortestResultIsShortest | source/types/double-conversion/bignum-dtoa.cc:185-274 | the integer facts about the digits are, over the reals, the shortest decimal in the rounding interval of the double and the closest of its length, even on a tie |
| RatioRounding.HalfUpIsRounded | source/types/double-conversion/bignum-dtoa.cc:283-318 | rounding the ratio half up is rounding the double half up at that place |
| DecimalRounding.ReadsBackRounds | source/types/double-conversion/bignum-dtoa.cc:185-274 | the interval between the boundaries, closed for even significands, is exactly the set of reals that round to the double |
| DecimalRounding.NoneCoarserIsShortest | source/types/double-conversion/bignum-dtoa.cc:185-274 | if no coarser decimal is in an interval, no decimal of fewer digits is, wherever its point stands |
| Ieee.NextIsSuccessor | source/types/double-conversion/ieee.h:88-99 | the next pattern is one unit in the last place higher, binade changes and infinity included |
| Ieee.NextOfNegative | source/types/double-conversion/ieee.h:88-99 | below zero the next pattern is the neighbour towards zero, with no double between, and 0.0 follows -0.0 |
| Ieee.MidpointIsMiddle | source/types/double-conversion/ieee.h:162-165 | the upper boundary is exactly the middle between the double and its successor |
| Ieee.RoundsToUnique | source/types/double-conversion/ieee.h:162-165 | a real rounds to one double only |
| Ieee.RoundsToNearest | source/types/double-conversion/ieee.h:162-165 | no double is closer than the one rounded to, and that one is even on a tie |
| Ieee.DiyFpToUint64 | source/types/double-conversion/ieee.h:233-258 | the pattern of f*2^e with the bits below the 53rd cut, denormals included; infinity and zero exactly outside the exponents of a double |
| NormalizedDoubles.AsNormalizedDiyFp | source/types/double-conversion/ieee.h:66-80 | the same number with the top bit set |
| NormalizedDoubles.NormalizedBoundaries | source/types/double-conversion/ieee.h:171-185 | both boundaries over the exponent of the upper one, a quarter unit below for powers of two; all shifts fit 64 bits |
| DiyFps.DiyFp.Multiply | source/types/double-conversion/diy-fp.cc:34-55 | the 64 high bits of the product, rounded; none of the four partial products or sums overflows |
| DiyFps.ProductError | source/types/double-conversion/diy-fp.cc:34-55 | the rounded product is within half a unit of the exact one, on both sides |
| DiyFps.DiyFp.Subtract | source/types/double-conversion/diy-fp.h:51-55 | exact difference over the same exponent |
| DiyFps.DiyFp.Minus | source/types/double-conversion/diy-fp.h:60-64 | the difference as a new number; the operands stay |
| DiyFps.DiyFp.Times | source/types/double-conversion/diy-fp.h:71-75 | the rounded product as a new number; the operands stay |
| DiyFps.DiyFp.Normalize | source/types/double-conversion/diy-fp.h:77-95 | the same value with the top bit set |
| CachedPowers.GetCachedPowerForBinaryExponentRange | source/types/double-conversion/cached-powers.cc:142-160 | an entry of the table with its binary exponent in the range asked for, for every range used |
| CachedPowers.ExponentFits | source/types/double-conversion/cached-powers.cc:148-157 | a decimal exponent from the logarithm to seven above it puts the binary exponent into a range of 26 |
| CachedPowers.GetCachedPowerForDecimalExponent | source/types/double-conversion/cached-powers.cc:163-174 | the entry at most seven below the exponent asked for |
| PowerTables.TableIsRight | source/types/double-conversion/cached-powers.cc:44-132 | all 87 constants are in their places, normalized and closer than half a unit to their powers of ten, the first one is the one the least double needs: the table meets both contracts asked of it |
| PowerDigits.FourUp | source/types/double-conversion/cached-powers.cc:44-132 | from the first 92 binary digits of a power of ten to those of the fourth power above, never more than 800 units off |
| PowerDigits.HalfUnit | source/types/double-conversion/cached-powers.cc:44-132 | 64 bits as close to those 92 digits are closer than half a unit to the power itself |
| DecimalLogs.PowersCompared | source/types/double-conversion/cached-powers.cc:136 | for all exponents in use the product with the constant tells which of a power of two and one of ten is larger, with room for all rounding |
| DecimalLogs.CeilLogIsRight | source/types/double-conversion/cached-powers.cc:147-152 | the product rounded to a double and then rounded up is the rounded-up logarithm |
| DecimalLogs.EstimateIsRight | source/types/double-conversion/bignum-dtoa.cc:370-413 | the estimate, from the rounded product less 1e-10, is right or one too low, for the upper boundary as well |
| RoundWeeds.RoundWeed | source/types/double-conversion/fast-dtoa.cc:61-166 | true only if the last digit was lowered to the safely closest value within the safe part of the interval, for every position of the true boundaries within a unit |
| RoundWeeds.RoundWeedCounted | source/types/double-conversion/fast-dtoa.cc:181-223 | true only if the digits are safely rounded; a carry through nines raises kappa and keeps the value |
| DigitGens.BiggestPowerTen | source/types/double-conversion/fast-dtoa.cc:226-256 | which power it settles for, and that this is the biggest one not above the number if and only if the number is not more than one correction below the guess |
| DigitGens.SettledIsBiggest | source/types/double-conversion/fast-dtoa.cc:226-256 | the exact condition, for every number and bit count allowed: the guess is the first place, or the number has at least as many digits as the guess |
| DigitGens.TooSmallNumber | source/types/double-conversion/fast-dtoa.cc:226-256 | the promise fails for 99999999 with 32 bits announced, and holds from 100000000 on |
| DigitGens.QuarterIsEnough | source/types/double-conversion/fast-dtoa.cc:232-251 | a quarter of the size announced is enough, which is what the callers have |
| DigitGens.DigitGen | source/types/double-conversion/fast-dtoa.cc:300-396 | true only for digits that are safely inside, safely closest, and of which no shorter prefix could be inside; no 64-bit step overflows in either loop |
| CountedDigitGens.DigitGenCounted | source/types/double-conversion/fast-dtoa.cc:428-505 | true only for exactly the digits asked for, safely rounded, carry included |
| GrisuRounding.SafeIsClosest | source/types/double-conversion/fast-dtoa.cc:61-166 | with each input within a unit of the truth, safe digits are strictly inside the true interval and strictly closer to the true value than any others of that length |
| GrisuRounding.NoShorterIsNoMultiple | source/types/double-conversion/fast-dtoa.cc:300-396 | with the boundaries within a unit of the truth, no coarser decimal is in the true interval |
| GrisuRounding.GeneratedIsShortest | source/types/double-conversion/fast-dtoa.cc:300-396 | a success of DigitGen is the shortest decimal of the true interval and the only closest one |
| GrisuRounding.Unscale | source/types/double-conversion/fast-dtoa.cc:519-583 | shortest and closest for the double times a power of ten are shortest and closest for the double |
| CountedRounding.CountedIsNear | source/types/double-conversion/fast-dtoa.cc:428-505 | a success of DigitGenCounted is strictly within half a unit of the last place of the true value |
| CountedRounding.CountedIsExact | source/types/double-conversion/fast-dtoa.cc:428-505 | for any real number known to a unit, a success is the number rounded half up, also when the unit hides on which side of a power of ten it lies, unless it is for 19 digits of a number closer below a power of ten than one part in 2^62 - 1; no double is one (NoneAlmostPower) |
| PowerTables.NoneAlmostPower | source/types/double-conversion/fast-dtoa.cc:591-632 | no double is below a power of ten by less than one part in 2^62 - 1, which is what a counted success of 19 digits would need to be wrong |
| PowerNeighbours.RestKeepsAway | source/types/double-conversion/fast-dtoa.cc:591-632 | the binary digits of a power of ten below the 53rd keep all numbers of 53 bits away from it |
| CountedRounding.AtMostNineteen | source/types/double-conversion/fast-dtoa.cc:187-222 | 64 bits are never enough to succeed with 20 digits |
| FastDtoas.TimesWithinUnit | source/types/double-conversion/fast-dtoa.cc:537-571 | a number times a cached power is within one unit of the exact product, half from the power and half from rounding |
| FastDtoas.Grisu3 | source/types/double-conversion/fast-dtoa.cc:519-583 | true only for the shortest digits of the double, which are then also the only closest ones |
| FastDtoas.Grisu3Counted | source/types/double-conversion/fast-dtoa.cc:591-632 | true only for the double rounded half up to the digits asked for, whatever their number |
| AsciiDoubles.FastDtoa | source/types/double-conversion/fast-dtoa.cc:635-663 | a success of either mode meets the contract of the exact path |
| AsciiDoubles.ShortestUnique | source/types/double-conversion/fast-dtoa.cc:519-583 | the shortest digits of a double and their decimal point are unique, ties included: whenever Grisu succeeds, the exact path prints the same |
| AsciiDoubles.ShortestIsClosest | source/types/double-conversion/fast-dtoa.cc:519-583 | no decimal with as many digits as the shortest, at any place, that reads back is closer to the double |
| AsciiDoubles.SamePoint | source/types/double-conversion/fast-dtoa.cc:519-583 | two shortest results never have different decimal points |
| SingleDigits.PowerIsCloser | source/types/double-conversion/bignum-dtoa.cc:203-272 | a power of ten that reads back is closer to the double than any single digit below it, for every double down to the least |
| DecimalTies.UpperOnTie | source/types/double-conversion/bignum-dtoa.h:60-61 | of two equally close shortest decimals the upper one is printed if and only if the last digit of the lower one is odd |
| DecimalTies.NotAlwaysUp | source/types/double-conversion/bignum-dtoa.h:60-61 | 2^-1 + 2^-17 is printed as 0.5000076293945312, although 0.5000076293945313 reads back and is as close |
| UInt128s.UInt128.Multiply | source/types/double-conversion/fixed-dtoa.cc:42-57 | exact product when it fits 128 bits |
| UInt128s.UInt128.Shift | source/types/double-conversion/fixed-dtoa.cc:59-78 | division by, or multiplication with, a power of two, over both halves |
| UInt128s.UInt128.DivModPowerOf2 | source/types/double-conversion/fixed-dtoa.cc:82-95 | splits off the part above a power of two exactly |
| UInt128s.UInt128.BitAt | source/types/double-conversion/fixed-dtoa.cc:101-107 | the bit of the value at a position of either half |
| DigitFilling.FillDigits32FixedLength | source/types/double-conversion/fixed-dtoa.cc:120-127 | as many last digits of the number as asked for, with leading zeros |
| DigitFilling.FillDigits32 | source/types/double-conversion/fixed-dtoa.cc:130-150 | the number without leading zeros, and nothing for zero, through reversing in place |
| DigitFilling.FillDigits64FixedLength | source/types/double-conversion/fixed-dtoa.cc:153-165 | exactly 17 digits of the number |
| DigitFilling.FillDigits64 | source/types/double-conversion/fixed-dtoa.cc:168-186 | a 64-bit number without leading zeros, in three parts |
| DigitFilling.RoundUp | source/types/double-conversion/fixed-dtoa.cc:189-216 | adds one unit in the last place to what the digits denote, through any run of nines and for no digits |
| DigitFilling.TrimZeros | source/types/double-conversion/fixed-dtoa.cc:291-306 | no zero at either end, and the same number denoted |
| FixedDtoas.FillFractionals | source/types/double-conversion/fixed-dtoa.cc:230-286 | the fraction rounded half up to the places asked for, in 64 and in 128 bits; five times the fraction fits in every step |
| FixedDtoas.FractionIsExact | source/types/double-conversion/fixed-dtoa.cc:240-258 | in every step the digits so far and the rest denote the number exactly |
| FixedDtoas.FractionIsRounded | source/types/double-conversion/fixed-dtoa.cc:259-283 | the bit looked at rounds half up, after the last place or after the last digit that is not zero |
| FixedDtoas.FillFractionals64 | source/types/double-conversion/fixed-dtoa.cc:237-264 | the digits, the rest and the rounding bit in 64 bits; the point comes all the way down, so that the source shifts by -1, if and only if the fraction is odd and as many places are asked for as it has bits |
| FixedDtoas.ShiftsByMinusOne | source/types/double-conversion/fixed-dtoa.cc:261-262 | 2251799813685248.5 with one place is such a fraction |
| FixedDtoas.FastFixedDtoa | source/types/double-conversion/fixed-dtoa.cc:309-402 | succeeds if and only if exponent and places are at most 20, and is then the double rounded half up, with no leading or trailing zero digit |
| AsciiDoubles.FixedUnique | source/types/double-conversion/fixed-dtoa.cc:309-402 | the fast and the exact fixed digits denote the same number |
| AsciiDoubles.DoubleToAscii | source/types/double-conversion/double-conversion.cc:365-424 | sign and digits of every finite double in the three modes, with one contract whichever path answers; counted digits are rounded half up |
| StrtodBuffers.CutToMaxSignificantDigits | source/types/double-conversion/strtod.cc:111-126 | the first 779 digits and a one: the number and its replacement lie strictly between the same two neighbours of 779 digits |
| StrtodBuffers.TrimAndCut | source/types/double-conversion/strtod.cc:133-150 | at most 780 digits with no zero at either end, denoting the same number or one between the same neighbours |
| DigitCutting.SameSide | source/types/double-conversion/strtod.cc:111-126 | two numbers strictly between the same neighbours compare alike with every multiple of that weight |
| DigitCutting.LastPlace | source/types/double-conversion/strtod.cc:86-89 | 772 digits reach below the last decimal of every boundary between doubles of that size |
| DigitCutting.CutIsHarmless | source/types/double-conversion/strtod.cc:111-126 | a number and its cut replacement, kept to 772 digits or more, round to the same double |
| StrtodBuffers.ReadUint64 | source/types/double-conversion/strtod.cc:158-169 | the value of the digits read, which fits 64 bits, and stops only when another digit might not fit |
| StrtodBuffers.ReadDiyFp | source/types/double-conversion/strtod.cc:176-194 | the digits rounded to a 64-bit significand: within half a unit, exact if all were read |
| StrtodErrors.NormalizeNear | source/types/double-conversion/strtod.cc:299-301 | normalizing scales significand and error alike |
| StrtodErrors.MultiplyByExact | source/types/double-conversion/strtod.cc:317-325 | an exact power costs half a unit: four eighths on the tracked error |
| StrtodErrors.MultiplyByCached | source/types/double-conversion/strtod.cc:328-337 | a cached power costs half a unit for itself, half for rounding, and an eighth for the product of errors, with a strict bound |
| DiyFpStrtods.AdjustmentPowerOfTen | source/types/double-conversion/strtod.cc:255-274 | the exact normalized power of ten from one to seven |
| DiyFpStrtods.AdjustmentFits | source/types/double-conversion/strtod.cc:318-322 | a short integer times the adjustment power needs no rounding |
| StrtodRounding.RoundDiyFp | source/types/double-conversion/strtod.cc:343-388 | true is the correctly rounded double and false that or the one below, from the tracked error alone, through the shift that makes room and the binade change |
| StrtodRounding.UpIsRounded | source/types/double-conversion/strtod.cc:373-375 | above the middle the incremented significand is right, also when it starts a binade or infinity |
| StrtodRounding.EitherIsRounded | source/types/double-conversion/strtod.cc:381-385 | near the middle it is one of the two neighbours |
| LeastDouble.LeastDoubleIsSafe | source/types/double-conversion/strtod.cc:343-388 | at order -1075, where no bit is left, an approximation with the tracked error belongs to a number of at most half the least double, by the constant of the first cached power |
| DiyFpStrtods.DiyFpStrtod | source/types/double-conversion/strtod.cc:282-389 | true means the correctly rounded double, false means that or the one just below, for every digit string and exponent it is called with |
| Strtods.CompareBufferWithDiyFp | source/types/double-conversion/strtod.cc:400-426 | the exact sign of buffer*10^exponent - f*2^e in both directions, within 128 big digits |
| Strtods.CrossScaled | source/types/double-conversion/strtod.cc:413-425 | comparing the two cross-multiplied integers is comparing the numbers |
| Strtods.ComputeGuess | source/types/double-conversion/strtod.cc:431-454 | right when it says so; otherwise the double or the one below, never infinity |
| Strtods.GuessDecided | source/types/double-conversion/strtod.cc:468-479 | the comparison with the middle picks the correctly rounded one of guess and successor, even on a tie |
| Strtods.Strtod | source/types/double-conversion/strtod.cc:456-480 | the nearest double with ties to even, for every digit string and every exponent |
| RoundTrips.ShortestReadsBack | source/types/double-conversion/bignum-dtoa.h:57-62 | a double read from its own shortest digits is that double |
| RoundTrips.PrintAndRead | source/types/double-conversion/bignum-dtoa.h:57-62 | printing the shortest digits and reading them gives every positive finite double back, whichever paths answer |
| RoundTrips.RelativeError | source/types/double-conversion/strtod.cc:456-480 | a normal double is within 2^-53 of what was read, relatively |
| RoundTrips.FifteenDigits | source/types/s4convertors.cpp:31-47 | 15 counted digits of anything that close to a decimal of 15 digits are that decimal, also just below a power of ten, where the carry restores the point |
| RoundTrips.FifteenDigitRoundTrip | source/types/s4convertors.cpp:31-47 | a decimal of at most 15 digits whose value is in the normal range comes back from its double with the same digits, zeros after them, and the same point |
| RoundTrips.NormalRange | source/types/double-conversion/ieee.h:233-258 | a real rounds to a normal double if and only if it is at least half way below the least normal one and below half way from the largest to infinity |
| RoundTrips.FromLeastToLargest | source/types/double-conversion/ieee.h:233-258 | every real from the least normal double to the largest double is in that range |
| RoundTrips.ReadAndPrint15 | source/types/s4convertors.cpp:31-47 | the same through the two conversions, whichever paths answer |
| TextLiterals.ParseText | source/types/double-conversion/double-conversion.cc:727-919 | parsing the text of a well-formed literal gives the literal |
| TextLiterals.ParsedText | source/types/double-conversion/double-conversion.cc:727-919 | whatever parses is the text of the literal found |
| TextLiterals.CharactersParse | source/types/double-conversion/double-conversion.cc:727-919 | digits with a point anywhere among them or none, a sign or none, and an exponent after e or E, signed or not, or none: every such text is a number of exactly that value and sign |
| TextLiterals.ParsedCharacters | source/types/double-conversion/double-conversion.cc:727-919 | and every number is such a text |
| TextLiterals.SomeNumbers | source/types/double-conversion/double-conversion.cc:727-919 | "1E5" is 100000, "-.5" is half below zero, "1e" is no number |
| Scanners.ScanIntegral | source/types/double-conversion/double-conversion.cc:788-802 | the digits kept, with the count of the others and whether one of them was not zero |
| Scanners.ScanFraction | source/types/double-conversion/double-conversion.cc:835-849 | the digits kept after the point lower the exponent, dropped ones do not |
| Scanners.ReadKept | source/types/double-conversion/double-conversion.cc:940-955 | the kept digits, with a one for what was dropped beyond 772, are read to the double of the whole number |
| Scanners.SaturatedRounds | source/types/double-conversion/double-conversion.cc:893-908 | an exponent that saturates gives the same double as the one written |
| Scanners.LiteralRounds | source/types/double-conversion/double-conversion.cc:921-955 | kept digits and exponent bookkeeping denote the literal up to rounding |
| Scanners.StringToIeee | source/types/double-conversion/double-conversion.cc:644-956 | junk if and only if the input is no literal and no name; a literal is read to the nearest double with its sign, and "INF" and "NAN", alone or behind a sign, to infinity of that sign and to not a number; all characters are consumed or none |
| Layouts.StringBuilder.AddSubstring | source/types/double-conversion/utils.h:247-252 | appends the characters |
| Layouts.StringBuilder.AddPadding | source/types/double-conversion/utils.h:257-261 | appends the character as often as asked for |
| Layouts.StringBuilder.TrimTrailingZeros | source/types/double-conversion/utils.h:279-311 | the text of the literal without the zeros at the end of its fraction, without a bare point, and with the exponent moved up; text without a point stays |
| Layouts.TrimmingKeepsMagnitude | source/types/double-conversion/utils.h:279-311 | what remains is a literal of the same magnitude if and only if there was an integral digit or a fraction digit that is not zero |
| Layouts.TrimmedForm | source/types/double-conversion/utils.h:279-311 | trimming keeps sign, integral digits and exponent, and leaves no zero at the end of the fraction and no point without digits |
| Layouts.BareZerosVanish | source/types/double-conversion/utils.h:279-311 | ".000" is the number zero, and what is left of it is the empty text, which is no number |
| Layouts.CreateExponentialRepresentation | source/types/double-conversion/double-conversion.cc:75-110 | appends d.ddde[-]x of exactly that magnitude: one integral digit, a point unless it is the only one, the mark e, and an exponent without leading zeros |
| Layouts.CreateDecimalRepresentation | source/types/double-conversion/double-conversion.cc:113-158 | appends ddd.ddd of exactly that magnitude: as many integral digits as stand before the point, or one, the places asked for, and a point exactly if there are any |
| TextConversions.HandleSpecialValues | source/types/double-conversion/double-conversion.cc:54-72 | the names of infinity, with its sign, and of what is not a number |
| TextConversions.ToPrecision | source/types/double-conversion/double-conversion.cc:284-338 | succeeds exactly for 1 to 120 digits, and appends a literal of the sign of the double whose magnitude is the double rounded half up to that many digits; with an exponent if and only if more than 14 zeros would follow the point or the digits end before it, in the form of the layout; appends nothing otherwise |
| TextConversions.LayOut | source/types/double-conversion/double-conversion.cc:318-336 | the choice between the two layouts, and the form of each |
| TextConversions.FastDtoaText | source/types/s4convertors.cpp:36-47 | the text is a literal of the sign of the double, and its magnitude is the double rounded half up to 15 digits; which layout it has follows from the decimal point, and its fraction does not end in a zero |
| Layouts.OneLiteral | source/types/double-conversion/double-conversion.cc:75-158 | sign, magnitude, layout and number of integral digits leave one literal without zeros at the end |
| TextConversions.OneText | source/types/s4convertors.cpp:36-47 | so there is one text that meets this contract |
| TextConversions.PrintExactly | source/types/s4convertors.cpp:36-47 | a double that is a decimal of 15 digits is printed as the text of exactly that value in its layout |
| TextConversions.PrintSome | source/types/s4convertors.cpp:36-47 | "1.5", "-1e20" and "-0" |
| TextConversions.SpecialThroughText | source/types/s4convertors.cpp:31-47 | infinities and what is not a number are printed as "INF", "-INF" and "NAN", and read back as such |
| TextConversions.LayOutAndRead | source/types/double-conversion/double-conversion.cc:75-158 | any digits in either layout, trimmed or not and scanned, are read to the double nearest to what they denote |
| TextConversions.TextThroughDouble | source/types/s4convertors.cpp:31-47 | text of a number with at most 15 digits in the normal range, read and printed again, is text of exactly the same number with the same sign |
| Calendars.GuessConverges | source/common/offtime.cpp:72-81 | a guess keeps the date and either finds the year or leaves a smaller absolute number of days; the number shrinks if and only if the days do not reach back by at most half of the year before |
| Calendars.MagnitudeCanGrow | source/common/offtime.cpp:72-81 | in all other cases the year before is the next guess and right, at a day with a number at least as large, such as 364 after -1 |
| Calendars.LeapsThru | source/common/offtime.cpp:70-71 | the truncating division macros count the leap years up to a year, before the year zero as well |
| Calendars.FieldsUnique | source/common/offtime.cpp:44-97 | no two broken-down times are the same second |
| Calendars.MonthRule | source/common/offtime.cpp:26-32 | the tables follow the calendar: thirty and thirty-one days in turn, 31 in July and August, 28 or 29 in February |
| Calendars.Offtime | source/common/offtime.cpp:44-97 | ends for every time; the only Gregorian date and time of that second, with weekday and day of the year; fails exactly if the year does not fit |
| Calendars.FirstOfMay | source/common/offtime.cpp:26-97 | second 10379045 is 3:04:05 of Friday, 1 May 1970, packed as 19700501 and 30405 |
| Calendars.TmToUtc | source/common/s4time.cpp:178-208 | the true seconds of a valid time if and only if its leap days are counted right, and in any case the count of the loops |
| Calendars.ToUtcDiffers | source/common/s4time.cpp:178-208 | by how many days the count is wrong, for every valid time |
| Calendars.ToUtcIsExact | source/common/s4time.cpp:178-208 | the count is right in exactly these months of all years: from 1968 to February 2100, in leap years from 1904, from March to December 1900, and from 1801 to 1899 outside every fourth year |
| Calendars.ThereAndBack | source/common/s4time.cpp:178-208 | there and back gives the same time if and only if the leap days are counted right: from 1970 on, before 4107542400 |
| Calendars.UtcToDate | source/common/s4time.cpp:36-52 | the packed date and time of the only fields of that second |
| Calendars.DateToUtc | source/common/s4time.cpp:96-121 | the true seconds of the only fields that pack to these two numbers, if and only if they are before March 2100 |
| Calendars.PackAndUnpack | source/common/s4time.cpp:36-121 | packing and unpacking gives every time of 1981 to February 2100 back |
| ParticleQueues.ReleaseKeeps | include/queue/simpleQ_mpmc_ar.h:72-80 | giving up a pointer loses no particle: it stays with other pointers or passes into the hands of the destructor |
| ParticleQueues.StepKeeps | include/queue/simpleQ_mpmc_ar.h:72-312 | every atomic step keeps conservation, live handles and separate pages |
| ParticleQueues.RunConserves | include/queue/simpleQ_mpmc_ar.h:72-312 | in every state of every run, under every interleaving, the invariant holds |
| ParticleQueues.OnePlace | include/queue/simpleQ_mpmc_ar.h:72-312 | a particle is never in two places |
| ParticleQueues.SomePlace | include/queue/simpleQ_mpmc_ar.h:72-312 | an allocated particle is always in some place |
| ParticleQueues.NullsEnter | include/queue/simpleQ_mpmc_ar.h:157-168 | a step puts the first null entry somewhere if and only if it bulk-sends a handle already emptied |
| ParticleQueues.RunWithoutNulls | include/queue/simpleQ_mpmc_ar.h:157-168 | a run never holds a null if and only if it never does that |
| ParticleQueues.NullRun | include/queue/simpleQ_mpmc_ar.h:157-168 | such a run exists: two pointers to one handle, both sent in bulk, put a null before the consumers |
| ParticleOperations.LeadsIsRun | include/queue/simpleQ_mpmc_ar.h:112-312 | the steps an operation reports are a run of the state machine |
| ParticleOperations.ParticleQueue.Send | include/queue/simpleQ_mpmc_ar.h:72-80 | the pointer is gone; if no other refers to the same handle, its item is in the queue the handle was made for and the other queue stays; with another pointer, or for an emptied handle, both queues stay |
| ParticleOperations.ParticleQueue.DrawAndSend | include/queue/simpleQ_mpmc_ar.h:114-154 | what a producer takes and sends reaches the consumers, what a consumer takes and returns is back in the pool, and the other entries stay |
| ParticleOperations.CopyShares | include/queue/simpleQ_mpmc_ar.h:98 | a pointer assigned from another one shares its handle, and what it referred to before is given up |
| ParticleOperations.ParticleQueue.Draw | include/queue/simpleQ_mpmc_ar.h:114-131 | takes an entry exactly if there is one, hands it out in a new handle whose destructor goes to the other queue, and gives up what the pointer referred to |
| ParticleOperations.ParticleQueue.GetTryBest | include/queue/simpleQ_mpmc_ar.h:134-148 | succeeds if and only if the pool has a frame or 64 new ones can be had; the pool then holds its entries and the new frames without the one handed out, and what the pointer gave up is in its queue |
| ParticleOperations.ParticleQueue.SendBulk | include/queue/simpleQ_mpmc_ar.h:157-168 | the consumer queue gains one entry for each pointer, the particle of its handle or null if an earlier pointer shared the handle; the pool stays and the pointers are gone |
| ParticleOperations.ParticleQueue.ReceiveBulk | include/queue/simpleQ_mpmc_ar.h:201-217 | as many entries as there are, up to the limit, each in a handle of its own slot; the queues hold the rest and what the slots gave up, in order; other pointers stay |
| ParticleOperations.ParticleQueue.InitDataPool | include/queue/simpleQ_mpmc_ar.h:294-312 | all the new frames are in the pool, or none exist; fails exactly for none asked for or memory short |
| ParticleOperations.PagesAreApart | include/queue/simpleQ_mpmc_ar.h:250-291 | frames cut out of one chunk overlap neither each other nor any page in use |

## Left out

- Scanners.StringToIeee: inputs of 0x3FFFF000 characters and more (about 2^30). The source counts the exponent
  in an `int`, saturates the written one at 2^30 - 1, and asserts half of that before it reads one
  (`source/types/double-conversion/double-conversion.cc:893-894`).
- StrtodBuffers.TrimAndCut: the buffer is a slice of a sequence; that the source reuses the caller's memory for
  an untouched result is not modelled.
- TextConversions.ToPrecision: assumes a builder with room for the result, as the assertions of the source do.
- Calendars.UtcToDate: the time of day is left unset by the source when the year does not fit; the model sets it
  to zero and promises nothing about it.
- Calendars.Offtime: `time_t` is unbounded, so overflow within 64 bits of seconds is not modelled.
- Calendars.TmToUtc: the `int` arithmetic of years and hours is unbounded.
- ParticleOperations.ParticleQueue: the methods run without interference between their steps; interleavings
  are covered by the state machine, of which they are runs.
- Single precision (`Strtof`, the shortest single mode): casts between float formats.
- `DoubleStrtod` itself: floating-point hardware; it is a parameter with a contract.
- `RadixStringToIeee`, hexadecimal and octal input, spaces and trailing junk: switched off by the flags of
  `source/types/s4convertors.cpp:25-30`.
- `ToFixed`, `ToShortest` and `ToExponential` as text: easy beside `ToPrecision`, with the same layouts.
- Queue order, tokens, timeouts and failing to enqueue: the queues are multisets. `_depth`: counted twice for
  each particle in the source, so it is not the number of particles.
- The frame contents and the extra information of a particle.
- Comma formatting, `IntConvertor`, padding of converted text, string splitting: small and easy.
- Sockets, logging, file system, signals, market codes: input and output.

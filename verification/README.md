# A verified model of QuickJS's number and text cores

This project models the algorithmic heart of four QuickJS libraries and proves what they compute:

- **libbf** — arbitrary precision arithmetic on 64-bit limbs: schoolbook and Newton division, recursive square root,
  number-theoretic-transform multiplication of any length, division without division instructions, decimal long division,
  radix conversion, and correctly rounded floating point addition, multiplication, division and square root.
- **libregexp** — the regular expression compiler and its backtracking machine, from a parsed pattern to bytes and from
  bytes to a verdict.
- **cutils** — the non-recursive quicksort with its heapsort fallback.
- **libunicode** — character sets as sorted interval tables, and the canonical ordering and composition of normalization.

Numbers stored in tables of limbs are specified by `Limbs.Val`, their value in base 2^64; the methods work in place on arrays
with offsets, as the C code does with pointers. Machine words wrap: every `% B` is a place where the C code relies on
unsigned arithmetic. Objects that the C code updates are classes (`BigFloat.Bf`, `RegexpEmit.Compiler`,
`RegexpExec.ExecContext`, `CharRange.Range`).

The regular expression part is layered. `RegexpSyntax.Results` says, for a pattern and a place in the text, which places it
can lead to, in order of priority. `RegexpCompile.Compile` is the code for a pattern, and `RegexpEmit` proves that the
compiler's insertions and patches in a growing byte buffer write exactly that code. `RegexpSearch.Search` is the meaning of
code as a depth-first search with fuel; `RegexpMachine` proves that the explicit machine with its stack of saved states
refines it in both directions. `RegexpCorrect.Correct` connects the two ends: whatever going on from the pattern's results
yields — a match, a failure, or no end — running the code yields. `RegexpStack` and `RegexpSteady` show that no run of compiled
code overflows its stack or aborts, and `RegexpPair` where verdicts go wrong. `RegexpMeaning` and `RegexpCaptures` say what
the results are in terms of the text's units: characters, assertions, back references, and what the groups capture.

Floating point is layered in the same way. `Rounding` says what each direction demands of a rounded mantissa and shows that
all but the faithful one leave no choice. `BigFloatBits` and `BigFloat` read the deciding bits from the limb table, add the
increment, renormalize and set the flags. `BigFloatCancel` and `BigFloatSum` align, add and subtract with only the leading
limbs kept, and `BigFloatAdd`, `BigFloatMul`, `BigFloatDiv` and `BigFloatSqrt` prove that the result is the exact sum,
product, quotient or root, rounded once. `BigFloatExact` says in numbers where that rounding puts its last bit and its
limits, and that exact results are returned unchanged.

Normalization is stated twice: `Normalize` proves the loops against the canonical ordering and composition algorithms, and
`CanonicalEquivalence` proves what these do to a text.

`dafny verify dfyconfig.toml` checks the whole project.

## Model

| member | source | states |
|---|---|---|
| `Kernels.MpAdd` | libbf.c:1024-1040 | The window becomes the sum of both tables and the carry in, the carry out weighing `B^n`. |
| `Kernels.MpSub` | libbf.c:1058-1075 | The window becomes the difference less the borrow in, with the borrow out weighing `B^n`; nothing else changes. |
| `Kernels.MpMul` | libbf.c:1161-1174 | The schoolbook product: the value of the result is the product of the values, for all lengths. |
| `Kernels.MpShr` | libbf.c:1113-1128 | Shifting right by 1 to 63 bits, with bits filled in from above: what is shifted out is returned, and nothing is lost. |
| `WordDivision.Udiv1Norm` | libbf.c:1214-1242 | Two words divided by a normalized word through the precomputed reciprocal give the exact quotient and remainder. |
| `SchoolbookDivision.MpDiv1Norm` | libbf.c:1245-1264 | A table divided by a normalized limb, with a remainder carried in, gives the exact quotient and remainder. |
| `SchoolbookDivision.DivDigit` | libbf.c:1305-1344 | One digit of long division: after the estimate and the subtraction at most two corrections are needed, and the window is then the remainder. |
| `Division.MpDivNorm` | libbf.c:1275-1344 | For every normalized divisor the quotient and remainder are exact, whichever of the limb, schoolbook and reciprocal paths is taken. |
| `Division.MpRecip` | libbf.c:1346-1412 | For every normalized table of `n` limbs the result `x` has top limb 1 and satisfies `a x < B^(2n) < a (x + 2)`, through the recursion and the correction loop. |
| `Division.MpDivNormLarge` | libbf.c:1432-1522 | Division by multiplying with an approximate inverse ends with the exact quotient and a remainder below the divisor. |
| `WordSqrt.MpSqrtRem2` | libbf.c:1881-1970 | The root of two limbs by an 8-bit table and two refinements is exact, remainder included. |
| `SquareRoot.MpSqrtRemRec` | libbf.c:1972-2042 | The recursive root of `2n` limbs: `s^2 + r == a` with `r <= 2 s`, the extra remainder bit returned, after at most one correction. |
| `SquareRoot.MpSqrtRem` | libbf.c:2044-2068 | The entry point: the root and remainder of every normalized table. |
| `SquareRoot.RootUnique` | libbf.c:2044-2049 | Those two conditions determine the root and the remainder. |
| `NttWords.MulModFast2` | libbf.c:7428-7441 | For every word, multiplication by a constant with its precomputed quotient is the reduced product. |
| `NttWords.ModFast` | libbf.c:7387-7407 | Reduction of two words by the precomputed inverse and sign masks gives the residue. |
| `NttWords.LeastModulusOverflows` | libbf.c:7418-7426 | Of the moduli that the assertions allow, all but the smallest have a precomputed inverse that fits a word, and that of the smallest does not. |
| `Fourier.Inversion` | libbf.c:7940-7970 | Transforming with the inverse root gives back every coefficient, times the length. |
| `Fourier.ConvolutionTheorem` | libbf.c:7940-7970 | The product of transforms is the transform of the cyclic convolution. |
| `Ntt.NttFft` | libbf.c:7721-7775 | The in-place transform: entry `j` of the result is the polynomial of the input at the `j`-th power of the root, for every length. |
| `Ntt.NttConvLeaf` | libbf.c:7721-7801 | Two buffers transformed, multiplied and transformed back hold the cyclic convolution modulo the prime, times the length and the scaling factor of the whole. |
| `FourierSplit.RowsConvolve` | libbf.c:7882-7970 | The convolutions of the rows that the split makes are the rows of the convolution. |
| `NttSplit.PartialFft` | libbf.c:7882-7936 | Every column is transformed and twisted by its power of the root, or on the way back twisted and transformed. |
| `NttSplit.NttConv` | libbf.c:7938-7970 | The recursive convolution, transforms of columns around shorter convolutions of rows, is the cyclic convolution for every length that the tables serve. |
| `NttTables.StaticInit` | libbf.c:8246-8306 | The tables built at start-up hold, for each prime, roots and inverse roots of every order up to `2^51`, scaling factors and pairwise inverses. |
| `NttRoots.Root0` | libbf.c:7290-7310 | The first stored constant is a primitive `2^51`-th root of unity of its modulus, and its stored inverse is its inverse. |
| `Bits.GetBits` | libbf.c:318-339 | The 64 bits from any position, also outside the table, are those of the number shifted there. |
| `Bits.PutBits` | libbf.c:7240-7256 | Or-ing a word in at a free position adds it at that weight; what lies past the end is dropped. |
| `FftDigits.LimbToNtt` | libbf.c:7973-8031 | Cutting a number into digits of any width gives its base-`2^w` digits, reduced. |
| `Remainders.ToMixedRadix` | libbf.c:8146-8185 | From residues modulo the primes: the mixed-radix digits of the unique number with those residues. |
| `FftMul.NttToLimb` | libbf.c:8146-8243 | Carrying the reconstructed coefficients into the table gives the value of the polynomial at the digit base. |
| `FftSize.GetFftSize` | libbf.c:8308-8357 | A shape is found exactly for products of at most `2^52` limbs, and its digits, primes and length always suffice. |
| `FftMul.Multiply` | libbf.c:8360-8457 | The whole transform multiplication writes the exact product of two tables, for all sizes that the library accepts. |
| `FastDivision.MultiplierExact` | libbf.c:5461-5491 | Multiplying and shifting divides every word correctly if and only if the rounding error of the multiplier, times the worst word, stays below the shifted unit. |
| `FastDivision.FastUdiv` | libbf.c:5485-5491 | The multiply-and-shift quotient with wrapped words equals `a / d` for every word. |
| `FastDivision.FastUdivInit` | libbf.c:5461-5483 | The multiplier and shifts computed for a divisor serve it. |
| `FastDivision.FastShrDec` | libbf.c:5519-5560 | Every entry of the stored table divides every word by its power of ten. |
| `FastDivision.LastEntry` | libbf.c:5552 | The entry for 10^19 is two above what the construction gives, and is still exact for every word. |
| `FastDivision.DivdqBase` | libbf.c:5412-5431 | Two words divided by 10^19 through a rounded reciprocal and sign masks: exact quotient and remainder. |
| `DecimalKernels.MpSubMul1Dec` | libbf.c:5679-5704 | Subtracting a multiple of a decimal table: what is still to be taken from above never reaches the base. |
| `DecimalKernels.MpDiv1Dec` | libbf.c:5722-5785 | Division of a decimal table by a limb, with a remainder carried in, by halving, by a shifted reciprocal or by the machine: exact quotient and remainder. |
| `DecimalDivision.ScaledTop` | libbf.c:5866-5877 | The multiplier lifts the top limb of any divisor to at least half the base without overflowing it. |
| `DecimalDivision.DivDigitDec` | libbf.c:5885-5920 | One digit in base 10^19: at most two corrections, and the low limbs of the window are then the remainder. |
| `DecimalDivision.MpDivDec` | libbf.c:5817-5934 | For every divisor with a top limb that is not zero: exact quotient and remainder, the scaling taken out again. |
| `Rounding.RndAddCorrect` | libbf.c:394-446 | The tests of the half bit, the rest and the odd bit implement each rounding direction; INEXACT is set exactly if bits are lost. |
| `Rounding.RoundingUnique` | libbf.h:108-117 | Every direction but the faithful one determines the rounded mantissa. |
| `Rounding.RoundingIs` | libbf.h:108-117 | The rounded mantissa by quotient and remainder, direction by direction: the quotient or the next number, with ties to even, ties away, or either for the faithful one. |
| `Rounding.StickyRounds` | libbf.c:926-994 | With two bits more than the precision, rounding a cut mantissa with a sticky bit is rounding the exact one, in every direction. |
| `BigFloatBits.GetBit` | libbf.c:341-348 | The bit at any position, zero outside the table. |
| `BigFloatBits.ScanBitNz` | libbf.c:372-391 | Whether any bit up to a position is set. |
| `BigFloatBits.GetRndAdd` | libbf.c:394-446 | The increment read from the limb table makes the cut mantissa the correctly rounded one, also for precisions that are zero or negative. |
| `BigFloat.RoundMantissa` | libbf.c:525-589 | Adding one at any bit, renormalizing after a carry out of the top, clearing and trimming leaves a normalized mantissa with the rounded value. |
| `BigFloat.Bf.SetOverflow` | libbf.c:448-477 | Overflow gives infinity or the largest number of the precision, by direction and sign. |
| `BigFloat.Bf.Round` | libbf.c:479-589 | For every direction, precision and exponent range: the mantissa is the rounding that the direction demands, a carry raises the exponent, INEXACT holds exactly if bits are lost, and underflow, subnormal results and overflow are as flagged. |
| `BigFloat.Bf.NormalizeAndRound` | libbf.c:591-625 | Any table, with leading zeros or none: the number it stands for, rounded once at the precision its own exponent gets. |
| `BigFloatCancel.CountCancelledBits` | libbf.c:806-866 | After the counted `n` bits the first number is ahead by exactly one, and the difference has `n` or `n - 1` leading zeros: `n` if and only if the bits that follow are smaller in the first number than in the second. |
| `BigFloatCancel.OneBitFewer` | libbf.c:811-812 | 3/4 less 1/4, both normalized: one bit is counted, and the difference has no leading zero. |
| `BigFloatSum.SumLow` | libbf.c:935-981 | The limbs below the kept ones: their carry, and whether any of them is not zero, although stretches outside both operands are skipped. |
| `BigFloatSum.SumHigh` | libbf.c:982-992 | The kept limbs are the leading limbs of the exact sum or difference. |
| `BigFloatSum.CollectedSticky` | libbf.c:993-1002 | Kept limbs, sticky bit and carry limb are the exact result, cut with a sticky bit. |
| `BigFloatAdd.CmpU` | libbf.c:736-759 | Zeros come first, then finite numbers, infinities and NaN; finite numbers are ordered by exponents, then limbs from the top, which is the order of absolute values. |
| `BigFloatAdd.AddFinite` | libbf.c:908-1004 | Finite operands: the exact sum or difference of the absolute values, rounded once. |
| `BigFloatAdd.AddInternal` | libbf.c:868-1010 | Addition and subtraction of any two numbers: NaN, infinities and signed zeros as IEEE 754 has them, otherwise the exact sum rounded once, with the right sign and flags. |
| `BigFloatMul.Mul` | libbf.c:1524-1603 | Multiplication of any two numbers: special cases as IEEE 754 has them, otherwise the exact product rounded once; faithful rounding works on cut operands and is next to the exact product unless both are cut at a precision that is two short of whole limbs. |
| `BigFloatMul.FaithfulFails` | libbf.c:1561-1568 | For every precision two short of whole limbs, and for all lengths of both operands above it, there are operands whose faithfully rounded product is not next to the exact one. |
| `BigFloatMul.MulUnfaithful` | libbf.c:1524-1603 | Multiplication called on such operands, at all exponents that keep the product normal, gives a result that is not next to the exact product. |
| `BigFloatDiv.QuotientFromSticky` | libbf.c:1687-1716 | Rounding the integer quotient with a sticky bit for the remainder rounds the exact quotient, in every direction. |
| `BigFloatDiv.Div` | libbf.c:1652-1722 | Division of any two numbers: the exact quotient rounded once, and division by zero, infinities and NaN as IEEE 754 has them. |
| `BigFloatSqrt.RootFromSticky` | libbf.c:2151-2184 | Rounding the integer root with a sticky bit rounds the exact, usually irrational root, in every direction. |
| `BigFloatSqrt.Sqrt` | libbf.c:2126-2188 | Square root of any number: the exact root rounded once, for odd and even exponents, long and short operands. |
| `BigFloatSqrt.RadicandIsOperand` | libbf.c:2151-2165 | The fraction whose root is taken is the operand, in units of the square of the root's unit. |
| `BigFloatExact.LastBitIs` | libbf.c:489-510 | The last bit kept has weight `2^(e - prec1)` for a number with exponent `e`; `2^(3 - expRange - prec1)` for subnormal results; `2^-prec1` with the radix-point flag. |
| `BigFloatExact.OverflowIs` | libbf.c:448-477 | Overflow gives infinity to nearest, away from zero, at infinite precision, and for the directions that point away from zero; otherwise `2^prec1 - 1` units of the last bit at the largest exponent. |
| `BigFloatExact.RoundedAtUnit` | libbf.c:479-589 | Sums, products and everything else correctly rounded are the exact number rounded to multiples of that last bit; below exponent `3 - expRange` it becomes zero or is flagged UNDERFLOW if inexact, above `expRange` it overflows. |
| `BigFloatExact.QuotientAtUnit` | libbf.c:1687-1716 | The same for quotients. |
| `BigFloatExact.RootAtUnit` | libbf.c:2151-2184 | The same for roots. |
| `BigFloatExact.ExactSumReturned` | libbf.c:868-1010 | A sum of at most `prec1` bits with a normal exponent is returned as it is, with no flag. |
| `BigFloatExact.ExactProductReturned` | libbf.c:1524-1603 | So is a product. |
| `BigFloatExact.ExactQuotientReturned` | libbf.c:1652-1722 | So is a quotient. |
| `BigFloatExact.ExactRootReturned` | libbf.c:2126-2188 | So is the root of a square. |
| `BigFloatExact.OnePlusLast` | libbf.c:868-1010 | 1 + 2^-52 at 53 bits is exact. |
| `RadixConversion.SplitNear` | libbf.c:2704-2706 | The split by level, the same on every path, leaves no part empty and makes the upper part at most one digit longer; every level used has its place in the table of powers. |
| `RadixConversion.PowUi` | libbf.c:2261-2278 | Powers by squaring from the top bit of the exponent. |
| `RadixConversion.FromRadix` | libbf.c:2692-2753 | The divide-and-conquer conversion with its cache of powers yields the value of the digits. |
| `RadixConversion.EstimateNear` | libbf.c:3406-3420 | With the precisions the code chooses, the quotient by the rounded inverse is off by at most one. |
| `RadixConversion.DivideCorrected` | libbf.c:3406-3441 | So each correction loop runs at most once, and the quotient and remainder are exact. |
| `RadixConversion.ToRadix` | libbf.c:3372-3482 | The digits written are the digits of the number. |
| `RadixConversion.ThereAndBack` | libbf.c:3372-3482 | Converting any integer to a radix and back is the identity. |
| `RadixConversion.BackAndThere` | libbf.c:2692-2753 | Converting any digits to a number and back is the identity. |
| `RegexpCode.FetchStands` | libregexp-opcode.h:27-58 | Decoding the bytes of an instruction gives back the instruction and the position behind it. |
| `RegexpSyntax.ResultsMove` | libregexp.c:943-949 | A pattern that must advance does, every result stays between two characters, and none moves against the direction of reading. |
| `RegexpMeaning.CharAt` | libregexp.c:1924-2020 | The character at a position, or before it: one unit, or a surrogate pair as the code point that it encodes, within the stretch that is read. |
| `RegexpMeaning.OneForward` | libregexp.c:2175-2256 | A pattern for one character goes on behind the next character if that is the one, up to case if case is ignored, or no line end for the dot. |
| `RegexpMeaning.OneBackward` | libregexp.c:1236-1244 | Reading backward, the same for the character before. |
| `RegexpMeaning.AnyTimes` | libregexp.c:1566-1691 | A loop over any character, with its bounds: a greedy one prefers more characters, a lazy one fewer. |
| `RegexpMeaning.LineStartMeans` | libregexp.c:2227-2235 | `^` holds at the start and, in multi-line mode, behind a unit that ends a line. |
| `RegexpMeaning.LineEndMeans` | libregexp.c:2236-2244 | `$` holds at the end and, in multi-line mode, before such a unit. |
| `RegexpMeaning.WordBoundaryMeans` | libregexp.c:2301-2322 | A word boundary is where exactly one of the units on either side is a letter, a digit or an underscore. |
| `RegexpMeaning.RepeatMeans` | libregexp.c:2334-2348 | A captured text is matched again if and only if the same characters follow, up to case if case is ignored; the match ends behind them. |
| `RegexpMeaning.RepeatBackwardMeans` | libregexp.c:2349-2364 | Backward, if and only if the same characters stand before. |
| `RegexpMeaning.RepeatUnits` | libregexp.c:2334-2348 | Without pairs: if and only if the captured units stand at the position. |
| `RegexpMeaning.RepeatBackwardUnits` | libregexp.c:2349-2364 | Without pairs, backward: if and only if they stand before it. |
| `RegexpMeaning.ReferenceMeans` | libregexp.c:2323-2366 | A reference to an unset group matches nothing at all; any other matches as above, backward inside lookbehind. |
| `RegexpMeaning.ReferenceUnits` | libregexp.c:2323-2366 | The same in units, without pairs. |
| `RegexpMeaning.LoopForgets` | libregexp.c:1603-1612 | A loop that may run zero times unsets the captures of exactly the groups inside it, once, before it runs. |
| `RegexpCaptures.GroupCaptures` | libregexp.c:1336-1352 | A group captures exactly the stretch that it matched, from left to right also when it was read backward. |
| `RegexpCaptures.OthersKept` | libregexp.c:1336-1352 | A pattern changes no captures but those of its own groups. |
| `RegexpCaptures.MatchesOrder` | libregexp.c:1821-1909 | In every match each group is unset or encloses a stretch of the text, and group 0 ends where the match does. |
| `RegexpCompile.AlwaysMeansMust` | libregexp.c:950-1030 | Code that the compiler finds always to advance comes from a pattern that cannot match nothing. |
| `RegexpSimple.SimpleLoopRule` | libregexp.c:1566-1590 | The one-instruction loop, which counts repetitions and then steps back through the text, does what the general loop does. |
| `RegexpCorrect.StarRule` | libregexp.c:1600-1652 | Unlimited loops, with or without the check for progress, yield what their iterations yield. |
| `RegexpCorrect.Correct` | libregexp.c:1215-1770 | The code of every sound pattern goes on from the pattern's results in order: it yields whatever they yield, and does not end if they do not. |
| `RegexpMachine.MachineRefinesSearch` | libregexp.c:2089-2174 | A run of the machine that ends reports what the recursive search finds. |
| `RegexpMachine.SearchRunsMachine` | libregexp.c:2089-2174 | A search that ends is carried out by the machine in finitely many steps. |
| `RegexpExec.ExecBacktrack` | libregexp.c:2089-2490 | The loop over registers and the stack of saved states reaches the configuration that the step relation gives. |
| `RegexpExec.PerformRange` | libregexp.c:2367-2443 | The loop does what the step relation does, and with ascending pairs it goes on exactly if the character lies between the bounds of a pair or, with 16-bit bounds, above a last bound of 0xffff. |
| `RegexpExec.PerformReference` | libregexp.c:2323-2366 | The loops that compare a captured text character by character do what the step relation does. |
| `RegexpRanges.FindsPair` | libregexp.c:2385-2402 | The binary search among ascending pairs succeeds if and only if some pair holds the character. |
| `RegexpEmit.Compiler.EmitNode` | libregexp.c:1215-1770 | The byte buffer grows by exactly the code of the pattern, with captures numbered in order; it fails only for too many captures. |
| `RegexpEmit.Compiler.EmitLoop` | libregexp.c:1566-1691 | Inserting and patching around the bytes of an atom yields the code of the quantified atom. |
| `RegexpRanges.EmitRange` | libregexp.c:821-857 | The emitted 16- or 32-bit pairs ascend and accept exactly the characters of the set; it fails exactly for too many pairs. |
| `RegexpProgram.ProgramRuns` | libregexp.c:1830-1870 | For every sound pattern, text and start the machine ends and reports the first match and its captures. |
| `RegexpStack.ComputeStackSize` | libregexp.c:1773-1815 | The linear scan finds the largest depth, or refuses exactly if it exceeds the limit. |
| `RegexpStack.StackNeverOverflows` | libregexp.c:1773-1815 | No reachable configuration, on any text and after any number of steps, has a deeper stack. |
| `RegexpStack.CompiledSafe` | libregexp.c:1215-1770 | In compiled code every jump lands on an instruction with the depth it was computed for. |
| `RegexpSteady.CompiledSteady` | libregexp.c:1215-1770 | Compiled code names only captures that exist, and the body of a simple loop is straight up to its end. |
| `RegexpSteady.NeverCrashes` | libregexp.c:2089-2490 | No run of a compiled program aborts, for any pattern, sound or not, any text and start, and after any number of steps. |
| `RegexpMain.LreCompile` | libregexp.c:1821-1909 | Compilation yields the program's bytes, capture count and stack size; it fails exactly for more than 255 captures or a stack of more than 255 entries. |
| `RegexpMain.LreExec` | libregexp.c:2499-2535 | Running a compiled sound pattern ends and returns its first match, with captures, each of them unset or a stretch of the text; from a start inside a surrogate pair, for patterns without simple loops. |
| `RegexpMain.ExecStack` | libregexp.c:2499-2535 | During such a run the stack stays within the size stored in the program. |
| `RegexpPair.StepBackExact` | libregexp.c:2137-2159 | Stepping back over the character just read returns to the start if and only if the start was not inside a surrogate pair. |
| `RegexpPair.PairRuns` | libregexp.c:2137-2159 | A run that starts inside a pair with a simple loop, where what follows fails behind the pair: the pattern goes on from the start, the machine from the place before the pair, and this is what it reports. |
| `RegexpPair.DotStarExample` | libregexp.c:2137-2159 | `.*^` on one surrogate pair, sticky, from between its halves: there is no match, and the machine reports one from 1 to 0. |
| `RegexpPair.WrongInsidePair` | libregexp.c:2499-2535 | For every text and every start inside a pair there is a pattern that does not match and is reported to match. |
| `RegexpPair.RightExact` | libregexp.c:2499-2535 | On a text and from a start, the machine is right about all patterns if and only if the start is not inside a pair. |
| `RegexpDiverge.LoopUndefined` | libregexp.c:1591-1652 | A loop without the check whose body never fails along its own first results, and which if lazy is followed by what fails there, has no outcome at any fuel. |
| `RegexpDiverge.QuantifiedUndefined` | libregexp.c:1591-1691 | No outcome either for the whole code of `*`, `+` and `{n,}`, greedy or lazy, with its resets and mandatory iterations. |
| `RegexpDiverge.MachineNeverEnds` | libregexp.c:2089-2490 | Then the machine has neither reported a result nor aborted after any number of steps. |
| `RegexpEndless.ExecNeverEnds` | libregexp.c:2499-2535 | A compiled pattern with such a loop runs for ever on such a text: no result and no abort after any number of steps. |
| `RegexpEndless.LazyExample` | libregexp.c:1596-1597 | `(?:)*?a` on "b" runs for ever. |
| `RegexpEndless.GreedyExample` | libregexp.c:1594-1595 | On "c", the starred choice between the group `(a)` and a reference to it, followed by `b`, runs for ever. |
| `HeapSort.HeapSortX` | cutils.c:470-502 | The array is a permutation of itself in ascending order. |
| `QuickSort.MedianBetween` | cutils.c:504-510 | The chosen pivot lies between the two others. |
| `QuickSort.Rqsort` | cutils.c:512-629 | For every comparison that is a total preorder the array becomes a sorted permutation of itself, and the stack of fifty pending stretches never overflows. |
| `CharRange.Range.Compress` | libunicode.c:325-353 | Dropping empty and merging touching intervals keeps the set and makes its table canonical. |
| `CharRange.Range.Combine` | libunicode.c:355-404 | A character is in the result exactly if it is in either set, in both sets, or in one but not the other, by operation; the table is canonical. |
| `CharRange.Range.Union1` | libunicode.c:406-416 | Union in place. |
| `CharRange.Range.UnionInterval` | libunicode.h:91-97 | Adding the characters between two bounds. |
| `CharRange.Range.Invert` | libunicode.c:418-431 | The complement. |
| `CharRange.InInterval` | libunicode.h:60-97 | Membership by counting points below a character is membership in one of the intervals. |
| `Normalize.SortCC` | libunicode.c:773-807 | Every run of combining characters is sorted by class, and the buffer is the canonical reordering. |
| `Normalize.SortRunStable` | libunicode.c:773-807 | Within a class the order is kept. |
| `Normalize.StableUnique` | libunicode.c:773-807 | There is only one such order. |
| `Normalize.ComposeBuffer` | libunicode.c:897-923 | The in-place loop computes composition: each character is merged with the last starter unless something blocks it. |
| `Normalize.OrderAndCompose` | libunicode.c:886-923 | After decomposition: the buffer ends as the composition of its canonical reordering. |
| `CanonicalEquivalence.ReorderExact` | libunicode.c:773-807 | Two texts have the same canonical order if and only if, for each class, the starters and the marks of that class follow each other alike in both. |
| `CanonicalEquivalence.ComposeFixed` | libunicode.c:897-923 | Composition changes nothing if and only if no starter has a later character that it composes with and that only marks of lower class separate from it. |
| `CanonicalEquivalence.ComposeEquivalent` | libunicode.c:886-923 | For any decomposition that inverts the pairs: decomposing the composed text fully and ordering it gives back the decomposed and ordered text. |
| `CanonicalEquivalence.NormalFormsAgree` | libunicode.c:886-923 | The same from text that is decomposed but not yet ordered. |

## Findings

Properties that the code does not have everywhere, each with an input and the condition under which it holds.

- **Endless loops.** The compiler adds the check for progress only to greedy loops whose body may match nothing as far as it
  can tell (libregexp.c:1594-1597): not to lazy ones, and not when the body reads a capture that it writes. Patterns whose unlimited
  loops have the check or a body that must advance always end (`RegexpProgram.ProgramRuns`). The others run for ever at a
  place where the body keeps matching along its own first results (`RegexpEndless.ExecNeverEnds`); they do not abort
  (`RegexpSteady.NeverCrashes`). `LazyExample` and `GreedyExample` are one pattern and text for each kind.
- **Stepping back inside a pair.** The one-instruction loop gives characters back by stepping back through the text. Started
  inside a surrogate pair it steps back too far, left of the start (`RegexpPair.StepBackExact`, `RegexpPair.PairRuns`).
  `RegexpPair.DotStarExample` is a text and a pattern where the verdict is wrong, and every text with a pair has such a
  pattern (`RegexpPair.WrongInsidePair`). The machine is right about all patterns exactly if the start is not inside a pair
  (`RegexpPair.RightExact`), and from inside a pair it is right about all patterns without simple loops
  (`RegexpMain.LreExec`).
- **The smallest modulus.** The assertions of the modular helpers allow moduli from `2^61` on; for exactly `2^61` the
  precomputed inverse is `2^64` and wraps to zero, and for all others it fits (`NttWords.LeastModulusOverflows`). All moduli
  in use are larger.
- **The last entry of the table of powers of ten.** The multiplier stored for 10^19 is two larger than the construction
  gives, as if the shift by 64 in `fast_udiv_init`, which C leaves undefined, had shifted by 0. `FastDivision.MultiplierExact`
  gives the exact condition for a multiplier to be right for all words, and the stored one meets it (`LastEntry`).
- **Faithful multiplication.** `bf_mul` with `BF_RNDF` cuts its operands to the limbs that hold two bits more than the
  precision. When that is exactly two bits (precisions that leave the remainder 62 modulo 64) and both operands are cut, the
  result need not be next to the exact product: `BigFloatMul.FaithfulFails` gives operands for every such precision and all
  such lengths, `BigFloatMul.MulUnfaithful` multiplies them, and `BigFloatMul.FaithfulProduct` shows that the result is
  next to the exact product in all other cases.
- **Cancelled bits.** The comment on `count_cancelled_bits` promises at least that many leading zeros; the difference can
  have one fewer, as in 3/4 - 1/4 (`BigFloatCancel.OneBitFewer`). It has them if and only if, after the counted bits, the
  rest of the larger number is smaller than the rest of the other (`BigFloatCancel.CountCancelledBits`). The two extra bits
  that the caller keeps cover the other case.

## Left out

- NttSplit.NttConv: columns are transformed one at a time where the code copies strips of sixteen, and rows are copied to be convolved; every prime has its own buffer where the code uses slices of one.
- FastDivision.FastUdivInit: only divisors up to `2^63`; above, the code shifts a word by its whole width, which C leaves undefined.
- Kernels.MpMul: the basecase loop; the switch to the transform for long operands (libbf.c:1176-1195) is a call to `FftMul.Multiply` that is not made here.
- RegexpMain.LreExec: needs a pattern whose unlimited loops are `Sound`, a start between characters or a pattern without simple loops, and code of at most `0x7fff0000` bytes (`Fits`); see Findings for what happens without the first two.
- RegexpPair.RightExact: texts of fewer than `2^31 - 1` units, since its pattern counts the characters before the start; strings are shorter than that in the original.
- CharRange.Range.UnionInterval: an upper bound of `UINT32_MAX`, for which the code's `c2 + 1` wraps to zero, is excluded; code points are far below it.
- DecimalKernels.MpDiv1Dec: the quotient replaces the dividend, as in every call of the original.
- RegexpMain.LreCompile: starts from a parsed pattern. Parsing the pattern's text, named groups, the eight header bytes and the flags byte are not modelled.
- RegexpText: case folding is a function `canon` that is not looked into; the tables of libunicode-table.h are not modelled.
- NttTables.StaticInit: the cache of trigonometric tables (libbf.c:7818-7853) is not modelled, each transform computes its table.
- BigFloat.Bf.Round: a precision of zero with the radix-point flag is covered only below the largest exponent, since overflow would write to an empty table; the assertion that subnormal results are not asked for at infinite precision is not needed; the exponent range is any number, not only a power of two.
- BigFloatAdd.AddInternal: the radix-point flag is not allowed, as libbf.h:122-125 requires; the result object is not one of the operands, as the callers arrange.
- RadixConversion.ToRadix: works on the values of the numbers, since at infinite precision the operations on them are exact; reading the lowest one or two digits from the limb table is part of the value. The radix is any number, not only the largest power of a small radix in a word.
- Reading and printing numbers, the decimal floating point format on top of its division, and the transcendental functions of libbf.
- The AVX2 and 32-bit variants of libbf, and failures of memory allocation everywhere.
- Normalize.OrderAndCompose: the combining classes and the composition of pairs are functions `cc` and `pair`, of which only the properties of the Unicode data that the loop relies on are assumed (classes below 256, compositions are starters).
- Generation of the Unicode tables, decomposition, and the interpreter itself (quickjs.c).

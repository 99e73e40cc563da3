# Models of the Ruby 3.1.4 cores

This project models three algorithmic cores of the vendored Ruby 3.1.4 sources and proves what they are
for: arbitrary-precision arithmetic (`bignum.c`), copy-on-write arrays with the index generators and the
sampler (`array.c`), and fiber switching (`cont.c`). `dafny verify dfyconfig.toml` checks everything.

## How the sources are modelled

**Digit buffers.** `Digits.Memory` is an address space: a pointer to a digit is an index into its cells, and
a buffer is such an index with a length. Buffers may overlap or lie inside each other, as in the original;
`Keeps` and `Keeps2` say which cells an operation may change. `V(s, o, n)` is the number in n digits at o.
The digit width W is any width of at least 16 bits, the base B is 2^W, and the double-width accumulator is a
natural number that is proved to stay below B^2. ALLOCV appends a block with arbitrary contents and
ALLOCV_END drops it. Every routine with a loop is a method with that loop and its running carries.

**Products that stop the process.** `bary_mul_balance_with_mulfunc` can reach
`rb_bug("wds is not enough")`. The multiplication routines therefore return `ok`, false when that happened.
`Workspace.Stops` says when it happens, as a function of the two numbers and the lengths of the result and of
the workspace alone, and every routine is proved to answer `ok <==> !Stops(...)`.

**Arrays.** `SharedHeap.RArray` has the fields of the C structure; `SharedHeap.ObjectSpace` is the population
of arrays, with a ghost map from each array to its elements as Ruby sees them. An operation is specified by
what it does to that whole map, so that every contract says that all other arrays keep their elements.

**Fibers.** `FiberSpec` is the state machine of the fibers of a thread: each entry of cont.c is a function
from a state to a state or a FiberError. `FiberSwitch` has the fiber and thread objects and the entries as
methods on them; every VM_ASSERT stands as an assertion, and each method is proved to do what `FiberSpec`
says.

**Generators and sampler.** `Tuples.All` lists the tuples of a family by a recursive definition, which is
proved to consist of exactly the tuples with the defining property, in strictly ascending order; the array
loops of `Enumerate` are proved to yield this list. In the sampler the random numbers are a parameter.

## Findings

- **A product of two integers can stop the process** (ruby-3.1.4/bignum.c:1658-1690). Before its loop, the
  balancing routine decides with the length of the last slice whether it must allocate; an earlier slice is
  longer when the lengths do not divide. `Shortage.BalanceCondition` gives the exact condition of one call:
  `BalanceShort`, or the product of a slice stops. `Shortage.ProductOfIntegersStops` is a case without leading
  zeros anywhere: 501 digits times 1002 digits of which 251 in the middle are zero. `Multiply.BaryMul` says
  exactly when `bary_mul` returns, and `ShortageCases` says it case by case. A shorter operand of up to 140
  digits is always safe (`ShortageCases.UpTo140`), and 141 digits times 282 can stop
  (`ShortageCases.StopsAt141`). `Shortage.BalancedNever` and `Workspace.SquareNever` are the other cases a
  caller can see at once: operands of balanced lengths (up to 26 million digits) and squares never stop.
- **Reading a long digit string can stop the process** (ruby-3.1.4/bignum.c:3930-3949).
  `Parse.Str2bigKaratsuba` says exactly when, through `MergeShortage.MergeStops`, and
  `MergeCases.MergeCondition` says it by the place of the pair whose product stops;
  `MergeFailure.MergingStops` constructs such a numeral for every odd base, and `MergeFailure.ShortDigits` shows
  that up to 256 digits of room it does not happen. `MergeCases.ShortHighsMerge` and
  `MergeCases.LongStringsMerge` are strings of any length that are read. Printing never stops, because the power
  table only squares.
- **What a yielded fiber can be woken by.** The documentation says that a fiber that had yielded "only can be
  resumed back" (ruby-3.1.4/cont.c:2627-2629); `Fiber#raise` also wakes it, through the same branch
  (ruby-3.1.4/cont.c:2728-2741). `FiberSpec.YieldedUntilResumed` therefore excludes both.
- **rb_ary_behead on a frozen array** (ruby-3.1.4/array.c:1502-1543): a frozen array that owns at least 16
  elements first becomes a shared root and then reaches the assertion ARY_SHARED_P, which does not hold of it. The
  model raises FrozenError there, as a build without assertions does.

## Model

| member | source | states |
|---|---|---|
| Kernel.AddC | ruby-3.1.4/bignum.c:1397-1440 | the sum of two buffers and a carry is the result plus the returned carry times B^zn, also when the result overlies an operand |
| Kernel.SubB | ruby-3.1.4/bignum.c:1334-1382 | the difference is the result minus the returned borrow times B^zn |
| Kernel.TwoComp | ruby-3.1.4/bignum.c:460-477 | the buffer becomes B^n minus its number; 1 is returned exactly for zero, which stays |
| Kernel.Cmp | ruby-3.1.4/bignum.c:389-406 | the sign returned is the order of the two numbers, leading zeros ignored |
| Kernel.ZeroP | ruby-3.1.4/bignum.c:441-449 | true exactly for the number zero |
| Kernel.SmallLshift | ruby-3.1.4/bignum.c:409-421 | digits and returned digit together are the number times 2^shift |
| Kernel.SmallRshift | ruby-3.1.4/bignum.c:424-438 | no bit is lost: shifted digits, bits dropped and bits brought in from above balance |
| MulKernel.MulAdd1xN | ruby-3.1.4/bignum.c:1475-1507 | z grows by x*y, with at most 1 carried out of the buffer |
| MulKernel.MulSub | ruby-3.1.4/bignum.c:1510-1534 | low digits and returned rest are z - x*y exactly, the rest being negative when the guess was too large |
| MulKernel.MulSub1xN | ruby-3.1.4/bignum.c:1537-1548 | z becomes z - x*y modulo B^zn and the borrow says whether that is negative |
| MulKernel.MulNormal | ruby-3.1.4/bignum.c:1551-1561 | the schoolbook product is exact over all zn digits |
| MulKernel.ShortMul | ruby-3.1.4/bignum.c:2348-2359 | every route of the short product is the exact product |
| MulKernel.SqCarry | ruby-3.1.4/bignum.c:1603-1610 | with the carry at most 2B-2 the accumulator stays below B^2 |
| MulKernel.SqDigit | ruby-3.1.4/bignum.c:1603-1610 | one digit of the inner loop keeps the carry at most 2B-2 and the number exact |
| MulKernel.SqSpill | ruby-3.1.4/bignum.c:1611-1617 | what is carried out of a row is absorbed by two digits and cannot go further |
| MulKernel.SqFast | ruby-3.1.4/bignum.c:1579-1630 | the fast squaring is the exact square, x and z being apart |
| Division.DivSingle1 | ruby-3.1.4/bignum.c:2616-2637 | division by one digit, with a digit carried in from above: quotient * y + remainder is the dividend, remainder below y |
| Division.EstimateBounds | ruby-3.1.4/bignum.c:2587-2588 | the digit estimated from the top digits alone is never too small, and the remainder it leaves is above -B^yn |
| Division.AddBack | ruby-3.1.4/bignum.c:2593-2599 | y is added back at most twice until the guess is the quotient digit |
| Division.DivStep | ruby-3.1.4/bignum.c:2587-2602 | one quotient digit: the window is q*y plus a remainder below y, after at most two corrections |
| Division.DivRem1 | ruby-3.1.4/bignum.c:2573-2605 | in place, the buffer of z ends as remainder and quotient: old z = q*y + r with r below y |
| Division.Restoring | ruby-3.1.4/bignum.c:2646-2682 | the same after stripping the low zero digits of y, for divisors down to one digit |
| Division.Nlz | ruby-3.1.4/bignum.c:167-225 | the shift that brings the highest bit of a digit to the top |
| Division.DivmodNormal | ruby-3.1.4/bignum.c:2685-2743 | quotient and remainder of the two numbers, whichever destinations are given and wherever they overlie the dividend |
| MulCommon.TrimBoth | ruby-3.1.4/bignum.c:2388-2425 | the operand without the zeros at either end, and how many there were at the low end |
| MulCommon.Precheck | ruby-3.1.4/bignum.c:2375-2470 | trims and orders the operands, or computes the product itself when one has at most one digit |
| MulCommon.SparseP | ruby-3.1.4/bignum.c:2363-2372 | true exactly when at most one of three middle digits is not zero |
| MulCommon.AbsDiff | ruby-3.1.4/bignum.c:1784-1787 | the absolute difference and which operand is smaller |
| KaratsubaSteps.AddLowProduct | ruby-3.1.4/bignum.c:1820-1832 | adding x0*y0 to the middle digits, with both carries accounted for |
| KaratsubaSteps.AddHighProduct | ruby-3.1.4/bignum.c:1837-1846 | adding x1*y1 to the middle digits, with its carry |
| KaratsubaSteps.AddCarries | ruby-3.1.4/bignum.c:1847-1860 | w, carry2 and carry1 + carry3 - borrow end in the digits they belong to, modulo B^zn |
| KaratsubaSteps.KaratsubaTotal | ruby-3.1.4/bignum.c:1760-1781 | the three products with the signed middle one make the whole product |
| Workspace.SquareNever | ruby-3.1.4/bignum.c:1644-1701 | multiplying a number by itself never runs out of workspace, whatever its size and the workspace |
| Shortage.EnoughNever | ruby-3.1.4/bignum.c:1644-1701 | workspace for all levels of recursion is enough: the product does not stop |
| Shortage.BalancedNever | ruby-3.1.4/bignum.c:2473-2529 | operands whose significant lengths are balanced are multiplied, whatever their digits |
| Shortage.BalanceCondition | ruby-3.1.4/bignum.c:1644-1701 | balancing stops exactly when a slice before the last finds neither room nor workspace, or a slice's own product stops |
| Shortage.ProductOfIntegersStops | ruby-3.1.4/bignum.c:1658-1688 | two integers without leading zeros, 501 and 1002 digits, whose product stops |
| ShortageCases.SlicedByKaratsuba | ruby-3.1.4/bignum.c:2481-2491 | of an operand at least twice as long as the other, in the Karatsuba range: `Stops` exactly when neither is sparse and balancing has no room for a slice or a slice's product stops; in either order |
| ShortageCases.SlicedByToom3 | ruby-3.1.4/bignum.c:2523-2526 | the same for lengths too different for Toom-3, where sparseness plays no part |
| ShortageCases.SliceTerms | ruby-3.1.4/bignum.c:1658-1664 | the bounds of result and workspace at which balancing is short, from the length of the last slice |
| ShortageCases.SliceProduct | ruby-3.1.4/bignum.c:1667-1690 | the product of slice k is that of digits n to n + r of y, into the length of both operands, with the workspace that is left |
| ShortageCases.CutByKaratsuba | ruby-3.1.4/bignum.c:1738-1846 | of balanced lengths: `Stops` exactly when neither operand is sparse and one of the three products of halves and differences stops |
| ShortageCases.CutByToom3 | ruby-3.1.4/bignum.c:1942-2145 | of lengths that Toom-3 takes: `Stops` exactly when one of the products of the values at 0, 1, -1, -2 and infinity stops |
| ShortageCases.UpTo140 | ruby-3.1.4/bignum.c:2541-2564 | a product into exactly the digits of both operands never stops when the shorter has up to 140 significant digits, sparse or not, however long the other is |
| ShortageCases.StopsAt141 | ruby-3.1.4/bignum.c:1658-1688 | the bound is sharp: two integers without leading zeros, of 141 and 282 digits, whose product stops |
| Multiply.Start | ruby-3.1.4/bignum.c:2507-2538 | the exact product of the operands before trimming; false exactly when `Stops` holds of them |
| Multiply.KaratsubaBranch | ruby-3.1.4/bignum.c:2473-2504 | each of the four routes is the exact product; which of them stop, and when, are `ShortageCases.SlicedByKaratsuba` and `CutByKaratsuba` |
| Multiply.Toom3Branch | ruby-3.1.4/bignum.c:2516-2529 | each of the three routes is the exact product, and fails exactly when predicted |
| Multiply.Balance | ruby-3.1.4/bignum.c:1644-1701 | the slices add up to the exact product, whether they are multiplied beyond the digits in use or in their place |
| Multiply.KaratsubaEven | ruby-3.1.4/bignum.c:1738-1860 | through the overlapping buffers z0..z3 and w the result is the exact product |
| Multiply.Karatsuba | ruby-3.1.4/bignum.c:1716-1882 | the same for even lengths, odd y and both odd, and for its own workspace |
| Toom3Steps.Evaluate | ruby-3.1.4/bignum.c:2047-2080 | the three buffers hold the operand at 1, -1 and -2 with the right signs |
| Toom3Steps.ProductsFit | ruby-3.1.4/bignum.c:2124-2141 | the top digits dropped from t1, t2 and t3 are zero |
| Toom3Steps.Differences | ruby-3.1.4/bignum.c:2156-2195 | the divisions by 3 and 2 leave no remainder, and the differences are those of the product polynomial |
| Toom3Steps.Combine | ruby-3.1.4/bignum.c:2197-2250 | the signed middle coefficients of the product come out |
| Toom3Steps.Substitute | ruby-3.1.4/bignum.c:2252-2272 | the recombination modulo B^(6n+1) is the polynomial at B^n |
| Toom3Steps.PointsOfProduct | ruby-3.1.4/bignum.c:2120-2145 | the five products are values of one polynomial |
| Multiply.Interpolate | ruby-3.1.4/bignum.c:2146-2272 | from the five values to the value of the polynomial at B^n |
| Multiply.Toom3 | ruby-3.1.4/bignum.c:1898-2279 | Toom-3 is the exact product for all operands of balanced lengths |
| Multiply.BaryMul | ruby-3.1.4/bignum.c:2541-2564 | the exact product over all zn digits; false exactly for the numbers of which `Stops` holds, which the lemmas of `ShortageCases` determine case by case |
| Sqrt.NewtonStep | ruby-3.1.4/bignum.c:6927-6936 | a Newton step keeps the bound and strictly decreases |
| Sqrt.NewtonExit | ruby-3.1.4/bignum.c:6927-6936 | the loop ends only at the floor of the root |
| Sqrt.RootLength | ruby-3.1.4/bignum.c:6907-6909 | anything not below the root has a non-zero top digit, so the divisor is legal |
| Sqrt.RootUnique | ruby-3.1.4/bignum.c:6905-6940 | the floor of the root is determined |
| Sqrt.Isqrt | ruby-3.1.4/bignum.c:6905-6940 | from any start not below it, the floor of the square root |
| PowerCache.MaxpowInBdigitDbl | ruby-3.1.4/bignum.c:333-365 | the largest power of the base that two digits hold, with its exponent |
| PowerCache.Cache.GetPower | ruby-3.1.4/bignum.c:4670-4711 | the power for a level; powers found before stay as they are, and new ones lie in new memory |
| PowerCache.Cache.Square | ruby-3.1.4/bignum.c:5879-5900 | the square, without leading zeros; it never runs out of workspace |
| Radix.NumeralLength | ruby-3.1.4/bignum.c:4723-4731 | a numeral is as short as it can be |
| Radix.PaddedSplit | ruby-3.1.4/bignum.c:4783-4797 | the digits of q * base^n + r are those of q and then n digits of r |
| Radix.ValueOfNumeral | ruby-3.1.4/bignum.c:4933-5007 | the value of a numeral is the number |
| Radix.PaddedOfValue | ruby-3.1.4/bignum.c:3834-3875 | the number read from any string of digits and underscores, written with as many digits, is what was read |
| Radix.NumeralAt | ruby-3.1.4/bignum.c:4745-4767 | character k from the right of a numeral is the digit x / base^k modulo base |
| Radix.DigitCharIs | ruby-3.1.4/bignum.c:45 | the characters of the digits are 0 to 9 and lower-case a to z |
| Radix.ConvTable | ruby-3.1.4/bignum.c:3716 | a character is read as digit d exactly when it is that digit in lower or upper case |
| Print.Big2Str.TwoDigits | ruby-3.1.4/bignum.c:4734-4770 | two digits in a padded field, or as the start of a string allocated with exactly the room needed |
| Print.LevelSuffices | ruby-3.1.4/bignum.c:4956-4977 | the number is below the power of the starting level, which is not computed |
| Print.Big2Str.FindPower | ruby-3.1.4/bignum.c:4818-4832 | the highest level whose power does not exceed the number, or level 0 |
| Print.Big2Str.DivideBy | ruby-3.1.4/bignum.c:4845-4888 | quotient and remainder in the place of the number; the quotient is no longer than the power |
| Print.GrownHalves | ruby-3.1.4/bignum.c:4889-4892 | quotient and remainder one after the other are the number in a field twice as wide |
| Print.Big2Str.Karatsuba | ruby-3.1.4/bignum.c:4773-4893 | the digits of x, padded to the full field once output has begun; the powers and all memory outside the workspace are unchanged |
| Print.Big2strGeneric | ruby-3.1.4/bignum.c:4933-5007 | the numeral of the number for every base and size: '-' in front of a negative one, no leading zeros, and k places from the right the lower-case digit x / base^k modulo base |
| Parse.RoomSuffices | ruby-3.1.4/bignum.c:4353 | the digits provided hold every number of that many characters |
| Parse.PushDigit | ruby-3.1.4/bignum.c:3857-3871 | the number becomes number * base + c over the digits in use, with one more when a carry is left |
| Parse.Str2bigNormal | ruby-3.1.4/bignum.c:3834-3875 | the value of the digit string |
| Parse.GroupDigits | ruby-3.1.4/bignum.c:3906-3929 | two-digit groups whose value over the largest power is that of the string |
| Parse.MergePair | ruby-3.1.4/bignum.c:3932-3939 | low plus power times high, without a carry out; false exactly when that product stops |
| Parse.MergePass | ruby-3.1.4/bignum.c:3931-3943 | merging in pairs keeps the number; false exactly when a pair's product stops |
| Parse.Str2bigKaratsuba | ruby-3.1.4/bignum.c:3878-3958 | the value of the digit string, as digit by digit; false exactly for the strings of which `MergeStops` holds, which `MergeCases.MergeCondition` determines from the digits |
| Parse.PrintAndRead | ruby-3.1.4/bignum.c:3834-3875 | a number printed and read digit by digit is the number |
| Parse.PrintAndMerge | ruby-3.1.4/bignum.c:3878-3958 | a number printed and read by merging is the number, unless merging stops |
| MergeFailure.ShortDigits | ruby-3.1.4/bignum.c:3930-3949 | merging never stops when 256 digits are room enough |
| MergeFailure.MergingStops | ruby-3.1.4/bignum.c:3930-3949 | for every odd base, a numeral on which merging stops |
| MergeCases.MergeCondition | ruby-3.1.4/bignum.c:3931-3955 | merging stops exactly when for some pass k and pair j the product of b^(2^k) and the high number, taken from the number read by its place, stops |
| MergeCases.ShortHighsMerge | ruby-3.1.4/bignum.c:3931-3955 | merging never stops when each of these high numbers has fewer than 70 significant digits |
| MergeCases.BalancedHighsMerge | ruby-3.1.4/bignum.c:3931-3955 | nor when each is balanced with the power it is multiplied by |
| MergeCases.LongStringsMerge | ruby-3.1.4/bignum.c:3878-3958 | strings of any length are read by merging: those of the base to a power that fills 2^e groups |
| Bits.Abs2Twocomp | ruby-3.1.4/bignum.c:3066-3084 | digits and sign extension are the integer in two's complement |
| Bits.Twocomp2Abs | ruby-3.1.4/bignum.c:3087-3093 | back to sign and magnitude, with one more digit for a carry |
| Bits.BigAnd | ruby-3.1.4/bignum.c:6372-6405 | bit i of the result is the conjunction of the bits i of the operands, for every i |
| Bits.BigOr | ruby-3.1.4/bignum.c:6491-6524 | the same for disjunction |
| Bits.BigXor | ruby-3.1.4/bignum.c:6585-6615 | the same for exclusive or |
| Bits.ShiftLeft | ruby-3.1.4/bignum.c:4570-4582 | the integer times the power of two |
| Bits.ShiftRight | ruby-3.1.4/bignum.c:4583-4607 | the integer divided by the power of two, rounding down for either sign |
| Bits.BigAref | ruby-3.1.4/bignum.c:6704-6719 | bit i of the integer in infinite two's complement |
| Bits.NegatedBit | ruby-3.1.4/bignum.c:6714-6719 | the bits of -v are those of v up to its lowest one bit and inverted above |
| Bits.OnBitsIs | ruby-3.1.4/bignum.c:6394-6397 | the three operations on one bit |
| Bits.BitAtIs | ruby-3.1.4/bignum.c:6704-6719 | bit 0 is the parity of the integer and the others are those of its half; -1 has all bits set |
| IntegerPack.FillDd | ruby-3.1.4/bignum.c:598-608 | moving digits into the double-width register loses nothing |
| IntegerPack.TakeLowbits | ruby-3.1.4/bignum.c:611-618 | the low bits and the rest |
| IntegerPack.PackWord | ruby-3.1.4/bignum.c:865-883 | a word holds the next bits, its padding is zero, the other words are untouched |
| IntegerPack.InvertWords | ruby-3.1.4/bignum.c:914-962 | the data become their two's complement and the padding stays zero |
| IntegerPack.Overflow | ruby-3.1.4/bignum.c:890-911 | the documented sign and overflow class |
| IntegerPack.PackClasses | ruby-3.1.4/bignum.c:3536-3553 | which numbers get 0, 1, 2, -1 and -2, for sign and magnitude and for two's complement |
| IntegerPack.PlainBytes | ruby-3.1.4/bignum.c:558-586 | without nails, least significant first: byte i is r / 256^i modulo 256; most significant first: r / 256^(size - 1 - i) modulo 256, r being the number modulo 2^bits |
| PackedBytes.ByteHolds | ruby-3.1.4/bignum.c:865-883 | which bits of the number byte i of the buffer holds, for every word order, byte order, word size and number of nails |
| PackedBytes.LittleEndian | ruby-3.1.4/bignum.c:558-586 | byte i of the buffer is byte i of the data |
| PackedBytes.BigEndian | ruby-3.1.4/bignum.c:558-586 | byte i from the end is byte i of the data |
| PackedBytes.MixedEndian | ruby-3.1.4/bignum.c:558-586 | and with one order for words and the other for bytes |
| IntegerPack.Pack | ruby-3.1.4/bignum.c:641-967 | the code is the documented class, the data are the number modulo 2^bits, and each byte holds the bits that its place in the buffer stands for, all padding being zero, for every format |
| IntegerUnpack.NumBdigitsGeneric | ruby-3.1.4/bignum.c:980-1037 | finds the digit count and top padding of the direct formula without forming the number of bits |
| IntegerUnpack.PushBits | ruby-3.1.4/bignum.c:1063-1072 | bits are added at the next place |
| IntegerUnpack.UnpackWords | ruby-3.1.4/bignum.c:1215-1259 | digits and register hold the data of the buffer |
| IntegerUnpack.ApplySign | ruby-3.1.4/bignum.c:1268-1296 | the sign and magnitude of what the data stand for; -2 is B^n, the number only two's complement reaches |
| IntegerUnpack.UnpackClasses | ruby-3.1.4/bignum.c:1268-1296 | what data stand for: themselves, their negative, or a number in two's complement range, with the sign bit or without |
| IntegerUnpack.Unpack | ruby-3.1.4/bignum.c:1101-1299 | the number that the data of the buffer stand for under the flags |
| IntegerUnpack.FitsIff | ruby-3.1.4/bignum.c:3536-3553 | a code without overflow says exactly that the number can be read back |
| IntegerUnpack.ReadsBack | ruby-3.1.4/bignum.c:3536-3553 | what is stored reads back as the number exactly when it is representable under the flags |
| IntegerUnpack.PackAndUnpack | ruby-3.1.4/bignum.c:641-967 | packing and unpacking in one format gives the number back exactly when it is representable, down to -2^bits |
| FiberSpec.Exec | ruby-3.1.4/cont.c:217-239 | the invariant holds after every sequence of actions on a new thread |
| FiberSpec.ResumeInv | ruby-3.1.4/cont.c:2430-2457 | resuming keeps the invariant |
| FiberSpec.TransferInv | ruby-3.1.4/cont.c:2692-2703 | transferring keeps the invariant |
| FiberSpec.RaiseInv | ruby-3.1.4/cont.c:2728-2741 | raising in a fiber keeps the invariant |
| FiberSpec.YieldInv | ruby-3.1.4/cont.c:2472-2475 | yielding keeps the invariant |
| FiberSpec.TerminateInv | ruby-3.1.4/cont.c:2408-2427 | terminating keeps the invariant |
| FiberSpec.TerminateSearch | ruby-3.1.4/cont.c:2207-2216 | the search along resuming_fiber from the root ends, and not at the dying fiber |
| FiberSpec.TerminateLive | ruby-3.1.4/cont.c:2274-2295 | control goes to a suspended fiber that is not yielding: the "destination is dead too" branch is unreachable |
| FiberSpec.NoCycle | ruby-3.1.4/cont.c:2191-2218 | no fiber is reached from itself along prev |
| FiberSpec.OnlyTwoChange | ruby-3.1.4/cont.c:2254-2343 | a step changes at most the fiber it leaves and the one it enters |
| FiberSpec.EntersRunnable | ruby-3.1.4/cont.c:2228-2251 | only created and suspended fibers are entered |
| FiberSpec.DeadStaysDead | ruby-3.1.4/cont.c:861-868 | a terminated fiber stays terminated |
| FiberSpec.StartedByTransfer | ruby-3.1.4/cont.c:2620-2623 | whatever happens after a fiber was first entered by transfer, it can neither yield nor be resumed |
| FiberSpec.YieldedUntilResumed | ruby-3.1.4/cont.c:2624-2629 | until it is resumed or raised in, a yielded fiber is not current, refuses transfer and accepts resume |
| FiberSpec.LeftByTransfer | ruby-3.1.4/cont.c:2624-2629 | a fiber that left by transfer cannot be resumed, and can be transferred to exactly when it is not resuming |
| FiberSpec.ResumeWhen | ruby-3.1.4/cont.c:2430-2457 | a fiber can be resumed exactly when it is another one that is new or waits in a yield; when each FiberError is raised |
| FiberSpec.ResumeEnters | ruby-3.1.4/cont.c:2430-2457 | the fiber resumed is current and linked to the one it was resumed from |
| FiberSpec.ResumeAndYield | ruby-3.1.4/cont.c:2430-2475 | resuming and then yielding leads back to the same fiber, with nothing changed but that the other one waits in a yield and can be resumed again |
| FiberSpec.YieldWhen | ruby-3.1.4/cont.c:2472-2475 | a fiber can yield exactly when it was resumed, and control goes to the one that resumed it |
| FiberSpec.TransferWhen | ruby-3.1.4/cont.c:2692-2703 | a fiber can be transferred to exactly when it is current, new, or suspended and neither yielding nor resuming; no link is made |
| FiberSpec.RaiseWhen | ruby-3.1.4/cont.c:2728-2741 | raising enters a fiber exactly when it is suspended and not resuming; one that had yielded is linked as if resumed |
| FiberSpec.FinishReturns | ruby-3.1.4/cont.c:2408-2427 | control goes to the fiber that resumed the dying one, which is unlinked |
| FiberSpec.FinishFallsBack | ruby-3.1.4/cont.c:2207-2216 | if there is none, to the last of the fibers that were resumed one by another from the root on |
| FiberSpec.NewIs | ruby-3.1.4/cont.c:1844-1853 | a new fiber is created without links, and no other changes |
| FiberSwitch.Thread.FiberStore | ruby-3.1.4/cont.c:2228-2251 | the current fiber is suspended unless dead and the next one is resumed |
| FiberSwitch.Thread.Switch | ruby-3.1.4/cont.c:2254-2343 | fails exactly for a dead destination, and otherwise does the step of the state machine |
| FiberSwitch.Thread.ResumeKw | ruby-3.1.4/cont.c:2430-2457 | the step of the state machine, which `FiberSpec.ResumeWhen` and `ResumeEnters` determine, or the FiberError of the first check that fails with nothing changed |
| FiberSwitch.Thread.TransferKw | ruby-3.1.4/cont.c:2692-2703 | the same for transfer |
| FiberSwitch.Thread.RaiseIn | ruby-3.1.4/cont.c:2728-2741 | the same for raise |
| FiberSwitch.Thread.ReturnFiber | ruby-3.1.4/cont.c:2192-2218 | the previous fiber with both links dropped, or the end of the search from the root |
| FiberSwitch.Thread.YieldKw | ruby-3.1.4/cont.c:2472-2475 | the same for yield |
| FiberSwitch.Thread.Terminate | ruby-3.1.4/cont.c:2408-2427 | the fiber dies and another one is current |
| FiberSwitch.RunActions | ruby-3.1.4/cont.c:2430-2741 | any sequence of actions on the objects gives the states and the errors of the state machine |
| SharedHeap.ObjectSpace.SoleOwner | ruby-3.1.4/array.c:163-165 | an array that owns its buffer, or whose root is occupied, is the only one Ruby sees on that buffer |
| SharedHeap.ObjectSpace.CancelSharing | ruby-3.1.4/array.c:566-604 | by copying, embedding or taking over the buffer, the array stops sharing and no array changes |
| SharedHeap.ObjectSpace.ResizeCapa | ruby-3.1.4/array.c:443-481 | the new capacity, embedded or not, with the elements kept |
| SharedHeap.ObjectSpace.MakeShared | ruby-3.1.4/array.c:914-957 | a root for the buffer, and no array changes |
| CowArray.EnsureRoomForPush | ruby-3.1.4/array.c:614-659 | afterwards the slots beyond the end may be written without any other array noticing |
| CowArray.Push | ruby-3.1.4/array.c:1308-1318 | the element is appended; no other array changes; FrozenError changes nothing |
| CowArray.Cat | ruby-3.1.4/array.c:1321-1328 | the same for several elements |
| CowArray.Pop | ruby-3.1.4/array.c:1357-1373 | the last element is removed and returned, nil when empty |
| CowArray.PopN | ruby-3.1.4/array.c:1404-1417 | the last n are split off into a new array |
| CowArray.Shift | ruby-3.1.4/array.c:1420-1451 | the first element is removed and returned, nil when empty |
| CowArray.ShiftN | ruby-3.1.4/array.c:1484-1499 | the first n are split off into a new array |
| CowArray.Behead | ruby-3.1.4/array.c:1528-1543 | the first n are dropped |
| CowArray.MakePartial | ruby-3.1.4/array.c:1178-1206 | a slice, copied or a window, has the elements of the range and nothing else changes |
| CowArray.Subseq | ruby-3.1.4/array.c:1707-1710 | the slice clipped to the array, nil out of range |
| CowArray.TakeFirstOrLast | ruby-3.1.4/array.c:1267-1291 | the first or last n as a new array, ArgumentError below zero |
| CowArray.TakenAndLeft | ruby-3.1.4/array.c:1404-1417 | what is taken and what is left make up the array |
| CowArray.EnsureRoomForUnshift | ruby-3.1.4/array.c:1599-1628 | the array has moved up in slots that only it uses |
| CowArray.Unshift | ruby-3.1.4/array.c:1644-1658 | the elements are put in front; no other array changes |
| CowArray.Store | ruby-3.1.4/array.c:1148-1175 | the element is stored, negative indices from the end, gaps filled with nil, IndexError before FrozenError |
| CowArray.StoredAt | ruby-3.1.4/array.c:1148-1175 | what is stored where: the element at its index, nil in the gap, the others as they were |
| CowArray.Replace | ruby-3.1.4/array.c:4415-4453 | the contents of the other array, by sharing or copying, and neither is affected by the other |
| CowArray.Clear | ruby-3.1.4/array.c:4465-4483 | the array is empty |
| CowArray.NewFromValues | ruby-3.1.4/array.c:789-792 | a new array with the elements |
| CowArray.Freeze | ruby-3.1.4/array.c:675-678 | refuses changes from then on |
| ArrayRuns.RunShared | ruby-3.1.4/array.c:512-604 | for every sequence of operations the shared arrays have the elements, and give the replies, of plain sequences |
| ArrayRuns.RunIs | ruby-3.1.4/array.c:512-604 | a run does its operations one after the other and gives their replies |
| ArrayRuns.StepIs | ruby-3.1.4/array.c:1308-1451 | what push, concat, unshift, replace, clear, freeze, pop and shift do to a plain sequence, and answer |
| ArrayRuns.StepSplits | ruby-3.1.4/array.c:1404-1499 | pop and shift of n: ArgumentError below zero, and no more than there are |
| ArrayRuns.StepStores | ruby-3.1.4/array.c:1148-1175 | indices from the end, and IndexError before the beginning |
| ArrayRuns.StepSlices | ruby-3.1.4/array.c:1682-1710 | a range is missing when it begins beyond the end, and is cut when it ends there |
| ArrayRuns.StepFrozen | ruby-3.1.4/array.c:559-563 | a frozen array refuses every change; an index out of range is found first |
| ArrayRuns.StepKeepsOthers | ruby-3.1.4/array.c:613-659 | an operation changes only its receiver |
| ArrayRuns.RunKeepsSnapshot | ruby-3.1.4/array.c:913-957 | a slice or copy keeps its elements through every later run in which it is not the receiver |
| Tuples.AllIs | ruby-3.1.4/array.c:6576-6609 | a tuple is listed exactly when it has the property of its family |
| Tuples.AllAre | ruby-3.1.4/array.c:6576-6609 | the four families: pairwise different, increasing, arbitrary and non-decreasing tuples |
| Tuples.AllOrdered | ruby-3.1.4/array.c:6576-6609 | of two tuples the earlier is smaller at the first place where they differ |
| Tuples.AllAscending | ruby-3.1.4/array.c:6576-6609 | the list is in lexicographic order |
| Tuples.AllDistinct | ruby-3.1.4/array.c:6576-6609 | no tuple is listed twice |
| Enumerate.Permute0 | ruby-3.1.4/array.c:6577-6609 | yields the r-permutations of indices, all in order |
| Enumerate.Combinate0 | ruby-3.1.4/array.c:6766-6784 | yields the increasing tuples |
| Enumerate.Rpermute0 | ruby-3.1.4/array.c:6882-6902 | yields all tuples |
| Enumerate.Rcombinate0 | ruby-3.1.4/array.c:7008-7028 | yields the non-decreasing tuples |
| Counting.AllSize | ruby-3.1.4/array.c:6615-6652 | how many tuples each family has |
| Counting.DivisionExact | ruby-3.1.4/array.c:6645-6649 | the running division leaves no remainder |
| Counting.BinomialCoefficient | ruby-3.1.4/array.c:6633-6652 | the binomial coefficient, 0 out of range |
| Counting.DescendingFactorial | ruby-3.1.4/array.c:6616-6630 | the falling product, 0 for a negative count |
| Counting.ArrayPermutation | ruby-3.1.4/array.c:6728-6763 | every special case yields what the general loop would |
| Counting.ArrayCombination | ruby-3.1.4/array.c:6838-6867 | the same for combination |
| Counting.ArrayRepeatedPermutation | ruby-3.1.4/array.c:6975-7005 | the same for repeated_permutation |
| Counting.ArrayRepeatedCombination | ruby-3.1.4/array.c:7095-7127 | the same for repeated_combination |
| Counting.ArraySize | ruby-3.1.4/array.c:6655-6661 | the announced size is the number of tuples yielded |
| Sample.Pick2 | ruby-3.1.4/array.c:6378-6382 | the second index is the drawn one among the unused |
| Sample.Pick3 | ruby-3.1.4/array.c:6383-6393 | the same for three |
| Sample.SortedInsertion | ruby-3.1.4/array.c:6399-6417 | pick i is the drawn one among the indices not picked before |
| Sample.PicksDistinct | ruby-3.1.4/array.c:6399-6417 | the picks are pairwise different |
| Sample.PickUnique | ruby-3.1.4/array.c:6399-6417 | the draw determines the pick |
| Sample.PickIsNth | ruby-3.1.4/array.c:6399-6417 | exactly as many unused indices are smaller than the pick as were drawn |
| Sample.SwapOnCopy | ruby-3.1.4/array.c:6450-6462 | the first n of the array after n swaps |
| Sample.WithMemo | ruby-3.1.4/array.c:6418-6449 | the memo table gives the same elements for the same draws |
| Sample.ShuffledPrefix | ruby-3.1.4/array.c:6455-6460 | a place that has been filled is not changed by the later swaps |
| Sample.ShuffledKeeps | ruby-3.1.4/array.c:6450-6462 | the swaps only rearrange the elements |
| Sample.ShuffledStep | ruby-3.1.4/array.c:6455-6460 | each swap exchanges two places and leaves the others alone |
| Sample.ShuffledOnce | ruby-3.1.4/array.c:6450-6462 | of different elements, every sample comes from exactly one sequence of draws |
| Sample.ArySample | ruby-3.1.4/array.c:6340-6467 | each size of sample by its branch, clipped to the array: up to 10 elements at the indices picked, more as the first ones of the shuffled array |

## Left out

- The GMP variants of multiplication, division and conversion.
- `estimate_initial_sqrt`: the start of the Newton iteration is a parameter with its bound as a precondition.
- The interruptible path of `bigdivrem_restoring` without the global lock, and `rb_thread_check_ints`.
- Fixnum tagging, `bignorm` to a fixnum, and the paths for a fixnum operand (`bigand_int`, `bigor_int`,
  `bigxor_int`, a fixnum index in `rb_big_aref`).
- The word-size fast paths of `bary_pack` and `bary_unpack_internal`; only the generic loops are modelled.
- `str2big_scan_digits`: its result is the precondition `Radix.Conforms`; `str2big_poweroftwo` and
  `big2str_base_poweroftwo` are not modelled.
- The limit of the power table, `MAX_BASE36_POWER_TABLE_ENTRIES`, and its rb_bug: the table is unbounded.
- Releasing the two buffers of `str2big_karatsuba`; the model leaves them in the address space.
- `POW2_P` is written through the bit length instead of `x & (x - 1)`, and `|` as a sum where the bits are disjoint.
- Garbage collection, write barriers, the transient heap, `ARY_MAX_SIZE` and failed allocations.
- `rb_ary_splice`, slices with a step, and `ary_sample` without an argument.
- Blocks or random generators that change the array while it is being read.
- Machine stacks, continuations, the fiber pool, cross-thread use, and the unchecked `rb_fiber_transfer`.
- SharedHeap.ObjectSpace.DoubleCapa: states a lower bound of the new capacity, which is all its callers need.

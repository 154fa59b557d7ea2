# Verified model of the multi-precision arithmetic, flash writer and address parser demos

This project models, in Dafny 4.11, three pieces of the demo directory and proves what they compute:

* the multi-precision integer library written out in `demo/oc_rsa_test_demo.c` (an mbed TLS `bignum.c`):
  storage, comparison, signed addition and subtraction, shifts, multiplication, long division, reduction,
  Montgomery multiplication, sliding-window exponentiation, binary gcd, and import and export;
* the page-splitting writer of `demo/oc_spi_flash_demo.c`, over a model of a NOR flash chip;
* the address parser `ip4addr_aton` of `demo/pdp_sockets_demo.c`.

## How the integers are modelled

An `Mpi` object has the fields of `mbedtls_mpi`: the sign `s` and the limb buffer `p`, whose length is the limb
count `n`; a NULL buffer is the empty sequence. `Val(p)` is the natural number the limbs denote and `Value()`
the signed one. Every operation is a method that overwrites those fields as the C function does: results come
first among the parameters, arguments may be the same object wherever the C code allows it, and contracts speak
of `old` values of the arguments for that reason. Limbs have 32 bits. Each wrapping addition, truncating shift
and bitwise OR is written out (`Wrap`, `Shl`, `Or`), so "no carry is lost" is something the proofs establish.
C functions are split into several methods where a loop deserves a contract of its own.

`mbedtls_mpi_mul_mpi` has its product loop and its sign line commented out (lines 1157-1160). The boolean parameter
`product` selects the reading: `false` is the code as shipped, whose product is 0, and `true` is the restored
version with those lines put back. Contracts say which results need the restored version. Montgomery
multiplication, shifts, addition, gcd, reduction and exponentiation do not depend on it.

| file | content |
|---|---|
| `Arith.dfy`, `Limbs.dfy` | powers, Euclidean division, congruences, bitwise OR; limb sequences and their values |
| `Mpi.dfy`, `AddSub.dfy`, `Shift.dfy` | the integer object, comparison and bit counts; addition and subtraction; shifts |
| `Multiply.dfy`, `WordDivision.dfy`, `TrialDigits.dfy` | products; two-limbs-by-one division; quotient digits before correction |
| `Division.dfy`, `ShippedDivision.dfy`, `Modulo.dfy` | long division; when its results as shipped are right; reduction |
| `Montgomery.dfy`, `ExpMod.dfy`, `Gcd.dfy`, `Residues.dfy` | Montgomery form; exponentiation; gcd; which arguments the exponentiation gets wrong |
| `Numerals.dfy`, `Codec.dfy` | numbers written with printed tables of digits; bytes and digit strings |
| `SpiFlash.dfy` | the flash writer over a chip |
| `Ip4Address.dfy` | the address parser |
| `StrictAddress.dfy`, `AddressForms.dfy` | its agreement with numbers as in C; addresses printed in every form it reads |

`dafny verify dfyconfig.toml` checks the whole project.

## Where the code does less than its comments say

* `mbedtls_mpi_mul_mpi` as shipped returns 0, so `mbedtls_mpi_div_mpi` never takes a digit below the leading place
  off the dividend. Its remainder is |A| modulo |B| times a power of the base (`Division.ShippedRem`), and its quotient
  is the leading digit followed by uncorrected trial digits of that remainder (`Division.ShippedQuot`). The remainder
  is right exactly when the true quotient's lower limbs are all zero (`ShippedDivision.ShippedRemExact`), the
  quotient exactly when every trial digit is the true digit (`ShippedDivision.ShippedQuotExact`); both are when the
  normalised operands have equally many limbs, and the quotient is with a one-limb divisor and one place more.
  2^32 + 1 divided by 1 leaves 1 (`Modulo.ShippedRemainderFails`), and 2^64 + 2^32 divided by 1 gives 2^64 + 2^33 - 1
  (`ShippedDivision.ShippedQuotFails`). `mbedtls_mpi_mod_mpi` repairs the remainder in its closing loops.
* `mbedtls_mpi_div_mpi` overwrites Q before it reads the operands' signs and before it copies a small dividend. With Q
  the object A or B the results are right exactly under the sign conditions of `Division.QuotAliasing` and
  `Division.RemAliasing`; -7 divided by 2 in place gives 3 (`Division.AliasingFails`).
* `mbedtls_mpi_read_string` below radix 16 multiplies by the radix, so as shipped only the last digit's magnitude
  survives, and a zero digit drops the minus. A string is read right exactly when all digits before the last are zeros
  and no zero follows a minus (`Codec.ShippedStringExact`); "10" is read as 0 and "-05" as +5.
* `mbedtls_mpi_mod_int` shifts its running remainder by half a limb. The result is right for every A if and only if
  b <= 2^16 or b divides 2^32 (`Modulo.ModFoldCondition`); otherwise A = 2^32 already fails (`Modulo.OverflowWitness`).
  For any b it is right for each A whose shifts lose no bits or only multiples of b, among them every A below 2^32
  (`Modulo.HalfFoldExact`, `Modulo.OneLimbKept`).
* `mbedtls_mpi_exp_mod` with a negative base and an odd exponent returns N, not 0, when N divides A^E; this is the
  only case in which the result is not the residue (`ExpMod.ExpResultExact`). Before the call: a base that N divides
  always fails, a base prime to N > 1 never does, and for squarefree N, such as an RSA modulus, the failing bases are
  exactly the multiples of N (`Residues`).
* `mbedtls_mpi_gcd(A, 0)` is 0, so the result is a greatest common divisor exactly when B is nonzero or both are
  zero (`Gcd.GcdExact`).
* `ip4addr_aton` is documented to read numbers as C does, but lets the digits 8 and 9 appear in an octal part, takes
  `0x` alone for zero, and reads every part modulo 2^32 before its range checks. It misses no address in the strict
  notation, and what it accepts is in that notation exactly when no number of the string is one of these three
  (`StrictAddress.StrictExact`); "08", "0x" and "4294967296" are accepted (`StrictAddress.LooseNumbers`).
* `mbedtls_int_div_int` returns before its half-limb implementation. That code is modelled as a method of its own
  and proved to give the same results.

## Model

| member | source | states |
|---|---|---|
| Mpis.Mpi.constructor | demo/oc_rsa_test_demo.c:117-125 | a new integer is positive and owns no limbs |
| Mpis.Grow | demo/oc_rsa_test_demo.c:151-175 | appends exactly the zero limbs that are missing; the value is unchanged |
| Mpis.Lset | demo/oc_rsa_test_demo.c:335-348 | X holds z with its sign, all other limbs zero, never fewer limbs than before |
| Mpis.Copy | demo/oc_rsa_test_demo.c:219-254 | X takes Y's value and sign and Y's significant limbs; a NULL-limb Y frees X, and X == Y changes nothing |
| Mpis.CopiedLimbs | demo/oc_rsa_test_demo.c:233-249 | overwriting the low limbs and clearing the rest transfers the value, because the skipped limbs of Y are zero |
| Mpis.SigLimbs | demo/oc_rsa_test_demo.c:782-784 | the downward scan returns the index above the highest nonzero limb |
| Mpis.CmpAbs | demo/oc_rsa_test_demo.c:778-803 | the three-way order of the absolute values, for operands of any two lengths |
| Mpis.CmpMpi | demo/oc_rsa_test_demo.c:808-836 | the three-way order of the signed values; zero equals minus zero |
| Mpis.CmpInt | demo/oc_rsa_test_demo.c:841-852 | the three-way order against a machine integer |
| Mpis.Cmp | demo/oc_rsa_test_demo.c:778-852 | the order the comparisons return: exactly -1, 0 or 1 for less, equal and greater |
| Mpis.Clz | demo/oc_rsa_test_demo.c:411-424 | 32 minus the bit length of the limb |
| Mpis.Bitlen | demo/oc_rsa_test_demo.c:429-443 | 2^(r-1) <= value < 2^r, and 0 for zero |
| Mpis.Lsb | demo/oc_rsa_test_demo.c:396-406 | 2^r divides the value with an odd quotient; 0 for zero |
| AddSub.LimbAdd | demo/oc_rsa_test_demo.c:889-891 | two wrapping additions and their carry tests add limb, operand and carry exactly |
| AddSub.LimbSub | demo/oc_rsa_test_demo.c:982-983 | two wrapping subtractions and their borrow tests subtract exactly |
| AddSub.AddLoop | demo/oc_rsa_test_demo.c:887-892 | value plus weighted carry is the sum, B being X itself included |
| AddSub.CarryLoop | demo/oc_rsa_test_demo.c:894-903 | the last carry is absorbed, growing by a limb when it runs off the end; the loop ends |
| AddSub.AddAbs | demo/oc_rsa_test_demo.c:857-908 | X = \|A\| + \|B\| and X is positive, for every aliasing of X, A and B |
| AddSub.BorrowLoop | demo/oc_rsa_test_demo.c:986-990 | the borrow stops inside the buffer whenever the buffer's value covers it |
| AddSub.SubHlp | demo/oc_rsa_test_demo.c:975-991 | subtracts the low n limbs of s in place |
| AddSub.SubAbs | demo/oc_rsa_test_demo.c:996-1034 | X = \|A\| - \|B\| for every aliasing; the error exactly when \|A\| < \|B\|, leaving X alone |
| AddSub.EnoughLimbs | demo/oc_rsa_test_demo.c:1023-1027 | the subtrahend's significant limbs fit the limbs X owns, so the helper never leaves the buffer |
| AddSub.AddMpi | demo/oc_rsa_test_demo.c:1039-1065 | X = A + B for all signs and every aliasing, with the exact sign field, that of a zero included; never the negative-value error |
| AddSub.SubMpi | demo/oc_rsa_test_demo.c:1070-1096 | X = A - B for all signs and every aliasing, with the exact sign field, that of a zero included; never the negative-value error |
| AddSub.AddInt | demo/oc_rsa_test_demo.c:1101-1112 | X = A + b |
| AddSub.SubInt | demo/oc_rsa_test_demo.c:1117-1128 | X = A - b |
| Shift.LimbShl | demo/oc_rsa_test_demo.c:720-723 | the bits shifted out of one limb and ORed into the next are exactly the lost high part |
| Shift.ShiftFits | demo/oc_rsa_test_demo.c:694-697 | the limbs grown for bitlen + count bits hold the shifted value |
| Shift.ShiftL | demo/oc_rsa_test_demo.c:685-730 | \|X\| times 2^count for every count; the limb count becomes what bitlen + count needs |
| Shift.LimbShr | demo/oc_rsa_test_demo.c:765-768 | the right-shift counterpart of LimbShl, with the remainder that is dropped at the end |
| Shift.DivTwice | demo/oc_rsa_test_demo.c:740-770 | dropping whole limbs and then bits is one floor division |
| Shift.ShiftR | demo/oc_rsa_test_demo.c:735-773 | floor(\|X\| / 2^count) for every count, including counts past the end; the sign field and the limb count exactly |
| Shift.ShiftThereAndBack | demo/oc_rsa_test_demo.c:685-773 | the two operations in sequence restore the object's value, and its sign unless it is zero |
| Multiply.MulAddWord | components/include/mbedtls/bn_mul.h:870-876 | one step gives (carry, d) = s*b + c + d exactly; the high half never overflows |
| Multiply.MulAddUnrolled | demo/oc_rsa_test_demo.c:929-960 | an unrolled loop of any width adds what limb-at-a-time steps add, and leaves fewer limbs than its width |
| Multiply.CarryOut | demo/oc_rsa_test_demo.c:965-968 | the trailing do-while adds the carry and stops inside a buffer with room |
| Multiply.MulHlp | demo/oc_rsa_test_demo.c:910-969 | adds b*s to the window of d for every length, in the 16/8/1 and the 8/1 configuration; the limbs below the window are untouched |
| Multiply.ProductLoop | demo/oc_rsa_test_demo.c:1157-1158 | restored version: limb-by-limb accumulation gives \|A\|*\|B\| |
| Multiply.MulMpi | demo/oc_rsa_test_demo.c:1135-1167 | restored: X = A*B under every aliasing; as shipped: X = 0 |
| Multiply.MulInt | demo/oc_rsa_test_demo.c:1172-1183 | restored: X = A*b; as shipped: X = 0 |
| WordDivision.IntDivInt | demo/oc_rsa_test_demo.c:1189-1218 | quotient and remainder of two limbs by one; all ones when the quotient would overflow or d is 0 |
| WordDivision.TrialQuotient | demo/oc_rsa_test_demo.c:1244-1245 | the half-limb trial quotient is the true digit or at most two above it |
| WordDivision.GuardExact | demo/oc_rsa_test_demo.c:1247-1247 | the loop guard, in wrapping arithmetic, holds exactly when the estimate is too large |
| WordDivision.BreakExact | demo/oc_rsa_test_demo.c:1252-1252 | leaving the loop at r0 >= radix leaves the exact digit |
| WordDivision.HalfDigit | demo/oc_rsa_test_demo.c:1244-1253 | the corrected half digit is the true quotient, after at most two corrections |
| WordDivision.HalfLimbDivide | demo/oc_rsa_test_demo.c:1228-1272 | the unreachable half-limb form returns the true quotient and remainder for every u1 < d |
| WordDivision.BothForms | demo/oc_rsa_test_demo.c:1189-1273 | run on the same input the two forms give the same quotient and remainder |
| Division.TruncLaw | demo/oc_rsa_test_demo.c:1276-1278 | A = Q*B + R with \|R\| < \|B\|, R zero or of A's sign, for the specified quotient and remainder |
| Division.StartingDigit | demo/oc_rsa_test_demo.c:1328-1334 | the two-by-one trial digit is not too small |
| Division.EstimateDigit | demo/oc_rsa_test_demo.c:1328-1351 | the decrementing do-while ends at the largest digit passing the three-by-two test, its initial wrap included |
| Division.QuotientDigit | demo/oc_rsa_test_demo.c:1341-1362 | a digit passing the test is the true one or one above it: subtracting it overshoots by less than one divisor |
| Division.SubtractDigit | demo/oc_rsa_test_demo.c:1353-1363 | after at most one add-back X is in [0, divisor*BASE^j) and the digit is exact |
| Division.TopDigit | demo/oc_rsa_test_demo.c:1319-1323 | the leading loop counts the leading digit without wrapping |
| Division.Normalise | demo/oc_rsa_test_demo.c:1306-1313 | both operands are scaled by one power of two and the divisor's top limb is nonzero |
| Division.NormalisedTop | demo/oc_rsa_test_demo.c:1306-1316 | after normalisation the divisor fills its limbs up to one bit and its limb count is exact |
| Division.DivDigit | demo/oc_rsa_test_demo.c:1326-1364 | every turn of the main loop keeps dividend = remainder + multiple * divisor and the remainder's bound |
| Division.StoreResults | demo/oc_rsa_test_demo.c:1366-1380 | what Q and R hold for every aliasing, from the signs as they are when each is read; the quotient keeps the sign product even when zero, and a zero remainder is always positive |
| Division.DivMpi | demo/oc_rsa_test_demo.c:1278-1388 | for every aliasing: Q and R carry the restored or the shipped magnitudes with the signs read; apart from the operands the restored ones are truncated quotient and remainder; as shipped R is congruent to A, no larger and of A's sign; the sign of a zero quotient or remainder; division by zero is the only error |
| Division.StoreRemainder | demo/oc_rsa_test_demo.c:1372-1380 | R is the remainder divided by the scale with A's sign, and a zero is left positive |
| Division.QuotAliasing | demo/oc_rsa_test_demo.c:1366-1370 | with Q an operand the restored quotient is right if and only if it is zero or the lost signs cancel |
| Division.RemAliasing | demo/oc_rsa_test_demo.c:1372-1380 | the restored remainder is right if and only if Q is not A, or A is zero, or A is not the smaller magnitude and B divides it or the quotient takes A's sign |
| Division.AliasingFails | demo/oc_rsa_test_demo.c:1366-1376 | -7 by 2 in place gives 3; the remainder of 1 by 2 is lost when Q is A |
| TrialDigits.TrialSumExact | demo/oc_rsa_test_demo.c:1328-1334 | trial digits taken from one dividend add up to the low part of a number exactly when each is its digit |
| ShippedDivision.ShippedQuotExact | demo/oc_rsa_test_demo.c:1326-1370 | as shipped the quotient is the true one if and only if every trial digit below the leading place is the true digit |
| ShippedDivision.ShippedSign | demo/oc_rsa_test_demo.c:1366-1370 | as shipped the signed quotient is the truncated one if and only if its magnitude is right |
| ShippedDivision.LeadingPlaceOnly | demo/oc_rsa_test_demo.c:1315-1326 | with no place below the leading one quotient and remainder are exact as shipped |
| ShippedDivision.OneLimbDivisor | demo/oc_rsa_test_demo.c:1326-1334 | with a one-limb normalised divisor and one lower place the quotient is exact as shipped |
| ShippedDivision.ShippedQuotFails | demo/oc_rsa_test_demo.c:1328-1351 | 2^64 + 2^32 by 1 gives 2^64 + 2^33 - 1 as shipped |
| ShippedDivision.ShippedRemExact | demo/oc_rsa_test_demo.c:1353-1380 | as shipped the remainder is the true one if and only if the quotient limbs below the leading place are all zero |
| Modulo.LiftToPositive | demo/oc_rsa_test_demo.c:1418-1419 | adding B ends, with a non-negative number of the same residue |
| Modulo.ReduceBelow | demo/oc_rsa_test_demo.c:1421-1422 | subtracting B ends below B with the residue kept, however large R was |
| Modulo.ModMpi | demo/oc_rsa_test_demo.c:1409-1427 | R = A mod B in [0, B), as shipped and restored alike; its sign field, negative only for a zero that the division left negative or that the loops reach from below; exact error conditions; on error R is unchanged |
| Modulo.HalfShiftFits | demo/oc_rsa_test_demo.c:1464-1469 | for b <= 2^16 no shift of the remainder overflows a limb |
| Modulo.HalfStepExact | demo/oc_rsa_test_demo.c:1464-1470 | a half-limb step is exact when the bits shifted out are a multiple of b |
| Modulo.ModFoldHalves | demo/oc_rsa_test_demo.c:1461-1472 | the loop over limbs, two half steps each, is half-limb reduction of the number the limbs denote |
| Modulo.HalfFoldExact | demo/oc_rsa_test_demo.c:1461-1472 | for every b and every number whose shifts lose no bits but multiples of b the reduction gives the remainder |
| Modulo.SmallRemainders | demo/oc_rsa_test_demo.c:1464-1469 | so it does whenever no running remainder reaches 2^16 before a shift |
| Modulo.OneLimbKept | demo/oc_rsa_test_demo.c:1464-1469 | every number below 2^32 is of that kind, for every b |
| Modulo.ModFoldExact | demo/oc_rsa_test_demo.c:1461-1472 | the loop over limbs computes the remainder of every such number |
| Modulo.ModFoldCondition | demo/oc_rsa_test_demo.c:1461-1472 | the loop is right for all A if and only if b <= 2^16 or b divides 2^32 |
| Modulo.OverflowWitness | demo/oc_rsa_test_demo.c:1464-1464 | for every larger b, A = 2^32 gives 0 |
| Modulo.ModInt | demo/oc_rsa_test_demo.c:1432-1484 | the Euclidean A mod b for either sign of A if the shifts lose nothing but multiples of b, so always for b <= 2^16, b dividing 2^32, or \|A\| < 2^32; in every other case the half-limb reduction of \|A\| with the sign correction; exact errors |
| Modulo.ShippedRemainderFails | demo/oc_rsa_test_demo.c:1157-1160 | 2^32 + 1 divided by 1 leaves 1 as shipped |
| Montgomery.FourBits | demo/oc_rsa_test_demo.c:1494-1495 | the starting value inverts an odd limb modulo 16 |
| Montgomery.HenselStep | demo/oc_rsa_test_demo.c:1497-1498 | a Newton step squares the modulus up to which x is an inverse |
| Montgomery.MontgInit | demo/oc_rsa_test_demo.c:1489-1501 | mm*N[0] is -1 modulo 2^32 for every odd N[0] |
| Montgomery.MontgomeryDigit | demo/oc_rsa_test_demo.c:1526-1527 | u1 makes the accumulated window divisible by the base |
| Montgomery.MontgomeryRound | demo/oc_rsa_test_demo.c:1521-1533 | one round keeps window*BASE^i = A[..i]*B + u*N and window < N + B |
| Montgomery.MontgomeryRoom | demo/oc_rsa_test_demo.c:1529-1532 | no carry leaves the sliding window of n + 2 limbs |
| Montgomery.MontLoop | demo/oc_rsa_test_demo.c:1521-1533 | after n rounds T is old A below and the product, reduced to less than N + B, above |
| Montgomery.BalancingRoom | demo/oc_rsa_test_demo.c:1537-1541 | T is at least the number the discarded balancing subtraction takes from it, so that borrow loop halts inside T |
| Montgomery.MontMul | demo/oc_rsa_test_demo.c:1506-1544 | A' < N and A'*BASE^n is congruent to A*B modulo N, for A = B too; the error exactly when T is short |
| Montgomery.MontRed | demo/oc_rsa_test_demo.c:1549-1558 | A' < N and A'*BASE^n is congruent to A modulo N |
| ExpMod.MontProduct | demo/oc_rsa_test_demo.c:1700-1723 | the Montgomery product of the forms of v and w is the form of v*w |
| ExpMod.SquaredRadix | demo/oc_rsa_test_demo.c:1614-1624 | RR is BASE^(2n) mod N, computed or cached, and the cache holds it afterwards |
| ExpMod.FirstPower | demo/oc_rsa_test_demo.c:1629-1634 | W[1] is the form of A, reduced first when A is not below N |
| ExpMod.BuildTable | demo/oc_rsa_test_demo.c:1642-1665 | every entry from 2^(wsize-1) to 2^wsize - 1 holds the form of that power of A |
| ExpMod.PushedBit | demo/oc_rsa_test_demo.c:1709-1710 | a pushed bit extends the pending window by one and its first bit stays set |
| ExpMod.WindowFull | demo/oc_rsa_test_demo.c:1712-1728 | a full window indexes the table's upper half and joins the consumed exponent |
| ExpMod.WindowBit | demo/oc_rsa_test_demo.c:1687-1728 | every turn keeps: X is the form of A to the consumed exponent prefix without the pending window |
| ExpMod.ExtendedPrefix | demo/oc_rsa_test_demo.c:1675-1687 | the bit read from limb and offset extends the exponent's binary prefix |
| ExpMod.WindowLoop | demo/oc_rsa_test_demo.c:1667-1729 | after all bits of E the prefix and pending window make up E |
| ExpMod.RemainingBits | demo/oc_rsa_test_demo.c:1734-1742 | the left-over window bits complete the exponent |
| ExpMod.ExpMod | demo/oc_rsa_test_demo.c:1563-1766 | for every window size X = \|A\|^E mod N, subtracted from N for a negative base and odd exponent; exact error conditions; the cache invariant is kept; as shipped and restored alike |
| ExpMod.ExpResultExact | demo/oc_rsa_test_demo.c:1749-1753 | the result lies in [0, N], is congruent to A^E, and is A^E mod N if and only if not (negative base, odd exponent, N divides A^E) |
| ExpMod.ExpResultFails | demo/oc_rsa_test_demo.c:1749-1753 | (-3)^1 mod 3 comes out as 3 |
| Residues.MultipleReturnsModulus | demo/oc_rsa_test_demo.c:1749-1753 | a negative multiple of N to an odd power always comes out as N |
| Residues.CoprimeIsExact | demo/oc_rsa_test_demo.c:1563-1766 | for a base prime to N > 1 the result is the residue, for every exponent and sign |
| Residues.SquareFreeExact | demo/oc_rsa_test_demo.c:1749-1753 | for squarefree N a negative base and odd exponent give the residue if and only if N does not divide the base |
| Residues.TwoPrimes | demo/oc_rsa_test_demo.c:1563-1563 | a product of two distinct primes is squarefree, so the last row covers RSA moduli |
| Gcd.GcdStep | demo/oc_rsa_test_demo.c:1795-1807 | a turn keeps the common odd divisors and strictly decreases TA + TB |
| Gcd.GcdMpi | demo/oc_rsa_test_demo.c:1771-1818 | G is the greatest common divisor for B nonzero, with the common power of two restored; 0 for B = 0; G may be A or B |
| Gcd.GcdExact | demo/oc_rsa_test_demo.c:1771-1818 | the result is a greatest common divisor if and only if B is nonzero or both are zero |
| Gcd.GcdUnique | demo/oc_rsa_test_demo.c:1769-1771 | the specification determines the result |
| Gcd.GcdGreatest | demo/oc_rsa_test_demo.c:1769-1771 | a nonzero result divides both numbers and bounds every common divisor |
| Codec.PutField | demo/oc_rsa_test_demo.c:507-507 | ORing digits into fresh bits of a limb adds them at their weight |
| Codec.ReadBinary | demo/oc_rsa_test_demo.c:617-639 | X is the big-endian value of the bytes, byte by byte, in the least number of limbs from one up that holds them |
| Codec.GetByte | demo/oc_rsa_test_demo.c:362-363 | the macro extracts byte i of the value |
| Codec.WriteBinary | demo/oc_rsa_test_demo.c:644-680 | fails exactly when \|X\| >= 256^k, leaving the buffer alone; otherwise byte i from the end is byte i of \|X\|, and the buffer denotes \|X\| |
| Codec.ImportExport | demo/oc_rsa_test_demo.c:617-680 | writing what was read from k bytes returns those bytes |
| Codec.BytesInjective | demo/oc_rsa_test_demo.c:614-680 | a byte string is determined by its length and value |
| Codec.DigitTable | demo/oc_rsa_test_demo.c:456-468 | the digits below 16 are exactly the 22 characters of the printed tables, each worth its place there, and any other character gives 255 |
| Codec.RadixValExact | demo/oc_rsa_test_demo.c:474-534 | the accumulated value of a string of digits is the number it is a numeral of, by repeated division and the tables, and no other string is a numeral |
| Codec.ReadHexString | demo/oc_rsa_test_demo.c:488-509 | the positional value with an optional leading minus; the error exactly when some other character appears |
| Codec.ReadRadixString | demo/oc_rsa_test_demo.c:510-534 | restored: the positional value and sign; as shipped: the last digit, negative exactly after a minus and no zero digit |
| Codec.ReadString | demo/oc_rsa_test_demo.c:474-541 | both branches together: success exactly for the numerals of the radix, whose number X then holds; the error for a radix outside 2 to 16 |
| Codec.ShippedStringExact | demo/oc_rsa_test_demo.c:510-534 | as shipped value and sign are right if and only if the digits before the last are zeros and no zero follows a minus; the value alone also for a minus and zeros |
| Codec.ShippedStringFails | demo/oc_rsa_test_demo.c:522-532 | as shipped "10" is read as 0 and "-05" as +5 |
| Codec.PrintAndRead | demo/oc_rsa_test_demo.c:474-541 | every integer, printed in any radix from 2 to 16 with letters of either case, is read back with its sign (below 16: restored) |
| SpiFlash.DecodedAddress | demo/oc_spi_flash_demo.c:158-161 | the three address bytes carry the address modulo 2^24 |
| SpiFlash.DecodedBytes | demo/oc_spi_flash_demo.c:158-161 | the chip takes the address bytes most significant first |
| SpiFlash.PageWrite | demo/oc_spi_flash_demo.c:144-175 | one command with at most 256 bytes of the buffer |
| SpiFlash.ClearedInPage | demo/oc_spi_flash_demo.c:158-168 | a program command that stays in its page changes exactly the addressed bytes, although the chip counts columns round the page and sees 24 address bits |
| SpiFlash.ProgrammedBits | demo/oc_spi_flash_demo.c:144-175 | after programming a bit of a byte is set if and only if it was set and is set in the value |
| SpiFlash.SplitSnoc | demo/oc_spi_flash_demo.c:177-238 | a further piece at the running address keeps the pieces well split and concatenating to the data |
| SpiFlash.FlashWrite | demo/oc_spi_flash_demo.c:177-238 | for every address and size the commands hold at most 256 bytes, never cross a page and concatenate to the buffer; afterwards a bit of the chip is set if and only if it was set and, in the range written, which goes round the end of the chip, is set in the buffer; no write sets a cleared bit |
| SpiFlash.ErasedRange | demo/oc_spi_flash_demo.c:177-238 | over an erased range the memory there becomes the buffer and nothing else changes |
| SpiFlash.FlashSectorErase | demo/oc_spi_flash_demo.c:111-142 | for an address anywhere in a sector all its 4096 bytes become all ones and every other byte is unchanged |
| SpiFlash.FlashRead | demo/oc_spi_flash_demo.c:240-261 | returns the bytes from the address on, going round the end of the chip |
| SpiFlash.WriteRead | demo/oc_spi_flash_demo.c:177-261 | over an erased range of any position and length, the end of the chip included, a write followed by a read returns the buffer; every other byte is unchanged |
| SpiFlash.EraseWriteRead | demo/oc_spi_flash_demo.c:111-261 | erase, write and read inside a sector return the buffer; other sectors are untouched |
| Ip4Address.AddDigit | demo/pdp_sockets_demo.c:138-147 | either digit branch is val*base + digit modulo 2^32 |
| Ip4Address.DigitMeaning | demo/pdp_sockets_demo.c:27-30 | a character is taken in a base exactly when it is a digit there by the printed tables, 8 and 9 counting as octal, and then counts as that digit |
| Ip4Address.HexStep | demo/pdp_sockets_demo.c:145-145 | shifting by four and ORing a hexadecimal digit adds it |
| Ip4Address.CollectNumber | demo/pdp_sockets_demo.c:121-152 | consumes exactly one number, with its base prefix, and returns its positional value modulo 2^32 |
| Ip4Address.WrittenNumber | demo/pdp_sockets_demo.c:121-152 | from the prefix to where the number ends stands a numeral of its value, by the tables, and no further digit follows |
| Ip4Address.FourPartsAdd | demo/pdp_sockets_demo.c:226-226 | the shifts and ORs of the four-part form are the positional sum |
| Ip4Address.Concoct | demo/pdp_sockets_demo.c:184-230 | accepts exactly the part lists in range and returns their positional sum, for one to four parts |
| Ip4Address.Ip4AddrAton | demo/pdp_sockets_demo.c:101-236 | accepts exactly the strings that denote an address in one- to four-part notation, and returns that address |
| Ip4Address.Unambiguous | demo/pdp_sockets_demo.c:101-236 | a string denotes at most one address |
| StrictAddress.StrictExact | demo/pdp_sockets_demo.c:112-152 | a string denotes an address in the notation with C numbers, told from the printed tables and from division of the address into its parts, if and only if the parser reads that address from it and no number is an octal with 8 or 9, a bare 0x, or 2^32 or more |
| StrictAddress.FillsExact | demo/pdp_sockets_demo.c:184-230 | the range checks and weights hold exactly for the parts got by dividing the address: its bytes from the top, and all the rest in the last part |
| StrictAddress.EndsExact | demo/pdp_sockets_demo.c:176-179 | an address may be followed by exactly the end of the string, a NUL, or one of the six white-space characters |
| StrictAddress.ParseStrictly | demo/pdp_sockets_demo.c:101-236 | the parser accepts every string of the strict notation with its address; an accepted string belongs to it exactly when all its numbers are strict |
| StrictAddress.LooseNumbers | demo/pdp_sockets_demo.c:121-152 | "08", "0x" and "4294967296" are accepted as 8, 0 and 0 and are not in the strict notation |
| AddressForms.NumberAt | demo/pdp_sockets_demo.c:121-152 | a number printed in decimal, octal or hexadecimal of either case is read back modulo 2^32 wherever it stands |
| AddressForms.NotationDenotes | demo/pdp_sockets_demo.c:101-236 | printed numbers with text behind them denote an address if and only if they are its parts modulo 2^32 and the text starts with white space, a NUL or not at all |
| AddressForms.ParseNotation | demo/pdp_sockets_demo.c:101-236 | printed numbers are accepted exactly when there are at most four, all but the last are at most 255, the last is within 2^32-1, 2^24-1, 2^16-1 or 255 by their count, and the text behind may follow |
| AddressForms.PrintAndParse | demo/pdp_sockets_demo.c:101-236 | every 32-bit address is read back from its notation in one to four parts, each in any of these styles, with any white space behind |

## Left out

- Allocation failure and `MBEDTLS_MPI_MAX_LIMBS`: growing always succeeds; where a C function can fail only that way its method has no result.
- Storage sharing and freeing: a limb buffer is a sequence-valued field that methods reassign, so pointers into a buffer become offsets, and the cached R^2 of the exponentiation is a copy where the C code shares the limbs.
- 64-bit limbs: the model fixes 32-bit limbs.
- The assembler variants of the multiply-accumulate step, `MULADDC_HUIT` among them: each is taken as that many generic C steps.
- Constant-time intent and zeroisation.
- `size_t` overflow of bit and byte counts, and the length limit at the head of `mbedtls_mpi_read_string`.
- `mbedtls_mpi_shrink`, `mbedtls_mpi_swap`, `mbedtls_mpi_safe_cond_assign`, `mbedtls_mpi_safe_cond_swap`, `mbedtls_mpi_get_bit`, `mbedtls_mpi_set_bit`, `mbedtls_mpi_size`, `mbedtls_mpi_div_int`: not modelled.
- `mbedtls_mpi_read_file`, `mbedtls_mpi_write_file`, `mbedtls_mpi_fill_random`: files and randomness.
- `mbedtls_rsa_self_test` and everything it calls outside this file: those bodies are not part of this model.
- SPI pin control, write enable, busy polling and timeouts: a command completes.
- `htonl` and `htons`: not modelled.
- All other demos, among them the BLE discovery client and the recorder's ring buffer.
- Division.DivMpi: when Q and R are one object only the remainder it ends up holding is promised.
- Modulo.ModMpi: the result object must differ from B, which the closing loops go on reading.
- Modulo.ModInt: for b = 2 the integer must own a limb, because the C code reads limb 0 unconditionally.
- Montgomery.MontMul: scratch buffers of n+1 to 2n+1 limbs pass the C check, but the last round clears limb 2n+1 of the scratch buffer, outside it; the contract asks for 2n+2, which the exponentiation allocates.
- Montgomery.MontRed: the same scratch buffer of at least 2n+2 limbs.
- ExpMod.ExpMod: A must own a limb, because copying a NULL-limb A frees the table entry that is read next; X must differ from E and N, which are still read after X is overwritten; a cache that is supplied must hold BASE^(2n) mod N.
- SpiFlash.FlashRead: that the chip goes on at address 0 after its last byte is an assumption about the chip, made by the model.
- Ip4Address.Ip4AddrAton: the characters of a string are taken as they are, with position past the end reading as NUL; the destination pointer is always present.

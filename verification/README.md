# Verified model of the boot-loader and driver algorithms

This project models, in Dafny, the algorithms of this repository that carry the most weight and proves
what they are for. Each source file becomes one or a few modules.

* **Multi-precision integers** (`bignum.c`): an `Mpi` is an object with a sign and a limb buffer that the
  operations change in place, over an arbitrary limb width of 16, 32 or 64 bits. `Mpi.Mag` is its
  magnitude and `Mpi.V` its value. Every operation up to exponentiation, greatest common divisor and
  modular inverse is proved against integer arithmetic, with its aliasing rules. Three operations of
  the code are not always right, and the model keeps them as they are and says exactly when they are:
  unsigned addition (`MpiAddSub.AddAbs`), signed comparison (`Mpis.CmpMpi`) and comparison with an
  integer (`Mpis.CmpInt`). Division, Montgomery multiplication, exponentiation, the greatest common
  divisor and the private operation are proved not to depend on the wrong cases. The modular inverse
  does: `BinaryEuclid` proves the algorithm on integers for every modulus, `InverseRun.Inverse`
  defines what the code computes, lost carries included, and both agree as long as no lost carry goes
  into the result. None does for moduli below a bound close to BASE^2, and only the subtractions can
  lose one for moduli of any practical length; `CleanRun` says when none of them does, in terms of the
  algorithm on integers and the lengths of its buffers alone. `InverseLoss` gives numbers of three limbs, at every
  limb width, for which the result is wrong, and `HarmlessLoss` some for which it is right in spite of
  a lost carry.
* **RSA** (`rsa.c`): the mathematics (Fermat's little theorem, the Chinese remainder theorem, the fast
  private operation equal to the plain one, both round trips), the operations on octet strings, the
  PKCS#1 v1.5 calls of RFC 8017 with the octets of their blocks and the DER they hold, the key checks,
  and the derivation of a key from its primes.
* **NAND driver** (`k9f2g08.c`): erase, write and read walks that skip bad blocks, on a flash whose
  blocks may fail to erase and whose programming only clears bits.
* **Software UART** (`at91_gstty.c`): the transmit ring under every interleaving of the writer's memory
  accesses with the bit-clock interrupt, the receive ring under every interleaving of the reader with the
  sampling interrupt, and the transmitter's line fed to the receiver's half-bit sampler, up to the
  whole driver looped back from write to read, with how much each write and each read takes. The ring
  macros and copies of `circ_buf.h` and `circ_buf.c`.
* **CRC-32** (`crc32.c`): the table-driven, word-at-a-time loop against the shift register, with the
  table computed or the constant one, and the check value and the residue that identify the code.
* **Boot-loader heap** (`heap.c`): the linked slot table against a sequence of blocks.
* **Xmodem receiver** (`xmodem.c`): the receiver against a grammar of transfers.

Where the comments of the repository and its code disagree the model follows the code. `rsa.h` asks for
both lengths to be that of the modulus, which `rsa_public` and `rsa_private` do not check, so their
contracts cover every length. `nand_read` and `nand_write` are said to return the number of octets; they
return the length of the last chunk. `xmodem_recv` is meant to remove the padding of the last block; it
removes a run of three or more end-of-file octets only, and counts into the memory in front of the
buffer when the image consists of nothing else.

Contracts of methods that change an object in place are stated with `old`. `BASE` is two to the limb
width. Error codes are those of `bignum.h` and `rsa.h`; `ERR_RSA_PUBLIC_FAILED | ret` and its private
counterpart are sums, because the low four bits of the one and the high bits of the other are zero.

`dafny verify dfyconfig.toml` verifies the whole project.

## Model

| member | source | states |
|---|---|---|
| Mpis.Grow | platform/S3C24XX/bootstrap/bignum.c:85-104 | The buffer has at least the requested limbs; the value, the limbs in use and the sign of a number stay. |
| Mpis.Copy | platform/S3C24XX/bootstrap/bignum.c:109-131 | X takes the value and the sign of Y, also onto itself; limbs left over are zero. |
| Mpis.LSet | platform/S3C24XX/bootstrap/bignum.c:148-160 | X is the integer z, in a buffer that is not shortened. |
| Mpis.Size | platform/S3C24XX/bootstrap/bignum.c:383-396 | The result is the position of the highest one bit of the magnitude. |
| Mpis.Lsb | platform/S3C24XX/bootstrap/bignum.c:401-411 | The result is the exponent of the largest power of two that divides the number, and 0 for zero. |
| Mpis.CmpAbs | platform/S3C24XX/bootstrap/bignum.c:505-530 | The result orders the magnitudes. |
| Mpis.CmpLimbs | platform/S3C24XX/bootstrap/bignum.c:523-529 | The scan from the top limb down orders the values of the two buffers. |
| Mpis.CmpMpi | platform/S3C24XX/bootstrap/bignum.c:535-563 | The result is the integer order if and only if X has at least as many significant limbs as Y or the signs agree; otherwise it is minus the sign of X. |
| Mpis.IncomparableExample | platform/S3C24XX/bootstrap/bignum.c:550-551 | 1 compared with minus one limb of weight is reported as smaller. |
| Mpis.CmpInt | platform/S3C24XX/bootstrap/bignum.c:568-579 | The result is the order against z if and only if X is not a zero whose sign is not that of a nonzero z, and minus the sign of X then. |
| Mpis.SizeFromTop | platform/S3C24XX/bootstrap/bignum.c:387-395 | The bit length is given by the highest nonzero limb alone. |
| MpiShift.ShiftL | platform/S3C24XX/bootstrap/bignum.c:416-460 | The magnitude is multiplied by 2^count, in a buffer just large enough; the sign stays. |
| MpiShift.ShiftR | platform/S3C24XX/bootstrap/bignum.c:465-500 | The magnitude is divided by 2^count, rounding down; sign and buffer size stay. |
| MpiShift.ShlNext | platform/S3C24XX/bootstrap/bignum.c:448-454 | Storing one shifted limb extends the part that equals the original times 2^t1, spilled bits included. |
| MpiShift.ShrNext | platform/S3C24XX/bootstrap/bignum.c:490-496 | Storing one shifted limb, from the top down, keeps the exact quotient and remainder of the part done. |
| MpiAddSub.SubHlp | platform/S3C24XX/bootstrap/bignum.c:630-646 | A subtrahend not larger than the destination is subtracted exactly; the borrow stops inside the buffer. |
| MpiAddSub.BorrowStops | platform/S3C24XX/bootstrap/bignum.c:641-645 | A borrow cannot reach the end of a buffer that holds at least what is subtracted. |
| MpiAddSub.SubAbs | platform/S3C24XX/bootstrap/bignum.c:651-682 | The result is the difference of the magnitudes under every aliasing, or an error and no change exactly when it would be negative. |
| MpiAddSub.AddAbs | platform/S3C24XX/bootstrap/bignum.c:584-625 | The sum of the magnitudes is right if and only if the operands are not faulty, under every aliasing; on faulty operands it is short by exactly (BASE - 1) at the lost place. |
| MpiAddSub.RippleCarry | platform/S3C24XX/bootstrap/bignum.c:611-620 | The last loop adds its carry at place n, except that an all-ones limb there with another limb above it takes the carry a second time. |
| MpiAddSub.RippledExact | platform/S3C24XX/bootstrap/bignum.c:605-620 | The sum comes out exactly when the carry out of the top significant limb of B does not meet an all-ones limb that is not the last. |
| MpiAddSub.CarryLostExample | platform/S3C24XX/bootstrap/bignum.c:611-620 | Two limbs of ones under a zero, plus one, lose the carry. |
| MpiAddSub.DoubledVal | platform/S3C24XX/bootstrap/bignum.c:605-609 | Adding a number to itself in place doubles each limb without carries: right exactly when no limb has its top bit set. |
| MpiAddSub.AddMpi | platform/S3C24XX/bootstrap/bignum.c:687-713 | The signed sum is right if and only if the signs differ or the unsigned addition is not faulty, and what it is otherwise, a number added to itself in place included; sign, and buffer length in place. |
| MpiAddSub.SubMpi | platform/S3C24XX/bootstrap/bignum.c:718-744 | The signed difference is right if and only if the signs agree or the unsigned addition is not faulty, and what it is otherwise; sign, and buffer length in place. |
| MpiMul.MulHlp | platform/S3C24XX/bootstrap/bignum.c:781-864 | The window receives its old value plus b times the i limbs of s, nothing outside it is written, and the carry stops inside it. |
| MpiMul.MulAddCore | platform/S3C24XX/bootstrap/include/bn_asm.h:510-516 | One step of the multiply-accumulate core: limb times limb plus limb plus carry splits into a limb and a carry, without overflow. |
| MpiMul.MultipliedNext | platform/S3C24XX/bootstrap/bignum.c:890-891 | Row j, taken from the top down, makes the buffer the product with the limbs from j on. |
| MpiMul.MulMpi | platform/S3C24XX/bootstrap/bignum.c:869-899 | X is the product of A and B, magnitude, sign and value, under every aliasing of the three; its buffer size. |
| MpiMul.MulInt | platform/S3C24XX/bootstrap/bignum.c:904-915 | X is A times one limb. |
| QuotientDigit.EstimateNotBelow | platform/S3C24XX/bootstrap/bignum.c:967-980 | The two-limb by one-limb estimate, or all ones, is never below the true quotient digit. |
| QuotientDigit.DigitPassesTest | platform/S3C24XX/bootstrap/bignum.c:1024-1039 | The true digit passes the three-limb test, so the correction loop never goes below it. |
| QuotientDigit.TestBoundsDigit | platform/S3C24XX/bootstrap/bignum.c:1024-1039 | Whatever passes the test is at most one above the true digit, although the divisor is only normalised to biL - 1 bits. |
| MpiDiv.EstimateDigit | platform/S3C24XX/bootstrap/bignum.c:967-1039 | The corrected digit is the true one or one more. |
| MpiDiv.AddBack | platform/S3C24XX/bootstrap/bignum.c:1041-1051 | The remainder goes negative exactly for the digit that is one too large, and one add-back repairs it. |
| MpiDiv.SubtractDigit | platform/S3C24XX/bootstrap/bignum.c:1041-1051 | The true digit is stored and X loses exactly that multiple of the shifted divisor. |
| MpiDiv.Normalize | platform/S3C24XX/bootstrap/bignum.c:946-953 | Both operands are multiplied by the same 2^k, and the divisor ends one bit below a limb boundary. |
| MpiDiv.TopDigit | platform/S3C24XX/bootstrap/bignum.c:957-963 | The leading digit is counted up without overflow and the divisor is moved back unchanged. |
| MpiDiv.DivideLimbs | platform/S3C24XX/bootstrap/bignum.c:965-1052 | After the digit loop Z * Y + X is what it was at the start, and X < Y. |
| MpiDiv.DivMpi | platform/S3C24XX/bootstrap/bignum.c:920-1074 | Error exactly for a zero divisor; otherwise A = Q * B + R truncating toward zero, with magnitudes, signs and R < B; R may be A, and then a negative A loses its sign. |
| MpiDiv.StoreRemainder | platform/S3C24XX/bootstrap/bignum.c:1060-1068 | The sign is taken from A after R is written, and a zero remainder is positive. |
| MpiDiv.ModMpi | platform/S3C24XX/bootstrap/bignum.c:1099-1114 | The residue in [0, B), for both signs of A, except that a zero with a minus sign gives -B. |
| MpiAddSub.ZeroAddsExactly | platform/S3C24XX/bootstrap/bignum.c:1105-1109 | Adding to a zero cannot lose a carry. |
| Montgomery.NewtonStep | platform/S3C24XX/bootstrap/bignum.c:1166-1170 | One Newton iteration doubles the number of bits to which x inverts m0. |
| Montgomery.MontgInit | platform/S3C24XX/bootstrap/bignum.c:1160-1173 | mm * N[0] = -1 modulo the limb base, for every odd N and every limb width. |
| Montgomery.LowLimbCleared | platform/S3C24XX/bootstrap/bignum.c:1194-1198 | The multiplier u1 makes the lowest limb of T zero. |
| Montgomery.ReducingNext | platform/S3C24XX/bootstrap/bignum.c:1189-1201 | One round keeps T below N + B, T * BASE^(i+1) congruent to the consumed part of A times B, and the used limbs of A behind it. |
| Montgomery.MontMul | platform/S3C24XX/bootstrap/bignum.c:1178-1210 | A becomes a residue below N with A * BASE^n congruent to the old A * B modulo N, B may be A; the dummy subtraction stays in T. |
| Montgomery.MontRed | platform/S3C24XX/bootstrap/bignum.c:1215-1224 | A becomes a residue below N with A * BASE^n congruent to the old A modulo N. |
| SlidingWindow.MontSquare | platform/S3C24XX/bootstrap/bignum.c:1259-1269 | The constant is R^2 mod N, whether computed, and then cached, or taken from the cache. |
| SlidingWindow.LoadBase | platform/S3C24XX/bootstrap/bignum.c:1274-1276 | W[1] starts congruent to A and no larger than N. |
| SlidingWindow.FillTable | platform/S3C24XX/bootstrap/bignum.c:1286-1309 | Entry i of the upper half of the table is the Montgomery form of A^i. |
| SlidingWindow.ScanBits | platform/S3C24XX/bootstrap/bignum.c:1311-1371 | X is the Montgomery form of A to the consumed prefix of E, without the pending window, whose bits are in nbits and wbits. |
| SlidingWindow.FinishBits | platform/S3C24XX/bootstrap/bignum.c:1376-1384 | The pending bits are worked off. |
| SlidingWindow.LeaveForm | platform/S3C24XX/bootstrap/bignum.c:1386-1389 | The last reduction turns the Montgomery form into the residue. |
| SlidingWindow.ExpMod | platform/S3C24XX/bootstrap/bignum.c:1229-1401 | Error exactly for negative or even N; otherwise X = A^E mod N, with X allowed to be A, and the cache holds R^2 mod N afterwards. |
| NumberTheory.GcdIsGcd | platform/S3C24XX/bootstrap/bignum.c:1403-1405 | Euclid's algorithm, the reference, yields the common divisor that every common divisor divides. |
| NumberTheory.GcdHalf | platform/S3C24XX/bootstrap/bignum.c:1428-1429 | A factor of two of one operand only does not change the greatest common divisor. |
| GcdInverse.CommonTwos | platform/S3C24XX/bootstrap/bignum.c:1419-1424 | The smaller of the two counts of low zero bits can be taken out of both operands, and leaves one of them odd. |
| GcdInverse.OddDifference | platform/S3C24XX/bootstrap/bignum.c:1431-1440 | Subtracting and halving keeps the greatest common divisor of two odd numbers. |
| GcdInverse.GcdStep | platform/S3C24XX/bootstrap/bignum.c:1426-1441 | A round keeps TG * gcd(TA, TB) and the oddness of one operand, keeps TB positive, and decreases TA + TB. |
| GcdInverse.GcdMpi | platform/S3C24XX/bootstrap/bignum.c:1406-1449 | G is the greatest common divisor of the magnitudes, in every aliasing, for every B but a zero beside a nonzero A. |
| BinaryEuclid.Parity | platform/S3C24XX/bootstrap/bignum.c:1489-1493 | An even combination has, after adding TB to one coefficient and taking TA from the other where one is odd, two even coefficients. |
| BinaryEuclid.HalvedCombines | platform/S3C24XX/bootstrap/bignum.c:1489-1496 | On integers the halved coefficients express the halved number. |
| BinaryEuclid.StrippedCoprime | platform/S3C24XX/bootstrap/bignum.c:1485-1497 | Stripping one side keeps it coprime to the other. |
| BinaryEuclid.RunCombines | platform/S3C24XX/bootstrap/bignum.c:1483-1526 | On integers the main loop ends in 1 and in coefficients that express it. |
| BinaryEuclid.PlainInverseIsInverse | platform/S3C24XX/bootstrap/bignum.c:1473-1532 | On integers the algorithm ends with the inverse for every N > 1 and every A coprime to it, without any further condition. |
| InverseRun.AddedValue | platform/S3C24XX/bootstrap/bignum.c:687-744 | A coefficient known by sign, magnitude and buffer length: the number an addition in place leaves is the sum if and only if no carry is lost. |
| InverseRun.HalvedTracks | platform/S3C24XX/bootstrap/bignum.c:1489-1496 | A halving of the code is one on integers unless a carry is lost. |
| InverseRun.HalvedExactly | platform/S3C24XX/bootstrap/bignum.c:1489-1496 | A halving adds N and subtracts A exactly where a coefficient is odd and no addition of equal signs loses its carry, and records exactly such losses. |
| InverseRun.ReducedTracks | platform/S3C24XX/bootstrap/bignum.c:1513-1524 | The subtractions of the code are those on integers unless a carry is lost. |
| InverseRun.ReducedExactly | platform/S3C24XX/bootstrap/bignum.c:1513-1524 | A subtraction is one of numbers if and only if it is not an addition of equal signs that loses its carry, and exactly such a loss is recorded, for every sign and size. |
| InverseRun.RunTracks | platform/S3C24XX/bootstrap/bignum.c:1483-1526 | The run of the code ends as the run on integers in every coefficient that no lost carry has gone into. |
| InverseRun.RightIsAgreeing | platform/S3C24XX/bootstrap/bignum.c:1454-1542 | mpi_inv_mod ends with the inverse if and only if it agrees modulo N with the algorithm on integers, and it does so if no lost carry has gone into the result. |
| InverseRun.NoLoss | platform/S3C24XX/bootstrap/bignum.c:611-620 | A coefficient below (BASE - 1) * BASE never loses a carry. |
| InverseRun.StripsBounded | platform/S3C24XX/bootstrap/bignum.c:1485-1511 | Lost carries or not, U1 and V1 grow by at most half of N, and U2 and V2 by half of A, for each bit that the strip loops use up. |
| InverseRun.HalvedShort | platform/S3C24XX/bootstrap/bignum.c:1489-1496 | A buffer at most one limb longer than the number added to it stays so, and then the strip loop loses no carry. |
| InverseRun.StripsLoseNothing | platform/S3C24XX/bootstrap/bignum.c:1485-1511 | For A and N of together at most BASE - 4 bits no strip loop ever loses a carry: only the subtractions can. |
| InverseRun.SmallExact | platform/S3C24XX/bootstrap/bignum.c:1483-1526 | No carry is lost at all when N times four more than the bits of A and N is below (BASE - 1) * BASE. |
| InverseRun.OneLimbSmall | platform/S3C24XX/bootstrap/bignum.c:1483-1526 | Every modulus of one limb meets that bound. |
| InverseRun.OneLimbExact | platform/S3C24XX/bootstrap/bignum.c:1483-1526 | No carry is ever lost for a modulus of one limb. |
| CleanRun.RoomIs | platform/S3C24XX/bootstrap/bignum.c:584-590 | The length of a buffer after an addition is the least one that is not shorter and holds the addend and the sum. |
| CleanRun.MeetsOnesMeans | platform/S3C24XX/bootstrap/bignum.c:605-620 | When the carry out of the k significant limbs of the addend meets a limb of ones below the end of the buffer, in powers of the base. |
| CleanRun.StripIs | platform/S3C24XX/bootstrap/bignum.c:1485-1497 | On integers a strip loop divides the number by the largest power of two in it, and the coefficients after adding one multiple of TB and subtracting the same multiple of TA. |
| CleanRun.RoundsFollow | platform/S3C24XX/bootstrap/bignum.c:1483-1526 | The rounds of the run on integers: each follows from the one before by one subtraction and a strip loop, with the buffer lengths that go with it, and the last one holds the inverse. |
| CleanRun.MeetsIsLoss | platform/S3C24XX/bootstrap/bignum.c:605-620 | The code loses a carry exactly where the integers and the buffer length say so. |
| CleanRun.StrippedMatches | platform/S3C24XX/bootstrap/bignum.c:1485-1497 | A strip loop of the code that loses nothing leaves the integers of the strip loop on integers, in buffers of its lengths. |
| CleanRun.ReducedMatches | platform/S3C24XX/bootstrap/bignum.c:1513-1524 | So does a subtraction of which no carry meets a limb of ones. |
| CleanRun.CleanIsExact | platform/S3C24XX/bootstrap/bignum.c:1483-1526 | If no subtraction of the run on integers has its carry meet a limb of ones below the end of a buffer, no lost carry goes into what the code computes, for A and N of together at most BASE - 4 bits. |
| CleanRun.AllCleanIsExact | platform/S3C24XX/bootstrap/bignum.c:1483-1526 | The same for numbers of any length, when no addition of a strip loop loses a carry either. |
| InverseLoss.StripThrice | platform/S3C24XX/bootstrap/bignum.c:1499-1511 | The strip loop in closed form on the coefficients of the failing run. |
| InverseLoss.AddStray | platform/S3C24XX/bootstrap/bignum.c:611-620 | A carry out of the lowest limb into a limb of ones below the end of the buffer is lost, and what the sum is then. |
| InverseLoss.RunIs | platform/S3C24XX/bootstrap/bignum.c:1473-1526 | The coefficient that the run ends with for the residue BASE^2 + 2 and the modulus 2 * BASE^2 + 5. |
| InverseLoss.InverseGoesWrong | platform/S3C24XX/bootstrap/bignum.c:1454-1542 | At every limb width this residue is invertible, and no number congruent to what mpi_inv_mod computes is its inverse. |
| HarmlessLoss.StripNinefold | platform/S3C24XX/bootstrap/bignum.c:1499-1511 | The strip loop in closed form on the coefficients of the run that loses a carry without harm. |
| HarmlessLoss.RunEnds | platform/S3C24XX/bootstrap/bignum.c:1473-1526 | What the run ends with for the residue BASE^2 + 5 and the modulus 3 * BASE^2 / 2 + 8: the last subtraction loses a carry of V2. |
| HarmlessLoss.LossWithoutHarm | platform/S3C24XX/bootstrap/bignum.c:1454-1542 | At every limb width, on these numbers a lost carry goes into the result, and the result is the inverse: exactness is sufficient and not necessary. |
| GcdInverse.FaultyIs | platform/S3C24XX/bootstrap/bignum.c:611-620 | Whether a carry is lost is decided by the magnitudes and the length of the buffer. |
| GcdInverse.AddInPlace | platform/S3C24XX/bootstrap/bignum.c:687-713 | Sign, magnitude and buffer length after an addition in place, a lost carry included. |
| GcdInverse.SubInPlace | platform/S3C24XX/bootstrap/bignum.c:718-744 | Sign, magnitude and buffer length after a subtraction in place, a lost carry included. |
| GcdInverse.HalveCoefficients | platform/S3C24XX/bootstrap/bignum.c:1489-1496 | The two coefficients go to those of the abstract halving. |
| GcdInverse.StripSide | platform/S3C24XX/bootstrap/bignum.c:1485-1497 | The strip loop leaves the abstract stripped side in the three buffers. |
| GcdInverse.SubtractSide | platform/S3C24XX/bootstrap/bignum.c:1513-1524 | The three subtractions leave the abstract difference of the sides. |
| GcdInverse.InverseStep | platform/S3C24XX/bootstrap/bignum.c:1483-1526 | A round leads to a state with the same outcome, or to the outcome itself when TU is zero, and decreases TU + TV. |
| GcdInverse.InverseLoop | platform/S3C24XX/bootstrap/bignum.c:1483-1526 | The loop ends with V1 as the abstract run defines it, sign, magnitude and buffer length. |
| GcdInverse.NormalizeInverse | platform/S3C24XX/bootstrap/bignum.c:1528-1532 | The two last loops end, and bring V1 to its residue modulo N, except that a multiple of N can become -N. |
| GcdInverse.InvMod | platform/S3C24XX/bootstrap/bignum.c:1454-1542 | INVALID_PARAMETER exactly for N <= 0, NOT_INVERTIBLE exactly when gcd(A, N) is not 1; otherwise X is in range. X inverts A and 0 < X < N if no subtraction of the run on integers adds equal signs so that the last carry meets a limb of ones below the end of its buffer, and, for A and N of together more than BASE - 4 bits, no addition of a strip loop does. In general X inverts A if and only if it agrees with the algorithm on integers, which it does if no lost carry has gone into it; none does for small N, all of one limb included. |
| Octets.EncodeDecode | platform/S3C24XX/bootstrap/bignum.c:333-378 | Writing a number back into the same number of octets restores the octets. |
| Octets.DecodeEncode | platform/S3C24XX/bootstrap/bignum.c:333-378 | Reading back a number that fits its octets restores the number. |
| Octets.OctetLenLeq | platform/S3C24XX/bootstrap/bignum.c:359 | A number needs at most n octets exactly when it is below 256^n. |
| Octets.PlaceOctet | platform/S3C24XX/bootstrap/bignum.c:344-345 | Or-ing octet j into its limb adds b * 256^j. |
| Octets.LimbOctet | platform/S3C24XX/bootstrap/bignum.c:373-374 | Octet j of the number is the shifted and truncated limb j / ciL. |
| Octets.Import | platform/S3C24XX/bootstrap/bignum.c:333-350 | X is the big-endian number in the buffer, leading zeros or not. |
| Octets.Export | platform/S3C24XX/bootstrap/bignum.c:355-380 | The buffer holds the number big-endian, padded with zeros in front; too short a buffer is refused, unchanged, with the length needed. |
| NumberTheory.Fermat | platform/S3C24XX/bootstrap/rsa.c:78-87 | a^p = a mod p for every prime p and every a: what the exponents of a key rest on. |
| NumberTheory.BinomialTheorem | platform/S3C24XX/bootstrap/rsa.c:78-87 | (a + 1)^n is the binomial sum, from which Fermat's theorem follows. |
| NumberTheory.EuclidLemma | platform/S3C24XX/bootstrap/rsa.c:165-186 | A prime that divides a product divides a factor. |
| NumberTheory.DistinctPrimes | platform/S3C24XX/bootstrap/rsa.c:165-186 | Distinct primes that divide a number divide it together. |
| RsaMath.SmallKey | platform/S3C24XX/bootstrap/rsa.c:78-87 | Keys that satisfy the equations exist. |
| RsaMath.Garner | platform/S3C24XX/bootstrap/rsa.c:176-186 | The recombined value agrees with T1 modulo P and with T2 modulo Q. |
| RsaMath.HalfExponent | platform/S3C24XX/bootstrap/rsa.c:85-86 | DP and DQ serve as well as D modulo P and Q, also for messages divisible by P or Q. |
| RsaMath.CrtIsPlain | platform/S3C24XX/bootstrap/rsa.c:165-187 | The branch by the Chinese remainder theorem returns exactly what the disabled branch T^D mod N returns, below N, for every T. |
| RsaMath.RoundTrip | platform/S3C24XX/bootstrap/rsa.c:108-201 | The private operation undoes the public one and the public one the private one on every message below N, multiples of P or Q included. |
| Rsa.RsaPublic | platform/S3C24XX/bootstrap/rsa.c:108-140 | All outcomes: T >= N, an even modulus, too short an output, and otherwise the octets of T^E mod N; output may be the input. |
| Rsa.RecombinationIsExact | platform/S3C24XX/bootstrap/rsa.c:185-186 | The final addition never meets the faulty carry, because T2 is below Q. |
| Rsa.Recombine | platform/S3C24XX/bootstrap/rsa.c:176-186 | T = T2 + ((T1 - T2) * QP mod P) * Q, also for T1 < T2. |
| Rsa.CrtPrivate | platform/S3C24XX/bootstrap/rsa.c:165-187 | On a valid key the branch computes the function that CrtIsPlain is about and keeps the caches right. |
| Rsa.RsaPrivate | platform/S3C24XX/bootstrap/rsa.c:145-201 | All outcomes on a valid key: T >= N, too short an output, and otherwise the octets of T^D mod N; output may be the input. |
| RsaKey.CheckPubkey | platform/S3C24XX/bootstrap/rsa.c:206-221 | Accepted exactly when N and E are odd, N has 128 to 4096 bits and E 2 to 64. |
| RsaKey.CheckPrivkey | platform/S3C24XX/bootstrap/rsa.c:226-250 | Accepted exactly when P * Q = N and gcd(E, (P - 1)(Q - 1)) = 1, for all integers P and Q above 1. |
| RsaKey.PrimesCoprime | platform/S3C24XX/bootstrap/rsa.c:87 | Distinct primes are coprime, so QP exists. |
| RsaKey.DeriveKey | platform/S3C24XX/bootstrap/rsa.c:64-89 | A pair of primes is accepted exactly when they differ and gcd(E, (P - 1)(Q - 1)) = 1; then Q < P and N = P * Q, and if the two inversions lose no carry the key is valid, 0 < D < (P - 1)(Q - 1) with D * E = 1 modulo (P - 1)(Q - 1), DP and DQ are its residues, 0 < QP < P with QP * Q = 1 modulo P, and len is the length of N. |
| RsaKey.KeyIsClean | platform/S3C24XX/bootstrap/rsa.c:82-87 | For N of up to 4096 bits the inversions lose no carry that counts when every round of the two runs on integers is clean, at every limb width. |
| Pkcs1.PublicOctetsAre | platform/S3C24XX/bootstrap/rsa.c:108-140 | As long as the modulus, the octets of the public operation stand for the number to the power E, modulo N. |
| Pkcs1.PrivateOctetsAre | platform/S3C24XX/bootstrap/rsa.c:145-201 | Those of the private operation stand for the number to the power D, modulo N. |
| Pkcs1.UnpadIsInverse | platform/S3C24XX/bootstrap/rsa.c:300-317 | A block unpads to a message if and only if it is 0, 2, some nonzero octets, 0 and that message. |
| Pkcs1.BlockBelowModulus | platform/S3C24XX/bootstrap/rsa.c:255-282 | A block as long as the modulus is below it because of its leading zero. |
| Pkcs1.OctetRoundTrip | platform/S3C24XX/bootstrap/rsa.c:108-201 | On octet strings of the modulus' length and below it, each operation undoes the other. |
| Pkcs1.EncryptionRoundTrip | platform/S3C24XX/bootstrap/rsa.c:255-320 | Decrypting what was encrypted returns the message, for every valid key, message and nonzero padding. |
| Pkcs1.ParseIsInverse | platform/S3C24XX/bootstrap/rsa.c:414-427 | The signature parser yields t exactly on the block 0, 1, octets of ones, 0 and t. |
| Pkcs1.VerdictIsZero | platform/S3C24XX/bootstrap/rsa.c:427-465 | The comparisons accept exactly the DigestInfo of the hash; a raw hash of 34 octets has to look like an MD DigestInfo and then octet 13 is ignored. |
| Pkcs1.VerdictCode | platform/S3C24XX/bootstrap/rsa.c:427-465 | Which of the two codes a refusal has: VERIFY_FAILED for data of the kind the algorithm calls for and for 34 octets without the MD prefix, INVALID_PADDING for anything else. |
| Pkcs1.VerifiesOnlyItsBlock | platform/S3C24XX/bootstrap/rsa.c:414-465 | Verification accepts exactly the block that signing makes, whatever the length, raw hashes of 34 octets aside. |
| Pkcs1.RawDigestInfo | platform/S3C24XX/bootstrap/rsa.c:429-463 | The block of a raw hash of 34 octets is accepted if and only if the hash starts like an MD DigestInfo. |
| Pkcs1.RawHashRefused | platform/S3C24XX/bootstrap/rsa.c:429-435 | A raw hash of 34 ones is refused although its own signature is presented. |
| Pkcs1.VerifiesOnlyTheSignature | platform/S3C24XX/bootstrap/rsa.c:325-466 | Below the modulus, verification accepts a signature if and only if it is the one that signing makes. |
| Pkcs1.SignatureRoundTrip | platform/S3C24XX/bootstrap/rsa.c:325-466 | Verification accepts what signing made for every algorithm, key and hash, raw hashes of 34 octets exactly when they look like an MD DigestInfo. |
| Der.DigestInfoReads | platform/S3C24XX/bootstrap/include/rsa.h:33-48 | A sequence of a sequence of an object identifier and NULL, and of an octet string, reads as its parts, for every identifier and digest. |
| Pkcs1Format.DigestInfoIs | platform/S3C24XX/bootstrap/include/rsa.h:24-48 | Read as DER, the data signed for the identifiers 2, 3, 4 and 5 names 1.2.840.113549.2.2, .4 and .5 and 1.3.14.3.2.26 and holds the hash; raw data is the hash itself. |
| Pkcs1Format.SignatureFormat | platform/S3C24XX/bootstrap/rsa.c:325-396 | The signature stands for a power D modulo N of the block 0, 1, octets of ones, 0 and that DigestInfo, as long as the modulus. |
| RsaPkcs1.Encrypt | platform/S3C24XX/bootstrap/rsa.c:255-282 | Lengths are refused exactly as coded; otherwise the output stands for the power E modulo N of the block 0, 2, the nonzero octets, 0 and the message, in place. |
| RsaPkcs1.FindData | platform/S3C24XX/bootstrap/rsa.c:300-311 | The scan finds the message that unpadding defines, or reports the padding. |
| RsaPkcs1.Decrypt | platform/S3C24XX/bootstrap/rsa.c:287-320 | Lengths and representatives out of range are refused; otherwise the message and its length, or INVALID_PADDING for bad padding or too short an output, which then stays unchanged. |
| RsaPkcs1.UnpaddedIs | platform/S3C24XX/bootstrap/rsa.c:300-320 | The message behind 0, 2, nonzero octets and 0 is returned if it fits, and every other block is refused with INVALID_PADDING. |
| RsaPkcs1.Sign | platform/S3C24XX/bootstrap/rsa.c:325-396 | Refused exactly for a wrong length, an identifier other than 0, 2, 3, 4 and 5, or fewer than 8 padding octets; otherwise the signature of the block, in place. |
| RsaPkcs1.CheckData | platform/S3C24XX/bootstrap/rsa.c:427-465 | The comparisons on the buffer, octet 13 cleared on the way, give the verdict. |
| RsaPkcs1.Verify | platform/S3C24XX/bootstrap/rsa.c:401-466 | Lengths and representatives out of range are refused, otherwise the verdict on the recovered block; more than 512 octets are refused although signing allows them. |
| RsaCheckup.EncryptThenDecrypt | platform/S3C24XX/bootstrap/rsa.c:550-577 | The checkup for every key of 16 to 512 octets, every message and every nonzero padding: decrypting what was encrypted on the caller's buffers returns the message and its length. |
| RsaCheckup.SignThenVerify | platform/S3C24XX/bootstrap/rsa.c:579-602 | Verifying what was signed on the caller's buffers accepts it, if and only if it is not a raw hash of 34 octets that does not look like a DigestInfo. |
| Nand.ReadPage | platform/S3C24XX/bootstrap/k9f2g08.c:121-168 | The octets of the page from the offset on, cut off at the end of the spare area. |
| Nand.WritePage | platform/S3C24XX/bootstrap/k9f2g08.c:181-242 | The octets are programmed, which can only clear bits, cut off at the end of the spare area; other pages stay. |
| Nand.AndBit | platform/S3C24XX/bootstrap/k9f2g08.c:181-242 | Programming leaves a bit set exactly when it was set and is set in the data. |
| Nand.IsBadBlock | platform/S3C24XX/bootstrap/k9f2g08.c:252-277 | True exactly when the first spare octet of the block's first page is not 0xFF. |
| Nand.MarkBadBlock | platform/S3C24XX/bootstrap/k9f2g08.c:285-308 | The first spare octet of the first page of the block is programmed with 0xEE, and nothing else changes; that marks the block, whatever its erase left behind. |
| Nand.EraseBlock | platform/S3C24XX/bootstrap/k9f2g08.c:317-359 | A block that fails is reported and keeps what its erase left but for the marker, any other is all ones; other blocks stay. |
| Nand.Erase | platform/S3C24XX/bootstrap/k9f2g08.c:370-411 | Misalignment is refused; otherwise, skipping, every block is tried until as many as asked for are erased, and nothing else changes. |
| Nand.PagesIncrease | platform/S3C24XX/bootstrap/k9f2g08.c:500-536 | The walk gives the pages of a transfer distinct places in the order of the data. |
| Nand.WalkSkips | platform/S3C24XX/bootstrap/k9f2g08.c:500-507 | A bad block is skipped where the walk enters it; in front of anything else the walk is where the data belongs. |
| Nand.PlaceCounts | platform/S3C24XX/bootstrap/k9f2g08.c:500-536 | Page k of a transfer lies in a good block with as many good blocks before it as the data fills, at the distance from the start of the block that the start address gives. |
| Nand.EndCounts | platform/S3C24XX/bootstrap/k9f2g08.c:388-408 | The erase ends right behind a good block, with as many good blocks behind it as were asked for. |
| Nand.MarkersKept | platform/S3C24XX/bootstrap/k9f2g08.c:577-591 | Writing data never alters a bad-block marker. |
| Nand.Write | platform/S3C24XX/bootstrap/k9f2g08.c:545-602 | Page k of the data is programmed into the k-th page of the walk over good blocks, nothing else changes, markers stay; the result is the length of the last chunk. |
| Nand.StoredOctet | platform/S3C24XX/bootstrap/k9f2g08.c:577-591 | Octet i of the data is programmed into octet i mod 2048 of the page that the walk gives its page. |
| Nand.Read | platform/S3C24XX/bootstrap/k9f2g08.c:477-535 | Page k of the result is what the k-th page of the same walk holds; the result is the length of the last chunk. |
| Nand.LoadedOctet | platform/S3C24XX/bootstrap/k9f2g08.c:515-525 | Octet i of the result is octet i mod 2048 of that page. |
| Nand.ErasedPlace | platform/S3C24XX/bootstrap/k9f2g08.c:370-411 | After the erase, every page of the data has a place, in an erased block that did not fail. |
| Nand.StoreAndLoad | platform/S3C24XX/bootstrap/bootstrap.c:115-118 | Erasing, writing and reading back an image the way the boot loader does returns it for every pattern of blocks that fail to erase; exactly the failed blocks are marked. |
| Rings.Macros | program/utilits/circ_buf.h:15-34 | Count and space add up to one less than the size, and the to-end forms cut them off at the end of the buffer. |
| Rings.StoredAppend | program/utilits/circ_buf.c:77-100 | Publishing octets written behind the contents appends them. |
| Rings.StoredDrop | program/utilits/circ_buf.c:115-136 | Moving the tail drops the oldest octets. |
| Rings.ProduceItem | program/utilits/circ_buf.c:69-105 | As much as fits is appended to the contents in order, across the end of the buffer. |
| Rings.ConsumeItem | program/utilits/circ_buf.c:107-148 | As much as there is and fits is returned in order and dropped from the contents. |
| Rings.ProduceThenConsume | program/utilits/circ_buf.c:58-63 | What is produced into an empty ring with room is consumed again. |
| SerialTx.NextKeepsInv | platform/AT91SAM9XXX/at91_platform_drvier/at91_gstty.c:146-198 | Every step of gstty_write, of the transmit interrupt and of a signal keeps the invariant, in every state it can strike. |
| SerialTx.Measured | platform/AT91SAM9XXX/at91_platform_drvier/at91_gstty.c:408-424 | Between the two reads the tail may move: the space measured first is still there, and the first segment ends at the end of the buffer. |
| SerialTx.WriterKeepsInv | platform/AT91SAM9XXX/at91_platform_drvier/at91_gstty.c:395-428 | No write of the writer touches an octet that is not sent yet. |
| SerialTx.TickKeepsInv | platform/AT91SAM9XXX/at91_platform_drvier/at91_gstty.c:146-198 | A tick sends the next bit of the oldest octet and frees its slot only with the stop bit. |
| SerialTx.SentOnceInOrder | platform/AT91SAM9XXX/at91_platform_drvier/at91_gstty.c:146-198 | Over every interleaving, what went over the line and what is in the ring are the published octets, each once and in order. |
| SerialTx.FrameIs | platform/AT91SAM9XXX/at91_platform_drvier/at91_gstty.c:171-184 | A frame is a start bit, the eight bits of the octet from the lowest on, and a stop bit. |
| SerialTx.WriteTakes | platform/AT91SAM9XXX/at91_platform_drvier/at91_gstty.c:395-428 | From every state with an idle writer and whatever comes between its accesses, a write publishes a prefix of its data and, when it waits or is done, exactly as many octets as there was room for when it was called, or all; that is what it returns. |
| SerialTx.PublishedIsTaken | platform/AT91SAM9XXX/at91_platform_drvier/at91_gstty.c:395-428 | Over every interleaving of any number of writes, published octets and those the write under way has still to publish are the octets taken over, in order. |
| SerialTx.WriteEnds | platform/AT91SAM9XXX/at91_platform_drvier/at91_gstty.c:395-428 | A write gets to waiting after a bounded number of accesses of its own, whatever comes between them. |
| SerialTx.WriteReturns | platform/AT91SAM9XXX/at91_platform_drvier/at91_gstty.c:426-450 | A waiting write has published the first len octets of its data; it returns exactly when the ring is empty, and then everything published is on the line. |
| SerialTx.ClockDrains | platform/AT91SAM9XXX/at91_platform_drvier/at91_gstty.c:146-198 | The clock alone empties the ring, in eleven ticks for each octet. |
| SerialRx.SampleTick | platform/AT91SAM9XXX/at91_platform_drvier/at91_gstty.c:203-226 | Sample j lies in the bit that the comment assigns to it, for every latency below half a bit. |
| SerialRx.SamplesOfFrame | platform/AT91SAM9XXX/at91_platform_drvier/at91_gstty.c:230-274 | Ticks 2, 4, .., 16 record the data bits, tick 18 lies in the stop bit and adds nothing. |
| SerialRx.FrameReceived | platform/AT91SAM9XXX/at91_platform_drvier/at91_gstty.c:230-294 | A frame is received as its octet and the pin interrupt is enabled again before the next start bit. |
| SerialRx.WaveReceived | platform/AT91SAM9XXX/at91_platform_drvier/at91_gstty.c:230-294 | Every complete frame on the line arrives, in order; edges inside a frame are ignored. |
| SerialRx.Loopback | platform/AT91SAM9XXX/at91_platform_drvier/at91_gstty.c:146-294 | After any run of the transmitter, a receiver on its line has received exactly the octets that have been sent. |
| SerialDriver.Gstty.TxdtcInterrupt | platform/AT91SAM9XXX/at91_platform_drvier/at91_gstty.c:146-198 | The handler on the static variables is the tick of the transmitter; send_over. |
| SerialDriver.Gstty.RxdtcInterrupt | platform/AT91SAM9XXX/at91_platform_drvier/at91_gstty.c:230-274 | The handler is one sample of the receiver; a complete octet enters the ring unless it is full. |
| SerialDriver.Gstty.RxdpinInterrupt | platform/AT91SAM9XXX/at91_platform_drvier/at91_gstty.c:278-295 | Only a falling edge starts the sampling clock and disables the pin interrupt. |
| SerialRead.StoreKeepsInv | platform/AT91SAM9XXX/at91_platform_drvier/at91_gstty.c:260-268 | An arriving octet is appended to the contents unless the ring is full, whatever the reader is doing. |
| SerialRead.ReaderKeepsInv | platform/AT91SAM9XXX/at91_platform_drvier/at91_gstty.c:354-386 | What gstty_read has measured and copied stays right while octets arrive between its accesses. |
| SerialRead.ReadOnceInOrder | platform/AT91SAM9XXX/at91_platform_drvier/at91_gstty.c:354-386 | Over every interleaving, the octets handed over and those in the ring are the octets stored, each once and in order, and a finished read holds the last ones handed over. |
| SerialRead.ReadTakes | platform/AT91SAM9XXX/at91_platform_drvier/at91_gstty.c:354-386 | From every state with no read under way and whatever arrives between its accesses, a read returns exactly as many octets as there were when it was called, or as many as it asks for: the oldest ones, which leave the ring. |
| SerialRead.ReadEnds | platform/AT91SAM9XXX/at91_platform_drvier/at91_gstty.c:354-386 | A read is over after a bounded number of accesses of its own. |
| SerialLink.StoredIfFits | platform/AT91SAM9XXX/at91_platform_drvier/at91_gstty.c:260-268 | Complete octets are all stored if and only if the receive ring has room for each of them. |
| SerialLink.LinkKeepsInv | platform/AT91SAM9XXX/at91_platform_drvier/at91_gstty.c:146-428 | Every step of writer, transmit interrupt, receiver and reader keeps stored octets equal to sent octets until an overrun, and short of them after one. |
| SerialLink.EndToEnd | platform/AT91SAM9XXX/at91_platform_drvier/at91_gstty.c:146-428 | Over every interleaving, what gstty_read has handed over, the receive ring and the transmit ring make up the octets published, each once and in order, if and only if the receive ring was never full when an octet completed; published are the octets that the writes have taken over, all of them when no write is copying; a read that returns holds the last octets handed over. |
| Crc32.MakeCrcTable | platform/S3C24XX/bootstrap/crc32.c:52-73 | Entry n is the register after eight steps from n. |
| Crc32.MakePattern | platform/S3C24XX/bootstrap/crc32.c:61-64 | The exponents of the polynomial give the pattern 0xedb88320. |
| Crc32Bits.FeedIsSteps | platform/S3C24XX/bootstrap/crc32.c:36-46 | Shifting bits in one by one is adding them all and then stepping. |
| Crc32Bits.StepsLinear | platform/S3C24XX/bootstrap/crc32.c:36-46 | The shift register is linear. |
| Crc32Bits.TableStep | platform/S3C24XX/bootstrap/crc32.c:161-166 | The table step feeds the eight bits of an octet. |
| Crc32Bits.WordStep | platform/S3C24XX/bootstrap/crc32.c:193-200 | Adding a 32-bit word and four table steps with zero feed its four octets in order. |
| CrcTable.TableIsOk | platform/S3C24XX/bootstrap/crc32.c:79-144 | The 256 constants of the default build are the table that make_crc_table computes. |
| CrcTable.DefaultCrc32 | platform/S3C24XX/bootstrap/crc32.c:172-217 | crc32 with the constant table is the complemented bit-serial register, and 0xcbf43926 for the digits 1 to 9. |
| Crc32.NoComp | platform/S3C24XX/bootstrap/crc32.c:172-211 | The align, word and tail loops compute the bit-serial register for every buffer, address, length and start value; words are loaded from aligned addresses. |
| Crc32.CalcCrc32 | platform/S3C24XX/bootstrap/crc32.c:214-217 | The checksum is the complemented bit-serial register. |
| Crc32.Chains | platform/S3C24XX/bootstrap/crc32.c:214-217 | The checksum of a concatenation is that of the second part continued from that of the first. |
| CrcLaws.OneOctet | platform/S3C24XX/bootstrap/crc32.c:36-46 | One octet: complement, eight shifts with the pattern 0xedb88320, complement. |
| CrcLaws.CheckValue | platform/S3C24XX/bootstrap/crc32.c:214-217 | The checksum of the digits 1 to 9 is 0xcbf43926. |
| CrcLaws.Residue | platform/S3C24XX/bootstrap/crc32.c:214-217 | The checksum of any message with its own checksum behind it, low octet first, is 0x2144df1c. |
| Heap.Table.constructor | platform/NUC710/bootloader/shell/heap.c:98-116 | The heap starts as one empty block at the base. |
| Heap.Table.Alloc | platform/NUC710/bootloader/shell/heap.c:119-155 | The slot table with its links goes to the blocks that the abstract allocation defines, and the address is the one it defines. |
| Heap.Table.Free | platform/NUC710/bootloader/shell/heap.c:157-202 | The slot table with its links goes to the blocks that the abstract free defines; an unknown address changes nothing. |
| Heap.UnlinkLinks | platform/NUC710/bootloader/shell/heap.c:189-195 | Taking a slot out of the middle or the front keeps the rest doubly linked. |
| Heap.AllocIsFresh | platform/NUC710/bootloader/shell/heap.c:119-155 | The allocated block lies right behind the last one; no live block overlaps it and all of them stay; refusal exactly when all 16 slots hold blocks that are not empty. |
| Heap.FreeTakesOne | platform/NUC710/bootloader/shell/heap.c:157-202 | Freeing takes away exactly the block at the address; the only block stays as an empty one, and an address where no block starts changes nothing. |
| Heap.FreeKeepsOthers | platform/NUC710/bootloader/shell/heap.c:157-202 | Freeing a block leaves every other block as it was. |
| Heap.FreeRemoves | platform/NUC710/bootloader/shell/heap.c:157-202 | Nothing of a freed block stays live. |
| Heap.FreeUndoesAlloc | platform/NUC710/bootloader/shell/heap.c:119-202 | Freeing what was just allocated restores the heap. |
| Heap.RunsStayDisjoint | platform/NUC710/bootloader/shell/heap.c:98-202 | After any run of allocations and frees the blocks are pairwise disjoint and in address order. |
| Xmodem.ReadBlock | platform/S3C24XX/bootstrap/xmodem.c:37-63 | Number, complement, data and checksum are taken from the stream up to the first mismatch; memory in front of the block stays. |
| Xmodem.Recv | platform/S3C24XX/bootstrap/xmodem.c:65-121 | The memory holds the image that parsing the stream defines, the replies are out, also for aborts and unfinished streams, and the size is without what is taken for padding. |
| Xmodem.CountPadding | platform/S3C24XX/bootstrap/xmodem.c:85-93 | The code takes off a run of at least three end-of-file octets, looking in front of the buffer too. |
| Xmodem.ReceivesStream | platform/S3C24XX/bootstrap/xmodem.c:65-121 | Every well-formed transfer is received as its accepted blocks in order, each packet answered as it deserves; rejected packets contribute nothing. |
| Xmodem.ReceivedIsStream | platform/S3C24XX/bootstrap/xmodem.c:65-121 | Conversely, every stream that is received to its end is a well-formed transfer with blocks numbered from 1 modulo 256. |
| Xmodem.GivesUp | platform/S3C24XX/bootstrap/xmodem.c:96-115 | A cancel, or after the first packet any octet that starts nothing, ends the transfer; every packet before it has been answered and nothing else is sent. |
| Xmodem.SumIsTotal | platform/S3C24XX/bootstrap/xmodem.c:50-56 | The checksum is the sum of the octets modulo 256. |
| Xmodem.OnTheWire | platform/S3C24XX/bootstrap/xmodem.c:37-121 | The octets of each kind of packet, and the answer to it. |
| Xmodem.DropsThePadding | platform/S3C24XX/bootstrap/xmodem.c:85-93 | The octets taken off are the padding of the image, except for an image of nothing but end-of-file octets behind one more of them. |
| Xmodem.FileRoundTrip | platform/S3C24XX/bootstrap/xmodem.c:65-121 | A file that does not end in an end-of-file octet arrives as it was sent if and only if its last block is full or lacks at least three octets. |

## Left out

- GcdInverse.InvMod: the condition on the rounds of the run on integers is sufficient and, by `HarmlessLoss`, not necessary; the exact one is that the result agrees with the run on integers modulo N.
- GcdInverse.InvMod: requires N other than 1, for which the first strip loop of the code does not end.
- GcdInverse.GcdMpi: requires B nonzero unless A is zero too; otherwise the strip loop of the code does not end.
- RsaKey.DeriveKey: takes the primes as given, and what it says of the derived numbers is conditional on the two modular inverses losing no carry, by `InversesExact` or by `InversesClean`; the loop that draws new primes is not modelled.
- RsaKey.CheckPrivkey: requires both primes above 1; with a factor 1 the greatest common divisor of the code does not end.
- SlidingWindow.ExpMod: requires a base that is not negative and X distinct from E and N; a negative base is taken by its magnitude without being reduced first.
- MpiDiv.DivMpi: requires Q distinct from A, B and R, because the code reads the signs of A and B after writing Q.
- MpiDiv.ModMpi: requires a positive B, and a nonnegative A when R is A.
- Rsa.RsaPublic: requires a modulus that is not negative.
- Rsa.RsaPrivate: states the outcomes for keys with the equations of `rsa_gen_key` only.
- Limb buffers are sequence-valued fields: sharing of one buffer by two records, which `mpi_exp_mod` uses for its cached constant, and memory that is not allocated are not captured, nor is failure of allocation.
- `bignum.h` declares the limb pointer wider than `t_int` on 32-bit machines; the model has one width for both.
- The quotient digit without `HAVE_LONGLONG`, `mpi_mod_int`, `mpi_div_int`, `mpi_read`, `mpi_showf`, `mpi_add_int`, and the assembler variants of `MULADDC_CORE`.
- Sizes and bit counts are unbounded integers; the overflow of `int` is not modelled.
- `mpi_is_prime` and `mpi_gen_prime`: probabilistic; keys assume primes.
- Timing, padding oracles and every other security claim.
- RsaPkcs1.Encrypt: the random source is a parameter holding the nonzero octets it delivers; the draws of zero that are repeated are not modelled.
- Nand.Erase: models SKIP_BAD_BLOCK; without it the code repeats a failing block for ever.
- Nand.WritePage: the program operation succeeds; registers, commands and the ready signal are replaced by the array of pages.
- Nand.Write and Nand.Read: require the walk to end before the device does, which the code does not check.
- SerialTx.SentOnceInOrder: a tick is atomic, as an interrupt handler is to the code it interrupts; wait queues are reduced to the writer's loop condition.
- SerialRx.Loopback: the two clocks have the same rate; the receive ring is in `SerialLink`.
- Crc32.NoComp: the little-endian variant.
- Heap.Table.Alloc: addresses are unbounded; the heap limit, which the code does not check, is not a bound in the model either.
- Xmodem.Recv: the waiting loop with its timed NAK is not modelled, and the memory in front of the buffer is required to hold an octet that is not end-of-file, without which the code reads on without bound.
- Kernel registration, GPIO, ioctl and display code, the other boot loaders' Xmodem, and the sample programs.

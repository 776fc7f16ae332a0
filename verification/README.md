# ClamAV core: verified models

This project models the parts of ClamAV that carry the most state and arithmetic and proves what
they are for.  The sources are the files below; every model has the form of the code it models
(classes with in-place updates, loops with invariants, linked lists, arrays), and every method is
proved against a specification that does not repeat its body.

**Multiple-precision integers** (`libclamav/bignum.c`).  An `MpInt` is a digit array with `used` and
a sign, updated in place.  The widths of a digit, of `mp_digit` and of `mp_word` are parameters
within the bounds the library asks for, wrap-around is written out, and digits above `used` may be
anything unless a routine is shown to leave zeros.  Each routine refines one statement about
integers: exact signed division (including the argument that the estimated digit is at most one too
large although it is compared with an unclamped number), exact products and squares on every path,
Montgomery, Barrett, diminished-radix and 2^p - d reduction, sliding-window exponentiation, integer
square root, binary gcd, inverses and radix conversion with its round trip.

**Thread pool and job groups** (`clamd/thrmgr.c`).  The linked queues and the 4:1 scheduler are
verified as heap code and refine functions on queue values.  Workers and dispatchers then form a
state machine whose steps are the critical sections; for every interleaving it is proved that no request
is lost or put into the wrong queue, that jobs are delivered first in first out and in the exact ratio,
that the counters stay in range, when a job can be left without a worker, and that a reference-counted
group is freed once and reports the numbers of its jobs.

**Stream and command protocol** (`clamd/server-th.c`, `clamd/session.c`, `clamd/others.c`,
`clamav-milter/clamfi.c`, `clamdscan/proto.c`).  The server's shifting buffer and mode machine refine
a decoder on byte sequences; up to the command that closes a connection the decoder is independent of how
the bytes are split into reads.  Whole sessions of commands and streams are handed on as they were sent,
and both senders are proved against the server from end to end.  The client's line reader returns the
lines of the byte stream for every segmentation.

**Decoders** (`libclamav/aspack.c`, `libclamav/binhex.c`).  The ASPack bit window and table-driven
Huffman decoder are proved against the canonical prefix code; the one-pass BinHex loop is proved
against three separate passes (BinHex 4.0, Appendix A of RFC 1741) and inverts a reference encoder;
its phase machine writes exactly the two forks, and every file put together by a reference writer, in any
layout, is taken apart again.

## Where the code departs from its promise

Thirteen properties do not hold of the code as it stands.  The models keep the code; each departure has an
input, and the exact condition is proved except where the entry says that it is one-sided.

- `mp_toom_mul` is wrong for some operands of opposite sign: shifting a zero coefficient leaves it
  unclamped, and the next addition compares digit counts.  `MpProduct.ToomCounterexample` gives a family of
  operands, `MpProduct.WrongProduct` computes a wrong product whatever the cutoff, and `MpProduct.Mul` and
  `MpProduct.ToomMul` state the if-and-only-if.
- The comba multiplier copies one work cell that was never assigned into the digit above `used`, and the row
  form of `mp_montgomery_reduce`, used for large moduli, reads it.  The reduction is right if and only if what
  it reads is congruent to the number (`MpRedc.Reduce`); one stray digit spoils it if and only if it is not zero
  (`Residue.StrayDigit`, `Residue.StrayWitness`).  Exponentiation modulo a large odd number is proved for calls in
  which that one cell happens to hold zero.
- `fast_s_mp_mul_high_digs`, which Barrett reduction uses, copies such a cell too, and its target has no digit for it
  if the allocation has exactly as many digits as the product.  `MpBarrett.SpillsWhen` states on digit counts, as an
  if-and-only-if, when `mp_reduce` meets that case (for a modulus of 15 or more digits, a number of 30 digits, or 29
  if the modulus is a power of the radix; besides, short numbers where the reciprocal fills an allocation);
  `MpBarrett.FifteenDigits` is the ordinary instance.  `MpBarrett.Reduce` is proved for all other numbers.  A modulus
  has a square of a remainder that meets it if and only if it is `Spilling` (`MpBarrett.NeverSpills`,
  `MpBarrett.SomeSquareSpills`).  `MpExptmod.SExptmod` and `MpExptmod.Exptmod` report whether the run stays within
  its arrays, always so for other moduli; for each spilling modulus `MpExptmod.SpillingBase` gives a base for which it
  does not, and `MpExptmod.LostRoom` is one such call.
- `mp_reduce_is_2k` accepts a gap of exactly B, which `mp_reduce_2k_setup` turns into zero.  The reduction is
  then right if and only if the modulus divides B (`MpSpecial.LostGap`).  `MpExptmod.Exptmod` is right for every
  modulus but the ones of `GapLost`, and for each of those `MpExptmod.WrongPower` computes a power that comes out
  wrong; `MpExptmod.Exptmod` states what comes out instead.
- `fast_mp_invmod` puts the sign of a on an already reduced inverse; the result is an inverse if and only if a is
  not negative (`MpInvmod.SignedInverse`).  It is not reduced from above either (`MpInvmod.NotReduced`).
  `MpInvmod.FoundWithin` bounds it for every input by the length of the odd part of a mod n, and
  `MpInvmod.ReducedWhen` shows it reduced whenever that odd part is below 15.  This condition is sufficient, not
  necessary: which larger residues exceed the modulus depends on the whole course of the algorithm.
- `mp_add_d` in place adds the magnitude of a negative number smaller than the digit (`MpText.AddD`,
  `MpText.AddDRight`).
- `mp_exptmod` with modulus 1 and exponent 0 returns 1 (`MpExptmod.SExptmod`).
- A job can be left in the thread pool without a worker: the last worker times out just after a dispatcher has counted
  on it (`PoolHistory.GivesUp`), or a job arrives between a worker's timing out and its end, while that worker still
  counts towards the maximum (`PoolHistory.StillCounts`).  The job then waits for the next dispatch.
  `PoolHistory.StrandsWhen` states exactly which steps do this, and `PoolHistory.Attended` that without them a waiting
  job always has a worker that will look for it.
- `sendchunk` with a limit below 20 does not send a prefix of preamble and message, except by coincidence of one
  byte (`Milter.ExpectedIsNoPrefix`).
- A command that closes the connection leaves clamd's command loop running, so what is answered outside a session
  depends on how the bytes are split into reads (`Session.TwoPings`); `Session.SplitsAgree` states exactly
  for which bytes it does not, `Session.Segmentation` what any one split gives, and `Session.AnySplit` that there is
  no dependence up to the closing command.
- BinHex extraction stops at a character that does not belong without a last flush (`BinHex.LostFile`);
  `BinHex.Extractor.Extract` states what the forks then hold and when that is all of them.
- The table builder of ASPack takes its sums in 32 bits and accepts an overfull table (`Aspack.WrapAccepted`);
  `Aspack.Dict.Build` states exactly which tables are accepted.
- `send_stream` with a limit of zero sends two end marks, of which the second is never looked at
  (`Clamdscan.EmptyArrives`).

## Layout

All modules are under `src/`; `dafny verify dfyconfig.toml` checks them together.  `Radix`, `Digits` and
`Columns` hold the positional arithmetic, `Residue` the algebra of scaled residues; the other files are
named after the routine or component they model.

## Model

| member | source | states |
|---|---|---|
| `MpCore.Grow` | libclamav/bignum.c:3338-3371 | growing keeps every old digit, as a prefix, and every new one is zero; the new allocation is rounded up, and is untouched if it was large enough |
| `MpCore.Clamp` | libclamav/bignum.c:1121-1134 | establishes the clamp invariant (no leading zero digit, zero is not negative) without changing the value; only zero digits fall out of use |
| `MpCore.CmpMag` | libclamav/bignum.c:1343-1374 | orders clamped numbers by magnitude; on numbers that are not clamped it orders by digit count first, which is what goes wrong in Toom-Cook multiplication |
| `MpCore.Cmp` | libclamav/bignum.c:1249-1267 | the order of the signed values |
| `MpCore.Zero` | libclamav/bignum.c:8621-8633 | value zero, every allocated digit zero |
| `MpCore.Set` | libclamav/bignum.c:7133-7138 | value b, every other allocated digit zero |
| `MpCore.Copy` | libclamav/bignum.c:1460-1503 | same value, sign and digits, also when source and target are the same object; a target that was zero above its digits stays so; the allocation changes only if it was too short |
| `MpCore.InitCopy` | libclamav/bignum.c:3449-3457 | the same for a fresh number |
| `MpCore.Exch` | libclamav/bignum.c:2430-2437 | the two numbers are exchanged |
| `MpAdd.SAdd` | libclamav/bignum.c:8770-8854 | magnitude of the result is the sum of the magnitudes, under every aliasing of the three operands |
| `MpAdd.SSub` | libclamav/bignum.c:9406-9469 | magnitude of the result is the difference; when the second operand is larger, the difference plus B^used exactly |
| `MpAdd.SubDigit` | libclamav/bignum.c:9434-9460 | low bits and top bit of a wrapped machine subtraction are the digit and the borrow |
| `MpAdd.Add` | libclamav/bignum.c:835-863 | signed sum for clamped operands; for operands with leading zero digits, the sum plus exactly the slip caused by the misled comparison |
| `MpAdd.Sub` | libclamav/bignum.c:7481-7514 | signed difference, also when one operand is not clamped but the comparison cannot be misled |
| `MpShift.Lshd` | libclamav/bignum.c:4479-4522 | multiplies by B^b; zero comes out unclamped |
| `MpShift.Rshd` | libclamav/bignum.c:7057-7105 | divides the magnitude by B^b |
| `MpShift.MulD` | libclamav/bignum.c:5186-5240 | product with one digit |
| `MpShift.Mul2d` | libclamav/bignum.c:5096-5157 | product with 2^b for every b |
| `MpShift.Mul2` | libclamav/bignum.c:5010-5068 | doubles, and the result needs no clamping |
| `MpShift.Div2` | libclamav/bignum.c:1876-1920 | halves the magnitude |
| `MpShift.Mod2d` | libclamav/bignum.c:4603-4633 | remainder of the magnitude by 2^b |
| `MpShift.Div2d` | libclamav/bignum.c:1948-2021 | quotient and remainder by 2^b, under every aliasing with the operand |
| `MpShift.CountBits` | libclamav/bignum.c:1532-1552 | the bit length: 2^(r-1) <= magnitude < 2^r, and 0 for zero |
| `MpShift.TwoExpt` | libclamav/bignum.c:741-760 | value 2^b |
| `MpShort.DivideWord3` | libclamav/bignum.c:2067-2088 | multiplying by the rounded reciprocal of three and fixing up gives the true quotient and remainder of a two-digit number |
| `MpShort.Div3` | libclamav/bignum.c:2050-2103 | division by three: magnitude = quotient * 3 + remainder, remainder < 3 |
| `MpShort.PowerOfTwo` | libclamav/bignum.c:2131-2142 | finds the exponent if there is one below DIGIT_BIT and otherwise proves there is none |
| `MpShort.DivD` | libclamav/bignum.c:2145-2217 | the shortcuts for 1, powers of two and three agree with the general loop: magnitude = quotient * b + remainder, remainder < b; zero is refused and nothing changes |
| `MpMultiply.ColumnFits` | libclamav/bignum.c:438-466 | a comba column sum never overflows mp_word under the digit-count limit, and its carry stays below the bound the next column assumes |
| `MpMultiply.Comba` | libclamav/bignum.c:433-467 | the first n columns with carries resolved are the product modulo B^n |
| `MpMultiply.MulDigsFast` | libclamav/bignum.c:420-488 | comba multiplication gives the product of the magnitudes modulo B^digs, whatever the copied but unassigned cell holds; if that cell happens to hold zero, zeros above the digits in use stay zeros |
| `MpMultiply.MulDigs` | libclamav/bignum.c:9141-9204 | baseline multiplication gives the same number |
| `MpDivide.Normalize` | libclamav/bignum.c:1712-1726 | after shifting, the top digit of the divisor lies in [B/4, B/2) and both operands are scaled alike |
| `MpDivide.EstimateLow` | libclamav/bignum.c:1751-1788 | the true quotient digit passes both tests, so the estimate is never too small |
| `MpDivide.EstimateHigh` | libclamav/bignum.c:1751-1788 | a digit that passes the three-by-two test is at most one too big |
| `MpDivide.Verdict` | libclamav/bignum.c:1768-1788 | the comparison with the unclamped t2 still decides correctly |
| `MpDivide.Estimate` | libclamav/bignum.c:1751-1788 | the estimated digit is exact or one too large |
| `MpDivide.SubAndRepair` | libclamav/bignum.c:1790-1816 | one add-back is enough: the remainder ends in [0, shifted divisor) |
| `MpDivide.LeadingDigit` | libclamav/bignum.c:1727-1743 | the repeated subtraction before the loop stops with the conservation quotient * divisor + remainder intact |
| `MpDivide.DivLoop` | libclamav/bignum.c:1745-1817 | quotient * divisor + remainder is conserved and the remainder ends below the divisor |
| `MpDivide.TDivMod` | libclamav/bignum.c:1650-1662 | the specification pair is characterised, both ways, by a = q*b + r, absolute value of r below that of b, and r zero or of the sign of a |
| `MpDivide.Div` | libclamav/bignum.c:1664-1845 | exact signed division for every a and every b other than zero, with either result absent and every aliasing; zero is refused and nothing changes |
| `MpToom.Split` | libclamav/bignum.c:7863-7896 | the three parts, all with the sign of the number, recompose it |
| `MpToom.Eliminate` | libclamav/bignum.c:8000-8043 | every halving on a possibly negative intermediate is exact |
| `MpToom.Solve` | libclamav/bignum.c:8045-8070 | the divisions by three are exact, so the five point values give back the five coefficients |
| `MpToom.PairSlip` | libclamav/bignum.c:8072-8099 | adding two shifted neighbouring coefficients is off by exactly B^(k+n) when the upper one is zero, the lower one negative and short, and is exact otherwise |
| `MpToom.Assemble` | libclamav/bignum.c:8072-8099 | the recombined number is the value of the polynomial at B^n plus the slips of the two pairs |
| `MpProduct.KaratsubaMul` | libclamav/bignum.c:4147-4262 | the exact product of the magnitudes |
| `MpProduct.ToomMul` | libclamav/bignum.c:7851-8104 | the exact product for operands of equal sign; for opposite signs, whenever the five inner products are exact, exact if and only if the operands are not in the faulty family |
| `MpProduct.ToomResult` | libclamav/bignum.c:7851-8104 | the excess of the recombination is zero exactly outside the faulty family |
| `MpProduct.ToomCounterexample` | libclamav/bignum.c:7851-8104 | for every n from a third of the cutoff up to the cutoff a pair of 3n-digit operands that reach Toom-Cook, whose five inner products are exact and whose product is not |
| `MpProduct.WrongProduct` | libclamav/bignum.c:4940-4982 | whatever the cutoff, there are two numbers whose product mp_mul gets wrong |
| `MpProduct.SameSignInner` | libclamav/bignum.c:7898-7986 | operands of one sign have point values of one sign, so nothing goes wrong at any depth |
| `MpProduct.Mul` | libclamav/bignum.c:4940-4982 | the exact signed product on every path (comba, baseline, Karatsuba, Toom-3, to any depth) for operands that the recursive exactness predicate admits; where Toom-Cook makes exact inner products of operands of opposite sign, exact if and only if not faulty |
| `MpSquare.TwoHalves` | libclamav/bignum.c:643-684 | twice the half column plus the diagonal is the whole column |
| `MpSquare.SqrFast` | libclamav/bignum.c:627-708 | the exact square |
| `MpSquare.SqrRows` | libclamav/bignum.c:9317-9377 | the exact square, by rows with doubled products |
| `MpSquare.KaratsubaSqr` | libclamav/bignum.c:4296-4387 | the exact square |
| `MpSquare.ToomSqr` | libclamav/bignum.c:8134-8334 | the exact square; the fault of the multiplication cannot occur |
| `MpSquare.Sqr` | libclamav/bignum.c:7289-7322 | the value a * a on every path |
| `MpMontgomery.NewtonLift` | libclamav/bignum.c:4896-4909 | one Newton step lifts an inverse modulo m to one modulo m^2 |
| `MpMontgomery.Setup` | libclamav/bignum.c:4878-4912 | n0 * rho = -1 modulo B, refused exactly for even n0 |
| `MpMontgomery.Normalization` | libclamav/bignum.c:4697-4727 | B^used mod b for every b that is not a power of two, which covers every odd b > 1 |
| `MpMontgomery.OddIsNoPower` | libclamav/bignum.c:4697-4727 | no odd number above one is a power of two, so the condition holds for every Montgomery modulus |
| `MpRedc.CellStep` | libclamav/bignum.c:313-320 | a column accumulator of the reduction never overflows mp_word |
| `MpRedc.ClearColumns` | libclamav/bignum.c:278-321 | after the outer loop x + n * M = (upper columns) * B^used for some M below B^used |
| `MpRedc.ReduceFast` | libclamav/bignum.c:236-377 | r with r * B^used = x (mod n) and 0 <= r < n, for every 0 <= x < n * B^used |
| `MpRedc.ReduceRows` | libclamav/bignum.c:4774-4849 | the same for the number the row form actually reads, which includes the digits above used; zeros there stay zeros |
| `MpRedc.Reduce` | libclamav/bignum.c:4756-4849 | for moduli that take the comba form, and for every modulus if the digits above used are zero, r with r * B^used = x (mod n) and 0 <= r < n; for the row form in general, right if and only if what it reads is congruent to x |
| `Residue.ReducedUnique` | libclamav/bignum.c:236-377 | a number has one reduced form |
| `Residue.FormsAgree` | libclamav/bignum.c:236-377 | the comba and the baseline reduction of the same number return the same number |
| `Residue.StrayDigit` | libclamav/bignum.c:4774-4849 | whatever number is left above used, it spoils the reduction modulo an odd number if and only if it is no multiple of the modulus; below the modulus, if and only if it is not zero |
| `Residue.StrayWitness` | libclamav/bignum.c:4774-4849 | the product of one by one, as the comba multiplier leaves it, is reduced wrongly modulo every large odd modulus unless the unassigned cell held zero |
| `Residue.RadixUnit` | libclamav/bignum.c:4878-4912 | the radix is invertible modulo every modulus that setup accepts |
| `Residue.RepMul` | libclamav/bignum.c:2867-2883 | multiplying two scaled residues and reducing multiplies what they stand for |
| `Residue.RepOut` | libclamav/bignum.c:2916-2926 | one more reduction takes a scaled residue to the remainder itself |
| `MpBarrett.HighFast` | libclamav/bignum.c:524-590 | the digits from digs on are those of the product less its low columns, wherever the target has room for the cell behind them |
| `MpBarrett.MulHighDigs` | libclamav/bignum.c:9235-9289 | the row form agrees; only the comba form needs that room |
| `MpBarrett.RowsBound` | libclamav/bignum.c:9235-9289 | skipping the columns below n loses at most n units at position n + 1 |
| `MpBarrett.NotAbove` | libclamav/bignum.c:6594-6620 | the quotient estimate never exceeds the true quotient |
| `MpBarrett.NotBelow` | libclamav/bignum.c:6594-6620 | and falls short by less than three plus what the truncated product lost |
| `MpBarrett.LeftOver` | libclamav/bignum.c:6622-6644 | so x - q * m fits in used + 1 digits and the arithmetic modulo B^(used+1) is exact |
| `MpBarrett.Setup` | libclamav/bignum.c:7021-7029 | mu = floor(B^(2 used) / m), refused exactly for zero |
| `MpBarrett.Reduce` | libclamav/bignum.c:6584-6657 | exactly x mod m, terminating, for every 0 <= x < B^(2 used), which contains every x < m^2, whose digit count is not one of those in `SpillsWhen` |
| `MpBarrett.SpillsWhen` | libclamav/bignum.c:6590-6607 | the copied cell has no digit in the target if and only if the number is not shorter than a modulus of 15 or more digits and has exactly 30 digits (29 for a power of the radix), or is shorter than the modulus and the reciprocal has as many digits as the copy has room |
| `MpBarrett.FifteenDigits` | libclamav/bignum.c:6590-6607 | so for a modulus of 15 digits and a number of 30 |
| `MpBarrett.RecipDigits` | libclamav/bignum.c:7021-7029 | the reciprocal has one digit more than the modulus, or two if the modulus is a power of the radix |
| `MpBarrett.NeverSpills` | libclamav/bignum.c:6584-6607 | for a modulus that is not `Spilling`, no product of two remainders meets that case |
| `MpBarrett.SomeSquareSpills` | libclamav/bignum.c:6584-6607 | for every `Spilling` modulus the square of some remainder does |
| `MpSpecial.Reduce2k` | libclamav/bignum.c:6685-6721 | exactly a mod n when d is the gap to the next power of two; with d = 0, the remainder of a without the bits above that power |
| `MpSpecial.Reduce2kL` | libclamav/bignum.c:6753-6787 | exactly a mod n with a gap of any length, terminating |
| `MpSpecial.Setup2k` | libclamav/bignum.c:6816-6839 | the lowest digit of the gap, which is the gap if and only if that is below B |
| `MpSpecial.Setup2kL` | libclamav/bignum.c:6867-6887 | the gap to the next power of two |
| `MpSpecial.UpperOnesGap` | libclamav/bignum.c:6929-6940 | all bits above the lowest digit are one if and only if the number is within B of the next power of two |
| `MpSpecial.Is2k` | libclamav/bignum.c:6915-6942 | accepts exactly one-digit numbers and gaps of at most B |
| `MpSpecial.Is2kL` | libclamav/bignum.c:6971-6990 | accepts exactly one-digit numbers and those with at least half of the digits full |
| `MpSpecial.LostGap` | libclamav/bignum.c:6685-6721 | for a gap of exactly B, accepted by the test but lost by the setup, the reduction is right for every number if and only if the modulus divides B |
| `MpSpecial.IsDr` | libclamav/bignum.c:2246-2264 | accepts exactly the numbers of two or more digits within B of B^used |
| `MpSpecial.DrSetup` | libclamav/bignum.c:2391-2398 | for those, k with n + k = B^used |
| `MpSpecial.DrIsAlso2kL` | libclamav/bignum.c:2575-2600 | every diminished-radix modulus passes the earlier test for the long form, so the diminished-radix branch of mp_exptmod is never taken |
| `MpSpecial.ReduceDr` | libclamav/bignum.c:2307-2363 | exactly x mod n for every x of at most twice as many digits and every gap up to B, terminating |
| `MpSpecial.CarryOut` | libclamav/bignum.c:2337-2346 | a carry of B, which is no digit, leaves less than the modulus below it, so that subtracting the modulus borrows and makes it one |
| `MpExptmod.Modulo` | libclamav/bignum.c:4551-4574 | the remainder with the sign of the modulus, the mathematical one for b > 0; zero is refused |
| `MpExptmod.Mulmod` | libclamav/bignum.c:5268-5284 | a * b mod c wherever the product is exact; always a number in [0, c) for c > 0 |
| `MpExptmod.Redux` | libclamav/bignum.c:2709-2756 | whichever reduction is selected returns a reduced number equal to x divided by the scale, modulo n; it stays within its arrays if and only if it is not a Barrett reduction in the case of `SpillsWhen` |
| `MpExptmod.NextBit` | libclamav/bignum.c:2826-2838 | the bits come out from the top, and when they run out everything read is the exponent |
| `MpExptmod.WindowBit` | libclamav/bignum.c:2860-2889 | the window buffer holds the bits since its first one, and a full window indexes only the computed half of the table |
| `MpExptmod.FillTable` | libclamav/bignum.c:2792-2814 | entry i of the upper half represents the i-th power of the base |
| `MpExptmod.TakeBit` | libclamav/bignum.c:2840-2889 | res represents the base to the exponent prefix consumed, before and after each bit |
| `MpExptmod.Scan` | libclamav/bignum.c:2816-2889 | at the end of the loop res and the last window together are the whole exponent |
| `MpExptmod.Tail` | libclamav/bignum.c:2891-2914 | squaring and multiplying through the last window completes the exponent |
| `MpExptmod.ExptmodFast` | libclamav/bignum.c:2655-2938 | G^X mod m in Montgomery mode for odd m > 1 whenever the product that scales the base is exact, which covers every base that is not negative; in 2^p - d mode when the gap is kept or m divides B; with the gap lost, G^X modulo the next power of two when the powers stay below m; every result lies in [0, m) |
| `MpExptmod.SExptmod` | libclamav/bignum.c:8886-9110 | G^X mod m with Barrett or the long 2^p - d reduction, except that exponent zero gives 1 whatever the modulus; it stays within its arrays for every modulus that is not `Spilling`, and does not if the square of G mod m meets the case of `SpillsWhen` |
| `MpExptmod.GapForm` | libclamav/bignum.c:2575-2600 | among the moduli that reach the 2^p - d branch, the lost gap is exactly B itself, where nothing is lost, or a larger two-digit modulus with zero lower digit |
| `MpExptmod.Exptmod` | libclamav/bignum.c:2531-2613 | G^X mod m whichever branch is taken; with a lost gap, G^X modulo the next power of two when the powers stay below m; refused exactly for m <= 0; within its arrays unless Barrett reduction is chosen for a `Spilling` modulus |
| `MpExptmod.WrongPower` | libclamav/bignum.c:2531-2613 | for every modulus with a lost gap, the square of half the next power of two comes out as zero, which it is not |
| `MpExptmod.LostBase` | libclamav/bignum.c:2531-2613 | all powers of that base modulo the next power of two lie below the modulus, and the square is zero there but not modulo m |
| `MpExptmod.ThreeRadix` | libclamav/bignum.c:6915-6942 | 3B is such a modulus |
| `MpExptmod.SpillingBase` | libclamav/bignum.c:8959-8981 | every `Spilling` modulus has a base whose square, the first of the table, Barrett reduction cannot take within its arrays |
| `MpExptmod.LostRoom` | libclamav/bignum.c:2531-2613 | the powers of two modulo 2 B^30 are such a call |
| `MpExptmod.ScalesMost` | libclamav/bignum.c:2781-2784 | the product that scales the base is exact for every base that is not negative and every modulus too short for Toom-Cook |
| `MpSqrt.RootUnique` | libclamav/bignum.c:7395-7451 | the specified root is unique |
| `MpSqrt.Average` | libclamav/bignum.c:7433-7444 | averaging never falls below the root |
| `MpSqrt.FirstGood` | libclamav/bignum.c:7419-7431 | the starting value never enters the bad case n = s^2 + 2s at s |
| `MpSqrt.NextGood` | libclamav/bignum.c:7433-7444 | each turn stops at the root or goes on with a smaller good iterate |
| `MpSqrt.Sqrt` | libclamav/bignum.c:7395-7451 | floor of the square root for every arg >= 0, terminating; refused exactly for negative arg |
| `MpGcd.CntLsb` | libclamav/bignum.c:1406-1430 | magnitude = odd * 2^r |
| `MpGcd.SubtractCommon` | libclamav/bignum.c:3241-3244 | subtracting one number from the other keeps the common divisors |
| `MpGcd.HalveCommon` | libclamav/bignum.c:3221-3249 | halving the even one of a pair whose other member is odd keeps the common divisors |
| `MpGcd.OddGcd` | libclamav/bignum.c:3234-3250 | the loop ends with the greatest common divisor; the sum of the two numbers decreases |
| `MpGcd.Gcd` | libclamav/bignum.c:3180-3261 | the greatest common divisor of the magnitudes: a common divisor that every common divisor divides; zero for two zeros |
| `MpGcd.GreatestIs` | libclamav/bignum.c:3180-3261 | it is the largest common divisor and the only number with that property |
| `MpInvmod.CmpD` | libclamav/bignum.c:1295-1315 | the order of a number and a digit; of a zero, the order of whatever its lowest digit holds |
| `MpInvmod.HalveWhileEven` | libclamav/bignum.c:117-152 | B*a = u (mod b), respectively D*a = v, survives the joint halving |
| `MpInvmod.SubtractSmaller` | libclamav/bignum.c:154-173 | both congruences survive the subtraction and u + v decreases |
| `MpInvmod.Invert` | libclamav/bignum.c:107-195 | succeeds if and only if the numbers are coprime, with D * y = 1 (mod x) |
| `MpInvmod.FastInvmod` | libclamav/bignum.c:82-201 | succeeds if and only if b is odd and coprime to a; the magnitude of the result is an inverse of a, namely the cofactor of the loop made positive, and its sign is that of a; it is below b if the odd part of a mod b is below 15 |
| `MpInvmod.SignedInverse` | libclamav/bignum.c:188-197 | the signed result is an inverse of a if and only if a is not negative |
| `MpInvmod.NotReduced` | libclamav/bignum.c:188-195 | the inverse found of 253 modulo 777 is 820: it is made positive but not reduced |
| `MpInvmod.CofactorRange` | libclamav/bignum.c:115-183 | each subtraction from v widens the range of the cofactors by half the modulus and at least halves v, from every state of the loop |
| `MpInvmod.FoundWithin` | libclamav/bignum.c:82-195 | for every input, with an odd part of a mod n below 2^(k+2) - 1, the cofactor lies between -(1 + k/2) n and 1 + k n/2; the inverse is reduced or obeys the same upper bound |
| `MpInvmod.ReducedWhen` | libclamav/bignum.c:82-195 | an odd part of a mod n below 15 makes the inverse reduced |
| `MpText.AddD` | libclamav/bignum.c:893-979 | adds a digit in place, except that a negative number smaller than the digit has its magnitude added |
| `MpText.AddDRight` | libclamav/bignum.c:893-979 | so it is right if and only if the number is not negative or not smaller than the digit |
| `MpText.FindDigit` | libclamav/bignum.c:6420-6426 | the position in the digit table, or proof that the character is not in it |
| `MpText.DigitsAre` | libclamav/bignum.c:6301 | the digit table is the written string of 64 characters |
| `MpText.CharMeaning` | libclamav/bignum.c:6417-6431 | which characters are digits in which radix and what they stand for: figures, capitals, small letters (as capitals below radix 36), plus and slash |
| `MpText.ReadRadix` | libclamav/bignum.c:6388-6449 | value of the longest run of digits after an optional minus sign; refused exactly outside radix 2..64 |
| `MpText.Reverse` | libclamav/bignum.c:8727-8741 | in-place reversal of exactly the given range |
| `MpText.ToRadix` | libclamav/bignum.c:8363-8413 | the numeral of the number, most significant digit first, terminated |
| `MpText.RoundTrip` | libclamav/bignum.c:6388-6449 | reading back what was written gives the number, for every integer and every radix 2..64 |
| `MpText.WriteRead` | libclamav/bignum.c:8363-8413 | mp_toradix followed by mp_read_radix on the terminated text returns the number |
| `WorkQueues.WorkQueue.constructor` | clamd/thrmgr.c:48-61 | an empty queue, nothing popped |
| `WorkQueues.WorkQueue.Add` | clamd/thrmgr.c:63-88 | appends to the linked list; item_count stays its length |
| `WorkQueues.WorkQueue.Pop` | clamd/thrmgr.c:90-107 | removes the first element, or reports an empty queue, and keeps the list well formed |
| `WorkQueues.PickFinds` | clamd/thrmgr.c:585-597 | a pop finds a job if and only if one waits in either queue; it is the first of its queue, and the other queue keeps its jobs |
| `WorkQueues.ThrmgrPop` | clamd/thrmgr.c:562-607 | what the scheduler does to the two linked queues is what Pick does to their values; so it returns nothing only if both lists are empty, and else takes the first element off one of them |
| `ThreadPool.AdmitInv` | clamd/thrmgr.c:681-745 | admitting a job to a queue that is not contended keeps the invariant, with and without starting a thread |
| `ThreadPool.PopInv` | clamd/thrmgr.c:610-679 | a worker's pop, with its turn to running, waiting or leaving, keeps it |
| `ThreadPool.StepInv` | clamd/thrmgr.c:610-745 | so does every other critical section of workers and dispatchers |
| `ThreadPool.RunInv` | clamd/thrmgr.c:610-745 | hence every state of every interleaving from the initial state |
| `ThreadPool.Safety` | clamd/thrmgr.c:552-745 | 0 <= thr_idle <= thr_alive <= thr_max, bulk queue <= queue_max/2, queued plus running jobs <= queue_max |
| `ThreadPool.FirstInFirstOut` | clamd/thrmgr.c:63-107 | the k-th delivery from a queue is the k-th job accepted into it, to one worker; what is not delivered is still queued |
| `ThreadPool.PopFair` | clamd/thrmgr.c:562-607 | single.popped >= 4 implies bulk.popped = 0, and the streak of single pops with bulk jobs waiting never exceeds single.popped and is at most four |
| `ThreadPool.Fairness` | clamd/thrmgr.c:562-607 | in every run, of any five pops with bulk jobs waiting one is bulk, and of any two with single jobs waiting one is single |
| `ThreadPool.FourToOne` | clamd/thrmgr.c:562-607 | in every run, of any five pops in a row with both queues waiting exactly one is bulk and four are single |
| `PoolHistory.Lanes` | clamd/thrmgr.c:681-745 | in every run each queue has accepted exactly the jobs of the requests that named it and were admitted, in order of admission, where the requests are read off the events |
| `PoolHistory.NothingLost` | clamd/thrmgr.c:681-745 | every request is accepted once into the queue it named, or its dispatcher still sleeps, or it came after the pool was destroyed; nothing else is accepted |
| `PoolHistory.Dispatching` | clamd/thrmgr.c:696-723 | a request is refused after destruction, sleeps if there is no room by the number of queued jobs and busy workers, and is admitted otherwise |
| `PoolHistory.Hiring` | clamd/thrmgr.c:725-737 | an admission starts the thread on offer if and only if fewer workers sleep than jobs wait and the pool is not complete |
| `PoolHistory.Popping` | clamd/thrmgr.c:635-651 | a worker that looks for a job gets one whenever one waits; else it sleeps, or leaves a destroyed pool |
| `PoolHistory.StrandsWhen` | clamd/thrmgr.c:640-670 | exactly which steps leave a job without a worker that will look for it |
| `PoolHistory.Attended` | clamd/thrmgr.c:610-745 | in every run without such a step a waiting job has such a worker |
| `PoolHistory.GivesUp` | clamd/thrmgr.c:640-646 | a run in which the last worker times out after a job was accepted on its account, and no step of a worker remains |
| `PoolHistory.StillCounts` | clamd/thrmgr.c:656-670 | a run in which the job arrives while that worker still counts as alive, although a thread is on offer |
| `JobGroup.StepInv` | clamd/thrmgr.c:752-864 | dispatch, refusal, completion and waiting keep the reference count equal to the outstanding references |
| `JobGroup.RunInv` | clamd/thrmgr.c:752-864 | so it holds in every state of every run |
| `JobGroup.Lifetime` | clamd/thrmgr.c:774-810 | the group is freed at most once, exactly when the last reference goes, and no event is enabled on it afterwards |
| `JobGroup.Counters` | clamd/thrmgr.c:774-798 | in every run exit_ok, exit_error and exit_total are the numbers of jobs that finished with each code and in all, and force_exit tells whether a termination occurred |
| `JobGroup.WaitForAll` | clamd/thrmgr.c:812-840 | without shutdown, waiting ends only when every accepted job has finished; reported are their number and how many finished well and with an error |
| `JobGroup.WaitCutShort` | clamd/thrmgr.c:812-840 | on shutdown, the numbers of those that have finished, with one error more if and only if somebody else still holds the group |
| `JobGroup.ReleaseFrees` | clamd/thrmgr.c:774-810 | the last holder of an idle group frees it, whether it finishes or waits |
| `Wire.Be32RoundTrip` | clamd/server-th.c:620-623 | the four length bytes decode to the number encoded |
| `Wire.BigEndian` | clamd/server-th.c:620-623 | the most significant byte comes first, and every four bytes are the encoding of their number |
| `Session.ParseCommand` | clamd/session.c:99-128 | a text is known if and only if it spells a command, its name followed by something exactly if it takes an argument, and then it is that command: the order of the table does not matter |
| `Session.FirstDecides` | clamd/session.c:79-128 | whatever row a text spells, no earlier row starts it, so the first match is the right one |
| `Session.StaysOpen` | clamd/server-th.c:509-561 | the commands that a connection survives, inside and outside a session |
| `Session.StepStable` | clamd/server-th.c:469-684 | more bytes behind a complete step do not change it |
| `Session.DecodeSplit` | clamd/server-th.c:1129-1214 | up to the command that closes the connection, decoding a + b is decoding a and then its rest + b |
| `Session.RunIsDecode` | clamd/server-th.c:478-577 | what one read leads to is what its bytes mean up to the closing command, and then what the loop still does with the bytes behind it |
| `Session.Segmentation` | clamd/server-th.c:1129-1214 | for every split into reads, what is handed on is what the bytes alone determine up to the closing command, followed by what the rest of that command's read leads to; it is independent of the split if and only if that rest holds no complete command and is not refused |
| `Session.SplitsAgree` | clamd/server-th.c:1129-1214 | all splits of the same bytes into reads give the same if and only if no command closes the connection or the bytes behind it hold no complete command and are not refused |
| `Session.AnySplit` | clamd/server-th.c:1129-1214 | if nothing follows the command that ends the connection or session, every split gives the same commands, payloads and ids |
| `Session.TwoPings` | clamd/server-th.c:523-577 | outside a session the split does matter: of two PINGs in one read both are answered, of two PINGs in two reads one |
| `Session.StreamsWithin` | clamd/server-th.c:608-684 | no payload handed on exceeds the initial quota, whatever lengths were announced |
| `Session.FewBytesLeft` | clamd/server-th.c:608-684 | in stream mode fewer than four bytes stay buffered |
| `Session.RunFrames` | clamd/server-th.c:608-684 | decoding framed chunks adds their concatenation to the dump and takes its length off the quota |
| `SessionLaw.SaysIs` | clamd/session.c:73-128 | a text is classified as a kind if and only if it is that command, all names spelled out |
| `SessionLaw.OneShot` | clamd/server-th.c:476-578 | a command outside a session is handed on with id 0 and closes the connection, waiting for a reply exactly if a worker carries it out |
| `SessionLaw.Answered` | clamd/server-th.c:476-684 | inside a session a command, or a stream with its end mark, is handed on with the current id, and the session goes on with the next |
| `SessionLaw.TooMuch` | clamd/server-th.c:651-657 | a stream is refused at the length that exceeds the limit, and the connection is given up |
| `SessionLaw.Law` | clamd/server-th.c:476-684 | for every list of requests between IDSESSION and a closing command, what is handed on is that list with ids 0, 1, 2 and so on |
| `SessionLaw.LawForAnySplit` | clamd/server-th.c:1129-1214 | and so for every split into reads |
| `SessionLaw.Converse` | clamd/server-th.c:1129-1214 | the server itself does this in reads of any size, if every command is shorter than its buffer |
| `Server.Connection.constructor` | clamd/others.c:328-364 | a new connection is in the initial state with an empty buffer |
| `Server.Connection.Receive` | clamd/others.c:245-326 | a read appends to the buffered bytes |
| `Server.Connection.GetCmd` | clamd/server-th.c:252-296 | finds the first terminator of a command with a prefix letter, or proves there is none |
| `Server.Connection.Handle` | clamd/server-th.c:506-576 | mode, session, id, quota and the watching of the socket change as the decoder's transition does, and the same actions are handed on |
| `Server.Connection.Dispatch` | clamd/session.c:481-583 | returns 1 exactly for the commands that are complete, and leaves the session, mode and quota that each command leads to |
| `Server.Connection.ParseDispatch` | clamd/server-th.c:469-605 | handling commands, also behind a closing one, and shifting the buffer conserves the total of handed-on and still-to-be-decoded |
| `Server.Connection.ReadLength` | clamd/server-th.c:618-666 | the same for a length word: too few bytes, over quota, end mark and chunk, on an open and on a closed connection |
| `Server.Connection.HandleStream` | clamd/server-th.c:608-684 | the same for one call, with its position arithmetic |
| `Server.Connection.Turn` | clamd/server-th.c:1169-1214 | the same for one turn of the connection loop, which makes progress or stops |
| `Server.Connection.Process` | clamd/server-th.c:1169-1214 | the loop over the shifting buffer refines the decoder: same actions, and while the connection is open the same state and the same undecoded rest |
| `Server.Serve` | clamd/server-th.c:1129-1214 | a connection served read by read hands on what the bytes alone determine up to the closing command, and more if and only if something comes of the rest of that read |
| `Server.ServeAll` | clamd/server-th.c:1129-1214 | a conversation that ends with its bytes is handed on alike for reads of any size that the network chooses |
| `Milter.Clamfi.Put` | clamav-milter/clamfi.c:179-195 | bytes framed so far plus bytes buffered grow by exactly the fragment, in each of the three buffering cases |
| `Milter.Clamfi.SendChunk` | clamav-milter/clamfi.c:143-203 | after every fragment, framed plus buffered bytes are the expected start of preamble and message, and totsz is their number |
| `Milter.Clamfi.EndOfMessage` | clamav-milter/clamfi.c:301-303 | only non-empty frames, then one zero length: the end mark comes only at the end of the message |
| `Milter.ExpectedIsPrefix` | clamav-milter/clamfi.c:143-163 | for maxfilesize >= 20 the expected bytes are the first maxfilesize bytes of preamble plus message |
| `Milter.ExpectedIsNoPrefix` | clamav-milter/clamfi.c:143-163 | below 20 they are so if and only if the first byte of the message continues the cut preamble |
| `Milter.FramesArrive` | clamd/server-th.c:608-684 | clamd hands on one stream, the concatenation of the frames |
| `Milter.SendMessage` | clamav-milter/clamfi.c:143-203 | for every sequence of fragments the wire is the framing of the expected bytes and an end mark |
| `Milter.EndToEnd` | clamav-milter/clamfi.c:301-303 | from a new connection, for every fragmentation and every split into reads, clamd hands on INSTREAM and one stream, the first maxfilesize bytes of preamble plus message |
| `Milter.RequestStep` | clamav-milter/netcode.c:320 | the request sent on connecting puts a new connection into stream mode |
| `Milter.Deliver` | clamav-milter/clamfi.c:143-203 | sender and server together: fragments go out, arrive in reads of any size, and come out as that one stream |
| `Clamdscan.SendStream` | clamdscan/proto.c:165-203 | the command, the framing of the first maxstream bytes of the file and an end mark; a failed read is reported unless the limit was reached before |
| `Clamdscan.ClassifyInstream` | clamd/session.c:99-128 | the command that clamdscan sends is recognised as INSTREAM |
| `Clamdscan.StreamArrives` | clamd/server-th.c:469-684 | what clamdscan sent is handed on as the command and one stream of exactly those bytes |
| `Clamdscan.Upload` | clamdscan/proto.c:165-203 | sender and server together: the file arrives in reads of any size and comes out as one stream of its first maxstream bytes |
| `Clamdscan.EmptyArrives` | clamdscan/proto.c:182-201 | with a limit of zero two end marks are sent; the first closes the connection and the second is never looked at, in every split |
| `Clamdscan.Rcvln.constructor` | clamdscan/proto.c:97-101 | nothing buffered, all of the byte stream unread |
| `Clamdscan.Rcvln.Receive` | clamdscan/proto.c:116-133 | recv is never called without room, so zero bytes means the peer closed |
| `Clamdscan.Rcvln.TakeLine` | clamdscan/proto.c:134-146 | the line is cut off the unread bytes |
| `Clamdscan.Rcvln.KeepPartial` | clamdscan/proto.c:147-159 | an unfinished line is kept, moved to the front, and given up only if it fills the whole buffer |
| `Clamdscan.Rcvln.Next` | clamdscan/proto.c:112-161 | the next zero-terminated line and the unread bytes behind it; an error exactly for an unfinished or too long line, zero exactly at the end |
| `Clamdscan.AllLines` | clamdscan/proto.c:112-161 | all calls together return the lines of the byte stream, in order, for every segmentation |
| `BitWindow.Reader.Fill` | libclamav/aspack.c:51-59 | refilling keeps the position; it succeeds exactly while four more bytes from it exist |
| `BitWindow.Reader.Window` | libclamav/aspack.c:71 | the masked window is the next 24 unread bits, most significant first |
| `BitWindow.Reader.GetBits` | libclamav/aspack.c:161-174 | the next num bits, of more than eight the low eight, and the position advances by num |
| `Huffman.PrefixUnique` | libclamav/aspack.c:61-158 | no canonical code is a prefix of another |
| `Huffman.SymbolAt` | libclamav/aspack.c:95-99 | place within the space of a length gives the symbol whose code it is |
| `Huffman.PrefixBits` | libclamav/aspack.c:61-103 | in bits: the next a[s] bits of the input are the code of s |
| `Aspack.Dict.AddLength` | libclamav/aspack.c:124-143 | the running 32-bit sums are the Kraft sums, and the shortcut grows by the codes of this length |
| `Aspack.Dict.PlaceSymbols` | libclamav/aspack.c:147-155 | the symbol table lists the symbols of each length in order, without collisions |
| `Aspack.Dict.Build` | libclamav/aspack.c:106-158 | accepts exactly the sets of lengths whose running 32-bit sums stay in range and end at 2^24, so every complete set (entries 0..15, Kraft sum 2^24) and, below 512 symbols, only that sum; the tables then are those of the canonical code |
| `Aspack.WrapAccepted` | libclamav/aspack.c:124-145 | a table of 721 symbols with a Kraft sum 257 times too large is accepted, because the sum wraps |
| `Aspack.Dict.ShortcutRight` | libclamav/aspack.c:73-75 | the 256-entry shortcut gives the same length as the linear search |
| `Aspack.Dict.FindLength` | libclamav/aspack.c:73-93 | the length of the one code that starts the window |
| `Aspack.MaskedPrefix` | libclamav/aspack.c:71 | masking the low nine bits of the window does not change the symbol |
| `Aspack.Dict.GetDec` | libclamav/aspack.c:61-103 | the symbol whose code is a prefix of the unread bits, and the position advances by its length; fails exactly when fewer than four bytes are left |
| `Aspack.CompleteDecodes` | libclamav/aspack.c:61-158 | for a complete code every 24 bits start with exactly one code |
| `BinHexSpec.AlphabetIs` | libclamav/binhex.c:35-45 | exactly the 64 characters of the alphabet have a value, and it is their place in it |
| `BinHexSpec.UnpackMore` | libclamav/binhex.c:203-218 | each further 6-bit value completes exactly the byte of the unpacked sequence |
| `BinHexSpec.RunMore` | libclamav/binhex.c:219-233 | run expansion byte by byte is run expansion of the whole |
| `BinHexSpec.OnePass` | libclamav/binhex.c:181-234 | the one-pass loop computes the three passes: select, unpack, expand |
| `BinHexSpec.UnpackPack` | libclamav/binhex.c:203-218 | unpacking undoes 6-bit packing |
| `BinHexSpec.ExpandCompress` | libclamav/binhex.c:219-233 | run expansion undoes run compression, from every state |
| `BinHexSpec.DecodeEncode` | libclamav/binhex.c:181-234 | decoding inverts the reference encoder on every byte sequence |
| `BinHex.Extractor.TakeByte` | libclamav/binhex.c:219-233 | storing a byte or a run is one step of run expansion, and adds at most 254 bytes |
| `BinHex.Extractor.Char` | libclamav/binhex.c:181-234 | one character is one step of the one-pass loop |
| `BinHex.Extractor.FlushHeader` | libclamav/binhex.c:75-98 | the header is taken, the length limits applied, or the file is given up with both forks settled |
| `BinHex.Extractor.FlushData` | libclamav/binhex.c:99-115 | the buffered part of the data fork is written; the buffer is then empty or the fork complete |
| `BinHex.Extractor.FlushLimbo1` | libclamav/binhex.c:116-132 | the checksum between the forks is skipped, also when only one byte of it has come |
| `BinHex.Extractor.FlushLimbo2` | libclamav/binhex.c:133-141 | the second byte of it is skipped |
| `BinHex.Extractor.FlushRes` | libclamav/binhex.c:142-155 | the buffered part of the resource fork is written |
| `BinHex.Extractor.Flush` | libclamav/binhex.c:74-168 | every flush that does not end the run empties the buffer, in whichever phase it starts |
| `BinHex.Extractor.Extract` | libclamav/binhex.c:49-245 | for every input without a character that does not belong, both forks receive exactly their slices of the three-pass decoding, wherever the flushes fall; after such a character, exactly those of what had been flushed, which is all but fewer than FLUSH bytes; so they are complete if and only if none of the lost bytes belongs to a fork |
| `BinHex.LostForks` | libclamav/binhex.c:74-168 | cutting the decoded bytes off keeps both forks if and only if none of what is cut off belongs to them |
| `BinHex.TrailingText` | libclamav/binhex.c:199-202 | any file shorter than a flush, followed by a character that does not belong, is decoded in full and never flushed |
| `BinHex.LostFile` | libclamav/binhex.c:199-202 | a file of one data byte, followed by a blank, is extracted without that byte |
| `BinHexFile.Forks` | libclamav/binhex.c:74-168 | of a file written by the reference writer, with any name, type, creator and flags: the data fork unless over the limit, and the resource fork if it has at least five bytes, is within the limit and the data was found clean |
| `BinHexFile.AnyLayout` | libclamav/binhex.c:185-202 | whatever text precedes it and wherever its lines end, an encoded file decodes to what was encoded |
| `BinHexFile.NoColon` | libclamav/binhex.c:190-196 | without the colon nothing is decoded |
| `BinHexFile.GroupIs` | libclamav/binhex.c:203-218 | three bytes are the 24 bits of four values, in order |
| `BinHexFile.RunIs` | libclamav/binhex.c:219-233 | a byte, the mark and a count stand for that many of the byte, or for the mark itself if the count is zero |
| `BinHexFile.Restore` | libclamav/binhex.c:49-245 | written, encoded in any layout and extracted: both forks come back |

## Left out

- MpProduct.Mul: for opposite signs with an inner product that is itself wrong, only validity of the result is stated; the faults of the levels can then interact.
- MpProduct.ToomMul: the same restriction.
- MpRedc.ReduceRows: requires that the number read lies below n * B^used, as the code's carries leave the array otherwise.
- MpExptmod.ExptmodFast: in Montgomery mode a modulus of `COLUMNS` or more digits requires that the one copied but unassigned cell of the multiplier's work array holds zero (`CLEAN_CELL`), because the row form would otherwise carry beyond its digits; reduction mode 1 is not modelled, since `MpSpecial.DrIsAlso2kL` shows that it is never selected.
- MpExptmod.Redux: the same restriction to `CLEAN_CELL` for large Montgomery moduli; where Barrett reduction would store outside an array the model stops and says so, since nothing is known of what follows.
- MpExptmod.Exptmod: the same restriction; negative exponents, which go through `mp_invmod`, are not modelled.
- MpInvmod.FastInvmod: requires a mod b to be nonzero for odd b, since the loop would not end otherwise.
- MpSpecial.ReduceDr: requires zeros above `used`, as the digit loop reads them; a final carry of B is kept apart from the digits for the one subtraction that turns it into a digit.
- MpBarrett.HighFast: requires that the target has room for the copied cell, as the case without room (`MpBarrett.SpillsWhen`) leaves the array; `MpBarrett.Reduce` likewise.
- MpMultiply.MulDigsFast: the unassigned cell is taken to hold a number below B, though a cell of the work array can hold any `mp_digit`; `Residue.StrayDigit` covers every number.
- MpInvmod.ReducedWhen: sufficient only; the exact set of residues whose inverse exceeds the modulus is not characterised.
- MpText.AddD: the in-place call only, which is the one `mp_read_radix` makes, with zeros above `used`, as the lowest digit of a zero is read.
- Aspack.Dict.GetDec: states the symbol only for tables built from a complete set of lengths; one dictionary at a time.
- Server.Connection.ParseDispatch: commands have a prefix letter; FILDES, commands in the older style, newline-terminated commands that `cli_chomp` would shorten and failing dispatches end the model's run with a marker and are excluded.
- Server.Serve: each read must fit the space left in the buffer, as `read_fd_data` asks for no more than that.
- Session.Segmentation: the same fragment of the command language; whether jobs of a session are still active when it ends is a parameter.
- Milter.Clamfi.SendChunk: the remote connection only, not the temporary file of a local one; failures of connect and send are left out.
- Clamdscan.SendStream: failures of the socket are left out.
- BinHex.Extractor.Extract: the size limit and the verdict of scanning the data fork are parameters; BUFSIZ is at least 534.
- Memory exhaustion, allocation and release (`mp_init`, `mp_clear`, cleanup ladders).
- `mp_invmod_slow`, `mp_n_root`, `mp_is_square`, primality, random primes, logical operations and binary import and export of integers: easier members or number theory outside the code.
- Condition variables, wake-ups, thread termination after a timeout and the waiting loop of `thrmgr_destroy`: depends on the threads library; the model is about safety and fairness.
- Forced termination of a job group, statistics, logging, sockets, polling, timeouts and temporary files.
- ASPack's dictionary driver, LZ decryption, PE rebuild and call unrolling; paging of mapped files.
- The other components of the repository (scanners, unpackers, signature matching, updater, user interfaces).

# Prangster core in Dafny

Prangster reproduces and reverses weak pseudorandom number generators: the
C runtime's `rand`, BSD libc, Java's `java.util.Random`, VBScript `Rnd`,
MySQL `RAND()`, SQL Server `RAND()`, V8's `Math.random`, glibc
`random_r` TYPE_3, .NET `System.Random` and PureBasic's RANROT-B. Given a
seed it steps a generator forward and backward and skips whole blocks of
states in closed form; given observed outputs it searches for the seeds
that produce them.

This project models the core of that program:

- `MyUInt256`, the 256-bit unsigned number that keeps the closed-form
  seeking exact. It is a class over four 64-bit lanes (`uint256.dfy`),
  with the lane algorithms in `lane_ops.dfy`, `lane_mul.dfy` and
  `lane_division.dfy`. Every operation is proved against the number's value.
- `ModularMath`, the extended Euclidean algorithm and the multiplicative
  inverse, in its signed 64-bit and its 256-bit form (`modular_math.dfy`).
- The generic LCG engine and its Lehmer specialisation (`lcg_math.dfy`,
  `lcg_base.dfy`, `lehmer_base.dfy`). They cover the step, the output
  transforms, the closed-form seek, and the backward seek through the
  inverse multiplier.
- One module per concrete generator: MSVCRT (plain and multiplying
  variants), BSD libc (old and Park-Miller forms), Java, VBScript, MySQL,
  SQL Server, V8, glibc TYPE_3, .NET and PureBasic. Each generator whose
  fields the source updates is a class with its seeding, stepping and
  output. The .NET modulo variant adds functions over the .NET class.
  Where the source steps backwards, the backward step is proved to undo
  the forward one. MySQL's backward step is compiled out, so it has none.
  The LCG-based generators have their inverse constants checked.
- The seed-recovery overrides of MSVCRT (both variants), BSD libc (both
  forms), Java, VBScript and V8. They cover range arithmetic, delegation,
  block skipping and cancellation. SQL Server's override works on
  floating-point outputs and is left out. glibc, .NET, MySQL and PureBasic
  have no override.
- The lagged generators' transition matrices (`matrix.dfy`).
- `ConvertSymbolsToNumbers`, the alphabet codec of the command-line
  program (`symbols.dfy`).

The generic search `PrngBase.RecoverSeed` is not part of this model. An
override that hands a search on to it returns a `Delegated` value that
names the arguments it passes (`recovery.dfy`). The caller's callback is
a function from an event to the Cancel flag. The events an override
reports itself are returned in order.

Fixed-width machine integers are modelled as unbounded naturals. Every
wrap-around, truncating cast and mask of the source is written out as a
`%`, a `/` or a range check.

## Model

| member | source | states |
|---|---|---|
| `LaneOps.CompareLanes` | MyUInt256.cs:66-90 | CompareInternal returns -1, 0 or 1 exactly as the value of the first lane array compares with the value of the second, for both 64-bit and 32-bit lanes (the top lane is examined first) |
| `LaneOps.SubtractLanes` | MyUInt256.cs:237-273 | SubtractInternal leaves minuend - subtrahend modulo 2^(lanes·width) in the minuend, every lane in range, the final borrow dropped |
| `LaneOps.Msb32` | MyUInt256.cs:443-463 | Msb(uint) is the index of the highest set bit of the value, or -1 for 0 |
| `LaneOps.Msb64` | MyUInt256.cs:465-489 | Msb(ulong) is the index of the highest set bit of the value, or -1 for 0 |
| `LaneOps.MsbLanes` | MyUInt256.cs:491-513 | Msb of a lane array is the index of the highest set bit of the whole multi-lane value, or -1 when it is zero |
| `LaneOps.MoveLanesUp` | MyUInt256.cs:517-527 | moving lanes up by l places multiplies the value by 2^(width·l) modulo 2^256, zero-filling the bottom lanes |
| `LaneOps.CarryLeft` | MyUInt256.cs:529-538 | the in-lane left shift by c bits with carries between lanes multiplies the value by 2^c modulo 2^256 |
| `LaneOps.ShiftLeftLanes` | MyUInt256.cs:515-565 | ShiftLeftInternal by count bits leaves value·2^count modulo 2^256 |
| `LaneOps.MoveLanesDown` | MyUInt256.cs:569-579 | moving lanes down by l places divides the value by 2^(width·l), zero-filling the top lanes |
| `LaneOps.CarryRight` | MyUInt256.cs:581-590 | the in-lane right shift by c bits with carries between lanes divides the value by 2^c |
| `LaneOps.ShiftRightLanes` | MyUInt256.cs:567-617 | ShiftRightInternal by count bits leaves value / 2^count |
| `LaneMul.HalfSize` | MyUInt256.cs:280-295 | GetHalfSizeArrayInternal splits four 64-bit lanes into eight 32-bit lanes of the same value |
| `LaneMul.MultiplyRow` | MyUInt256.cs:316-338 | one row of the schoolbook product adds y·2^(32·j)·(the low 8-j lanes of a) to the product modulo 2^256 |
| `LaneMul.MultiplyHalves` | MyUInt256.cs:310-342 | MultiplyInternal(a, b) returns fresh 32-bit lanes holding a·b modulo 2^256 |
| `LaneDivision.AlignLanes` | MyUInt256.cs:623-633 | the divisor is shifted left by the difference of the top-bit indices (0 when the dividend's is not higher), which makes it at least half the dividend and still below 2^256 |
| `LaneDivision.ReduceOnce` | MyUInt256.cs:637-638 | the divisor is subtracted exactly when the dividend is at least the divisor |
| `LaneDivision.ModuloLanes` | MyUInt256.cs:619-673 | ModuloInternal leaves dividend mod divisor in the dividend (the dividend unchanged for a zero divisor) and gives the divisor back unchanged |
| `LaneDivision.RemainderLoop` | MyUInt256.cs:635-645 | from a divisor shifted up by divisorshift with the dividend below twice it, subtracting where it fits and halving brings the divisor back to its own value and leaves the dividend congruent to the original modulo the divisor and below it (unchanged for a zero divisor) |
| `LaneDivision.SetBit` | MyUInt256.cs:732 | setting quotient bit s, known to be clear, adds 2^s to the quotient |
| `LaneDivision.DivideLanes` | MyUInt256.cs:703-741 | DivideInternal replaces the value by the quotient of the value and a non-zero divisor |
| `LaneDivision.QuotientStep` | MyUInt256.cs:724-740 | one restoring-division step keeps the invariant that the quotient bits found so far and the remainder account for the dividend, and at the last step the quotient is dividend / divisor |
| `LaneDivision.QuotientLoop` | MyUInt256.cs:724-740 | from a state that keeps the division invariant at the top quotient bit, the loop ends with the quotient of the original dividend and divisor |
| `ExpModSpec.ExponentiateValue` | MyUInt256.cs:379-425 | the square-and-multiply schedule without a divisor computes x^e modulo 2^256 |
| `ExpModSpec.ExpModValue` | MyUInt256.cs:379-425 | the square-and-multiply schedule with a divisor d of at most 128 bits and x below 2^128 computes x^e mod d (1 for e = 0) |
| `ExpModSpec.ZeroDivisorValue` | MyUInt256.cs:405-406 | a zero divisor leaves every reduction out, so ExpMod(e, 0) equals Exponentiate(e) |
| `ExpModSpec.BitsBound` | MyUInt256.cs:381-382 | the bit length of the exponent bounds it from above and, for a non-zero exponent, from below |
| `UInt256.MyUInt256.ValueRange` | MyUInt256.cs:39-41 | the value of four 64-bit lanes lies in [0, 2^256) |
| `UInt256.MyUInt256.constructor` | MyUInt256.cs:43-46 | a new number is zero |
| `UInt256.MyUInt256.FromU64` | MyUInt256.cs:48-52 | a number built from a ulong has that value |
| `UInt256.MyUInt256.FromPair` | MyUInt256.cs:54-59 | a number built from two ulongs has value low + 2^64·high |
| `UInt256.MyUInt256.Copy` | MyUInt256.cs:61-64 | a copy has the value of the original in a fresh lane array |
| `UInt256.MyUInt256.Compare` | MyUInt256.cs:92-100 | Compare with another number is the sign of the difference of the values |
| `UInt256.MyUInt256.CompareU64` | MyUInt256.cs:102-111 | Compare with a ulong is the sign of the difference of the values |
| `UInt256.MyUInt256.IsZero` | MyUInt256.cs:113-127 | IsZero holds exactly when the value is 0 |
| `UInt256.MyUInt256.IsMsbSet` | MyUInt256.cs:129-132 | IsMsbSet holds exactly when the value is at least 2^255 |
| `UInt256.MyUInt256.ToUInt64` | MyUInt256.cs:146-149 | ToUInt64 is the value modulo 2^64 |
| `UInt256.MyUInt256.Zero` | MyUInt256.cs:151-155 | Zero makes the value 0 |
| `UInt256.MyUInt256.SetU64` | MyUInt256.cs:157-163 | Set(ulong) makes the value that ulong |
| `UInt256.MyUInt256.SetPair` | MyUInt256.cs:165-172 | Set(low, high) makes the value low + 2^64·high |
| `UInt256.MyUInt256.Set` | MyUInt256.cs:174-178 | Set(number) copies the other number's value |
| `UInt256.MyUInt256.AddU64` | MyUInt256.cs:180-193 | Add(ulong) makes the value (old value + addend) modulo 2^256 |
| `UInt256.MyUInt256.Add` | MyUInt256.cs:195-212 | Add(number) makes the value (old value + other) modulo 2^256, also when the other is this number |
| `UInt256.MyUInt256.SubtractU64` | MyUInt256.cs:221-235 | Subtract(ulong) makes the value (old value - subtrahend) modulo 2^256 |
| `UInt256.MyUInt256.Subtract` | MyUInt256.cs:275-278 | Subtract(number) makes the value (old value - other) modulo 2^256 |
| `UInt256.MyUInt256.StoreHalfSizeArray` | MyUInt256.cs:302-308 | storing eight 32-bit lanes makes the value the value of those lanes |
| `UInt256.MyUInt256.MultiplyBy` | MyUInt256.cs:344-351 | multiplying by 32-bit lanes makes the value (old value · their value) modulo 2^256 |
| `UInt256.MyUInt256.MultiplyU64` | MyUInt256.cs:353-364 | Multiply(ulong) makes the value (old value · factor) modulo 2^256 |
| `UInt256.MyUInt256.Multiply` | MyUInt256.cs:366-369 | Multiply(number) makes the value (old value · other) modulo 2^256 |
| `UInt256.MyUInt256.Square` | MyUInt256.cs:371-377 | Square makes the value old value² modulo 2^256 |
| `UInt256.MyUInt256.ExpModInternal` | MyUInt256.cs:379-425 | ExpModInternal follows the square-and-multiply schedule of the exponent's bits, reducing by the divisor when there is one (the value 1 for a zero exponent) |
| `UInt256.ExpModLoop` | MyUInt256.cs:398-422 | the loop over the exponent bits ends with the schedule's power for the starting square |
| `UInt256.NextExponentBit` | MyUInt256.cs:417-421 | the mask 2^bp moves to 2^(bp+1), or after bit 63 wraps to 0 and restarts at bit 0 of the next lane: the exponent bit position 64·i + bp advances by exactly one |
| `UInt256.MultiplyReduce` | MyUInt256.cs:403-406 | one product step is the 256-bit truncated product, reduced by the divisor when there is one |
| `UInt256.MyUInt256.Exponentiate` | MyUInt256.cs:427-433 | Exponentiate(e) makes the value old value^e modulo 2^256 |
| `UInt256.MyUInt256.ExpMod` | MyUInt256.cs:435-441 | ExpMod(e, d) follows the schedule with divisor d, and for 0 < d <= 2^128 and a value below 2^128 it is old value^e mod d (1 for e = 0) |
| `UInt256.MyUInt256.ModuloU64` | MyUInt256.cs:675-689 | Modulo(ulong) makes the value old value mod divisor, and leaves it unchanged for a zero divisor |
| `UInt256.MyUInt256.Modulo` | MyUInt256.cs:691-701 | Modulo(number) makes the value old value mod divisor, and leaves it unchanged for a zero divisor |
| `UInt256.MyUInt256.DivideU64` | MyUInt256.cs:743-781 | Divide(ulong) makes the value old value / divisor, and old value / 2^64 for a zero divisor (the shift by 64 the source performs) |
| `UInt256.MyUInt256.ShortDivide` | MyUInt256.cs:758-775 | the half-size long division by a divisor below 2^32 makes the value old value / divisor |
| `UInt256.DivideHalves` | MyUInt256.cs:762-771 | dividing the eight 32-bit half-lanes from the top, carrying (remainder % divisor) << 32, leaves half-lanes that are all below 2^32 and hold the old half-lane value divided by the divisor |
| `UInt256.PowerOfTwoTest` | MyUInt256.cs:751-757 | the test divisor & (divisor - 1) == 0 holds exactly when the divisor is 2^(its top-bit index), so the shift by that index is the division |
| `UInt256.MyUInt256.Divide` | MyUInt256.cs:783-793 | Divide(number) raises exactly for a zero divisor (value unchanged) and otherwise makes the value old value / divisor |
| `UInt256.TopBit` | MyUInt256.cs:129-132 | the top lane's bit 63 is set exactly when the value is at least 2^255 |
| `ModularMath.GcdDivides` | ModularMath.cs:58-72 | the gcd the remainder loop computes divides both arguments |
| `ModularMath.GcdGreatest` | ModularMath.cs:58-72 | every common divisor divides the gcd |
| `ModularMath.InverseNeedsCoprime` | ModularMath.cs:75 | an inverse of a modulo b exists only when gcd(b, a) = 1, so 0 is the right answer otherwise |
| `ModularMath.EuclidStep` | ModularMath.cs:62-71 | one remainder step keeps the Bezout relation r = x·a + k·b for the kept coefficient x, the gcd, and the bound on the coefficients |
| `ModularMath.FinalInverse` | ModularMath.cs:74-75 | when the gcd is 1 the last coefficient, moved into [0, b), is the inverse of a modulo b |
| `ModularMath.EuclidLoop` | ModularMath.cs:53-72 | the loop ends with r1 = gcd(b, a), the Bezout relation for the coefficient x, and abs(x)·r0 <= b |
| `ModularMath.ExtendedEuclidean` | ModularMath.cs:48-78 | raises unless 0 < a < b; otherwise returns gcd(b, a) and, when that is 1, the inverse of a modulo b in [0, b), else 0 |
| `ModularMath.MultiplicativeInverse` | ModularMath.cs:131-143 | raises unless 0 <= a < modulus; 0 for a = 0 or when a and the modulus are not coprime; otherwise the inverse of a modulo the modulus |
| `ModularMath.DivStep256` | ModularMath.cs:102-107 | the 256-bit step computes r0 mod r1 and, when that is not zero, r0 / r1 |
| `ModularMath.CoefStep256` | ModularMath.cs:109-112 | the 256-bit coefficient step computes x0 - q·x1 modulo 2^256 |
| `ModularMath.EuclidLoop256` | ModularMath.cs:94-116 | the 256-bit loop ends with r1 = gcd(b, a) and x holding the Bezout coefficient modulo 2^256 |
| `ModularMath.ExtendedEuclidean256` | ModularMath.cs:89-122 | raises unless 0 < a < b; otherwise returns gcd(b, a) and, when that is 1, the inverse of a modulo b in [0, b), else null |
| `ModularMath.MultiplicativeInverse256` | ModularMath.cs:152-164 | raises when a has its top bit set or is not below the modulus; null for a = 0 or when a and the modulus are not coprime; otherwise the inverse |
| `UInt256.MyUInt256.Plus` | MyUInt256.cs:139-144 | operator + returns a new number, leaving both operands unchanged, that holds the sum modulo 2^256 |
| `UInt256.MyUInt256.Minus` | MyUInt256.cs:214-219 | operator - returns a new number, leaving both operands unchanged, that holds the difference modulo 2^256 (a wrap-around below zero) |
| `LcgMath.GeometricTimes` | PRNGs/PrngLcgBase.cs:286 | the geometric sum 1 + M + … + M^(n-1) times (M - 1) is M^n - 1, so the division at line 315 is exact |
| `LcgMath.IterateClosed` | PRNGs/PrngLcgBase.cs:286 | n steps of the recurrence agree modulo m with the closed form M^n·s + c·(M^n - 1)/(M - 1) |
| `LcgMath.IterateIsClosed` | PRNGs/PrngLcgBase.cs:286 | for n > 0 the n-step state equals the closed form reduced modulo m |
| `LcgMath.IterateLinear` | PRNGs/PrngLcgBase.cs:296-303 | with multiplier 1, n steps from s give s + c·n modulo m |
| `LcgMath.IterateOfResidue` | PRNGs/PrngLcgBase.cs:63-66 | a state and its residue modulo m have the same n-step successor (n > 0) |
| `LcgMath.IterateBelow` | PRNGs/PrngLcgBase.cs:76-83 | stepping keeps a state below the modulus |
| `LcgMath.BackAfterForward` | PRNGs/PrngLcgBase.cs:181-200 | with M·M⁻¹ ≡ 1 (mod m), the backward step with M⁻¹ and increment -c·M⁻¹ undoes a forward step |
| `LcgMath.ForwardAfterBack` | PRNGs/PrngLcgBase.cs:181-200 | a forward step undoes the backward step |
| `LcgMath.MaskedBack` | PRNGs/PrngBsdLibcOld.cs:181-188 | the uint backward step (state - c)·M⁻¹, wrapped and masked to a modulus dividing 2^32, is one backward recurrence step of the masked state (shared with the VBScript and MSVCRT backward steps) |
| `LcgMath.SeekRoundTrip` | PRNGs/PrngLcgBase.cs:287 | seeking n states ahead and then n states back with the substituted inverse parameters returns the start state, and the other way round |
| `LcgMath.IterateCancel` | PRNGs/PrngLcgBase.cs:287 | if one step of the second recurrence undoes one step of the first on every state, n steps undo n steps |
| `LcgBase.NextState` | PRNGs/PrngLcgBase.cs:76-83 | the 64-bit wrapped state·M + c, reduced by a non-zero divisor, is below the full modulus, and it is the exact affine step whenever no wrap happens or the full modulus divides 2^64 |
| `LcgBase.ValueFromRaw` | PRNGs/PrngLcgBase.cs:90-99 | the output is the raw state divided by DiscardDivisor when that is set, then reduced modulo OutputDivisor when that is set; it never exceeds the raw state or raw / DiscardDivisor, and is below OutputDivisor when that is set |
| `LcgBase.GetMultiplicativeInverse` | PRNGs/PrngLcgBase.cs:153-171 | raises exactly when the signed routine is reached with a negative long or a divisor that is not positive; 0 when M is not below a non-zero divisor or no inverse exists; otherwise M·mi ≡ 1 (mod divisor), and an inverse is found for every coprime M in range |
| `LcgBase.InverseOfLongs` | PRNGs/PrngLcgBase.cs:165-168 | for a multiplier below a divisor below 2^63: when the multiplier is positive and coprime to the divisor, a nonzero value below the divisor whose product with the multiplier is 1 modulo the divisor; otherwise 0 |
| `LcgBase.PreviousState` | PRNGs/PrngLcgBase.cs:181-200 | raises exactly as the inverse does; for an invertible multiplier and a modulus dividing 2^64 it returns the unique in-range state whose NextState is the given state |
| `LcgBase.PreviousIsBackStep` | PRNGs/PrngLcgBase.cs:189-191 | the wrapped (state - c)·M⁻¹ reduced modulo d is the backward step of the recurrence |
| `LcgBase.SeekState` | PRNGs/PrngLcgBase.cs:284-326 | SeekState returns the state for offset 0, the increment for multiplier 0, (c·offset) mod m for multiplier 1 (see Findings), and the state offset steps ahead for every multiplier of at least 2 |
| `LcgBase.SeekEvaluation` | PRNGs/PrngLcgBase.cs:305-325 | the 256-bit evaluation with the scaled modulus (M - 1)·m gives exactly the n-step state modulo m |
| `LcgBase.ScaledDivisor` | PRNGs/PrngLcgBase.cs:305-308 | the scaled divisor is (M - 1) times the full modulus |
| `LcgBase.GeometricFraction` | PRNGs/PrngLcgBase.cs:313-316 | the fraction is ((M^n mod (M-1)m) - 1)/(M - 1) times the increment, in 256 bits |
| `LcgBase.SeekGeometric` | PRNGs/PrngLcgBase.cs:305-325 | the geometric path of SeekState returns the state offset steps ahead |
| `LcgBase.SeekLinear` | PRNGs/PrngLcgBase.cs:296-303 | the multiplier-1 path as written returns (c·offset) mod m, which does not depend on the state |
| `LcgBase.LinearSeekDropsState` | PRNGs/PrngLcgBase.cs:296-303 | from state 5 with increment 1 the as-written path gives 1 where one step of the recurrence gives 6 |
| `LcgBase.SeekLinearCorrected` | PRNGs/PrngLcgBase.cs:296-303 | the corrected multiplier-1 path, state + c·offset in 256 bits reduced modulo m, is the state offset steps ahead |
| `LcgBase.BackParameters` | PRNGs/PrngLcgBase.cs:342-363 | the backward parameters are the inverse of M (raising as GetMultiplicativeInverse does) and the increment -c·M⁻¹ modulo m |
| `LcgBase.NegatedIncrement` | PRNGs/PrngLcgBase.cs:351-363 | the negated increment computed in 256 bits is (m - c mod m)·M⁻¹ mod m |
| `LcgBase.ScaleEvaluation` | PRNGs/PrngLcgBase.cs:121-125 | raw·limit / m in 256 bits is exact and, for a raw value below m, below the limit |
| `LcgBase.LcgGenerator.constructor` | PRNGs/PrngLcgBase.cs:39-45 | a new generator holds its parameters and the state 0 |
| `LcgBase.LcgGenerator.Seed` | PRNGs/PrngLcgBase.cs:63-66 | Seed sets the state to seed mod Modulus, which lies between MinimumSeed and MaximumSeed |
| `LcgBase.LcgGenerator.Next` | PRNGs/PrngLcgBase.cs:129-135 | Next advances the state by NextState and returns ValueFromRaw of the new state |
| `LcgBase.LcgGenerator.ValueFromRawLimit` | PRNGs/PrngLcgBase.cs:107-127 | with a discard divisor the limit is ignored; otherwise the output is raw·limit / Modulus, below the limit for an in-range raw value |
| `LcgBase.LcgGenerator.NextLimit` | PRNGs/PrngLcgBase.cs:137-143 | Next(limit) advances like Next and scales the new state into [0, limit) |
| `LcgBase.LcgGenerator.SeekAhead` | PRNGs/PrngLcgBase.cs:328-331 | SeekAhead moves the state offset steps ahead (with the multiplier-0 and multiplier-1 cases of SeekState) |
| `LcgBase.LcgGenerator.SeekBack` | PRNGs/PrngLcgBase.cs:333-366 | SeekBack raises exactly when the inverse does; with an inverse it moves to the in-range state that offset steps lead back from; without one it seeks ahead Modulus - offset steps |
| `LcgBase.LcgGenerator.Previous` | PRNGs/PrngLcgBase.cs:202-208 | Previous returns the output of the current state and moves to the state whose successor it is |
| `LcgBase.LcgGenerator.PreviousLimit` | PRNGs/PrngLcgBase.cs:210-216 | Previous(limit) returns the limited output of the current state and moves one state back |
| `LcgBase.LcgGenerator.SeekSeedAhead` | PRNGs/PrngLcgBase.cs:376-379 | SeekSeedAhead returns the seed offset steps ahead of the given seed |
| `LcgBase.LcgGenerator.SeekSeedBack` | PRNGs/PrngLcgBase.cs:381-413 | as written, the backward seek with an inverse starts from the instance state, so the result leads to the instance state, not to the seed |
| `LcgBase.LcgGenerator.SeekSeedBackCorrected` | PRNGs/PrngLcgBase.cs:381-413 | the backward seek from the seed argument returns the in-range seed that offset steps lead to the given seed |
| `LehmerBase.ZeroIsFixed` | PRNGs/PrngLehmerBase.cs:42-48 | without an increment the state 0 never leaves 0, which is why the minimum seed is 1 |
| `LehmerBase.NextStateLehmer` | PRNGs/PrngLehmerBase.cs:65-68 | the multiplicative step is below the full modulus, keeps 0 at 0 and is the exact step when no wrap happens |
| `LehmerBase.SeekStateLehmer` | PRNGs/PrngLehmerBase.cs:90-108 | the Lehmer seek, M^offset·state reduced, is the state offset steps ahead |
| `LehmerBase.LehmerRoundTrip` | PRNGs/PrngLehmerBase.cs:92-93 | seeking ahead with M and back with M⁻¹ by the same offset returns the start state, and the other way round |
| `LehmerBase.SeekAhead` | PRNGs/PrngLehmerBase.cs:110-113 | SeekAhead moves the state offset steps ahead |
| `LehmerBase.SeekBack` | PRNGs/PrngLehmerBase.cs:115-134 | SeekBack raises as the inverse does; with an inverse it moves to the in-range state offset steps before; without one it seeks ahead Modulus - 1 - offset steps |
| `LehmerBase.SeekSeedAhead` | PRNGs/PrngLehmerBase.cs:136-139 | as written the seek starts from the instance state and ignores the seed |
| `LehmerBase.SeekSeedIgnoresSeed` | PRNGs/PrngLehmerBase.cs:136-139 | for the 16807 generator one step from state 2 gives 33614, while one step from seed 1 gives 16807 |
| `LehmerBase.SeekSeedAheadCorrected` | PRNGs/PrngLehmerBase.cs:136-139 | the corrected seek returns the seed offset steps ahead of the given seed |
| `LehmerBase.SeekSeedBack` | PRNGs/PrngLehmerBase.cs:141-159 | as written, with an inverse the backward seek starts from the instance state |
| `LehmerBase.SeekSeedBackCorrected` | PRNGs/PrngLehmerBase.cs:141-159 | the corrected backward seek returns the in-range seed that offset steps lead to the given seed |
| `MsvcrtBase.InverseConstants` | PRNGs/PrngMsvcrtBase.cs:50-51 | the stored constants are the inverse of 214013 modulo 2^31 and the negated increment times that inverse |
| `MsvcrtBase.NextState` | PRNGs/PrngMsvcrtBase.cs:130-133 | the 32-bit wrapped step masked to 31 bits is the recurrence step modulo 2^31 |
| `MsvcrtBase.NextStateAgreesWithBase` | PRNGs/PrngMsvcrtBase.cs:130-133 | the specialised step agrees with the generic LCG step for the same parameters |
| `MsvcrtBase.NextFromState` | PRNGs/PrngMsvcrtBase.cs:135-138 | the output of the next state is below 2^15 and is the generic ValueFromRaw (>> 16, & 0x7FFF) |
| `MsvcrtBase.PreviousState` | PRNGs/PrngMsvcrtBase.cs:155-162 | the wrapped (state - c)·M⁻¹ masked to 31 bits is the backward recurrence step |
| `MsvcrtBase.PreviousAfterNext` | PRNGs/PrngMsvcrtBase.cs:155-162 | PreviousState undoes NextState on every 31-bit state |
| `MsvcrtBase.NextAfterPrevious` | PRNGs/PrngMsvcrtBase.cs:155-162 | NextState undoes PreviousState on every 31-bit state |
| `MsvcrtBase.PreviousOfUnmasked` | PRNGs/PrngMsvcrtBase.cs:159-160 | a 32-bit argument is reversed like its 31-bit residue |
| `MsvcrtBase.SeekBackUndoesAhead` | PRNGs/PrngMsvcrtBase.cs:179-197 | seeking n states ahead and n states back with the stored inverse constants returns the start state, and the other way round |
| `MsvcrtBase.MsvcrtGenerator.constructor` | PRNGs/PrngMsvcrtBase.cs:53-55 | a new generator has the state 0 |
| `MsvcrtBase.MsvcrtGenerator.Seed` | PRNGs/PrngMsvcrtBase.cs:119-128 | Seed keeps the low 31 bits of the seed, which lie between MinimumSeed and MaximumSeed |
| `MsvcrtBase.MsvcrtGenerator.Next` | PRNGs/PrngMsvcrtBase.cs:140-145 | Next steps the state and returns bits 16 to 30 of the new state |
| `MsvcrtBase.MsvcrtGenerator.Previous` | PRNGs/PrngMsvcrtBase.cs:164-169 | Previous returns the output of the current state and moves to its predecessor, whose successor is the old state |
| `MsvcrtBase.MsvcrtGenerator.SeekAhead` | PRNGs/PrngMsvcrtBase.cs:179-182 | SeekAhead moves the state offset steps ahead |
| `MsvcrtBase.MsvcrtGenerator.SeekBack` | PRNGs/PrngMsvcrtBase.cs:184-187 | SeekBack moves to the state that offset steps lead back to the old state |
| `MsvcrtBase.MsvcrtGenerator.SeekSeedAhead` | PRNGs/PrngMsvcrtBase.cs:189-192 | SeekSeedAhead returns the seed offset steps ahead |
| `MsvcrtBase.MsvcrtGenerator.SeekSeedBack` | PRNGs/PrngMsvcrtBase.cs:194-197 | SeekSeedBack returns the seed from which offset steps lead to the given seed |
| `Msvcrt.OutputAfter` | PRNGs/PrngMsvcrt.cs:49-60 | the output j steps on, reduced modulo a limit in (0, 2^15), is below 2^15 and below the limit |
| `Msvcrt.OutputAfterStep` | PRNGs/PrngMsvcrt.cs:49-60 | the output j steps on from a state is the first output of the state j steps on |
| `Msvcrt.NextLimit` | PRNGs/PrngMsvcrt.cs:49-60 | Next(limit) steps once and returns the output reduced modulo a limit in (0, 2^15), unreduced otherwise |
| `Msvcrt.PreviousLimit` | PRNGs/PrngMsvcrt.cs:62-73 | Previous(limit) returns the reduced output of the current state and moves one state back |
| `Msvcrt.MatchOutputs` | PRNGs/PrngMsvcrt.cs:120-127 | the inner loop seeds and draws, and reports a match exactly when every expected output is drawn or is the wildcard |
| `Msvcrt.MatchLowBits` | PRNGs/PrngMsvcrt.cs:103-111 | the subgenerator test reports a match exactly when the masked low bits of every draw agree with the expected output's, wildcards excepted |
| `Msvcrt.ScanStride` | PRNGs/PrngMsvcrt.cs:118-140 | the loop over the seeds on the candidate stride reports only seeds whose successor state reproduces the outputs after the first, and stops right after the first event on which the callback cancels |
| `Msvcrt.RecoverSeed` | PRNGs/PrngMsvcrt.cs:75-147 | the override hands unsuitable requests to the generic search unchanged, returns false for an empty range, reports only seeds (the predecessors of matching states) whose outputs match the rest of the output, stops at the first cancel and returns true only when nothing cancelled |
| `MsvcrtMul.ScaleBelowLimit` | PRNGs/PrngMsvcrtMul.cs:49-52 | the 64-bit value·limit / 2^15 of a 15-bit value is exact and below a limit in (0, 2^32] |
| `MsvcrtMul.OutputAfter` | PRNGs/PrngMsvcrtMul.cs:54-58 | the scaled output j steps on is below the limit |
| `MsvcrtMul.NextFromStateLimit` | PRNGs/PrngMsvcrtMul.cs:49-52 | NextFromState(state, limit) is the first scaled output of the state and below the limit |
| `MsvcrtMul.NextLimit` | PRNGs/PrngMsvcrtMul.cs:54-58 | Next(limit) steps once and returns the output scaled by limit / 2^15 |
| `MsvcrtMul.PreviousLimit` | PRNGs/PrngMsvcrtMul.cs:60-64 | Previous(limit) returns the scaled output of the current state and moves one state back |
| `MsvcrtMul.MatchOutputs` | PRNGs/PrngMsvcrtMul.cs:134-143 | the inner loop reports a match exactly when every expected output is drawn or is the wildcard |
| `MsvcrtMul.RangeIsOutputClass` | PRNGs/PrngMsvcrtMul.cs:80-84 | a state lies in [rangestart, rangeend] exactly when its own scaled output is output[0] |
| `MsvcrtMul.RangeStartIs` | PRNGs/PrngMsvcrtMul.cs:80-81 | rangestart is the rounded-up least 15-bit value scaling to output[0], times 2^16 |
| `MsvcrtMul.RangeEndIs` | PRNGs/PrngMsvcrtMul.cs:83-84 | rangeend is the least 15-bit value scaling to output[0] + 1, times 2^16, minus 1 |
| `MsvcrtMul.Wrapper` | PRNGs/PrngMsvcrtMul.cs:176-182 | the wrapper callback turns a discovered state into its predecessor, so the reported seed produces the state, and passes other events on unchanged |
| `MsvcrtMul.BlockSize` | PRNGs/PrngMsvcrtMul.cs:102 | the block size 2^31 / (214013·limit) fits in 32 bits |
| `MsvcrtMul.SkipLoopNeverExits` | PRNGs/PrngMsvcrtMul.cs:100-122 | as written, the outputs [0, 10, 0] with limit 10 pass the guard although no state yields the second output 10, so the skip loop at 121-122 never ends |
| `MsvcrtMul.ReachingState` | PRNGs/PrngMsvcrtMul.cs:121-122 | every second output below the limit is produced by some 31-bit state, so with the corrected guard the skip loop ends |
| `MsvcrtMul.SkipTo` | PRNGs/PrngMsvcrtMul.cs:121-122 | the skip loop stops at the first counter value, in wrapped order, whose scaled output is output1 |
| `MsvcrtMul.ScanBlock` | PRNGs/PrngMsvcrtMul.cs:132-159 | the block scan reports only seeds whose successor draws the outputs after the first, and follows the cancel protocol |
| `MsvcrtMul.ClampedRange` | PRNGs/PrngMsvcrtMul.cs:86-98 | the clamped range stays within 64 bits and ends at or before seedEnd |
| `MsvcrtMul.RecoverSeed` | PRNGs/PrngMsvcrtMul.cs:66-172 | as written: the override delegates unsuitable requests unchanged, returns false for an empty range or a zero stride, delegates the clamped range and the rest of the output with the wrapper callback outside the as-written block-skipping guard, never ends (Exhausted) when that guard admits a second output at or above the limit, and otherwise reports only seeds whose successor draws the outputs after the first and follows the cancel protocol |
| `MsvcrtMul.RecoverSeedCorrected` | PRNGs/PrngMsvcrtMul.cs:66-172 | with the corrected guard (second output below the limit): the same delegation and empty-range results, the block search only where a state produces the second output, the same reporting and cancel guarantees |
| `MsvcrtMul.BlockSearch` | PRNGs/PrngMsvcrtMul.cs:115-171 | the block-skipping search reports only seeds whose successor draws the outputs after the first and follows the cancel protocol; for a second output at or above the limit its first skip loop never ends |
| `MsvcrtMul.MatchIsReported` | PRNGs/PrngMsvcrtMul.cs:145-149 | a uint state whose seeded generator matches is reported as a predecessor that steps to it |
| `Recovery.CancelProtocolAppend` | PRNGs/PrngMsvcrt.cs:137-140 | two event runs that each follow the cancel protocol, the first uncancelled, follow it together |
| `Recovery.Rewrite` | PRNGs/PrngMsvcrtMul.cs:176-182 | a rewriting wrapper changes only the seed of a discovered event |
| `Recovery.AlignStartIsNextOnStride` | PRNGs/PrngMsvcrtMul.cs:86-95 | the aligned start is seedStart when the range begins at or before it, and otherwise the first seed on the stride from seedStart at or after rangestart |
| `Recovery.AlignedNotAbove` | PRNGs/PrngMsvcrtMul.cs:86-95 | no seed on the stride at or after both starts lies before the aligned start |
| `Recovery.ScaledOutputRange` | PRNGs/PrngMsvcrtMul.cs:80-84 | v·a / b equals o exactly when v lies between the two rounded-up bounds |
| `BsdLibc.InverseConstant` | PRNGs/PrngBsdLibc.cs:74 | the stored constant is the inverse of 16807 modulo 2^31 - 1 |
| `BsdLibc.NextState` | PRNGs/PrngBsdLibc.cs:133 | state·16807 mod (2^31 - 1) is the Lehmer step, below the modulus, and keeps 0 at 0 |
| `BsdLibc.PreviousState` | PRNGs/PrngBsdLibc.cs:158-161 | state·M⁻¹ mod (2^31 - 1) is the backward Lehmer step |
| `BsdLibc.StepRoundTrip` | PRNGs/PrngBsdLibc.cs:158-161 | PreviousState undoes NextState and NextState undoes PreviousState on every state below the modulus |
| `BsdLibc.Reduce` | PRNGs/PrngBsdLibc.cs:143-144 | a limit in (0, 2^31 - 1) reduces the output below the limit; any other limit leaves it alone |
| `BsdLibc.BsdLibcGenerator.constructor` | PRNGs/PrngBsdLibc.cs:76-78 | a new generator has the state 0 |
| `BsdLibc.BsdLibcGenerator.Seed` | PRNGs/PrngBsdLibc.cs:118-127 | Seed keeps the low 32 bits of the seed reduced modulo 2^31 - 1 |
| `BsdLibc.BsdLibcGenerator.Next` | PRNGs/PrngBsdLibc.cs:129-135 | Next steps the state and returns the new state; a zero state stays zero |
| `BsdLibc.BsdLibcGenerator.NextLimit` | PRNGs/PrngBsdLibc.cs:137-148 | Next(limit) steps and returns the reduced new state |
| `BsdLibc.BsdLibcGenerator.Previous` | PRNGs/PrngBsdLibc.cs:163-169 | Previous returns the current state and moves to its predecessor |
| `BsdLibc.BsdLibcGenerator.PreviousLimit` | PRNGs/PrngBsdLibc.cs:171-182 | Previous(limit) returns the reduced current state and moves one state back |
| `BsdLibc.BsdLibcGenerator.SeekAhead` | PRNGs/PrngBsdLibc.cs:192-195 | SeekAhead moves the state offset steps ahead |
| `BsdLibc.BsdLibcGenerator.SeekBack` | PRNGs/PrngBsdLibc.cs:197-200 | SeekBack moves to the state from which offset steps lead to the old state |
| `BsdLibc.BsdLibcGenerator.SeekSeedAhead` | PRNGs/PrngBsdLibc.cs:202-205 | SeekSeedAhead returns the seed offset steps ahead, one NextState for offset 1 |
| `BsdLibc.BsdLibcGenerator.SeekSeedBack` | PRNGs/PrngBsdLibc.cs:207-210 | SeekSeedBack returns the seed from which offset steps lead to the given seed |
| `BsdLibc.RecoverSeed` | PRNGs/PrngBsdLibc.cs:212-240 | unsuitable requests go to the generic search unchanged; otherwise the range is clamped to the seed bounds, an empty one gives false, and the generic search gets stride limit, the rest of the output, the wrapper callback and a start that is the first seed at or after the clamped start with residue output[0] |
| `BsdLibc.CandidateReproducesFirstOutput` | PRNGs/PrngBsdLibc.cs:234-250 | the seed the wrapper callback, which replaces a discovered seed by the predecessor of its low 32 bits, reports for a candidate with residue output[0] steps to the candidate, whose reduced output is output[0] |
| `BsdLibcOld.InverseConstants` | PRNGs/PrngBsdLibcOld.cs:75-76 | the stored constants are the inverse of 1103515245 modulo 2^31 and the negated increment times it |
| `BsdLibcOld.NextState` | PRNGs/PrngBsdLibcOld.cs:151 | the 32-bit wrapped state·M + c agrees modulo 2^31 with the recurrence step |
| `BsdLibcOld.PreviousState` | PRNGs/PrngBsdLibcOld.cs:181-188 | the wrapped (state - c)·M⁻¹ masked to 31 bits is the backward step of the 31-bit residue |
| `BsdLibcOld.StepRoundTrip` | PRNGs/PrngBsdLibcOld.cs:181-188 | PreviousState undoes NextState and the other way round, up to the unused top bit |
| `BsdLibcOld.Reduce` | PRNGs/PrngBsdLibcOld.cs:166-167 | a limit in (0, 2^31) reduces the output below the limit; any other limit leaves it alone |
| `BsdLibcOld.SeekBackUndoesAhead` | PRNGs/PrngBsdLibcOld.cs:219-237 | seeking n ahead and n back with the stored constants returns the start state, and the other way round |
| `BsdLibcOld.BsdLibcOldGenerator.constructor` | PRNGs/PrngBsdLibcOld.cs:78-80 | a new generator has the state 0 |
| `BsdLibcOld.BsdLibcOldGenerator.Seed` | PRNGs/PrngBsdLibcOld.cs:136-145 | Seed keeps the low 31 bits of the seed |
| `BsdLibcOld.BsdLibcOldGenerator.Next` | PRNGs/PrngBsdLibcOld.cs:147-155 | Next keeps the full 32-bit state and returns its low 31 bits, the recurrence step of the old residue |
| `BsdLibcOld.BsdLibcOldGenerator.NextLimit` | PRNGs/PrngBsdLibcOld.cs:157-171 | Next(limit) steps like Next and returns the reduced 31-bit output |
| `BsdLibcOld.BsdLibcOldGenerator.Previous` | PRNGs/PrngBsdLibcOld.cs:190-196 | Previous returns the low 31 bits of the current state and moves to a predecessor whose step gives them |
| `BsdLibcOld.BsdLibcOldGenerator.PreviousLimit` | PRNGs/PrngBsdLibcOld.cs:198-209 | Previous(limit) returns the reduced output of the current state and moves one state back |
| `BsdLibcOld.BsdLibcOldGenerator.SeekAhead` | PRNGs/PrngBsdLibcOld.cs:219-222 | SeekAhead moves the 31-bit residue offset steps ahead (no change for offset 0) |
| `BsdLibcOld.BsdLibcOldGenerator.SeekBack` | PRNGs/PrngBsdLibcOld.cs:224-227 | SeekBack moves to the state from which offset steps lead to the old residue |
| `BsdLibcOld.BsdLibcOldGenerator.SeekSeedAhead` | PRNGs/PrngBsdLibcOld.cs:229-232 | SeekSeedAhead returns the seed's residue offset steps ahead, or the seed truncated to 32 bits for offset 0 |
| `BsdLibcOld.BsdLibcOldGenerator.SeekSeedBack` | PRNGs/PrngBsdLibcOld.cs:234-237 | SeekSeedBack returns the seed from which offset steps lead to the given seed's residue |
| `BsdLibcOld.RecoverSeed` | PRNGs/PrngBsdLibcOld.cs:239-267 | as for BsdLibc: unsuitable requests go on unchanged, an empty clamped range gives false, and otherwise the generic search strides by limit from the first seed with residue output[0] |
| `BsdLibcOld.CandidateReproducesFirstOutput` | PRNGs/PrngBsdLibcOld.cs:261-277 | the seed the wrapper callback, which replaces a discovered seed by the predecessor of its low 32 bits, reports for a candidate with residue output[0] steps to the candidate, whose reduced output is output[0] |
| `Recovery.ResidueOffsetHits` | PRNGs/PrngBsdLibc.cs:234-235 | the offset added to seedStart makes its residue modulo limit equal output[0] |
| `Java.InverseConstants` | PRNGs/PrngJava.cs:42-49 | the stored inverse is the inverse of the multiplier modulo 2^48, and the backward increment matches it |
| `Java.Scramble` | PRNGs/PrngJava.cs:124 | seeding XORs the seed with the multiplier and keeps 48 bits |
| `Java.ScrambleUndone` | PRNGs/PrngJava.cs:124 | XOR with the multiplier undoes the scrambling of a 48-bit seed, both ways |
| `Java.NextState` | PRNGs/PrngJava.cs:152 | the 64-bit wrapped state·M + c masked to 48 bits is the recurrence step modulo 2^48 |
| `Java.PreviousState` | PRNGs/PrngJava.cs:199-206 | the 64-bit wrapped (state - c)·M⁻¹ masked to 48 bits is the backward step modulo 2^48 |
| `Java.StepRoundTrip` | PRNGs/PrngJava.cs:199-206 | PreviousState undoes NextState and NextState undoes PreviousState |
| `Java.StepsOfUnmasked` | PRNGs/PrngJava.cs:152-204 | both steps ignore the state bits above 48, and NextState undoes PreviousState on the masked state |
| `Java.SeekBackUndoesAhead` | PRNGs/PrngJava.cs:250-258 | n inverse steps undo n forward steps and the other way round |
| `Java.ScrambledSeek` | PRNGs/PrngJava.cs:250-258 | seeking the unscrambled seed and re-applying the XOR seeks the scrambled seed |
| `Java.ValueFromRaw` | PRNGs/PrngJava.cs:128-131 | the output of a 48-bit state is below 2^32 |
| `Java.PowerOfTwoTestPasses` | PRNGs/PrngJava.cs:137 | the power-of-two test accepts every power of two below 2^64, and 0 |
| `Java.FailingLimit` | PRNGs/PrngJava.cs:137 | a limit up to 2^32 that fails the test is strictly between 0 and 2^32 |
| `Java.ScaleBelowLimit` | PRNGs/PrngJava.cs:139 | ((raw >> 17)·limit) >> 31 does not overflow and stays below the limit |
| `Java.ScaleOfPowerOfTwo` | PRNGs/PrngJava.cs:139 | for limit 2^k the scaled value is the top k of the 48 state bits |
| `Java.ValueFromRawLimit` | PRNGs/PrngJava.cs:133-146 | the limited output of a 48-bit state is below any limit in (0, 2^32] |
| `Java.AcceptanceRegion` | PRNGs/PrngJava.cs:184 | the loop's exit test accepts a draw exactly when the 31-bit value lies below the largest multiple of the limit that fits in 2^31 |
| `Java.Sample` | PRNGs/PrngJava.cs:158-189 | Next(limit) returns the limited value of the new state; a power-of-two limit takes one step, any other limit ends on an accepted state |
| `Java.SampleLoop` | PRNGs/PrngJava.cs:174-186 | the do-while loop of Next(limit) ends on an accepted 48-bit state and returns its top 31 bits modulo the limit |
| `Java.SampleRejects` | PRNGs/PrngJava.cs:176-184 | a rejected draw makes Next(limit) continue from the next state |
| `Java.SampleOfUnmasked` | PRNGs/PrngJava.cs:167-178 | Next(limit) ignores the state bits above 48 |
| `Java.OversizedLimitNeverDraws` | PRNGs/PrngJava.cs:158-184 | with the argument check commented out, a limit above 2^31 that is not a power of two (outside the positive 32-bit domain of nextInt) is never accepted, so the loop does not end |
| `Java.OversizedLimitRejects` | PRNGs/PrngJava.cs:184 | no draw is accepted for a limit above 2^31 |
| `Java.BackSample` | PRNGs/PrngJava.cs:236-243 | the backward rejection loop ends on an accepted state |
| `Java.BackSampleRejects` | PRNGs/PrngJava.cs:236-243 | a rejected state makes the backward loop continue from its predecessor |
| `Java.JavaGenerator.constructor` | PRNGs/PrngJava.cs:51-53 | a new generator has the state 0 |
| `Java.JavaGenerator.Seed` | PRNGs/PrngJava.cs:117-126 | the state is the scrambled seed, and XOR with the multiplier gives a 48-bit seed back |
| `Java.JavaGenerator.Next` | PRNGs/PrngJava.cs:148-156 | Next takes one step and returns the top 32 state bits |
| `Java.JavaGenerator.NextLimit` | PRNGs/PrngJava.cs:158-189 | Next(limit) draws as Sample says, and the value is below any limit in (0, 2^32] |
| `Java.JavaGenerator.ForwardUntilAccepted` | PRNGs/PrngJava.cs:174-186 | the loop leaves the generator on the state SampleLoop stops at and returns its value, and fails exactly when SampleLoop runs out of fuel |
| `Java.JavaGenerator.Previous` | PRNGs/PrngJava.cs:208-215 | Previous returns the output of the current state and moves to its predecessor |
| `Java.JavaGenerator.PreviousLimit` | PRNGs/PrngJava.cs:217-248 | Previous(limit) returns the limited output of the current state and moves back one step or, for other limits, to the state BackSample gives |
| `Java.JavaGenerator.BackUntilAccepted` | PRNGs/PrngJava.cs:235-243 | the backward loop leaves the generator on the state BackSample gives, and fails exactly when BackSample runs out of fuel |
| `Java.JavaGenerator.SeekSeedAhead` | PRNGs/PrngJava.cs:250-253 | the seed whose scrambled state is offset steps ahead of the given seed's |
| `Java.JavaGenerator.SeekSeedBack` | PRNGs/PrngJava.cs:255-258 | as written, through the generic SeekSeedBack (PRNGs/PrngLcgBase.cs:412): offset 0 returns the seed; otherwise the result's scrambled state is offset steps before the instance state, which it reaches again in offset steps ahead |
| `Java.JavaGenerator.SeekSeedBackCorrected` | PRNGs/PrngJava.cs:255-258 | the seed whose scrambled state is offset steps before the given seed's, and leads in offset steps to it |
| `Java.SeekBackFromState` | PRNGs/PrngLcgBase.cs:412 | the unscrambled backward seek from a 64-bit state scrambles back to itself and steps ahead to the masked state |
| `Java.ScrambleOfZero` | PRNGs/PrngJava.cs:124 | seed 0 scrambles into the state 0x5DEECE66D |
| `Java.SeekSeedBackIgnoresSeed` | PRNGs/PrngJava.cs:255-258 | on a new generator, the seed returned for seed 0 and offset 1 steps ahead to state 0, not to the state 0x5DEECE66D of seed 0 |
| `Java.JavaGenerator.MatchOutputs` | PRNGs/PrngJava.cs:308-315 | drawing the expected outputs from a state matches exactly when MatchFrom says so |
| `Java.WildcardsMatch` | PRNGs/PrngJava.cs:311-315 | an expected sequence of wildcards never mismatches, and matches for a power-of-two limit |
| `Java.MatchFromOfUnmasked` | PRNGs/PrngJava.cs:308-315 | matching ignores the state bits above 48 |
| `Java.JavaGenerator.RecoverSeed` | PRNGs/PrngJava.cs:260-335 | as written: unsuitable requests go to the generic search unchanged; an empty range or zero increment gives false; power-of-two limits go to the as-written RecoverSeedPowerOf2; every reported seed, seeded and stepped once, draws the outputs after the first, and the search stops with false exactly when the callback cancels |
| `Java.JavaGenerator.RecoverSeedCorrected` | PRNGs/PrngJava.cs:260-335 | the same, with power-of-two limits going to RecoverSeedPowerOf2Corrected |
| `Java.JavaGenerator.SearchSubseeds` | PRNGs/PrngJava.cs:273-333 | the brute force over the low 17 state bits reports only seeds whose successor draws the outputs after the first, and stops with false exactly when the callback cancels |
| `Java.JavaGenerator.ScanSeeds` | PRNGs/PrngJava.cs:306-330 | the inner seed loop reports only matching seeds and stops with false only on a cancel |
| `Java.JavaGenerator.Probe` | PRNGs/PrngJava.cs:307-314 | setting the state to a candidate and drawing the rest of the output agrees with MatchFrom of that state |
| `Java.AllReportedAppend` | PRNGs/PrngJava.cs:317-329 | reports from two scans together are still all matching seeds |
| `Java.DiscoveryIsReported` | PRNGs/PrngJava.cs:317-320 | a state that reproduces the rest of the output is reported as the unscrambled seed of its predecessor |
| `Java.ReportDiscovery` | PRNGs/PrngJava.cs:317-329 | appending a matching seed's report keeps every event a matching seed and keeps the cancel protocol, whatever the callback answers |
| `Java.PowerRange` | PRNGs/PrngJava.cs:347-349 | the range of RecoverSeedPowerOf2 fits in 64 bits |
| `Java.PowerRangeIsStateClass` | PRNGs/PrngJava.cs:347-349 | the range holds exactly the states whose limited output is output[0] |
| `Java.PowerRangeMissesSeeds` | PRNGs/PrngJava.cs:347-365 | for output[0] 0 and limit 2^16 the range is the seeds below 2^32, yet each of them produces output 5 |
| `Java.PowerRangeCorrected` | PRNGs/PrngJava.cs:347-349 | the corrected range fits in 64 bits |
| `Java.PowerRangeCorrectedIsSeedClass` | PRNGs/PrngJava.cs:347-349 | the corrected range holds exactly the seeds whose scrambled state gives output[0] |
| `Java.PowerOfTwoHandOff` | PRNGs/PrngJava.cs:351-365 | the hand-off aligns the range start to the stride, ends at the earlier of the range end and seedEnd, and passes the rest of the output, the same increment, limit and wildcard and the wrapper callback |
| `Java.RecoverSeedPowerOf2` | PRNGs/PrngJava.cs:337-367 | as written, the request goes to the generic search over the aligned and clamped range of states whose output is output[0], searched as seeds |
| `Java.PowerOfTwoSearchMisses` | PRNGs/PrngJava.cs:347-365 | as written, for output 0, limit 2^16 and the whole seed range, the hand-off searches seeds 0 to 2^32 - 1, and every one of them draws 5 |
| `Java.RecoverSeedPowerOf2Corrected` | PRNGs/PrngJava.cs:337-367 | with the corrected range, the same hand-off over the seeds that Seed turns into states whose output is output[0] |
| `Java.PowerOfTwoSearchIsOutputClass` | PRNGs/PrngJava.cs:347-365 | the corrected hand-off's range holds only seeds whose first output is output[0] and every such seed of the request's stride |
| `Java.Unwrap` | PRNGs/PrngJava.cs:374 | the reported seed's scrambled state steps to the discovered seed's scrambled state |
| `Java.Wrapper` | PRNGs/PrngJava.cs:371-377 | the callback rewrites discovered seeds with Unwrap and passes other events on |
| `Java.WrappedSeedReproducesFirstOutput` | PRNGs/PrngJava.cs:365-376 | a reported seed, when seeded, draws output[0] and lands on the discovered state |
| `Java.SampleOfPowerOfTwo` | PRNGs/PrngJava.cs:165-171 | for a power-of-two limit Next(limit) is one step and the scaled value |
| `V8.MaxState` | PRNGs/PrngV8.cs:147 | the largest state a multiply-with-carry step can produce fits in 32 bits |
| `V8.Mwc` | PRNGs/PrngV8.cs:118-119 | a step is multiplier·low16 + high16 and never exceeds MaxState, so the uint arithmetic does not wrap |
| `V8.MwcFits` | PRNGs/PrngV8.cs:118-119 | the step of any 16-bit halves stays within MaxState and 32 bits |
| `V8.Output` | PRNGs/PrngV8.cs:121 | the output combines the two states in 32 bits |
| `V8.OutputBits` | PRNGs/PrngV8.cs:121 | the low 14 output bits are State1's, and the top 18 are State0's low 18 plus the carry from State1's bits 14-17 |
| `V8.OutputValue` | PRNGs/PrngV8.cs:121 | the output value in terms of State0's low 18 bits and State1's low 18 bits |
| `Common.ScaleToLimitBelow` | PRNGs/PrngV8.cs:130 | (value·limit) >> 32 is below the limit and is the floor of value·limit / 2^32 |
| `V8.PreviousState` | PRNGs/PrngV8.cs:141-167 | a predecessor, when one is returned, fits in 32 bits |
| `V8.PredecessorFits` | PRNGs/PrngV8.cs:145-152 | the shifts and ORs of both predecessor formulas do not wrap |
| `V8.PreviousStateUndoesStep` | PRNGs/PrngV8.cs:141-167 | PreviousState raises exactly for states above MaxState, and otherwise returns a state that steps back to the given one |
| `V8.UpperPredecessor` | PRNGs/PrngV8.cs:145-149 | the upper formula (low half 0xFFFF) gives a true predecessor |
| `V8.LowerPredecessor` | PRNGs/PrngV8.cs:152 | the quotient-remainder formula gives a true predecessor |
| `V8.LowerValue` | PRNGs/PrngV8.cs:152 | below Multiplier·0x10000 - 1 the predecessor joins the remainder (upper half) and the quotient (lower half) by the state and the multiplier, both below 2^16, so the OR is a plain sum |
| `V8.StepHasPrevious` | PRNGs/PrngV8.cs:141-167 | every state reached by a step has a predecessor that steps back to it |
| `V8.StepNotInjective` | PRNGs/PrngV8.cs:143 | two states step to the same state, so PreviousState returns only one of them |
| `V8.SeedOfStates` | PRNGs/PrngV8.cs:109-110 | the seed's high 32 bits are State0 and its low 32 bits State1 |
| `V8.V8Generator.constructor` | PRNGs/PrngV8.cs:73-75 | a new generator has both states 0 |
| `V8.V8Generator.Seed` | PRNGs/PrngV8.cs:102-112 | Seed splits the seed into State0 (high half) and State1 (low half) |
| `V8.V8Generator.Next` | PRNGs/PrngV8.cs:114-123 | Next steps both states and returns their combined output; both new states have predecessors |
| `V8.V8Generator.NextLimit` | PRNGs/PrngV8.cs:125-131 | Next(limit) returns the scaled output, below any limit in (0, 2^32] |
| `V8.V8Generator.Previous` | PRNGs/PrngV8.cs:169-178 | Previous raises when State0, then State1, has no predecessor (State0 already moved in the second case); otherwise it returns the current output and both states step back to the old ones |
| `V8.V8Generator.PreviousLimit` | PRNGs/PrngV8.cs:180-186 | Previous(limit) succeeds exactly when both states have predecessors and returns the scaled current output |
| `V8.V8Generator.MatchRest` | PRNGs/PrngV8.cs:285-290 | the comparison loop succeeds exactly when the draws after the first match the rest of the output |
| `V8.V8Generator.Rounds` | PRNGs/PrngV8.cs:230-304 | for any first expected value output1 (output[1] or the wildcard), the candidate loop reports only seeds whose successor passes the test against output1 and output[2..], delivers every report, and stops with false only on a cancel |
| `V8.V8Generator.SearchLow` | PRNGs/PrngV8.cs:225-323 | one value of State0's low bits uses up its share of the attempt count, with the same reporting and cancel guarantees for any output1 |
| `V8.V8Generator.RecoverSeed` | PRNGs/PrngV8.cs:188-328 | as written: unsuitable requests go to the generic search and only those; an empty range gives false; every reported seed, stepped once, passes the test against FirstExpected (the wildcard for exactly two outputs) and output[2..]; a callback cancel stops with false; no callback means no events |
| `V8.V8Generator.RecoverSeedCorrected` | PRNGs/PrngV8.cs:188-328 | the same search with the first draw compared against output[1]: the same delegation, empty-range and cancel guarantees, and every reported seed, stepped once, passes the test against output[1] |
| `V8.V8Generator.SearchWindow` | PRNGs/PrngV8.cs:205-328 | the loop over State0's low 18 bits finishes (true when it runs out, false on a cancel) or raises, and reports only seeds whose successor passes the test against the given first expected value |
| `V8.LowStart` | PRNGs/PrngV8.cs:214 | the first candidate value of State0's low bits is below 2^18 |
| `V8.LowEnd` | PRNGs/PrngV8.cs:215 | the candidate window's end is below 2^18 |
| `V8.BlockSize` | PRNGs/PrngV8.cs:203 | a block size of 2 or more happens only for limits up to 2^15 |
| `V8.SecondOutputIgnored` | PRNGs/PrngV8.cs:201 | for the two outputs [1, 1] a candidate that draws a wrong output[1] still passes the test as written |
| `V8.CorrectedTestIsMatch` | PRNGs/PrngV8.cs:201-290 | comparing output[1] first and then the rest is exactly matching all outputs after the first |
| `V8.FirstExpected` | PRNGs/PrngV8.cs:201 | the first compared value is output[1] for more than two outputs and the wildcard otherwise |
| `V8.AsWrittenReportsMatch` | PRNGs/PrngV8.cs:201-303 | with more than two outputs, a seed the as-written search reports, stepped once, draws every output after the first |
| `V8.CorrectedReportsMatch` | PRNGs/PrngV8.cs:201-303 | a seed the corrected search reports, stepped once, draws every output after the first |
| `V8.AllReportedAppend` | PRNGs/PrngV8.cs:292-303 | reports from two stretches of the search together are still all seeds that pass the test |
| `V8.Discovery` | PRNGs/PrngV8.cs:294-297 | a candidate that passes the test is reported exactly when both states have predecessors and there is a callback, and the reported seed steps to the candidate |
| `V8.Distance` | PRNGs/PrngV8.cs:263 | the distance from the drawn to the expected output[1] is below the limit |
| `V8.SkipOf` | PRNGs/PrngV8.cs:266 | a distance above 1 gives a skip of at least two candidates |
| `V8.Report` | PRNGs/PrngV8.cs:292-303 | a candidate that passes the test against output1 is reported as such a seed; cancel gives false, and a candidate without a predecessor raises |
| `V8.Checkpoint` | PRNGs/PrngV8.cs:306-322 | a progress event is raised when the countdown reaches 0, and a cancel gives false |
| `V8.SkipLeft` | PRNGs/PrngV8.cs:237-251 | the pending skip advances the seed by whole candidate strides, at most to the end of the round |
| `V8.WindowHoldsOutputClass` | PRNGs/PrngV8.cs:213-215 | every output that scales to output[0] has its top 18 bits in [LowStart, LowEnd] |
| `Common.ScaleToLimitIsFloor` | PRNGs/PrngV8.cs:130 | the scaled output is the floor of value·limit / 2^32 |
| `V8.SearchPassesStateSpace` | PRNGs/PrngV8.cs:225-295 | the search can reach a candidate whose State0 has no predecessor, where the discovery report raises |
| `Mysql.Rnd` | PRNGs/PrngMysql.cs:119-122 | my_rnd's output is below the modulus, becomes the new Seed1, and the new Seed2 is below the modulus |
| `Mysql.RndForgetsTopOfSeed1` | PRNGs/PrngMysql.cs:83-85 | adding a third of the modulus to Seed1 changes nothing, because Seed1 is multiplied by 3 modulo a multiple of 3 |
| `Mysql.CannotReverse` | PRNGs/PrngMysql.cs:139-147 | CanReverse is false, and two distinct states step to the same output and state |
| `Mysql.SeedPair` | PRNGs/PrngMysql.cs:109-110 | Seed1 is the truncated quotient and Seed2 the remainder of the seed by the modulus |
| `Mysql.SeedSpaceIsReducedPairs` | PRNGs/PrngMysql.cs:79-87 | seeds up to MaximumSeed are exactly the pairs with Seed1 below a third of the modulus |
| `Mysql.MysqlGenerator.constructor` | PRNGs/PrngMysql.cs:61-63 | a new generator has both seeds 0 |
| `Mysql.MysqlGenerator.Seed32` | PRNGs/PrngMysql.cs:89-96 | seed_random sets both seeds from a 32-bit seed with wrapped uint products, reduced by the modulus |
| `Mysql.MysqlGenerator.Seed` | PRNGs/PrngMysql.cs:98-112 | Seed splits the seed into the pair, and a seed up to MaximumSeed is Seed1·modulus + Seed2 |
| `Mysql.MysqlGenerator.Next` | PRNGs/PrngMysql.cs:114-126 | Next computes my_rnd with uint arithmetic, and on reduced seeds it equals Rnd |
| `Mysql.MysqlGenerator.NextLimit` | PRNGs/PrngMysql.cs:128-137 | Next(limit) scales the output by limit / modulus with a 64-bit product, below any limit up to 2^34 |
| `Mysql.ScaledBelowLimit` | PRNGs/PrngMysql.cs:135 | the scaled value is the floor of next·limit / modulus, below the limit |
| `Mssql.InverseConstants` | PRNGs/PrngMssql.cs:45-46 | 2082061899 is the inverse of 40014 modulo 2147483563 and 1481316021 that of 40692 modulo 2147483399 |
| `Mssql.AsInt32OfWrapped` | PRNGs/PrngMssql.cs:135 | reading a wrapped uint difference as an int gives the signed difference back |
| `Mssql.Combine` | PRNGs/PrngMssql.cs:157-160 | the output of two in-range states lies in [1, M0 - 1] and is congruent to State0 - State1 modulo M0 - 1 |
| `Mssql.CombineOfStates` | PRNGs/PrngMssql.cs:135-138 | the signed difference with M0 - 1 added when it is not positive lies in [1, M0 - 1] and has the same residue |
| `Mssql.Step0` | PRNGs/PrngMssql.cs:132 | the first state's 64-bit product reduced by M0 is its Lehmer step |
| `Mssql.Step1` | PRNGs/PrngMssql.cs:133 | the second state's 64-bit product reduced by M1 is its Lehmer step |
| `Mssql.NextFromStates` | PRNGs/PrngMssql.cs:128-140 | NextFromStates lies in [1, M0 - 1] and is congruent to the difference of the stepped states |
| `Mssql.StepRoundTrip` | PRNGs/PrngMssql.cs:183-195 | multiplying by the stored inverses undoes a step of either state and the other way round |
| `Mssql.LehmerStepRoundTrip` | PRNGs/PrngMssql.cs:190-191 | a Lehmer step by an inverse multiplier undoes the step by the multiplier, both ways |
| `Mssql.SeedToStates` | PRNGs/PrngMssql.cs:102-110 | State0 is the truncated quotient and State1 the remainder of the seed by M1 |
| `Mssql.SeedFromStates` | PRNGs/PrngMssql.cs:112-115 | the composed seed wraps into 64 bits |
| `Mssql.SeedRoundTrip` | PRNGs/PrngMssql.cs:102-115 | composing the split of a seed up to MaximumSeed gives it back, and splitting composed in-range states gives them back |
| `Mssql.SeekStatesRoundTrip` | PRNGs/PrngMssql.cs:216-239 | seeking n back after n ahead, or ahead after back, returns to the start states, and seeking 1 ahead is one step of each state |
| `Mssql.SeekSeedRoundTrip` | PRNGs/PrngMssql.cs:264-282 | SeekSeedBack(SeekSeedAhead(s, n), n) = s and the other way round for every seed up to MaximumSeed |
| `Mssql.SeekLehmer` | PRNGs/PrngMssql.cs:226-231 | raising the multiplier to the offset with ExpMod and multiplying the state is offset Lehmer steps |
| `Mssql.PowerTimesState` | PRNGs/PrngMssql.cs:230 | the 64-bit wrapped product of a^n mod m and the state, reduced by m, is n steps |
| `Mssql.SeekStateInternal` | PRNGs/PrngMssql.cs:218-239 | SeekStateInternal computes SeekStates: the offset reduced modulo the period, then that many steps of each state, and any offset that is not a multiple of the period leaves in-range states |
| `Mssql.LehmerPeriod` | PRNGs/PrngMssql.cs:216-221 | once the multiplier raised to p is 1 modulo m, k * p + n Lehmer steps land where n steps land, which is what makes dropping whole periods from the offset harmless |
| `Mssql.SeekStatesIsIterate` | PRNGs/PrngMssql.cs:216-239 | given that each multiplier in use raised to its modulus minus 1 is 1, SeekStates with the offset reduced modulo (M0 - 1)(M1 - 1) is exactly offset steps of each state, ahead or back |
| `Mssql.MssqlGenerator.constructor` | PRNGs/PrngMssql.cs:50-52 | a new generator has both states 0 |
| `Mssql.MssqlGenerator.Seed` | PRNGs/PrngMssql.cs:77-100 | Seed splits the seed, replaces State0 outside [1, M0) with 12345 and State1 = 0 with 67890, and keeps a valid seed unchanged |
| `Mssql.MssqlGenerator.Seed32` | PRNGs/PrngMssql.cs:117-126 | Seed32 uses the seed as State0 (12345 when it is 0 or at least M0) and 67890 as State1 |
| `Mssql.MssqlGenerator.Next` | PRNGs/PrngMssql.cs:150-162 | Next steps both states and returns their combination, which NextFromStates also gives, in [1, M0 - 1] |
| `Mssql.MssqlGenerator.Previous` | PRNGs/PrngMssql.cs:183-195 | Previous returns the current combination and steps both states back so that Next returns that value again |
| `Mssql.MssqlGenerator.SeekAhead` | PRNGs/PrngMssql.cs:246-249 | SeekAhead moves both states as SeekStates says, one step each for offset 1 |
| `Mssql.MssqlGenerator.SeekBack` | PRNGs/PrngMssql.cs:251-254 | SeekBack moves both states to the ones from which seeking ahead returns the old states |
| `Mssql.MssqlGenerator.SeekSeedAhead` | PRNGs/PrngMssql.cs:264-272 | SeekSeedAhead returns the seed of the states offset steps ahead |
| `Mssql.MssqlGenerator.SeekSeedBack` | PRNGs/PrngMssql.cs:274-282 | SeekSeedBack returns a seed from which SeekSeedAhead gives the given seed |
| `Vbscript.InverseConstants` | PRNGs/PrngVbscript.cs:41-46 | 0x093155 is the inverse of 0xFD43FD modulo 2^24 and 0xCDF641 is the negated increment times it |
| `Vbscript.NextState` | PRNGs/PrngVbscript.cs:118 | the wrapped uint state·M + c masked to 24 bits is the recurrence step of the 24-bit state |
| `Vbscript.PreviousState` | PRNGs/PrngVbscript.cs:140-143 | the wrapped (state - c)·M⁻¹ masked to 24 bits is the backward step |
| `Vbscript.StepRoundTrip` | PRNGs/PrngVbscript.cs:140-150 | PreviousState undoes NextState and NextState undoes PreviousState on 24-bit states |
| `Vbscript.SeekBackUndoesAhead` | PRNGs/PrngVbscript.cs:164-172 | n backward steps undo n forward steps and the other way round |
| `Vbscript.VbscriptGenerator.constructor` | PRNGs/PrngVbscript.cs:48-50 | a new generator has the state 0 |
| `Vbscript.VbscriptGenerator.Seed` | PRNGs/PrngVbscript.cs:106-112 | Seed keeps the low 24 bits, which lie between MinimumSeed and MaximumSeed |
| `Vbscript.VbscriptGenerator.Next` | PRNGs/PrngVbscript.cs:114-122 | Next takes one step and returns the new state |
| `Vbscript.VbscriptGenerator.Previous` | PRNGs/PrngVbscript.cs:145-150 | Previous returns the current state and moves to the state whose step gives it |
| `Vbscript.VbscriptGenerator.SeekAhead` | PRNGs/PrngVbscript.cs:164-167 | SeekAhead moves offset steps ahead |
| `Vbscript.VbscriptGenerator.SeekBack` | PRNGs/PrngVbscript.cs:169-172 | SeekBack moves to the state from which offset steps lead to the old state |
| `Vbscript.VbscriptGenerator.SeekSeedAhead` | PRNGs/PrngVbscript.cs:174-177 | offset 0 returns the seed truncated to 32 bits; otherwise the 24-bit state offset steps ahead, one step for offset 1 |
| `Vbscript.VbscriptGenerator.SeekSeedBack` | PRNGs/PrngVbscript.cs:179-182 | offset 0 returns the seed truncated to 32 bits; otherwise the state from which offset steps lead to the seed's state |
| `Vbscript.RangeStart` | PRNGs/PrngVbscript.cs:199 | the rounded-up lower bound fits in 64 bits |
| `Vbscript.RangeEnd` | PRNGs/PrngVbscript.cs:200 | the upper bound fits in 64 bits |
| `Vbscript.RangeUnwrapped` | PRNGs/PrngVbscript.cs:199-200 | without 64-bit overflow the bounds are the exact ceilings of 16777215·o / l and 16777216·(o + 1) / l |
| `Vbscript.ScaledBracket` | PRNGs/PrngVbscript.cs:198 | any output scale between 1/16777216 and 1/16777215 brackets the state between 16777215·o and 16777216·(o + 1) |
| `Vbscript.OutputOfStateIsSmall` | PRNGs/PrngVbscript.cs:186-200 | an output of a 24-bit state is small enough that the upper bound does not overflow |
| `Vbscript.RangeIsOutputClass` | PRNGs/PrngVbscript.cs:198-200 | every state whose scaled output is o lies in the range, and every state of the range scales to o at one of the two extreme factors |
| `Vbscript.RangeCoversOutput` | PRNGs/PrngVbscript.cs:198-200 | a state whose scaled output is output[0] lies in the range |
| `Vbscript.Narrowed` | PRNGs/PrngVbscript.cs:194-217 | the narrowed request goes to the generic search with the wrapper callback, the rest of the output, the same stride, limit and wildcard, and an end no later than seedEnd or the range end |
| `Vbscript.RecoverSeed` | PRNGs/PrngVbscript.cs:184-219 | unsuitable requests go on unchanged, an empty range or zero stride gives false, and otherwise it raises exactly when the limit truncated to a uint is 0 and narrows the search when it does not |
| `Vbscript.TruncatedLimitRaises` | PRNGs/PrngVbscript.cs:199 | a limit of 2^32 raises DivideByZeroException |
| `Vbscript.RecoverSeedCorrected` | PRNGs/PrngVbscript.cs:184-219 | with limits of 2^32 and more sent to the generic search, RecoverSeed never raises and agrees with the as-written one elsewhere |
| `Vbscript.CorrectedSearchKeepsOutputClass` | PRNGs/PrngVbscript.cs:199-217 | every stride seed of the request whose scaled first output is output[0] stays in the search the corrected RecoverSeed hands on |
| `Vbscript.NarrowedKeepsOutputClass` | PRNGs/PrngVbscript.cs:199-214 | the clamp and stride alignment keep every stride seed whose scaled first output is output[0] |
| `Vbscript.CandidateReproducesFirstState` | PRNGs/PrngVbscript.cs:217-229 | the seed the wrapper callback, which replaces a discovered seed by the predecessor of its low 32 bits, reports for a 24-bit candidate is a valid seed whose step is the candidate |
| `Matrices.ProductResidues` | PRNGs/PrngGlibc3.cs:378-394 | reducing the factors modulo m does not change the residues of the product, so wrapping uint accumulation is sound |
| `Matrices.ProductAssociative` | PRNGs/PrngGlibc3.cs:307-320 | matrix products are associative, so the order of the squarings and multiplications does not matter |
| `Matrices.PowerAdd` | PRNGs/PrngGlibc3.cs:307-320 | A^a·A^b = A^(a+b), the identity the square-and-multiply loop rests on |
| `Matrices.PowerStep` | PRNGs/PrngGlibc3.cs:311-318 | a product of matrices holding A^a and A^b modulo m holds A^(a+b) modulo m |
| `Matrices.ApplyResidues` | PRNGs/PrngGlibc3.cs:326-338 | applying matrices with equal residues to the lanes gives equal residues |
| `Matrices.ProductIdentity` | PRNGs/PrngGlibc3.cs:301-302 | the identity matrix the seek matrix starts from is neutral on both sides |
| `Matrices.ApplyProduct` | PRNGs/PrngGlibc3.cs:326-338 | applying a product of two matrices to the lanes modulo m is applying one after the other, so a power of the block matrix is that many blocks |
| `Glibc3.Forward` | PRNGs/PrngGlibc3.cs:141-152 | Next on the state value keeps 31 lanes of 32 bits and cursors in range |
| `Glibc3.Backward` | PRNGs/PrngGlibc3.cs:175-188 | Previous on the state value keeps 31 lanes of 32 bits and cursors in range |
| `Glibc3.BackwardUndoesForward` | PRNGs/PrngGlibc3.cs:175-188 | Previous after Next restores the lanes and both cursors and returns the value Next returned, whenever the cursors differ |
| `Glibc3.ForwardUndoesBackward` | PRNGs/PrngGlibc3.cs:141-152 | Next after Previous restores the state and returns the value Previous returned |
| `Glibc3.StepsKeepCursorGap` | PRNGs/PrngGlibc3.cs:134-135 | fptr = rptr + 3 (mod 31) is kept by Next and Previous, so the cursors always differ |
| `Glibc3.WalkCursors` | PRNGs/PrngGlibc3.cs:147-148 | n Next calls move both cursors n lanes on, modulo 31 |
| `Glibc3.WalkBackCursors` | PRNGs/PrngGlibc3.cs:179-180 | n Previous calls move both cursors n lanes back, modulo 31 |
| `Glibc3.WalkBackUndoesWalk` | PRNGs/PrngGlibc3.cs:279-291 | n Previous calls undo n Next calls and keep the cursor gap |
| `Glibc3.SeedLane` | PRNGs/PrngGlibc3.cs:126-131 | each lane of the seeding fill is a 32-bit value |
| `Glibc3.SeedLaneIsMinimalStandard` | PRNGs/PrngGlibc3.cs:128-131 | lane i of the fill is 16807^i times the truncated seed modulo 2^31 - 1 |
| `Glibc3.SeededCursors` | PRNGs/PrngGlibc3.cs:134-138 | after the fill and the 310 discards fptr is 3 and rptr 0, so the cursor gap holds |
| `Glibc3.AheadPlanAddsUp` | PRNGs/PrngGlibc3.cs:219-242 | alignment + 31·blocks + residual is the offset, alignment brings rptr to 0 and the residual is at most 15 steps either way |
| `Glibc3.BackPlanAddsUp` | PRNGs/PrngGlibc3.cs:253-276 | alignment + 31·blocks - residual is the offset, alignment is rptr and the residual is at most 15 steps either way |
| `Glibc3.GenerateNextMatrix` | PRNGs/PrngGlibc3.cs:343-356 | the generated matrix has every-third ones on and below the diagonal, with rows 28-30 added into rows 0-2 |
| `Glibc3.GeneratePreviousMatrix` | PRNGs/PrngGlibc3.cs:358-376 | the generated matrix is the documented inverse pattern, with -1 written as 2^32 - 1 |
| `Glibc3.MultiplyMatrix` | PRNGs/PrngGlibc3.cs:378-394 | each destination entry is the row-by-column product modulo 2^32 |
| `Glibc3.DotEntry` | PRNGs/PrngGlibc3.cs:384-391 | the wrapping accumulator is the dot product modulo 2^32 |
| `Glibc3.CloneMatrix` | PRNGs/PrngGlibc3.cs:296 | the clone holds the same entries in a fresh matrix |
| `Glibc3.MatrixPower` | PRNGs/PrngGlibc3.cs:296-324 | the square-and-multiply loop leaves the blockOffset-th power of the matrix modulo 2^32 |
| `Glibc3.PowerBuffers` | PRNGs/PrngGlibc3.cs:296-302 | the four distinct buffers start as the identity and the matrix |
| `Glibc3.MultiplyPowers` | PRNGs/PrngGlibc3.cs:311-318 | multiplying buffers holding A^a and A^b leaves A^(a+b) modulo 2^32 |
| `Glibc3.Glibc3Generator.constructor` | PRNGs/PrngGlibc3.cs:94-98 | a new generator has zero lanes and cursors and builds both matrices |
| `Glibc3.Glibc3Generator.Next` | PRNGs/PrngGlibc3.cs:141-152 | Next adds the rear lane into the front lane modulo 2^32, advances both cursors and returns the new value >> 1 |
| `Glibc3.Glibc3Generator.NextLimit` | PRNGs/PrngGlibc3.cs:154-165 | Next(limit) steps once and reduces modulo a limit in (0, 0x7FFFFFFF], otherwise returns the value unchanged |
| `Glibc3.Glibc3Generator.Previous` | PRNGs/PrngGlibc3.cs:175-188 | Previous moves both cursors back, returns the front lane >> 1 and subtracts the rear lane from it |
| `Glibc3.Glibc3Generator.PreviousLimit` | PRNGs/PrngGlibc3.cs:190-201 | Previous(limit) steps back once and reduces like Next(limit) |
| `Glibc3.Glibc3Generator.Seed` | PRNGs/PrngGlibc3.cs:122-139 | Seed fills the Park-Miller lanes, sets the cursors to 3 and 0 and discards 310 outputs |
| `Glibc3.Glibc3Generator.Step` | PRNGs/PrngGlibc3.cs:279-291 | Step calls Previous for a negative offset and Next for a positive one, that many times |
| `Glibc3.Glibc3Generator.BlockSeek` | PRNGs/PrngGlibc3.cs:293-341 | the lanes become the blockOffset-th power of the matrix applied to the old lanes, modulo 2^32 |
| `Glibc3.Glibc3Generator.SeekLanes` | PRNGs/PrngGlibc3.cs:326-338 | every new lane is the seek matrix row times the lanes, modulo 2^32 |
| `Glibc3.Glibc3Generator.RowTimesLanes` | PRNGs/PrngGlibc3.cs:330-337 | the wrapping accumulator is the row times the lanes modulo 2^32 |
| `Glibc3.Glibc3Generator.SeekAhead` | PRNGs/PrngGlibc3.cs:211-243 | offsets below 31 are that many Next calls; larger offsets are the alignment walk, the block seek with the Next matrix and the residual steps |
| `Glibc3.Glibc3Generator.JumpAhead` | PRNGs/PrngGlibc3.cs:228-242 | the rest of the offset is split into blocks and at most 15 residual steps |
| `Glibc3.Glibc3Generator.SeekBack` | PRNGs/PrngGlibc3.cs:245-277 | offsets below 31 are that many Previous calls; larger offsets are the alignment walk back, the block seek with the Previous matrix and the residual steps |
| `Glibc3.Glibc3Generator.JumpBack` | PRNGs/PrngGlibc3.cs:262-276 | the rest of the offset is split into blocks and at most 15 residual steps |
| `Glibc3Blocks.StepLanes` | PRNGs/PrngGlibc3.cs:141-152 | from rptr 0, the n-th Next call turns the lanes after n-1 calls into the lanes after n calls: lane n+2 becomes its old value plus the every-third sum below it, modulo 2^32 |
| `Glibc3Blocks.WalkLanes` | PRNGs/PrngGlibc3.cs:141-152 | from rptr 0, after n ≤ 31 Next calls each lane already passed holds its block value and every other lane is unchanged |
| `Glibc3Blocks.PrefixCursors` | PRNGs/PrngGlibc3.cs:147-148 | from rptr 0, after n Next calls the cursors are (n+3) mod 31 and n mod 31 |
| `Glibc3Blocks.DotNextRow` | PRNGs/PrngGlibc3.cs:343-356 | a row of the next-matrix built from the every-third ones picks out the every-third sum of the lanes |
| `Glibc3Blocks.RowSumIsThirdSum` | PRNGs/PrngGlibc3.cs:347-353 | the row sum, including the rows 0 to 2 that add rows 28 to 30, equals the block value of the lane |
| `Glibc3Blocks.NextMatrixIsBlock` | PRNGs/PrngGlibc3.cs:343-356 | applying the next-matrix modulo 2^32 gives each lane its block value |
| `Glibc3Blocks.NextBlockIsWalk` | PRNGs/PrngGlibc3.cs:343-356 | from rptr 0, 31 Next calls map the lanes exactly as the next-matrix does modulo 2^32 and leave the cursors where they were |
| `Glibc3Blocks.BackStepLanes` | PRNGs/PrngGlibc3.cs:175-188 | the k-th Previous call from rptr 0 subtracts the lane at the read cursor from the lane at the front cursor, turning the k-1 partial undo into the k partial undo |
| `Glibc3Blocks.WalkBackLanes` | PRNGs/PrngGlibc3.cs:175-188 | from rptr 0, after k ≤ 31 Previous calls the lanes passed hold their undone value and the others are unchanged |
| `Glibc3Blocks.BackCursors` | PRNGs/PrngGlibc3.cs:179-180 | from rptr 0, the k-th Previous call writes lane (3-k) mod 31 and reads lane (-k) mod 31 |
| `Glibc3Blocks.DotPreviousRow` | PRNGs/PrngGlibc3.cs:358-376 | row t of the previous-matrix applied to the lanes is the sum of the lanes its 1 entries pick out plus 2^32-1 times those its 2^32-1 entries pick out |
| `Glibc3Blocks.PreviousMatrixIsBlockBack` | PRNGs/PrngGlibc3.cs:358-376 | applying the previous-matrix modulo 2^32 gives each lane its undone value |
| `Glibc3Blocks.PreviousBlockIsWalkBack` | PRNGs/PrngGlibc3.cs:358-376 | from rptr 0, 31 Previous calls map the lanes exactly as the previous-matrix does modulo 2^32 and leave the cursors |
| `Glibc3Blocks.PreviousUndoesNext` | PRNGs/PrngGlibc3.cs:358-376 | the previous-matrix undoes the next-matrix on every lane vector modulo 2^32 |
| `Glibc3Blocks.WalkAdd` | PRNGs/PrngGlibc3.cs:279-291 | a steps then b steps forward equal a+b steps |
| `Glibc3Blocks.WalkBackAdd` | PRNGs/PrngGlibc3.cs:279-291 | a steps then b steps back equal a+b steps back |
| `Glibc3Blocks.WalkUndoesWalkBack` | PRNGs/PrngGlibc3.cs:279-291 | n Previous calls followed by n Next calls restore the state |
| `Glibc3Blocks.WalkPeel` | PRNGs/PrngGlibc3.cs:279-291 | n+1 steps are one step followed by n steps |
| `Glibc3Blocks.JumpIsWalk` | PRNGs/PrngGlibc3.cs:293-341 | from rptr 0, a block seek of b blocks with the next-matrix equals 31·b Next calls |
| `Glibc3Blocks.JumpBackIsWalkBack` | PRNGs/PrngGlibc3.cs:293-341 | from rptr 0, a block seek of b blocks with the previous-matrix equals 31·b Previous calls |
| `Glibc3Blocks.AheadPlanIsWalk` | PRNGs/PrngGlibc3.cs:211-243 | the alignment walk, matrix jump and residual walk of SeekAhead together equal offset Next calls |
| `Glibc3Blocks.AlignedJumpIsWalk` | PRNGs/PrngGlibc3.cs:219-242 | aligning with a steps, jumping b blocks and stepping a residual r equals a + 31·b + r Next calls |
| `Glibc3Blocks.AlignedBlocks` | PRNGs/PrngGlibc3.cs:228-240 | a block jump after a steps from rptr 0 equals 31·b more Next calls |
| `Glibc3Blocks.ResidualIsWalk` | PRNGs/PrngGlibc3.cs:242 | a forward residual after the jump adds that many Next calls |
| `Glibc3Blocks.OvershootIsWalk` | PRNGs/PrngGlibc3.cs:230-242 | jumping one block too far and stepping back k equals the offset in Next calls |
| `Glibc3Blocks.BackPlanIsWalkBack` | PRNGs/PrngGlibc3.cs:245-277 | the alignment walk, matrix jump and residual walk of SeekBack together equal offset Previous calls |
| `Glibc3Blocks.AlignedJumpBackIsWalkBack` | PRNGs/PrngGlibc3.cs:253-276 | aligning backward with a = rptr steps, jumping b blocks back and stepping a residual r equals a + 31·b - r Previous calls |
| `Glibc3Blocks.AlignedBlocksBack` | PRNGs/PrngGlibc3.cs:262-274 | a backward block jump after a Previous calls from rptr 0 equals 31·b more Previous calls |
| `Glibc3Blocks.ResidualIsWalkBack` | PRNGs/PrngGlibc3.cs:276 | a backward residual after the jump adds that many Previous calls |
| `Glibc3Blocks.OvershootIsWalkBack` | PRNGs/PrngGlibc3.cs:264-276 | jumping one block too far back and stepping forward k equals the offset in Previous calls |
| `DotNetBase.Wrap` | PRNGs/PrngDotNetBase.cs:207-216 | unchecked int arithmetic gives the int congruent to the exact result modulo 2^32, and leaves an int-range result alone |
| `DotNetBase.WrapCongruent` | PRNGs/PrngDotNetBase.cs:207-216 | an int congruent to the exact result is the wrapped result |
| `DotNetBase.Subtract` | PRNGs/PrngDotNetBase.cs:212-214 | the subtraction with MBIG added back when negative is subtraction modulo MBIG on in-range lanes |
| `DotNetBase.AddBackInRange` | PRNGs/PrngDotNetBase.cs:242-244 | the addition with MBIG taken off when the uint is at least MBIG is addition modulo MBIG on in-range lanes |
| `DotNetBase.AddBackUndoesSubtract` | PRNGs/PrngDotNetBase.cs:240-244 | Previous's addition undoes Next's subtraction on an in-range lane |
| `DotNetBase.SubtractUndoesAddBack` | PRNGs/PrngDotNetBase.cs:212-216 | Next's subtraction undoes Previous's addition on an in-range lane |
| `DotNetBase.Forward` | PRNGs/PrngDotNetBase.cs:201-223 | Next on the state value keeps 56 int lanes and leaves both cursors in 1..55 |
| `DotNetBase.Backward` | PRNGs/PrngDotNetBase.cs:233-251 | Previous on the state value keeps 56 int lanes and leaves both cursors in 1..55 |
| `DotNetBase.NextKeepsRange` | PRNGs/PrngDotNetBase.cs:212-216 | when lanes 1..55 lie in [0, MBIG), Next keeps them there and returns the new lane, below MBIG |
| `DotNetBase.PreviousKeepsRange` | PRNGs/PrngDotNetBase.cs:240-249 | Previous keeps lanes 1..55 in [0, MBIG) and returns a value below MBIG |
| `DotNetBase.StepsKeepCursorGap` | PRNGs/PrngDotNetBase.cs:197-198 | inextp = inext + 21 (mod 55) is kept by Next and Previous, so the two cursors never meet |
| `DotNetBase.BackwardUndoesForward` | PRNGs/PrngDotNetBase.cs:233-251 | Previous after Next restores the lanes and the cursors (0 read as 55) and returns the value Next returned |
| `DotNetBase.ForwardUndoesBackward` | PRNGs/PrngDotNetBase.cs:201-223 | Next after Previous restores the state and returns the value Previous returned |
| `DotNetBase.Walk` | PRNGs/PrngDotNetBase.cs:336-340 | n Next calls keep the state shaped and make inextp non-zero |
| `DotNetBase.WalkBack` | PRNGs/PrngDotNetBase.cs:331-335 | n Previous calls keep the state shaped |
| `DotNetBase.Steps` | PRNGs/PrngDotNetBase.cs:329-341 | Step by a signed offset keeps the state shaped |
| `DotNetBase.WalkCursors` | PRNGs/PrngDotNetBase.cs:209-210 | n Next calls move both cursors n positions on in the cycle of 55 |
| `DotNetBase.WalkBackCursors` | PRNGs/PrngDotNetBase.cs:246-247 | n Previous calls move both cursors n positions back in the cycle of 55 |
| `DotNetBase.WalkKeepsRange` | PRNGs/PrngDotNetBase.cs:212-216 | any number of Next calls keeps the lanes in range and the cursor gap |
| `DotNetBase.WalkBackUndoesWalk` | PRNGs/PrngDotNetBase.cs:329-341 | n Previous calls undo n Next calls |
| `DotNetBase.SeedKey` | PRNGs/PrngDotNetBase.cs:167 | the seed masked to 31 bits is a non-negative int |
| `DotNetBase.Fill` | PRNGs/PrngDotNetBase.cs:174-184 | the fill keeps 56 int lanes and int mj, mk |
| `DotNetBase.MixStep` | PRNGs/PrngDotNetBase.cs:190-192 | one mixing subtraction keeps 56 int lanes |
| `DotNetBase.Mix` | PRNGs/PrngDotNetBase.cs:186-194 | the mixing passes keep 56 int lanes |
| `DotNetBase.MixAt` | PRNGs/PrngDotNetBase.cs:188-193 | within a pass, mixing step c + i updates lane i |
| `DotNetBase.SeededLanes` | PRNGs/PrngDotNetBase.cs:160-195 | the seeded lanes are 56 ints |
| `DotNetBase.SeededState` | PRNGs/PrngDotNetBase.cs:160-199 | after Seed the cursors are 0 and 21, so the cursor gap holds |
| `DotNetBase.InverseOf21` | PRNGs/PrngDotNetBase.cs:179 | i ↦ 21·i mod 55 is a bijection of 1..54 onto itself, with itself as inverse |
| `DotNetBase.FillFrame` | PRNGs/PrngDotNetBase.cs:177-184 | lanes the fill has not yet written keep their old values |
| `DotNetBase.FillAgrees` | PRNGs/PrngDotNetBase.cs:177-184 | the fill's written lanes and mj, mk do not depend on the old lanes |
| `DotNetBase.FillInRange` | PRNGs/PrngDotNetBase.cs:174-184 | the fill writes only values in [0, MBIG) |
| `DotNetBase.FillWritesAll` | PRNGs/PrngDotNetBase.cs:177-180 | the 54 fill iterations, with lane 55, write every lane 1..55 |
| `DotNetBase.MixKeepsRange` | PRNGs/PrngDotNetBase.cs:190-192 | the mixing keeps lanes 1..55 in [0, MBIG) |
| `DotNetBase.SeedIgnoresHistory` | PRNGs/PrngDotNetBase.cs:160-195 | Seed's lanes depend only on the seed (and the unused lane 0), not on the earlier state |
| `DotNetBase.SeededInRange` | PRNGs/PrngDotNetBase.cs:160-195 | a seed whose key is at most MSEED leaves lanes 1..55 in [0, MBIG) |
| `DotNetBase.AheadPlanAddsUp` | PRNGs/PrngDotNetBase.cs:269-292 | alignment + 55·blocks + residual is the offset, alignment brings inext to 0 or 55 and the residual is at most 27 steps either way |
| `DotNetBase.BackPlanAddsUp` | PRNGs/PrngDotNetBase.cs:303-326 | alignment + 55·blocks - residual is the offset, alignment is inext's position and the residual is at most 27 steps either way |
| `DotNetBase.BlockTerm` | PRNGs/PrngDotNetBase.cs:384 | each accumulated term is reduced below MBIG |
| `DotNetBase.JumpLanes` | PRNGs/PrngDotNetBase.cs:376-391 | the block seek writes 55 lanes in [0, MBIG) |
| `DotNetBase.BlockState` | PRNGs/PrngDotNetBase.cs:376-391 | the block seek changes the lanes only, not the cursors |
| `DotNetBase.Jump` | PRNGs/PrngDotNetBase.cs:343-392 | a seek by whole blocks leaves the cursors where they were |
| `DotNetBase.RowSumIsDot` | PRNGs/PrngDotNetBase.cs:380-386 | the accumulator that subtracts MBIG whenever it reaches it is the row-times-lanes product modulo MBIG |
| `DotNetBase.BlockStateIsProduct` | PRNGs/PrngDotNetBase.cs:376-391 | lanes 1..55 after the block seek are the matrix times the old lanes modulo MBIG, and lane 0 is untouched |
| `DotNetBase.GenerateNextMatrix` | PRNGs/PrngDotNetBase.cs:394-412 | the generated matrix is the documented 55-step transition pattern, with -1 written as MBIG - 1 |
| `DotNetBase.GeneratePreviousMatrix` | PRNGs/PrngDotNetBase.cs:414-497 | the generated matrix is the documented inverse pattern |
| `DotNetBase.MultiplyMatrix` | PRNGs/PrngDotNetBase.cs:499-516 | each destination entry is the row-by-column product modulo MBIG, below MBIG |
| `DotNetBase.DotEntry` | PRNGs/PrngDotNetBase.cs:505-513 | the accumulator never reaches 2·MBIG and ends as the dot product modulo MBIG |
| `DotNetBase.CloneMatrix` | PRNGs/PrngDotNetBase.cs:346 | the clone holds the same entries in a fresh matrix |
| `DotNetBase.MatrixPower` | PRNGs/PrngDotNetBase.cs:346-374 | the square-and-multiply loop leaves the blockOffset-th power of the matrix modulo MBIG |
| `DotNetBase.PowerBuffers` | PRNGs/PrngDotNetBase.cs:346-352 | the four distinct buffers start as the identity and the matrix |
| `DotNetBase.MultiplyPowers` | PRNGs/PrngDotNetBase.cs:361-368 | multiplying buffers holding M^a and M^b leaves M^(a+b) modulo MBIG |
| `DotNetBase.DotNetGenerator.constructor` | PRNGs/PrngDotNetBase.cs:132-136 | a new generator has zero lanes and cursors and builds both matrices |
| `DotNetBase.DotNetGenerator.Seed` | PRNGs/PrngDotNetBase.cs:160-199 | Seed leaves the seeded state: the Knuth fill, four mixing passes, inext 0 and inextp 21 |
| `DotNetBase.DotNetGenerator.FillLanes` | PRNGs/PrngDotNetBase.cs:174-184 | the fill loop leaves the lanes Fill describes |
| `DotNetBase.DotNetGenerator.MixPass` | PRNGs/PrngDotNetBase.cs:188-193 | one pass of the mixing loop performs the next 55 mixing steps |
| `DotNetBase.DotNetGenerator.Next` | PRNGs/PrngDotNetBase.cs:201-223 | Next advances both cursors (56 wraps to 1), stores the lane difference modulo MBIG and returns it |
| `DotNetBase.DotNetGenerator.Previous` | PRNGs/PrngDotNetBase.cs:233-251 | Previous returns the current lane, adds the inextp lane back and moves both cursors back |
| `DotNetBase.DotNetGenerator.Step` | PRNGs/PrngDotNetBase.cs:329-341 | Step calls Previous for a negative offset and Next for a positive one, that many times |
| `DotNetBase.DotNetGenerator.BlockSeek` | PRNGs/PrngDotNetBase.cs:343-392 | lanes 1..55 become the blockOffset-th power of the matrix applied to them, modulo MBIG |
| `DotNetBase.DotNetGenerator.SeekLanes` | PRNGs/PrngDotNetBase.cs:376-389 | every new lane is the reduced row-times-lanes sum |
| `DotNetBase.DotNetGenerator.RowTimesLanes` | PRNGs/PrngDotNetBase.cs:380-386 | the accumulator is the reduced row-times-lanes sum |
| `DotNetBase.DotNetGenerator.SeekAhead` | PRNGs/PrngDotNetBase.cs:261-293 | offsets below 55 are that many Next calls; larger ones are the alignment walk, the block seek with the Next matrix and the residual steps |
| `DotNetBase.DotNetGenerator.JumpAhead` | PRNGs/PrngDotNetBase.cs:278-292 | the rest of the offset is split into blocks and at most 27 residual steps |
| `DotNetBase.DotNetGenerator.SeekBack` | PRNGs/PrngDotNetBase.cs:295-327 | offsets below 55 are that many Previous calls; larger ones are the alignment walk back, the block seek with the Previous matrix and the residual steps |
| `DotNetBase.DotNetGenerator.JumpBack` | PRNGs/PrngDotNetBase.cs:312-326 | the rest of the offset is split into blocks and at most 27 residual steps |
| `DotNetMod.Reduced` | PRNGs/PrngDotNetMod.cs:49-56 | a limit in (0, MBIG) reduces below the limit; a limit of 0 or at least MBIG leaves the value alone |
| `DotNetMod.ReducedCongruent` | PRNGs/PrngDotNetMod.cs:53-54 | the reduction takes away only whole multiples of the limit |
| `DotNetMod.ReducedInRange` | PRNGs/PrngDotNetMod.cs:49-56 | the reduced output of an in-range state is below MBIG and below any limit in (0, MBIG) |
| `DotNetMod.NextLimit` | PRNGs/PrngDotNetMod.cs:49-56 | Next(limit) changes the state exactly as one Next does and returns the reduced value |
| `DotNetMod.PreviousLimit` | PRNGs/PrngDotNetMod.cs:58-65 | Previous(limit) as written also changes the state exactly as one Next does and returns the reduced Next value |
| `DotNetMod.PreviousLimitDoesNotUndo` | PRNGs/PrngDotNetMod.cs:58-65 | Next(limit) followed by the as-written Previous(limit) does not return to the starting state |
| `DotNetMod.PreviousLimitCorrected` | PRNGs/PrngDotNetMod.cs:58-65 | the intended Previous(limit) steps back once and returns the reduced Previous value |
| `DotNetMod.CorrectedPreviousLimitUndoes` | PRNGs/PrngDotNetMod.cs:58-65 | the intended Previous(limit) undoes Next(limit) and returns the same reduced value |
| `DotNetBlocks.StepLanes` | PRNGs/PrngDotNetBase.cs:201-223 | from an aligned cursor, the n-th Next call subtracts lane ReadLane(n) from lane n modulo MBIG, turning the lanes after n-1 calls into the lanes after n calls; SeedArray[0] is untouched |
| `DotNetBlocks.PrefixCursors` | PRNGs/PrngDotNetBase.cs:209-210 | from an aligned cursor, the n-th Next call writes lane n and reads lane n+21 (n ≤ 34) or n-34 |
| `DotNetBlocks.WalkLanes` | PRNGs/PrngDotNetBase.cs:201-223 | from an aligned cursor, after n ≤ 55 Next calls the lanes passed hold their block value and the rest are unchanged |
| `DotNetBlocks.DotNextRow` | PRNGs/PrngDotNetBase.cs:394-412 | row t of the next-matrix, with its 1 and MBIG-1 entries, applied to the lanes is the matching sum |
| `DotNetBlocks.NextMatrixIsBlock` | PRNGs/PrngDotNetBase.cs:394-412 | applying the next-matrix modulo MBIG gives each lane its block value: lanes 0-33 lose lane t+21, lanes 34-54 lose the already updated lane t-34 |
| `DotNetBlocks.NextBlockIsWalk` | PRNGs/PrngDotNetBase.cs:394-412 | from an aligned cursor with lanes in [0, MBIG), 55 Next calls map SeedArray[1..55] exactly as the next-matrix does modulo MBIG and come back to the aligned cursor |
| `DotNetBlocks.WalkBackKeepsRange` | PRNGs/PrngDotNetBase.cs:233-251 | Previous calls keep the lanes in [0, MBIG) and the 21-lane gap between the cursors |
| `DotNetBlocks.BackStepLanes` | PRNGs/PrngDotNetBase.cs:233-251 | from an aligned cursor, the k-th Previous call adds lane BackReadLane(k) back into lane 56-k modulo MBIG, turning the k-1 partial undo into the k partial undo |
| `DotNetBlocks.BackCursors` | PRNGs/PrngDotNetBase.cs:237-248 | from an aligned cursor, the k-th Previous call writes lane 56-k (inext 0 read as 55) and reads lane 22-k (k ≤ 21) or 77-k |
| `DotNetBlocks.WalkBackLanes` | PRNGs/PrngDotNetBase.cs:233-251 | from an aligned cursor, after k ≤ 55 Previous calls the lanes passed hold their undone value and the rest, and SeedArray[0], are unchanged |
| `DotNetBlocks.DotPreviousRow` | PRNGs/PrngDotNetBase.cs:414-497 | row t of the previous-matrix applied to the lanes is the sum of the lanes its entries pick out |
| `DotNetBlocks.PreviousMatrixIsBlockBack` | PRNGs/PrngDotNetBase.cs:414-497 | applying the previous-matrix modulo MBIG gives each lane its undone value |
| `DotNetBlocks.PreviousBlockIsWalkBack` | PRNGs/PrngDotNetBase.cs:414-497 | from an aligned cursor with lanes in [0, MBIG), 55 Previous calls map SeedArray[1..55] exactly as the previous-matrix does modulo MBIG and come back to the aligned cursor |
| `DotNetBlocks.PreviousUndoesNext` | PRNGs/PrngDotNetBase.cs:414-497 | on lanes in [0, MBIG), the previous-matrix undoes the next-matrix modulo MBIG |
| `DotNetBlocks.SameCanonical` | PRNGs/PrngDotNetBase.cs:237-238 | states whose lanes agree and whose cursors name the same positions (inext 0 and 55 being one position) are the same after normalising the cursors |
| `DotNetBlocks.WalkIsCanonical` | PRNGs/PrngDotNetBase.cs:209-210 | after at least one Next call the cursors are in 1..55 |
| `DotNetBlocks.WalkBackIsCanonical` | PRNGs/PrngDotNetBase.cs:247-248 | after at least one Previous call the cursors are in 1..55 |
| `DotNetBlocks.JumpOne` | PRNGs/PrngDotNetBase.cs:343-392 | a one-block seek applies the matrix modulo MBIG to SeedArray[1..55] and keeps SeedArray[0] |
| `DotNetBlocks.WalkAdd` | PRNGs/PrngDotNetBase.cs:329-341 | a Next calls then b Next calls equal a+b Next calls |
| `DotNetBlocks.WalkBackAdd` | PRNGs/PrngDotNetBase.cs:329-341 | a Previous calls then b Previous calls equal a+b Previous calls |
| `DotNetBlocks.WalkPeel` | PRNGs/PrngDotNetBase.cs:329-341 | n+1 Next calls are one Next call followed by n |
| `DotNetBlocks.WalkUndoesWalkBack` | PRNGs/PrngDotNetBase.cs:329-341 | n > 0 Previous calls followed by n Next calls restore the state, up to writing inext 0 as 55 |
| `DotNetBlocks.ForwardCanonical` | PRNGs/PrngDotNetBase.cs:201-223 | Next gives the same state from inext 0 as from inext 55 |
| `DotNetBlocks.BackwardCanonical` | PRNGs/PrngDotNetBase.cs:233-251 | Previous gives the same state from inext 0 as from inext 55 |
| `DotNetBlocks.UndoFirstStep` | PRNGs/PrngDotNetBase.cs:233-251 | one Next call after n Previous calls equals n-1 Previous calls, up to writing inext 0 as 55 |
| `DotNetBlocks.StepsCanonical` | PRNGs/PrngDotNetBase.cs:329-341 | Step by r from two states equal up to inext 0 versus 55 gives states equal up to the same |
| `DotNetBlocks.NextBlock` | PRNGs/PrngDotNetBase.cs:343-392 | from an aligned cursor a one-block seek with the next-matrix equals 55 Next calls and stays aligned |
| `DotNetBlocks.PreviousBlock` | PRNGs/PrngDotNetBase.cs:343-392 | from an aligned cursor a one-block seek with the previous-matrix equals 55 Previous calls and stays aligned |
| `DotNetBlocks.JumpIsWalk` | PRNGs/PrngDotNetBase.cs:343-392 | from an aligned cursor with lanes in [0, MBIG), a block seek of k blocks with the next-matrix equals 55·k Next calls, up to writing inext 0 as 55 |
| `DotNetBlocks.JumpBackIsWalkBack` | PRNGs/PrngDotNetBase.cs:343-392 | from an aligned cursor with lanes in [0, MBIG), a block seek of k blocks with the previous-matrix equals 55·k Previous calls, up to writing inext 0 as 55 |
| `DotNetBlocks.AheadPlanIsWalk` | PRNGs/PrngDotNetBase.cs:269-292 | with lanes in [0, MBIG), the alignment walk, matrix jump and residual walk of SeekAhead together equal offset Next calls, up to writing inext 0 as 55 |
| `DotNetBlocks.AlignedJumpIsWalk` | PRNGs/PrngDotNetBase.cs:269-292 | aligning with a steps and then jumping b blocks equals a + 55·b Next calls, and a residual adds that many more |
| `DotNetBlocks.AlignedBlocks` | PRNGs/PrngDotNetBase.cs:278-290 | a block jump after the alignment steps equals 55·b more Next calls |
| `DotNetBlocks.AlignedAfterWalk` | PRNGs/PrngDotNetBase.cs:270-276 | the alignment steps of SeekAhead leave the cursor at the block boundary |
| `DotNetBlocks.ResidualIsWalk` | PRNGs/PrngDotNetBase.cs:292 | a forward or backward residual after at least one step adds that many Next calls |
| `DotNetBlocks.OvershootIsWalk` | PRNGs/PrngDotNetBase.cs:280-292 | stepping back k after offset+k Next calls equals offset Next calls |
| `DotNetBlocks.BackPlanIsWalkBack` | PRNGs/PrngDotNetBase.cs:303-326 | with lanes in [0, MBIG), the alignment walk, matrix jump and residual walk of SeekBack together equal offset Previous calls, up to writing inext 0 as 55 |
| `DotNetBlocks.AlignedJumpBackIsWalkBack` | PRNGs/PrngDotNetBase.cs:303-326 | aligning backward with inext steps and then jumping b blocks back equals a + 55·b Previous calls, and a residual adjusts that |
| `DotNetBlocks.AlignedBlocksBack` | PRNGs/PrngDotNetBase.cs:312-324 | a backward block jump after the alignment steps equals 55·b more Previous calls |
| `DotNetBlocks.AlignedAfterWalkBack` | PRNGs/PrngDotNetBase.cs:304-310 | the alignment steps of SeekBack leave the cursor at the block boundary |
| `DotNetBlocks.ResidualIsWalkBack` | PRNGs/PrngDotNetBase.cs:326 | a residual after the backward jump moves that many Previous calls |
| `DotNetBlocks.OvershootIsWalkBack` | PRNGs/PrngDotNetBase.cs:314-326 | stepping forward k after offset+k Previous calls equals offset Previous calls |
| `PureBasic.Rotate` | PRNGs/PrngPureBasic.cs:107 | the uint rotation of x right by k bits is a 32-bit value |
| `PureBasic.ShiftedOut` | PRNGs/PrngPureBasic.cs:107-110 | a uint left shift keeps only the low bits of x, shifted up |
| `PureBasic.RotateBack` | PRNGs/PrngPureBasic.cs:150-153 | rotating right by k and then left by k gives x back |
| `PureBasic.RotationsUndo` | PRNGs/PrngPureBasic.cs:107-153 | the left rotations of Previous undo the right rotations of Next by 13 and 5, and the other way round |
| `PureBasic.AddThenSubtract` | PRNGs/PrngPureBasic.cs:149-152 | subtracting a lane modulo 2^32 undoes adding it |
| `PureBasic.SubtractThenAdd` | PRNGs/PrngPureBasic.cs:107-110 | adding a lane modulo 2^32 undoes subtracting it |
| `PureBasic.RecoverLane` | PRNGs/PrngPureBasic.cs:145-153 | Previous recovers a lane from the value Next stored for it |
| `PureBasic.RecomputeLane` | PRNGs/PrngPureBasic.cs:106-113 | Next recomputes a lane from the value Previous stored for it |
| `PureBasic.Down` | PRNGs/PrngPureBasic.cs:115-116 | Next's cursor step stays in 0..16 and Previous's step undoes it |
| `PureBasic.Up` | PRNGs/PrngPureBasic.cs:142-143 | Previous's cursor step stays in 0..16 |
| `PureBasic.Forward` | PRNGs/PrngPureBasic.cs:102-120 | Next on the state value keeps 17 uint lanes per buffer and returns a uint |
| `PureBasic.Backward` | PRNGs/PrngPureBasic.cs:138-157 | Previous on the state value keeps 17 uint lanes per buffer and returns a uint |
| `PureBasic.StepsKeepCursorGap` | PRNGs/PrngPureBasic.cs:94-95 | p2 = p1 + 10 (mod 17) makes the cursors differ and is kept by Next and Previous |
| `PureBasic.BackwardUndoesForward` | PRNGs/PrngPureBasic.cs:138-157 | Previous after Next restores both buffers and both cursors and returns the value Next returned |
| `PureBasic.ForwardUndoesBackward` | PRNGs/PrngPureBasic.cs:102-120 | Next after Previous restores the state and returns the value Previous returned |
| `PureBasic.Walk` | PRNGs/PrngPureBasic.cs:97-98 | any number of Next calls keeps the state shaped |
| `PureBasic.WalkBack` | PRNGs/PrngPureBasic.cs:138-157 | any number of Previous calls keeps the state shaped |
| `PureBasic.WalkKeepsCursorGap` | PRNGs/PrngPureBasic.cs:115-116 | any number of Next calls keeps the cursor gap |
| `PureBasic.WalkShift` | PRNGs/PrngPureBasic.cs:97-98 | n calls after one call are n + 1 calls |
| `PureBasic.WalkBackUndoesWalk` | PRNGs/PrngPureBasic.cs:102-157 | n Previous calls undo n Next calls |
| `PureBasic.SeedStep` | PRNGs/PrngPureBasic.cs:88 | the seeding step s·2891336453 + 1 wraps to a uint |
| `PureBasic.SeedUnstep` | PRNGs/PrngPureBasic.cs:88 | the inverse seeding step gives a uint |
| `PureBasic.SeedUnstepUndoes` | PRNGs/PrngPureBasic.cs:88 | the seeding step is invertible on uints, so distinct seeds fill differently |
| `PureBasic.SeedIterate` | PRNGs/PrngPureBasic.cs:86-92 | every iterate of the seeding step is a uint |
| `PureBasic.SeedWord` | PRNGs/PrngPureBasic.cs:84 | the seed is truncated to a uint |
| `PureBasic.Filled` | PRNGs/PrngPureBasic.cs:84-95 | the fill alternates buffer 1 and buffer 2, and the cursors 0 and 10 satisfy the cursor gap |
| `PureBasic.SeededState` | PRNGs/PrngPureBasic.cs:77-100 | the seeded state after the 31 discards is shaped |
| `PureBasic.SeededKeepsGap` | PRNGs/PrngPureBasic.cs:94-98 | the seeded state keeps the cursor gap |
| `PureBasic.FilledDiffer` | PRNGs/PrngPureBasic.cs:84-92 | seeds with different low 32 bits fill the buffers differently |
| `PureBasic.SeedsDiffer` | PRNGs/PrngPureBasic.cs:77-100 | two seeds give the same seeded state exactly when their low 32 bits agree |
| `PureBasic.LimitedRoundTrip` | PRNGs/PrngPureBasic.cs:122-165 | Previous(limit) after Next(limit) returns the same scaled value, and both are below any limit in (0, 2^32] |
| `PureBasic.PureBasicGenerator.constructor` | PRNGs/PrngPureBasic.cs:47-53 | a new generator has zero buffers and cursors |
| `PureBasic.PureBasicGenerator.Seed` | PRNGs/PrngPureBasic.cs:77-100 | Seed leaves the seeded state: the alternating fill, cursors 0 and 10, 31 discarded outputs |
| `PureBasic.PureBasicGenerator.FillBuffers` | PRNGs/PrngPureBasic.cs:84-92 | the fill loop leaves the buffers Filled describes |
| `PureBasic.PureBasicGenerator.Next` | PRNGs/PrngPureBasic.cs:102-120 | Next rotates and adds, cross-stores x2 in buffer 1 and x1 in buffer 2, moves both cursors down and returns x1 |
| `PureBasic.PureBasicGenerator.NextLimit` | PRNGs/PrngPureBasic.cs:122-128 | Next(limit) steps once and returns (value·limit) >> 32, below any limit in (0, 2^32] |
| `PureBasic.PureBasicGenerator.Previous` | PRNGs/PrngPureBasic.cs:138-157 | Previous moves both cursors up, returns the buffer-2 lane and restores both lanes |
| `PureBasic.PureBasicGenerator.PreviousLimit` | PRNGs/PrngPureBasic.cs:159-165 | Previous(limit) steps back once and returns (value·limit) >> 32, below any limit in (0, 2^32] |
| `Symbols.IndexOf` | PrangsterApp.cs:82 | IndexOf returns the first position at or after from holding the symbol, or -1 when there is none |
| `Symbols.Kept` | PrangsterApp.cs:80-99 | the kept symbols are no more than the input symbols |
| `Symbols.SymbolStep` | PrangsterApp.cs:82-98 | one symbol is accepted exactly when it is unique in the alphabet or whitespace outside it, and it appends its only position or nothing |
| `Symbols.ConvertSucceeds` | PrangsterApp.cs:74-102 | the conversion succeeds exactly when every symbol is accepted: any other symbol outside the alphabet or any duplicated alphabet symbol gives null |
| `Symbols.ConvertEncodes` | PrangsterApp.cs:74-102 | a successful conversion emits, in order, the only alphabet position of each symbol found in the alphabet |
| `Symbols.Decodes` | PrangsterApp.cs:74-102 | looking the numbers up in the alphabet gives back the input with the skipped whitespace removed |
| `Symbols.FailureSticks` | PrangsterApp.cs:85-96 | once a prefix fails, the whole input fails |
| `Symbols.ConvertSymbolsToNumbers` | PrangsterApp.cs:74-102 | the loop over the symbols computes the conversion |

## Left out

- Floating-point output scaling is not modelled. This covers VBScript `Next(limit)` and `Previous(limit)` (PRNGs/PrngVbscript.cs:136, 160) and SQL Server `Next(limit)`, `Previous(limit)` and `NextFromStates(…, limit)` (PRNGs/PrngMssql.cs:142-148, 171, 204). VBScript's seed recovery keeps only the fact that the float factor lies between 1/16777216 and 1/16777215.
- SQL Server `RecoverSeed` (PRNGs/PrngMssql.cs:284-423) is not modelled, because every step of it works on the double-scaled outputs.
- Mssql.SeekStatesIsIterate: the link between the reduced offset and offset single steps takes as hypotheses the four Fermat facts for the SQL Server multipliers and inverses (each raised to its prime modulus minus 1 is 1). They are true because both moduli are prime, but the model does not discharge them: a square-and-multiply proof over 31-bit residues exceeds the verifier's resource limit. Mssql.MssqlGenerator.SeekAhead and SeekBack therefore state the reduced number of steps, as written.
- The command-line program is not part of this model: `Main`, `Usage`, `GetPrngNames` and `GetPrng` (PrangsterApp.cs:40-72, 104-275).
- The error messages that `ConvertSymbolsToNumbers` writes to the error stream are not modelled. The failure is `None`.
- Symbols.Convert: the source walks UTF-16 code units; the model walks Unicode characters. The two agree on text without surrogate pairs.
- `PrngBase`, its generic `RecoverSeed`, `RecoverSeedEventArgs` and the `RecoverSeedCallback` delegate are not part of this model. A hand-off to the generic search is the `Delegated` record of its arguments. A callback is a function from an event to the Cancel flag.
- The three-argument `PreviousState` of the Lehmer engine (PRNGs/PrngLehmerBase.cs:77-80) calls itself without end and nothing calls it. It is not modelled.
- Java.Sample, Java.SampleLoop, Java.JavaGenerator.NextLimit, Java.JavaGenerator.ForwardUntilAccepted, Java.JavaGenerator.PreviousLimit, Java.JavaGenerator.BackUntilAccepted: the rejection loop for limits that are not powers of two runs until the generator yields an acceptable draw. The model bounds it by a fuel argument and returns `None` when the fuel runs out.
- Java.JavaGenerator.RecoverSeed, Java.JavaGenerator.RecoverSeedCorrected, MsvcrtMul.RecoverSeed and MsvcrtMul.RecoverSeedCorrected: the scan loops are bounded by a fuel argument. A run that uses the fuel up ends with `Exhausted`, a result the source does not have.
- The seed-recovery overrides are proved sound, not complete. Every reported seed, stepped once, draws the observed outputs after the first; the first output is what selects the searched range. Every hand-off keeps the caller's stride. That every matching seed is found is not claimed.
- MsvcrtMul.RecoverSeed and MsvcrtMul.RecoverSeedCorrected: the conservative skip of `(offset - 1)` blocks is kept, but that it never jumps over a matching state is not proved. That is a completeness property.
- Msvcrt.RecoverSeed requires `seedEnd <= MaximumSeed` on the path it handles itself. With a larger `seedEnd` the source also tries seeds above `MaximumSeed`, which `Seed` reduces to 31 bits. Once `seedEnd` nears the top of the 32-bit range, the source's 32-bit seed counter wraps and the loop does not end.
- LcgBase.LcgGenerator.Seed requires a non-zero modulus. For modulus 0 (2^64) the source divides by zero and raises.
- DotNetBase.DotNetGenerator.Previous, DotNetBase.DotNetGenerator.SeekAhead and DotNetBase.DotNetGenerator.SeekBack require `inextp != 0`. This holds after `Seed`; on a generator that was never seeded the source's cursor would go to -1 and fail.
- DotNetBase.DotNetGenerator.Next and DotNetBase.DotNetGenerator.Previous: that lanes stay in [0, MBIG) is stated under the assumption that they start there. `Seed` does not guarantee it, because `mj` can go negative (PRNGs/PrngDotNetBase.cs:174-175).
- Glibc3.Glibc3Generator.SeekAhead, Glibc3.Glibc3Generator.SeekBack, DotNetBase.DotNetGenerator.SeekAhead and DotNetBase.DotNetGenerator.SeekBack: for large offsets the method contract states the alignment walk, the matrix jump and the residual walk as written, not the number of single steps. The link to single steps is proved beside them, in `Glibc3Blocks.AheadPlanIsWalk`, `Glibc3Blocks.BackPlanIsWalkBack`, `DotNetBlocks.AheadPlanIsWalk` and `DotNetBlocks.BackPlanIsWalkBack`. For .NET that link holds for lanes in [0, MBIG), and it holds up to naming one cursor position 0 or 55.
- MySQL's `Previous`, disabled under `#if false` (PRNGs/PrngMysql.cs:149-182), is not modelled.
- The non-power-of-two Java `Previous(limit)` is modelled as written. It is not an inverse of `Next(limit)`, and no round trip is claimed for it.

## Findings

| source | as written | input that shows it | evidently intended | confidence | as-written member | corrected member |
|---|---|---|---|---|---|---|
| PRNGs/PrngLcgBase.cs:296-303 | with multiplier 1, SeekState returns increment·offset mod divisor and drops the start state | state 5, offset 1, multiplier 1, increment 1, modulus 2^64: result 1, one step gives 6 | state + increment·offset mod divisor | not executed | `LcgBase.SeekLinear`, `LcgBase.LinearSeekDropsState` | `LcgBase.SeekLinearCorrected` |
| PRNGs/PrngLehmerBase.cs:136-139 | SeekSeedAhead seeks from the instance state and ignores its seed argument | generator 16807 mod 2^31-1 in state 2, seed 1, offset 1: result 33614, expected 16807 | seek from the seed argument | not executed | `LehmerBase.SeekSeedAhead`, `LehmerBase.SeekSeedIgnoresSeed` | `LehmerBase.SeekSeedAheadCorrected` |
| PRNGs/PrngLehmerBase.cs:141-159 | SeekSeedBack seeks back from the instance state whenever an inverse exists | any offset > 0 with seed different from the instance state | seek back from the seed argument | not executed | `LehmerBase.SeekSeedBack` | `LehmerBase.SeekSeedBackCorrected` |
| PRNGs/PrngLcgBase.cs:381-413 | SeekSeedBack seeks back from the instance state whenever an inverse exists | any offset > 0 with seed different from the instance state; Java's override inherits it: a new generator, seed 0, offset 1 gives a seed that steps to state 0, not to 0x5DEECE66D | seek back from the seed argument | not executed | `LcgBase.LcgGenerator.SeekSeedBack`, `Java.JavaGenerator.SeekSeedBack`, `Java.SeekSeedBackIgnoresSeed` | `LcgBase.LcgGenerator.SeekSeedBackCorrected`, `Java.JavaGenerator.SeekSeedBackCorrected` |
| PRNGs/PrngMsvcrtMul.cs:100-122 | the block-skip guard lets a second output that is at least the limit through, and the loop that looks for a state producing it never ends | outputs [0, 10, 0], limit 10, wildcard 0xFFFF, stride 1 | the guard also requires output[1] < limit | not executed | `MsvcrtMul.SkipLoopNeverExits`, `MsvcrtMul.RecoverSeed` | `MsvcrtMul.BlockSkip`, `MsvcrtMul.ReachingState`, `MsvcrtMul.RecoverSeedCorrected` |
| PRNGs/PrngJava.cs:347-365 | the power-of-two search range is computed for scrambled states but searched as seeds | output[0] 0, limit 2^16: the range is the seeds below 2^32, and each of them outputs 5 | the range of seeds that Seed scrambles into states with output output[0] | not executed | `Java.PowerRangeMissesSeeds`, `Java.PowerOfTwoSearchMisses`, `Java.RecoverSeedPowerOf2`, `Java.JavaGenerator.RecoverSeed` | `Java.PowerRangeCorrected`, `Java.PowerRangeCorrectedIsSeedClass`, `Java.RecoverSeedPowerOf2Corrected`, `Java.PowerOfTwoSearchIsOutputClass`, `Java.JavaGenerator.RecoverSeedCorrected` |
| PRNGs/PrngVbscript.cs:199 | the limit is cast to uint, so the limit 2^32 becomes 0 and the range arithmetic divides by zero | seeds 0 to 2^24-1, stride 1, outputs [0, 0], limit 2^32 | hand every limit that does not fit in a uint to the generic search | not executed | `Vbscript.TruncatedLimitRaises` | `Vbscript.RecoverSeedCorrected`, `Vbscript.CorrectedSearchKeepsOutputClass` |
| PRNGs/PrngV8.cs:201 | with exactly two outputs the first comparison uses the wildcard in place of output[1] | outputs [1, 1], limit 2, wildcard 2: states (0, 1) draw 0 but pass | compare with output[1] whenever there are at least two outputs | not executed | `V8.SecondOutputIgnored`, `V8.V8Generator.RecoverSeed` | `V8.CorrectedTestIsMatch`, `V8.V8Generator.RecoverSeedCorrected`, `V8.CorrectedReportsMatch` |
| PRNGs/PrngDotNetMod.cs:58-65 | Previous(limit) calls Next, so it moves the generator forward | any seeded generator: Next(limit) then Previous(limit) leaves the cursors two steps on | call Previous | not executed | `DotNetMod.PreviousLimit`, `DotNetMod.PreviousLimitDoesNotUndo` | `DotNetMod.PreviousLimitCorrected`, `DotNetMod.CorrectedPreviousLimitUndoes` |

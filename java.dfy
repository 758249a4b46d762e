/**
 * PrngJava: the generator of java.util.Random (JDK 7), a 48-bit LCG
 * s -> s*0x5DEECE66D + 0xB mod 2^48 whose seed is scrambled by an exclusive
 * or with the multiplier. Next() returns the top 32 state bits; a bounded
 * output comes from the top 31 bits, scaled for a power-of-two limit and
 * otherwise reduced with rejection of the biased tail. The ulong arithmetic
 * is written out modulo 2^64, the 48-bit mask as reduction modulo 2^48,
 * shifts as divisions by powers of two, and ^, | and & are the Bits ones.
 */
module Java {
  import opened Common
  import opened Bits
  import opened LcgMath
  import opened Recovery
  import LcgBase

  const Multiplier: nat := 0x5_DEEC_E66D
  const Increment: nat := 0xB
  /** 2^48: states are masked with 0xFFFFFFFFFFFF. */
  const Modulus: nat := 0x1_0000_0000_0000
  const DiscardDivisor: nat := 0x1_0000
  /** 2^17: bounded outputs use the top 31 of the 48 state bits. */
  const DiscardDivisorForMod: nat := 0x2_0000
  const OutputDivisor: nat := 0x1_0000_0000
  /** The multiplicative inverse of Multiplier modulo Modulus. */
  const MultiplierInverse: nat := 0xDFE0_5BCB_1365
  /** The additive inverse of Increment times MultiplierInverse, modulo Modulus. */
  const IncrementInverseMulInv: nat := 0x615C_0E46_2AA9
  /** 2^31: the bound of the rejection test of Next(limit). */
  const Bound31: nat := 0x8000_0000
  const MinimumSeed: nat := 0
  const MaximumSeed: nat := Modulus - 1

  /** The stored inverse constants are what their comments say they are. */
  lemma InverseConstants()
    ensures (Multiplier * MultiplierInverse) % Modulus == 1
    ensures IncrementInverseMulInv == BackIncrement(Increment, MultiplierInverse, Modulus)
  {
  }

  /** The divisors and masks of this generator as powers of two. */
  lemma Powers()
    ensures Pow2(16) == DiscardDivisor && Pow2(17) == DiscardDivisorForMod && Pow2(31) == Bound31
    ensures Pow2(32) == OutputDivisor && Pow2(48) == Modulus && Pow2(64) == TWO64
  {
    Pow2Of32();
    Pow2Step(16);
    Pow2Of64();
    Pow2Of48();
  }

  lemma Pow2Of48()
    ensures Pow2(48) == Modulus
  {
    Pow2Of16();
    Pow2Of32();
    Pow2Add(16, 32);
  }

  /** Seed: the seed XORed with the multiplier and masked to 48 bits. */
  function Scramble(seed: nat): (r: nat)
    ensures r < Modulus && r == And(Xor(seed, Multiplier, 64), Modulus - 1, 64)
  {
    Powers();
    AndLowMask(Xor(seed, Multiplier, 64), 48, 64);
    Xor(seed, Multiplier, 64) % Modulus
  }

  /**
   * The scramble is its own inverse on 48 bits: a state XORed with the
   * multiplier seeds back to that state, and a 48-bit seed is the scramble
   * of itself XORed with the multiplier.
   */
  lemma ScrambleUndone(x: nat)
    requires x < Modulus
    ensures Xor(x, Multiplier, 64) < TWO64 && Scramble(Xor(x, Multiplier, 64)) == x
    ensures Xor(Scramble(x), Multiplier, 64) == x
  {
    Powers();
    XorTwice(x, Multiplier, 64);
    ModSmall(x, TWO64);
    ModSmall(x, Modulus);
    XorBound(x, Multiplier, 64, 48);
    ModSmall(Xor(x, Multiplier, 64), Modulus);
  }

  /** NextState: the masked 64-bit step; it is the exact step modulo 2^48. */
  function NextState(state: nat): (r: nat)
    requires state < TWO64
    ensures r < Modulus && r == Step(state, Multiplier, Increment, Modulus)
  {
    WrappedForward(state, Multiplier, Increment, Modulus, TWO64);
    ((state * Multiplier + Increment) % TWO64) % Modulus
  }

  /** PreviousState: (state - I) wrapped to 64 bits, times the inverse, wrapped, masked to 48 bits. */
  function PreviousState(state: nat): (r: nat)
    requires state < TWO64
    ensures r < Modulus && r == Step(state, MultiplierInverse, IncrementInverseMulInv, Modulus)
  {
    InverseConstants();
    WrappedBack(state, Increment, MultiplierInverse, Modulus, TWO64);
    ((((state - Increment) % TWO64) * MultiplierInverse) % TWO64) % Modulus
  }

  /** PreviousState undoes NextState on every 48-bit state, and the other way round. */
  lemma StepRoundTrip(state: nat)
    requires state < Modulus
    ensures PreviousState(NextState(state)) == state
    ensures NextState(PreviousState(state)) == state
  {
    InverseConstants();
    BackAfterForward(state, Multiplier, Increment, MultiplierInverse, Modulus);
    ForwardAfterBack(state, Multiplier, Increment, MultiplierInverse, Modulus);
  }

  /**
   * On a full 64-bit state only the low 48 bits matter: both steps from x
   * are those from x masked to 48 bits, and the previous state steps
   * forward to the masked x.
   */
  lemma StepsOfUnmasked(x: nat)
    requires x < TWO64
    ensures NextState(x) == NextState(x % Modulus)
    ensures PreviousState(x) == PreviousState(x % Modulus)
    ensures NextState(PreviousState(x)) == x % Modulus
  {
    var y := x % Modulus;
    ModOfMod(x, Modulus);
    AffineCongruent(x, y, Multiplier, Increment, Modulus);
    AffineCongruent(x, y, MultiplierInverse, IncrementInverseMulInv, Modulus);
    assert Step(x, Multiplier, Increment, Modulus) == Step(y, Multiplier, Increment, Modulus);
    assert Step(x, MultiplierInverse, IncrementInverseMulInv, Modulus) == Step(y, MultiplierInverse, IncrementInverseMulInv, Modulus);
    StepRoundTrip(y);
  }

  /** Seeking back n states undoes seeking ahead n states, and the other way round. */
  lemma SeekBackUndoesAhead(state: nat, n: nat)
    requires state < Modulus
    ensures Iterate(Iterate(state, n, Multiplier, Increment, Modulus), n, MultiplierInverse, IncrementInverseMulInv, Modulus) == state
    ensures Iterate(Iterate(state, n, MultiplierInverse, IncrementInverseMulInv, Modulus), n, Multiplier, Increment, Modulus) == state
  {
    InverseConstants();
    SeekRoundTrip(state, n, Multiplier, Increment, MultiplierInverse, Modulus);
  }

  /** XORing a 64-bit value with the multiplier twice gives it back. */
  lemma XorMultiplierTwice(x: nat)
    requires x < TWO64
    ensures Xor(x, Multiplier, 64) < TWO64 && Xor(Xor(x, Multiplier, 64), Multiplier, 64) == x
  {
    Pow2Of64();
    XorTwice(x, Multiplier, 64);
    ModSmall(x, TWO64);
  }

  /**
   * A backward seek of n > 0 states from a 64-bit state, XORed with the
   * multiplier: a seed whose scramble is that backward seek, and from which
   * n steps ahead reach the masked state.
   */
  lemma SeekBackFromState(state: nat, n: nat, s: nat)
    requires state < TWO64 && n > 0
    requires s == Iterate(state, n, MultiplierInverse, IncrementInverseMulInv, Modulus)
    ensures Xor(s, Multiplier, 64) < TWO64 && Scramble(Xor(s, Multiplier, 64)) == s
    ensures Iterate(s, n, Multiplier, Increment, Modulus) == state % Modulus
  {
    Powers();
    IterateOfResidue(state, n, MultiplierInverse, IncrementInverseMulInv, Modulus);
    IterateBelow(state % Modulus, n, MultiplierInverse, IncrementInverseMulInv, Modulus);
    ScrambleUndone(s);
    SeekBackUndoesAhead(state % Modulus, n);
  }

  /** The state that seed 0 scrambles into. */
  lemma ScrambleOfZero()
    ensures Scramble(0) == 0x5_DEEC_E66D
  {
    Powers();
    XorWithZero(Multiplier, 64);
    ModSmall(Multiplier, TWO64);
    ModSmall(Multiplier, Modulus);
  }

  /**
   * SeekSeedBack as written answers for the instance state: on a new
   * generator (state 0) the seed it returns for seed 0 and offset 1 steps
   * to state 0, while seed 0 itself seeds the state 0x5DEECE66D.
   */
  lemma SeekSeedBackIgnoresSeed(r: nat)
    requires Scramble(r) == Iterate(0, 1, MultiplierInverse, IncrementInverseMulInv, Modulus)
    ensures Iterate(Scramble(r), 1, Multiplier, Increment, Modulus) == 0
    ensures Scramble(0) == 0x5_DEEC_E66D
  {
    SeekBackUndoesAhead(0, 1);
    ScrambleOfZero();
  }

  /**
   * A seek of n > 0 steps from a seed XORed with the multiplier, XORed back:
   * its scramble is the state n steps after the scramble of the seed.
   */
  lemma ScrambledSeek(seed: nat, n: nat, multiplier: nat, increment: nat, s: nat)
    requires seed < TWO64 && n > 0
    requires s == Iterate(Xor(seed, Multiplier, 64), n, multiplier, increment, Modulus)
    ensures Xor(s, Multiplier, 64) < TWO64
    ensures Scramble(Xor(s, Multiplier, 64)) == Iterate(Scramble(seed), n, multiplier, increment, Modulus)
  {
    Powers();
    var x := Xor(seed, Multiplier, 64);
    IterateOfResidue(x, n, multiplier, increment, Modulus);
    IterateBelow(x % Modulus, n, multiplier, increment, Modulus);
    ScrambleUndone(s);
  }

  /** ValueFromRaw: the top 32 of the 48 state bits. */
  function ValueFromRaw(raw: nat): (r: nat)
    ensures raw < Modulus ==> r < OutputDivisor
  {
    assert raw < Modulus ==> raw / DiscardDivisor < OutputDivisor by {
      if raw < Modulus {
        DivBound(raw, DiscardDivisor, OutputDivisor);
      }
    }
    raw / DiscardDivisor
  }

  /** The power-of-two test (limit & (limit - 1)) == 0 in ulong arithmetic. */
  predicate PowerOfTwoTest(limit: nat): (r: bool)
    requires limit < TWO64
    ensures limit == 0 ==> r
  {
    And(limit, (limit + TWO64 - 1) % TWO64, 64) == 0
  }

  /** The test passes for 0 and for every power of two below 2^64. */
  lemma PowerOfTwoTestPasses(k: nat)
    requires k < 64
    ensures Pow2(k) < TWO64 && PowerOfTwoTest(Pow2(k)) && PowerOfTwoTest(0)
  {
    Powers();
    Pow2Order(k, 64);
    var p := Pow2(k);
    ModAddMultiple(p - 1, 1, TWO64);
    ModSmall(p - 1, TWO64);
    AndLowMask(p, k, 64);
    DivMulCancel(1, p);
  }

  /** A limit that fails the test is positive and, up to 2^32, below 2^32. */
  lemma FailingLimit(limit: nat)
    requires limit <= OutputDivisor && !PowerOfTwoTest(limit)
    ensures 0 < limit < OutputDivisor
  {
    PowerOfTwoTestPasses(32);
    Powers();
  }

  /** The power-of-two output ((raw >> 17) * limit) >> 31, with the product wrapping at 64 bits. */
  function ScaleOutput(raw: nat, limit: nat): nat
  {
    (((raw / DiscardDivisorForMod) * limit) % TWO64) / Bound31
  }

  /** For a 48-bit state and a limit up to 2^32 the product does not wrap and the output is below the limit. */
  lemma ScaleBelowLimit(raw: nat, limit: nat)
    requires raw < Modulus && 0 < limit <= OutputDivisor
    ensures (raw / DiscardDivisorForMod) * limit < TWO64 && ScaleOutput(raw, limit) < limit
  {
    var v := raw / DiscardDivisorForMod;
    DivBound(raw, DiscardDivisorForMod, Bound31);
    MulLe(v, Bound31 - 1, limit);
    MulLe(limit, OutputDivisor, Bound31 - 1);
    ModSmall(v * limit, TWO64);
    DivBound(v * limit, Bound31, limit);
  }

  /** For a limit 2^k with k <= 31 the scaled output of a 48-bit state is its top k bits. */
  lemma ScaleOfPowerOfTwo(raw: nat, k: nat)
    requires k <= 31 && raw < Modulus
    ensures ScaleOutput(raw, Pow2(k)) == raw / Pow2(48 - k)
  {
    Powers();
    var v := raw / DiscardDivisorForMod;
    DivBound(raw, DiscardDivisorForMod, Bound31);
    Pow2Order(k, 31);
    Pow2Add(k, 31 - k);
    Pow2Add(17, 31 - k);
    LcgBase.MulStrict(v, Pow2(k), Bound31, Bound31 + 1);
    ModSmall(v * Pow2(k), TWO64);
    MulDivShift(v, Pow2(k), Pow2(31 - k));
    DivDiv(raw, DiscardDivisorForMod, Pow2(31 - k));
  }

  /** ValueFromRaw(raw, limit): scaled for a limit that passes the test, otherwise the top 31 bits modulo the limit. */
  function ValueFromRawLimit(raw: nat, limit: nat): (r: nat)
    requires limit < TWO64
    ensures raw < Modulus && 0 < limit <= OutputDivisor ==> r < limit
  {
    if PowerOfTwoTest(limit) then
      assert raw < Modulus && 0 < limit <= OutputDivisor ==> ScaleOutput(raw, limit) < limit by {
        if raw < Modulus && 0 < limit <= OutputDivisor {
          ScaleBelowLimit(raw, limit);
        }
      }
      ScaleOutput(raw, limit)
    else (raw / DiscardDivisorForMod) % limit
  }

  /** The rejection test of Next(limit): next - value + (limit - 1) < 2^31 on the top 31 bits. */
  predicate Accepted(next: nat, limit: nat)
    requires limit > 0
  {
    var v := next / DiscardDivisorForMod;
    v - v % limit + (limit - 1) < Bound31
  }

  /**
   * The accepted states are exactly those whose top 31 bits lie below the
   * largest multiple of the limit that fits in 31 bits, so every residue
   * below the limit is accepted equally often.
   */
  lemma AcceptanceRegion(next: nat, limit: nat)
    requires limit > 0
    ensures Accepted(next, limit) <==> next / DiscardDivisorForMod < (Bound31 / limit) * limit
  {
    var v := next / DiscardDivisorForMod;
    RejectionBoundary(v, v / limit, v % limit, Bound31 / limit, Bound31 % limit, limit);
  }

  lemma RejectionBoundary(v: int, q: int, r: int, c: int, d: int, limit: int)
    requires limit > 0 && v == q * limit + r && 0 <= r < limit && Bound31 == c * limit + d && 0 <= d < limit
    ensures q * limit + (limit - 1) < Bound31 <==> v < c * limit
  {
    if q + 1 <= c {
      MulLe(q + 1, c, limit);
    } else {
      MulLe(c + 1, q + 1, limit);
    }
  }

  /** The outcome of one draw: the value returned and the state it leaves. */
  datatype Draw = Draw(value: nat, state: nat)

  /**
   * Next(limit) as a function of the state. A limit that passes the test
   * takes one step; any other steps until the rejection test accepts. The
   * model bounds those steps by fuel and gives None when it runs out.
   */
  function Sample(state: nat, limit: nat, fuel: nat): (r: Option<Draw>)
    requires state < TWO64 && limit < TWO64
    ensures r.Some? ==> r.value.state < Modulus && r.value.value == ValueFromRawLimit(r.value.state, limit)
    ensures r.Some? && !PowerOfTwoTest(limit) ==> Accepted(r.value.state, limit)
    ensures PowerOfTwoTest(limit) ==> r.Some? && r.value.state == NextState(state)
  {
    var next := NextState(state);
    if PowerOfTwoTest(limit) then Some(Draw(ScaleOutput(next, limit), next))
    else SampleLoop(state, limit, fuel)
  }

  /** The rejection loop of Next(limit): the first accepted state, with the top 31 bits modulo the limit. */
  function SampleLoop(state: nat, limit: nat, fuel: nat): (r: Option<Draw>)
    requires state < TWO64 && 0 < limit < TWO64
    ensures r.Some? ==> r.value.state < Modulus && Accepted(r.value.state, limit)
    ensures r.Some? ==> r.value.value == (r.value.state / DiscardDivisorForMod) % limit
    decreases fuel
  {
    if fuel == 0 then None
    else
      var next := NextState(state);
      if Accepted(next, limit) then Some(Draw((next / DiscardDivisorForMod) % limit, next))
      else SampleLoop(next, limit, fuel - 1)
  }

  /** A rejected step hands the draw on to the next state, with one step of fuel less. */
  lemma SampleRejects(state: nat, limit: nat, fuel: nat)
    requires state < TWO64 && 0 < limit < TWO64 && fuel > 0
    requires !Accepted(NextState(state), limit)
    ensures SampleLoop(state, limit, fuel) == SampleLoop(NextState(state), limit, fuel - 1)
  {
  }

  /** Only the low 48 bits of the state matter to a draw. */
  lemma SampleOfUnmasked(state: nat, limit: nat, fuel: nat)
    requires state < TWO64 && limit < TWO64
    ensures Sample(state % Modulus, limit, fuel) == Sample(state, limit, fuel)
  {
    StepsOfUnmasked(state);
  }

  /**
   * A limit above 2^31 that fails the power-of-two test is never drawn:
   * every state is rejected, so Next(limit) does not return. Such limits
   * lie outside the domain of java.util.Random.nextInt(int), whose
   * argument check the C# port keeps only as a comment; this is the
   * behaviour of the unchecked port there, not a defect inside the domain.
   */
  lemma {:induction false} OversizedLimitNeverDraws(state: nat, limit: nat, fuel: nat)
    requires state < TWO64 && Bound31 < limit < TWO64 && !PowerOfTwoTest(limit)
    ensures Sample(state, limit, fuel) == None
    decreases fuel
  {
    var next := NextState(state);
    OversizedLimitRejects(next, limit);
    if fuel > 0 {
      SampleRejects(state, limit, fuel);
      OversizedLimitNeverDraws(next, limit, fuel - 1);
    }
  }

  /** With a limit above 2^31 the top 31 bits of a 48-bit state are their own residue, and the test fails. */
  lemma OversizedLimitRejects(next: nat, limit: nat)
    requires next < Modulus && Bound31 < limit
    ensures !Accepted(next, limit)
  {
    DivBound(next, DiscardDivisorForMod, Bound31);
    ModSmall(next / DiscardDivisorForMod, limit);
  }

  /** The state the backward rejection loop of Previous(limit) stops at, within fuel steps. */
  function BackSample(state: nat, limit: nat, fuel: nat): (r: Option<nat>)
    requires state < TWO64 && limit > 0
    ensures r.Some? ==> r.value < Modulus && Accepted(r.value, limit)
    decreases fuel
  {
    if fuel == 0 then None
    else
      var prev := PreviousState(state);
      if Accepted(prev, limit) then Some(prev) else BackSample(prev, limit, fuel - 1)
  }

  /** A rejected backward step hands the search on to the previous state, with one step of fuel less. */
  lemma BackSampleRejects(state: nat, limit: nat, fuel: nat)
    requires state < TWO64 && limit > 0 && fuel > 0 && !Accepted(PreviousState(state), limit)
    ensures BackSample(state, limit, fuel) == BackSample(PreviousState(state), limit, fuel - 1)
  {
  }

  /** The 64-bit state _LcgState of a Java generator; Seed and the steps keep it below 2^48. */
  class JavaGenerator {
    var state: nat

    ghost predicate Valid()
      reads this
    {
      state < TWO64
    }

    /** The default constructor: the state starts at 0. */
    constructor ()
      ensures Valid() && state == 0
    {
      state := 0;
    }

    /** Seed: the scrambled seed; a 48-bit seed can be read back from the state. */
    method Seed(seed: nat)
      requires LcgBase.IsULong(seed)
      modifies this
      ensures Valid() && state == Scramble(seed)
      ensures seed < Modulus ==> Xor(state, Multiplier, 64) == seed
    {
      state := Scramble(seed);
      if seed < Modulus {
        ScrambleUndone(seed);
      }
    }

    /** Next: one masked step; the output is the top 32 bits of the new state. */
    method Next() returns (r: nat)
      requires Valid()
      modifies this
      ensures Valid() && state == NextState(old(state))
      ensures r < OutputDivisor && r == ValueFromRaw(state)
    {
      var next := NextState(state);
      state := next;
      r := next / DiscardDivisor;
    }

    /**
     * Next(limit): one draw, which the model bounds by fuel. It returns the
     * value of Sample and leaves the state Sample stops at; with a limit up
     * to 2^32 the value is below the limit.
     */
    method NextLimit(limit: nat, fuel: nat) returns (r: Option<nat>)
      requires Valid() && LcgBase.IsULong(limit)
      modifies this
      ensures Valid()
      ensures r.None? <==> Sample(old(state), limit, fuel).None?
      ensures r.Some? ==> Sample(old(state), limit, fuel) == Some(Draw(r.value, state))
      ensures r.Some? && 0 < limit <= OutputDivisor ==> r.value < limit
    {
      if PowerOfTwoTest(limit) {
        var next := NextState(state);
        state := next;
        return Some(ScaleOutput(next, limit));
      }
      r := ForwardUntilAccepted(limit, fuel);
    }

    /** The rejection loop of Next(limit): steps on until the test accepts the state, within fuel steps. */
    method ForwardUntilAccepted(limit: nat, fuel: nat) returns (r: Option<nat>)
      requires Valid() && 0 < limit < TWO64
      modifies this
      ensures Valid()
      ensures r.None? <==> SampleLoop(old(state), limit, fuel).None?
      ensures r.Some? ==> SampleLoop(old(state), limit, fuel) == Some(Draw(r.value, state))
    {
      var left := fuel;
      while true
        invariant Valid()
        invariant SampleLoop(old(state), limit, fuel) == SampleLoop(state, limit, left)
        decreases left
      {
        if left == 0 {
          return None;
        }
        var next := NextState(state);
        if Accepted(next, limit) {
          state := next;
          return Some((next / DiscardDivisorForMod) % limit);
        }
        SampleRejects(state, limit, left);
        state, left := next, left - 1;
      }
    }

    /** Previous: returns the top 32 bits of the current state and steps back one state. */
    method Previous() returns (r: nat)
      requires Valid()
      modifies this
      ensures Valid() && state == PreviousState(old(state))
      ensures NextState(state) == old(state) % Modulus
      ensures r == ValueFromRaw(old(state))
    {
      var current := state;
      state := PreviousState(current);
      StepsOfUnmasked(current);
      r := current / DiscardDivisor;
    }

    /**
     * Previous(limit): the bounded output of the current state, the one the
     * Next(limit) that reached it returned. A limit that passes the test
     * steps back once; any other steps back until the rejection test
     * accepts, within fuel steps.
     */
    method PreviousLimit(limit: nat, fuel: nat) returns (r: Option<nat>)
      requires Valid() && LcgBase.IsULong(limit)
      modifies this
      ensures Valid()
      ensures r.Some? ==> r.value == ValueFromRawLimit(old(state), limit)
      ensures PowerOfTwoTest(limit) ==> r.Some? && state == PreviousState(old(state))
      ensures !PowerOfTwoTest(limit) ==> (r.Some? <==> BackSample(old(state), limit, fuel).Some?)
      ensures !PowerOfTwoTest(limit) && r.Some? ==> BackSample(old(state), limit, fuel) == Some(state)
    {
      var current := state;
      if PowerOfTwoTest(limit) {
        state := PreviousState(current);
        return Some(ScaleOutput(current, limit));
      }
      var accepted := BackUntilAccepted(limit, fuel);
      if !accepted {
        return None;
      }
      return Some((current / DiscardDivisorForMod) % limit);
    }

    /** The rejection loop of Previous(limit): steps back until the test accepts the state, within fuel steps. */
    method BackUntilAccepted(limit: nat, fuel: nat) returns (accepted: bool)
      requires Valid() && 0 < limit < TWO64
      modifies this
      ensures Valid()
      ensures accepted <==> BackSample(old(state), limit, fuel).Some?
      ensures accepted ==> BackSample(old(state), limit, fuel) == Some(state)
    {
      var left := fuel;
      while true
        invariant Valid()
        invariant BackSample(old(state), limit, fuel) == BackSample(state, limit, left)
        decreases left
      {
        if left == 0 {
          return false;
        }
        var prev := PreviousState(state);
        if Accepted(prev, limit) {
          state := prev;
          return true;
        }
        BackSampleRejects(state, limit, left);
        state, left := prev, left - 1;
      }
    }

    /**
     * SeekSeedAhead: the generic seek on the scrambled seed, XORed back. Seeding
     * with the result gives the state offset steps after seeding with the seed.
     */
    method SeekSeedAhead(seed: nat, offset: nat) returns (r: nat)
      requires LcgBase.IsULong(seed) && LcgBase.IsULong(offset)
      ensures LcgBase.IsULong(r)
      ensures offset == 0 ==> r == seed
      ensures offset > 0 ==> Scramble(r) == Iterate(Scramble(seed), offset, Multiplier, Increment, Modulus)
    {
      XorMultiplierTwice(seed);
      var s := LcgBase.SeekState(Xor(seed, Multiplier, 64), offset, Multiplier, Increment, Modulus);
      r := Xor(s, Multiplier, 64);
      if offset > 0 {
        ScrambledSeek(seed, offset, Multiplier, Increment, s);
      }
    }

    /**
     * SeekSeedBack as written: the seed XORed with the multiplier goes to
     * the generic SeekSeedBack, which for any offset above 0 seeks back
     * from the instance state and ignores that seed; the result is XORed
     * back. The inverse constants are the ones the generic routine computes
     * (InverseConstants). Seeding with the result and seeking ahead reaches
     * the instance state, not the state of the seed (SeekSeedBackIgnoresSeed).
     */
    method SeekSeedBack(seed: nat, offset: nat) returns (r: nat)
      requires Valid() && LcgBase.IsULong(seed) && LcgBase.IsULong(offset)
      ensures LcgBase.IsULong(r)
      ensures offset == 0 ==> r == seed
      ensures offset > 0 ==> Scramble(r) == Iterate(state, offset, MultiplierInverse, IncrementInverseMulInv, Modulus)
      ensures offset > 0 ==> Iterate(Scramble(r), offset, Multiplier, Increment, Modulus) == state % Modulus
    {
      if offset == 0 {
        return seed;
      }
      var s := LcgBase.SeekState(state, offset, MultiplierInverse, IncrementInverseMulInv, Modulus);
      SeekBackFromState(state, offset, s);
      r := Xor(s, Multiplier, 64);
    }

    /**
     * SeekSeedBack as intended: the same with the inverse constants, from
     * the seed argument; seeking ahead from the state of the result reaches
     * the state of the seed.
     */
    method SeekSeedBackCorrected(seed: nat, offset: nat) returns (r: nat)
      requires LcgBase.IsULong(seed) && LcgBase.IsULong(offset)
      ensures LcgBase.IsULong(r)
      ensures offset == 0 ==> r == seed
      ensures offset > 0 ==> Scramble(r) == Iterate(Scramble(seed), offset, MultiplierInverse, IncrementInverseMulInv, Modulus)
      ensures Iterate(Scramble(r), offset, Multiplier, Increment, Modulus) == Scramble(seed)
    {
      XorMultiplierTwice(seed);
      var s := LcgBase.SeekState(Xor(seed, Multiplier, 64), offset, MultiplierInverse, IncrementInverseMulInv, Modulus);
      r := Xor(s, Multiplier, 64);
      if offset > 0 {
        ScrambledSeek(seed, offset, MultiplierInverse, IncrementInverseMulInv, s);
        SeekBackUndoesAhead(Scramble(seed), offset);
      }
    }

    /** The output loops of RecoverSeed: draw once per expected output until one disagrees. */
    method MatchOutputs(expected: seq<nat>, limit: nat, wildcard: nat, mask: Option<nat>, fuel: nat) returns (m: Option<bool>)
      requires Valid() && LcgBase.IsULong(limit)
      modifies this
      ensures Valid() && m == MatchFrom(old(state), expected, limit, wildcard, mask, fuel)
    {
      var i := 0;
      while i < |expected|
        invariant 0 <= i <= |expected| && Valid()
        invariant MatchFrom(old(state), expected, limit, wildcard, mask, fuel) == MatchFrom(state, expected[i..], limit, wildcard, mask, fuel)
      {
        assert expected[i..][0] == expected[i] && expected[i..][1..] == expected[i + 1..];
        var v := NextLimit(limit, fuel);
        if v.None? {
          return None;
        }
        if !Same(v.value, expected[i], mask) && expected[i] != wildcard {
          return Some(false);
        }
        i := i + 1;
      }
      return Some(true);
    }

    /**
     * RecoverSeed as written: outside the guard the search is handed on
     * unchanged; an empty range gives false; a limit that passes the
     * power-of-two test goes to RecoverSeedPowerOf2, which searches the
     * states of output[0] as seeds; any other limit goes to SearchSubseeds.
     */
    method RecoverSeed(seedStart: nat, seedEnd: nat, seedIncrement: nat, output: seq<nat>, limit: nat, wildcard: nat,
                       progressInterval: nat, cancel: SearchEvent -> bool, fuel: nat)
      returns (res: RecoveryResult, events: seq<SearchEvent>)
      requires Valid() && LcgBase.IsULong(seedStart) && LcgBase.IsULong(seedEnd) && LcgBase.IsULong(limit)
      requires LcgBase.IsULong(wildcard) && forall i :: 0 <= i < |output| ==> LcgBase.IsULong(output[i])
      modifies this
      ensures Valid()
      ensures Delegates(output, limit, wildcard) ==>
        res == Delegated(BaseSearch(seedStart, seedEnd, seedIncrement, output, limit, wildcard, progressInterval, false)) && events == []
      ensures !Delegates(output, limit, wildcard) && (seedStart > seedEnd || seedIncrement == 0) ==> res == Finished(false) && events == []
      ensures (!Delegates(output, limit, wildcard) && seedStart <= seedEnd && seedIncrement != 0 && PowerOfTwoTest(limit)) ==>
        res == RecoverSeedPowerOf2(seedStart, seedEnd, seedIncrement, output, limit, wildcard, progressInterval) && events == []
      ensures res.Delegated? ==> events == []
      ensures AllReported(events, output, limit, wildcard, fuel)
      ensures res.Finished? && seedStart <= seedEnd && seedIncrement != 0 ==> CancelProtocol(events, cancel, !res.completed)
    {
      events := [];
      if Delegates(output, limit, wildcard) {
        return Delegated(BaseSearch(seedStart, seedEnd, seedIncrement, output, limit, wildcard, progressInterval, false)), events;
      }
      if seedStart > seedEnd || seedIncrement == 0 {
        return Finished(false), events;
      }
      if PowerOfTwoTest(limit) {
        return RecoverSeedPowerOf2(seedStart, seedEnd, seedIncrement, output, limit, wildcard, progressInterval), events;
      }
      res, events := SearchSubseeds(seedEnd, output, limit, wildcard, cancel, fuel);
    }

    /** RecoverSeed with the corrected power-of-two range (RecoverSeedPowerOf2Corrected). */
    method RecoverSeedCorrected(seedStart: nat, seedEnd: nat, seedIncrement: nat, output: seq<nat>, limit: nat, wildcard: nat,
                                progressInterval: nat, cancel: SearchEvent -> bool, fuel: nat)
      returns (res: RecoveryResult, events: seq<SearchEvent>)
      requires Valid() && LcgBase.IsULong(seedStart) && LcgBase.IsULong(seedEnd) && LcgBase.IsULong(limit)
      requires LcgBase.IsULong(wildcard) && forall i :: 0 <= i < |output| ==> LcgBase.IsULong(output[i])
      modifies this
      ensures Valid()
      ensures Delegates(output, limit, wildcard) ==>
        res == Delegated(BaseSearch(seedStart, seedEnd, seedIncrement, output, limit, wildcard, progressInterval, false)) && events == []
      ensures !Delegates(output, limit, wildcard) && (seedStart > seedEnd || seedIncrement == 0) ==> res == Finished(false) && events == []
      ensures (!Delegates(output, limit, wildcard) && seedStart <= seedEnd && seedIncrement != 0 && PowerOfTwoTest(limit)) ==>
        res == RecoverSeedPowerOf2Corrected(seedStart, seedEnd, seedIncrement, output, limit, wildcard, progressInterval) && events == []
      ensures res.Delegated? ==> events == []
      ensures AllReported(events, output, limit, wildcard, fuel)
      ensures res.Finished? && seedStart <= seedEnd && seedIncrement != 0 ==> CancelProtocol(events, cancel, !res.completed)
    {
      events := [];
      if Delegates(output, limit, wildcard) {
        return Delegated(BaseSearch(seedStart, seedEnd, seedIncrement, output, limit, wildcard, progressInterval, false)), events;
      }
      if seedStart > seedEnd || seedIncrement == 0 {
        return Finished(false), events;
      }
      if PowerOfTwoTest(limit) {
        return RecoverSeedPowerOf2Corrected(seedStart, seedEnd, seedIncrement, output, limit, wildcard, progressInterval), events;
      }
      res, events := SearchSubseeds(seedEnd, output, limit, wildcard, cancel, fuel);
    }

    /**
     * The search of RecoverSeed for a limit that is not a power of two: the
     * low 17 state bits are brute-forced, first against the output bits the
     * low state bits decide (the bits below the lowest set bit of the
     * limit), then over the states whose top 31 bits are output[0] plus a
     * multiple of the limit; every state whose draws give the later outputs
     * is reported as the seed PreviousState(state) ^ M.
     */
    method SearchSubseeds(seedEnd: nat, output: seq<nat>, limit: nat, wildcard: nat, cancel: SearchEvent -> bool, fuel: nat)
      returns (res: RecoveryResult, events: seq<SearchEvent>)
      requires Valid() && LcgBase.IsULong(seedEnd) && LcgBase.IsULong(limit) && LcgBase.IsULong(wildcard)
      requires forall i :: 0 <= i < |output| ==> LcgBase.IsULong(output[i])
      requires !Delegates(output, limit, wildcard) && !PowerOfTwoTest(limit)
      modifies this
      ensures Valid() && !res.Delegated?
      ensures AllReported(events, output, limit, wildcard, fuel)
      ensures res.Finished? ==> CancelProtocol(events, cancel, !res.completed)
    {
      events := [];
      FailingLimit(limit);
      ModSmall(limit, TWO32);
      Pow2Of64();
      var suboutput := output[1..];
      var seedtopincr := (limit % TWO32) * DiscardDivisorForMod;
      var mask := LowMask(limit % TWO32);
      var subseed: nat := And(output[0], mask, 64) * DiscardDivisorForMod;
      var subseedend: nat := subseed + DiscardDivisorForMod - 1;
      assert subseedend < TWO64;
      var left := fuel;
      while subseed != subseedend
        invariant Valid() && subseed <= subseedend
        invariant AllReported(events, output, limit, wildcard, fuel)
        invariant CancelProtocol(events, cancel, false)
        decreases subseedend - subseed
      {
        var candidate := true;
        if mask != 0 {
          state := subseed;
          var m := MatchOutputs(suboutput, limit, wildcard, Some(mask), fuel);
          if m.None? {
            return Exhausted, events;
          }
          candidate := m.value;
        }
        if candidate {
          var stop, found;
          stop, found, left := ScanSeeds(Or(output[0] * DiscardDivisorForMod, subseed, 64), seedEnd, seedtopincr,
                                         output, limit, wildcard, cancel, fuel, left);
          AllReportedAppend(events, found, output, limit, wildcard, fuel);
          if stop == Some(Exhausted) {
            return Exhausted, events + found;
          }
          CancelProtocolAppend(events, found, cancel, stop.Some?);
          events := events + found;
          if stop.Some? {
            return Finished(false), events;
          }
        }
        subseed := subseed + 1;
      }
      return Finished(true), events;
    }

    /** Seeds the generator with a candidate state and compares its draws with the outputs after the first. */
    method Probe(seed: nat, output: seq<nat>, limit: nat, wildcard: nat, fuel: nat) returns (m: Option<bool>)
      requires Valid() && seed < TWO64 && LcgBase.IsULong(limit) && |output| >= 1
      modifies this
      ensures Valid() && m == MatchFrom(seed, output[1..], limit, wildcard, None, fuel)
    {
      state := seed;
      m := MatchOutputs(output[1..], limit, wildcard, None, fuel);
    }

    /**
     * The seed loop of RecoverSeed for one subgenerator seed: the states from
     * first up to seedEnd in steps of seedtopincr (wrapping at 2^64), each
     * tried against the outputs after the first. The model bounds the steps
     * by left, which it hands back reduced; it stops with Exhausted when that
     * runs out and with Finished(false) when the callback cancels.
     */
    method ScanSeeds(first: nat, seedEnd: nat, seedtopincr: nat, output: seq<nat>, limit: nat, wildcard: nat,
                     cancel: SearchEvent -> bool, fuel: nat, left: nat)
      returns (stop: Option<RecoveryResult>, found: seq<SearchEvent>, rest: nat)
      requires Valid() && first < TWO64 && LcgBase.IsULong(limit) && |output| >= 1
      modifies this
      ensures Valid() && rest <= left
      ensures AllReported(found, output, limit, wildcard, fuel)
      ensures stop.None? ==> CancelProtocol(found, cancel, false)
      ensures stop.Some? ==> stop == Some(Exhausted) || (stop == Some(Finished(false)) && CancelProtocol(found, cancel, true))
    {
      found := [];
      rest := left;
      stop := None;
      var seed: nat := first;
      while stop.None? && seed <= seedEnd
        invariant Valid() && seed < TWO64 && rest <= left
        invariant AllReported(found, output, limit, wildcard, fuel)
        invariant stop.None? ==> CancelProtocol(found, cancel, false)
        invariant stop.Some? ==> stop == Some(Exhausted) || (stop == Some(Finished(false)) && CancelProtocol(found, cancel, true))
        decreases rest, if stop.None? then 1 else 0
      {
        if rest == 0 {
          stop := Some(Exhausted);
        } else {
          rest := rest - 1;
          var m := Probe(seed, output, limit, wildcard, fuel);
          if m.None? {
            stop := Some(Exhausted);
          } else {
            if m.value {
              var e := Discovery(seed);
              ReportDiscovery(found, e, seed, output, limit, wildcard, fuel, cancel);
              found := found + [e];
              if cancel(e) {
                stop := Some(Finished(false));
              }
            }
            seed := (seed + seedtopincr) % TWO64;
          }
        }
      }
    }
  }

  /** The output comparison of the search loops: exact, or on the bits of a mask. */
  predicate Same(value: nat, expected: nat, mask: Option<nat>)
  {
    match mask
    case None => value == expected
    case Some(m) => And(value, m, 64) == And(expected, m, 64)
  }

  /**
   * Whether the draws from a state agree with the expected outputs, a
   * wildcard agreeing with anything: Some(false) at the first disagreement,
   * None when a draw runs out of fuel.
   */
  function MatchFrom(state: nat, expected: seq<nat>, limit: nat, wildcard: nat, mask: Option<nat>, fuel: nat): Option<bool>
    requires state < TWO64 && limit < TWO64
    decreases |expected|
  {
    if |expected| == 0 then Some(true)
    else match Sample(state, limit, fuel)
      case None => None
      case Some(d) =>
        if !Same(d.value, expected[0], mask) && expected[0] != wildcard then Some(false)
        else MatchFrom(d.state, expected[1..], limit, wildcard, mask, fuel)
  }

  /**
   * Wildcards agree with every draw: outputs that are all wildcards never
   * disagree, and for a limit that passes the power-of-two test they match.
   */
  lemma {:induction false} WildcardsMatch(state: nat, expected: seq<nat>, limit: nat, wildcard: nat, mask: Option<nat>, fuel: nat)
    requires state < TWO64 && limit < TWO64
    requires forall i :: 0 <= i < |expected| ==> expected[i] == wildcard
    ensures MatchFrom(state, expected, limit, wildcard, mask, fuel) != Some(false)
    ensures PowerOfTwoTest(limit) ==> MatchFrom(state, expected, limit, wildcard, mask, fuel) == Some(true)
    decreases |expected|
  {
    if |expected| > 0 {
      var r := Sample(state, limit, fuel);
      if r.Some? {
        WildcardsMatch(r.value.state, expected[1..], limit, wildcard, mask, fuel);
      }
    }
  }

  /** Only the low 48 bits of the state matter to a match. */
  lemma MatchFromOfUnmasked(state: nat, expected: seq<nat>, limit: nat, wildcard: nat, mask: Option<nat>, fuel: nat)
    requires state < TWO64 && limit < TWO64
    ensures MatchFrom(state % Modulus, expected, limit, wildcard, mask, fuel) == MatchFrom(state, expected, limit, wildcard, mask, fuel)
  {
    if |expected| > 0 {
      SampleOfUnmasked(state, limit, fuel);
    }
  }

  /** The guard under which RecoverSeed hands the search on unchanged. */
  predicate Delegates(output: seq<nat>, limit: nat, wildcard: nat)
  {
    |output| < 2 || output[0] > (TWO64 - 1) / OutputDivisor || output[0] == wildcard || limit == 0 || limit > OutputDivisor
  }

  /**
   * A discovered seed as the search reports it: seeding with it and taking
   * one step reaches a state whose draws agree with the outputs after the
   * first.
   */
  predicate Reported(e: SearchEvent, output: seq<nat>, limit: nat, wildcard: nat, fuel: nat)
  {
    |output| >= 1 && limit < TWO64 && e == Discovered(e.seed)
    && MatchFrom(NextState(Scramble(e.seed)), output[1..], limit, wildcard, None, fuel) == Some(true)
  }

  /** Every event of a sequence is a reported discovery. */
  predicate AllReported(events: seq<SearchEvent>, output: seq<nat>, limit: nat, wildcard: nat, fuel: nat)
  {
    forall i :: 0 <= i < |events| ==> Reported(events[i], output, limit, wildcard, fuel)
  }

  lemma AllReportedAppend(events: seq<SearchEvent>, more: seq<SearchEvent>, output: seq<nat>, limit: nat, wildcard: nat, fuel: nat)
    requires AllReported(events, output, limit, wildcard, fuel) && AllReported(more, output, limit, wildcard, fuel)
    ensures AllReported(events + more, output, limit, wildcard, fuel)
  {
    forall i | 0 <= i < |events + more|
      ensures Reported((events + more)[i], output, limit, wildcard, fuel)
    {
      if i >= |events| {
        assert (events + more)[i] == more[i - |events|];
      }
    }
  }

  /** The seed RecoverSeed reports for a matching state: the state before it, unscrambled. */
  function Discovery(state: nat): SearchEvent
    requires state < TWO64
  {
    Discovered(Xor(PreviousState(state), Multiplier, 64))
  }

  /** A state whose draws match is reported as PreviousState(state) ^ M, which seeds to the state before it. */
  lemma DiscoveryIsReported(seed: nat, output: seq<nat>, limit: nat, wildcard: nat, fuel: nat)
    requires seed < TWO64 && limit < TWO64 && |output| >= 1
    requires MatchFrom(seed, output[1..], limit, wildcard, None, fuel) == Some(true)
    ensures Reported(Discovery(seed), output, limit, wildcard, fuel)
  {
    var p := PreviousState(seed);
    ScrambleUndone(p);
    StepsOfUnmasked(seed);
    MatchFromOfUnmasked(seed, output[1..], limit, wildcard, None, fuel);
  }

  /** A matching seed's discovery extends the reported events and the cancel protocol. */
  lemma ReportDiscovery(found: seq<SearchEvent>, e: SearchEvent, seed: nat, output: seq<nat>, limit: nat, wildcard: nat,
                        fuel: nat, cancel: SearchEvent -> bool)
    requires seed < TWO64 && limit < TWO64 && |output| >= 1
    requires AllReported(found, output, limit, wildcard, fuel) && CancelProtocol(found, cancel, false)
    requires MatchFrom(seed, output[1..], limit, wildcard, None, fuel) == Some(true)
    requires e == Discovery(seed)
    ensures AllReported(found + [e], output, limit, wildcard, fuel)
    ensures CancelProtocol(found + [e], cancel, cancel(e))
  {
    DiscoveryIsReported(seed, output, limit, wildcard, fuel);
    CancelProtocolAppend(found, [e], cancel, cancel(e));
    AllReportedAppend(found, [e], output, limit, wildcard, fuel);
  }

  /**
   * The range RecoverSeedPowerOf2 computes as written: output[0] times
   * 2^48/limit and the 2^48/limit values from there, in ulong arithmetic.
   */
  function PowerRange(output0: nat, limit: nat): (range: (nat, nat))
    requires 0 < limit <= OutputDivisor
    ensures range.0 < TWO64 && range.1 < TWO64
  {
    var rangesize := Modulus / limit;
    Block((output0 * rangesize) % TWO64, rangesize)
  }

  /** The rangesize values from rangestart, the end computed in ulong arithmetic. */
  function Block(rangestart: nat, rangesize: nat): (range: (nat, nat))
  {
    (rangestart, (rangestart + rangesize - 1) % TWO64)
  }

  /** For a limit 2^k, 2^48/limit is 2^(48-k). */
  lemma RangeSize(k: nat)
    requires k <= 31
    ensures Pow2(k) <= Bound31 && Modulus / Pow2(k) == Pow2(48 - k)
    ensures Pow2(k) * Pow2(48 - k) == Modulus && Pow2(48 - k) * Pow2(k) == Modulus
  {
    Powers();
    Pow2Order(k, 31);
    Pow2Add(k, 48 - k);
    DivMulCancel(Pow2(48 - k), Pow2(k));
  }

  /**
   * The range as written is the set of 48-bit states whose scaled output
   * for a limit 2^k (k <= 31) is output0.
   */
  lemma PowerRangeIsStateClass(output0: nat, k: nat, x: nat)
    requires k <= 31 && output0 < Pow2(k) && x < Modulus
    ensures Pow2(k) <= OutputDivisor
    ensures var range := PowerRange(output0, Pow2(k));
      range.0 <= x <= range.1 <==> ValueFromRawLimit(x, Pow2(k)) == output0
  {
    RangeSize(k);
    var rs := Pow2(48 - k);
    assert PowerRange(output0, Pow2(k)) == (output0 * rs, (output0 + 1) * rs - 1) by {
      MulLe(output0 + 1, Pow2(k), rs);
      ModSmall(output0 * rs, TWO64);
      ModSmall(output0 * rs + rs - 1, TWO64);
    }
    assert ValueFromRawLimit(x, Pow2(k)) == x / rs by {
      PowerOfTwoTestPasses(k);
      ScaleOfPowerOfTwo(x, k);
    }
    QuotientIs(x, rs, output0);
  }

  /**
   * The top k bits of the state a seed scrambles to are the exclusive or of
   * the seed's bits from 48-k up with the multiplier's, kept to k bits.
   */
  lemma ScrambledQuotient(s: nat, k: nat)
    requires k <= 31
    ensures Shr(Scramble(s), 48 - k) == Xor(Shr(s, 48 - k), Shr(Multiplier, 48 - k), 16 + k) % Pow2(k)
  {
    ScrambleIsResidue(s, k);
    HighOfLow(Xor(s, Multiplier, 64), Pow2(48 - k), Pow2(k));
    XorHigh(s, Multiplier, 48 - k, 16 + k);
  }

  lemma ScrambleIsResidue(s: nat, k: nat)
    requires k <= 31
    ensures Scramble(s) == Xor(s, Multiplier, 64) % (Pow2(48 - k) * Pow2(k))
  {
    RangeSize(k);
  }

  /**
   * Finding, as written: the range is computed on seeds, but the search
   * seeds each candidate through Seed, which XORs in the multiplier. For the
   * limit 2^16 and output 0 the range is the seeds below 2^32, and every one
   * of them is seeded to a state whose output is 5, not 0.
   */
  lemma PowerRangeMissesSeeds(s: nat)
    requires s < TWO32
    ensures PowerRange(0, 0x1_0000) == (0, 0xFFFF_FFFF)
    ensures ValueFromRawLimit(Scramble(s), 0x1_0000) == 5
  {
    PowerRangeOfZero();
    LowSeedsScrambleToFive(s);
    Pow2Of16();
    Pow2Of32();
    PowerOfTwoTestPasses(16);
    ScaleOfPowerOfTwo(Scramble(s), 16);
  }

  lemma PowerRangeOfZero()
    ensures PowerRange(0, 0x1_0000) == (0, 0xFFFF_FFFF)
  {
  }

  /** A seed below 2^32 scrambles to a state whose bits 32 to 47 are those of the multiplier, 5. */
  lemma LowSeedsScrambleToFive(s: nat)
    requires s < TWO32
    ensures Shr(Scramble(s), 32) == 5
  {
    Pow2Of16();
    Pow2Of32();
    ScrambledQuotient(s, 16);
    assert Shr(s, 32) == 0 by {
      ModSmall(s, TWO32);
    }
    assert Shr(Multiplier, 32) == 5;
    XorWithZero(5, 32);
    ModSmall(5, Pow2(32));
    ModSmall(5, Pow2(16));
  }

  /**
   * The corrected range: the block of seeds whose bits from 48-k up are
   * output[0] XOR the multiplier's, so that Seed turns them into the states
   * whose output is output[0].
   */
  function PowerRangeCorrected(output0: nat, limit: nat): (range: (nat, nat))
    requires 0 < limit <= OutputDivisor
    ensures range.0 < TWO64 && range.1 < TWO64
  {
    var rangesize := Modulus / limit;
    Block((Xor(output0, Multiplier / rangesize, 64) * rangesize) % TWO64, rangesize)
  }

  /**
   * The corrected range is exactly the set of 48-bit seeds that Seed turns
   * into a state whose scaled output for a limit 2^k (k <= 31) is output0.
   */
  lemma PowerRangeCorrectedIsSeedClass(output0: nat, k: nat, s: nat)
    requires k <= 31 && output0 < Pow2(k) && s < Modulus
    ensures Pow2(k) <= OutputDivisor
    ensures var range := PowerRangeCorrected(output0, Pow2(k));
      range.0 <= range.1 < Modulus && (range.0 <= s <= range.1 <==> ValueFromRawLimit(Scramble(s), Pow2(k)) == output0)
  {
    CorrectedRangeIs(output0, k);
    ScrambledOutput(s, k);
    var rs := Pow2(48 - k);
    var j := Xor(output0, Shr(Multiplier, 48 - k), k);
    InBlockIsQuotient(s, j, rs);
    assert Shr(s, 48 - k) == s / rs;
    XorSolve(Shr(s, 48 - k), output0, Shr(Multiplier, 48 - k), k);
  }

  /** A value lies in block j of size rs exactly when its quotient by rs is j. */
  lemma InBlockIsQuotient(s: nat, j: nat, rs: nat)
    requires rs > 0
    ensures j * rs <= s <= j * rs + rs - 1 <==> s / rs == j
  {
    QuotientIs(s, rs, j);
    assert (j + 1) * rs == j * rs + rs;
  }

  /** The corrected range is the block of 2^(48-k) seeds starting at (output0 ^ (M >> (48-k))) << (48-k). */
  lemma CorrectedRangeIs(output0: nat, k: nat)
    requires k <= 31 && output0 < Pow2(k)
    ensures Pow2(k) <= OutputDivisor
    ensures Xor(output0, Shr(Multiplier, 48 - k), k) < Pow2(k)
    ensures Xor(output0, Shr(Multiplier, 48 - k), k) * Pow2(48 - k) + Pow2(48 - k) <= Modulus
    ensures var rs := Pow2(48 - k); var j := Xor(output0, Shr(Multiplier, 48 - k), k);
      PowerRangeCorrected(output0, Pow2(k)).0 == j * rs && PowerRangeCorrected(output0, Pow2(k)).1 == j * rs + rs - 1
  {
    RangeSize(k);
    var rs := Pow2(48 - k);
    var m := Shr(Multiplier, 48 - k);
    assert Multiplier / (Modulus / Pow2(k)) == m;
    assert m < Pow2(k) by {
      DivBound(Multiplier, rs, Pow2(k));
    }
    XorBound(output0, m, 64, k);
    var j := Xor(output0, m, k);
    BlockFits(j, rs, Pow2(k));
    CorrectedRangeUnfold(output0, Pow2(k), rs, m);
  }

  lemma CorrectedRangeUnfold(output0: nat, limit: nat, rs: nat, m: nat)
    requires 0 < limit <= OutputDivisor && Modulus / limit == rs && Multiplier / rs == m
    ensures PowerRangeCorrected(output0, limit) == Block((Xor(output0, m, 64) * rs) % TWO64, rs)
  {
  }

  /** Block j of size rs, for j below b, ends within b blocks, and the ulong arithmetic does not wrap. */
  lemma BlockFits(j: nat, rs: nat, b: nat)
    requires j < b && rs > 0 && rs * b == Modulus
    ensures j * rs + rs <= Modulus && Block((j * rs) % TWO64, rs).0 == j * rs && Block((j * rs) % TWO64, rs).1 == j * rs + rs - 1
  {
    MulLe(j + 1, b, rs);
    assert (j + 1) * rs == j * rs + rs;
    ModSmall(j * rs, TWO64);
    ModSmall(j * rs + rs - 1, TWO64);
  }

  /** The output for a limit 2^k of the state a 48-bit seed scrambles to, as an exclusive or of k bits. */
  lemma ScrambledOutput(s: nat, k: nat)
    requires k <= 31 && s < Modulus
    ensures Pow2(k) <= OutputDivisor && Shr(s, 48 - k) < Pow2(k)
    ensures ValueFromRawLimit(Scramble(s), Pow2(k)) == Xor(Shr(s, 48 - k), Shr(Multiplier, 48 - k), k)
  {
    RangeSize(k);
    PowerOfTwoTestPasses(k);
    ScaleOfPowerOfTwo(Scramble(s), k);
    ScrambledQuotient(s, k);
    DivBound(s, Pow2(48 - k), Pow2(k));
    XorLow(Shr(s, 48 - k), Shr(Multiplier, 48 - k), 16 + k, k);
  }

  /** On k bits, q ^ m == o exactly when q == o ^ m. */
  lemma XorSolve(q: nat, o: nat, m: nat, k: nat)
    requires q < Pow2(k) && o < Pow2(k)
    ensures Xor(q, m, k) == o <==> q == Xor(o, m, k)
  {
    XorTwice(q, m, k);
    XorTwice(o, m, k);
    ModSmall(q, Pow2(k));
    ModSmall(o, Pow2(k));
  }

  /**
   * The hand-off of RecoverSeedPowerOf2 for a range of candidate seeds: the
   * range aligned to the stride and clamped to seedEnd, handed to the
   * generic search on the outputs after the first, with the wrapper callback.
   */
  function PowerOfTwoHandOff(range: (nat, nat), seedStart: nat, seedEnd: nat, seedIncrement: nat, output: seq<nat>,
                             limit: nat, wildcard: nat, progressInterval: nat): (res: RecoveryResult)
    requires range.0 < TWO64 && LcgBase.IsULong(seedStart) && LcgBase.IsULong(seedEnd) && |output| >= 1
    ensures res.Delegated? && res.search.wrapped
    ensures res.search.seedStart == AlignStart(range.0, seedStart, seedIncrement)
    ensures res.search.seedEnd <= seedEnd && res.search.seedEnd <= range.1
    ensures res.search.seedEnd == seedEnd || res.search.seedEnd == range.1
    ensures res.search.output == output[1..] && res.search.seedIncrement == seedIncrement && res.search.limit == limit
    ensures res.search.wildcard == wildcard && res.search.progressInterval == progressInterval
  {
    var rangeend := if range.1 > seedEnd then seedEnd else range.1;
    Delegated(BaseSearch(AlignStart(range.0, seedStart, seedIncrement), rangeend, seedIncrement, output[1..], limit, wildcard,
                         progressInterval, true))
  }

  /**
   * RecoverSeedPowerOf2 as written: the range of states whose output is
   * output[0] (PowerRangeIsStateClass) is searched as a range of seeds.
   */
  function RecoverSeedPowerOf2(seedStart: nat, seedEnd: nat, seedIncrement: nat, output: seq<nat>, limit: nat,
                               wildcard: nat, progressInterval: nat): (res: RecoveryResult)
    requires LcgBase.IsULong(seedStart) && LcgBase.IsULong(seedEnd) && |output| >= 1 && 0 < limit <= OutputDivisor
    ensures res.Delegated? && res.search.wrapped
    ensures res.search.seedStart == AlignStart(PowerRange(output[0], limit).0, seedStart, seedIncrement)
    ensures res.search.seedEnd <= seedEnd && res.search.seedEnd <= PowerRange(output[0], limit).1
    ensures res.search.output == output[1..] && res.search.seedIncrement == seedIncrement && res.search.limit == limit
    ensures res.search.wildcard == wildcard && res.search.progressInterval == progressInterval
  {
    PowerOfTwoHandOff(PowerRange(output[0], limit), seedStart, seedEnd, seedIncrement, output, limit, wildcard, progressInterval)
  }

  /**
   * As written, the whole-range search for output 0 with the limit 2^16
   * hands on the seeds 0 to 2^32 - 1, and every one of them is seeded to a
   * state whose output is 5: the search cannot find a seed.
   */
  lemma PowerOfTwoSearchMisses(output: seq<nat>, wildcard: nat, progressInterval: nat, s: nat)
    requires |output| >= 1 && output[0] == 0
    requires var search := RecoverSeedPowerOf2(0, TWO64 - 1, 1, output, 0x1_0000, wildcard, progressInterval).search;
      search.seedStart <= s <= search.seedEnd
    ensures RecoverSeedPowerOf2(0, TWO64 - 1, 1, output, 0x1_0000, wildcard, progressInterval).search.seedEnd == 0xFFFF_FFFF
    ensures ValueFromRawLimit(Scramble(s), 0x1_0000) == 5
  {
    PowerRangeOfZero();
    PowerRangeMissesSeeds(s);
  }

  /** RecoverSeedPowerOf2 as intended: the range of seeds that Seed turns into those states. */
  function RecoverSeedPowerOf2Corrected(seedStart: nat, seedEnd: nat, seedIncrement: nat, output: seq<nat>, limit: nat,
                                        wildcard: nat, progressInterval: nat): (res: RecoveryResult)
    requires LcgBase.IsULong(seedStart) && LcgBase.IsULong(seedEnd) && |output| >= 1 && 0 < limit <= OutputDivisor
    ensures res.Delegated? && res.search.wrapped
    ensures res.search.seedStart == AlignStart(PowerRangeCorrected(output[0], limit).0, seedStart, seedIncrement)
    ensures res.search.seedEnd <= seedEnd && res.search.seedEnd <= PowerRangeCorrected(output[0], limit).1
    ensures res.search.output == output[1..] && res.search.seedIncrement == seedIncrement && res.search.limit == limit
    ensures res.search.wildcard == wildcard && res.search.progressInterval == progressInterval
  {
    PowerOfTwoHandOff(PowerRangeCorrected(output[0], limit), seedStart, seedEnd, seedIncrement, output, limit, wildcard,
                      progressInterval)
  }

  /**
   * The search RecoverSeedPowerOf2 hands on visits exactly the candidates
   * it should: every 48-bit seed between its bounds is seeded to a state
   * whose output is output[0], and every 48-bit seed in the caller's range,
   * on the caller's stride, that is seeded to such a state lies between its
   * bounds.
   */
  lemma PowerOfTwoSearchIsOutputClass(seedStart: nat, seedEnd: nat, seedIncrement: nat, output: seq<nat>, k: nat,
                                      wildcard: nat, progressInterval: nat, s: nat)
    requires LcgBase.IsULong(seedStart) && LcgBase.IsULong(seedEnd) && |output| >= 1 && k <= 31 && output[0] < Pow2(k)
    requires 0 < seedIncrement <= TWO64 - Modulus && s < Modulus
    ensures Pow2(k) <= OutputDivisor
    ensures var search := RecoverSeedPowerOf2Corrected(seedStart, seedEnd, seedIncrement, output, Pow2(k), wildcard, progressInterval).search;
      (search.seedStart <= s <= search.seedEnd ==> ValueFromRawLimit(Scramble(s), Pow2(k)) == output[0])
      && (seedStart <= s <= seedEnd && (s - seedStart) % seedIncrement == 0 && ValueFromRawLimit(Scramble(s), Pow2(k)) == output[0]
          ==> search.seedStart <= s <= search.seedEnd)
  {
    PowerRangeCorrectedIsSeedClass(output[0], k, s);
    var range := PowerRangeCorrected(output[0], Pow2(k));
    assert range.0 + seedIncrement <= TWO64;
    AlignStartIsNextOnStride(range.0, seedStart, seedIncrement);
    if seedStart <= s && range.0 <= s && (s - seedStart) % seedIncrement == 0 {
      AlignedNotAbove(range.0, seedStart, seedIncrement, s);
    }
  }

  /**
   * The wrapper's seed rewrite s -> PreviousState(s ^ M) ^ M: seeding with the
   * result and taking one step reaches the state that s seeds to.
   */
  function Unwrap(s: nat): (r: nat)
    ensures r < TWO64 && NextState(Scramble(r)) == Scramble(s)
  {
    Powers();
    var p := PreviousState(Xor(s, Multiplier, 64));
    ScrambleUndone(p);
    StepsOfUnmasked(Xor(s, Multiplier, 64));
    Xor(p, Multiplier, 64)
  }

  /** The wrapper callback: a discovered seed is rewritten by Unwrap, every other event forwarded. */
  function Wrapper(e: SearchEvent): (r: SearchEvent)
    ensures e.eventType == SeedDiscovered ==> r.seed == Unwrap(e.seed)
    ensures e.eventType != SeedDiscovered ==> r == e
  {
    Rewrite(e, Unwrap)
  }

  /**
   * A seed the power-of-two search reports, once rewritten by the wrapper,
   * seeds a generator whose first Next(limit) is output[0] and leaves the
   * state the reported seed seeds to, from which the generic search matched
   * the later outputs.
   */
  lemma WrappedSeedReproducesFirstOutput(s: nat, k: nat, output0: nat, fuel: nat)
    requires k <= 31 && Pow2(k) <= Bound31 && ValueFromRawLimit(Scramble(s), Pow2(k)) == output0
    ensures Sample(Scramble(Wrapper(Discovered(s)).seed), Pow2(k), fuel) == Some(Draw(output0, Scramble(s)))
  {
    var r := Wrapper(Discovered(s)).seed;
    assert NextState(Scramble(r)) == Scramble(s);
    PowerOfTwoTestPasses(k);
    SampleOfPowerOfTwo(Scramble(r), Pow2(k), fuel);
  }

  /** For a limit that passes the test, a draw is one step and the scaled output of the new state. */
  lemma SampleOfPowerOfTwo(state: nat, limit: nat, fuel: nat)
    requires state < TWO64 && limit < TWO64 && PowerOfTwoTest(limit)
    ensures Sample(state, limit, fuel) == Some(Draw(ValueFromRawLimit(NextState(state), limit), NextState(state)))
  {
  }
}

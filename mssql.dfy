/**
 * PrngMssql: the RAND() of Microsoft SQL Server, L'Ecuyer's combination of
 * two Lehmer generators modulo the primes 2147483563 and 2147483399; the
 * output is the difference of the two states folded into
 * [1, 2147483562]. Seeking raises each multiplier to the offset in 256-bit
 * arithmetic. The bounded outputs scale by a double and are not part of
 * this model.
 */
module Mssql {
  import opened Common
  import opened LcgMath
  import opened UInt256
  import LcgBase
  import LehmerBase

  const Modulus0: nat := 2147483563
  const Modulus1: nat := 2147483399
  const Multiplier0: nat := 40014
  const Multiplier1: nat := 40692
  /** The multiplicative inverse of Multiplier0 modulo Modulus0. */
  const Multiplier0Inverse: nat := 2082061899
  /** The multiplicative inverse of Multiplier1 modulo Modulus1. */
  const Multiplier1Inverse: nat := 1481316021
  const MinimumSeed: nat := Modulus1 + 1
  const MaximumSeed: nat := Modulus0 * Modulus1 - 1
  /** The period bound by which SeekStateInternal reduces an offset: (Modulus0 - 1) * (Modulus1 - 1). */
  const MaximumPeriod: nat := (Modulus0 - 1) * (Modulus1 - 1)
  /** The states Seed and Seed32 put in place of a rejected one. */
  const DefaultState0: nat := 12345
  const DefaultState1: nat := 67890

  /** The stored inverses are what their comments say they are. */
  lemma InverseConstants()
    ensures (Multiplier0 * Multiplier0Inverse) % Modulus0 == 1
    ensures (Multiplier1 * Multiplier1Inverse) % Modulus1 == 1
  {
  }

  /** The (int) cast of a uint: values from 2^31 up stand for negative numbers. */
  function AsInt32(u: nat): int
    requires u < TWO32
  {
    if u < 0x8000_0000 then u else u - TWO32
  }

  /** The cast gives back any int that was wrapped to a uint. */
  lemma AsInt32OfWrapped(x: int)
    requires -0x8000_0000 <= x < 0x8000_0000
    ensures AsInt32(x % TWO32) == x
  {
    if x >= 0 {
      ModSmall(x, TWO32);
    } else {
      ModSmall(x + TWO32, TWO32);
      ModAddMultiple(x, 1, TWO32);
    }
  }

  /**
   * The output of a pair of states: their difference as a signed 32-bit
   * int, plus Modulus0 - 1 when it is not positive, cast to uint. From
   * states below their moduli it is the difference modulo Modulus0 - 1,
   * taken in [1, Modulus0 - 1].
   */
  function Combine(state0: nat, state1: nat): (r: nat)
    requires state0 < TWO32 && state1 < TWO32
    ensures r < TWO32
    ensures state0 < Modulus0 && state1 < Modulus1 ==>
      1 <= r <= Modulus0 - 1 && r % (Modulus0 - 1) == (state0 - state1) % (Modulus0 - 1)
  {
    var d := AsInt32((state0 - state1) % TWO32);
    var next := if d <= 0 then d + (Modulus0 - 1) else d;
    CombineOfStates(state0, state1);
    next % TWO32
  }

  /** The arithmetic behind Combine's contract. */
  lemma CombineOfStates(state0: nat, state1: nat)
    requires state0 < TWO32 && state1 < TWO32
    ensures var d := AsInt32((state0 - state1) % TWO32);
      var next := if d <= 0 then d + (Modulus0 - 1) else d;
      state0 < Modulus0 && state1 < Modulus1 ==>
        1 <= next % TWO32 <= Modulus0 - 1 && (next % TWO32) % (Modulus0 - 1) == (state0 - state1) % (Modulus0 - 1)
  {
    if state0 < Modulus0 && state1 < Modulus1 {
      var x: int := state0 - state1;
      AsInt32OfWrapped(x);
      var next := if x <= 0 then x + (Modulus0 - 1) else x;
      ModSmall(next, TWO32);
      ModAddMultiple(x, 1, Modulus0 - 1);
    }
  }

  /** One step of each Lehmer generator; the 64-bit products cannot wrap. */
  function Step0(state0: nat): (r: nat)
    requires state0 < TWO32
    ensures r < Modulus0 && r == Step(state0, Multiplier0, LehmerBase.Increment, Modulus0)
  {
    (state0 * Multiplier0) % Modulus0
  }

  function Step1(state1: nat): (r: nat)
    requires state1 < TWO32
    ensures r < Modulus1 && r == Step(state1, Multiplier1, LehmerBase.Increment, Modulus1)
  {
    (state1 * Multiplier1) % Modulus1
  }

  /** NextFromStates: the output of the states one step on, in [1, Modulus0 - 1] for any uint states. */
  function NextFromStates(state0: nat, state1: nat): (r: nat)
    requires state0 < TWO32 && state1 < TWO32
    ensures 1 <= r <= Modulus0 - 1
    ensures r % (Modulus0 - 1) == (Step0(state0) - Step1(state1)) % (Modulus0 - 1)
  {
    Combine(Step0(state0), Step1(state1))
  }

  /** The inverse multipliers undo one step of each generator, and the other way round. */
  lemma StepRoundTrip(state0: nat, state1: nat)
    requires state0 < Modulus0 && state1 < Modulus1
    ensures Step(Step0(state0), Multiplier0Inverse, LehmerBase.Increment, Modulus0) == state0
    ensures Step(Step1(state1), Multiplier1Inverse, LehmerBase.Increment, Modulus1) == state1
    ensures Step0(Step(state0, Multiplier0Inverse, LehmerBase.Increment, Modulus0)) == state0
    ensures Step1(Step(state1, Multiplier1Inverse, LehmerBase.Increment, Modulus1)) == state1
  {
    InverseConstants();
    LehmerStepRoundTrip(state0, Multiplier0, Multiplier0Inverse, Modulus0);
    LehmerStepRoundTrip(state1, Multiplier1, Multiplier1Inverse, Modulus1);
  }

  /** One Lehmer step with a multiplier and one with its inverse cancel, in either order. */
  lemma LehmerStepRoundTrip(x: nat, multiplier: nat, inverse: nat, m: nat)
    requires m > 0 && x < m && (multiplier * inverse) % m == 1
    ensures Step(Step(x, multiplier, LehmerBase.Increment, m), inverse, LehmerBase.Increment, m) == x
    ensures Step(Step(x, inverse, LehmerBase.Increment, m), multiplier, LehmerBase.Increment, m) == x
  {
    LehmerBase.BackIncrementOfZero(inverse, m);
    BackAfterForward(x, multiplier, LehmerBase.Increment, inverse, m);
    ForwardAfterBack(x, multiplier, LehmerBase.Increment, inverse, m);
  }

  /** SeedToStates: the seed as the pair quotient and remainder by Modulus1, each cast to uint. */
  function SeedToStates(seed: nat): (r: (nat, nat))
    ensures r.0 < TWO32 && r.1 < Modulus1
  {
    ((seed / Modulus1) % TWO32, (seed % Modulus1) % TWO32)
  }

  /** SeedFromStates: state0 * Modulus1 + state1 in ulong arithmetic. */
  function SeedFromStates(state0: nat, state1: nat): (r: nat)
    ensures LcgBase.IsULong(r)
  {
    (state0 * Modulus1 + state1) % TWO64
  }

  /**
   * The seeds up to MaximumSeed and the pairs of states below the moduli
   * correspond one to one through SeedToStates and SeedFromStates.
   */
  lemma SeedRoundTrip(seed: nat, state0: nat, state1: nat)
    ensures seed <= MaximumSeed ==>
      SeedToStates(seed).0 < Modulus0 && SeedFromStates(SeedToStates(seed).0, SeedToStates(seed).1) == seed
    ensures state0 < Modulus0 && state1 < Modulus1 ==>
      SeedFromStates(state0, state1) <= MaximumSeed && SeedToStates(SeedFromStates(state0, state1)) == (state0, state1)
  {
    if seed <= MaximumSeed {
      DivBound(seed, Modulus1, Modulus0);
      ModSmall(seed / Modulus1, TWO32);
      ModSmall(seed % Modulus1, TWO32);
      ModSmall(seed, TWO64);
    }
    if state0 < Modulus0 && state1 < Modulus1 {
      var s := state0 * Modulus1 + state1;
      MulLe(state0 + 1, Modulus0, Modulus1);
      ModSmall(s, TWO64);
      DivModUnique(s, Modulus1, state0, state1);
      ModSmall(state0, TWO32);
      ModSmall(state1, TWO32);
    }
  }

  /** The multipliers of a seek: the inverses when seeking back. */
  function SeekMultiplier0(reverse: bool): nat
  {
    if reverse then Multiplier0Inverse else Multiplier0
  }

  function SeekMultiplier1(reverse: bool): nat
  {
    if reverse then Multiplier1Inverse else Multiplier1
  }

  /**
   * What SeekStateInternal computes: the offset reduced modulo
   * MaximumPeriod, that many steps of each generator, with the inverse
   * multipliers when reverse is set; a reduced offset of 0 leaves the
   * states alone.
   */
  function SeekStates(state0: nat, state1: nat, offset: nat, reverse: bool): (nat, nat)
  {
    var n := offset % MaximumPeriod;
    if n == 0 then (state0, state1)
    else (Iterate(state0, n, SeekMultiplier0(reverse), LehmerBase.Increment, Modulus0),
          Iterate(state1, n, SeekMultiplier1(reverse), LehmerBase.Increment, Modulus1))
  }

  /**
   * Seeking back by an offset undoes seeking ahead by it, and the other way
   * round, on states below their moduli; seeking ahead by 1 is one step.
   */
  lemma SeekStatesRoundTrip(state0: nat, state1: nat, offset: nat)
    requires state0 < Modulus0 && state1 < Modulus1
    ensures var ahead := SeekStates(state0, state1, offset, false);
      ahead.0 < Modulus0 && ahead.1 < Modulus1 && SeekStates(ahead.0, ahead.1, offset, true) == (state0, state1)
    ensures var back := SeekStates(state0, state1, offset, true);
      back.0 < Modulus0 && back.1 < Modulus1 && SeekStates(back.0, back.1, offset, false) == (state0, state1)
    ensures SeekStates(state0, state1, 1, false) == (Step0(state0), Step1(state1))
  {
    var n := offset % MaximumPeriod;
    if n > 0 {
      InverseConstants();
      IterateBelow(state0, n, Multiplier0, LehmerBase.Increment, Modulus0);
      IterateBelow(state1, n, Multiplier1, LehmerBase.Increment, Modulus1);
      IterateBelow(state0, n, Multiplier0Inverse, LehmerBase.Increment, Modulus0);
      IterateBelow(state1, n, Multiplier1Inverse, LehmerBase.Increment, Modulus1);
      LehmerBase.LehmerRoundTrip(state0, n, Multiplier0, Multiplier0Inverse, Modulus0);
      LehmerBase.LehmerRoundTrip(state1, n, Multiplier1, Multiplier1Inverse, Modulus1);
    }
    ModSmall(1, MaximumPeriod);
  }

  /** Once the multiplier's power p is 1 modulo m, k * p + n Lehmer steps are n steps. */
  lemma LehmerPeriod(s: nat, a: nat, m: nat, p: nat, k: nat, n: nat)
    requires 1 < m && s < m && Pow(a, p) % m == 1
    ensures Iterate(s, k * p + n, a, LehmerBase.Increment, m) == Iterate(s, n, a, LehmerBase.Increment, m)
  {
    if k * p + n > 0 {
      IterateIsClosed(s, k * p + n, a, LehmerBase.Increment, m);
      PowPeriod(a, p, k, n, m);
      ModMulLeft(Pow(a, k * p + n), s, m);
      ModMulLeft(Pow(a, n), s, m);
      if n > 0 {
        IterateIsClosed(s, n, a, LehmerBase.Increment, m);
      } else {
        ModSmall(s, m);
      }
    }
  }

  /**
   * Reducing the offset modulo MaximumPeriod loses nothing: on states
   * below their moduli SeekStates is offset steps of each generator, or
   * offset steps back when reverse is set, provided each multiplier in
   * use raised to its modulus minus 1 is 1. Both moduli are prime, so
   * Fermat's little theorem says that it is; MaximumPeriod is then a
   * multiple of both periods.
   */
  lemma SeekStatesIsIterate(state0: nat, state1: nat, offset: nat, reverse: bool)
    requires state0 < Modulus0 && state1 < Modulus1
    requires Pow(SeekMultiplier0(reverse), Modulus0 - 1) % Modulus0 == 1
    requires Pow(SeekMultiplier1(reverse), Modulus1 - 1) % Modulus1 == 1
    ensures SeekStates(state0, state1, offset, reverse)
         == (Iterate(state0, offset, SeekMultiplier0(reverse), LehmerBase.Increment, Modulus0),
             Iterate(state1, offset, SeekMultiplier1(reverse), LehmerBase.Increment, Modulus1))
  {
    var q, n := offset / MaximumPeriod, offset % MaximumPeriod;
    assert offset == (q * (Modulus1 - 1)) * (Modulus0 - 1) + n;
    assert offset == (q * (Modulus0 - 1)) * (Modulus1 - 1) + n;
    LehmerPeriod(state0, SeekMultiplier0(reverse), Modulus0, Modulus0 - 1, q * (Modulus1 - 1), n);
    LehmerPeriod(state1, SeekMultiplier1(reverse), Modulus1, Modulus1 - 1, q * (Modulus0 - 1), n);
  }

  /** What SeekSeedAhead and SeekSeedBack compute: SeekStates on the states of the seed. */
  function SeekSeed(seed: nat, offset: nat, reverse: bool): nat
  {
    var states := SeedToStates(seed);
    var moved := SeekStates(states.0, states.1, offset, reverse);
    SeedFromStates(moved.0, moved.1)
  }

  /** SeekSeedBack undoes SeekSeedAhead on every seed up to MaximumSeed, and the other way round. */
  lemma SeekSeedRoundTrip(seed: nat, offset: nat)
    requires seed <= MaximumSeed
    ensures SeekSeed(SeekSeed(seed, offset, false), offset, true) == seed
    ensures SeekSeed(SeekSeed(seed, offset, true), offset, false) == seed
  {
    SeedRoundTrip(seed, 0, 0);
    var states := SeedToStates(seed);
    SeekStatesRoundTrip(states.0, states.1, offset);
    var ahead := SeekStates(states.0, states.1, offset, false);
    var back := SeekStates(states.0, states.1, offset, true);
    SeedRoundTrip(0, ahead.0, ahead.1);
    SeedRoundTrip(0, back.0, back.1);
  }

  /**
   * One block of SeekStateInternal: the multiplier raised to n modulo m in
   * 256 bits, times the state in ulong arithmetic, reduced modulo m and
   * cast to uint; it is n Lehmer steps.
   */
  method SeekLehmer(state: nat, n: nat, multiplier: nat, m: nat) returns (r: nat)
    requires state < TWO32 && 0 < n < TWO64 && 1 < m < 0x8000_0000 && multiplier < m
    ensures r < m && r == Iterate(state, n, multiplier, LehmerBase.Increment, m)
  {
    var aexpn := new MyUInt256.FromU64(multiplier);
    var modulus := new MyUInt256.FromU64(m);
    aexpn.ExpMod(n, modulus);
    ghost var pm := Pow(multiplier, n) % m;
    assert aexpn.Value() == pm;
    ModSmall(pm, TWO64);
    var an := aexpn.ToUInt64();
    PowerTimesState(state, n, multiplier, m, an);
    r := ((an * state) % TWO64) % m;
    ModSmall(r, TWO32);
    r := r % TWO32;
  }

  /** The reduced power times a uint state cannot wrap in a ulong, and reduces to n Lehmer steps. */
  lemma PowerTimesState(state: nat, n: nat, multiplier: nat, m: nat, an: nat)
    requires state < TWO32 && 0 < n && 1 < m < 0x8000_0000 && an == Pow(multiplier, n) % m
    ensures ((an * state) % TWO64) % m == Iterate(state, n, multiplier, LehmerBase.Increment, m)
  {
    MulLe(an, m, state);
    MulLe(state, TWO32, m);
    ModSmall(an * state, TWO64);
    ModMulLeft(Pow(multiplier, n), state, m);
    IterateIsClosed(state, n, multiplier, LehmerBase.Increment, m);
  }

  /** SeekStateInternal: the ref parameters become an in and an out pair. */
  method SeekStateInternal(state0: nat, state1: nat, offset: nat, reverse: bool) returns (r0: nat, r1: nat)
    requires state0 < TWO32 && state1 < TWO32 && LcgBase.IsULong(offset)
    ensures (r0, r1) == SeekStates(state0, state1, offset, reverse)
    ensures offset % MaximumPeriod > 0 ==> r0 < Modulus0 && r1 < Modulus1
  {
    var n := offset;
    if n >= MaximumPeriod {
      n := n % MaximumPeriod;
    } else {
      ModSmall(n, MaximumPeriod);
    }
    if n == 0 {
      return state0, state1;
    }
    r0 := SeekLehmer(state0, n, SeekMultiplier0(reverse), Modulus0);
    r1 := SeekLehmer(state1, n, SeekMultiplier1(reverse), Modulus1);
  }

  /** The two uint states _State0 and _State1. */
  class MssqlGenerator {
    var state0: nat
    var state1: nat

    ghost predicate Valid()
      reads this
    {
      state0 < Modulus0 && state1 < Modulus1
    }

    /** The default constructor leaves both states 0. */
    constructor ()
      ensures Valid() && state0 == 0 && state1 == 0
    {
      state0 := 0;
      state1 := 0;
    }

    /**
     * Seed: the states of the seed, a state0 outside [1, Modulus0)
     * replaced by 12345 and a state1 of 0 by 67890. Every seed from
     * MinimumSeed to MaximumSeed whose state1 is not 0 is taken as is.
     */
    method Seed(seed: nat)
      requires LcgBase.IsULong(seed)
      modifies this
      ensures Valid() && 1 <= state0 && 1 <= state1
      ensures var states := SeedToStates(seed);
        state0 == (if 1 <= states.0 < Modulus0 then states.0 else DefaultState0)
        && state1 == (if 1 <= states.1 then states.1 else DefaultState1)
      ensures MinimumSeed <= seed <= MaximumSeed && seed % Modulus1 != 0 ==> SeedFromStates(state0, state1) == seed
    {
      var states := SeedToStates(seed);
      var s0 := states.0;
      var s1 := states.1;
      if s0 < 1 || s0 >= Modulus0 {
        s0 := DefaultState0;
      }
      if s1 < 1 {
        s1 := DefaultState1;
      }
      state0 := s0;
      state1 := s1;
      SeedRoundTrip(seed, 0, 0);
      if MinimumSeed <= seed <= MaximumSeed && seed % Modulus1 != 0 {
        ModSmall(seed % Modulus1, TWO32);
        MulLe(seed / Modulus1, 0, Modulus1);
        assert seed / Modulus1 >= 1;
      }
    }

    /** Seed32: a seed of 0 or from Modulus0 up becomes 12345; then Seed(seed * Modulus1 + 67890). */
    method Seed32(seed: nat)
      requires seed < TWO32
      modifies this
      ensures Valid()
      ensures state0 == (if 0 < seed < Modulus0 then seed else DefaultState0) && state1 == DefaultState1
    {
      var s := seed;
      if s == 0 || s >= Modulus0 {
        s := DefaultState0;
      }
      var composite := (s * Modulus1 + DefaultState1) % TWO64;
      SeedRoundTrip(0, s, DefaultState1);
      Seed(composite);
    }

    /** Next: one step of each generator; the output is their combination. */
    method Next() returns (r: nat)
      requires Valid()
      modifies this
      ensures Valid() && state0 == Step0(old(state0)) && state1 == Step1(old(state1))
      ensures r == Combine(state0, state1) && r == NextFromStates(old(state0), old(state1))
      ensures 1 <= r <= Modulus0 - 1
    {
      state0 := (state0 * Multiplier0) % Modulus0;
      state1 := (state1 * Multiplier1) % Modulus1;
      r := Combine(state0, state1);
    }

    /**
     * Previous: the combination of the current states, then one step back
     * with the inverse multipliers; a Next from there gives the same value
     * and the current states again.
     */
    method Previous() returns (r: nat)
      requires Valid()
      modifies this
      ensures Valid() && r == Combine(old(state0), old(state1))
      ensures state0 == Step(old(state0), Multiplier0Inverse, LehmerBase.Increment, Modulus0)
      ensures state1 == Step(old(state1), Multiplier1Inverse, LehmerBase.Increment, Modulus1)
      ensures Step0(state0) == old(state0) && Step1(state1) == old(state1) && NextFromStates(state0, state1) == r
    {
      var current := Combine(state0, state1);
      StepRoundTrip(state0, state1);
      state0 := (state0 * Multiplier0Inverse) % Modulus0;
      state1 := (state1 * Multiplier1Inverse) % Modulus1;
      r := current;
    }

    /** SeekAhead: SeekStateInternal forward on the instance states. */
    method SeekAhead(offset: nat)
      requires Valid() && LcgBase.IsULong(offset)
      modifies this
      ensures Valid() && (state0, state1) == SeekStates(old(state0), old(state1), offset, false)
      ensures offset == 1 ==> state0 == Step0(old(state0)) && state1 == Step1(old(state1))
    {
      SeekStatesRoundTrip(state0, state1, offset);
      state0, state1 := SeekStateInternal(state0, state1, offset, false);
    }

    /** SeekBack: SeekStateInternal backward; seeking ahead again by the same offset restores the states. */
    method SeekBack(offset: nat)
      requires Valid() && LcgBase.IsULong(offset)
      modifies this
      ensures Valid() && (state0, state1) == SeekStates(old(state0), old(state1), offset, true)
      ensures SeekStates(state0, state1, offset, false) == (old(state0), old(state1))
    {
      SeekStatesRoundTrip(state0, state1, offset);
      state0, state1 := SeekStateInternal(state0, state1, offset, true);
    }

    /** SeekSeedAhead: the seed's states sought forward, as a seed again; the instance is untouched. */
    method SeekSeedAhead(seed: nat, offset: nat) returns (r: nat)
      requires LcgBase.IsULong(seed) && LcgBase.IsULong(offset)
      ensures r == SeekSeed(seed, offset, false)
    {
      var states := SeedToStates(seed);
      var s0, s1 := SeekStateInternal(states.0, states.1, offset, false);
      r := SeedFromStates(s0, s1);
    }

    /** SeekSeedBack: the same backward; on seeds up to MaximumSeed it undoes SeekSeedAhead. */
    method SeekSeedBack(seed: nat, offset: nat) returns (r: nat)
      requires LcgBase.IsULong(seed) && LcgBase.IsULong(offset)
      ensures r == SeekSeed(seed, offset, true)
      ensures seed <= MaximumSeed ==> SeekSeed(r, offset, false) == seed
    {
      var states := SeedToStates(seed);
      var s0, s1 := SeekStateInternal(states.0, states.1, offset, true);
      r := SeedFromStates(s0, s1);
      if seed <= MaximumSeed {
        SeekSeedRoundTrip(seed, offset);
      }
    }
  }
}

/**
 * PrngBsdLibc: the FreeBSD rand() of the Park-Miller kind, a Lehmer
 * generator s -> s*16807 mod (2^31 - 1) whose output is the new state; seed
 * recovery fixes the first output modulo the limit and hands a strided
 * search to the generic one.
 */
module BsdLibc {
  import opened Common
  import opened LcgMath
  import opened Recovery
  import LcgBase
  import LehmerBase

  const Multiplier: nat := 16807
  const Modulus: nat := 0x7FFF_FFFF
  /** The multiplicative inverse of Multiplier modulo Modulus. */
  const MultiplierInverse: nat := 1407677000
  const MinimumSeed: nat := LehmerBase.MinimumSeed
  const MaximumSeed: nat := Modulus - 1

  /** The stored inverse is what its comment says it is. */
  lemma InverseConstant()
    ensures (Multiplier * MultiplierInverse) % Modulus == 1
  {
  }

  /** One Lehmer step of a 32-bit state; the 64-bit product cannot wrap. */
  function NextState(state: nat): (r: nat)
    requires state < TWO32
    ensures r < Modulus && r == Step(state, Multiplier, LehmerBase.Increment, Modulus)
    ensures state == 0 ==> r == 0
  {
    (state * Multiplier) % Modulus
  }

  /** PreviousState: one step with the inverse multiplier; the 64-bit product cannot wrap. */
  function PreviousState(state: nat): (r: nat)
    requires state < TWO32
    ensures r < Modulus && r == Step(state, MultiplierInverse, LehmerBase.Increment, Modulus)
  {
    (state * MultiplierInverse) % Modulus
  }

  /** PreviousState undoes NextState on every state below the modulus, and the other way round. */
  lemma StepRoundTrip(state: nat)
    requires state < Modulus
    ensures PreviousState(NextState(state)) == state
    ensures NextState(PreviousState(state)) == state
  {
    InverseConstant();
    LehmerBase.BackIncrementOfZero(MultiplierInverse, Modulus);
    BackAfterForward(state, Multiplier, LehmerBase.Increment, MultiplierInverse, Modulus);
    ForwardAfterBack(state, Multiplier, LehmerBase.Increment, MultiplierInverse, Modulus);
  }

  /** The bounded output: reduced modulo a limit strictly between 0 and the modulus, otherwise unchanged. */
  function Reduce(value: nat, limit: nat): (r: nat)
    ensures 0 < limit < Modulus ==> r < limit
    ensures value < Modulus && 0 < limit <= Modulus ==> r == value % limit
    ensures !(0 < limit < Modulus) ==> r == value
  {
    if limit != 0 && limit < Modulus then value % limit else value
  }

  /** The 31-bit state _State of the generator. */
  class BsdLibcGenerator {
    var state: nat

    ghost predicate Valid()
      reads this
    {
      state < Modulus
    }

    /** The default constructor leaves the state 0, the fixed point of the step. */
    constructor ()
      ensures Valid() && state == 0
    {
      state := 0;
    }

    /** Seed: the seed truncated to 32 bits and reduced modulo 2^31 - 1. */
    method Seed(seed: nat)
      requires LcgBase.IsULong(seed)
      modifies this
      ensures Valid() && state == (seed % TWO32) % Modulus
    {
      state := (seed % TWO32) % Modulus;
    }

    /** Next: one step; the output is the new state. */
    method Next() returns (r: nat)
      requires Valid()
      modifies this
      ensures Valid() && state == NextState(old(state)) && r == state
      ensures old(state) == 0 ==> state == 0
    {
      state := NextState(state);
      r := state;
    }

    /** Next(limit): one step, the new state reduced modulo the limit. */
    method NextLimit(limit: nat) returns (r: nat)
      requires Valid() && LcgBase.IsULong(limit)
      modifies this
      ensures Valid() && state == NextState(old(state))
      ensures r == Reduce(state, limit)
    {
      var next := Next();
      if limit != 0 && limit < Modulus {
        next := next % limit;
      }
      r := next;
    }

    /** Previous: returns the current state and steps back, to the state that steps to it. */
    method Previous() returns (r: nat)
      requires Valid()
      modifies this
      ensures Valid() && state == PreviousState(old(state)) && r == old(state)
      ensures NextState(state) == old(state)
    {
      var current := state;
      state := PreviousState(current);
      StepRoundTrip(current);
      r := current;
    }

    /** Previous(limit): Previous, reduced modulo the limit; it is the output Next(limit) gives again. */
    method PreviousLimit(limit: nat) returns (r: nat)
      requires Valid() && LcgBase.IsULong(limit)
      modifies this
      ensures Valid() && state == PreviousState(old(state))
      ensures r == Reduce(NextState(state), limit)
    {
      var current := Previous();
      if limit != 0 && limit < Modulus {
        current := current % limit;
      }
      r := current;
    }

    /** SeekAhead: the Lehmer SeekState, cast to uint. */
    method SeekAhead(offset: nat)
      requires Valid() && LcgBase.IsULong(offset)
      modifies this
      ensures Valid() && state == Iterate(old(state), offset, Multiplier, LehmerBase.Increment, Modulus)
    {
      var next := LehmerBase.SeekStateLehmer(state, offset, Multiplier, Modulus);
      IterateBelow(state, offset, Multiplier, LehmerBase.Increment, Modulus);
      ModSmall(next, TWO32);
      state := next % TWO32;
    }

    /** SeekBack: the Lehmer SeekState with the inverse; seeking ahead again restores the state. */
    method SeekBack(offset: nat)
      requires Valid() && LcgBase.IsULong(offset)
      modifies this
      ensures Valid() && state == Iterate(old(state), offset, MultiplierInverse, LehmerBase.Increment, Modulus)
      ensures Iterate(state, offset, Multiplier, LehmerBase.Increment, Modulus) == old(state)
    {
      var prev := LehmerBase.SeekStateLehmer(state, offset, MultiplierInverse, Modulus);
      IterateBelow(state, offset, MultiplierInverse, LehmerBase.Increment, Modulus);
      InverseConstant();
      LehmerBase.LehmerRoundTrip(state, offset, Multiplier, MultiplierInverse, Modulus);
      ModSmall(prev, TWO32);
      state := prev % TWO32;
    }

    /** SeekSeedAhead: the generic SeekState from the seed, with increment 0; the instance is untouched. */
    method SeekSeedAhead(seed: nat, offset: nat) returns (r: nat)
      requires LcgBase.IsULong(seed) && LcgBase.IsULong(offset)
      ensures offset == 0 ==> r == seed
      ensures offset > 0 ==> r < Modulus && r == Iterate(seed, offset, Multiplier, LehmerBase.Increment, Modulus)
      ensures offset == 1 && seed < TWO32 ==> r == NextState(seed)
    {
      r := LcgBase.SeekState(seed, offset, Multiplier, LehmerBase.Increment, Modulus);
      if offset > 0 {
        IterateOfResidue(seed, offset, Multiplier, LehmerBase.Increment, Modulus);
        IterateBelow(seed % Modulus, offset, Multiplier, LehmerBase.Increment, Modulus);
      }
    }

    /** SeekSeedBack: the same with the inverse; from the result, seeking ahead reaches the seed. */
    method SeekSeedBack(seed: nat, offset: nat) returns (r: nat)
      requires LcgBase.IsULong(seed) && LcgBase.IsULong(offset)
      ensures offset == 0 ==> r == seed
      ensures offset > 0 ==> r < Modulus && r == Iterate(seed, offset, MultiplierInverse, LehmerBase.Increment, Modulus)
      ensures seed < Modulus ==> Iterate(r, offset, Multiplier, LehmerBase.Increment, Modulus) == seed
    {
      r := LcgBase.SeekState(seed, offset, MultiplierInverse, LehmerBase.Increment, Modulus);
      if offset > 0 {
        IterateOfResidue(seed, offset, MultiplierInverse, LehmerBase.Increment, Modulus);
        IterateBelow(seed % Modulus, offset, MultiplierInverse, LehmerBase.Increment, Modulus);
      }
      if seed < Modulus {
        InverseConstant();
        LehmerBase.LehmerRoundTrip(seed, offset, Multiplier, MultiplierInverse, Modulus);
      }
    }
  }

  /** The guard under which RecoverSeed hands the search on unchanged. */
  predicate Delegates(seedIncrement: nat, output: seq<nat>, limit: nat, wildcard: nat)
  {
    |output| < 2 || output[0] >= limit || output[0] == wildcard || limit == 0 || limit > Modulus || seedIncrement != 1
  }

  /**
   * RecoverSeed: outside the guard the search is handed on unchanged;
   * otherwise the range is clamped to the valid seeds, an empty range gives
   * false, and the generic search runs over the states congruent to the
   * first output modulo the limit (stride limit), on the outputs after the
   * first, with the wrapper callback.
   */
  function RecoverSeed(seedStart: nat, seedEnd: nat, seedIncrement: nat, output: seq<nat>, limit: nat,
                       wildcard: nat, progressInterval: nat): (res: RecoveryResult)
    requires LcgBase.IsULong(seedStart) && LcgBase.IsULong(seedEnd)
    ensures Delegates(seedIncrement, output, limit, wildcard) ==>
      res == Delegated(BaseSearch(seedStart, seedEnd, seedIncrement, output, limit, wildcard, progressInterval, false))
    ensures !Delegates(seedIncrement, output, limit, wildcard) ==>
      var first := if seedStart < MinimumSeed then MinimumSeed else seedStart;
      var last := if seedEnd > MaximumSeed then MaximumSeed else seedEnd;
      (first > last ==> res == Finished(false))
      && (first <= last ==>
            res.Delegated? && res.search.wrapped && res.search.seedEnd == last && res.search.seedIncrement == limit
            && res.search.output == output[1..] && res.search.limit == limit && res.search.wildcard == wildcard
            && first <= res.search.seedStart < first + limit && res.search.seedStart % limit == output[0])
  {
    if Delegates(seedIncrement, output, limit, wildcard) then
      Delegated(BaseSearch(seedStart, seedEnd, seedIncrement, output, limit, wildcard, progressInterval, false))
    else
      var first := if seedStart < MinimumSeed then MinimumSeed else seedStart;
      var last := if seedEnd > MaximumSeed then MaximumSeed else seedEnd;
      if first > last then Finished(false)
      else
        ResidueOffsetHits(first, output[0], limit);
        var ofs := ResidueOffset(first, output[0], limit);
        Delegated(BaseSearch(first + ofs, last, limit, output[1..], limit, wildcard, progressInterval, true))
  }


  /**
   * Every candidate of the strided search, a valid state congruent to the
   * first output modulo the limit, is reported as a seed whose first step
   * leads back to the candidate and whose first bounded output is the
   * first output.
   */
  lemma CandidateReproducesFirstOutput(candidate: nat, output0: nat, limit: nat)
    requires MinimumSeed <= candidate <= MaximumSeed && 0 < limit <= Modulus && candidate % limit == output0
    ensures var seed := Rewrite(Discovered(candidate), s => PreviousState(s % TWO32)).seed;
      seed < Modulus && NextState(seed) == candidate && Reduce(NextState(seed), limit) == output0
  {
    ModSmall(candidate, TWO32);
    StepRoundTrip(candidate);
  }
}

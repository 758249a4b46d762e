/**
 * PrngBsdLibcOld: the traditional BSD rand(), a 32-bit state stepped by
 * s*1103515245 + 12345 in uint arithmetic and stored unmasked; an output
 * is the low 31 bits of the new state. Only the low 31 bits ever influence
 * an output, so the contracts are stated on the state modulo 2^31.
 */
module BsdLibcOld {
  import opened Common
  import opened LcgMath
  import opened Recovery
  import LcgBase

  const Multiplier: nat := 1103515245
  const Increment: nat := 12345
  /** 2^31: outputs are masked with 0x7FFFFFFF. */
  const Modulus: nat := 0x8000_0000
  /** The multiplicative inverse of Multiplier modulo Modulus. */
  const MultiplierInverse: nat := 1857678181
  /** The additive inverse of Increment times MultiplierInverse, modulo Modulus. */
  const IncrementInverseMulInv: nat := 2088216195
  const MinimumSeed: nat := 0
  const MaximumSeed: nat := Modulus - 1

  /** The stored inverse constants are what their comments say they are. */
  lemma InverseConstants()
    ensures (Multiplier * MultiplierInverse) % Modulus == 1
    ensures IncrementInverseMulInv == BackIncrement(Increment, MultiplierInverse, Modulus)
  {
  }

  /** The unmasked step in uint arithmetic. */
  function NextState(state: nat): (r: nat)
    requires state < TWO32
    ensures r < TWO32
    ensures r % Modulus == Step(state % Modulus, Multiplier, Increment, Modulus)
  {
    WrappedForward(state, Multiplier, Increment, Modulus, TWO32);
    ModOfMod(state, Modulus);
    AffineCongruent(state, state % Modulus, Multiplier, Increment, Modulus);
    (state * Multiplier + Increment) % TWO32
  }

  /** PreviousState: the masked backward step with this generator's constants and the 31-bit mask. */
  function PreviousState(state: nat): (r: nat)
    requires state < TWO32
    ensures r < Modulus && r == Step(state % Modulus, MultiplierInverse, IncrementInverseMulInv, Modulus)
  {
    InverseConstants();
    MaskedBack(state, Increment, MultiplierInverse, Modulus)
  }

  /**
   * PreviousState undoes NextState up to the top bit, and a step from the
   * previous state gives back the low 31 bits.
   */
  lemma StepRoundTrip(state: nat)
    requires state < TWO32
    ensures PreviousState(NextState(state)) == state % Modulus
    ensures NextState(PreviousState(state)) % Modulus == state % Modulus
  {
    InverseConstants();
    var low := state % Modulus;
    BackAfterForward(low, Multiplier, Increment, MultiplierInverse, Modulus);
    ForwardAfterBack(low, Multiplier, Increment, MultiplierInverse, Modulus);
    var next := NextState(state);
    ModOfMod(next, Modulus);
    ModSmall(PreviousState(state), Modulus);
  }

  /** The bounded output: reduced modulo a limit from 1 to 0x7FFFFFFF, otherwise unchanged. */
  function Reduce(value: nat, limit: nat): (r: nat)
    ensures 0 < limit < Modulus ==> r < limit
    ensures value < Modulus && 0 < limit <= Modulus ==> r == value % limit
    ensures !(0 < limit < Modulus) ==> r == value
  {
    if limit != 0 && limit <= Modulus - 1 then value % limit else value
  }

  /** The 32-bit state _State of the generator. */
  class BsdLibcOldGenerator {
    var state: nat

    ghost predicate Valid()
      reads this
    {
      state < TWO32
    }

    /** The default constructor leaves the state 0. */
    constructor ()
      ensures Valid() && state == 0
    {
      state := 0;
    }

    /** Seed: the low 31 bits of the seed. */
    method Seed(seed: nat)
      requires LcgBase.IsULong(seed)
      modifies this
      ensures Valid() && state == seed % Modulus
      ensures MinimumSeed <= state <= MaximumSeed
    {
      ModModMultiple(seed, Modulus, 2);
      state := (seed % TWO32) % Modulus;
    }

    /** Next: the unmasked step; the output is its low 31 bits, one exact step of the 31-bit recurrence. */
    method Next() returns (r: nat)
      requires Valid()
      modifies this
      ensures Valid() && state == NextState(old(state))
      ensures r == state % Modulus && r == Step(old(state) % Modulus, Multiplier, Increment, Modulus)
    {
      var next := NextState(state);
      state := next;
      r := next % Modulus;
    }

    /** Next(limit): Next, reduced modulo the limit. */
    method NextLimit(limit: nat) returns (r: nat)
      requires Valid() && LcgBase.IsULong(limit)
      modifies this
      ensures Valid() && state == NextState(old(state))
      ensures r == Reduce(state % Modulus, limit)
    {
      var next := Next();
      if limit != 0 && limit <= Modulus - 1 {
        next := next % limit;
      }
      r := next;
    }

    /** Previous: returns the low 31 bits of the current state and steps back to a state that steps to them. */
    method Previous() returns (r: nat)
      requires Valid()
      modifies this
      ensures Valid() && state == PreviousState(old(state)) && r == old(state) % Modulus
      ensures NextState(state) % Modulus == r
    {
      var current := state;
      state := PreviousState(current);
      StepRoundTrip(current);
      r := current % Modulus;
    }

    /** Previous(limit): Previous, reduced modulo the limit; it is the output Next(limit) gives again. */
    method PreviousLimit(limit: nat) returns (r: nat)
      requires Valid() && LcgBase.IsULong(limit)
      modifies this
      ensures Valid() && state == PreviousState(old(state))
      ensures r == Reduce(NextState(state) % Modulus, limit)
    {
      var current := Previous();
      if limit != 0 && limit <= Modulus - 1 {
        current := current % limit;
      }
      r := current;
    }

    /** SeekAhead: the generic SeekState, cast to uint; the low 31 bits follow the recurrence. */
    method SeekAhead(offset: nat)
      requires Valid() && LcgBase.IsULong(offset)
      modifies this
      ensures Valid()
      ensures offset == 0 ==> state == old(state)
      ensures offset > 0 ==> state == Iterate(old(state) % Modulus, offset, Multiplier, Increment, Modulus)
    {
      var next := LcgBase.SeekState(state, offset, Multiplier, Increment, Modulus);
      if offset > 0 {
        IterateOfResidue(state, offset, Multiplier, Increment, Modulus);
        IterateBelow(state % Modulus, offset, Multiplier, Increment, Modulus);
      }
      ModSmall(next, TWO32);
      state := next % TWO32;
    }

    /** SeekBack: the same with the inverse constants; seeking ahead again restores the low 31 bits. */
    method SeekBack(offset: nat)
      requires Valid() && LcgBase.IsULong(offset)
      modifies this
      ensures Valid()
      ensures offset == 0 ==> state == old(state)
      ensures offset > 0 ==> state == Iterate(old(state) % Modulus, offset, MultiplierInverse, IncrementInverseMulInv, Modulus)
      ensures offset > 0 ==> Iterate(state, offset, Multiplier, Increment, Modulus) == old(state) % Modulus
    {
      var prev := LcgBase.SeekState(state, offset, MultiplierInverse, IncrementInverseMulInv, Modulus);
      if offset > 0 {
        IterateOfResidue(state, offset, MultiplierInverse, IncrementInverseMulInv, Modulus);
        IterateBelow(state % Modulus, offset, MultiplierInverse, IncrementInverseMulInv, Modulus);
        SeekBackUndoesAhead(state % Modulus, offset);
      }
      ModSmall(prev, TWO32);
      state := prev % TWO32;
    }

    /** SeekSeedAhead: the generic SeekState from the seed, cast to uint. */
    method SeekSeedAhead(seed: nat, offset: nat) returns (r: nat)
      requires LcgBase.IsULong(seed) && LcgBase.IsULong(offset)
      ensures offset == 0 ==> r == seed % TWO32
      ensures offset > 0 ==> r == Iterate(seed % Modulus, offset, Multiplier, Increment, Modulus)
    {
      var s := LcgBase.SeekState(seed, offset, Multiplier, Increment, Modulus);
      if offset > 0 {
        IterateOfResidue(seed, offset, Multiplier, Increment, Modulus);
        IterateBelow(seed % Modulus, offset, Multiplier, Increment, Modulus);
        ModSmall(s, TWO32);
      }
      r := s % TWO32;
    }

    /** SeekSeedBack: the same with the inverse constants; from the result, seeking ahead reaches the seed. */
    method SeekSeedBack(seed: nat, offset: nat) returns (r: nat)
      requires LcgBase.IsULong(seed) && LcgBase.IsULong(offset)
      ensures offset == 0 ==> r == seed % TWO32
      ensures offset > 0 ==> r == Iterate(seed % Modulus, offset, MultiplierInverse, IncrementInverseMulInv, Modulus)
      ensures offset > 0 ==> Iterate(r, offset, Multiplier, Increment, Modulus) == seed % Modulus
    {
      var s := LcgBase.SeekState(seed, offset, MultiplierInverse, IncrementInverseMulInv, Modulus);
      if offset > 0 {
        IterateOfResidue(seed, offset, MultiplierInverse, IncrementInverseMulInv, Modulus);
        IterateBelow(seed % Modulus, offset, MultiplierInverse, IncrementInverseMulInv, Modulus);
        SeekBackUndoesAhead(seed % Modulus, offset);
        ModSmall(s, TWO32);
      }
      r := s % TWO32;
    }
  }

  /** Seeking back n states undoes seeking ahead n states, and the other way round. */
  lemma SeekBackUndoesAhead(state: nat, n: nat)
    requires state < Modulus
    ensures Iterate(Iterate(state, n, Multiplier, Increment, Modulus), n, MultiplierInverse, IncrementInverseMulInv, Modulus) == state
    ensures Iterate(Iterate(state, n, MultiplierInverse, IncrementInverseMulInv, Modulus), n, Multiplier, Increment, Modulus) == state
  {
    InverseConstants();
    SeekRoundTrip(state, n, Multiplier, Increment, MultiplierInverse, Modulus);
  }

  /** The guard under which RecoverSeed hands the search on unchanged. */
  predicate Delegates(seedIncrement: nat, output: seq<nat>, limit: nat, wildcard: nat)
  {
    |output| < 2 || output[0] >= limit || output[0] == wildcard || limit == 0 || limit > Modulus || seedIncrement != 1
  }

  /**
   * RecoverSeed: outside the guard the search is handed on unchanged;
   * otherwise the range is clamped to the 31-bit seeds, an empty range gives
   * false, and the generic search runs over the seeds congruent to the
   * first output modulo the limit (stride limit), on the outputs after the
   * first, with the wrapper callback.
   */
  function RecoverSeed(seedStart: nat, seedEnd: nat, seedIncrement: nat, output: seq<nat>, limit: nat,
                       wildcard: nat, progressInterval: nat): (res: RecoveryResult)
    requires LcgBase.IsULong(seedStart) && LcgBase.IsULong(seedEnd)
    ensures Delegates(seedIncrement, output, limit, wildcard) ==>
      res == Delegated(BaseSearch(seedStart, seedEnd, seedIncrement, output, limit, wildcard, progressInterval, false))
    ensures !Delegates(seedIncrement, output, limit, wildcard) ==>
      var last := if seedEnd > MaximumSeed then MaximumSeed else seedEnd;
      (seedStart > last ==> res == Finished(false))
      && (seedStart <= last ==>
            res.Delegated? && res.search.wrapped && res.search.seedEnd == last && res.search.seedIncrement == limit
            && res.search.output == output[1..] && res.search.limit == limit && res.search.wildcard == wildcard
            && seedStart <= res.search.seedStart < seedStart + limit && res.search.seedStart % limit == output[0])
  {
    if Delegates(seedIncrement, output, limit, wildcard) then
      Delegated(BaseSearch(seedStart, seedEnd, seedIncrement, output, limit, wildcard, progressInterval, false))
    else
      var last := if seedEnd > MaximumSeed then MaximumSeed else seedEnd;
      if seedStart > last then Finished(false)
      else
        ResidueOffsetHits(seedStart, output[0], limit);
        var ofs := ResidueOffset(seedStart, output[0], limit);
        Delegated(BaseSearch(seedStart + ofs, last, limit, output[1..], limit, wildcard, progressInterval, true))
  }


  /**
   * Every candidate of the strided search, a 31-bit seed congruent to the
   * first output modulo the limit, is reported as a seed whose first step
   * leads back to the candidate and whose first bounded output is the
   * first output.
   */
  lemma CandidateReproducesFirstOutput(candidate: nat, output0: nat, limit: nat)
    requires candidate <= MaximumSeed && 0 < limit <= Modulus && candidate % limit == output0
    ensures var seed := Rewrite(Discovered(candidate), s => PreviousState(s % TWO32)).seed;
      seed < Modulus && NextState(seed) % Modulus == candidate && Reduce(NextState(seed) % Modulus, limit) == output0
  {
    ModSmall(candidate, TWO32);
    ModSmall(candidate, Modulus);
    StepRoundTrip(candidate);
  }
}

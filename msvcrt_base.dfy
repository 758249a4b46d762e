/**
 * PrngMsvcrtBase: the Microsoft C runtime rand() generator, a 32-bit
 * unsigned state stepped by s*214013 + 2531011 and masked to 31 bits; an
 * output is bits 16..30 of the new state. The state is always below 2^31,
 * which Valid() records; the uint arithmetic is written out as reduction
 * modulo 2^32 and the mask as reduction modulo 2^31.
 */
module MsvcrtBase {
  import opened Common
  import opened LcgMath
  import LcgBase

  const Multiplier: nat := 214013
  const Increment: nat := 2531011
  /** 2^31: the mask 0x7FFFFFFF keeps the state below it. */
  const Modulus: nat := 0x8000_0000
  const OutputDivisor: nat := 0x8000
  const DiscardDivisor: nat := 0x1_0000
  /** The multiplicative inverse of Multiplier modulo Modulus. */
  const MultiplierInverse: nat := 968044885
  /** The additive inverse of Increment times MultiplierInverse, modulo Modulus. */
  const IncrementInverseMulInv: nat := 561051201
  const MinimumSeed: nat := 0
  const MaximumSeed: nat := Modulus - 1

  /** The stored inverse constants are what their comments say they are. */
  lemma InverseConstants()
    ensures (Multiplier * MultiplierInverse) % Modulus == 1
    ensures IncrementInverseMulInv == BackIncrement(Increment, MultiplierInverse, Modulus)
  {
  }

  /** The uint mask 0x7FFFFFFF of a value truncated to 32 bits is its residue modulo 2^31. */
  lemma MaskOfTruncation(x: int)
    ensures (x % TWO32) % Modulus == x % Modulus
  {
    ModModMultiple(x, Modulus, 2);
  }

  /** NextState: one step in uint arithmetic, masked; it is the exact step modulo 2^31. */
  function NextState(state: nat): (r: nat)
    requires state < TWO32
    ensures r == Step(state, Multiplier, Increment, Modulus)
  {
    MaskOfTruncation(state * Multiplier + Increment);
    ((state * Multiplier + Increment) % TWO32) % Modulus
  }

  /** The masked uint step agrees with the generic 64-bit LCG step for the same constants. */
  lemma NextStateAgreesWithBase(state: nat)
    requires state < TWO32
    ensures NextState(state) == LcgBase.NextState(state, Multiplier, Increment, Modulus)
  {
    assert TWO64 == Modulus * 0x2_0000_0000;
    DivMulCancel(0x2_0000_0000, Modulus);
  }

  /** NextFromState: the 15-bit output that follows a state. */
  function NextFromState(state: nat): (r: nat)
    requires state < TWO32
    ensures r < OutputDivisor
    ensures r == LcgBase.ValueFromRaw(NextState(state), DiscardDivisor, OutputDivisor)
  {
    var next := NextState(state);
    DivBound(next, DiscardDivisor, OutputDivisor);
    ModSmall(next / DiscardDivisor, OutputDivisor);
    next / DiscardDivisor
  }

  /**
   * PreviousState: (state - I) wrapped to 32 bits, times the inverse,
   * wrapped, masked; it is the exact backward step modulo 2^31.
   */
  function PreviousState(state: nat): (r: nat)
    requires state < TWO32
    ensures r == Step(state, MultiplierInverse, IncrementInverseMulInv, Modulus)
  {
    InverseConstants();
    ModOfMod(state, Modulus);
    AffineCongruent(state, state % Modulus, MultiplierInverse, IncrementInverseMulInv, Modulus);
    MaskedBack(state, Increment, MultiplierInverse, Modulus)
  }

  /** PreviousState undoes NextState on every state below the modulus ... */
  lemma PreviousAfterNext(state: nat)
    requires state < Modulus
    ensures PreviousState(NextState(state)) == state
  {
    InverseConstants();
    BackAfterForward(state, Multiplier, Increment, MultiplierInverse, Modulus);
  }

  /** ... and NextState undoes PreviousState. */
  lemma NextAfterPrevious(state: nat)
    requires state < Modulus
    ensures NextState(PreviousState(state)) == state
  {
    InverseConstants();
    ForwardAfterBack(state, Multiplier, Increment, MultiplierInverse, Modulus);
  }

  /**
   * On a full 32-bit state the masked bit does not matter: the previous
   * state of x is that of x masked to 31 bits, and it steps forward to the
   * masked x.
   */
  lemma PreviousOfUnmasked(x: nat)
    requires x < TWO32
    ensures PreviousState(x) == PreviousState(x % Modulus)
    ensures NextState(PreviousState(x)) == x % Modulus
  {
    var y := x % Modulus;
    ModOfMod(x, Modulus);
    AffineCongruent(x, y, MultiplierInverse, IncrementInverseMulInv, Modulus);
    assert Step(x, MultiplierInverse, IncrementInverseMulInv, Modulus) == Step(y, MultiplierInverse, IncrementInverseMulInv, Modulus);
    NextAfterPrevious(y);
  }

  /** Seeking back n states undoes seeking ahead n states, and the other way round. */
  lemma SeekBackUndoesAhead(state: nat, n: nat)
    requires state < Modulus
    ensures Iterate(Iterate(state, n, Multiplier, Increment, Modulus), n, MultiplierInverse, IncrementInverseMulInv, Modulus) == state
    ensures Iterate(Iterate(state, n, MultiplierInverse, IncrementInverseMulInv, Modulus), n, Multiplier, Increment, Modulus) == state
  {
    InverseConstants();
    SeekRoundTrip(state, n, Multiplier, Increment, MultiplierInverse, Modulus);
  }

  /** The 31-bit state _State of an MSVCRT-style generator. */
  class MsvcrtGenerator {
    var state: nat

    ghost predicate Valid()
      reads this
    {
      state < Modulus
    }

    /** The default constructor: the state starts at 0. */
    constructor ()
      ensures Valid() && state == 0
    {
      state := 0;
    }

    /** Seed: the seed truncated to uint and masked to 31 bits. */
    method Seed(seed: nat)
      requires LcgBase.IsULong(seed)
      modifies this
      ensures Valid() && state == seed % Modulus
      ensures MinimumSeed <= state <= MaximumSeed
    {
      MaskOfTruncation(seed);
      state := (seed % TWO32) % Modulus;
    }

    /** Next: one NextState step; the output is bits 16..30 of the new state. */
    method Next() returns (r: nat)
      requires Valid()
      modifies this
      ensures Valid() && state == NextState(old(state))
      ensures r < OutputDivisor && r == LcgBase.ValueFromRaw(state, DiscardDivisor, OutputDivisor)
    {
      var next := NextState(state);
      state := next;
      r := next / DiscardDivisor;
      assert r == NextFromState(old(state));
    }

    /** Previous: returns the output of the current state and steps back one state. */
    method Previous() returns (r: nat)
      requires Valid()
      modifies this
      ensures Valid() && state == PreviousState(old(state))
      ensures NextState(state) == old(state)
      ensures r < OutputDivisor && r == LcgBase.ValueFromRaw(old(state), DiscardDivisor, OutputDivisor)
    {
      var current := state;
      state := PreviousState(current);
      r := current / DiscardDivisor;
      NextAfterPrevious(current);
      DivBound(current, DiscardDivisor, OutputDivisor);
      ModSmall(r, OutputDivisor);
    }

    /** SeekAhead: the generic SeekState with the forward constants, cast to uint. */
    method SeekAhead(offset: nat)
      requires Valid() && LcgBase.IsULong(offset)
      modifies this
      ensures Valid() && state == Iterate(old(state), offset, Multiplier, Increment, Modulus)
    {
      var next := LcgBase.SeekState(state, offset, Multiplier, Increment, Modulus);
      IterateBelow(state, offset, Multiplier, Increment, Modulus);
      ModSmall(next, TWO32);
      state := next % TWO32;
    }

    /** SeekBack: the generic SeekState with the inverse constants; seeking ahead again restores the state. */
    method SeekBack(offset: nat)
      requires Valid() && LcgBase.IsULong(offset)
      modifies this
      ensures Valid() && state == Iterate(old(state), offset, MultiplierInverse, IncrementInverseMulInv, Modulus)
      ensures Iterate(state, offset, Multiplier, Increment, Modulus) == old(state)
    {
      var prev := LcgBase.SeekState(state, offset, MultiplierInverse, IncrementInverseMulInv, Modulus);
      IterateBelow(state, offset, MultiplierInverse, IncrementInverseMulInv, Modulus);
      SeekBackUndoesAhead(state, offset);
      ModSmall(prev, TWO32);
      state := prev % TWO32;
    }

    /** SeekSeedAhead: the state offset steps after a seed; the instance is untouched. */
    method SeekSeedAhead(seed: nat, offset: nat) returns (r: nat)
      requires LcgBase.IsULong(seed) && LcgBase.IsULong(offset)
      ensures offset == 0 ==> r == seed
      ensures offset > 0 ==> r < Modulus && r == Iterate(seed, offset, Multiplier, Increment, Modulus)
    {
      r := LcgBase.SeekState(seed, offset, Multiplier, Increment, Modulus);
    }

    /** SeekSeedBack: the state offset steps before a seed; from it, seeking ahead reaches the seed. */
    method SeekSeedBack(seed: nat, offset: nat) returns (r: nat)
      requires LcgBase.IsULong(seed) && LcgBase.IsULong(offset)
      ensures offset == 0 ==> r == seed
      ensures offset > 0 ==> r < Modulus && r == Iterate(seed, offset, MultiplierInverse, IncrementInverseMulInv, Modulus)
      ensures seed < Modulus ==> Iterate(r, offset, Multiplier, Increment, Modulus) == seed
    {
      r := LcgBase.SeekState(seed, offset, MultiplierInverse, IncrementInverseMulInv, Modulus);
      if seed < Modulus {
        SeekBackUndoesAhead(seed, offset);
      }
    }
  }
}

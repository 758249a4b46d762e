/**
 * PrngVbscript: the Rnd function of VBScript, a 24-bit linear congruential
 * generator s -> s*0xFD43FD + 0xC39EC3 computed in uint arithmetic and
 * masked to 24 bits; the output is the new state. The bounded output scales
 * the state into [0, limit) in single-precision floating point and is not
 * part of this model; seed recovery narrows the search to the states whose
 * scaled value can be the first output, and the contracts about it take the
 * float factor to be any rational between 1/16777216 and 1/16777215.
 */
module Vbscript {
  import opened Common
  import opened LcgMath
  import opened Recovery
  import LcgBase

  const Multiplier: nat := 0xFD_43FD
  const Increment: nat := 0xC3_9EC3
  /** 2^24: states are masked with 0x00FFFFFF. */
  const Modulus: nat := 0x100_0000
  /** The multiplicative inverse of Multiplier modulo Modulus. */
  const MultiplierInverse: nat := 0x09_3155
  /** The additive inverse of Increment times MultiplierInverse, modulo Modulus. */
  const IncrementInverseMulInv: nat := 0xCD_F641
  const MinimumSeed: nat := 0
  const MaximumSeed: nat := Modulus - 1
  /** The factors of the range computation: it undershoots with 1/16777215 and overshoots with 1/16777216. */
  const ScaleLow: nat := 16777215
  const ScaleHigh: nat := 16777216
  /** The largest first output the narrowing accepts: ulong.MaxValue / 16777216. */
  const MaxOutput0: nat := (TWO64 - 1) / 16777216

  /** The stored inverse constants are what their comments say they are. */
  lemma InverseConstants()
    ensures (Multiplier * MultiplierInverse) % Modulus == 1
    ensures IncrementInverseMulInv == BackIncrement(Increment, MultiplierInverse, Modulus)
  {
  }

  /** One step in uint arithmetic, masked to 24 bits: one exact step of the 24-bit recurrence. */
  function NextState(state: nat): (r: nat)
    requires state < TWO32
    ensures r < Modulus && r == Step(state % Modulus, Multiplier, Increment, Modulus)
  {
    WrappedForward(state, Multiplier, Increment, Modulus, TWO32);
    ModOfMod(state, Modulus);
    AffineCongruent(state, state % Modulus, Multiplier, Increment, Modulus);
    ((state * Multiplier + Increment) % TWO32) % Modulus
  }

  /** PreviousState: the masked backward step with this generator's constants and the 24-bit mask. */
  function PreviousState(state: nat): (r: nat)
    requires state < TWO32
    ensures r < Modulus && r == Step(state % Modulus, MultiplierInverse, IncrementInverseMulInv, Modulus)
  {
    InverseConstants();
    MaskedBack(state, Increment, MultiplierInverse, Modulus)
  }

  /** PreviousState undoes NextState on every 24-bit state, and the other way round. */
  lemma StepRoundTrip(state: nat)
    requires state < Modulus
    ensures PreviousState(NextState(state)) == state
    ensures NextState(PreviousState(state)) == state
  {
    InverseConstants();
    ModSmall(state, Modulus);
    BackAfterForward(state, Multiplier, Increment, MultiplierInverse, Modulus);
    ForwardAfterBack(state, Multiplier, Increment, MultiplierInverse, Modulus);
    ModSmall(NextState(state), Modulus);
    ModSmall(PreviousState(state), Modulus);
  }

  /** Seeking back n states undoes seeking ahead n states, and the other way round. */
  lemma SeekBackUndoesAhead(state: nat, n: nat)
    requires state < Modulus
    ensures Iterate(Iterate(state, n, Multiplier, Increment, Modulus), n, MultiplierInverse, IncrementInverseMulInv, Modulus) == state
    ensures Iterate(Iterate(state, n, MultiplierInverse, IncrementInverseMulInv, Modulus), n, Multiplier, Increment, Modulus) == state
  {
    InverseConstants();
    SeekRoundTrip(state, n, Multiplier, Increment, MultiplierInverse, Modulus);
  }

  /** The 24-bit state _State of the generator. */
  class VbscriptGenerator {
    var state: nat

    ghost predicate Valid()
      reads this
    {
      state < Modulus
    }

    /** The default constructor leaves the state 0. */
    constructor ()
      ensures Valid() && state == 0
    {
      state := 0;
    }

    /** Seed: the low 24 bits of the seed. */
    method Seed(seed: nat)
      requires LcgBase.IsULong(seed)
      modifies this
      ensures Valid() && state == seed % Modulus
      ensures MinimumSeed <= state <= MaximumSeed
    {
      ModModMultiple(seed, Modulus, 256);
      state := (seed % TWO32) % Modulus;
    }

    /** Next: one step; the output is the new state. */
    method Next() returns (r: nat)
      requires Valid()
      modifies this
      ensures Valid() && state == NextState(old(state)) && r == state
      ensures r == Step(old(state), Multiplier, Increment, Modulus)
    {
      ModSmall(state, Modulus);
      var next := NextState(state);
      state := next;
      r := next;
    }

    /** Previous: returns the current state and steps back, to the state that steps to it. */
    method Previous() returns (r: nat)
      requires Valid()
      modifies this
      ensures Valid() && state == PreviousState(old(state)) && r == old(state)
      ensures NextState(state) == old(state)
    {
      ModSmall(state, Modulus);
      var current := state % Modulus;
      state := PreviousState(current);
      StepRoundTrip(current);
      r := current;
    }

    /** SeekAhead: the generic SeekState, cast to uint. */
    method SeekAhead(offset: nat)
      requires Valid() && LcgBase.IsULong(offset)
      modifies this
      ensures Valid() && state == Iterate(old(state), offset, Multiplier, Increment, Modulus)
    {
      var next := LcgBase.SeekState(state, offset, Multiplier, Increment, Modulus);
      IterateBelow(state, offset, Multiplier, Increment, Modulus);
      ModSmall(next, TWO32);
      state := next % TWO32;
    }

    /** SeekBack: the same with the inverse constants; seeking ahead again restores the state. */
    method SeekBack(offset: nat)
      requires Valid() && LcgBase.IsULong(offset)
      modifies this
      ensures Valid() && state == Iterate(old(state), offset, MultiplierInverse, IncrementInverseMulInv, Modulus)
      ensures Iterate(state, offset, Multiplier, Increment, Modulus) == old(state)
    {
      var prev := LcgBase.SeekState(state, offset, MultiplierInverse, IncrementInverseMulInv, Modulus);
      IterateBelow(state, offset, MultiplierInverse, IncrementInverseMulInv, Modulus);
      SeekBackUndoesAhead(state, offset);
      ModSmall(prev, TWO32);
      state := prev % TWO32;
    }

    /** SeekSeedAhead: the generic SeekState from the seed, cast to uint; the instance is untouched. */
    method SeekSeedAhead(seed: nat, offset: nat) returns (r: nat)
      requires LcgBase.IsULong(seed) && LcgBase.IsULong(offset)
      ensures offset == 0 ==> r == seed % TWO32
      ensures offset > 0 ==> r < Modulus && r == Iterate(seed % Modulus, offset, Multiplier, Increment, Modulus)
      ensures offset == 1 ==> r == NextState(seed % TWO32)
    {
      var s := LcgBase.SeekState(seed, offset, Multiplier, Increment, Modulus);
      if offset > 0 {
        IterateOfResidue(seed, offset, Multiplier, Increment, Modulus);
        IterateBelow(seed % Modulus, offset, Multiplier, Increment, Modulus);
        ModSmall(s, TWO32);
        ModModMultiple(seed, Modulus, 256);
      }
      r := s % TWO32;
    }

    /** SeekSeedBack: the same with the inverse constants; from the result, seeking ahead reaches the seed's low 24 bits. */
    method SeekSeedBack(seed: nat, offset: nat) returns (r: nat)
      requires LcgBase.IsULong(seed) && LcgBase.IsULong(offset)
      ensures offset == 0 ==> r == seed % TWO32
      ensures offset > 0 ==> r < Modulus && r == Iterate(seed % Modulus, offset, MultiplierInverse, IncrementInverseMulInv, Modulus)
      ensures offset > 0 ==> Iterate(r, offset, Multiplier, Increment, Modulus) == seed % Modulus
    {
      var s := LcgBase.SeekState(seed, offset, MultiplierInverse, IncrementInverseMulInv, Modulus);
      if offset > 0 {
        IterateOfResidue(seed, offset, MultiplierInverse, IncrementInverseMulInv, Modulus);
        IterateBelow(seed % Modulus, offset, MultiplierInverse, IncrementInverseMulInv, Modulus);
        SeekBackUndoesAhead(seed % Modulus, offset);
        ModSmall(s, TWO32);
      }
      r := s % TWO32;
    }
  }

  /**
   * A factor num/den of the float scaling inside the bracket the range
   * computation allows for: from 1/16777216 up to 1/16777215.
   */
  predicate ScaleFactor(num: nat, den: nat)
  {
    num > 0 && ScaleLow * num <= den <= ScaleHigh * num
  }

  /** A state scaled into [0, limit) by the factor num/den and truncated. */
  function Scaled(state: nat, limit: nat, num: nat, den: nat): nat
    requires den > 0
  {
    state * limit * num / den
  }

  /** The first state of the narrowed range, in ulong arithmetic on the limit cast to uint. */
  function RangeStart(output0: nat, l: nat): (r: nat)
    requires 0 < l < TWO32 && output0 <= MaxOutput0
    ensures LcgBase.IsULong(r)
  {
    ((ScaleLow * output0 + l - 1) % TWO64) / l
  }

  /** The last state of the narrowed range, in ulong arithmetic: it wraps for the largest first outputs. */
  function RangeEnd(output0: nat, l: nat): (r: nat)
    requires 0 < l < TWO32 && output0 <= MaxOutput0
    ensures LcgBase.IsULong(r)
  {
    ((((ScaleHigh * (output0 + 1)) % TWO64 + l - 1) % TWO64) / l + TWO64 - 1) % TWO64
  }

  /** Without a wrap, the range is bounded by the ceilings of output0*16777215/l and (output0+1)*16777216/l. */
  lemma RangeUnwrapped(output0: nat, l: nat)
    requires 0 < l < TWO32 && output0 <= MaxOutput0 && ScaleHigh * (output0 + 1) + l <= TWO64
    ensures RangeStart(output0, l) == (ScaleLow * output0 + l - 1) / l
    ensures RangeEnd(output0, l) + 1 == (ScaleHigh * (output0 + 1) + l - 1) / l
  {
    ModSmall(ScaleLow * output0 + l - 1, TWO64);
    ModSmall(ScaleHigh * (output0 + 1), TWO64);
    ModSmall(ScaleHigh * (output0 + 1) + l - 1, TWO64);
    var c := (ScaleHigh * (output0 + 1) + l - 1) / l;
    MulLe(1, c, l);
    assert c >= 1;
    ModSmall(c - 1, TWO64);
    assert c + TWO64 - 1 == (c - 1) + TWO64;
    ModAddMultiple(c - 1, 1, TWO64);
  }

  /** A truncated product scaled by a factor in the bracket lies between the products scaled by the bracket's ends. */
  lemma ScaledBracket(x: nat, o: nat, num: nat, den: nat)
    requires ScaleFactor(num, den) && x * num / den == o
    ensures ScaleLow * o <= x < ScaleHigh * (o + 1)
  {
    QuotientIs(x * num, den, o);
    ScaledNotBelow(x, o, num, den);
    ScaledBelowNext(x, o, num, den);
  }

  lemma ScaledNotBelow(x: nat, o: nat, num: nat, den: nat)
    requires ScaleFactor(num, den) && o * den <= x * num
    ensures ScaleLow * o <= x
  {
    MulLe(ScaleLow * num, den, o);
    assert o * (ScaleLow * num) == (ScaleLow * o) * num;
    if x < ScaleLow * o {
      MulLe(x + 1, ScaleLow * o, num);
    }
  }

  lemma ScaledBelowNext(x: nat, o: nat, num: nat, den: nat)
    requires ScaleFactor(num, den) && x * num < (o + 1) * den
    ensures x < ScaleHigh * (o + 1)
  {
    MulLe(den, ScaleHigh * num, o + 1);
    assert (o + 1) * (ScaleHigh * num) == (ScaleHigh * (o + 1)) * num;
    if x >= ScaleHigh * (o + 1) {
      MulLe(ScaleHigh * (o + 1), x, num);
    }
  }

  /** The first output a 24-bit state gives with a 32-bit limit is below 2^33, far from any wrap. */
  lemma OutputOfStateIsSmall(state: nat, l: nat, o: nat)
    requires state < Modulus && l < TWO32 && ScaleLow * o <= state * l
    ensures o < 0x2_0000_0000 && ScaleHigh * (o + 1) + l <= TWO64
  {
    MulLe(state, Modulus, l);
    MulLe(l, TWO32, Modulus);
    if o >= 0x2_0000_0000 {
      MulLe(0x2_0000_0000, o, ScaleLow);
    }
    MulLe(o + 1, 0x2_0000_0000, ScaleHigh);
  }

  /**
   * The narrowed range holds every 24-bit state whose first output is
   * output0 under some factor of the bracket, and only states whose outputs
   * at the bracket's two ends straddle output0.
   */
  lemma RangeIsOutputClass(output0: nat, l: nat, state: nat)
    requires 0 < l < TWO32 && output0 <= MaxOutput0 && state < Modulus
    ensures (exists num: nat, den: nat :: ScaleFactor(num, den) && Scaled(state, l, num, den) == output0) ==>
      RangeStart(output0, l) <= state <= RangeEnd(output0, l)
    ensures ScaleHigh * (output0 + 1) + l <= TWO64 && RangeStart(output0, l) <= state <= RangeEnd(output0, l) ==>
      Scaled(state, l, 1, ScaleHigh) <= output0 <= Scaled(state, l, 1, ScaleLow)
  {
    if exists num: nat, den: nat :: ScaleFactor(num, den) && Scaled(state, l, num, den) == output0 {
      var num: nat, den: nat :| ScaleFactor(num, den) && Scaled(state, l, num, den) == output0;
      RangeCoversOutput(output0, l, state, num, den);
    }
    if ScaleHigh * (output0 + 1) + l <= TWO64 && RangeStart(output0, l) <= state <= RangeEnd(output0, l) {
      RangeStraddles(output0, l, state);
    }
  }

  /** One state of an unwrapped range: its outputs under the two ends of the bracket straddle output0. */
  lemma RangeStraddles(output0: nat, l: nat, state: nat)
    requires 0 < l < TWO32 && output0 <= MaxOutput0 && state < Modulus
    requires ScaleHigh * (output0 + 1) + l <= TWO64 && RangeStart(output0, l) <= state <= RangeEnd(output0, l)
    ensures Scaled(state, l, 1, ScaleHigh) <= output0 <= Scaled(state, l, 1, ScaleLow)
  {
    RangeUnwrapped(output0, l);
    var x := state * l;
    CeilingIsLeast(ScaleLow * output0, l, state);
    CeilingIsLeast(ScaleHigh * (output0 + 1), l, state);
    assert ScaleLow * output0 <= x < ScaleHigh * (output0 + 1);
    var lo := x / ScaleHigh;
    var hi := x / ScaleLow;
    assert Scaled(state, l, 1, ScaleHigh) == lo && Scaled(state, l, 1, ScaleLow) == hi;
    QuotientIs(x, ScaleHigh, lo);
    QuotientIs(x, ScaleLow, hi);
    MulLe(hi + 1, output0, ScaleLow);
    MulLe(output0 + 1, lo, ScaleHigh);
  }

  /** One witness of the covering half of RangeIsOutputClass. */
  lemma RangeCoversOutput(output0: nat, l: nat, state: nat, num: nat, den: nat)
    requires 0 < l < TWO32 && output0 <= MaxOutput0 && state < Modulus
    requires ScaleFactor(num, den) && Scaled(state, l, num, den) == output0
    ensures RangeStart(output0, l) <= state <= RangeEnd(output0, l)
  {
    ScaledBracket(state * l, output0, num, den);
    OutputOfStateIsSmall(state, l, output0);
    RangeUnwrapped(output0, l);
    CeilingIsLeast(ScaleLow * output0, l, state);
    CeilingIsLeast(ScaleHigh * (output0 + 1), l, state);
  }

  /** The guard under which RecoverSeed hands the search on unchanged. */
  predicate Delegates(output: seq<nat>, limit: nat, wildcard: nat)
  {
    |output| < 2 || output[0] > MaxOutput0 || output[0] == wildcard || limit == 0
  }

  /**
   * The narrowed search for a limit l that is nonzero as a uint: the range
   * clamped and aligned to the caller's, the outputs after the first, and
   * the wrapper callback.
   */
  function Narrowed(seedStart: nat, seedEnd: nat, seedIncrement: nat, output: seq<nat>, limit: nat,
                    wildcard: nat, progressInterval: nat, l: nat): (res: RecoveryResult)
    requires LcgBase.IsULong(seedStart) && LcgBase.IsULong(seedEnd)
    requires |output| >= 1 && output[0] <= MaxOutput0 && 0 < l < TWO32
    ensures res.Delegated? && res.search.wrapped && res.search.seedIncrement == seedIncrement
    ensures res.search.output == output[1..] && res.search.limit == limit && res.search.wildcard == wildcard
    ensures res.search.seedEnd <= seedEnd && res.search.seedEnd <= RangeEnd(output[0], l)
  {
    var rangestart := RangeStart(output[0], l);
    var rangeend := RangeEnd(output[0], l);
    Delegated(BaseSearch(AlignStart(rangestart, seedStart, seedIncrement), if rangeend > seedEnd then seedEnd else rangeend,
                         seedIncrement, output[1..], limit, wildcard, progressInterval, true))
  }

  /**
   * RecoverSeed as written: outside the guard the search is handed on
   * unchanged; an empty range or a zero stride gives false; otherwise the
   * range is computed with the limit cast to uint, which raises a division
   * by zero for every limit that is a multiple of 2^32.
   */
  function RecoverSeed(seedStart: nat, seedEnd: nat, seedIncrement: nat, output: seq<nat>, limit: nat,
                       wildcard: nat, progressInterval: nat): (res: Outcome<RecoveryResult>)
    requires LcgBase.IsULong(seedStart) && LcgBase.IsULong(seedEnd) && LcgBase.IsULong(limit)
    ensures Delegates(output, limit, wildcard) ==>
      res == Ok(Delegated(BaseSearch(seedStart, seedEnd, seedIncrement, output, limit, wildcard, progressInterval, false)))
    ensures !Delegates(output, limit, wildcard) && (seedStart > seedEnd || seedIncrement == 0) ==> res == Ok(Finished(false))
    ensures !Delegates(output, limit, wildcard) && seedStart <= seedEnd && seedIncrement > 0 ==>
      (res.Raises? <==> limit % TWO32 == 0)
      && (res.Ok? ==> res.value.Delegated? && res.value.search.wrapped && res.value.search.output == output[1..])
  {
    if Delegates(output, limit, wildcard) then
      Ok(Delegated(BaseSearch(seedStart, seedEnd, seedIncrement, output, limit, wildcard, progressInterval, false)))
    else if seedStart > seedEnd || seedIncrement == 0 then Ok(Finished(false))
    else if limit % TWO32 == 0 then Raises("DivideByZeroException")
    else Ok(Narrowed(seedStart, seedEnd, seedIncrement, output, limit, wildcard, progressInterval, limit % TWO32))
  }

  /**
   * The limit 2^32 passes the guard and raises, although the generator
   * scales its outputs by it like by any other limit.
   */
  lemma TruncatedLimitRaises()
    ensures RecoverSeed(0, MaximumSeed, 1, [0, 0], TWO32, 1, 0) == Raises("DivideByZeroException")
  {
  }

  /** RecoverSeed with the guard also handing on every limit that does not fit in a uint. */
  function RecoverSeedCorrected(seedStart: nat, seedEnd: nat, seedIncrement: nat, output: seq<nat>, limit: nat,
                                wildcard: nat, progressInterval: nat): (res: RecoveryResult)
    requires LcgBase.IsULong(seedStart) && LcgBase.IsULong(seedEnd) && LcgBase.IsULong(limit)
    ensures Delegates(output, limit, wildcard) || limit >= TWO32 ==>
      res == Delegated(BaseSearch(seedStart, seedEnd, seedIncrement, output, limit, wildcard, progressInterval, false))
    ensures !Delegates(output, limit, wildcard) && limit < TWO32 ==>
      (seedStart > seedEnd || seedIncrement == 0 ==> res == Finished(false))
      && (seedStart <= seedEnd && seedIncrement > 0 ==> Ok(res) == RecoverSeed(seedStart, seedEnd, seedIncrement, output, limit, wildcard, progressInterval))
  {
    if Delegates(output, limit, wildcard) || limit >= TWO32 then
      Delegated(BaseSearch(seedStart, seedEnd, seedIncrement, output, limit, wildcard, progressInterval, false))
    else if seedStart > seedEnd || seedIncrement == 0 then Finished(false)
    else
      ModSmall(limit, TWO32);
      Narrowed(seedStart, seedEnd, seedIncrement, output, limit, wildcard, progressInterval, limit)
  }

  /**
   * The corrected recovery never raises and loses no seed: every 24-bit
   * state on the caller's stride and in the caller's range whose first
   * output is output[0] under some factor of the bracket stays in the
   * search it hands on, on that search's stride.
   */
  lemma CorrectedSearchKeepsOutputClass(seedStart: nat, seedEnd: nat, seedIncrement: nat, output: seq<nat>, limit: nat,
                                        wildcard: nat, progressInterval: nat, state: nat, num: nat, den: nat)
    requires LcgBase.IsULong(seedStart) && LcgBase.IsULong(seedEnd) && LcgBase.IsULong(limit)
    requires 0 < seedIncrement <= TWO64 - Modulus && |output| >= 1 && limit > 0
    requires seedStart <= state <= seedEnd && state < Modulus && (state - seedStart) % seedIncrement == 0
    requires ScaleFactor(num, den) && Scaled(state, limit, num, den) == output[0]
    ensures var res := RecoverSeedCorrected(seedStart, seedEnd, seedIncrement, output, limit, wildcard, progressInterval);
      res.Delegated? && res.search.seedIncrement == seedIncrement
      && res.search.seedStart <= state <= res.search.seedEnd && (state - res.search.seedStart) % seedIncrement == 0
  {
    if !Delegates(output, limit, wildcard) && limit < TWO32 {
      ModSmall(limit, TWO32);
      NarrowedKeepsOutputClass(seedStart, seedEnd, seedIncrement, output, limit, wildcard, progressInterval, state, num, den);
    }
  }

  /** The narrowed search with an uncast limit keeps every state of the output class in range and on stride. */
  lemma NarrowedKeepsOutputClass(seedStart: nat, seedEnd: nat, seedIncrement: nat, output: seq<nat>, limit: nat,
                                 wildcard: nat, progressInterval: nat, state: nat, num: nat, den: nat)
    requires LcgBase.IsULong(seedStart) && LcgBase.IsULong(seedEnd) && 0 < limit < TWO32
    requires 0 < seedIncrement <= TWO64 - Modulus && |output| >= 1 && output[0] <= MaxOutput0
    requires seedStart <= state <= seedEnd && state < Modulus && (state - seedStart) % seedIncrement == 0
    requires ScaleFactor(num, den) && Scaled(state, limit, num, den) == output[0]
    ensures var res := Narrowed(seedStart, seedEnd, seedIncrement, output, limit, wildcard, progressInterval, limit);
      res.search.seedStart <= state <= res.search.seedEnd && (state - res.search.seedStart) % seedIncrement == 0
  {
    var rangestart := RangeStart(output[0], limit);
    var first := AlignStart(rangestart, seedStart, seedIncrement);
    RangeCoversOutput(output[0], limit, state, num, den);
    AlignedNotAbove(rangestart, seedStart, seedIncrement, state);
    AlignStartIsNextOnStride(rangestart, seedStart, seedIncrement);
    StrideFrom(seedStart, first, state, seedIncrement);
    assert Narrowed(seedStart, seedEnd, seedIncrement, output, limit, wildcard, progressInterval, limit).search.seedStart == first;
  }

  /** A value on the stride from base is on the stride from any later point of it. */
  lemma StrideFrom(base: nat, first: nat, s: nat, inc: nat)
    requires inc > 0 && base <= first <= s && (s - base) % inc == 0 && (first == base || (first - base) % inc == 0)
    ensures (s - first) % inc == 0
  {
    if first != base {
      ModSub(s - base, first - base, inc);
      assert s - first == (s - base) - (first - base);
    }
  }


  /**
   * Every candidate of the narrowed search, a 24-bit state, is reported as
   * a seed whose first step leads back to the candidate.
   */
  lemma CandidateReproducesFirstState(candidate: nat)
    requires candidate <= MaximumSeed
    ensures var seed := Rewrite(Discovered(candidate), s => PreviousState(s % TWO32)).seed;
      MinimumSeed <= seed <= MaximumSeed && NextState(seed) == candidate
  {
    ModSmall(candidate, TWO32);
    StepRoundTrip(candidate);
  }
}

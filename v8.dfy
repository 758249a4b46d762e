/**
 * PrngV8: the random number generator of Google V8, two 16-bit
 * multiply-with-carry generators on uint states. Each step multiplies the
 * low 16 bits of a state by its multiplier and adds the high 16 bits; the
 * output is (State0 << 14) + (State1 & 0x3FFFF) in 32-bit arithmetic.
 *
 * Bit operations are written arithmetically: x & (2^k - 1) is x % 2^k,
 * x >> k is x / 2^k, x << k on a uint is (x * 2^k) % 2^32, and an | of
 * two operands whose set bits do not overlap is their sum.
 */
module V8 {
  import opened Common
  import opened Recovery
  import LcgBase

  const Multiplier0: nat := 18273
  const Multiplier1: nat := 36969
  /** V8 needs both states non-zero; this is the least seed whose two halves are non-zero. */
  const MinimumSeed: nat := 0x1_0000_0001
  const MaximumSeed: nat := TWO64 - 1
  const CanReverse: bool := true

  /** The multipliers of the two generators: both fit in 16 bits. */
  predicate IsMultiplier(a: nat)
  {
    0 < a < 0x1_0000
  }

  /** The largest value one step can produce for multiplier a: a * 0xFFFF + 0xFFFF. */
  function MaxState(a: nat): (r: nat)
    requires IsMultiplier(a)
    ensures r < TWO32
  {
    a * 0xFFFF + 0xFFFF
  }

  /**
   * One multiply-with-carry step in uint arithmetic. The product and sum
   * never wrap: the step is the exact value a * low16 + high16, at most
   * MaxState(a).
   */
  function Mwc(state: nat, a: nat): (r: nat)
    requires state < TWO32 && IsMultiplier(a)
    ensures r == a * (state % 0x1_0000) + state / 0x1_0000 && r <= MaxState(a)
  {
    MwcFits(state % 0x1_0000, state / 0x1_0000, a);
    (a * (state % 0x1_0000) + state / 0x1_0000) % TWO32
  }

  /** With 16-bit halves, a * low + high is at most MaxState(a) and so fits in a uint. */
  lemma MwcFits(low: nat, high: nat, a: nat)
    requires low < 0x1_0000 && high < 0x1_0000 && IsMultiplier(a)
    ensures a * low + high <= MaxState(a) && (a * low + high) % TWO32 == a * low + high
  {
    MulLe(low, 0xFFFF, a);
    ModSmall(a * low + high, TWO32);
  }

  /** The output of a pair of states: (state0 << 14) + (state1 & 0x3FFFF), truncated to a uint. */
  function Output(state0: nat, state1: nat): (r: nat)
    ensures r < TWO32
  {
    ((state0 * 0x4000) % TWO32 + state1 % 0x4_0000) % TWO32
  }

  /**
   * The low 14 bits of an output are those of state1; the high 18 bits are
   * the low 18 bits of state0 plus the 4 bits of state1 above its low 14,
   * modulo 2^18.
   */
  lemma OutputBits(state0: nat, state1: nat)
    ensures Output(state0, state1) % 0x4000 == state1 % 0x4000
    ensures Output(state0, state1) / 0x4000 == (state0 % 0x4_0000 + (state1 % 0x4_0000) / 0x4000) % 0x4_0000
  {
    var h := (state0 % 0x4_0000 + (state1 % 0x4_0000) / 0x4000) % 0x4_0000;
    OutputValue(state0, state1);
    DivModUnique(h * 0x4000 + state1 % 0x4000, 0x4000, h, state1 % 0x4000);
  }

  /** The output as a value: the high 18 bits h over the low 14 bits of state1. */
  lemma OutputValue(state0: nat, state1: nat)
    ensures Output(state0, state1)
      == ((state0 % 0x4_0000 + (state1 % 0x4_0000) / 0x4000) % 0x4_0000) * 0x4000 + state1 % 0x4000
  {
    var lo := state1 % 0x4000;
    var mid := (state1 % 0x4_0000) / 0x4000;
    var top := state0 % 0x4_0000;
    MulModShift(state0, 0x4000, 0x4_0000);
    assert (state0 * 0x4000) % TWO32 == top * 0x4000;
    ModMulSplit(state1, 0x4000, 0x10);
    HighOfLow(state1, 0x4000, 0x10);
    assert state1 % 0x4_0000 == mid * 0x4000 + lo;
    CarryOut(top, mid, lo);
  }

  /** An 18-bit high part plus a carry in, over a 14-bit low part, reduced modulo 2^32. */
  lemma CarryOut(top: nat, mid: nat, lo: nat)
    requires top < 0x4_0000 && mid < 0x10 && lo < 0x4000
    ensures (top * 0x4000 + (mid * 0x4000 + lo)) % TWO32 == ((top + mid) % 0x4_0000) * 0x4000 + lo
  {
    var h := (top + mid) % 0x4_0000;
    var c := (top + mid) / 0x4_0000;
    assert top * 0x4000 + (mid * 0x4000 + lo) == h * 0x4000 + lo + c * TWO32;
    ModAddMultiple(h * 0x4000 + lo, c, TWO32);
    ModSmall(h * 0x4000 + lo, TWO32);
  }

  /**
   * PreviousState0 and PreviousState1, which differ only in the
   * multiplier: one predecessor of a state. A state from a * 0x10000 - 1
   * up to MaxState(a) comes from a state whose low 16 bits are 0xFFFF; a
   * smaller state from the state whose high part is state % a and whose
   * low part is state / a; a larger state has no predecessor, and the
   * source raises ArgumentOutOfRangeException.
   */
  function PreviousState(state: nat, a: nat): (r: Outcome<nat>)
    requires state < TWO32 && IsMultiplier(a)
    ensures r.Ok? ==> r.value < TWO32
  {
    if state >= a * 0x1_0000 - 1 then
      if state <= a * 0xFFFF + 0xFFFF then
        UpperFits(state, a);
        Ok(((state - a * 0xFFFF) * 0x1_0000) % TWO32 + 0xFFFF)
      else Raises("ArgumentOutOfRangeException")
    else
      LowerFits(state, a);
      Ok(((state % a) * 0x1_0000) % TWO32 + state / a)
  }

  /**
   * In each branch of PreviousState the shift by 16 does not wrap and the
   * low part fits in 16 bits: the result is the predecessor's high part
   * times 2^16 plus its low part.
   */
  lemma PredecessorFits(state: nat, a: nat)
    requires state < TWO32 && IsMultiplier(a)
    ensures a * 0x1_0000 - 1 <= state <= a * 0xFFFF + 0xFFFF ==>
      var high := state - a * 0xFFFF;
      high < 0x1_0000 && (high * 0x1_0000) % TWO32 == high * 0x1_0000
      && (high * 0x1_0000) % TWO32 + 0xFFFF < TWO32
    ensures state < a * 0x1_0000 - 1 ==>
      state % a < 0x1_0000 && state / a < 0x1_0000 && ((state % a) * 0x1_0000) % TWO32 == (state % a) * 0x1_0000
      && ((state % a) * 0x1_0000) % TWO32 + state / a < TWO32
  {
    if a * 0x1_0000 - 1 <= state <= a * 0xFFFF + 0xFFFF {
      UpperFits(state, a);
    }
    if state < a * 0x1_0000 - 1 {
      LowerFits(state, a);
    }
  }

  /** From a * 0x10000 - 1 up to MaxState(a), the high part fits in 16 bits and the shift does not wrap. */
  lemma UpperFits(state: nat, a: nat)
    requires state < TWO32 && IsMultiplier(a) && a * 0x1_0000 - 1 <= state <= a * 0xFFFF + 0xFFFF
    ensures var high := state - a * 0xFFFF;
      0 <= high < 0x1_0000 && (high * 0x1_0000) % TWO32 == high * 0x1_0000
      && (high * 0x1_0000) % TWO32 + 0xFFFF < TWO32
  {
    ModSmall((state - a * 0xFFFF) * 0x1_0000, TWO32);
  }

  /** Below a * 0x10000 - 1, both halves of the predecessor fit in 16 bits and the shift does not wrap. */
  lemma LowerFits(state: nat, a: nat)
    requires state < TWO32 && IsMultiplier(a) && state < a * 0x1_0000 - 1
    ensures state % a < 0x1_0000 && state / a < 0x1_0000
    ensures ((state % a) * 0x1_0000) % TWO32 == (state % a) * 0x1_0000
  {
    DivBound(state, a, 0x1_0000);
    MulLe(state % a, 0xFFFF, 0x1_0000);
    ModSmall((state % a) * 0x1_0000, TWO32);
  }

  /**
   * PreviousState is a right inverse of the step: it succeeds exactly on
   * the states a step can produce, and stepping its result gives the state
   * back.
   */
  lemma PreviousStateUndoesStep(state: nat, a: nat)
    requires state < TWO32 && IsMultiplier(a)
    ensures PreviousState(state, a).Ok? <==> state <= MaxState(a)
    ensures PreviousState(state, a).Ok? ==> Mwc(PreviousState(state, a).value, a) == state
  {
    if state >= a * 0x1_0000 - 1 {
      if state <= a * 0xFFFF + 0xFFFF {
        UpperPredecessor(state, a);
      }
    } else {
      LowerPredecessor(state, a);
    }
  }

  /** From a * 0x10000 - 1 up to MaxState(a), the predecessor has low half 0xFFFF. */
  lemma UpperPredecessor(state: nat, a: nat)
    requires state < TWO32 && IsMultiplier(a) && a * 0x1_0000 - 1 <= state <= a * 0xFFFF + 0xFFFF
    ensures PreviousState(state, a).Ok? && Mwc(PreviousState(state, a).value, a) == state
  {
    PredecessorFits(state, a);
    var high := state - a * 0xFFFF;
    assert PreviousState(state, a) == Ok(high * 0x1_0000 + 0xFFFF);
    MwcOfHalves(high, 0xFFFF, a);
  }

  /** Below a * 0x10000 - 1, the predecessor has high half state % a and low half state / a. */
  lemma LowerPredecessor(state: nat, a: nat)
    requires state < TWO32 && IsMultiplier(a) && state < a * 0x1_0000 - 1
    ensures state <= MaxState(a)
    ensures PreviousState(state, a).Ok? && Mwc(PreviousState(state, a).value, a) == state
  {
    LowerBelowMax(state, a);
    LowerRoundTrip(state, a);
  }

  lemma LowerBelowMax(state: nat, a: nat)
    requires IsMultiplier(a) && state < a * 0x1_0000 - 1
    ensures state <= MaxState(a)
  {
    assert a * 0x1_0000 == a * 0xFFFF + a;
  }

  lemma LowerRoundTrip(state: nat, a: nat)
    requires state < TWO32 && IsMultiplier(a) && state < a * 0x1_0000 - 1
    ensures PreviousState(state, a).Ok? && Mwc(PreviousState(state, a).value, a) == state
  {
    var high, low := LowerValue(state, a);
    LowerStep(state, a, high, low);
  }

  /** Below a * 0x10000 - 1, PreviousState joins the halves state % a and state / a. */
  lemma LowerValue(state: nat, a: nat) returns (high: nat, low: nat)
    requires state < TWO32 && IsMultiplier(a) && state < a * 0x1_0000 - 1
    ensures high == state % a && low == state / a && high < 0x1_0000 && low < 0x1_0000
    ensures PreviousState(state, a) == Ok(high * 0x1_0000 + low)
  {
    LowerFits(state, a);
    high, low := state % a, state / a;
  }

  /** Stepping the joined halves state % a and state / a gives a * (state / a) + state % a, the state. */
  lemma LowerStep(state: nat, a: nat, high: nat, low: nat)
    requires IsMultiplier(a) && high == state % a && low == state / a && high < 0x1_0000 && low < 0x1_0000
    ensures high * 0x1_0000 + low < TWO32 && Mwc(high * 0x1_0000 + low, a) == state
  {
    MwcOfHalves(high, low, a);
  }

  /** The step of the state with 16-bit halves high and low is a * low + high. */
  lemma MwcOfHalves(high: nat, low: nat, a: nat)
    requires high < 0x1_0000 && low < 0x1_0000 && IsMultiplier(a)
    ensures high * 0x1_0000 + low < TWO32 && Mwc(high * 0x1_0000 + low, a) == a * low + high
  {
    DivModUnique(high * 0x1_0000 + low, 0x1_0000, high, low);
  }

  /**
   * Every state a step produces has a predecessor, so a Previous that
   * follows a Next never raises, and the predecessor steps to the same
   * state as the original. The step is not injective (the high part may
   * exceed the multiplier), so the predecessor need not be the original.
   */
  lemma StepHasPrevious(state: nat, a: nat)
    requires state < TWO32 && IsMultiplier(a)
    ensures PreviousState(Mwc(state, a), a).Ok?
    ensures Mwc(PreviousState(Mwc(state, a), a).value, a) == Mwc(state, a)
  {
    PreviousStateUndoesStep(Mwc(state, a), a);
  }

  /** Two states with the same step: the step forgets one multiple of the multiplier moved between its halves. */
  lemma StepNotInjective()
    ensures Mwc(Multiplier0 * 0x1_0000, Multiplier0) == Mwc(1, Multiplier0)
    ensures PreviousState(Mwc(Multiplier0 * 0x1_0000, Multiplier0), Multiplier0) == Ok(1)
  {
    DivModUnique(Multiplier0 * 0x1_0000, 0x1_0000, Multiplier0, 0);
    DivModUnique(1, 0x1_0000, 0, 1);
    DivModUnique(Multiplier0, Multiplier0, 1, 0);
  }

  /** The 64-bit seed of a pair of uint states: state0 in the high half. */
  function SeedOfStates(state0: nat, state1: nat): (r: nat)
    requires state0 < TWO32 && state1 < TWO32
    ensures LcgBase.IsULong(r) && r / TWO32 == state0 && r % TWO32 == state1
  {
    MulLe(state0, TWO32 - 1, TWO32);
    DivModUnique(state0 * TWO32 + state1, TWO32, state0, state1);
    state0 * TWO32 + state1
  }

  /** The uint states _State0 and _State1. */
  class V8Generator {
    var state0: nat
    var state1: nat

    ghost predicate Valid()
      reads this
    {
      state0 < TWO32 && state1 < TWO32
    }

    /** The default constructor leaves both states 0. */
    constructor ()
      ensures Valid() && state0 == 0 && state1 == 0
    {
      state0 := 0;
      state1 := 0;
    }

    /** Seed: State0 is the high 32 bits of the seed, State1 the low 32 bits; the seed is their concatenation. */
    method Seed(seed: nat)
      requires LcgBase.IsULong(seed)
      modifies this
      ensures Valid() && SeedOfStates(state0, state1) == seed
    {
      DivBound(seed, TWO32, TWO32);
      state0 := seed / TWO32;
      state1 := seed % TWO32;
      DivModUnique(seed, TWO32, state0, state1);
    }

    /**
     * Next: one multiply-with-carry step of each state, then the output of
     * the new states. Every new state has a predecessor.
     */
    method Next() returns (r: nat)
      requires Valid()
      modifies this
      ensures Valid() && state0 == Mwc(old(state0), Multiplier0) && state1 == Mwc(old(state1), Multiplier1)
      ensures r == Output(state0, state1)
      ensures PreviousState(state0, Multiplier0).Ok? && PreviousState(state1, Multiplier1).Ok?
    {
      StepHasPrevious(state0, Multiplier0);
      StepHasPrevious(state1, Multiplier1);
      state0 := Mwc(state0, Multiplier0);
      state1 := Mwc(state1, Multiplier1);
      r := Output(state0, state1);
    }

    /** Next(limit): the output scaled into [0, limit) for a limit from 1 to 2^32. */
    method NextLimit(limit: nat) returns (r: nat)
      requires Valid() && LcgBase.IsULong(limit)
      modifies this
      ensures Valid() && state0 == Mwc(old(state0), Multiplier0) && state1 == Mwc(old(state1), Multiplier1)
      ensures r == ScaleToLimit(Output(state0, state1), limit)
      ensures 0 < limit <= TWO32 ==> r < limit
    {
      var next := Next();
      r := ScaleToLimit(next, limit);
      if 0 < limit <= TWO32 {
        ScaleToLimitBelow(next, limit);
      }
    }

    /**
     * Previous: returns the output of the current states and steps both
     * back. A Next from the new states gives back the current states and
     * the same output. A state0 with no predecessor raises before anything
     * changes; a state1 with none raises after State0 has been stepped
     * back.
     */
    method Previous() returns (r: Outcome<nat>)
      requires Valid()
      modifies this
      ensures Valid()
      ensures old(state0) > MaxState(Multiplier0) ==>
        r == Raises("ArgumentOutOfRangeException") && state0 == old(state0) && state1 == old(state1)
      ensures old(state0) <= MaxState(Multiplier0) && old(state1) > MaxState(Multiplier1) ==>
        r == Raises("ArgumentOutOfRangeException") && Mwc(state0, Multiplier0) == old(state0) && state1 == old(state1)
      ensures old(state0) <= MaxState(Multiplier0) && old(state1) <= MaxState(Multiplier1) ==>
        r == Ok(Output(old(state0), old(state1)))
        && Mwc(state0, Multiplier0) == old(state0) && Mwc(state1, Multiplier1) == old(state1)
    {
      var current0 := state0;
      var current1 := state1;
      PreviousStateUndoesStep(current0, Multiplier0);
      PreviousStateUndoesStep(current1, Multiplier1);
      var previous0 := PreviousState(current0, Multiplier0);
      if previous0.Raises? {
        return Raises(previous0.reason);
      }
      state0 := previous0.value;
      var previous1 := PreviousState(current1, Multiplier1);
      if previous1.Raises? {
        return Raises(previous1.reason);
      }
      state1 := previous1.value;
      r := Ok(Output(current0, current1));
    }

    /** Previous(limit): the output of Previous scaled into [0, limit), raising where Previous raises. */
    method PreviousLimit(limit: nat) returns (r: Outcome<nat>)
      requires Valid() && LcgBase.IsULong(limit)
      modifies this
      ensures Valid()
      ensures (old(state0) <= MaxState(Multiplier0) && old(state1) <= MaxState(Multiplier1)) <==> r.Ok?
      ensures r.Ok? ==> (r.value == ScaleToLimit(Output(old(state0), old(state1)), limit)
        && Mwc(state0, Multiplier0) == old(state0) && Mwc(state1, Multiplier1) == old(state1))
      ensures r.Ok? && 0 < limit <= TWO32 ==> r.value < limit
    {
      var previous := Previous();
      if previous.Raises? {
        return Raises(previous.reason);
      }
      r := Ok(ScaleToLimit(previous.value, limit));
      if 0 < limit <= TWO32 {
        ScaleToLimitBelow(previous.value, limit);
      }
    }

    /**
     * The loop over suboutput[1..] in RecoverSeed: draws Next(limit) for
     * each expected value and stops at the first that differs from a
     * non-wildcard value. The result is whether the draws from the states
     * at entry match.
     */
    method MatchRest(suboutput: seq<nat>, limit: nat, wildcard: nat) returns (matched: bool)
      requires Valid() && LcgBase.IsULong(limit) && |suboutput| >= 1
      modifies this
      ensures Valid() && matched == MatchFrom(old(state0), old(state1), suboutput[1..], limit, wildcard)
    {
      var i := 1;
      while i < |suboutput|
        invariant 1 <= i <= |suboutput| && Valid()
        invariant MatchFrom(old(state0), old(state1), suboutput[1..], limit, wildcard)
          == MatchFrom(state0, state1, suboutput[i..], limit, wildcard)
        decreases |suboutput| - i
      {
        ghost var before0, before1 := state0, state1;
        var draw := NextLimit(limit);
        assert suboutput[i..][1..] == suboutput[i + 1..];
        if draw != suboutput[i] && suboutput[i] != wildcard {
          assert !MatchFrom(before0, before1, suboutput[i..], limit, wildcard);
          return false;
        }
        i := i + 1;
      }
      matched := true;
    }

    /**
     * The innermost loop of RecoverSeed over rounds - roundnum0 candidates
     * TopStride apart, from seed0: seeds each, tests it, reports matches
     * and skips ahead after a failed first draw. Without a stop the seed
     * ends one stride past the last candidate.
     */
    method Rounds(p: SearchSetup, seed0: nat, roundnum0: nat, rounds: nat, skip0: int, totalcountdown: nat)
      returns (seed: nat, skip: int, stop: Option<Outcome<RecoveryResult>>, found: seq<SearchEvent>)
      requires Valid() && SetupOk(p)
      requires roundnum0 <= rounds <= totalcountdown <= p.totalcount
      requires seed0 + (rounds - roundnum0) * TopStride < TWO64
      requires SkipOk(p, skip0) && (roundnum0 < rounds ==> skip0 <= 0)
      modifies this
      ensures Valid() && AllReported(found, p.output, p.output1, p.limit, p.wildcard)
      ensures Delivered(p, found, stop == Some(Ok(Finished(false))))
      ensures stop.None? ==> seed == seed0 + (rounds - roundnum0) * TopStride && SkipOk(p, skip)
      ensures stop.Some? ==> stop.value == Ok(Finished(false)) || stop.value.Raises?
    {
      seed, skip, stop, found := seed0, skip0, None, [];
      var roundnum: nat := roundnum0;
      while roundnum < rounds
        invariant roundnum0 <= roundnum <= rounds && Valid() && stop.None?
        invariant seed == seed0 + (roundnum - roundnum0) * TopStride
        invariant SkipOk(p, skip) && (roundnum < rounds ==> skip <= 0)
        invariant AllReported(found, p.output, p.output1, p.limit, p.wildcard) && Delivered(p, found, false)
        decreases rounds - roundnum
      {
        DivBound(seed, TWO32, TWO32);
        var candidate0, candidate1 := seed / TWO32, seed % TWO32;
        Seed(seed);
        var o1test := NextLimit(p.limit);
        if o1test != p.output1 && p.output1 != p.wildcard {
          if skip == 0 {
            var diff := Distance(p, o1test);
            if diff > 1 {
              skip := SkipOf(diff, p.blocksize);
              if skip >= rounds - roundnum {
                seed := seed + TopStride * (rounds - roundnum);
                skip := skip - (rounds - roundnum);
                roundnum := rounds;
                break;
              }
              roundnum := roundnum + (skip - 1);
              seed := seed + TopStride * (skip - 1);
              skip := 0;
            }
          }
        } else {
          if skip > 0 {
            skip := 0;
          }
          var matched := MatchRest(p.output[1..], p.limit, p.wildcard);
          if matched {
            assert p.output[1..][1..] == p.output[2..];
            var more;
            stop, more := Report(p, candidate0, candidate1, p.totalcount - totalcountdown + roundnum);
            AllReportedAppend(found, more, p.output, p.output1, p.limit, p.wildcard);
            if p.callback.Some? {
              CancelProtocolAppend(found, more, p.callback.value, stop == Some(Ok(Finished(false))));
            }
            found := found + more;
            if stop.Some? {
              return;
            }
          }
        }
        seed := seed + TopStride;
        roundnum := roundnum + 1;
      }
    }

    /**
     * The middle loop of RecoverSeed for one value of State0's low 18 bits:
     * the Span candidates from (statelow << 32) | 1 upwards, TopStride
     * apart, in stretches as long as the progress countdown allows, with a
     * progress event whenever the countdown runs out. Without a stop,
     * exactly Span attempts are counted off.
     */
    method SearchLow(p: SearchSetup, statelow: nat, after: nat, totalcountdown0: nat, countdown0: nat, skip0: int)
      returns (totalcountdown: nat, countdown: nat, skip: int, stop: Option<Outcome<RecoveryResult>>, found: seq<SearchEvent>)
      requires Valid() && SetupOk(p) && statelow < 0x4_0000
      requires totalcountdown0 == after + Span && totalcountdown0 <= p.totalcount
      requires CountdownOk(p, countdown0, totalcountdown0) && SkipOk(p, skip0)
      modifies this
      ensures Valid() && AllReported(found, p.output, p.output1, p.limit, p.wildcard)
      ensures Delivered(p, found, stop == Some(Ok(Finished(false))))
      ensures stop.None? ==> totalcountdown == after && CountdownOk(p, countdown, totalcountdown) && SkipOk(p, skip)
      ensures stop.Some? ==> stop.value == Ok(Finished(false)) || stop.value.Raises?
    {
      totalcountdown, countdown, skip, stop, found := totalcountdown0, countdown0, skip0, None, [];
      var rangestart := statelow * TWO32 + 1;
      var rangeend := rangestart + (Span - 1) * TopStride;
      var seed := rangestart;
      ghost var done := 0;
      while seed <= rangeend
        invariant done <= Span && seed == rangestart + done * TopStride && (seed <= rangeend <==> done < Span)
        invariant totalcountdown == after + (Span - done) && totalcountdown <= p.totalcount
        invariant Valid() && CountdownOk(p, countdown, totalcountdown) && SkipOk(p, skip)
        invariant AllReported(found, p.output, p.output1, p.limit, p.wildcard) && Delivered(p, found, false)
        decreases Span - done
      {
        DivMulCancel(Span - 1 - done, TopStride);
        var rounds: nat := (rangeend - seed) / TopStride + 1;
        if rounds > countdown {
          rounds := countdown;
        }
        var start, roundnum;
        start, roundnum, skip := SkipLeft(p, seed, rounds, skip);
        var more, stopped;
        seed, skip, stopped, more := Rounds(p, start, roundnum, rounds, skip, totalcountdown);
        AllReportedAppend(found, more, p.output, p.output1, p.limit, p.wildcard);
        if p.callback.Some? {
          CancelProtocolAppend(found, more, p.callback.value, stopped == Some(Ok(Finished(false))));
        }
        found := found + more;
        if stopped.Some? {
          return totalcountdown, countdown, skip, stopped, found;
        }
        done := done + rounds;
        totalcountdown := totalcountdown - rounds;
        countdown := countdown - rounds;
        var stopped2, progress;
        countdown, stopped2, progress := Checkpoint(p, seed, totalcountdown, countdown);
        AllReportedAppend(found, progress, p.output, p.output1, p.limit, p.wildcard);
        if p.callback.Some? {
          CancelProtocolAppend(found, progress, p.callback.value, stopped2.Some?);
        }
        found := found + progress;
        if stopped2.Some? {
          return totalcountdown, countdown, skip, stopped2, found;
        }
      }
    }

    /**
     * RecoverSeed. Hands the search to the generic one under the
     * conditions of Delegates; finishes false for an empty seed range;
     * otherwise searches the window of output[0] with the first draw
     * compared against FirstExpected(output, wildcard), as written: for
     * exactly two outputs that is the wildcard, so output[1] is never
     * compared (SecondOutputIgnored). Every discovered seed, stepped once,
     * reaches states that pass that test; for more than two outputs these
     * draw output[1..] (AsWrittenReportsMatch).
     */
    method RecoverSeed(seedStart: nat, seedEnd: nat, seedIncrement: nat, output: seq<nat>, limit: nat, wildcard: nat,
                       callback: Option<SearchEvent -> bool>, progressInterval: nat)
      returns (res: Outcome<RecoveryResult>, events: seq<SearchEvent>)
      requires Valid() && LcgBase.IsULong(limit)
      modifies this
      ensures Valid()
      ensures Delegates(output, limit, wildcard, seedIncrement) ==>
        res == Ok(Delegated(BaseSearch(seedStart, seedEnd, seedIncrement, output, limit, wildcard, progressInterval, false)))
        && events == []
      ensures !Delegates(output, limit, wildcard, seedIncrement) && seedStart > seedEnd ==> res == Ok(Finished(false)) && events == []
      ensures res.Ok? && res.value.Delegated? ==> Delegates(output, limit, wildcard, seedIncrement)
      ensures res.Ok? ==> res.value != Exhausted
      ensures AllReported(events, output, FirstExpected(output, wildcard), limit, wildcard)
      ensures callback.Some? ==> CancelProtocol(events, callback.value, res == Ok(Finished(false)) && seedStart <= seedEnd)
      ensures callback.None? ==> events == []
    {
      events := [];
      if Delegates(output, limit, wildcard, seedIncrement) {
        return Ok(Delegated(BaseSearch(seedStart, seedEnd, seedIncrement, output, limit, wildcard, progressInterval, false))), events;
      }
      if seedStart > seedEnd {
        return Ok(Finished(false)), events;
      }
      res, events := SearchWindow(output, FirstExpected(output, wildcard), limit, wildcard, callback, progressInterval);
    }

    /**
     * RecoverSeed as evidently intended: the same search with the first
     * draw always compared against output[1]. Every discovered seed,
     * stepped once, reaches states whose draws match all of output[1..]
     * (CorrectedReportsMatch).
     */
    method RecoverSeedCorrected(seedStart: nat, seedEnd: nat, seedIncrement: nat, output: seq<nat>, limit: nat, wildcard: nat,
                                callback: Option<SearchEvent -> bool>, progressInterval: nat)
      returns (res: Outcome<RecoveryResult>, events: seq<SearchEvent>)
      requires Valid() && LcgBase.IsULong(limit)
      modifies this
      ensures Valid()
      ensures Delegates(output, limit, wildcard, seedIncrement) ==>
        res == Ok(Delegated(BaseSearch(seedStart, seedEnd, seedIncrement, output, limit, wildcard, progressInterval, false)))
        && events == []
      ensures !Delegates(output, limit, wildcard, seedIncrement) && seedStart > seedEnd ==> res == Ok(Finished(false)) && events == []
      ensures res.Ok? && res.value.Delegated? ==> Delegates(output, limit, wildcard, seedIncrement)
      ensures res.Ok? ==> res.value != Exhausted
      ensures !Delegates(output, limit, wildcard, seedIncrement) ==> AllReported(events, output, output[1], limit, wildcard)
      ensures callback.Some? ==> CancelProtocol(events, callback.value, res == Ok(Finished(false)) && seedStart <= seedEnd)
      ensures callback.None? ==> events == []
    {
      events := [];
      if Delegates(output, limit, wildcard, seedIncrement) {
        return Ok(Delegated(BaseSearch(seedStart, seedEnd, seedIncrement, output, limit, wildcard, progressInterval, false))), events;
      }
      if seedStart > seedEnd {
        return Ok(Finished(false)), events;
      }
      res, events := SearchWindow(output, output[1], limit, wildcard, callback, progressInterval);
    }

    /**
     * The search of RecoverSeed once the request is its own: every value
     * of State0's low 18 bits from LowStart up to, not including, LowEnd,
     * with the first draw of each candidate compared against output1.
     * Every event reports the search's total and a count no larger, and
     * every discovered seed, stepped once, reaches states that pass the
     * test against output1; the callback decides cancellation. Building a
     * discovery raises when the candidate State0 has no predecessor, and
     * delivering one raises without a callback.
     */
    method SearchWindow(output: seq<nat>, output1: nat, limit: nat, wildcard: nat,
                        callback: Option<SearchEvent -> bool>, progressInterval: nat)
      returns (res: Outcome<RecoveryResult>, events: seq<SearchEvent>)
      requires Valid() && |output| >= 2 && output[0] < TWO32 && 0 < limit <= TWO32
      modifies this
      ensures Valid()
      ensures res.Ok? ==> res.value.Finished?
      ensures AllReported(events, output, output1, limit, wildcard)
      ensures callback.Some? ==> CancelProtocol(events, callback.value, res == Ok(Finished(false)))
      ensures callback.None? ==> events == []
    {
      events := [];
      var interval: nat := if callback.None? then 0 else progressInterval;
      var blocksize := BlockSize(limit);
      var lowstart := LowStart(output[0], limit);
      var lowend := LowEnd(output[0], limit);
      var totalcount := TotalCount(output[0], limit);
      var totalcountdown: nat := totalcount;
      var countdown: nat := if totalcountdown < interval || interval == 0 then totalcountdown else interval;
      var skip: int := if output1 == wildcard then -1 else 0;
      if blocksize < 2 {
        skip := -1;
      }
      var p := SearchSetup(output, output1, limit, wildcard, blocksize, interval, callback, totalcount);
      var statelow := lowstart;
      if lowstart < lowend {
        ModSmall(lowend - lowstart, TWO32);
      }
      while statelow < lowend
        invariant lowstart <= statelow && totalcountdown <= totalcount
        invariant statelow < lowend ==> totalcountdown == (lowend - statelow) * Span
        invariant Valid() && CountdownOk(p, countdown, totalcountdown) && SkipOk(p, skip)
        invariant AllReported(events, output, output1, limit, wildcard) && Delivered(p, events, false)
        decreases lowend - statelow
      {
        var stop, found;
        totalcountdown, countdown, skip, stop, found := SearchLow(p, statelow, (lowend - statelow - 1) * Span,
                                                                  totalcountdown, countdown, skip);
        AllReportedAppend(events, found, output, output1, limit, wildcard);
        if callback.Some? {
          CancelProtocolAppend(events, found, callback.value, stop == Some(Ok(Finished(false))));
        }
        events := events + found;
        if stop.Some? {
          return stop.value, events;
        }
        statelow := statelow + 1;
      }
      return Ok(Finished(true)), events;
    }
  }

  /*
   * Seed recovery (RecoverSeed): the low 18 bits of State0 are fixed to a
   * range derived from output[0] and State1 to 1; every top-14-bit value of
   * State0 up to Multiplier0 / 4 is tried and compared with output[1..].
   * For a small limit, the distance between output[1] and a failed first
   * draw lets the search skip candidates. A matching candidate is reported
   * as the seed whose Next reaches it.
   */

  /** The number of top-bit values tried for each value of the low 18 bits: 0 to Multiplier0 / 4, that is 4569. */
  const Span: nat := 4569
  /** The distance between two consecutive candidates: 1 << 50, the lowest of State0's top 14 bits. */
  const TopStride: nat := 0x4_0000_0000_0000

  /** The override hands the search to the generic one for short output, an unusable first output or limit, or a stride other than 1. */
  predicate Delegates(output: seq<nat>, limit: nat, wildcard: nat, seedIncrement: nat)
  {
    |output| < 2 || output[0] > TWO32 - 1 || output[0] == wildcard || limit == 0 || limit > TWO32 || seedIncrement != 1
  }

  /** The first candidate value of State0's low 18 bits: the ceiling of output0 * 2^32 / limit, truncated to a uint, shifted right by 14. */
  function LowStart(output0: nat, limit: nat): (r: nat)
    requires output0 < TWO32 && 0 < limit
    ensures r < 0x4_0000
  {
    DivBound(((output0 * TWO32 + limit - 1) / limit) % TWO32, 0x4000, 0x4_0000);
    (((output0 * TWO32 + limit - 1) / limit) % TWO32) / 0x4000
  }

  /**
   * The bound of State0's low 18 bits: the ceiling of (output0 + 1) * 2^32
   * / limit, less one, in 64-bit arithmetic, truncated to a uint, shifted
   * right by 14. The loop stops below it.
   */
  function LowEnd(output0: nat, limit: nat): (r: nat)
    requires output0 < TWO32 && 0 < limit <= TWO32
    ensures r < 0x4_0000
  {
    var c := ((((output0 + 1) * TWO32) % TWO64 + limit - 1) / limit + TWO64 - 1) % TWO64;
    DivBound(c % TWO32, 0x4000, 0x4_0000);
    (c % TWO32) / 0x4000
  }

  /** The total the progress events report: the uint difference of the two bounds times Span. */
  function TotalCount(output0: nat, limit: nat): nat
    requires output0 < TWO32 && 0 < limit <= TWO32
  {
    ((LowEnd(output0, limit) - LowStart(output0, limit)) % TWO32) * Span
  }

  /** The number of candidates a unit of distance between output[1] and a first draw lets the search skip. */
  function BlockSize(limit: nat): (r: nat)
    requires limit > 0
    ensures r >= 2 ==> limit <= 0x8000
  {
    if limit > 0x8000 then
      DivBound(TWO32, 0x1_0000 * limit, 2);
      TWO32 / (0x1_0000 * limit)
    else TWO32 / (0x1_0000 * limit)
  }

  /**
   * The draws from a pair of states match the expected values: each Next
   * draw scaled by the limit equals the expected value, or the expected
   * value is the wildcard.
   */
  predicate MatchFrom(state0: nat, state1: nat, expected: seq<nat>, limit: nat, wildcard: nat)
    requires state0 < TWO32 && state1 < TWO32
    decreases |expected|
  {
    |expected| == 0
    || (var next0, next1 := Mwc(state0, Multiplier0), Mwc(state1, Multiplier1);
        (ScaleToLimit(Output(next0, next1), limit) == expected[0] || expected[0] == wildcard)
        && MatchFrom(next0, next1, expected[1..], limit, wildcard))
  }

  /**
   * The test a candidate state pair passes: its first draw equals output1
   * (or output1 is the wildcard), and the draws after it match output[2..].
   */
  predicate CandidatePasses(state0: nat, state1: nat, output1: nat, output: seq<nat>, limit: nat, wildcard: nat)
    requires state0 < TWO32 && state1 < TWO32 && |output| >= 2
  {
    var next0, next1 := Mwc(state0, Multiplier0), Mwc(state1, Multiplier1);
    (ScaleToLimit(Output(next0, next1), limit) == output1 || output1 == wildcard)
    && MatchFrom(next0, next1, output[2..], limit, wildcard)
  }

  /**
   * The first value the source compares with: output[1] only when there
   * are more than two outputs, otherwise the wildcard (the source reads it
   * only once the output has at least two values).
   */
  function FirstExpected(output: seq<nat>, wildcard: nat): (r: nat)
    ensures |output| > 2 ==> r == output[1]
    ensures |output| <= 2 ==> r == wildcard
  {
    if |output| > 2 then output[1] else wildcard
  }

  /**
   * As written, a two-element output makes the first comparison a
   * wildcard: a candidate whose first draw differs from output[1] still
   * passes and would be reported.
   */
  lemma SecondOutputIgnored()
    ensures CandidatePasses(0, 1, FirstExpected([1, 1], 2), [1, 1], 2, 2)
    ensures !MatchFrom(0, 1, [1, 1][1..], 2, 2)
  {
    assert Mwc(0, Multiplier0) == 0;
    assert Mwc(1, Multiplier1) == Multiplier1;
    assert Output(0, Multiplier1) == Multiplier1;
    assert ScaleToLimit(Multiplier1, 2) == 0;
  }

  /** Compared with output[1], the test passes exactly when the candidate's draws match all of output[1..]. */
  lemma CorrectedTestIsMatch(state0: nat, state1: nat, output: seq<nat>, limit: nat, wildcard: nat)
    requires state0 < TWO32 && state1 < TWO32 && |output| >= 2
    ensures CandidatePasses(state0, state1, output[1], output, limit, wildcard) <==> MatchFrom(state0, state1, output[1..], limit, wildcard)
  {
    assert output[1..][1..] == output[2..];
  }

  /**
   * A reported event: its total is the search's total and its count at
   * most that; a discovered seed, stepped once by Next, reaches states
   * that pass the test against output1: the first draw is output1 (or
   * output1 is the wildcard) and the later draws match output[2..].
   */
  predicate Reported(e: SearchEvent, output: seq<nat>, output1: nat, limit: nat, wildcard: nat)
  {
    |output| >= 2 && output[0] < TWO32 && 0 < limit <= TWO32
    && e.totalAttempts == TotalCount(output[0], limit) && e.currentAttempts <= e.totalAttempts
    && (e.eventType == SeedDiscovered ==>
          e.seed < TWO64
          && CandidatePasses(Mwc(e.seed / TWO32, Multiplier0), Mwc(e.seed % TWO32, Multiplier1), output1, output, limit, wildcard))
  }

  predicate AllReported(events: seq<SearchEvent>, output: seq<nat>, output1: nat, limit: nat, wildcard: nat)
  {
    forall i :: 0 <= i < |events| ==> Reported(events[i], output, output1, limit, wildcard)
  }

  lemma AllReportedAppend(events: seq<SearchEvent>, more: seq<SearchEvent>, output: seq<nat>, output1: nat, limit: nat, wildcard: nat)
    requires AllReported(events, output, output1, limit, wildcard) && AllReported(more, output, output1, limit, wildcard)
    ensures AllReported(events + more, output, output1, limit, wildcard)
  {
    forall i | 0 <= i < |events + more|
      ensures Reported((events + more)[i], output, output1, limit, wildcard)
    {
      if i >= |events| {
        assert (events + more)[i] == more[i - |events|];
      }
    }
  }

  /**
   * With more than two outputs the as-written test is the intended one: a
   * seed that RecoverSeed reports, stepped once, draws all of output[1..].
   */
  lemma AsWrittenReportsMatch(e: SearchEvent, output: seq<nat>, limit: nat, wildcard: nat)
    requires |output| > 2 && Reported(e, output, FirstExpected(output, wildcard), limit, wildcard) && e.eventType == SeedDiscovered
    ensures MatchFrom(Mwc(e.seed / TWO32, Multiplier0), Mwc(e.seed % TWO32, Multiplier1), output[1..], limit, wildcard)
  {
    CorrectedTestIsMatch(Mwc(e.seed / TWO32, Multiplier0), Mwc(e.seed % TWO32, Multiplier1), output, limit, wildcard);
  }

  /** A seed that RecoverSeedCorrected reports, stepped once, draws all of output[1..]. */
  lemma CorrectedReportsMatch(e: SearchEvent, output: seq<nat>, limit: nat, wildcard: nat)
    requires |output| >= 2 && Reported(e, output, output[1], limit, wildcard) && e.eventType == SeedDiscovered
    ensures MatchFrom(Mwc(e.seed / TWO32, Multiplier0), Mwc(e.seed % TWO32, Multiplier1), output[1..], limit, wildcard)
  {
    CorrectedTestIsMatch(Mwc(e.seed / TWO32, Multiplier0), Mwc(e.seed % TWO32, Multiplier1), output, limit, wildcard);
  }

  /** The values fixed for one search: the callback is None where the caller passed none. */
  datatype SearchSetup = SearchSetup(output: seq<nat>, output1: nat, limit: nat, wildcard: nat, blocksize: nat,
                                     progressInterval: nat, callback: Option<SearchEvent -> bool>, totalcount: nat)

  predicate SetupOk(p: SearchSetup)
  {
    |p.output| >= 2 && p.output[0] < TWO32 && 0 < p.limit <= TWO32
    && p.blocksize == BlockSize(p.limit) && p.totalcount == TotalCount(p.output[0], p.limit)
    && (p.callback.None? ==> p.progressInterval == 0)
  }

  /** The skip counter: -1 turns skipping off, and skipping is on only for a small limit and a non-wildcard output[1]. */
  predicate SkipOk(p: SearchSetup, skip: int)
  {
    skip >= -1 && (skip >= 0 ==> p.blocksize >= 2 && p.output1 != p.wildcard)
  }

  /** The progress countdown: at most the attempts left, positive while any are left, and equal to them without progress events. */
  predicate CountdownOk(p: SearchSetup, countdown: nat, totalcountdown: nat)
  {
    countdown <= totalcountdown && (countdown >= 1 || totalcountdown == 0)
    && (p.progressInterval == 0 ==> countdown == totalcountdown)
  }

  /** The events of a stretch of the search, as the callback saw them. */
  predicate Delivered(p: SearchSetup, found: seq<SearchEvent>, cancelled: bool)
  {
    (p.callback.Some? ==> CancelProtocol(found, p.callback.value, cancelled))
    && (p.callback.None? ==> found == [])
  }

  /**
   * The seed-discovered event for a matching candidate: the seed is the
   * pair of predecessors of the candidate states. Building it raises when
   * a candidate state has no predecessor, and delivering it raises when
   * there is no callback.
   */
  function Discovery(p: SearchSetup, candidate0: nat, candidate1: nat, attempts: nat): (r: Outcome<SearchEvent>)
    requires SetupOk(p) && candidate0 < TWO32 && candidate1 < TWO32 && attempts <= p.totalcount
    requires CandidatePasses(candidate0, candidate1, p.output1, p.output, p.limit, p.wildcard)
    ensures r.Ok? <==> candidate0 <= MaxState(Multiplier0) && candidate1 <= MaxState(Multiplier1) && p.callback.Some?
    ensures r.Ok? ==> r.value.eventType == SeedDiscovered && Reported(r.value, p.output, p.output1, p.limit, p.wildcard)
  {
    PreviousStateUndoesStep(candidate0, Multiplier0);
    PreviousStateUndoesStep(candidate1, Multiplier1);
    var previous0 := PreviousState(candidate0, Multiplier0);
    var previous1 := PreviousState(candidate1, Multiplier1);
    if previous0.Raises? then Raises(previous0.reason)
    else if previous1.Raises? then Raises(previous1.reason)
    else if p.callback.None? then Raises("NullReferenceException")
    else Ok(SearchEvent(SeedDiscovered, SeedOfStates(previous0.value, previous1.value), attempts, p.totalcount))
  }

  /** The distance from a failed first draw up to output[1], modulo the limit, in uint arithmetic. */
  function Distance(p: SearchSetup, o1test: nat): (r: nat)
    requires SetupOk(p) && p.blocksize >= 2
    ensures r < p.limit
  {
    ((p.output1 % TWO32 + p.limit - o1test) % TWO32) % p.limit
  }

  /** The candidates a distance lets the search skip: (distance - 1) * blocksize, at least 2 for a distance above 1. */
  function SkipOf(diff: nat, blocksize: nat): (r: nat)
    requires diff > 1 && blocksize >= 2
    ensures r >= 2
  {
    MulLe(1, diff - 1, blocksize);
    (diff - 1) * blocksize
  }

  /**
   * Reporting a candidate that passed the test: the discovery event is
   * delivered to the callback, which may cancel; building or delivering
   * it may raise instead.
   */
  method Report(p: SearchSetup, candidate0: nat, candidate1: nat, attempts: nat)
    returns (stop: Option<Outcome<RecoveryResult>>, more: seq<SearchEvent>)
    requires SetupOk(p) && candidate0 < TWO32 && candidate1 < TWO32 && attempts <= p.totalcount
    requires CandidatePasses(candidate0, candidate1, p.output1, p.output, p.limit, p.wildcard)
    ensures AllReported(more, p.output, p.output1, p.limit, p.wildcard)
    ensures Delivered(p, more, stop == Some(Ok(Finished(false))))
    ensures stop.Some? ==> stop.value == Ok(Finished(false)) || stop.value.Raises?
  {
    var discovery := Discovery(p, candidate0, candidate1, attempts);
    if discovery.Raises? {
      return Some(Raises(discovery.reason)), [];
    }
    more := [discovery.value];
    stop := if p.callback.value(discovery.value) then Some(Ok(Finished(false))) else None;
  }

  /**
   * The end of a stretch in RecoverSeed: when the countdown has run out
   * and progress is reported, a progress event with the attempts so far
   * goes to the callback, which may cancel, and the countdown restarts at
   * the smaller of the attempts left and the interval.
   */
  method Checkpoint(p: SearchSetup, seed: nat, totalcountdown: nat, countdown: nat)
    returns (next: nat, stop: Option<Outcome<RecoveryResult>>, more: seq<SearchEvent>)
    requires SetupOk(p) && totalcountdown <= p.totalcount && countdown <= totalcountdown
    requires p.progressInterval == 0 ==> countdown == totalcountdown
    ensures AllReported(more, p.output, p.output1, p.limit, p.wildcard) && Delivered(p, more, stop.Some?)
    ensures stop.Some? ==> stop.value == Ok(Finished(false))
    ensures stop.None? ==> CountdownOk(p, next, totalcountdown)
  {
    next, stop, more := countdown, None, [];
    if countdown == 0 && p.progressInterval != 0 {
      var e := SearchEvent(Progress, seed, p.totalcount - totalcountdown, p.totalcount);
      more := [e];
      if p.callback.value(e) {
        return next, Some(Ok(Finished(false))), more;
      }
      next := if totalcountdown < p.progressInterval then totalcountdown else p.progressInterval;
    }
  }

  /**
   * The start of a stretch of rounds candidates in RecoverSeed: skips left
   * over from a failed first draw are spent first, all of the stretch if
   * there are enough of them.
   */
  method SkipLeft(p: SearchSetup, seed: nat, rounds: nat, skip: int) returns (start: nat, roundnum: nat, left: int)
    requires SkipOk(p, skip)
    ensures roundnum <= rounds && start == seed + roundnum * TopStride
    ensures SkipOk(p, left) && (roundnum < rounds ==> left <= 0)
  {
    start, roundnum, left := seed, 0, skip;
    if skip > 0 {
      if skip >= rounds {
        start := seed + TopStride * rounds;
        left := skip - (rounds - roundnum);
        roundnum := rounds;
      } else {
        roundnum := skip;
        start := seed + TopStride * skip;
        left := 0;
      }
    }
  }

  /** Division by a positive value keeps order. */
  lemma DivMonotone(x: nat, y: nat, m: nat)
    requires m > 0 && x <= y
    ensures x / m <= y / m
  {
    MulLe(y / m + 1, x / m, m);
  }

  /**
   * The window of the search: every uint value whose scaled draw is
   * output0 has its high 18 bits from LowStart to LowEnd inclusive. The
   * search stops below LowEnd.
   */
  lemma WindowHoldsOutputClass(output0: nat, limit: nat, value: nat)
    requires 0 < limit <= TWO32 && output0 < limit && value < TWO32 && ScaleToLimit(value, limit) == output0
    ensures LowStart(output0, limit) <= value / 0x4000 <= LowEnd(output0, limit)
  {
    ScaleToLimitIsFloor(value, limit);
    ScaledOutputRange(value, output0, limit, TWO32);
    var lo := (output0 * TWO32 + limit - 1) / limit;
    var hi := ((output0 + 1) * TWO32 + limit - 1) / limit;
    ModSmall(lo, TWO32);
    DivMonotone(lo, value, 0x4000);
    WindowEnd(output0, limit, value, hi);
  }

  /** The upper end of the window: hi - 1 computed with the 64-bit wrap of (output0 + 1) * 2^32. */
  lemma WindowEnd(output0: nat, limit: nat, value: nat, hi: nat)
    requires 0 < limit <= TWO32 && output0 < limit && value < TWO32
    requires hi == ((output0 + 1) * TWO32 + limit - 1) / limit && value < hi
    ensures value / 0x4000 <= LowEnd(output0, limit)
  {
    MulLe(output0 + 1, limit, TWO32);
    if output0 + 1 == TWO32 {
      assert ((output0 + 1) * TWO32) % TWO64 == 0;
      assert LowEnd(output0, limit) == 0x3_FFFF;
      DivBound(value, 0x4000, 0x4_0000);
    } else {
      WindowEndUnwrapped(output0, limit, hi);
      DivMonotone(value, hi - 1, 0x4000);
    }
  }

  /** Below the last output the window end does not wrap: it is hi - 1 shifted right by 14. */
  lemma WindowEndUnwrapped(output0: nat, limit: nat, hi: nat)
    requires 0 < limit <= TWO32 && output0 < limit && output0 + 1 < TWO32
    requires hi == ((output0 + 1) * TWO32 + limit - 1) / limit && hi > 0
    ensures LowEnd(output0, limit) == (hi - 1) / 0x4000
  {
    var top := (output0 + 1) * TWO32;
    MulLe(output0 + 1, limit, TWO32);
    MulLe(output0 + 2, TWO32, TWO32);
    ModSmall(top, TWO64);
    CeilingIsLeast(top, limit, TWO32);
    assert hi <= TWO32;
    var c := ((top % TWO64 + limit - 1) / limit + TWO64 - 1) % TWO64;
    assert c == (hi - 1 + TWO64) % TWO64;
    ModAddMultiple(hi - 1, 1, TWO64);
    ModSmall(hi - 1, TWO64);
    assert c == hi - 1;
    ModSmall(hi - 1, TWO32);
  }

  /**
   * The search tries State0 values no step produces: for output0 = 1 and
   * limit 2 the window starts at 2^17, and its last candidate there has a
   * State0 above MaxState(Multiplier0), so reporting it raises.
   */
  lemma SearchPassesStateSpace()
    ensures LowStart(1, 2) == 0x2_0000 < LowEnd(1, 2)
    ensures var seed := 0x2_0000 * TWO32 + 1 + (Span - 1) * TopStride;
      seed < TWO64 && seed / TWO32 > MaxState(Multiplier0) && PreviousState(seed / TWO32, Multiplier0).Raises?
  {
    var seed := 0x2_0000 * TWO32 + 1 + (Span - 1) * TopStride;
    DivModUnique(seed, TWO32, 0x2_0000 + (Span - 1) * 0x4_0000, 1);
    PreviousStateUndoesStep(seed / TWO32, Multiplier0);
  }
}

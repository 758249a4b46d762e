/**
 * PrngMsvcrt: the MSVCRT generator whose bounded output is the 15-bit
 * output reduced modulo the limit, and its seed recovery, which brute-forces
 * the low bits of the state through the power-of-two part of the limit and
 * then scans the remaining state space with the first output fixed.
 */
module Msvcrt {
  import opened Common
  import opened Bits
  import opened LcgMath
  import opened MsvcrtBase
  import opened Recovery
  import LcgBase

  /** The bounded output: reduced modulo a limit strictly between 0 and 0x8000, otherwise unchanged. */
  function Reduce(value: nat, limit: nat): nat
  {
    if limit != 0 && limit < OutputDivisor then value % limit else value
  }

  /** The j-th bounded output, counting from 0, produced from a state. */
  function OutputAfter(state: nat, j: nat, limit: nat): (r: nat)
    requires state < Modulus
    ensures r < OutputDivisor
    ensures 0 < limit < OutputDivisor ==> r < limit
  {
    IterateBelow(state, j, Multiplier, Increment, Modulus);
    var v := NextFromState(Iterate(state, j, Multiplier, Increment, Modulus));
    assert limit != 0 && limit < OutputDivisor ==> v % limit <= v by {
      if limit != 0 && limit < OutputDivisor {
        LcgBase.ModAtMost(v, limit);
      }
    }
    Reduce(v, limit)
  }

  /** The outputs from a state agree with the expected ones wherever these are not the wildcard. */
  predicate Matches(state: nat, expected: seq<nat>, limit: nat, wildcard: nat)
    requires state < Modulus
  {
    forall j :: 0 <= j < |expected| ==> expected[j] == wildcard || OutputAfter(state, j, limit) == expected[j]
  }

  /** An output agrees with an expected value on the bits a mask keeps, or the expected value is the wildcard. */
  predicate LowBitsAgree(v: nat, e: nat, wildcard: nat, mask: nat)
  {
    e == wildcard || And(v, mask, 64) == And(e, mask, 64)
  }

  /** The same, comparing only the bits that a mask keeps. */
  predicate MatchesLowBits(state: nat, expected: seq<nat>, limit: nat, wildcard: nat, mask: nat)
    requires state < Modulus
  {
    forall j :: 0 <= j < |expected| ==> LowBitsAgree(OutputAfter(state, j, limit), expected[j], wildcard, mask)
  }

  /** Next(limit): one step of the generator, then the bounded output. */
  method NextLimit(g: MsvcrtGenerator, limit: nat) returns (r: nat)
    requires g.Valid() && LcgBase.IsULong(limit)
    modifies g
    ensures g.Valid() && g.state == NextState(old(g.state))
    ensures r == OutputAfter(old(g.state), 0, limit)
    ensures 0 < limit < OutputDivisor ==> r < limit
  {
    var next := g.Next();
    if limit != 0 && limit < OutputDivisor {
      next := next % limit;
    }
    r := next;
  }

  /**
   * Previous(limit): the bounded output of the current state, then a step
   * back; it is the output that Next(limit) produces again from the new state.
   */
  method PreviousLimit(g: MsvcrtGenerator, limit: nat) returns (r: nat)
    requires g.Valid() && LcgBase.IsULong(limit)
    modifies g
    ensures g.Valid() && g.state == PreviousState(old(g.state))
    ensures NextState(g.state) == old(g.state)
    ensures r == OutputAfter(g.state, 0, limit)
  {
    var current := g.Previous();
    if limit != 0 && limit < OutputDivisor {
      current := current % limit;
    }
    r := current;
  }

  /** The j-th output from a state is the first output from the state j steps on. */
  lemma OutputAfterStep(state: nat, j: nat, limit: nat)
    requires state < Modulus
    ensures Iterate(state, j, Multiplier, Increment, Modulus) < Modulus
    ensures OutputAfter(state, j, limit) == OutputAfter(Iterate(state, j, Multiplier, Increment, Modulus), 0, limit)
  {
    IterateBelow(state, j, Multiplier, Increment, Modulus);
  }

  /**
   * The inner loop of the scan: Next(limit) for each expected output,
   * stopping at the first mismatch that is not a wildcard.
   */
  method MatchOutputs(g: MsvcrtGenerator, expected: seq<nat>, limit: nat, wildcard: nat) returns (matched: bool)
    requires g.Valid() && LcgBase.IsULong(limit)
    modifies g
    ensures g.Valid()
    ensures matched <==> Matches(old(g.state), expected, limit, wildcard)
  {
    ghost var start := g.state;
    var i := 0;
    while i < |expected|
      invariant 0 <= i <= |expected| && g.Valid()
      invariant g.state == Iterate(start, i, Multiplier, Increment, Modulus)
      invariant forall j :: 0 <= j < i ==> expected[j] == wildcard || OutputAfter(start, j, limit) == expected[j]
    {
      OutputAfterStep(start, i, limit);
      var v := NextLimit(g, limit);
      assert v == OutputAfter(start, i, limit);
      if v != expected[i] && expected[i] != wildcard {
        return false;
      }
      i := i + 1;
    }
    return true;
  }

  /** The subgenerator loop: as MatchOutputs, comparing only the masked bits. */
  method MatchLowBits(g: MsvcrtGenerator, expected: seq<nat>, limit: nat, wildcard: nat, mask: nat) returns (matched: bool)
    requires g.Valid() && LcgBase.IsULong(limit)
    modifies g
    ensures g.Valid()
    ensures matched <==> MatchesLowBits(old(g.state), expected, limit, wildcard, mask)
  {
    ghost var start := g.state;
    var i := 0;
    while i < |expected|
      invariant 0 <= i <= |expected| && g.Valid()
      invariant g.state == Iterate(start, i, Multiplier, Increment, Modulus)
      invariant forall j :: 0 <= j < i ==> LowBitsAgree(OutputAfter(start, j, limit), expected[j], wildcard, mask)
    {
      OutputAfterStep(start, i, limit);
      var v := NextLimit(g, limit);
      assert v == OutputAfter(start, i, limit);
      if !LowBitsAgree(v, expected[i], wildcard, mask) {
        return false;
      }
      i := i + 1;
    }
    return true;
  }

  /** The guard under which RecoverSeed hands the search to the generic one. */
  predicate Delegates(seedStart: nat, seedIncrement: nat, output: seq<nat>, limit: nat, wildcard: nat)
  {
    |output| < 2 || output[0] >= OutputDivisor || output[0] == wildcard || seedStart != MinimumSeed
    || seedIncrement != 1 || limit == 0 || limit > OutputDivisor
  }

  /**
   * A reported event: a seed-discovered event whose seed steps, once, to a
   * state at most seedEnd from which the outputs after the first are
   * reproduced.
   */
  predicate Reported(e: SearchEvent, suboutput: seq<nat>, limit: nat, wildcard: nat, seedEnd: nat)
  {
    e == Discovered(e.seed) && e.seed < Modulus && NextState(e.seed) <= seedEnd
    && Matches(NextState(e.seed), suboutput, limit, wildcard)
  }

  /**
   * The inner loop of RecoverSeed: the seeds from seed up to seedEnd on a
   * stride of step, reporting each whose outputs after the first match,
   * until the callback cancels.
   */
  method ScanStride(g: MsvcrtGenerator, seed: nat, seedEnd: nat, step: nat, suboutput: seq<nat>, limit: nat,
                    wildcard: nat, cancel: SearchEvent -> bool)
    returns (cancelled: bool, found: seq<SearchEvent>)
    requires g.Valid() && seed < TWO32 && seedEnd <= MaximumSeed && 0 < step <= Modulus && LcgBase.IsULong(limit)
    modifies g
    ensures g.Valid()
    ensures forall i :: 0 <= i < |found| ==> Reported(found[i], suboutput, limit, wildcard, seedEnd)
    ensures CancelProtocol(found, cancel, cancelled)
  {
    found := [];
    var s := seed;
    while s <= seedEnd
      invariant g.Valid() && s < TWO32
      invariant forall i :: 0 <= i < |found| ==> Reported(found[i], suboutput, limit, wildcard, seedEnd)
      invariant forall i :: 0 <= i < |found| ==> !cancel(found[i])
      decreases TWO32 - s
    {
      g.Seed(s);
      ModSmall(s, Modulus);
      var matched := MatchOutputs(g, suboutput, limit, wildcard);
      if matched {
        NextAfterPrevious(s);
        var e := Discovered(PreviousState(s));
        found := found + [e];
        if cancel(e) {
          return true, found;
        }
      }
      var next := s + step;
      ModSmall(next, TWO32);
      s := next % TWO32;
    }
    return false, found;
  }

  /** The events of one stride, appended to those before it, keep the reports and the cancellation protocol. */
  lemma AppendFound(events: seq<SearchEvent>, found: seq<SearchEvent>, suboutput: seq<nat>, limit: nat, wildcard: nat,
                    seedEnd: nat, cancel: SearchEvent -> bool, cancelled: bool)
    requires forall i :: 0 <= i < |events| ==> Reported(events[i], suboutput, limit, wildcard, seedEnd)
    requires forall i :: 0 <= i < |found| ==> Reported(found[i], suboutput, limit, wildcard, seedEnd)
    requires CancelProtocol(events, cancel, false) && CancelProtocol(found, cancel, cancelled)
    ensures forall i :: 0 <= i < |events + found| ==> Reported((events + found)[i], suboutput, limit, wildcard, seedEnd)
    ensures CancelProtocol(events + found, cancel, cancelled)
  {
    CancelProtocolAppend(events, found, cancel, cancelled);
  }

  /**
   * RecoverSeed: outside its guard the search is handed to the generic
   * one; an empty range gives false; otherwise every reported seed
   * reproduces the outputs after the first, and the result is false
   * exactly when the callback cancelled on the last reported event.
   */
  method RecoverSeed(g: MsvcrtGenerator, seedStart: nat, seedEnd: nat, seedIncrement: nat, output: seq<nat>,
                     limit: nat, wildcard: nat, progressInterval: nat, cancel: SearchEvent -> bool)
    returns (res: RecoveryResult, events: seq<SearchEvent>)
    requires g.Valid() && LcgBase.IsULong(seedStart) && LcgBase.IsULong(seedEnd) && LcgBase.IsULong(limit)
    requires forall i :: 0 <= i < |output| ==> LcgBase.IsULong(output[i])
    requires !Delegates(seedStart, seedIncrement, output, limit, wildcard) && seedStart <= seedEnd ==> seedEnd <= MaximumSeed
    modifies g
    ensures g.Valid()
    ensures res.Delegated? <==> Delegates(seedStart, seedIncrement, output, limit, wildcard)
    ensures res.Delegated? ==>
      res.search == BaseSearch(seedStart, seedEnd, seedIncrement, output, limit, wildcard, progressInterval, false) && events == []
    ensures !res.Delegated? && seedStart > seedEnd ==> res == Finished(false) && events == []
    ensures forall i :: 0 <= i < |events| ==> Reported(events[i], output[1..], limit, wildcard, seedEnd)
    ensures !res.Delegated? && seedStart <= seedEnd ==> res.Finished? && CancelProtocol(events, cancel, !res.completed)
  {
    events := [];
    if Delegates(seedStart, seedIncrement, output, limit, wildcard) {
      return Delegated(BaseSearch(seedStart, seedEnd, seedIncrement, output, limit, wildcard, progressInterval, false)), events;
    }
    if seedStart > seedEnd || seedIncrement == 0 {
      return Finished(false), events;
    }
    var suboutput := output[1..];
    MulLe(1, limit, DiscardDivisor);
    MulLe(limit, OutputDivisor, DiscardDivisor);
    ModSmall(limit * DiscardDivisor, TWO32);
    var seedtopincr := (limit * DiscardDivisor) % TWO32;
    assert 0 < seedtopincr <= Modulus;
    var subgenoutputmask := LowMask(limit);
    var subgensize := ((subgenoutputmask + 1) * DiscardDivisor) % TWO32;
    var top := output[0] * DiscardDivisor;
    var subseed := 0;
    while subseed < subgensize
      invariant g.Valid()
      invariant forall i :: 0 <= i < |events| ==> Reported(events[i], suboutput, limit, wildcard, seedEnd)
      invariant CancelProtocol(events, cancel, false)
      decreases subgensize - subseed
    {
      var candidate := true;
      if subgenoutputmask != 0 {
        g.Seed(subseed);
        candidate := MatchLowBits(g, suboutput, limit, wildcard, subgenoutputmask);
      }
      if candidate {
        Pow2Of32();
        var seed := Or(top, subseed, 32);
        var cancelled, found := ScanStride(g, seed, seedEnd, seedtopincr, suboutput, limit, wildcard, cancel);
        AppendFound(events, found, suboutput, limit, wildcard, seedEnd, cancel, cancelled);
        events := events + found;
        if cancelled {
          return Finished(false), events;
        }
      }
      subseed := subseed + 1;
    }
    return Finished(true), events;
  }
}

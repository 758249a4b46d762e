/**
 * PrngMsvcrtMul: the MSVCRT generator whose bounded output scales the
 * 15-bit output by limit/0x8000 (floor), and its seed recovery, which fixes
 * the range of states producing the first output and, given a second
 * output, skips between the blocks of consecutive states that produce it.
 */
module MsvcrtMul {
  import opened Common
  import opened LcgMath
  import opened MsvcrtBase
  import opened Recovery
  import LcgBase

  /** The scaling of Next(limit): output times limit in 64-bit arithmetic, divided by 0x8000. */
  function Scale(value: nat, limit: nat): nat
  {
    ((value * limit) % TWO64) / OutputDivisor
  }

  /** Without 64-bit overflow the scaled output of a 15-bit value is below a positive limit. */
  lemma ScaleBelowLimit(value: nat, limit: nat)
    requires value < OutputDivisor && 0 < limit <= TWO32
    ensures value * limit < TWO64 && Scale(value, limit) == value * limit / OutputDivisor
    ensures Scale(value, limit) < limit
  {
    LcgBase.MulStrict(value, limit, OutputDivisor, TWO32 + 1);
    ModSmall(value * limit, TWO64);
    MulLe(value, OutputDivisor - 1, limit);
    DivBound(value * limit, OutputDivisor, limit);
  }

  /** The j-th bounded output, counting from 0, produced from a 32-bit state. */
  function OutputAfter(state: nat, j: nat, limit: nat): (r: nat)
    requires state < TWO32
    ensures 0 < limit <= TWO32 ==> r < limit
  {
    var s := Iterate(state, j, Multiplier, Increment, Modulus);
    assert s < TWO32;
    ScaleBelowLimit(NextFromState(s), if 0 < limit <= TWO32 then limit else 1);
    Scale(NextFromState(s), limit)
  }

  /** NextFromState(state, limit): the first bounded output from a 32-bit state, in uint arithmetic. */
  function NextFromStateLimit(state: nat, limit: nat): (r: nat)
    requires state < TWO32 && 0 < limit < TWO32
    ensures r < limit && r == OutputAfter(state, 0, limit)
  {
    ScaleBelowLimit(NextFromState(state), limit);
    ModSmall(NextFromState(state) * limit / OutputDivisor, TWO32);
    (NextFromState(state) * limit / OutputDivisor) % TWO32
  }

  /** The outputs from a state agree with the expected ones wherever these are not the wildcard. */
  predicate Matches(state: nat, expected: seq<nat>, limit: nat, wildcard: nat)
    requires state < TWO32
  {
    forall j :: 0 <= j < |expected| ==> expected[j] == wildcard || OutputAfter(state, j, limit) == expected[j]
  }

  /** Next(limit): one step of the generator, then the scaled output. */
  method NextLimit(g: MsvcrtGenerator, limit: nat) returns (r: nat)
    requires g.Valid() && LcgBase.IsULong(limit)
    modifies g
    ensures g.Valid() && g.state == NextState(old(g.state))
    ensures r == OutputAfter(old(g.state), 0, limit)
    ensures 0 < limit <= TWO32 ==> r < limit
  {
    var next := g.Next();
    r := ((next * limit) % TWO64) / OutputDivisor;
  }

  /**
   * Previous(limit): the scaled output of the current state, then a step
   * back; it is the output that Next(limit) produces again from the new state.
   */
  method PreviousLimit(g: MsvcrtGenerator, limit: nat) returns (r: nat)
    requires g.Valid() && LcgBase.IsULong(limit)
    modifies g
    ensures g.Valid() && g.state == PreviousState(old(g.state))
    ensures NextState(g.state) == old(g.state)
    ensures r == OutputAfter(g.state, 0, limit)
  {
    var current := g.Previous();
    r := ((current * limit) % TWO64) / OutputDivisor;
  }

  /** The inner loop of the scan: Next(limit) for each expected output, stopping at the first real mismatch. */
  method MatchOutputs(g: MsvcrtGenerator, expected: seq<nat>, limit: nat, wildcard: nat) returns (matched: bool)
    requires g.Valid() && LcgBase.IsULong(limit)
    modifies g
    ensures g.Valid()
    ensures matched <==> Matches(old(g.state), expected, limit, wildcard)
  {
    ghost var start := g.state;
    var i := 0;
    while i < |expected|
      invariant 0 <= i <= |expected| && g.Valid()
      invariant g.state == Iterate(start, i, Multiplier, Increment, Modulus)
      invariant forall j :: 0 <= j < i ==> expected[j] == wildcard || OutputAfter(start, j, limit) == expected[j]
    {
      IterateBelow(start, i, Multiplier, Increment, Modulus);
      var v := NextLimit(g, limit);
      assert v == OutputAfter(start, i, limit);
      if v != expected[i] && expected[i] != wildcard {
        return false;
      }
      i := i + 1;
    }
    return true;
  }

  /** The guard under which RecoverSeed hands the whole search to the generic one. */
  predicate Delegates(output: seq<nat>, limit: nat, wildcard: nat)
  {
    |output| < 2 || output[0] > (TWO64 - 1) / OutputDivisor || output[0] == wildcard || limit == 0 || limit > OutputDivisor
  }

  /** The first state whose own output is output0: the ceiling of 0x8000*output0/limit, shifted up 16 bits. */
  function RangeStart(output0: nat, limit: nat): nat
    requires 0 < limit <= OutputDivisor
  {
    ((((OutputDivisor * output0 + limit - 1) % TWO64) / limit) * DiscardDivisor) % TWO64
  }

  /** The last state whose own output is output0: one below the first state of output0 + 1, in 64-bit arithmetic. */
  function RangeEnd(output0: nat, limit: nat): nat
    requires 0 < limit <= OutputDivisor
  {
    var first := (((OutputDivisor * (output0 + 1)) % TWO64 + limit - 1) % TWO64) / limit;
    var last := (first - 1) % TWO64;
    ((last * DiscardDivisor) % TWO64 + (DiscardDivisor - 1)) % TWO64
  }

  /**
   * For an output below the limit, the range is exactly the states (below
   * 2^31) whose own scaled output, bits 16..30 times limit/0x8000, is output0.
   */
  lemma RangeIsOutputClass(output0: nat, limit: nat, state: nat)
    requires 0 < limit <= OutputDivisor && output0 < limit && state < Modulus
    ensures RangeStart(output0, limit) <= state <= RangeEnd(output0, limit)
        <==> (state / DiscardDivisor) * limit / OutputDivisor == output0
  {
    var lo := RangeStartIs(output0, limit);
    var hi := RangeEndIs(output0, limit);
    var v := state / DiscardDivisor;
    QuotientIs(state, DiscardDivisor, v);
    if lo <= v {
      MulLe(lo, v, DiscardDivisor);
    } else {
      MulLe(v + 1, lo, DiscardDivisor);
    }
    if v < hi {
      MulLe(v + 1, hi, DiscardDivisor);
    } else {
      MulLe(hi, v, DiscardDivisor);
    }
    ScaledOutputRange(v, output0, limit, OutputDivisor);
  }

  /** Without 64-bit overflow, the range start is the ceiling of 0x8000*output0/limit, times 0x10000. */
  lemma RangeStartIs(output0: nat, limit: nat) returns (lo: nat)
    requires 0 < limit <= OutputDivisor && output0 < limit
    ensures lo == (OutputDivisor * output0 + limit - 1) / limit
    ensures lo <= OutputDivisor && RangeStart(output0, limit) == lo * DiscardDivisor
  {
    var a := OutputDivisor * output0 + limit - 1;
    MulLe(output0, limit - 1, OutputDivisor);
    assert a < limit * (OutputDivisor + 1);
    ModSmall(a, TWO64);
    lo := a / limit;
    DivBound(a, limit, OutputDivisor + 1);
    MulLe(lo, OutputDivisor, DiscardDivisor);
    ModSmall(lo * DiscardDivisor, TWO64);
  }

  /** Without 64-bit overflow, the range end is the ceiling of 0x8000*(output0+1)/limit, times 0x10000, less one. */
  lemma RangeEndIs(output0: nat, limit: nat) returns (hi: nat)
    requires 0 < limit <= OutputDivisor && output0 < limit
    ensures hi == (OutputDivisor * (output0 + 1) + limit - 1) / limit
    ensures 0 < hi <= OutputDivisor && RangeEnd(output0, limit) == hi * DiscardDivisor - 1
  {
    var b := OutputDivisor * (output0 + 1) + limit - 1;
    MulLe(output0 + 1, limit, OutputDivisor);
    assert b < limit * (OutputDivisor + 1);
    ModSmall(OutputDivisor * (output0 + 1), TWO64);
    ModSmall(b, TWO64);
    hi := b / limit;
    DivBound(b, limit, OutputDivisor + 1);
    QuotientIs(b, limit, 0);
    ModSmall(hi - 1, TWO64);
    MulLe(hi - 1, OutputDivisor, DiscardDivisor);
    ModSmall((hi - 1) * DiscardDivisor, TWO64);
    ModSmall((hi - 1) * DiscardDivisor + (DiscardDivisor - 1), TWO64);
  }

  /** The discovered-seed rewrite passed to the generic search: a state becomes its predecessor. */
  function Wrapper(e: SearchEvent): (r: SearchEvent)
    ensures e.eventType == SeedDiscovered ==> r.seed < Modulus && NextState(r.seed) == (e.seed % TWO32) % Modulus
    ensures e.eventType != SeedDiscovered ==> r == e
  {
    PreviousOfUnmasked(e.seed % TWO32);
    Rewrite(e, s => PreviousState(s % TWO32))
  }

  /** The block size: how many consecutive states at most share their second output. */
  function BlockSize(limit: nat): (b: nat)
    requires 0 < limit <= OutputDivisor
    ensures b < TWO32
  {
    (Modulus / (Multiplier * limit)) % TWO32
  }

  /**
   * The guard of the block-skipping path, as written: a second output that
   * is not the wildcard, a block size of at least 2 and a unit stride.
   */
  predicate BlockSkipAsWritten(output1: nat, limit: nat, wildcard: nat, seedIncrement: nat)
    requires 0 < limit <= OutputDivisor
  {
    output1 != wildcard && BlockSize(limit) >= 2 && seedIncrement == 1
  }

  /** The corrected guard: the second output must also be one the generator can produce. */
  predicate BlockSkip(output1: nat, limit: nat, wildcard: nat, seedIncrement: nat)
    requires 0 < limit <= OutputDivisor
  {
    BlockSkipAsWritten(output1, limit, wildcard, seedIncrement) && output1 < limit
  }

  /**
   * As written, the guard admits the outputs [0, 10, 0] with limit 10 and
   * wildcard 0xFFFF, but no 32-bit state produces the second output 10, so
   * the loop that advances to a state producing it never exits.
   */
  lemma SkipLoopNeverExits()
    ensures BlockSkipAsWritten(10, 10, 0xFFFF, 1)
    ensures forall x :: 0 <= x < TWO32 ==> NextFromStateLimit(x, 10) != 10
  {
    assert BlockSize(10) == 1003;
  }

  /** With the corrected guard a state producing the second output exists, so the skip loops end. */
  lemma ReachingState(limit: nat, output1: nat) returns (s: nat)
    requires 0 < limit <= OutputDivisor && output1 < limit
    ensures s < Modulus && NextFromStateLimit(s, limit) == output1
  {
    var x := OutputDivisor * output1 + limit - 1;
    var v := x / limit;
    MulLe(output1, limit - 1, OutputDivisor);
    DivBound(x, limit, OutputDivisor);
    CeilingIsLeast(OutputDivisor * output1, limit, v);
    assert output1 * OutputDivisor <= v * limit;
    assert v * limit <= x < (output1 + 1) * OutputDivisor;
    QuotientIs(v * limit, OutputDivisor, output1);
    var t := v * DiscardDivisor;
    MulLe(v, OutputDivisor - 1, DiscardDivisor);
    s := PreviousState(t);
    NextAfterPrevious(t);
    DivMulCancel(v, DiscardDivisor);
    ScaleBelowLimit(v, limit);
    ModSmall(output1, TWO32);
    assert NextFromState(s) == v;
  }

  /** The residue modulo 2^32 survives a first reduction by a multiple of 2^32. */
  lemma WordOfWide(x: nat, width: nat)
    requires width == TWO32 || width == TWO64
    ensures (x % width) % TWO32 == x % TWO32
  {
    if width == TWO64 {
      ModModMultiple(x, TWO32, TWO32);
    } else {
      ModOfMod(x, TWO32);
    }
  }

  /** Going up from start by the 32-bit distance to a target lands on the target modulo 2^32. */
  lemma WrapDistance(start: nat, target: nat)
    requires target < TWO32
    ensures (start + (target + TWO32 - start % TWO32) % TWO32) % TWO32 == target
  {
    var a := start % TWO32;
    var q := start / TWO32;
    assert start == q * TWO32 + a;
    if target >= a {
      assert target + TWO32 - a == (target - a) + 1 * TWO32;
      ModAddMultiple(target - a, 1, TWO32);
      ModSmall(target - a, TWO32);
      ModAddMultiple(target, q, TWO32);
    } else {
      ModSmall(target + TWO32 - a, TWO32);
      assert start + (target + TWO32 - a) == target + (q + 1) * TWO32;
      ModAddMultiple(target, q + 1, TWO32);
    }
    ModSmall(target, TWO32);
  }

  /** The counter of a skip loop after i increments, in arithmetic of the given width. */
  function Counter(start: nat, i: nat, width: nat): nat
    requires width > 0
  {
    (start + i) % width
  }

  /**
   * A skip loop: advance a counter of the given width by one until its low
   * 32 bits name a state whose next output is output1; the result is the
   * first such counter value from start on.
   */
  method SkipTo(start: nat, limit: nat, output1: nat, width: nat) returns (x: nat, ghost steps: nat)
    requires (width == TWO32 || width == TWO64) && start < width
    requires 0 < limit <= OutputDivisor && output1 < limit
    ensures x < width && x == (start + steps) % width
    ensures NextFromStateLimit(x % TWO32, limit) == output1
    ensures forall i :: 0 <= i < steps ==> NextFromStateLimit(Counter(start, i, width) % TWO32, limit) != output1
  {
    var target := ReachingState(limit, output1);
    ghost var bound := (target + TWO32 - start % TWO32) % TWO32;
    WrapDistance(start, target);
    x := start;
    steps := 0;
    ModSmall(start, width);
    while NextFromStateLimit(x % TWO32, limit) != output1
      invariant x < width && x == (start + steps) % width && steps <= bound
      invariant forall i :: 0 <= i < steps ==> NextFromStateLimit(Counter(start, i, width) % TWO32, limit) != output1
      decreases bound - steps
    {
      if steps == bound {
        WordOfWide(start + steps, width);
        assert false;
      }
      ModAdd(start + steps, 1, width);
      ModOfMod(start + steps, width);
      ModSmall(1, width);
      x := (x + 1) % width;
      steps := steps + 1;
    }
  }

  /** A reported event: a seed-discovered event whose seed steps, once, to a state reproducing the outputs after the first. */
  predicate Reported(e: SearchEvent, suboutput: seq<nat>, limit: nat, wildcard: nat)
  {
    e == Discovered(e.seed) && e.seed < Modulus && Matches(NextState(e.seed), suboutput, limit, wildcard)
  }

  /** Counting down to blockend in uint arithmetic: one increment takes one step off the distance. */
  lemma CountdownStep(state: nat, blockend: nat)
    requires state < TWO32 && blockend < TWO32 && state != blockend
    ensures (blockend - (state + 1) % TWO32) % TWO32 == (blockend - state) % TWO32 - 1
  {
    if state + 1 < TWO32 {
      ModSmall(state + 1, TWO32);
      ModAdd(blockend - state, 0 - 1, TWO32);
      if blockend > state {
        ModSmall(blockend - state, TWO32);
        ModSmall(blockend - state - 1, TWO32);
      } else {
        ModAddMultiple(blockend - state, 1, TWO32);
        ModAddMultiple(blockend - state - 1, 1, TWO32);
        ModSmall(blockend - state + TWO32, TWO32);
        ModSmall(blockend - state - 1 + TWO32, TWO32);
      }
    } else {
      ModSmall(0, TWO32);
      ModAddMultiple(blockend - state, 1, TWO32);
      ModSmall(blockend, TWO32);
      ModSmall(blockend + 1, TWO32);
    }
  }

  /** A uint state whose seeded generator matches is reported as its predecessor. */
  lemma MatchIsReported(state: nat, suboutput: seq<nat>, limit: nat, wildcard: nat)
    requires state < TWO32 && Matches(state % Modulus, suboutput, limit, wildcard)
    ensures Reported(Discovered(PreviousState(state)), suboutput, limit, wildcard)
  {
    PreviousOfUnmasked(state);
  }

  /**
   * One block of the scan: every uint state from blockstart up to blockend
   * (wrapping at 2^32) is seeded and checked; a match is reported as its
   * predecessor, and a cancelling callback stops the scan.
   */
  method ScanBlock(g: MsvcrtGenerator, blockstart: nat, blockend: nat, suboutput: seq<nat>, limit: nat,
                   wildcard: nat, cancel: SearchEvent -> bool)
    returns (events: seq<SearchEvent>, cancelled: bool)
    requires g.Valid() && blockstart < TWO32 && blockend < TWO32 && LcgBase.IsULong(limit)
    modifies g
    ensures g.Valid()
    ensures forall i :: 0 <= i < |events| ==> Reported(events[i], suboutput, limit, wildcard)
    ensures CancelProtocol(events, cancel, cancelled)
  {
    events := [];
    var state: nat := blockstart;
    while true
      invariant g.Valid() && state < TWO32
      invariant forall i :: 0 <= i < |events| ==> Reported(events[i], suboutput, limit, wildcard)
      invariant CancelProtocol(events, cancel, false)
      decreases (blockend - state) % TWO32
    {
      g.Seed(state);
      var matched := MatchOutputs(g, suboutput, limit, wildcard);
      if matched {
        MatchIsReported(state, suboutput, limit, wildcard);
        var e := Discovered(PreviousState(state));
        events := events + [e];
        if cancel(e) {
          return events, true;
        }
      }
      if state == blockend {
        return events, false;
      }
      CountdownStep(state, blockend);
      state := (state + 1) % TWO32;
    }
  }

  /** The ulong range bounds of lines 80-98: aligned start and clamped end. */
  function ClampedRange(output0: nat, limit: nat, seedStart: nat, seedEnd: nat, seedIncrement: nat): (r: (nat, nat))
    requires 0 < limit <= OutputDivisor && LcgBase.IsULong(seedStart) && LcgBase.IsULong(seedEnd)
    ensures LcgBase.IsULong(r.0) && LcgBase.IsULong(r.1) && r.1 <= seedEnd
  {
    var rangeend := RangeEnd(output0, limit);
    (AlignStart(RangeStart(output0, limit), seedStart, seedIncrement), if rangeend > seedEnd then seedEnd else rangeend)
  }

  /**
   * The block-skipping search of lines 115-171: skip conservatively towards
   * a state producing output1, then scan each block of such states and
   * jump by limit blocks. A second output at or above the limit leaves the
   * first skip loop without end (Exhausted, nothing reported). Every
   * reported seed reproduces the outputs after the first. The block loop
   * is bounded by fuel.
   */
  method BlockSearch(g: MsvcrtGenerator, rangestart: nat, rangeend: nat, suboutput: seq<nat>, output1: nat,
                     limit: nat, wildcard: nat, cancel: SearchEvent -> bool, fuel: nat)
    returns (res: RecoveryResult, events: seq<SearchEvent>)
    requires g.Valid() && LcgBase.IsULong(rangestart) && LcgBase.IsULong(rangeend) && 0 < limit <= OutputDivisor
    modifies g
    ensures g.Valid()
    ensures output1 >= limit ==> res == Exhausted && events == []
    ensures !res.Delegated?
    ensures forall i :: 0 <= i < |events| ==> Reported(events[i], suboutput, limit, wildcard)
    ensures res.Finished? ==> CancelProtocol(events, cancel, !res.completed)
  {
    events := [];
    var blocksize := BlockSize(limit);
    var offset := NextFromStateLimit(rangestart % TWO32, limit);
    offset := ((output1 % TWO32) + (if output1 < offset then limit else 0) - offset) % TWO32;
    var start := rangestart;
    if offset >= 2 {
      start := (start + ((offset - 1) * blocksize) % TWO32) % TWO64;
    }
    if output1 >= limit {
      // every output is below the limit (NextFromStateLimit), so the skip
      // loop of lines 121-122 never finds its state and runs out of any fuel
      return Exhausted, events;
    }
    ghost var steps;
    start, steps := SkipTo(start, limit, output1, TWO64);
    var blockstart: nat := start % TWO32;
    var stride: nat := (limit * blocksize) % TWO32;
    var fuelLeft := fuel;
    while true
      invariant g.Valid() && blockstart < TWO32
      invariant forall i :: 0 <= i < |events| ==> Reported(events[i], suboutput, limit, wildcard)
      invariant CancelProtocol(events, cancel, false)
      decreases fuelLeft
    {
      if fuelLeft == 0 {
        return Exhausted, events;
      }
      fuelLeft := fuelLeft - 1;
      var blockend: nat := (blockstart + blocksize) % TWO32;
      if blockend >= rangeend {
        blockend := rangeend % TWO32;
      }
      var found, cancelled := ScanBlock(g, blockstart, blockend, suboutput, limit, wildcard, cancel);
      CancelProtocolAppend(events, found, cancel, cancelled);
      events := events + found;
      if cancelled {
        return Finished(false), events;
      }
      blockstart := (blockstart + stride) % TWO32;
      if blockstart >= rangeend {
        return Finished(true), events;
      }
      blockstart, steps := SkipTo(blockstart, limit, output1, TWO32);
    }
  }

  /**
   * RecoverSeed as written. Outside its guard the search is handed on
   * unchanged; an empty range gives false; outside the block-skipping guard
   * of lines 100-105 the generic search runs on the range of states producing
   * the first output, with the wrapper callback; otherwise BlockSearch runs,
   * and a second output at or above the limit never ends it.
   */
  method RecoverSeed(g: MsvcrtGenerator, seedStart: nat, seedEnd: nat, seedIncrement: nat, output: seq<nat>,
                     limit: nat, wildcard: nat, progressInterval: nat, cancel: SearchEvent -> bool, fuel: nat)
    returns (res: RecoveryResult, events: seq<SearchEvent>)
    requires g.Valid() && LcgBase.IsULong(seedStart) && LcgBase.IsULong(seedEnd) && LcgBase.IsULong(limit)
    requires LcgBase.IsULong(wildcard) && forall i :: 0 <= i < |output| ==> LcgBase.IsULong(output[i])
    modifies g
    ensures g.Valid()
    ensures Delegates(output, limit, wildcard) ==>
      res == Delegated(BaseSearch(seedStart, seedEnd, seedIncrement, output, limit, wildcard, progressInterval, false)) && events == []
    ensures !Delegates(output, limit, wildcard) && (seedStart > seedEnd || seedIncrement == 0) ==> res == Finished(false) && events == []
    ensures (!Delegates(output, limit, wildcard) && seedStart <= seedEnd && seedIncrement != 0
             && !BlockSkipAsWritten(if |output| > 2 then output[1] else wildcard, limit, wildcard, seedIncrement)) ==>
      var r := ClampedRange(output[0], limit, seedStart, seedEnd, seedIncrement);
      res == Delegated(BaseSearch(r.0, r.1, seedIncrement, output[1..], limit, wildcard, progressInterval, true)) && events == []
    ensures (!Delegates(output, limit, wildcard) && seedStart <= seedEnd && seedIncrement != 0 && |output| > 2
             && BlockSkipAsWritten(output[1], limit, wildcard, seedIncrement) && output[1] >= limit) ==>
      res == Exhausted && events == []
    ensures res.Delegated? ==> events == []
    ensures forall i :: 0 <= i < |events| ==> Reported(events[i], output[1..], limit, wildcard)
    ensures res.Finished? && seedStart <= seedEnd && seedIncrement != 0 ==> CancelProtocol(events, cancel, !res.completed)
  {
    events := [];
    if Delegates(output, limit, wildcard) {
      return Delegated(BaseSearch(seedStart, seedEnd, seedIncrement, output, limit, wildcard, progressInterval, false)), events;
    }
    if seedStart > seedEnd || seedIncrement == 0 {
      return Finished(false), events;
    }
    var range := ClampedRange(output[0], limit, seedStart, seedEnd, seedIncrement);
    var output1 := if |output| > 2 then output[1] else wildcard;
    if !BlockSkipAsWritten(output1, limit, wildcard, seedIncrement) {
      return Delegated(BaseSearch(range.0, range.1, seedIncrement, output[1..], limit, wildcard, progressInterval, true)), events;
    }
    res, events := BlockSearch(g, range.0, range.1, output[1..], output1, limit, wildcard, cancel, fuel);
  }

  /**
   * RecoverSeed with the corrected block-skipping guard: a second output
   * at or above the limit goes to the generic search as well, so the
   * block search only runs where a state produces the second output.
   */
  method RecoverSeedCorrected(g: MsvcrtGenerator, seedStart: nat, seedEnd: nat, seedIncrement: nat, output: seq<nat>,
                              limit: nat, wildcard: nat, progressInterval: nat, cancel: SearchEvent -> bool, fuel: nat)
    returns (res: RecoveryResult, events: seq<SearchEvent>)
    requires g.Valid() && LcgBase.IsULong(seedStart) && LcgBase.IsULong(seedEnd) && LcgBase.IsULong(limit)
    requires LcgBase.IsULong(wildcard) && forall i :: 0 <= i < |output| ==> LcgBase.IsULong(output[i])
    modifies g
    ensures g.Valid()
    ensures Delegates(output, limit, wildcard) ==>
      res == Delegated(BaseSearch(seedStart, seedEnd, seedIncrement, output, limit, wildcard, progressInterval, false)) && events == []
    ensures !Delegates(output, limit, wildcard) && (seedStart > seedEnd || seedIncrement == 0) ==> res == Finished(false) && events == []
    ensures (!Delegates(output, limit, wildcard) && seedStart <= seedEnd && seedIncrement != 0
             && !BlockSkip(if |output| > 2 then output[1] else wildcard, limit, wildcard, seedIncrement)) ==>
      var r := ClampedRange(output[0], limit, seedStart, seedEnd, seedIncrement);
      res == Delegated(BaseSearch(r.0, r.1, seedIncrement, output[1..], limit, wildcard, progressInterval, true)) && events == []
    ensures res.Delegated? ==> events == []
    ensures forall i :: 0 <= i < |events| ==> Reported(events[i], output[1..], limit, wildcard)
    ensures res.Finished? && seedStart <= seedEnd && seedIncrement != 0 ==> CancelProtocol(events, cancel, !res.completed)
  {
    events := [];
    if Delegates(output, limit, wildcard) {
      return Delegated(BaseSearch(seedStart, seedEnd, seedIncrement, output, limit, wildcard, progressInterval, false)), events;
    }
    if seedStart > seedEnd || seedIncrement == 0 {
      return Finished(false), events;
    }
    var range := ClampedRange(output[0], limit, seedStart, seedEnd, seedIncrement);
    var output1 := if |output| > 2 then output[1] else wildcard;
    if !BlockSkip(output1, limit, wildcard, seedIncrement) {
      return Delegated(BaseSearch(range.0, range.1, seedIncrement, output[1..], limit, wildcard, progressInterval, true)), events;
    }
    res, events := BlockSearch(g, range.0, range.1, output[1..], output1, limit, wildcard, cancel, fuel);
  }
}

/**
 * The pieces of seed recovery that the generator overrides share.
 *
 * The generic search PrngBase.RecoverSeed, its event arguments and its
 * callback type are not part of this model. An override that hands the
 * search on to it returns a Delegated value naming the arguments it passes;
 * the callback is a function from an event to the Cancel flag the caller
 * sets; the events an override reports itself are returned in order.
 */
module Recovery {
  import opened Common
  import opened LcgBase

  /** The kinds of search event the overrides report or rewrite. */
  datatype EventType = SeedDiscovered | Progress

  /** The event arguments: kind, seed and attempt counters. */
  datatype SearchEvent = SearchEvent(eventType: EventType, seed: nat, currentAttempts: nat, totalAttempts: nat)

  /**
   * A call into the generic search: its arguments, and whether the override
   * passes its own wrapper callback in place of the caller's.
   */
  datatype BaseSearch = BaseSearch(seedStart: nat, seedEnd: nat, seedIncrement: nat, output: seq<nat>,
                                   limit: nat, wildcard: nat, progressInterval: nat, wrapped: bool)

  /**
   * What a RecoverSeed override does: hand the search on, or finish with
   * its result. Exhausted belongs to the model only: a search whose loop
   * the model bounds by a fuel argument stopped when the fuel ran out.
   */
  datatype RecoveryResult = Delegated(search: BaseSearch) | Finished(completed: bool) | Exhausted

  /** A seed-discovered event as the overrides build it: attempt counters are 0. */
  function Discovered(seed: nat): (e: SearchEvent)
    ensures e.eventType == SeedDiscovered && e.seed == seed
  {
    SearchEvent(SeedDiscovered, seed, 0, 0)
  }

  /**
   * The cancellation protocol: the callback asked to continue on every
   * event but the last, and on the last it cancelled exactly when the
   * search stopped because of it.
   */
  predicate CancelProtocol(events: seq<SearchEvent>, cancel: SearchEvent -> bool, cancelled: bool)
  {
    (forall i :: 0 <= i < |events| - 1 ==> !cancel(events[i]))
    && (cancelled <==> |events| > 0 && cancel(events[|events| - 1]))
  }

  /** Events of a search that went on, followed by those of the next stretch, keep the protocol. */
  lemma CancelProtocolAppend(events: seq<SearchEvent>, more: seq<SearchEvent>, cancel: SearchEvent -> bool, cancelled: bool)
    requires CancelProtocol(events, cancel, false) && CancelProtocol(more, cancel, cancelled)
    ensures CancelProtocol(events + more, cancel, cancelled)
  {
    var all := events + more;
    forall i | 0 <= i < |all| - 1
      ensures !cancel(all[i])
    {
      if i < |events| {
        assert all[i] == events[i];
        if i == |events| - 1 {
          assert !cancel(events[|events| - 1]);
        }
      } else {
        assert all[i] == more[i - |events|];
      }
    }
    if |more| == 0 {
      assert all == events;
    } else {
      assert all[|all| - 1] == more[|more| - 1];
    }
  }

  /**
   * The wrapper callbacks: a discovered seed is replaced by previous(seed),
   * every other event is forwarded unchanged.
   */
  function Rewrite(e: SearchEvent, previous: nat -> nat): (r: SearchEvent)
    ensures r.eventType == e.eventType && r.currentAttempts == e.currentAttempts && r.totalAttempts == e.totalAttempts
    ensures e.eventType != SeedDiscovered ==> r == e
    ensures e.eventType == SeedDiscovered ==> r.seed == previous(e.seed)
  {
    if e.eventType == SeedDiscovered then e.(seed := previous(e.seed)) else e
  }

  /**
   * The range clamp the overrides share: a start below seedStart becomes
   * seedStart; a start above it is, for a stride above 1, moved up to the
   * next value congruent to seedStart modulo the stride (in 64-bit
   * arithmetic); the end is capped at seedEnd.
   */
  function AlignStart(rangestart: nat, seedStart: nat, seedIncrement: nat): (r: nat)
    requires IsULong(rangestart) && IsULong(seedStart)
    ensures IsULong(r)
  {
    if rangestart <= seedStart then seedStart
    else if seedIncrement > 1 && (rangestart - seedStart) % seedIncrement != 0 then
      (rangestart + (seedIncrement - (rangestart - seedStart) % seedIncrement)) % TWO64
    else rangestart
  }

  /**
   * Without 64-bit overflow, the aligned start is the least value at or
   * above both rangestart and seedStart that is on seedStart's stride.
   */
  lemma AlignStartIsNextOnStride(rangestart: nat, seedStart: nat, seedIncrement: nat)
    requires IsULong(rangestart) && IsULong(seedStart) && seedIncrement > 0
    requires rangestart + seedIncrement <= TWO64
    ensures var r := AlignStart(rangestart, seedStart, seedIncrement);
      r >= seedStart && r >= rangestart
      && (rangestart > seedStart ==> (r - seedStart) % seedIncrement == 0 && r < rangestart + seedIncrement)
      && (rangestart <= seedStart ==> r == seedStart)
  {
    var r := AlignStart(rangestart, seedStart, seedIncrement);
    if rangestart > seedStart {
      var g := rangestart - seedStart;
      var o := g % seedIncrement;
      if seedIncrement > 1 && o != 0 {
        ModSmall(rangestart + (seedIncrement - o), TWO64);
        assert r - seedStart == (g / seedIncrement + 1) * seedIncrement;
        DivMulCancel(g / seedIncrement + 1, seedIncrement);
      } else if seedIncrement == 1 {
        ModSmall(0, 1);
        assert g % 1 == 0;
      }
    }
  }

  /** Two multiples of a stride less than one stride apart in the given order are ordered. */
  lemma StrideOrder(x: nat, y: nat, stride: nat)
    requires stride > 0 && x % stride == 0 && y % stride == 0 && y < x + stride
    ensures y <= x
  {
    var p := x / stride;
    var q := y / stride;
    if q > p {
      MulLe(p + 1, q, stride);
    }
  }

  /** Without 64-bit overflow, no value on seedStart's stride at or above both bounds lies below the aligned start. */
  lemma AlignedNotAbove(rangestart: nat, seedStart: nat, seedIncrement: nat, s: nat)
    requires IsULong(rangestart) && IsULong(seedStart) && seedIncrement > 0 && rangestart + seedIncrement <= TWO64
    requires seedStart <= s && rangestart <= s && (s - seedStart) % seedIncrement == 0
    ensures AlignStart(rangestart, seedStart, seedIncrement) <= s
  {
    AlignStartIsNextOnStride(rangestart, seedStart, seedIncrement);
    var a := AlignStart(rangestart, seedStart, seedIncrement);
    if rangestart > seedStart {
      StrideOrder(s - seedStart, a - seedStart, seedIncrement);
    }
  }

  /**
   * The offset of the BSD overrides: the distance from seedStart up to the
   * next value congruent to output0 modulo limit, in 32-bit arithmetic on a
   * truncated seedStart.
   */
  function ResidueOffset(seedStart: nat, output0: nat, limit: nat): (ofs: nat)
    requires 0 < limit < TWO32 && output0 < limit
    ensures ofs < limit
  {
    ((limit + output0 - (seedStart % TWO32) % limit) % TWO32) % limit
  }

  /** For a 32-bit seedStart, seedStart + ofs is congruent to output0 modulo limit. */
  lemma ResidueOffsetHits(seedStart: nat, output0: nat, limit: nat)
    requires 0 < limit <= TWO32 / 2 && output0 < limit && seedStart < TWO32
    ensures (seedStart + ResidueOffset(seedStart, output0, limit)) % limit == output0
  {
    ModSmall(seedStart, TWO32);
    var t := seedStart % limit;
    var q := seedStart / limit;
    var u := limit + output0 - t;
    ModSmall(u, TWO32);
    var ofs := u % limit;
    assert ResidueOffset(seedStart, output0, limit) == ofs;
    assert seedStart + u == output0 + (q + 1) * limit;
    ModAddMultiple(output0, q + 1, limit);
    ModSmall(output0, limit);
    assert (seedStart + u) % limit == output0;
    ModAdd(seedStart, u, limit);
    ModAdd(seedStart, ofs, limit);
    ModOfMod(u, limit);
  }

  /** The ceiling of X/a, as the overrides compute it, is the least v with v*a >= X. */
  lemma CeilingIsLeast(x: nat, a: nat, v: nat)
    requires a > 0
    ensures v * a >= x <==> v >= (x + a - 1) / a
  {
    var c := (x + a - 1) / a;
    assert c * a <= x + a - 1 < (c + 1) * a;
    if v >= c {
      MulLe(c, v, a);
    } else {
      MulLe(v, c - 1, a);
    }
  }

  /** Floor division lands on q exactly for the values from q*b up to, not including, (q+1)*b. */
  lemma QuotientIs(x: nat, b: nat, q: nat)
    requires b > 0
    ensures x / b == q <==> q * b <= x < (q + 1) * b
  {
    if q * b <= x < (q + 1) * b {
      DivModUnique(x, b, q, x - q * b);
    }
  }

  /**
   * A value v scaled by a/b (floor) is o exactly when v lies from the
   * ceiling of o*b/a up to, not including, the ceiling of (o+1)*b/a.
   */
  lemma ScaledOutputRange(v: nat, o: nat, a: nat, b: nat)
    requires a > 0 && b > 0
    ensures v * a / b == o <==> (o * b + a - 1) / a <= v < ((o + 1) * b + a - 1) / a
  {
    QuotientIs(v * a, b, o);
    CeilingIsLeast(o * b, a, v);
    CeilingIsLeast((o + 1) * b, a, v);
  }
}

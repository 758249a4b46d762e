// The .NET generator with the modulo reduction of a limited output
// (PRNGs/PrngDotNetMod.cs).

module DotNetMod {
  import opened Common
  import opened DotNetBase
  import LcgBase

  /**
   * The limit reduction of Next(limit): a limit in (0, MBIG) reduces the raw
   * value modulo the limit; a limit of 0 or at least MBIG leaves it alone.
   */
  function Reduced(next: nat, limit: nat): (r: nat)
    ensures 0 < limit < MBIG ==> r < limit
    ensures !(0 < limit < MBIG) ==> r == next
    ensures r <= next
  {
    if limit != 0 && limit < MBIG then next % limit else next
  }

  /** The reduction only takes away whole multiples of the limit. */
  lemma ReducedCongruent(next: nat, limit: nat)
    requires 0 < limit < MBIG
    ensures (next - Reduced(next, limit)) % limit == 0
  {
    var q := next / limit;
    assert next - Reduced(next, limit) == 0 + q * limit;
    ModAddMultiple(0, q, limit);
  }

  /** A reduced value of an in-range output stays below MBIG, whatever the limit. */
  lemma ReducedInRange(st: DotNetState, limit: nat)
    requires Shaped(st) && InRange(st.lanes)
    ensures Reduced(Forward(st).0, limit) < MBIG
    ensures 0 < limit < MBIG ==> Reduced(Forward(st).0, limit) < limit
  {
    NextKeepsRange(st);
  }

  /** Next(limit): one Next, then the reduction. */
  method NextLimit(g: DotNetGenerator, limit: nat) returns (r: nat)
    requires g.Valid() && LcgBase.IsULong(limit)
    modifies g, g.seedArray
    ensures g.Valid() && g.Snapshot() == Forward(old(g.Snapshot())).1
    ensures r == Reduced(Forward(old(g.Snapshot())).0, limit)
  {
    var next := g.Next();
    if limit != 0 && limit < MBIG {
      r := next % limit;
    } else {
      r := next;
    }
  }

  /**
   * Previous(limit) as written: it draws with Next, so it moves the generator
   * forward exactly as Next(limit) does and returns the same value.
   */
  method PreviousLimit(g: DotNetGenerator, limit: nat) returns (r: nat)
    requires g.Valid() && LcgBase.IsULong(limit)
    modifies g, g.seedArray
    ensures g.Valid() && g.Snapshot() == Forward(old(g.Snapshot())).1
    ensures r == Reduced(Forward(old(g.Snapshot())).0, limit)
  {
    var prev := g.Next();
    if limit != 0 && limit < MBIG {
      r := prev % limit;
    } else {
      r := prev;
    }
  }

  /**
   * Next(limit) followed by the as-written Previous(limit) does not return to
   * the starting state: inext has moved two lanes on instead of back to where
   * it was.
   */
  lemma PreviousLimitDoesNotUndo(st: DotNetState)
    requires Shaped(st)
    ensures Forward(Forward(st).1).1 != Canonical(st)
    ensures Forward(Forward(st).1).1.inext != Canon(st.inext)
  {
  }

  /** Previous(limit) as intended: one Previous, then the reduction. */
  method PreviousLimitCorrected(g: DotNetGenerator, limit: nat) returns (r: nat)
    requires g.Valid() && LcgBase.IsULong(limit) && g.inextp != 0
    modifies g, g.seedArray
    ensures g.Valid() && g.Snapshot() == Backward(old(g.Snapshot())).1
    ensures r == Reduced(Backward(old(g.Snapshot())).0, limit)
  {
    var prev := g.Previous();
    if limit != 0 && limit < MBIG {
      r := prev % limit;
    } else {
      r := prev;
    }
  }

  /**
   * The corrected Previous(limit) undoes Next(limit): the lanes and cursors
   * come back and the same reduced value is returned.
   */
  lemma CorrectedPreviousLimitUndoes(st: DotNetState, limit: nat)
    requires Shaped(st) && CursorGap(st) && InRange(st.lanes)
    ensures Forward(st).1.inextp != 0
    ensures Backward(Forward(st).1).1 == Canonical(st)
    ensures Reduced(Backward(Forward(st).1).0, limit) == Reduced(Forward(st).0, limit)
  {
    BackwardUndoesForward(st);
  }
}

/**
 * The block identities behind glibc's seeking: from a state whose rear
 * cursor is at lane 0, one application of the 31-by-31 next-matrix modulo
 * 2^32 gives the lanes of 31 single steps, and the documented
 * previous-matrix gives the lanes of 31 steps back, so it undoes the
 * next-matrix. The proofs follow the steps lane by lane: a forward block
 * leaves lane t (t >= 3) holding the sum of lanes t, t-3, t-6, ...
 */
module Glibc3Blocks {
  import opened Common
  import opened Matrices
  import opened Glibc3

  /** Lane t plus every third lane below it: lanes t, t-3, t-6, ... down to lane 0, 1 or 2. */
  function ThirdSum(v: seq<nat>, t: nat): nat
    requires t < |v|
    decreases t
  {
    if t < 3 then v[t] else v[t] + ThirdSum(v, t - 3)
  }

  /** Lane t after one block of 31 steps from rear cursor 0. */
  function BlockLane(v: seq<nat>, t: nat): nat
    requires |v| == LaneCount && t < LaneCount
  {
    if t < 3 then (v[t] + ThirdSum(v, t + 28)) % TWO32 else ThirdSum(v, t) % TWO32
  }

  /**
   * Lane t after n <= 31 steps from rear cursor 0: step k (k < 28) writes
   * lane k + 3, and steps 28..30 write lanes 0..2.
   */
  function PartialLane(v: seq<nat>, n: nat, t: nat): nat
    requires |v| == LaneCount && t < LaneCount
  {
    if t < 3 && t + 28 < n then BlockLane(v, t)
    else if 3 <= t < n + 3 then ThirdSum(v, t) % TWO32
    else v[t]
  }

  /**
   * One step from the partial lanes of n - 1 steps, which adds the lane at
   * the rear cursor n - 1 into the lane at the front cursor, gives the
   * partial lanes of n steps.
   */
  lemma StepLanes(v: seq<nat>, n: nat, prev: seq<nat>, next: seq<nat>, f: nat, r: nat)
    requires |v| == LaneCount && |prev| == LaneCount && 0 < n <= LaneCount
    requires forall t :: 0 <= t < LaneCount ==> v[t] < TWO32
    requires forall t :: 0 <= t < LaneCount ==> prev[t] == PartialLane(v, n - 1, t)
    requires f == (n + 2) % LaneCount && r == n - 1 && next == prev[f := (prev[f] + prev[r]) % TWO32]
    ensures forall t :: 0 <= t < LaneCount ==> next[t] == PartialLane(v, n, t)
  {
    StepSum(v, n, prev[f], prev[r]);
    forall t | 0 <= t < LaneCount
      ensures next[t] == PartialLane(v, n, t)
    {
      if t != f {
        PartialLaneKept(v, n, t);
      }
    }
  }

  /** The lane step n writes: the front lane plus the rear lane n - 1. */
  lemma StepSum(v: seq<nat>, n: nat, front: nat, rear: nat)
    requires |v| == LaneCount && 0 < n <= LaneCount
    requires forall t :: 0 <= t < LaneCount ==> v[t] < TWO32
    requires front == PartialLane(v, n - 1, (n + 2) % LaneCount) && rear == PartialLane(v, n - 1, n - 1)
    ensures (front + rear) % TWO32 == PartialLane(v, n, (n + 2) % LaneCount)
  {
    var f := (n + 2) % LaneCount;
    var s := ThirdSum(v, n - 1);
    StepOperands(v, n);
    AddReduced(v[f], s, TWO32);
    StepTarget(v, n);
  }

  /** Adding a reduced summand or the summand itself leaves the same residue. */
  lemma AddReduced(x: int, s: int, m: int)
    requires 0 <= x < m
    ensures (x + s % m) % m == (x + s) % m
  {
    ModAdd(x, s, m);
    ModSmall(x, m);
    ModOfMod(s, m);
  }

  /** Before step n the front lane is untouched and the rear lane holds its sum of thirds. */
  lemma StepOperands(v: seq<nat>, n: nat)
    requires |v| == LaneCount && 0 < n <= LaneCount
    requires forall t :: 0 <= t < LaneCount ==> v[t] < TWO32
    ensures PartialLane(v, n - 1, (n + 2) % LaneCount) == v[(n + 2) % LaneCount]
    ensures PartialLane(v, n - 1, n - 1) == ThirdSum(v, n - 1) % TWO32
  {
    if n - 1 < 3 {
      ModSmall(v[n - 1], TWO32);
    }
  }

  /** Step n writes the front lane plus the sum of thirds ending at lane n - 1. */
  lemma StepTarget(v: seq<nat>, n: nat)
    requires |v| == LaneCount && 0 < n <= LaneCount
    ensures PartialLane(v, n, (n + 2) % LaneCount) == (v[(n + 2) % LaneCount] + ThirdSum(v, n - 1)) % TWO32
  {
    if n <= 28 {
      assert ThirdSum(v, n + 2) == v[n + 2] + ThirdSum(v, n - 1);
    }
  }

  /** Step n leaves every lane but n + 2 (mod 31) as it was. */
  lemma PartialLaneKept(v: seq<nat>, n: nat, t: nat)
    requires |v| == LaneCount && 0 < n <= LaneCount && t < LaneCount && t != (n + 2) % LaneCount
    ensures PartialLane(v, n, t) == PartialLane(v, n - 1, t)
  {
  }

  /** The lanes after n <= 31 steps from rear cursor 0 are the partial lanes. */
  lemma {:induction false} WalkLanes(st: Glibc3State, n: nat)
    requires Shaped(st) && st.rptr == 0 && CursorGap(st) && n <= LaneCount
    ensures forall t :: 0 <= t < LaneCount ==> Walk(st, n).lanes[t] == PartialLane(st.lanes, n, t)
  {
    if n > 0 {
      WalkLanes(st, n - 1);
      var prev := Walk(st, n - 1);
      PrefixCursors(st, n - 1);
      StepLanes(st.lanes, n, prev.lanes, Forward(prev).1.lanes, prev.fptr, prev.rptr);
    }
  }

  /** After n < 31 steps from rear cursor 0 the cursors are at n + 3 and n (mod 31). */
  lemma PrefixCursors(st: Glibc3State, n: nat)
    requires Shaped(st) && st.rptr == 0 && CursorGap(st) && n < LaneCount
    ensures Walk(st, n).fptr == (n + 3) % LaneCount && Walk(st, n).rptr == n
  {
    WalkCursors(st, n);
  }

  /** The first k terms of the sum of lanes t, t-3, t-6, ... */
  function RowSum(v: seq<nat>, t: nat, k: nat): nat
    requires k <= |v|
  {
    if k == 0 then 0 else RowSum(v, t, k - 1) + (if k - 1 <= t && (t - (k - 1)) % 3 == 0 then v[k - 1] else 0)
  }

  /** The first k terms of row i of the next-matrix times the lanes: one every-third sum, two for rows 0..2. */
  lemma {:induction false} DotNextRow(v: seq<nat>, i: nat, k: nat)
    requires |v| == LaneCount && i < LaneCount && k <= LaneCount
    ensures Dot(NextMatrix(), Column(v), i, 0, k) == RowSum(v, i, k) + (if i < 3 then RowSum(v, i + 28, k) else 0)
  {
    if k > 0 {
      DotNextRow(v, i, k - 1);
      var j := k - 1;
      assert At(NextMatrix(), i, j) == NextEntry(i, j);
      assert At(Column(v), j, 0) == v[j];
      NextTerm(i, j, v[j]);
    }
  }

  /** A term of row i of the next-matrix times lane j, one indicator per every-third sum. */
  lemma NextTerm(i: nat, j: nat, x: nat)
    ensures NextEntry(i, j) * x ==
      (if j <= i && (i - j) % 3 == 0 then x else 0) + (if i < 3 && j <= i + 28 && (i + 28 - j) % 3 == 0 then x else 0)
  {
  }

  /** For t >= 3 the every-third sum of t is lane t plus that of t - 3. */
  lemma {:induction false} RowSumShift(v: seq<nat>, t: nat, k: nat)
    requires 3 <= t && k <= |v|
    ensures RowSum(v, t, k) == RowSum(v, t - 3, k) + (if k > t then v[t] else 0)
  {
    if k > 0 {
      RowSumShift(v, t, k - 1);
    }
  }

  /** For t < 3 the every-third sum of t holds lane t alone. */
  lemma {:induction false} RowSumLow(v: seq<nat>, t: nat, k: nat)
    requires t < 3 && k <= |v|
    ensures RowSum(v, t, k) == if k > t then v[t] else 0
  {
    if k > 0 {
      RowSumLow(v, t, k - 1);
    }
  }

  /** Past lane t, the row sum is ThirdSum. */
  lemma {:induction false} RowSumIsThirdSum(v: seq<nat>, t: nat, k: nat)
    requires t < k <= |v|
    ensures RowSum(v, t, k) == ThirdSum(v, t)
    decreases t
  {
    if t < 3 {
      RowSumLow(v, t, k);
    } else {
      RowSumShift(v, t, k);
      RowSumIsThirdSum(v, t - 3, k);
    }
  }

  /** The next-matrix applied to the lanes modulo 2^32 gives the lanes of one block. */
  lemma NextMatrixIsBlock(v: seq<nat>)
    requires |v| == LaneCount
    ensures forall t :: 0 <= t < LaneCount ==> ApplyMod(NextMatrix(), v, TWO32)[t] == BlockLane(v, t)
  {
    forall t | 0 <= t < LaneCount
      ensures ApplyMod(NextMatrix(), v, TWO32)[t] == BlockLane(v, t)
    {
      DotNextRow(v, t, LaneCount);
      RowSumIsThirdSum(v, t, LaneCount);
      if t < 3 {
        RowSumIsThirdSum(v, t + 28, LaneCount);
      }
    }
  }

  /**
   * From a state whose rear cursor is at lane 0, 31 steps leave the
   * cursors where they were and the lanes as the next-matrix maps them
   * modulo 2^32: a jump by one block is 31 calls of Next.
   */
  lemma NextBlockIsWalk(st: Glibc3State)
    requires Shaped(st) && st.rptr == 0 && CursorGap(st)
    ensures Walk(st, LaneCount) == Glibc3State(ApplyMod(NextMatrix(), st.lanes, TWO32), st.fptr, st.rptr)
  {
    var s := Walk(st, LaneCount);
    var m := ApplyMod(NextMatrix(), st.lanes, TWO32);
    WalkLanes(st, LaneCount);
    NextMatrixIsBlock(st.lanes);
    assert forall t :: 0 <= t < LaneCount ==> s.lanes[t] == m[t];
    assert s.lanes == m;
    WalkCursors(st, LaneCount);
    assert s.fptr == st.fptr && s.rptr == st.rptr;
    SameState(s, m, st.fptr, st.rptr);
  }

  /**
   * Lane t after one block of 31 steps back from rear cursor 0: lane t
   * less lane t - 3, where lanes 0..2 were already stepped back (they
   * lose lanes 28..30).
   */
  function BackLane(v: seq<nat>, t: nat): nat
    requires |v| == LaneCount && t < LaneCount
    decreases t
  {
    if t < 3 then (v[t] as int - v[t + 28]) % TWO32
    else if t < 6 then (v[t] as int - BackLane(v, t - 3)) % TWO32
    else (v[t] as int - v[t - 3]) % TWO32
  }

  /** Lane t after n <= 31 steps back from rear cursor 0: step s writes lane 3 - s, then lane 34 - s. */
  function BackPartialLane(v: seq<nat>, n: nat, t: nat): nat
    requires |v| == LaneCount && t < LaneCount
  {
    if (t < 3 && 3 - t <= n) || (3 <= t && 34 - t <= n) then BackLane(v, t) else v[t]
  }

  /** One step back from the partial lanes of n - 1 steps back gives those of n steps back. */
  lemma BackStepLanes(v: seq<nat>, n: nat, prev: seq<nat>, next: seq<nat>, f: nat, r: nat)
    requires |v| == LaneCount && |prev| == LaneCount && 0 < n <= LaneCount
    requires forall t :: 0 <= t < LaneCount ==> prev[t] == BackPartialLane(v, n - 1, t)
    requires f == (3 - n) % LaneCount && r == (0 - n) % LaneCount && next == prev[f := (prev[f] as int - prev[r]) % TWO32]
    ensures forall t :: 0 <= t < LaneCount ==> next[t] == BackPartialLane(v, n, t)
  {
  }

  /** The lanes after n <= 31 steps back from rear cursor 0 are the partial lanes. */
  lemma {:induction false} WalkBackLanes(st: Glibc3State, n: nat)
    requires Shaped(st) && st.rptr == 0 && CursorGap(st) && n <= LaneCount
    ensures forall t :: 0 <= t < LaneCount ==> WalkBack(st, n).lanes[t] == BackPartialLane(st.lanes, n, t)
  {
    if n > 0 {
      WalkBackLanes(st, n - 1);
      var prev := WalkBack(st, n - 1);
      BackCursors(st, n);
      BackStepLanes(st.lanes, n, prev.lanes, Backward(prev).1.lanes, Retreat(prev.fptr), Retreat(prev.rptr));
    }
  }

  /** Step n back from rear cursor 0 moves the cursors to 3 - n and -n (mod 31). */
  lemma BackCursors(st: Glibc3State, n: nat)
    requires Shaped(st) && st.rptr == 0 && CursorGap(st) && 0 < n <= LaneCount
    ensures Retreat(WalkBack(st, n - 1).fptr) == (3 - n) % LaneCount
    ensures Retreat(WalkBack(st, n - 1).rptr) == (0 - n) % LaneCount
  {
    var prev := WalkBack(st, n - 1);
    assert st.fptr == 3;
    WalkBackCursors(st, n - 1);
    var f, r := prev.fptr, prev.rptr;
    assert f == (3 - (n - 1)) % LaneCount && r == (0 - (n - 1)) % LaneCount;
    RetreatMod(3 - (n - 1), f);
    RetreatMod(0 - (n - 1), r);
  }

  /**
   * The first k terms of row t of the previous-matrix times the lanes:
   * lane t, minus lane t - 3 (rows 3..30) or lane t + 28 (rows 0..2), plus
   * lane t + 25 (rows 3..5), with -1 written 2^32 - 1.
   */
  function PreviousRowSum(v: seq<nat>, t: nat, k: nat): int
    requires |v| == LaneCount && t < LaneCount
  {
    (if t < k then v[t] else 0) +
    (if 3 <= t && t - 3 < k then (TWO32 - 1) * v[t - 3] else 0) +
    (if t < 3 && t + 28 < k then (TWO32 - 1) * v[t + 28] else 0) +
    (if 3 <= t <= 5 && t + 25 < k then v[t + 25] else 0)
  }

  lemma {:induction false} DotPreviousRow(v: seq<nat>, t: nat, k: nat)
    requires |v| == LaneCount && t < LaneCount && k <= LaneCount
    ensures Dot(PreviousMatrix(), Column(v), t, 0, k) == PreviousRowSum(v, t, k)
  {
    if k > 0 {
      DotPreviousRow(v, t, k - 1);
      assert At(PreviousMatrix(), t, k - 1) == PreviousEntry(t, k - 1);
      assert At(Column(v), k - 1, 0) == v[k - 1];
    }
  }

  /** Adding 2^32 - 1 times y is subtracting y, modulo 2^32. */
  lemma MinusOne(x: int, y: int)
    ensures (x + (TWO32 - 1) * y) % TWO32 == (x - y) % TWO32
  {
    ModAddMultiple(x - y, y, TWO32);
  }

  /** The previous-matrix applied to the lanes modulo 2^32 gives the lanes of one block back. */
  lemma PreviousMatrixIsBlockBack(v: seq<nat>)
    requires |v| == LaneCount
    ensures forall t :: 0 <= t < LaneCount ==> ApplyMod(PreviousMatrix(), v, TWO32)[t] == BackLane(v, t)
  {
    forall t | 0 <= t < LaneCount
      ensures ApplyMod(PreviousMatrix(), v, TWO32)[t] == BackLane(v, t)
    {
      DotPreviousRow(v, t, LaneCount);
      if t < 3 {
        MinusOne(v[t], v[t + 28]);
      } else if t < 6 {
        MinusOne(v[t] + v[t + 25], v[t - 3]);
        ModSub(v[t], v[t - 3] as int - v[t + 25], TWO32);
        ModSub(v[t], (v[t - 3] as int - v[t + 25]) % TWO32, TWO32);
        ModOfMod(v[t - 3] as int - v[t + 25], TWO32);
      } else {
        MinusOne(v[t], v[t - 3]);
      }
    }
  }

  /**
   * From a state whose rear cursor is at lane 0, 31 steps back leave the
   * cursors where they were and the lanes as the previous-matrix maps
   * them modulo 2^32.
   */
  lemma PreviousBlockIsWalkBack(st: Glibc3State)
    requires Shaped(st) && st.rptr == 0 && CursorGap(st)
    ensures WalkBack(st, LaneCount) == Glibc3State(ApplyMod(PreviousMatrix(), st.lanes, TWO32), st.fptr, st.rptr)
  {
    var s := WalkBack(st, LaneCount);
    var m := ApplyMod(PreviousMatrix(), st.lanes, TWO32);
    WalkBackLanes(st, LaneCount);
    PreviousMatrixIsBlockBack(st.lanes);
    assert forall t :: 0 <= t < LaneCount ==> s.lanes[t] == m[t];
    assert s.lanes == m;
    WalkBackCursors(st, LaneCount);
    assert s.fptr == st.fptr && s.rptr == st.rptr;
    SameState(s, m, st.fptr, st.rptr);
  }

  /**
   * The previous-matrix undoes the next-matrix: on lanes of 32 bits,
   * applying both modulo 2^32 gives the lanes back.
   */
  lemma PreviousUndoesNext(v: seq<nat>)
    requires |v| == LaneCount && forall t :: 0 <= t < LaneCount ==> v[t] < TWO32
    ensures ApplyMod(PreviousMatrix(), ApplyMod(NextMatrix(), v, TWO32), TWO32) == v
  {
    var st := Glibc3State(v, Separation, 0);
    NextBlockIsWalk(st);
    WalkBackUndoesWalk(st, LaneCount);
    PreviousBlockIsWalkBack(Walk(st, LaneCount));
  }

  /** A state is its lanes and its cursors. */
  lemma SameState(s: Glibc3State, lanes: seq<nat>, fptr: nat, rptr: nat)
    requires s.lanes == lanes && s.fptr == fptr && s.rptr == rptr
    ensures s == Glibc3State(lanes, fptr, rptr)
  {
  }

  /** a + b steps are a steps and then b steps. */
  lemma {:induction false} WalkAdd(st: Glibc3State, a: nat, b: nat)
    requires Shaped(st)
    ensures Walk(st, a + b) == Walk(Walk(st, a), b)
  {
    if b == 0 {
      assert Walk(Walk(st, a), 0) == Walk(st, a);
    } else {
      var w := Walk(st, a);
      var x := Walk(st, a + (b - 1));
      var z := Walk(w, b - 1);
      WalkAdd(st, a, b - 1);
      assert x == z;
      assert Walk(st, a + b) == Forward(x).1;
      assert Walk(w, b) == Forward(z).1;
    }
  }

  /** a + b steps back are a steps back and then b steps back. */
  lemma {:induction false} WalkBackAdd(st: Glibc3State, a: nat, b: nat)
    requires Shaped(st)
    ensures WalkBack(st, a + b) == WalkBack(WalkBack(st, a), b)
  {
    if b == 0 {
      assert WalkBack(WalkBack(st, a), 0) == WalkBack(st, a);
    } else {
      var w := WalkBack(st, a);
      var x := WalkBack(st, a + (b - 1));
      var z := WalkBack(w, b - 1);
      WalkBackAdd(st, a, b - 1);
      assert x == z;
      assert WalkBack(st, a + b) == Backward(x).1;
      assert WalkBack(w, b) == Backward(z).1;
    }
  }

  /** Walking forward undoes walking back, for a state with the cursor gap. */
  lemma {:induction false} WalkUndoesWalkBack(st: Glibc3State, n: nat)
    requires Shaped(st) && CursorGap(st)
    ensures CursorGap(WalkBack(st, n))
    ensures Walk(WalkBack(st, n), n) == st
  {
    if n > 0 {
      var mid := WalkBack(st, n - 1);
      WalkUndoesWalkBack(st, n - 1);
      StepsKeepCursorGap(mid);
      ForwardUndoesBackward(mid);
      WalkPeel(WalkBack(st, n), n);
    }
  }

  /** The first of n steps can be taken first. */
  lemma {:induction false} WalkPeel(st: Glibc3State, n: nat)
    requires Shaped(st) && n > 0
    ensures Walk(st, n) == Walk(Forward(st).1, n - 1)
  {
    if n > 1 {
      WalkPeel(st, n - 1);
    }
  }

  /** From rear cursor 0, a jump of k blocks with the next-matrix is 31·k calls of Next. */
  lemma {:induction false} JumpIsWalk(st: Glibc3State, k: nat)
    requires Shaped(st) && st.rptr == 0 && CursorGap(st)
    ensures Jump(st, NextMatrix(), k) == Walk(st, LaneCount * k)
    decreases k
  {
    if k > 0 {
      var M, v := NextMatrix(), st.lanes;
      var st1 := Walk(st, LaneCount);
      NextBlockIsWalk(st);
      if k == 1 {
        PowerOne(M, LaneCount);
        ApplyResidues(Power(M, 1, LaneCount), M, v, TWO32);
        assert ApplyMod(Power(M, 1, LaneCount), v, TWO32) == ApplyMod(M, v, TWO32);
      } else {
        JumpIsWalk(st1, k - 1);
        ApplyProduct(Power(M, k - 1, LaneCount), M, v, TWO32);
        WalkAdd(st, LaneCount, LaneCount * (k - 1));
      }
    }
  }

  /** From rear cursor 0, a jump of k blocks with the previous-matrix is 31·k calls of Previous. */
  lemma {:induction false} JumpBackIsWalkBack(st: Glibc3State, k: nat)
    requires Shaped(st) && st.rptr == 0 && CursorGap(st)
    ensures Jump(st, PreviousMatrix(), k) == WalkBack(st, LaneCount * k)
    decreases k
  {
    if k > 0 {
      var M, v := PreviousMatrix(), st.lanes;
      var st1 := WalkBack(st, LaneCount);
      PreviousBlockIsWalkBack(st);
      if k == 1 {
        PowerOne(M, LaneCount);
        ApplyResidues(Power(M, 1, LaneCount), M, v, TWO32);
        assert ApplyMod(Power(M, 1, LaneCount), v, TWO32) == ApplyMod(M, v, TWO32);
      } else {
        JumpBackIsWalkBack(st1, k - 1);
        ApplyProduct(Power(M, k - 1, LaneCount), M, v, TWO32);
        WalkBackAdd(st, LaneCount, LaneCount * (k - 1));
      }
    }
  }

  /**
   * SeekAhead's plan for an offset of at least 31 (align rptr to lane 0,
   * jump whole blocks, step the residual either way) ends in the state of
   * offset calls of Next.
   */
  lemma AheadPlanIsWalk(st: Glibc3State, offset: nat)
    requires Shaped(st) && CursorGap(st) && offset >= LaneCount
    ensures var (alignment, blocks, residual) := AheadPlan(offset, st.rptr);
      Steps(Jump(Walk(st, alignment), NextMatrix(), blocks), residual) == Walk(st, offset)
  {
    var plan := AheadPlan(offset, st.rptr);
    AheadPlanAddsUp(offset, st.rptr);
    AlignedJumpIsWalk(st, plan.0, plan.1, plan.2, offset);
  }

  /** Steps to rptr = 0, then b blocks, then r steps either way, are a + 31·b + r steps. */
  lemma AlignedJumpIsWalk(st: Glibc3State, a: nat, b: nat, r: int, offset: nat)
    requires Shaped(st) && CursorGap(st) && (st.rptr + a) % LaneCount == 0 && a + LaneCount * b + r == offset
    ensures Steps(Jump(Walk(st, a), NextMatrix(), b), r) == Walk(st, offset)
  {
    calc {
      Steps(Jump(Walk(st, a), NextMatrix(), b), r);
      { AlignedBlocks(st, a, b); }
      Steps(Walk(st, a + LaneCount * b), r);
      { ResidualIsWalk(st, a + LaneCount * b, r, offset); }
      Walk(st, offset);
    }
  }

  /** Steps to rptr = 0 and then b blocks are a + 31·b steps. */
  lemma AlignedBlocks(st: Glibc3State, a: nat, b: nat)
    requires Shaped(st) && CursorGap(st) && (st.rptr + a) % LaneCount == 0
    ensures Jump(Walk(st, a), NextMatrix(), b) == Walk(st, a + LaneCount * b)
  {
    var s0 := Walk(st, a);
    calc {
      Jump(s0, NextMatrix(), b);
      { WalkCursors(st, a); WalkBackUndoesWalk(st, a); JumpIsWalk(s0, b); }
      Walk(s0, LaneCount * b);
      { WalkAdd(st, a, LaneCount * b); }
      Walk(st, a + LaneCount * b);
    }
  }

  /** m steps and then r steps either way are m + r steps. */
  lemma ResidualIsWalk(st: Glibc3State, m: nat, r: int, offset: nat)
    requires Shaped(st) && CursorGap(st) && m + r == offset
    ensures Steps(Walk(st, m), r) == Walk(st, offset)
  {
    if r >= 0 {
      WalkAdd(st, m, r);
    } else {
      OvershootIsWalk(st, offset, -r);
    }
  }

  /** offset + k steps and then k steps back are offset steps. */
  lemma OvershootIsWalk(st: Glibc3State, offset: nat, k: nat)
    requires Shaped(st) && CursorGap(st)
    ensures WalkBack(Walk(st, offset + k), k) == Walk(st, offset)
  {
    WalkAdd(st, offset, k);
    WalkBackUndoesWalk(st, offset);
    WalkBackUndoesWalk(Walk(st, offset), k);
  }

  /**
   * SeekBack's plan for an offset of at least 31 (step back to rptr = 0,
   * jump whole blocks back, step the residual either way) ends in the
   * state of offset calls of Previous.
   */
  lemma BackPlanIsWalkBack(st: Glibc3State, offset: nat)
    requires Shaped(st) && CursorGap(st) && offset >= LaneCount
    ensures var (alignment, blocks, residual) := BackPlan(offset, st.rptr);
      Steps(Jump(WalkBack(st, alignment), PreviousMatrix(), blocks), residual) == WalkBack(st, offset)
  {
    var plan := BackPlan(offset, st.rptr);
    BackPlanAddsUp(offset, st.rptr);
    AlignedJumpBackIsWalkBack(st, plan.0, plan.1, plan.2, offset);
  }

  /** rptr steps back, then b blocks back, then r steps either way, are a + 31·b - r steps back. */
  lemma AlignedJumpBackIsWalkBack(st: Glibc3State, a: nat, b: nat, r: int, offset: nat)
    requires Shaped(st) && CursorGap(st) && a == st.rptr && a + LaneCount * b - r == offset
    ensures Steps(Jump(WalkBack(st, a), PreviousMatrix(), b), r) == WalkBack(st, offset)
  {
    calc {
      Steps(Jump(WalkBack(st, a), PreviousMatrix(), b), r);
      { AlignedBlocksBack(st, a, b); }
      Steps(WalkBack(st, a + LaneCount * b), r);
      { ResidualIsWalkBack(st, a + LaneCount * b, r, offset); }
      WalkBack(st, offset);
    }
  }

  /** rptr steps back and then b blocks back are a + 31·b steps back. */
  lemma AlignedBlocksBack(st: Glibc3State, a: nat, b: nat)
    requires Shaped(st) && CursorGap(st) && a == st.rptr
    ensures Jump(WalkBack(st, a), PreviousMatrix(), b) == WalkBack(st, a + LaneCount * b)
  {
    var s0 := WalkBack(st, a);
    calc {
      Jump(s0, PreviousMatrix(), b);
      { WalkBackCursors(st, a); WalkUndoesWalkBack(st, a); JumpBackIsWalkBack(s0, b); }
      WalkBack(s0, LaneCount * b);
      { WalkBackAdd(st, a, LaneCount * b); }
      WalkBack(st, a + LaneCount * b);
    }
  }

  /** m steps back and then r steps either way are m - r steps back. */
  lemma ResidualIsWalkBack(st: Glibc3State, m: nat, r: int, offset: nat)
    requires Shaped(st) && CursorGap(st) && m - r == offset
    ensures Steps(WalkBack(st, m), r) == WalkBack(st, offset)
  {
    if r <= 0 {
      WalkBackAdd(st, m, -r);
    } else {
      OvershootIsWalkBack(st, offset, r);
    }
  }

  /** offset + k steps back and then k steps forward are offset steps back. */
  lemma OvershootIsWalkBack(st: Glibc3State, offset: nat, k: nat)
    requires Shaped(st) && CursorGap(st)
    ensures Walk(WalkBack(st, offset + k), k) == WalkBack(st, offset)
  {
    WalkBackAdd(st, offset, k);
    WalkUndoesWalkBack(st, offset);
    WalkUndoesWalkBack(WalkBack(st, offset), k);
  }
}

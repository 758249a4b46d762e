/**
 * The block identities behind .NET's seeking: from a state whose inext is
 * at position 0 of the cycle (0 or 55) with lanes 1..55 in [0, MBIG), one
 * application of the 55-by-55 next-matrix modulo MBIG to lanes 1..55 gives
 * the lanes of 55 single steps, and the documented previous-matrix gives
 * the lanes of 55 steps back. Lanes are indexed from 0 here: index t is
 * SeedArray[t + 1].
 */
module DotNetBlocks {
  import opened Common
  import opened Matrices
  import opened DotNetBase

  /** A state whose inext is at position 0, with in-range lanes and the cursor gap. */
  ghost predicate Aligned(st: DotNetState) {
    Shaped(st) && InRange(st.lanes) && CursorGap(st) && Pos(st.inext) == 0
  }

  /**
   * Lane t (from 0) after one block of 55 steps from an aligned state:
   * lanes 0..33 lose lane t + 21, lanes 34..54 lose the already stepped
   * lane t - 34.
   */
  function BlockLane(v: seq<int>, t: nat): int
    requires |v| == LaneCount && t < LaneCount
    decreases t
  {
    if t < 34 then (v[t] - v[t + 21]) % MBIG else (v[t] - BlockLane(v, t - 34)) % MBIG
  }

  /** Lane t after n <= 55 steps from an aligned state: step k writes lane k - 1. */
  function PartialLane(v: seq<int>, n: nat, t: nat): int
    requires |v| == LaneCount && t < LaneCount
  {
    if t < n then BlockLane(v, t) else v[t]
  }

  /** The lane step n reads besides lane n: 21 ahead, or 34 behind once that wraps. */
  function ReadLane(n: nat): nat {
    if n <= 34 then n + 21 else n - 34
  }

  /**
   * One step from the partial lanes of n - 1 steps, which subtracts lane
   * ReadLane(n) from lane n of SeedArray, gives the partial lanes of n
   * steps; SeedArray[0] is not touched.
   */
  lemma StepLanes(v: seq<int>, n: nat, prev: seq<int>, next: seq<int>, w: nat, p: nat)
    requires |v| == LaneCount && |prev| == ArrayLength && 0 < n <= LaneCount
    requires forall t :: 0 <= t < LaneCount ==> 0 <= v[t] < MBIG
    requires forall i :: 1 <= i < ArrayLength ==> prev[i] == PartialLane(v, n - 1, i - 1)
    requires w == n && p == ReadLane(n) && next == prev[w := Subtract(prev[w], prev[p])]
    ensures next[0] == prev[0]
    ensures forall i :: 1 <= i < ArrayLength ==> next[i] == PartialLane(v, n, i - 1)
  {
    assert prev[w] == v[n - 1];
    if n <= 34 {
      assert prev[p] == v[n + 20];
    } else {
      assert prev[p] == BlockLane(v, n - 35);
    }
    assert next[w] == BlockLane(v, n - 1);
    forall i | 1 <= i < ArrayLength
      ensures next[i] == PartialLane(v, n, i - 1)
    {
      if i != n {
        assert next[i] == prev[i];
      }
    }
  }

  /** After n < 55 steps from an aligned state, the next step writes lane n + 1 and reads lane ReadLane(n + 1). */
  lemma PrefixCursors(st: DotNetState, n: nat)
    requires Aligned(st) && n < LaneCount
    ensures Advance(Walk(st, n).inext) == n + 1 && Advance(Walk(st, n).inextp) == ReadLane(n + 1)
  {
    WalkCursors(st, n);
    var c, d := Walk(st, n).inext, Walk(st, n).inextp;
    assert Pos(c) == n;
    assert Pos(d) == (Gap + n) % LaneCount;
  }

  /** The lanes after n <= 55 steps from an aligned state are the partial lanes; SeedArray[0] stays. */
  lemma {:induction false} WalkLanes(st: DotNetState, n: nat)
    requires Aligned(st) && n <= LaneCount
    ensures Walk(st, n).lanes[0] == st.lanes[0]
    ensures forall i :: 1 <= i < ArrayLength ==> Walk(st, n).lanes[i] == PartialLane(st.lanes[1..], n, i - 1)
  {
    var v := st.lanes[1..];
    if n == 0 {
      forall i | 1 <= i < ArrayLength
        ensures st.lanes[i] == PartialLane(v, 0, i - 1)
      {
        assert v[i - 1] == st.lanes[i];
      }
    } else {
      WalkLanes(st, n - 1);
      var prev := Walk(st, n - 1);
      PrefixCursors(st, n - 1);
      assert forall t :: 0 <= t < LaneCount ==> 0 <= v[t] < MBIG by {
        forall t | 0 <= t < LaneCount
          ensures 0 <= v[t] < MBIG
        {
          assert v[t] == st.lanes[t + 1];
        }
      }
      StepLanes(v, n, prev.lanes, Forward(prev).1.lanes, Advance(prev.inext), Advance(prev.inextp));
    }
  }

  /**
   * The first k terms of row t of the next-matrix times the lanes: lane t,
   * less lane t + 21 (rows 0..33), or less lane t - 34 and plus lane
   * t - 13 (rows 34..54), with -1 written MBIG - 1.
   */
  function NextRowSum(v: seq<int>, t: nat, k: nat): int
    requires |v| == LaneCount && t < LaneCount
  {
    (if t < k then v[t] else 0) +
    (if t < 34 && t + 21 < k then (MBIG - 1) * v[t + 21] else 0) +
    (if 34 <= t && t - 34 < k then (MBIG - 1) * v[t - 34] else 0) +
    (if 34 <= t && t - 13 < k then v[t - 13] else 0)
  }

  lemma {:induction false} DotNextRow(v: seq<int>, t: nat, k: nat)
    requires |v| == LaneCount && t < LaneCount && k <= LaneCount
    ensures Dot(NextMatrix(), Column(v), t, 0, k) == NextRowSum(v, t, k)
  {
    if k > 0 {
      DotNextRow(v, t, k - 1);
      assert At(NextMatrix(), t, k - 1) == NextEntry(t, k - 1);
      assert At(Column(v), k - 1, 0) == v[k - 1];
    }
  }

  /** Adding MBIG - 1 times y is subtracting y, modulo MBIG. */
  lemma MinusOne(x: int, y: int)
    ensures (x + (MBIG - 1) * y) % MBIG == (x - y) % MBIG
  {
    ModAddMultiple(x - y, y, MBIG);
  }

  /** The next-matrix applied to the lanes modulo MBIG gives the lanes of one block. */
  lemma NextMatrixIsBlock(v: seq<int>)
    requires |v| == LaneCount
    ensures forall t :: 0 <= t < LaneCount ==> ApplyMod(NextMatrix(), v, MBIG)[t] == BlockLane(v, t)
  {
    forall t | 0 <= t < LaneCount
      ensures ApplyMod(NextMatrix(), v, MBIG)[t] == BlockLane(v, t)
    {
      DotNextRow(v, t, LaneCount);
      if t < 34 {
        MinusOne(v[t], v[t + 21]);
      } else {
        MinusOne(v[t] + v[t - 13], v[t - 34]);
        ModSub(v[t], v[t - 34] - v[t - 13], MBIG);
        ModSub(v[t], (v[t - 34] - v[t - 13]) % MBIG, MBIG);
        ModOfMod(v[t - 34] - v[t - 13], MBIG);
      }
    }
  }

  /**
   * From an aligned state, 55 steps leave SeedArray[0] alone and map lanes
   * 1..55 as the next-matrix does modulo MBIG; inext comes back to
   * position 0 and inextp to where it was.
   */
  lemma NextBlockIsWalk(st: DotNetState)
    requires Aligned(st)
    ensures Walk(st, LaneCount).lanes == st.lanes[..1] + ApplyMod(NextMatrix(), st.lanes[1..], MBIG)
    ensures Pos(Walk(st, LaneCount).inext) == 0 && Walk(st, LaneCount).inextp == st.inextp
  {
    var s := Walk(st, LaneCount);
    var m := st.lanes[..1] + ApplyMod(NextMatrix(), st.lanes[1..], MBIG);
    WalkLanes(st, LaneCount);
    NextMatrixIsBlock(st.lanes[1..]);
    forall i | 0 <= i < ArrayLength
      ensures s.lanes[i] == m[i]
    {
      if i > 0 {
        assert s.lanes[i] == PartialLane(st.lanes[1..], LaneCount, i - 1);
      }
    }
    WalkCursors(st, LaneCount);
  }

  /** Walking back keeps lanes 1..55 in [0, MBIG) and keeps the cursor gap. */
  lemma {:induction false} WalkBackKeepsRange(st: DotNetState, n: nat)
    requires Shaped(st) && st.inextp != 0 && InRange(st.lanes) && CursorGap(st)
    ensures InRange(WalkBack(st, n).lanes) && CursorGap(WalkBack(st, n))
  {
    if n > 0 {
      WalkBackKeepsRange(st, n - 1);
      PreviousKeepsRange(WalkBack(st, n - 1));
      StepsKeepCursorGap(WalkBack(st, n - 1));
    }
  }

  /**
   * Lane t (from 0) after one block of 55 steps back from an aligned
   * state: lanes 34..54 take back lane t - 34, lanes 0..33 take back the
   * already restored lane t + 21.
   */
  function BackLane(w: seq<int>, t: nat): int
    requires |w| == LaneCount && t < LaneCount
    decreases LaneCount - t
  {
    if t >= 34 then (w[t] + w[t - 34]) % MBIG else (w[t] + BackLane(w, t + 21)) % MBIG
  }

  /** Lane t after n <= 55 steps back from an aligned state: step k writes lane 55 - k. */
  function BackPartialLane(w: seq<int>, n: nat, t: nat): int
    requires |w| == LaneCount && t < LaneCount
  {
    if LaneCount - t <= n then BackLane(w, t) else w[t]
  }

  /** The lane step k back adds into lane 56 - k: 34 behind it, or 21 ahead once that wraps. */
  function BackReadLane(k: nat): nat
    requires k <= LaneCount
  {
    if k <= 21 then 22 - k else 77 - k
  }

  /**
   * One step back from the partial lanes of k - 1 steps back, which adds
   * lane BackReadLane(k) into lane 56 - k of SeedArray, gives the partial
   * lanes of k steps back; SeedArray[0] is not touched.
   */
  lemma BackStepLanes(w: seq<int>, k: nat, prev: seq<int>, next: seq<int>, i: nat, p: nat)
    requires |w| == LaneCount && |prev| == ArrayLength && 0 < k <= LaneCount
    requires forall t :: 0 <= t < LaneCount ==> 0 <= w[t] < MBIG
    requires forall j :: 1 <= j < ArrayLength ==> prev[j] == BackPartialLane(w, k - 1, j - 1)
    requires i == ArrayLength - k && p == BackReadLane(k) && next == prev[i := AddBack(prev[i], prev[p])]
    ensures next[0] == prev[0]
    ensures forall j :: 1 <= j < ArrayLength ==> next[j] == BackPartialLane(w, k, j - 1)
  {
    assert prev[i] == w[i - 1];
    if k <= 21 {
      assert prev[p] == w[p - 1];
    } else {
      assert prev[p] == BackLane(w, p - 1);
    }
    AddBackInRange(prev[i], prev[p]);
    assert next[i] == BackLane(w, i - 1);
    forall j | 1 <= j < ArrayLength
      ensures next[j] == BackPartialLane(w, k, j - 1)
    {
      if j != i {
        assert next[j] == prev[j];
      }
    }
  }

  /** Step k back from an aligned state writes lane 56 - k and reads lane BackReadLane(k). */
  lemma BackCursors(st: DotNetState, k: nat)
    requires Aligned(st) && 0 < k <= LaneCount
    ensures Canon(WalkBack(st, k - 1).inext) == ArrayLength - k
    ensures WalkBack(st, k - 1).inextp == BackReadLane(k)
  {
    assert st.inextp == Gap;
    WalkBackCursors(st, k - 1);
    var c, d := WalkBack(st, k - 1).inext, WalkBack(st, k - 1).inextp;
    BackPositions(k);
    CanonPos(c);
    CanonPos(d);
  }

  /** A cursor in 0..55 is Canon of its position, with position 0 written 55. */
  lemma CanonPos(c: nat)
    requires c < ArrayLength
    ensures Canon(c) == if Pos(c) == 0 then LaneCount else Pos(c)
    ensures c != 0 ==> c == Canon(c)
  {
  }

  /** The cursor positions k - 1 steps back from positions 0 and 21. */
  lemma BackPositions(k: nat)
    requires 0 < k <= LaneCount
    ensures (0 - (k - 1)) % LaneCount == if k == 1 then 0 else ArrayLength - k
    ensures (Gap - (k - 1)) % LaneCount == if k == 22 then 0 else BackReadLane(k)
  {
  }

  /** The lanes after n <= 55 steps back from an aligned state are the partial lanes; SeedArray[0] stays. */
  lemma {:induction false} WalkBackLanes(st: DotNetState, n: nat)
    requires Aligned(st) && n <= LaneCount
    ensures WalkBack(st, n).lanes[0] == st.lanes[0]
    ensures forall j :: 1 <= j < ArrayLength ==> WalkBack(st, n).lanes[j] == BackPartialLane(st.lanes[1..], n, j - 1)
  {
    var w := st.lanes[1..];
    if n == 0 {
      forall j | 1 <= j < ArrayLength
        ensures st.lanes[j] == BackPartialLane(w, 0, j - 1)
      {
        assert w[j - 1] == st.lanes[j];
      }
    } else {
      WalkBackLanes(st, n - 1);
      var prev := WalkBack(st, n - 1);
      BackCursors(st, n);
      assert forall t :: 0 <= t < LaneCount ==> 0 <= w[t] < MBIG by {
        forall t | 0 <= t < LaneCount
          ensures 0 <= w[t] < MBIG
        {
          assert w[t] == st.lanes[t + 1];
        }
      }
      BackStepLanes(w, n, prev.lanes, Backward(prev).1.lanes, Canon(prev.inext), prev.inextp);
    }
  }

  /**
   * The first k terms of row t of the previous-matrix times the lanes:
   * lanes t, t + 8, t + 21 and t + 42 (rows 0..12), lanes t - 13, t and
   * t + 21 (rows 13..33), lanes t - 34 and t (rows 34..54).
   */
  function PreviousRowSum(w: seq<int>, t: nat, k: nat): int
    requires |w| == LaneCount && t < LaneCount
  {
    (if t < k then w[t] else 0) +
    (if t < 13 && t + 8 < k then w[t + 8] else 0) +
    (if t < 34 && t + 21 < k then w[t + 21] else 0) +
    (if t < 13 && t + 42 < k then w[t + 42] else 0) +
    (if 13 <= t < 34 && t - 13 < k then w[t - 13] else 0) +
    (if 34 <= t && t - 34 < k then w[t - 34] else 0)
  }

  lemma {:induction false} DotPreviousRow(w: seq<int>, t: nat, k: nat)
    requires |w| == LaneCount && t < LaneCount && k <= LaneCount
    ensures Dot(PreviousMatrix(), Column(w), t, 0, k) == PreviousRowSum(w, t, k)
  {
    if k > 0 {
      DotPreviousRow(w, t, k - 1);
      assert At(PreviousMatrix(), t, k - 1) == PreviousEntry(t, k - 1);
      assert At(Column(w), k - 1, 0) == w[k - 1];
    }
  }

  /** Adding a reduced summand or the summand itself leaves the same residue. */
  lemma AddReduced(x: int, y: int, m: int)
    requires m > 0
    ensures (x + y % m) % m == (x + y) % m
  {
    ModAdd(x, y, m);
    ModAdd(x, y % m, m);
    ModOfMod(y, m);
  }

  /** The previous-matrix applied to the lanes modulo MBIG gives the lanes of one block back. */
  lemma PreviousMatrixIsBlockBack(w: seq<int>)
    requires |w| == LaneCount
    ensures forall t :: 0 <= t < LaneCount ==> ApplyMod(PreviousMatrix(), w, MBIG)[t] == BackLane(w, t)
  {
    forall t | 0 <= t < LaneCount
      ensures ApplyMod(PreviousMatrix(), w, MBIG)[t] == BackLane(w, t)
    {
      DotPreviousRow(w, t, LaneCount);
      if t < 13 {
        assert BackLane(w, t + 42) == (w[t + 42] + w[t + 8]) % MBIG;
        AddReduced(w[t + 21], w[t + 42] + w[t + 8], MBIG);
        assert BackLane(w, t + 21) == (w[t + 21] + w[t + 42] + w[t + 8]) % MBIG;
        AddReduced(w[t], w[t + 21] + w[t + 42] + w[t + 8], MBIG);
      } else if t < 34 {
        assert BackLane(w, t + 21) == (w[t + 21] + w[t - 13]) % MBIG;
        AddReduced(w[t], w[t + 21] + w[t - 13], MBIG);
      }
    }
  }

  /**
   * From an aligned state, 55 steps back leave SeedArray[0] alone and map
   * lanes 1..55 as the previous-matrix does modulo MBIG; inext comes back
   * to position 0 and inextp to where it was.
   */
  lemma PreviousBlockIsWalkBack(st: DotNetState)
    requires Aligned(st)
    ensures WalkBack(st, LaneCount).lanes == st.lanes[..1] + ApplyMod(PreviousMatrix(), st.lanes[1..], MBIG)
    ensures Pos(WalkBack(st, LaneCount).inext) == 0 && WalkBack(st, LaneCount).inextp == st.inextp
  {
    var s := WalkBack(st, LaneCount);
    var m := st.lanes[..1] + ApplyMod(PreviousMatrix(), st.lanes[1..], MBIG);
    WalkBackLanes(st, LaneCount);
    PreviousMatrixIsBlockBack(st.lanes[1..]);
    forall j | 0 <= j < ArrayLength
      ensures s.lanes[j] == m[j]
    {
      if j > 0 {
        assert s.lanes[j] == BackPartialLane(st.lanes[1..], LaneCount, j - 1);
      }
    }
    WalkBackCursors(st, LaneCount);
  }

  /**
   * The previous-matrix undoes the next-matrix: on lanes in [0, MBIG),
   * applying both modulo MBIG gives the lanes back.
   */
  lemma PreviousUndoesNext(v: seq<int>)
    requires |v| == LaneCount && forall t :: 0 <= t < LaneCount ==> 0 <= v[t] < MBIG
    ensures ApplyMod(PreviousMatrix(), ApplyMod(NextMatrix(), v, MBIG), MBIG) == v
  {
    var st := DotNetState([0] + v, 0, Gap);
    assert st.lanes[1..] == v;
    assert InRange(st.lanes) by {
      forall i | 1 <= i < ArrayLength
        ensures 0 <= st.lanes[i] < MBIG
      {
        assert st.lanes[i] == v[i - 1];
      }
    }
    var s := Walk(st, LaneCount);
    NextBlockIsWalk(st);
    WalkKeepsRange(st, LaneCount);
    assert s.lanes[1..] == ApplyMod(NextMatrix(), v, MBIG);
    PreviousBlockIsWalkBack(s);
    WalkBackUndoesWalk(st, LaneCount);
    assert WalkBack(s, LaneCount).lanes[1..] == v;
  }

  /** Two states with the same lanes and the same cursor positions are the same up to writing 0 as 55. */
  lemma SameCanonical(x: DotNetState, y: DotNetState)
    requires x.lanes == y.lanes && x.inext < ArrayLength && y.inext < ArrayLength
    requires x.inextp < ArrayLength && y.inextp < ArrayLength
    requires Pos(x.inext) == Pos(y.inext) && Pos(x.inextp) == Pos(y.inextp)
    ensures Canonical(x) == Canonical(y)
  {
    CanonPos(x.inext);
    CanonPos(y.inext);
    CanonPos(x.inextp);
    CanonPos(y.inextp);
  }

  /** After at least one step forward both cursors are non-zero, so the state is canonical. */
  lemma WalkIsCanonical(st: DotNetState, n: nat)
    requires Shaped(st) && n > 0
    ensures Canonical(Walk(st, n)) == Walk(st, n)
  {
    assert Walk(st, n) == Forward(Walk(st, n - 1)).1;
  }

  /** After at least one step back both cursors are non-zero, so the state is canonical. */
  lemma WalkBackIsCanonical(st: DotNetState, n: nat)
    requires Shaped(st) && st.inextp != 0 && n > 0
    ensures Canonical(WalkBack(st, n)) == WalkBack(st, n)
  {
    assert WalkBack(st, n) == Backward(WalkBack(st, n - 1)).1;
  }

  /** A state is its 56 lanes: SeedArray[0] and lanes 1..55. */
  lemma SplitLanes(a: seq<int>, b: seq<int>)
    requires |a| == ArrayLength && |b| == ArrayLength && a[0] == b[0] && a[1..] == b[1..]
    ensures a == b
  {
    assert a == [a[0]] + a[1..];
    assert b == [b[0]] + b[1..];
  }

  /** A jump by one block with M maps lanes 1..55 as M does modulo MBIG. */
  lemma JumpOne(st: DotNetState, M: Mat)
    requires Shaped(st) && InRange(st.lanes)
    ensures Jump(st, M, 1).lanes == st.lanes[..1] + ApplyMod(M, st.lanes[1..], MBIG)
  {
    var v := st.lanes[1..];
    var target := st.lanes[..1] + ApplyMod(M, v, MBIG);
    BlockStateIsProduct(st, Power(M, 1, LaneCount));
    PowerOne(M, LaneCount);
    ApplyResidues(Power(M, 1, LaneCount), M, v, MBIG);
    assert ApplyMod(Power(M, 1, LaneCount), v, MBIG) == ApplyMod(M, v, MBIG);
    assert target[1..] == ApplyMod(M, v, MBIG);
    SplitLanes(Jump(st, M, 1).lanes, target);
  }

  /** A jump of k >= 2 blocks is one block and then a jump of k - 1 blocks. */
  lemma JumpPeel(st: DotNetState, st1: DotNetState, M: Mat, k: nat)
    requires Shaped(st) && InRange(st.lanes) && Shaped(st1) && InRange(st1.lanes) && k >= 2
    requires st1.lanes == st.lanes[..1] + ApplyMod(M, st.lanes[1..], MBIG)
    ensures Jump(st, M, k).lanes == Jump(st1, M, k - 1).lanes
  {
    var v := st.lanes[1..];
    var P := Power(M, k - 1, LaneCount);
    BlockStateIsProduct(st, Power(M, k, LaneCount));
    BlockStateIsProduct(st1, P);
    ApplyProduct(P, M, v, MBIG);
    assert st1.lanes[1..] == ApplyMod(M, v, MBIG);
    SplitLanes(Jump(st, M, k).lanes, Jump(st1, M, k - 1).lanes);
  }

  /** a + b steps are a steps and then b steps. */
  lemma {:induction false} WalkAdd(st: DotNetState, a: nat, b: nat)
    requires Shaped(st)
    ensures Walk(st, a + b) == Walk(Walk(st, a), b)
  {
    if b == 0 {
      assert Walk(Walk(st, a), 0) == Walk(st, a);
    } else {
      var w := Walk(st, a);
      var x := Walk(st, a + (b - 1));
      var z := Walk(w, b - 1);
      WalkAdd(st, a, b - 1);
      assert x == z;
      assert Walk(st, a + b) == Forward(x).1;
      assert Walk(w, b) == Forward(z).1;
    }
  }

  /** a + b steps back are a steps back and then b steps back. */
  lemma {:induction false} WalkBackAdd(st: DotNetState, a: nat, b: nat)
    requires Shaped(st) && st.inextp != 0
    ensures WalkBack(st, a + b) == WalkBack(WalkBack(st, a), b)
  {
    if b == 0 {
      assert WalkBack(WalkBack(st, a), 0) == WalkBack(st, a);
    } else {
      var w := WalkBack(st, a);
      var x := WalkBack(st, a + (b - 1));
      var z := WalkBack(w, b - 1);
      WalkBackAdd(st, a, b - 1);
      assert x == z;
      assert WalkBack(st, a + b) == Backward(x).1;
      assert WalkBack(w, b) == Backward(z).1;
    }
  }

  /** The first of n steps can be taken first. */
  lemma {:induction false} WalkPeel(st: DotNetState, n: nat)
    requires Shaped(st) && n > 0
    ensures Walk(st, n) == Walk(Forward(st).1, n - 1)
  {
    if n > 1 {
      WalkPeel(st, n - 1);
    }
  }

  /**
   * From in-range lanes with the cursor gap, n steps forward undo n steps
   * back, up to writing a cursor 0 as 55.
   */
  lemma {:induction false} WalkUndoesWalkBack(st: DotNetState, n: nat)
    requires Shaped(st) && st.inextp != 0 && InRange(st.lanes) && CursorGap(st) && n > 0
    ensures Walk(WalkBack(st, n), n) == Canonical(st)
  {
    var mid := WalkBack(st, n - 1);
    var b := WalkBack(st, n);
    calc {
      Walk(b, n);
      { WalkPeel(b, n); }
      Walk(Forward(b).1, n - 1);
      { UndoFirstStep(st, n); }
      Walk(Canonical(mid), n - 1);
    }
    if n > 1 {
      calc {
        Walk(Canonical(mid), n - 1);
        { WalkBackIsCanonical(st, n - 1); }
        Walk(mid, n - 1);
        { WalkUndoesWalkBack(st, n - 1); }
        Canonical(st);
      }
    }
  }

  /** Next reads cursor 0 as 55: states equal up to that step to the same state. */
  lemma ForwardCanonical(x: DotNetState, y: DotNetState)
    requires Shaped(x) && Shaped(y) && Canonical(x) == Canonical(y)
    ensures Forward(x).1 == Forward(y).1
  {
  }

  /** Previous reads inext 0 as 55: states equal up to that, with inextp non-zero, step back to the same state. */
  lemma BackwardCanonical(x: DotNetState, y: DotNetState)
    requires Shaped(x) && Shaped(y) && x.inextp != 0 && y.inextp != 0 && Canonical(x) == Canonical(y)
    ensures Backward(x).1 == Backward(y).1
  {
  }

  /** The first step forward from n steps back undoes the last of them. */
  lemma UndoFirstStep(st: DotNetState, n: nat)
    requires Shaped(st) && st.inextp != 0 && InRange(st.lanes) && CursorGap(st) && n > 0
    ensures Forward(WalkBack(st, n)).1 == Canonical(WalkBack(st, n - 1))
  {
    var mid := WalkBack(st, n - 1);
    assert WalkBack(st, n) == Backward(mid).1;
    WalkBackKeepsRange(st, n - 1);
    ForwardUndoesBackward(mid);
  }

  /** Walking from states equal up to writing 0 as 55 ends in states equal up to the same. */
  lemma StepsCanonical(x: DotNetState, y: DotNetState, r: int)
    requires Shaped(x) && Shaped(y) && x.inextp != 0 && y.inextp != 0 && Canonical(x) == Canonical(y)
    ensures Canonical(Steps(x, r)) == Canonical(Steps(y, r))
  {
    if r > 0 {
      ForwardCanonical(x, y);
      WalkPeel(x, r);
      WalkPeel(y, r);
    } else if r < 0 {
      BackwardCanonical(x, y);
      WalkBackPeel(x, -r);
      WalkBackPeel(y, -r);
    }
  }

  /** One block forward from an aligned state is aligned again, and is a jump by one block. */
  lemma NextBlock(st: DotNetState)
    requires Aligned(st)
    ensures Aligned(Walk(st, LaneCount))
    ensures Walk(st, LaneCount).lanes == st.lanes[..1] + ApplyMod(NextMatrix(), st.lanes[1..], MBIG)
    ensures Canonical(Jump(st, NextMatrix(), 1)) == Canonical(Walk(st, LaneCount))
  {
    NextBlockIsWalk(st);
    WalkKeepsRange(st, LaneCount);
    JumpOne(st, NextMatrix());
    SameCanonical(Jump(st, NextMatrix(), 1), Walk(st, LaneCount));
  }

  /** One block back from an aligned state is aligned again, and is a jump by one block. */
  lemma PreviousBlock(st: DotNetState)
    requires Aligned(st)
    ensures st.inextp != 0 && Aligned(WalkBack(st, LaneCount))
    ensures WalkBack(st, LaneCount).lanes == st.lanes[..1] + ApplyMod(PreviousMatrix(), st.lanes[1..], MBIG)
    ensures Canonical(Jump(st, PreviousMatrix(), 1)) == Canonical(WalkBack(st, LaneCount))
  {
    assert st.inextp == Gap;
    PreviousBlockIsWalkBack(st);
    WalkBackKeepsRange(st, LaneCount);
    JumpOne(st, PreviousMatrix());
    SameCanonical(Jump(st, PreviousMatrix(), 1), WalkBack(st, LaneCount));
  }

  /** Between aligned states one block apart, a jump of k >= 2 blocks is a jump of k - 1 blocks from the later one. */
  lemma JumpPeelCanonical(st: DotNetState, st1: DotNetState, M: Mat, k: nat)
    requires Aligned(st) && Aligned(st1) && k >= 2 && st1.inextp == st.inextp
    requires st1.lanes == st.lanes[..1] + ApplyMod(M, st.lanes[1..], MBIG)
    ensures Canonical(Jump(st, M, k)) == Canonical(Jump(st1, M, k - 1))
  {
    JumpPeel(st, st1, M, k);
    SameCanonical(Jump(st, M, k), Jump(st1, M, k - 1));
  }

  /** From an aligned state, a jump of k blocks with the next-matrix is 55·k calls of Next, up to writing 0 as 55. */
  lemma {:induction false} JumpIsWalk(st: DotNetState, k: nat)
    requires Aligned(st)
    ensures Canonical(Jump(st, NextMatrix(), k)) == Canonical(Walk(st, LaneCount * k))
    decreases k
  {
    if k > 0 {
      var st1 := Walk(st, LaneCount);
      NextBlock(st);
      if k > 1 {
        calc {
          Canonical(Jump(st, NextMatrix(), k));
          { JumpPeelCanonical(st, st1, NextMatrix(), k); }
          Canonical(Jump(st1, NextMatrix(), k - 1));
          { JumpIsWalk(st1, k - 1); }
          Canonical(Walk(st1, LaneCount * (k - 1)));
          { WalkAdd(st, LaneCount, LaneCount * (k - 1)); }
          Canonical(Walk(st, LaneCount * k));
        }
      }
    }
  }

  /** From an aligned state, a jump of k blocks with the previous-matrix is 55·k calls of Previous, up to writing 0 as 55. */
  lemma {:induction false} JumpBackIsWalkBack(st: DotNetState, k: nat)
    requires Aligned(st)
    ensures st.inextp != 0
    ensures Canonical(Jump(st, PreviousMatrix(), k)) == Canonical(WalkBack(st, LaneCount * k))
    decreases k
  {
    assert st.inextp == Gap;
    if k > 0 {
      var st1 := WalkBack(st, LaneCount);
      PreviousBlock(st);
      if k > 1 {
        calc {
          Canonical(Jump(st, PreviousMatrix(), k));
          { JumpPeelCanonical(st, st1, PreviousMatrix(), k); }
          Canonical(Jump(st1, PreviousMatrix(), k - 1));
          { JumpBackIsWalkBack(st1, k - 1); }
          Canonical(WalkBack(st1, LaneCount * (k - 1)));
          { WalkBackAdd(st, LaneCount, LaneCount * (k - 1)); }
          Canonical(WalkBack(st, LaneCount * k));
        }
      }
    }
  }

  /**
   * SeekAhead's plan for an offset of at least 55 (step inext to position
   * 0, jump whole blocks, step the residual either way) ends in the state
   * of offset calls of Next, up to writing inext 0 as 55.
   */
  lemma AheadPlanIsWalk(st: DotNetState, offset: nat)
    requires Shaped(st) && st.inextp != 0 && InRange(st.lanes) && CursorGap(st) && offset >= LaneCount
    ensures var (alignment, blocks, residual) := AheadPlan(offset, st.inext);
      Canonical(Steps(Jump(Walk(st, alignment), NextMatrix(), blocks), residual)) == Walk(st, offset)
  {
    var plan := AheadPlan(offset, st.inext);
    AheadPlanAddsUp(offset, st.inext);
    AlignedJumpIsWalk(st, plan.0, plan.1, plan.2, offset);
    WalkIsCanonical(st, offset);
  }

  /** Steps to position 0, then b blocks, then r steps either way, are a + 55·b + r steps. */
  lemma AlignedJumpIsWalk(st: DotNetState, a: nat, b: nat, r: int, offset: nat)
    requires Shaped(st) && st.inextp != 0 && InRange(st.lanes) && CursorGap(st)
    requires (Pos(st.inext) + a) % LaneCount == 0 && a + LaneCount * b + r == offset && a + LaneCount * b > 0
    ensures Canonical(Steps(Jump(Walk(st, a), NextMatrix(), b), r)) == Canonical(Walk(st, offset))
  {
    var j := Jump(Walk(st, a), NextMatrix(), b);
    var w := Walk(st, a + LaneCount * b);
    calc {
      Canonical(Steps(j, r));
      { AlignedBlocks(st, a, b); StepsCanonical(j, w, r); }
      Canonical(Steps(w, r));
      { ResidualIsWalk(st, a + LaneCount * b, r, offset); }
      Canonical(Walk(st, offset));
    }
  }

  /** Steps to position 0 and then b blocks are a + 55·b steps, up to writing 0 as 55. */
  lemma AlignedBlocks(st: DotNetState, a: nat, b: nat)
    requires Shaped(st) && InRange(st.lanes) && CursorGap(st) && (Pos(st.inext) + a) % LaneCount == 0
    ensures Canonical(Jump(Walk(st, a), NextMatrix(), b)) == Canonical(Walk(st, a + LaneCount * b))
  {
    var s0 := Walk(st, a);
    calc {
      Canonical(Jump(s0, NextMatrix(), b));
      { AlignedAfterWalk(st, a); JumpIsWalk(s0, b); }
      Canonical(Walk(s0, LaneCount * b));
      { WalkAdd(st, a, LaneCount * b); }
      Canonical(Walk(st, a + LaneCount * b));
    }
  }

  /** Walking inext to position 0 gives an aligned state. */
  lemma AlignedAfterWalk(st: DotNetState, a: nat)
    requires Shaped(st) && InRange(st.lanes) && CursorGap(st) && (Pos(st.inext) + a) % LaneCount == 0
    ensures Aligned(Walk(st, a))
  {
    WalkCursors(st, a);
    WalkKeepsRange(st, a);
  }

  /** m > 0 steps and then r steps either way are m + r steps, up to writing 0 as 55. */
  lemma ResidualIsWalk(st: DotNetState, m: nat, r: int, offset: nat)
    requires Shaped(st) && InRange(st.lanes) && CursorGap(st) && m > 0 && m + r == offset
    ensures Canonical(Steps(Walk(st, m), r)) == Canonical(Walk(st, offset))
  {
    if r >= 0 {
      WalkAdd(st, m, r);
    } else {
      OvershootIsWalk(st, offset, -r);
    }
  }

  /** offset + k steps and then k > 0 steps back are offset steps, up to writing 0 as 55. */
  lemma OvershootIsWalk(st: DotNetState, offset: nat, k: nat)
    requires Shaped(st) && InRange(st.lanes) && CursorGap(st) && k > 0
    ensures WalkBack(Walk(st, offset + k), k) == Canonical(Walk(st, offset))
  {
    WalkAdd(st, offset, k);
    WalkKeepsRange(st, offset);
    WalkBackUndoesWalk(Walk(st, offset), k);
  }

  /**
   * SeekBack's plan for an offset of at least 55 (step inext back to
   * position 0, jump whole blocks back, step the residual either way)
   * ends in the state of offset calls of Previous, up to writing inext 0
   * as 55.
   */
  lemma BackPlanIsWalkBack(st: DotNetState, offset: nat)
    requires Shaped(st) && st.inextp != 0 && InRange(st.lanes) && CursorGap(st) && offset >= LaneCount
    ensures var (alignment, blocks, residual) := BackPlan(offset, st.inext);
      Canonical(Steps(Jump(WalkBack(st, alignment), PreviousMatrix(), blocks), residual)) == WalkBack(st, offset)
  {
    var plan := BackPlan(offset, st.inext);
    BackPlanAddsUp(offset, st.inext);
    AlignedJumpBackIsWalkBack(st, plan.0, plan.1, plan.2, offset);
    WalkBackIsCanonical(st, offset);
  }

  /** a steps back to position 0, then b blocks back, then r steps either way, are a + 55·b - r steps back. */
  lemma AlignedJumpBackIsWalkBack(st: DotNetState, a: nat, b: nat, r: int, offset: nat)
    requires Shaped(st) && st.inextp != 0 && InRange(st.lanes) && CursorGap(st)
    requires a == Pos(st.inext) && a + LaneCount * b - r == offset
    ensures Canonical(Steps(Jump(WalkBack(st, a), PreviousMatrix(), b), r)) == Canonical(WalkBack(st, offset))
  {
    var j := Jump(WalkBack(st, a), PreviousMatrix(), b);
    var w := WalkBack(st, a + LaneCount * b);
    calc {
      Canonical(Steps(j, r));
      { AlignedBlocksBack(st, a, b); StepsCanonical(j, w, r); }
      Canonical(Steps(w, r));
      { ResidualIsWalkBack(st, a + LaneCount * b, r, offset); }
      Canonical(WalkBack(st, offset));
    }
  }

  /** a steps back to position 0 and then b blocks back are a + 55·b steps back, up to writing 0 as 55. */
  lemma AlignedBlocksBack(st: DotNetState, a: nat, b: nat)
    requires Shaped(st) && st.inextp != 0 && InRange(st.lanes) && CursorGap(st) && a == Pos(st.inext)
    ensures Canonical(Jump(WalkBack(st, a), PreviousMatrix(), b)) == Canonical(WalkBack(st, a + LaneCount * b))
  {
    var s0 := WalkBack(st, a);
    calc {
      Canonical(Jump(s0, PreviousMatrix(), b));
      { AlignedAfterWalkBack(st, a); JumpBackIsWalkBack(s0, b); }
      Canonical(WalkBack(s0, LaneCount * b));
      { WalkBackAdd(st, a, LaneCount * b); }
      Canonical(WalkBack(st, a + LaneCount * b));
    }
  }

  /** Walking inext back to position 0 gives an aligned state. */
  lemma AlignedAfterWalkBack(st: DotNetState, a: nat)
    requires Shaped(st) && st.inextp != 0 && InRange(st.lanes) && CursorGap(st) && a == Pos(st.inext)
    ensures Aligned(WalkBack(st, a))
  {
    WalkBackCursors(st, a);
    WalkBackKeepsRange(st, a);
  }

  /** m steps back and then r steps either way are m - r steps back, up to writing 0 as 55. */
  lemma ResidualIsWalkBack(st: DotNetState, m: nat, r: int, offset: nat)
    requires Shaped(st) && st.inextp != 0 && InRange(st.lanes) && CursorGap(st) && m - r == offset
    ensures Canonical(Steps(WalkBack(st, m), r)) == Canonical(WalkBack(st, offset))
  {
    if r <= 0 {
      WalkBackAdd(st, m, -r);
    } else {
      OvershootIsWalkBack(st, offset, r);
    }
  }

  /** offset + k steps back and then k > 0 steps forward are offset steps back, up to writing 0 as 55. */
  lemma OvershootIsWalkBack(st: DotNetState, offset: nat, k: nat)
    requires Shaped(st) && st.inextp != 0 && InRange(st.lanes) && CursorGap(st) && k > 0
    ensures Walk(WalkBack(st, offset + k), k) == Canonical(WalkBack(st, offset))
  {
    WalkBackAdd(st, offset, k);
    WalkBackKeepsRange(st, offset);
    WalkUndoesWalkBack(WalkBack(st, offset), k);
  }
}

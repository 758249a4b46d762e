/**
 * PrngGlibc3: glibc's random() with the default TYPE_3 state, an additive
 * lagged-Fibonacci generator over 31 uint lanes. The front cursor fptr runs
 * three lanes ahead of the rear cursor rptr; a step adds the rear lane into
 * the front lane modulo 2^32, advances both cursors and outputs the new
 * lane shifted right by one. Seeking jumps over whole blocks of 31 steps
 * with a 31-by-31 transition matrix raised to a power modulo 2^32.
 */
module Glibc3 {
  import opened Common
  import opened Matrices
  import LcgBase

  const LaneCount: nat := 31
  /** The distance from the rear cursor to the front cursor after seeding. */
  const Separation: nat := 3
  const MinimumSeed: nat := 1
  const MaximumSeed: nat := TWO32 - 1
  const CanReverse: bool := true
  const CanSeek: bool := true
  /** The Park-Miller minimal standard generator that fills the lanes when seeding. */
  const SeedMultiplier: nat := 16807
  const SeedModulus: nat := 2147483647
  /** The number of outputs the seeding discards. */
  const Discarded: nat := 310

  /** The generator's state as a value: the 31 lanes and the two cursors. */
  datatype Glibc3State = Glibc3State(lanes: seq<nat>, fptr: nat, rptr: nat)

  /** 31 lanes of 32 bits and cursors that index them. */
  ghost predicate Shaped(st: Glibc3State) {
    |st.lanes| == LaneCount && st.fptr < LaneCount && st.rptr < LaneCount &&
    forall i :: 0 <= i < LaneCount ==> st.lanes[i] < TWO32
  }

  /** The front cursor is Separation lanes ahead of the rear cursor, cyclically. */
  ghost predicate CursorGap(st: Glibc3State) {
    st.fptr == (st.rptr + Separation) % LaneCount
  }

  function Advance(c: nat): nat {
    if c + 1 >= LaneCount then 0 else c + 1
  }

  function Retreat(c: nat): nat {
    if c == 0 then LaneCount - 1 else c - 1
  }

  /** Next on the state value: the output and the new state. */
  function Forward(st: Glibc3State): (r: (nat, Glibc3State))
    requires Shaped(st)
    ensures Shaped(r.1)
  {
    var sum := (st.lanes[st.fptr] + st.lanes[st.rptr]) % TWO32;
    (sum / 2, Glibc3State(st.lanes[st.fptr := sum], Advance(st.fptr), Advance(st.rptr)))
  }

  /** Previous on the state value: the output it undoes and the earlier state. */
  function Backward(st: Glibc3State): (r: (nat, Glibc3State))
    requires Shaped(st)
    ensures Shaped(r.1)
  {
    var f, rr := Retreat(st.fptr), Retreat(st.rptr);
    var current := st.lanes[f];
    (current / 2, Glibc3State(st.lanes[f := (current as int - st.lanes[rr]) % TWO32], f, rr))
  }

  /**
   * Previous after Next restores the lanes and the cursors and returns the
   * value Next returned; the cursors only have to differ, which the cursor
   * gap guarantees.
   */
  lemma BackwardUndoesForward(st: Glibc3State)
    requires Shaped(st) && st.fptr != st.rptr
    ensures Backward(Forward(st).1).1 == st
    ensures Backward(Forward(st).1).0 == Forward(st).0
  {
    var f, r := st.fptr, st.rptr;
    var sum := (st.lanes[f] + st.lanes[r]) % TWO32;
    ModSub(st.lanes[f] + st.lanes[r], st.lanes[r], TWO32);
    ModSmall(st.lanes[f], TWO32);
    ModSmall(st.lanes[r], TWO32);
    assert (sum - st.lanes[r]) % TWO32 == st.lanes[f];
    assert Backward(Forward(st).1).1.lanes == st.lanes;
  }

  /** Next after Previous restores the state and returns the value Previous returned. */
  lemma ForwardUndoesBackward(st: Glibc3State)
    requires Shaped(st) && st.fptr != st.rptr
    ensures Forward(Backward(st).1).1 == st
    ensures Forward(Backward(st).1).0 == Backward(st).0
  {
    var f, r := Retreat(st.fptr), Retreat(st.rptr);
    var diff := (st.lanes[f] as int - st.lanes[r]) % TWO32;
    ModAdd(st.lanes[f] as int - st.lanes[r], st.lanes[r], TWO32);
    ModSmall(st.lanes[f], TWO32);
    ModSmall(st.lanes[r], TWO32);
    assert (diff + st.lanes[r]) % TWO32 == st.lanes[f];
    assert Forward(Backward(st).1).1.lanes == st.lanes;
  }

  /** Next and Previous both keep the front cursor Separation lanes ahead of the rear one. */
  lemma StepsKeepCursorGap(st: Glibc3State)
    requires Shaped(st) && CursorGap(st)
    ensures CursorGap(Forward(st).1) && CursorGap(Backward(st).1)
    ensures Forward(st).1.fptr != Forward(st).1.rptr
  {
  }

  /** n calls of Next. */
  function Walk(st: Glibc3State, n: nat): (r: Glibc3State)
    requires Shaped(st)
    ensures Shaped(r)
  {
    if n == 0 then st else Forward(Walk(st, n - 1)).1
  }

  /** n calls of Previous. */
  function WalkBack(st: Glibc3State, n: nat): (r: Glibc3State)
    requires Shaped(st)
    ensures Shaped(r)
  {
    if n == 0 then st else Backward(WalkBack(st, n - 1)).1
  }

  /** Step(offset): Next offset times, or Previous -offset times when offset is negative. */
  function Steps(st: Glibc3State, offset: int): (r: Glibc3State)
    requires Shaped(st)
    ensures Shaped(r)
  {
    if offset >= 0 then Walk(st, offset) else WalkBack(st, -offset)
  }

  /** n steps forward move both cursors n lanes forward, cyclically; the lanes only change. */
  lemma {:induction false} WalkCursors(st: Glibc3State, n: nat)
    requires Shaped(st)
    ensures Walk(st, n).fptr == (st.fptr + n) % LaneCount
    ensures Walk(st, n).rptr == (st.rptr + n) % LaneCount
  {
    if n > 0 {
      WalkCursors(st, n - 1);
      ForwardCursors(Walk(st, n - 1), st.fptr, st.rptr, n);
    }
  }

  /** One step forward moves cursors at f + n - 1 and r + n - 1 (mod 31) to f + n and r + n. */
  lemma ForwardCursors(prev: Glibc3State, f: nat, r: nat, n: nat)
    requires Shaped(prev) && n > 0
    requires prev.fptr == (f + (n - 1)) % LaneCount && prev.rptr == (r + (n - 1)) % LaneCount
    ensures Forward(prev).1.fptr == (f + n) % LaneCount && Forward(prev).1.rptr == (r + n) % LaneCount
  {
    AdvanceMod(f + (n - 1), prev.fptr);
    AdvanceMod(r + (n - 1), prev.rptr);
  }

  /** Advancing a cursor is adding one modulo the lane count. */
  lemma AdvanceMod(c: nat, m: nat)
    requires m == c % LaneCount
    ensures Advance(m) == (c + 1) % LaneCount
  {
  }

  /** Retreating a cursor is subtracting one modulo the lane count. */
  lemma RetreatMod(c: int, m: nat)
    requires m == c % LaneCount
    ensures Retreat(m) == (c - 1) % LaneCount
  {
  }

  /** n steps back move both cursors n lanes back, cyclically. */
  lemma {:induction false} WalkBackCursors(st: Glibc3State, n: nat)
    requires Shaped(st)
    ensures WalkBack(st, n).fptr == (st.fptr - n) % LaneCount
    ensures WalkBack(st, n).rptr == (st.rptr - n) % LaneCount
  {
    if n > 0 {
      var prev := WalkBack(st, n - 1);
      WalkBackCursors(st, n - 1);
      assert WalkBack(st, n).fptr == Retreat(prev.fptr) && WalkBack(st, n).rptr == Retreat(prev.rptr);
      assert Retreat(prev.fptr) == (st.fptr - n) % LaneCount by {
        RetreatMod(st.fptr - (n - 1), prev.fptr);
      }
      assert Retreat(prev.rptr) == (st.rptr - n) % LaneCount by {
        RetreatMod(st.rptr - (n - 1), prev.rptr);
      }
    }
  }

  /** Walking back undoes walking forward, for a state with the cursor gap. */
  lemma {:induction false} WalkBackUndoesWalk(st: Glibc3State, n: nat)
    requires Shaped(st) && CursorGap(st)
    ensures CursorGap(Walk(st, n))
    ensures WalkBack(Walk(st, n), n) == st
  {
    if n > 0 {
      var mid := Walk(st, n - 1);
      WalkBackUndoesWalk(st, n - 1);
      StepsKeepCursorGap(mid);
      BackwardUndoesForward(mid);
      WalkBackPeel(Walk(st, n), n);
    }
  }

  /** The first of n steps back can be taken first. */
  lemma {:induction false} WalkBackPeel(st: Glibc3State, n: nat)
    requires Shaped(st) && n > 0
    ensures WalkBack(st, n) == WalkBack(Backward(st).1, n - 1)
  {
    if n > 1 {
      WalkBackPeel(st, n - 1);
    }
  }

  // ---------------------------------------------------------------------
  // Seeding
  // ---------------------------------------------------------------------

  /** Lane i after the seeding fill: the truncated seed, then the minimal standard sequence. */
  function SeedLane(seed: nat, i: nat): (r: nat)
    ensures r < TWO32
  {
    if i == 0 then seed % TWO32 else (SeedMultiplier * SeedLane(seed, i - 1)) % SeedModulus
  }

  function SeedLanes(seed: nat): seq<nat> {
    seq(LaneCount, i requires 0 <= i < LaneCount => SeedLane(seed, i))
  }

  /**
   * Lane i (i >= 1) of the fill is 16807^i times the truncated seed modulo
   * 2^31 - 1: the fill is the Park-Miller sequence started at the seed.
   */
  lemma {:induction false} SeedLaneIsMinimalStandard(seed: nat, i: nat)
    requires i >= 1
    ensures SeedLane(seed, i) == (Pow(SeedMultiplier, i) * (seed % TWO32)) % SeedModulus
    ensures SeedLane(seed, i) < SeedModulus
  {
    if i == 1 {
      assert Pow(SeedMultiplier, 1) == SeedMultiplier;
    } else {
      SeedLaneIsMinimalStandard(seed, i - 1);
      var x := Pow(SeedMultiplier, i - 1) * (seed % TWO32);
      ModMul(SeedMultiplier, x, SeedModulus);
      ModMul(SeedMultiplier, SeedLane(seed, i - 1), SeedModulus);
      ModSmall(SeedMultiplier, SeedModulus);
      ModOfMod(x, SeedModulus);
      assert Pow(SeedMultiplier, i) == SeedMultiplier * Pow(SeedMultiplier, i - 1);
      assert SeedMultiplier * x == Pow(SeedMultiplier, i) * (seed % TWO32);
    }
  }

  /** The state Seed reaches: the fill with fptr = 3 and rptr = 0, after 310 discarded outputs. */
  ghost function SeededState(seed: nat): (r: Glibc3State)
    ensures Shaped(r)
  {
    Walk(Glibc3State(SeedLanes(seed), Separation, 0), Discarded)
  }

  /** Seeding leaves the cursors where the fill put them (310 is a multiple of 31), with the gap. */
  lemma SeededCursors(seed: nat)
    ensures SeededState(seed).fptr == Separation && SeededState(seed).rptr == 0
    ensures CursorGap(SeededState(seed))
  {
    WalkCursors(Glibc3State(SeedLanes(seed), Separation, 0), Discarded);
  }

  // ---------------------------------------------------------------------
  // Seeking
  // ---------------------------------------------------------------------

  /**
   * How SeekAhead splits an offset of at least 31: steps that bring rptr
   * to lane 0, whole blocks of 31 steps, and a residual of at most 15
   * steps either way (one block too many and steps back when the remainder
   * is 16 or more).
   */
  function AheadPlan(offset: nat, rptr: nat): (nat, nat, int)
    requires rptr < LaneCount && offset >= LaneCount
  {
    var alignment := if rptr != 0 then LaneCount - rptr else 0;
    var (blocks, residual) := AheadSplit(offset - alignment);
    (alignment, blocks, residual)
  }

  /** The blocks and the residual of the steps SeekAhead takes once rptr is at lane 0. */
  function AheadSplit(rest: nat): (nat, int) {
    if rest % LaneCount >= 16 then (rest / LaneCount + 1, rest % LaneCount - LaneCount)
    else (rest / LaneCount, rest % LaneCount)
  }

  /** The forward plan adds up to the offset, aligns rptr to lane 0 and leaves at most 15 steps. */
  lemma AheadPlanAddsUp(offset: nat, rptr: nat)
    requires rptr < LaneCount && offset >= LaneCount
    ensures var (alignment, blocks, residual) := AheadPlan(offset, rptr);
      alignment + LaneCount * blocks + residual == offset &&
      -15 <= residual <= 15 && alignment < LaneCount && (rptr + alignment) % LaneCount == 0
  {
  }

  /**
   * How SeekBack splits an offset of at least 31: rptr steps back to lane
   * 0, whole blocks of 31 steps back, and a residual of at most 15 steps
   * either way (positive residuals step forward).
   */
  function BackPlan(offset: nat, rptr: nat): (nat, nat, int)
    requires rptr < LaneCount && offset >= LaneCount
  {
    var (blocks, residual) := BackSplit(offset - rptr);
    (rptr, blocks, residual)
  }

  /** The blocks and the residual of the steps SeekBack takes once rptr is at lane 0. */
  function BackSplit(rest: nat): (nat, int) {
    if -(rest % LaneCount) <= -16 then (rest / LaneCount + 1, LaneCount - rest % LaneCount)
    else (rest / LaneCount, -(rest % LaneCount))
  }

  /** The backward plan adds up to the offset, aligns rptr to lane 0 and leaves at most 15 steps. */
  lemma BackPlanAddsUp(offset: nat, rptr: nat)
    requires rptr < LaneCount && offset >= LaneCount
    ensures var (alignment, blocks, residual) := BackPlan(offset, rptr);
      alignment + LaneCount * blocks - residual == offset &&
      -15 <= residual <= 15 && alignment == rptr
  {
  }

  /** A jump of blocks applications of a transition matrix to the lanes, modulo 2^32. */
  function Jump(st: Glibc3State, M: Mat, blocks: nat): (r: Glibc3State)
    requires Shaped(st)
    ensures Shaped(r)
  {
    if blocks == 0 then st
    else Glibc3State(ApplyMod(Power(M, blocks, LaneCount), st.lanes, TWO32), st.fptr, st.rptr)
  }

  /**
   * Entry (i, j) of the matrix for 31 steps from rptr = 0: lane i (i >= 3)
   * becomes the sum of lanes i, i-3, i-6, ... down to 0, and lanes 0..2
   * also take in the new lane i + 28.
   */
  function NextEntry(i: nat, j: nat): nat {
    (if j <= i && (i - j) % 3 == 0 then 1 else 0) +
    (if i < 3 && j <= i + 28 && (i + 28 - j) % 3 == 0 then 1 else 0)
  }

  /**
   * Entry (i, j) of the documented inverse: column j < 28 is e_j - e_(j+3);
   * column j >= 28 is e_(j-25) + e_j - e_(j-28); -1 is written 2^32 - 1.
   */
  function PreviousEntry(i: nat, j: nat): nat {
    if j < 28 then (if i == j then 1 else if i == j + 3 then TWO32 - 1 else 0)
    else if i == j - 28 then TWO32 - 1
    else if i == j - 25 || i == j then 1
    else 0
  }

  function NextMatrix(): Mat {
    seq(LaneCount, i requires 0 <= i < LaneCount => seq(LaneCount, j requires 0 <= j < LaneCount => NextEntry(i, j) as int))
  }

  function PreviousMatrix(): Mat {
    seq(LaneCount, i requires 0 <= i < LaneCount => seq(LaneCount, j requires 0 <= j < LaneCount => PreviousEntry(i, j) as int))
  }

  // ---------------------------------------------------------------------
  // Matrix routines
  // ---------------------------------------------------------------------

  /** GenerateNextMatrix: fills rows by the every-third pattern, then folds rows 28..30 into rows 0..2. */
  method GenerateNextMatrix() returns (matrix: array2<nat>)
    ensures fresh(matrix) && IsMatrix(matrix, LaneCount, TWO32)
    ensures Entries(matrix) == NextMatrix()
  {
    matrix := new nat[LaneCount, LaneCount]((i, j) => 0);
    for i := 0 to LaneCount
      invariant forall i', j' :: 0 <= i' < LaneCount && 0 <= j' < LaneCount ==>
        matrix[i', j'] == if i' < i && j' <= i' && (i' - j') % 3 == 0 then 1 else 0
    {
      var j: int := i;
      while j >= 0
        invariant -3 <= j <= i && (i - j) % 3 == 0
        invariant forall i', j' :: 0 <= i' < LaneCount && 0 <= j' < LaneCount ==>
          matrix[i', j'] == if (i' < i || (i' == i && j' > j)) && j' <= i' && (i' - j') % 3 == 0 then 1 else 0
      {
        matrix[i, j] := 1;
        j := j - 3;
      }
    }
    for i := 0 to 3
      invariant forall i', j' :: 0 <= i' < LaneCount && 0 <= j' < LaneCount ==>
        matrix[i', j'] == if i' < i then NextEntry(i', j') else if j' <= i' && (i' - j') % 3 == 0 then 1 else 0
    {
      for j := 0 to LaneCount
        invariant forall i', j' :: 0 <= i' < LaneCount && 0 <= j' < LaneCount ==>
          matrix[i', j'] == if i' < i || (i' == i && j' < j) then NextEntry(i', j') else if j' <= i' && (i' - j') % 3 == 0 then 1 else 0
      {
        matrix[i, j] := matrix[i, j] + matrix[i + 28, j];
      }
    }
    EntriesEqual(matrix, NextMatrix(), LaneCount);
  }

  /** GeneratePreviousMatrix: the documented inverse, written column by column. */
  method GeneratePreviousMatrix() returns (matrix: array2<nat>)
    ensures fresh(matrix) && IsMatrix(matrix, LaneCount, TWO32)
    ensures Entries(matrix) == PreviousMatrix()
  {
    matrix := new nat[LaneCount, LaneCount]((i, j) => 0);
    for j := 0 to 28
      invariant forall i', j' :: 0 <= i' < LaneCount && 0 <= j' < LaneCount ==>
        matrix[i', j'] == if j' < j then PreviousEntry(i', j') else 0
    {
      matrix[j, j] := 1;
      matrix[j + 3, j] := TWO32 - 1;
    }
    for j := 28 to LaneCount
      invariant forall i', j' :: 0 <= i' < LaneCount && 0 <= j' < LaneCount ==>
        matrix[i', j'] == if j' < j then PreviousEntry(i', j') else 0
    {
      matrix[j - 28, j] := TWO32 - 1;
      matrix[j - 25, j] := 1;
      matrix[j, j] := 1;
    }
    EntriesEqual(matrix, PreviousMatrix(), LaneCount);
  }

  /**
   * MultiplyMatrix: destination = a b with every product and sum wrapped to
   * 32 bits (the 64-bit product of two uints cannot wrap), so each entry is
   * the exact dot product reduced modulo 2^32.
   */
  method MultiplyMatrix(destination: array2<nat>, a: array2<nat>, b: array2<nat>)
    requires destination.Length0 == LaneCount && destination.Length1 == LaneCount
    requires IsMatrix(a, LaneCount, TWO32) && IsMatrix(b, LaneCount, TWO32)
    requires destination != a && destination != b
    modifies destination
    ensures IsMatrix(destination, LaneCount, TWO32)
    ensures forall i, j :: 0 <= i < LaneCount && 0 <= j < LaneCount ==>
      destination[i, j] == Dot(Entries(a), Entries(b), i, j, LaneCount) % TWO32
  {
    ghost var A, B := Entries(a), Entries(b);
    for i := 0 to LaneCount
      invariant Entries(a) == A && Entries(b) == B
      invariant forall i', j' :: 0 <= i' < i && 0 <= j' < LaneCount ==>
        destination[i', j'] == Dot(A, B, i', j', LaneCount) % TWO32
    {
      for j := 0 to LaneCount
        invariant Entries(a) == A && Entries(b) == B
        invariant forall i', j' :: 0 <= i' < LaneCount && 0 <= j' < LaneCount && (i' < i || (i' == i && j' < j)) ==>
          destination[i', j'] == Dot(A, B, i', j', LaneCount) % TWO32
      {
        var accumulator := DotEntry(a, b, i, j);
        destination[i, j] := accumulator;
      }
    }
  }

  /** One entry of MultiplyMatrix: the products a[i, k] * b[k, j] summed in a wrapping uint accumulator. */
  method DotEntry(a: array2<nat>, b: array2<nat>, i: nat, j: nat) returns (accumulator: nat)
    requires IsMatrix(a, LaneCount, TWO32) && IsMatrix(b, LaneCount, TWO32) && i < LaneCount && j < LaneCount
    ensures accumulator == Dot(Entries(a), Entries(b), i, j, LaneCount) % TWO32
  {
    ghost var A, B := Entries(a), Entries(b);
    EntriesAt(a);
    EntriesAt(b);
    accumulator := 0;
    for k := 0 to LaneCount
      invariant accumulator == Dot(A, B, i, j, k) % TWO32
    {
      ModAdd(Dot(A, B, i, j, k), a[i, k] * b[k, j], TWO32);
      accumulator := (accumulator + (a[i, k] * b[k, j]) % TWO32) % TWO32;
    }
  }

  /** A fresh copy of a matrix (the Clone in BlockSeek). */
  method CloneMatrix(matrix: array2<nat>) returns (copy: array2<nat>)
    requires IsMatrix(matrix, LaneCount, TWO32)
    ensures fresh(copy) && IsMatrix(copy, LaneCount, TWO32) && Entries(copy) == Entries(matrix)
  {
    copy := new nat[LaneCount, LaneCount]((i, j) reads matrix => if 0 <= i < LaneCount && 0 <= j < LaneCount then matrix[i, j] else 0);
    EntriesEqual(copy, Entries(matrix), LaneCount);
  }

  /**
   * The square-and-multiply loop of BlockSeek: the seek matrix ends holding
   * matrix^blockOffset modulo 2^32. The source alternates two buffers for
   * each running matrix by a flag; swapping the references does the same.
   */
  method MatrixPower(matrix: array2<nat>, blockOffset: nat) returns (seek: array2<nat>)
    requires IsMatrix(matrix, LaneCount, TWO32)
    ensures fresh(seek) && IsMatrix(seek, LaneCount, TWO32)
    ensures SameResidues(Entries(seek), Power(Entries(matrix), blockOffset, LaneCount), LaneCount, TWO32)
  {
    ghost var M := Entries(matrix);
    var base, spare, seekSpare;
    base, spare, seek, seekSpare := PowerBuffers(matrix);
    var e := blockOffset;
    ghost var done: nat := 0;
    ghost var stride: nat := 1;
    while true
      invariant fresh(base) && fresh(spare) && fresh(seek) && fresh(seekSpare)
      invariant Buffers(base, spare, seek, seekSpare, LaneCount)
      invariant Entries(seek) == Reduce(Power(M, done, LaneCount), LaneCount, TWO32)
      invariant Entries(base) == Reduce(Power(M, stride, LaneCount), LaneCount, TWO32)
      invariant done + stride * e == blockOffset
      decreases e
    {
      Halve(done, stride, e);
      if e % 2 == 1 {
        MultiplyPowers(seekSpare, seek, base, M, done, stride);
        seek, seekSpare := seekSpare, seek;
        done := done + stride;
      }
      e := e / 2;
      assert done + (stride + stride) * e == blockOffset;
      if e == 0 {
        assert done == blockOffset;
        break;
      }
      MultiplyPowers(spare, base, base, M, stride, stride);
      base, spare := spare, base;
      stride := stride + stride;
    }
    ReducedHolds(seek, Power(M, blockOffset, LaneCount), LaneCount, TWO32);
  }

  /**
   * The buffers of BlockSeek: a copy of the matrix (its first power), the
   * identity (its zeroth power) as the seek matrix, and two scratch matrices.
   */
  method PowerBuffers(matrix: array2<nat>) returns (base: array2<nat>, spare: array2<nat>, seek: array2<nat>, seekSpare: array2<nat>)
    requires IsMatrix(matrix, LaneCount, TWO32)
    ensures fresh(base) && fresh(spare) && fresh(seek) && fresh(seekSpare)
    ensures Buffers(base, spare, seek, seekSpare, LaneCount)
    ensures Entries(seek) == Reduce(Power(Entries(matrix), 0, LaneCount), LaneCount, TWO32)
    ensures Entries(base) == Reduce(Power(Entries(matrix), 1, LaneCount), LaneCount, TWO32)
  {
    ghost var M := Entries(matrix);
    base := CloneMatrix(matrix);
    spare := new nat[LaneCount, LaneCount]((i, j) => 0);
    seek := new nat[LaneCount, LaneCount]((i, j) => if i == j then 1 else 0);
    seekSpare := new nat[LaneCount, LaneCount]((i, j) => 0);
    PowerOne(M, LaneCount);
    EntriesAt(seek);
    HoldsReduced(base, Power(M, 1, LaneCount), LaneCount, TWO32);
    HoldsReduced(seek, Power(M, 0, LaneCount), LaneCount, TWO32);
  }

  /**
   * destination := x y modulo 2^32; when x and y hold the powers a and b of
   * M reduced modulo 2^32, destination holds M^(a+b) reduced modulo 2^32.
   */
  method MultiplyPowers(destination: array2<nat>, x: array2<nat>, y: array2<nat>, ghost M: Mat, ghost a: nat, ghost b: nat)
    requires destination.Length0 == LaneCount && destination.Length1 == LaneCount
    requires x.Length0 == LaneCount && x.Length1 == LaneCount && y.Length0 == LaneCount && y.Length1 == LaneCount
    requires destination != x && destination != y
    requires Entries(x) == Reduce(Power(M, a, LaneCount), LaneCount, TWO32)
    requires Entries(y) == Reduce(Power(M, b, LaneCount), LaneCount, TWO32)
    modifies destination
    ensures Entries(destination) == Reduce(Power(M, a + b, LaneCount), LaneCount, TWO32)
  {
    ReducedHolds(x, Power(M, a, LaneCount), LaneCount, TWO32);
    ReducedHolds(y, Power(M, b, LaneCount), LaneCount, TWO32);
    MultiplyMatrix(destination, x, y);
    ProductEntries(destination, Entries(x), Entries(y), LaneCount, TWO32);
    PowerStep(M, Entries(x), Entries(y), Entries(destination), a, b, LaneCount, TWO32);
    HoldsReduced(destination, Power(M, a + b, LaneCount), LaneCount, TWO32);
  }

  /** Dafny-side names of the generator's uint lanes and int cursors. */
  class Glibc3Generator {
    const state: array<nat>
    var fptr: nat
    var rptr: nat
    const nextMatrix: array2<nat>
    const previousMatrix: array2<nat>

    ghost function Snapshot(): Glibc3State
      reads this, state
    {
      Glibc3State(state[..], fptr, rptr)
    }

    ghost predicate Valid()
      reads this, state, nextMatrix, previousMatrix
    {
      Shaped(Snapshot()) &&
      IsMatrix(nextMatrix, LaneCount, TWO32) && Entries(nextMatrix) == NextMatrix() &&
      IsMatrix(previousMatrix, LaneCount, TWO32) && Entries(previousMatrix) == PreviousMatrix()
    }

    /** The constructor builds both transition matrices and leaves the lanes and cursors zero. */
    constructor ()
      ensures Valid() && fresh(state)
      ensures Snapshot() == Glibc3State(seq(LaneCount, i => 0), 0, 0)
    {
      var next := GenerateNextMatrix();
      var previous := GeneratePreviousMatrix();
      state := new nat[LaneCount](i => 0);
      fptr, rptr := 0, 0;
      nextMatrix, previousMatrix := next, previous;
    }

    /** Next: the front lane takes in the rear lane, both cursors advance, the new lane shifted right by one is returned. */
    method Next() returns (r: nat)
      requires Valid()
      modifies this, state
      ensures Valid()
      ensures r == Forward(old(Snapshot())).0 && Snapshot() == Forward(old(Snapshot())).1
    {
      var next := (state[fptr] + state[rptr]) % TWO32;
      state[fptr] := next;
      fptr := if fptr + 1 >= LaneCount then 0 else fptr + 1;
      rptr := if rptr + 1 >= LaneCount then 0 else rptr + 1;
      r := next / 2;
    }

    /** Next(limit): the next output reduced modulo limit when 0 < limit <= 0x7FFFFFFF. */
    method NextLimit(limit: nat) returns (r: nat)
      requires Valid() && LcgBase.IsULong(limit)
      modifies this, state
      ensures Valid() && Snapshot() == Forward(old(Snapshot())).1
      ensures 0 < limit <= 0x7FFF_FFFF ==> r < limit && r == Forward(old(Snapshot())).0 % limit
      ensures !(0 < limit <= 0x7FFF_FFFF) ==> r == Forward(old(Snapshot())).0
    {
      r := Next();
      if limit != 0 && limit <= 0x7FFF_FFFF {
        r := r % limit;
      }
    }

    /** Previous: both cursors retreat, the front lane gives back the rear lane, and its former value shifted right by one is returned. */
    method Previous() returns (r: nat)
      requires Valid()
      modifies this, state
      ensures Valid()
      ensures r == Backward(old(Snapshot())).0 && Snapshot() == Backward(old(Snapshot())).1
    {
      fptr := if fptr == 0 then LaneCount - 1 else fptr - 1;
      rptr := if rptr == 0 then LaneCount - 1 else rptr - 1;
      var current := state[fptr];
      state[fptr] := (state[fptr] as int - state[rptr]) % TWO32;
      r := current / 2;
    }

    /** Previous(limit): the previous output reduced modulo limit when 0 < limit <= 0x7FFFFFFF. */
    method PreviousLimit(limit: nat) returns (r: nat)
      requires Valid() && LcgBase.IsULong(limit)
      modifies this, state
      ensures Valid() && Snapshot() == Backward(old(Snapshot())).1
      ensures 0 < limit <= 0x7FFF_FFFF ==> r < limit && r == Backward(old(Snapshot())).0 % limit
      ensures !(0 < limit <= 0x7FFF_FFFF) ==> r == Backward(old(Snapshot())).0
    {
      r := Previous();
      if limit != 0 && limit <= 0x7FFF_FFFF {
        r := r % limit;
      }
    }

    /** Seed: lane 0 is the seed truncated to 32 bits, lanes 1..30 follow by the minimal standard step; then 310 outputs are discarded. */
    method Seed(seed: nat)
      requires Valid() && LcgBase.IsULong(seed)
      modifies this, state
      ensures Valid() && Snapshot() == SeededState(seed)
    {
      state[0] := seed % TWO32;
      for i := 1 to LaneCount
        invariant forall t :: 0 <= t < i ==> state[t] == SeedLane(seed, t)
        invariant forall t :: 0 <= t < LaneCount ==> state[t] < TWO32
      {
        state[i] := (SeedMultiplier * state[i - 1]) % SeedModulus;
      }
      fptr, rptr := Separation, 0;
      assert state[..] == SeedLanes(seed);
      ghost var start := Snapshot();
      for i := 0 to Discarded
        invariant Valid() && Snapshot() == Walk(start, i)
      {
        var discarded := Next();
      }
    }

    /** Step: Next offset times, or Previous -offset times. */
    method Step(offset: int)
      requires Valid()
      modifies this, state
      ensures Valid() && Snapshot() == Steps(old(Snapshot()), offset)
    {
      ghost var start := Snapshot();
      if offset < 0 {
        var remaining := offset;
        while remaining != 0
          invariant offset <= remaining <= 0
          invariant Valid() && Snapshot() == WalkBack(start, remaining - offset)
          decreases -remaining
        {
          var discarded := Previous();
          remaining := remaining + 1;
        }
      } else {
        var remaining := offset;
        while remaining != 0
          invariant 0 <= remaining <= offset
          invariant Valid() && Snapshot() == Walk(start, offset - remaining)
        {
          var discarded := Next();
          remaining := remaining - 1;
        }
      }
    }

    /** BlockSeek: the lanes become matrix^blockOffset times the lanes, modulo 2^32. */
    method BlockSeek(blockOffset: nat, matrix: array2<nat>)
      requires Valid() && IsMatrix(matrix, LaneCount, TWO32)
      modifies state
      ensures Valid()
      ensures state[..] == ApplyMod(Power(Entries(matrix), blockOffset, LaneCount), old(state[..]), TWO32)
    {
      ghost var V := state[..];
      ghost var P := Power(Entries(matrix), blockOffset, LaneCount);
      var seek := MatrixPower(matrix, blockOffset);
      ghost var S := Entries(seek);
      var newstate := SeekLanes(seek);
      ApplyResidues(S, P, V, TWO32);
      forall i | 0 <= i < LaneCount {
        state[i] := newstate[i];
      }
      assert state[..] == ApplyMod(P, V, TWO32);
    }

    /** The new lanes of BlockSeek, each a row of the seek matrix times the lanes. */
    method SeekLanes(seek: array2<nat>) returns (newstate: array<nat>)
      requires Valid() && IsMatrix(seek, LaneCount, TWO32)
      ensures fresh(newstate) && newstate.Length == LaneCount
      ensures forall t :: 0 <= t < LaneCount ==> newstate[t] == Dot(Entries(seek), Column(state[..]), t, 0, LaneCount) % TWO32
    {
      ghost var S, V := Entries(seek), state[..];
      newstate := new nat[LaneCount];
      for i := 0 to LaneCount
        invariant Valid() && state[..] == V && IsMatrix(seek, LaneCount, TWO32) && Entries(seek) == S
        invariant forall t :: 0 <= t < i ==> newstate[t] == Dot(S, Column(V), t, 0, LaneCount) % TWO32
      {
        newstate[i] := RowTimesLanes(seek, i);
      }
    }

    /** Row i of the seek matrix times the lanes, summed in a wrapping uint accumulator. */
    method RowTimesLanes(seek: array2<nat>, i: nat) returns (accumulator: nat)
      requires Valid() && IsMatrix(seek, LaneCount, TWO32) && i < LaneCount
      ensures accumulator == Dot(Entries(seek), Column(state[..]), i, 0, LaneCount) % TWO32
    {
      ghost var S, V := Entries(seek), state[..];
      EntriesAt(seek);
      accumulator := 0;
      for k := 0 to LaneCount
        invariant accumulator == Dot(S, Column(V), i, 0, k) % TWO32
      {
        ModAdd(Dot(S, Column(V), i, 0, k), seek[i, k] * state[k], TWO32);
        accumulator := (accumulator + (seek[i, k] * state[k]) % TWO32) % TWO32;
      }
    }

    /**
     * SeekAhead: offsets below 31 step one at a time; larger offsets step to
     * rptr = 0, jump whole blocks with the Next matrix and step the residual.
     */
    method SeekAhead(offset: nat)
      requires Valid() && LcgBase.IsULong(offset)
      modifies this, state
      ensures Valid()
      ensures offset < LaneCount ==> Snapshot() == Walk(old(Snapshot()), offset)
      ensures offset >= LaneCount ==>
        var (alignment, blocks, residual) := AheadPlan(offset, old(rptr));
        Snapshot() == Steps(Jump(Walk(old(Snapshot()), alignment), NextMatrix(), blocks), residual)
    {
      if offset < LaneCount {
        Step(offset);
        return;
      }
      ghost var start := Snapshot();
      var rest := offset;
      if rptr != 0 {
        var steps := LaneCount - rptr;
        Step(steps);
        rest := rest - steps;
      }
      assert Snapshot() == Walk(start, AheadPlan(offset, start.rptr).0);
      JumpAhead(rest);
    }

    /** The rest of SeekAhead: whole blocks with the Next matrix, then the residual steps. */
    method JumpAhead(rest: nat)
      requires Valid()
      modifies this, state
      ensures Valid()
      ensures var (blocks, residual) := AheadSplit(rest);
        Snapshot() == Steps(Jump(old(Snapshot()), NextMatrix(), blocks), residual)
    {
      ghost var aligned := Snapshot();
      var blockoffset := rest / LaneCount;
      var steps: int := rest % LaneCount;
      if steps >= 16 {
        blockoffset := blockoffset + 1;
        steps := steps - LaneCount;
      }
      if blockoffset != 0 {
        BlockSeek(blockoffset, nextMatrix);
      }
      assert Snapshot() == Jump(aligned, NextMatrix(), blockoffset);
      Step(steps);
    }

    /**
     * SeekBack: offsets below 31 step back one at a time; larger offsets
     * step back to rptr = 0, jump whole blocks back with the Previous matrix
     * and step the residual.
     */
    method SeekBack(offset: nat)
      requires Valid() && LcgBase.IsULong(offset)
      modifies this, state
      ensures Valid()
      ensures offset < LaneCount ==> Snapshot() == WalkBack(old(Snapshot()), offset)
      ensures offset >= LaneCount ==>
        var (alignment, blocks, residual) := BackPlan(offset, old(rptr));
        Snapshot() == Steps(Jump(WalkBack(old(Snapshot()), alignment), PreviousMatrix(), blocks), residual)
    {
      if offset < LaneCount {
        Step(-(offset as int));
        return;
      }
      ghost var start := Snapshot();
      var rest := offset;
      if rptr != 0 {
        var steps := rptr;
        Step(-(steps as int));
        rest := rest - steps;
      }
      assert Snapshot() == WalkBack(start, BackPlan(offset, start.rptr).0);
      JumpBack(rest);
    }

    /** The rest of SeekBack: whole blocks with the Previous matrix, then the residual steps. */
    method JumpBack(rest: nat)
      requires Valid()
      modifies this, state
      ensures Valid()
      ensures var (blocks, residual) := BackSplit(rest);
        Snapshot() == Steps(Jump(old(Snapshot()), PreviousMatrix(), blocks), residual)
    {
      ghost var aligned := Snapshot();
      var blockoffset := rest / LaneCount;
      var steps: int := -(rest % LaneCount);
      if steps <= -16 {
        blockoffset := blockoffset + 1;
        steps := steps + LaneCount;
      }
      if blockoffset != 0 {
        BlockSeek(blockoffset, previousMatrix);
      }
      assert Snapshot() == Jump(aligned, PreviousMatrix(), blockoffset);
      Step(steps);
    }
  }
}

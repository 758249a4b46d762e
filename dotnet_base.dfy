/**
 * PrngDotNetBase: the subtractive generator of .NET's System.Random, after
 * Knuth's ran3. SeedArray holds 56 ints of which lanes 1..55 are used; a
 * step advances the cursors inext and inextp (56 wraps to 1), replaces
 * lane inext by lane inext minus lane inextp, adding MBIG = 2^31 - 1 when
 * the difference is negative, and returns it. The arithmetic is unchecked
 * C# int arithmetic, so every sum and difference wraps to 32 bits. Seeking
 * jumps over whole blocks of 55 steps with a 55-by-55 transition matrix
 * raised to a power modulo MBIG.
 */
module DotNetBase {
  import opened Common
  import opened Matrices
  import LcgBase

  const MBIG: nat := 2147483647
  const MSEED: nat := 161803398
  /** The length of SeedArray; lane 0 is never used. */
  const ArrayLength: nat := 56
  /** The number of lanes the generator cycles through. */
  const LaneCount: nat := 55
  /** The distance from inext to inextp after seeding. */
  const Gap: nat := 21
  const MinimumSeed: nat := 0
  const MaximumSeed: nat := 0x7FFF_FFFF
  const CanReverse: bool := true
  const CanSeek: bool := true
  const TWO31: int := 0x8000_0000
  /** The number of fill iterations. */
  const FillSteps: nat := 54

  // ---------------------------------------------------------------------
  // 32-bit int arithmetic
  // ---------------------------------------------------------------------

  predicate IsInt32(x: int) {
    -TWO31 <= x < TWO31
  }

  /** Unchecked C# int arithmetic: the exact result wrapped into the int range. */
  function Wrap(x: int): (r: int)
    ensures IsInt32(r) && (r - x) % TWO32 == 0
    ensures IsInt32(x) ==> r == x
  {
    (x + TWO31) % TWO32 - TWO31
  }

  /** A value congruent modulo 2^32 to an int wraps to that int. */
  lemma WrapCongruent(a: int, x: int)
    requires IsInt32(x) && (a - x) % TWO32 == 0
    ensures Wrap(a) == x
  {
    var q := (a - x) / TWO32;
    assert a + TWO31 == (x + TWO31) + q * TWO32;
    ModAddMultiple(x + TWO31, q, TWO32);
  }

  /** Values congruent modulo 2^32 have the same uint reading. */
  lemma SameUint(a: int, b: int)
    requires (a - b) % TWO32 == 0
    ensures a % TWO32 == b % TWO32
  {
    var q := (a - b) / TWO32;
    assert a == b + q * TWO32;
    ModAddMultiple(b, q, TWO32);
  }

  /**
   * The subtraction of Next and of the seeding: x - y in int arithmetic,
   * plus MBIG when negative. For x and y in [0, MBIG) this is x - y modulo
   * MBIG.
   */
  function Subtract(x: int, y: int): (r: int)
    ensures IsInt32(r)
    ensures 0 <= x < MBIG && 0 <= y < MBIG ==> 0 <= r < MBIG && r == (x - y) % MBIG
  {
    var d := Wrap(x - y);
    if d < 0 then d + MBIG else d
  }

  /**
   * The addition of Previous: x + y in int arithmetic, less MBIG when the
   * sum read as a uint is at least MBIG.
   */
  function AddBack(x: int, y: int): (r: int)
    ensures IsInt32(r)
  {
    var s := Wrap(x + y);
    if s % TWO32 >= MBIG then Wrap(s - MBIG) else s
  }

  /** For x and y in [0, MBIG), AddBack is x + y modulo MBIG. */
  lemma AddBackInRange(x: int, y: int)
    requires 0 <= x < MBIG && 0 <= y < MBIG
    ensures 0 <= AddBack(x, y) < MBIG && AddBack(x, y) == (x + y) % MBIG
  {
    var s := Wrap(x + y);
    if x + y >= TWO31 {
      WrapCongruent(x + y, x + y - TWO32);
      SameUint(s, x + y);
      ModSmall(x + y, TWO32);
      WrapCongruent(s - MBIG, x + y - MBIG);
    } else {
      ModSmall(x + y, TWO32);
    }
  }

  /** AddBack undoes Subtract when the minuend lies in [0, MBIG). */
  lemma AddBackUndoesSubtract(x: int, y: int)
    requires 0 <= x < MBIG && IsInt32(y)
    ensures AddBack(Subtract(x, y), y) == x
  {
    var d := Wrap(x - y);
    var v := Subtract(x, y);
    var s := Wrap(v + y);
    if d < 0 {
      WrapCongruent(s - MBIG, x);
      SameUint(s, x + MBIG);
      ModSmall(x + MBIG, TWO32);
    } else {
      WrapCongruent(v + y, x);
      ModSmall(x, TWO32);
    }
  }

  /** Subtract undoes AddBack when the lane AddBack rewrites lies in [0, MBIG). */
  lemma SubtractUndoesAddBack(x: int, y: int)
    requires 0 <= x < MBIG && IsInt32(y)
    ensures Subtract(AddBack(x, y), y) == x
  {
    var s := Wrap(x + y);
    if s % TWO32 >= MBIG {
      var restored := Wrap(s - MBIG);
      WrapCongruent(restored - y, x - MBIG);
    } else {
      WrapCongruent(s - y, x);
    }
  }

  // ---------------------------------------------------------------------
  // The state as a value
  // ---------------------------------------------------------------------

  /** SeedArray and the two cursors. */
  datatype DotNetState = DotNetState(lanes: seq<int>, inext: nat, inextp: nat)

  ghost predicate AllInt32(lanes: seq<int>) {
    forall i :: 0 <= i < |lanes| ==> IsInt32(lanes[i])
  }

  /** 56 int lanes and cursors in 0..55. */
  ghost predicate Shaped(st: DotNetState) {
    |st.lanes| == ArrayLength && st.inext < ArrayLength && st.inextp < ArrayLength && AllInt32(st.lanes)
  }

  /** Lanes 1..55 lie in [0, MBIG). */
  ghost predicate InRange(lanes: seq<int>)
    requires |lanes| == ArrayLength
  {
    forall i :: 1 <= i < ArrayLength ==> 0 <= lanes[i] < MBIG
  }

  /** Cursor value 0 stands for lane 55. */
  function Canon(c: nat): nat {
    if c == 0 then LaneCount else c
  }

  /** The position of a cursor in the cycle of 55 lanes, 0 for both 0 and 55. */
  function Pos(c: nat): nat {
    if c == 0 || c == LaneCount then 0 else c
  }

  /** The state with both cursors written as 1..55. */
  function Canonical(st: DotNetState): DotNetState {
    DotNetState(st.lanes, Canon(st.inext), Canon(st.inextp))
  }

  /** inextp is 21 lanes ahead of inext in the cycle of 55. */
  ghost predicate CursorGap(st: DotNetState) {
    Pos(st.inextp) == if Pos(st.inext) + Gap < LaneCount then Pos(st.inext) + Gap else Pos(st.inext) + Gap - LaneCount
  }

  /** The pre-increment of Next: 56 wraps to 1. */
  function Advance(c: nat): nat {
    if c + 1 >= ArrayLength then 1 else c + 1
  }

  /** The pre-decrement of Previous on a cursor in 1..55: 0 becomes 55. */
  function Retreat(c: nat): nat
    requires c >= 1
  {
    if c - 1 == 0 then LaneCount else c - 1
  }

  /** Next on the state value: the output as a ulong, and the new state. */
  function Forward(st: DotNetState): (r: (nat, DotNetState))
    requires Shaped(st)
    ensures Shaped(r.1) && r.1.inext != 0 && r.1.inextp != 0
  {
    var n, p := Advance(st.inext), Advance(st.inextp);
    var v := Subtract(st.lanes[n], st.lanes[p]);
    (v % TWO64, DotNetState(st.lanes[n := v], n, p))
  }

  /**
   * Previous on the state value, from inextp in 1..55: lane inext (0 read
   * as 55) takes back lane inextp in int arithmetic, less MBIG when the sum
   * read as a uint is at least MBIG; both cursors retreat and the former
   * value of the lane is returned as a ulong.
   */
  function Backward(st: DotNetState): (r: (nat, DotNetState))
    requires Shaped(st) && st.inextp != 0
    ensures Shaped(r.1) && r.1.inext != 0 && r.1.inextp != 0
  {
    var i := Canon(st.inext);
    var current := st.lanes[i];
    (current % TWO64, DotNetState(st.lanes[i := AddBack(current, st.lanes[st.inextp])], Retreat(i), Retreat(st.inextp)))
  }

  /** Next keeps lanes 1..55 in [0, MBIG) and returns the lane it wrote, below MBIG. */
  lemma NextKeepsRange(st: DotNetState)
    requires Shaped(st) && InRange(st.lanes)
    ensures InRange(Forward(st).1.lanes)
    ensures Forward(st).0 < MBIG && Forward(st).0 == Forward(st).1.lanes[Forward(st).1.inext]
  {
  }

  /** Previous keeps lanes 1..55 in [0, MBIG) and returns a value below MBIG. */
  lemma PreviousKeepsRange(st: DotNetState)
    requires Shaped(st) && st.inextp != 0 && InRange(st.lanes)
    ensures InRange(Backward(st).1.lanes)
    ensures Backward(st).0 < MBIG
  {
    var i := Canon(st.inext);
    AddBackInRange(st.lanes[i], st.lanes[st.inextp]);
  }

  /** Next and Previous keep inextp 21 lanes ahead of inext. */
  lemma StepsKeepCursorGap(st: DotNetState)
    requires Shaped(st) && CursorGap(st)
    ensures CursorGap(Forward(st).1)
    ensures st.inextp != 0 ==> CursorGap(Backward(st).1)
    ensures Advance(st.inext) != Advance(st.inextp) && Canon(st.inext) != st.inextp
  {
  }

  /**
   * Previous after Next restores the lanes and the cursors (a cursor 0
   * comes back as 55) and returns the value Next returned, provided the
   * lane Next overwrites lies in [0, MBIG).
   */
  lemma BackwardUndoesForward(st: DotNetState)
    requires Shaped(st) && CursorGap(st)
    requires 0 <= st.lanes[Advance(st.inext)] < MBIG
    ensures Backward(Forward(st).1).1 == Canonical(st)
    ensures Backward(Forward(st).1).0 == Forward(st).0
  {
    StepsKeepCursorGap(st);
    var n, p := Advance(st.inext), Advance(st.inextp);
    AddBackUndoesSubtract(st.lanes[n], st.lanes[p]);
    assert Backward(Forward(st).1).1.lanes == st.lanes;
  }

  /**
   * Next after Previous restores the lanes and the cursors (a cursor 0
   * comes back as 55) and returns the value Previous returned, provided
   * the lane Previous rewrites lies in [0, MBIG).
   */
  lemma ForwardUndoesBackward(st: DotNetState)
    requires Shaped(st) && CursorGap(st) && st.inextp != 0
    requires 0 <= st.lanes[Canon(st.inext)] < MBIG
    ensures Forward(Backward(st).1).1 == Canonical(st)
    ensures Forward(Backward(st).1).0 == Backward(st).0
  {
    StepsKeepCursorGap(st);
    var i := Canon(st.inext);
    SubtractUndoesAddBack(st.lanes[i], st.lanes[st.inextp]);
    assert Forward(Backward(st).1).1.lanes == st.lanes;
  }

  // ---------------------------------------------------------------------
  // Walks
  // ---------------------------------------------------------------------

  /** n calls of Next. */
  function Walk(st: DotNetState, n: nat): (r: DotNetState)
    requires Shaped(st)
    ensures Shaped(r) && (n > 0 || st.inextp != 0 ==> r.inextp != 0)
  {
    if n == 0 then st else Forward(Walk(st, n - 1)).1
  }

  /** n calls of Previous. */
  function WalkBack(st: DotNetState, n: nat): (r: DotNetState)
    requires Shaped(st) && st.inextp != 0
    ensures Shaped(r) && r.inextp != 0
  {
    if n == 0 then st else Backward(WalkBack(st, n - 1)).1
  }

  /** Step(offset): Next offset times, or Previous -offset times when offset is negative. */
  function Steps(st: DotNetState, offset: int): (r: DotNetState)
    requires Shaped(st) && (offset >= 0 || st.inextp != 0)
    ensures Shaped(r)
  {
    if offset >= 0 then Walk(st, offset) else WalkBack(st, -offset)
  }

  /** Advancing a cursor adds one to its position in the cycle. */
  lemma AdvancePos(c: nat)
    requires c < ArrayLength
    ensures Pos(Advance(c)) == (Pos(c) + 1) % LaneCount
  {
  }

  /** Retreating a cursor subtracts one from its position in the cycle. */
  lemma RetreatPos(c: nat)
    requires 1 <= c < ArrayLength
    ensures Pos(Retreat(c)) == (Pos(c) - 1) % LaneCount
  {
  }

  /** A cursor at position a (mod 55) advances to position a + 1 (mod 55). */
  lemma AdvanceStep(p: int, n: nat, c: nat)
    requires c < ArrayLength && n > 0 && Pos(c) == (p + (n - 1)) % LaneCount
    ensures Pos(Advance(c)) == (p + n) % LaneCount
  {
    AdvancePos(c);
    ModAdd(p + (n - 1), 1, LaneCount);
  }

  /** A cursor at position a (mod 55) retreats to position a - 1 (mod 55). */
  lemma RetreatStep(a: int, c: nat)
    requires c < ArrayLength && Pos(c) == a % LaneCount
    ensures Pos(Retreat(Canon(c))) == (a - 1) % LaneCount
  {
    RetreatPos(Canon(c));
    ModAdd(a, -1, LaneCount);
  }

  /** n steps forward move both cursors n positions forward in the cycle of 55. */
  lemma {:induction false} WalkCursors(st: DotNetState, n: nat)
    requires Shaped(st)
    ensures Pos(Walk(st, n).inext) == (Pos(st.inext) + n) % LaneCount
    ensures Pos(Walk(st, n).inextp) == (Pos(st.inextp) + n) % LaneCount
  {
    if n > 0 {
      WalkCursors(st, n - 1);
      ForwardCursors(Walk(st, n - 1), Pos(st.inext), Pos(st.inextp), n);
    }
  }

  /** One step forward moves cursors at positions a + n - 1 and b + n - 1 to a + n and b + n. */
  lemma ForwardCursors(prev: DotNetState, a: int, b: int, n: nat)
    requires Shaped(prev) && n > 0
    requires Pos(prev.inext) == (a + (n - 1)) % LaneCount && Pos(prev.inextp) == (b + (n - 1)) % LaneCount
    ensures Pos(Forward(prev).1.inext) == (a + n) % LaneCount && Pos(Forward(prev).1.inextp) == (b + n) % LaneCount
  {
    AdvanceStep(a, n, prev.inext);
    AdvanceStep(b, n, prev.inextp);
  }

  /** n steps back move both cursors n positions back in the cycle of 55. */
  lemma {:induction false} WalkBackCursors(st: DotNetState, n: nat)
    requires Shaped(st) && st.inextp != 0
    ensures Pos(WalkBack(st, n).inext) == (Pos(st.inext) - n) % LaneCount
    ensures Pos(WalkBack(st, n).inextp) == (Pos(st.inextp) - n) % LaneCount
  {
    if n > 0 {
      var prev := WalkBack(st, n - 1);
      WalkBackCursors(st, n - 1);
      assert WalkBack(st, n).inext == Retreat(Canon(prev.inext)) && WalkBack(st, n).inextp == Retreat(Canon(prev.inextp));
      RetreatStep(Pos(st.inext) - (n - 1), prev.inext);
      RetreatStep(Pos(st.inextp) - (n - 1), prev.inextp);
    }
  }

  /** Walking forward keeps lanes 1..55 in [0, MBIG) and keeps the cursor gap. */
  lemma {:induction false} WalkKeepsRange(st: DotNetState, n: nat)
    requires Shaped(st) && InRange(st.lanes) && CursorGap(st)
    ensures InRange(Walk(st, n).lanes) && CursorGap(Walk(st, n))
  {
    if n > 0 {
      WalkKeepsRange(st, n - 1);
      NextKeepsRange(Walk(st, n - 1));
      StepsKeepCursorGap(Walk(st, n - 1));
    }
  }

  /**
   * From lanes in [0, MBIG) with the cursor gap, n steps back undo n steps
   * forward, up to writing a cursor 0 as 55.
   */
  lemma {:induction false} WalkBackUndoesWalk(st: DotNetState, n: nat)
    requires Shaped(st) && InRange(st.lanes) && CursorGap(st)
    ensures n > 0 ==> WalkBack(Walk(st, n), n) == Canonical(st)
  {
    if n > 0 {
      UndoLastStep(st, n);
      if n > 1 {
        assert Canonical(Walk(st, n - 1)) == Walk(st, n - 1);
        WalkBackUndoesWalk(st, n - 1);
      }
    }
  }

  /** The first step back from Walk(st, n) undoes its last step forward. */
  lemma UndoLastStep(st: DotNetState, n: nat)
    requires Shaped(st) && InRange(st.lanes) && CursorGap(st) && n > 0
    ensures WalkBack(Walk(st, n), n) == WalkBack(Canonical(Walk(st, n - 1)), n - 1)
  {
    var mid, last := Walk(st, n - 1), Walk(st, n);
    assert Backward(last).1 == Canonical(mid) by {
      WalkKeepsRange(st, n - 1);
      BackwardUndoesForward(mid);
    }
    WalkBackPeel(last, n);
  }

  /** The first of n steps back can be taken first. */
  lemma {:induction false} WalkBackPeel(st: DotNetState, n: nat)
    requires Shaped(st) && st.inextp != 0 && n > 0
    ensures WalkBack(st, n) == WalkBack(Backward(st).1, n - 1)
  {
    if n > 1 {
      WalkBackPeel(st, n - 1);
    }
  }

  // ---------------------------------------------------------------------
  // Seeding
  // ---------------------------------------------------------------------

  /** The seed as Seed uses it: its low 31 bits. */
  function SeedKey(seed: nat): (r: nat)
    ensures r < TWO31
  {
    seed % TWO31
  }

  /** The fill loop's array and its two running values mj and mk. */
  datatype FillState = FillState(lanes: seq<int>, mj: int, mk: int)

  /**
   * The fill after its first n iterations: lane 55 takes MSEED - key, then
   * iteration i stores mk in lane 21 i mod 55, and (mj, mk) becomes
   * (mk, mj - mk plus MBIG when negative).
   */
  function Fill(lanes: seq<int>, key: nat, n: nat): (r: FillState)
    requires |lanes| == ArrayLength && AllInt32(lanes) && key < TWO31 && n < LaneCount
    ensures |r.lanes| == ArrayLength && AllInt32(r.lanes) && IsInt32(r.mj) && IsInt32(r.mk)
  {
    if n == 0 then FillState(lanes[LaneCount := MSEED - key], MSEED - key, 1)
    else
      var f := Fill(lanes, key, n - 1);
      FillState(f.lanes[(21 * n) % LaneCount := f.mk], f.mk, Subtract(f.mj, f.mk))
  }

  /** One step of the mixing loops: lane i less lane 1 + (i + 30) mod 55. */
  function MixStep(lanes: seq<int>, i: nat): (r: seq<int>)
    requires |lanes| == ArrayLength && AllInt32(lanes) && 1 <= i < ArrayLength
    ensures |r| == ArrayLength && AllInt32(r)
  {
    lanes[i := Subtract(lanes[i], lanes[1 + (i + 30) % LaneCount])]
  }

  /** The first c steps of the four mixing passes over lanes 1..55. */
  function Mix(lanes: seq<int>, c: nat): (r: seq<int>)
    requires |lanes| == ArrayLength && AllInt32(lanes)
    ensures |r| == ArrayLength && AllInt32(r)
  {
    if c == 0 then lanes else MixStep(Mix(lanes, c - 1), (c - 1) % LaneCount + 1)
  }

  /** Within a pass that starts at a multiple of 55, step c + i mixes lane i. */
  lemma MixAt(lanes: seq<int>, c: nat, i: nat)
    requires |lanes| == ArrayLength && AllInt32(lanes) && c % LaneCount == 0 && 1 <= i < ArrayLength
    ensures Mix(lanes, c + i) == MixStep(Mix(lanes, c + (i - 1)), i)
  {
    ModAddMultiple(i - 1, c / LaneCount, LaneCount);
    ModSmall(i - 1, LaneCount);
    assert (c + i - 1) % LaneCount == i - 1;
  }

  /** The lanes Seed leaves: the fill of all 54 iterations, then four mixing passes. */
  function SeededLanes(seed: nat, lanes: seq<int>): (r: seq<int>)
    requires |lanes| == ArrayLength && AllInt32(lanes)
    ensures |r| == ArrayLength && AllInt32(r)
  {
    Mix(Fill(lanes, SeedKey(seed), FillSteps).lanes, 4 * LaneCount)
  }

  /** The state Seed leaves: the seeded lanes with inext = 0 and inextp = 21, which have the cursor gap. */
  function SeededState(seed: nat, lanes: seq<int>): (r: DotNetState)
    requires |lanes| == ArrayLength && AllInt32(lanes)
    ensures Shaped(r) && CursorGap(r) && r.inextp != 0
  {
    DotNetState(SeededLanes(seed, lanes), 0, Gap)
  }

  /** 21 is its own inverse modulo 55 (21 * 21 = 441 = 8 * 55 + 1), so i -> 21 i mod 55 permutes 1..54. */
  lemma InverseOf21(i: int)
    requires 1 <= i < LaneCount
    ensures 1 <= (21 * i) % LaneCount < LaneCount
    ensures (21 * ((21 * i) % LaneCount)) % LaneCount == i
  {
    var r := (21 * i) % LaneCount;
    ModMul(21, 21 * i, LaneCount);
    ModSmall(21, LaneCount);
    assert 21 * (21 * i) == i + (8 * i) * LaneCount;
    ModAddMultiple(i, 8 * i, LaneCount);
    ModSmall(i, LaneCount);
    assert (21 * r) % LaneCount == i;
  }

  /** Whether the first n fill iterations (or the initial store into lane 55) write lane j. */
  predicate WrittenBy(n: nat, j: nat) {
    j == LaneCount || (1 <= j < LaneCount && 1 <= (21 * j) % LaneCount <= n)
  }

  /** Fill iteration n writes exactly one lane that the iterations before it had not: lane 21 n mod 55. */
  lemma WrittenStep(n: nat, j: nat)
    requires 0 < n < LaneCount && j < ArrayLength
    ensures WrittenBy(n, j) <==> WrittenBy(n - 1, j) || j == (21 * n) % LaneCount
  {
    InverseOf21(n);
    if 1 <= j < LaneCount {
      InverseOf21(j);
    }
  }

  /** The lanes the fill has not written yet keep their old values. */
  lemma {:induction false} FillFrame(lanes: seq<int>, key: nat, n: nat)
    requires |lanes| == ArrayLength && AllInt32(lanes) && key < TWO31 && n < LaneCount
    ensures forall j :: 0 <= j < ArrayLength && !WrittenBy(n, j) ==> Fill(lanes, key, n).lanes[j] == lanes[j]
  {
    if n > 0 {
      FillFrame(lanes, key, n - 1);
      forall j | 0 <= j < ArrayLength && !WrittenBy(n, j)
        ensures Fill(lanes, key, n).lanes[j] == lanes[j]
      {
        WrittenStep(n, j);
      }
    }
  }

  /**
   * Two fills of the same key from different arrays agree on mj, mk and
   * every lane written so far.
   */
  lemma {:induction false} FillAgrees(lanes1: seq<int>, lanes2: seq<int>, key: nat, n: nat)
    requires |lanes1| == ArrayLength && AllInt32(lanes1) && |lanes2| == ArrayLength && AllInt32(lanes2)
    requires key < TWO31 && n < LaneCount
    ensures Fill(lanes1, key, n).mj == Fill(lanes2, key, n).mj && Fill(lanes1, key, n).mk == Fill(lanes2, key, n).mk
    ensures forall j :: 0 <= j < ArrayLength && WrittenBy(n, j) ==> Fill(lanes1, key, n).lanes[j] == Fill(lanes2, key, n).lanes[j]
  {
    if n > 0 {
      FillAgrees(lanes1, lanes2, key, n - 1);
      var f1, f2 := Fill(lanes1, key, n - 1), Fill(lanes2, key, n - 1);
      var at := (21 * n) % LaneCount;
      assert Fill(lanes1, key, n) == FillState(f1.lanes[at := f1.mk], f1.mk, Subtract(f1.mj, f1.mk));
      assert Fill(lanes2, key, n) == FillState(f2.lanes[at := f2.mk], f2.mk, Subtract(f2.mj, f2.mk));
      forall j | 0 <= j < ArrayLength && WrittenBy(n, j)
        ensures Fill(lanes1, key, n).lanes[j] == Fill(lanes2, key, n).lanes[j]
      {
        WrittenStep(n, j);
      }
    }
  }

  /** With a key up to MSEED, mj, mk and every lane the fill wrote lie in [0, MBIG). */
  lemma {:induction false} FillInRange(lanes: seq<int>, key: nat, n: nat)
    requires |lanes| == ArrayLength && AllInt32(lanes) && key <= MSEED && n < LaneCount
    ensures 0 <= Fill(lanes, key, n).mj < MBIG && 0 <= Fill(lanes, key, n).mk < MBIG
    ensures forall j :: 0 <= j < ArrayLength && WrittenBy(n, j) ==> 0 <= Fill(lanes, key, n).lanes[j] < MBIG
  {
    if n > 0 {
      FillInRange(lanes, key, n - 1);
      forall j | 0 <= j < ArrayLength && WrittenBy(n, j)
        ensures 0 <= Fill(lanes, key, n).lanes[j] < MBIG
      {
        WrittenStep(n, j);
      }
    }
  }

  /** After all 54 iterations the fill has written every lane from 1 to 55. */
  lemma FillWritesAll(j: nat)
    requires 1 <= j < ArrayLength
    ensures WrittenBy(FillSteps, j)
  {
    if j < LaneCount {
      InverseOf21(j);
    }
  }

  /** Mixing keeps lanes 1..55 in [0, MBIG). */
  lemma {:induction false} MixKeepsRange(lanes: seq<int>, c: nat)
    requires |lanes| == ArrayLength && AllInt32(lanes) && InRange(lanes)
    ensures InRange(Mix(lanes, c))
  {
    if c > 0 {
      MixKeepsRange(lanes, c - 1);
    }
  }

  /**
   * Seeding determines lanes 1..55 from the seed alone: whatever the array
   * held before, every used lane is overwritten, and lane 0 is untouched.
   */
  lemma SeedIgnoresHistory(seed: nat, lanes1: seq<int>, lanes2: seq<int>)
    requires |lanes1| == ArrayLength && AllInt32(lanes1) && |lanes2| == ArrayLength && AllInt32(lanes2)
    requires lanes1[0] == lanes2[0]
    ensures SeededLanes(seed, lanes1) == SeededLanes(seed, lanes2)
  {
    var key := SeedKey(seed);
    FillAgrees(lanes1, lanes2, key, FillSteps);
    FillFrame(lanes1, key, FillSteps);
    FillFrame(lanes2, key, FillSteps);
    forall j | 1 <= j < ArrayLength
      ensures WrittenBy(FillSteps, j)
    {
      FillWritesAll(j);
    }
    assert Fill(lanes1, key, FillSteps).lanes == Fill(lanes2, key, FillSteps).lanes;
  }

  /** Seeds whose low 31 bits are at most MSEED leave lanes 1..55 in [0, MBIG). */
  lemma SeededInRange(seed: nat, lanes: seq<int>)
    requires |lanes| == ArrayLength && AllInt32(lanes) && SeedKey(seed) <= MSEED
    ensures InRange(SeededLanes(seed, lanes))
  {
    var key := SeedKey(seed);
    FillInRange(lanes, key, FillSteps);
    forall j | 1 <= j < ArrayLength
      ensures WrittenBy(FillSteps, j)
    {
      FillWritesAll(j);
    }
    MixKeepsRange(Fill(lanes, key, FillSteps).lanes, 4 * LaneCount);
  }

  // ---------------------------------------------------------------------
  // Seeking
  // ---------------------------------------------------------------------

  /**
   * How SeekAhead splits an offset of at least 55: steps that bring inext
   * to 55 (unless it is 0 or 55 already), whole blocks of 55 steps, and a
   * residual of at most 27 steps either way.
   */
  function AheadPlan(offset: nat, inext: nat): (nat, nat, int)
    requires inext < ArrayLength && offset >= LaneCount
  {
    var alignment := if inext != 0 && inext != LaneCount then LaneCount - inext else 0;
    var (blocks, residual) := AheadSplit(offset - alignment);
    (alignment, blocks, residual)
  }

  /** The blocks and the residual of the steps SeekAhead takes once inext is aligned. */
  function AheadSplit(rest: nat): (nat, int) {
    if rest % LaneCount >= 28 then (rest / LaneCount + 1, rest % LaneCount - LaneCount)
    else (rest / LaneCount, rest % LaneCount)
  }

  /** The forward plan adds up to the offset, aligns inext to position 0 and leaves at most 27 steps. */
  lemma AheadPlanAddsUp(offset: nat, inext: nat)
    requires inext < ArrayLength && offset >= LaneCount
    ensures var (alignment, blocks, residual) := AheadPlan(offset, inext);
      alignment + LaneCount * blocks + residual == offset &&
      -27 <= residual <= 27 && alignment < LaneCount && (Pos(inext) + alignment) % LaneCount == 0
  {
  }

  /**
   * How SeekBack splits an offset of at least 55: inext steps back to 0
   * (unless it is 0 or 55 already), whole blocks of 55 steps back, and a
   * residual of at most 27 steps either way (positive residuals step
   * forward).
   */
  function BackPlan(offset: nat, inext: nat): (nat, nat, int)
    requires inext < ArrayLength && offset >= LaneCount
  {
    var alignment := if inext != 0 && inext != LaneCount then inext else 0;
    var (blocks, residual) := BackSplit(offset - alignment);
    (alignment, blocks, residual)
  }

  /** The blocks and the residual of the steps SeekBack takes once inext is aligned. */
  function BackSplit(rest: nat): (nat, int) {
    if -(rest % LaneCount) <= -28 then (rest / LaneCount + 1, LaneCount - rest % LaneCount)
    else (rest / LaneCount, -(rest % LaneCount))
  }

  /** The backward plan adds up to the offset, aligns inext to position 0 and leaves at most 27 steps. */
  lemma BackPlanAddsUp(offset: nat, inext: nat)
    requires inext < ArrayLength && offset >= LaneCount
    ensures var (alignment, blocks, residual) := BackPlan(offset, inext);
      alignment + LaneCount * blocks - residual == offset &&
      -27 <= residual <= 27 && alignment < LaneCount && Pos(inext) == alignment
  {
  }

  /**
   * One term of the BlockSeek accumulator: the seek entry times the lane
   * read as a ulong (a negative int lane reads as 2^64 plus its value), the
   * 64-bit product wrapped, then reduced modulo MBIG.
   */
  function BlockTerm(m: int, x: int): (r: nat)
    ensures r < MBIG
  {
    ((m * (x % TWO64)) % TWO64) % MBIG
  }

  /** The sum of the first k terms of row i of S against the lanes v. */
  function RowSum(S: Mat, v: seq<int>, i: int, k: nat): int
    requires k <= |v|
  {
    if k == 0 then 0 else RowSum(S, v, i, k - 1) + BlockTerm(At(S, i, k - 1), v[k - 1])
  }

  /** The lanes 1..55 after BlockSeek with the power P reduced modulo MBIG. */
  function JumpLanes(P: Mat, v: seq<int>): (r: seq<int>)
    requires |v| == LaneCount
    ensures |r| == LaneCount && forall i :: 0 <= i < LaneCount ==> 0 <= r[i] < MBIG
  {
    seq(LaneCount, i => RowSum(Reduce(P, LaneCount, MBIG), v, i, LaneCount) % MBIG)
  }

  /** BlockSeek with the matrix power P: lanes 1..55 become JumpLanes; lane 0 and the cursors stay. */
  function BlockState(st: DotNetState, P: Mat): (r: DotNetState)
    requires Shaped(st)
    ensures Shaped(r) && r.inext == st.inext && r.inextp == st.inextp
  {
    DotNetState(st.lanes[..1] + JumpLanes(P, st.lanes[1..]), st.inext, st.inextp)
  }

  /** A jump of blocks applications of a transition matrix; SeekAhead and SeekBack skip it for zero blocks. */
  function Jump(st: DotNetState, M: Mat, blocks: nat): (r: DotNetState)
    requires Shaped(st)
    ensures Shaped(r) && r.inext == st.inext && r.inextp == st.inextp
  {
    if blocks == 0 then st else BlockState(st, Power(M, blocks, LaneCount))
  }

  /** For lanes and entries in [0, MBIG) no product wraps, so the accumulator is the dot product modulo MBIG. */
  lemma {:induction false} RowSumIsDot(S: Mat, v: seq<int>, i: int, k: nat)
    requires k <= |v|
    requires forall t :: 0 <= t < |v| ==> 0 <= v[t] < MBIG
    requires forall t :: 0 <= t < |v| ==> 0 <= At(S, i, t) < MBIG
    ensures RowSum(S, v, i, k) % MBIG == Dot(S, Column(v), i, 0, k) % MBIG
  {
    if k > 0 {
      RowSumIsDot(S, v, i, k - 1);
      var m, x := At(S, i, k - 1), v[k - 1];
      MulLe(m, MBIG, x);
      MulLe(x, MBIG, MBIG);
      ModSmall(x, TWO64);
      ModSmall(m * x, TWO64);
      assert At(Column(v), k - 1, 0) == x;
      ModAdd(RowSum(S, v, i, k - 1), BlockTerm(m, x), MBIG);
      ModAdd(Dot(S, Column(v), i, 0, k - 1), m * x, MBIG);
      ModOfMod(m * x, MBIG);
    }
  }

  /**
   * When lanes 1..55 lie in [0, MBIG), BlockSeek multiplies them by P
   * modulo MBIG: the jump is the matrix-vector product.
   */
  lemma BlockStateIsProduct(st: DotNetState, P: Mat)
    requires Shaped(st) && InRange(st.lanes)
    ensures BlockState(st, P).lanes[0] == st.lanes[0]
    ensures BlockState(st, P).lanes[1..] == ApplyMod(P, st.lanes[1..], MBIG)
  {
    var v := st.lanes[1..];
    var R := Reduce(P, LaneCount, MBIG);
    ReduceResidues(P, LaneCount, MBIG);
    ApplyResidues(R, P, v, MBIG);
    forall i | 0 <= i < LaneCount
      ensures JumpLanes(P, v)[i] == ApplyMod(P, v, MBIG)[i]
    {
      RowSumIsDot(R, v, i, LaneCount);
    }
    assert BlockState(st, P).lanes[1..] == JumpLanes(P, v);
  }

  // ---------------------------------------------------------------------
  // Transition matrices
  // ---------------------------------------------------------------------

  /**
   * Entry (i, j) of the Next matrix on lanes 1..55 (index i is lane i + 1):
   * 55 steps from inext = 55 make lane i - lane (i + 21) for i < 34 and
   * lane i + lane (i - 13) - lane (i - 34) for i >= 34; -1 is written MBIG - 1.
   */
  function NextEntry(i: nat, j: nat): nat {
    if i < 34 then (if j == i then 1 else if j == i + 21 then MBIG - 1 else 0)
    else if j == i - 34 then MBIG - 1
    else if j == i - 13 || j == i then 1
    else 0
  }

  /** Entry (i, j) of the documented inverse: rows below 13 have four ones, rows 13..33 three, rows 34..54 two. */
  function PreviousEntry(i: nat, j: nat): nat {
    if i < 13 then (if j == i || j == i + 8 || j == i + 21 || j == i + 42 then 1 else 0)
    else if i < 34 then (if j == i - 13 || j == i || j == i + 21 then 1 else 0)
    else if j == i - 34 || j == i then 1
    else 0
  }

  function NextMatrix(): Mat {
    seq(LaneCount, i requires 0 <= i < LaneCount => seq(LaneCount, j requires 0 <= j < LaneCount => NextEntry(i, j) as int))
  }

  function PreviousMatrix(): Mat {
    seq(LaneCount, i requires 0 <= i < LaneCount => seq(LaneCount, j requires 0 <= j < LaneCount => PreviousEntry(i, j) as int))
  }

  // ---------------------------------------------------------------------
  // Matrix routines
  // ---------------------------------------------------------------------

  /** GenerateNextMatrix: rows 0..33 get 1 and MBIG - 1, rows 34..54 get MBIG - 1, 1 and 1. */
  method GenerateNextMatrix() returns (matrix: array2<nat>)
    ensures fresh(matrix) && IsMatrix(matrix, LaneCount, MBIG)
    ensures Entries(matrix) == NextMatrix()
  {
    matrix := new nat[LaneCount, LaneCount]((i, j) => 0);
    for i := 0 to 34
      invariant forall i', j' :: 0 <= i' < LaneCount && 0 <= j' < LaneCount ==>
        matrix[i', j'] == if i' < i then NextEntry(i', j') else 0
    {
      matrix[i, i] := 1;
      matrix[i, 21 + i] := MBIG - 1;
    }
    for i := 0 to 21
      invariant forall i', j' :: 0 <= i' < LaneCount && 0 <= j' < LaneCount ==>
        matrix[i', j'] == if i' < 34 + i then NextEntry(i', j') else 0
    {
      matrix[34 + i, i] := MBIG - 1;
      matrix[34 + i, 21 + i] := 1;
      matrix[34 + i, 34 + i] := 1;
    }
    EntriesEqual(matrix, NextMatrix(), LaneCount);
  }

  /** GeneratePreviousMatrix: the documented inverse, row block by row block. */
  method GeneratePreviousMatrix() returns (matrix: array2<nat>)
    ensures fresh(matrix) && IsMatrix(matrix, LaneCount, MBIG)
    ensures Entries(matrix) == PreviousMatrix()
  {
    matrix := new nat[LaneCount, LaneCount]((i, j) => 0);
    for i := 0 to 13
      invariant forall i', j' :: 0 <= i' < LaneCount && 0 <= j' < LaneCount ==>
        matrix[i', j'] == if i' < i then PreviousEntry(i', j') else 0
    {
      matrix[i, i] := 1;
      matrix[i, 8 + i] := 1;
      matrix[i, 21 + i] := 1;
      matrix[i, 42 + i] := 1;
    }
    for i := 0 to 21
      invariant forall i', j' :: 0 <= i' < LaneCount && 0 <= j' < LaneCount ==>
        matrix[i', j'] == if i' < 13 + i then PreviousEntry(i', j') else 0
    {
      matrix[13 + i, i] := 1;
      matrix[13 + i, 13 + i] := 1;
      matrix[13 + i, 34 + i] := 1;
    }
    for i := 0 to 21
      invariant forall i', j' :: 0 <= i' < LaneCount && 0 <= j' < LaneCount ==>
        matrix[i', j'] == if i' < 34 + i then PreviousEntry(i', j') else 0
    {
      matrix[34 + i, i] := 1;
      matrix[34 + i, 34 + i] := 1;
    }
    EntriesEqual(matrix, PreviousMatrix(), LaneCount);
  }

  /**
   * MultiplyMatrix: destination = a b modulo MBIG. Each 64-bit product of
   * two uints is exact, is reduced modulo MBIG and is added to a uint
   * accumulator below MBIG, less MBIG when the sum reaches MBIG; the sum
   * stays below 2 MBIG, so nothing wraps and every entry ends below MBIG.
   */
  method MultiplyMatrix(destination: array2<nat>, a: array2<nat>, b: array2<nat>)
    requires destination.Length0 == LaneCount && destination.Length1 == LaneCount
    requires IsMatrix(a, LaneCount, TWO32) && IsMatrix(b, LaneCount, TWO32)
    requires destination != a && destination != b
    modifies destination
    ensures IsMatrix(destination, LaneCount, MBIG)
    ensures forall i, j :: 0 <= i < LaneCount && 0 <= j < LaneCount ==>
      destination[i, j] == Dot(Entries(a), Entries(b), i, j, LaneCount) % MBIG
  {
    for i := 0 to LaneCount
      invariant forall i', j' :: 0 <= i' < i && 0 <= j' < LaneCount ==>
        destination[i', j'] == Dot(Entries(a), Entries(b), i', j', LaneCount) % MBIG
    {
      for j := 0 to LaneCount
        invariant forall i', j' :: 0 <= i' < LaneCount && 0 <= j' < LaneCount && (i' < i || (i' == i && j' < j)) ==>
          destination[i', j'] == Dot(Entries(a), Entries(b), i', j', LaneCount) % MBIG
      {
        var accumulator := DotEntry(a, b, i, j);
        destination[i, j] := accumulator;
      }
    }
  }

  /** One entry of MultiplyMatrix: the reduced products summed in an accumulator kept below MBIG. */
  method DotEntry(a: array2<nat>, b: array2<nat>, i: nat, j: nat) returns (accumulator: nat)
    requires IsMatrix(a, LaneCount, TWO32) && IsMatrix(b, LaneCount, TWO32) && i < LaneCount && j < LaneCount
    ensures accumulator < MBIG && accumulator == Dot(Entries(a), Entries(b), i, j, LaneCount) % MBIG
  {
    ghost var A, B := Entries(a), Entries(b);
    EntriesAt(a);
    EntriesAt(b);
    accumulator := 0;
    for k := 0 to LaneCount
      invariant accumulator == Dot(A, B, i, j, k) % MBIG
    {
      var product := a[i, k] * b[k, j];
      assert Dot(A, B, i, j, k + 1) == Dot(A, B, i, j, k) + product;
      AccumulateStep(accumulator, Dot(A, B, i, j, k), product);
      accumulator := accumulator + product % MBIG;
      if accumulator >= MBIG {
        accumulator := accumulator - MBIG;
      }
    }
  }

  /** Adding a reduced product to a reduced sum, less MBIG once it reaches MBIG, reduces the new sum. */
  lemma AccumulateStep(accumulator: nat, sum: int, product: nat)
    requires accumulator == sum % MBIG
    ensures var t := accumulator + product % MBIG; (if t >= MBIG then t - MBIG else t) == (sum + product) % MBIG
  {
    ModAdd(sum, product, MBIG);
  }

  /** A fresh copy of a matrix (the Clone in BlockSeek). */
  method CloneMatrix(matrix: array2<nat>) returns (copy: array2<nat>)
    requires IsMatrix(matrix, LaneCount, MBIG)
    ensures fresh(copy) && IsMatrix(copy, LaneCount, MBIG) && Entries(copy) == Entries(matrix)
  {
    copy := new nat[LaneCount, LaneCount]((i, j) reads matrix => if 0 <= i < LaneCount && 0 <= j < LaneCount then matrix[i, j] else 0);
    EntriesEqual(copy, Entries(matrix), LaneCount);
  }

  /**
   * The square-and-multiply loop of BlockSeek: the seek matrix ends holding
   * matrix^blockOffset reduced modulo MBIG. The source alternates two
   * buffers for each running matrix by a flag; swapping the references
   * does the same.
   */
  method MatrixPower(matrix: array2<nat>, blockOffset: nat) returns (seek: array2<nat>)
    requires IsMatrix(matrix, LaneCount, MBIG)
    ensures fresh(seek) && IsMatrix(seek, LaneCount, MBIG)
    ensures Entries(seek) == Reduce(Power(Entries(matrix), blockOffset, LaneCount), LaneCount, MBIG)
  {
    ghost var M := Entries(matrix);
    var base, spare, seekSpare;
    base, spare, seek, seekSpare := PowerBuffers(matrix);
    var e := blockOffset;
    ghost var done: nat := 0;
    ghost var stride: nat := 1;
    while true
      invariant fresh(base) && fresh(spare) && fresh(seek) && fresh(seekSpare)
      invariant Buffers(base, spare, seek, seekSpare, LaneCount)
      invariant Entries(seek) == Reduce(Power(M, done, LaneCount), LaneCount, MBIG)
      invariant Entries(base) == Reduce(Power(M, stride, LaneCount), LaneCount, MBIG)
      invariant done + stride * e == blockOffset
      decreases e
    {
      Halve(done, stride, e);
      if e % 2 == 1 {
        MultiplyPowers(seekSpare, seek, base, M, done, stride);
        seek, seekSpare := seekSpare, seek;
        done := done + stride;
      }
      e := e / 2;
      assert done + (stride + stride) * e == blockOffset;
      if e == 0 {
        assert done == blockOffset;
        break;
      }
      MultiplyPowers(spare, base, base, M, stride, stride);
      base, spare := spare, base;
      stride := stride + stride;
    }
    ReducedHolds(seek, Power(M, blockOffset, LaneCount), LaneCount, MBIG);
  }

  /**
   * The buffers of BlockSeek: a copy of the matrix (its first power), the
   * identity (its zeroth power) as the seek matrix, and two scratch matrices.
   */
  method PowerBuffers(matrix: array2<nat>) returns (base: array2<nat>, spare: array2<nat>, seek: array2<nat>, seekSpare: array2<nat>)
    requires IsMatrix(matrix, LaneCount, MBIG)
    ensures fresh(base) && fresh(spare) && fresh(seek) && fresh(seekSpare)
    ensures Buffers(base, spare, seek, seekSpare, LaneCount)
    ensures Entries(seek) == Reduce(Power(Entries(matrix), 0, LaneCount), LaneCount, MBIG)
    ensures Entries(base) == Reduce(Power(Entries(matrix), 1, LaneCount), LaneCount, MBIG)
  {
    ghost var M := Entries(matrix);
    base := CloneMatrix(matrix);
    spare := new nat[LaneCount, LaneCount]((i, j) => 0);
    seek := new nat[LaneCount, LaneCount]((i, j) => if i == j then 1 else 0);
    seekSpare := new nat[LaneCount, LaneCount]((i, j) => 0);
    PowerOne(M, LaneCount);
    EntriesAt(seek);
    HoldsReduced(base, Power(M, 1, LaneCount), LaneCount, MBIG);
    HoldsReduced(seek, Power(M, 0, LaneCount), LaneCount, MBIG);
  }

  /**
   * destination := x y modulo MBIG; when x and y hold the powers a and b of
   * M reduced modulo MBIG, destination holds M^(a+b) reduced modulo MBIG.
   */
  method MultiplyPowers(destination: array2<nat>, x: array2<nat>, y: array2<nat>, ghost M: Mat, ghost a: nat, ghost b: nat)
    requires destination.Length0 == LaneCount && destination.Length1 == LaneCount
    requires x.Length0 == LaneCount && x.Length1 == LaneCount && y.Length0 == LaneCount && y.Length1 == LaneCount
    requires destination != x && destination != y
    requires Entries(x) == Reduce(Power(M, a, LaneCount), LaneCount, MBIG)
    requires Entries(y) == Reduce(Power(M, b, LaneCount), LaneCount, MBIG)
    modifies destination
    ensures Entries(destination) == Reduce(Power(M, a + b, LaneCount), LaneCount, MBIG)
  {
    ReducedHolds(x, Power(M, a, LaneCount), LaneCount, MBIG);
    ReducedHolds(y, Power(M, b, LaneCount), LaneCount, MBIG);
    MultiplyMatrix(destination, x, y);
    ProductEntries(destination, Entries(x), Entries(y), LaneCount, MBIG);
    PowerStep(M, Entries(x), Entries(y), Entries(destination), a, b, LaneCount, MBIG);
    HoldsReduced(destination, Power(M, a + b, LaneCount), LaneCount, MBIG);
  }

  /** SeedArray, the cursors inext and inextp, and the two transition matrices. */
  class DotNetGenerator {
    const seedArray: array<int>
    var inext: nat
    var inextp: nat
    const nextMatrix: array2<nat>
    const previousMatrix: array2<nat>

    ghost function Snapshot(): DotNetState
      reads this, seedArray
    {
      DotNetState(seedArray[..], inext, inextp)
    }

    ghost predicate Valid()
      reads this, seedArray, nextMatrix, previousMatrix
    {
      Shaped(Snapshot()) &&
      IsMatrix(nextMatrix, LaneCount, MBIG) && Entries(nextMatrix) == NextMatrix() &&
      IsMatrix(previousMatrix, LaneCount, MBIG) && Entries(previousMatrix) == PreviousMatrix()
    }

    /** The constructor builds both transition matrices and leaves SeedArray and the cursors zero. */
    constructor ()
      ensures Valid() && fresh(seedArray)
      ensures Snapshot() == DotNetState(seq(ArrayLength, i => 0), 0, 0)
    {
      var next := GenerateNextMatrix();
      var previous := GeneratePreviousMatrix();
      seedArray := new int[ArrayLength](i => 0);
      inext, inextp := 0, 0;
      nextMatrix, previousMatrix := next, previous;
    }

    /**
     * Seed: the fill from the low 31 bits of the seed, four mixing passes,
     * then inext = 0 and inextp = 21.
     */
    method Seed(seed: nat)
      requires Valid() && LcgBase.IsULong(seed)
      modifies this, seedArray
      ensures Valid() && Snapshot() == SeededState(seed, old(seedArray[..]))
    {
      var key := seed % TWO31;
      FillLanes(key);
      ghost var filled := seedArray[..];
      ghost var c: nat := 0;
      for k := 1 to 5
        invariant c == 55 * (k - 1) && c % LaneCount == 0
        invariant seedArray[..] == Mix(filled, c)
      {
        MixPass(filled, c);
        ModAddMultiple(c, 1, LaneCount);
        c := c + LaneCount;
      }
      inext := 0;
      inextp := Gap;
    }

    /** The fill loop of Seed: lane 55 and then lanes 21i mod 55 for i = 1..54. */
    method FillLanes(key: nat)
      requires |seedArray[..]| == ArrayLength && AllInt32(seedArray[..]) && key < TWO31
      modifies seedArray
      ensures seedArray[..] == Fill(old(seedArray[..]), key, FillSteps).lanes
    {
      ghost var start := seedArray[..];
      var mj := MSEED - key;
      seedArray[LaneCount] := mj;
      var mk := 1;
      for i := 1 to LaneCount
        invariant FillState(seedArray[..], mj, mk) == Fill(start, key, i - 1)
      {
        var ii := (21 * i) % LaneCount;
        seedArray[ii] := mk;
        mk := Wrap(mj - mk);
        if mk < 0 {
          mk := mk + MBIG;
        }
        mj := seedArray[ii];
        assert FillState(seedArray[..], mj, mk) == Fill(start, key, i);
      }
    }

    /** One pass of the mixing loops over lanes 1..55. */
    method MixPass(ghost filled: seq<int>, ghost c: nat)
      requires |filled| == ArrayLength && AllInt32(filled)
      requires seedArray[..] == Mix(filled, c) && c % 55 == 0
      modifies seedArray
      ensures seedArray[..] == Mix(filled, c + 55)
    {
      for i := 1 to ArrayLength
        invariant seedArray[..] == Mix(filled, c + (i - 1))
      {
        MixAt(filled, c, i);
        var x := Wrap(seedArray[i] - seedArray[1 + (i + 30) % LaneCount]);
        if x < 0 {
          x := x + MBIG;
        }
        assert x == Subtract(seedArray[i], seedArray[1 + (i + 30) % LaneCount]);
        assert seedArray[..][i := x] == MixStep(seedArray[..], i);
        seedArray[i] := x;
      }
    }

    /** Next: both cursors advance, lane inext less lane inextp (plus MBIG when negative) is stored and returned. */
    method Next() returns (r: nat)
      requires Valid()
      modifies this, seedArray
      ensures Valid()
      ensures r == Forward(old(Snapshot())).0 && Snapshot() == Forward(old(Snapshot())).1
    {
      var locINext := inext + 1;
      if locINext >= ArrayLength {
        locINext := 1;
      }
      var locINextp := inextp + 1;
      if locINextp >= ArrayLength {
        locINextp := 1;
      }
      var retVal := Wrap(seedArray[locINext] - seedArray[locINextp]);
      if retVal < 0 {
        retVal := retVal + MBIG;
      }
      seedArray[locINext] := retVal;
      inext, inextp := locINext, locINextp;
      r := retVal % TWO64;
    }

    /**
     * Previous: lane inext (0 read as 55) takes back lane inextp and both
     * cursors retreat; its former value is returned. From the unseeded
     * cursors (inextp = 0) the source leaves inextp at -1, so the model asks
     * for inextp != 0.
     */
    method Previous() returns (r: nat)
      requires Valid() && inextp != 0
      modifies this, seedArray
      ensures Valid()
      ensures r == Backward(old(Snapshot())).0 && Snapshot() == Backward(old(Snapshot())).1
    {
      var i := inext;
      if i == 0 {
        i := LaneCount;
      }
      var current := seedArray[i];
      var sum := Wrap(current + seedArray[inextp]);
      if sum % TWO32 >= MBIG {
        sum := Wrap(sum - MBIG);
      }
      assert sum == AddBack(current, seedArray[inextp]);
      seedArray[i] := sum;
      var locINext := i - 1;
      if locINext == 0 {
        locINext := LaneCount;
      }
      var locINextp := inextp - 1;
      if locINextp == 0 {
        locINextp := LaneCount;
      }
      inext, inextp := locINext, locINextp;
      r := current % TWO64;
    }

    /** Step: Next offset times, or Previous -offset times. */
    method Step(offset: int)
      requires Valid() && (offset >= 0 || inextp != 0)
      modifies this, seedArray
      ensures Valid() && Snapshot() == Steps(old(Snapshot()), offset)
    {
      ghost var start := Snapshot();
      if offset < 0 {
        var remaining := offset;
        while remaining != 0
          invariant offset <= remaining <= 0
          invariant Valid() && Snapshot() == WalkBack(start, remaining - offset)
          decreases -remaining
        {
          var discarded := Previous();
          remaining := remaining + 1;
        }
      } else {
        var remaining := offset;
        while remaining != 0
          invariant 0 <= remaining <= offset
          invariant Valid() && Snapshot() == Walk(start, offset - remaining)
        {
          var discarded := Next();
          remaining := remaining - 1;
        }
      }
    }

    /** BlockSeek: lanes 1..55 become the power of the matrix times the lanes, modulo MBIG. */
    method BlockSeek(blockOffset: nat, matrix: array2<nat>)
      requires Valid() && IsMatrix(matrix, LaneCount, MBIG)
      modifies seedArray
      ensures Valid()
      ensures Snapshot() == BlockState(old(Snapshot()), Power(Entries(matrix), blockOffset, LaneCount))
    {
      ghost var V := seedArray[..];
      ghost var P := Power(Entries(matrix), blockOffset, LaneCount);
      var seek := MatrixPower(matrix, blockOffset);
      var newstate := SeekLanes(seek);
      forall i | 0 <= i < LaneCount {
        seedArray[1 + i] := newstate[i];
      }
      assert seedArray[..] == V[..1] + JumpLanes(P, V[1..]);
    }

    /** The new lanes of BlockSeek, each a row of the seek matrix times lanes 1..55. */
    method SeekLanes(seek: array2<nat>) returns (newstate: array<int>)
      requires Valid() && IsMatrix(seek, LaneCount, MBIG)
      ensures fresh(newstate) && newstate.Length == LaneCount
      ensures forall t :: 0 <= t < LaneCount ==> newstate[t] == RowSum(Entries(seek), seedArray[1..], t, LaneCount) % MBIG
    {
      ghost var S, V := Entries(seek), seedArray[1..];
      newstate := new int[LaneCount];
      for i := 0 to LaneCount
        invariant Valid() && seedArray[1..] == V && IsMatrix(seek, LaneCount, MBIG) && Entries(seek) == S
        invariant forall t :: 0 <= t < i ==> newstate[t] == RowSum(S, V, t, LaneCount) % MBIG
      {
        var accumulator := RowTimesLanes(seek, i);
        newstate[i] := accumulator;
      }
    }

    /** Row i of the seek matrix times lanes 1..55, in a uint accumulator kept below MBIG. */
    method RowTimesLanes(seek: array2<nat>, i: nat) returns (accumulator: nat)
      requires Valid() && IsMatrix(seek, LaneCount, MBIG) && i < LaneCount
      ensures accumulator == RowSum(Entries(seek), seedArray[1..], i, LaneCount) % MBIG
    {
      ghost var S, V := Entries(seek), seedArray[1..];
      EntriesAt(seek);
      accumulator := 0;
      for k := 0 to LaneCount
        invariant accumulator == RowSum(S, V, i, k) % MBIG
      {
        var term := ((seek[i, k] * (seedArray[1 + k] % TWO64)) % TWO64) % MBIG;
        assert seedArray[1 + k] == V[k];
        assert term == BlockTerm(At(S, i, k), V[k]);
        ghost var sum := accumulator + term;
        assert RowSum(S, V, i, k + 1) == RowSum(S, V, i, k) + term;
        ModAdd(RowSum(S, V, i, k), term, MBIG);
        ModSmall(term, MBIG);
        accumulator := accumulator + term;
        if accumulator >= MBIG {
          accumulator := accumulator - MBIG;
          ModAddMultiple(accumulator, 1, MBIG);
        }
        ModSmall(accumulator, MBIG);
        assert accumulator == sum % MBIG;
      }
    }

    /**
     * SeekAhead: offsets below 55 step one at a time; larger offsets step
     * inext to 55, jump whole blocks with the Next matrix and step the
     * residual.
     */
    method SeekAhead(offset: nat)
      requires Valid() && LcgBase.IsULong(offset) && inextp != 0
      modifies this, seedArray
      ensures Valid()
      ensures offset < LaneCount ==> Snapshot() == Walk(old(Snapshot()), offset)
      ensures offset >= LaneCount ==>
        var (alignment, blocks, residual) := AheadPlan(offset, old(inext));
        Snapshot() == Steps(Jump(Walk(old(Snapshot()), alignment), NextMatrix(), blocks), residual)
    {
      if offset < LaneCount {
        Step(offset);
        return;
      }
      ghost var start := Snapshot();
      var rest := offset;
      if inext != 0 && inext != LaneCount {
        var steps := LaneCount - inext;
        Step(steps);
        rest := rest - steps;
      }
      assert AheadPlan(offset, start.inext) == (offset - rest, AheadSplit(rest).0, AheadSplit(rest).1);
      assert Snapshot() == Walk(start, offset - rest);
      JumpAhead(rest);
    }

    /** The rest of SeekAhead: whole blocks with the Next matrix, then the residual steps. */
    method JumpAhead(rest: nat)
      requires Valid() && inextp != 0
      modifies this, seedArray
      ensures Valid()
      ensures var (blocks, residual) := AheadSplit(rest);
        Snapshot() == Steps(Jump(old(Snapshot()), NextMatrix(), blocks), residual)
    {
      ghost var aligned := Snapshot();
      var blockoffset := rest / LaneCount;
      var steps: int := rest % LaneCount;
      if steps >= 28 {
        blockoffset := blockoffset + 1;
        steps := steps - LaneCount;
      }
      if blockoffset != 0 {
        BlockSeek(blockoffset, nextMatrix);
      }
      assert Snapshot() == Jump(aligned, NextMatrix(), blockoffset);
      Step(steps);
    }

    /**
     * SeekBack: offsets below 55 step back one at a time; larger offsets
     * step inext back to 0, jump whole blocks back with the Previous matrix
     * and step the residual.
     */
    method SeekBack(offset: nat)
      requires Valid() && LcgBase.IsULong(offset) && inextp != 0
      modifies this, seedArray
      ensures Valid()
      ensures offset < LaneCount ==> Snapshot() == WalkBack(old(Snapshot()), offset)
      ensures offset >= LaneCount ==>
        var (alignment, blocks, residual) := BackPlan(offset, old(inext));
        Snapshot() == Steps(Jump(WalkBack(old(Snapshot()), alignment), PreviousMatrix(), blocks), residual)
    {
      if offset < LaneCount {
        Step(-(offset as int));
        return;
      }
      ghost var start := Snapshot();
      var rest := offset;
      if inext != 0 && inext != LaneCount {
        var steps := inext;
        Step(-(steps as int));
        rest := rest - steps;
      }
      assert BackPlan(offset, start.inext) == (offset - rest, BackSplit(rest).0, BackSplit(rest).1);
      assert Snapshot() == WalkBack(start, offset - rest);
      JumpBack(rest);
    }

    /** The rest of SeekBack: whole blocks with the Previous matrix, then the residual steps. */
    method JumpBack(rest: nat)
      requires Valid() && inextp != 0
      modifies this, seedArray
      ensures Valid()
      ensures var (blocks, residual) := BackSplit(rest);
        Snapshot() == Steps(Jump(old(Snapshot()), PreviousMatrix(), blocks), residual)
    {
      ghost var aligned := Snapshot();
      var blockoffset := rest / LaneCount;
      var steps: int := -(rest % LaneCount);
      if steps <= -28 {
        blockoffset := blockoffset + 1;
        steps := steps + LaneCount;
      }
      if blockoffset != 0 {
        BlockSeek(blockoffset, previousMatrix);
      }
      assert Snapshot() == Jump(aligned, PreviousMatrix(), blockoffset);
      Step(steps);
    }
  }
}

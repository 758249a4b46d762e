/**
 * PrngPureBasic: the generator of PureBasic's RandomSeed and Random, a
 * RANROT type B generator on two buffers of 17 uint lanes. Next combines the
 * lane at the cursor p1, rotated, with the lane at the cursor p2 in each
 * buffer, stores each result crosswise into the other buffer and moves both
 * cursors down; Previous moves them back up and undoes the stores.
 *
 * Lanes are naturals below 2^32 and the uint arithmetic is written out:
 * x + y and x - y are taken modulo 2^32, x >> k is x / 2^k, x << k is
 * (x * 2^k) mod 2^32, and the | of a rotation joins two parts whose set
 * bits do not overlap, so it is their sum.
 */
module PureBasic {
  import opened Common
  import LcgBase

  const KK: nat := 17
  /** The seeding multiplier, attributed to L'Ecuyer. */
  const SeedMultiplier: nat := 2891336453
  /** The inverse of SeedMultiplier modulo 2^32. */
  const SeedMultiplierInverse: nat := 3694381517
  /** The distance from p1 to p2 set by Seed. */
  const Gap: nat := 10
  /** The number of outputs Seed discards. */
  const Discards: nat := 31
  const MinimumSeed: nat := 0
  const MaximumSeed: nat := 0xFFFF_FFFF
  const CanReverse: bool := true

  /** The uint (x >> k) | (x << (32 - k)) for a = 2^k and b = 2^(32 - k). */
  function Rotate(x: nat, a: nat, b: nat): (r: nat)
    requires x < TWO32 && 0 < a && 0 < b && a * b == TWO32
    ensures r < TWO32
  {
    ShiftedOut(x, a, b);
    DivBound(x, a, b);
    MulLe(x % a, a - 1, b);
    x / a + (x * b) % TWO32
  }

  /** Shifting left by b drops the bits of x above a, the complement of b. */
  lemma ShiftedOut(x: nat, a: nat, b: nat)
    requires 0 < a && 0 < b && a * b == TWO32
    ensures (x * b) % TWO32 == (x % a) * b
  {
    var h, l := x / a, x % a;
    assert x * b == l * b + h * TWO32 by {
      assert x == h * a + l;
      assert x * b == h * (a * b) + l * b;
    }
    MulLe(l, a - 1, b);
    ModAddMultiple(l * b, h, TWO32);
    ModSmall(l * b, TWO32);
  }

  /** Rotating right by k and then left by k gives x back. */
  lemma RotateBack(x: nat, a: nat, b: nat)
    requires x < TWO32 && 0 < a && 0 < b && a * b == TWO32
    ensures Rotate(Rotate(x, a, b), b, a) == x
  {
    var h, l := x / a, x % a;
    DivBound(x, a, b);
    ShiftedOut(x, a, b);
    var y := Rotate(x, a, b);
    assert y == h + l * b;
    DivModUnique(y, b, l, h);
    ShiftedOut(y, b, a);
  }

  function RotateRight13(x: nat): (r: nat)
    requires x < TWO32
    ensures r < TWO32
  {
    Rotate(x, 0x2000, 0x8_0000)
  }

  function RotateLeft13(x: nat): (r: nat)
    requires x < TWO32
    ensures r < TWO32
  {
    Rotate(x, 0x8_0000, 0x2000)
  }

  function RotateRight5(x: nat): (r: nat)
    requires x < TWO32
    ensures r < TWO32
  {
    Rotate(x, 0x20, 0x800_0000)
  }

  function RotateLeft5(x: nat): (r: nat)
    requires x < TWO32
    ensures r < TWO32
  {
    Rotate(x, 0x800_0000, 0x20)
  }

  /** The rotations of Next and Previous undo one another. */
  lemma RotationsUndo(x: nat)
    requires x < TWO32
    ensures RotateLeft13(RotateRight13(x)) == x && RotateRight13(RotateLeft13(x)) == x
    ensures RotateLeft5(RotateRight5(x)) == x && RotateRight5(RotateLeft5(x)) == x
  {
    RotateBack(x, 0x2000, 0x8_0000);
    RotateBack(x, 0x8_0000, 0x2000);
    RotateBack(x, 0x20, 0x800_0000);
    RotateBack(x, 0x800_0000, 0x20);
  }

  /** Subtracting the lane that was added gives the other summand back, in uint arithmetic. */
  lemma AddThenSubtract(x: nat, y: nat)
    requires x < TWO32 && y < TWO32
    ensures ((x + y) % TWO32 - y) % TWO32 == x
  {
    if x + y >= TWO32 {
      ModAddMultiple(x + y - TWO32, 1, TWO32);
      ModSmall(x + y - TWO32, TWO32);
      ModAddMultiple(x, -1, TWO32);
    } else {
      ModSmall(x + y, TWO32);
    }
    ModSmall(x, TWO32);
  }

  /** Adding the lane that was subtracted gives the minuend back, in uint arithmetic. */
  lemma SubtractThenAdd(x: nat, y: nat)
    requires x < TWO32 && y < TWO32
    ensures ((x - y) % TWO32 + y) % TWO32 == x
  {
    if x < y {
      ModAddMultiple(x - y + TWO32, -1, TWO32);
      ModSmall(x - y + TWO32, TWO32);
      ModAddMultiple(x, 1, TWO32);
    } else {
      ModSmall(x - y, TWO32);
    }
    ModSmall(x, TWO32);
  }

  /** Previous recovers a lane from the lane Next stored and the lane it added. */
  lemma RecoverLane(x: nat, c: nat)
    requires x < TWO32 && c < TWO32
    ensures RotateLeft13(((RotateRight13(x) + c) % TWO32 - c) % TWO32) == x
    ensures RotateLeft5(((RotateRight5(x) + c) % TWO32 - c) % TWO32) == x
  {
    AddThenSubtract(RotateRight13(x), c);
    AddThenSubtract(RotateRight5(x), c);
    RotationsUndo(x);
  }

  /** Next recomputes the lane Previous read from the lane Previous restored. */
  lemma RecomputeLane(a: nat, c: nat)
    requires a < TWO32 && c < TWO32
    ensures (RotateRight13(RotateLeft13((a - c) % TWO32)) + c) % TWO32 == a
    ensures (RotateRight5(RotateLeft5((a - c) % TWO32)) + c) % TWO32 == a
  {
    RotationsUndo((a - c) % TWO32);
    SubtractThenAdd(a, c);
  }

  /** The two buffers and the two cursors. */
  datatype PureBasicState = PureBasicState(buffer1: seq<nat>, buffer2: seq<nat>, p1: nat, p2: nat)

  /** Every lane a uint. */
  ghost predicate Words(s: seq<nat>) {
    forall i :: 0 <= i < |s| ==> s[i] < TWO32
  }

  ghost predicate Shaped(st: PureBasicState) {
    |st.buffer1| == KK && |st.buffer2| == KK && st.p1 < KK && st.p2 < KK && Words(st.buffer1) && Words(st.buffer2)
  }

  /** p2 is 10 lanes above p1, modulo 17. */
  ghost predicate CursorGap(st: PureBasicState) {
    st.p2 == if st.p1 + Gap < KK then st.p1 + Gap else st.p1 + Gap - KK
  }

  /** The cursor step of Next: 0 wraps to 16. */
  function Down(c: nat): (r: nat)
    requires c < KK
    ensures r < KK && Up(r) == c
  {
    (if c == 0 then KK else c) - 1
  }

  /** The cursor step of Previous: 17 wraps to 0. */
  function Up(c: nat): (r: nat)
    requires c < KK
    ensures r < KK
  {
    if c + 1 == KK then 0 else c + 1
  }

  /** Next: the value x1 returned and the state left. */
  function Forward(st: PureBasicState): (r: (nat, PureBasicState))
    requires Shaped(st)
    ensures Shaped(r.1) && r.0 < TWO32
  {
    var x1 := (RotateRight13(st.buffer1[st.p1]) + st.buffer1[st.p2]) % TWO32;
    var x2 := (RotateRight5(st.buffer2[st.p1]) + st.buffer2[st.p2]) % TWO32;
    (x1, PureBasicState(st.buffer1[st.p1 := x2], st.buffer2[st.p1 := x1], Down(st.p1), Down(st.p2)))
  }

  /** Previous: the value returned and the state left. */
  function Backward(st: PureBasicState): (r: (nat, PureBasicState))
    requires Shaped(st)
    ensures Shaped(r.1) && r.0 < TWO32
  {
    var p1, p2 := Up(st.p1), Up(st.p2);
    var x1 := st.buffer2[p1];
    var x2 := st.buffer1[p1];
    var buffer1 := st.buffer1[p1 := RotateLeft13((x1 - st.buffer1[p2]) % TWO32)];
    (x1, PureBasicState(buffer1, st.buffer2[p1 := RotateLeft5((x2 - st.buffer2[p2]) % TWO32)], p1, p2))
  }

  /** Both steps keep the cursors 10 apart, so p1 and p2 never meet. */
  lemma StepsKeepCursorGap(st: PureBasicState)
    requires Shaped(st) && CursorGap(st)
    ensures st.p1 != st.p2
    ensures CursorGap(Forward(st).1) && CursorGap(Backward(st).1)
  {
  }

  /** Next on a state whose cursor lanes are named. */
  lemma ForwardAt(st: PureBasicState, p1: nat, p2: nat, a1: nat, a2: nat, c1: nat, c2: nat)
    requires Shaped(st) && p1 == st.p1 && p2 == st.p2
    requires a1 == st.buffer1[p1] && a2 == st.buffer2[p1] && c1 == st.buffer1[p2] && c2 == st.buffer2[p2]
    ensures var x1, x2 := (RotateRight13(a1) + c1) % TWO32, (RotateRight5(a2) + c2) % TWO32;
      Forward(st) == (x1, PureBasicState(st.buffer1[p1 := x2], st.buffer2[p1 := x1], Down(p1), Down(p2)))
  {
  }

  /** Previous on a state whose cursor lanes are named. */
  lemma BackwardAt(st: PureBasicState, p1: nat, p2: nat, x1: nat, x2: nat, c1: nat, c2: nat)
    requires Shaped(st) && st.p1 < KK && st.p2 < KK && p1 == Up(st.p1) && p2 == Up(st.p2)
    requires x1 == st.buffer2[p1] && x2 == st.buffer1[p1] && c1 == st.buffer1[p2] && c2 == st.buffer2[p2]
    ensures Backward(st) == (x1, PureBasicState(st.buffer1[p1 := RotateLeft13((x1 - c1) % TWO32)],
                                                st.buffer2[p1 := RotateLeft5((x2 - c2) % TWO32)], p1, p2))
  {
  }

  /** Previous after Next restores both buffers and both cursors and returns what Next returned. */
  lemma BackwardUndoesForward(st: PureBasicState)
    requires Shaped(st) && CursorGap(st)
    ensures Backward(Forward(st).1).1 == st
    ensures Backward(Forward(st).1).0 == Forward(st).0
  {
    var p1, p2 := st.p1, st.p2;
    var b1, b2 := st.buffer1, st.buffer2;
    var x1 := (RotateRight13(b1[p1]) + b1[p2]) % TWO32;
    var x2 := (RotateRight5(b2[p1]) + b2[p2]) % TWO32;
    var next := PureBasicState(b1[p1 := x2], b2[p1 := x1], Down(p1), Down(p2));
    assert Forward(st) == (x1, next);
    assert Up(next.p1) == p1 && Up(next.p2) == p2;
    assert next.buffer2[p1] == x1 && next.buffer1[p1] == x2;
    assert next.buffer1[p2] == b1[p2] && next.buffer2[p2] == b2[p2];
    var y1 := RotateLeft13((x1 - b1[p2]) % TWO32);
    var y2 := RotateLeft5((x2 - b2[p2]) % TWO32);
    assert y1 == b1[p1] by {
      RecoverLane(b1[p1], b1[p2]);
    }
    assert y2 == b2[p1] by {
      RecoverLane(b2[p1], b2[p2]);
    }
    BackwardAt(next, p1, p2, x1, x2, b1[p2], b2[p2]);
    assert next.buffer1[p1 := y1] == b1 && next.buffer2[p1 := y2] == b2;
  }

  /** Next after Previous restores both buffers and both cursors and returns what Previous returned. */
  lemma ForwardUndoesBackward(st: PureBasicState)
    requires Shaped(st) && CursorGap(st)
    ensures Forward(Backward(st).1).1 == st
    ensures Forward(Backward(st).1).0 == Backward(st).0
  {
    var p1, p2 := Up(st.p1), Up(st.p2);
    var b1, b2 := st.buffer1, st.buffer2;
    var y1 := RotateLeft13((b2[p1] - b1[p2]) % TWO32);
    var y2 := RotateLeft5((b1[p1] - b2[p2]) % TWO32);
    var back := PureBasicState(b1[p1 := y1], b2[p1 := y2], p1, p2);
    assert Backward(st) == (b2[p1], back);
    assert Down(p1) == st.p1 && Down(p2) == st.p2;
    assert back.buffer1[p1] == y1 && back.buffer2[p1] == y2;
    assert back.buffer1[p2] == b1[p2] && back.buffer2[p2] == b2[p2];
    var x1 := (RotateRight13(y1) + b1[p2]) % TWO32;
    var x2 := (RotateRight5(y2) + b2[p2]) % TWO32;
    assert x1 == b2[p1] by {
      RecomputeLane(b2[p1], b1[p2]);
    }
    assert x2 == b1[p1] by {
      RecomputeLane(b1[p1], b2[p2]);
    }
    ForwardAt(back, p1, p2, y1, y2, b1[p2], b2[p2]);
    assert back.buffer1[p1 := x2] == b1 && back.buffer2[p1 := x1] == b2;
  }

  /** The state after n calls of Next. */
  function Walk(st: PureBasicState, n: nat): (r: PureBasicState)
    requires Shaped(st)
    ensures Shaped(r)
  {
    if n == 0 then st else Forward(Walk(st, n - 1)).1
  }

  /** The state after n calls of Previous. */
  function WalkBack(st: PureBasicState, n: nat): (r: PureBasicState)
    requires Shaped(st)
    ensures Shaped(r)
  {
    if n == 0 then st else Backward(WalkBack(st, n - 1)).1
  }

  /** Walking keeps the cursor gap. */
  lemma {:induction false} WalkKeepsCursorGap(st: PureBasicState, n: nat)
    requires Shaped(st) && CursorGap(st)
    ensures CursorGap(Walk(st, n))
  {
    if n > 0 {
      WalkKeepsCursorGap(st, n - 1);
      StepsKeepCursorGap(Walk(st, n - 1));
    }
  }

  /** n calls of Next after one call end where n + 1 calls end. */
  lemma {:induction false} WalkShift(st: PureBasicState, n: nat)
    requires Shaped(st)
    ensures Walk(Forward(st).1, n) == Walk(st, n + 1)
  {
    if n > 0 {
      WalkShift(st, n - 1);
    }
  }

  /** n calls of Previous undo n calls of Next. */
  lemma {:induction false} WalkBackUndoesWalk(st: PureBasicState, n: nat)
    requires Shaped(st) && CursorGap(st)
    ensures WalkBack(Walk(st, n), n) == st
    decreases n
  {
    if n > 0 {
      var next := Forward(st).1;
      StepsKeepCursorGap(st);
      WalkShift(st, n - 1);
      WalkBackUndoesWalk(next, n - 1);
      BackwardUndoesForward(st);
    }
  }

  /** One step of the seeding generator, s * 2891336453 + 1 in uint arithmetic. */
  function SeedStep(s: nat): (r: nat)
    ensures r < TWO32
  {
    (s * SeedMultiplier + 1) % TWO32
  }

  /** The step before: (r - 1) times the inverse multiplier, modulo 2^32. */
  function SeedUnstep(r: nat): (s: nat)
    ensures s < TWO32
  {
    ((r as int - 1) * SeedMultiplierInverse) % TWO32
  }

  /** The seeding step is a bijection on uints: SeedUnstep undoes it. */
  lemma SeedUnstepUndoes(s: nat)
    requires s < TWO32
    ensures SeedUnstep(SeedStep(s)) == s
  {
    var x: int := s * SeedMultiplier;
    var u := SeedStep(s);
    var q: int := (x + 1) / TWO32;
    var d: int := u as int - 1;
    assert d == x + (-q) * TWO32;
    ModAddMultiple(x, -q, TWO32);
    ModMul(d, SeedMultiplierInverse, TWO32);
    ModMul(x, SeedMultiplierInverse, TWO32);
    // 2891336453 * 3694381517 == 1 + 2487027075 * 2^32
    assert x * SeedMultiplierInverse == s + (s * 2487027075) * TWO32;
    ModAddMultiple(s, s * 2487027075, TWO32);
    ModSmall(s, TWO32);
  }

  /** The seeding generator after n steps from s. */
  function SeedIterate(s: nat, n: nat): (r: nat)
    ensures r < TWO32 || n == 0
  {
    if n == 0 then s else SeedStep(SeedIterate(s, n - 1))
  }

  /** The uint cast of the seed: its low 32 bits. */
  function SeedWord(seed: nat): (r: nat)
    ensures r < TWO32
  {
    seed % TWO32
  }

  /** The buffers Seed fills before its discards: lane i takes steps 2i + 1 and 2i + 2. */
  function Filled(seed: nat): (r: PureBasicState)
    ensures Shaped(r) && CursorGap(r)
  {
    var s := SeedWord(seed);
    PureBasicState(seq(KK, i requires 0 <= i => SeedIterate(s, 2 * i + 1)), seq(KK, i requires 0 <= i => SeedIterate(s, 2 * i + 2)), 0, Gap)
  }

  /** The state Seed leaves: the filled buffers after 31 discarded outputs. */
  function SeededState(seed: nat): (r: PureBasicState)
    ensures Shaped(r)
  {
    Walk(Filled(seed), Discards)
  }

  /** A seeded state has its cursors 10 apart, so Previous undoes Next from it on. */
  lemma SeededKeepsGap(seed: nat)
    ensures CursorGap(SeededState(seed))
  {
    WalkKeepsCursorGap(Filled(seed), Discards);
  }

  /** The first lane of buffer 1 determines the low 32 bits of the seed. */
  lemma FilledDiffer(seed1: nat, seed2: nat)
    ensures Filled(seed1) == Filled(seed2) ==> seed1 % TWO32 == seed2 % TWO32
  {
    var s1, s2 := SeedWord(seed1), SeedWord(seed2);
    assert Filled(seed1).buffer1[0] == SeedIterate(s1, 1) == SeedStep(s1);
    assert Filled(seed2).buffer1[0] == SeedIterate(s2, 1) == SeedStep(s2);
    SeedUnstepUndoes(s1);
    SeedUnstepUndoes(s2);
  }

  /** Seeds with the same low 32 bits leave the same state and seeds with different low 32 bits different states. */
  lemma SeedsDiffer(seed1: nat, seed2: nat)
    ensures seed1 % TWO32 == seed2 % TWO32 ==> SeededState(seed1) == SeededState(seed2)
    ensures seed1 % TWO32 != seed2 % TWO32 ==> SeededState(seed1) != SeededState(seed2)
  {
    var f1, f2 := Filled(seed1), Filled(seed2);
    WalkBackUndoesWalk(f1, Discards);
    WalkBackUndoesWalk(f2, Discards);
    FilledDiffer(seed1, seed2);
    assert SeededState(seed1) == Walk(f1, Discards) && SeededState(seed2) == Walk(f2, Discards);
  }

  /** Previous(limit) after Next(limit) scales the same raw value, and both stay below a limit from 1 to 2^32. */
  lemma LimitedRoundTrip(st: PureBasicState, limit: nat)
    requires Shaped(st) && CursorGap(st)
    ensures ScaleToLimit(Backward(Forward(st).1).0, limit) == ScaleToLimit(Forward(st).0, limit)
    ensures 0 < limit <= TWO32 ==> ScaleToLimit(Forward(st).0, limit) < limit && ScaleToLimit(Backward(st).0, limit) < limit
  {
    BackwardUndoesForward(st);
    if 0 < limit <= TWO32 {
      ScaleToLimitBelow(Forward(st).0, limit);
      ScaleToLimitBelow(Backward(st).0, limit);
    }
  }

  /** The two buffers _RandBuffer1 and _RandBuffer2 and the cursors _p1 and _p2. */
  class PureBasicGenerator {
    const buffer1: array<nat>
    const buffer2: array<nat>
    var p1: nat
    var p2: nat

    ghost function Snapshot(): PureBasicState
      reads this, buffer1, buffer2
    {
      PureBasicState(buffer1[..], buffer2[..], p1, p2)
    }

    ghost predicate Valid()
      reads this, buffer1, buffer2
    {
      buffer1 != buffer2 && Shaped(Snapshot())
    }

    /** An unseeded generator: zero buffers and both cursors at 0. */
    constructor ()
      ensures Valid() && fresh(buffer1) && fresh(buffer2)
      ensures Snapshot() == PureBasicState(seq(KK, i => 0), seq(KK, i => 0), 0, 0)
    {
      buffer1 := new nat[KK](i => 0);
      buffer2 := new nat[KK](i => 0);
      p1, p2 := 0, 0;
    }

    /** Seed: fill both buffers from the seeding generator, set the cursors and discard 31 outputs. */
    method Seed(seed: nat)
      requires Valid() && LcgBase.IsULong(seed)
      modifies this, buffer1, buffer2
      ensures Valid() && Snapshot() == SeededState(seed)
    {
      FillBuffers(seed);
      p1 := 0;
      p2 := Gap;
      assert Snapshot() == Filled(seed);
      for i := 0 to Discards
        invariant Valid() && Snapshot() == Walk(Filled(seed), i)
      {
        var discarded := Next();
      }
    }

    /** The fill loop of Seed: two seeding steps per lane, one for each buffer. */
    method FillBuffers(seed: nat)
      requires Valid()
      modifies buffer1, buffer2
      ensures Valid()
      ensures buffer1[..] == Filled(seed).buffer1 && buffer2[..] == Filled(seed).buffer2
    {
      var s := seed % TWO32;
      ghost var s0 := s;
      for i := 0 to KK
        invariant Valid() && s == SeedIterate(s0, 2 * i)
        invariant forall j :: 0 <= j < i ==> buffer1[j] == SeedIterate(s0, 2 * j + 1)
        invariant forall j :: 0 <= j < i ==> buffer2[j] == SeedIterate(s0, 2 * j + 2)
      {
        s := SeedStep(s);
        assert s == SeedIterate(s0, 2 * i + 1);
        buffer1[i] := s;
        s := SeedStep(s);
        assert s == SeedIterate(s0, 2 * i + 2);
        buffer2[i] := s;
      }
    }

    /** Next: the rotate-and-add step of both buffers at p1 and p2, stored crosswise; returns x1. */
    method Next() returns (r: nat)
      requires Valid()
      modifies this, buffer1, buffer2
      ensures Valid()
      ensures r == Forward(old(Snapshot())).0 && Snapshot() == Forward(old(Snapshot())).1
    {
      var x1 := buffer1[p1];
      x1 := (RotateRight13(x1) + buffer1[p2]) % TWO32;
      var x2 := buffer2[p1];
      x2 := (RotateRight5(x2) + buffer2[p2]) % TWO32;
      buffer1[p1] := x2;
      buffer2[p1] := x1;
      p1 := (if p1 == 0 then KK else p1) - 1;
      p2 := (if p2 == 0 then KK else p2) - 1;
      r := x1;
    }

    /** Next(limit): the high 32 bits of the 64-bit product of Next() and the limit. */
    method NextLimit(limit: nat) returns (r: nat)
      requires Valid() && LcgBase.IsULong(limit)
      modifies this, buffer1, buffer2
      ensures Valid() && Snapshot() == Forward(old(Snapshot())).1
      ensures r == ScaleToLimit(Forward(old(Snapshot())).0, limit)
      ensures 0 < limit <= TWO32 ==> r < limit
    {
      var next := Next();
      r := ((next * limit) % TWO64) / TWO32;
      if 0 < limit <= TWO32 {
        ScaleToLimitBelow(next, limit);
      }
    }

    /** Previous: move both cursors up and undo the crosswise stores of Next; returns the x1 Next had returned. */
    method Previous() returns (r: nat)
      requires Valid()
      modifies this, buffer1, buffer2
      ensures Valid()
      ensures r == Backward(old(Snapshot())).0 && Snapshot() == Backward(old(Snapshot())).1
    {
      ghost var st := Snapshot();
      p1 := p1 + 1;
      if p1 == KK {
        p1 := 0;
      }
      p2 := p2 + 1;
      if p2 == KK {
        p2 := 0;
      }
      var x1 := buffer2[p1];
      var x2 := buffer1[p1];
      BackwardAt(st, p1, p2, x1, x2, buffer1[p2], buffer2[p2]);
      var current := x1;
      x1 := (x1 - buffer1[p2]) % TWO32;
      buffer1[p1] := RotateLeft13(x1);
      x2 := (x2 - buffer2[p2]) % TWO32;
      buffer2[p1] := RotateLeft5(x2);
      r := current;
    }

    /** Previous(limit): the high 32 bits of the 64-bit product of Previous() and the limit. */
    method PreviousLimit(limit: nat) returns (r: nat)
      requires Valid() && LcgBase.IsULong(limit)
      modifies this, buffer1, buffer2
      ensures Valid() && Snapshot() == Backward(old(Snapshot())).1
      ensures r == ScaleToLimit(Backward(old(Snapshot())).0, limit)
      ensures 0 < limit <= TWO32 ==> r < limit
    {
      var previous := Previous();
      r := ((previous * limit) % TWO64) / TWO32;
      if 0 < limit <= TWO32 {
        ScaleToLimitBelow(previous, limit);
      }
    }
  }
}

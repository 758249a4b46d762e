/**
 * The linear congruential recurrence on exact integers: one step
 * s -> s*M + I (mod m), n steps, the closed form that seeking computes,
 * and stepping backwards through an inverse multiplier. The generators'
 * fixed-width code is proved against these definitions.
 */
module LcgMath {
  import opened Common

  /** One step of the recurrence, reduced modulo m and free of any wrap-around. */
  function Step(s: nat, multiplier: nat, increment: nat, m: nat): nat
    requires m > 0
  {
    (s * multiplier + increment) % m
  }

  /** The state n steps after s. */
  function Iterate(s: nat, n: nat, multiplier: nat, increment: nat, m: nat): nat
    requires m > 0
    decreases n
  {
    if n == 0 then s else Step(Iterate(s, n - 1, multiplier, increment, m), multiplier, increment, m)
  }

  /** 1 + M + M^2 + ... + M^(n-1). */
  function Geometric(multiplier: nat, n: nat): nat
    decreases n
  {
    if n == 0 then 0 else Geometric(multiplier, n - 1) * multiplier + 1
  }

  /** M^n * s + I * (1 + M + ... + M^(n-1)) modulo m. */
  function SeekClosed(s: nat, n: nat, multiplier: nat, increment: nat, m: nat): nat
    requires m > 0
  {
    (Pow(multiplier, n) * s + increment * Geometric(multiplier, n)) % m
  }

  /** The geometric sum times (M - 1) is M^n - 1, so (M^n - 1) / (M - 1) divides exactly. */
  lemma {:induction false} GeometricTimes(multiplier: nat, n: nat)
    ensures Geometric(multiplier, n) * (multiplier - 1) == Pow(multiplier, n) - 1
    decreases n
  {
    if n > 0 {
      GeometricTimes(multiplier, n - 1);
      var g: int := Geometric(multiplier, n - 1);
      var p: int := Pow(multiplier, n - 1);
      var mu: int := multiplier;
      assert Geometric(multiplier, n) == g * mu + 1;
      assert Pow(multiplier, n) == mu * p;
      assert g * (mu - 1) == p - 1;
      calc {
        (g * mu + 1) * (mu - 1);
        mu * (g * (mu - 1)) + mu - 1;
        mu * (p - 1) + mu - 1;
        mu * p - 1;
      }
    }
  }

  /** Equal residues stay equal through one affine map. */
  lemma AffineCongruent(x: int, y: int, multiplier: int, increment: int, m: int)
    requires m > 0 && x % m == y % m
    ensures (x * multiplier + increment) % m == (y * multiplier + increment) % m
  {
    ModMulLeft(x, multiplier, m);
    ModMulLeft(y, multiplier, m);
    ModAdd(x * multiplier, increment, m);
    ModAdd(y * multiplier, increment, m);
  }

  /** The closed form for n - 1 steps, advanced by one step, is the closed form for n steps. */
  lemma Regroup(p1: int, s: int, increment: int, g1: int, multiplier: int)
    ensures (p1 * s + increment * g1) * multiplier + increment == (multiplier * p1) * s + increment * (g1 * multiplier + 1)
  {
  }

  /** n steps of the recurrence are the closed form, up to reduction of the start state. */
  lemma {:induction false} IterateClosed(s: nat, n: nat, multiplier: nat, increment: nat, m: nat)
    requires m > 0
    ensures Iterate(s, n, multiplier, increment, m) % m == SeekClosed(s, n, multiplier, increment, m)
    decreases n
  {
    if n > 0 {
      IterateClosed(s, n - 1, multiplier, increment, m);
      var prev := Iterate(s, n - 1, multiplier, increment, m);
      var p1 := Pow(multiplier, n - 1);
      var g1 := Geometric(multiplier, n - 1);
      var c := p1 * s + increment * g1;
      assert prev % m == c % m;
      AffineCongruent(prev, c, multiplier, increment, m);
      Regroup(p1, s, increment, g1, multiplier);
      assert Pow(multiplier, n) == multiplier * p1;
      assert Geometric(multiplier, n) == g1 * multiplier + 1;
      assert Iterate(s, n, multiplier, increment, m) == (prev * multiplier + increment) % m;
      ModOfMod(prev * multiplier + increment, m);
    }
  }

  /** For at least one step, the iterate equals the closed form exactly. */
  lemma IterateIsClosed(s: nat, n: nat, multiplier: nat, increment: nat, m: nat)
    requires m > 0 && n > 0
    ensures Iterate(s, n, multiplier, increment, m) == SeekClosed(s, n, multiplier, increment, m)
  {
    IterateClosed(s, n, multiplier, increment, m);
    ModOfMod(Iterate(s, n - 1, multiplier, increment, m) * multiplier + increment, m);
  }

  /** Iterating n + 1 times is one step followed by n iterations. */
  lemma {:induction false} IterateShift(s: nat, n: nat, multiplier: nat, increment: nat, m: nat)
    requires m > 0
    ensures Iterate(s, n + 1, multiplier, increment, m)
         == Iterate(Step(s, multiplier, increment, m), n, multiplier, increment, m)
    decreases n
  {
    if n > 0 {
      IterateShift(s, n - 1, multiplier, increment, m);
    }
  }

  /** After at least one step only the residue of the start state matters. */
  lemma {:induction false} IterateOfResidue(s: nat, n: nat, multiplier: nat, increment: nat, m: nat)
    requires m > 0 && n > 0
    ensures Iterate(s, n, multiplier, increment, m) == Iterate(s % m, n, multiplier, increment, m)
  {
    IterateShift(s, n - 1, multiplier, increment, m);
    IterateShift(s % m, n - 1, multiplier, increment, m);
    ModOfMod(s, m);
    AffineCongruent(s, s % m, multiplier, increment, m);
  }

  lemma {:induction false} IterateBelow(s: nat, n: nat, multiplier: nat, increment: nat, m: nat)
    requires m > 0 && s < m
    ensures Iterate(s, n, multiplier, increment, m) < m
  {
  }

  /** With multiplier 1 the geometric sum is n and the power is 1. */
  lemma {:induction false} UnitMultiplier(n: nat)
    ensures Geometric(1, n) == n && Pow(1, n) == 1
  {
    if n > 0 {
      UnitMultiplier(n - 1);
    }
  }

  /** With multiplier 1, n steps add n increments to the state. */
  lemma IterateLinear(s: nat, n: nat, increment: nat, m: nat)
    requires m > 0
    ensures Iterate(s, n, 1, increment, m) % m == (s + increment * n) % m
  {
    IterateClosed(s, n, 1, increment, m);
    UnitMultiplier(n);
  }

  /**
   * When step 2 undoes step 1 on every residue, n steps of 2 undo n steps
   * of 1.
   */
  lemma {:induction false} IterateCancel(x: nat, n: nat, m1: nat, i1: nat, m2: nat, i2: nat, m: nat)
    requires m > 0 && x < m
    requires forall z :: 0 <= z < m ==> Step(Step(z, m1, i1, m), m2, i2, m) == z
    ensures Iterate(Iterate(x, n, m1, i1, m), n, m2, i2, m) == x
    decreases n
  {
    if n > 0 {
      var y := Iterate(x, n - 1, m1, i1, m);
      IterateBelow(x, n - 1, m1, i1, m);
      IterateShift(Step(y, m1, i1, m), n - 1, m2, i2, m);
      IterateCancel(x, n - 1, m1, i1, m2, i2, m);
    }
  }

  /** The backward increment: the additive inverse of I times the inverse multiplier. */
  function BackIncrement(increment: nat, inverse: nat, m: nat): nat
    requires m > 0
  {
    ((m - increment % m) * inverse) % m
  }

  /** A residue congruent to z below m is z itself. */
  lemma ResidueIs(v: int, z: int, k: int, m: int)
    requires m > 0 && 0 <= z < m && v == z + k * m
    ensures v % m == z
  {
    ModAddMultiple(z, k, m);
    ModSmall(z, m);
  }

  lemma BackIdentity(z: int, multiplier: int, increment: int, inverse: int, m: int,
                     y: int, ib: int, t1: int, t2: int, q: int, ir: int, r: int)
    requires y == z * multiplier + increment - t1 * m
    requires ib == (m - r) * inverse - t2 * m
    requires multiplier * inverse == q * m + 1
    requires increment == ir * m + r
    ensures y * inverse + ib == z + (z * q + ir * inverse + inverse - t1 * inverse - t2) * m
  {
    calc {
      y * inverse + ib;
      (z * multiplier + increment - t1 * m) * inverse + (m - r) * inverse - t2 * m;
      z * (multiplier * inverse) + (increment - r + m) * inverse - (t1 * inverse + t2) * m;
      z * (q * m + 1) + (ir * m + m) * inverse - (t1 * inverse + t2) * m;
    }
  }

  lemma ForwardIdentity(z: int, multiplier: int, increment: int, inverse: int, m: int,
                        y: int, ib: int, t1: int, t2: int, q: int, ir: int, r: int)
    requires y == z * inverse + ib - t1 * m
    requires ib == (m - r) * inverse - t2 * m
    requires multiplier * inverse == q * m + 1
    requires increment == ir * m + r
    ensures y * multiplier + increment == z + (z * q + (m - r) * q + 1 - (t1 + t2) * multiplier + ir) * m
  {
    calc {
      y * multiplier + increment;
      (z * inverse + (m - r) * inverse - (t1 + t2) * m) * multiplier + increment;
      z * (multiplier * inverse) + (m - r) * (multiplier * inverse) - (t1 + t2) * multiplier * m + increment;
      z * (q * m + 1) + (m - r) * (q * m + 1) - (t1 + t2) * multiplier * m + ir * m + r;
    }
  }

  /** The backward step undoes the forward step ... */
  lemma BackAfterForward(z: nat, multiplier: nat, increment: nat, inverse: nat, m: nat)
    requires m > 0 && z < m && (multiplier * inverse) % m == 1
    ensures Step(Step(z, multiplier, increment, m), inverse, BackIncrement(increment, inverse, m), m) == z
  {
    var y := Step(z, multiplier, increment, m);
    var ib := BackIncrement(increment, inverse, m);
    var r := increment % m;
    var t1 := (z * multiplier + increment) / m;
    var t2 := ((m - r) * inverse) / m;
    var q := (multiplier * inverse) / m;
    var ir := increment / m;
    BackIdentity(z, multiplier, increment, inverse, m, y, ib, t1, t2, q, ir, r);
    ResidueIs(y * inverse + ib, z, z * q + ir * inverse + inverse - t1 * inverse - t2, m);
  }

  /** ... and the forward step undoes the backward step. */
  lemma ForwardAfterBack(z: nat, multiplier: nat, increment: nat, inverse: nat, m: nat)
    requires m > 0 && z < m && (multiplier * inverse) % m == 1
    ensures Step(Step(z, inverse, BackIncrement(increment, inverse, m), m), multiplier, increment, m) == z
  {
    var ib := BackIncrement(increment, inverse, m);
    var y := Step(z, inverse, ib, m);
    var r := increment % m;
    var t1 := (z * inverse + ib) / m;
    var t2 := ((m - r) * inverse) / m;
    var q := (multiplier * inverse) / m;
    var ir := increment / m;
    ForwardIdentity(z, multiplier, increment, inverse, m, y, ib, t1, t2, q, ir, r);
    ResidueIs(y * multiplier + increment, z, z * q + (m - r) * q + 1 - (t1 + t2) * multiplier + ir, m);
  }

  /** n backward steps after n forward steps return to the start, and the other way round. */
  lemma SeekRoundTrip(x: nat, n: nat, multiplier: nat, increment: nat, inverse: nat, m: nat)
    requires m > 0 && x < m && (multiplier * inverse) % m == 1
    ensures Iterate(Iterate(x, n, multiplier, increment, m), n, inverse, BackIncrement(increment, inverse, m), m) == x
    ensures Iterate(Iterate(x, n, inverse, BackIncrement(increment, inverse, m), m), n, multiplier, increment, m) == x
  {
    var ib := BackIncrement(increment, inverse, m);
    forall z | 0 <= z < m
      ensures Step(Step(z, multiplier, increment, m), inverse, ib, m) == z
      ensures Step(Step(z, inverse, ib, m), multiplier, increment, m) == z
    {
      BackAfterForward(z, multiplier, increment, inverse, m);
      ForwardAfterBack(z, multiplier, increment, inverse, m);
    }
    IterateCancel(x, n, multiplier, increment, inverse, ib, m);
    IterateCancel(x, n, inverse, ib, multiplier, increment, m);
  }

  /** An odd divisor of 2x divides x. */
  lemma OddDividesHalf(d: nat, x: nat)
    requires d > 0 && d % 2 == 1 && (2 * x) % d == 0
    ensures x % d == 0
  {
    var c := (2 * x) / d;
    assert 2 * x == d * c;
    ModMul(d, c, 2);
    assert c % 2 == 0;
    assert x == d * (c / 2);
    DivModUnique(x, d, c / 2, 0);
  }

  /** A divisor of some power of two that is at most 2^k divides 2^k. */
  lemma {:induction false} PowerOfTwoDivisor(d: nat, n: nat, k: nat)
    requires d > 0 && Pow(2, n) % d == 0 && d <= Pow(2, k)
    ensures Pow(2, k) % d == 0
    decreases n
  {
    if n == 0 {
      assert d == 1;
    } else if d % 2 == 1 {
      OddDividesHalf(d, Pow(2, n - 1));
      PowerOfTwoDivisor(d, n - 1, k);
    } else {
      var e := d / 2;
      assert Pow(2, n) == 2 * Pow(2, n - 1);
      var c := Pow(2, n) / d;
      assert 2 * Pow(2, n - 1) == 2 * e * c;
      assert Pow(2, n - 1) == e * c;
      DivModUnique(Pow(2, n - 1), e, c, 0);
      if k == 0 {
        assert false;
      } else {
        assert Pow(2, k) == 2 * Pow(2, k - 1);
        PowerOfTwoDivisor(e, n - 1, k - 1);
        var c2 := Pow(2, k - 1) / e;
        assert Pow(2, k - 1) == e * c2;
        assert Pow(2, k) == d * c2;
        DivModUnique(Pow(2, k), d, c2, 0);
      }
    }
  }

  /** A step computed in a wider machine word w (a multiple of m) and then reduced is the step modulo m. */
  lemma WrappedForward(s: int, multiplier: int, increment: int, m: nat, w: nat)
    requires m > 0 && w > 0 && w % m == 0
    ensures ((s * multiplier + increment) % w) % m == (s * multiplier + increment) % m
  {
    var k := w / m;
    assert w == m * k;
    ModModMultiple(s * multiplier + increment, m, k);
  }

  /**
   * The backward step as the generators compute it: (s - I) wrapped to the
   * machine word w, times the inverse, wrapped, then reduced modulo m, is a
   * forward step with the inverse multiplier and the backward increment.
   */
  lemma WrappedBack(s: nat, increment: nat, inverse: nat, m: nat, w: nat)
    requires m > 0 && w > 0 && w % m == 0
    ensures ((((s - increment) % w) * inverse) % w) % m == Step(s, inverse, BackIncrement(increment, inverse, m), m)
  {
    var k := w / m;
    assert w == m * k;
    var x: int := s - increment;
    var d := x % w;
    ModModMultiple(d * inverse, m, k);
    ModModMultiple(x, m, k);
    ModMulLeft(d, inverse, m);
    ModMulLeft(x, inverse, m);
    assert (d * inverse) % m == (x * inverse) % m;
    var back := BackIncrement(increment, inverse, m);
    var c: int := (m - increment % m) * inverse;
    ModAdd(s * inverse, c, m);
    ModOfMod(c, m);
    ModAdd(s * inverse, back, m);
    BackRegroup(s, increment, inverse, m, increment / m, increment % m);
    ModAddMultiple(x * inverse, (1 + increment / m) * inverse, m);
  }

  /**
   * The backward step of a 32-bit generator whose state is masked to m bits:
   * (s - I) wrapped to 32 bits, times the inverse, wrapped, masked. It is
   * one step of the backward recurrence from the masked state.
   */
  function MaskedBack(s: nat, increment: nat, inverse: nat, m: nat): (r: nat)
    requires s < TWO32 && m > 0 && TWO32 % m == 0
    ensures r < m && r == Step(s % m, inverse, BackIncrement(increment, inverse, m), m)
  {
    WrappedBack(s, increment, inverse, m, TWO32);
    ModOfMod(s, m);
    AffineCongruent(s, s % m, inverse, BackIncrement(increment, inverse, m), m);
    ((((s - increment) % TWO32) * inverse) % TWO32) % m
  }

  lemma BackRegroup(s: int, increment: int, inverse: int, m: int, q: int, r: int)
    requires increment == q * m + r
    ensures s * inverse + (m - r) * inverse == (s - increment) * inverse + (1 + q) * inverse * m
  {
  }
}

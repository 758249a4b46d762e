/**
 * ModularMath: the extended Euclidean algorithm and the multiplicative
 * inverse it yields, once on 64-bit signed integers and once on MyUInt256
 * objects. Only the coefficient of a is kept; it is the inverse of a modulo
 * b when the gcd comes out as 1.
 */
module ModularMath {
  import opened Common
  import opened Lanes
  import opened UInt256

  const TWO63: int := 0x8000_0000_0000_0000

  /** The range of a C# long. */
  predicate InLong(x: int)
  {
    -TWO63 <= x < TWO63
  }

  function Abs(x: int): nat
  {
    if x < 0 then -x else x
  }

  /** Euclid's recursion: the reference definition of the greatest common divisor. */
  function Gcd(x: nat, y: nat): nat
    decreases y
  {
    if y == 0 then x else Gcd(y, x % y)
  }

  lemma CombineDivisible(m: int, n: int, k: int, g: int)
    requires g > 0 && m % g == 0 && n % g == 0
    ensures (k * m + n) % g == 0
  {
    var mm := m / g;
    var nn := n / g;
    assert m == g * mm && n == g * nn;
    assert k * m + n == (k * mm + nn) * g;
    ModAddMultiple(0, k * mm + nn, g);
  }

  /** Gcd(x, y) divides both x and y. */
  lemma {:induction false} GcdDivides(x: nat, y: nat)
    requires x > 0 || y > 0
    ensures Gcd(x, y) > 0 && x % Gcd(x, y) == 0 && y % Gcd(x, y) == 0
    decreases y
  {
    if y > 0 {
      var q, r := x / y, x % y;
      assert x == q * y + r;
      GcdDivides(y, r);
      var g := Gcd(y, r);
      assert Gcd(x, y) == g;
      CombineDivisible(y, r, q, g);
    }
  }

  /** Every common divisor of x and y divides Gcd(x, y). */
  lemma {:induction false} GcdGreatest(x: nat, y: nat, c: int)
    requires c > 0 && x % c == 0 && y % c == 0
    ensures Gcd(x, y) % c == 0
    decreases y
  {
    if y > 0 {
      var q, r := x / y, x % y;
      assert r == -q * y + x;
      CombineDivisible(y, x, -q, c);
      GcdGreatest(y, r, c);
    }
  }

  /** An inverse of a modulo b exists only when a and b are coprime. */
  lemma InverseNeedsCoprime(a: nat, b: nat, y: int)
    requires 0 < a < b && (a * y) % b == 1
    ensures Gcd(b, a) == 1
  {
    GcdDivides(b, a);
    var g := Gcd(b, a);
    var ay, k := a * y, (a * y) / b;
    assert -k * b + ay == 1;
    CombineDivisible(a, 0, y, g);
    CombineDivisible(b, ay, -k, g);
  }

  /** r = x·a + k·b: x is a's coefficient for the remainder r, k (never computed) b's. */
  predicate Bezout(r: int, x: int, k: int, a: int, b: int)
  {
    r == x * a + k * b
  }

  /** |x1|·r0 + |x0|·r1, which the Euclid steps keep equal to b. */
  function Weight(x1: int, r0: int, x0: int, r1: int): int
  {
    Abs(x1) * r0 + Abs(x0) * r1
  }

  /** One Euclid step: the new remainder r0 - q·r1 has coefficients x0 - q·x1 and k0 - q·k1. */
  lemma BezoutStep(r0: int, r1: int, r: int, x0: int, x1: int, x: int, k0: int, k1: int, k: int,
                   q: int, a: int, b: int)
    requires Bezout(r0, x0, k0, a, b) && Bezout(r1, x1, k1, a, b)
    requires r0 == q * r1 + r && x == x0 - q * x1 && k == k0 - q * k1
    ensures Bezout(r, x, k, a, b)
  {
    var qx, qk := q * x1, q * k1;
    assert q * r1 == qx * a + qk * b by {
      assert q * r1 == q * (x1 * a) + q * (k1 * b);
    }
    assert x * a == x0 * a - qx * a;
    assert k * b == k0 * b - qk * b;
  }

  /** The coefficients x0 and x1 have opposite signs (or one is zero). */
  predicate Alternate(x0: int, x1: int)
  {
    (x1 >= 0 && x0 <= 0) || (x1 <= 0 && x0 >= 0)
  }

  lemma BoundArith(ax0: int, ax1: int, ax: int, q: int, r0: int, r1: int, r: int, b: int)
    requires ax == ax0 + q * ax1 && r0 == q * r1 + r && ax1 * r0 + ax0 * r1 == b
    ensures ax * r1 + ax1 * r == b
  {
    assert ax * r1 == ax0 * r1 + q * ax1 * r1;
    assert ax1 * r0 == q * ax1 * r1 + ax1 * r;
  }

  /**
   * One Euclid step keeps the coefficients of alternating sign with
   * |x1|·r0 + |x0|·r1 = b, so every coefficient, and q·x1, stays within b.
   */
  lemma BoundStep(r0: int, r1: int, r: int, q: int, x0: int, x1: int, x: int, b: int)
    requires 0 < r1 && 0 <= r < r1 && q >= 1 && r0 == q * r1 + r && x == x0 - q * x1
    requires Alternate(x0, x1) && Weight(x1, r0, x0, r1) == b
    ensures Alternate(x1, x) && Weight(x, r1, x1, r) == b
    ensures Abs(q * x1) <= Abs(x) <= b
  {
    var qx := q * x1;
    if x1 >= 0 {
      MulLe(0, x1, q);
      assert qx == q * Abs(x1);
    } else {
      MulLe(x1, 0, q);
      assert qx == -(q * Abs(x1));
    }
    assert Abs(qx) == q * Abs(x1);
    assert Abs(x) == Abs(x0) + q * Abs(x1);
    BoundArith(Abs(x0), Abs(x1), Abs(x), q, r0, r1, r, b);
    MulLe(1, r1, Abs(x));
  }

  /** 1 = x·a + k·b means x·a leaves remainder 1 modulo b. */
  lemma InverseOfUnit(x: int, k: int, a: int, b: int)
    requires b >= 2 && Bezout(1, x, k, a, b)
    ensures (x * a) % b == 1
  {
    var xa := x * a;
    assert xa == 1 + (-k) * b;
    ModAddMultiple(1, -k, b);
    ModSmall(1, b);
  }

  /** Once r1 = 1, x1 is an inverse of a and the final correction puts it in [0, b). */
  lemma FinalInverse(x: int, k: int, a: int, b: int, r0: int)
    requires b >= 2 && r0 >= 2 && Bezout(1, x, k, a, b) && Abs(x) * r0 <= b
    ensures -b < x < b && 2 * Abs(x) <= b
    ensures var y := if x < 0 then x + b else x; 0 <= y < b && (a * y) % b == 1
  {
    MulLe(2, r0, Abs(x));
    InverseOfUnit(x, k, a, b);
    if x < 0 {
      assert a * (x + b) == x * a + a * b;
      ModAddMultiple(x * a, a, b);
    } else {
      assert a * x == x * a;
    }
  }

  /** After the loop breaks on r0 mod r1 = 0, r1 is the gcd. */
  lemma GcdAtExit(r0: nat, r1: nat)
    requires r1 > 0 && r0 % r1 == 0
    ensures Gcd(r0, r1) == r1
  {
    assert Gcd(r1, 0) == r1;
  }

  /**
   * What the loop of ExtendedEuclidean keeps: remainders 0 < r1 < r0 ≤ b
   * with the gcd of (b, a), each equal to its coefficients times (a, b),
   * and a's coefficients alternating in sign with |x1|·r0 + |x0|·r1 = b.
   */
  predicate EuclidState(r0: int, r1: int, x0: int, x1: int, k0: int, k1: int, a: int, b: int)
  {
    0 < r1 < r0 <= b && 0 < a < b && Gcd(r0, r1) == Gcd(b, a)
    && Bezout(r0, x0, k0, a, b) && Bezout(r1, x1, k1, a, b)
    && Alternate(x0, x1) && Weight(x1, r0, x0, r1) == b
  }

  /**
   * One pass of the loop keeps the state; the coefficient it computes,
   * x0 - q·x1, and the product q·x1 both stay within b.
   */
  lemma EuclidStep(r0: int, r1: int, x0: int, x1: int, k0: int, k1: int, a: int, b: int)
    requires EuclidState(r0, r1, x0, x1, k0, k1, a, b) && r0 % r1 != 0
    ensures var q := r0 / r1;
      EuclidState(r1, r0 % r1, x1, x0 - q * x1, k1, k0 - q * k1, a, b)
      && Abs(q * x1) <= b && Abs(x0 - q * x1) <= b
  {
    var q, r := r0 / r1, r0 % r1;
    assert r0 == q * r1 + r;
    var qx := q * x1;
    BoundStep(r0, r1, r, q, x0, x1, x0 - qx, b);
    BezoutStep(r0, r1, r, x0, x1, x0 - qx, k0, k1, k0 - q * k1, q, a, b);
    assert Gcd(r0, r1) == Gcd(r1, r);
  }

  /** EuclidStep with the quotient and remainder named by the caller. */
  lemma EuclidStepAt(r0: int, r1: int, x0: int, x1: int, k0: int, k1: int, a: int, b: int,
                     q: int, r: int, x: int, k: int)
    requires EuclidState(r0, r1, x0, x1, k0, k1, a, b) && r0 % r1 != 0
    requires q == r0 / r1 && r == r0 % r1 && x == x0 - q * x1 && k == k0 - q * k1
    ensures EuclidState(r1, r, x1, x, k1, k, a, b)
  {
    EuclidStep(r0, r1, x0, x1, k0, k1, a, b);
  }

  /** At the break r1 is the gcd and |x1|·r0 ≤ b. */
  lemma EuclidExit(r0: int, r1: int, x0: int, x1: int, k0: int, k1: int, a: int, b: int)
    requires EuclidState(r0, r1, x0, x1, k0, k1, a, b) && r0 % r1 == 0
    ensures r1 == Gcd(b, a) && Abs(x1) * r0 <= b
  {
    GcdAtExit(r0, r1);
    MulLe(0, Abs(x0), r1);
  }

  /**
   * The loop of ExtendedEuclidean(long, long, out ulong): Euclid's remainder
   * sequence from (b, a), carrying a's coefficient. At the break r1 is the
   * gcd, r1 ≡ x·a (mod b) and |x|·r0 ≤ b, where r0 is the remainder before r1.
   */
  method EuclidLoop(a: int, b: int) returns (r0: int, r1: int, x: int, ghost k: int)
    requires 0 < a < b && InLong(b)
    ensures 0 < r1 < r0 <= b && r1 == Gcd(b, a)
    ensures Bezout(r1, x, k, a, b) && Abs(x) * r0 <= b
  {
    r0, r1 := b, a;
    var x0, x1 := 0, 1;
    x := 1;
    ghost var k0, k1 := 1, 0;
    while true
      invariant EuclidState(r0, r1, x0, x1, k0, k1, a, b) && x == x1
      decreases r1
    {
      // r0 and r1 are never negative, so the unsigned % and / agree with Dafny's
      var r := r0 % r1;
      if r == 0 {
        break;
      }
      var q := r0 / r1;
      EuclidStep(r0, r1, x0, x1, k0, k1, a, b);
      // neither q * x1 nor the difference leaves the range of a long
      assert InLong(q * x1) && InLong(x0 - q * x1);
      x := x0 - q * x1;
      r0 := r1;
      r1 := r;
      x0 := x1;
      x1 := x;
      k0, k1 := k1, k0 - q * k1;
    }
    EuclidExit(r0, r1, x0, x1, k0, k1, a, b);
    k := k1;
  }

  /**
   * ExtendedEuclidean(long, long, out ulong): the gcd of a and b, and the
   * inverse of a modulo b when they are coprime (0 otherwise).
   */
  method ExtendedEuclidean(a: int, b: int) returns (gcd: Outcome<nat>, mulInverse: nat)
    requires InLong(a) && InLong(b)
    ensures gcd.Raises? <==> !(0 < a < b)
    ensures gcd.Raises? ==> mulInverse == 0
    ensures gcd.Ok? ==> gcd.value == Gcd(b, a)
    ensures gcd.Ok? && gcd.value == 1 ==> mulInverse < b && (a * mulInverse) % b == 1
    ensures gcd.Ok? && gcd.value != 1 ==> mulInverse == 0
  {
    if a <= 0 || a >= b {
      return Raises("ArgumentOutOfRangeException: a must be a positive integer less than b"), 0;
    }
    var r0, r1, x, k := EuclidLoop(a, b);
    if r1 == 1 {
      FinalInverse(x, k, a, b, r0);
    }
    if x < 0 {
      x := x + b;
    }
    mulInverse := if r1 == 1 then x else 0;
    gcd := Ok(r1);
  }

  /**
   * MultiplicativeInverse(long, long): the inverse of a modulo modulus, 0
   * for a = 0 or when none exists.
   */
  method MultiplicativeInverse(a: int, modulus: int) returns (r: Outcome<nat>)
    requires InLong(a) && InLong(modulus)
    ensures r.Raises? <==> !(0 <= a < modulus)
    ensures r.Ok? && a == 0 ==> r.value == 0
    ensures r.Ok? && a > 0 && Gcd(modulus, a) == 1 ==> r.value < modulus && (a * r.value) % modulus == 1
    ensures r.Ok? && a > 0 && Gcd(modulus, a) != 1 ==> r.value == 0
  {
    if a < 0 || a >= modulus {
      return Raises("ArgumentOutOfRangeException: a must be a non-negative integer less than modulus");
    }
    if a == 0 {
      return Ok(0);
    }
    var g, mi := ExtendedEuclidean(a, modulus);
    return Ok(mi);
  }

  // -----------------------------------------------------------------------
  // The MyUInt256 overloads
  // -----------------------------------------------------------------------

  /** x - q·x1 computed on 256-bit residues is the residue of the true coefficient. */
  lemma WrapStep(x0: int, x1: int, q: nat, tmp: int, v: int)
    requires q < TWO256 && tmp == (q * (x1 % TWO256)) % TWO256
    requires v == (x0 % TWO256 - tmp) % TWO256
    ensures v == (x0 - q * x1) % TWO256
  {
    ModMul(q, x1, TWO256);
    ModSmall(q, TWO256);
    ModSub(x0, q * x1, TWO256);
  }

  /**
   * A coefficient with 2|x| ≤ b < 2^256 is negative exactly when bit 255 of
   * its residue is set, and adding b to that residue then gives x + b.
   */
  lemma SignFix(x: int, b: int)
    requires 0 < b < TWO256 && -b < x && 2 * Abs(x) <= b
    ensures var v := x % TWO256;
      (2 * v >= TWO256 <==> x < 0)
      && (x < 0 ==> (v + b) % TWO256 == x + b)
      && (x >= 0 ==> v == x)
  {
    if x < 0 {
      DivModUnique(x, TWO256, -1, x + TWO256);
      DivModUnique(x + TWO256 + b, TWO256, 1, x + b);
    } else {
      ModSmall(x, TWO256);
    }
  }

  /** The head of one pass: r = r0 mod r1 and, unless that is zero, q = r0 / r1. */
  method DivStep256(r0: MyUInt256, r1: MyUInt256, q: MyUInt256, r: MyUInt256) returns (done: bool)
    requires r0.Valid() && r1.Valid() && q.Valid() && r.Valid() && r1.Value() > 0
    requires r.a != r0.a && r.a != r1.a && q.a != r0.a && q.a != r1.a && q.a != r.a
    modifies q.a, r.a
    ensures q.Valid() && r.Valid()
    ensures r.Value() == r0.Value() % r1.Value() && done == (r.Value() == 0)
    ensures !done ==> q.Value() == r0.Value() / r1.Value()
  {
    r.Set(r0);
    r.Modulo(r1);
    done := r.IsZero();
    if !done {
      q.Set(r0);
      var _ := q.Divide(r1);
    }
  }

  /** The coefficient update x = x0 - q·x1, wrapping modulo 2^256 as MyUInt256 does. */
  method CoefStep256(x0: MyUInt256, x1: MyUInt256, q: MyUInt256, x: MyUInt256, tmp: MyUInt256)
    requires x0.Valid() && x1.Valid() && q.Valid() && x.Valid() && tmp.Valid()
    requires x.a != x0.a && x.a != x1.a && x.a != q.a && x.a != tmp.a
    requires tmp.a != x0.a && tmp.a != x1.a && tmp.a != q.a
    modifies x.a, tmp.a
    ensures x.Valid() && tmp.Valid()
    ensures x.Value() == (x0.Value() - (q.Value() * x1.Value()) % TWO256) % TWO256
  {
    x.Set(x0);
    tmp.Set(q);
    tmp.Multiply(x1);
    x.Subtract(tmp);
  }

  /** The tail of one pass: (lo, hi) := (hi, next). */
  method Rotate256(lo: MyUInt256, hi: MyUInt256, next: MyUInt256)
    requires lo.Valid() && hi.Valid() && next.Valid()
    requires lo.a != hi.a && lo.a != next.a && hi.a != next.a
    modifies lo.a, hi.a
    ensures lo.Valid() && hi.Valid()
    ensures lo.Value() == old(hi.Value()) && hi.Value() == next.Value()
  {
    lo.Set(hi);
    hi.Set(next);
  }

  /**
   * The coefficient half of one pass: x = x0 - q·x1 modulo 2^256, then
   * (x0, x1) := (x1, x); the residues follow the true coefficients.
   */
  method CoefPass256(x0: MyUInt256, x1: MyUInt256, q: MyUInt256, x: MyUInt256, tmp: MyUInt256,
                     ghost cx0: int, ghost cx1: int, ghost qv: nat, ghost nx: int)
    requires x0.Valid() && x1.Valid() && q.Valid() && x.Valid() && tmp.Valid()
    requires x.a != x0.a && x.a != x1.a && x.a != q.a && x.a != tmp.a && x0.a != x1.a
    requires tmp.a != x0.a && tmp.a != x1.a && tmp.a != q.a && q.a != x0.a && q.a != x1.a
    requires x0.Value() == cx0 % TWO256 && x1.Value() == cx1 % TWO256 && q.Value() == qv
    requires nx == cx0 - qv * cx1
    modifies x0.a, x1.a, x.a, tmp.a
    ensures x0.Valid() && x1.Valid() && x.Valid() && tmp.Valid()
    ensures x0.Value() == cx1 % TWO256
    ensures x1.Value() == nx % TWO256 && x.Value() == x1.Value()
  {
    q.ValueRange();
    CoefStep256(x0, x1, q, x, tmp);
    WrapStep(cx0, cx1, qv, (qv * (cx1 % TWO256)) % TWO256, x.Value());
    Rotate256(x0, x1, x);
  }

  /**
   * The loop of ExtendedEuclidean(MyUInt256, MyUInt256, out MyUInt256),
   * on eight working numbers; a's coefficients are kept modulo 2^256, the
   * true coefficients as ghost integers.
   */
  method EuclidLoop256(a: MyUInt256, b: MyUInt256)
      returns (r0: MyUInt256, r1: MyUInt256, x: MyUInt256, ghost rx: int, ghost k: int)
    requires a.Valid() && b.Valid() && 0 < a.Value() < b.Value()
    ensures fresh(r0) && fresh(r0.a) && fresh(r1) && fresh(r1.a) && fresh(x) && fresh(x.a)
    ensures r0.a != r1.a && r0.a != x.a && r1.a != x.a
    ensures r0.Valid() && r1.Valid() && x.Valid()
    ensures 0 < r1.Value() < r0.Value() <= b.Value() && r1.Value() == Gcd(b.Value(), a.Value())
    ensures Bezout(r1.Value(), rx, k, a.Value(), b.Value()) && Abs(rx) * r0.Value() <= b.Value()
    ensures x.Value() == rx % TWO256
  {
    ghost var av, bv := a.Value(), b.Value();
    r0 := new MyUInt256.Copy(b);
    r1 := new MyUInt256.Copy(a);
    var q := new MyUInt256();
    var r := new MyUInt256();
    var x0 := new MyUInt256.FromU64(0);
    var x1 := new MyUInt256.FromU64(1);
    x := new MyUInt256.FromU64(1);
    var tmp := new MyUInt256();
    ghost var cx0, cx1, k0, k1 := 0, 1, 1, 0;
    ModSmall(0, TWO256);
    ModSmall(1, TWO256);
    ghost var g0, g1 := bv, av;
    ghost var w0, w1 := 0, 1;
    assert EuclidState(g0, g1, cx0, cx1, k0, k1, av, bv);
    while true
      invariant r0.Valid() && r1.Valid() && q.Valid() && r.Valid()
      invariant x0.Valid() && x1.Valid() && x.Valid() && tmp.Valid()
      invariant r0.Value() == g0 && r1.Value() == g1
      invariant r0.a != r1.a && r0.a != q.a && r0.a != r.a && r1.a != q.a && r1.a != r.a && q.a != r.a
      invariant x0.a != x1.a && x0.a != x.a && x0.a != tmp.a && x1.a != x.a && x1.a != tmp.a && x.a != tmp.a
      invariant x0.a != r0.a && x0.a != r1.a && x0.a != q.a && x0.a != r.a
      invariant x1.a != r0.a && x1.a != r1.a && x1.a != q.a && x1.a != r.a
      invariant x.a != r0.a && x.a != r1.a && x.a != q.a && x.a != r.a
      invariant tmp.a != r0.a && tmp.a != r1.a && tmp.a != q.a && tmp.a != r.a
      invariant EuclidState(g0, g1, cx0, cx1, k0, k1, av, bv)
      invariant x0.Value() == w0 && x1.Value() == w1 && x.Value() == w1
      invariant w0 == cx0 % TWO256 && w1 == cx1 % TWO256
      decreases g1
    {
      var done := DivStep256(r0, r1, q, r);
      if done {
        break;
      }
      ghost var qv, rv := g0 / g1, g0 % g1;
      ghost var nx, nk := cx0 - qv * cx1, k0 - qv * k1;
      EuclidStepAt(g0, g1, cx0, cx1, k0, k1, av, bv, qv, rv, nx, nk);
      CoefPass256(x0, x1, q, x, tmp, cx0, cx1, qv, nx);
      Rotate256(r0, r1, r);
      g0, g1 := g1, rv;
      w0, w1 := w1, nx % TWO256;
      cx0, cx1 := cx1, nx;
      k0, k1 := k1, nk;
    }
    EuclidExit(g0, g1, cx0, cx1, k0, k1, av, bv);
    rx, k := cx1, k1;
  }

  /**
   * ExtendedEuclidean(MyUInt256, MyUInt256, out MyUInt256): the gcd of a and
   * b, and the inverse of a modulo b when they are coprime (null otherwise).
   * Negative coefficients are recognised by bit 255 and corrected by adding b.
   */
  method ExtendedEuclidean256(a: MyUInt256, b: MyUInt256) returns (gcd: Outcome<MyUInt256>, mulInverse: MyUInt256?)
    requires a.Valid() && b.Valid()
    ensures gcd.Raises? <==> !(0 < a.Value() < b.Value())
    ensures gcd.Raises? ==> mulInverse == null
    ensures gcd.Ok? ==> gcd.value.Valid() && gcd.value.Value() == Gcd(b.Value(), a.Value())
    ensures gcd.Ok? && gcd.value.Value() == 1 ==>
      mulInverse != null && mulInverse.Valid() && mulInverse.Value() < b.Value()
      && (a.Value() * mulInverse.Value()) % b.Value() == 1
    ensures gcd.Ok? && gcd.value.Value() != 1 ==> mulInverse == null
  {
    var z := a.IsZero();
    if z {
      return Raises("ArgumentOutOfRangeException: a must be a positive integer less than b"), null;
    }
    var c := a.Compare(b);
    if c >= 0 {
      return Raises("ArgumentOutOfRangeException: a must be a positive integer less than b"), null;
    }
    ghost var av, bv := a.Value(), b.Value();
    var r0, r1, x, rx, k := EuclidLoop256(a, b);
    b.ValueRange();
    ghost var inverse := if rx < 0 then rx + bv else rx;
    if r1.Value() == 1 {
      FinalInverse(rx, k, av, bv, r0.Value());
      SignFix(rx, bv);
    }
    var negative := x.IsMsbSet();
    if negative {
      x.Add(b);
    }
    assert r1.Value() == 1 ==> x.Value() == inverse && inverse < bv && (av * inverse) % bv == 1;
    var one := r1.CompareU64(1);
    mulInverse := if one == 0 then x else null;
    gcd := Ok(r1);
  }

  /**
   * MultiplicativeInverse(MyUInt256, MyUInt256): the inverse of a modulo
   * modulus, null for a = 0 or when none exists; a with bit 255 set is
   * refused like one not below the modulus.
   */
  method MultiplicativeInverse256(a: MyUInt256, modulus: MyUInt256) returns (r: Outcome<MyUInt256?>)
    requires a.Valid() && modulus.Valid()
    ensures r.Raises? <==> (2 * a.Value() >= TWO256 || a.Value() >= modulus.Value())
    ensures r.Ok? && a.Value() == 0 ==> r.value == null
    ensures r.Ok? && a.Value() > 0 && Gcd(modulus.Value(), a.Value()) == 1 ==>
      r.value != null && r.value.Valid() && r.value.Value() < modulus.Value()
      && (a.Value() * r.value.Value()) % modulus.Value() == 1
    ensures r.Ok? && a.Value() > 0 && Gcd(modulus.Value(), a.Value()) != 1 ==> r.value == null
  {
    var msb := a.IsMsbSet();
    if msb {
      return Raises("ArgumentOutOfRangeException: a must be a non-negative integer less than modulus");
    }
    var c := a.Compare(modulus);
    if c >= 0 {
      return Raises("ArgumentOutOfRangeException: a must be a non-negative integer less than modulus");
    }
    var z := a.IsZero();
    if z {
      return Ok(null);
    }
    var g, mi := ExtendedEuclidean256(a, modulus);
    return Ok(mi);
  }
}

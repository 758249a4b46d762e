/**
 * Shared vocabulary: optional results, powers, and the modular-arithmetic
 * facts that the rest of the model leans on.
 */
module Common {

  datatype Option<T> = None | Some(value: T)

  /** Outcome of an operation that the source may abort with an exception. */
  datatype Outcome<T> = Ok(value: T) | Raises(reason: string)

  /** b^e on naturals. */
  function Pow(b: nat, e: nat): nat
    decreases e
  {
    if e == 0 then 1 else b * Pow(b, e - 1)
  }

  lemma {:induction false} PowPositive(b: nat, e: nat)
    requires b > 0
    ensures Pow(b, e) > 0
    decreases e
  {
    if e > 0 {
      PowPositive(b, e - 1);
      MulPositive(b, Pow(b, e - 1));
    }
  }

  /** b^e for a positive base, known to be positive. */
  function PowPos(b: nat, e: nat): (r: nat)
    requires b > 0
    ensures r > 0 && r == Pow(b, e)
  {
    PowPositive(b, e);
    Pow(b, e)
  }

  function Pow2(k: nat): (r: nat)
    ensures r > 0
  {
    PowPositive(2, k);
    Pow(2, k)
  }

  const TWO32: nat := 0x1_0000_0000
  const TWO64: nat := 0x1_0000_0000_0000_0000
  const TWO128: nat := 0x1_0000_0000_0000_0000_0000_0000_0000_0000
  const TWO256: nat := TWO128 * TWO128

  lemma MulPositive(x: nat, y: nat)
    requires x > 0 && y > 0
    ensures x * y > 0
  {
  }

  lemma {:induction false} PowAdd(b: nat, e1: nat, e2: nat)
    ensures Pow(b, e1 + e2) == Pow(b, e1) * Pow(b, e2)
    decreases e1
  {
    if e1 > 0 {
      PowAdd(b, e1 - 1, e2);
      calc {
        Pow(b, e1 + e2);
        b * Pow(b, e1 - 1 + e2);
        b * (Pow(b, e1 - 1) * Pow(b, e2));
        (b * Pow(b, e1 - 1)) * Pow(b, e2);
      }
    }
  }

  lemma PowStep(b: nat, e: nat)
    ensures Pow(b, e + 1) == b * Pow(b, e)
  {
  }

  /** b^n split at j, with the exponents written as the callers write them. */
  lemma PowSplit(b: nat, j: nat, n: nat)
    requires j <= n
    ensures Pow(b, n) == Pow(b, j) * Pow(b, n - j)
  {
    PowAdd(b, j, n - j);
  }

  lemma {:induction false} PowMul(b: nat, e1: nat, e2: nat)
    ensures Pow(b, e1 * e2) == Pow(Pow(b, e1), e2)
    decreases e2
  {
    if e2 > 0 {
      PowMul(b, e1, e2 - 1);
      assert e1 * e2 == e1 + e1 * (e2 - 1);
      PowAdd(b, e1, e1 * (e2 - 1));
    }
  }

  lemma {:induction false} PowMonotone(b: nat, e1: nat, e2: nat)
    requires b > 0 && e1 <= e2
    ensures Pow(b, e1) <= Pow(b, e2)
  {
    PowAdd(b, e1, e2 - e1);
    PowPositive(b, e2 - e1);
    MulMonotone(Pow(b, e1), Pow(b, e2 - e1));
  }

  lemma MulMonotone(x: nat, y: nat)
    requires y >= 1
    ensures x <= x * y
  {
  }

  lemma Pow2Of16()
    ensures Pow2(8) == 256 && Pow2(16) == 0x10000
  {
    assert Pow(2, 4) == 16;
    PowAdd(2, 4, 4);
    PowAdd(2, 8, 8);
  }

  lemma Pow2Of32()
    ensures Pow2(31) == 0x8000_0000 && Pow2(32) == TWO32
  {
    Pow2Of16();
    PowAdd(2, 16, 15);
    PowAdd(2, 16, 16);
  }

  lemma Pow2Of64()
    ensures Pow2(64) == TWO64
  {
    Pow2Of32();
    PowAdd(2, 32, 32);
  }

  lemma Pow2Of256()
    ensures Pow2(128) == TWO128 && Pow2(256) == TWO256
  {
    Pow2Of64();
    PowAdd(2, 64, 64);
    PowAdd(2, 128, 128);
  }

  lemma {:induction false} Pow2Step(k: nat)
    ensures Pow2(k + 1) == 2 * Pow2(k)
  {
  }

  /** Any lane split of a power of two: 2^(a+b) = 2^a * 2^b. */
  lemma Pow2Add(a: nat, b: nat)
    ensures Pow2(a + b) == Pow2(a) * Pow2(b)
  {
    PowAdd(2, a, b);
  }

  lemma Pow2Monotone(a: nat, b: nat)
    requires a <= b
    ensures Pow2(a) <= Pow2(b)
  {
    PowMonotone(2, a, b);
  }

  lemma Pow2Strict(a: nat, b: nat)
    requires a < b
    ensures 2 * Pow2(a) <= Pow2(b)
  {
    Pow2Monotone(a + 1, b);
  }

  // ---------------------------------------------------------------------
  // Modular arithmetic
  // ---------------------------------------------------------------------

  lemma ModAddMultiple(x: int, k: int, m: int)
    requires m > 0
    ensures (x + k * m) % m == x % m
  {
    var q := x / m;
    var r := x % m;
    assert x + k * m == (q + k) * m + r;
    DivModUnique(x + k * m, m, q + k, r);
  }

  /** The quotient and remainder of Euclidean division are unique. */
  lemma DivModUnique(x: int, m: int, q: int, r: int)
    requires m > 0 && 0 <= r < m && x == q * m + r
    ensures x / m == q && x % m == r
  {
    var q' := x / m;
    var r' := x % m;
    assert (q - q') * m == r' - r;
    MulSmallIsZero(q - q', m);
  }

  /** Reading a positional split lo + p*hi back with / and %. */
  lemma SplitDivMod(x: int, lo: int, hi: int, p: int)
    requires p > 0 && 0 <= lo < p && x == lo + p * hi
    ensures x / p == hi && x % p == lo
  {
    DivModUnique(x, p, hi, lo);
  }

  /** A multiple of m leaves no residue. */
  lemma MultipleMod(x: int, p: int, q: int, m: int)
    requires m > 0 && p == m * q
    ensures (x * p) % m == 0
  {
    assert x * p == (x * q) * m;
    DivModUnique(x * p, m, x * q, 0);
  }

  lemma MulLe(a: int, b: int, m: nat)
    ensures a <= b ==> a * m <= b * m
  {
  }

  /** A multiple of m strictly between -m and m is zero. */
  lemma MulSmallIsZero(k: int, m: int)
    requires m > 0 && -m < k * m < m
    ensures k == 0
  {
    MulLe(1, k, m);
    MulLe(k, -1, m);
  }

  lemma ModOfMod(x: int, m: int)
    requires m > 0
    ensures (x % m) % m == x % m
  {
  }

  lemma ModAdd(x: int, y: int, m: int)
    requires m > 0
    ensures (x + y) % m == (x % m + y % m) % m
  {
    var qx := x / m;
    var qy := y / m;
    assert x + y == (x % m + y % m) + (qx + qy) * m;
    ModAddMultiple(x % m + y % m, qx + qy, m);
  }

  lemma ModSub(x: int, y: int, m: int)
    requires m > 0
    ensures (x - y) % m == (x % m - y % m) % m
  {
    var qx := x / m;
    var qy := y / m;
    assert x - y == (x % m - y % m) + (qx - qy) * m;
    ModAddMultiple(x % m - y % m, qx - qy, m);
  }

  lemma ModMul(x: int, y: int, m: int)
    requires m > 0
    ensures (x * y) % m == ((x % m) * (y % m)) % m
  {
    var qx := x / m;
    var qy := y / m;
    var rx := x % m;
    var ry := y % m;
    assert x == qx * m + rx;
    assert y == qy * m + ry;
    calc {
      x * y;
      (qx * m + rx) * (qy * m + ry);
      rx * ry + (qx * qy * m + qx * ry + rx * qy) * m;
    }
    ModAddMultiple(rx * ry, qx * qy * m + qx * ry + rx * qy, m);
  }

  lemma ModMulLeft(x: int, y: int, m: int)
    requires m > 0
    ensures (x * y) % m == ((x % m) * y) % m
  {
    ModMul(x, y, m);
    ModMul(x % m, y, m);
    ModOfMod(x, m);
  }

  /** Reducing modulo m*k and then modulo m is the same as reducing modulo m. */
  lemma ModModMultiple(x: int, m: int, k: int)
    requires m > 0 && k > 0
    ensures (x % (m * k)) % m == x % m
  {
    MulPositive(m, k);
    var q := x / (m * k);
    assert x == x % (m * k) + (q * k) * m;
    ModAddMultiple(x % (m * k), q * k, m);
  }

  lemma ModSmall(x: int, m: int)
    requires 0 <= x < m
    ensures x % m == x && x / m == 0
  {
    DivModUnique(x, m, 0, x);
  }

  lemma DivBound(x: nat, m: nat, b: nat)
    requires m > 0 && x < m * b
    ensures x / m < b
  {
    MulLe(b, x / m, m);
  }

  lemma DivMulCancel(x: nat, m: nat)
    requires m > 0
    ensures (x * m) / m == x && (x * m) % m == 0
  {
    DivModUnique(x * m, m, x, 0);
  }

  /** (x / a) / b == x / (a * b) for positive a, b. */
  lemma DivDiv(x: nat, a: nat, b: nat)
    requires a > 0 && b > 0
    ensures x / a / b == x / (a * b)
  {
    MulPositive(a, b);
    var q := x / a / b;
    var r1 := x % a;
    var r2 := (x / a) % b;
    assert x == (q * b + r2) * a + r1;
    assert x == q * (a * b) + (r2 * a + r1);
    assert r2 * a + r1 < a * b by {
      assert r2 * a <= (b - 1) * a;
    }
    DivModUnique(x, a * b, q, r2 * a + r1);
  }

  /** x % (a*b) split into the low part x % a and the next digit. */
  lemma ModMulSplit(x: nat, a: nat, b: nat)
    requires a > 0 && b > 0
    ensures x % (a * b) == x % a + a * ((x / a) % b)
  {
    MulPositive(a, b);
    DivDiv(x, a, b);
    var q := x / a / b;
    var r1 := x % a;
    var r2 := (x / a) % b;
    assert x == q * (a * b) + (r2 * a + r1);
    assert r2 * a + r1 < a * b by {
      assert r2 * a <= (b - 1) * a;
    }
    DivModUnique(x, a * b, q, r2 * a + r1);
  }

  /** The digit at a of x, read from x % (a*b). */
  lemma HighOfLow(x: nat, a: nat, b: nat)
    requires a > 0 && b > 0
    ensures (x % (a * b)) / a == (x / a) % b
  {
    ModMulSplit(x, a, b);
    SplitDivMod(x % (a * b), x % a, (x / a) % b, a);
  }

  /** Multiplying a residue by a power of the base shifts it left. */
  lemma MulModShift(x: nat, a: nat, b: nat)
    requires a > 0 && b > 0
    ensures (x * a) % (a * b) == (x % b) * a
  {
    MulPositive(a, b);
    var q := x / b;
    var r := x % b;
    assert x * a == q * (a * b) + r * a;
    assert r * a < a * b by {
      assert r * a <= (b - 1) * a;
    }
    DivModUnique(x * a, a * b, q, r * a);
  }

  /** Shifting left by a and reading back the high part: (x*a)/(a*b) == x/b. */
  lemma MulDivShift(x: nat, a: nat, b: nat)
    requires a > 0 && b > 0
    ensures (x * a) / (a * b) == x / b
  {
    MulPositive(a, b);
    var q := x / b;
    var r := x % b;
    assert x * a == q * (a * b) + r * a;
    assert r * a < a * b by {
      assert r * a <= (b - 1) * a;
    }
    DivModUnique(x * a, a * b, q, r * a);
  }

  /** Powers of two are ordered as their exponents, in both directions. */
  lemma Pow2Order(a: nat, b: nat)
    ensures a <= b ==> Pow2(a) <= Pow2(b)
    ensures a < b ==> 2 * Pow2(a) <= Pow2(b)
  {
    if a <= b {
      Pow2Monotone(a, b);
    }
    if a < b {
      Pow2Strict(a, b);
    }
  }

  /** x / m == 1 pins x between m and 2m. */
  lemma DivIsOne(x: nat, m: nat)
    requires m > 0 && x / m == 1
    ensures m <= x < 2 * m
  {
  }

  /** Adding a multiple of m does not change a value's residue class. */
  predicate Congruent(x: int, y: int, m: int)
    requires m > 0
  {
    x % m == y % m
  }

  /**
   * The bounded output of the 32-bit generators that scale (V8, PureBasic):
   * the 64-bit product of value and limit, shifted right by 32.
   */
  function ScaleToLimit(value: nat, limit: nat): nat
  {
    ((value * limit) % TWO64) / TWO32
  }

  /**
   * For a uint value and a limit from 1 to 2^32 the product cannot wrap,
   * and the scaled value is the floor of value * limit / 2^32, below the
   * limit.
   */
  lemma ScaleToLimitBelow(value: nat, limit: nat)
    requires value < TWO32 && 0 < limit <= TWO32
    ensures ScaleToLimit(value, limit) < limit
    ensures ScaleToLimit(value, limit) * TWO32 <= value * limit < (ScaleToLimit(value, limit) + 1) * TWO32
  {
    MulLe(value, TWO32 - 1, limit);
    MulLe(limit, TWO32, TWO32 - 1);
    ModSmall(value * limit, TWO64);
    var r := (value * limit) / TWO32;
    if r >= limit {
      MulLe(limit, r, TWO32);
    }
  }

  /** For a uint value and a limit up to 2^32, ScaleToLimit is the floor of value * limit / 2^32. */
  lemma ScaleToLimitIsFloor(value: nat, limit: nat)
    requires value < TWO32 && 0 < limit <= TWO32
    ensures ScaleToLimit(value, limit) == value * limit / TWO32
  {
    MulLe(value, TWO32 - 1, limit);
    MulLe(limit, TWO32, TWO32 - 1);
    ModSmall(value * limit, TWO64);
  }

  /** Every power of a number congruent to 1 is congruent to 1. */
  lemma {:induction false} PowOfUnit(y: nat, k: nat, m: nat)
    requires m > 1 && y % m == 1
    ensures Pow(y, k) % m == 1
    decreases k
  {
    if k == 0 {
      ModSmall(1, m);
    } else {
      PowOfUnit(y, k - 1, m);
      ModMul(y, Pow(y, k - 1), m);
      ModSmall(1, m);
    }
  }

  /** Once x^p is congruent to 1, adding a multiple of p to the exponent does not change the residue. */
  lemma PowPeriod(x: nat, p: nat, k: nat, n: nat, m: nat)
    requires m > 1 && Pow(x, p) % m == 1
    ensures Pow(x, k * p + n) % m == Pow(x, n) % m
  {
    PowAdd(x, k * p, n);
    assert k * p == p * k;
    PowMul(x, p, k);
    PowOfUnit(Pow(x, p), k, m);
    ModMulLeft(Pow(x, k * p), Pow(x, n), m);
  }
}

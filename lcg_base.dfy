/**
 * PrngLcgBase: the engine shared by the linear congruential generators.
 * The static helpers (NextState, PreviousState, GetMultiplicativeInverse,
 * SeekState) work on 64-bit unsigned values, with a divisor of 0 standing
 * for the modulus 2^64; SeekState evaluates the closed form of n steps in
 * 256-bit arithmetic. LcgGenerator holds the 64-bit state and the
 * constants a derived generator supplies.
 */
module LcgBase {
  import opened Common
  import opened UInt256
  import opened ModularMath
  import opened LcgMath

  /** The range of a C# ulong. */
  predicate IsULong(x: int)
  {
    0 <= x < TWO64
  }

  /** The modulus a divisor stands for: 0 means 2^64. */
  function FullModulus(divisor: nat): (m: nat)
    ensures m > 0 && (divisor != 0 ==> m == divisor)
  {
    if divisor == 0 then TWO64 else divisor
  }

  /** C#'s unchecked cast of a ulong to a long. */
  function AsLong(x: nat): int
    requires IsULong(x)
  {
    if x < TWO63 then x else x - TWO64
  }

  /** Reducing modulo 2^64 first does not change a residue modulo a divisor of 2^64. */
  lemma WrapThenReduce(x: int, d: nat)
    requires d > 0 && TWO64 % d == 0
    ensures (x % TWO64) % d == x % d
  {
    var k := TWO64 / d;
    assert TWO64 == d * k;
    ModModMultiple(x, d, k);
  }

  /** Wrapping to 64 bits, then reducing by a nonzero divisor, is reduction by the full modulus when nothing wrapped or the modulus divides 2^64. */
  lemma WrappedReduce(x: nat, divisor: nat)
    requires divisor < TWO64
    ensures var w := x % TWO64;
      var r := if divisor != 0 then w % divisor else w;
      r < FullModulus(divisor)
      && (x < TWO64 ==> r == x % FullModulus(divisor))
      && (TWO64 % FullModulus(divisor) == 0 ==> r == x % FullModulus(divisor))
  {
    var w := x % TWO64;
    if x < TWO64 {
      ModSmall(x, TWO64);
    }
    if TWO64 % FullModulus(divisor) == 0 {
      WrapThenReduce(x, FullModulus(divisor));
    }
    if divisor == 0 {
      ModOfMod(x, TWO64);
    }
  }

  /**
   * NextState: (state*M + I) wrapped to 64 bits, then reduced by the divisor.
   * It is the exact step whenever nothing wrapped or the modulus divides 2^64.
   */
  function NextState(state: nat, multiplier: nat, increment: nat, divisor: nat): (r: nat)
    requires IsULong(state) && IsULong(multiplier) && IsULong(increment) && IsULong(divisor)
    ensures r < FullModulus(divisor)
    ensures state * multiplier + increment < TWO64 ==> r == Step(state, multiplier, increment, FullModulus(divisor))
    ensures TWO64 % FullModulus(divisor) == 0 ==> r == Step(state, multiplier, increment, FullModulus(divisor))
  {
    var x := state * multiplier + increment;
    WrappedReduce(x, divisor);
    var next := x % TWO64;
    if divisor != 0 then next % divisor else next
  }

  /** ValueFromRaw: divide by the discard divisor, then reduce by the output divisor, each only when nonzero. */
  function ValueFromRaw(raw: nat, discardDivisor: nat, outputDivisor: nat): (r: nat)
    ensures r <= raw
    ensures discardDivisor != 0 ==> r <= raw / discardDivisor
    ensures outputDivisor != 0 ==> r < outputDivisor
    ensures outputDivisor == 0 ==> r == (if discardDivisor != 0 then raw / discardDivisor else raw)
    ensures outputDivisor != 0 ==> r == (if discardDivisor != 0 then raw / discardDivisor else raw) % outputDivisor
  {
    var v := if discardDivisor != 0 then raw / discardDivisor else raw;
    assert v <= raw by {
      if discardDivisor != 0 {
        DivAtMost(raw, discardDivisor);
      }
    }
    assert outputDivisor != 0 ==> v % outputDivisor <= v by {
      if outputDivisor != 0 {
        ModAtMost(v, outputDivisor);
      }
    }
    if outputDivisor != 0 then v % outputDivisor else v
  }

  lemma DivAtMost(x: nat, d: nat)
    requires d > 0
    ensures 0 <= x / d <= x
  {
    MulLe(1, d, x / d);
  }

  lemma ModAtMost(x: nat, d: nat)
    requires d > 0
    ensures x % d <= x
  {
    MulLe(0, x / d, d);
  }

  /** GetMultiplicativeInverse raises on this input: the signed routine refuses it. */
  predicate InverseRaises(multiplier: nat, divisor: nat)
  {
    !(multiplier >= divisor && divisor != 0) && (multiplier >= TWO63 || divisor == 0 || divisor >= TWO63)
  }

  /** The multiplier has an inverse that GetMultiplicativeInverse finds. */
  predicate Invertible(multiplier: nat, divisor: nat)
  {
    0 < multiplier < divisor < TWO63 && Gcd(divisor, multiplier) == 1
  }

  /**
   * GetMultiplicativeInverse: 0 when M is not below a nonzero divisor; a
   * multiplier or divisor that is negative as a long goes to the signed
   * routine, which refuses it; otherwise the 256-bit routine gives the
   * inverse, or 0 when there is none.
   */
  method GetMultiplicativeInverse(multiplier: nat, divisor: nat) returns (mi: Outcome<nat>)
    requires IsULong(multiplier) && IsULong(divisor)
    ensures mi.Raises? <==> InverseRaises(multiplier, divisor)
    ensures mi.Ok? ==> mi.value < divisor
    ensures mi.Ok? && multiplier >= divisor ==> mi.value == 0
    ensures mi.Ok? && mi.value != 0 ==> (multiplier * mi.value) % divisor == 1
    ensures Invertible(multiplier, divisor) ==> mi.Ok? && mi.value != 0
    ensures mi.Ok? && (multiplier == 0 || Gcd(divisor, multiplier) != 1) ==> mi.value == 0
    ensures mi.Ok? && !Invertible(multiplier, divisor) ==> mi.value == 0
  {
    if multiplier >= divisor && divisor != 0 {
      return Ok(0);
    }
    if multiplier >= TWO63 || divisor == 0 || divisor >= TWO63 {
      mi := MultiplicativeInverse(AsLong(multiplier), AsLong(divisor));
      return;
    }
    var v := InverseOfLongs(multiplier, divisor);
    return Ok(v);
  }

  /**
   * The 256-bit branch of GetMultiplicativeInverse, for a multiplier below a
   * divisor that is positive as a long: the inverse, or 0 when there is none.
   */
  method InverseOfLongs(multiplier: nat, divisor: nat) returns (v: nat)
    requires multiplier < divisor < TWO63
    ensures multiplier > 0 && Gcd(divisor, multiplier) == 1 ==> 0 < v < divisor && (multiplier * v) % divisor == 1
    ensures !(multiplier > 0 && Gcd(divisor, multiplier) == 1) ==> v == 0
  {
    var a := new MyUInt256.FromU64(multiplier);
    var m := new MyUInt256.FromU64(divisor);
    var mibig := MultiplicativeInverse256(a, m);
    assert mibig.Ok? by {
      assert 2 * a.Value() < TWO256 && a.Value() < m.Value();
    }
    v := 0;
    if mibig.value != null {
      v := mibig.value.ToUInt64();
      InverseFound(multiplier, divisor, mibig.value.Value(), v);
    }
  }

  /** The value read back from a 256-bit inverse below the divisor is that inverse, and it is not 0. */
  lemma InverseFound(multiplier: nat, divisor: nat, inverse: nat, v: nat)
    requires divisor < TWO63 && inverse < divisor && (multiplier * inverse) % divisor == 1 && v == inverse % TWO64
    ensures 0 < v < divisor && (multiplier * v) % divisor == 1
  {
  }

  /**
   * PreviousState: with an inverse, ((state - I) * M^-1) wrapped to 64 bits
   * and reduced; without one, seeking ahead divisor - 1 states. For a
   * modulus dividing 2^64 and an invertible multiplier it is the unique
   * predecessor under NextState.
   */
  method PreviousState(state: nat, multiplier: nat, increment: nat, divisor: nat) returns (r: Outcome<nat>)
    requires IsULong(state) && IsULong(multiplier) && IsULong(increment) && IsULong(divisor)
    ensures r.Raises? <==> InverseRaises(multiplier, divisor)
    ensures r.Ok? ==> IsULong(r.value)
    ensures Invertible(multiplier, divisor) && TWO64 % divisor == 0 && state < divisor ==>
      r.Ok? && r.value < divisor && NextState(r.value, multiplier, increment, divisor) == state
    ensures forall x {:trigger NextState(x, multiplier, increment, divisor)} ::
      (Invertible(multiplier, divisor) && TWO64 % divisor == 0 && 0 <= x < divisor
       && NextState(x, multiplier, increment, divisor) == state) ==> r == Ok(x)
  {
    var mi := GetMultiplicativeInverse(multiplier, divisor);
    if mi.Raises? {
      return Raises(mi.reason);
    }
    if mi.value != 0 {
      var prev := (((state - increment) % TWO64) * mi.value) % TWO64;
      if divisor != 0 {
        prev := prev % divisor;
      }
      if Invertible(multiplier, divisor) && TWO64 % divisor == 0 {
        PreviousIsBackStep(state, multiplier, increment, mi.value, divisor);
        if state < divisor {
          ForwardAfterBack(state, multiplier, increment, mi.value, divisor);
        }
        forall x | 0 <= x < divisor && NextState(x, multiplier, increment, divisor) == state
          ensures prev == x
        {
          BackAfterForward(x, multiplier, increment, mi.value, divisor);
        }
      }
      return Ok(prev);
    }
    var s := SeekState(state, (divisor - 1) % TWO64, multiplier, increment, divisor);
    return Ok(s);
  }

  /** The wrapped backward formula is the exact backward step when the modulus divides 2^64. */
  lemma PreviousIsBackStep(state: nat, multiplier: nat, increment: nat, inverse: nat, d: nat)
    requires d > 0 && TWO64 % d == 0
    ensures ((((state - increment) % TWO64) * inverse) % TWO64) % d
         == Step(state, inverse, BackIncrement(increment, inverse, d), d)
  {
    WrapsVanish(state - increment, inverse, d);
    BackStepResidue(state, increment, inverse, d);
  }

  /** Both 2^64 wraps of the backward formula vanish modulo a divisor of 2^64. */
  lemma WrapsVanish(z: int, inverse: nat, d: nat)
    requires d > 0 && TWO64 % d == 0
    ensures (((z % TWO64) * inverse) % TWO64) % d == (z * inverse) % d
  {
    WrapThenReduce((z % TWO64) * inverse, d);
    ModMulLeft(z % TWO64, inverse, d);
    WrapThenReduce(z, d);
    ModMulLeft(z, inverse, d);
  }

  lemma MulAddRight(a: int, b: int, c: int)
    ensures (a + b) * c == a * c + b * c
  {
  }

  /** (s - c) * inverse and s * inverse + BackIncrement(c) leave the same residue. */
  lemma BackStepResidue(state: nat, increment: nat, inverse: nat, d: nat)
    requires d > 0
    ensures ((state - increment) * inverse) % d == Step(state, inverse, BackIncrement(increment, inverse, d), d)
  {
    var y := state + d - increment % d;
    assert (state - increment) % d == y % d by {
      assert y == (state - increment) + (increment / d + 1) * d;
      ModAddMultiple(state - increment, increment / d + 1, d);
    }
    ModMulLeft(state - increment, inverse, d);
    ModMulLeft(y, inverse, d);
    var k := d - increment % d;
    assert y * inverse == state * inverse + k * inverse by {
      assert y == state + k;
      MulAddRight(state, k, inverse);
    }
    ModAdd(state * inverse, (d - increment % d) * inverse, d);
    ModAdd(state * inverse, BackIncrement(increment, inverse, d), d);
    ModOfMod((d - increment % d) * inverse, d);
  }

  // ---------------------------------------------------------------------
  // SeekState
  // ---------------------------------------------------------------------

  /** (M^n mod d(M-1) - 1) / (M - 1) is the geometric sum less a multiple of d. */
  lemma ExactQuotient(p: int, a: int, g: int, t: int, d: int, m1: int, f: int)
    requires m1 > 0 && a >= 1 && g * m1 == p - 1 && p == t * (d * m1) + a && f == (a - 1) / m1
    ensures f == g - t * d
  {
    assert a - 1 == (g - t * d) * m1;
    DivModUnique(a - 1, m1, g - t * d, 0);
  }

  lemma FractionBelow(f: int, a: int, m1: int, d: int)
    requires m1 > 0 && f >= 0 && 1 <= a < d * m1 && f == (a - 1) / m1
    ensures f < d
  {
    assert f * m1 <= a - 1;
    if f >= d {
      MulLe(d, f, m1);
    }
  }

  /** The products of SeekState never wrap at 256 bits. */
  lemma ProductBounds(s: nat, a: nat, f: nat, increment: nat)
    requires s < TWO64 && a < TWO128 && f < TWO64 && increment < TWO64
    ensures ((s * a) % TWO256 + (f * increment) % TWO256) % TWO256 == s * a + f * increment
  {
    var x: int, y: int := s * a, f * increment;
    MulStrict(s, a, TWO64, TWO128);
    MulStrict(f, increment, TWO64, TWO64);
    SumBelow(x, y);
    ModSmall(x, TWO256);
    ModSmall(y, TWO256);
    ModSmall(x + y, TWO256);
  }

  lemma ClosedRegroup(s: int, a: int, f: int, increment: int, p: int, g: int, t: int, d: int, m1: int)
    requires p == t * (d * m1) + a && f == g - t * d
    ensures s * a + f * increment == (p * s + increment * g) + (-(t * s * m1 + t * increment)) * d
  {
  }

  /** With M^n mod d(M-1) nonzero, the 256-bit evaluation is the closed form. */
  lemma SeekArithNonzero(s: nat, n: nat, multiplier: nat, increment: nat, d: nat, a: nat, f: nat)
    requires n > 0 && 2 <= multiplier < TWO64 && 0 < d <= TWO64 && s < TWO64 && increment < TWO64
    requires a == Pow(multiplier, n) % (d * (multiplier - 1)) && a >= 1
    requires f == (a - 1) / (multiplier - 1)
    ensures (((s * a) % TWO256 + (f * increment) % TWO256) % TWO256) % d == Iterate(s, n, multiplier, increment, d)
  {
    var m1 := multiplier - 1;
    var cd := d * m1;
    var p := Pow(multiplier, n);
    var g := Geometric(multiplier, n);
    var t := p / cd;
    GeometricTimes(multiplier, n);
    assert p == t * cd + a;
    ExactQuotient(p, a, g, t, d, m1, f);
    FractionBelow(f, a, m1, d);
    assert a < TWO128 by {
      MulLe(m1, TWO64, d);
      MulLe(d, TWO64, TWO64);
    }
    ProductBounds(s, a, f, increment);
    var x := p * s + increment * g;
    var k := -(t * s * m1 + t * increment);
    ClosedRegroup(s, a, f, increment, p, g, t, d, m1);
    ModAddMultiple(x, k, d);
    IterateIsClosed(s, n, multiplier, increment, d);
    assert Iterate(s, n, multiplier, increment, d) == x % d;
  }

  /**
   * With M^n mod d(M-1) zero, M is 2 and d divides 2^n; the wrapped
   * evaluation -I mod 2^256 still reduces to the closed form because d
   * divides 2^256.
   */
  lemma SeekArithZero(s: nat, n: nat, multiplier: nat, increment: nat, d: nat)
    requires n > 0 && 2 <= multiplier < TWO64 && 0 < d <= TWO64 && s < TWO64 && increment < TWO64
    requires Pow(multiplier, n) % (d * (multiplier - 1)) == 0
    ensures multiplier == 2
    ensures (((TWO256 - 1) * increment) % TWO256) % d == Iterate(s, n, multiplier, increment, d)
  {
    var m1 := multiplier - 1;
    var p := Pow(multiplier, n);
    var g := Geometric(multiplier, n);
    GeometricTimes(multiplier, n);
    DividesFactors(p, d, m1);
    ResidueCheck(p, g, m1);
    Pow2Of256();
    Pow2Of64();
    PowerOfTwoDivisor(d, n, 256);
    var k := TWO256 / d;
    assert d * k == TWO256;
    WrapNegation(increment, d, k);
    var neg: int := 0 - increment;
    assert (((TWO256 - 1) * increment) % TWO256) % d == neg % d;
    var c := p / d;
    assert p == c * d;
    assert g == p - 1;
    ClosedNegation(p, s, increment, g, d, c);
    ModAddMultiple(neg, c * s + c * increment, d);
    IterateIsClosed(s, n, multiplier, increment, d);
    assert Iterate(s, n, multiplier, increment, d) == neg % d;
  }

  /** A multiple of a*b is a multiple of a and of b. */
  lemma DividesFactors(p: int, a: int, b: int)
    requires a > 0 && b > 0 && p % (a * b) == 0
    ensures p % a == 0 && p % b == 0
  {
    var q := p / (a * b);
    assert p == (q * b) * a + 0;
    assert p == (q * a) * b + 0;
    DivModUnique(p, a, q * b, 0);
    DivModUnique(p, b, q * a, 0);
  }

  /** When d divides d*k, (-i mod d*k) mod d is -i mod d. */
  lemma WrapNegation(i: int, d: int, k: int)
    requires d > 0 && k > 0
    ensures (((d * k - 1) * i) % (d * k)) % d == (0 - i) % d
  {
    var x := (d * k - 1) * i;
    ModModMultiple(x, d, k);
    assert x == (0 - i) + (k * i) * d;
    ModAddMultiple(0 - i, k * i, d);
  }

  lemma ClosedNegation(p: int, s: int, i: int, g: int, d: int, c: int)
    requires p == c * d && g == p - 1
    ensures p * s + i * g == (0 - i) + (c * s + c * i) * d
  {
  }

  /** p = g*m1 + 1 with m1 dividing p forces m1 = 1. */
  lemma ResidueCheck(p: int, g: int, m1: int)
    requires m1 > 0 && p == g * m1 + 1 && p % m1 == 0
    ensures m1 == 1
  {
    ModAddMultiple(1, g, m1);
    if m1 > 1 {
      ModSmall(1, m1);
    }
  }

  /** Reducing by a nonzero divisor and then truncating to 64 bits is reduction by the full modulus. */
  lemma ReduceThenTruncate(v: nat, divisor: nat)
    requires divisor < TWO64
    ensures (if divisor == 0 then v else v % divisor) % TWO64 == v % FullModulus(divisor)
  {
    if divisor != 0 {
      ModSmall(v % divisor, TWO64);
    }
  }

  /** d*(M - 1) is a positive number of at most 128 bits. */
  lemma ScaledDivisorBound(d: nat, m1: nat)
    requires 0 < d <= TWO64 && 0 < m1 < TWO64
    ensures 0 < d * m1 <= TWO128
  {
    MulLe(m1, TWO64, d);
    MulLe(d, TWO64, TWO64);
  }

  /**
   * The 256-bit evaluation M^n*s + I*((M^n mod d(M-1)) - 1)/(M - 1), wrapping
   * at every step, reduces modulo d to the state n steps ahead.
   */
  lemma SeekEvaluation(s: nat, n: nat, multiplier: nat, increment: nat, d: nat, a: nat, f: int, v: nat)
    requires n > 0 && 2 <= multiplier < TWO64 && 0 < d <= TWO64 && s < TWO64 && increment < TWO64
    requires a == Pow(multiplier, n) % (d * (multiplier - 1))
    requires f == ((a - 1) % TWO256) / (multiplier - 1)
    requires v == ((s * a) % TWO256 + (f * increment) % TWO256) % TWO256
    ensures v % d == Iterate(s, n, multiplier, increment, d)
  {
    if a >= 1 {
      ScaledDivisorBound(d, multiplier - 1);
      ModSmall(a - 1, TWO256);
      DivAtMost(a - 1, multiplier - 1);
      SeekArithNonzero(s, n, multiplier, increment, d, a, f);
    } else {
      SeekEvaluationOfZero(s, n, multiplier, increment, d, f, v);
    }
  }

  /** The evaluation when M^n is a multiple of d(M-1): a - 1 wraps to 2^256 - 1. */
  lemma SeekEvaluationOfZero(s: nat, n: nat, multiplier: nat, increment: nat, d: nat, f: int, v: nat)
    requires n > 0 && 2 <= multiplier < TWO64 && 0 < d <= TWO64 && s < TWO64 && increment < TWO64
    requires Pow(multiplier, n) % (d * (multiplier - 1)) == 0
    requires f == ((0 - 1) % TWO256) / (multiplier - 1)
    requires v == ((s * 0) % TWO256 + (f * increment) % TWO256) % TWO256
    ensures v % d == Iterate(s, n, multiplier, increment, d)
  {
    ScaledDivisorBound(d, multiplier - 1);
    SeekArithZero(s, n, multiplier, increment, d);
    ModAddMultiple(-1, 1, TWO256);
    ModSmall(TWO256 - 1, TWO256);
    assert f == TWO256 - 1;
    var w := ((TWO256 - 1) * increment) % TWO256;
    ModSmall(w, TWO256);
    assert v == w;
  }

  lemma MulStrict(x: int, y: int, xBound: int, yBound: int)
    requires 0 <= x < xBound && 0 <= y < yBound
    ensures 0 <= x * y < xBound * yBound
  {
    MulLe(y, yBound, x);
    MulLe(x, xBound, yBound);
  }

  lemma SumBelow(x: int, y: int)
    requires 0 <= x < TWO64 * TWO128 && 0 <= y < TWO64 * TWO64
    ensures x < TWO256 && y < TWO256 && x + y < TWO256
  {
  }

  /** The 256-bit divisor*(M - 1), with divisor 0 standing for 2^64. */
  method ScaledDivisor(divisor: nat, multiplier: nat) returns (c: MyUInt256)
    requires IsULong(divisor) && 2 <= multiplier < TWO64
    ensures fresh(c) && fresh(c.a) && c.Valid()
    ensures c.Value() == FullModulus(divisor) * (multiplier - 1)
  {
    c := new MyUInt256.FromU64(divisor);
    if divisor == 0 {
      c.SetPair(0, 1);
    }
    ScaledDivisorBound(FullModulus(divisor), multiplier - 1);
    MulLe(FullModulus(divisor) * (multiplier - 1), TWO128, TWO256);
    c.MultiplyU64(multiplier - 1);
    ModSmall(FullModulus(divisor) * (multiplier - 1), TWO256);
  }

  /**
   * SeekState: the state offset steps after state, evaluated as
   * M^n*s + I*(M^n - 1)/(M - 1) with M^n taken modulo divisor*(M - 1) so
   * that the division is exact. Multiplier 0 yields the increment and
   * multiplier 1 yields I*n, leaving out the start state.
   */
  method SeekState(state: nat, offset: nat, multiplier: nat, increment: nat, divisor: nat) returns (r: nat)
    requires IsULong(state) && IsULong(offset) && IsULong(multiplier) && IsULong(increment) && IsULong(divisor)
    ensures IsULong(r)
    ensures offset == 0 ==> r == state
    ensures offset > 0 && multiplier == 0 ==> r == increment
    ensures offset > 0 && multiplier == 1 ==> r == (increment * offset) % FullModulus(divisor)
    ensures offset > 0 && multiplier >= 2 ==> r == Iterate(state, offset, multiplier, increment, FullModulus(divisor))
  {
    if offset == 0 {
      r := state;
    } else if multiplier == 0 {
      r := increment;
    } else if multiplier == 1 {
      r := SeekLinear(offset, increment, divisor);
    } else {
      r := SeekGeometric(state, offset, multiplier, increment, divisor);
    }
  }

  /** The multiplier-1 branch of SeekState: I*n in 256 bits, reduced. */
  method SeekLinear(offset: nat, increment: nat, divisor: nat) returns (r: nat)
    requires IsULong(offset) && IsULong(increment) && IsULong(divisor)
    ensures r == (increment * offset) % FullModulus(divisor) && IsULong(r)
  {
    var product := new MyUInt256.FromU64(increment);
    product.MultiplyU64(offset);
    ghost var p := product.Value();
    assert p == increment * offset by {
      MulStrict(increment, offset, TWO64, TWO64);
      ModSmall(increment * offset, TWO256);
    }
    if divisor != 0 {
      product.ModuloU64(divisor);
    }
    r := product.ToUInt64();
    ReduceThenTruncate(p, divisor);
  }

  /**
   * SeekLinear as written leaves the start state out: from state 5, one step
   * with multiplier 1 and increment 1 in 64 bits gives 1 instead of 6.
   */
  lemma LinearSeekDropsState()
    ensures (1 * 1) % FullModulus(0) == 1
    ensures Iterate(5, 1, 1, 1, FullModulus(0)) == 6
  {
  }

  /** The multiplier-1 branch with the start state added: s + I*n in 256 bits, reduced. */
  method SeekLinearCorrected(state: nat, offset: nat, increment: nat, divisor: nat) returns (r: nat)
    requires IsULong(state) && 0 < offset < TWO64 && IsULong(increment) && IsULong(divisor)
    ensures r == Iterate(state, offset, 1, increment, FullModulus(divisor)) && IsULong(r)
  {
    var product := new MyUInt256.FromU64(increment);
    product.MultiplyU64(offset);
    var start := new MyUInt256.FromU64(state);
    product.Add(start);
    ghost var p := product.Value();
    if divisor != 0 {
      product.ModuloU64(divisor);
    }
    r := product.ToUInt64();
    ReduceThenTruncate(p, divisor);
    LinearEvaluation(state, offset, increment, FullModulus(divisor), p);
  }

  lemma LinearEvaluation(s: nat, n: nat, increment: nat, d: nat, p: nat)
    requires s < TWO64 && 0 < n < TWO64 && increment < TWO64 && d > 0
    requires p == ((increment * n) % TWO256 + s) % TWO256
    ensures p % d == Iterate(s, n, 1, increment, d)
  {
    var x: int := increment * n;
    MulStrict(increment, n, TWO64, TWO64);
    SumBelow(x, s);
    ModSmall(x, TWO256);
    ModSmall(x + s, TWO256);
    IterateLinear(s, n, increment, d);
    ModOfMod(Iterate(s, n - 1, 1, increment, d) * 1 + increment, d);
  }

  /** (((M^n mod d(M-1)) - 1) / (M - 1)) * I, wrapping at 256 bits. */
  method GeometricFraction(power: MyUInt256, multiplier: nat, increment: nat) returns (fraction: MyUInt256)
    requires power.Valid() && 2 <= multiplier < TWO64 && IsULong(increment)
    ensures fresh(fraction) && fresh(fraction.a) && fraction.Valid()
    ensures fraction.Value() == ((((power.Value() - 1) % TWO256) / (multiplier - 1)) * increment) % TWO256
  {
    fraction := new MyUInt256.Copy(power);
    fraction.SubtractU64(1);
    fraction.DivideU64(multiplier - 1);
    fraction.MultiplyU64(increment);
  }

  /** The multiplier-2-or-more branch of SeekState: the closed form of offset steps. */
  method SeekGeometric(state: nat, offset: nat, multiplier: nat, increment: nat, divisor: nat) returns (r: nat)
    requires IsULong(state) && 0 < offset < TWO64 && 2 <= multiplier < TWO64 && IsULong(increment) && IsULong(divisor)
    ensures r == Iterate(state, offset, multiplier, increment, FullModulus(divisor)) && IsULong(r)
  {
    var compdivisor := ScaledDivisor(divisor, multiplier);
    ScaledDivisorBound(FullModulus(divisor), multiplier - 1);
    var aexpn := new MyUInt256.FromU64(multiplier);
    aexpn.ExpMod(offset, compdivisor);
    ghost var a := aexpn.Value();
    var fraction := GeometricFraction(aexpn, multiplier, increment);
    var newstate := new MyUInt256.FromU64(state);
    newstate.Multiply(aexpn);
    newstate.Add(fraction);
    ghost var v := newstate.Value();
    SeekEvaluation(state, offset, multiplier, increment, FullModulus(divisor), a, ((a - 1) % TWO256) / (multiplier - 1), v);
    if divisor != 0 {
      newstate.ModuloU64(divisor);
    }
    r := newstate.ToUInt64();
    ReduceThenTruncate(v, divisor);
  }

  /**
   * The inverse multiplier and backward increment that SeekBack and
   * SeekSeedBack derive: I is reduced below the divisor, negated, and
   * multiplied by M^-1 in 256 bits.
   */
  method BackParameters(multiplier: nat, increment: nat, divisor: nat) returns (mi: Outcome<nat>, back: nat)
    requires IsULong(multiplier) && IsULong(increment) && IsULong(divisor)
    ensures mi.Raises? <==> InverseRaises(multiplier, divisor)
    ensures mi.Ok? ==> mi.value < divisor && IsULong(back)
    ensures mi.Ok? && mi.value != 0 ==>
      (multiplier * mi.value) % divisor == 1 && back == BackIncrement(increment, mi.value, divisor)
    ensures Invertible(multiplier, divisor) ==> mi.Ok? && mi.value != 0
    ensures mi.Ok? && (multiplier == 0 || Gcd(divisor, multiplier) != 1) ==> mi.value == 0
    ensures mi.Ok? && !Invertible(multiplier, divisor) ==> mi.value == 0
  {
    mi := GetMultiplicativeInverse(multiplier, divisor);
    if mi.Raises? || mi.value == 0 {
      back := 0;
      return;
    }
    back := NegatedIncrement(increment, mi.value, divisor);
  }

  /**
   * The backward increment -I * M^-1 modulo the divisor: I is reduced below
   * the divisor, and a zero remainder yields zero.
   */
  method NegatedIncrement(increment: nat, inverse: nat, divisor: nat) returns (back: nat)
    requires IsULong(increment) && 0 < inverse < divisor < TWO64
    ensures back == BackIncrement(increment, inverse, divisor)
  {
    back := increment;
    if back >= divisor {
      back := back % divisor;
    }
    ModSmall(back, divisor);
    assert back == increment % divisor;
    if back != 0 {
      var incrinverse := new MyUInt256.FromU64(divisor - back);
      incrinverse.MultiplyU64(inverse);
      ghost var v := incrinverse.Value();
      incrinverse.ModuloU64(divisor);
      back := incrinverse.ToUInt64();
      NegationEvaluation(divisor - increment % divisor, inverse, divisor, v);
    } else {
      DivMulCancel(inverse, divisor);
      assert (divisor - increment % divisor) * inverse == inverse * divisor;
    }
  }

  lemma NegationEvaluation(x: nat, inverse: nat, divisor: nat, v: nat)
    requires x < TWO64 && inverse < TWO64 && 0 < divisor < TWO64 && v == (x * inverse) % TWO256
    ensures (v % divisor) % TWO64 == (x * inverse) % divisor
  {
    MulStrict(x, inverse, TWO64, TWO64);
    ModSmall(x * inverse, TWO256);
    ModSmall(v % divisor, TWO64);
  }

  /** raw*limit / m in 256 bits never wraps, and it is below limit when raw is below m. */
  lemma ScaleEvaluation(raw: nat, limit: nat, m: nat, v: nat)
    requires raw < TWO64 && limit < TWO64 && 0 < m <= TWO64 && v == ((raw * limit) % TWO256) / m
    ensures v == raw * limit / m
    ensures raw < m ==> v < TWO64 && v % TWO64 == v && (limit > 0 ==> v < limit)
  {
    MulStrict(raw, limit, TWO64, TWO64);
    ModSmall(raw * limit, TWO256);
    if raw < m {
      if limit > 0 {
        MulLe(raw, m - 1, limit);
        DivBound(raw * limit, m, limit);
      } else {
        assert raw * limit == 0;
      }
      ModSmall(v, TWO64);
    }
  }

  /** A multiplier of at least 2 below the modulus has an inverse of at least 2. */
  lemma InverseAtLeastTwo(multiplier: nat, inverse: nat, d: nat)
    requires 2 <= multiplier < d && inverse < d && (multiplier * inverse) % d == 1
    ensures inverse >= 2
  {
    if inverse == 1 {
      ModSmall(multiplier, d);
    }
  }

  /**
   * A linear congruential generator: the state _LcgState and the constants
   * Multiplier, Increment, Modulus, DiscardDivisor and OutputDivisor that a
   * derived generator overrides.
   */
  class LcgGenerator {
    const multiplier: nat
    const increment: nat
    const modulus: nat
    const discardDivisor: nat
    const outputDivisor: nat
    /** _LcgState */
    var state: nat

    ghost predicate Valid()
      reads this
    {
      IsULong(multiplier) && IsULong(increment) && IsULong(modulus)
      && IsULong(discardDivisor) && IsULong(outputDivisor) && IsULong(state)
    }

    constructor (multiplier: nat, increment: nat, modulus: nat, discardDivisor: nat, outputDivisor: nat)
      requires IsULong(multiplier) && IsULong(increment) && IsULong(modulus)
      requires IsULong(discardDivisor) && IsULong(outputDivisor)
      ensures Valid() && state == 0
      ensures this.multiplier == multiplier && this.increment == increment && this.modulus == modulus
      ensures this.discardDivisor == discardDivisor && this.outputDivisor == outputDivisor
    {
      this.multiplier := multiplier;
      this.increment := increment;
      this.modulus := modulus;
      this.discardDivisor := discardDivisor;
      this.outputDivisor := outputDivisor;
      state := 0;
    }

    function MinimumSeed(): nat
    {
      0
    }

    /** Modulus - 1, wrapping to 2^64 - 1 for the modulus 2^64. */
    function MaximumSeed(): nat
    {
      (modulus - 1) % TWO64
    }

    /** Seed: the seed reduced modulo Modulus (which the source divides by). */
    method Seed(seed: nat)
      requires Valid() && IsULong(seed) && modulus != 0
      modifies this
      ensures Valid() && state == seed % modulus
      ensures MinimumSeed() <= state <= MaximumSeed()
    {
      state := seed % modulus;
    }

    /** Next: one NextState step; the output is ValueFromRaw of the new state. */
    method Next() returns (r: nat)
      requires Valid()
      modifies this
      ensures Valid() && state == NextState(old(state), multiplier, increment, modulus)
      ensures r == ValueFromRaw(state, discardDivisor, outputDivisor)
    {
      state := NextState(state, multiplier, increment, modulus);
      r := ValueFromRaw(state, discardDivisor, outputDivisor);
    }

    /**
     * ValueFromRaw(raw, limit): the discard path of ValueFromRaw(raw), or
     * else raw*limit / Modulus in 256 bits (Modulus 0 read as 2^64), which is
     * below limit for a raw value below the modulus.
     */
    method ValueFromRawLimit(raw: nat, limit: nat) returns (r: nat)
      requires Valid() && IsULong(raw) && IsULong(limit)
      ensures discardDivisor != 0 ==> r == ValueFromRaw(raw, discardDivisor, outputDivisor)
      ensures discardDivisor == 0 ==> r == (raw * limit / FullModulus(modulus)) % TWO64
      ensures discardDivisor == 0 && raw < FullModulus(modulus) ==>
        r == raw * limit / FullModulus(modulus) && (limit > 0 ==> r < limit)
    {
      if discardDivisor != 0 {
        return ValueFromRaw(raw, discardDivisor, outputDivisor);
      }
      var product := new MyUInt256.FromU64(raw);
      product.MultiplyU64(limit);
      product.DivideU64(modulus);
      ghost var v := product.Value();
      r := product.ToUInt64();
      ScaleEvaluation(raw, limit, FullModulus(modulus), v);
    }

    /** Next(limit): one NextState step, output through ValueFromRaw(raw, limit). */
    method NextLimit(limit: nat) returns (r: nat)
      requires Valid() && IsULong(limit)
      modifies this
      ensures Valid() && state == NextState(old(state), multiplier, increment, modulus)
      ensures discardDivisor != 0 ==> r == ValueFromRaw(state, discardDivisor, outputDivisor)
      ensures discardDivisor == 0 ==> r == state * limit / FullModulus(modulus) && (limit > 0 ==> r < limit)
    {
      state := NextState(state, multiplier, increment, modulus);
      r := ValueFromRawLimit(state, limit);
    }

    /** SeekAhead: SeekState from the current state. */
    method SeekAhead(offset: nat)
      requires Valid() && IsULong(offset)
      modifies this
      ensures Valid()
      ensures offset == 0 ==> state == old(state)
      ensures offset > 0 && multiplier == 0 ==> state == increment
      ensures offset > 0 && multiplier == 1 ==> state == (increment * offset) % FullModulus(modulus)
      ensures offset > 0 && multiplier >= 2 ==>
        state == Iterate(old(state), offset, multiplier, increment, FullModulus(modulus))
    {
      state := SeekState(state, offset, multiplier, increment, modulus);
    }

    /**
     * SeekBack: SeekState with the inverse multiplier and the backward
     * increment; without an inverse, SeekAhead(Modulus - offset). Seeking
     * ahead offset exact steps from the result gives back the old state.
     */
    method SeekBack(offset: nat) returns (o: Outcome<()>)
      requires Valid() && IsULong(offset)
      modifies this
      ensures Valid()
      ensures o.Raises? <==> offset > 0 && InverseRaises(multiplier, modulus)
      ensures o.Raises? || offset == 0 ==> state == old(state)
      ensures o.Ok? && offset > 0 && Invertible(multiplier, modulus) && multiplier >= 2 && old(state) < modulus ==>
        state < modulus && Iterate(state, offset, multiplier, increment, modulus) == old(state)
      ensures (o.Ok? && offset > 0 && !Invertible(multiplier, modulus) && multiplier >= 2
               && (modulus - offset) % TWO64 > 0) ==>
        state == Iterate(old(state), (modulus - offset) % TWO64, multiplier, increment, FullModulus(modulus))
    {
      if offset == 0 {
        return Ok(());
      }
      var mi, back := BackParameters(multiplier, increment, modulus);
      if mi.Raises? {
        return Raises(mi.reason);
      }
      if mi.value == 0 {
        SeekAhead((modulus - offset) % TWO64);
        return Ok(());
      }
      ghost var s0 := state;
      if multiplier >= 2 && multiplier < modulus {
        InverseAtLeastTwo(multiplier, mi.value, modulus);
      }
      state := SeekState(state, offset, mi.value, back, modulus);
      if Invertible(multiplier, modulus) && multiplier >= 2 && s0 < modulus {
        SeekRoundTrip(s0, offset, multiplier, increment, mi.value, modulus);
        IterateBelow(s0, offset, mi.value, back, modulus);
      }
      return Ok(());
    }

    /** Previous: returns ValueFromRaw of the current state, then seeks back one state. */
    method Previous() returns (r: Outcome<nat>)
      requires Valid()
      modifies this
      ensures Valid()
      ensures r.Raises? <==> InverseRaises(multiplier, modulus)
      ensures r.Ok? ==> r.value == ValueFromRaw(old(state), discardDivisor, outputDivisor)
      ensures r.Ok? && Invertible(multiplier, modulus) && multiplier >= 2 && old(state) < modulus ==>
        state < modulus && Step(state, multiplier, increment, modulus) == old(state)
    {
      var current := state;
      var o := SeekBack(1);
      if o.Raises? {
        return Raises(o.reason);
      }
      r := Ok(ValueFromRaw(current, discardDivisor, outputDivisor));
    }

    /** Previous(limit): ValueFromRaw(current, limit), then a step back. */
    method PreviousLimit(limit: nat) returns (r: Outcome<nat>)
      requires Valid() && IsULong(limit)
      modifies this
      ensures Valid()
      ensures r.Raises? <==> InverseRaises(multiplier, modulus)
      ensures r.Ok? && discardDivisor == 0 && old(state) < FullModulus(modulus) ==>
        r.value == old(state) * limit / FullModulus(modulus) && (limit > 0 ==> r.value < limit)
      ensures r.Ok? && discardDivisor != 0 ==> r.value == ValueFromRaw(old(state), discardDivisor, outputDivisor)
      ensures r.Ok? && Invertible(multiplier, modulus) && multiplier >= 2 && old(state) < modulus ==>
        state < modulus && Step(state, multiplier, increment, modulus) == old(state)
    {
      var current := state;
      var o := SeekBack(1);
      if o.Raises? {
        return Raises(o.reason);
      }
      var v := ValueFromRawLimit(current, limit);
      r := Ok(v);
    }

    /** SeekSeedAhead: SeekState from the given seed; the instance is untouched. */
    method SeekSeedAhead(seed: nat, offset: nat) returns (r: nat)
      requires Valid() && IsULong(seed) && IsULong(offset)
      ensures IsULong(r)
      ensures offset == 0 ==> r == seed
      ensures offset > 0 && multiplier >= 2 ==> r == Iterate(seed, offset, multiplier, increment, FullModulus(modulus))
    {
      r := SeekState(seed, offset, multiplier, increment, modulus);
    }

    /**
     * SeekSeedBack: as SeekBack, but returning the result; the backward
     * seek starts from the instance state, not from the seed argument.
     */
    method SeekSeedBack(seed: nat, offset: nat) returns (r: Outcome<nat>)
      requires Valid() && IsULong(seed) && IsULong(offset)
      ensures r.Raises? <==> offset > 0 && InverseRaises(multiplier, modulus)
      ensures offset == 0 ==> r == Ok(seed)
      ensures r.Ok? && offset > 0 && Invertible(multiplier, modulus) && multiplier >= 2 && state < modulus ==>
        r.value < modulus && Iterate(r.value, offset, multiplier, increment, modulus) == state
    {
      if offset == 0 {
        return Ok(seed);
      }
      var mi, back := BackParameters(multiplier, increment, modulus);
      if mi.Raises? {
        return Raises(mi.reason);
      }
      if mi.value == 0 {
        var s := SeekSeedAhead(seed, (modulus - offset) % TWO64);
        return Ok(s);
      }
      if multiplier >= 2 && multiplier < modulus {
        InverseAtLeastTwo(multiplier, mi.value, modulus);
      }
      var s := SeekState(state, offset, mi.value, back, modulus);
      if Invertible(multiplier, modulus) && multiplier >= 2 && state < modulus {
        SeekRoundTrip(state, offset, multiplier, increment, mi.value, modulus);
        IterateBelow(state, offset, mi.value, back, modulus);
      }
      return Ok(s);
    }

    /**
     * SeekSeedBack as intended: the backward seek starts from the seed
     * argument, so the result is the seed offset steps before it.
     */
    method SeekSeedBackCorrected(seed: nat, offset: nat) returns (r: Outcome<nat>)
      requires Valid() && IsULong(seed) && IsULong(offset)
      ensures r.Raises? <==> offset > 0 && InverseRaises(multiplier, modulus)
      ensures offset == 0 ==> r == Ok(seed)
      ensures r.Ok? && offset > 0 && Invertible(multiplier, modulus) && multiplier >= 2 && seed < modulus ==>
        r.value < modulus && Iterate(r.value, offset, multiplier, increment, modulus) == seed
    {
      if offset == 0 {
        return Ok(seed);
      }
      var mi, back := BackParameters(multiplier, increment, modulus);
      if mi.Raises? {
        return Raises(mi.reason);
      }
      if mi.value == 0 {
        var s := SeekSeedAhead(seed, (modulus - offset) % TWO64);
        return Ok(s);
      }
      if multiplier >= 2 && multiplier < modulus {
        InverseAtLeastTwo(multiplier, mi.value, modulus);
      }
      var s := SeekState(seed, offset, mi.value, back, modulus);
      if Invertible(multiplier, modulus) && multiplier >= 2 && seed < modulus {
        SeekRoundTrip(seed, offset, multiplier, increment, mi.value, modulus);
        IterateBelow(seed, offset, mi.value, back, modulus);
      }
      return Ok(s);
    }
  }
}

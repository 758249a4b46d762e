/**
 * The Lehmer (Park-Miller) generator base: a linear congruential generator
 * whose increment is 0, so that each state is the previous one times the
 * multiplier and the zero state never leaves zero.
 *
 * The instance operations that PrngLehmerBase overrides act on an
 * LcgGenerator whose increment is 0.
 */
module LehmerBase {
  import opened Common
  import opened UInt256
  import opened LcgMath
  import opened LcgBase

  /** MinimumSeed: the zero state is a fixed point, so seeds start at 1. */
  const MinimumSeed: nat := 1

  /** Increment: a Lehmer generator adds nothing. */
  const Increment: nat := 0

  /** From the zero state a Lehmer generator stays at zero forever. */
  lemma {:induction false} ZeroIsFixed(n: nat, multiplier: nat, m: nat)
    requires m > 0
    ensures Iterate(0, n, multiplier, Increment, m) == 0
  {
    if n > 0 {
      ZeroIsFixed(n - 1, multiplier, m);
    }
  }

  /** The 3-argument NextState: the LCG NextState with increment 0. */
  function NextStateLehmer(state: nat, multiplier: nat, divisor: nat): (r: nat)
    requires IsULong(state) && IsULong(multiplier) && IsULong(divisor)
    ensures r < FullModulus(divisor)
    ensures state == 0 ==> r == 0
    ensures (TWO64 % FullModulus(divisor) == 0 || state * multiplier < TWO64) ==>
      r == Step(state, multiplier, Increment, FullModulus(divisor))
  {
    NextState(state, multiplier, Increment, divisor)
  }

  /** A power of the multiplier reduced modulo m, times a 64-bit state, reduces to the Lehmer closed form. */
  lemma PowerEvaluation(s: nat, n: nat, multiplier: nat, m: nat, a: nat, p: nat)
    requires n > 0 && s < TWO64 && 0 < m <= TWO64
    requires a == Pow(multiplier, n) % m && p == (a * s) % TWO256
    ensures p % m == Iterate(s, n, multiplier, Increment, m)
  {
    var x: int := a * s;
    MulStrict(a, s, TWO64, TWO64);
    ModSmall(x, TWO256);
    ModMulLeft(Pow(multiplier, n), s, m);
    IterateIsClosed(s, n, multiplier, Increment, m);
  }

  /**
   * The 4-argument SeekState: M^n*s modulo the divisor (0 meaning 2^64),
   * with M^n reduced modulo the divisor in 256 bits.
   */
  method SeekStateLehmer(state: nat, offset: nat, multiplier: nat, divisor: nat) returns (r: nat)
    requires IsULong(state) && IsULong(offset) && IsULong(multiplier) && IsULong(divisor)
    ensures IsULong(r)
    ensures offset == 0 ==> r == state
    ensures offset > 0 ==> r == Iterate(state, offset, multiplier, Increment, FullModulus(divisor))
  {
    if offset == 0 {
      return state;
    }
    var fullmodulus: MyUInt256;
    if divisor == 0 {
      fullmodulus := new MyUInt256.FromPair(0, 1);
    } else {
      fullmodulus := new MyUInt256.FromU64(divisor);
    }
    var aexpn := new MyUInt256.FromU64(multiplier);
    aexpn.ExpMod(offset, fullmodulus);
    ghost var a := aexpn.Value();
    aexpn.MultiplyU64(state);
    ghost var p := aexpn.Value();
    if divisor != 0 {
      aexpn.Modulo(fullmodulus);
    }
    r := aexpn.ToUInt64();
    ReduceThenTruncate(p, divisor);
    PowerEvaluation(state, offset, multiplier, FullModulus(divisor), a, p);
  }

  /** With increment 0 the backward increment is 0 as well. */
  lemma BackIncrementOfZero(inverse: nat, m: nat)
    requires m > 0
    ensures BackIncrement(Increment, inverse, m) == 0
  {
    DivMulCancel(inverse, m);
    assert (m - Increment % m) * inverse == inverse * m;
  }

  /** n Lehmer steps with the inverse multiplier undo n steps with the multiplier, and the other way round. */
  lemma LehmerRoundTrip(x: nat, n: nat, multiplier: nat, inverse: nat, m: nat)
    requires m > 0 && x < m && (multiplier * inverse) % m == 1
    ensures Iterate(Iterate(x, n, multiplier, Increment, m), n, inverse, Increment, m) == x
    ensures Iterate(Iterate(x, n, inverse, Increment, m), n, multiplier, Increment, m) == x
  {
    BackIncrementOfZero(inverse, m);
    SeekRoundTrip(x, n, multiplier, Increment, inverse, m);
  }

  /** SeekAhead: the 4-argument SeekState from the instance state. */
  method SeekAhead(g: LcgGenerator, offset: nat)
    requires g.Valid() && g.increment == Increment && IsULong(offset)
    modifies g
    ensures g.Valid()
    ensures offset == 0 ==> g.state == old(g.state)
    ensures offset > 0 ==> g.state == Iterate(old(g.state), offset, g.multiplier, Increment, FullModulus(g.modulus))
  {
    g.state := SeekStateLehmer(g.state, offset, g.multiplier, g.modulus);
  }

  /**
   * SeekBack: the 4-argument SeekState with the inverse multiplier; without
   * an inverse, SeekAhead(Modulus - 1 - offset), on the guess that the
   * period divides Modulus - 1.
   */
  method SeekBack(g: LcgGenerator, offset: nat) returns (o: Outcome<()>)
    requires g.Valid() && g.increment == Increment && IsULong(offset)
    modifies g
    ensures g.Valid()
    ensures o.Raises? <==> offset > 0 && InverseRaises(g.multiplier, g.modulus)
    ensures o.Raises? || offset == 0 ==> g.state == old(g.state)
    ensures (o.Ok? && offset > 0 && Invertible(g.multiplier, g.modulus) && old(g.state) < g.modulus) ==>
      g.state < g.modulus && Iterate(g.state, offset, g.multiplier, Increment, g.modulus) == old(g.state)
    ensures (o.Ok? && offset > 0 && !Invertible(g.multiplier, g.modulus) && (g.modulus - 1 - offset) % TWO64 > 0) ==>
      g.state == Iterate(old(g.state), (g.modulus - 1 - offset) % TWO64, g.multiplier, Increment, FullModulus(g.modulus))
  {
    if offset == 0 {
      return Ok(());
    }
    var mi := GetMultiplicativeInverse(g.multiplier, g.modulus);
    if mi.Raises? {
      return Raises(mi.reason);
    }
    if mi.value == 0 {
      SeekAhead(g, (g.modulus - 1 - offset) % TWO64);
      return Ok(());
    }
    ghost var s0 := g.state;
    g.state := SeekStateLehmer(g.state, offset, mi.value, g.modulus);
    if Invertible(g.multiplier, g.modulus) && s0 < g.modulus {
      LehmerRoundTrip(s0, offset, g.multiplier, mi.value, g.modulus);
      IterateBelow(s0, offset, mi.value, Increment, g.modulus);
    }
    return Ok(());
  }

  /** SeekSeedAhead: as written, the seek starts from the instance state; the seed argument is unused. */
  method SeekSeedAhead(g: LcgGenerator, seed: nat, offset: nat) returns (r: nat)
    requires g.Valid() && IsULong(seed) && IsULong(offset)
    ensures IsULong(r)
    ensures offset == 0 ==> r == g.state
    ensures offset > 0 ==> r == Iterate(g.state, offset, g.multiplier, Increment, FullModulus(g.modulus))
  {
    r := SeekStateLehmer(g.state, offset, g.multiplier, g.modulus);
  }

  /** SeekSeedAheadCorrected: the seek from the seed argument that the name promises. */
  method SeekSeedAheadCorrected(g: LcgGenerator, seed: nat, offset: nat) returns (r: nat)
    requires g.Valid() && IsULong(seed) && IsULong(offset)
    ensures IsULong(r)
    ensures offset == 0 ==> r == seed
    ensures offset > 0 ==> r == Iterate(seed, offset, g.multiplier, Increment, FullModulus(g.modulus))
  {
    r := SeekStateLehmer(seed, offset, g.multiplier, g.modulus);
  }

  /**
   * SeekSeedAhead as written answers for the instance state: with state 2
   * and seed 1, one step of the 16807 generator gives 33614, not 16807.
   */
  lemma SeekSeedIgnoresSeed()
    ensures Iterate(2, 1, 16807, Increment, 0x7FFF_FFFF) == 33614
    ensures Iterate(1, 1, 16807, Increment, 0x7FFF_FFFF) == 16807
  {
  }

  /**
   * SeekSeedBack: the seed itself for offset 0; otherwise, as written, the
   * backward seek starts from the instance state.
   */
  method SeekSeedBack(g: LcgGenerator, seed: nat, offset: nat) returns (r: Outcome<nat>)
    requires g.Valid() && g.increment == Increment && IsULong(seed) && IsULong(offset)
    ensures r.Raises? <==> offset > 0 && InverseRaises(g.multiplier, g.modulus)
    ensures offset == 0 ==> r == Ok(seed)
    ensures (r.Ok? && offset > 0 && Invertible(g.multiplier, g.modulus) && g.state < g.modulus) ==>
      r.value < g.modulus && Iterate(r.value, offset, g.multiplier, Increment, g.modulus) == g.state
  {
    if offset == 0 {
      return Ok(seed);
    }
    var mi := GetMultiplicativeInverse(g.multiplier, g.modulus);
    if mi.Raises? {
      return Raises(mi.reason);
    }
    if mi.value == 0 {
      var s := SeekSeedAhead(g, seed, (g.modulus - 1 - offset) % TWO64);
      return Ok(s);
    }
    var s := SeekStateLehmer(g.state, offset, mi.value, g.modulus);
    if Invertible(g.multiplier, g.modulus) && g.state < g.modulus {
      LehmerRoundTrip(g.state, offset, g.multiplier, mi.value, g.modulus);
      IterateBelow(g.state, offset, mi.value, Increment, g.modulus);
    }
    return Ok(s);
  }

  /** SeekSeedBack as intended: the backward seek starts from the seed argument. */
  method SeekSeedBackCorrected(g: LcgGenerator, seed: nat, offset: nat) returns (r: Outcome<nat>)
    requires g.Valid() && g.increment == Increment && IsULong(seed) && IsULong(offset)
    ensures r.Raises? <==> offset > 0 && InverseRaises(g.multiplier, g.modulus)
    ensures offset == 0 ==> r == Ok(seed)
    ensures (r.Ok? && offset > 0 && Invertible(g.multiplier, g.modulus) && seed < g.modulus) ==>
      r.value < g.modulus && Iterate(r.value, offset, g.multiplier, Increment, g.modulus) == seed
  {
    if offset == 0 {
      return Ok(seed);
    }
    var mi := GetMultiplicativeInverse(g.multiplier, g.modulus);
    if mi.Raises? {
      return Raises(mi.reason);
    }
    if mi.value == 0 {
      var s := SeekSeedAheadCorrected(g, seed, (g.modulus - 1 - offset) % TWO64);
      return Ok(s);
    }
    var s := SeekStateLehmer(seed, offset, mi.value, g.modulus);
    if Invertible(g.multiplier, g.modulus) && seed < g.modulus {
      LehmerRoundTrip(seed, offset, g.multiplier, mi.value, g.modulus);
      IterateBelow(seed, offset, mi.value, Increment, g.modulus);
    }
    return Ok(s);
  }
}

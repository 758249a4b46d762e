/**
 * What MyUInt256.ExpModInternal computes, as functions of the numbers
 * involved. The method squares a 256-bit base once per exponent bit from
 * bit 0 upwards, multiplying the square into the running power wherever
 * the bit is set; every product is truncated to 256 bits and, when a
 * divisor is given, reduced modulo it.
 */
module ExpModSpec {
  import opened Common

  /** MultiplyInternal(uint[], uint[]): the low 256 bits of a product. */
  function TruncMul(x: nat, y: nat): nat
  {
    (x * y) % TWO256
  }

  /** ModuloInternal after a product; no divisor, or a zero divisor, leaves the value. */
  function Reduce(v: nat, dv: Option<nat>): nat
  {
    match dv
    case None => v
    case Some(d) => if d == 0 then v else v % d
  }

  /** Bit k of e. */
  predicate BitSet(e: nat, k: nat)
  {
    (e / Pow2(k)) % 2 == 1
  }

  /** The square after k squaring steps. */
  function SquareAt(x: nat, dv: Option<nat>, k: nat): nat
  {
    if k == 0 then x
    else
      var s := SquareAt(x, dv, k - 1);
      Reduce(TruncMul(s, s), dv)
  }

  /** The power once exponent bits 0 .. k-1 have been processed. */
  function PowerAt(x: nat, e: nat, dv: Option<nat>, k: nat): nat
  {
    if k == 0 then 1
    else
      var p := PowerAt(x, e, dv, k - 1);
      if BitSet(e, k - 1) then Reduce(TruncMul(p, SquareAt(x, dv, k - 1)), dv) else p
  }

  /** Number of significant bits of e: one more than its most significant bit. */
  function Bits(e: nat): nat
  {
    if e == 0 then 0 else 1 + Bits(e / 2)
  }

  /** The result of ExpModInternal on base x, exponent e and divisor dv. */
  function ExpModOf(x: nat, e: nat, dv: Option<nat>): nat
  {
    PowerAt(x, e, dv, Bits(e))
  }

  // ---------------------------------------------------------------------
  // Arithmetic used below
  // ---------------------------------------------------------------------

  /** e has Bits(e) significant bits: its top bit is Bits(e) - 1. */
  lemma {:induction false} BitsBound(e: nat)
    ensures e < Pow2(Bits(e))
    ensures e > 0 ==> Pow2(Bits(e) - 1) <= e
    decreases e
  {
    if e > 0 {
      BitsBound(e / 2);
      PowStep(2, Bits(e / 2));
    }
  }

  /** A number below 2^n has no bits from n upwards. */
  lemma Pow2Mod(e: nat, n: nat)
    requires e < Pow2(n)
    ensures e % Pow2(n) == e
  {
    ModSmall(e, Pow2(n));
  }

  /** The low k + 1 bits of e are its low k bits plus bit k. */
  lemma LowBitsStep(e: nat, k: nat)
    ensures e % Pow2(k + 1) == e % Pow2(k) + (if BitSet(e, k) then Pow2(k) else 0)
  {
    PowStep(2, k);
    assert Pow2(k + 1) == Pow2(k) * 2;
    ModMulSplit(e, Pow2(k), 2);
  }

  /** x^(2^(k+1)) is the square of x^(2^k). */
  lemma SquarePow(x: nat, k: nat)
    ensures Pow(x, Pow2(k + 1)) == Pow(x, Pow2(k)) * Pow(x, Pow2(k))
  {
    PowStep(2, k);
    PowAdd(x, Pow2(k), Pow2(k));
  }

  /** Multiplying congruent factors gives congruent products. */
  lemma MulCongruent(p: int, s: int, pp: int, ss: int, m: int)
    requires m > 0 && p % m == pp % m && s % m == ss % m
    ensures (p * s) % m == (pp * ss) % m
  {
    ModMul(p, s, m);
    ModMul(pp, ss, m);
  }

  /** Two factors below 2^128 multiply to less than 2^256. */
  lemma MulBelow(p: nat, s: nat)
    requires p < TWO128 && s < TWO128
    ensures p * s < TWO256
  {
    MulLe(p, TWO128 - 1, s);
    MulLe(s, TWO128 - 1, TWO128 - 1);
    assert p * s <= (TWO128 - 1) * (TWO128 - 1);
  }

  // ---------------------------------------------------------------------
  // Plain exponentiation: no divisor
  // ---------------------------------------------------------------------

  /** Without a divisor the k-th square is x^(2^k) modulo 2^256. */
  lemma {:induction false} SquareSteps(x: nat, k: nat)
    requires x < TWO256
    ensures SquareAt(x, None, k) == Pow(x, Pow2(k)) % TWO256
    decreases k
  {
    if k == 0 {
      ModSmall(x, TWO256);
    } else {
      SquareSteps(x, k - 1);
      var sq := Pow(x, Pow2(k - 1));
      SquarePow(x, k - 1);
      MulCongruent(SquareAt(x, None, k - 1), SquareAt(x, None, k - 1), sq, sq, TWO256);
    }
  }

  /** Without a divisor the power after k bits is x^(e mod 2^k) modulo 2^256. */
  lemma {:induction false} ExponentiateSteps(x: nat, e: nat, k: nat)
    requires x < TWO256
    ensures PowerAt(x, e, None, k) == Pow(x, e % Pow2(k)) % TWO256
    decreases k
  {
    if k == 0 {
      ModSmall(1, TWO256);
    } else {
      ExponentiateSteps(x, e, k - 1);
      SquareSteps(x, k - 1);
      LowBitsStep(e, k - 1);
      if BitSet(e, k - 1) {
        PowAdd(x, e % Pow2(k - 1), Pow2(k - 1));
        MulCongruent(PowerAt(x, e, None, k - 1), SquareAt(x, None, k - 1),
                     Pow(x, e % Pow2(k - 1)), Pow(x, Pow2(k - 1)), TWO256);
      }
    }
  }

  /** Exponentiate(e): x^e modulo 2^256, exactly. */
  lemma ExponentiateValue(x: nat, e: nat)
    requires x < TWO256
    ensures ExpModOf(x, e, None) == Pow(x, e) % TWO256
  {
    ExponentiateSteps(x, e, Bits(e));
    BitsBound(e);
    Pow2Mod(e, Bits(e));
  }

  // ---------------------------------------------------------------------
  // Modular exponentiation: a divisor of at most 128 bits
  // ---------------------------------------------------------------------

  /**
   * With a divisor d of at most 2^128 and a base below 2^128, no product
   * reaches 2^256, so nothing is lost to truncation: the k-th square is
   * x^(2^k) and the power is x^(e mod 2^k), both modulo d, and the power is
   * reduced as soon as one bit has been multiplied in.
   */
  lemma {:induction false} ExpModSteps(x: nat, e: nat, d: nat, k: nat)
    requires 0 < d <= TWO128 && x < TWO128
    ensures SquareAt(x, Some(d), k) < TWO128
    ensures SquareAt(x, Some(d), k) % d == Pow(x, Pow2(k)) % d
    ensures PowerAt(x, e, Some(d), k) == 1 || PowerAt(x, e, Some(d), k) < d
    ensures PowerAt(x, e, Some(d), k) % d == Pow(x, e % Pow2(k)) % d
    ensures e % Pow2(k) != 0 ==> PowerAt(x, e, Some(d), k) < d
    decreases k
  {
    if k > 0 {
      ExpModSteps(x, e, d, k - 1);
      var s := SquareAt(x, Some(d), k - 1);
      var p := PowerAt(x, e, Some(d), k - 1);
      var sq := Pow(x, Pow2(k - 1));
      MulBelow(s, s);
      ModSmall(s * s, TWO256);
      SquarePow(x, k - 1);
      MulCongruent(s, s, sq, sq, d);
      ModOfMod(s * s, d);
      LowBitsStep(e, k - 1);
      if BitSet(e, k - 1) {
        MulBelow(p, s);
        ModSmall(p * s, TWO256);
        PowAdd(x, e % Pow2(k - 1), Pow2(k - 1));
        MulCongruent(p, s, Pow(x, e % Pow2(k - 1)), sq, d);
        ModOfMod(p * s, d);
      }
    }
  }

  /**
   * ExpMod(e, d): x^e modulo d when the divisor has at most 128 bits and the
   * base is below 2^128; a zero exponent gives 1 whatever d is.
   */
  lemma ExpModValue(x: nat, e: nat, d: nat)
    requires 0 < d <= TWO128 && x < TWO128
    ensures ExpModOf(x, e, Some(d)) == if e == 0 then 1 else Pow(x, e) % d
  {
    if e > 0 {
      ExpModSteps(x, e, d, Bits(e));
      BitsBound(e);
      Pow2Mod(e, Bits(e));
      ModSmall(ExpModOf(x, e, Some(d)), d);
    }
  }

  /** A zero divisor reduces nothing: ExpMod with d = 0 is Exponentiate. */
  lemma {:induction false} ZeroDivisorSteps(x: nat, e: nat, k: nat)
    ensures SquareAt(x, Some(0), k) == SquareAt(x, None, k)
    ensures PowerAt(x, e, Some(0), k) == PowerAt(x, e, None, k)
    decreases k
  {
    if k > 0 {
      ZeroDivisorSteps(x, e, k - 1);
    }
  }

  lemma ZeroDivisorValue(x: nat, e: nat)
    requires x < TWO256
    ensures ExpModOf(x, e, Some(0)) == Pow(x, e) % TWO256
  {
    ZeroDivisorSteps(x, e, Bits(e));
    ExponentiateValue(x, e);
  }
}

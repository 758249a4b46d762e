/**
 * Bitwise operators on the low n bits of natural numbers, defined bit by
 * bit from the least significant end. The generators use them where the
 * source combines words with ^, | and &; a mask of the form 2^k - 1 is
 * the residue modulo 2^k (AndLowMask), which is how the models write it.
 */
module Bits {
  import opened Common

  /** The bitwise exclusive or of the low n bits. */
  function Xor(x: nat, y: nat, n: nat): (r: nat)
    ensures r < Pow2(n)
    decreases n
  {
    if n == 0 then 0
    else
      Pow2Step(n - 1);
      (x % 2 + y % 2) % 2 + 2 * Xor(x / 2, y / 2, n - 1)
  }

  /** The bitwise or of the low n bits. */
  function Or(x: nat, y: nat, n: nat): (r: nat)
    ensures r < Pow2(n)
    decreases n
  {
    if n == 0 then 0
    else
      Pow2Step(n - 1);
      (if x % 2 == 1 || y % 2 == 1 then 1 else 0) + 2 * Or(x / 2, y / 2, n - 1)
  }

  /** The bitwise and of the low n bits. */
  function And(x: nat, y: nat, n: nat): (r: nat)
    ensures r < Pow2(n) && r <= x
    decreases n
  {
    if n == 0 then 0
    else
      Pow2Step(n - 1);
      (x % 2) * (y % 2) + 2 * And(x / 2, y / 2, n - 1)
  }

  /** The bits from k up: x >> k. */
  function Shr(x: nat, k: nat): nat
  {
    x / Pow2(k)
  }

  /** A number below 2^n splits into its lowest bit and the rest. */
  lemma LowBit(x: nat, n: nat)
    requires n > 0
    ensures x % Pow2(n) == x % 2 + 2 * ((x / 2) % Pow2(n - 1))
  {
    Pow2Step(n - 1);
    ModMulSplit(x, 2, Pow2(n - 1));
  }

  /** A digit below 2 and a rest: reading back the lowest bit and the rest. */
  lemma Digits(b: nat, rest: nat)
    requires b < 2
    ensures (b + 2 * rest) % 2 == b && (b + 2 * rest) / 2 == rest
  {
    SplitDivMod(b + 2 * rest, b, rest, 2);
  }

  /** Exclusive or with the same value twice gives back the low n bits. */
  lemma {:induction false} XorTwice(x: nat, y: nat, n: nat)
    ensures Xor(Xor(x, y, n), y, n) == x % Pow2(n)
    decreases n
  {
    if n > 0 {
      var b, r := (x % 2 + y % 2) % 2, Xor(x / 2, y / 2, n - 1);
      var z := Xor(x, y, n);
      assert z % 2 == b && z / 2 == r by {
        XorStep(x, y, n);
        Digits(b, r);
      }
      XorStepOf(z, y, n, b, r);
      assert (b + y % 2) % 2 == x % 2 by {
        ParityCancel(x % 2, y % 2);
      }
      assert Xor(r, y / 2, n - 1) == (x / 2) % Pow2(n - 1) by {
        XorTwice(x / 2, y / 2, n - 1);
      }
      LowBit(x, n);
    }
  }

  /** One step of Xor: the lowest bit, then the rest shifted down. */
  lemma XorStep(x: nat, y: nat, n: nat)
    requires n > 0
    ensures Xor(x, y, n) == (x % 2 + y % 2) % 2 + 2 * Xor(x / 2, y / 2, n - 1)
  {
  }

  /** One step of Xor on a value whose lowest bit and rest are known. */
  lemma XorStepOf(z: nat, y: nat, n: nat, b: nat, r: nat)
    requires n > 0 && z % 2 == b && z / 2 == r
    ensures Xor(z, y, n) == (b + y % 2) % 2 + 2 * Xor(r, y / 2, n - 1)
  {
    XorStep(z, y, n);
  }

  /** Adding the same bit twice modulo 2 gives the first bit back. */
  lemma ParityCancel(a: nat, c: nat)
    requires a < 2 && c < 2
    ensures ((a + c) % 2 + c) % 2 == a
  {
  }

  /** And with 0 is 0. */
  lemma {:induction false} AndZero(x: nat, n: nat)
    ensures And(x, 0, n) == 0
    decreases n
  {
    if n > 0 {
      AndZero(x / 2, n - 1);
    }
  }

  /** And with the mask 2^k - 1 keeps the residue modulo 2^k. */
  lemma {:induction false} AndLowMask(x: nat, k: nat, n: nat)
    requires k <= n
    ensures And(x, Pow2(k) - 1, n) == x % Pow2(k)
    decreases n
  {
    if k == 0 {
      AndZero(x, n);
    } else {
      Pow2Step(k - 1);
      var mask := Pow2(k) - 1;
      Digits(1, Pow2(k - 1) - 1);
      assert mask % 2 == 1 && mask / 2 == Pow2(k - 1) - 1;
      AndLowMask(x / 2, k - 1, n - 1);
      LowBit(x, k);
    }
  }

  /** The mask of the bits below the lowest set bit of a 32-bit value: (x ^ (x - 1)) >> 1. */
  function LowMask(x: nat): (mask: nat)
    requires 0 < x < TWO32
    ensures mask < TWO32
  {
    Pow2Of32();
    Xor(x, x - 1, 32) / 2
  }

  /** Exclusive or with 0 keeps the low n bits. */
  lemma {:induction false} XorWithZero(y: nat, n: nat)
    ensures Xor(0, y, n) == y % Pow2(n)
    decreases n
  {
    if n > 0 {
      XorWithZero(y / 2, n - 1);
      LowBit(y, n);
    }
  }

  /** The bits from k up of an exclusive or are the exclusive or of the bits from k up. */
  lemma {:induction false} XorHigh(x: nat, y: nat, k: nat, m: nat)
    ensures Shr(Xor(x, y, k + m), k) == Xor(Shr(x, k), Shr(y, k), m)
    decreases k
  {
    if k == 0 {
      assert Pow2(0) == 1;
    } else {
      XorHigh(x / 2, y / 2, k - 1, m);
      XorHighStep(x, y, k, m);
    }
  }

  /** The step of XorHigh: dropping the lowest bit first, then k - 1 more. */
  lemma XorHighStep(x: nat, y: nat, k: nat, m: nat)
    requires k > 0
    requires Shr(Xor(x / 2, y / 2, k - 1 + m), k - 1) == Xor(Shr(x / 2, k - 1), Shr(y / 2, k - 1), m)
    ensures Shr(Xor(x, y, k + m), k) == Xor(Shr(x, k), Shr(y, k), m)
  {
    var z, r := Xor(x, y, k + m), Xor(x / 2, y / 2, k - 1 + m);
    assert Shr(z, k) == Shr(r, k - 1) by {
      XorStep(x, y, k + m);
      Digits((x % 2 + y % 2) % 2, r);
      HalveFirst(z, k);
    }
    assert Shr(x, k) == Shr(x / 2, k - 1) by {
      HalveFirst(x, k);
    }
    assert Shr(y, k) == Shr(y / 2, k - 1) by {
      HalveFirst(y, k);
    }
  }

  /** Shifting right by k is halving, then shifting right by k - 1. */
  lemma HalveFirst(x: nat, k: nat)
    requires k > 0
    ensures x / Pow2(k) == (x / 2) / Pow2(k - 1)
  {
    Pow2Step(k - 1);
    DivDiv(x, 2, Pow2(k - 1));
  }

  /** The low k bits of an exclusive or over n >= k bits are the exclusive or over k bits. */
  lemma {:induction false} XorLow(x: nat, y: nat, n: nat, k: nat)
    requires k <= n
    ensures Xor(x, y, n) % Pow2(k) == Xor(x, y, k)
    decreases k
  {
    if k > 0 {
      Digits((x % 2 + y % 2) % 2, Xor(x / 2, y / 2, n - 1));
      LowBit(Xor(x, y, n), k);
      XorLow(x / 2, y / 2, n - 1, k - 1);
    }
  }

  /** Two values below 2^k have the same exclusive or over any n >= k bits as over k bits. */
  lemma {:induction false} XorBound(x: nat, y: nat, n: nat, k: nat)
    requires k <= n && x < Pow2(k) && y < Pow2(k)
    ensures Xor(x, y, n) == Xor(x, y, k)
    decreases k
  {
    if k == 0 {
      XorWithZero(0, n);
    } else {
      Pow2Step(k - 1);
      XorBound(x / 2, y / 2, n - 1, k - 1);
    }
  }
}

/**
 * PrngMysql: MySQL's RAND(), two 30-bit seeds stepped by
 * next = (3*seed1 + seed2) mod 0x3FFFFFFF, seed1 = next,
 * seed2 = (seed2 + next + 33) mod 0x3FFFFFFF, in uint arithmetic. The
 * modulus is a multiple of 3, so the top part of seed1 is lost on every
 * step and the generator cannot be run backwards.
 */
module Mysql {
  import opened Common
  import LcgBase

  /** 0x3FFFFFFF = 3 * 3 * 7 * 11 * 31 * 151 * 331. */
  const Modulus: nat := 0x3FFF_FFFF
  const MinimumSeed: nat := 0
  /** Only seed1 modulo Modulus / 3 matters, so the seed space is (Modulus / 3) * Modulus seeds. */
  const MaximumSeed: nat := (Modulus / 3) * Modulus - 1
  /** The generator has no Previous. */
  const CanReverse: bool := false

  /**
   * The step of MySQL's my_rnd on exact integers: the output, and the new
   * pair of seeds.
   */
  function Rnd(seed1: nat, seed2: nat): (r: (nat, nat, nat))
    ensures r.0 < Modulus && r.1 == r.0 && r.2 < Modulus
  {
    var next := (3 * seed1 + seed2) % Modulus;
    (next, next, (seed2 + next + 33) % Modulus)
  }

  /**
   * Seeds whose seed1 differ by Modulus / 3 step to the same output and the
   * same seeds: the step is not injective, and seed1 matters only modulo
   * Modulus / 3.
   */
  lemma RndForgetsTopOfSeed1(seed1: nat, seed2: nat)
    ensures Rnd(seed1 + Modulus / 3, seed2) == Rnd(seed1, seed2)
  {
    assert 3 * (seed1 + Modulus / 3) + seed2 == (3 * seed1 + seed2) + Modulus;
    ModAddMultiple(3 * seed1 + seed2, 1, Modulus);
  }

  /** Two distinct seed pairs step to the same output and seeds, so no Previous can exist. */
  lemma CannotReverse()
    ensures !CanReverse
    ensures exists a: nat, b: nat, c: nat :: a != b && Rnd(a, c) == Rnd(b, c)
  {
    RndForgetsTopOfSeed1(0, 0);
    assert Rnd(0 + Modulus / 3, 0) == Rnd(0, 0);
  }

  /** Seed splits the seed into quotient and remainder by Modulus, each truncated to 32 bits. */
  function SeedPair(seed: nat): (r: (nat, nat))
    ensures r.0 < TWO32 && r.1 < Modulus
  {
    ((seed / Modulus) % TWO32, (seed % Modulus) % TWO32)
  }

  /**
   * The seeds from 0 to MaximumSeed are exactly the encodings seed1 * Modulus
   * + seed2 of the pairs with seed1 below Modulus / 3 and seed2 below Modulus.
   */
  lemma SeedSpaceIsReducedPairs(seed: nat, seed1: nat, seed2: nat)
    ensures seed <= MaximumSeed ==> SeedPair(seed).0 < Modulus / 3
    ensures seed1 < Modulus / 3 && seed2 < Modulus ==>
      seed1 * Modulus + seed2 <= MaximumSeed && SeedPair(seed1 * Modulus + seed2) == (seed1, seed2)
  {
    if seed <= MaximumSeed {
      DivBound(seed, Modulus, Modulus / 3);
      ModSmall(seed / Modulus, TWO32);
    }
    if seed1 < Modulus / 3 && seed2 < Modulus {
      var s := seed1 * Modulus + seed2;
      MulLe(seed1 + 1, Modulus / 3, Modulus);
      DivModUnique(s, Modulus, seed1, seed2);
      ModSmall(seed1, TWO32);
      ModSmall(seed2, TWO32);
    }
  }

  /** The two uint seeds _Seed1 and _Seed2. */
  class MysqlGenerator {
    var seed1: nat
    var seed2: nat

    ghost predicate Valid()
      reads this
    {
      seed1 < TWO32 && seed2 < TWO32
    }

    /** The default constructor leaves both seeds 0. */
    constructor ()
      ensures Valid() && seed1 == 0 && seed2 == 0
    {
      seed1 := 0;
      seed2 := 0;
    }

    /** Seed32: MySQL's seed_random, in wrapping 32-bit arithmetic, reduced modulo Modulus. */
    method Seed32(seed: nat)
      requires seed < TWO32
      modifies this
      ensures Valid() && seed1 < Modulus && seed2 < Modulus
      ensures seed1 == ((seed * 0x1_0001 + 55555555) % TWO32) % Modulus
      ensures seed2 == ((seed * 0x1000_0001) % TWO32) % Modulus
    {
      seed1 := ((seed * 0x1_0001 + 55555555) % TWO32) % Modulus;
      seed2 := ((seed * 0x1000_0001) % TWO32) % Modulus;
    }

    /** Seed: the seed as the pair quotient and remainder by Modulus. */
    method Seed(seed: nat)
      requires LcgBase.IsULong(seed)
      modifies this
      ensures Valid() && (seed1, seed2) == SeedPair(seed)
      ensures seed <= MaximumSeed ==> seed1 < Modulus / 3 && seed1 * Modulus + seed2 == seed
    {
      SeedSpaceIsReducedPairs(seed, 0, 0);
      seed1 := (seed / Modulus) % TWO32;
      seed2 := (seed % Modulus) % TWO32;
      ModSmall(seed % Modulus, TWO32);
      if seed <= MaximumSeed {
        DivBound(seed, Modulus, Modulus / 3);
        ModSmall(seed / Modulus, TWO32);
      }
    }

    /**
     * Next: one step in uint arithmetic. From seeds below the modulus the
     * sum 3*seed1 + seed2 cannot wrap and the step is MySQL's my_rnd; from
     * any seeds, both seeds are below the modulus afterwards.
     */
    method Next() returns (r: nat)
      requires Valid()
      modifies this
      ensures Valid() && seed1 == r && r < Modulus && seed2 < Modulus
      ensures r == ((3 * old(seed1) + old(seed2)) % TWO32) % Modulus
      ensures seed2 == ((old(seed2) + r + 33) % TWO32) % Modulus
      ensures old(seed1) < Modulus && old(seed2) < Modulus ==> (r, seed1, seed2) == Rnd(old(seed1), old(seed2))
    {
      var next := ((seed1 * 3 + seed2) % TWO32) % Modulus;
      if seed1 < Modulus && seed2 < Modulus {
        ModSmall(seed1 * 3 + seed2, TWO32);
        ModSmall(seed2 + next + 33, TWO32);
      }
      seed1 := next;
      seed2 := ((seed2 + next + 33) % TWO32) % Modulus;
      r := next;
    }

    /**
     * Next(limit): Next scaled into [0, limit) by the 64-bit product
     * next * limit divided by the modulus; for limits up to 2^34 the
     * product cannot wrap and the result is the floor of next * limit /
     * Modulus, below the limit.
     */
    method NextLimit(limit: nat) returns (r: nat)
      requires Valid() && LcgBase.IsULong(limit)
      modifies this
      ensures Valid() && seed1 < Modulus && seed2 < Modulus
      ensures r == ((seed1 * limit) % TWO64) / Modulus
      ensures 0 < limit <= 0x4_0000_0000 ==> r < limit && r * Modulus <= seed1 * limit < (r + 1) * Modulus
    {
      var next := Next();
      r := ((next * limit) % TWO64) / Modulus;
      if 0 < limit <= 0x4_0000_0000 {
        ScaledBelowLimit(next, limit);
      }
    }
  }

  /** A value below the modulus scaled by a limit up to 2^34 stays below the limit, and the product does not wrap. */
  lemma ScaledBelowLimit(next: nat, limit: nat)
    requires next < Modulus && 0 < limit <= 0x4_0000_0000
    ensures var r := ((next * limit) % TWO64) / Modulus;
      r < limit && r * Modulus <= next * limit < (r + 1) * Modulus
  {
    MulLe(next, Modulus, limit);
    MulLe(limit, 0x4_0000_0000, Modulus);
    ModSmall(next * limit, TWO64);
    var r := (next * limit) / Modulus;
    if r >= limit {
      MulLe(limit, r, Modulus);
    }
  }
}

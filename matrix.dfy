/**
 * Square integer matrices, as used by the lagged-Fibonacci generators
 * (glibc's random_r and .NET's System.Random) to jump over whole blocks of
 * 31 or 55 steps at once: products, powers and matrix-vector products,
 * with the laws the square-and-multiply jump relies on, all up to
 * reduction modulo m.
 */
module Matrices {
  import opened Common

  type Mat = seq<seq<int>>

  /** Entry (i, j); zero outside the stored rows and columns. */
  function At(A: Mat, i: int, j: int): int {
    if 0 <= i < |A| && 0 <= j < |A[i]| then A[i][j] else 0
  }

  /** The first k terms of the dot product of row i of A with column j of B. */
  function Dot(A: Mat, B: Mat, i: int, j: int, k: nat): int {
    if k == 0 then 0 else Dot(A, B, i, j, k - 1) + At(A, i, k - 1) * At(B, k - 1, j)
  }

  /** The n-by-n product A B over the integers. */
  function Product(A: Mat, B: Mat, n: nat): Mat {
    seq(n, i => seq(n, j => Dot(A, B, i, j, n)))
  }

  function Identity(n: nat): Mat {
    seq(n, i => seq(n, j => if i == j then 1 else 0))
  }

  /** A to the power e, as the product of e copies of A. */
  function Power(A: Mat, e: nat, n: nat): Mat {
    if e == 0 then Identity(n) else Product(Power(A, e - 1, n), A, n)
  }

  /** A vector as a one-column matrix. */
  function Column(v: seq<int>): Mat {
    seq(|v|, t requires 0 <= t < |v| => [v[t]])
  }

  /** The matrix-vector product A v, each entry reduced modulo m. */
  function ApplyMod(A: Mat, v: seq<int>, m: nat): seq<nat>
    requires m > 0
  {
    seq(|v|, i => Dot(A, Column(v), i, 0, |v|) % m)
  }

  /** X and Y agree modulo m in every entry of their n-by-n corner. */
  ghost predicate SameResidues(X: Mat, Y: Mat, n: nat, m: nat)
    requires m > 0
  {
    forall i, j :: 0 <= i < n && 0 <= j < n ==> At(X, i, j) % m == At(Y, i, j) % m
  }

  /** The entries of a two-dimensional array. */
  ghost function Entries(a: array2<nat>): Mat
    reads a
  {
    seq(a.Length0, i requires 0 <= i < a.Length0 reads a =>
      seq(a.Length1, j requires 0 <= j < a.Length1 reads a => a[i, j] as int))
  }

  /** An n-by-n array whose entries are all below bound. */
  ghost predicate IsMatrix(a: array2<nat>, n: nat, bound: nat)
    reads a
  {
    a.Length0 == n && a.Length1 == n &&
    forall i, j :: 0 <= i < n && 0 <= j < n ==> a[i, j] < bound
  }

  lemma EntriesAt(a: array2<nat>)
    ensures forall i, j :: 0 <= i < a.Length0 && 0 <= j < a.Length1 ==> At(Entries(a), i, j) == a[i, j]
  {
  }

  /** An array holding X entry by entry has X as its entries. */
  lemma EntriesEqual(a: array2<nat>, X: Mat, n: nat)
    requires a.Length0 == n && a.Length1 == n && |X| == n
    requires forall i :: 0 <= i < n ==> |X[i]| == n
    requires forall i, j :: 0 <= i < n && 0 <= j < n ==> a[i, j] == X[i][j]
    ensures Entries(a) == X
  {
    forall i | 0 <= i < n
      ensures Entries(a)[i] == X[i]
    {
      assert forall j :: 0 <= j < n ==> Entries(a)[i][j] == X[i][j];
    }
  }

  /** An array holding the product X Y reduced modulo m is congruent to it. */
  lemma ProductEntries(a: array2<nat>, X: Mat, Y: Mat, n: nat, m: nat)
    requires m > 0 && a.Length0 == n && a.Length1 == n
    requires forall i, j :: 0 <= i < n && 0 <= j < n ==> a[i, j] == Dot(X, Y, i, j, n) % m
    ensures SameResidues(Entries(a), Product(X, Y, n), n, m)
  {
    forall i, j | 0 <= i < n && 0 <= j < n
      ensures At(Entries(a), i, j) % m == At(Product(X, Y, n), i, j) % m
    {
      ModOfMod(Dot(X, Y, i, j, n), m);
    }
  }

  // ---------------------------------------------------------------------
  // Reduction modulo m
  // ---------------------------------------------------------------------

  /** The n-by-n corner of X with every entry reduced modulo m. */
  function Reduce(X: Mat, n: nat, m: nat): Mat
    requires m > 0
  {
    seq(n, i => seq(n, j => At(X, i, j) % m))
  }

  /** An array congruent to X modulo m, with entries below m, holds X reduced modulo m. */
  lemma HoldsReduced(a: array2<nat>, X: Mat, n: nat, m: nat)
    requires m > 0 && IsMatrix(a, n, m) && SameResidues(Entries(a), X, n, m)
    ensures Entries(a) == Reduce(X, n, m)
  {
    forall i, j | 0 <= i < n && 0 <= j < n
      ensures a[i, j] == Reduce(X, n, m)[i][j]
    {
      EntriesAt(a);
      ModSmall(a[i, j], m);
    }
    EntriesEqual(a, Reduce(X, n, m), n);
  }

  /** An array holding X reduced modulo m is congruent to X, with entries below m. */
  lemma ReducedHolds(a: array2<nat>, X: Mat, n: nat, m: nat)
    requires m > 0 && a.Length0 == n && a.Length1 == n && Entries(a) == Reduce(X, n, m)
    ensures IsMatrix(a, n, m) && SameResidues(Entries(a), X, n, m)
  {
    forall i, j | 0 <= i < n && 0 <= j < n
      ensures a[i, j] < m && At(Entries(a), i, j) % m == At(X, i, j) % m
    {
      EntriesAt(a);
      ModOfMod(At(X, i, j), m);
    }
  }

  /** A dot product modulo m depends only on the residues of its terms. */
  lemma {:induction false} DotResidues(A: Mat, A': Mat, B: Mat, B': Mat, i: int, j: int, k: nat, m: nat)
    requires m > 0
    requires forall t :: 0 <= t < k ==> At(A, i, t) % m == At(A', i, t) % m
    requires forall t :: 0 <= t < k ==> At(B, t, j) % m == At(B', t, j) % m
    ensures Dot(A, B, i, j, k) % m == Dot(A', B', i, j, k) % m
  {
    if k > 0 {
      DotResidues(A, A', B, B', i, j, k - 1, m);
      var x, y := Dot(A, B, i, j, k - 1), At(A, i, k - 1) * At(B, k - 1, j);
      var x', y' := Dot(A', B', i, j, k - 1), At(A', i, k - 1) * At(B', k - 1, j);
      ModMul(At(A, i, k - 1), At(B, k - 1, j), m);
      ModMul(At(A', i, k - 1), At(B', k - 1, j), m);
      ModAdd(x, y, m);
      ModAdd(x', y', m);
    }
  }

  /** The product of matrices congruent modulo m is congruent modulo m. */
  lemma ProductResidues(A: Mat, A': Mat, B: Mat, B': Mat, n: nat, m: nat)
    requires m > 0 && SameResidues(A, A', n, m) && SameResidues(B, B', n, m)
    ensures SameResidues(Product(A, B, n), Product(A', B', n), n, m)
  {
    forall i, j | 0 <= i < n && 0 <= j < n
      ensures At(Product(A, B, n), i, j) % m == At(Product(A', B', n), i, j) % m
    {
      DotResidues(A, A', B, B', i, j, n, m);
    }
  }

  lemma SameResiduesTransitive(X: Mat, Y: Mat, Z: Mat, n: nat, m: nat)
    requires m > 0 && SameResidues(X, Y, n, m) && SameResidues(Y, Z, n, m)
    ensures SameResidues(X, Z, n, m)
  {
  }

  // ---------------------------------------------------------------------
  // Identity and associativity
  // ---------------------------------------------------------------------

  lemma {:induction false} DotIdentityRight(X: Mat, i: int, j: nat, k: nat, n: nat)
    requires j < n && k <= n
    ensures Dot(X, Identity(n), i, j, k) == if j < k then At(X, i, j) else 0
  {
    if k > 0 {
      DotIdentityRight(X, i, j, k - 1, n);
    }
  }

  lemma {:induction false} DotIdentityLeft(X: Mat, i: nat, j: int, k: nat, n: nat)
    requires i < n && k <= n
    ensures Dot(Identity(n), X, i, j, k) == if i < k then At(X, i, j) else 0
  {
    if k > 0 {
      DotIdentityLeft(X, i, j, k - 1, n);
    }
  }

  /** The identity is neutral on both sides. */
  lemma ProductIdentity(X: Mat, n: nat)
    ensures forall i, j :: 0 <= i < n && 0 <= j < n ==> At(Product(X, Identity(n), n), i, j) == At(X, i, j)
    ensures forall i, j :: 0 <= i < n && 0 <= j < n ==> At(Product(Identity(n), X, n), i, j) == At(X, i, j)
  {
    forall i, j | 0 <= i < n && 0 <= j < n
      ensures At(Product(X, Identity(n), n), i, j) == At(X, i, j)
      ensures At(Product(Identity(n), X, n), i, j) == At(X, i, j)
    {
      DotIdentityRight(X, i, j, n, n);
      DotIdentityLeft(X, i, j, n, n);
    }
  }

  /** The sum over k < q of (row i of A times column k of B, first p terms) times C[k][j]. */
  ghost function Triple(A: Mat, B: Mat, C: Mat, i: int, j: int, p: nat, q: nat): int {
    if q == 0 then 0 else Triple(A, B, C, i, j, p, q - 1) + Dot(A, B, i, q - 1, p) * At(C, q - 1, j)
  }

  /** Adding one more term to the inner sums adds A[i][p] times a dot product of B and C. */
  lemma {:induction false} TripleStep(A: Mat, B: Mat, C: Mat, i: int, j: int, p: nat, q: nat)
    ensures Triple(A, B, C, i, j, p + 1, q) == Triple(A, B, C, i, j, p, q) + At(A, i, p) * Dot(B, C, p, j, q)
  {
    if q > 0 {
      TripleStep(A, B, C, i, j, p, q - 1);
      var a, b, c := At(A, i, p), At(B, p, q - 1), At(C, q - 1, j);
      var d := Dot(A, B, i, q - 1, p);
      assert Dot(A, B, i, q - 1, p + 1) == d + a * b;
      assert (d + a * b) * c == d * c + a * (b * c);
      assert Dot(B, C, p, j, q) == Dot(B, C, p, j, q - 1) + b * c;
      assert a * Dot(B, C, p, j, q) == a * Dot(B, C, p, j, q - 1) + a * (b * c);
    }
  }

  lemma {:induction false} TripleZero(A: Mat, B: Mat, C: Mat, i: int, j: int, q: nat)
    ensures Triple(A, B, C, i, j, 0, q) == 0
  {
    if q > 0 {
      TripleZero(A, B, C, i, j, q - 1);
    }
  }

  /** With q = n, Triple sums A against the product B C. */
  lemma {:induction false} TripleRight(A: Mat, B: Mat, C: Mat, i: int, j: nat, p: nat, n: nat)
    requires p <= n && j < n
    ensures Triple(A, B, C, i, j, p, n) == Dot(A, Product(B, C, n), i, j, p)
  {
    if p > 0 {
      TripleRight(A, B, C, i, j, p - 1, n);
      TripleStep(A, B, C, i, j, p - 1, n);
      var BC := Product(B, C, n);
      assert At(BC, p - 1, j) == Dot(B, C, p - 1, j, n);
    } else {
      TripleZero(A, B, C, i, j, n);
    }
  }

  /** With p = n, Triple sums the product A B against C. */
  lemma {:induction false} TripleLeft(A: Mat, B: Mat, C: Mat, i: nat, j: int, q: nat, n: nat)
    requires q <= n && i < n
    ensures Triple(A, B, C, i, j, n, q) == Dot(Product(A, B, n), C, i, j, q)
  {
    if q > 0 {
      TripleLeft(A, B, C, i, j, q - 1, n);
      assert At(Product(A, B, n), i, q - 1) == Dot(A, B, i, q - 1, n);
    }
  }

  /** (A B) C = A (B C). */
  lemma ProductAssociative(A: Mat, B: Mat, C: Mat, n: nat)
    ensures forall i, j :: 0 <= i < n && 0 <= j < n ==>
      At(Product(Product(A, B, n), C, n), i, j) == At(Product(A, Product(B, C, n), n), i, j)
  {
    forall i, j | 0 <= i < n && 0 <= j < n
      ensures At(Product(Product(A, B, n), C, n), i, j) == At(Product(A, Product(B, C, n), n), i, j)
    {
      TripleLeft(A, B, C, i, j, n, n);
      TripleRight(A, B, C, i, j, n, n);
    }
  }

  // ---------------------------------------------------------------------
  // Powers
  // ---------------------------------------------------------------------

  /** A^a A^b = A^(a+b), entry by entry. */
  lemma {:induction false} PowerAdd(A: Mat, a: nat, b: nat, n: nat)
    ensures forall i, j :: 0 <= i < n && 0 <= j < n ==>
      At(Product(Power(A, a, n), Power(A, b, n), n), i, j) == At(Power(A, a + b, n), i, j)
  {
    var Pa := Power(A, a, n);
    if b == 0 {
      ProductIdentity(Pa, n);
    } else {
      PowerAdd(A, a, b - 1, n);
      var Pb' := Power(A, b - 1, n);
      ProductAssociative(Pa, Pb', A, n);
      assert Power(A, b, n) == Product(Pb', A, n);
      assert Power(A, a + b, n) == Product(Power(A, a + b - 1, n), A, n);
      // (A^a A^(b-1)) A and A^(a+b-1) A agree, since their left factors agree entry by entry.
      forall i, j | 0 <= i < n && 0 <= j < n
        ensures At(Product(Pa, Power(A, b, n), n), i, j) == At(Power(A, a + b, n), i, j)
      {
        DotEqual(Product(Pa, Pb', n), Power(A, a + b - 1, n), A, i, j, n, n);
        assert At(Product(Product(Pa, Pb', n), A, n), i, j) == Dot(Product(Pa, Pb', n), A, i, j, n);
        assert At(Power(A, a + b, n), i, j) == Dot(Power(A, a + b - 1, n), A, i, j, n);
      }
    }
  }

  /** A dot product depends only on the entries it reads. */
  lemma {:induction false} DotEqual(X: Mat, Y: Mat, B: Mat, i: int, j: int, k: nat, n: nat)
    requires k <= n && 0 <= i < n
    requires forall i', j' :: 0 <= i' < n && 0 <= j' < n ==> At(X, i', j') == At(Y, i', j')
    ensures Dot(X, B, i, j, k) == Dot(Y, B, i, j, k)
  {
    if k > 0 {
      DotEqual(X, Y, B, i, j, k - 1, n);
    }
  }

  /** A^1 = A, entry by entry. */
  lemma PowerOne(A: Mat, n: nat)
    ensures forall i, j :: 0 <= i < n && 0 <= j < n ==> At(Power(A, 1, n), i, j) == At(A, i, j)
  {
    ProductIdentity(A, n);
  }

  /**
   * One step of square-and-multiply: if X holds A^a and Y holds A^b modulo
   * m, any Z holding X Y modulo m holds A^(a+b).
   */
  lemma PowerStep(A: Mat, X: Mat, Y: Mat, Z: Mat, a: nat, b: nat, n: nat, m: nat)
    requires m > 0
    requires SameResidues(X, Power(A, a, n), n, m) && SameResidues(Y, Power(A, b, n), n, m)
    requires SameResidues(Z, Product(X, Y, n), n, m)
    ensures SameResidues(Z, Power(A, a + b, n), n, m)
  {
    ProductResidues(X, Power(A, a, n), Y, Power(A, b, n), n, m);
    PowerAdd(A, a, b, n);
  }

  /** Matrices congruent modulo m send a vector to the same residues. */
  lemma ApplyResidues(X: Mat, Y: Mat, v: seq<int>, m: nat)
    requires m > 0 && SameResidues(X, Y, |v|, m)
    ensures forall i :: 0 <= i < |v| ==> Dot(X, Column(v), i, 0, |v|) % m == Dot(Y, Column(v), i, 0, |v|) % m
  {
    forall i | 0 <= i < |v|
      ensures Dot(X, Column(v), i, 0, |v|) % m == Dot(Y, Column(v), i, 0, |v|) % m
    {
      DotResidues(X, Y, Column(v), Column(v), i, 0, |v|, m);
    }
  }

  /** Applying a product is applying its right factor, then its left one, modulo m. */
  lemma ApplyProduct(A: Mat, B: Mat, v: seq<int>, m: nat)
    requires m > 0 && |v| > 0
    ensures ApplyMod(Product(A, B, |v|), v, m) == ApplyMod(A, ApplyMod(B, v, m), m)
  {
    var n, C := |v|, Column(v);
    var w := ApplyMod(B, v, m);
    ProductAssociative(A, B, C, n);
    forall i | 0 <= i < n
      ensures ApplyMod(Product(A, B, n), v, m)[i] == ApplyMod(A, w, m)[i]
    {
      assert Dot(Product(A, B, n), C, i, 0, n) == At(Product(Product(A, B, n), C, n), i, 0);
      assert Dot(A, Product(B, C, n), i, 0, n) == At(Product(A, Product(B, C, n), n), i, 0);
      forall t | 0 <= t < n
        ensures At(Product(B, C, n), t, 0) % m == At(Column(w), t, 0) % m
      {
        ModOfMod(Dot(B, C, t, 0, n), m);
      }
      DotResidues(A, A, Product(B, C, n), Column(w), i, 0, n, m);
    }
  }

  /** Four distinct n-by-n buffers, as the square-and-multiply loops of the seek routines use. */
  ghost predicate Buffers(base: array2<nat>, spare: array2<nat>, seek: array2<nat>, seekSpare: array2<nat>, n: nat) {
    base != spare && seek != seekSpare && base != seek && base != seekSpare && spare != seek && spare != seekSpare &&
    base.Length0 == n && base.Length1 == n &&
    seek.Length0 == n && seek.Length1 == n &&
    spare.Length0 == n && spare.Length1 == n &&
    seekSpare.Length0 == n && seekSpare.Length1 == n
  }

  /** Halving the remaining exponent doubles the stride of the bits still to use. */
  lemma Halve(done: int, stride: int, e: nat)
    ensures done + stride * e == (done + (e % 2) * stride) + (stride + stride) * (e / 2)
  {
    assert e == 2 * (e / 2) + e % 2;
  }

  /** Reducing every entry modulo m keeps its residue and brings it into [0, m). */
  lemma ReduceResidues(X: Mat, n: nat, m: nat)
    requires m > 0
    ensures SameResidues(Reduce(X, n, m), X, n, m)
    ensures forall i, j :: 0 <= i < n && 0 <= j < n ==> 0 <= At(Reduce(X, n, m), i, j) < m
  {
    forall i, j | 0 <= i < n && 0 <= j < n
      ensures At(Reduce(X, n, m), i, j) % m == At(X, i, j) % m
    {
      ModOfMod(At(X, i, j), m);
    }
  }
}

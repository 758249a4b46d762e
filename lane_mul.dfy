/**
 * Multiplication in MyUInt256.cs: the 256-bit value is split into eight
 * 32-bit half-lanes, multiplied school-book style keeping only the low
 * eight half-lanes of the product, and stored back into four 64-bit lanes.
 */
module LaneMul {
  import opened Common
  import opened Lanes

  /** Half-lanes h[2i] + B * h[2i+1] make up the full lane s[i]. */
  predicate PairsMatch(h: seq<int>, s: seq<int>, b: nat)
    requires |h| == 2 * |s|
  {
    forall i :: 0 <= i < |s| ==> s[i] == h[2 * i] + b * h[2 * i + 1]
  }

  /** Splitting every lane into two half-lanes keeps the number. */
  lemma {:induction false} HalvesValue(h: seq<int>, s: seq<int>, b: nat)
    requires |h| == 2 * |s| && PairsMatch(h, s, b)
    ensures LV(h, b) == LV(s, b * b)
    decreases |s|
  {
    if |s| > 0 {
      var h2 := h[2..];
      var s1 := s[1..];
      assert PairsMatch(h2, s1, b) by {
        forall i | 0 <= i < |s1|
          ensures s1[i] == h2[2 * i] + b * h2[2 * i + 1]
        {
          assert s1[i] == s[i + 1];
          assert h2[2 * i] == h[2 * (i + 1)] && h2[2 * i + 1] == h[2 * (i + 1) + 1];
        }
      }
      HalvesValue(h2, s1, b);
      assert h[1..][1..] == h2;
      assert s[0] == h[0] + b * h[1];
      calc {
        LV(h, b);
        h[0] + b * (h[1] + b * LV(h2, b));
        { Distrib(h[0], b, h[1], b, LV(h2, b)); }
        (h[0] + b * h[1]) + (b * b) * LV(s1, b * b);
        LV(s, b * b);
      }
    }
  }

  /** The two half-lanes of a 64-bit lane are its low and high 32 bits. */
  lemma HalfPair(qw: int)
    requires 0 <= qw < TWO64
    ensures 0 <= qw % TWO32 < TWO32 && 0 <= qw / TWO32 < TWO32
    ensures qw == qw % TWO32 + TWO32 * (qw / TWO32)
  {
  }

  /**
   * GetHalfSizeArrayInternal: lane i becomes half-lanes 2i (low word) and
   * 2i + 1 (high word).
   */
  method HalfSize(value: array<int>) returns (half: array<int>)
    requires value.Length == 4 && LanesOk(value[..], Pow2(64))
    ensures fresh(half) && half.Length == 8
    ensures LanesOk(half[..], TWO32) && LV(half[..], TWO32) == LV(value[..], Pow2(64))
  {
    Pow2Of64();
    half := new int[8];
    var j := 0;
    var i := 0;
    while i < 4
      invariant 0 <= i <= 4 && j == 2 * i
      invariant forall k :: 0 <= k < i ==> value[k] == half[2 * k] + TWO32 * half[2 * k + 1]
      invariant forall k :: 0 <= k < 2 * i ==> 0 <= half[k] < TWO32
    {
      var qw := value[i];
      HalfPair(qw);
      half[j] := qw % TWO32;
      j := j + 1;
      half[j] := qw / TWO32;
      j := j + 1;
      i := i + 1;
    }
    assert PairsMatch(half[..], value[..], TWO32);
    HalvesValue(half[..], value[..], TWO32);
  }

  /** An accumulator step x*y + p + c of 32-bit parts fits in 64 bits. */
  lemma MulAccBound(x: int, y: int, p: int, c: int, b: int)
    requires 0 <= x < b && 0 <= y < b && 0 <= p < b && 0 <= c < b
    ensures 0 <= x * y + p + c < b * b
  {
    MulLe(x, b - 1, y);
    MulLe(y, b - 1, b - 1);
  }

  /**
   * Bookkeeping of one inner step of MultiplyInternal: half-lane j + i
   * (weight p = pj * pi) takes the low word nl of x*y + pv + c and the
   * carry c2 moves to weight b * p.
   */
  lemma RowStep(v: int, v1: int, x0: int, la: int, la1: int, pj: int, pi: int, p: int, b: int,
                c: int, x: int, y: int, pv: int, nl: int, c2: int)
    requires v + c * p == x0 + y * pj * la && p == pj * pi
    requires v1 == v + (nl - pv) * p && la1 == la + x * pi
    requires nl + c2 * b == x * y + pv + c
    ensures v1 + c2 * (b * p) == x0 + y * pj * la1
  {
    assert (nl + c2 * b) * p == (x * y + pv + c) * p;
    assert y * pj * la1 == y * pj * la + (x * y) * p;
  }

  /**
   * Row j of MultiplyInternal: the product gains y * 2^(32j) times the low
   * 8 - j half-lanes of a; the carry out of the top half-lane is dropped.
   */
  method MultiplyRow(product: array<int>, a: array<int>, y: int, j: int)
    requires product != a && product.Length == 8 && a.Length == 8 && 0 <= j < 8
    requires LanesOk(product[..], TWO32) && LanesOk(a[..], TWO32) && 0 <= y < TWO32
    modifies product
    ensures LanesOk(product[..], TWO32)
    ensures LV(product[..], TWO32)
         == (old(LV(product[..], TWO32)) + y * Pow(TWO32, j) * LV(a[..8 - j], TWO32)) % PowPos(TWO32, 8)
  {
    ghost var x0 := LV(product[..], TWO32);
    ghost var pj := Pow(TWO32, j);
    var qw := 0;
    var i := 0;
    while i < 8 - j
      invariant 0 <= i <= 8 - j && 0 <= qw < TWO32
      invariant LanesOk(product[..], TWO32)
      invariant LV(product[..], TWO32) + qw * Pow(TWO32, j + i) == x0 + y * pj * LV(a[..i], TWO32)
    {
      ghost var before := product[..];
      ghost var c := qw;
      ghost var pv := product[j + i];
      MulAccBound(a[i], y, product[j + i], qw, TWO32);
      qw := qw + a[i] * y;
      qw := qw + product[j + i];
      // the 64-bit accumulator cannot wrap: qw < 2^32 * 2^32
      product[j + i] := qw % TWO32;
      qw := qw / TWO32;
      assert product[..] == before[j + i := product[j + i]];
      LVUpdate(before, j + i, product[j + i], TWO32);
      LVPrefixStep(a[..], i, TWO32);
      PowAdd(TWO32, j, i);
      RowStep(LV(before, TWO32), LV(product[..], TWO32), x0, LV(a[..i], TWO32), LV(a[..i + 1], TWO32),
              pj, Pow(TWO32, i), Pow(TWO32, j + i), TWO32, c, a[i], y, pv, product[j + i], qw);
      PowStep(TWO32, j + i);
      i := i + 1;
    }
    RowDone(product[..], x0 + y * pj * LV(a[..8 - j], TWO32), qw);
  }

  /** After the row, the product is the exact sum less the dropped carry. */
  lemma RowDone(p: seq<int>, total: int, carry: int)
    requires |p| == 8 && LanesOk(p, TWO32) && carry >= 0
    requires LV(p, TWO32) + carry * Pow(TWO32, 8) == total
    ensures LV(p, TWO32) == total % PowPos(TWO32, 8)
  {
    LVBound(p, TWO32);
    SplitDivMod(total, LV(p, TWO32), carry, PowPos(TWO32, 8));
  }

  /** Reducing one summand first does not change a sum's residue. */
  lemma ModAbsorb(x: int, y: int, m: int)
    requires m > 0
    ensures (x % m + y) % m == (x + y) % m
  {
    ModAddMultiple(x % m + y, x / m, m);
    assert x % m + y + (x / m) * m == x + y;
  }

  /**
   * The arithmetic of one row: with a = am + pk * rest and m = pj * pk,
   * adding y * pj * am to a * lb mod m gives a * (lb + y * pj) mod m.
   */
  lemma RowArith(x0: int, x1: int, a: int, am: int, rest: int, lb: int, lb1: int, y: int,
                 pj: int, pk: int, m: int)
    requires m > 0 && m == pj * pk && a == am + pk * rest && lb1 == lb + y * pj
    requires x0 == (a * lb) % m && x1 == (x0 + y * pj * am) % m
    ensures x1 == (a * lb1) % m
  {
    ModAbsorb(a * lb, y * pj * am, m);
    assert a * lb1 == (a * lb + y * pj * am) + (y * rest) * m;
    ModAddMultiple(a * lb + y * pj * am, y * rest, m);
  }

  /** Row j adds y * 2^(32j) * a to the product, modulo 2^256. */
  lemma RowValue(x0: int, x1: int, a: seq<int>, lb: int, lb1: int, y: int, j: nat)
    requires |a| == 8 && j < 8
    requires x0 == (LV(a, TWO32) * lb) % PowPos(TWO32, 8)
    requires x1 == (x0 + y * Pow(TWO32, j) * LV(a[..8 - j], TWO32)) % PowPos(TWO32, 8)
    requires lb1 == lb + y * Pow(TWO32, j)
    ensures x1 == (LV(a, TWO32) * lb1) % PowPos(TWO32, 8)
  {
    LVSplit(a, 8 - j, TWO32);
    PowSplit(TWO32, j, 8);
    RowArith(x0, x1, LV(a, TWO32), LV(a[..8 - j], TWO32), LV(a[8 - j..], TWO32), lb, lb1, y,
             Pow(TWO32, j), Pow(TWO32, 8 - j), PowPos(TWO32, 8));
  }

  /**
   * MultiplyInternal(uint[], uint[]): the product of two 256-bit numbers in
   * half-lanes, keeping its low 256 bits.
   */
  method MultiplyHalves(a: array<int>, b: array<int>) returns (product: array<int>)
    requires a.Length == 8 && b.Length == 8
    requires LanesOk(a[..], TWO32) && LanesOk(b[..], TWO32)
    ensures fresh(product) && product.Length == 8 && LanesOk(product[..], TWO32)
    ensures LV(product[..], TWO32) == (LV(a[..], TWO32) * LV(b[..], TWO32)) % TWO256
  {
    product := new int[8](_ => 0);
    LVZero(product[..], TWO32);
    LVZero(b[..0], TWO32);
    ModSmall(0, PowPos(TWO32, 8));
    var j := 0;
    while j < 8
      invariant 0 <= j <= 8 && LanesOk(product[..], TWO32)
      invariant LV(product[..], TWO32) == (LV(a[..], TWO32) * LV(b[..j], TWO32)) % PowPos(TWO32, 8)
    {
      ghost var before := LV(product[..], TWO32);
      MultiplyRow(product, a, b[j], j);
      LVPrefixStep(b[..], j, TWO32);
      RowValue(before, LV(product[..], TWO32), a[..], LV(b[..j], TWO32), LV(b[..j + 1], TWO32), b[j], j);
      j := j + 1;
    }
    assert b[..j] == b[..];
    HalfWidth();
  }

  /** Eight half-lanes make 256 bits. */
  lemma HalfWidth()
    ensures Pow(TWO32, 8) == TWO256
  {
    ShapeWidth(32, 8);
    Pow2Of32();
  }
}

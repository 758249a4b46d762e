/**
 * Shift-and-subtract division on lane arrays: ModuloInternal and the
 * quotient loop of DivideInternal in MyUInt256.cs.
 */
module LaneDivision {
  import opened Common
  import opened Lanes
  import opened LaneOps

  /**
   * Before the loop: the divisor, moved up to the dividend's top bit, is
   * more than half the dividend and still fits in the lanes.
   */
  lemma AlignDivisor(x0: int, d0: int, dm: int, m: int, shift: nat, top: nat)
    requires IsMsb(x0, dm) && IsMsb(d0, m) && 0 < d0 < Pow2(top) && 0 <= x0 < Pow2(top)
    requires shift == (if dm > m then dm - m else 0)
    ensures x0 < 2 * (d0 * Pow2(shift)) && d0 * Pow2(shift) < Pow2(top)
  {
    if dm > m {
      assert dm < top by {
        Pow2Order(top, dm);
      }
      AlignShifted(x0, d0, dm, m, shift, top);
    } else {
      assert d0 * Pow2(shift) == d0;
      if x0 > 0 {
        assert Pow2(dm + 1) <= Pow2(m + 1) by {
          Pow2Order(dm + 1, m + 1);
        }
        Pow2Step(m);
      }
    }
  }

  lemma AlignShifted(x0: int, d0: int, dm: nat, m: nat, shift: nat, top: nat)
    requires Pow2(dm) <= x0 < Pow2(dm + 1) && Pow2(m) <= d0 < Pow2(m + 1)
    requires dm == m + shift && dm < top
    ensures x0 < 2 * (d0 * Pow2(shift)) && d0 * Pow2(shift) < Pow2(top)
  {
    Pow2Add(m, shift);
    Pow2Step(m);
    Pow2Step(dm);
    Pow2Order(dm + 1, top);
    ScaledBounds(x0, d0, Pow2(m), Pow2(shift), Pow2(top));
  }

  /** a <= d0 < 2a and x0 < 2ap bound d0 scaled by p from both sides. */
  lemma ScaledBounds(x0: int, d0: int, a: int, p: int, t: int)
    requires a > 0 && p > 0 && a <= d0 < 2 * a && x0 < 2 * (a * p) && 2 * (a * p) <= t
    ensures x0 < 2 * (d0 * p) && d0 * p < t
  {
    MulLe(a, d0, p);
    MulLe(d0 + 1, 2 * a, p);
  }

  /** A reduction step removes one shifted copy of the divisor, or none. */
  lemma ReduceInvariant(x: int, x1: int, subtracted: bool, q: int, d0: int, p: int, x0: int)
    requires x + q * d0 == x0 && (d0 == 0 ==> x == x0) && p > 0
    requires d0 > 0 ==> x < 2 * (d0 * p)
    requires subtracted == (x >= d0 * p) && x1 == if subtracted then x - d0 * p else x
    ensures x1 + (if subtracted then q + p else q) * d0 == x0
    ensures d0 > 0 ==> x1 < d0 * p
    ensures d0 == 0 ==> x1 == x0
  {
    if subtracted {
      assert (q + p) * d0 == q * d0 + d0 * p;
    }
  }

  /** After the last step the dividend is the remainder and the divisor is back. */
  lemma ModuloDone(x: seq<int>, d: seq<int>, d0: seq<int>, bb: nat, x0: int, q: int)
    requires bb > 0 && LanesOk(x, bb) && LanesOk(d, bb) && LanesOk(d0, bb) && |d| == |d0|
    requires LV(d, bb) == LV(d0, bb) * Pow2(0)
    requires LV(x, bb) + q * LV(d0, bb) == x0
    requires LV(d0, bb) > 0 ==> LV(x, bb) < LV(d0, bb) * Pow2(0)
    requires LV(d0, bb) == 0 ==> LV(x, bb) == x0
    ensures d == d0
    ensures LV(x, bb) == if LV(d0, bb) == 0 then x0 else x0 % LV(d0, bb)
  {
    assert Pow2(0) == 1;
    LVBound(x, bb);
    LVBound(d0, bb);
    ModuloFinish(x0, LV(d0, bb), q, LV(x, bb));
    LVInjective(d, d0, bb);
  }

  /** After the last step the dividend is the remainder. */
  lemma ModuloFinish(x0: int, d0: int, q: int, x: int)
    requires d0 >= 0 && x + q * d0 == x0 && 0 <= x && (d0 > 0 ==> x < d0) && (d0 == 0 ==> x == x0)
    ensures x == if d0 == 0 then x0 else x0 % d0
  {
    if d0 > 0 {
      DivModUnique(x0, d0, q, x);
    }
  }

  lemma ExactDifference(x: int, y: int, m: int)
    requires 0 <= y <= x < m
    ensures (x - y) % m == x - y
  {
    ModSmall(x - y, m);
  }

  /** Halving the shifted divisor keeps the dividend under twice its value. */
  lemma HalveStep(x: int, d0: int, s: nat)
    requires s > 0 && x < d0 * Pow2(s)
    ensures x < 2 * (d0 * Pow2(s - 1)) && (d0 * Pow2(s)) / Pow2(1) == d0 * Pow2(s - 1)
  {
    Pow2Step(s - 1);
    assert d0 * Pow2(s) == 2 * (d0 * Pow2(s - 1));
  }

  /**
   * The opening block of ModuloInternal and DivideInternal: the divisor is
   * shifted left until its top bit lines up with the dividend's.
   */
  method AlignLanes(dividend: array<int>, divisor: array<int>, w: nat)
    returns (divisorshift: int, dividendmsb: int, divisormsb: int)
    requires dividend != divisor && Shape(w, dividend.Length) && divisor.Length == dividend.Length
    requires LanesOk(dividend[..], Pow2(w)) && LanesOk(divisor[..], Pow2(w))
    modifies divisor
    ensures LanesOk(divisor[..], Pow2(w))
    ensures IsMsb(LV(dividend[..], Pow2(w)), dividendmsb) && IsMsb(old(LV(divisor[..], Pow2(w))), divisormsb)
    ensures dividendmsb < 256 && divisormsb < 256
    ensures divisorshift == if dividendmsb > divisormsb then dividendmsb - divisormsb else 0
    ensures var d0 := old(LV(divisor[..], Pow2(w)));
      LV(divisor[..], Pow2(w)) == d0 * Pow2(divisorshift) &&
      (d0 > 0 ==> LV(dividend[..], Pow2(w)) < 2 * (d0 * Pow2(divisorshift)))
  {
    ghost var bb := Pow2(w);
    ghost var x0 := LV(dividend[..], bb);
    ghost var d0 := LV(divisor[..], bb);
    ShapeWidth(w, dividend.Length);
    LVBound(dividend[..], bb);
    LVBound(divisor[..], bb);
    Pow2Of256();
    dividendmsb := MsbLanes(dividend, w);
    divisormsb := MsbLanes(divisor, w);
    if dividendmsb > divisormsb {
      divisorshift := dividendmsb - divisormsb;
    } else {
      divisorshift := 0;
    }
    if d0 > 0 {
      AlignDivisor(x0, d0, dividendmsb, divisormsb, divisorshift, 256);
    }
    if dividendmsb > divisormsb {
      ShiftLeftLanes(divisor, w, divisorshift);
      AlignFits(d0, Pow2(divisorshift), TWO256);
    } else {
      assert d0 * Pow2(divisorshift) == d0;
    }
  }

  /** The aligned divisor fits, so the left shift drops no bits. */
  lemma AlignFits(d0: int, p: int, m: int)
    requires d0 >= 0 && p > 0 && m > 0 && (d0 > 0 ==> d0 * p < m)
    ensures (d0 * p) % m == d0 * p
  {
    if d0 > 0 {
      ModSmall(d0 * p, m);
    } else {
      assert d0 * p == 0;
    }
  }

  /** One compare-and-subtract of the reduction loop. */
  method ReduceOnce(dividend: array<int>, divisor: array<int>, w: nat) returns (subtracted: bool)
    requires dividend != divisor && Shape(w, dividend.Length) && divisor.Length == dividend.Length
    requires LanesOk(dividend[..], Pow2(w)) && LanesOk(divisor[..], Pow2(w))
    modifies dividend
    ensures LanesOk(dividend[..], Pow2(w))
    ensures var x, dd := old(LV(dividend[..], Pow2(w))), LV(divisor[..], Pow2(w));
      subtracted == (x >= dd) && LV(dividend[..], Pow2(w)) == if subtracted then x - dd else x
  {
    ghost var bb := Pow2(w);
    ghost var x := LV(dividend[..], bb);
    ghost var dd := LV(divisor[..], bb);
    ShapeWidth(w, dividend.Length);
    LVBound(dividend[..], bb);
    LVBound(divisor[..], bb);
    var c := CompareLanes(dividend, divisor, w);
    subtracted := c >= 0;
    if subtracted {
      SubtractLanes(dividend, divisor, w);
      ExactDifference(x, dd, Pow(bb, dividend.Length));
    }
  }

  /**
   * ModuloInternal: dividend := dividend mod divisor, by aligning the
   * divisor's top bit with the dividend's and subtracting while halving.
   * A zero divisor leaves the dividend as it is; the divisor is restored.
   */
  method ModuloLanes(dividend: array<int>, divisor: array<int>, w: nat)
    requires dividend != divisor && Shape(w, dividend.Length) && divisor.Length == dividend.Length
    requires LanesOk(dividend[..], Pow2(w)) && LanesOk(divisor[..], Pow2(w))
    modifies dividend, divisor
    ensures LanesOk(dividend[..], Pow2(w)) && divisor[..] == old(divisor[..])
    ensures var x0, d0 := old(LV(dividend[..], Pow2(w))), old(LV(divisor[..], Pow2(w)));
      LV(dividend[..], Pow2(w)) == if d0 == 0 then x0 else x0 % d0
  {
    ghost var bb := Pow2(w);
    ghost var divisor0 := divisor[..];
    ghost var x0 := LV(dividend[..], bb);
    ghost var d0 := LV(divisor[..], bb);
    var divisorshift, _, _ := AlignLanes(dividend, divisor, w);
    ghost var q := RemainderLoop(dividend, divisor, w, divisorshift, x0, d0);
    ModuloDone(dividend[..], divisor[..], divisor0, bb, x0, q);
  }

  /**
   * The loop of ModuloInternal: subtract the shifted divisor where it fits,
   * then halve it, until it is back at its own value. The dividend keeps
   * its value modulo the divisor and ends below it.
   */
  method RemainderLoop(dividend: array<int>, divisor: array<int>, w: nat, divisorshift: int, ghost x0: int, ghost d0: int)
    returns (ghost q: int)
    requires dividend != divisor && Shape(w, dividend.Length) && divisor.Length == dividend.Length
    requires 0 <= divisorshift && 0 <= d0 && LanesOk(dividend[..], Pow2(w)) && LanesOk(divisor[..], Pow2(w))
    requires LV(divisor[..], Pow2(w)) == d0 * Pow2(divisorshift) && LV(dividend[..], Pow2(w)) == x0
    requires d0 > 0 ==> x0 < 2 * (d0 * Pow2(divisorshift))
    modifies dividend, divisor
    ensures LanesOk(dividend[..], Pow2(w)) && LanesOk(divisor[..], Pow2(w))
    ensures LV(divisor[..], Pow2(w)) == d0 * Pow2(0)
    ensures LV(dividend[..], Pow2(w)) + q * d0 == x0
    ensures d0 > 0 ==> LV(dividend[..], Pow2(w)) < d0 * Pow2(0)
    ensures d0 == 0 ==> LV(dividend[..], Pow2(w)) == x0
  {
    ghost var bb := Pow2(w);
    var shift := divisorshift;
    q := 0;
    while true
      invariant 0 <= shift
      invariant LanesOk(dividend[..], bb) && LanesOk(divisor[..], bb)
      invariant LV(divisor[..], bb) == d0 * Pow2(shift)
      invariant LV(dividend[..], bb) + q * d0 == x0
      invariant d0 > 0 ==> LV(dividend[..], bb) < 2 * (d0 * Pow2(shift))
      invariant d0 == 0 ==> LV(dividend[..], bb) == x0
      decreases shift
    {
      ghost var x := LV(dividend[..], bb);
      var subtracted := ReduceOnce(dividend, divisor, w);
      ReduceInvariant(x, LV(dividend[..], bb), subtracted, q, d0, Pow2(shift), x0);
      if subtracted {
        q := q + Pow2(shift);
      }
      if shift == 0 {
        break;
      }
      if d0 > 0 {
        HalveStep(LV(dividend[..], bb), d0, shift);
      } else {
        assert d0 * Pow2(shift - 1) == 0;
      }
      shift := shift - 1;
      ShiftRightLanes(divisor, w, 1);
    }
  }

  // ---------------------------------------------------------------------
  // DivideInternal
  // ---------------------------------------------------------------------

  /** x | (1 << j) on a 64-bit lane: adds bit j unless it is already set. */
  function OrBit(x: int, j: nat): (r: int)
    ensures (x / Pow2(j)) % 2 == 0 ==> r == x + Pow2(j)
    ensures (x / Pow2(j)) % 2 == 1 ==> r == x
  {
    if (x / Pow2(j)) % 2 == 1 then x else x + Pow2(j)
  }

  /** A lane whose bits 0..j are clear: setting bit j adds exactly 2^j. */
  lemma BitClear(x: int, j: nat)
    requires 0 <= x < Pow2(64) && j < 64 && x % Pow2(j + 1) == 0
    ensures (x / Pow2(j)) % 2 == 0
    ensures x + Pow2(j) < Pow2(64) && (x + Pow2(j)) % Pow2(j) == 0
  {
    var p, e := Pow2(j), Pow2(63 - j);
    assert Pow2(j + 1) == 2 * p by {
      Pow2Step(j);
    }
    assert Pow2(64) == (2 * p) * e by {
      Pow2Add(j + 1, 63 - j);
    }
    var t := x / Pow2(j + 1);
    assert x == t * (2 * p) by {
      ExactQuotient(x, Pow2(j + 1));
    }
    EvenMultiple(x, t, p, e);
  }

  /** A multiple of m is its quotient times m. */
  lemma ExactQuotient(x: int, m: int)
    requires m > 0 && x % m == 0
    ensures x == (x / m) * m
  {
  }

  lemma EvenMultiple(x: int, t: int, p: int, e: int)
    requires p > 0 && e > 0 && 0 <= x < (2 * p) * e && x == t * (2 * p)
    ensures (x / p) % 2 == 0 && x + p < (2 * p) * e && (x + p) % p == 0
  {
    assert x == (2 * t) * p;
    DivModUnique(x, p, 2 * t, 0);
    assert x + p == (2 * t + 1) * p;
    DivModUnique(x + p, p, 2 * t + 1, 0);
    assert t < e by {
      MulLe(e, t, 2 * p);
    }
    MulLe(t + 1, e, 2 * p);
  }

  /** Quotient bits are set from the top down: all bits below s are still clear. */
  predicate LowBitsClear(a: seq<int>, s: nat)
    requires s < 64 * |a|
  {
    (forall t :: 0 <= t < s / 64 ==> a[t] == 0) && a[s / 64] % Pow2(s % 64 + 1) == 0
  }

  /** Moving from quotient bit s to bit s - 1. */
  lemma LowBitsStep(a: seq<int>, a1: seq<int>, s: nat)
    requires 0 < s < 64 * |a| && |a1| == |a| && LowBitsClear(a, s)
    requires forall t :: 0 <= t < |a| && t != s / 64 ==> a1[t] == a[t]
    requires a1[s / 64] % Pow2(s % 64) == 0
    ensures LowBitsClear(a1, s - 1)
  {
    if s % 64 == 0 {
      assert (s - 1) / 64 == s / 64 - 1 && (s - 1) % 64 == 63;
    } else {
      assert (s - 1) / 64 == s / 64 && (s - 1) % 64 + 1 == s % 64;
    }
  }

  lemma LowBitsKept(x: int, j: nat)
    requires x % Pow2(j + 1) == 0
    ensures x % Pow2(j) == 0
  {
    Pow2Step(j);
    ModModMultiple(x, Pow2(j), 2);
  }

  /** Setting quotient bit s in lane s / 64. */
  lemma SetQuotientBit(a: seq<int>, s: nat)
    requires |a| == 4 && s < 256 && LanesOk(a, Pow2(64)) && LowBitsClear(a, s)
    ensures var a1 := a[s / 64 := OrBit(a[s / 64], s % 64)];
      LanesOk(a1, Pow2(64)) && LV(a1, Pow2(64)) == LV(a, Pow2(64)) + Pow2(s) &&
      a1[s / 64] % Pow2(s % 64) == 0
  {
    var k, j := s / 64, s % 64;
    BitClear(a[k], j);
    LVUpdate(a, k, OrBit(a[k], j), Pow2(64));
    ShiftCountSplit(64, s);
  }

  /** The quotient update of DivideInternal: a[s / 64] |= 1 << (s % 64). */
  method SetBit(a: array<int>, s: nat)
    requires a.Length == 4 && s < 256 && LanesOk(a[..], Pow2(64)) && LowBitsClear(a[..], s)
    modifies a
    ensures LanesOk(a[..], Pow2(64)) && LV(a[..], Pow2(64)) == old(LV(a[..], Pow2(64))) + Pow2(s)
    ensures s > 0 ==> LowBitsClear(a[..], s - 1)
  {
    ghost var before := a[..];
    SetQuotientBit(a[..], s);
    a[s / 64] := OrBit(a[s / 64], s % 64);
    assert a[..] == before[s / 64 := OrBit(before[s / 64], s % 64)];
    if s > 0 {
      LowBitsStep(before, a[..], s);
    }
  }

  /** After the last step the collected bits are the quotient. */
  lemma QuotientDone(x: seq<int>, q: seq<int>, bb: nat, x0: int, d0: int)
    requires bb > 0 && d0 > 0 && LanesOk(x, bb)
    requires LV(x, bb) + LV(q, bb) * d0 == x0 && LV(x, bb) < d0 * Pow2(0)
    ensures LV(q, bb) == x0 / d0
  {
    LVBound(x, bb);
    assert Pow2(0) == 1;
    DivModUnique(x0, d0, LV(q, bb), LV(x, bb));
  }

  method ZeroLanes(a: array<int>)
    modifies a
    ensures forall i :: 0 <= i < a.Length ==> a[i] == 0
  {
    var i := 0;
    while i < a.Length
      invariant 0 <= i <= a.Length
      invariant forall j :: 0 <= j < i ==> a[j] == 0
    {
      a[i] := 0;
      i := i + 1;
    }
  }

  /**
   * DivideInternal: a := a / divisor by shift and subtract, the quotient
   * collected bit by bit into a while a copy of the dividend is reduced.
   */
  method DivideLanes(a: array<int>, divisor: array<int>)
    requires a != divisor && a.Length == 4 && divisor.Length == 4
    requires LanesOk(a[..], Pow2(64)) && LanesOk(divisor[..], Pow2(64))
    requires LV(divisor[..], Pow2(64)) > 0
    modifies a, divisor
    ensures LanesOk(a[..], Pow2(64))
    ensures LV(a[..], Pow2(64)) == old(LV(a[..], Pow2(64))) / old(LV(divisor[..], Pow2(64)))
  {
    ghost var bb := Pow2(64);
    ghost var x0 := LV(a[..], bb);
    ghost var d0 := LV(divisor[..], bb);
    var dividend := new int[4](i requires 0 <= i < 4 reads a => a[i]);
    assert dividend[..] == old(a[..]);
    ZeroLanes(a);
    LVZero(a[..], bb);
    var divisorshift, dividendmsb, divisormsb := AlignLanes(dividend, divisor, 64);
    if dividendmsb < divisormsb {
      Pow2Order(dividendmsb + 1, divisormsb);
      ModSmall(x0, d0);
      return;
    }
    LVZero(a[..], bb);
    assert LowBitsClear(a[..], divisorshift);
    QuotientLoop(a, dividend, divisor, divisorshift, x0, d0);
  }

  /** The loop of DivideInternal: one quotient bit per pass, from bit s down to bit 0. */
  method QuotientLoop(a: array<int>, dividend: array<int>, divisor: array<int>, s: int,
                      ghost x0: int, ghost d0: int)
    requires a != divisor && a != dividend && dividend != divisor
    requires a.Length == 4 && dividend.Length == 4 && divisor.Length == 4
    requires QuotientInv(a[..], dividend[..], divisor[..], s, x0, d0)
    modifies a, dividend, divisor
    ensures LanesOk(a[..], Pow2(64)) && LV(a[..], Pow2(64)) == x0 / d0
  {
    var divisorshift := s;
    while true
      invariant QuotientInv(a[..], dividend[..], divisor[..], divisorshift, x0, d0)
      decreases divisorshift
    {
      var last := divisorshift == 0;
      QuotientStep(a, dividend, divisor, divisorshift, x0, d0);
      if last {
        break;
      }
      divisorshift := divisorshift - 1;
    }
  }

  /**
   * What the loop of DivideInternal keeps at quotient bit s: the divisor is
   * d0 shifted by s, the dividend plus quotient times d0 is the original
   * dividend and less than twice the shifted divisor, and the quotient has
   * no bit below s + 1 set yet.
   */
  ghost predicate QuotientInv(a: seq<int>, dividend: seq<int>, divisor: seq<int>, s: int,
                              x0: int, d0: int)
  {
    |a| == 4 && |dividend| == 4 && |divisor| == 4 && 0 <= s < 256 && d0 > 0 &&
    LanesOk(a, Pow2(64)) && LanesOk(dividend, Pow2(64)) && LanesOk(divisor, Pow2(64)) &&
    LV(divisor, Pow2(64)) == d0 * Pow2(s) &&
    LV(dividend, Pow2(64)) + LV(a, Pow2(64)) * d0 == x0 &&
    LV(dividend, Pow2(64)) < 2 * (d0 * Pow2(s)) &&
    LowBitsClear(a, s)
  }

  /** One pass of the loop of DivideInternal, at quotient bit s. */
  method QuotientStep(a: array<int>, dividend: array<int>, divisor: array<int>, s: int,
                      ghost x0: int, ghost d0: int)
    requires a != divisor && a != dividend && dividend != divisor
    requires a.Length == 4 && dividend.Length == 4 && divisor.Length == 4
    requires QuotientInv(a[..], dividend[..], divisor[..], s, x0, d0)
    modifies a, dividend, divisor
    ensures s > 0 ==> QuotientInv(a[..], dividend[..], divisor[..], s - 1, x0, d0)
    ensures s == 0 ==> LanesOk(a[..], Pow2(64)) && LV(a[..], Pow2(64)) == x0 / d0
  {
    ghost var bb := Pow2(64);
    ghost var x := LV(dividend[..], bb);
    ghost var q := LV(a[..], bb);
    var subtracted := ReduceOnce(dividend, divisor, 64);
    ReduceInvariant(x, LV(dividend[..], bb), subtracted, q, d0, Pow2(s), x0);
    if subtracted {
      SetBit(a, s);
    }
    if s == 0 {
      QuotientDone(dividend[..], a[..], bb, x0, d0);
      return;
    }
    if !subtracted {
      LowBitsKept(a[s / 64], s % 64);
      LowBitsStep(a[..], a[..], s);
    }
    HalveStep(LV(dividend[..], bb), d0, s);
    ShiftRightLanes(divisor, 64, 1);
  }
}

/**
 * The private lane-array routines of MyUInt256 (CompareInternal,
 * SubtractInternal, Msb, ShiftLeftInternal, ShiftRightInternal,
 * ModuloInternal, MultiplyInternal and the half-size conversions).
 * The source writes each of them twice, once over four 64-bit lanes and
 * once over eight 32-bit lanes; here each is written once over lanes of
 * w bits, w being 64 or 32, and proved against the lanes' value LV.
 */
module LaneOps {
  import opened Common
  import opened Lanes

  // ---------------------------------------------------------------------
  // CompareInternal
  // ---------------------------------------------------------------------

  /** Scans from the most significant lane; the first differing lane decides. */
  method CompareLanes(a: array<int>, b: array<int>, w: nat) returns (c: int)
    requires a.Length == b.Length && w > 0
    requires LanesOk(a[..], Pow2(w)) && LanesOk(b[..], Pow2(w))
    ensures c == Cmp(LV(a[..], Pow2(w)), LV(b[..], Pow2(w)))
  {
    var i := a.Length - 1;
    while i >= 0
      invariant -1 <= i < a.Length
      invariant forall j :: i < j < a.Length ==> a[j] == b[j]
    {
      if a[i] < b[i] {
        assert a[..][i + 1..] == b[..][i + 1..];
        LVCompareAt(a[..], b[..], i, Pow2(w));
        return -1;
      } else if a[i] > b[i] {
        assert a[..][i + 1..] == b[..][i + 1..];
        LVCompareAt(b[..], a[..], i, Pow2(w));
        return 1;
      }
      i := i - 1;
    }
    assert a[..] == b[..];
    return 0;
  }

  // ---------------------------------------------------------------------
  // SubtractInternal
  // ---------------------------------------------------------------------

  /**
   * One lane of the borrow chain: (x - y) and then (- ob), each wrapped to
   * the lane; the test "result > ~operand" detects each borrow exactly.
   */
  lemma SubLane(x: int, y: int, ob: int, bb: int, d1: int, b1: int, d2: int, b2: int)
    requires bb > 0 && 0 <= x < bb && 0 <= y < bb && 0 <= ob <= 1
    requires d1 == (x - y) % bb && b1 == (if d1 > bb - 1 - y then 1 else 0)
    requires d2 == (d1 - ob) % bb && b2 == (if d2 > bb - 1 - ob then 1 else 0)
    ensures 0 <= d2 < bb && b1 + b2 <= 1 && d2 - (b1 + b2) * bb == x - y - ob
  {
    if x >= y {
      ModSmall(x - y, bb);
    } else {
      ModSmall(x - y + bb, bb);
      ModAddMultiple(x - y, 1, bb);
    }
    if d1 >= ob {
      ModSmall(d1 - ob, bb);
    } else {
      ModSmall(d1 - ob + bb, bb);
      ModAddMultiple(d1 - ob, 1, bb);
    }
  }

  /** Carry/borrow bookkeeping of a lane loop moving one lane up. */
  lemma BorrowStep(lowNew: int, lowM: int, lowS: int, p: int, bb: int, d: int, c: int, oc: int, x: int, y: int)
    requires lowNew - oc * p == lowM - lowS
    requires d - c * bb == x - y - oc
    ensures (lowNew + d * p) - c * (bb * p) == (lowM + x * p) - (lowS + y * p)
  {
    assert (d - c * bb) * p == (x - y - oc) * p;
  }

  /** One lane of SubtractInternal: subtract y and the incoming borrow, wrapping. */
  method SubtractLane(minuend: array<int>, i: int, y: int, oldborrow: int, bb: int) returns (borrow: int)
    requires 0 <= i < minuend.Length && bb > 0 && 0 <= minuend[i] < bb && 0 <= y < bb
    requires oldborrow == 0 || oldborrow == 1
    modifies minuend
    ensures forall j :: 0 <= j < minuend.Length && j != i ==> minuend[j] == old(minuend[j])
    ensures 0 <= minuend[i] < bb && (borrow == 0 || borrow == 1)
    ensures minuend[i] - borrow * bb == old(minuend[i]) - y - oldborrow
  {
    ghost var x := minuend[i];
    borrow := 0;
    // ~v is bb - 1 - v on a lane
    minuend[i] := (minuend[i] - y) % bb;
    ghost var d1 := minuend[i];
    if minuend[i] > bb - 1 - y {
      borrow := borrow + 1;
    }
    ghost var b1 := borrow;
    minuend[i] := (minuend[i] - oldborrow) % bb;
    if minuend[i] > bb - 1 - oldborrow {
      borrow := borrow + 1;
    }
    SubLane(x, y, oldborrow, bb, d1, b1, minuend[i], borrow - b1);
  }

  /** The minuend loses the subtrahend, modulo 2^(w * lanes). */
  method SubtractLanes(minuend: array<int>, subtrahend: array<int>, w: nat)
    requires minuend != subtrahend && minuend.Length == subtrahend.Length && w > 0
    requires LanesOk(minuend[..], Pow2(w)) && LanesOk(subtrahend[..], Pow2(w))
    modifies minuend
    ensures LanesOk(minuend[..], Pow2(w))
    ensures LV(minuend[..], Pow2(w))
         == (old(LV(minuend[..], Pow2(w))) - LV(subtrahend[..], Pow2(w))) % PowPos(Pow2(w), minuend.Length)
  {
    var bb := Pow2(w);
    ghost var m0 := minuend[..];
    var borrow := 0;
    var i := 0;
    while i < minuend.Length
      invariant 0 <= i <= minuend.Length
      invariant borrow == 0 || borrow == 1
      invariant forall j :: i <= j < minuend.Length ==> minuend[j] == m0[j]
      invariant LanesOk(minuend[..], bb)
      invariant LV(minuend[..i], bb) - borrow * Pow(bb, i) == LV(m0[..i], bb) - LV(subtrahend[..i], bb)
    {
      ghost var before := minuend[..];
      var oldborrow := borrow;
      borrow := SubtractLane(minuend, i, subtrahend[i], oldborrow, bb);
      LVPrefixStep(minuend[..], i, bb);
      LVPrefixStep(m0, i, bb);
      LVPrefixStep(subtrahend[..], i, bb);
      assert minuend[..i] == before[..i];
      BorrowStep(LV(minuend[..i], bb), LV(m0[..i], bb), LV(subtrahend[..i], bb), Pow(bb, i), bb,
                 minuend[i], borrow, oldborrow, m0[i], subtrahend[i]);
      assert Pow(bb, i + 1) == bb * Pow(bb, i);
      i := i + 1;
    }
    assert minuend[..] == minuend[..i] && m0 == m0[..i] && subtrahend[..] == subtrahend[..i];
    LVBound(minuend[..], bb);
    DivModUnique(LV(m0, bb) - LV(subtrahend[..], bb), Pow(bb, i), -borrow, LV(minuend[..], bb));
  }

  // ---------------------------------------------------------------------
  // Msb
  // ---------------------------------------------------------------------

  /** The index of the highest set bit, -1 for zero. */
  predicate IsMsb(x: int, m: int)
  {
    (x == 0 && m == -1) || (x > 0 && m >= 0 && Pow2(m) <= x < Pow2(m + 1))
  }

  /** Msb(uint): binary search over shifts of 16, 8, 4, 2 and 1. */
  method Msb32(value: int) returns (msb: int)
    requires 0 <= value < TWO32
    ensures IsMsb(value, msb) && msb < 32
  {
    if value == 0 {
      return -1;
    }
    assert value < Pow2(2 * 16) by {
      Pow2Of32();
    }
    msb := 0;
    var v := value;
    var i := 16;
    while i != 0
      invariant i == 16 || i == 8 || i == 4 || i == 2 || i == 1 || i == 0
      invariant 0 <= msb && 1 <= v && v == value / Pow2(msb)
      invariant i > 0 ==> v < Pow2(2 * i)
      invariant i == 0 ==> v < 2
    {
      MsbStep(value, msb, v, i);
      if v / Pow2(i) != 0 {
        v := v / Pow2(i);
        msb := msb + i;
      }
      assert i == 1 ==> Pow2(i) == 2;
      i := i / 2;
    }
    DivIsOne(value, Pow2(msb));
    assert msb < 32 by {
      Pow2Of32();
      Pow2Order(32, msb);
    }
  }

  /** One halving step of the Msb(uint) search keeps the search window. */
  lemma MsbStep(value: nat, msb: nat, v: nat, i: nat)
    requires i > 0 && v == value / Pow2(msb) && v < Pow2(2 * i)
    ensures v / Pow2(i) != 0 ==> v / Pow2(i) < Pow2(i) && v / Pow2(i) == value / Pow2(msb + i)
    ensures v / Pow2(i) == 0 ==> v < Pow2(i)
  {
    Pow2Add(i, i);
    DivBound(v, Pow2(i), Pow2(i));
    DivDiv(value, Pow2(msb), Pow2(i));
    Pow2Add(msb, i);
  }

  /** Msb(ulong): picks the upper or lower half and adds its Msb(uint). */
  method Msb64(value: int) returns (msb: int)
    requires 0 <= value < TWO64
    ensures IsMsb(value, msb) && msb < 64
  {
    if value == 0 {
      return -1;
    }
    var dw;
    if value / TWO32 != 0 {
      dw := value / TWO32;
      msb := 32;
      DivBound(value, TWO32, TWO32);
    } else {
      dw := value % TWO32;
      msb := 0;
    }
    var m := Msb32(dw);
    Pow2Of32();
    Pow2Add(32, m);
    Pow2Add(32, m + 1);
    msb := msb + m;
  }

  /** Msb of one lane of width w. */
  method MsbWord(value: int, w: nat) returns (msb: int)
    requires w == 32 || w == 64
    requires 0 <= value < Pow2(w)
    ensures IsMsb(value, msb) && msb < w
  {
    Pow2Of64();
    Pow2Of32();
    if w == 64 {
      msb := Msb64(value);
    } else {
      msb := Msb32(value);
    }
  }

  /** The value of lanes whose top part is zero, read at lane i. */
  lemma LVTopLane(s: seq<int>, i: nat, w: nat, m: nat)
    requires LanesOk(s, Pow2(w)) && i < |s|
    requires forall j :: i < j < |s| ==> s[j] == 0
    requires Pow2(m) <= s[i] < Pow2(m + 1)
    ensures Pow2(w * i + m) <= LV(s, Pow2(w)) < Pow2(w * i + m + 1)
  {
    var bb := Pow2(w);
    var low, p := LV(s[..i], bb), Pow(bb, i);
    assert LV(s, bb) == low + p * (s[i] + 0) by {
      LVAt(s, i, bb);
      LVZero(s[i + 1..], bb);
    }
    assert 0 <= low < p by {
      assert LanesOk(s[..i], bb);
      LVBound(s[..i], bb);
    }
    assert p * Pow2(m) == Pow2(w * i + m) && p * Pow2(m + 1) == Pow2(w * i + m + 1) by {
      PowMul(2, w, i);
      Pow2Add(w * i, m);
      Pow2Add(w * i, m + 1);
    }
    TopDigit(low, p, s[i], Pow2(m), Pow2(m + 1));
  }

  lemma TopDigit(x: int, p: int, d: int, lo: int, hi: int)
    requires 0 <= x < p && lo <= d < hi
    ensures p * lo <= x + p * (d + 0) < p * hi
  {
    MulLe(lo, d, p);
    MulLe(d + 1, hi, p);
  }

  /** Msb(ulong[]) and Msb(uint[]): scans lanes from the top. */
  method MsbLanes(a: array<int>, w: nat) returns (msb: int)
    requires w == 32 || w == 64
    requires LanesOk(a[..], Pow2(w))
    ensures IsMsb(LV(a[..], Pow2(w)), msb) && msb < w * a.Length
  {
    var i := a.Length - 1;
    while i >= 0
      invariant -1 <= i < a.Length
      invariant forall j :: i < j < a.Length ==> a[j] == 0
    {
      var m := MsbWord(a[i], w);
      if m >= 0 {
        LVTopLane(a[..], i, w, m);
        assert w * i + m < w * a.Length by {
          MulLe(i + 1, a.Length, w);
        }
        return (i * w) + m;
      }
      i := i - 1;
    }
    LVZero(a[..], Pow2(w));
    return -1;
  }

  // ---------------------------------------------------------------------
  // ShiftLeftInternal / ShiftRightInternal
  // ---------------------------------------------------------------------

  /** Value of the lanes after moving every lane up by l places. */
  lemma ShiftUpValue(a0: seq<int>, s: seq<int>, l: nat, bb: nat)
    requires bb > 0 && |s| == |a0| && LanesOk(a0, bb)
    requires forall j :: 0 <= j < |s| ==> s[j] == (if j < l then 0 else a0[j - l])
    ensures LV(s, bb) == (LV(a0, bb) * Pow(bb, l)) % PowPos(bb, |s|)
  {
    var n := |s|;
    if l >= n {
      LVZero(s, bb);
      PowAdd(bb, n, l - n);
      MultipleMod(LV(a0, bb), Pow(bb, l), Pow(bb, l - n), PowPos(bb, n));
    } else {
      ZeroBottom(s, a0[..n - l], l, bb);
      ShiftUpPart(a0, n - l, l, bb);
    }
  }

  /** Clear lanes at the bottom shift the rest up. */
  lemma ZeroBottom(s: seq<int>, t: seq<int>, l: nat, bb: nat)
    requires l <= |s| && s[l..] == t
    requires forall j :: 0 <= j < l ==> s[j] == 0
    ensures LV(s, bb) == Pow(bb, l) * LV(t, bb)
  {
    LVSplit(s, l, bb);
    LVZero(s[..l], bb);
  }

  /** The lanes below k, moved up by l = |a0| - k places, are the product mod base^|a0|. */
  lemma ShiftUpPart(a0: seq<int>, k: nat, l: nat, bb: nat)
    requires bb > 0 && k + l == |a0| && LanesOk(a0, bb)
    ensures Pow(bb, l) * LV(a0[..k], bb) == (LV(a0, bb) * Pow(bb, l)) % PowPos(bb, |a0|)
  {
    LVSplit(a0, k, bb);
    assert LanesOk(a0[..k], bb);
    LVBound(a0[..k], bb);
    PowAdd(bb, l, k);
    PowPositive(bb, l);
    ShiftArith(LV(a0, bb), LV(a0[..k], bb), LV(a0[k..], bb), Pow(bb, l), Pow(bb, k));
  }

  lemma ShiftArith(x: int, y: int, z: int, p: int, p1: int)
    requires x == y + p1 * z && 0 <= y < p1 && p > 0
    ensures (x * p) % (p * p1) == p * y
  {
    assert x * p == p * y + (p * p1) * z;
    assert p * y < p * p1 by {
      MulLe(y + 1, p1, p);
    }
    SplitDivMod(x * p, p * y, z, p * p1);
  }

  /** Value of the lanes after moving every lane down by l places. */
  lemma ShiftDownValue(a0: seq<int>, s: seq<int>, l: nat, bb: nat)
    requires bb > 0 && |s| == |a0| && LanesOk(a0, bb)
    requires forall j :: 0 <= j < |s| ==> s[j] == (if j + l < |s| then a0[j + l] else 0)
    ensures LV(s, bb) == LV(a0, bb) / PowPos(bb, l)
  {
    var n := |s|;
    if l >= n {
      LVBound(a0, bb);
      LVZero(s, bb);
      PowMonotone(bb, n, l);
      ModSmall(LV(a0, bb), Pow(bb, l));
    } else {
      var lo, hi := a0[..l], a0[l..];
      ZeroTop(s, hi, bb);
      assert LanesOk(lo, bb);
      LVSplit(a0, l, bb);
      LVBound(lo, bb);
      SplitDivMod(LV(a0, bb), LV(lo, bb), LV(hi, bb), Pow(bb, l));
    }
  }

  /** Clear lanes on top add nothing. */
  lemma ZeroTop(s: seq<int>, t: seq<int>, bb: nat)
    requires |t| <= |s| && s[..|t|] == t
    requires forall j :: |t| <= j < |s| ==> s[j] == 0
    ensures LV(s, bb) == LV(t, bb)
  {
    LVSplit(s, |t|, bb);
    LVZero(s[|t|..], bb);
  }

  /** Splitting one lane shifted left by c into its kept part and carry-out. */
  lemma CarryLeftLane(x: int, c: nat, w: nat)
    requires 0 < c < w && 0 <= x < Pow2(w)
    ensures (x * Pow2(c)) % Pow2(w) + (x / Pow2(w - c)) * Pow2(w) == x * Pow2(c)
    ensures 0 <= x / Pow2(w - c) < Pow2(c)
    ensures 0 <= (x * Pow2(c)) % Pow2(w) <= Pow2(w) - Pow2(c)
  {
    Pow2Add(c, w - c);
    MulModShift(x, Pow2(c), Pow2(w - c));
    MulDivShift(x, Pow2(c), Pow2(w - c));
    DivBound(x, Pow2(w - c), Pow2(c));
    MulLe(x % Pow2(w - c), Pow2(w - c) - 1, Pow2(c));
  }

  lemma CarryStep(lowN: int, lowO: int, p: int, bb: int, k: int, d: int, c: int, oc: int, x: int)
    requires lowN + oc * p == lowO * k
    requires d + c * bb == x * k + oc
    ensures (lowN + d * p) + c * (bb * p) == (lowO + x * p) * k
  {
    assert (d + c * bb) * p == (x * k + oc) * p;
  }

  /** One step of the left-shift carry chain, lane i. */
  lemma ShiftLeftStep(before: seq<int>, a1: seq<int>, i: nat, c: nat, w: nat, carryin: int)
    requires 0 < c < w && i < |before| == |a1| && before[i] == a1[i]
    requires 0 <= a1[i] < Pow2(w) && 0 <= carryin < Pow2(c)
    requires LV(before[..i], Pow2(w)) + carryin * Pow(Pow2(w), i) == LV(a1[..i], Pow2(w)) * Pow2(c)
    ensures var after := before[i := (before[i] * Pow2(c)) % Pow2(w) + carryin];
      0 <= after[i] < Pow2(w) && 0 <= a1[i] / Pow2(w - c) < Pow2(c) &&
      LV(after[..i + 1], Pow2(w)) + (a1[i] / Pow2(w - c)) * Pow(Pow2(w), i + 1)
        == LV(a1[..i + 1], Pow2(w)) * Pow2(c)
  {
    var bb := Pow2(w);
    var after := before[i := (before[i] * Pow2(c)) % bb + carryin];
    CarryLeftLane(a1[i], c, w);
    LVPrefixStep(after, i, bb);
    LVPrefixStep(a1, i, bb);
    assert after[..i] == before[..i];
    CarryStep(LV(before[..i], bb), LV(a1[..i], bb), Pow(bb, i), bb, Pow2(c), after[i],
              a1[i] / Pow2(w - c), carryin, a1[i]);
    assert Pow(bb, i + 1) == bb * Pow(bb, i);
  }

  /** A shift by count bits is a shift by count / w lanes and count % w bits. */
  lemma ShiftCountSplit(w: nat, count: nat)
    requires w > 0
    ensures Pow2(count) == Pow(Pow2(w), count / w) * Pow2(count % w)
  {
    assert count == w * (count / w) + count % w;
    Pow2Add(w * (count / w), count % w);
    PowMul(2, w, count / w);
  }

  /** The lane move of ShiftLeftInternal: lane j takes lane j - l, the bottom l lanes clear. */
  method MoveLanesUp(a: array<int>, l: nat, ghost bb: nat)
    requires bb > 0 && LanesOk(a[..], bb)
    modifies a
    ensures LanesOk(a[..], bb)
    ensures LV(a[..], bb) == (old(LV(a[..], bb)) * Pow(bb, l)) % PowPos(bb, a.Length)
  {
    ghost var a0 := a[..];
    var n := a.Length;
    var i := n - 1;
    while i >= l
      invariant i <= n - 1 && (i >= l - 1 || i == n - 1)
      invariant forall j :: i < j < n ==> a[j] == a0[j - l]
      invariant forall j :: 0 <= j <= i ==> a[j] == a0[j]
    {
      a[i] := a[i - l];
      i := i - 1;
    }
    while i >= 0
      invariant -1 <= i < n
      invariant forall j :: i < j < n ==> a[j] == (if j < l then 0 else a0[j - l])
    {
      a[i] := 0;
      i := i - 1;
    }
    ShiftUpValue(a0, a[..], l, bb);
  }

  /** The bit carry chain of ShiftLeftInternal for a shift of 0 < c < w bits. */
  method CarryLeft(a: array<int>, w: nat, c: nat)
    requires 0 < c < w && LanesOk(a[..], Pow2(w))
    modifies a
    ensures LanesOk(a[..], Pow2(w))
    ensures LV(a[..], Pow2(w)) == (old(LV(a[..], Pow2(w))) * Pow2(c)) % PowPos(Pow2(w), a.Length)
  {
    var n := a.Length;
    var bb := Pow2(w);
    ghost var a1 := a[..];
    var carryin := 0;
    var i := 0;
    while i < n
      invariant 0 <= i <= n
      invariant 0 <= carryin < Pow2(c)
      invariant forall j :: i <= j < n ==> a[j] == a1[j]
      invariant LanesOk(a[..], bb)
      invariant LV(a[..i], bb) + carryin * Pow(bb, i) == LV(a1[..i], bb) * Pow2(c)
    {
      ShiftLeftStep(a[..], a1, i, c, w, carryin);
      var carryout := a[i] / Pow2(w - c);
      // (a[i] << c) | carryin: the low c bits of the shifted lane are clear
      a[i] := (a[i] * Pow2(c)) % bb + carryin;
      carryin := carryout;
      i := i + 1;
    }
    assert a[..] == a[..n] && a1 == a1[..n];
    LVBound(a[..], bb);
    DivModUnique(LV(a1, bb) * Pow2(c), Pow(bb, n), carryin, LV(a[..], bb));
  }

  /** Shifts the lanes left by count bits, dropping what leaves the top. */
  method ShiftLeftLanes(a: array<int>, w: nat, count: nat)
    requires w == 32 || w == 64
    requires LanesOk(a[..], Pow2(w))
    modifies a
    ensures LanesOk(a[..], Pow2(w))
    ensures LV(a[..], Pow2(w)) == (old(LV(a[..], Pow2(w))) * Pow2(count)) % PowPos(Pow2(w), a.Length)
  {
    ghost var bb := Pow2(w);
    ghost var m := Pow(bb, a.Length);
    ghost var x0 := LV(a[..], bb);
    var c := count;
    if c >= w {
      var longcount := c / w;
      c := c % w;
      MoveLanesUp(a, longcount, bb);
      ghost var x1 := LV(a[..], bb);
      if c > 0 {
        CarryLeft(a, w, c);
      } else {
        LVBound(a[..], bb);
        ModSmall(x1, m);
        assert x1 * Pow2(c) == x1;
      }
      ShiftCountSplit(w, count);
      ShiftLeftFinish(x0, x1, LV(a[..], bb), Pow(bb, longcount), Pow2(c), m);
    } else {
      if c > 0 {
        CarryLeft(a, w, c);
      } else {
        LVBound(a[..], bb);
        ModSmall(x0, m);
      }
    }
  }

  lemma ShiftLeftFinish(x0: int, x1: int, x2: int, lanes: int, bits: int, m: int)
    requires m > 0
    requires x1 == (x0 * lanes) % m && x2 == (x1 * bits) % m
    ensures x2 == (x0 * (lanes * bits)) % m
  {
    ModMulLeft(x0 * lanes, bits, m);
    assert x0 * lanes * bits == x0 * (lanes * bits);
  }

  /** Splitting one lane shifted right by c into its kept part and carry-out. */
  lemma CarryRightLane(x: int, c: nat, w: nat, r: int)
    requires 0 < c < w && 0 <= x < Pow2(w) && 0 <= r < Pow2(c)
    ensures (x * Pow2(w - c)) % Pow2(w) == (x % Pow2(c)) * Pow2(w - c)
    ensures 0 <= x / Pow2(c) + r * Pow2(w - c) < Pow2(w)
  {
    var c2, e := Pow2(c), Pow2(w - c);
    assert Pow2(w) == e * c2 by {
      Pow2Add(w - c, c);
    }
    MulModShift(x, e, c2);
    assert x / c2 < e by {
      DivBound(x, c2, e);
    }
    KeptBound(x / c2, r, e, c2);
  }

  lemma KeptBound(q: int, r: int, e: int, c2: int)
    requires 0 <= q < e && 0 <= r < c2
    ensures 0 <= q + r * e < e * c2
  {
    MulLe(r, c2 - 1, e);
  }

  lemma RightStep(x: int, q: int, r1: int, r: int, c2: int, e: int, bb: int, u1: int, u: int)
    requires x == q * c2 + r1 && bb == c2 * e && u1 == u * c2 + r
    ensures x + bb * u1 == (q + r * e + bb * u) * c2 + r1
  {
    assert bb * u1 == bb * (u * c2) + bb * r;
    assert (q + r * e + bb * u) * c2 == q * c2 + r * (e * c2) + bb * u * c2;
  }

  /** One step of the right-shift carry chain, lane i. */
  lemma ShiftRightStep(before: seq<int>, a1: seq<int>, i: nat, c: nat, w: nat, r: int)
    requires 0 < c < w && i < |before| == |a1| && before[i] == a1[i]
    requires 0 <= a1[i] < Pow2(w) && 0 <= r < Pow2(c)
    requires LV(a1[i + 1..], Pow2(w)) == LV(before[i + 1..], Pow2(w)) * Pow2(c) + r
    ensures var after := before[i := before[i] / Pow2(c) + r * Pow2(w - c)];
      0 <= after[i] < Pow2(w) &&
      (a1[i] * Pow2(w - c)) % Pow2(w) == (a1[i] % Pow2(c)) * Pow2(w - c) &&
      LV(a1[i..], Pow2(w)) == LV(after[i..], Pow2(w)) * Pow2(c) + a1[i] % Pow2(c)
  {
    var bb := Pow2(w);
    var x := a1[i];
    var after := before[i := x / Pow2(c) + r * Pow2(w - c)];
    CarryRightLane(x, c, w, r);
    assert LV(a1[i..], bb) == x + bb * LV(a1[i + 1..], bb) by {
      assert a1[i..][1..] == a1[i + 1..];
    }
    assert LV(after[i..], bb) == after[i] + bb * LV(before[i + 1..], bb) by {
      assert after[i..][1..] == before[i + 1..];
    }
    assert bb == Pow2(c) * Pow2(w - c) by {
      Pow2Add(c, w - c);
    }
    RightStep(x, x / Pow2(c), x % Pow2(c), r, Pow2(c), Pow2(w - c), bb,
              LV(a1[i + 1..], bb), LV(before[i + 1..], bb));
  }

  /** The lane move of ShiftRightInternal: lane j takes lane j + l, the top l lanes clear. */
  method MoveLanesDown(a: array<int>, l: nat, ghost bb: nat)
    requires bb > 0 && LanesOk(a[..], bb)
    modifies a
    ensures LanesOk(a[..], bb)
    ensures LV(a[..], bb) == old(LV(a[..], bb)) / PowPos(bb, l)
  {
    ghost var a0 := a[..];
    var n := a.Length;
    var i := 0;
    while i < n - l
      invariant 0 <= i <= n && (i <= n - l || i == 0)
      invariant forall j :: 0 <= j < i ==> a[j] == a0[j + l]
      invariant forall j :: i <= j < n ==> a[j] == a0[j]
    {
      a[i] := a[i + l];
      i := i + 1;
    }
    while i < n
      invariant 0 <= i <= n
      invariant forall j :: 0 <= j < i ==> a[j] == (if j + l < n then a0[j + l] else 0)
    {
      a[i] := 0;
      i := i + 1;
    }
    ShiftDownValue(a0, a[..], l, bb);
  }

  /** The bit carry chain of ShiftRightInternal for a shift of 0 < c < w bits. */
  method CarryRight(a: array<int>, w: nat, c: nat)
    requires 0 < c < w && LanesOk(a[..], Pow2(w))
    modifies a
    ensures LanesOk(a[..], Pow2(w))
    ensures LV(a[..], Pow2(w)) == old(LV(a[..], Pow2(w))) / Pow2(c)
  {
    var n := a.Length;
    var bb := Pow2(w);
    ghost var a1 := a[..];
    var carryin := 0;
    ghost var r := 0;
    var i := n - 1;
    while i >= 0
      invariant -1 <= i < n
      invariant 0 <= r < Pow2(c) && carryin == r * Pow2(w - c)
      invariant forall j :: 0 <= j <= i ==> a[j] == a1[j]
      invariant LanesOk(a[..], bb)
      invariant LV(a1[i + 1..], bb) == LV(a[i + 1..], bb) * Pow2(c) + r
    {
      ShiftRightStep(a[..], a1, i, c, w, r);
      var carryout := (a[i] * Pow2(w - c)) % bb;
      // (a[i] >> c) | carryin: the carried bits sit above the shifted lane
      a[i] := a[i] / Pow2(c) + carryin;
      r := a1[i] % Pow2(c);
      carryin := carryout;
      i := i - 1;
    }
    assert a[..] == a[0..] && a1 == a1[0..];
    DivModUnique(LV(a1, bb), Pow2(c), LV(a[..], bb), r);
  }

  /** Shifts the lanes right by count bits. */
  method ShiftRightLanes(a: array<int>, w: nat, count: nat)
    requires w == 32 || w == 64
    requires LanesOk(a[..], Pow2(w))
    modifies a
    ensures LanesOk(a[..], Pow2(w))
    ensures LV(a[..], Pow2(w)) == old(LV(a[..], Pow2(w))) / Pow2(count)
  {
    ghost var bb := Pow2(w);
    ghost var x0 := LV(a[..], bb);
    LVBound(a[..], bb);
    var c := count;
    if c >= w {
      var longcount := c / w;
      c := c % w;
      MoveLanesDown(a, longcount, bb);
      if c > 0 {
        CarryRight(a, w, c);
      }
      ShiftCountSplit(w, count);
      DivDiv(x0, Pow(bb, longcount), Pow2(c));
    } else if c > 0 {
      CarryRight(a, w, c);
    }
  }
}

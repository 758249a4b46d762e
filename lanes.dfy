/**
 * Multi-precision numbers as little-endian sequences of lanes in base b.
 * MyUInt256 keeps its value in four 64-bit lanes (b = 2^64) and converts
 * to eight 32-bit half-lanes (b = 2^32) for multiplication and modular
 * exponentiation; both views are lane sequences here, and LV gives their
 * numeric value.
 */
module Lanes {
  import opened Common

  /** Numeric value of the lanes s, lane 0 least significant. */
  function LV(s: seq<int>, b: nat): int
  {
    if |s| == 0 then 0 else s[0] + b * LV(s[1..], b)
  }

  /** Every lane holds a digit in [0, b). */
  predicate LanesOk(s: seq<int>, b: nat)
  {
    forall i :: 0 <= i < |s| ==> 0 <= s[i] < b
  }

  /** The two lane layouts of a 256-bit number: 4 x 64 bits and 8 x 32 bits. */
  predicate Shape(w: nat, n: nat)
  {
    (w == 64 && n == 4) || (w == 32 && n == 8)
  }

  lemma ShapeWidth(w: nat, n: nat)
    requires Shape(w, n)
    ensures w * n == 256 && Pow(Pow2(w), n) == TWO256 && Pow2(w) >= TWO32
  {
    Pow2Of256();
    Pow2Of64();
    Pow2Of32();
    PowMul(2, w, n);
  }

  lemma Distrib(a: int, b: int, x: int, p: int, y: int)
    ensures a + b * (x + p * y) == (a + b * x) + (b * p) * y
  {
  }

  lemma {:induction false} LVBound(s: seq<int>, b: nat)
    requires LanesOk(s, b) && b > 0
    ensures 0 <= LV(s, b) < Pow(b, |s|)
  {
    if |s| > 0 {
      assert LanesOk(s[1..], b);
      LVBound(s[1..], b);
      DigitBound(s[0], LV(s[1..], b), b, Pow(b, |s| - 1));
    }
  }

  /** d + b*x < b*p when d < b and x < p. */
  lemma DigitBound(d: int, x: int, b: nat, p: nat)
    requires 0 <= d < b && 0 <= x < p
    ensures 0 <= d + b * x < b * p
  {
    MulLe(x + 1, p, b);
  }

  lemma {:induction false} LVSplit(s: seq<int>, i: nat, b: nat)
    requires i <= |s|
    ensures LV(s, b) == LV(s[..i], b) + Pow(b, i) * LV(s[i..], b)
  {
    if i == 0 {
      assert s[i..] == s;
    } else {
      LVSplit(s[1..], i - 1, b);
      assert s[..i][1..] == s[1..][..i - 1];
      assert s[1..][i - 1..] == s[i..];
      Distrib(s[0], b, LV(s[1..][..i - 1], b), Pow(b, i - 1), LV(s[i..], b));
    }
  }

  /** One lane at index i and everything above. */
  lemma LVAt(s: seq<int>, i: nat, b: nat)
    requires i < |s|
    ensures LV(s, b) == LV(s[..i], b) + Pow(b, i) * (s[i] + b * LV(s[i + 1..], b))
  {
    LVSplit(s, i, b);
    assert s[i..][1..] == s[i + 1..];
  }

  /** Appending a lane on top. */
  lemma LVPrefixStep(s: seq<int>, i: nat, b: nat)
    requires i < |s|
    ensures LV(s[..i + 1], b) == LV(s[..i], b) + s[i] * Pow(b, i)
  {
    var t := s[..i + 1];
    LVSplit(t, i, b);
    assert t[..i] == s[..i];
    assert t[i..] == [s[i]];
  }

  lemma LVUpdate(s: seq<int>, i: nat, v: int, b: nat)
    requires i < |s|
    ensures LV(s[i := v], b) == LV(s, b) + (v - s[i]) * Pow(b, i)
  {
    var t := s[i := v];
    LVAt(s, i, b);
    LVAt(t, i, b);
    assert t[..i] == s[..i];
    assert t[i + 1..] == s[i + 1..];
    ReplaceDigit(LV(s[..i], b), Pow(b, i), s[i], v, b * LV(s[i + 1..], b));
  }

  lemma ReplaceDigit(x: int, p: int, u: int, v: int, h: int)
    ensures x + p * (v + h) == (x + p * (u + h)) + (v - u) * p
  {
  }

  lemma {:induction false} LVZero(s: seq<int>, b: nat)
    requires forall i :: 0 <= i < |s| ==> s[i] == 0
    ensures LV(s, b) == 0
  {
    if |s| > 0 {
      LVZero(s[1..], b);
    }
  }

  /** A zero value has only zero lanes. */
  lemma {:induction false} LVZeroLanes(s: seq<int>, b: nat)
    requires LanesOk(s, b) && b > 0 && LV(s, b) == 0
    ensures forall i :: 0 <= i < |s| ==> s[i] == 0
  {
    if |s| > 0 {
      assert LanesOk(s[1..], b);
      LVBound(s[1..], b);
      MulLe(1, LV(s[1..], b), b);
      LVZeroLanes(s[1..], b);
      assert forall i :: 1 <= i < |s| ==> s[i] == s[1..][i - 1];
    }
  }

  /** Lane sequences of one length are equal exactly when their values are. */
  lemma {:induction false} LVInjective(s: seq<int>, t: seq<int>, b: nat)
    requires LanesOk(s, b) && LanesOk(t, b) && |s| == |t| && LV(s, b) == LV(t, b) && b > 0
    ensures s == t
  {
    if |s| > 0 {
      assert LanesOk(s[1..], b) && LanesOk(t[1..], b);
      DivModUnique(LV(s, b), b, LV(s[1..], b), s[0]);
      DivModUnique(LV(t, b), b, LV(t[1..], b), t[0]);
      LVInjective(s[1..], t[1..], b);
      assert s == [s[0]] + s[1..];
      assert t == [t[0]] + t[1..];
    }
  }

  /** The three-way comparison that CompareInternal reports. */
  function Cmp(x: int, y: int): int
  {
    if x < y then -1 else if x > y then 1 else 0
  }

  /**
   * Scanning from the top lane: equal upper lanes and a smaller lane at i
   * decide the comparison.
   */
  lemma LVCompareAt(s: seq<int>, t: seq<int>, i: nat, b: nat)
    requires LanesOk(s, b) && LanesOk(t, b) && |s| == |t| && i < |s| && b > 0
    requires s[i + 1..] == t[i + 1..] && s[i] < t[i]
    ensures LV(s, b) < LV(t, b)
  {
    LVAt(s, i, b);
    LVAt(t, i, b);
    assert LanesOk(s[..i], b) && LanesOk(t[..i], b);
    LVBound(s[..i], b);
    LVBound(t[..i], b);
    var h := b * LV(s[i + 1..], b);
    PositionalLess(LV(s[..i], b), LV(t[..i], b), Pow(b, i), s[i] + h, t[i] + h);
  }

  lemma PositionalLess(x: int, y: int, p: int, u: int, v: int)
    requires 0 <= x < p && 0 <= y && u < v
    ensures x + p * u < y + p * v
  {
    MulLe(u + 1, v, p);
  }
}

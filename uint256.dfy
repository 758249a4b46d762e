/**
 * MyUInt256: a 256-bit unsigned integer kept in four 64-bit lanes, lane 0
 * least significant. Every operation works in place on the lane array and
 * wraps modulo 2^256; Value() is the number the lanes spell.
 */
module UInt256 {
  import opened Common
  import opened Lanes
  import opened LaneOps
  import opened LaneDivision
  import opened LaneMul
  import opened ExpModSpec

  /** The number four 64-bit lanes spell. */
  function Number(s: seq<int>): nat
    requires LanesOk(s, TWO64)
  {
    LVBound(s, TWO64);
    LV(s, TWO64)
  }

  /** The number eight 32-bit half-lanes spell. */
  function Number32(s: seq<int>): nat
    requires LanesOk(s, TWO32)
  {
    LVBound(s, TWO32);
    LV(s, TWO32)
  }

  // ---------------------------------------------------------------------
  // Lane arithmetic used by the carry and borrow loops
  // ---------------------------------------------------------------------

  /** Adding into a lane wraps; "sum < addend" detects the carry exactly. */
  lemma AddLane(x: int, y: int, b: int)
    requires 0 <= x < b && 0 <= y < b
    ensures 0 <= (x + y) % b < b
    ensures (x + y) % b + (if (x + y) % b < y then 1 else 0) * b == x + y
  {
    if x + y < b {
      ModSmall(x + y, b);
    } else {
      SplitDivMod(x + y, x + y - b, 1, b);
    }
  }

  /** Subtracting from a lane wraps; "difference > ~subtrahend" detects the borrow. */
  lemma SubLaneOne(x: int, y: int, b: int)
    requires 0 <= x < b && 0 <= y < b
    ensures 0 <= (x - y) % b < b
    ensures (x - y) % b - (if (x - y) % b > b - 1 - y then 1 else 0) * b == x - y
  {
    if x >= y {
      ModSmall(x - y, b);
    } else {
      SplitDivMod(x - y, x - y + b, -1, b);
    }
  }

  /** Add(MyUInt256), one lane: add the other lane, then the carry; each wrap carries one. */
  lemma AddPair(x: int, y: int, oc: int, b: int, d1: int, c1: int, d2: int, c2: int)
    requires 1 < b && 0 <= x < b && 0 <= y < b && 0 <= oc <= 1
    requires d1 == (x + y) % b && c1 == (if d1 < y then 1 else 0)
    requires d2 == (d1 + oc) % b && c2 == (if d2 < oc then 1 else 0)
    ensures 0 <= d2 < b && c1 + c2 <= 1 && d2 + (c1 + c2) * b == x + y + oc
  {
    AddLane(x, y, b);
    AddLane(d1, oc, b);
  }

  /** One lane of a chain: v moves to v1 at weight p and the carry c to c1. */
  lemma ChainStep(v: int, v1: int, total: int, x: int, d: int, c: int, c1: int, add: int, p: int, b: int)
    requires v + c * p == total && v1 == v + (d - x) * p && d + c1 * b == x + add
    ensures v1 + c1 * (b * p) == total + (add - c) * p
  {
    assert (d + c1 * b) * p == (x + add) * p;
  }

  /**
   * One lane of a carry or borrow chain over the whole lane sequence: lane i
   * takes the digit d, the incoming carry c at weight 2^(64i) becomes the
   * outgoing carry c1 at weight 2^(64(i+1)), and the running total gains
   * (add - c) * 2^(64i).
   */
  lemma LaneStep(before: seq<int>, after: seq<int>, i: nat, total: int, c: int, c1: int, d: int, add: int)
    requires i < |before| && after == before[i := d]
    requires LV(before, TWO64) + c * Pow(TWO64, i) == total
    requires d + c1 * TWO64 == before[i] + add
    ensures LV(after, TWO64) + c1 * Pow(TWO64, i + 1) == total + (add - c) * Pow(TWO64, i)
  {
    LVUpdate(before, i, d, TWO64);
    ChainStep(LV(before, TWO64), LV(after, TWO64), total, before[i], d, c, c1, add, Pow(TWO64, i), TWO64);
    PowStep(TWO64, i);
  }

  /** LaneStep for Subtract(ulong): lane i absorbs the borrow c and passes on c1. */
  lemma BorrowLaneStep(before: seq<int>, after: seq<int>, i: nat, total: int, c: int, c1: int, d: int)
    requires i < |before| && after == before[i := d]
    requires LV(before, TWO64) - c * Pow(TWO64, i) == total
    requires d - c1 * TWO64 == before[i] - c
    ensures LV(after, TWO64) - c1 * Pow(TWO64, i + 1) == total
  {
    LaneStep(before, after, i, total, -c, -c1, d, -c);
  }

  /** What is left of an exact sum once the carry out of the top lane is dropped. */
  lemma DropCarry(s: seq<int>, total: int, carry: int)
    requires |s| == 4 && LanesOk(s, TWO64)
    requires LV(s, TWO64) + carry * Pow(TWO64, 4) == total
    ensures LV(s, TWO64) == total % TWO256
  {
    LVBound(s, TWO64);
    Lanes256();
    DivModUnique(total, TWO256, carry, LV(s, TWO64));
  }

  /** Four 64-bit lanes make 256 bits. */
  lemma Lanes256()
    ensures Pow(TWO64, 4) == TWO256 && Pow2(64) == TWO64
  {
    ShapeWidth(64, 4);
    Pow2Of64();
  }

  /** A nonzero lane makes the value positive, and at least 2^64 if it is not lane 0. */
  lemma LanePositive(s: seq<int>, i: nat)
    requires LanesOk(s, TWO64) && i < |s| && s[i] > 0
    ensures LV(s, TWO64) > 0 && (i > 0 ==> LV(s, TWO64) >= TWO64)
  {
    LVAt(s, i, TWO64);
    assert LanesOk(s[..i], TWO64) && LanesOk(s[i + 1..], TWO64);
    LVBound(s[..i], TWO64);
    LVBound(s[i + 1..], TWO64);
    PowPositive(TWO64, i);
    if i > 0 {
      PowMonotone(TWO64, 1, i);
    }
    AtLeastWeight(LV(s[..i], TWO64), Pow(TWO64, i), s[i], LV(s[i + 1..], TWO64));
  }

  lemma AtLeastWeight(lo: int, p: int, d: int, hi: int)
    requires lo >= 0 && p >= 1 && d >= 1 && hi >= 0
    ensures lo + p * (d + TWO64 * hi) >= p
  {
    MulLe(1, d + TWO64 * hi, p);
  }

  /** The value of two lanes. */
  lemma TwoLanes(s: seq<int>)
    requires |s| == 2
    ensures LV(s, TWO64) == s[0] + TWO64 * s[1]
  {
    assert s[1..][1..] == [];
    assert LV(s[1..], TWO64) == s[1];
  }

  /** Lanes above the first k are zero: the value is that of the first k. */
  lemma LowLanes(s: seq<int>, k: nat, b: nat)
    requires k <= |s| && forall j :: k <= j < |s| ==> s[j] == 0
    ensures LV(s, b) == LV(s[..k], b)
  {
    ZeroTop(s, s[..k], b);
  }

  /** The top bit of the number (2^255) is the top bit of lane 3 (2^63). */
  lemma TopBit(s: seq<int>)
    requires |s| == 4 && LanesOk(s, TWO64)
    ensures 2 * LV(s, TWO64) >= TWO256 <==> s[3] >= 0x8000_0000_0000_0000
  {
    LVAt(s, 3, TWO64);
    assert s[4..] == [];
    assert LanesOk(s[..3], TWO64);
    LVBound(s[..3], TWO64);
    Lanes256();
    PowStep(TWO64, 3);
    var p := Pow(TWO64, 3);
    assert 2 * (p * 0x8000_0000_0000_0000) == TWO256;
    if s[3] >= 0x8000_0000_0000_0000 {
      TopDigit(LV(s[..3], TWO64), p, s[3], 0x8000_0000_0000_0000, TWO64);
    } else {
      TopDigit(LV(s[..3], TWO64), p, s[3], 0, 0x8000_0000_0000_0000);
    }
  }

  // ---------------------------------------------------------------------
  // The class
  // ---------------------------------------------------------------------

  class MyUInt256 {
    /** _A: the four lanes, lane 0 least significant. */
    const a: array<int>

    ghost predicate Valid()
      reads this, a
    {
      a.Length == 4 && LanesOk(a[..], TWO64)
    }

    /** The number the lanes spell. */
    function Value(): nat
      reads this, a
      requires Valid()
    {
      Number(a[..])
    }

    lemma ValueRange()
      requires Valid()
      ensures 0 <= Value() < TWO256
    {
      LVBound(a[..], TWO64);
      Lanes256();
    }

    /** new MyUInt256(): zero. */
    constructor ()
      ensures Valid() && fresh(a) && Value() == 0
    {
      a := new int[4](_ => 0);
      new;
      LVZero(a[..], TWO64);
    }

    /** new MyUInt256(ulong): the value in lane 0. */
    constructor FromU64(value: int)
      requires 0 <= value < TWO64
      ensures Valid() && fresh(a) && Value() == value
    {
      a := new int[4](_ => 0);
      new;
      a[0] := value;
      LowLanes(a[..], 1, TWO64);
    }

    /** new MyUInt256(low, high): lanes 0 and 1. */
    constructor FromPair(low: int, high: int)
      requires 0 <= low < TWO64 && 0 <= high < TWO64
      ensures Valid() && fresh(a) && Value() == low + TWO64 * high
    {
      a := new int[4](_ => 0);
      new;
      a[0] := low;
      a[1] := high;
      LowLanes(a[..], 2, TWO64);
      TwoLanes(a[..2]);
    }

    /** new MyUInt256(MyUInt256): a copy with its own lanes. */
    constructor Copy(value: MyUInt256)
      requires value.Valid()
      ensures Valid() && fresh(a) && Value() == value.Value()
    {
      a := new int[4](i requires 0 <= i < 4 reads value, value.a => value.a[i]);
      new;
      assert a[..] == value.a[..];
    }

    /** Compare(MyUInt256) through CompareInternal: -1, 0 or 1 as the values order. */
    method Compare(value: MyUInt256) returns (c: int)
      requires Valid() && value.Valid()
      ensures c == Cmp(Value(), value.Value())
    {
      Pow2Of64();
      c := CompareLanes(a, value.a, 64);
    }

    /** Compare(ulong): any nonzero upper lane makes this the larger. */
    method CompareU64(value: int) returns (c: int)
      requires Valid() && 0 <= value < TWO64
      ensures c == Cmp(Value(), value)
    {
      var i := 3;
      while i > 0
        invariant 0 <= i <= 3
        invariant forall j :: i < j < 4 ==> a[j] == 0
      {
        if a[i] != 0 {
          LanePositive(a[..], i);
          return 1;
        }
        i := i - 1;
      }
      LowLanes(a[..], 1, TWO64);
      assert a[..1][1..] == [];
      c := Cmp(a[0], value);
    }

    /** IsZero: every lane is zero. */
    method IsZero() returns (r: bool)
      requires Valid()
      ensures r == (Value() == 0)
    {
      var i := 0;
      while i < 4
        invariant 0 <= i <= 4
        invariant forall j :: 0 <= j < i ==> a[j] == 0
      {
        if a[i] != 0 {
          LanePositive(a[..], i);
          return false;
        }
        i := i + 1;
      }
      LVZero(a[..], TWO64);
      return true;
    }

    /** IsMsbSet: bit 63 of lane 3, which is bit 255 of the number. */
    method IsMsbSet() returns (r: bool)
      requires Valid()
      ensures r == (2 * Value() >= TWO256)
    {
      r := (a[3] / 0x8000_0000_0000_0000) % 2 != 0;
      TopBit(a[..]);
    }

    /** ToUInt64: the low lane, so the value truncated to 64 bits. */
    method ToUInt64() returns (r: int)
      requires Valid()
      ensures r == Value() % TWO64 && 0 <= r < TWO64
    {
      r := a[0];
      assert LanesOk(a[..][1..], TWO64);
      LVBound(a[..][1..], TWO64);
      SplitDivMod(Value(), a[0], LV(a[..][1..], TWO64), TWO64);
    }

    method Zero()
      requires Valid()
      modifies a
      ensures Valid() && Value() == 0
    {
      var i := 0;
      while i < 4
        invariant 0 <= i <= 4
        invariant forall j :: 0 <= j < i ==> a[j] == 0
      {
        a[i] := 0;
        i := i + 1;
      }
      LVZero(a[..], TWO64);
    }

    /** Set(ulong). */
    method SetU64(value: int)
      requires Valid() && 0 <= value < TWO64
      modifies a
      ensures Valid() && Value() == value
    {
      a[0] := value;
      var i := 1;
      while i < 4
        invariant 1 <= i <= 4 && a[0] == value
        invariant forall j :: 1 <= j < i ==> a[j] == 0
        invariant LanesOk(a[..], TWO64)
      {
        a[i] := 0;
        i := i + 1;
      }
      LowLanes(a[..], 1, TWO64);
    }

    /** Set(low, high). */
    method SetPair(low: int, high: int)
      requires Valid() && 0 <= low < TWO64 && 0 <= high < TWO64
      modifies a
      ensures Valid() && Value() == low + TWO64 * high
    {
      a[0] := low;
      a[1] := high;
      var i := 2;
      while i < 4
        invariant 2 <= i <= 4 && a[0] == low && a[1] == high
        invariant forall j :: 2 <= j < i ==> a[j] == 0
        invariant LanesOk(a[..], TWO64)
      {
        a[i] := 0;
        i := i + 1;
      }
      LowLanes(a[..], 2, TWO64);
      TwoLanes(a[..2]);
    }

    /** Set(MyUInt256): copy the lanes of value. */
    method Set(value: MyUInt256)
      requires Valid() && value.Valid()
      modifies a
      ensures Valid() && Value() == old(value.Value())
    {
      ghost var v0 := value.a[..];
      var i := 0;
      while i < 4
        invariant 0 <= i <= 4
        invariant forall j :: 0 <= j < i ==> a[j] == v0[j]
        invariant forall j :: i <= j < 4 ==> value.a[j] == v0[j]
        invariant LanesOk(a[..], TWO64)
      {
        a[i] := value.a[i];
        i := i + 1;
      }
      assert a[..] == v0;
    }

    /** Add(ulong): the carry runs up the lanes until none is left. */
    method AddU64(value: int)
      requires Valid() && 0 <= value < TWO64
      modifies a
      ensures Valid() && Value() == (old(Value()) + value) % TWO256
    {
      ghost var total := Value() + value;
      var v := value;
      var i := 0;
      while i < 4 && v != 0
        invariant 0 <= i <= 4 && 0 <= v < TWO64 && (i > 0 ==> v <= 1)
        invariant LanesOk(a[..], TWO64)
        invariant LV(a[..], TWO64) + v * Pow(TWO64, i) == total
      {
        ghost var before := a[..];
        var oldvalue := v;
        v := 0;
        AddLane(a[i], oldvalue, TWO64);
        a[i] := (a[i] + oldvalue) % TWO64;
        if a[i] < oldvalue {
          v := v + 1;
        }
        LaneStep(before, a[..], i, total, oldvalue, v, a[i], oldvalue);
        i := i + 1;
      }
      DropCarry(a[..], total, v);
    }

    /** Add(MyUInt256): lane-wise add with carry; the carry out of lane 3 is lost. */
    method Add(value: MyUInt256)
      requires Valid() && value.Valid() && value.a != a
      modifies a
      ensures Valid() && value.Valid() && Value() == (old(Value()) + value.Value()) % TWO256
    {
      ghost var x0 := Value();
      ghost var y := value.a[..];
      var carry := 0;
      var i := 0;
      while i < 4
        invariant 0 <= i <= 4 && 0 <= carry <= 1
        invariant LanesOk(a[..], TWO64) && value.a[..] == y
        invariant LV(a[..], TWO64) + carry * Pow(TWO64, i) == x0 + LV(y[..i], TWO64)
      {
        ghost var before := a[..];
        ghost var x := a[i];
        var oldcarry := carry;
        carry := 0;
        a[i] := (a[i] + value.a[i]) % TWO64;
        ghost var d1 := a[i];
        if a[i] < value.a[i] {
          carry := carry + 1;
        }
        ghost var c1 := carry;
        a[i] := (a[i] + oldcarry) % TWO64;
        if a[i] < oldcarry {
          carry := carry + 1;
        }
        AddPair(x, y[i], oldcarry, TWO64, d1, c1, a[i], carry - c1);
        LaneStep(before, a[..], i, x0 + LV(y[..i], TWO64), oldcarry, carry, a[i], y[i] + oldcarry);
        LVPrefixStep(y, i, TWO64);
        i := i + 1;
      }
      assert y[..4] == y;
      DropCarry(a[..], x0 + LV(y, TWO64), carry);
    }

    /** operator +: a new object holding the sum; x and y may be the same object. */
    static method Plus(x: MyUInt256, y: MyUInt256) returns (sum: MyUInt256)
      requires x.Valid() && y.Valid()
      ensures fresh(sum) && fresh(sum.a) && sum.Valid()
      ensures sum.Value() == (x.Value() + y.Value()) % TWO256
    {
      sum := new MyUInt256.Copy(x);
      sum.Add(y);
    }

    /** operator -: a new object holding the difference. */
    static method Minus(x: MyUInt256, y: MyUInt256) returns (diff: MyUInt256)
      requires x.Valid() && y.Valid()
      ensures fresh(diff) && fresh(diff.a) && diff.Valid()
      ensures diff.Value() == (x.Value() - y.Value()) % TWO256
    {
      diff := new MyUInt256.Copy(x);
      diff.Subtract(y);
    }

    /** Subtract(ulong): the borrow runs up the lanes and stops at the first lane that does not wrap. */
    method SubtractU64(value: int)
      requires Valid() && 0 <= value < TWO64
      modifies a
      ensures Valid() && Value() == (old(Value()) - value) % TWO256
    {
      ghost var total := Value() - value;
      var v := value;
      var i := 0;
      while i < 4
        invariant 0 <= i <= 4 && 0 <= v < TWO64
        invariant LanesOk(a[..], TWO64)
        invariant LV(a[..], TWO64) - v * Pow(TWO64, i) == total
      {
        ghost var before := a[..];
        var oldvalue := v;
        v := 0;
        SubLaneOne(a[i], oldvalue, TWO64);
        a[i] := (a[i] - oldvalue) % TWO64;
        BorrowLaneStep(before, a[..], i, total, oldvalue, if a[i] > TWO64 - 1 - oldvalue then 1 else 0, a[i]);
        if a[i] > TWO64 - 1 - oldvalue {
          v := v + 1;
        } else {
          break;
        }
        i := i + 1;
      }
      DropCarry(a[..], total, -v);
    }

    /** Subtract(MyUInt256) through SubtractInternal(ulong[], ulong[]). */
    method Subtract(value: MyUInt256)
      requires Valid() && value.Valid() && value.a != a
      modifies a
      ensures Valid() && value.Valid() && Value() == (old(Value()) - value.Value()) % TWO256
    {
      Lanes256();
      SubtractLanes(a, value.a, 64);
    }

    /** StoreHalfSizeArray: lane i is half-lane 2i | half-lane 2i+1 << 32. */
    method StoreHalfSizeArray(half: array<int>)
      requires Valid() && half.Length == 8 && LanesOk(half[..], TWO32)
      modifies a
      ensures Valid() && Value() == LV(old(half[..]), TWO32)
    {
      ghost var h := half[..];
      var j := 0;
      var i := 0;
      while i < 4
        invariant 0 <= i <= 4 && j == 2 * i && half[..] == h
        invariant forall k :: 0 <= k < i ==> a[k] == h[2 * k] + TWO32 * h[2 * k + 1]
        invariant LanesOk(a[..], TWO64)
      {
        DigitBound(half[j], half[j + 1], TWO32, TWO32);
        // the two words occupy disjoint bits, so | is +
        a[i] := half[j] + half[j + 1] * TWO32;
        j := j + 2;
        i := i + 1;
      }
      assert PairsMatch(h, a[..], TWO32);
      HalvesValue(h, a[..], TWO32);
    }

    /** MultiplyInternal(uint[] b): this times the half-lanes b, modulo 2^256. */
    method MultiplyBy(b: array<int>)
      requires Valid() && b.Length == 8 && LanesOk(b[..], TWO32)
      modifies a
      ensures Valid() && Value() == (old(Value()) * LV(old(b[..]), TWO32)) % TWO256
    {
      Pow2Of64();
      var x := HalfSize(a);
      var product := MultiplyHalves(x, b);
      StoreHalfSizeArray(product);
    }

    /** Multiply(ulong): the multiplier as the two low half-lanes. */
    method MultiplyU64(value: int)
      requires Valid() && 0 <= value < TWO64
      modifies a
      ensures Valid() && Value() == (old(Value()) * value) % TWO256
    {
      var multiplicand := new int[8](_ => 0);
      HalfPair(value);
      multiplicand[0] := value % TWO32;
      multiplicand[1] := value / TWO32;
      TwoHalfLanes(multiplicand[..], value % TWO32, value / TWO32);
      MultiplyBy(multiplicand);
    }

    /** Multiply(MyUInt256); value may be this object itself. */
    method Multiply(value: MyUInt256)
      requires Valid() && value.Valid()
      modifies a
      ensures Valid() && Value() == (old(Value()) * old(value.Value())) % TWO256
    {
      Pow2Of64();
      var b := HalfSize(value.a);
      MultiplyBy(b);
    }

    /** Square: this times itself, modulo 2^256. */
    method Square()
      requires Valid()
      modifies a
      ensures Valid() && Value() == (old(Value()) * old(Value())) % TWO256
    {
      Pow2Of64();
      var value := HalfSize(a);
      var product := MultiplyHalves(value, value);
      StoreHalfSizeArray(product);
    }

    /**
     * ExpModInternal: this raised to the exponent lanes, each product
     * reduced modulo divisor when one is given (null: no reduction).
     */
    method ExpModInternal(exponent: array<int>, divisor: array?<int>)
      requires Valid() && exponent != a && exponent.Length == 4 && LanesOk(exponent[..], TWO64)
      requires divisor != null ==> divisor.Length == 4 && LanesOk(divisor[..], TWO64)
      modifies a
      ensures Valid()
      ensures Value() == ExpModOf(old(Value()), Number(exponent[..]),
                                  if divisor == null then None else Some(old(Number(divisor[..]))))
    {
      ghost var x0 := Value();
      ghost var e0 := Number(exponent[..]);
      ghost var dv: Option<nat> := if divisor == null then None else Some(Number(divisor[..]));
      Pow2Of64();
      Pow2Of32();
      var exponentmsb := MsbLanes(exponent, 64);
      BitsOfMsb(e0, exponentmsb);
      if exponentmsb < 0 {
        SetU64(1);
        return;
      }
      var divhsa: array?<int> := null;
      if divisor != null {
        divhsa := HalfSize(divisor);
      }
      var square := HalfSize(a);
      var power := ExpModLoop(exponent, exponentmsb, square, divhsa, dv);
      StoreHalfSizeArray(power);
    }

    /** Exponentiate(ulong): this to the power exponent, modulo 2^256. */
    method Exponentiate(exponent: int)
      requires Valid() && 0 <= exponent < TWO64
      modifies a
      ensures Valid() && Value() == ExpModOf(old(Value()), exponent, None)
      ensures Value() == Pow(old(Value()), exponent) % TWO256
    {
      ValueRange();
      ExponentiateValue(Value(), exponent);
      var exparray := new int[4](_ => 0);
      exparray[0] := exponent;
      ZeroTop(exparray[..], exparray[..1], TWO64);
      ExpModInternal(exparray, null);
    }

    /**
     * ExpMod(ulong, MyUInt256): this to the power exponent, each product
     * reduced modulo divisor; divisor may be this object itself.
     */
    method ExpMod(exponent: int, divisor: MyUInt256)
      requires Valid() && divisor.Valid() && 0 <= exponent < TWO64
      modifies a
      ensures Valid() && Value() == ExpModOf(old(Value()), exponent, Some(old(divisor.Value())))
      ensures var x, d := old(Value()), old(divisor.Value());
        0 < d <= TWO128 && x < TWO128 ==> Value() == if exponent == 0 then 1 else Pow(x, exponent) % d
    {
      ghost var x := Value();
      ghost var d := divisor.Value();
      if 0 < d <= TWO128 && x < TWO128 {
        ExpModValue(x, exponent, d);
      }
      var exparray := new int[4](_ => 0);
      exparray[0] := exponent;
      ZeroTop(exparray[..], exparray[..1], TWO64);
      ExpModInternal(exparray, divisor.a);
    }

    /** Modulo(ulong): a zero divisor leaves the value. */
    method ModuloU64(divisor: int)
      requires Valid() && 0 <= divisor < TWO64
      modifies a
      ensures Valid() && Value() == if divisor == 0 then old(Value()) else old(Value()) % divisor
    {
      if divisor == 0 {
        return;
      }
      TopLaneReduce(a[..], divisor);
      a[3] := a[3] % divisor;
      var lanes := new int[4](_ => 0);
      lanes[0] := divisor;
      ZeroTop(lanes[..], lanes[..1], TWO64);
      Pow2Of64();
      ModuloLanes(a, lanes, 64);
    }

    /** Modulo(MyUInt256): a zero divisor leaves the value; otherwise a clone divides. */
    method Modulo(divisor: MyUInt256)
      requires Valid() && divisor.Valid()
      modifies a
      ensures Valid() && Value() == if old(divisor.Value()) == 0 then old(Value()) else old(Value()) % old(divisor.Value())
    {
      var i := 0;
      while i < 4
        invariant 0 <= i <= 4 && forall j :: 0 <= j < i ==> divisor.a[j] == 0
      {
        if divisor.a[i] != 0 {
          break;
        }
        i := i + 1;
      }
      if i == 4 {
        LVZero(divisor.a[..], TWO64);
        return;
      }
      var clone := new int[4](j requires 0 <= j < 4 reads divisor, divisor.a => divisor.a[j]);
      assert clone[..] == divisor.a[..];
      Pow2Of64();
      ModuloLanes(a, clone, 64);
    }

    /**
     * Divide(ulong): a zero divisor shifts right by 64 bits, a power of two
     * shifts by its exponent, a divisor below 2^32 takes the short division
     * and any other goes through DivideInternal.
     */
    method DivideU64(divisor: int)
      requires Valid() && 0 <= divisor < TWO64
      modifies a
      ensures Valid() && Value() == if divisor == 0 then old(Value()) / TWO64 else old(Value()) / divisor
    {
      Pow2Of64();
      if divisor == 0 {
        ShiftRightLanes(a, 64, 64);
        return;
      }
      var divisormsb := MsbWord(divisor, 64);
      PowerOfTwoTest(divisor, divisormsb);
      if BitAnd(divisor, divisor - 1) == 0 {
        ShiftRightLanes(a, 64, divisormsb);
        return;
      } else if divisormsb < 32 {
        Pow2Order(divisormsb + 1, 32);
        Pow2Of32();
        ShortDivide(divisor);
        return;
      }
      var lanes := new int[4](_ => 0);
      lanes[0] := divisor;
      ZeroTop(lanes[..], lanes[..1], TWO64);
      DivideLanes(a, lanes);
    }

    /**
     * The branch divisormsb < 32 of Divide(ulong): divide the half-lanes
     * from the top, carrying the remainder shifted up 32 bits.
     */
    method ShortDivide(divisor: int)
      requires Valid() && 0 < divisor < TWO32
      modifies a
      ensures Valid() && Value() == old(Value()) / divisor
    {
      Pow2Of64();
      var half := HalfSize(a);
      DivideHalves(half, divisor);
      StoreHalfSizeArray(half);
    }

    /** Divide(MyUInt256): a zero divisor raises DivideByZeroException. */
    method Divide(divisor: MyUInt256) returns (r: Outcome<()>)
      requires Valid() && divisor.Valid()
      modifies a
      ensures Valid() && (r.Raises? <==> old(divisor.Value()) == 0)
      ensures Value() == if r.Raises? then old(Value()) else old(Value()) / old(divisor.Value())
    {
      var i := 0;
      while i < 4
        invariant 0 <= i <= 4 && forall j :: 0 <= j < i ==> divisor.a[j] == 0
      {
        if divisor.a[i] != 0 {
          break;
        }
        i := i + 1;
      }
      if i == 4 {
        LVZero(divisor.a[..], TWO64);
        return Raises("DivideByZeroException: divisor must be non-zero");
      }
      LanePositive(divisor.a[..], i);
      var clone := new int[4](j requires 0 <= j < 4 reads divisor, divisor.a => divisor.a[j]);
      assert clone[..] == divisor.a[..];
      Pow2Of64();
      DivideLanes(a, clone);
      return Ok(());
    }
  }

  /**
   * The loop of the short division: from the top half-lane down, divide
   * the half-lane joined with the remainder of the lanes above, carrying the
   * new remainder shifted up 32 bits.
   */
  method DivideHalves(half: array<int>, divisor: int)
    requires half.Length == 8 && LanesOk(half[..], TWO32) && 0 < divisor < TWO32
    modifies half
    ensures LanesOk(half[..], TWO32) && LV(half[..], TWO32) == LV(old(half[..]), TWO32) / divisor
  {
    ghost var h0 := half[..];
    ghost var q: seq<int> := [];
    var remainder := 0;
    var i := 7;
    while i >= 0
      invariant -1 <= i <= 7 && |q| == 7 - i && LanesOk(q, TWO32)
      invariant forall j :: 0 <= j <= i ==> half[j] == h0[j]
      invariant forall j :: i < j < 8 ==> half[j] == q[j - i - 1]
      invariant LV(q, TWO32) == LV(h0[i + 1..], TWO32) / divisor
      invariant remainder == (LV(h0[i + 1..], TWO32) % divisor) * TWO32
    {
      // remainder | a[i]: the remainder has no bits below 32
      var qw := remainder + half[i];
      HalfQuotientStep(h0, i, q, divisor, remainder, qw);
      // << 32 cannot wrap: qw % divisor < 2^32
      remainder := (qw % divisor) * TWO32;
      half[i] := qw / divisor;
      q := [half[i]] + q;
      i := i - 1;
    }
    assert i == -1 && |q| == 8;
    assert forall j :: 0 <= j < 8 ==> half[j] == q[j];
    assert half[..] == q;
    assert h0[0..] == h0;
  }

  /** Eight half-lanes holding 1 in the lowest. */
  lemma OneLanes(s: seq<int>)
    requires |s| == 8 && s[0] == 1 && forall j :: 1 <= j < 8 ==> s[j] == 0
    ensures LanesOk(s, TWO32) && LV(s, TWO32) == 1
  {
    ZeroTop(s, s[..1], TWO32);
    assert s[..1][1..] == [];
  }

  /** Bit 64i + bp of the number is bit bp of lane i. */
  lemma LaneBit(s: seq<int>, i: nat, bp: nat)
    requires LanesOk(s, TWO64) && i < |s| && bp < 64
    ensures BitSet(Number(s), 64 * i + bp) <==> (s[i] / Pow2(bp)) % 2 == 1
  {
    LVAt(s, i, TWO64);
    assert LanesOk(s[..i], TWO64) && LanesOk(s[i + 1..], TWO64);
    LVBound(s[..i], TWO64);
    LVBound(s[i + 1..], TWO64);
    var hi := LV(s[i + 1..], TWO64);
    PowPositive(TWO64, i);
    LaneWeight(i, bp);
    DivShift(LV(s, TWO64), LV(s[..i], TWO64), Pow(TWO64, i), s[i] + TWO64 * hi, Pow2(bp));
    ShiftedBit(s[i], hi, bp);
  }

  /** 2^(64i + bp) is the weight of lane i times 2^bp. */
  lemma LaneWeight(i: nat, bp: nat)
    ensures Pow2(64 * i + bp) == Pow(TWO64, i) * Pow2(bp)
  {
    Pow2Of64();
    PowMul(2, 64, i);
    Pow2Add(64 * i, bp);
  }

  /** Dividing lo + p*m by p*r, with lo below p, divides m by r. */
  lemma DivShift(x: int, lo: int, p: int, m: int, r: int)
    requires p > 0 && r > 0 && 0 <= lo < p && m >= 0 && x == lo + p * m
    ensures x / (p * r) == m / r
  {
    SplitDivMod(x, lo, m, p);
    DivDiv(x, p, r);
  }

  /** Bit bp of d + 2^64 * hi is bit bp of d. */
  lemma ShiftedBit(d: nat, hi: nat, bp: nat)
    requires bp < 64
    ensures ((d + TWO64 * hi) / Pow2(bp)) % 2 == (d / Pow2(bp)) % 2
  {
    Pow2Of64();
    Pow2Add(bp + 1, 63 - bp);
    PowStep(2, bp);
    var p, q := Pow2(bp), Pow2(63 - bp);
    assert TWO64 == 2 * p * q;
    var r := q * hi;
    RegroupWord(p, q, hi, d);
    SplitDivMod(d + TWO64 * hi, d % p, d / p + 2 * r, p);
    ModAddMultiple(d / p, r, 2);
  }

  /** d + (2pq)·hi regrouped around p: the low bits d mod p, then p times the rest. */
  lemma RegroupWord(p: nat, q: nat, hi: nat, d: nat)
    requires p > 0
    ensures d + (2 * p * q) * hi == d % p + p * (d / p + 2 * (q * hi))
  {
    assert (2 * p * q) * hi == p * (2 * (q * hi));
    assert p * (d / p + 2 * (q * hi)) == p * (d / p) + p * (2 * (q * hi));
  }

  /** bit <<= 1 on a 64-bit word holding 2^bp. */
  lemma BitShift(bp: nat)
    requires bp < 64
    ensures (Pow2(bp) * 2) % TWO64 == if bp < 63 then Pow2(bp + 1) else 0
  {
    PowStep(2, bp);
    Pow2Of64();
    if bp < 63 {
      Pow2Order(bp + 1, 64);
      ModSmall(Pow2(bp + 1), TWO64);
    }
  }

  /**
   * The loop of ExpModInternal: from bit 0 up to the most significant bit
   * exponentmsb, multiply the square into the power where the exponent bit
   * is set, and square the square between bits. The bit mask bit = 2^bp
   * walks through lane i of the exponent and wraps to the next lane.
   */
  method ExpModLoop(exponent: array<int>, exponentmsb: int, square: array<int>, divhsa: array?<int>,
                    ghost dv: Option<nat>)
    returns (power: array<int>)
    requires exponent.Length == 4 && LanesOk(exponent[..], TWO64)
    requires 0 <= exponentmsb < 256 && Bits(Number(exponent[..])) == exponentmsb + 1
    requires square.Length == 8 && LanesOk(square[..], TWO32)
    requires divhsa == null <==> dv == None
    requires divhsa != null ==> divhsa != square && divhsa.Length == 8
    requires divhsa != null ==> LanesOk(divhsa[..], TWO32) && LV(divhsa[..], TWO32) == dv.value
    modifies if divhsa == null then {} else {divhsa}
    ensures power.Length == 8 && LanesOk(power[..], TWO32)
    ensures Number32(power[..]) == ExpModOf(old(Number32(square[..])), Number(exponent[..]), dv)
  {
    ghost var x0 := Number32(square[..]);
    ghost var e0 := Number(exponent[..]);
    var msb := exponentmsb;
    power := new int[8](_ => 0);
    power[0] := 1;
    OneLanes(power[..]);
    var sq := square;
    var bit := 1;
    var i := 0;
    ghost var bp := 0;
    ghost var k := 0;
    while true
      invariant 0 <= bp < 64 && bit == Pow2(bp) && k == 64 * i + bp
      invariant 0 <= msb && k + msb == exponentmsb
      invariant power.Length == 8 && sq.Length == 8
      invariant LanesOk(power[..], TWO32) && LanesOk(sq[..], TWO32)
      invariant divhsa != null ==> power != divhsa && sq != divhsa
      invariant divhsa != null ==> LanesOk(divhsa[..], TWO32) && LV(divhsa[..], TWO32) == dv.value
      invariant Number32(power[..]) == PowerAt(x0, e0, dv, k)
      invariant Number32(sq[..]) == SquareAt(x0, dv, k)
      decreases msb
    {
      ghost var p0 := Number32(power[..]);
      ghost var s0 := Number32(sq[..]);
      LaneBit(exponent[..], i, bp);
      // (exponent[i] & bit) != 0
      if (exponent[i] / bit) % 2 != 0 {
        power := MultiplyReduce(power, sq, divhsa, dv);
      }
      PowerNext(x0, e0, dv, k, p0, s0, (exponent[i] / bit) % 2 != 0, Number32(power[..]));
      msb := msb - 1;
      if msb < 0 {
        break;
      }
      sq := MultiplyReduce(sq, sq, divhsa, dv);
      SquareNext(x0, dv, k, s0, Number32(sq[..]));
      bit, i, bp := NextExponentBit(bit, i, bp);
      k := k + 1;
    }
  }

  /**
   * The bit mask step of ExpModInternal: bit <<= 1 wraps to 0 past bit 63,
   * and then starts again at bit 0 of the next lane.
   */
  method NextExponentBit(bit: int, i: int, ghost bp: nat) returns (bit': int, i': int, ghost bp': nat)
    requires bp < 64 && bit == Pow2(bp)
    ensures bp' < 64 && bit' == Pow2(bp') && 64 * i' + bp' == 64 * i + bp + 1
  {
    BitShift(bp);
    bit', i', bp' := (bit * 2) % TWO64, i, bp + 1;
    if bit' == 0 {
      bit', i', bp' := 1, i + 1, 0;
    }
  }

  // ---------------------------------------------------------------------
  // Bitwise and, and the power-of-two test of Divide(ulong)
  // ---------------------------------------------------------------------

  /** x & y on naturals, bit by bit from the least significant. */
  function BitAnd(x: nat, y: nat): nat
    decreases x
  {
    if x == 0 || y == 0 then 0
    else 2 * BitAnd(x / 2, y / 2) + (if x % 2 == 1 && y % 2 == 1 then 1 else 0)
  }

  /** d is 1, 2, 4, 8, ... */
  predicate IsPowerOfTwo(d: nat)
    decreases d
  {
    d == 1 || (d > 1 && d % 2 == 0 && IsPowerOfTwo(d / 2))
  }

  lemma {:induction false} BitAndSelf(x: nat)
    ensures BitAnd(x, x) == x
    decreases x
  {
    if x > 0 {
      BitAndSelf(x / 2);
    }
  }

  /** d & (d - 1) clears the lowest set bit: it is zero exactly for powers of two. */
  lemma {:induction false} BitAndPredecessor(d: nat)
    requires d > 0
    ensures BitAnd(d, d - 1) == 0 <==> IsPowerOfTwo(d)
    decreases d
  {
    if d > 1 {
      if d % 2 == 1 {
        BitAndSelf(d / 2);
        assert (d - 1) / 2 == d / 2;
      } else {
        BitAndPredecessor(d / 2);
        assert (d - 1) / 2 == d / 2 - 1;
      }
    }
  }

  /** A power of two is 2 to its most significant bit. */
  lemma {:induction false} PowerOfTwoMsb(d: nat, m: int)
    requires d > 0 && IsMsb(d, m)
    ensures IsPowerOfTwo(d) <==> d == Pow2(m)
    decreases d
  {
    PowStep(2, 0);
    if d == 1 {
      TopUnique(1, 0, m);
    } else {
      PowStep(2, m - 1);
      PowStep(2, m);
      PowerOfTwoMsb(d / 2, m - 1);
    }
  }

  /** The test (divisor & (divisor - 1)) == 0 of Divide(ulong). */
  lemma PowerOfTwoTest(d: nat, m: int)
    requires d > 0 && IsMsb(d, m)
    ensures BitAnd(d, d - 1) == 0 <==> d == Pow2(m)
  {
    BitAndPredecessor(d);
    PowerOfTwoMsb(d, m);
  }

  // ---------------------------------------------------------------------
  // Modulo and short division
  // ---------------------------------------------------------------------

  /** Modulo(ulong) reduces the top lane first: the residue is unchanged. */
  lemma TopLaneReduce(s: seq<int>, d: int)
    requires |s| == 4 && d > 0
    ensures LV(s[3 := s[3] % d], TWO64) % d == LV(s, TWO64) % d
  {
    LVUpdate(s, 3, s[3] % d, TWO64);
    var p := Pow(TWO64, 3);
    var k := -(s[3] / d) * p;
    assert (s[3] % d - s[3]) * p == k * d;
    ModAddMultiple(LV(s, TWO64), k, d);
  }

  /**
   * One half-lane of the short division: the remainder so far, shifted up
   * 32 bits, plus the next half-lane hd gives the next quotient digit and
   * remainder.
   */
  lemma ShortDivStep(hd: int, hrest: int, d: int, qw: int)
    requires 0 < d < TWO32 && 0 <= hd < TWO32 && hrest >= 0
    requires qw == (hrest % d) * TWO32 + hd
    ensures 0 <= qw / d < TWO32 && 0 <= (qw % d) * TWO32 < TWO64
    ensures (hd + TWO32 * hrest) / d == qw / d + TWO32 * (hrest / d)
    ensures (hd + TWO32 * hrest) % d == qw % d
  {
    MulLe(hrest % d, d - 1, TWO32);
    DivBound(qw, d, TWO32);
    MulLe(qw % d, d - 1, TWO32);
    var x := hd + TWO32 * hrest;
    assert x == qw + d * (TWO32 * (hrest / d));
    DivModUnique(x, d, qw / d + TWO32 * (hrest / d), qw % d);
  }

  /** The value of a suffix of half-lanes is its first lane plus the rest shifted. */
  /** One step of the short division: half-lane i joins the quotient of the half-lanes above it. */
  lemma HalfQuotientStep(h: seq<int>, i: nat, q: seq<int>, d: int, remainder: int, qw: int)
    requires i < |h| && LanesOk(h, TWO32) && LanesOk(q, TWO32) && 0 < d < TWO32
    requires LV(q, TWO32) == LV(h[i + 1..], TWO32) / d
    requires remainder == (LV(h[i + 1..], TWO32) % d) * TWO32 && qw == remainder + h[i]
    ensures 0 <= qw / d < TWO32 && 0 <= (qw % d) * TWO32 < TWO64
    ensures LanesOk([qw / d] + q, TWO32) && LV([qw / d] + q, TWO32) == LV(h[i..], TWO32) / d
    ensures (qw % d) * TWO32 == (LV(h[i..], TWO32) % d) * TWO32
  {
    assert LanesOk(h[i + 1..], TWO32);
    LVBound(h[i + 1..], TWO32);
    ShortDivStep(h[i], LV(h[i + 1..], TWO32), d, qw);
    SuffixValue(h, i);
    PrependValue(qw / d, q);
  }

  lemma SuffixValue(h: seq<int>, i: nat)
    requires i < |h|
    ensures LV(h[i..], TWO32) == h[i] + TWO32 * LV(h[i + 1..], TWO32)
  {
    assert h[i..][1..] == h[i + 1..];
  }

  lemma PrependValue(x: int, q: seq<int>)
    ensures LV([x] + q, TWO32) == x + TWO32 * LV(q, TWO32)
  {
    assert ([x] + q)[1..] == q;
  }

  /** One step of the exponent loop, for the power. */
  lemma PowerNext(x: nat, e: nat, dv: Option<nat>, k: nat, p: nat, s: nat, take: bool, p1: nat)
    requires p == PowerAt(x, e, dv, k) && s == SquareAt(x, dv, k) && take == BitSet(e, k)
    requires p1 == if take then Reduce(TruncMul(p, s), dv) else p
    ensures p1 == PowerAt(x, e, dv, k + 1)
  {
  }

  /** One step of the exponent loop, for the square. */
  lemma SquareNext(x: nat, dv: Option<nat>, k: nat, s: nat, s1: nat)
    requires s == SquareAt(x, dv, k) && s1 == Reduce(TruncMul(s, s), dv)
    ensures s1 == SquareAt(x, dv, k + 1)
  {
  }

  /** Bits(e) is one more than the most significant bit of e. */
  lemma BitsOfMsb(e: nat, m: int)
    requires IsMsb(e, m)
    ensures Bits(e) == m + 1
  {
    BitsBound(e);
    if e > 0 {
      TopUnique(e, Bits(e) - 1, m);
    }
  }

  /** A positive number has one most significant bit. */
  lemma TopUnique(e: nat, t: nat, m: nat)
    requires Pow2(t) <= e < Pow2(t + 1) && Pow2(m) <= e < Pow2(m + 1)
    ensures t == m
  {
    Pow2Order(t + 1, m);
    Pow2Order(m + 1, t);
  }

  /** Eight half-lanes holding lo and hi in the lowest two. */
  lemma TwoHalfLanes(s: seq<int>, lo: int, hi: int)
    requires |s| == 8 && s[0] == lo && s[1] == hi && forall j :: 2 <= j < 8 ==> s[j] == 0
    ensures LV(s, TWO32) == lo + TWO32 * hi
  {
    ZeroTop(s, s[..2], TWO32);
    assert s[..2][1..][1..] == [];
    assert LV(s[..2][1..], TWO32) == hi;
  }

  /**
   * MultiplyInternal on half-lanes followed, when a divisor is given, by
   * ModuloInternal: the truncated product reduced by the divisor.
   */
  method MultiplyReduce(x: array<int>, y: array<int>, divhsa: array?<int>, ghost dv: Option<nat>)
    returns (r: array<int>)
    requires x.Length == 8 && y.Length == 8 && LanesOk(x[..], TWO32) && LanesOk(y[..], TWO32)
    requires divhsa == null <==> dv == None
    requires divhsa != null ==> divhsa != x && divhsa != y && divhsa.Length == 8
    requires divhsa != null ==> LanesOk(divhsa[..], TWO32) && LV(divhsa[..], TWO32) == dv.value
    modifies if divhsa == null then {} else {divhsa}
    ensures fresh(r) && r.Length == 8 && LanesOk(r[..], TWO32)
    ensures divhsa != null ==> divhsa[..] == old(divhsa[..])
    ensures LV(r[..], TWO32) == Reduce(TruncMul(Number32(x[..]), Number32(y[..])), dv)
  {
    Pow2Of32();
    r := MultiplyHalves(x, y);
    if divhsa != null {
      ModuloLanes(r, divhsa, 32);
    }
  }
}

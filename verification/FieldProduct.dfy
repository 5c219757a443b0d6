/** The product of the field against schoolbook multiplication: multiply the polynomials over GF(2)
    without carries, in whole numbers, and divide by x^8 + x^4 + x^3 + x^2 + 1. */
module FieldProduct {
  import G = Gf256
  import B = Bch

  /** The polynomial of the QR code's field. */
  const FIELD := 0x11d

  /** The product without carries: a copy of a, shifted, for every bit of b. */
  function CarryLess(a: nat, b: nat): nat
    decreases b
  {
    if b == 0 then 0 else B.Xor(if b % 2 == 1 then a else 0, CarryLess(B.ShiftLeft(a, 1), b / 2))
  }

  // ---- division by the field polynomial ----

  lemma DegreeOfFour(v: nat)
    requires v >= 16
    ensures v / 16 > 0 && B.Degree(v) == B.Degree(v / 16) + 4
  {
    assert B.Degree(v) == 1 + B.Degree(v / 2);
    assert B.Degree(v / 2) == 1 + B.Degree(v / 2 / 2);
    assert B.Degree(v / 2 / 2) == 1 + B.Degree(v / 2 / 2 / 2);
    assert v / 2 / 2 / 2 / 2 == v / 16;
  }

  lemma SmallDegree(v: nat)
    requires 0 < v < 16
    ensures B.Degree(v) < 4 && (v == 1 ==> B.Degree(v) == 0)
  {
    if v >= 2 {
      assert B.Degree(v) == 1 + B.Degree(v / 2);
    }
    if v >= 4 {
      assert B.Degree(v / 2) == 1 + B.Degree(v / 2 / 2);
    }
  }

  /** Below 256 means degree below 8. */
  lemma ByteDegree(v: nat)
    requires v > 0
    ensures B.Degree(v) < 8 <==> v < 256
    ensures 256 <= v < 512 ==> B.Degree(v) == 8
  {
    hide B.Degree;
    if v < 16 {
      SmallDegree(v);
    } else {
      DegreeOfFour(v);
      if v < 256 {
        SmallDegree(v / 16);
      } else {
        DegreeOfFour(v / 16);
        if v < 512 {
          SmallDegree(v / 16 / 16);
        }
      }
    }
  }

  lemma FieldDegree()
    ensures B.Degree(FIELD) == 8
  {
    ByteDegree(FIELD);
  }

  lemma SmallRemainder(v: nat)
    requires v < 256
    ensures B.Remainder(v, FIELD) == v
  {
    FieldDegree();
    if v > 0 {
      ByteDegree(v);
    }
  }

  lemma RemainderSteps(v: nat)
    requires v >= 256
    ensures B.Degree(v) >= 8 == B.Degree(FIELD)
    ensures B.Reduced(v, FIELD) < v && B.Remainder(v, FIELD) == B.Remainder(B.Reduced(v, FIELD), FIELD)
  {
    FieldDegree();
    ByteDegree(v);
    B.ReducedIsSmaller(v, FIELD);
  }

  lemma {:induction false} RemainderIsByte(v: nat)
    ensures B.Remainder(v, FIELD) < 256
    decreases v
  {
    hide B.Remainder, B.Reduced;
    if v < 256 {
      SmallRemainder(v);
    } else {
      RemainderSteps(v);
      RemainderIsByte(B.Reduced(v, FIELD));
    }
  }

  lemma DoubleXor(a: nat, b: nat)
    ensures B.Xor(2 * a, 2 * b) == 2 * B.Xor(a, b)
  {
    hide B.Xor;
    B.XorHalves(2 * a, 2 * b);
  }

  /** The number one factor x further, reduced. */
  function Shifted(r: nat): nat {
    if 2 * r < 256 then 2 * r else B.Xor(2 * r, FIELD)
  }

  lemma {:induction false} RemainderOfDouble(v: nat)
    ensures B.Remainder(2 * v, FIELD) == Shifted(B.Remainder(v, FIELD))
    decreases v
  {
    hide B.Xor, B.Remainder, B.Reduced;
    if v < 128 {
      SmallRemainder(v);
      SmallRemainder(2 * v);
    } else if v < 256 {
      SmallRemainder(v);
      RemainderSteps(2 * v);
      ReducedOnce(2 * v);
    } else {
      RemainderSteps(v);
      RemainderSteps(2 * v);
      ReducedDouble(v);
      RemainderOfDouble(B.Reduced(v, FIELD));
    }
  }

  lemma ReducedOnce(v: nat)
    requires 256 <= v < 512
    ensures B.Degree(v) >= B.Degree(FIELD)
    ensures B.Reduced(v, FIELD) == B.Xor(v, FIELD) < 256
    ensures B.Remainder(B.Reduced(v, FIELD), FIELD) == B.Xor(v, FIELD)
  {
    hide B.Xor, B.Remainder;
    FieldDegree();
    ByteDegree(v);
    B.XorDropsDegree(v, FIELD);
    if B.Xor(v, FIELD) > 0 {
      ByteDegree(B.Xor(v, FIELD));
    }
    SmallRemainder(B.Xor(v, FIELD));
  }

  lemma ReducedDouble(v: nat)
    requires v >= 256
    ensures B.Degree(v) >= B.Degree(FIELD) && B.Degree(2 * v) >= B.Degree(FIELD)
    ensures B.Reduced(2 * v, FIELD) == 2 * B.Reduced(v, FIELD)
  {
    hide B.Xor;
    FieldDegree();
    ByteDegree(v);
    var k := B.Degree(v) - 8;
    assert B.Degree(2 * v) == B.Degree(v) + 1;
    assert B.ShiftLeft(FIELD, k + 1) == 2 * B.ShiftLeft(FIELD, k);
    DoubleXor(v, B.ShiftLeft(FIELD, k));
  }

  // ---- division is linear ----

  /** Adding a number of lower degree keeps the leading term. */
  lemma {:induction false} XorKeepsDegree(a: nat, b: nat)
    requires a > 0 && (b > 0 ==> B.Degree(b) < B.Degree(a))
    ensures B.Xor(a, b) > 0 && B.Degree(B.Xor(a, b)) == B.Degree(a)
    decreases a
  {
    hide B.Xor;
    B.XorHalves(a, b);
    B.XorZero(a);
    if b > 0 {
      XorKeepsDegree(a / 2, b / 2);
    }
  }

  lemma XorSwap(u: nat, v: nat, s: nat)
    ensures B.Xor(B.Xor(u, v), s) == B.Xor(B.Xor(u, s), v)
  {
    hide B.Xor;
    B.XorLaws(u, v, s);
    B.XorLaws(v, s, 0);
    B.XorLaws(u, s, v);
  }

  lemma HigherReduces(u: nat, v: nat)
    requires u >= 256 && (v > 0 ==> B.Degree(v) < B.Degree(u))
    ensures B.Degree(u) >= B.Degree(FIELD) && B.Xor(u, v) >= 256 && B.Degree(B.Xor(u, v)) >= B.Degree(FIELD)
    ensures B.Reduced(B.Xor(u, v), FIELD) == B.Xor(B.Reduced(u, FIELD), v)
  {
    hide B.Xor, B.ShiftLeft, B.Degree, B.Remainder;
    FieldDegree();
    ByteDegree(u);
    XorKeepsDegree(u, v);
    ByteDegree(B.Xor(u, v));
    XorSwap(u, v, B.ShiftLeft(FIELD, B.Degree(u) - 8));
  }

  lemma EqualReduce(u: nat, v: nat)
    requires u >= 256 && v >= 256 && B.Degree(u) == B.Degree(v)
    ensures B.Degree(u) >= B.Degree(FIELD) && B.Degree(v) >= B.Degree(FIELD)
    ensures B.Xor(u, v) == B.Xor(B.Reduced(u, FIELD), B.Reduced(v, FIELD))
  {
    hide B.Xor, B.ShiftLeft, B.Degree;
    RemainderSteps(u);
    RemainderSteps(v);
    var s := B.ShiftLeft(FIELD, B.Degree(u) - 8);
    B.XorLaws(u, s, B.Xor(v, s));
    B.XorLaws(v, s, s);
    B.XorLaws(s, B.Xor(v, s), 0);
    B.XorLaws(s, s, v);
  }

  lemma {:induction false} RemainderOfSum(u: nat, v: nat)
    ensures B.Remainder(B.Xor(u, v), FIELD) == B.Xor(B.Remainder(u, FIELD), B.Remainder(v, FIELD))
    decreases u + v
  {
    hide B.Xor, B.Remainder, B.Reduced, B.Degree;
    if u < 256 && v < 256 {
      B.XorBelow(u, v, 8);
      SmallRemainder(u);
      SmallRemainder(v);
      SmallRemainder(B.Xor(u, v));
    } else if v < 256 || (u >= 256 && B.Degree(v) < B.Degree(u)) {
      Dominates(u, v);
      HigherReduces(u, v);
      RemainderSteps(u);
      RemainderSteps(B.Xor(u, v));
      RemainderOfSum(B.Reduced(u, FIELD), v);
    } else if u < 256 || B.Degree(u) < B.Degree(v) {
      B.XorLaws(u, v, 0);
      Dominates(v, u);
      HigherReduces(v, u);
      RemainderSteps(v);
      RemainderSteps(B.Xor(v, u));
      RemainderOfSum(B.Reduced(v, FIELD), u);
      B.XorLaws(B.Remainder(u, FIELD), B.Remainder(v, FIELD), 0);
    } else {
      EqualReduce(u, v);
      RemainderSteps(u);
      RemainderSteps(v);
      RemainderOfSum(B.Reduced(u, FIELD), B.Reduced(v, FIELD));
    }
  }

  lemma Dominates(u: nat, v: nat)
    requires u >= 256 && (v < 256 || B.Degree(v) < B.Degree(u))
    ensures v > 0 ==> B.Degree(v) < B.Degree(u)
  {
    ByteDegree(u);
    if v > 0 {
      ByteDegree(v);
    }
  }

  // ---- bytes as bit vectors and as numbers ----

  function Number(u: bv8): nat {
    u as nat
  }

  function Low(u: bv8): bv8 {
    u & 1
  }

  lemma NumberParts(u: bv8)
    ensures Number(u) < 256 && Number(G.Half(u)) == Number(u) / 2 && Number(Low(u)) == Number(u) % 2
    ensures Number(0) == 0 && Number(1) == 1
  {
  }

  lemma SameNumber(u: bv8, v: bv8)
    ensures u == v <==> Number(u) == Number(v)
  {
  }

  lemma AddHalves(u: bv8, v: bv8)
    ensures G.Half(G.Add(u, v)) == G.Add(G.Half(u), G.Half(v))
    ensures Low(G.Add(u, v)) == (if Low(u) == Low(v) then 0 else 1)
  {
  }

  lemma Parity(u: bv8, v: bv8)
    ensures Number(G.Add(u, v)) % 2 == (Number(u) + Number(v)) % 2
  {
    hide G.Add, Low, Number;
    NumberParts(u);
    NumberParts(v);
    NumberParts(G.Add(u, v));
    AddHalves(u, v);
    SameNumber(Low(u), Low(v));
  }

  lemma {:induction false} AddIsXor(u: bv8, v: bv8)
    ensures Number(G.Add(u, v)) == B.Xor(Number(u), Number(v))
    decreases Number(u) + Number(v)
  {
    hide B.Xor, G.Half, G.Add, Low, Number;
    SameNumber(u, 0);
    SameNumber(v, 0);
    NumberParts(u);
    NumberParts(v);
    if u == 0 || v == 0 {
      B.XorZero(Number(u));
      B.XorZero(Number(v));
      G.AddLaws(u, v, 0);
      G.AddLaws(v, u, 0);
    } else {
      NumberParts(G.Add(u, v));
      AddHalves(u, v);
      Parity(u, v);
      AddIsXor(G.Half(u), G.Half(v));
      B.XorHalves(Number(u), Number(v));
    }
  }

  // ---- the two products agree ----

  lemma DoubleIsShifted(v: bv8)
    ensures Number(G.Double(v)) == Shifted(Number(v))
  {
    hide B.Xor, G.Add, Number, G.Double, B.ShiftLeft;
    if v < 128 {
      DoubleSmall(v);
    } else {
      var low := DoubleLarge(v);
      NumberParts(low);
      AddIsXor(low, 0x1d);
      EightShifts();
      B.XorSplits(1, Number(low), 1, 0x1d, 8);
      B.XorZero(1);
    }
  }

  lemma EightShifts()
    ensures B.ShiftLeft(1, 8) == 256 && B.ShiftLeft(0, 8) == 0
  {
    B.ShiftByFour(1, 0);
    B.ShiftByFour(1, 4);
    B.ShiftByFour(0, 0);
    B.ShiftByFour(0, 4);
  }

  lemma DoubleSmall(v: bv8)
    requires v < 128
    ensures Number(G.Double(v)) == 2 * Number(v) < 256
  {
  }

  lemma DoubleLarge(v: bv8) returns (low: bv8)
    requires v >= 128
    ensures G.Double(v) == G.Add(low, 0x1d) && 256 + Number(low) == 2 * Number(v)
    ensures Number(0x1d) == 0x1d
  {
    low := (v - 128) << 1;
  }

  lemma PickIs(b: bv8, v: bv8)
    ensures G.Pick(b, v) == if Low(b) == 1 then v else 0
    ensures Low(b) == 0 || Low(b) == 1
  {
  }

  /** Bit by bit: the first n bits of b, and a already reduced to r. */
  lemma {:induction false} ProductBits(a: nat, r: bv8, b: bv8, n: nat)
    requires Number(b) < B.ShiftLeft(1, n) && Number(r) == B.Remainder(a, FIELD)
    ensures B.Remainder(CarryLess(a, Number(b)), FIELD) == Number(G.TimesBits(r, b, n))
    decreases n
  {
    hide B.Remainder, B.Xor, G.Add, G.Double, G.Pick, G.Half, Shifted, Number, Low, CarryLess;
    SmallRemainder(0);
    NumberParts(b);
    if n == 0 {
      NothingTimes(a);
    } else {
      SameNumber(Low(b), 1);
      PickIs(b, r);
      RemainderOfDouble(a);
      DoubleIsShifted(r);
      ProductBits(2 * a, G.Double(r), G.Half(b), n - 1);
      Unfolds(a, Number(b));
      RemainderOfSum(if Number(b) % 2 == 1 then a else 0, CarryLess(2 * a, Number(b) / 2));
      AddIsXor(G.Pick(b, r), G.TimesBits(G.Double(r), G.Half(b), n - 1));
    }
  }

  lemma NothingTimes(a: nat)
    ensures CarryLess(a, 0) == 0
  {
  }

  lemma Unfolds(a: nat, b: nat)
    ensures CarryLess(a, b) == B.Xor(if b % 2 == 1 then a else 0, CarryLess(2 * a, b / 2))
  {
    hide B.Xor;
    B.XorZero(0);
    assert B.ShiftLeft(a, 1) == 2 * a;
    if b == 0 {
      NothingTimes(2 * a);
    }
  }

  /** The product of two bytes is the remainder of their product without carries by 0x11d. */
  lemma TimesIsProduct(a: bv8, b: bv8)
    ensures G.Times(a, b) as nat == B.Remainder(CarryLess(a as nat, b as nat), 0x11d)
  {
    hide B.Remainder, CarryLess, B.ShiftLeft, G.TimesBits;
    EightShifts();
    SmallRemainder(a as nat);
    ProductBits(a as nat, a, b, 8);
  }

  /** The i-th entry of the power table is the remainder of x^i. */
  lemma {:induction false} AlphaIsPower(i: nat)
    ensures G.Alpha(i) as nat == B.Remainder(B.ShiftLeft(1, i), 0x11d)
    decreases i
  {
    hide B.Remainder, G.Double;
    if i == 0 {
      SmallRemainder(1);
    } else {
      AlphaIsPower(i - 1);
      RemainderOfDouble(B.ShiftLeft(1, i - 1));
      DoubleIsShifted(G.Alpha(i - 1));
    }
  }
}

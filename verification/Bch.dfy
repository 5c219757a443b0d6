/** The check bits of the format and version words: division of polynomials over GF(2) held
    in whole numbers. */
module Bch {

  /** Bitwise exclusive or. */
  function Xor(a: nat, b: nat): nat
    decreases a + b
  {
    if a == 0 then b else if b == 0 then a
    else 2 * Xor(a / 2, b / 2) + (a + b) % 2
  }

  /** Bitwise or. */
  function Or(a: nat, b: nat): nat
    decreases a + b
  {
    if a == 0 then b else if b == 0 then a
    else 2 * Or(a / 2, b / 2) + (if a % 2 == 1 || b % 2 == 1 then 1 else 0)
  }

  function ShiftLeft(p: nat, k: nat): nat {
    if k == 0 then p else 2 * ShiftLeft(p, k - 1)
  }

  /** The whole part of the binary logarithm. */
  function Degree(v: nat): nat
    requires v > 0
  {
    if v == 1 then 0 else 1 + Degree(v / 2)
  }

  /** The sum of the shifted copies of p: p times the polynomial with these exponents. */
  function Multiple(p: nat, exponents: seq<nat>): nat {
    if exponents == [] then 0
    else Xor(Multiple(p, exponents[..|exponents| - 1]), ShiftLeft(p, exponents[|exponents| - 1]))
  }

  lemma {:induction false} XorHalves(a: nat, b: nat)
    ensures Xor(a, b) / 2 == Xor(a / 2, b / 2) && Xor(a, b) % 2 == (a + b) % 2
    ensures Xor(a, b) == 2 * Xor(a / 2, b / 2) + (a + b) % 2
  {
  }

  lemma {:induction false} XorCommutes(a: nat, b: nat)
    ensures Xor(a, a) == 0 && Xor(a, b) == Xor(b, a)
    decreases a + b
  {
    if a + b > 0 {
      XorCommutes(a / 2, b / 2);
    }
  }

  lemma {:induction false} XorAssociates(a: nat, b: nat, c: nat)
    ensures Xor(Xor(a, b), c) == Xor(a, Xor(b, c))
    decreases a + b + c
  {
    hide Xor;
    XorHalves(a, b);
    XorHalves(b, c);
    XorHalves(Xor(a, b), c);
    XorHalves(a, Xor(b, c));
    if a + b + c > 0 {
      XorAssociates(a / 2, b / 2, c / 2);
      ParityAssociates(a, b, c, Xor(a, b), Xor(b, c));
    }
  }

  lemma ParityAssociates(a: nat, b: nat, c: nat, ab: nat, bc: nat)
    requires ab % 2 == (a + b) % 2 && bc % 2 == (b + c) % 2
    ensures (ab + c) % 2 == (a + bc) % 2
  {
  }

  lemma XorLaws(a: nat, b: nat, c: nat)
    ensures Xor(a, a) == 0 && Xor(a, b) == Xor(b, a) && Xor(a, 0) == a == Xor(0, a)
    ensures Xor(Xor(a, b), c) == Xor(a, Xor(b, c))
  {
    XorCommutes(a, b);
    XorAssociates(a, b, c);
  }

  lemma {:induction false} DegreeOfShift(p: nat, k: nat)
    requires p > 0
    ensures ShiftLeft(p, k) > 0 && Degree(ShiftLeft(p, k)) == Degree(p) + k
    decreases k
  {
    if k > 0 {
      DegreeOfShift(p, k - 1);
    }
  }

  /** Adding two polynomials of the same degree cancels the leading term. */
  lemma {:induction false} XorDropsDegree(a: nat, b: nat)
    requires a > 0 && b > 0 && Degree(a) == Degree(b)
    ensures Xor(a, b) < a
    ensures Xor(a, b) > 0 ==> Degree(Xor(a, b)) < Degree(a)
    decreases a
  {
    XorHalves(a, b);
    if a > 1 && b > 1 {
      XorDropsDegree(a / 2, b / 2);
    }
  }

  /** The loop replaces the value by this one. */
  function Reduced(value: nat, polynomial: nat): nat
    requires value > 0 && polynomial > 0 && Degree(value) >= Degree(polynomial)
  {
    Xor(value, ShiftLeft(polynomial, Degree(value) - Degree(polynomial)))
  }

  lemma ReducedIsSmaller(value: nat, polynomial: nat)
    requires value > 0 && polynomial > 0 && Degree(value) >= Degree(polynomial)
    ensures Reduced(value, polynomial) < value
  {
    hide Xor, ShiftLeft, Degree;
    DegreeOfShift(polynomial, Degree(value) - Degree(polynomial));
    XorDropsDegree(value, ShiftLeft(polynomial, Degree(value) - Degree(polynomial)));
  }

  function Remainder(value: nat, polynomial: nat): nat
    requires polynomial > 0
    decreases value
  {
    if value == 0 || Degree(value) < Degree(polynomial) then value
    else
      ReducedIsSmaller(value, polynomial);
      Remainder(Reduced(value, polynomial), polynomial)
  }

  /** The encoder's loop.  On machine integers below 2^31 no shift overflows: the shifted
      polynomial has the degree of the current value. */
  method Bch(data: nat, polynomial: nat) returns (value: nat)
    requires polynomial > 0
    ensures value == Remainder(data, polynomial)
  {
    value := data;
    var degree := Degree(polynomial);
    while value > 0 && Degree(value) >= degree
      invariant Remainder(value, polynomial) == Remainder(data, polynomial)
      decreases value
    {
      ReducedIsSmaller(value, polynomial);
      value := Xor(value, ShiftLeft(polynomial, Degree(value) - degree));
    }
  }

  /** The result is below the polynomial in degree and differs from the data by a multiple of
      the polynomial over GF(2). */
  lemma {:induction false} RemainderIsCongruent(data: nat, polynomial: nat) returns (exponents: seq<nat>)
    requires polynomial > 0
    ensures var r := Remainder(data, polynomial);
            && (r == 0 || Degree(r) < Degree(polynomial))
            && data == Xor(Multiple(polynomial, exponents), r)
            && Xor(data, r) == Multiple(polynomial, exponents)
    decreases data
  {
    hide Xor, ShiftLeft, Degree;
    var r := Remainder(data, polynomial);
    if data == 0 || Degree(data) < Degree(polynomial) {
      exponents := [];
      XorZero(data);
      XorLaws(data, data, data);
    } else {
      ReducedIsSmaller(data, polynomial);
      var k := Degree(data) - Degree(polynomial);
      var shifted := ShiftLeft(polynomial, k);
      var rest := RemainderIsCongruent(Reduced(data, polynomial), polynomial);
      exponents := rest + [k];
      assert exponents[..|rest|] == rest;
      var m := Multiple(polynomial, rest);
      // data = (data + shifted) + shifted = (m + r) + shifted = (m + shifted) + r
      XorLaws(data, shifted, shifted);
      XorLaws(shifted, shifted, 0);
      XorLaws(m, r, shifted);
      XorLaws(r, shifted, 0);
      XorLaws(m, shifted, r);
      XorLaws(Xor(m, shifted), r, r);
      XorLaws(r, r, 0);
    }
  }

  lemma XorZero(a: nat)
    ensures Xor(0, a) == a == Xor(a, 0) && Xor(a, a) == 0
  {
    XorCommutes(a, a);
  }

  lemma {:induction false} DegreeBound(r: nat, p: nat)
    requires r > 0 && p > 0 && Degree(r) < Degree(p)
    ensures r < p
    decreases r
  {
    if r > 1 {
      DegreeBound(r / 2, p / 2);
    }
  }

  lemma {:induction false} OrOfShifted(high: nat, k: nat, low: nat)
    requires low < ShiftLeft(1, k)
    ensures Or(ShiftLeft(high, k), low) == Xor(ShiftLeft(high, k), low) == ShiftLeft(high, k) + low
    decreases k
  {
    if k == 0 {
      OrXorZero(high);
    } else {
      OrOfShifted(high, k - 1, low / 2);
      var wide, half := ShiftLeft(high, k), ShiftLeft(high, k - 1);
      assert wide == 2 * half && ShiftLeft(1, k) == 2 * ShiftLeft(1, k - 1);
      OrXorHalves(half, low);
    }
  }

  lemma OrXorHalves(half: nat, low: nat)
    requires Or(half, low / 2) == Xor(half, low / 2) == half + low / 2
    ensures Or(2 * half, low) == Xor(2 * half, low) == 2 * half + low
  {
    hide Or, Xor;
    assert 2 * half / 2 == half && 2 * half % 2 == 0;
    OrHalves(2 * half, low);
    XorHalves(2 * half, low);
  }

  // ---- version information ----

  function VersionWord(version: nat): nat {
    Or(ShiftLeft(version, 12), Remainder(ShiftLeft(version, 12), 0x1f25))
  }

  lemma {:induction false} RemainderBelow(value: nat, polynomial: nat, k: nat)
    requires polynomial > 0 && Degree(polynomial) == k
    ensures Remainder(value, polynomial) < ShiftLeft(1, k)
  {
    hide Remainder;
    var exponents := RemainderIsCongruent(value, polynomial);
    var r := Remainder(value, polynomial);
    DegreeOfShift(1, k);
    if r > 0 {
      DegreeBound(r, ShiftLeft(1, k));
    }
  }

  lemma ShiftByFour(v: nat, k: nat)
    ensures ShiftLeft(v, k + 4) == 16 * ShiftLeft(v, k)
  {
    assert ShiftLeft(v, k + 2) == 4 * ShiftLeft(v, k);
  }

  lemma ShiftsAreProducts(v: nat)
    ensures ShiftLeft(v, 12) == 0x1000 * v && ShiftLeft(v, 10) == 0x400 * v
  {
    ShiftByFour(v, 0);
    ShiftByFour(v, 2);
    ShiftByFour(v, 4);
    ShiftByFour(v, 6);
    ShiftByFour(v, 8);
  }

  /** The version word is a multiple of its generator and carries the version on top. */
  lemma VersionWordIsMultiple(version: nat) returns (exponents: seq<nat>)
    ensures VersionWord(version) == Multiple(0x1f25, exponents)
    ensures VersionWord(version) / 0x1000 == version
  {
    hide Remainder, ShiftLeft, Or, Xor, Multiple;
    var data := ShiftLeft(version, 12);
    var r := Remainder(data, 0x1f25);
    exponents := RemainderIsCongruent(data, 0x1f25);
    assert Degree(0x1f25) == 12;
    RemainderBelow(data, 0x1f25, 12);
    OrOfShifted(version, 12, r);
    ShiftsAreProducts(version);
    ShiftsAreProducts(1);
  }

  // ---- format information ----

  /** As written: exclusive or binds tighter than or, so 0x5412 meets the check bits only. */
  function FormatWord(mask: nat): nat {
    var data := ShiftLeft(8 + mask, 10);
    Or(data, Xor(Remainder(data, 0x537), 0x5412))
  }

  /** What the standard asks for (section 7.9): the whole word is masked. */
  function StandardFormatWord(mask: nat): nat {
    var data := ShiftLeft(8 + mask, 10);
    Xor(Or(data, Remainder(data, 0x537)), 0x5412)
  }

  /** Without the mask 0x5412 the standard's word is a multiple of its generator 0x537 and carries level
      L, which is 01, and the mask on top. */
  lemma FormatWordIsMultiple(mask: nat) returns (exponents: seq<nat>)
    ensures Xor(StandardFormatWord(mask), 0x5412) == Multiple(0x537, exponents)
    ensures Xor(StandardFormatWord(mask), 0x5412) / 0x400 == 0x8 + mask
  {
    hide Remainder, ShiftLeft, Or, Xor, Multiple;
    var data := ShiftLeft(8 + mask, 10);
    var r := Remainder(data, 0x537);
    exponents := RemainderIsCongruent(data, 0x537);
    assert Degree(0x537) == 10;
    RemainderBelow(data, 0x537, 10);
    OrOfShifted(8 + mask, 10, r);
    ShiftsAreProducts(8 + mask);
    ShiftsAreProducts(1);
    var word := Or(data, r);
    XorLaws(word, 0x5412, 0x5412);
    XorLaws(0x5412, 0, 0);
    XorLaws(word, 0, 0);
  }

  lemma OrHalves(a: nat, b: nat)
    ensures Or(a, b) == 2 * Or(a / 2, b / 2) + (if a % 2 == 1 || b % 2 == 1 then 1 else 0)
  {
  }

  lemma HalfOfShift(h: nat, l: nat, k: nat)
    requires k > 0 && l < ShiftLeft(1, k)
    ensures (ShiftLeft(h, k) + l) / 2 == ShiftLeft(h, k - 1) + l / 2 && (ShiftLeft(h, k) + l) % 2 == l % 2
    ensures l / 2 < ShiftLeft(1, k - 1) && ShiftLeft(h, k) == 2 * ShiftLeft(h, k - 1)
  {
  }

  /** Exclusive or works on the two halves of a number separately. */
  lemma {:induction false} XorSplits(h: nat, l: nat, h': nat, l': nat, k: nat)
    requires l < ShiftLeft(1, k) && l' < ShiftLeft(1, k)
    ensures Xor(ShiftLeft(h, k) + l, ShiftLeft(h', k) + l') == ShiftLeft(Xor(h, h'), k) + Xor(l, l')
    decreases k
  {
    hide Xor;
    if k == 0 {
      XorHalves(0, 0);
    } else {
      hide ShiftLeft;
      HalfOfShift(h, l, k);
      HalfOfShift(h', l', k);
      HalfOfShift(Xor(h, h'), l, k);
      XorHalves(ShiftLeft(h, k) + l, ShiftLeft(h', k) + l');
      XorHalves(l, l');
      XorSplits(h, l / 2, h', l' / 2, k - 1);
      SameParity(ShiftLeft(h, k) + l, l, ShiftLeft(h', k) + l', l');
    }
  }

  lemma SameParity(a: nat, l: nat, b: nat, l': nat)
    requires a % 2 == l % 2 && b % 2 == l' % 2
    ensures (a + b) % 2 == (l + l') % 2
  {
  }

  lemma {:induction false} OrSplits(h: nat, l: nat, h': nat, l': nat, k: nat)
    requires l < ShiftLeft(1, k) && l' < ShiftLeft(1, k)
    ensures Or(ShiftLeft(h, k) + l, ShiftLeft(h', k) + l') == ShiftLeft(Or(h, h'), k) + Or(l, l')
    decreases k
  {
    hide Or;
    if k == 0 {
      OrHalves(0, 0);
    } else {
      hide ShiftLeft;
      HalfOfShift(h, l, k);
      HalfOfShift(h', l', k);
      HalfOfShift(Or(h, h'), l, k);
      OrHalves(ShiftLeft(h, k) + l, ShiftLeft(h', k) + l');
      OrHalves(l, l');
      OrSplits(h, l / 2, h', l' / 2, k - 1);
    }
  }

  /** No bit is set in both numbers. */
  predicate Apart(a: nat, b: nat) {
    a == 0 || b == 0 || ((a % 2 == 0 || b % 2 == 0) && Apart(a / 2, b / 2))
  }

  lemma {:induction false} OrIsXorWhenApart(a: nat, b: nat)
    ensures Or(a, b) >= Xor(a, b)
    ensures Or(a, b) == Xor(a, b) <==> Apart(a, b)
    decreases a + b
  {
    hide Or, Xor;
    if a == 0 {
      OrXorZero(b);
    } else if b == 0 {
      OrXorZero(a);
    } else {
      OrIsXorWhenApart(a / 2, b / 2);
      OrHalves(a, b);
      XorHalves(a, b);
      var o, x := Or(a / 2, b / 2), Xor(a / 2, b / 2);
      assert (a % 2 == 0 || b % 2 == 0) <==> (if a % 2 == 1 || b % 2 == 1 then 1 else 0) == (a + b) % 2;
      assert Apart(a, b) <==> (a % 2 == 0 || b % 2 == 0) && o == x;
    }
  }

  lemma OrXorZero(a: nat)
    ensures Or(a, 0) == a == Or(0, a) && Xor(a, 0) == a == Xor(0, a)
  {
  }

  /** Masking the check bits only: the data bits are or-ed with the top of 0x5412. */
  lemma MaskedThenJoined(d: nat, r: nat)
    requires r < ShiftLeft(1, 10)
    ensures Or(ShiftLeft(d, 10), Xor(r, 0x5412)) == 0x400 * Or(d, 21) + Xor(r, 0x12)
  {
    hide ShiftLeft, Or, Xor;
    var low := Xor(r, 0x12);
    ShiftsAreProducts(0);
    ShiftsAreProducts(1);
    ShiftsAreProducts(21);
    OrXorZero(21);
    OrXorZero(low);
    XorSplits(0, r, 21, 0x12, 10);
    XorBelow(r, 0x12, 10);
    OrSplits(d, 0, 21, low, 10);
    ShiftsAreProducts(Or(d, 21));
  }

  /** Masking the whole word. */
  lemma JoinedThenMasked(d: nat, r: nat)
    requires r < ShiftLeft(1, 10)
    ensures Xor(Or(ShiftLeft(d, 10), r), 0x5412) == 0x400 * Xor(d, 21) + Xor(r, 0x12)
  {
    hide ShiftLeft, Or, Xor;
    ShiftsAreProducts(0);
    ShiftsAreProducts(1);
    ShiftsAreProducts(21);
    OrXorZero(r);
    OrXorZero(d);
    OrSplits(d, 0, 0, r, 10);
    XorSplits(d, r, 21, 0x12, 10);
    ShiftsAreProducts(Xor(d, 21));
  }

  lemma {:induction false} XorBelow(a: nat, b: nat, k: nat)
    requires a < ShiftLeft(1, k) && b < ShiftLeft(1, k)
    ensures Xor(a, b) < ShiftLeft(1, k)
    decreases k
  {
    hide Xor;
    XorHalves(a, b);
    if k > 0 {
      XorBelow(a / 2, b / 2, k - 1);
    }
  }

  /** The two agree for the masks whose data bits miss the bits of 0x5412, and for no other. */
  lemma FormatWordCorrectWhen(mask: nat)
    requires mask < 8
    ensures FormatWord(mask) == StandardFormatWord(mask) <==> mask == 0 || mask == 2
  {
    hide Remainder, ShiftLeft, Or, Xor;
    var r := Remainder(ShiftLeft(8 + mask, 10), 0x537);
    assert Degree(0x537) == 10;
    RemainderBelow(ShiftLeft(8 + mask, 10), 0x537, 10);
    MaskedThenJoined(8 + mask, r);
    JoinedThenMasked(8 + mask, r);
    OrIsXorWhenApart(8 + mask, 21);
    assert Apart(8, 21) && Apart(10, 21) && !Apart(9, 21) && !Apart(11, 21);
    assert !Apart(12, 21) && !Apart(13, 21) && !Apart(14, 21) && !Apart(15, 21);
  }
}

/** The field GF(2^8) of the QR encoder: bytes, the reduction polynomial 0x11d and the
    logarithm tables the encoder multiplies with. */
module Gf256 {

  /** Field addition. */
  function Add(u: bv8, v: bv8): bv8 {
    u ^ v
  }

  /** Multiplication by x modulo x^8 + x^4 + x^3 + x^2 + 1, written without a branch. */
  function Double(v: bv8): bv8 {
    var carry := v >> 7;
    (v << 1) ^ (carry << 4) ^ (carry << 3) ^ (carry << 2) ^ carry
  }

  function Pick(bits: bv8, v: bv8): bv8 {
    v & (0 - (bits & 1))
  }

  function Half(b: bv8): bv8 {
    b >> 1
  }

  /** The reference product: the carry-less product of two polynomials over GF(2), reduced
      by 0x11d one factor x at a time.  No table is involved. */
  function TimesBits(a: bv8, b: bv8, n: nat): bv8
    decreases n
  {
    if n == 0 then 0 else Add(Pick(b, a), TimesBits(Double(a), Half(b), n - 1))
  }

  function Times(a: bv8, b: bv8): bv8 {
    TimesBits(a, b, 8)
  }

  /** The i-th power of the element x. */
  function Alpha(i: nat): bv8 {
    if i == 0 then 1 else Double(Alpha(i - 1))
  }

  // ---- linearity ----

  lemma AddLaws(a: bv8, b: bv8, c: bv8)
    ensures Add(a, b) == Add(b, a) && Add(Add(a, b), c) == Add(a, Add(b, c))
    ensures Add(a, 0) == a == Add(0, a) && Add(a, a) == 0
  {
  }

  lemma AddSwap(a: bv8, b: bv8, c: bv8, d: bv8)
    ensures Add(Add(a, b), Add(c, d)) == Add(Add(a, c), Add(b, d))
  {
    hide Add;
    AddLaws(a, b, Add(c, d));
    AddLaws(b, c, d);
    AddLaws(c, b, d);
    AddLaws(a, c, Add(b, d));
  }

  lemma DoubleAdd(u: bv8, v: bv8)
    ensures Double(Add(u, v)) == Add(Double(u), Double(v)) && Double(0) == 0
  {
  }

  lemma DoubleInjective(u: bv8, v: bv8)
    requires Double(u) == Double(v)
    ensures u == v
  {
  }

  lemma PickAddLeft(b: bv8, u: bv8, v: bv8)
    ensures Pick(Add(u, v), b) == Add(Pick(u, b), Pick(v, b))
    ensures Half(Add(u, v)) == Add(Half(u), Half(v))
  {
    if u & 1 == 0 {
    }
    if v & 1 == 0 {
    }
  }

  lemma PickDouble(b: bv8, u: bv8)
    ensures Pick(b, Double(u)) == Double(Pick(b, u))
  {
    if b & 1 == 0 {
    }
  }

  lemma {:induction false} TimesBitsAdd(a: bv8, b: bv8, c: bv8, n: nat)
    ensures TimesBits(a, Add(b, c), n) == Add(TimesBits(a, b, n), TimesBits(a, c, n))
    decreases n
  {
    hide Double, Pick, Add, Half;
    if n == 0 {
      AddLaws(0, 0, 0);
    } else {
      PickAddLeft(a, b, c);
      TimesBitsAdd(Double(a), Half(b), Half(c), n - 1);
      AddSwap(Pick(b, a), Pick(c, a), TimesBits(Double(a), Half(b), n - 1), TimesBits(Double(a), Half(c), n - 1));
    }
  }

  lemma {:induction false} TimesBitsDouble(a: bv8, b: bv8, n: nat)
    ensures TimesBits(Double(a), b, n) == Double(TimesBits(a, b, n))
    decreases n
  {
    hide Double, Pick, Add, Half;
    DoubleAdd(0, 0);
    if n > 0 {
      PickDouble(b, a);
      TimesBitsDouble(Double(a), Half(b), n - 1);
      DoubleAdd(Pick(b, a), TimesBits(Double(a), Half(b), n - 1));
    }
  }

  lemma {:induction false} TimesBitsZero(b: bv8, n: nat)
    ensures TimesBits(0, b, n) == 0 == TimesBits(b, 0, n)
    decreases n
  {
    hide Double, Add, Half, Pick;
    DoubleAdd(0, 0);
    AddLaws(0, 0, 0);
    PickZero(b);
    if n > 0 {
      TimesBitsZero(Half(b), n - 1);
      TimesBitsZero(Double(b), n - 1);
    }
  }

  lemma PickZero(b: bv8)
    ensures Pick(b, 0) == 0 == Pick(0, b) && Half(0) == 0
    ensures Pick(1, b) == b && Half(1) == 0
  {
  }

  lemma TimesOneLeft(a: bv8)
    ensures Times(1, a) == a
  {
  }

  /** 1 is a unit and 0 absorbs. */
  lemma TimesUnits(a: bv8)
    ensures Times(a, 1) == a == Times(1, a)
    ensures Times(a, 0) == 0 == Times(0, a)
  {
    hide Double, Add, Half, Pick;
    TimesBitsZero(a, 8);
    TimesBitsZero(Double(a), 7);
    PickZero(a);
    AddLaws(a, 0, 0);
    TimesOneLeft(a);
  }

  lemma {:induction false} TimesAlpha(i: nat, j: nat)
    ensures Times(Alpha(i), Alpha(j)) == Alpha(i + j)
    decreases i
  {
    hide Double, Pick, Add, Half;
    if i == 0 {
      TimesUnits(Alpha(j));
    } else {
      TimesAlpha(i - 1, j);
      TimesBitsDouble(Alpha(i - 1), Alpha(j), 8);
    }
  }

  // ---- the powers of x are all the non-zero bytes ----

  lemma AlphaCycle()
    ensures Alpha(255) == 1 && Alpha(85) != 1 && Alpha(51) != 1 && Alpha(15) != 1
  {
    assert Alpha(15) == 0x26;
    assert Alpha(30) == 0x60;
    assert Alpha(45) == 0xc1;
    assert Alpha(60) == 0xb9;
    assert Alpha(75) == 0xf;
    assert Alpha(90) == 0xdf;
    assert Alpha(105) == 0x1a;
    assert Alpha(120) == 0x3b;
    assert Alpha(135) == 0xa9;
    assert Alpha(150) == 0x55;
    assert Alpha(165) == 0x91;
    assert Alpha(180) == 0x96;
    assert Alpha(195) == 0x64;
    assert Alpha(210) == 0x59;
    assert Alpha(225) == 0x24;
    assert Alpha(240) == 0x2c;
    assert Alpha(255) == 0x1;
    assert Alpha(51) == 0xa;
    assert Alpha(85) == 0xd6;
  }

  lemma {:induction false} AlphaPeriod(k: nat, m: nat, q: nat)
    requires Alpha(k) == 1
    ensures Alpha(m + q * k) == Alpha(m)
    decreases q
  {
    hide Double;
    if q > 0 {
      var n := m + (q - 1) * k;
      assert n + k == m + q * k;
      TimesAlpha(n, k);
      TimesUnits(Alpha(n));
      AlphaPeriod(k, m, q - 1);
    }
  }

  lemma AlphaPeriodOf(k: nat, m: nat)
    requires 0 < k && Alpha(k) == 1
    ensures Alpha(m) == Alpha(m % k)
  {
    hide Double;
    AlphaPeriod(k, m % k, m / k);
    assert m == m % k + (m / k) * k;
  }

  lemma ProperDivisor(k: nat)
    requires 0 < k < 255 && 255 % k == 0
    ensures 85 % k == 0 || 51 % k == 0 || 15 % k == 0
  {
    if k >= 16 {
      var q := 255 / k;
      assert k * q == 255;
      assert q < 16;
      assert q == 1 || q == 3 || q == 5 || q == 15;
    }
  }

  /** x has multiplicative order exactly 255. */
  lemma {:induction false} AlphaOrder(k: nat)
    requires 0 < k < 255
    ensures Alpha(k) != 1
    decreases k
  {
    hide Double;
    if Alpha(k) == 1 {
      AlphaCycle();
      AlphaPeriodOf(k, 255);
      if 255 % k > 0 {
        AlphaOrder(255 % k);
      } else {
        ProperDivisor(k);
        AlphaPeriodOf(k, 85);
        AlphaPeriodOf(k, 51);
        AlphaPeriodOf(k, 15);
      }
    }
  }

  lemma {:induction false} AlphaInjective(i: nat, j: nat)
    requires i < j < 255
    ensures Alpha(i) != Alpha(j)
    decreases i
  {
    hide Double;
    if i == 0 {
      AlphaOrder(j);
    } else if Alpha(i) == Alpha(j) {
      AlphaInjective(i - 1, j - 1);
      DoubleInjective(Alpha(i - 1), Alpha(j - 1));
    }
  }

  lemma {:induction false} AlphaNonZero(i: nat)
    ensures Alpha(i) != 0
    decreases i
  {
    if i > 0 {
      AlphaNonZero(i - 1);
      DoubleAdd(0, 0);
      if Alpha(i) == 0 {
        DoubleInjective(Alpha(i - 1), 0);
      }
    }
  }

  ghost function Powers(n: nat): set<int> {
    set k: nat | k < n :: Alpha(k) as int
  }

  lemma DifferentNumbers(u: bv8, v: bv8)
    requires u != v
    ensures u as int != v as int
  {
    assert (u as int) as bv8 == u;
    assert (v as int) as bv8 == v;
  }

  /** The first n powers of x are n different bytes. */
  lemma {:induction false} PowersCount(n: nat)
    requires n <= 255
    ensures |Powers(n)| == n
    decreases n
  {
    hide Alpha;
    if n == 0 {
      assert Powers(n) == {};
    } else {
      PowersCount(n - 1);
      assert Powers(n) == Powers(n - 1) + {Alpha(n - 1) as int};
      forall k: nat | k < n - 1 ensures Alpha(k) as int != Alpha(n - 1) as int {
        AlphaInjective(k, n - 1);
        DifferentNumbers(Alpha(k), Alpha(n - 1));
      }
    }
  }

  lemma {:induction false} SubsetOfRange(s: set<int>, n: nat)
    requires forall x <- s :: 0 < x <= n
    ensures |s| <= n
    decreases n
  {
    if n == 0 {
      assert forall x <- s :: false;
      assert s == {};
    } else {
      SubsetOfRange(s - {n}, n - 1);
    }
  }

  /** Every non-zero byte is a power of x. */
  lemma AlphaOnto(v: bv8) returns (k: nat)
    requires v != 0
    ensures k < 255 && Alpha(k) == v
  {
    hide Double;
    if k': nat :| k' < 255 && Alpha(k') == v {
      k := k';
    } else {
      PowersCount(255);
      forall x <- Powers(255) ensures 0 < x <= 255 && x != v as int {
        var i: nat :| i < 255 && x == Alpha(i) as int;
        AlphaNonZero(i);
        assert x as bv8 == Alpha(i);
        assert (v as int) as bv8 == v;
      }
      assert 0 < v as int <= 255;
      SubsetOfRange(Powers(255) + {v as int}, 255);
      assert false;
    }
  }

  // ---- field laws ----

  lemma TimesCommutes(a: bv8, b: bv8)
    ensures Times(a, b) == Times(b, a)
  {
    hide Double, Times;
    TimesUnits(a);
    TimesUnits(b);
    if a != 0 && b != 0 {
      var i := AlphaOnto(a);
      var j := AlphaOnto(b);
      TimesAlpha(i, j);
      TimesAlpha(j, i);
    }
  }

  lemma TimesAssociates(a: bv8, b: bv8, c: bv8)
    ensures Times(Times(a, b), c) == Times(a, Times(b, c))
  {
    hide Double, Times;
    TimesUnits(a);
    TimesUnits(b);
    TimesUnits(c);
    TimesUnits(Times(a, b));
    TimesUnits(Times(b, c));
    if a != 0 && b != 0 && c != 0 {
      var i := AlphaOnto(a);
      var j := AlphaOnto(b);
      var k := AlphaOnto(c);
      TimesAlpha(i, j);
      TimesAlpha(j, k);
      TimesAlpha(i + j, k);
      TimesAlpha(i, j + k);
    }
  }

  lemma TimesDistributes(a: bv8, b: bv8, c: bv8)
    ensures Times(a, Add(b, c)) == Add(Times(a, b), Times(a, c))
    ensures Times(Add(b, c), a) == Add(Times(b, a), Times(c, a))
  {
    hide Double, Pick, Add, Half;
    TimesBitsAdd(a, b, c, 8);
    TimesCommutes(a, b);
    TimesCommutes(a, c);
    TimesCommutes(a, Add(b, c));
  }

  /** The product of two non-zero bytes is not zero. */
  lemma TimesNonZero(a: bv8, b: bv8)
    requires a != 0 && b != 0
    ensures Times(a, b) != 0
  {
    hide Double, Times;
    var i := AlphaOnto(a);
    var j := AlphaOnto(b);
    TimesAlpha(i, j);
    AlphaNonZero(i + j);
  }

  // ---- the tables ----

  lemma AlphaWraps(i: nat)
    ensures Alpha(i + 255) == Alpha(i)
  {
    hide Double;
    AlphaCycle();
    AlphaPeriod(255, i, 1);
  }

  /** The step of the table loop, on the machine integer it works with. */
  function Next(value: bv16): bv16 {
    (value << 1) ^ (if value & 0x80 != 0 then 0x11d else 0)
  }

  lemma NextIsDouble(v: bv8)
    ensures Next(v as bv16) == Double(v) as bv16
    ensures (v as bv16) as bv8 == v && v as bv16 < 256
  {
    if v & 0x80 != 0 {
    } else {
    }
  }

  lemma TableStep(i: nat)
    ensures var v := Alpha(i) as bv16;
            && Next(v) == Alpha(i + 1) as bv16
            && v < 256 && v as bv8 == Alpha(i)
  {
    NextIsDouble(Alpha(i));
  }

  lemma PowersGrow(i: nat)
    ensures Powers(i + 1) == Powers(i) + {Alpha(i) as int}
  {
  }

  class Tables {
    const exp: array<bv8>
    const log: array<nat>

    /** After n steps of the table loop. */
    ghost predicate FilledTo(n: nat)
      requires n <= 512
      reads exp, log
    {
      && exp.Length == 512 && log.Length == 256
      && (forall k | 0 <= k < n :: exp[k] == Alpha(k))
      && LogCovers(if n < 255 then n else 255)
    }

    ghost predicate LogCovers(n: nat)
      requires log.Length == 256
      reads log
    {
      forall b | 0 <= b < 256 && b in Powers(n) :: log[b] < 255 && Alpha(log[b]) as int == b
    }

    ghost predicate Valid()
      reads exp, log
    {
      FilledTo(512)
    }

    constructor ()
      ensures Valid() && fresh(exp) && fresh(log)
    {
      exp := new bv8[512];
      log := new nat[256];
      new;
      FillPowers();
      for i := 255 to 512
        invariant FilledTo(i)
      {
        hide Double, Alpha, Powers;
        exp[i] := exp[i - 255];
        AlphaWraps(i - 255);
      }
    }

    method FillPowers()
      requires exp.Length == 512 && log.Length == 256
      modifies exp, log
      ensures FilledTo(255)
    {
      var value: bv16 := 1;
      for i := 0 to 255
        invariant value == Alpha(i) as bv16
        invariant FilledTo(i)
      {
        hide Double, Alpha, Powers, Next;
        TableStep(i);
        Store(i, value as bv8);
        value := Next(value);
      }
    }

    method Store(i: nat, power: bv8)
      requires i < 255 && power == Alpha(i) && FilledTo(i)
      modifies exp, log
      ensures FilledTo(i + 1)
    {
      hide Double, Alpha, Powers;
      PowersGrow(i);
      exp[i] := power;
      log[power as int] := i;
    }

    /** log inverts exp on every non-zero byte. */
    lemma LogInvertsExp(v: bv8)
      requires Valid() && v != 0
      ensures log[v as int] < 255 && exp[log[v as int]] == v
    {
      hide Double;
      var k := AlphaOnto(v);
      assert v as int in Powers(255);
      assert (Alpha(log[v as int]) as int) as bv8 == (v as int) as bv8 == v;
    }

    /** The table product is the field product, for all pairs of bytes. */
    function Multiply(a: bv8, b: bv8): (r: bv8)
      requires Valid()
      reads exp, log
      ensures r == Times(a, b)
    {
      TableProduct(a, b);
      if a != 0 && b != 0 then exp[log[a as int] + log[b as int]] else 0
    }

    lemma TableProduct(a: bv8, b: bv8)
      requires Valid()
      ensures a != 0 && b != 0 ==>
                && log[a as int] < 255 && log[b as int] < 255
                && exp[log[a as int] + log[b as int]] == Times(a, b)
      ensures a == 0 || b == 0 ==> Times(a, b) == 0
    {
      hide Add, Times, Double, Pick, Half, Alpha;
      if a == 0 {
        TimesUnits(b);
      } else if b == 0 {
        TimesUnits(a);
      } else {
        LogInvertsExp(a);
        LogInvertsExp(b);
        TimesAlpha(log[a as int], log[b as int]);
      }
    }
  }
}

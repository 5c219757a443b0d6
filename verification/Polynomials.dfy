/** Polynomials over GF(2^8), written as the encoder writes code words: the coefficient of
    the highest power first. */
module Polynomials {
  import opened Gf256

  function Zeros(n: nat): (r: seq<bv8>)
    ensures |r| == n && forall i | 0 <= i < n :: r[i] == 0
  {
    seq(n, i => 0)
  }

  function Scale(f: bv8, p: seq<bv8>): (r: seq<bv8>)
    ensures |r| == |p| && forall i | 0 <= i < |p| :: r[i] == Times(f, p[i])
  {
    seq(|p|, i requires 0 <= i < |p| => Times(f, p[i]))
  }

  function Sum(p: seq<bv8>, q: seq<bv8>): (r: seq<bv8>)
    requires |p| == |q|
    ensures |r| == |p| && forall i | 0 <= i < |p| :: r[i] == Add(p[i], q[i])
  {
    seq(|p|, i requires 0 <= i < |p| => Add(p[i], q[i]))
  }

  /** The product of two polynomials, by shift and add. */
  function Product(q: seq<bv8>, h: seq<bv8>): (r: seq<bv8>)
    requires |h| > 0
    ensures |r| == |q| + |h| - 1
  {
    if q == [] then Zeros(|h| - 1)
    else
      var m := |q| - 1;
      Sum(Product(q[..m], h) + [0], Zeros(m) + Scale(q[m], h))
  }

  /** The value of a polynomial at x. */
  function Eval(p: seq<bv8>, x: bv8): bv8 {
    if p == [] then 0 else Add(Times(Eval(p[..|p| - 1], x), x), p[|p| - 1])
  }

  function Power(x: bv8, n: nat): bv8 {
    if n == 0 then 1 else Times(Power(x, n - 1), x)
  }

  function Reverse(p: seq<bv8>): (r: seq<bv8>)
    ensures |r| == |p| && forall i | 0 <= i < |p| :: r[i] == p[|p| - 1 - i]
  {
    seq(|p|, i requires 0 <= i < |p| => p[|p| - 1 - i])
  }

  // ---- evaluation is a ring homomorphism ----

  lemma {:induction false} EvalSum(p: seq<bv8>, q: seq<bv8>, x: bv8)
    requires |p| == |q|
    ensures Eval(Sum(p, q), x) == Add(Eval(p, x), Eval(q, x))
  {
    hide Add, Times;
    if p == [] {
      AddLaws(0, 0, 0);
    } else {
      var m := |p| - 1;
      assert Sum(p, q)[..m] == Sum(p[..m], q[..m]);
      EvalSum(p[..m], q[..m], x);
      TimesDistributes(x, Eval(p[..m], x), Eval(q[..m], x));
      AddSwap(Times(Eval(p[..m], x), x), Times(Eval(q[..m], x), x), p[m], q[m]);
    }
  }

  lemma {:induction false} EvalScale(f: bv8, p: seq<bv8>, x: bv8)
    ensures Eval(Scale(f, p), x) == Times(f, Eval(p, x))
  {
    hide Add, Times;
    if p == [] {
      TimesUnits(f);
    } else {
      var m := |p| - 1;
      assert Scale(f, p)[..m] == Scale(f, p[..m]);
      EvalScale(f, p[..m], x);
      TimesAssociates(f, Eval(p[..m], x), x);
      TimesDistributes(f, Times(Eval(p[..m], x), x), p[m]);
    }
  }

  lemma {:induction false} EvalLeadingZeros(n: nat, p: seq<bv8>, x: bv8)
    ensures Eval(Zeros(n) + p, x) == Eval(p, x)
    decreases n + |p|
  {
    hide Add, Times;
    var s := Zeros(n) + p;
    if p != [] {
      assert s[..|s| - 1] == Zeros(n) + p[..|p| - 1];
      EvalLeadingZeros(n, p[..|p| - 1], x);
    } else if n > 0 {
      assert s[..|s| - 1] == Zeros(n - 1) + p;
      EvalLeadingZeros(n - 1, p, x);
      TimesUnits(x);
      AddLaws(0, 0, 0);
    }
  }

  lemma {:induction false} EvalProduct(q: seq<bv8>, h: seq<bv8>, x: bv8)
    requires |h| > 0
    ensures Eval(Product(q, h), x) == Times(Eval(q, x), Eval(h, x))
    decreases |q|
  {
    hide Add, Times;
    var hx := Eval(h, x);
    if q == [] {
      assert Zeros(|h| - 1) + [] == Zeros(|h| - 1);
      EvalLeadingZeros(|h| - 1, [], x);
      TimesUnits(hx);
    } else {
      var m := |q| - 1;
      var qx := Eval(q[..m], x);
      EvalProduct(q[..m], h, x);
      var shifted := Product(q[..m], h) + [0];
      assert shifted[..|shifted| - 1] == Product(q[..m], h);
      AddLaws(Times(Times(qx, hx), x), 0, 0);
      EvalSum(shifted, Zeros(m) + Scale(q[m], h), x);
      EvalLeadingZeros(m, Scale(q[m], h), x);
      EvalScale(q[m], h, x);
      TimesCommutes(hx, x);
      TimesAssociates(qx, hx, x);
      TimesAssociates(qx, x, hx);
      TimesDistributes(hx, Times(qx, x), q[m]);
    }
  }

  // ---- a monic divisor determines quotient and remainder ----

  lemma {:induction false} QuotientIsUnique(q1: seq<bv8>, q2: seq<bv8>, h: seq<bv8>)
    requires |h| > 0 && h[0] == 1 && |q1| == |q2|
    requires Product(q1, h)[..|q1|] == Product(q2, h)[..|q1|]
    ensures q1 == q2
    decreases |q1|
  {
    hide Add, Times;
    if q1 != [] {
      var m := |q1| - 1;
      var p1, p2 := Product(q1[..m], h), Product(q2[..m], h);
      forall i | 0 <= i < m ensures p1[i] == p2[i] {
        AddLaws(p1[i], 0, 0);
        AddLaws(p2[i], 0, 0);
        assert Product(q1, h)[..|q1|][i] == Product(q2, h)[..|q1|][i];
      }
      assert p1[..m] == p2[..m];
      QuotientIsUnique(q1[..m], q2[..m], h);
      var c := (p1 + [0])[m];
      assert Product(q1, h)[..|q1|][m] == Product(q2, h)[..|q1|][m];
      TimesUnits(q1[m]);
      TimesUnits(q2[m]);
      AddCancels(c, q1[m], q2[m]);
    }
  }

  lemma AddCancels(c: bv8, a: bv8, b: bv8)
    ensures Add(c, a) == Add(c, b) <==> a == b
    ensures Add(a, b) == 0 <==> a == b
  {
  }

  // ---- reversal ----

  lemma {:induction false} EvalFront(a: bv8, p: seq<bv8>, x: bv8)
    ensures Eval([a] + p, x) == Add(Times(a, Power(x, |p|)), Eval(p, x))
    decreases |p|
  {
    hide Add, Times;
    if p == [] {
      TimesUnits(a);
      TimesUnits(x);
      AddLaws(a, 0, 0);
      assert [a] + p == [a] && [a][..0] == [];
    } else {
      var m := |p| - 1;
      assert ([a] + p)[..|p|] == [a] + p[..m];
      EvalFront(a, p[..m], x);
      TimesDistributes(x, Times(a, Power(x, m)), Eval(p[..m], x));
      TimesAssociates(a, Power(x, m), x);
      AddLaws(Times(a, Power(x, |p|)), Times(Eval(p[..m], x), x), p[m]);
    }
  }

  lemma {:induction false} PowerOfInverse(y: bv8, z: bv8, n: nat)
    requires Times(z, y) == 1
    ensures Times(Power(z, n), Power(y, n)) == 1
    decreases n
  {
    hide Add, Times;
    TimesUnits(1);
    if n > 0 {
      var a, b := Power(z, n - 1), Power(y, n - 1);
      PowerOfInverse(y, z, n - 1);
      TimesAssociates(a, z, Times(b, y));
      TimesCommutes(b, y);
      TimesAssociates(z, y, b);
      TimesUnits(b);
    }
  }

  /** Reversing the coefficients moves a root to its inverse. */
  lemma {:induction false} EvalReverse(p: seq<bv8>, y: bv8, z: bv8)
    requires p != [] && Times(z, y) == 1
    ensures Times(Eval(Reverse(p), z), Power(y, |p| - 1)) == Eval(p, y)
    decreases |p|
  {
    hide Add, Times;
    var m := |p| - 1;
    var init := p[..m];
    assert Reverse(p) == [p[m]] + Reverse(init);
    EvalFront(p[m], Reverse(init), z);
    var a, b, w := Times(p[m], Power(z, m)), Eval(Reverse(init), z), Power(y, m);
    TimesDistributes(w, a, b);
    TimesAssociates(p[m], Power(z, m), w);
    PowerOfInverse(y, z, m);
    TimesUnits(p[m]);
    if m == 0 {
      TimesUnits(w);
      TimesUnits(y);
      AddLaws(p[m], 0, 0);
    } else {
      EvalReverse(init, y, z);
      TimesAssociates(b, Power(y, m - 1), y);
      AddLaws(p[m], Times(Eval(init, y), y), 0);
    }
  }
}

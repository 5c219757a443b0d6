/** The error-correction words of the QR encoder: building the generator polynomial and
    dividing by a shift register. */
module ReedSolomon {
  import opened Gf256
  import opened Polynomials

  /** The product of the n factors x + Alpha(i), i < n. */
  ghost function FactorProduct(n: nat): (p: seq<bv8>)
    ensures |p| == n + 1
  {
    if n == 0 then [1] else Product(FactorProduct(n - 1), [1, Alpha(n - 1)])
  }

  /** The polynomial the shift register really divides by: monic, with the coefficients
      generator[1..] of the encoder's low-to-high list below the leading one. */
  ghost function Divisor(n: nat): (h: seq<bv8>)
    ensures |h| == n + 1 && h[0] == 1
  {
    [1] + Reverse(FactorProduct(n))[1..]
  }

  // ---- the generator loop ----

  lemma {:induction false} ProductLinear(p: seq<bv8>, e: bv8, k: nat)
    requires k <= |p|
    ensures Product(p, [1, e])[k]
         == Add(if k < |p| then p[k] else 0, if k > 0 then Times(p[k - 1], e) else 0)
    decreases |p|
  {
    hide Add, Times, Zeros, Scale, Sum, Reverse;
    if p == [] {
      AddLaws(0, 0, 0);
    } else {
      var m := |p| - 1;
      var rest := Product(p[..m], [1, e]);
      TimesUnits(p[m]);
      assert (Zeros(m) + Scale(p[m], [1, e]))[m] == Times(p[m], 1);
      assert (Zeros(m) + Scale(p[m], [1, e]))[m + 1] == Times(p[m], e);
      if k == m + 1 {
      } else {
        ProductLinear(p[..m], e, k);
        AddLaws(rest[k], 0, 0);
        if k == m {
          var low := if k > 0 then Times(p[k - 1], e) else 0;
          AddLaws(0, low, p[m]);
          AddLaws(low, p[m], 0);
        }
      }
    }
  }

  /** The generator list is, low to high, the coefficients of the product of the factors. */
  method Generator(t: Tables, eccLength: nat) returns (generator: seq<bv8>)
    requires t.Valid() && eccLength <= 512
    ensures generator == Reverse(FactorProduct(eccLength))
  {
    hide Add, Times, Alpha, Zeros, Scale, Sum, Reverse;
    generator := [1];
    for i := 0 to eccLength
      invariant generator == Reverse(FactorProduct(i))
    {
      ghost var old' := generator + [0];
      generator := generator + [0];
      var j := |generator| - 1;
      while j > 0
        invariant 0 <= j < |generator| == i + 2
        invariant forall k | 0 <= k <= j :: generator[k] == old'[k]
        invariant forall k | j < k < |generator| :: generator[k] == Add(old'[k - 1], Times(old'[k], t.exp[i]))
      {
        generator := generator[j := Add(generator[j - 1], t.Multiply(generator[j], t.exp[i]))];
        j := j - 1;
      }
      generator := generator[0 := t.Multiply(generator[0], t.exp[i])];
      NextGenerator(old', generator, i);
    }
  }

  lemma NextGenerator(old': seq<bv8>, next: seq<bv8>, i: nat)
    requires old' == Reverse(FactorProduct(i)) + [0] && |next| == i + 2
    requires next[0] == Times(old'[0], Alpha(i))
    requires forall k | 0 < k < |next| :: next[k] == Add(old'[k - 1], Times(old'[k], Alpha(i)))
    ensures next == Reverse(FactorProduct(i + 1))
  {
    hide Add, Times, Alpha, Zeros, Scale, Sum, Reverse;
    var p := FactorProduct(i);
    var q := FactorProduct(i + 1);
    var e := Alpha(i);
    TimesUnits(e);
    assert q == Product(p, [1, e]);
    forall k | 0 <= k < |next| ensures next[k] == Reverse(q)[k] {
      assert Reverse(q)[k] == q[i + 1 - k];
      ProductLinear(p, e, i + 1 - k);
      if k == 0 {
        AddLaws(Times(p[i], e), 0, 0);
      } else {
        assert old'[k - 1] == p[i + 1 - k];
        if k <= i {
          assert old'[k] == p[i - k];
        } else {
          AddLaws(old'[k - 1], 0, 0);
        }
      }
    }
  }

  // ---- the roots of the generator ----

  lemma EvalFactor(e: bv8, x: bv8)
    ensures Eval([1, e], x) == Add(x, e)
  {
    hide Add, Times, Zeros, Scale, Sum, Reverse;
    TimesUnits(x);
    AddLaws(1, 0, 0);
    var p: seq<bv8> := [1, e];
    assert p[..1] == [1] && p[..1][..0] == [];
    assert Eval(p[..1], x) == 1;
  }

  /** A product is zero only if a factor is. */
  lemma TimesZero(a: bv8, b: bv8)
    ensures Times(a, b) == 0 <==> a == 0 || b == 0
  {
    hide Times;
    if a == 0 {
      TimesUnits(b);
    } else if b == 0 {
      TimesUnits(a);
    } else {
      TimesNonZero(a, b);
    }
  }

  lemma AddZero(x: bv8, e: bv8)
    ensures Add(x, e) == 0 <==> x == e
  {
  }

  lemma FactorStep(n: nat, x: bv8)
    requires n > 0
    ensures Eval(FactorProduct(n), x) == 0 <==> Eval(FactorProduct(n - 1), x) == 0 || x == Alpha(n - 1)
  {
    hide Add, Times, Alpha, Zeros, Scale, Sum, Product, Eval;
    var p, e := FactorProduct(n - 1), Alpha(n - 1);
    EvalProduct(p, [1, e], x);
    EvalFactor(e, x);
    AddZero(x, e);
    TimesZero(Eval(p, x), Add(x, e));
  }

  /** The roots of the product are exactly its n powers of x. */
  lemma {:induction false} FactorProductRoots(n: nat, x: bv8)
    ensures Eval(FactorProduct(n), x) == 0 <==> exists i: nat :: i < n && x == Alpha(i)
    decreases n
  {
    hide Add, Times, Alpha, Eval, FactorProduct;
    if n == 0 {
      NoRoots(x);
    } else {
      FactorProductRoots(n - 1, x);
      FactorStep(n, x);
      if x == Alpha(n - 1) {
        assert n - 1 < n && x == Alpha(n - 1);
      }
    }
  }

  lemma NoRoots(x: bv8)
    ensures Eval(FactorProduct(0), x) == 1
  {
    hide Add, Times;
    assert [1 as bv8][..0] == [];
    TimesUnits(x);
    AddLaws(1, 0, 0);
  }

  lemma {:induction false} FactorProductMonic(n: nat)
    ensures FactorProduct(n)[0] == 1
    decreases n
  {
    hide Add, Times, Alpha, Zeros, Scale, Sum, Reverse;
    if n > 0 {
      FactorProductMonic(n - 1);
      ProductLinear(FactorProduct(n - 1), Alpha(n - 1), 0);
      AddLaws(1, 0, 0);
    }
  }

  // ---- the shift register ----

  /** One turn of the register: feed a word in, shift, and subtract the multiple of h. */
  ghost function Feed(register: seq<bv8>, word: bv8, h: seq<bv8>): (next: seq<bv8>)
    requires |h| == |register| + 1
    ensures |next| == |register|
  {
    var factor := Factor(register, word);
    seq(|register|, i requires 0 <= i < |register| =>
      Add(if i + 1 < |register| then register[i + 1] else 0, Times(h[i + 1], factor)))
  }

  ghost function Factor(register: seq<bv8>, word: bv8): bv8 {
    if register == [] then word else Add(word, register[0])
  }

  /** The register after all words. */
  ghost function Residue(words: seq<bv8>, h: seq<bv8>): (r: seq<bv8>)
    requires |h| > 0
    ensures |r| == |h| - 1
  {
    if words == [] then Zeros(|h| - 1)
    else Feed(Residue(words[..|words| - 1], h), words[|words| - 1], h)
  }

  ghost function Quotient(words: seq<bv8>, h: seq<bv8>): (q: seq<bv8>)
    requires |h| > 0
    ensures |q| == |words|
  {
    if words == [] then []
    else
      var m := |words| - 1;
      Quotient(words[..m], h) + [Factor(Residue(words[..m], h), words[m])]
  }

  method ShiftDown(result: array<bv8>)
    requires result.Length > 0
    modifies result
    ensures result[..] == old(result[..])[1..] + [0]
  {
    var n := result.Length;
    forall i | 0 <= i < n - 1 {
      result[i] := result[i + 1];
    }
    result[n - 1] := 0;
  }

  /** One turn of the register, in place. */
  method Turn(t: Tables, generator: seq<bv8>, result: array<bv8>, word: bv8)
    requires t.Valid() && |generator| == result.Length + 1
    requires result != t.exp && result as object != t.log as object
    modifies result
    ensures result[..] == Feed(old(result[..]), word, [1] + generator[1..])
  {
    hide Add, Times, Alpha;
    var n := result.Length;
    var factor := word;
    if n > 0 {
      factor := Add(word, result[0]);
      ShiftDown(result);
    }
    ghost var moved := result[..];
    for i := 0 to n
      invariant t.Valid()
      invariant forall k | i <= k < n :: result[k] == moved[k]
      invariant forall k | 0 <= k < i :: result[k] == Add(moved[k], Times(generator[k + 1], factor))
    {
      result[i] := Add(result[i], t.Multiply(generator[i + 1], factor));
    }
  }

  method Remainder(t: Tables, words: seq<bv8>, eccLength: nat) returns (ecc: seq<bv8>)
    requires t.Valid() && eccLength <= 512
    ensures ecc == Residue(words, Divisor(eccLength))
  {
    hide Add, Times, Alpha, Zeros, Scale, Sum, Reverse;
    var generator := Generator(t, eccLength);
    ghost var h := Divisor(eccLength);
    var result := new bv8[eccLength](i => 0);
    assert result[..] == Zeros(eccLength);
    for w := 0 to |words|
      invariant result[..] == Residue(words[..w], h)
    {
      assert words[..w + 1][..w] == words[..w];
      Turn(t, generator, result, words[w]);
    }
    assert words[..|words|] == words;
    ecc := result[..];
  }

  lemma NoWords(h: seq<bv8>)
    requires |h| > 0
    ensures [] + Residue([], h) == Product(Quotient([], h), h)
  {
    hide Add, Times, Zeros, Scale, Sum;
  }

  /** Words followed by their residue are an exact multiple of the divisor. */
  lemma {:induction false} Division(words: seq<bv8>, h: seq<bv8>)
    requires |h| > 0 && h[0] == 1
    ensures words + Residue(words, h) == Product(Quotient(words, h), h)
    decreases |words|
  {
    hide Add, Times, Zeros, Scale, Sum, Product, Feed, Factor;
    if words == [] {
      NoWords(h);
    } else {
      var m := |words| - 1;
      var init, w := words[..m], words[m];
      var r, q := Residue(init, h), Quotient(init, h);
      Division(init, h);
      ProductSnoc(q, Factor(r, w), h);
      assert Product(q, h) + [0] == init + (r + [0]);
      FeedIsDivision(init, r, w, h);
      assert words == init + [w];
      assert Quotient(words, h) == q + [Factor(r, w)];
      assert Residue(words, h) == Feed(r, w, h);
    }
  }

  lemma ProductSnoc(q: seq<bv8>, f: bv8, h: seq<bv8>)
    requires |h| > 0
    ensures Product(q + [f], h) == Sum(Product(q, h) + [0], Zeros(|q|) + Scale(f, h))
  {
    hide Add, Times, Zeros, Scale, Sum;
    assert (q + [f])[..|q|] == q;
  }

  lemma FeedIsDivision(init: seq<bv8>, r: seq<bv8>, w: bv8, h: seq<bv8>)
    requires |h| == |r| + 1 && h[0] == 1
    ensures Sum(init + (r + [0]), Zeros(|init|) + Scale(Factor(r, w), h)) == init + [w] + Feed(r, w, h)
  {
    hide Add, Times, Zeros, Scale, Sum, Reverse;
    var m := |init|;
    var f := Factor(r, w);
    var high, low := init + (r + [0]), Zeros(m) + Scale(f, h);
    var whole := init + [w] + Feed(r, w, h);
    TimesUnits(f);
    forall i | 0 <= i < |whole| ensures Sum(high, low)[i] == whole[i] {
      if i < m {
        AddLaws(high[i], 0, 0);
      } else if i == m {
        FactorCancels(r, w);
      } else {
        TimesCommutes(f, h[i - m]);
        assert whole[i] == Feed(r, w, h)[i - m - 1];
      }
    }
  }

  lemma FactorCancels(r: seq<bv8>, w: bv8)
    ensures Add((r + [0])[0], Factor(r, w)) == w
  {
    hide Add;
    if r == [] {
      AddLaws(w, 0, 0);
    } else {
      AddUndoes(r[0], w);
    }
  }

  lemma AddUndoes(a: bv8, b: bv8)
    ensures Add(a, Add(b, a)) == b
  {
  }

  /** Remainder is polynomial division: for every word list and every length n the result is
      the one register content that makes words * x^n + register a multiple of the divisor. */
  lemma RemainderIsDivision(words: seq<bv8>, n: nat, r: seq<bv8>)
    requires |r| == n
    ensures r == Residue(words, Divisor(n)) <==> exists q :: words + r == Product(q, Divisor(n))
  {
    hide Add, Times, Residue, Quotient, Divisor;
    var h := Divisor(n);
    var own := Residue(words, h);
    Division(words, h);
    if q :| words + r == Product(q, h) {
      assert |q| == |words|;
      assert (words + r)[..|words|] == words == (words + own)[..|words|];
      QuotientIsUnique(q, Quotient(words, h), h);
      assert r == (words + r)[|words|..] == (words + own)[|words|..] == own;
    }
  }

  /** The error-correction words depend linearly on the data words. */
  lemma {:induction false} ResidueLinear(u: seq<bv8>, v: seq<bv8>, h: seq<bv8>)
    requires |h| > 0 && |u| == |v|
    ensures Residue(Sum(u, v), h) == Sum(Residue(u, h), Residue(v, h))
    decreases |u|
  {
    hide Add, Times, Zeros, Scale, Sum, Reverse;
    AddLaws(0, 0, 0);
    if u != [] {
      var m := |u| - 1;
      ResidueLinear(u[..m], v[..m], h);
      assert Sum(u, v)[..m] == Sum(u[..m], v[..m]);
      FeedLinear(Residue(u[..m], h), Residue(v[..m], h), u[m], v[m], h);
    }
  }

  lemma FeedLinear(r: seq<bv8>, s: seq<bv8>, w: bv8, x: bv8, h: seq<bv8>)
    requires |r| == |s| && |h| == |r| + 1
    ensures Feed(Sum(r, s), Add(w, x), h) == Sum(Feed(r, w, h), Feed(s, x, h))
  {
    hide Add, Times, Zeros, Scale, Sum, Reverse;
    AddLaws(0, 0, 0);
    var f, g := Factor(r, w), Factor(s, x);
    if r != [] {
      AddSwap(w, x, r[0], s[0]);
    }
    forall i | 0 <= i < |r| ensures Feed(Sum(r, s), Add(w, x), h)[i] == Add(Feed(r, w, h)[i], Feed(s, x, h)[i]) {
      TimesDistributes(h[i + 1], f, g);
      AddSwap(if i + 1 < |r| then r[i + 1] else 0, if i + 1 < |s| then s[i + 1] else 0,
              Times(h[i + 1], f), Times(h[i + 1], g));
    }
  }

  // ---- the divisor is not the generator of the standard ----

  /** The code words of the standard are the multiples of the generator. */
  ghost predicate StandardCodeWord(code: seq<bv8>, n: nat) {
    exists q :: code == Product(q, FactorProduct(n))
  }

  lemma ProductOfConstant(c: bv8, h: seq<bv8>)
    requires |h| > 0
    ensures Product([c], h) == Scale(c, h)
  {
    hide Add, Times, Zeros, Scale, Sum;
    ProductSnoc([], c, h);
    assert [] + [c] == [c];
    SumZeros(Zeros(|h| - 1) + [0], Zeros(0) + Scale(c, h));
    assert Zeros(0) + Scale(c, h) == Scale(c, h);
  }

  lemma SumZeros(z: seq<bv8>, p: seq<bv8>)
    requires |z| == |p| && forall i | 0 <= i < |z| :: z[i] == 0
    ensures Sum(z, p) == p
  {
    hide Add;
    forall i | 0 <= i < |p| ensures Sum(z, p)[i] == p[i] {
      AddLaws(p[i], 0, 0);
    }
  }

  lemma SmallDivisors(n: nat)
    requires n <= 1
    ensures Divisor(n) == FactorProduct(n)
  {
    hide Add, Times, Zeros, Scale, Sum, Reverse;
    if n == 1 {
      assert Alpha(0) == 1;
      ProductOfConstant(1, [1, 1]);
      TimesUnits(1);
    }
  }

  /** A root of the reversed list would be the inverse of a root, which is none. */
  lemma DivisorDiffers(n: nat)
    requires 2 <= n <= 254
    ensures Divisor(n) != FactorProduct(n)
  {
    hide Add, Times, Alpha, Zeros, Scale, Sum, Reverse;
    var p := FactorProduct(n);
    if Divisor(n) == p {
      FactorProductMonic(n);
      assert p[n] == Reverse(p)[0];
      forall i | 0 <= i <= n ensures p[i] == Reverse(p)[i] {
        if 0 < i {
          assert p[i] == Divisor(n)[i];
        } else {
          assert p[n] == Divisor(n)[n] == Reverse(p)[n] == p[0];
        }
      }
      assert Reverse(p) == p;
      var y, z := Alpha(1), Alpha(254);
      TimesAlpha(254, 1);
      CycleLength();
      EvalReverse(p, y, z);
      FactorProductRoots(n, y);
      FactorProductRoots(n, z);
      PowerOfInverse(y, z, n);
      if Eval(p, z) != 0 {
        if Power(y, n) == 0 {
          TimesUnits(Power(z, n));
        }
        TimesNonZero(Eval(p, z), Power(y, n));
      }
      var i: nat :| i < n && z == Alpha(i);
      AlphaInjective(i, 254);
    }
  }

  lemma CycleLength()
    ensures Alpha(254 + 1) == 1
  {
    AlphaCycle();
  }

  // ---- the products repeat with period 255 ----

  /** A coefficient by its index, zero outside the list. */
  ghost function At(p: seq<bv8>, k: int): bv8 {
    if 0 <= k < |p| then p[k] else 0
  }

  lemma LinearAt(p: seq<bv8>, e: bv8, k: int)
    ensures At(Product(p, [1, e]), k) == Add(At(p, k), Times(At(p, k - 1), e))
  {
    hide Add, Times, Product;
    TimesUnits(e);
    AddLaws(0, 0, 0);
    if 0 <= k <= |p| {
      ProductLinear(p, e, k);
      if k == 0 {
        AddLaws(At(p, k), 0, 0);
      }
    }
  }

  lemma SameAt(p: seq<bv8>, q: seq<bv8>)
    requires |p| == |q| && forall k: int | 0 <= k < |p| :: At(p, k) == At(q, k)
    ensures p == q
  {
    forall k | 0 <= k < |p| ensures p[k] == q[k] {
      assert At(p, k) == At(q, k);
    }
  }

  /** a + b e + (c + d e) regrouped. */
  lemma RegroupLinear(a: bv8, b: bv8, c: bv8, d: bv8, e: bv8)
    ensures Add(Add(a, b), Times(Add(c, d), e)) == Add(Add(a, Times(c, e)), Add(b, Times(d, e)))
  {
    hide Add, Times;
    TimesCommutes(Add(c, d), e);
    TimesCommutes(c, e);
    TimesCommutes(d, e);
    TimesDistributes(e, c, d);
    AddSwap(a, b, Times(c, e), Times(d, e));
  }

  lemma LinearFactorsCommute(p: seq<bv8>, a: bv8, b: bv8)
    ensures Product(Product(p, [1, a]), [1, b]) == Product(Product(p, [1, b]), [1, a])
  {
    hide Add, Times, Product;
    var pa, pb := Product(p, [1, a]), Product(p, [1, b]);
    forall k | 0 <= k < |p| + 2 ensures At(Product(pa, [1, b]), k) == At(Product(pb, [1, a]), k) {
      var x, y, z := At(p, k), At(p, k - 1), At(p, k - 2);
      LinearAt(p, a, k);
      LinearAt(p, a, k - 1);
      LinearAt(p, b, k);
      LinearAt(p, b, k - 1);
      LinearAt(pa, b, k);
      LinearAt(pb, a, k);
      TwoFactors(x, y, z, a, b);
    }
    SameAt(Product(pa, [1, b]), Product(pb, [1, a]));
  }

  lemma TwoFactors(x: bv8, y: bv8, z: bv8, a: bv8, b: bv8)
    ensures Add(Add(x, Times(y, a)), Times(Add(y, Times(z, a)), b))
         == Add(Add(x, Times(y, b)), Times(Add(y, Times(z, b)), a))
  {
    hide Add, Times;
    RegroupLinear(x, Times(y, a), y, Times(z, a), b);
    RegroupLinear(x, Times(y, b), y, Times(z, b), a);
    TimesAssociates(z, a, b);
    TimesAssociates(z, b, a);
    TimesCommutes(a, b);
    var u, v, w := Times(y, a), Times(y, b), Times(Times(z, a), b);
    AddSwap(x, v, u, w);
    AddLaws(u, v, 0);
  }

  /** The polynomial with every root multiplied by x. */
  ghost function Dilated(p: seq<bv8>): (r: seq<bv8>)
    ensures |r| == |p|
  {
    seq(|p|, k requires 0 <= k < |p| => Times(p[k], Alpha(k)))
  }

  lemma DilatedAt(p: seq<bv8>, k: nat)
    ensures At(Dilated(p), k) == Times(At(p, k), Alpha(k))
  {
    hide Times, Alpha;
    TimesUnits(Alpha(k));
  }

  lemma DilateLinear(p: seq<bv8>, n: nat)
    ensures Dilated(Product(p, [1, Alpha(n)])) == Product(Dilated(p), [1, Alpha(n + 1)])
  {
    hide Add, Times, Product, Alpha, Dilated;
    var e, f := Alpha(n), Alpha(n + 1);
    var left, right := Dilated(Product(p, [1, e])), Product(Dilated(p), [1, f]);
    forall k | 0 <= k < |p| + 1 ensures At(left, k) == At(right, k) {
      DilatedAt(Product(p, [1, e]), k);
      LinearAt(p, e, k);
      LinearAt(Dilated(p), f, k);
      DilatedAt(p, k);
      var u, v := At(p, k), At(p, k - 1);
      TimesCommutes(Add(u, Times(v, e)), Alpha(k));
      TimesCommutes(u, Alpha(k));
      TimesCommutes(Times(v, e), Alpha(k));
      TimesDistributes(Alpha(k), u, Times(v, e));
      TimesAssociates(v, e, Alpha(k));
      TimesAlpha(n, k);
      if k == 0 {
        TimesUnits(Times(e, Alpha(k)));
        TimesUnits(f);
      } else {
        DilatedAt(p, k - 1);
        TimesAssociates(v, Alpha(k - 1), f);
        TimesAlpha(k - 1, n + 1);
      }
    }
    SameAt(left, right);
  }

  /** Multiplying all roots by x trades the factor x + 1 for the next one. */
  lemma {:induction false} NextFromDilated(n: nat)
    ensures FactorProduct(n + 1) == Product(Dilated(FactorProduct(n)), [1, 1])
    decreases n
  {
    hide Add, Times, Product, Alpha, Dilated;
    if n == 0 {
      DilatedOne();
    } else {
      var d := Dilated(FactorProduct(n - 1));
      NextFromDilated(n - 1);
      LinearFactorsCommute(d, 1, Alpha(n));
      DilateLinear(FactorProduct(n - 1), n - 1);
    }
  }

  lemma DilatedOne()
    ensures Dilated(FactorProduct(0)) == [1] == FactorProduct(0) && Alpha(0) == 1
  {
    hide Times;
    TimesUnits(1);
  }

  /** Multiplication by x^255 + 1. */
  ghost function Spread(f: seq<bv8>): (r: seq<bv8>)
    ensures |r| == |f| + 255
  {
    Sum(f + Zeros(255), Zeros(255) + f)
  }

  lemma SpreadAt(f: seq<bv8>, k: int)
    ensures At(Spread(f), k) == Add(At(f, k), At(f, k - 255))
  {
    hide Add;
    AddLaws(0, 0, 0);
  }

  /** The product of all 255 factors is x^255 + 1. */
  lemma FullCycle()
    ensures FactorProduct(255) == Spread([1])
  {
    hide Add, Times, Product, Alpha, Dilated, FactorProduct, Zeros, Sum;
    var p := FactorProduct(255);
    NextFromDilated(255);
    FactorProductUnfolds(255);
    AlphaCycle();
    QuotientIsUnique(p, Dilated(p), [1, 1]);
    FactorProductMonic(255);
    forall k | 0 < k < 255 ensures p[k] == 0 {
      DilatedAt(p, k);
      AlphaOrder(k);
      FixedIsZero(p[k], Alpha(k));
    }
    assert p == [1] + (Zeros(254) + [p[255]]);
    AlphaStart();
    FactorProductRoots(255, 1);
    EndIsOne(p[255], p);
    forall k | 0 <= k < 256 ensures At(p, k) == At(Spread([1]), k) {
      SpreadAt([1], k);
      AddLaws(1, 0, 0);
      AddLaws(0, 0, 0);
    }
    SameAt(p, Spread([1]));
  }

  lemma AlphaStart()
    ensures exists i: nat :: i < 255 && 1 == Alpha(i)
  {
    assert Alpha(0) == 1;
  }

  lemma FactorProductUnfolds(n: nat)
    ensures FactorProduct(n + 1) == Product(FactorProduct(n), [1, Alpha(n)])
  {
  }

  lemma FixedIsZero(c: bv8, a: bv8)
    requires Times(c, a) == c && a != 1
    ensures c == 0
  {
    hide Add, Times;
    TimesUnits(c);
    TimesDistributes(c, a, 1);
    AddLaws(c, c, 0);
    AddZero(a, 1);
    AddZero(c, c);
    TimesZero(c, Add(a, 1));
  }

  lemma {:induction false} PowerOfOne(n: nat)
    ensures Power(1, n) == 1
    decreases n
  {
    hide Times;
    TimesUnits(1);
    if n > 0 {
      PowerOfOne(n - 1);
    }
  }

  lemma EndIsOne(c: bv8, p: seq<bv8>)
    requires p == [1] + (Zeros(254) + [c]) && Eval(p, 1) == 0
    ensures c == 1
  {
    hide Add, Times, Eval, Zeros, Power;
    EvalFront(1, Zeros(254) + [c], 1);
    EvalLeadingZeros(254, [c], 1);
    EvalConstant(c);
    PowerOfOne(255);
    TimesUnits(1);
    AddZero(1, c);
  }

  lemma EvalConstant(c: bv8)
    ensures Eval([c], 1) == c
  {
    hide Add, Times;
    assert [c][..0] == [];
    TimesUnits(1);
    AddLaws(c, 0, 0);
  }

  lemma SpreadLinear(f: seq<bv8>, e: bv8)
    ensures Product(Spread(f), [1, e]) == Spread(Product(f, [1, e]))
  {
    hide Add, Times, Product, Spread;
    var left, right := Product(Spread(f), [1, e]), Spread(Product(f, [1, e]));
    forall k | 0 <= k < |f| + 256 ensures At(left, k) == At(right, k) {
      LinearAt(Spread(f), e, k);
      SpreadAt(f, k);
      SpreadAt(f, k - 1);
      SpreadAt(Product(f, [1, e]), k);
      LinearAt(f, e, k);
      LinearAt(f, e, k - 255);
      RegroupLinear(At(f, k), At(f, k - 255), At(f, k - 1), At(f, k - 256), e);
    }
    SameAt(left, right);
  }

  /** Another 255 factors multiply by x^255 + 1. */
  lemma {:induction false} ProductsRepeat(n: nat)
    ensures FactorProduct(n + 255) == Spread(FactorProduct(n))
    decreases n
  {
    hide Product, Alpha, Spread;
    if n == 0 {
      FullCycle();
    } else {
      ProductsRepeat(n - 1);
      AlphaWraps(n - 1);
      SpreadLinear(FactorProduct(n - 1), Alpha(n - 1));
    }
  }

  ghost predicate Palindrome(p: seq<bv8>) {
    Reverse(p) == p
  }

  lemma PalindromeAt(p: seq<bv8>)
    ensures Palindrome(p) <==> forall k: int :: At(p, k) == At(p, |p| - 1 - k)
  {
    if forall k: int :: At(p, k) == At(p, |p| - 1 - k) {
      forall k | 0 <= k < |p| ensures Reverse(p)[k] == p[k] {
        assert At(p, k) == At(p, |p| - 1 - k);
      }
    }
    if Palindrome(p) {
      forall k: int ensures At(p, k) == At(p, |p| - 1 - k) {
        if 0 <= k < |p| {
          assert Reverse(p)[k] == p[|p| - 1 - k];
        }
      }
    }
  }

  lemma {:induction false} SpreadReflects(f: seq<bv8>, k: int)
    requires Palindrome(Spread(f))
    ensures At(f, k) == At(f, |f| - 1 - k)
    decreases k + 256
  {
    hide Add, Spread, Palindrome;
    if 0 <= k < |f| {
      SpreadReflects(f, k - 255);
      PalindromeAt(Spread(f));
      var m := |f| + 254 - k;
      assert At(Spread(f), k) == At(Spread(f), m);
      SpreadAt(f, k);
      SpreadAt(f, m);
      assert m - 255 == |f| - 1 - k && m == |f| - 1 - (k - 255);
      AddLaws(At(f, k), At(f, k - 255), 0);
      AddLaws(At(f, m), At(f, m - 255), 0);
      AddCancels(At(f, k - 255), At(f, k), At(f, m - 255));
    }
  }

  lemma SpreadPalindrome(f: seq<bv8>)
    ensures Palindrome(Spread(f)) <==> Palindrome(f)
  {
    hide Add, Spread, Palindrome;
    PalindromeAt(f);
    PalindromeAt(Spread(f));
    if Palindrome(Spread(f)) {
      forall k: int ensures At(f, k) == At(f, |f| - 1 - k) {
        SpreadReflects(f, k);
      }
    }
    if Palindrome(f) {
      forall k: int ensures At(Spread(f), k) == At(Spread(f), |f| + 254 - k) {
        var m := |f| + 254 - k;
        SpreadAt(f, k);
        SpreadAt(f, m);
        assert At(f, k) == At(f, |f| - 1 - k) && At(f, k - 255) == At(f, |f| - 1 - (k - 255));
        AddLaws(At(f, k), At(f, k - 255), 0);
      }
    }
  }

  /** The divisor is the product of the factors when that reads the same backwards. */
  lemma DivisorIsProduct(n: nat)
    ensures Divisor(n) == FactorProduct(n) <==> Palindrome(FactorProduct(n))
  {
    hide FactorProduct;
    var p := FactorProduct(n);
    FactorProductMonic(n);
    if Divisor(n) == p {
      forall k | 0 <= k <= n ensures Reverse(p)[k] == p[k] {
        if k == 0 {
          assert Divisor(n)[n] == Reverse(p)[n] == p[0];
        } else {
          assert Divisor(n)[k] == Reverse(p)[k];
        }
      }
    }
    if Palindrome(p) {
      forall k | 0 <= k <= n ensures Divisor(n)[k] == p[k] {
        if k > 0 {
          assert Divisor(n)[k] == Reverse(p)[k];
        }
      }
    }
  }

  /** The encoder divides by the standard's generator exactly when the number of check words is
      at most one more than a multiple of 255. */
  lemma {:induction false} DivisorAgreesExactlyWhen(n: nat)
    ensures Divisor(n) == FactorProduct(n) <==> n % 255 <= 1
    decreases n
  {
    hide FactorProduct, Divisor, Palindrome, Spread;
    if n <= 1 {
      SmallDivisors(n);
    } else if n < 255 {
      DivisorDiffers(n);
    } else {
      var m: nat := n - 255;
      DivisorAgreesExactlyWhen(m);
      DivisorIsProduct(m);
      DivisorIsProduct(n);
      ProductsRepeat(m);
      SpreadPalindrome(FactorProduct(m));
      assert n % 255 == m % 255;
    }
  }

  /** The check words of the single word 1 already tell the divisor. */
  lemma OneWordDecides(n: nat)
    requires StandardCodeWord([1] + Residue([1], Divisor(n)), n)
    ensures Divisor(n) == FactorProduct(n)
  {
    hide Add, Times, Alpha, Residue, Divisor, FactorProduct;
    var h, p := Divisor(n), FactorProduct(n);
    var one: seq<bv8> := [1];
    var code := one + Residue(one, h);
    Division(one, h);
    var q := Quotient(one, h);
    ProductOfConstant(q[0], h);
    assert q == [q[0]];
    TimesUnits(q[0]);
    assert code[0] == 1 == q[0];
    var s :| code == Product(s, p);
    assert s == [s[0]];
    ProductOfConstant(s[0], p);
    FactorProductMonic(n);
    TimesUnits(s[0]);
    assert s[0] == 1;
    forall i | 0 <= i <= n ensures h[i] == p[i] {
      TimesUnits(h[i]);
      TimesUnits(p[i]);
      assert code[i] == Times(1, h[i]) == Times(1, p[i]);
    }
  }

  /** Leading zeros leave the register empty. */
  lemma {:induction false} LeadingZeros(k: nat, words: seq<bv8>, h: seq<bv8>)
    requires |h| > 0
    ensures Residue(Zeros(k) + words, h) == Residue(words, h)
    decreases k + |words|
  {
    hide Add, Times, Feed;
    var all := Zeros(k) + words;
    if words != [] {
      var m := |words| - 1;
      assert all[..|all| - 1] == Zeros(k) + words[..m];
      LeadingZeros(k, words[..m], h);
    } else if k > 0 {
      assert all[..|all| - 1] == Zeros(k - 1) + [];
      LeadingZeros(k - 1, [], h);
      FeedZero(h);
    }
  }

  lemma FeedZero(h: seq<bv8>)
    requires |h| > 0
    ensures Feed(Zeros(|h| - 1), 0, h) == Zeros(|h| - 1)
  {
    hide Add, Times;
    AddLaws(0, 0, 0);
    forall i | 0 <= i < |h| ensures Times(h[i], 0) == 0 && Times(0, h[i]) == 0 {
      TimesUnits(h[i]);
    }
  }

  /** A list followed by a register is a multiple of the standard's generator only if the register is
      the residue for that generator. */
  lemma StandardIsResidue(words: seq<bv8>, r: seq<bv8>, n: nat)
    requires |r| == n
    ensures StandardCodeWord(words + r, n) <==> r == Residue(words, FactorProduct(n))
  {
    hide Add, Times, Residue, Quotient, FactorProduct;
    var p := FactorProduct(n);
    FactorProductMonic(n);
    Division(words, p);
    var own := Residue(words, p);
    if StandardCodeWord(words + r, n) {
      var q :| words + r == Product(q, p);
      assert |q| == |words|;
      assert (words + r)[..|words|] == words == (words + own)[..|words|];
      QuotientIsUnique(q, Quotient(words, p), p);
      assert r == (words + r)[|words|..] == (words + own)[|words|..] == own;
    }
  }

  /** For every word list of the length, the words followed by the encoder's check words are a code
      word. */
  ghost predicate AlwaysStandard(n: nat, length: nat) {
    forall words: seq<bv8> | |words| == length :: StandardCodeWord(words + Residue(words, Divisor(n)), n)
  }

  /** The encoder's words are always code words of the standard exactly for these numbers of check
      words, whatever the number of data words; for all others the register divides by another
      polynomial, and already the word 1 behind zeros gets the wrong check words. */
  lemma StandardExactlyWhen(n: nat, length: nat)
    requires length > 0
    ensures AlwaysStandard(n, length) <==> n % 255 <= 1
  {
    hide Add, Times, Residue, Divisor, FactorProduct, StandardCodeWord;
    DivisorAgreesExactlyWhen(n);
    forall words: seq<bv8>
      ensures StandardCodeWord(words + Residue(words, Divisor(n)), n)
         <==> Residue(words, Divisor(n)) == Residue(words, FactorProduct(n))
    {
      StandardIsResidue(words, Residue(words, Divisor(n)), n);
    }
    if AlwaysStandard(n, length) {
      var one: seq<bv8> := [1];
      var late := Zeros(length - 1) + one;
      LeadingZeros(length - 1, one, Divisor(n));
      LeadingZeros(length - 1, one, FactorProduct(n));
      assert StandardCodeWord(late + Residue(late, Divisor(n)), n);
      assert StandardCodeWord(one + Residue(one, Divisor(n)), n);
      OneWordDecides(n);
    }
  }
}

/** Polynomials as coefficient lists, constant term first, and the interpolation theory
    secret sharing rests on. Evaluation is over the integers; results are compared
    modulo 3329. */
module Poly {
  import opened Field

  type Coeffs = seq<int>

  function Eval(c: Coeffs, x: int): int {
    if c == [] then 0 else c[0] + x * Eval(c[1..], x)
  }

  ghost predicate Canonical(c: Coeffs) {
    forall i :: 0 <= i < |c| ==> 0 <= c[i] < Q
  }

  /** No two points fall on the same residue. */
  ghost predicate Distinct(xs: seq<int>) {
    forall i, j :: 0 <= i < j < |xs| ==> !Cong(xs[i], xs[j])
  }

  /** c takes the value ys[i] at xs[i], modulo 3329. */
  ghost predicate Fits(c: Coeffs, xs: seq<int>, ys: seq<int>)
    requires |xs| == |ys|
  {
    forall i :: 0 <= i < |xs| ==> Cong(Eval(c, xs[i]), ys[i])
  }

  ghost predicate Vanishes(c: Coeffs) {
    forall i :: 0 <= i < |c| ==> Cong(c[i], 0)
  }

  lemma {:induction false} EvalCong(c: Coeffs, x: int, y: int)
    requires Cong(x, y)
    ensures Cong(Eval(c, x), Eval(c, y))
  {
    if c != [] {
      EvalCong(c[1..], x, y);
      CongMul(x, y, Eval(c[1..], x), Eval(c[1..], y));
    }
  }

  lemma EvalAtZero(c: Coeffs)
    requires c != []
    ensures Eval(c, 0) == c[0]
  {}

  lemma {:induction false} VanishingEval(c: Coeffs, x: int)
    requires Vanishes(c)
    ensures Cong(Eval(c, x), 0)
  {
    if c != [] {
      VanishingEval(c[1..], x);
      hide Cong;
      MultipleIsZero(Eval(c[1..], x), x);
      CongAdd(c[0], 0, x * Eval(c[1..], x), 0);
    }
  }

  // ----- polynomial arithmetic ------------------------------------------------

  function Add(c: Coeffs, d: Coeffs): (r: Coeffs)
    ensures |r| == if |c| < |d| then |d| else |c|
  {
    if c == [] then d else if d == [] then c else [c[0] + d[0]] + Add(c[1..], d[1..])
  }

  function Scale(k: int, c: Coeffs): (r: Coeffs)
    ensures |r| == |c|
    ensures forall i :: 0 <= i < |c| ==> r[i] == k * c[i]
  {
    seq(|c|, i requires 0 <= i < |c| => k * c[i])
  }

  /** (x - r) * c(x). */
  function TimesLinear(c: Coeffs, r: int): (p: Coeffs)
    ensures |p| == |c| + 1
  {
    Add([0] + c, Scale(-r, c))
  }

  lemma EvalAddStep(x: int, a: int, b: int, u: int, v: int)
    ensures (a + b) + x * (u + v) == (a + x * u) + (b + x * v)
  {}

  lemma {:induction false} EvalAdd(c: Coeffs, d: Coeffs, x: int)
    ensures Eval(Add(c, d), x) == Eval(c, x) + Eval(d, x)
  {
    if c != [] && d != [] {
      EvalAdd(c[1..], d[1..], x);
      assert Add(c, d)[1..] == Add(c[1..], d[1..]);
      EvalAddStep(x, c[0], d[0], Eval(c[1..], x), Eval(d[1..], x));
    }
  }

  lemma EvalScaleStep(k: int, x: int, a: int, u: int)
    ensures k * (a + x * u) == k * a + x * (k * u)
  {}

  lemma {:induction false} EvalScale(k: int, c: Coeffs, x: int)
    ensures Eval(Scale(k, c), x) == k * Eval(c, x)
  {
    if c != [] {
      EvalScale(k, c[1..], x);
      assert Scale(k, c)[1..] == Scale(k, c[1..]);
      EvalScaleStep(k, x, c[0], Eval(c[1..], x));
    }
  }

  lemma EvalTimesLinear(c: Coeffs, r: int, x: int)
    ensures Eval(TimesLinear(c, r), x) == Eval(c, x) * (x - r)
  {
    EvalAdd([0] + c, Scale(-r, c), x);
    EvalScale(-r, c, x);
    assert ([0] + c)[1..] == c;
    LinearRing(x, r, Eval(c, x));
  }

  lemma LinearRing(x: int, r: int, e: int)
    ensures x * e + (-r) * e == e * (x - r)
  {}

  // ----- a polynomial of length k with k roots vanishes -------------------------

  /** Synthetic division by (x - r). */
  function Quotient(c: Coeffs, r: int): (q: Coeffs)
    ensures |q| == if c == [] then 0 else |c| - 1
  {
    if |c| <= 1 then [] else [Eval(c[1..], r)] + Quotient(c[1..], r)
  }

  lemma DivisionRing(x: int, r: int, a: int, u: int, q: int)
    ensures a + x * (u + (x - r) * q) == a + r * u + (x - r) * (u + x * q)
  {}

  lemma {:induction false} Division(c: Coeffs, r: int, x: int)
    ensures Eval(c, x) == Eval(c, r) + (x - r) * Eval(Quotient(c, r), x)
  {
    if |c| == 1 {
      assert c[1..] == [];
    } else if c != [] {
      Division(c[1..], r, x);
      assert Quotient(c, r)[1..] == Quotient(c[1..], r);
      DivisionRing(x, r, c[0], Eval(c[1..], r), Eval(Quotient(c[1..], r), x));
    }
  }

  lemma ConstantVanishes(a: int, b: int)
    requires Cong(a + b, 0) && Cong(b, 0)
    ensures Cong(a, 0)
  {}

  lemma {:induction false} VanishingQuotient(c: Coeffs, r: int)
    requires Vanishes(Quotient(c, r)) && Cong(Eval(c, r), 0)
    ensures Vanishes(c)
  {
    if |c| == 1 {
      assert c[1..] == [];
    } else if c != [] {
      var q := Quotient(c, r);
      var u := Eval(c[1..], r);
      assert q[0] == u && q[1..] == Quotient(c[1..], r);
      VanishingQuotient(c[1..], r);
      assert Eval(c, r) == c[0] + r * u;
      hide Quotient, Eval;
      MultipleIsZero(u, r);
      ConstantVanishes(c[0], r * u);
      assert forall i :: 1 <= i < |c| ==> c[i] == c[1..][i - 1];
    }
  }

  lemma QuotientRoot(c: Coeffs, r: int, x: int)
    requires !Cong(x, r)
    requires Cong(Eval(c, r), 0) && Cong(Eval(c, x), 0)
    ensures Cong(Eval(Quotient(c, r), x), 0)
  {
    hide Eval, Quotient;
    Division(c, r, x);
    CongAdd(Eval(c, x), 0, Eval(c, r), 0);
    Euclid(x - r, Eval(Quotient(c, r), x));
  }

  lemma {:induction false} TooManyRoots(c: Coeffs, xs: seq<int>)
    requires |c| <= |xs| && Distinct(xs)
    requires forall i :: 0 <= i < |xs| ==> Cong(Eval(c, xs[i]), 0)
    ensures Vanishes(c)
    decreases |xs|
  {
    if c != [] {
      var k := |xs| - 1;
      var q := Quotient(c, xs[k]);
      forall i | 0 <= i < k
        ensures Cong(Eval(q, xs[..k][i]), 0)
      {
        QuotientRoot(c, xs[k], xs[i]);
      }
      TooManyRoots(q, xs[..k]);
      VanishingQuotient(c, xs[k]);
    }
  }

  function Difference(c: Coeffs, d: Coeffs): (r: Coeffs)
    ensures |r| == if |c| < |d| then |d| else |c|
  {
    Add(c, Scale(-1, d))
  }

  lemma EvalDifference(c: Coeffs, d: Coeffs, x: int)
    ensures Cong(Eval(Difference(c, d), x), 0) <==> Cong(Eval(c, x), Eval(d, x))
  {
    EvalAdd(c, Scale(-1, d), x);
    EvalScale(-1, d, x);
  }

  /** Two polynomials of length at most k that agree at k distinct points agree everywhere. */
  lemma Agreement(c: Coeffs, d: Coeffs, xs: seq<int>, x: int)
    requires |c| <= |xs| && |d| <= |xs| && Distinct(xs)
    requires forall i :: 0 <= i < |xs| ==> Cong(Eval(c, xs[i]), Eval(d, xs[i]))
    ensures Vanishes(Difference(c, d))
    ensures Cong(Eval(c, x), Eval(d, x))
  {
    hide Eval, Difference, Distinct, Cong;
    var e := Difference(c, d);
    forall i | 0 <= i < |xs|
      ensures Cong(Eval(e, xs[i]), 0)
    {
      EvalDifference(c, d, xs[i]);
    }
    TooManyRoots(e, xs);
    VanishingEval(e, x);
    EvalDifference(c, d, x);
  }

  lemma {:induction false} AddAt(c: Coeffs, d: Coeffs, i: nat)
    requires |c| == |d| && i < |c|
    ensures Add(c, d)[i] == c[i] + d[i]
  {
    if i > 0 {
      AddAt(c[1..], d[1..], i - 1);
    }
  }

  /** A canonical coefficient list is determined by its values at as many distinct points. */
  lemma UniqueFit(c: Coeffs, d: Coeffs, xs: seq<int>)
    requires |c| == |d| <= |xs| && Distinct(xs)
    requires Canonical(c) && Canonical(d)
    requires forall i :: 0 <= i < |xs| ==> Cong(Eval(c, xs[i]), Eval(d, xs[i]))
    ensures c == d
  {
    hide Distinct, Eval;
    Agreement(c, d, xs, 0);
    forall i | 0 <= i < |c|
      ensures c[i] == d[i]
    {
      assert Cong(Difference(c, d)[i], 0);
      AddAt(c, Scale(-1, d), i);
    }
  }

  // ----- products of linear factors ---------------------------------------------

  /** The product of (x - xs[j]) over j < m with j outside omit. */
  function Product(xs: seq<int>, omit: set<int>, m: nat, x: int): int
    requires m <= |xs|
  {
    if m == 0 then 1
    else if m - 1 in omit then Product(xs, omit, m - 1, x)
    else Product(xs, omit, m - 1, x) * (x - xs[m - 1])
  }

  /** The same product as a coefficient list. */
  function ProductPoly(xs: seq<int>, omit: set<int>, m: nat): (p: Coeffs)
    requires m <= |xs|
    ensures 1 <= |p| <= m + 1
  {
    if m == 0 then [1]
    else if m - 1 in omit then ProductPoly(xs, omit, m - 1)
    else TimesLinear(ProductPoly(xs, omit, m - 1), xs[m - 1])
  }

  lemma {:induction false} EvalProduct(xs: seq<int>, omit: set<int>, m: nat, x: int)
    requires m <= |xs|
    ensures Eval(ProductPoly(xs, omit, m), x) == Product(xs, omit, m, x)
  {
    if m == 0 {
      assert [1][1..] == [];
    } else {
      hide Eval;
      EvalProduct(xs, omit, m - 1, x);
      if m - 1 !in omit {
        EvalTimesLinear(ProductPoly(xs, omit, m - 1), xs[m - 1], x);
      }
    }
  }

  /** The indices below m whose factor is present. */
  function Kept(omit: set<int>, m: nat): (k: set<int>)
    ensures forall j :: j in k <==> 0 <= j < m && j !in omit
  {
    set j | 0 <= j < m && j !in omit
  }

  /** The length of a product is one more than the number of factors it has. */
  lemma {:induction false} ProductLength(xs: seq<int>, omit: set<int>, m: nat)
    requires m <= |xs|
    ensures |ProductPoly(xs, omit, m)| == |Kept(omit, m)| + 1
  {
    if m == 0 {
      assert Kept(omit, 0) == {};
    } else {
      ProductLength(xs, omit, m - 1);
      if m - 1 in omit {
        assert Kept(omit, m) == Kept(omit, m - 1);
      } else {
        assert Kept(omit, m) == Kept(omit, m - 1) + {m - 1};
      }
    }
  }

  lemma BasisLength(xs: seq<int>, i: nat)
    requires i < |xs|
    ensures |ProductPoly(xs, {i}, |xs|)| == |xs|
  {
    ProductLength(xs, {i}, |xs|);
    KeptAllBut(i, |xs|);
  }

  lemma {:induction false} KeptAllBut(i: nat, m: nat)
    ensures |Kept({i}, m)| == if i < m then m - 1 else m
  {
    if m == 0 {
      assert Kept({i}, 0) == {};
    } else {
      KeptAllBut(i, m - 1);
      if m - 1 == i {
        assert Kept({i}, m) == Kept({i}, m - 1);
      } else {
        assert Kept({i}, m) == Kept({i}, m - 1) + {m - 1};
      }
    }
  }

  lemma {:induction false} ProductZero(xs: seq<int>, omit: set<int>, m: nat, x: int, j: nat)
    requires j < m <= |xs| && j !in omit
    requires Cong(x, xs[j])
    ensures Cong(Product(xs, omit, m, x), 0)
  {
    if j == m - 1 {
      MultipleIsZero(x - xs[j], Product(xs, omit, m - 1, x));
    } else {
      ProductZero(xs, omit, m - 1, x, j);
      if m - 1 !in omit {
        MultipleIsZero(Product(xs, omit, m - 1, x), x - xs[m - 1]);
      }
    }
  }

  lemma {:induction false} ProductNonzero(xs: seq<int>, omit: set<int>, m: nat, x: int)
    requires m <= |xs|
    requires forall j :: 0 <= j < m && j !in omit ==> !Cong(x, xs[j])
    ensures !Cong(Product(xs, omit, m, x), 0)
  {
    if m > 0 {
      ProductNonzero(xs, omit, m - 1, x);
      if m - 1 !in omit && Cong(Product(xs, omit, m, x), 0) {
        Euclid(Product(xs, omit, m - 1, x), x - xs[m - 1]);
      }
    }
  }

  // ----- Lagrange interpolation -----------------------------------------------

  /** The inverse of the i-th Lagrange denominator. */
  function DenomInv(xs: seq<int>, i: nat): Elem
    requires i < |xs|
  {
    ModInv(Product(xs, {i}, |xs|, xs[i]))
  }

  /** The value y carried by the i-th basis polynomial. */
  function Summand(xs: seq<int>, y: int, i: nat, x: int): int
    requires i < |xs|
  {
    y * DenomInv(xs, i) * Product(xs, {i}, |xs|, x)
  }

  /** The first m summands of the Lagrange form, evaluated at x. */
  function LagrangeSum(xs: seq<int>, ys: seq<int>, m: nat, x: int): int
    requires m <= |xs| == |ys|
  {
    if m == 0 then 0
    else LagrangeSum(xs, ys, m - 1, x) + Summand(xs, ys[m - 1], m - 1, x)
  }

  /** The same sum as a coefficient list. */
  function LagrangePoly(xs: seq<int>, ys: seq<int>, m: nat): (p: Coeffs)
    requires m <= |xs| == |ys|
    ensures |p| <= |xs|
  {
    if m == 0 then []
    else
      BasisLength(xs, m - 1);
      Add(LagrangePoly(xs, ys, m - 1),
          Scale(ys[m - 1] * DenomInv(xs, m - 1), ProductPoly(xs, {m - 1}, |xs|)))
  }

  lemma {:induction false} EvalLagrange(xs: seq<int>, ys: seq<int>, m: nat, x: int)
    requires m <= |xs| == |ys|
    ensures Eval(LagrangePoly(xs, ys, m), x) == LagrangeSum(xs, ys, m, x)
  {
    if m > 0 {
      EvalLagrange(xs, ys, m - 1, x);
      hide Eval, Product, ProductPoly, DenomInv;
      var k, p := ys[m - 1] * DenomInv(xs, m - 1), ProductPoly(xs, {m - 1}, |xs|);
      EvalAdd(LagrangePoly(xs, ys, m - 1), Scale(k, p), x);
      EvalScale(k, p, x);
      EvalProduct(xs, {m - 1}, |xs|, x);
    }
  }

  /** Every denominator is invertible exactly when its point is on no other point's residue. */
  lemma DenominatorInvertible(xs: seq<int>, i: nat)
    requires i < |xs|
    ensures DenomInv(xs, i) != 0 <==> forall j :: 0 <= j < |xs| && j != i ==> !Cong(xs[i], xs[j])
    ensures DenomInv(xs, i) != 0 ==> Cong(DenomInv(xs, i) * Product(xs, {i}, |xs|, xs[i]), 1)
  {
    ModInvCorrect(Product(xs, {i}, |xs|, xs[i]));
    if j :| 0 <= j < |xs| && j != i && Cong(xs[i], xs[j]) {
      ProductZero(xs, {i}, |xs|, xs[i], j);
    } else {
      ProductNonzero(xs, {i}, |xs|, xs[i]);
    }
  }

  /** The i-th summand contributes ys[i] at its own point and nothing at the others. */
  lemma SummandAtPoint(xs: seq<int>, y: int, i: nat, at: nat)
    requires i < |xs| && at < |xs| && Distinct(xs)
    ensures Cong(Summand(xs, y, i, xs[at]), if i == at then y else 0)
  {
    var p := Product(xs, {i}, |xs|, xs[at]);
    if i == at {
      DenominatorInvertible(xs, i);
      CongMul(y, y, DenomInv(xs, i) * p, 1);
      assert y * DenomInv(xs, i) * p == y * (DenomInv(xs, i) * p);
    } else {
      ProductZero(xs, {i}, |xs|, xs[at], at);
      MultipleIsZero(p, y * DenomInv(xs, i));
    }
  }

  lemma {:induction false} LagrangeAtPoint(xs: seq<int>, ys: seq<int>, m: nat, at: nat)
    requires m <= |xs| == |ys| && at < |xs| && Distinct(xs)
    ensures Cong(LagrangeSum(xs, ys, m, xs[at]), if at < m then ys[at] else 0)
  {
    if m > 0 {
      hide Summand, Cong, Distinct;
      LagrangeAtPoint(xs, ys, m - 1, at);
      SummandAtPoint(xs, ys[m - 1], m - 1, at);
      CongAdd(LagrangeSum(xs, ys, m - 1, xs[at]), if at < m - 1 then ys[at] else 0,
              Summand(xs, ys[m - 1], m - 1, xs[at]), if m - 1 == at then ys[m - 1] else 0);
    }
  }

  /** Through k distinct points there is a polynomial of length at most k. */
  lemma InterpolantFits(xs: seq<int>, ys: seq<int>)
    requires |xs| == |ys| && Distinct(xs)
    ensures Fits(LagrangePoly(xs, ys, |xs|), xs, ys)
  {
    forall i | 0 <= i < |xs|
      ensures Cong(Eval(LagrangePoly(xs, ys, |xs|), xs[i]), ys[i])
    {
      EvalLagrange(xs, ys, |xs|, xs[i]);
      LagrangeAtPoint(xs, ys, |xs|, i);
    }
  }

  /** The Lagrange form computes, at any point, any polynomial short enough to be pinned
      down by the points. */
  lemma Interpolation(c: Coeffs, xs: seq<int>, ys: seq<int>, x: int)
    requires |c| <= |xs| == |ys| && Distinct(xs) && Fits(c, xs, ys)
    ensures Cong(LagrangeSum(xs, ys, |xs|, x), Eval(c, x))
  {
    hide Eval, LagrangePoly, LagrangeSum, Cong, Distinct;
    InterpolantFits(xs, ys);
    var p := LagrangePoly(xs, ys, |xs|);
    forall i | 0 <= i < |xs|
      ensures Cong(Eval(p, xs[i]), Eval(c, xs[i]))
    {
      CongJoin(Eval(p, xs[i]), ys[i], Eval(c, xs[i]));
    }
    Agreement(p, c, xs, x);
    EvalLagrange(xs, ys, |xs|, x);
  }

  // ----- reduction to canonical coefficients ----------------------------------

  function Reduce(c: Coeffs): (r: Coeffs)
    ensures |r| == |c| && Canonical(r)
    ensures forall i :: 0 <= i < |c| ==> Cong(r[i], c[i])
  {
    seq(|c|, i requires 0 <= i < |c| => c[i] % Q)
  }

  lemma {:induction false} EvalCoeffCong(c: Coeffs, d: Coeffs, x: int)
    requires |c| == |d|
    requires forall i :: 0 <= i < |c| ==> Cong(c[i], d[i])
    ensures Cong(Eval(c, x), Eval(d, x))
  {
    if c != [] {
      EvalCoeffCong(c[1..], d[1..], x);
      hide Cong;
      CongFromWitness(x, x, 0);
      CongMul(x, x, Eval(c[1..], x), Eval(d[1..], x));
      CongAdd(c[0], d[0], x * Eval(c[1..], x), x * Eval(d[1..], x));
    }
  }

  /** Appending zero coefficients changes no value. */
  lemma {:induction false} EvalPad(c: Coeffs, n: nat, x: int)
    ensures Eval(c + seq(n, _ => 0), x) == Eval(c, x)
  {
    var z := seq(n, _ => 0);
    if c != [] {
      EvalPad(c[1..], n, x);
      assert (c + z)[1..] == c[1..] + z;
    } else if n > 0 {
      EvalPad([], n - 1, x);
      assert (c + z)[1..] == [] + seq(n - 1, _ => 0);
    }
  }
}

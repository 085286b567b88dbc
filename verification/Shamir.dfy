/** Shamir sharing over GF(3329) as mathematics: when reconstruction at zero recovers the
    secret, and what too few shares say about it. Both programs are proved against this. */
module Shamir {
  import opened Field
  import opened Poly

  /** What every reconstruction routine of the repository computes. */
  function LagrangeAtZero(xs: seq<int>, ys: seq<int>): Elem
    requires |xs| == |ys|
  {
    LagrangeSum(xs, ys, |xs|, 0) % Q
  }

  /** The canonical share values of a polynomial. */
  function ValuesAt(c: Coeffs, xs: seq<int>): (ys: seq<Elem>)
    ensures |ys| == |xs|
  {
    seq(|xs|, i requires 0 <= i < |xs| => Eval(c, xs[i]) % Q)
  }

  ghost predicate OneZero(xs: seq<int>) {
    exists z :: 0 <= z < |xs| && ZeroOnlyAt(xs, z)
  }

  ghost predicate ZeroOnlyAt(xs: seq<int>, z: nat)
    requires z < |xs|
  {
    forall i :: 0 <= i < |xs| ==> (Cong(xs[i], 0) <==> i == z)
  }

  /** The id lists reconstruction works for: no two ids on the same residue, or exactly one
      id on residue zero (its share is the secret, and gets all the weight). */
  ghost predicate Recoverable(xs: seq<int>) {
    Distinct(xs) || OneZero(xs)
  }

  // ----- reconstruction is correct ------------------------------------------------

  lemma ReconstructDistinct(c: Coeffs, xs: seq<int>, ys: seq<int>)
    requires 1 <= |c| <= |xs| == |ys| && Distinct(xs) && Fits(c, xs, ys)
    ensures LagrangeAtZero(xs, ys) == c[0] % Q
  {
    Interpolation(c, xs, ys, 0);
    EvalAtZero(c);
  }

  lemma {:induction false} ProductCong(xs: seq<int>, omit: set<int>, m: nat, x: int, y: int)
    requires m <= |xs| && Cong(x, y)
    ensures Cong(Product(xs, omit, m, x), Product(xs, omit, m, y))
  {
    if m > 0 {
      ProductCong(xs, omit, m - 1, x, y);
      if m - 1 !in omit {
        CongMul(Product(xs, omit, m - 1, x), Product(xs, omit, m - 1, y), x - xs[m - 1], y - xs[m - 1]);
      }
    }
  }

  lemma SummandNull(xs: seq<int>, y: int, i: nat, x: int)
    requires i < |xs|
    requires Cong(y, 0) || DenomInv(xs, i) == 0 || Cong(Product(xs, {i}, |xs|, x), 0)
    ensures Cong(Summand(xs, y, i, x), 0)
  {
    hide Cong, Product;
    var d, p := DenomInv(xs, i), Product(xs, {i}, |xs|, x);
    if Cong(y, 0) {
      MultipleIsZero(y, d);
      MultipleIsZero(y * d, p);
    } else if d == 0 {
      CongFromWitness(Summand(xs, y, i, x), 0, 0);
    } else {
      MultipleIsZero(p, y * d);
    }
  }

  lemma {:induction false} SumWithOneZero(xs: seq<int>, ys: seq<int>, z: nat, m: nat)
    requires z < |xs| == |ys| && m <= |xs| && ZeroOnlyAt(xs, z)
    ensures Cong(LagrangeSum(xs, ys, m, 0), if z < m then ys[z] else 0)
  {
    if m > 0 {
      SumWithOneZero(xs, ys, z, m - 1);
      SummandWithOneZero(xs, ys[m - 1], z, m - 1);
      CongAdd(LagrangeSum(xs, ys, m - 1, 0), if z < m - 1 then ys[z] else 0,
              Summand(xs, ys[m - 1], m - 1, 0), if m - 1 == z then ys[z] else 0);
    }
  }

  lemma SummandWithOneZero(xs: seq<int>, y: int, z: nat, i: nat)
    requires z < |xs| && i < |xs| && ZeroOnlyAt(xs, z)
    ensures Cong(Summand(xs, y, i, 0), if i == z then y else 0)
  {
    hide Product, DenomInv;
    if i == z {
      forall j | 0 <= j < |xs| && j != z
        ensures !Cong(xs[z], xs[j])
      {
        assert Cong(xs[j], 0) <==> j == z;
      }
      DenominatorInvertible(xs, z);
      ProductCong(xs, {z}, |xs|, 0, xs[z]);
      UnitSummand(y, DenomInv(xs, z), Product(xs, {z}, |xs|, 0), Product(xs, {z}, |xs|, xs[z]));
    } else {
      ProductZero(xs, {i}, |xs|, 0, z);
      SummandNull(xs, y, i, 0);
    }
  }

  lemma UnitSummand(y: int, d: int, p: int, p': int)
    requires Cong(d * p', 1) && Cong(p, p')
    ensures Cong(y * d * p, y)
  {
    hide Cong;
    CongMul(y * d, y * d, p, p') by { assert Cong(y * d, y * d) by { CongFromWitness(y * d, y * d, 0); } }
    CongMul(y, y, d * p', 1) by { assert Cong(y, y) by { CongFromWitness(y, y, 0); } }
    assert y * d * p' == y * (d * p');
    CongTrans(y * d * p, y * d * p', y);
  }

  /** Any k shares of a polynomial of length at most k give back its constant term, in
      whatever order they come and whatever representatives the values are. */
  lemma Reconstruct(c: Coeffs, xs: seq<int>, ys: seq<int>)
    requires 1 <= |c| <= |xs| == |ys| && Recoverable(xs) && Fits(c, xs, ys)
    ensures LagrangeAtZero(xs, ys) == c[0] % Q
  {
    hide Eval, LagrangeSum;
    if Distinct(xs) {
      ReconstructDistinct(c, xs, ys);
    } else {
      var z :| 0 <= z < |xs| && ZeroOnlyAt(xs, z);
      SumWithOneZero(xs, ys, z, |xs|);
      EvalCong(c, xs[z], 0);
      EvalAtZero(c);
      assert Cong(Eval(c, xs[z]), ys[z]);
    }
  }

  // ----- and only for the recoverable id lists ------------------------------------

  lemma {:induction false} SumNull(xs: seq<int>, ys: seq<int>, m: nat)
    requires m <= |xs| == |ys|
    requires forall i :: 0 <= i < m ==> Cong(Summand(xs, ys[i], i, 0), 0)
    ensures Cong(LagrangeSum(xs, ys, m, 0), 0)
  {
    hide Summand;
    if m > 0 {
      SumNull(xs, ys, m - 1);
    }
  }

  /** No other id falls on the residue of the i-th. */
  predicate Alone(xs: seq<int>, i: nat)
    requires i < |xs|
  {
    forall j :: 0 <= j < |xs| && j != i ==> (xs[i] - xs[j]) % Q != 0
  }

  function Crowded(xs: seq<int>): set<int> {
    set i | 0 <= i < |xs| && !Alone(xs, i)
  }

  /** How many ids have a residue to themselves. */
  function AloneCount(xs: seq<int>): nat {
    |Kept(Crowded(xs), |xs|)|
  }

  lemma SummandAtCollision(xs: seq<int>, y: int, m: nat)
    requires m < |xs|
    requires Cong(Eval(ProductPoly(xs, Crowded(xs), |xs|), xs[m]), y)
    ensures Cong(Summand(xs, y, m, 0), 0)
  {
    hide Eval, ProductPoly, Product, Summand;
    if Alone(xs, m) {
      ProductZero(xs, Crowded(xs), |xs|, xs[m], m);
      EvalProduct(xs, Crowded(xs), |xs|, xs[m]);
    } else {
      DenominatorInvertible(xs, m);
      var j :| 0 <= j < |xs| && j != m && (xs[m] - xs[j]) % Q == 0;
      assert Cong(xs[m], xs[j]);
    }
    SummandNull(xs, y, m, 0);
  }

  /** Crowded residues: the polynomial whose roots are the other ids is lost. Its length is one
      more than their number. */
  lemma CollisionLoses(xs: seq<int>) returns (c: Coeffs)
    requires forall m :: 0 <= m < |xs| ==> !Cong(xs[m], 0)
    ensures |c| == AloneCount(xs) + 1 && !Cong(Eval(c, 0), 0)
    ensures forall ys: seq<int> :: |ys| == |xs| && Fits(c, xs, ys) ==> LagrangeAtZero(xs, ys) == 0
  {
    hide Eval, Product, ProductPoly;
    var k, omit := |xs|, Crowded(xs);
    c := ProductPoly(xs, omit, k);
    ProductLength(xs, omit, k);
    EvalProduct(xs, omit, k, 0);
    forall m | 0 <= m < k
      ensures !Cong(0, xs[m])
    {
      assert !Cong(xs[m], 0);
    }
    ProductNonzero(xs, omit, k, 0);
    forall ys: seq<int> | |ys| == |xs| && Fits(c, xs, ys)
      ensures LagrangeAtZero(xs, ys) == 0
    {
      forall m | 0 <= m < k
        ensures Cong(Summand(xs, ys[m], m, 0), 0)
      {
        SummandAtCollision(xs, ys[m], m);
      }
      SumNull(xs, ys, k);
    }
  }

  /** Two ids on residue zero: every weight is zero. */
  lemma TwoZerosLose(xs: seq<int>, ys: seq<int>, i: nat, j: nat)
    requires i < j < |xs| == |ys| && Cong(xs[i], 0) && Cong(xs[j], 0)
    ensures LagrangeAtZero(xs, ys) == 0
  {
    forall m | 0 <= m < |xs|
      ensures Cong(Summand(xs, ys[m], m, 0), 0)
    {
      ProductZero(xs, {m}, |xs|, 0, if m == i then j else i);
      SummandNull(xs, ys[m], m, 0);
    }
    SumNull(xs, ys, |xs|);
  }

  /** An id list recovers every secret shared with threshold t. */
  ghost predicate AlwaysRecovers(xs: seq<int>, t: nat) {
    forall c: Coeffs :: 1 <= |c| == t && Canonical(c) ==> LagrangeAtZero(xs, ValuesAt(c, xs)) == c[0]
  }

  lemma ValuesFit(c: Coeffs, d: Coeffs, xs: seq<int>)
    requires forall i :: 0 <= i < |xs| ==> Cong(Eval(d, xs[i]), Eval(c, xs[i]))
    ensures Fits(c, xs, ValuesAt(d, xs))
  {
    hide Eval;
  }

  /** Canonical, and of full length, but with the values of c. */
  function Canonicalize(c: Coeffs, n: nat): (d: Coeffs)
    requires |c| <= n
    ensures |d| == n && Canonical(d)
  {
    Reduce(c + seq(n - |c|, _ => 0))
  }

  lemma CanonicalizeEval(c: Coeffs, n: nat, x: int)
    requires |c| <= n
    ensures Cong(Eval(Canonicalize(c, n), x), Eval(c, x))
  {
    var p := c + seq(n - |c|, _ => 0);
    EvalPad(c, n - |c|, x);
    EvalCoeffCong(Reduce(p), p, x);
  }

  /** An id list that is not recoverable loses some polynomial of every length above the
      number of ids alone on their residue. */
  lemma UnrecoverableLoses(xs: seq<int>, t: nat) returns (d: Coeffs)
    requires 1 <= t && AloneCount(xs) < t && !Recoverable(xs)
    ensures |d| == t && Canonical(d)
    ensures LagrangeAtZero(xs, ValuesAt(d, xs)) != d[0]
  {
    hide Eval, Canonicalize, LagrangeAtZero, ValuesAt, Distinct;
    if z :| 0 <= z < |xs| && Cong(xs[z], 0) {
      d := Canonicalize([1], t);
      assert !ZeroOnlyAt(xs, z);
      var w :| 0 <= w < |xs| && w != z && Cong(xs[w], 0);
      TwoZerosLose(xs, ValuesAt(d, xs), if w < z then w else z, if w < z then z else w);
      CanonicalizeEval([1], t, 0);
      EvalAtZero([1]);
    } else {
      var c := CollisionLoses(xs);
      d := Canonicalize(c, t);
      forall m | 0 <= m < |xs|
        ensures Cong(Eval(d, xs[m]), Eval(c, xs[m]))
      {
        CanonicalizeEval(c, t, xs[m]);
      }
      ValuesFit(c, d, xs);
      CanonicalizeEval(c, t, 0);
    }
    EvalAtZero(d);
  }

  // ----- the sum is linear in the values ----------------------------------------------------

  lemma SummandLinear(xs: seq<int>, a: int, y: int, z: int, i: nat, x: int)
    requires i < |xs|
    ensures Summand(xs, a * y + z, i, x) == a * Summand(xs, y, i, x) + Summand(xs, z, i, x)
  {
    LinearRing3(a, y, z, DenomInv(xs, i), Product(xs, {i}, |xs|, x));
  }

  lemma LinearRing3(a: int, y: int, z: int, d: int, p: int)
    ensures (a * y + z) * d * p == a * (y * d * p) + z * d * p
  {
    assert (a * y + z) * d == a * (y * d) + z * d;
  }

  lemma {:induction false} SumLinear(xs: seq<int>, a: int, ys: seq<int>, zs: seq<int>, ws: seq<int>, m: nat, x: int)
    requires m <= |xs| == |ys| == |zs| == |ws|
    requires forall i :: 0 <= i < m ==> ws[i] == a * ys[i] + zs[i]
    ensures LagrangeSum(xs, ws, m, x) == a * LagrangeSum(xs, ys, m, x) + LagrangeSum(xs, zs, m, x)
  {
    if m > 0 {
      hide Summand;
      SumLinear(xs, a, ys, zs, ws, m - 1, x);
      SummandLinear(xs, a, ys[m - 1], zs[m - 1], m - 1, x);
      Distribute(a, LagrangeSum(xs, ys, m - 1, x), Summand(xs, ys[m - 1], m - 1, x));
    }
  }

  lemma Distribute(a: int, b: int, c: int)
    ensures a * (b + c) == a * b + a * c
  {}

  lemma {:induction false} SumCong(xs: seq<int>, ys: seq<int>, zs: seq<int>, m: nat, x: int)
    requires m <= |xs| == |ys| == |zs|
    requires forall i :: 0 <= i < m ==> Cong(ys[i], zs[i])
    ensures Cong(LagrangeSum(xs, ys, m, x), LagrangeSum(xs, zs, m, x))
  {
    if m > 0 {
      SumCong(xs, ys, zs, m - 1, x);
      SummandCong(xs, ys[m - 1], zs[m - 1], m - 1, x);
    }
  }

  lemma SummandCong(xs: seq<int>, y: int, z: int, i: nat, x: int)
    requires i < |xs| && Cong(y, z)
    ensures Cong(Summand(xs, y, i, x), Summand(xs, z, i, x))
  {
    hide Cong, Product;
    var d, p := DenomInv(xs, i), Product(xs, {i}, |xs|, x);
    CongRefl(d);
    CongMul(y, z, d, d);
    CongRefl(p);
    CongMul(y * d, z * d, p, p);
  }

  // ----- lower thresholds -------------------------------------------------------------------

  function Powers(xs: seq<int>, p: nat): (ys: seq<int>)
    ensures |ys| == |xs|
  {
    seq(|xs|, i requires 0 <= i < |xs| => Pow(xs[i], p))
  }

  /** The ids reconstruct the t monomials below degree t: t equations on the ids alone. */
  ghost predicate Moments(xs: seq<int>, t: nat) {
    forall p :: 0 <= p < t ==> LagrangeAtZero(xs, Powers(xs, p)) == if p == 0 then 1 else 0
  }

  /** The values of x^s * c(x). */
  function ShiftedValues(c: Coeffs, s: nat, xs: seq<int>): (ys: seq<int>)
    ensures |ys| == |xs|
  {
    seq(|xs|, i requires 0 <= i < |xs| => Pow(xs[i], s) * Eval(c, xs[i]))
  }

  lemma ShiftRing(u: int, x: int, c0: int, e: int)
    ensures u * (c0 + x * e) == c0 * u + (x * u) * e
  {}

  lemma ShiftedHead(c: Coeffs, s: nat, xs: seq<int>, i: nat)
    requires c != [] && i < |xs|
    ensures ShiftedValues(c, s, xs)[i] == c[0] * Powers(xs, s)[i] + ShiftedValues(c[1..], s + 1, xs)[i]
  {
    ShiftRing(Pow(xs[i], s), xs[i], c[0], Eval(c[1..], xs[i]));
  }

  lemma {:induction false} MomentsSum(c: Coeffs, s: nat, xs: seq<int>, t: nat)
    requires Moments(xs, t) && s + |c| <= t
    ensures Cong(LagrangeSum(xs, ShiftedValues(c, s, xs), |xs|, 0), if s == 0 && c != [] then c[0] else 0)
  {
    hide Eval, Pow, LagrangeSum;
    if c == [] {
      assert forall i :: 0 <= i < |xs| ==> ShiftedValues(c, s, xs)[i] == 0 by { NullValues(s, xs); }
      NullSum(xs, ShiftedValues(c, s, xs), |xs|);
    } else {
      hide ShiftedValues, Powers;
      MomentsSum(c[1..], s + 1, xs, t);
      forall i | 0 <= i < |xs|
        ensures ShiftedValues(c, s, xs)[i] == c[0] * Powers(xs, s)[i] + ShiftedValues(c[1..], s + 1, xs)[i]
      {
        ShiftedHead(c, s, xs, i);
      }
      SumLinear(xs, c[0], Powers(xs, s), ShiftedValues(c[1..], s + 1, xs), ShiftedValues(c, s, xs), |xs|, 0);
      MomentStep(c[0], LagrangeSum(xs, Powers(xs, s), |xs|, 0),
                 LagrangeSum(xs, ShiftedValues(c[1..], s + 1, xs), |xs|, 0), if s == 0 then 1 else 0);
    }
  }

  lemma NullValues(s: nat, xs: seq<int>)
    ensures forall i :: 0 <= i < |xs| ==> ShiftedValues([], s, xs)[i] == 0
  {}

  lemma {:induction false} NullSum(xs: seq<int>, ys: seq<int>, m: nat)
    requires m <= |xs| == |ys| && forall i :: 0 <= i < m ==> ys[i] == 0
    ensures LagrangeSum(xs, ys, m, 0) == 0
  {
    if m > 0 {
      NullSum(xs, ys, m - 1);
    }
  }

  lemma MomentStep(c0: int, moment: int, rest: int, unit: int)
    requires moment % Q == unit && Cong(rest, 0)
    ensures Cong(c0 * moment + rest, c0 * unit)
  {
    hide Cong;
    CongMod(moment);
    CongTrans(moment, moment % Q, unit) by { CongRefl(unit); }
    CongRefl(c0);
    CongMul(c0, c0, moment, unit);
    CongAdd(c0 * moment, c0 * unit, rest, 0);
  }

  /** x^p as a canonical coefficient list of length t. */
  function Monomial(p: nat, t: nat): (c: Coeffs)
    requires p < t
    ensures |c| == t && Canonical(c) && c[0] == if p == 0 then 1 else 0
  {
    seq(t, i => if i == p then 1 else 0)
  }

  lemma {:induction false} MonomialEval(p: nat, t: nat, x: int)
    requires p < t
    ensures Eval(Monomial(p, t), x) == Pow(x, p)
  {
    var c := Monomial(p, t);
    if p == 0 {
      ZeroEval(c[1..], x);
    } else {
      assert c[1..] == Monomial(p - 1, t - 1);
      MonomialEval(p - 1, t - 1, x);
    }
  }

  lemma {:induction false} ZeroEval(c: Coeffs, x: int)
    requires forall i :: 0 <= i < |c| ==> c[i] == 0
    ensures Eval(c, x) == 0
  {
    if c != [] {
      ZeroEval(c[1..], x);
    }
  }

  lemma MonomialValues(p: nat, t: nat, xs: seq<int>)
    requires p < t
    ensures LagrangeAtZero(xs, ValuesAt(Monomial(p, t), xs)) == LagrangeAtZero(xs, Powers(xs, p))
  {
    hide Eval, Pow, LagrangeSum, Monomial;
    var ys, zs := ValuesAt(Monomial(p, t), xs), Powers(xs, p);
    forall i | 0 <= i < |xs|
      ensures Cong(ys[i], zs[i])
    {
      MonomialEval(p, t, xs[i]);
    }
    SumCong(xs, ys, zs, |xs|, 0);
  }

  lemma MomentsRecover(c: Coeffs, xs: seq<int>)
    requires c != [] && Canonical(c) && Moments(xs, |c|)
    ensures LagrangeAtZero(xs, ValuesAt(c, xs)) == c[0]
  {
    hide Eval, LagrangeSum, Moments, Pow;
    MomentsSum(c, 0, xs, |c|);
    var ys, zs := ValuesAt(c, xs), ShiftedValues(c, 0, xs);
    forall i | 0 <= i < |xs|
      ensures Cong(ys[i], zs[i])
    {
      PowZeroth(xs[i]);
    }
    SumCong(xs, ys, zs, |xs|, 0);
  }

  lemma PowZeroth(x: int)
    ensures Pow(x, 0) == 1
  {}

  /** At any threshold, recovering every secret means recovering the monomials. */
  lemma MomentCondition(xs: seq<int>, t: nat)
    requires 1 <= t
    ensures AlwaysRecovers(xs, t) <==> Moments(xs, t)
  {
    hide LagrangeAtZero, Monomial, ValuesAt, Powers;
    if Moments(xs, t) {
      forall c: Coeffs | 1 <= |c| == t && Canonical(c)
        ensures LagrangeAtZero(xs, ValuesAt(c, xs)) == c[0]
      {
        MomentsRecover(c, xs);
      }
    }
    if AlwaysRecovers(xs, t) {
      forall p | 0 <= p < t
        ensures LagrangeAtZero(xs, Powers(xs, p)) == if p == 0 then 1 else 0
      {
        assert LagrangeAtZero(xs, ValuesAt(Monomial(p, t), xs)) == Monomial(p, t)[0];
        MonomialValues(p, t, xs);
      }
    }
  }

  /** The exact condition for recovery, over all id lists and thresholds. Once the threshold
      exceeds the number of ids alone on their residue, only recoverable lists recover; below
      that a list with crowded residues recovers just when its ids satisfy t equations. */
  lemma RecoveryCondition(xs: seq<int>, t: nat)
    requires 1 <= t <= |xs|
    ensures AlwaysRecovers(xs, t) <==> Recoverable(xs) || (t <= AloneCount(xs) && Moments(xs, t))
  {
    hide Recoverable, LagrangeAtZero, ValuesAt, Moments, AloneCount;
    MomentCondition(xs, t);
    if Recoverable(xs) {
      forall c: Coeffs | 1 <= |c| == t && Canonical(c)
        ensures LagrangeAtZero(xs, ValuesAt(c, xs)) == c[0]
      {
        ValuesFit(c, c, xs);
        Reconstruct(c, xs, ValuesAt(c, xs));
      }
    } else if AloneCount(xs) < t {
      var d := UnrecoverableLoses(xs, t);
    }
  }

  /** The second disjunct is not empty: two of these ids collide, yet a secret shared with
      threshold one comes back. */
  lemma HarmlessCollision()
    ensures !Recoverable([1, Q + 1, 2]) && AlwaysRecovers([1, Q + 1, 2], 1)
  {
    var xs := [1, Q + 1, 2];
    assert Cong(xs[0], xs[1]);
    assert !Cong(xs[0], 0) && !Cong(xs[1], 0) && !Cong(xs[2], 0);
    var ys := Powers(xs, 0);
    assert ys == [1, 1, 1];
    DenominatorInvertible(xs, 0);
    DenominatorInvertible(xs, 1);
    SummandNull(xs, 1, 0, 0);
    SummandNull(xs, 1, 1, 0);
    ThirdWeight(xs);
    ThreeSummands(xs, ys);
    MomentCondition(xs, 1);
  }

  lemma ThreeSummands(xs: seq<int>, ys: seq<int>)
    requires |xs| == |ys| == 3 && Cong(Summand(xs, ys[0], 0, 0), 0)
    requires Cong(Summand(xs, ys[1], 1, 0), 0) && Cong(Summand(xs, ys[2], 2, 0), 1)
    ensures LagrangeAtZero(xs, ys) == 1
  {
    hide Summand;
    assert LagrangeSum(xs, ys, 1, 0) == LagrangeSum(xs, ys, 0, 0) + Summand(xs, ys[0], 0, 0);
    assert LagrangeSum(xs, ys, 2, 0) == LagrangeSum(xs, ys, 1, 0) + Summand(xs, ys[1], 1, 0);
  }

  lemma SummandIs(xs: seq<int>, y: int, i: nat, x: int)
    requires i < |xs|
    ensures Summand(xs, y, i, x) == y * DenomInv(xs, i) * Product(xs, {i}, |xs|, x)
  {}

  lemma PairProduct(xs: seq<int>, x: int)
    requires |xs| == 3
    ensures Product(xs, {2}, 3, x) == (x - xs[0]) * (x - xs[1])
  {
    assert Product(xs, {2}, 1, x) == Product(xs, {2}, 0, x) * (x - xs[0]);
    assert Product(xs, {2}, 2, x) == Product(xs, {2}, 1, x) * (x - xs[1]);
  }

  lemma ThirdWeight(xs: seq<int>)
    requires xs == [1, Q + 1, 2]
    ensures Cong(Summand(xs, 1, 2, 0), 1)
  {
    PairProduct(xs, 2);
    PairProduct(xs, 0);
    DenominatorInvertible(xs, 2);
    hide Product, DenomInv, Summand;
    assert !Cong(xs[2], xs[0]) && !Cong(xs[2], xs[1]);
    UnitSummand(1, DenomInv(xs, 2), Product(xs, {2}, 3, 0), Product(xs, {2}, 3, 2));
    SummandIs(xs, 1, 2, 0);
  }

  // ----- wrong shares ---------------------------------------------------------------------

  /** How far each share is from the polynomial. */
  function Errors(c: Coeffs, xs: seq<int>, ys: seq<int>): (es: seq<int>)
    requires |xs| == |ys|
    ensures |es| == |xs|
  {
    seq(|xs|, i requires 0 <= i < |xs| => ys[i] - Eval(c, xs[i]))
  }

  /** Whatever the shares are, the answer is the secret plus the weighted sum of their errors. */
  lemma ErrorTerm(c: Coeffs, xs: seq<int>, ys: seq<int>)
    requires 1 <= |c| <= |xs| == |ys| && Recoverable(xs)
    ensures Cong(LagrangeAtZero(xs, ys), c[0] + LagrangeSum(xs, Errors(c, xs, ys), |xs|, 0))
  {
    hide Eval, LagrangeSum, Recoverable, Cong;
    var vs := ValuesAt(c, xs);
    var exact := seq(|xs|, i requires 0 <= i < |xs| => Eval(c, xs[i]));
    SumLinear(xs, 1, Errors(c, xs, ys), exact, ys, |xs|, 0);
    forall i | 0 <= i < |xs|
      ensures Cong(Eval(c, xs[i]), exact[i])
    {
      CongRefl(exact[i]);
    }
    Reconstruct(c, xs, exact);
    ErrorStep(LagrangeSum(xs, ys, |xs|, 0), LagrangeSum(xs, Errors(c, xs, ys), |xs|, 0), LagrangeSum(xs, exact, |xs|, 0), c[0]);
  }

  lemma ErrorStep(sum: int, errors: int, exact: int, c0: int)
    requires sum == errors + exact && exact % Q == c0 % Q
    ensures Cong(sum % Q, c0 + errors)
  {}

  lemma {:induction false} SingleError(xs: seq<int>, es: seq<int>, w: nat, m: nat)
    requires w < |xs| == |es| && m <= |xs|
    requires forall i :: 0 <= i < |xs| && i != w ==> Cong(es[i], 0)
    ensures Cong(LagrangeSum(xs, es, m, 0), if w < m then Summand(xs, es[w], w, 0) else 0)
  {
    hide Summand;
    if m > 0 {
      SingleError(xs, es, w, m - 1);
      if m - 1 != w {
        SummandNull(xs, es[m - 1], m - 1, 0);
      }
    }
  }

  /** If one share may be wrong and all others are right, the secret is recovered exactly when
      that share is right too, modulo 3329. */
  lemma OneWrongShare(c: Coeffs, xs: seq<int>, ys: seq<int>, w: nat)
    requires 1 <= |c| <= |xs| == |ys| && w < |xs| && Distinct([0] + xs)
    requires forall i :: 0 <= i < |xs| && i != w ==> Cong(ys[i], Eval(c, xs[i]))
    ensures LagrangeAtZero(xs, ys) == c[0] % Q <==> Cong(ys[w], Eval(c, xs[w]))
  {
    hide Eval, LagrangeAtZero, LagrangeSum, Summand, Distinct, Recoverable;
    var es := Errors(c, xs, ys);
    ConsDistinct(xs);
    assert Recoverable(xs) by { DistinctIsRecoverable(xs); }
    ErrorTerm(c, xs, ys);
    SingleError(xs, es, w, |xs|);
    WeightNonzero(xs, es[w], w);
    CongMod(c[0]);
  }

  lemma DistinctIsRecoverable(xs: seq<int>)
    requires Distinct(xs)
    ensures Recoverable(xs)
  {}

  lemma WeightNonzero(xs: seq<int>, e: int, w: nat)
    requires w < |xs| && Distinct(xs) && forall i :: 0 <= i < |xs| ==> !Cong(xs[i], 0)
    ensures Cong(Summand(xs, e, w, 0), 0) <==> Cong(e, 0)
  {
    hide Cong, Product, DenomInv, Distinct;
    WeightFactors(xs, w);
    NonzeroWeight(e, DenomInv(xs, w), Product(xs, {w}, |xs|, 0));
    SummandIs(xs, e, w, 0);
  }

  lemma WeightFactors(xs: seq<int>, w: nat)
    requires w < |xs| && Distinct(xs) && forall i :: 0 <= i < |xs| ==> !Cong(xs[i], 0)
    ensures !Cong(DenomInv(xs, w), 0) && !Cong(Product(xs, {w}, |xs|, 0), 0)
  {
    hide Product, DenomInv;
    assert !Cong(DenomInv(xs, w), 0) by {
      forall j | 0 <= j < |xs| && j != w
        ensures !Cong(xs[w], xs[j])
      {}
      hide Distinct;
      DenominatorInvertible(xs, w);
    }
    hide Distinct;
    forall j | 0 <= j < |xs|
      ensures !Cong(0, xs[j])
    {
      assert !Cong(xs[j], 0);
    }
    ProductNonzero(xs, {w}, |xs|, 0);
  }

  lemma NonzeroWeight(e: int, d: int, p: int)
    requires !Cong(d, 0) && !Cong(p, 0)
    ensures Cong(e * d * p, 0) <==> Cong(e, 0)
  {
    hide Cong;
    if Cong(e * d * p, 0) {
      Euclid(e * d, p);
      Euclid(e, d);
    } else if Cong(e, 0) {
      MultipleIsZero(e, d);
      MultipleIsZero(e * d, p);
    }
  }

  // ----- too few shares ----------------------------------------------------------

  /** d is a polynomial of the same length with the given secret that could have produced
      the shares c has at xs. */
  ghost predicate Explains(d: Coeffs, c: Coeffs, xs: seq<int>, secret: int) {
    |d| == |c| && Canonical(d) && d != [] && d[0] == secret && SameValues(d, c, xs)
  }

  ghost predicate SameValues(d: Coeffs, c: Coeffs, xs: seq<int>) {
    forall i :: 0 <= i < |xs| ==> Cong(Eval(d, xs[i]), Eval(c, xs[i]))
  }

  /** Congruent values at every id means the very same canonical shares. */
  lemma SameShares(d: Coeffs, c: Coeffs, xs: seq<int>)
    ensures SameValues(d, c, xs) <==> ValuesAt(d, xs) == ValuesAt(c, xs)
  {
    hide Eval;
    if ValuesAt(d, xs) == ValuesAt(c, xs) {
      forall i | 0 <= i < |xs|
        ensures Cong(Eval(d, xs[i]), Eval(c, xs[i]))
      {
        assert ValuesAt(d, xs)[i] == ValuesAt(c, xs)[i];
      }
    }
  }

  lemma SameAt(d: Coeffs, c: Coeffs, x: int, y: int)
    requires Cong(x, y) && Cong(Eval(d, y), Eval(c, y))
    ensures Cong(Eval(d, x), Eval(c, x))
  {
    hide Eval;
    EvalCong(c, x, y);
    EvalCong(d, x, y);
  }

  lemma Drop(c: Coeffs, xs: seq<int>, i: nat, j: nat, d: Coeffs)
    requires i < j < |xs| && Cong(xs[i], xs[j])
    requires SameValues(d, c, xs[..j] + xs[j + 1..])
    ensures SameValues(d, c, xs)
  {
    var rest := xs[..j] + xs[j + 1..];
    forall m | 0 <= m < |xs|
      ensures Cong(Eval(d, xs[m]), Eval(c, xs[m]))
    {
      hide Eval;
      var at := if m < j then m else if m == j then i else m - 1;
      assert Cong(Eval(d, rest[at]), Eval(c, rest[at]));
      SameAt(d, c, xs[m], rest[at]);
    }
  }

  lemma ConsDistinct(xs: seq<int>)
    ensures Distinct([0] + xs) <==> Distinct(xs) && forall i :: 0 <= i < |xs| ==> !Cong(xs[i], 0)
  {
    var points := [0] + xs;
    forall i, j | 0 <= i < j < |points|
      ensures Cong(points[i], points[j]) <==> if i == 0 then Cong(xs[j - 1], 0) else Cong(xs[i - 1], xs[j - 1])
    {}
    if Distinct(points) {
      forall i, j | 0 <= i < j < |xs|
        ensures !Cong(xs[i], xs[j])
      {
        assert !Cong(points[i + 1], points[j + 1]);
      }
      forall i | 0 <= i < |xs|
        ensures !Cong(xs[i], 0)
      {
        assert !Cong(points[0], points[i + 1]);
      }
    }
  }

  lemma DistinctExplained(c: Coeffs, xs: seq<int>, secret: Elem) returns (d: Coeffs)
    requires |xs| < |c| && Distinct([0] + xs)
    ensures Explains(d, c, xs, secret)
  {
    hide Eval, Canonicalize, LagrangePoly, Distinct;
    var points, values := [0] + xs, [secret] + ValuesAt(c, xs);
    InterpolantFits(points, values);
    var p := LagrangePoly(points, values, |points|);
    d := Canonicalize(p, |c|);
    assert d[0] == secret by {
      CanonicalizeEval(p, |c|, 0);
      assert Cong(Eval(p, points[0]), values[0]);
      EvalAtZero(d);
    }
    forall m | 0 <= m < |xs|
      ensures Cong(Eval(d, xs[m]), Eval(c, xs[m]))
    {
      CanonicalizeEval(p, |c|, xs[m]);
      assert Cong(Eval(p, points[m + 1]), values[m + 1]);
    }
  }

  lemma {:induction false} SecretExplained(c: Coeffs, xs: seq<int>, secret: Elem) returns (d: Coeffs)
    requires |xs| < |c|
    requires forall i :: 0 <= i < |xs| ==> !Cong(xs[i], 0)
    ensures Explains(d, c, xs, secret)
    decreases |xs|
  {
    if i, j :| 0 <= i < j < |xs| && Cong(xs[i], xs[j]) {
      d := SecretExplained(c, xs[..j] + xs[j + 1..], secret);
      Drop(c, xs, i, j, d);
    } else {
      ConsDistinct(xs);
      d := DistinctExplained(c, xs, secret);
    }
  }

  lemma ExplanationUnique(c: Coeffs, d: Coeffs, e: Coeffs, xs: seq<int>, secret: Elem)
    requires |xs| + 1 == |c| && Distinct([0] + xs)
    requires Explains(d, c, xs, secret) && Explains(e, c, xs, secret)
    ensures d == e
  {
    var points := [0] + xs;
    forall i | 0 <= i < |points|
      ensures Cong(Eval(d, points[i]), Eval(e, points[i]))
    {
      if i == 0 {
        EvalAtZero(d);
        EvalAtZero(e);
      } else {
        assert points[i] == xs[i - 1];
        CongJoin(Eval(d, xs[i - 1]), Eval(c, xs[i - 1]), Eval(e, xs[i - 1]));
      }
    }
    UniqueFit(d, e, points);
  }

  ghost predicate Explainable(c: Coeffs, xs: seq<int>, secret: int) {
    exists d: Coeffs :: Explains(d, c, xs, secret)
  }

  ghost predicate Hidden(c: Coeffs, xs: seq<int>) {
    forall secret :: 0 <= secret < Q ==> Explainable(c, xs, secret)
  }

  /** A share on residue zero is the secret itself. */
  lemma ZeroIdReveals(c: Coeffs, xs: seq<int>, i: nat, secret: Elem)
    requires i < |xs| < |c| && Cong(xs[i], 0) && Explainable(c, xs, secret)
    ensures Cong(secret, c[0])
  {
    hide Eval;
    var d :| Explains(d, c, xs, secret);
    SameAt(d, c, 0, xs[i]);
    EvalAtZero(d);
    EvalAtZero(c);
  }

  /** Fewer than t shares rule out no secret, exactly when none of them sits on residue zero. */
  lemma Secrecy(c: Coeffs, xs: seq<int>)
    requires |xs| < |c|
    ensures Hidden(c, xs) <==> forall i :: 0 <= i < |xs| ==> !Cong(xs[i], 0)
  {
    if i :| 0 <= i < |xs| && Cong(xs[i], 0) {
      var other := (c[0] + 1) % Q;
      if Explainable(c, xs, other) {
        ZeroIdReveals(c, xs, i, other);
      }
    } else {
      forall secret | 0 <= secret < Q
        ensures Explainable(c, xs, secret)
      {
        var d := SecretExplained(c, xs, secret);
      }
    }
  }

  /** With t - 1 shares the explanations of the secrets are in bijection: each secret has
      exactly one, so the shares make no secret likelier than another. */
  lemma PerfectSecrecy(c: Coeffs, xs: seq<int>, secret: Elem) returns (d: Coeffs)
    requires |xs| + 1 == |c| && Distinct([0] + xs)
    ensures Explains(d, c, xs, secret) && ValuesAt(d, xs) == ValuesAt(c, xs)
    ensures forall e: Coeffs :: Explains(e, c, xs, secret) ==> e == d
  {
    d := DistinctExplained(c, xs, secret);
    SameShares(d, c, xs);
    forall e: Coeffs | Explains(e, c, xs, secret)
      ensures e == d
    {
      ExplanationUnique(c, d, e, xs, secret);
    }
  }
}

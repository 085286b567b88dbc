/** experiments/baselines.py: share generation and reconstruction on unbounded integers. */
module Baselines {
  import opened Words
  import opened Field
  import opened Poly
  import opened Shamir

  datatype ShareError =
    | ThresholdTooLarge
    | SecretOutOfRange
    | TooFewShares

  type Share = (int, int)

  /** The ids of a list of shares, whatever their values are. */
  function Ids<V>(shares: seq<(int, V)>): (xs: seq<int>)
    ensures |xs| == |shares|
  {
    seq(|shares|, i requires 0 <= i < |shares| => shares[i].0)
  }

  function Values(shares: seq<Share>): (ys: seq<int>)
    ensures |ys| == |shares|
  {
    seq(|shares|, i requires 0 <= i < |shares| => shares[i].1)
  }

  /** The polynomial drawn for a secret; draw(i) is the i-th value of the random source. */
  function Coefficients(secret: Elem, t: int, draw: nat -> Elem): (c: Coeffs)
    ensures |c| == (if t < 1 then 1 else t) && Canonical(c) && c[0] == secret
  {
    [secret] + seq(if t < 1 then 0 else t - 1, i requires 0 <= i => draw(i))
  }

  /** The shares of a polynomial for the ids 1..n. */
  function SharesOf(c: Coeffs, n: nat): (shares: seq<Share>)
    ensures |shares| == n
  {
    seq(n, i => (i + 1, Eval(c, i + 1) % Q))
  }

  lemma HornerStep(y: int, x: int, c0: int, rest: int)
    requires y == rest % Q
    ensures (y * x + c0) % Q == (c0 + x * rest) % Q
  {
    hide Cong;
    CongMod(rest);
    CongFromWitness(x, x, 0);
    CongMul(y, rest, x, x);
    CongFromWitness(c0, c0, 0);
    CongAdd(y * x, rest * x, c0, c0);
    CongResidue(y * x + c0, c0 + x * rest);
    assert rest * x == x * rest;
  }

  /** The threshold is checked before the secret, and a threshold below one acts like one. */
  method GenerateShares(secret: int, n: int, t: int, draw: nat -> Elem)
    returns (r: Result<seq<Share>, ShareError>)
    ensures t > n ==> r == Err(ThresholdTooLarge)
    ensures t <= n && !(0 <= secret < Q) ==> r == Err(SecretOutOfRange)
    ensures t <= n && 0 <= secret < Q ==>
      r == Ok(SharesOf(Coefficients(secret, t, draw), if n < 0 then 0 else n))
    // share i is the value at i + 1 of secret + draw(0) x + draw(1) x^2 + ...
    ensures t <= n && 0 <= secret < Q ==>
      && |r.value| == (if n < 0 then 0 else n)
      && forall i :: 0 <= i < |r.value| ==>
        && r.value[i].0 == i + 1
        && r.value[i].1 == Eval([secret] + seq(if t < 1 then 0 else t - 1, k requires 0 <= k => draw(k)), i + 1) % 3329
  {
    if t > n {
      return Err(ThresholdTooLarge);
    }
    if secret < 0 || secret >= Q {
      return Err(SecretOutOfRange);
    }
    var coeffs := [secret];
    var d := 0;
    while d < t - 1
      invariant 0 <= d && |coeffs| == d + 1 && (d == 0 || d <= t - 1)
      invariant coeffs == [secret] + seq(d, i requires 0 <= i => draw(i))
    {
      coeffs := coeffs + [draw(d)];
      d := d + 1;
    }
    assert coeffs == Coefficients(secret, t, draw);
    var shares: seq<Share> := [];
    var i := 1;
    while i < n + 1
      invariant 1 <= i && (i == 1 || i <= n + 1)
      invariant shares == SharesOf(coeffs, i - 1)
    {
      var y := EvaluateReduced(coeffs, i);
      shares := shares + [(i, y)];
      i := i + 1;
    }
    r := Ok(shares);
  }

  /** The inner loop of share generation: Horner's rule, reducing at every step. */
  method EvaluateReduced(coeffs: Coeffs, x: int) returns (y: int)
    ensures y == Eval(coeffs, x) % Q
  {
    y := 0;
    var k := |coeffs|;
    while k > 0
      invariant 0 <= k <= |coeffs|
      invariant y == Eval(coeffs[k..], x) % Q
    {
      k := k - 1;
      assert coeffs[k..][1..] == coeffs[k + 1..];
      HornerStep(y, x, coeffs[k], Eval(coeffs[k + 1..], x));
      y := (y * x + coeffs[k]) % Q;
    }
    assert coeffs[0..] == coeffs;
  }

  lemma MulReduced(a: int, a': int, b: int)
    requires a == a' % Q
    ensures (a * b) % Q == (a' * b) % Q
  {
    hide Cong;
    CongMod(a');
    CongFromWitness(b, b, 0);
    CongMul(a, a', b, b);
    CongResidue(a * b, a' * b);
  }

  lemma WeightStep(y: int, num: int, p: int, inv: int, sum: int)
    requires num == p % Q
    ensures (sum % Q + y * ((num * inv) % Q)) % Q == (sum + y * inv * p) % Q
  {
    hide Cong;
    var weight := (num * inv) % Q;
    MulReduced(num, p, inv);
    CongMod(p * inv);
    CongRefl(y);
    CongMul(y, y, weight, p * inv);
    CongMod(sum);
    CongAdd(sum % Q, sum, y * weight, y * (p * inv));
    CongResidue(sum % Q + y * weight, sum + y * (p * inv));
    assert y * (p * inv) == y * inv * p;
  }

  /** One more summand, with the numerator and denominator kept as residues. */
  lemma SummandStep(xs: seq<int>, y: int, i: nat, sum: int, num: int, den: int)
    requires i < |xs|
    requires num == Product(xs, {i}, |xs|, 0) % Q
    requires den == Product(xs, {i}, |xs|, xs[i]) % Q
    ensures (sum % Q + y * ((num * ModInv(den)) % Q)) % Q == (sum + Summand(xs, y, i, 0)) % Q
  {
    hide Product, Cong, ModInv;
    var d := Product(xs, {i}, |xs|, xs[i]);
    CongMod(d);
    ModInvCong(den, d);
    WeightStep(y, num, Product(xs, {i}, |xs|, 0), ModInv(den), sum);
  }

  /** The inner loop: numerator and denominator of the i-th weight. */
  method Fraction(shares: seq<Share>, i: nat) returns (numerator: int, denominator: int)
    requires i < |shares|
    ensures numerator == Product(Ids(shares), {i}, |shares|, 0) % Q
    ensures denominator == Product(Ids(shares), {i}, |shares|, shares[i].0) % Q
  {
    ghost var xs := Ids(shares);
    var xi := shares[i].0;
    numerator, denominator := 1, 1;
    var j := 0;
    while j < |shares|
      invariant 0 <= j <= |shares|
      invariant numerator == Product(xs, {i}, j, 0) % Q
      invariant denominator == Product(xs, {i}, j, xi) % Q
    {
      if i != j {
        var xj := shares[j].0;
        MulReduced(numerator, Product(xs, {i}, j, 0), -xj);
        MulReduced(denominator, Product(xs, {i}, j, xi), xi - xj);
        numerator := (numerator * -xj) % Q;
        denominator := (denominator * (xi - xj)) % Q;
      }
      j := j + 1;
    }
  }

  /** Reconstruction at zero by the Lagrange form. The ids are not checked here. */
  method ReconstructSecret(shares: seq<Share>) returns (r: Result<int, ShareError>)
    ensures |shares| < 2 ==> r == Err(TooFewShares)
    ensures |shares| >= 2 ==> r == Ok(LagrangeAtZero(Ids(shares), Values(shares)))
  {
    if |shares| < 2 {
      return Err(TooFewShares);
    }
    hide Product, Summand, ModInv;
    ghost var xs, ys := Ids(shares), Values(shares);
    var secret := 0;
    var i := 0;
    while i < |shares|
      invariant 0 <= i <= |shares|
      invariant secret == LagrangeSum(xs, ys, i, 0) % Q
    {
      var (xi, yi) := shares[i];
      var numerator, denominator := Fraction(shares, i);
      var invDenom := ModInv(denominator);
      SummandStep(xs, yi, i, LagrangeSum(xs, ys, i, 0), numerator, denominator);
      var lagrangeCoeff := (numerator * invDenom) % Q;
      secret := (secret + yi * lagrangeCoeff) % Q;
      i := i + 1;
    }
    r := Ok(secret);
  }

  // ----- what the two routines guarantee together ------------------------------------

  /** Shares picked from those generated: any number, any order. */
  ghost predicate PickedFrom(chosen: seq<Share>, c: Coeffs, n: nat) {
    && (forall i :: 0 <= i < |chosen| ==> chosen[i] in SharesOf(c, n))
    && (forall i, j :: 0 <= i < j < |chosen| ==> chosen[i].0 != chosen[j].0)
  }

  lemma PickedFits(chosen: seq<Share>, c: Coeffs, n: nat)
    requires PickedFrom(chosen, c, n)
    ensures Fits(c, Ids(chosen), Values(chosen))
    ensures forall i :: 0 <= i < |chosen| ==> 1 <= Ids(chosen)[i] <= n
  {
    hide Eval;
    forall i | 0 <= i < |chosen|
      ensures Cong(Eval(c, Ids(chosen)[i]), Values(chosen)[i]) && 1 <= Ids(chosen)[i] <= n
    {
      assert chosen[i] in SharesOf(c, n);
    }
  }

  /** Different ids from 1..3329 fall on different residues. */
  lemma SmallIdsDistinct(xs: seq<int>)
    requires forall i :: 0 <= i < |xs| ==> 1 <= xs[i] <= Q
    requires forall i, j :: 0 <= i < j < |xs| ==> xs[i] != xs[j]
    ensures Distinct(xs)
  {}

  /** Any max(t, 2) or more of the generated shares, in any order, reconstruct the secret. */
  lemma AnySharesReconstruct(secret: Elem, n: nat, t: int, draw: nat -> Elem, chosen: seq<Share>)
    requires n <= Q
    requires |chosen| >= t && |chosen| >= 2
    requires PickedFrom(chosen, Coefficients(secret, t, draw), n)
    ensures LagrangeAtZero(Ids(chosen), Values(chosen)) == secret
  {
    var c := Coefficients(secret, t, draw);
    PickedFits(chosen, c, n);
    SmallIdsDistinct(Ids(chosen));
    Reconstruct(c, Ids(chosen), Values(chosen));
  }

  ghost predicate IdsUpTo(xs: seq<int>, n: nat) {
    && (forall i :: 0 <= i < |xs| ==> 1 <= xs[i] <= n)
    && (forall i, j :: 0 <= i < j < |xs| ==> xs[i] != xs[j])
  }

  lemma CollidingPair()
    ensures !Recoverable([1, Q + 1]) && AloneCount([1, Q + 1]) == 0
  {
    var xs := [1, Q + 1];
    assert Cong(xs[0], xs[1]);
    assert !Alone(xs, 0) by { assert (xs[0] - xs[1]) % Q == 0; }
    assert !Alone(xs, 1) by { assert (xs[1] - xs[0]) % Q == 0; }
    assert Kept(Crowded(xs), 2) == {};
  }

  /** The bound on the share count is sharp: with 3330 shares two ids fall on one residue. */
  lemma ShareCountLimit(n: nat)
    ensures (forall xs: seq<int>, t: nat :: 1 <= t <= |xs| && IdsUpTo(xs, n) ==> AlwaysRecovers(xs, t)) <==> n <= Q
  {
    hide AlwaysRecovers, Recoverable, Distinct;
    if n <= Q {
      forall xs: seq<int>, t: nat | 1 <= t <= |xs| && IdsUpTo(xs, n)
        ensures AlwaysRecovers(xs, t)
      {
        SmallIdsDistinct(xs);
        DistinctIsRecoverable(xs);
        RecoveryCondition(xs, t);
      }
    } else {
      CollidingPair();
      RecoveryCondition([1, Q + 1], 2);
      assert IdsUpTo([1, Q + 1], n);
    }
  }

  /** Coefficient i is the draw before it. */
  lemma CoefficientsDrawn(secret: Elem, t: int, draw: nat -> Elem, i: nat)
    ensures |Coefficients(secret, t, draw)| == if t < 1 then 1 else t
    ensures i < |Coefficients(secret, t, draw)| ==>
      Coefficients(secret, t, draw)[i] == if i == 0 then secret else draw(i - 1)
  {}

  /** Draws that give a canonical polynomial. */
  function DrawsFor(d: Coeffs): nat -> Elem
    requires Canonical(d)
  {
    (k: nat) => if k + 1 < |d| then d[k + 1] else 0
  }

  lemma DrawsForCoefficients(d: Coeffs, t: int)
    requires Canonical(d) && |d| == t >= 1
    ensures Coefficients(d[0], t, DrawsFor(d)) == d
  {}

  lemma SamePicked(chosen: seq<Share>, c: Coeffs, d: Coeffs, n: nat)
    requires PickedFrom(chosen, c, n)
    ensures PickedFrom(chosen, d, n) <==> SameValues(d, c, Ids(chosen))
  {
    hide Eval;
    PickedFits(chosen, c, n);
    PickedIs(chosen, c, n);
    if SameValues(d, c, Ids(chosen)) {
      forall i | 0 <= i < |chosen|
        ensures chosen[i] in SharesOf(d, n)
      {
        assert Cong(Eval(d, Ids(chosen)[i]), Eval(c, Ids(chosen)[i]));
        assert SharesOf(d, n)[chosen[i].0 - 1] == chosen[i];
      }
    }
    if PickedFrom(chosen, d, n) {
      PickedIs(chosen, d, n);
    }
  }

  lemma PickedIs(chosen: seq<Share>, c: Coeffs, n: nat)
    requires PickedFrom(chosen, c, n)
    ensures forall i :: 0 <= i < |chosen| ==> 1 <= chosen[i].0 <= n && chosen[i].1 == Eval(c, chosen[i].0) % Q
  {
    hide Eval;
    forall i | 0 <= i < |chosen|
      ensures 1 <= chosen[i].0 <= n && chosen[i].1 == Eval(c, chosen[i].0) % Q
    {
      assert chosen[i] in SharesOf(c, n);
    }
  }

  /** Hiding over what the generator can draw: fewer than t of the generated shares are also
      generated for any other secret, with other draws. With t - 1 shares those draws are
      determined, so uniform draws make no secret likelier than another. */
  lemma DrawsHide(secret: Elem, n: nat, t: int, draw: nat -> Elem, chosen: seq<Share>, secret': Elem)
    returns (draw': nat -> Elem)
    requires n < Q && |chosen| < t
    requires PickedFrom(chosen, Coefficients(secret, t, draw), n)
    ensures PickedFrom(chosen, Coefficients(secret', t, draw'), n)
    ensures |chosen| == t - 1 ==>
      forall other: nat -> Elem :: PickedFrom(chosen, Coefficients(secret', t, other), n) ==>
        forall k: nat :: k < t - 1 ==> other(k) == draw'(k)
  {
    hide Eval, Distinct;
    var c, xs := Coefficients(secret, t, draw), Ids(chosen);
    PickedFits(chosen, c, n);
    var d := SecretExplained(c, xs, secret');
    draw' := DrawsFor(d);
    DrawsForCoefficients(d, t);
    SamePicked(chosen, c, d, n);
    if |chosen| == t - 1 {
      SmallIdsDistinct(xs);
      ConsDistinct(xs);
      forall other: nat -> Elem | PickedFrom(chosen, Coefficients(secret', t, other), n)
        ensures forall k: nat :: k < t - 1 ==> other(k) == draw'(k)
      {
        var e := Coefficients(secret', t, other);
        SamePicked(chosen, c, e, n);
        ExplanationUnique(c, d, e, xs, secret');
        forall k: nat | k < t - 1
          ensures other(k) == draw'(k)
        {
          assert e[k + 1] == other(k) && d[k + 1] == draw'(k);
        }
      }
    }
  }

  /** Some draws lead from the secret to these shares. */
  ghost predicate Possible(chosen: seq<Share>, secret: Elem, n: nat, t: int) {
    exists draw: nat -> Elem :: PickedFrom(chosen, Coefficients(secret, t, draw), n)
  }

  /** Fewer than t shares possible for one secret are possible for every other. */
  ghost predicate AlwaysHidden(n: nat, t: int) {
    forall secret, secret', chosen: seq<Share> ::
      0 <= secret < Q && 0 <= secret' < Q && |chosen| < t && Possible(chosen, secret, n, t)
      ==> Possible(chosen, secret', n, t)
  }

  /** The share of id 3329 is the secret. */
  lemma ShareAtModulus(secret: Elem, t: int, draw: nat -> Elem, n: nat, chosen: seq<Share>)
    requires t >= 1 && |chosen| == 1 && chosen[0].0 == Q
    ensures PickedFrom(chosen, Coefficients(secret, t, draw), n) <==> n >= Q && chosen[0].1 == secret
  {
    hide Eval, Coefficients;
    var c := Coefficients(secret, t, draw);
    EvalCong(c, Q, 0);
    EvalAtZero(c);
    assert Eval(c, Q) % Q == secret;
    if n >= Q {
      assert SharesOf(c, n)[Q - 1] == (Q, secret);
    }
    if PickedFrom(chosen, c, n) {
      PickedIs(chosen, c, n);
    }
  }

  /** Too few shares are always hiding up to 3328 shares, and not beyond. */
  lemma HidingLimit(n: nat, t: int)
    requires 2 <= t
    ensures AlwaysHidden(n, t) <==> n < Q
  {
    hide Eval, Coefficients, PickedFrom;
    if n < Q {
      forall secret, secret', chosen: seq<Share>
        | 0 <= secret < Q && 0 <= secret' < Q && |chosen| < t && Possible(chosen, secret, n, t)
        ensures Possible(chosen, secret', n, t)
      {
        var draw: nat -> Elem :| PickedFrom(chosen, Coefficients(secret, t, draw), n);
        var draw' := DrawsHide(secret, n, t, draw, chosen, secret');
      }
    } else {
      var draw: nat -> Elem := _ => 0;
      var chosen: seq<Share> := [(Q, 0)];
      ShareAtModulus(0, t, draw, n, chosen);
      forall draw': nat -> Elem
        ensures !PickedFrom(chosen, Coefficients(1, t, draw'), n)
      {
        ShareAtModulus(1, t, draw', n, chosen);
      }
      assert Possible(chosen, 0, n, t) && !Possible(chosen, 1, n, t);
    }
  }

  /** Fewer than t of the generated shares leave every secret possible, as long as there is no
      share with id 3329, whose value would be the secret. */
  lemma FewSharesHide(secret: Elem, n: nat, t: int, draw: nat -> Elem, chosen: seq<Share>)
    requires n < Q
    requires |chosen| < t
    requires PickedFrom(chosen, Coefficients(secret, t, draw), n)
    ensures Hidden(Coefficients(secret, t, draw), Ids(chosen))
  {
    var c := Coefficients(secret, t, draw);
    PickedFits(chosen, c, n);
    Secrecy(c, Ids(chosen));
  }
}

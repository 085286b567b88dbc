/** host_server/shamir_recovery.py: the server's reconstruction, its Barrett form of the
    remainder, and the byte layout of shares. */
module ShamirRecovery {
  import opened Words
  import opened Field
  import opened Poly
  import opened Shamir
  import Baselines

  const BARRETT_MULTIPLIER := 20159
  const BARRETT_RANGE := 0x400_0000  // 2^26

  datatype RecoveryError =
    | TooFewShares
    | ZeroIndex
    | DuplicateIndex
    | NoShares
    | BadLength
    | IndexError

  // ----- Barrett reduction on unbounded integers -----------------------------------

  /** Python's shift rounds towards minus infinity, as Dafny's division does here. */
  function BarrettReduce(a: int): int {
    var t := a * BARRETT_MULTIPLIER / BARRETT_RANGE;
    var r := a - t * Q;
    if r >= Q then r - Q else r
  }

  /** The reduction never leaves the residue class, whatever the argument. */
  lemma BarrettCong(a: int)
    ensures Cong(BarrettReduce(a), a)
  {}

  /** It is the remainder exactly when no -5..-1 correction is missing: the quotient estimate
      overshoots once 447 * (a / 3329) + 20159 * (a % 3329) reaches 2^26. */
  lemma BarrettExact(a: nat)
    ensures BarrettReduce(a) == a % Q <==> 447 * (a / Q) + BARRETT_MULTIPLIER * (a % Q) < BARRETT_RANGE
  {
    var q, r0 := a / Q, a % Q;
    assert a * BARRETT_MULTIPLIER == q * BARRETT_RANGE + (447 * q + BARRETT_MULTIPLIER * r0);
  }

  function EvalBarrett(c: Coeffs, x: int): int {
    if c == [] then 0 else BarrettReduce(EvalBarrett(c[1..], x) * x + c[0])
  }

  method EvaluatePolynomial(coeffs: Coeffs, x: int) returns (result: int)
    ensures result == EvalBarrett(coeffs, x)
  {
    result := 0;
    var k := |coeffs|;
    while k > 0
      invariant 0 <= k <= |coeffs|
      invariant result == EvalBarrett(coeffs[k..], x)
    {
      k := k - 1;
      assert coeffs[k..][1..] == coeffs[k + 1..];
      result := BarrettReduce(result * x + coeffs[k]);
    }
    assert coeffs[0..] == coeffs;
  }

  lemma {:induction false} EvalBarrettCong(c: Coeffs, x: int)
    ensures Cong(EvalBarrett(c, x), Eval(c, x))
  {
    if c != [] {
      hide Cong, BarrettReduce;
      var rest, rest' := EvalBarrett(c[1..], x), Eval(c[1..], x);
      EvalBarrettCong(c[1..], x);
      CongRefl(x);
      CongMul(rest, rest', x, x);
      CongRefl(c[0]);
      CongAdd(rest * x, rest' * x, c[0], c[0]);
      BarrettCong(rest * x + c[0]);
      CongTrans(EvalBarrett(c, x), rest * x + c[0], rest' * x + c[0]);
      assert rest' * x + c[0] == Eval(c, x);
    }
  }

  lemma BarrettWindow(a: int)
    requires -0x1_0000 <= a <= 851968
    ensures -5 <= BarrettReduce(a) < Q
  {}

  lemma ProductWindow(r: int, x: int)
    requires -5 <= r < Q && 0 <= x <= 255
    ensures -1275 <= r * x <= 848640
  {
    if r >= 0 { MulMono(0, r, 0, x); MulMono(r, Q - 1, x, 255); } else { MulMono(0, -r, 0, x); MulMono(-r, 5, x, 255); }
  }

  /** For one-byte ids and canonical coefficients every intermediate value stays in a window
      that overshoots the field by five below and not at all above. */
  lemma {:induction false} EvalBarrettWindow(c: Coeffs, x: int)
    requires Canonical(c) && 0 <= x <= 255
    ensures -5 <= EvalBarrett(c, x) < Q
  {
    if c != [] {
      hide BarrettReduce;
      EvalBarrettWindow(c[1..], x);
      ProductWindow(EvalBarrett(c[1..], x), x);
      BarrettWindow(EvalBarrett(c[1..], x) * x + c[0]);
    }
  }

  // ----- where a share is a field element -------------------------------------------------

  /** A share is a field element exactly when it is the polynomial's canonical value. */
  lemma FieldMeansExact(c: Coeffs, x: int)
    ensures 0 <= EvalBarrett(c, x) < Q <==> EvalBarrett(c, x) == Eval(c, x) % Q
  {
    hide EvalBarrett, Eval, Cong;
    EvalBarrettCong(c, x);
    CongMod(Eval(c, x));
    CongTrans(EvalBarrett(c, x), Eval(c, x), Eval(c, x) % Q);
    var y := EvalBarrett(c, x);
    if 0 <= y < Q {
      SameResidue(y, Eval(c, x) % Q);
    }
  }

  lemma ExactBelow(a: nat)
    requires a <= 153132
    ensures BarrettReduce(a) == a % Q
  {
    BarrettExact(a);
  }

  /** At ids up to 45 no argument of the reduction reaches the first failing one. */
  lemma {:induction false} SmallIdsInField(c: Coeffs, x: nat)
    requires Canonical(c) && x <= 45
    ensures 0 <= EvalBarrett(c, x) < Q
  {
    if c != [] {
      hide BarrettReduce;
      SmallIdsInField(c[1..], x);
      MulMono(EvalBarrett(c[1..], x), Q - 1, x, 45);
      ExactBelow(EvalBarrett(c[1..], x) * x + c[0]);
    }
  }

  /** From id 46 on this canonical polynomial meets an argument one below a multiple of 3329. */
  function LostPolynomial(x: nat): (c: Coeffs)
    ensures Canonical(c)
  {
    [(x - 1) % Q, Q - 1]
  }

  lemma LastReduction(x: nat)
    ensures EvalBarrett(LostPolynomial(x), x) == BarrettReduce((Q - 1) * x + (x - 1) % Q)
  {
    var c := LostPolynomial(x);
    assert c[1..] == [Q - 1];
    assert [Q - 1][1..] == [];
    assert EvalBarrett([Q - 1], x) == BarrettReduce(Q - 1) == Q - 1;
  }

  lemma LostArgument(x: nat)
    requires x >= 46
    ensures BarrettReduce((Q - 1) * x + (x - 1) % Q) < 0
  {
    var a := (Q - 1) * x + (x - 1) % Q;
    var k := (x - 1) / Q;
    assert a == Q * (x - k) - 1;
    assert x - k >= 46;
    NegativeRemainder(a, x - k);
  }

  lemma NegativeRemainder(a: nat, n: nat)
    requires a == Q * n - 1 && n >= 46
    ensures BarrettReduce(a) < 0
  {
    var t := a * BARRETT_MULTIPLIER / BARRETT_RANGE;
    assert Q * BARRETT_MULTIPLIER == BARRETT_RANGE + 447;
    assert a * BARRETT_MULTIPLIER == n * BARRETT_RANGE + (447 * n - BARRETT_MULTIPLIER);
    assert t >= n;
  }

  ghost predicate AlwaysInField(x: nat) {
    forall c: Coeffs :: Canonical(c) ==> 0 <= EvalBarrett(c, x) < Q
  }

  /** Every share of an id is a field element if and only if the id is at most 45. */
  lemma FieldIds(x: nat)
    ensures AlwaysInField(x) <==> x <= 45
  {
    hide EvalBarrett;
    if x <= 45 {
      forall c: Coeffs | Canonical(c)
        ensures 0 <= EvalBarrett(c, x) < Q
      {
        SmallIdsInField(c, x);
      }
    } else {
      LastReduction(x);
      LostArgument(x);
      assert EvalBarrett(LostPolynomial(x), x) < 0;
    }
  }

  /** The first such share: -1 instead of 3328, at id 46. */
  lemma BarrettLeavesField()
    ensures EvalBarrett([45, 3328], 46) == -1
    ensures Eval([45, 3328], 46) % Q == 3328
  {
    assert [45, 3328][1..] == [3328];
    assert [3328][1..] == [];
    assert EvalBarrett([3328], 46) == BarrettReduce(3328) == 3328;
  }

  function BarrettValues(c: Coeffs, xs: seq<int>): (ys: seq<int>)
    ensures |ys| == |xs|
  {
    seq(|xs|, i requires 0 <= i < |xs| => EvalBarrett(c, xs[i]))
  }

  /** Shares that left the field still reconstruct the secret: their residue is all that counts. */
  lemma BarrettSharesReconstruct(c: Coeffs, xs: seq<int>)
    requires 1 <= |c| <= |xs| && Recoverable(xs)
    ensures LagrangeAtZero(xs, BarrettValues(c, xs)) == c[0] % Q
  {
    hide Recoverable, LagrangeAtZero, EvalBarrett, Eval;
    forall i | 0 <= i < |xs|
      ensures Cong(Eval(c, xs[i]), BarrettValues(c, xs)[i])
    {
      EvalBarrettCong(c, xs[i]);
    }
    Reconstruct(c, xs, BarrettValues(c, xs));
  }

  // ----- reconstruction ----------------------------------------------------------------

  predicate NoDuplicates(xs: seq<int>) {
    forall i, j :: 0 <= i < j < |xs| ==> xs[i] != xs[j]
  }

  /** The checks made before any arithmetic, in order. */
  function Validate(xs: seq<int>): Result<(), RecoveryError> {
    if |xs| < 2 then Err(TooFewShares)
    else if 0 in xs then Err(ZeroIndex)
    else if !NoDuplicates(xs) then Err(DuplicateIndex)
    else Ok(())
  }

  /** Which lists of ids are refused, and why. */
  lemma ChecksMeaning(xs: seq<int>)
    ensures Validate(xs).Ok? <==>
      && |xs| >= 2 && (forall i :: 0 <= i < |xs| ==> xs[i] != 0)
      && (forall i, j :: 0 <= i < j < |xs| ==> xs[i] != xs[j])
    ensures Validate(xs) == Err(TooFewShares) <==> |xs| < 2
    ensures Validate(xs) == Err(ZeroIndex) <==> |xs| >= 2 && exists i :: 0 <= i < |xs| && xs[i] == 0
    ensures Validate(xs) == Err(DuplicateIndex) <==>
      && |xs| >= 2 && (forall i :: 0 <= i < |xs| ==> xs[i] != 0)
      && exists i, j :: 0 <= i < j < |xs| && xs[i] == xs[j]
  {
    assert 0 in xs <==> exists i :: 0 <= i < |xs| && xs[i] == 0;
  }

  lemma {:induction false} SetSize(xs: seq<int>)
    ensures |set x | x in xs| <= |xs|
    ensures |set x | x in xs| == |xs| <==> NoDuplicates(xs)
  {
    if xs != [] {
      var k := |xs| - 1;
      var init := xs[..k];
      SetSize(init);
      var s := set x | x in init;
      assert xs == init + [xs[k]];
      assert (set x | x in xs) == s + {xs[k]};
      if xs[k] in init {
        var i :| 0 <= i < k && init[i] == xs[k];
        assert xs[i] == xs[k];
        assert s + {xs[k]} == s;
      } else {
        assert forall i :: 0 <= i < k ==> xs[i] == init[i];
      }
    }
  }

  /** The inner loop of reconstruction: numerator and denominator of the i-th weight. */
  method LagrangeFraction(shares: seq<Baselines.Share>, i: nat) returns (numerator: int, denominator: int)
    requires i < |shares|
    ensures numerator == Product(Baselines.Ids(shares), {i}, |shares|, 0) % Q
    ensures denominator == Product(Baselines.Ids(shares), {i}, |shares|, shares[i].0) % Q
  {
    ghost var xs := Baselines.Ids(shares);
    var xi := shares[i].0;
    numerator, denominator := 1, 1;
    var j := 0;
    while j < |shares|
      invariant 0 <= j <= |shares|
      invariant numerator == Product(xs, {i}, j, 0) % Q
      invariant denominator == Product(xs, {i}, j, xi) % Q
    {
      if i != j {
        var xj := shares[j].0;
        Baselines.MulReduced(numerator, Product(xs, {i}, j, 0), -xj);
        DifferenceStep(denominator, Product(xs, {i}, j, xi), xi - xj);
        numerator := (numerator * -xj) % Q;
        denominator := (denominator * ((xi - xj) % Q)) % Q;
      }
      j := j + 1;
    }
  }

  method ReconstructSecret(shares: seq<Baselines.Share>) returns (r: Result<int, RecoveryError>)
    ensures match Validate(Baselines.Ids(shares))
            case Err(e) => r == Err(e)
            case Ok(_) => r == Ok(LagrangeAtZero(Baselines.Ids(shares), Baselines.Values(shares)))
  {
    ghost var xs, ys := Baselines.Ids(shares), Baselines.Values(shares);
    if |shares| < 2 {
      return Err(TooFewShares);
    }
    var shareIndices := Baselines.Ids(shares);
    if 0 in shareIndices {
      return Err(ZeroIndex);
    }
    SetSize(shareIndices);
    if |set x | x in shareIndices| != |shareIndices| {
      return Err(DuplicateIndex);
    }
    var secret := 0;
    var i := 0;
    while i < |shares|
      invariant 0 <= i <= |shares|
      invariant secret == LagrangeSum(xs, ys, i, 0) % Q
    {
      var (xi, yi) := shares[i];
      var numerator, denominator := LagrangeFraction(shares, i);
      Baselines.SummandStep(xs, yi, i, LagrangeSum(xs, ys, i, 0), numerator, denominator);
      var lagrangeCoeff := (numerator * ModInv(denominator)) % Q;
      secret := (secret + yi * lagrangeCoeff) % Q;
      i := i + 1;
    }
    r := Ok(secret);
  }

  /** Reducing the difference of two ids first changes no denominator. */
  lemma DifferenceStep(den: int, p: int, d: int)
    requires den == p % Q
    ensures (den * (d % Q)) % Q == (p * d) % Q
  {
    hide Cong;
    CongMod(p);
    CongMod(d);
    CongMul(den, p, d % Q, d);
    CongResidue(den * (d % Q), p * d);
  }

  // ----- shares as bytes -----------------------------------------------------------------

  const SECRET_ELEMENTS := 32
  const SECRET_BYTES := 64

  type ByteShare = (int, seq<byte>)

  /** Element e of a share value, low byte first. */
  function DecodeElement(y: seq<byte>, e: nat): uint16
    requires 2 * e + 1 < |y|
  {
    y[2 * e] as int + 0x100 * (y[2 * e + 1] as int)
  }

  function EncodeLE(v: seq<uint16>): (b: seq<byte>)
    ensures |b| == 2 * |v|
  {
    seq(2 * |v|, k requires 0 <= k < 2 * |v| => if k % 2 == 0 then v[k / 2] % 0x100 else v[k / 2] / 0x100)
  }

  lemma DecodeEncode(v: seq<uint16>, e: nat)
    requires e < |v|
    ensures DecodeElement(EncodeLE(v), e) == v[e]
  {
    assert (2 * e + 1) / 2 == e && (2 * e) / 2 == e;
  }

  lemma EncodeInjective(v: seq<uint16>, w: seq<uint16>)
    requires |v| == |w|
    ensures EncodeLE(v) == EncodeLE(w) <==> v == w
  {
    if EncodeLE(v) == EncodeLE(w) {
      forall e | 0 <= e < |v|
        ensures v[e] == w[e]
      {
        DecodeEncode(v, e);
        DecodeEncode(w, e);
      }
    }
  }

  ghost predicate AllAtLeast(shares: seq<ByteShare>, n: nat) {
    forall i :: 0 <= i < |shares| ==> |shares[i].1| >= n
  }

  function ElementShares(shares: seq<ByteShare>, e: nat): (r: seq<Baselines.Share>)
    requires AllAtLeast(shares, 2 * e + 2)
    ensures |r| == |shares|
    ensures Baselines.Ids(r) == Baselines.Ids(shares)
  {
    seq(|shares|, i requires 0 <= i < |shares| => (shares[i].0, DecodeElement(shares[i].1, e) % Q))
  }

  function SecretElement(shares: seq<ByteShare>, e: nat): Elem
    requires AllAtLeast(shares, 2 * e + 2)
  {
    LagrangeAtZero(Baselines.Ids(shares), Baselines.Values(ElementShares(shares, e)))
  }

  function SecretElements(shares: seq<ByteShare>): (v: seq<uint16>)
    requires AllAtLeast(shares, SECRET_BYTES)
    ensures |v| == SECRET_ELEMENTS
  {
    seq(SECRET_ELEMENTS, e requires 0 <= e < SECRET_ELEMENTS => SecretElement(shares, e))
  }

  /** The secret's bytes, element by element: the word at bytes 2e and 2e + 1, low byte first, is
      the Lagrange value of the words the shares hold there. */
  lemma ElementBytes(shares: seq<ByteShare>, e: nat, words: seq<int>)
    requires AllAtLeast(shares, SECRET_BYTES) && e < SECRET_ELEMENTS && |words| == |shares|
    requires forall i :: 0 <= i < |shares| ==> words[i] == shares[i].1[2 * e] as int + 0x100 * shares[i].1[2 * e + 1] as int
    ensures var b := EncodeLE(SecretElements(shares));
      && |b| == 64
      && b[2 * e] as int + 0x100 * b[2 * e + 1] as int == LagrangeAtZero(Baselines.Ids(shares), words)
  {
    var ys := Baselines.Values(ElementShares(shares, e));
    forall i | 0 <= i < |shares|
      ensures Cong(ys[i], words[i])
    {
      assert DecodeElement(shares[i].1, e) == words[i];
      CongMod(words[i]);
    }
    hide LagrangeSum, ElementShares, Cong;
    SumCong(Baselines.Ids(shares), ys, words, |shares|, 0);
    CongResidue(LagrangeSum(Baselines.Ids(shares), ys, |shares|, 0), LagrangeSum(Baselines.Ids(shares), words, |shares|, 0));
    hide LagrangeAtZero, DecodeElement;
    EncodedAt(SecretElements(shares), e);
  }

  lemma EncodedAt(v: seq<uint16>, e: nat)
    requires e < |v|
    ensures EncodeLE(v)[2 * e] as int + 0x100 * EncodeLE(v)[2 * e + 1] as int == v[e]
  {
    assert (2 * e + 1) / 2 == e && (2 * e) / 2 == e && (2 * e + 1) % 2 == 1;
  }

  /** Success takes two shares, no zero and no repeated id, and values of 64 bytes or more, the
      first exactly 64. */
  lemma BytesAccepted(shares: seq<ByteShare>)
    ensures
      && shares != [] && |shares[0].1| == SECRET_BYTES
      && Validate(Baselines.Ids(shares)).Ok? && AllAtLeast(shares, SECRET_BYTES)
    <==>
      && |shares| >= 2 && |shares[0].1| == 64 && (forall i :: 0 <= i < |shares| ==> |shares[i].1| >= 64)
      && (forall i :: 0 <= i < |shares| ==> shares[i].0 != 0)
      && (forall i, j :: 0 <= i < j < |shares| ==> shares[i].0 != shares[j].0)
  {
    var xs := Baselines.Ids(shares);
    ChecksMeaning(xs);
    hide Validate;
    assert forall i :: 0 <= i < |shares| ==> xs[i] == shares[i].0;
  }

  /** Only the first share's length is checked; a shorter later one surfaces as an index
      error, before the id checks if it has no first element and after them otherwise. */
  method ReconstructSecretBytes(shares: seq<ByteShare>) returns (r: Result<seq<byte>, RecoveryError>)
    ensures shares == [] ==> r == Err(NoShares)
    ensures shares != [] && |shares[0].1| != SECRET_BYTES ==> r == Err(BadLength)
    ensures shares != [] && |shares[0].1| == SECRET_BYTES ==>
      if !AllAtLeast(shares, 2) then r == Err(IndexError)
      else match Validate(Baselines.Ids(shares))
           case Err(e) => r == Err(e)
           case Ok(_) =>
             if !AllAtLeast(shares, SECRET_BYTES) then r == Err(IndexError)
             else r == Ok(EncodeLE(SecretElements(shares)))
    // success: no zero and no repeated id, every value at least 64 bytes and the first exactly
    ensures r.Ok? <==>
      && |shares| >= 2 && |shares[0].1| == 64 && (forall i :: 0 <= i < |shares| ==> |shares[i].1| >= 64)
      && (forall i :: 0 <= i < |shares| ==> shares[i].0 != 0)
      && (forall i, j :: 0 <= i < j < |shares| ==> shares[i].0 != shares[j].0)
  {
    BytesAccepted(shares);
    if shares == [] {
      return Err(NoShares);
    }
    if |shares[0].1| != SECRET_BYTES {
      return Err(BadLength);
    }
    var elements: seq<uint16> := [];
    var e := 0;
    while e < SECRET_ELEMENTS
      invariant 0 <= e == |elements| <= SECRET_ELEMENTS
      invariant AllAtLeast(shares, 2 * e)
      invariant e > 0 ==> Validate(Baselines.Ids(shares)).Ok?
      invariant forall k :: 0 <= k < e ==> AllAtLeast(shares, 2 * k + 2) && elements[k] == SecretElement(shares, k)
    {
      var elemShares: seq<Baselines.Share> := [];
      var i := 0;
      while i < |shares|
        invariant 0 <= i == |elemShares| <= |shares|
        invariant forall k :: 0 <= k < i ==> |shares[k].1| >= 2 * e + 2
        invariant forall k :: 0 <= k < i ==> elemShares[k] == (shares[k].0, DecodeElement(shares[k].1, e) % Q)
      {
        var (x, y) := shares[i];
        if |y| <= 2 * e + 1 {
          return Err(IndexError);
        }
        elemShares := elemShares + [(x, DecodeElement(y, e) % Q)];
        i := i + 1;
      }
      assert elemShares == ElementShares(shares, e);
      var secret := ReconstructSecret(elemShares);
      if secret.Err? {
        return Err(secret.error);
      }
      elements := elements + [secret.value];
      e := e + 1;
    }
    assert elements == SecretElements(shares);
    r := Ok(EncodeLE(elements));
  }
}

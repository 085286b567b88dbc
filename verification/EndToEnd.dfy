/** From the C client to the Python server: what the server reconstructs from the share
    values the client wrote. */
module EndToEnd {
  import opened Words
  import opened Field
  import opened Poly
  import opened Shamir
  import opened ShamirC
  import opened ShareGeneration
  import SR = ShamirRecovery
  import B = Baselines

  /** What share generation leaves behind for a 32-element secret: values[i] belongs to id i + 1. */
  ghost predicate Shared(secret: seq<uint16>, values: seq<seq<uint16>>, n: nat, t: nat, rng: nat -> Draw) {
    && 0 < t && |secret| == SR.SECRET_ELEMENTS
    && |values| == n <= MAX_SHARES
    && forall i :: 0 <= i < n ==>
      |values[i]| == |secret| && ShareComplete(values[i], secret, |secret|, t, rng, i + 1)
  }

  /** The shares of the chosen ids, in the order chosen, as they travel. */
  function Sent(values: seq<seq<uint16>>, ids: seq<nat>): (shares: seq<SR.ByteShare>)
    requires forall k :: 0 <= k < |ids| ==> 1 <= ids[k] <= |values|
    ensures |shares| == |ids|
  {
    seq(|ids|, k requires 0 <= k < |ids| => (ids[k], SR.EncodeLE(values[ids[k] - 1])))
  }

  /** Enough different ids of the round. */
  ghost predicate Chosen(ids: seq<nat>, n: nat, t: nat) {
    && |ids| >= 2 && |ids| >= t
    && (forall k :: 0 <= k < |ids| ==> 1 <= ids[k] <= n)
    && (forall j, k :: 0 <= j < k < |ids| ==> ids[j] != ids[k])
  }

  ghost predicate AllExact(ids: seq<nat>) {
    forall k :: 0 <= k < |ids| ==> ExactId(ids[k])
  }

  /** Points where the client's arithmetic is exact. A threshold of one needs no multiplication. */
  ghost predicate Usable(ids: seq<nat>, n: nat, t: nat) {
    Chosen(ids, n, t) && (t == 1 || AllExact(ids))
  }

  lemma ChosenIds(ids: seq<nat>, n: nat, t: nat)
    requires Chosen(ids, n, t) && n <= MAX_SHARES
    ensures Distinct([0] + ids) && Distinct(ids) && Recoverable(ids)
    ensures SR.Validate(ids).Ok?
  {
    assert Distinct(ids);
    ConsDistinct(ids);
    DistinctIsRecoverable(ids);
  }

  lemma SentShape(values: seq<seq<uint16>>, ids: seq<nat>)
    requires forall k :: 0 <= k < |ids| ==> 1 <= ids[k] <= |values| && |values[ids[k] - 1]| == SR.SECRET_ELEMENTS
    ensures SR.AllAtLeast(Sent(values, ids), SR.SECRET_BYTES)
    ensures B.Ids(Sent(values, ids)) == ids
    ensures |ids| > 0 ==> |Sent(values, ids)[0].1| == SR.SECRET_BYTES
  {}

  lemma SharedShape(secret: seq<uint16>, values: seq<seq<uint16>>, n: nat, t: nat, rng: nat -> Draw, ids: seq<nat>)
    requires Shared(secret, values, n, t, rng) && Chosen(ids, n, t)
    ensures SR.AllAtLeast(Sent(values, ids), SR.SECRET_BYTES)
    ensures B.Ids(Sent(values, ids)) == ids
  {
    SentShape(values, ids);
  }

  // ----- what reaches the server ----------------------------------------------------------

  /** The share values the client computes for a polynomial. */
  function ClientValues(c: seq<uint16>, ids: seq<nat>): (ys: seq<int>)
    requires forall k :: 0 <= k < |ids| ==> ids[k] < HALF
    ensures |ys| == |ids|
  {
    seq(|ids|, k requires 0 <= k < |ids| => EvalC(c, ids[k]))
  }

  /** For any choice of ids the server's element is the Lagrange value of the client's numbers. */
  lemma ElementSent(secret: seq<uint16>, values: seq<seq<uint16>>, n: nat, t: nat, rng: nat -> Draw,
                      ids: seq<nat>, e: nat)
    requires Shared(secret, values, n, t, rng) && Chosen(ids, n, t) && e < |secret|
    requires SR.AllAtLeast(Sent(values, ids), SR.SECRET_BYTES)
    ensures DrawsSucceed(rng, Start(e, t - 1), Start(e, t - 1) + (t - 1))
    ensures SR.SecretElement(Sent(values, ids), e)
         == LagrangeAtZero(ids, ClientValues(Segment(secret[e], t, rng, Start(e, t - 1)), ids))
  {
    hide EvalC, LagrangeSum, SR.EncodeLE, SR.DecodeElement;
    var ys := B.Values(SR.ElementShares(Sent(values, ids), e));
    assert ShareComplete(values[ids[0] - 1], secret, |secret|, t, rng, ids[0]);
    assert IsShare(values[ids[0] - 1][e], secret[e], t, rng, e, ids[0]);
    var c := Segment(secret[e], t, rng, Start(e, t - 1));
    var zs := ClientValues(c, ids);
    forall k | 0 <= k < |ids|
      ensures Cong(ys[k], zs[k])
    {
      var y := values[ids[k] - 1];
      assert ShareComplete(y, secret, |secret|, t, rng, ids[k]);
      assert IsShare(y[e], secret[e], t, rng, e, ids[k]);
      SR.DecodeEncode(y, e);
      CongMod(y[e]);
    }
    SumCong(ids, ys, zs, |ids|, 0);
    SharedShape(secret, values, n, t, rng, ids);
  }

  /** The answer is the secret plus the weighted sum of the client's errors. */
  ghost predicate OffByErrors(answer: int, c: seq<uint16>, ids: seq<nat>)
    requires c != [] && forall k :: 0 <= k < |ids| ==> ids[k] < HALF
  {
    Cong(answer, c[0] + LagrangeSum(ids, Errors(c, ids, ClientValues(c, ids)), |ids|, 0))
  }

  /** What the server gets instead of the secret, whatever the ids. */
  lemma ElementError(secret: seq<uint16>, values: seq<seq<uint16>>, n: nat, t: nat, rng: nat -> Draw,
                      ids: seq<nat>, e: nat)
    requires Shared(secret, values, n, t, rng) && Chosen(ids, n, t) && e < |secret|
    requires SR.AllAtLeast(Sent(values, ids), SR.SECRET_BYTES)
    ensures DrawsSucceed(rng, Start(e, t - 1), Start(e, t - 1) + (t - 1))
    ensures OffByErrors(SR.SecretElement(Sent(values, ids), e), Segment(secret[e], t, rng, Start(e, t - 1)), ids)
  {
    hide OffByErrors, LagrangeAtZero, SR.SecretElement, DrawsSucceed, SR.AllAtLeast, ClientValues;
    assert t > 0 && |values| == n <= MAX_SHARES;
    ChosenRange(ids, n, t);
    hide Shared, Chosen, Segment, Start, Sent;
    ElementSent(secret, values, n, t, rng, ids, e);
    ClientError(Segment(secret[e], t, rng, Start(e, t - 1)), ids, n, t);
  }

  lemma ClientError(c: seq<uint16>, ids: seq<nat>, n: nat, t: nat)
    requires Chosen(ids, n, t) && n <= MAX_SHARES && |c| == t > 0
    ensures OffByErrors(LagrangeAtZero(ids, ClientValues(c, ids)), c, ids)
  {
    hide LagrangeSum, LagrangeAtZero, Errors, Cong, Recoverable, Distinct, EvalC;
    ChosenIds(ids, n, t);
    ErrorTerm(c, ids, ClientValues(c, ids));
  }

  // ----- usable ids -------------------------------------------------------------------------

  /** The client's numbers lie on the polynomial it drew. */
  lemma ClientFits(c: seq<uint16>, ids: seq<nat>, n: nat, t: nat)
    requires Usable(ids, n, t) && n <= MAX_SHARES && |c| == t && t > 0
    requires Canonical(c[1..]) && c[0] < HALF - (Q - 1)
    ensures Fits(c, ids, ClientValues(c, ids))
  {
    hide EvalC, Eval;
    forall k | 0 <= k < |ids|
      ensures Cong(Eval(c, ids[k]), ClientValues(c, ids)[k])
    {
      if t == 1 {
        EvalConstant(c, ids[k]);
      } else {
        EvalAnyConstant(c, ids[k]);
      }
    }
  }

  /** Every element comes back modulo 3329. */
  lemma ElementRecovered(secret: seq<uint16>, values: seq<seq<uint16>>, n: nat, t: nat, rng: nat -> Draw,
                      ids: seq<nat>, e: nat)
    requires Shared(secret, values, n, t, rng) && Usable(ids, n, t) && e < |secret|
    requires secret[e] < HALF - (Q - 1)
    requires SR.AllAtLeast(Sent(values, ids), SR.SECRET_BYTES)
    ensures SR.SecretElement(Sent(values, ids), e) == secret[e] % Q
  {
    hide Eval, EvalC, Recoverable, Fits, LagrangeAtZero, SR.SecretElement, Canonical;
    ElementSent(secret, values, n, t, rng, ids, e);
    var c := Segment(secret[e], t, rng, Start(e, t - 1));
    ClientFits(c, ids, n, t);
    ChosenIds(ids, n, t);
    Reconstruct(c, ids, ClientValues(c, ids));
  }

  /** The server's bytes are the client's secret for every usable choice of shares, exactly
      when every element of the secret is a field element. Elements from 3329 up come back
      reduced (up to 62207; beyond that the client's last addition can wrap). */
  lemma SecretBytesRecovered(secret: seq<uint16>, values: seq<seq<uint16>>, n: nat, t: nat, rng: nat -> Draw,
                      ids: seq<nat>)
    requires Shared(secret, values, n, t, rng) && Usable(ids, n, t)
    ensures SR.AllAtLeast(Sent(values, ids), SR.SECRET_BYTES)
    ensures SR.EncodeLE(SR.SecretElements(Sent(values, ids))) == SR.EncodeLE(secret) <==> Canonical(secret)
    ensures (forall e :: 0 <= e < |secret| ==> secret[e] <= 62207) ==>
      forall e :: 0 <= e < |secret| ==> SR.SecretElements(Sent(values, ids))[e] == secret[e] % Q
  {
    hide SR.EncodeLE, SR.SecretElement, Chosen, AllExact, Sent;
    ChosenRange(ids, n, t);
    SharedShape(secret, values, n, t, rng, ids);
    hide Shared;
    var back := SR.SecretElements(Sent(values, ids));
    forall e | 0 <= e < |secret| && secret[e] <= 62207
      ensures back[e] == secret[e] % Q
    {
      ElementRecovered(secret, values, n, t, rng, ids, e);
    }
    if Canonical(secret) {
      assert back == secret;
    }
    SR.EncodeInjective(back, secret);
  }

  // ----- all other ids ------------------------------------------------------------------

  /** The inexact ids' largest. */
  lemma {:induction false} LargestInexact(ids: seq<nat>) returns (w: nat)
    requires !AllExact(ids)
    ensures w < |ids| && !ExactId(ids[w])
    ensures forall k :: 0 <= k < |ids| ==> ExactId(ids[k]) || ids[k] <= ids[w]
  {
    var m := |ids| - 1;
    if AllExact(ids[..m]) {
      w := m;
      assert forall k :: 0 <= k < m ==> ExactId(ids[..m][k]);
    } else {
      w := LargestInexact(ids[..m]);
      assert forall k :: 0 <= k < m ==> ExactId(ids[..m][k]) || ids[..m][k] <= ids[w];
      if !ExactId(ids[m]) && ids[m] > ids[w] {
        w := m;
      }
    }
  }

  /** With an inexact id among those chosen, some polynomial with secret zero comes back as
      another secret. */
  lemma LineLoses(ids: seq<nat>, n: nat, t: nat) returns (r: Elem)
    requires Chosen(ids, n, t) && n <= MAX_SHARES && t >= 2 && !AllExact(ids)
    ensures LagrangeAtZero(ids, ClientValues(Line(r, t), ids)) != 0
  {
    hide EvalC, Eval, LagrangeAtZero, Line, LostSlope, Safe, ExactId;
    var w := LargestInexact(ids);
    r := LostSlope(ids[w]);
    var c, ys := Line(r, t), ClientValues(Line(r, t), ids);
    forall k | 0 <= k < |ids|
      ensures Cong(ys[k], Eval(c, ids[k])) <==> k != w
    {
      LineKept(r, t, ids[k]);
      if k == w {
        LostSlopeUnsafe(ids[w]);
      } else {
        SlopeSpares(ids[w], ids[k]);
      }
    }
    ChosenIds(ids, n, t);
    OneWrongShare(c, ids, ys, w);
  }

  /** Draws that give the first element of a zero secret that polynomial. */
  function LineDraws(r: Elem): nat -> Draw {
    i => if i == 0 then Bytes(r % 0x100, r / 0x100) else Bytes(0, 0)
  }

  lemma {:induction false} LineDrawn(r: Elem, count: nat)
    requires count >= 1
    ensures Drawn(LineDraws(r), 0, count) == [r] + seq(count - 1, _ => 0)
  {
    var rng := LineDraws(r);
    if count == 1 {
      assert Drawn(rng, 0, 0) == [];
      assert Coefficient(rng(0)) == r;
    } else {
      LineDrawn(r, count - 1);
      assert Coefficient(rng(count - 1)) == 0;
    }
  }

  lemma LineSegment(r: Elem, t: nat)
    requires t >= 2
    ensures Start(0, t - 1) == 0 && Segment(0, t, LineDraws(r), 0) == Line(r, t)
  {
    LineDrawn(r, t - 1);
  }

  /** Sharing with draws that all succeed has some outcome. */
  lemma SomeShares(secret: seq<uint16>, n: nat, t: nat, rng: nat -> Draw) returns (values: seq<seq<uint16>>)
    requires |secret| == SR.SECRET_ELEMENTS && 0 < t && n <= MAX_SHARES && forall i :: rng(i).Bytes?
    ensures Shared(secret, values, n, t, rng)
  {
    hide EvalC, Segment, Start;
    values := seq(n, i requires 0 <= i < n =>
      seq(|secret|, e requires 0 <= e < |secret| => EvalC(Segment(secret[e], t, rng, Start(e, t - 1)), i + 1)));
    forall i | 0 <= i < n
      ensures |values[i]| == |secret| && ShareComplete(values[i], secret, |secret|, t, rng, i + 1)
    {}
  }

  /** From these ids every canonical secret comes back, whatever the client drew. */
  ghost predicate AlwaysReturned(ids: seq<nat>, n: nat, t: nat)
    requires Chosen(ids, n, t)
  {
    forall secret: seq<uint16>, values: seq<seq<uint16>>, rng: nat -> Draw ::
      Shared(secret, values, n, t, rng) && Canonical(secret) ==> Returned(secret, values, n, t, rng, ids)
  }

  ghost predicate Returned(secret: seq<uint16>, values: seq<seq<uint16>>, n: nat, t: nat, rng: nat -> Draw,
                           ids: seq<nat>)
    requires Shared(secret, values, n, t, rng) && Chosen(ids, n, t)
  {
    SharedShape(secret, values, n, t, rng, ids);
    SR.EncodeLE(SR.SecretElements(Sent(values, ids))) == SR.EncodeLE(secret)
  }

  lemma LostRound(ids: seq<nat>, n: nat, t: nat)
    requires Chosen(ids, n, t) && n <= MAX_SHARES && t >= 2 && !AllExact(ids)
    ensures !AlwaysReturned(ids, n, t)
  {
    hide LagrangeAtZero, Line, SR.EncodeLE, SR.SecretElement, Segment, ClientValues, LineDraws, Chosen, AllExact;
    ChosenRange(ids, n, t);
    var r := LineLoses(ids, n, t);
    var secret: seq<uint16>, rng := seq(SR.SECRET_ELEMENTS, _ => 0), LineDraws(r);
    assert forall i :: rng(i).Bytes? by { DrawsAreBytes(r); }
    var values := SomeShares(secret, n, t, rng);
    SharedShape(secret, values, n, t, rng, ids);
    ElementSent(secret, values, n, t, rng, ids, 0);
    LineSegment(r, t);
    SR.EncodeInjective(SR.SecretElements(Sent(values, ids)), secret);
    assert SR.SecretElements(Sent(values, ids))[0] != secret[0];
    assert !Returned(secret, values, n, t, rng, ids);
  }

  lemma DrawsAreBytes(r: Elem)
    ensures forall i :: LineDraws(r)(i).Bytes?
  {}

  /** The server returns every secret from a choice of shares if and only if all chosen ids are
      exact, or the threshold is one. */
  lemma ChoiceCondition(ids: seq<nat>, n: nat, t: nat)
    requires Chosen(ids, n, t) && n <= MAX_SHARES && t > 0
    ensures AlwaysReturned(ids, n, t) <==> t == 1 || AllExact(ids)
  {
    hide Shared, Chosen, AllExact, Canonical;
    if t == 1 || AllExact(ids) {
      forall secret: seq<uint16>, values: seq<seq<uint16>>, rng: nat -> Draw
        | Shared(secret, values, n, t, rng) && Canonical(secret)
        ensures Returned(secret, values, n, t, rng, ids)
      {
        SecretBytesRecovered(secret, values, n, t, rng, ids);
      }
    } else {
      LostRound(ids, n, t);
    }
  }

  /** A round returns every secret from every choice of shares if and only if it has at most 57
      shares or its threshold is one. */
  lemma RoundCondition(n: nat, t: nat)
    requires 0 < t <= n <= MAX_SHARES
    ensures (forall ids :: Chosen(ids, n, t) ==> AlwaysReturned(ids, n, t)) <==> t == 1 || n <= 57
  {
    hide AlwaysReturned;
    forall ids | Chosen(ids, n, t)
      ensures AlwaysReturned(ids, n, t) <==> t == 1 || AllExact(ids)
    {
      ChoiceCondition(ids, n, t);
    }
    if n >= 58 {
      var ids := seq(n, k requires 0 <= k < n => k + 1);
      assert Chosen(ids, n, t) && !ExactId(ids[57]);
    }
  }

  /** The server accepts such a choice, so its answer is those bytes. */
  lemma ServerAccepts(values: seq<seq<uint16>>, n: nat, t: nat, ids: seq<nat>)
    requires |values| == n <= MAX_SHARES && Chosen(ids, n, t)
    requires forall i :: 0 <= i < n ==> |values[i]| == SR.SECRET_ELEMENTS
    ensures Sent(values, ids) != [] && |Sent(values, ids)[0].1| == SR.SECRET_BYTES
    ensures SR.AllAtLeast(Sent(values, ids), SR.SECRET_BYTES)
    ensures SR.Validate(B.Ids(Sent(values, ids))).Ok?
  {
    SentShape(values, ids);
    ChosenIds(ids, n, t);
  }

  /** Both programs in sequence: the client shares, some choice of shares travels, the server
      reconstructs. It always answers; from usable ids, with the secret. */
  method ShareThenReconstruct(secret: array<uint16>, shareX: array<uint16>, shareY: seq<array<uint16>>,
                              n: byte, t: byte, rng: nat -> Draw, workspace: array<uint16>, ids: seq<nat>)
    returns (ret: int, answer: Result<seq<byte>, SR.RecoveryError>)
    requires Separate(secret, shareX, shareY, workspace)
    requires ValidArgs(SR.SECRET_ELEMENTS, n, t) && Chosen(ids, n, t)
    requires secret.Length == SR.SECRET_ELEMENTS && n <= shareX.Length && n == |shareY|
    requires forall i :: 0 <= i < n ==> shareY[i].Length == SR.SECRET_ELEMENTS
    requires Start(SR.SECRET_ELEMENTS, t) <= workspace.Length
    modifies workspace, shareX, shareY
    ensures ret == 0 <==> DrawsSucceed(rng, 0, Start(SR.SECRET_ELEMENTS, t - 1))
    ensures ret == 0 ==> answer.Ok?
    ensures ret == 0 && Usable(ids, n, t) ==>
      (answer == Result.Ok(SR.EncodeLE(old(secret[..]))) <==> Canonical(old(secret[..])))
  {
    hide ShareComplete, Start, Chosen, AllExact, DrawsSucceed, Canonical, SR.EncodeLE, SR.SecretElements, SR.Validate;
    ghost var failed;
    ret, failed := ShamirShare(secret, SR.SECRET_ELEMENTS, shareX, shareY, n, t, rng, workspace);
    answer := Result.Err(SR.NoShares);
    if ret == 0 {
      ghost var word := secret[..];
      var values: seq<seq<uint16>> := [];
      var i := 0;
      while i < n
        invariant 0 <= i == |values| <= n
        invariant forall k :: 0 <= k < i ==> values[k] == shareY[k][..]
      {
        values := values + [shareY[i][..]];
        i := i + 1;
      }
      assert Shared(word, values, n, t, rng);
      assert forall k :: 0 <= k < |ids| ==> 1 <= ids[k] <= |values| by { ChosenRange(ids, n, t); }
      ServerAccepts(values, n, t, ids);
      if Usable(ids, n, t) {
        SecretBytesRecovered(word, values, n, t, rng, ids);
      }
      answer := SR.ReconstructSecretBytes(Sent(values, ids));
    }
  }

  lemma ChosenRange(ids: seq<nat>, n: nat, t: nat)
    requires Chosen(ids, n, t)
    ensures forall k :: 0 <= k < |ids| ==> 1 <= ids[k] <= n
  {}
}

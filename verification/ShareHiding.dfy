/** What fewer than t of the client's shares say about its secret, over the draws the client can
    make: src/pqc_engine/shamir.c, share generation. */
module ShareHiding {
  import opened Words
  import opened Field
  import opened Poly
  import opened Shamir
  import opened ShamirC
  import opened ShareGeneration

  /** The shares of these ids, as share generation writes them. */
  ghost predicate Written(values: seq<seq<uint16>>, secret: seq<uint16>, t: nat, rng: nat -> Draw, ids: seq<uint16>)
    requires t > 0
  {
    && |values| == |ids|
    && forall k :: 0 <= k < |ids| ==>
      |values[k]| == |secret| && ShareComplete(values[k], secret, |secret|, t, rng, ids[k])
  }

  /** Exact ids other than zero. */
  ghost predicate ProperIds(ids: seq<uint16>) {
    forall k :: 0 <= k < |ids| ==> ids[k] >= 1 && ExactId(ids[k])
  }

  ghost predicate Explained(values: seq<seq<uint16>>, secret: seq<uint16>, t: nat, ids: seq<uint16>)
    requires t > 0
  {
    exists rng: nat -> Draw :: DrawsSucceed(rng, 0, Start(|secret|, t - 1)) && Written(values, secret, t, rng, ids)
  }

  /** Every secret of field elements could have led to these shares, with draws that succeed. */
  ghost predicate Concealed(values: seq<seq<uint16>>, elements: nat, t: nat, ids: seq<uint16>)
    requires t > 0
  {
    forall secret: seq<uint16> :: |secret| == elements && Canonical(secret) ==> Explained(values, secret, t, ids)
  }

  // ----- one element ------------------------------------------------------------------------

  /** The word 3329 is shared as zero is. */
  lemma ModulusIsZero(c: seq<uint16>, d: seq<uint16>, x: nat)
    requires ExactId(x) && c != [] && |c| == |d| && c[1..] == d[1..] && Canonical(c[1..])
    requires c[0] == Q && d[0] == 0
    ensures EvalC(c, x) == EvalC(d, x)
  {
    hide GfMul, Eval;
    EvalExact(c[1..], x);
    var r := EvalC(c[1..], x);
    assert EvalC(c, x) == GfAdd(GfMul(r, x), Q) && EvalC(d, x) == GfAdd(GfMul(r, x), 0);
    hide EvalC;
    MulAtExactId(r, x);
    AddModulus(GfMul(r, x));
  }

  lemma AddModulus(m: Elem)
    ensures GfAdd(m, Q) == GfAdd(m, 0)
  {}

  /** Another polynomial with the same values and any wanted secret. */
  lemma OtherPolynomial(c: seq<uint16>, ids: seq<uint16>, secret: Elem) returns (d: seq<uint16>)
    requires |ids| < |c| && Canonical(c[1..]) && c[0] <= Q && ProperIds(ids)
    ensures |d| == |c| && Canonical(d) && d[0] == secret
    ensures forall k :: 0 <= k < |ids| ==> EvalC(d, ids[k]) == EvalC(c, ids[k])
  {
    hide EvalC, Eval;
    var c' := if c[0] == Q then [0] + c[1..] else c;
    assert Canonical(c');
    var e := SecretExplained(c', ids, secret);
    d := e;
    forall k | 0 <= k < |ids|
      ensures EvalC(d, ids[k]) == EvalC(c, ids[k])
    {
      if c[0] == Q {
        ModulusIsZero(c, c', ids[k]);
      }
      EvalExact(c', ids[k]);
      EvalExact(d, ids[k]);
      assert Cong(Eval(e, ids[k]), Eval(c', ids[k]));
    }
  }

  // ----- all elements -----------------------------------------------------------------------

  ghost predicate Matches(ds: seq<seq<uint16>>, secret: seq<uint16>, values: seq<seq<uint16>>, t: nat, ids: seq<uint16>)
    requires |ds| <= |secret|
  {
    forall e :: 0 <= e < |ds| ==>
      && |ds[e]| == t && Canonical(ds[e]) && ds[e] != [] && ds[e][0] == secret[e]
      && forall k :: 0 <= k < |ids| && k < |values| && e < |values[k]| ==> values[k][e] == EvalC(ds[e], ids[k])
  }

  lemma {:induction false} OtherPolynomials(secret: seq<uint16>, values: seq<seq<uint16>>, t: nat, rng: nat -> Draw,
                                            ids: seq<uint16>, other: seq<uint16>, m: nat)
    returns (ds: seq<seq<uint16>>)
    requires |ids| < t && ProperIds(ids) && Written(values, secret, t, rng, ids)
    requires DrawsSucceed(rng, 0, Start(|secret|, t - 1))
    requires forall e :: 0 <= e < |secret| ==> secret[e] <= Q
    requires m <= |secret| == |other| && Canonical(other)
    ensures |ds| == m && Matches(ds, other, values, t, ids)
  {
    if m == 0 {
      ds := [];
    } else {
      hide EvalC, Start;
      var e := m - 1;
      ds := OtherPolynomials(secret, values, t, rng, ids, other, e);
      SegmentsApart(e, |secret|, t - 1);
      var c := Segment(secret[e], t, rng, Start(e, t - 1));
      var d := OtherPolynomial(c, ids, other[e]);
      forall k | 0 <= k < |ids|
        ensures values[k][e] == EvalC(d, ids[k])
      {
        assert ShareComplete(values[k], secret, |secret|, t, rng, ids[k]);
        assert IsShare(values[k][e], secret[e], t, rng, e, ids[k]);
      }
      ds := ds + [d];
    }
  }

  /** Draws that give these polynomials, element by element. */
  function DrawsFor(ds: seq<seq<uint16>>, t: nat): nat -> Draw
    requires t >= 2 && forall e :: 0 <= e < |ds| ==> |ds[e]| == t && Canonical(ds[e])
  {
    (i: nat) => DrawFor(ds, t, i)
  }

  function DrawFor(ds: seq<seq<uint16>>, t: nat, i: nat): Draw
    requires t >= 2 && forall e :: 0 <= e < |ds| ==> |ds[e]| == t && Canonical(ds[e])
  {
    if i / (t - 1) < |ds| then
      var v := ds[i / (t - 1)][i % (t - 1) + 1];
      Bytes(v % 0x100, v / 0x100)
    else Bytes(0, 0)
  }

  lemma DrawsForSegment(ds: seq<seq<uint16>>, t: nat, e: nat)
    requires t >= 2 && e < |ds| && forall i :: 0 <= i < |ds| ==> |ds[i]| == t && Canonical(ds[i])
    ensures DrawsSucceed(DrawsFor(ds, t), Start(e, t - 1), Start(e, t - 1) + (t - 1))
    ensures Segment(ds[e][0], t, DrawsFor(ds, t), Start(e, t - 1)) == ds[e]
  {
    var rng, pos := DrawsFor(ds, t), Start(e, t - 1);
    var c := Segment(ds[e][0], t, rng, pos);
    forall k | 1 <= k < t
      ensures c[k] == ds[e][k]
    {
      DrawnAt(rng, pos, t - 1, k - 1);
      DivUnique(e * (t - 1) + (k - 1), e, k - 1, t - 1);
      WordBytes(ds[e][k]);
    }
  }

  lemma WordBytes(v: Elem)
    ensures (v % 0x100 + 0x100 * (v / 0x100)) % 3329 == v
  {}

  /** Fewer than t shares at exact ids conceal a secret of words up to 3329: every secret of field
      elements leads to the same share values, with other draws. */
  lemma DrawsConceal(secret: seq<uint16>, values: seq<seq<uint16>>, t: nat, rng: nat -> Draw, ids: seq<uint16>)
    requires 1 <= |ids| < t && ProperIds(ids) && Written(values, secret, t, rng, ids)
    requires DrawsSucceed(rng, 0, Start(|secret|, t - 1))
    requires forall e :: 0 <= e < |secret| ==> secret[e] <= Q
    ensures Concealed(values, |secret|, t, ids)
  {
    forall other: seq<uint16> | |other| == |secret| && Canonical(other)
      ensures Explained(values, other, t, ids)
    {
      var ds := OtherPolynomials(secret, values, t, rng, ids, other, |secret|);
      hide EvalC, Start;
      var rng' := DrawsFor(ds, t);
      forall k | 0 <= k < |ids|
        ensures ShareComplete(values[k], other, |other|, t, rng', ids[k])
      {
        forall e | 0 <= e < |other|
          ensures IsShare(values[k][e], other[e], t, rng', e, ids[k])
        {
          DrawsForSegment(ds, t, e);
        }
      }
      assert Written(values, other, t, rng', ids);
    }
  }

  // ----- words outside the field --------------------------------------------------------------

  /** Draws that give every element the line of slope r. */
  function SlopeDraws(r: Elem, t: nat): nat -> Draw
    requires t >= 2
  {
    (i: nat) => SlopeDraw(r, t, i)
  }

  function SlopeDraw(r: Elem, t: nat, i: nat): Draw
    requires t >= 2
  {
    if i % (t - 1) == 0 then Bytes(r % 0x100, r / 0x100) else Bytes(0, 0)
  }

  lemma SlopeDrawAt(r: Elem, t: nat, e: nat, k: nat)
    requires 1 <= k < t
    ensures 0 <= Start(e, t - 1) + (k - 1)
    ensures SlopeDraw(r, t, Start(e, t - 1) + (k - 1)) == if k == 1 then Bytes(r % 0x100, r / 0x100) else Bytes(0, 0)
  {
    DivUnique(e * (t - 1) + (k - 1), e, k - 1, t - 1);
  }

  lemma SlopeSegment(r: Elem, t: nat, secret: uint16, e: nat)
    requires t >= 2
    ensures DrawsSucceed(SlopeDraws(r, t), Start(e, t - 1), Start(e, t - 1) + (t - 1))
    ensures Segment(secret, t, SlopeDraws(r, t), Start(e, t - 1)) == [secret] + Line(r, t)[1..]
  {
    var rng, pos := SlopeDraws(r, t), Start(e, t - 1);
    var c := Segment(secret, t, rng, pos);
    assert |c| == t && c[0] == secret;
    forall k | 1 <= k < t
      ensures c[k] == Line(r, t)[k]
    {
      SlopeDrawn(r, t, secret, e, k);
    }
    hide Segment, Line, SlopeDraws, DrawsSucceed, Start;
    assert c == [secret] + Line(r, t)[1..];
  }

  lemma SlopeDrawn(r: Elem, t: nat, secret: uint16, e: nat, k: nat)
    requires t >= 2 && 1 <= k < t
    requires DrawsSucceed(SlopeDraws(r, t), Start(e, t - 1), Start(e, t - 1) + (t - 1))
    ensures Segment(secret, t, SlopeDraws(r, t), Start(e, t - 1))[k] == Line(r, t)[k]
  {
    hide Start, SlopeDraw;
    var rng, pos := SlopeDraws(r, t), Start(e, t - 1);
    DrawnAt(rng, pos, t - 1, k - 1);
    SlopeDrawAt(r, t, e, k);
    assert rng(pos + (k - 1)) == SlopeDraw(r, t, pos + (k - 1));
    hide SlopeDraws, Drawn;
    WordBytes(r);
    assert Segment(secret, t, rng, pos)[k] == Drawn(rng, pos, t - 1)[k - 1];
    hide Segment;
  }

  lemma SlopeValue(r: Elem, t: nat, secret: uint16, x: nat)
    requires t >= 2 && ExactId(x)
    ensures EvalC([secret] + Line(r, t)[1..], x) == GfAdd((r * x) % Q, secret)
  {
    hide GfMul, GfAdd, Eval;
    var tail := Line(r, t)[1..];
    assert ([secret] + tail)[1..] == tail;
    ZerosEvalC(t - 2, x);
    MulByZero(x);
    assert tail[1..] == seq(t - 2, _ => 0);
    assert EvalC(tail, x) == GfAdd(GfMul(0, x), r);
    assert GfAdd(0, r) == r by { AddSubField(0, r); }
    MulAtExactId(r, x);
  }

  /** A slope for which the word's share at x lies outside the field. */
  lemma OutsideSlope(secret: uint16, x: nat) returns (r: Elem)
    requires ExactId(x) && x >= 1 && secret > Q
    ensures GfAdd((r * x) % Q, secret) >= Q
  {
    hide ModInv, GfAdd, Cong;
    if secret >= 2 * Q {
      r := 0;
      assert r * x == 0;
    } else {
      ModInvCorrect(x);
      SmallIsUnit(x);
      var inv: int := ModInv(x);
      r := (-inv) % Q;
      MinusOne(x, inv, r);
    }
    SumOutside((r * x) % Q, secret);
  }

  lemma SmallIsUnit(x: nat)
    requires 1 <= x < Q
    ensures !Cong(x, 0)
  {}

  lemma SumOutside(m: Elem, secret: uint16)
    requires (m == 0 && secret >= 2 * Q) || (m == Q - 1 && Q < secret < 2 * Q)
    ensures GfAdd(m, secret) >= Q
  {}

  lemma MinusOne(x: int, inv: int, r: int)
    requires Cong(inv * x, 1) && r == (-inv) % Q
    ensures (r * x) % Q == Q - 1
  {
    hide Cong;
    CongMod(-inv);
    CongRefl(x);
    CongMul(r, -inv, x, x);
    assert (-inv) * x == -(inv * x);
    CongRefl(0);
    CongAdd(0, 0, inv * x, 1);
    CongTrans(r * x, -(inv * x), -1);
    CongResidue(r * x, -1);
  }

  lemma SomeValues(secret: seq<uint16>, t: nat, rng: nat -> Draw, ids: seq<uint16>) returns (values: seq<seq<uint16>>)
    requires t > 0 && forall i :: rng(i).Bytes?
    ensures Written(values, secret, t, rng, ids)
  {
    hide EvalC, Segment, Start;
    values := seq(|ids|, k requires 0 <= k < |ids| =>
      seq(|secret|, e requires 0 <= e < |secret| => EvalC(Segment(secret[e], t, rng, Start(e, t - 1)), ids[k])));
    forall k | 0 <= k < |ids|
      ensures |values[k]| == |secret| && ShareComplete(values[k], secret, |secret|, t, rng, ids[k])
    {}
  }

  /** Shares of field elements are field elements. */
  lemma ExplainedInField(values: seq<seq<uint16>>, secret: seq<uint16>, t: nat, ids: seq<uint16>, k: nat, e: nat)
    requires t > 0 && k < |ids| && ProperIds(ids) && Explained(values, secret, t, ids)
    requires Canonical(secret) && e < |secret|
    ensures |values| == |ids| && |values[k]| == |secret| && values[k][e] < Q
  {
    hide EvalC, Start;
    var rng :| DrawsSucceed(rng, 0, Start(|secret|, t - 1)) && Written(values, secret, t, rng, ids);
    assert ShareComplete(values[k], secret, |secret|, t, rng, ids[k]);
    assert IsShare(values[k][e], secret[e], t, rng, e, ids[k]);
    EvalExact(Segment(secret[e], t, rng, Start(e, t - 1)), ids[k]);
  }

  /** A word above 3329 shows: with some draws its share is no field element. */
  lemma WordShows(secret: seq<uint16>, t: nat, ids: seq<uint16>, e: nat)
    returns (values: seq<seq<uint16>>, rng: nat -> Draw)
    requires 1 <= |ids| < t && ProperIds(ids) && e < |secret| && secret[e] > Q
    ensures DrawsSucceed(rng, 0, Start(|secret|, t - 1)) && Written(values, secret, t, rng, ids)
    ensures !Concealed(values, |secret|, t, ids)
  {
    hide EvalC, Start, GfAdd, Segment;
    var r := OutsideSlope(secret[e], ids[0]);
    rng := SlopeDraws(r, t);
    values := SomeValues(secret, t, rng, ids);
    assert ShareComplete(values[0], secret, |secret|, t, rng, ids[0]);
    assert IsShare(values[0][e], secret[e], t, rng, e, ids[0]);
    SlopeSegment(r, t, secret[e], e);
    SlopeValue(r, t, secret[e], ids[0]);
    var zeros: seq<uint16> := seq(|secret|, _ => 0);
    if Concealed(values, |secret|, t, ids) {
      ExplainedInField(values, zeros, t, ids, 0, e);
    }
  }

  /** Shares written for a secret conceal it, whatever the draws. */
  ghost predicate AlwaysConcealed(secret: seq<uint16>, t: nat, ids: seq<uint16>)
    requires t > 0
  {
    forall values: seq<seq<uint16>>, rng: nat -> Draw ::
      DrawsSucceed(rng, 0, Start(|secret|, t - 1)) && Written(values, secret, t, rng, ids)
      ==> Concealed(values, |secret|, t, ids)
  }

  /** Some but fewer than t shares at exact ids always conceal a secret if and only if none of
      its words is above 3329. */
  lemma ConcealmentCondition(secret: seq<uint16>, t: nat, ids: seq<uint16>)
    requires 1 <= |ids| < t && ProperIds(ids)
    ensures AlwaysConcealed(secret, t, ids) <==> forall e :: 0 <= e < |secret| ==> secret[e] <= 3329
  {
    hide Written, Concealed, Start, DrawsSucceed, ProperIds;
    if forall e :: 0 <= e < |secret| ==> secret[e] <= 3329 {
      forall values: seq<seq<uint16>>, rng: nat -> Draw
        | DrawsSucceed(rng, 0, Start(|secret|, t - 1)) && Written(values, secret, t, rng, ids)
        ensures Concealed(values, |secret|, t, ids)
      {
        DrawsConceal(secret, values, t, rng, ids);
      }
    } else {
      var e :| 0 <= e < |secret| && secret[e] > 3329;
      var values, rng := WordShows(secret, t, ids, e);
    }
  }
}

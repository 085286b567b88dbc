/** src/pqc_engine/shamir.c: share generation. Coefficients live in a workspace the caller
    supplies, one segment of t cells per secret element, and are wiped before returning. */
module ShareGeneration {
  import opened Words
  import opened Field
  import opened Poly
  import opened ShamirC

  type ErrorCode = x: int | x != 0 witness 1

  /** One call of the random source: two bytes, or an error code. */
  datatype Draw = Bytes(lo: byte, hi: byte) | Failure(code: ErrorCode)

  predicate ValidArgs(elements: byte, n: byte, t: byte) {
    n >= t && t != 0 && n <= MAX_SHARES && elements <= MAX_ELEMENTS
  }

  ghost predicate DrawsSucceed(rng: nat -> Draw, from: nat, to: nat) {
    forall i :: from <= i < to ==> rng(i).Bytes?
  }

  /** The first failing call, if it is below the given number of calls. */
  ghost predicate FirstFailure(rng: nat -> Draw, f: nat) {
    rng(f).Failure? && DrawsSucceed(rng, 0, f)
  }

  function Coefficient(d: Draw): Elem
    requires d.Bytes?
  {
    (d.lo as int + 0x100 * d.hi as int) % Q
  }

  /** The coefficients read by count calls from pos on. */
  function Drawn(rng: nat -> Draw, pos: nat, count: nat): (c: seq<uint16>)
    requires DrawsSucceed(rng, pos, pos + count)
    ensures |c| == count && Canonical(c)
  {
    if count == 0 then [] else Drawn(rng, pos, count - 1) + [Coefficient(rng(pos + count - 1))]
  }

  /** The k-th is read from call pos + k, low byte first, modulo 3329. */
  lemma {:induction false} DrawnAt(rng: nat -> Draw, pos: nat, count: nat, k: nat)
    requires DrawsSucceed(rng, pos, pos + count) && k < count
    ensures Drawn(rng, pos, count)[k] == (rng(pos + k).lo as int + 0x100 * rng(pos + k).hi as int) % 3329
  {
    if k < count - 1 {
      DrawnAt(rng, pos, count - 1, k);
    }
  }

  /** The coefficient list of one element: its secret word, then t - 1 draws from pos on. */
  function Segment(secret: uint16, t: nat, rng: nat -> Draw, pos: nat): (c: seq<uint16>)
    requires t > 0 && DrawsSucceed(rng, pos, pos + (t - 1))
    ensures |c| == t && c[0] == secret && Canonical(c[1..])
  {
    var c := [secret] + Drawn(rng, pos, t - 1);
    assert c[1..] == Drawn(rng, pos, t - 1);
    c
  }

  /** The first cell, and likewise the first draw, of element e. */
  function Start(e: nat, t: nat): nat {
    e * t
  }

  /** The number of segments begun when a given draw is made. */
  function Begun(draw: nat, t: nat): (e: nat)
    requires t > 1
    ensures e > 0
  {
    draw / (t - 1) + 1
  }

  /** Segments of different elements do not overlap, and all lie inside the workspace. */
  lemma SegmentsApart(e: nat, e': nat, t: nat)
    requires e < e'
    ensures Start(e + 1, t) == Start(e, t) + t <= Start(e', t)
  {
    MulMono(e + 1, e', t, t);
  }

  /** Fill count cells from offset with draws from pos on; on a failure, clear those written. */
  method GenerateRandomCoefficients(coeffs: array<uint16>, offset: nat, count: nat, rng: nat -> Draw, pos: nat)
    returns (ret: int, ghost used: nat)
    requires offset + count <= coeffs.Length
    modifies coeffs
    ensures used <= count
    ensures ret == 0 <==> DrawsSucceed(rng, pos, pos + count)
    ensures ret == 0 ==> coeffs[offset..offset + count] == Drawn(rng, pos, count)
    ensures ret == 0 ==> forall k :: offset <= k < offset + count ==>
      && rng(pos + (k - offset)).Bytes?
      && coeffs[k] == (rng(pos + (k - offset)).lo as int + 0x100 * rng(pos + (k - offset)).hi as int) % 3329
    ensures ret != 0 ==> used < count && DrawsSucceed(rng, pos, pos + used) && rng(pos + used) == Failure(ret)
    ensures ret != 0 ==> forall k :: offset <= k < offset + used ==> coeffs[k] == 0
    ensures forall k :: 0 <= k < coeffs.Length && !(offset <= k < offset + count) ==> coeffs[k] == old(coeffs[k])
  {
    var i := 0;
    while i < count
      invariant 0 <= i <= count
      invariant DrawsSucceed(rng, pos, pos + i)
      invariant coeffs[offset..offset + i] == Drawn(rng, pos, i)
      invariant forall k :: 0 <= k < coeffs.Length && !(offset <= k < offset + count) ==> coeffs[k] == old(coeffs[k])
    {
      match rng(pos + i)
      case Failure(code) =>
        ClearCells(coeffs, offset, i);
        return code, i;
      case Bytes(lo, hi) =>
        coeffs[offset + i] := Coefficient(Bytes(lo, hi));
        assert coeffs[offset..offset + i + 1] == Drawn(rng, pos, i) + [Coefficient(rng(pos + i))];
      i := i + 1;
    }
    forall k | offset <= k < offset + count
      ensures coeffs[k] == (rng(pos + (k - offset)).lo as int + 0x100 * rng(pos + (k - offset)).hi as int) % 3329
    {
      DrawnAt(rng, pos, count, k - offset);
      assert coeffs[k] == coeffs[offset..offset + count][k - offset];
    }
    return 0, count;
  }

  method ClearCells(cells: array<uint16>, offset: nat, count: nat)
    requires offset + count <= cells.Length
    modifies cells
    ensures forall k :: 0 <= k < cells.Length ==>
      cells[k] == if offset <= k < offset + count then 0 else old(cells[k])
  {
    var j := 0;
    while j < count
      invariant 0 <= j <= count
      invariant forall k :: 0 <= k < cells.Length ==>
        cells[k] == if offset <= k < offset + j then 0 else old(cells[k])
    {
      cells[offset + j] := 0;
      j := j + 1;
    }
  }

  /** Wipe the segments of the first e elements, one after the other. */
  method ClearSegments(cells: array<uint16>, t: nat, e: nat)
    requires Start(e, t) <= cells.Length
    modifies cells
    ensures forall k :: 0 <= k < cells.Length ==> cells[k] == if k < Start(e, t) then 0 else old(cells[k])
  {
    var p := 0;
    while p < e
      invariant 0 <= p <= e
      invariant forall k :: 0 <= k < cells.Length ==> cells[k] == if k < Start(p, t) then 0 else old(cells[k])
    {
      SegmentsApart(p, e, t);
      ClearCells(cells, Start(p, t), t);
      p := p + 1;
    }
  }

  ghost predicate Filled(cells: seq<uint16>, secret: seq<uint16>, t: nat, rng: nat -> Draw, elements: nat)
    requires t > 0 && elements <= |secret|
  {
    forall e :: 0 <= e < elements ==> SegmentFilled(cells, secret[e], t, rng, e)
  }

  ghost predicate SegmentFilled(cells: seq<uint16>, secret: uint16, t: nat, rng: nat -> Draw, e: nat)
    requires t > 0
  {
    && 0 <= Start(e, t) <= Start(e, t) + t <= |cells|
    && DrawsSucceed(rng, Start(e, t - 1), Start(e, t - 1) + (t - 1))
    && cells[Start(e, t)..Start(e, t) + t] == Segment(secret, t, rng, Start(e, t - 1))
  }

  lemma SegmentKept(cells: seq<uint16>, cells': seq<uint16>, secret: uint16, t: nat, rng: nat -> Draw, e: nat, e': nat)
    requires t > 0 && e < e' && |cells| == |cells'|
    requires forall k :: 0 <= k < |cells| && k < Start(e', t) ==> cells[k] == cells'[k]
    requires SegmentFilled(cells, secret, t, rng, e)
    ensures SegmentFilled(cells', secret, t, rng, e)
  {
    SegmentsApart(e, e', t);
    assert cells[Start(e, t)..Start(e, t) + t] == cells'[Start(e, t)..Start(e, t) + t];
  }

  lemma FilledExtends(cells: seq<uint16>, cells': seq<uint16>, secret: seq<uint16>, t: nat, rng: nat -> Draw, e': nat)
    requires t > 0 && e' < |secret| && |cells| == |cells'|
    requires forall k :: 0 <= k < |cells| && k < Start(e', t) ==> cells[k] == cells'[k]
    requires Filled(cells, secret, t, rng, e')
    requires SegmentFilled(cells', secret[e'], t, rng, e')
    ensures Filled(cells', secret, t, rng, e' + 1)
  {
    hide Start, SegmentFilled;
    forall e | 0 <= e < e'
      ensures SegmentFilled(cells', secret[e], t, rng, e)
    {
      SegmentKept(cells, cells', secret[e], t, rng, e, e');
    }
  }

  lemma StartZero(t: nat)
    requires t > 0
    ensures Start(0, t) == 0 && Start(0, t - 1) == 0
  {}

  /** The generation loop: on success every segment holds its polynomial; on a failure of the
      random source every cell written so far is zero again. */
  method FillWorkspace(secret: array<uint16>, elements: byte, t: byte, rng: nat -> Draw, coeffs: array<uint16>)
    returns (ret: int, ghost failed: nat)
    requires t > 0 && elements <= secret.Length && secret != coeffs
    requires Start(elements, t) <= coeffs.Length
    modifies coeffs
    ensures forall k :: Start(elements, t) <= k < coeffs.Length ==> coeffs[k] == old(coeffs[k])
    ensures ret == 0 <==> DrawsSucceed(rng, 0, Start(elements, t - 1))
    ensures ret == 0 ==> Filled(coeffs[..], secret[..], t, rng, elements)
    ensures ret != 0 ==> FirstFailure(rng, failed) && failed < Start(elements, t - 1) && rng(failed) == Failure(ret)
    ensures ret != 0 ==> t > 1 && forall k :: 0 <= k < coeffs.Length ==>
      coeffs[k] == if k < Start(Begun(failed, t), t) then 0 else old(coeffs[k])
  {
    hide Start, SegmentFilled;
    failed := 0;
    var elem := 0;
    assert Start(0, t) == 0 && Start(0, t - 1) == 0 by { StartZero(t); }
    while elem < elements
      invariant 0 <= elem <= elements
      invariant DrawsSucceed(rng, 0, Start(elem, t - 1))
      invariant Filled(coeffs[..], secret[..], t, rng, elem)
      invariant forall k :: Start(elem, t) <= k < coeffs.Length ==> coeffs[k] == old(coeffs[k])
    {
      SegmentsApart(elem, elements, t);
      ghost var before := coeffs[..];
      var ret', used := FillSegment(secret[elem], elem, t, rng, coeffs);
      SegmentsApart(elem, elements, t - 1);
      if ret' != 0 {
        failed := Start(elem, t - 1) + used;
        FailurePosition(elem, elements, t, used);
        Wipe(coeffs, t, elem);
        return ret', failed;
      }
      FilledExtends(before, coeffs[..], secret[..], t, rng, elem);
      elem := elem + 1;
    }
    return 0, 0;
  }

  lemma FailurePosition(e: nat, elements: nat, t: nat, used: nat)
    requires e < elements && t > 1 && used < t - 1
    ensures Start(e, t - 1) + used < Start(elements, t - 1)
    ensures Begun(Start(e, t - 1) + used, t) == e + 1
  {
    SegmentsApart(e, elements, t - 1);
    DivUnique(e * (t - 1) + used, e, used, t - 1);
  }

  /** Both clearing loops of the failure path: the current element's segment, then those before. */
  method Wipe(coeffs: array<uint16>, t: nat, e: nat)
    requires Start(e, t) + t == Start(e + 1, t) <= coeffs.Length
    modifies coeffs
    ensures forall k :: 0 <= k < coeffs.Length ==> coeffs[k] == if k < Start(e + 1, t) then 0 else old(coeffs[k])
  {
    hide Start;
    ClearCells(coeffs, Start(e, t), t);
    ClearSegments(coeffs, t, e);
  }

  /** One element: its secret word, then t - 1 random coefficients. */
  method FillSegment(secret: uint16, e: nat, t: byte, rng: nat -> Draw, coeffs: array<uint16>)
    returns (ret: int, ghost used: nat)
    requires t > 0 && 0 <= Start(e, t) <= Start(e, t) + t <= coeffs.Length
    modifies coeffs
    ensures ret == 0 <==> DrawsSucceed(rng, Start(e, t - 1), Start(e, t - 1) + (t - 1))
    ensures ret == 0 ==> SegmentFilled(coeffs[..], secret, t, rng, e)
    ensures ret != 0 ==> used < t - 1 && DrawsSucceed(rng, Start(e, t - 1), Start(e, t - 1) + used)
                         && rng(Start(e, t - 1) + used) == Failure(ret)
    ensures forall k :: 0 <= k < coeffs.Length && !(Start(e, t) <= k < Start(e, t) + t) ==> coeffs[k] == old(coeffs[k])
  {
    hide Coefficient, Drawn;
    var offset, pos := Start(e, t), Start(e, t - 1);
    coeffs[offset] := secret;
    if t > 1 {
      ret, used := GenerateRandomCoefficients(coeffs, offset + 1, t - 1, rng, pos);
      if ret != 0 {
        return;
      }
    } else {
      ret, used := 0, 0;
    }
    assert coeffs[offset..offset + t] == [secret] + coeffs[offset + 1..offset + t];
  }

  /** y is the value at x of the polynomial drawn for element e. */
  ghost predicate IsShare(y: uint16, secret: uint16, t: nat, rng: nat -> Draw, e: nat, x: uint16)
    requires t > 0
  {
    && DrawsSucceed(rng, Start(e, t - 1), Start(e, t - 1) + (t - 1))
    && y == EvalC(Segment(secret, t, rng, Start(e, t - 1)), x)
  }

  /** Element e uses the t - 1 calls from e * (t - 1) on, one coefficient each. */
  lemma ShareIs(y: uint16, secret: uint16, t: nat, rng: nat -> Draw, e: nat, x: uint16, c: seq<uint16>)
    requires t > 0 && IsShare(y, secret, t, rng, e, x)
    requires |c| == t && c[0] == secret
    requires forall k :: 1 <= k < t && rng(e * (t - 1) + k - 1).Bytes? ==>
      c[k] == (rng(e * (t - 1) + k - 1).lo as int + 0x100 * rng(e * (t - 1) + k - 1).hi as int) % 3329
    ensures forall i :: e * (t - 1) <= i < e * (t - 1) + (t - 1) ==> rng(i).Bytes?
    ensures y == EvalC(c, x)
  {
    hide EvalC;
    var pos := Start(e, t - 1);
    assert pos == e * (t - 1);
    var d := Segment(secret, t, rng, pos);
    forall k | 1 <= k < t
      ensures rng(e * (t - 1) + k - 1).Bytes? && c[k] == d[k]
    {
      DrawnAt(rng, pos, t - 1, k - 1);
      assert d[k] == Drawn(rng, pos, t - 1)[k - 1];
      assert rng(pos + (k - 1)).Bytes?;
    }
    assert c == d;
  }

  method EvaluateSegment(coeffs: array<uint16>, ghost secret: uint16, t: byte, ghost rng: nat -> Draw, e: nat,
                      x: uint16)
    returns (y: uint16)
    requires t > 0 && SegmentFilled(coeffs[..], secret, t, rng, e)
    ensures IsShare(y, secret, t, rng, e, x)
  {
    hide EvalC;
    assert coeffs[..][Start(e, t)..Start(e, t) + t] == coeffs[Start(e, t)..Start(e, t) + t];
    y := ShamirC.EvaluatePolynomial(coeffs, Start(e, t), t, x);
  }

  /** Evaluate every element's polynomial at x. */
  method EvaluateShare(coeffs: array<uint16>, ghost secret: seq<uint16>, elements: byte, t: byte,
                      ghost rng: nat -> Draw,
                       x: uint16, out: array<uint16>)
    requires t > 0 && elements <= |secret| && elements <= out.Length && out != coeffs
    requires Filled(coeffs[..], secret, t, rng, elements)
    modifies out
    ensures forall e :: 0 <= e < elements ==> IsShare(out[e], secret[e], t, rng, e, x)
    ensures forall k :: elements <= k < out.Length ==> out[k] == old(out[k])
  {
    var elem := 0;
    while elem < elements
      invariant 0 <= elem <= elements
      invariant coeffs[..] == old(coeffs[..])
      invariant forall e :: 0 <= e < elem ==> IsShare(out[e], secret[e], t, rng, e, x)
      invariant forall k :: elements <= k < out.Length ==> out[k] == old(out[k])
    {
      out[elem] := EvaluateSegment(coeffs, secret[elem], t, rng, elem, x);
      elem := elem + 1;
    }
  }

  /** The caller's buffers: large enough, and no two of them the same. */
  ghost predicate Separate(secret: array<uint16>, shareX: array<uint16>, shareY: seq<array<uint16>>,
                      workspace: array<uint16>) {
    && secret != shareX && secret != workspace && shareX != workspace
    && secret !in shareY && shareX !in shareY && workspace !in shareY
    && forall i, j :: 0 <= i < j < |shareY| ==> shareY[i] != shareY[j]
  }

  ghost predicate ShareComplete(y: seq<uint16>, secret: seq<uint16>, elements: nat, t: nat, rng: nat -> Draw, x: uint16)
    requires t > 0 && elements <= |secret| && elements <= |y|
  {
    forall e :: 0 <= e < elements ==> IsShare(y[e], secret[e], t, rng, e, x)
  }

  /** The sharing loop: share i gets id i + 1 and the values of every element's polynomial there. */
  method EvaluateShares(coeffs: array<uint16>, ghost secret: seq<uint16>, elements: byte, n: byte, t: byte,
                        ghost rng: nat -> Draw, shareX: array<uint16>, shareY: seq<array<uint16>>)
    requires t > 0 && elements <= |secret| && n <= MAX_SHARES
    requires n <= shareX.Length && n == |shareY|
    requires forall i :: 0 <= i < n ==> shareY[i].Length >= elements
    requires coeffs != shareX && coeffs !in shareY && shareX !in shareY
    requires forall i, j :: 0 <= i < j < n ==> shareY[i] != shareY[j]
    requires Filled(coeffs[..], secret, t, rng, elements)
    modifies shareX, shareY
    ensures forall i :: 0 <= i < n ==>
      shareX[i] == i + 1 && ShareComplete(shareY[i][..], secret, elements, t, rng, i + 1)
    ensures forall k :: n <= k < shareX.Length ==> shareX[k] == old(shareX[k])
  {
    hide IsShare, Filled;
    var i := 0;
    while i < n
      invariant 0 <= i <= n
      invariant Filled(coeffs[..], secret, t, rng, elements)
      invariant forall m :: 0 <= m < i ==>
        shareX[m] == m + 1 && ShareComplete(shareY[m][..], secret, elements, t, rng, m + 1)
      invariant forall k :: n <= k < shareX.Length ==> shareX[k] == old(shareX[k])
    {
      shareX[i] := i + 1;
      EvaluateShare(coeffs, secret, elements, t, rng, shareX[i], shareY[i]);
      i := i + 1;
    }
  }

  /** Share every element of the secret among n ids with threshold t. */
  method ShamirShare(secret: array<uint16>, elements: byte, shareX: array<uint16>, shareY: seq<array<uint16>>,
                     n: byte, t: byte, rng: nat -> Draw, workspace: array<uint16>)
    returns (ret: int, ghost failed: nat)
    requires Separate(secret, shareX, shareY, workspace)
    requires ValidArgs(elements, n, t) ==>
      && elements <= secret.Length && n <= shareX.Length && n == |shareY|
      && (forall i :: 0 <= i < n ==> shareY[i].Length >= elements)
      && Start(elements, t) <= workspace.Length
    modifies workspace, shareX, shareY
    // rejected arguments touch nothing
    ensures !ValidArgs(elements, n, t) ==>
      ret == -1 && unchanged(workspace, shareX, shareY)
    ensures !(1 <= t <= n && elements <= 32) ==> ret == -1 && unchanged(workspace, shareX, shareY)
    ensures 1 <= t <= n && elements <= 32 ==> (ret == 0 <==> forall i :: 0 <= i < elements * (t - 1) ==> rng(i).Bytes?)
    // success: every share is complete and the coefficients are gone
    ensures ValidArgs(elements, n, t) ==> (ret == 0 <==> DrawsSucceed(rng, 0, Start(elements, t - 1)))
    ensures ValidArgs(elements, n, t) && ret == 0 ==>
      forall i :: 0 <= i < n ==>
        shareX[i] == i + 1 && ShareComplete(shareY[i][..], secret[..], elements, t, rng, i + 1)
    ensures ValidArgs(elements, n, t) && ret == 0 ==>
      forall k :: 0 <= k < workspace.Length ==>
        workspace[k] == if k < Start(elements, t) then 0 else old(workspace[k])
    // failure: the random source's own code, no share written, every touched cell zero
    ensures ValidArgs(elements, n, t) && ret != 0 ==>
      && t > 1 && FirstFailure(rng, failed) && failed < Start(elements, t - 1) && rng(failed) == Failure(ret)
      && unchanged(shareX, shareY)
      && forall k :: 0 <= k < workspace.Length ==>
        workspace[k] == if k < Start(Begun(failed, t), t) then 0 else old(workspace[k])
    ensures unchanged(secret)
  {
    assert ValidArgs(elements, n, t) ==>
      (DrawsSucceed(rng, 0, Start(elements, t - 1)) <==> forall i :: 0 <= i < elements * (t - 1) ==> rng(i).Bytes?);
    hide Start, ShareComplete, Filled, DrawsSucceed;
    failed := 0;
    if n < t || t == 0 || n > MAX_SHARES {
      return -1, 0;
    }
    if elements > MAX_ELEMENTS {
      return -1, 0;
    }
    ret, failed := FillWorkspace(secret, elements, t, rng, workspace);
    if ret == 0 {
      EvaluateAndClear(secret, elements, shareX, shareY, n, t, rng, workspace);
    }
  }

  /** The second half: evaluate all shares, then clear the coefficients. */
  method EvaluateAndClear(secret: array<uint16>, elements: byte, shareX: array<uint16>, shareY: seq<array<uint16>>,
                          n: byte, t: byte, ghost rng: nat -> Draw, coeffs: array<uint16>)
    requires Separate(secret, shareX, shareY, coeffs)
    requires t > 0 && elements <= secret.Length && n <= shareX.Length && n == |shareY|
    requires forall i :: 0 <= i < n ==> shareY[i].Length >= elements
    requires Start(elements, t) <= coeffs.Length
    requires Filled(coeffs[..], secret[..], t, rng, elements)
    modifies coeffs, shareX, shareY
    ensures forall i :: 0 <= i < n ==>
      shareX[i] == i + 1 && ShareComplete(shareY[i][..], secret[..], elements, t, rng, i + 1)
    ensures forall k :: 0 <= k < coeffs.Length ==> coeffs[k] == if k < Start(elements, t) then 0 else old(coeffs[k])
  {
    hide Start, ShareComplete, Filled;
    StartIsProduct(elements, t);
    ghost var word := secret[..];
    EvaluateShares(coeffs, word, elements, n, t, rng, shareX, shareY);
    ClearCells(coeffs, 0, t * elements);
    assert secret[..] == word;
  }

  lemma StartIsProduct(e: nat, t: nat)
    ensures t * e == Start(e, t)
  {}

  /** Clearing on failure never leaves the workspace, and reaches every segment begun. */
  lemma FailureCovered(failed: nat, elements: nat, t: nat)
    requires t > 1 && failed < Start(elements, t - 1)
    ensures Start(Begun(failed, t), t) <= Start(elements, t)
    ensures Start(Begun(failed, t) - 1, t - 1) <= failed < Start(Begun(failed, t), t - 1)
  {
    var e := failed / (t - 1);
    assert failed == e * (t - 1) + failed % (t - 1);
    if e >= elements { MulMono(elements, e, t - 1, t - 1); }
    MulMono(e + 1, elements, t, t);
    SegmentsApart(e, e + 1, t - 1);
  }
}

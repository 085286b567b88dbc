/** src/pqc_engine/ntt_backend.c: Montgomery reduction in 32 bits, and the butterflies. */
module Montgomery {
  import opened Words
  import opened Field

  const R := HALF
  const NEG_INVERSE := 3327       // -1/3329 modulo 2^16

  function Reduce(a: uint32): uint16 {
    var t := (a * NEG_INVERSE) % WORD % R;
    var u := (a + t * Q) % WORD / R;
    if u >= Q then u - Q else u
  }

  /** Adding t * 3329 makes the low half vanish: the division by 2^16 is exact. */
  lemma LowHalfVanishes(a: uint32)
    ensures var t := (a * NEG_INVERSE) % WORD % R; (a + t * Q) % R == 0
  {
    var k := a * NEG_INVERSE / WORD;
    var w := a * NEG_INVERSE - k * WORD;
    var l := w / R;
    assert a * NEG_INVERSE == k * WORD + l * R + w % R;
    assert a + (w % R) * Q == R * (169 * a - Q * (k * R + l));
  }

  /** For every argument below 3329 * 2^16 the result is the residue r with r * 2^16 = a. */
  lemma ReduceResidue(a: uint32)
    requires a < Q * R
    ensures Reduce(a) < Q && Cong(Reduce(a) * R, a)
  {
    LowHalfVanishes(a);
    ExactHalf(a, (a * NEG_INVERSE) % WORD % R);
  }

  lemma ExactHalf(a: uint32, t: nat)
    requires a < Q * R && t < R && (a + t * Q) % R == 0
    ensures var u := (a + t * Q) % WORD / R;
      var r := if u >= Q then u - Q else u;
      0 <= r < Q && Cong(r * R, a)
  {
    hide Cong;
    var u := (a + t * Q) / R;
    assert a + t * Q < WORD;
    assert u * R == a + t * Q;
    CongFromWitness(u * R, a, t);
    CongFromWitness((u - Q) * R, a, t - R);
  }

  lemma RadixInvertible()
    ensures !Cong(R, 0) && !Cong(R * R, 0) && !Cong(2, 0)
  {}

  /** And the only field element with that property. */
  lemma ReduceUnique(a: uint32, r: Elem)
    requires a < Q * R
    ensures Cong(r * R, a) <==> r == Reduce(a)
  {
    hide Reduce, Cong;
    ReduceResidue(a);
    if Cong(r * R, a) {
      CongJoin(r * R, a, Reduce(a) * R) by { CongSwap(Reduce(a) * R, a); }
      RadixInvertible();
      assert r * R == R * r && Reduce(a) * R == R * Reduce(a);
      Cancel(r, Reduce(a), R);
      SameResidue(r, Reduce(a));
    }
  }

  lemma CongSwap(a: int, b: int)
    ensures Cong(a, b) <==> Cong(b, a)
  {}

  // ----- the butterflies -----------------------------------------------------------------

  function Product(a: Elem, zeta: uint16): (p: uint32)
    ensures p == a * zeta < Q * R
  {
    MulMono(a, Q - 1, zeta, R - 1);
    a * zeta
  }

  /** a + b and a - b, brought back into the field by one conditional subtraction each. */
  function AddMod(a: Elem, b: Elem): (r: Elem)
    ensures r == (a + b) % Q
  {
    if a + b >= Q then a + b - Q else a + b
  }

  function SubMod(a: Elem, b: Elem): (r: Elem)
    ensures r == (a - b) % Q
  {
    if a + Q - b >= Q then a - b else a + Q - b
  }

  function Twiddle(b: Elem, zeta: uint16): (t: Elem)
    ensures Cong(t * R, b * zeta)
  {
    ReduceResidue(Product(b, zeta));
    Reduce(Product(b, zeta))
  }

  function Forward(a: Elem, b: Elem, zeta: uint16): (Elem, Elem) {
    var t := Twiddle(b, zeta);
    (AddMod(a, t), SubMod(a, t))
  }

  function Inverse(a: Elem, b: Elem, zeta: uint16): (Elem, Elem) {
    (AddMod(a, b), Twiddle(SubMod(a, b), zeta))
  }

  /** Both outputs in Montgomery's scale. */
  lemma ForwardScaled(a: Elem, b: Elem, t: Elem, zeta: uint16)
    requires Cong(t * R, b * zeta)
    ensures Cong((a + t) % Q * R, a * R + b * zeta) && Cong((a - t) % Q * R, a * R - b * zeta)
  {
    hide Cong;
    CongRefl(R);
    CongRefl(a * R);
    CongAdd(a * R, a * R, t * R, b * zeta);
    CongMod(a + t);
    CongMul((a + t) % Q, a + t, R, R);
    CongMod(a - t);
    CongMul((a - t) % Q, a - t, R, R);
    assert (a + t) * R == a * R + t * R && (a - t) * R == a * R - t * R;
    CongTrans((a + t) % Q * R, a * R + t * R, a * R + b * zeta);
    CongTrans((a - t) % Q * R, a * R - t * R, a * R - b * zeta);
  }

  lemma InverseScaled(a: Elem, b: Elem, r: Elem, zeta: uint16)
    requires Cong(r * R, (a - b) % Q * zeta)
    ensures Cong(r * R, (a - b) * zeta)
  {
    hide Cong;
    CongMod(a - b);
    CongRefl(zeta);
    CongMul((a - b) % Q, a - b, zeta, zeta);
    CongTrans(r * R, (a - b) % Q * zeta, (a - b) * zeta);
  }

  method NttButterfly(cells: array<uint16>, i: nat, j: nat, zeta: uint16)
    requires i < cells.Length && j < cells.Length && i != j
    requires cells[i] < Q && cells[j] < Q
    modifies cells
    ensures (cells[i], cells[j]) == Forward(old(cells[i]), old(cells[j]), zeta)
    ensures cells[i] < Q && Cong(cells[i] * R, old(cells[i]) * R + old(cells[j]) * zeta)
    ensures cells[j] < Q && Cong(cells[j] * R, old(cells[i]) * R - old(cells[j]) * zeta)
    ensures forall k :: 0 <= k < cells.Length && k != i && k != j ==> cells[k] == old(cells[k])
  {
    hide Reduce, Cong;
    var t := Twiddle(cells[j], zeta);
    var u := cells[i];
    ForwardScaled(u, cells[j], t, zeta);
    cells[i] := u + t;
    if cells[i] >= Q {
      cells[i] := cells[i] - Q;
    }
    cells[j] := u + Q - t;
    if cells[j] >= Q {
      cells[j] := cells[j] - Q;
    }
  }

  method InttButterfly(cells: array<uint16>, i: nat, j: nat, zeta: uint16)
    requires i < cells.Length && j < cells.Length && i != j
    requires cells[i] < Q && cells[j] < Q
    modifies cells
    ensures (cells[i], cells[j]) == Inverse(old(cells[i]), old(cells[j]), zeta)
    ensures cells[i] == (old(cells[i]) + old(cells[j])) % Q
    ensures cells[j] < Q && Cong(cells[j] * R, (old(cells[i]) - old(cells[j])) * zeta)
    ensures forall k :: 0 <= k < cells.Length && k != i && k != j ==> cells[k] == old(cells[k])
  {
    hide Reduce, Cong, Twiddle;
    var u, v := cells[i], cells[j];
    cells[i] := u + v;
    if cells[i] >= Q {
      cells[i] := cells[i] - Q;
    }
    cells[j] := u + Q - v;
    if cells[j] >= Q {
      cells[j] := cells[j] - Q;
    }
    cells[j] := Twiddle(cells[j], zeta);
    InverseScaled(u, v, cells[j], zeta);
  }

  /** The second output of the inverse after the forward butterfly, times 2^32. */
  lemma RoundTripScaled(a: Elem, b: Elem, zeta: uint16, zeta': uint16)
    ensures var (x, y) := Forward(a, b, zeta);
      Cong(Inverse(x, y, zeta').1 * (R * R), (2 * b) * (zeta * zeta'))
  {
    hide Cong, Twiddle, AddMod, SubMod;
    var t := Twiddle(b, zeta);
    var (x, y) := Forward(a, b, zeta);
    var d := SubMod(x, y);
    var r := Twiddle(d, zeta');
    DifferenceIsDouble(a, t, x, y, d);
    CongRefl(zeta');
    CongMul(d, 2 * t, zeta', zeta');
    CongTrans(r * R, d * zeta', (2 * t) * zeta');
    CongRefl(R);
    CongMul(r * R, (2 * t) * zeta', R, R);
    CongRefl(2 * zeta');
    CongMul(t * R, b * zeta, 2 * zeta', 2 * zeta');
    RegroupRadix(r, t, zeta', b, zeta);
    CongTrans(r * R * R, (2 * t) * zeta' * R, (b * zeta) * (2 * zeta'));
  }

  lemma DifferenceIsDouble(a: int, t: int, x: int, y: int, d: int)
    requires x == (a + t) % Q && y == (a - t) % Q && d == (x - y) % Q
    ensures Cong(d, 2 * t)
  {}

  lemma RegroupRadix(r: int, t: int, z': int, b: int, z: int)
    ensures r * R * R == r * (R * R)
    ensures (2 * t) * z' * R == (t * R) * (2 * z')
    ensures (b * z) * (2 * z') == (2 * b) * (z * z')
  {
    assert (2 * t) * z' == 2 * (t * z') && t * (2 * z') == 2 * (t * z');
    assert (b * z) * (2 * z') == 2 * (b * z * z') && (2 * b) * (z * z') == 2 * (b * (z * z'));
    assert b * z * z' == b * (z * z');
  }

  /** The first output doubles, whatever the twiddle factors. */
  lemma FirstDoubles(a: Elem, b: Elem, zeta: uint16, zeta': uint16)
    ensures var (x, y) := Forward(a, b, zeta); Inverse(x, y, zeta').0 == (2 * a) % Q
  {
    hide Twiddle;
    SumIsDouble(a, Twiddle(b, zeta));
  }

  lemma SumIsDouble(a: int, t: int)
    ensures ((a + t) % Q + (a - t) % Q) % Q == (2 * a) % Q
  {}

  ghost predicate Undoes(zeta: uint16, zeta': uint16) {
    forall a, b :: 0 <= a < Q && 0 <= b < Q ==>
      Inverse(Forward(a, b, zeta).0, Forward(a, b, zeta).1, zeta') == ((2 * a) % Q, (2 * b) % Q)
  }

  lemma SecondDoubles(a: Elem, b: Elem, zeta: uint16, zeta': uint16)
    requires Cong(zeta * zeta', R * R)
    ensures var (x, y) := Forward(a, b, zeta); Inverse(x, y, zeta').1 == (2 * b) % Q
  {
    hide Cong, Forward, Inverse;
    RoundTripScaled(a, b, zeta, zeta');
    var (x, y) := Forward(a, b, zeta);
    var r := Inverse(x, y, zeta').1;
    CongRefl(2 * b);
    CongMul(2 * b, 2 * b, zeta * zeta', R * R);
    CongTrans(r * (R * R), (2 * b) * (zeta * zeta'), (2 * b) * (R * R));
    RadixInvertible();
    assert r * (R * R) == (R * R) * r && (2 * b) * (R * R) == (R * R) * (2 * b);
    Cancel(r, 2 * b, R * R);
    CongMod(2 * b);
    CongTrans(r, 2 * b, (2 * b) % Q);
    SameResidue(r, (2 * b) % Q);
  }

  lemma UndoneOnce(zeta: uint16, zeta': uint16)
    requires Inverse(Forward(0, 1, zeta).0, Forward(0, 1, zeta).1, zeta').1 == 2
    ensures Cong(zeta * zeta', R * R)
  {
    hide Cong, Forward, Inverse;
    RoundTripScaled(0, 1, zeta, zeta');
    RadixInvertible();
    CongSwap(2 * (R * R), 2 * (zeta * zeta'));
    Cancel(zeta * zeta', R * R, 2);
  }

  /** The inverse butterfly undoes the forward one, up to doubling both cells, exactly when the
      two twiddle factors multiply to 2^32. */
  lemma ButterflyRoundTrip(zeta: uint16, zeta': uint16)
    ensures Undoes(zeta, zeta') <==> Cong(zeta * zeta', R * R)
  {
    hide Forward, Inverse, Cong;
    if Cong(zeta * zeta', R * R) {
      forall a, b | 0 <= a < Q && 0 <= b < Q
        ensures Inverse(Forward(a, b, zeta).0, Forward(a, b, zeta).1, zeta') == ((2 * a) % Q, (2 * b) % Q)
      {
        FirstDoubles(a, b, zeta, zeta');
        SecondDoubles(a, b, zeta, zeta');
      }
    }
    if Undoes(zeta, zeta') {
      assert Inverse(Forward(0, 1, zeta).0, Forward(0, 1, zeta).1, zeta') == ((2 * 0) % Q, (2 * 1) % Q);
      UndoneOnce(zeta, zeta');
    }
  }
}

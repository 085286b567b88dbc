/** Arithmetic modulo 3329, the field every module of the repository computes in.
    The facts the protocol leans on are proved here from scratch: 3329 is prime,
    Fermat's little theorem, and inversion by exponentiation. */
module Field {

  const Q := 3329

  type Elem = x: int | 0 <= x < Q

  ghost predicate Cong(a: int, b: int) {
    (a - b) % Q == 0
  }

  // ----- congruences ---------------------------------------------------------

  lemma CongResidue(a: int, b: int)
    ensures Cong(a, b) <==> a % Q == b % Q
  {}

  lemma CongMod(a: int)
    ensures Cong(a % Q, a) && Cong(a, a % Q)
  {}

  lemma CongWitness(a: int, b: int) returns (k: int)
    requires Cong(a, b)
    ensures a == b + Q * k
  {
    k := (a - b) / Q;
  }

  lemma CongFromWitness(a: int, b: int, k: int)
    requires a == b + Q * k
    ensures Cong(a, b)
  {}

  lemma CongRefl(a: int)
    ensures Cong(a, a)
  {}

  lemma CongTrans(a: int, b: int, c: int)
    requires Cong(a, b) && Cong(b, c)
    ensures Cong(a, c) && Cong(c, a)
  {}

  lemma CongJoin(a: int, b: int, c: int)
    requires Cong(a, b) && Cong(c, b)
    ensures Cong(a, c)
  {}

  lemma CongAdd(a: int, b: int, c: int, d: int)
    requires Cong(a, b) && Cong(c, d)
    ensures Cong(a + c, b + d) && Cong(a - c, b - d)
  {}

  lemma MulRing(q: int, b: int, k: int, d: int, l: int)
    ensures (b + q * k) * (d + q * l) == b * d + q * (b * l + k * d + q * (k * l))
  {}

  lemma CongMul(a: int, b: int, c: int, d: int)
    requires Cong(a, b) && Cong(c, d)
    ensures Cong(a * c, b * d)
  {
    hide Cong;
    var k := CongWitness(a, b);
    var l := CongWitness(c, d);
    MulRing(Q, b, k, d, l);
    CongFromWitness(a * c, b * d, b * l + k * d + Q * (k * l));
  }

  lemma MultipleIsZero(a: int, k: int)
    requires Cong(a, 0)
    ensures Cong(a * k, 0) && Cong(k * a, 0)
  {
    CongMul(a, 0, k, k);
    assert k * a == a * k;
  }

  /** A residue class holds one field element. */
  lemma SameResidue(a: Elem, b: Elem)
    ensures Cong(a, b) <==> a == b
  {}

  /** A running sum may be kept reduced. */
  lemma AddReduced(a: int, sum: int, d: int)
    requires a == sum % Q
    ensures (a + d) % Q == (sum + d) % Q
  {}

  // ----- 3329 is prime -------------------------------------------------------

  lemma NoSmallDivisor(d: nat)
    requires 2 <= d < 58
    ensures Q % d != 0
  {}

  lemma Prime(d: nat)
    requires 2 <= d < Q
    ensures Q % d != 0
  {
    if d < 58 {
      NoSmallDivisor(d);
    } else if Q % d == 0 {
      SmallCofactor(Q / d, d);
    }
  }

  lemma SmallCofactor(e: nat, d: nat)
    requires 58 <= d < Q
    ensures e * d != Q
  {
    if e * d == Q {
      if e >= 58 {
        MulMono(58, e, 58, d);
      } else if e >= 2 {
        NoSmallDivisor(e);
        NotMultiple(e, Q / e, Q % e, d);
      }
    }
  }

  lemma MulMono(a: nat, a': nat, b: nat, b': nat)
    requires a <= a' && b <= b'
    ensures a * b <= a' * b'
  {
    assert a * b <= a' * b;
    assert a' * b <= a' * b';
  }

  lemma DivUnique(a: nat, q: nat, r: nat, m: nat)
    requires r < m && a == q * m + r
    ensures a / m == q && a % m == r
  {
    SameQuotient(q, r, a / m, a % m, m);
  }

  lemma SameQuotient(q: nat, r: nat, q': nat, r': nat, m: nat)
    requires r < m && r' < m && q * m + r == q' * m + r'
    ensures q == q' && r == r'
  {
    if q < q' { MulMono(q + 1, q', m, m); }
    if q' < q { MulMono(q' + 1, q, m, m); }
  }

  lemma NotMultiple(e: nat, q: nat, r: nat, d: nat)
    requires 0 < r < e
    ensures e * q + r != e * d
  {
    if d <= q { MulMono(e, e, d, q); } else { MulMono(e, e, q + 1, d); }
  }

  lemma EuclidStep(a: nat, b: int, k: nat, r: nat)
    requires Q == k * a + r
    requires Cong(a * b, 0)
    ensures Cong(r * b, 0)
  {
    hide Cong;
    var m := CongWitness(a * b, 0);
    RingStep(Q, a, b, k, r, m);
    CongFromWitness(r * b, 0, b - k * m);
  }

  lemma RingStep(q: int, a: int, b: int, k: int, r: int, m: int)
    requires q == k * a + r && a * b == q * m
    ensures r * b == q * (b - k * m)
  {
    assert (k * a) * b == k * (a * b);
    assert k * (q * m) == q * (k * m);
  }

  /** Euclid's lemma for a residue, by descent on the residue. */
  lemma {:induction false} EuclidResidue(a: nat, b: int)
    requires 0 < a < Q
    requires Cong(a * b, 0)
    ensures Cong(b, 0)
    decreases a
  {
    if a > 1 {
      hide Cong;
      Prime(a);
      var k, r := Q / a, Q % a;
      EuclidStep(a, b, k, r);
      EuclidResidue(r, b);
    }
  }

  /** The field has no zero divisors. */
  lemma Euclid(a: int, b: int)
    requires Cong(a * b, 0)
    ensures Cong(a, 0) || Cong(b, 0)
  {
    if a % Q != 0 {
      hide Cong;
      CongMod(a);
      CongMul(a % Q, a, b, b);
      CongTrans((a % Q) * b, a * b, 0);
      EuclidResidue(a % Q, b);
    }
  }

  lemma Cancel(a: int, b: int, c: int)
    requires !Cong(c, 0)
    requires Cong(c * a, c * b)
    ensures Cong(a, b)
  {
    assert c * a - c * b == c * (a - b);
    Euclid(c, a - b);
  }

  // ----- powers --------------------------------------------------------------

  function Pow(a: int, e: nat): int {
    if e == 0 then 1 else a * Pow(a, e - 1)
  }

  lemma {:induction false} PowCong(a: int, b: int, e: nat)
    requires Cong(a, b)
    ensures Cong(Pow(a, e), Pow(b, e))
  {
    if e > 0 {
      hide Cong;
      PowCong(a, b, e - 1);
      CongMul(a, b, Pow(a, e - 1), Pow(b, e - 1));
    }
  }

  // ----- the binomial theorem, and Fermat's little theorem from it -----------

  function Choose(n: nat, k: nat): nat {
    if k == 0 then 1 else if n == 0 then 0 else Choose(n - 1, k - 1) + Choose(n - 1, k)
  }

  lemma {:induction false} ChooseBeyond(n: nat, k: nat)
    requires n < k
    ensures Choose(n, k) == 0
  {
    if n > 0 {
      ChooseBeyond(n - 1, k - 1);
      ChooseBeyond(n - 1, k);
    }
  }

  lemma {:induction false} ChooseFull(n: nat)
    ensures Choose(n, n) == 1
  {
    if n > 0 {
      ChooseFull(n - 1);
      ChooseBeyond(n - 1, n);
    }
  }

  lemma AbsorbStep(n: int, k: int, c: int, c': int, d: int, d': int)
    requires (k - 1) * c == (n - 1) * d && k * c' == (n - 1) * d' && c == d + d'
    ensures k * (c + c') == n * c
  {
    assert k * (c + c') == (k - 1) * c + c + k * c';
    assert (n - 1) * (d + d') == (n - 1) * d + (n - 1) * d';
  }

  lemma {:induction false} ChooseAbsorb(n: nat, k: nat)
    requires 1 <= n && 1 <= k
    ensures k * Choose(n, k) == n * Choose(n - 1, k - 1)
  {
    if n == 1 {
      if k > 1 { ChooseBeyond(1, k); ChooseBeyond(0, k - 1); }
    } else {
      ChooseAbsorb(n - 1, k);
      if k > 1 {
        ChooseAbsorb(n - 1, k - 1);
        assert Choose(n - 1, k - 1) == Choose(n - 2, k - 2) + Choose(n - 2, k - 1);
        AbsorbStep(n, k, Choose(n - 1, k - 1), Choose(n - 1, k), Choose(n - 2, k - 2), Choose(n - 2, k - 1));
      }
    }
  }

  /** The first m + 1 terms of the expansion of (a + 1)^n. */
  function Expansion(a: int, n: nat, m: nat): int {
    Choose(n, m) * Pow(a, m) + if m == 0 then 0 else Expansion(a, n, m - 1)
  }

  lemma ExpansionRing(a: int, c: int, d: int, p: int, s: int)
    ensures (d + c) * (a * p) + a * s == c * (a * p) + a * (d * p + s)
  {}

  lemma {:induction false} ExpansionStep(a: int, n: nat, m: nat)
    ensures Expansion(a, n + 1, m) == Expansion(a, n, m) + if m == 0 then 0 else a * Expansion(a, n, m - 1)
    decreases m
  {
    if m > 0 {
      ExpansionStep(a, n, m - 1);
      ExpansionRing(a, Choose(n, m), Choose(n, m - 1), Pow(a, m - 1), if m == 1 then 0 else Expansion(a, n, m - 2));
    }
  }

  lemma {:induction false} Binomial(a: int, n: nat)
    ensures Pow(a + 1, n) == Expansion(a, n, n)
  {
    if n > 0 {
      Binomial(a, n - 1);
      var s := Expansion(a, n - 1, n - 1);
      ExpansionStep(a, n - 1, n);
      ChooseBeyond(n - 1, n);
      assert Expansion(a, n - 1, n) == 0 * Pow(a, n) + s;
      assert (a + 1) * s == s + a * s;
    }
  }

  /** 3329 divides every binomial coefficient of its own row but the outer two. */
  lemma ChooseVanishes(p: nat, m: nat)
    requires p == Q && 0 < m < p
    ensures Cong(Choose(p, m), 0)
  {
    hide Choose;
    ChooseAbsorb(p, m);
    CongFromWitness(m * Choose(p, m), 0, Choose(p - 1, m - 1));
    EuclidResidue(m, Choose(p, m));
  }

  lemma {:induction false} ExpansionVanishes(a: int, p: nat, m: nat)
    requires p == Q && m < p
    ensures Cong(Expansion(a, p, m), 1)
    decreases m
  {
    if m > 0 {
      hide Cong, Choose, Pow;
      ExpansionVanishes(a, p, m - 1);
      ChooseVanishes(p, m);
      MultipleIsZero(Choose(p, m), Pow(a, m));
      CongAdd(Choose(p, m) * Pow(a, m), 0, Expansion(a, p, m - 1), 1);
    }
  }

  lemma ExpansionTop(a: int, n: nat)
    requires n > 0
    ensures Pow(a + 1, n) == Pow(a, n) + Expansion(a, n, n - 1)
  {
    Binomial(a, n);
    ChooseFull(n);
  }

  lemma FermatStep(a: nat, p: nat)
    requires p == Q && 0 < a
    ensures Cong(Pow(a, p), Pow(a - 1, p) + 1)
  {
    hide Pow, Expansion;
    ExpansionVanishes(a - 1, p, p - 1);
    ExpansionTop(a - 1, p);
  }

  lemma PowZero(e: nat)
    requires e > 0
    ensures Pow(0, e) == 0
  {}

  lemma {:induction false} FermatNat(a: nat, p: nat)
    requires p == Q
    ensures Cong(Pow(a, p), a)
    decreases a
  {
    hide Pow;
    if a == 0 {
      PowZero(p);
    } else {
      FermatNat(a - 1, p);
      FermatStep(a, p);
    }
  }

  /** Fermat's little theorem, for every integer that 3329 does not divide. */
  lemma Fermat(a: int, e: nat)
    requires e == Q - 1
    requires !Cong(a, 0)
    ensures Cong(Pow(a, e), 1)
  {
    hide Pow;
    FermatInt(a, e + 1);
    PowNext(a, e);
    Cancel(Pow(a, e), 1, a);
  }

  lemma PowNext(a: int, e: nat)
    ensures Pow(a, e + 1) == a * Pow(a, e)
  {}

  lemma FermatInt(a: int, p: nat)
    requires p == Q
    ensures Cong(Pow(a, p), a)
  {
    hide Pow;
    CongMod(a);
    FermatNat(a % Q, p);
    PowCong(a, a % Q, p);
  }

  // ----- inversion -----------------------------------------------------------

  /** `mod_inv(a)` and the inline `pow(d, p - 2, p)`: Python's three-argument power
      is the residue of the mathematical power. */
  function ModInv(a: int): Elem {
    Pow(a, Q - 2) % Q
  }

  /** Exponentiation by p - 2 inverts exactly the elements that have an inverse,
      and sends multiples of 3329 to zero. */
  lemma ModInvCorrect(a: int)
    ensures !Cong(a, 0) <==> Cong(ModInv(a) * a, 1)
    ensures Cong(a, 0) <==> ModInv(a) == 0
  {
    if Cong(a, 0) {
      MultipleIsZero(a, Pow(a, Q - 3));
      PowNext(a, Q - 3);
      MultipleIsZero(a, ModInv(a));
    } else {
      InverseOfUnit(a, Q - 2, ModInv(a));
    }
  }

  lemma InverseOfUnit(a: int, e: nat, inv: int)
    requires e == Q - 2 && !Cong(a, 0)
    requires inv == Pow(a, e) % Q
    ensures Cong(inv * a, 1) && inv != 0
  {
    hide Pow;
    PowNext(a, e);
    Fermat(a, e + 1);
    ReducedInverse(a, Pow(a, e));
  }

  lemma ReducedInverse(a: int, w: int)
    requires Cong(a * w, 1)
    ensures Cong((w % Q) * a, 1) && w % Q != 0
  {
    var inv := w % Q;
    CongMod(w);
    CongMul(inv, w, a, a);
    assert w * a == a * w;
    CongTrans(inv * a, w * a, 1);
    if inv == 0 {
      MultipleIsZero(inv, a);
    }
  }

  /** Congruent arguments have the same inverse. */
  lemma ModInvCong(a: int, b: int)
    requires Cong(a, b)
    ensures ModInv(a) == ModInv(b)
  {
    hide Pow;
    PowCong(a, b, Q - 2);
  }
}

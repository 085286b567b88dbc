/** src/pqc_engine/shamir.c: field arithmetic in fixed-width words, and share generation
    in a caller-supplied workspace. */
module ShamirC {
  import opened Words
  import opened Field
  import opened Poly

  const MULTIPLIER := 20159
  const SHIFTED := 0x400_0000           // 1 << 26
  const MAX_SHARES := 255
  const MAX_ELEMENTS := 32

  // ----- Barrett reduction in 32 bits ------------------------------------------------

  function BarrettReduce(a: uint32): uint16 {
    var t := (a * MULTIPLIER) % WORD / SHIFTED;
    var r := (a - t * Q) % WORD % HALF;
    if r >= Q then r - Q else r
  }

  /** The product of the argument by the multiplier fits 32 bits, and the argument is not one
      below a multiple of 3329 from 153133 on. */
  predicate Safe(a: nat) {
    a * MULTIPLIER < WORD && !(a % Q == Q - 1 && a >= 153133)
  }

  /** The estimated quotient is right or one too large, and loses its multiples of 64. */
  lemma QuotientEstimate(a: nat, q: nat, r0: Elem)
    requires a == q * Q + r0 && q < HALF
    ensures var e := a * MULTIPLIER / SHIFTED;
      && (e == q || e == q + 1)
      && (a * MULTIPLIER) % WORD / SHIFTED == e - 64 * (e / 64)
      && (e / 64 == 0 <==> a * MULTIPLIER < WORD)
  {
    assert a * MULTIPLIER == q * SHIFTED + (447 * q + MULTIPLIER * r0);
    WrappedQuotient(a * MULTIPLIER);
  }

  lemma WrappedQuotient(p: nat)
    ensures p % WORD / SHIFTED == p / SHIFTED - 64 * (p / SHIFTED / 64)
    ensures p / SHIFTED / 64 == 0 <==> p < WORD
  {
    var k := p / WORD;
    assert p % WORD == p - 64 * k * SHIFTED;
  }

  /** What is left of the argument, before truncation to 16 bits. */
  lemma Leftover(a: nat)
    requires a < Q * HALF
    ensures var t := (a * MULTIPLIER) % WORD / SHIFTED;
      && BarrettReduce(a) == (if (a - t * Q) % HALF >= Q then (a - t * Q) % HALF - Q else (a - t * Q) % HALF)
      && -Q <= a - t * Q < Q * HALF
      && (a * MULTIPLIER >= WORD ==> a - t * Q >= HALF)
  {
    QuotientEstimate(a, a / Q, a % Q);
    TruncateTwice(a - (a * MULTIPLIER) % WORD / SHIFTED * Q);
  }

  lemma TruncateTwice(v: int)
    ensures v % WORD % HALF == v % HALF
  {
    var k := v / WORD;
    assert v % WORD == v - k * WORD;
    assert v % WORD == v - (k * HALF) * HALF;
  }

  /** Truncation to 16 bits leaves the residue class as soon as it removes anything. */
  lemma TruncationLeaves(v: int)
    requires -Q <= v < Q * HALF
    ensures Cong(v % HALF, v) <==> 0 <= v < HALF
  {
    var m := v / HALF;
    TruncatedPart(v, v % HALF, m);
    if Cong(m, 0) {
      assert -1 <= m < Q;
    }
  }

  lemma TruncatedPart(v: int, w: int, m: int)
    requires v == HALF * m + w
    ensures Cong(w, v) <==> Cong(m, 0)
  {
    hide Cong;
    if Cong(w, v) {
      CongRefl(v);
      CongAdd(v, v, w, v);
      Euclid(HALF, m);
      assert !Cong(HALF, 0) by { HalfIsUnit(); }
    } else if Cong(m, 0) {
      MultipleIsZero(m, HALF);
      CongRefl(w);
      CongAdd(w, w, HALF * m, 0);
      assert w + HALF * m == v && w + 0 == w;
      CongTrans(v, w, w);
    }
  }

  lemma HalfIsUnit()
    ensures !Cong(HALF, 0)
  {}

  lemma LeftoverSafe(a: nat)
    requires a * MULTIPLIER < WORD
    ensures 0 <= a - (a * MULTIPLIER) % WORD / SHIFTED * Q < HALF <==> Safe(a)
    ensures Safe(a) ==> BarrettReduce(a) == a % Q
  {
    var q, r0 := a / Q, a % Q;
    QuotientEstimate(a, q, r0);
    assert a * MULTIPLIER == q * SHIFTED + (447 * q + MULTIPLIER * r0);
    assert q <= 63;
  }

  lemma SafeLeftover(a: nat)
    requires a < Q * HALF
    ensures 0 <= a - (a * MULTIPLIER) % WORD / SHIFTED * Q < HALF <==> Safe(a)
  {
    if a * MULTIPLIER < WORD {
      LeftoverSafe(a);
    } else {
      Leftover(a);
    }
  }

  lemma TruncatedClass(a: int, t: int, b: int)
    requires var v := a - t * Q;
      -Q <= v < Q * HALF && b == if v % HALF >= Q then v % HALF - Q else v % HALF
    ensures Cong(b, a) <==> 0 <= a - t * Q < HALF
  {
    hide Cong;
    var v := a - t * Q;
    var w := v % HALF;
    TruncationLeaves(v);
    CongFromWitness(v, a, -t);
    CongFromWitness(b, w, if w >= Q then -1 else 0);
    SameClasses(b, w, v, a);
  }

  lemma SameClasses(b: int, w: int, v: int, a: int)
    requires Cong(b, w) && Cong(v, a)
    ensures Cong(b, a) <==> Cong(w, v)
  {}

  /** Over every argument a field element and a 16-bit word can produce, the reduction is
      exact on the safe arguments, and on the others not even congruent. */
  lemma BarrettExact(a: uint32)
    requires a < Q * HALF
    ensures Cong(BarrettReduce(a), a) <==> Safe(a)
    ensures BarrettReduce(a) == a % Q <==> Safe(a)
  {
    Leftover(a);
    SafeLeftover(a);
    var t := (a * MULTIPLIER) % WORD / SHIFTED;
    TruncatedClass(a, t, BarrettReduce(a));
    hide BarrettReduce;
    if Safe(a) {
      LeftoverSafe(a);
    } else {
      hide Safe;
      CongMod(a);
    }
  }

  /** 153133 is the first argument it gets wrong. */
  lemma BarrettLimit(a: uint32)
    ensures a <= 153132 ==> BarrettReduce(a) == a % Q
    ensures BarrettReduce(153133) != 153133 % Q
  {
    if a <= 153132 {
      BarrettExact(a);
    }
    BarrettExact(153133);
  }

  // ----- field operations -------------------------------------------------------------

  function GfAdd(a: uint16, b: uint16): uint16 {
    var r := (a + b) % HALF;
    if r >= Q then r - Q else r
  }

  function GfSub(a: uint16, b: uint16): uint16 {
    if a >= b then a - b else (a + Q - b) % HALF
  }

  function GfMul(a: uint16, b: uint16): uint16 {
    MulFits(a, b);
    BarrettReduce(a * b)
  }

  lemma MulFits(a: uint16, b: uint16)
    ensures 0 <= a * b < WORD
  {
    MulMono(a, HALF - 1, b, HALF - 1);
  }

  /** On field elements addition and subtraction are those of the field, and each undoes
      the other. */
  lemma AddSubField(a: Elem, b: Elem)
    ensures GfAdd(a, b) == (a + b) % Q && GfSub(a, b) == (a - b) % Q
    ensures GfAdd(GfSub(a, b), b) == a && GfSub(GfAdd(a, b), b) == a
  {}

  /** A sum with any 16-bit word stays in its residue class if it does not wrap. */
  lemma AddCong(a: uint16, b: uint16)
    requires a + b < HALF
    ensures Cong(GfAdd(a, b), a + b)
  {}

  lemma ProductInReach(a: Elem, b: uint16)
    ensures 0 <= a * b < Q * HALF
  {
    MulMono(a, Q - 1, b, HALF - 1);
  }

  /** A field element times a 16-bit word is multiplied as in the field exactly when the
      product is safe; otherwise even the residue class is lost. */
  lemma MulField(a: Elem, b: uint16)
    ensures GfMul(a, b) == (a * b) % Q <==> Safe(a * b)
    ensures Cong(GfMul(a, b), a * b) <==> Safe(a * b)
  {
    ProductInReach(a, b);
    BarrettExact(a * b);
  }

  // ----- polynomial evaluation ----------------------------------------------------------

  function EvalC(c: seq<uint16>, x: uint16): uint16 {
    if c == [] then 0 else GfAdd(GfMul(EvalC(c[1..], x), x), c[0])
  }

  lemma EvalFrom(c: seq<uint16>, i: nat, x: uint16)
    requires i < |c|
    ensures EvalC(c[i..], x) == GfAdd(GfMul(EvalC(c[i + 1..], x), x), c[i])
  {
    hide GfMul, GfAdd;
    assert c[i..][1..] == c[i + 1..] && c[i..][0] == c[i];
  }

  method EvaluatePolynomial(coeffs: array<uint16>, offset: nat, degree: byte, x: uint16) returns (result: uint16)
    requires offset + degree <= coeffs.Length
    ensures result == EvalC(coeffs[offset..offset + degree], x)
  {
    hide GfMul, GfAdd;
    ghost var c := coeffs[offset..offset + degree];
    result := 0;
    assert c[degree..] == [];
    assert EvalC([], x) == 0;
    var i: int := degree - 1;
    while i >= 0
      invariant -1 <= i < degree
      invariant result == EvalC(c[i + 1..], x)
    {
      EvalFrom(c, i, x);
      assert coeffs[offset + i] == c[i];
      result := GfAdd(GfMul(result, x), coeffs[offset + i]);
      i := i - 1;
    }
    assert c[0..] == c;
  }

  /** The share ids at which evaluation is exact. */
  predicate ExactId(x: nat) {
    x <= 64 && x != 58
  }

  /** No multiple of an exact id by a field element is one of the failing arguments. */
  lemma ExactProductsSafe(x: nat, r: Elem)
    requires ExactId(x)
    ensures Safe(r * x)
  {
    MulMono(r, Q - 1, x, 64);
    if x <= 46 {
      MulMono(r, Q - 1, x, 46);
    } else {
      if (r * x) % Q == Q - 1 && r * x >= 153133 {
        var k := (r * x) / Q + 1;
        assert r * x == Q * k - 1;
        NoUnitAbove45(x, r, k);
      }
    }
  }

  lemma NoUnitAbove45(x: nat, r: nat, k: nat)
    requires 47 <= x <= 64 && x != 58 && r < Q && 46 <= k
    ensures r * x != Q * k - 1
  {
    if x == 47 {} else if x == 48 {} else if x == 49 {} else if x == 50 {} else if x == 51 {}
    else if x == 52 {} else if x == 53 {} else if x == 54 {} else if x == 55 {} else if x == 56 {}
    else if x == 57 {} else if x == 59 {} else if x == 60 {} else if x == 61 {} else if x == 62 {}
    else if x == 63 {} else {}
  }

  lemma MulAtExactId(r: Elem, x: nat)
    requires ExactId(x)
    ensures GfMul(r, x) == (r * x) % Q
  {
    ExactProductsSafe(x, r);
    MulField(r, x);
  }

  lemma {:induction false} EvalExact(c: seq<uint16>, x: nat)
    requires ExactId(x) && Canonical(c)
    ensures EvalC(c, x) == Eval(c, x) % Q
  {
    if c != [] {
      hide GfMul;
      EvalExact(c[1..], x);
      var r := EvalC(c[1..], x);
      MulAtExactId(r, x);
      ExactStep(r, x, c[0], Eval(c[1..], x));
    }
  }

  lemma ExactStep(r: Elem, x: nat, c0: Elem, rest: int)
    requires r == rest % Q
    ensures GfAdd((r * x) % Q, c0) == (c0 + x * rest) % Q
  {
    hide Cong;
    AddSubField((r * x) % Q, c0);
    CongMod(r * x);
    CongMod(rest);
    CongRefl(x);
    CongRefl(c0);
    CongMul(r, rest, x, x);
    CongTrans((r * x) % Q, r * x, rest * x);
    CongAdd((r * x) % Q, rest * x, c0, c0);
    CongResidue((r * x) % Q + c0, rest * x + c0);
    assert rest * x == x * rest;
  }

  /** With a constant term outside the field the share is no longer canonical but still in
      the right residue class, as long as the last addition cannot wrap. */
  lemma EvalAnyConstant(c: seq<uint16>, x: nat)
    requires ExactId(x) && c != [] && Canonical(c[1..])
    requires c[0] < HALF - (Q - 1)
    ensures Cong(EvalC(c, x), Eval(c, x))
  {
    hide GfMul, Cong;
    EvalExact(c[1..], x);
    var r, rest := EvalC(c[1..], x), Eval(c[1..], x);
    MulAtExactId(r, x);
    CongMod(r * x);
    CongMod(rest);
    CongRefl(x);
    CongRefl(c[0]);
    CongMul(r, rest, x, x);
    CongTrans((r * x) % Q, r * x, rest * x);
    CongAdd((r * x) % Q, rest * x, c[0], c[0]);
    AddCong((r * x) % Q, c[0]);
    CongTrans(EvalC(c, x), (r * x) % Q + c[0], rest * x + c[0]);
    assert rest * x == x * rest;
  }

  /** A constant polynomial needs no multiplication: right at every id. */
  lemma EvalConstant(c: seq<uint16>, x: uint16)
    requires |c| == 1 && c[0] < HALF - (Q - 1)
    ensures Cong(EvalC(c, x), Eval(c, x))
  {
    assert c[1..] == [];
    MulByZero(x);
    AddCong(0, c[0]);
  }

  ghost predicate AlwaysExact(x: uint16) {
    forall c: seq<uint16> :: Canonical(c) ==> EvalC(c, x) == Eval(c, x) % Q
  }

  /** The polynomial r * x as a coefficient list of length t. */
  function Line(r: Elem, t: nat): (c: seq<uint16>)
    requires t >= 2
    ensures |c| == t && Canonical(c) && c[0] == 0
  {
    [0, r] + seq(t - 2, _ => 0)
  }

  lemma {:induction false} ZerosEvalC(n: nat, x: uint16)
    ensures EvalC(seq(n, _ => 0), x) == 0 && Eval(seq(n, _ => 0), x) == 0
  {
    if n > 0 {
      ZerosEvalC(n - 1, x);
      assert seq(n, _ => 0)[1..] == seq(n - 1, _ => 0);
      MulByZero(x);
    }
  }

  lemma LineEval(r: Elem, t: nat, x: uint16)
    requires t >= 2
    ensures EvalC(Line(r, t), x) == GfAdd(GfMul(r, x), 0) && Eval(Line(r, t), x) == r * x
  {
    hide GfMul;
    var zeros := seq(t - 2, _ => 0);
    ZerosEvalC(t - 2, x);
    MulByZero(x);
    assert Line(r, t)[1..] == [r] + zeros && ([r] + zeros)[1..] == zeros;
    assert EvalC([r] + zeros, x) == r && Eval([r] + zeros, x) == r;
  }

  lemma MulByZero(x: uint16)
    ensures GfMul(0, x) == 0
  {
    assert 0 * x == 0;
  }

  /** The polynomial r * x keeps its residue class at the ids where the product is safe, and
      only there. */
  lemma LineKept(r: Elem, t: nat, x: uint16)
    requires t >= 2
    ensures Cong(EvalC(Line(r, t), x), Eval(Line(r, t), x)) <==> Safe(r * x)
  {
    hide GfMul, Safe, Cong, EvalC, Eval, Line;
    LineEval(r, t, x);
    MulField(r, x);
    AddNothing(GfMul(r, x), r * x);
  }

  lemma AddNothing(b: uint16, a: int)
    ensures Cong(GfAdd(b, 0), a) <==> Cong(b, a)
  {}

  /** The slope of a line that is lost at an inexact id. Above 64 it is the least slope whose
      product with the id is out of reach, or at two ids the next one. */
  function LostSlope(x: uint16): Elem
    requires !ExactId(x)
  {
    if x == 58 then 3042 else if x == 158 then 1350 else if x == 220 then 970 else (213054 + x) / x
  }

  lemma LostSlopeUnsafe(x: uint16)
    requires !ExactId(x)
    ensures !Safe(LostSlope(x) * x)
  {
    assert LostSlope(x) * x >= if x == 58 then 3042 * 58 else 213055;
  }

  /** At every smaller id that line is sent right. */
  lemma SlopeSpares(x: byte, y: nat)
    requires !ExactId(x) && (y < x || ExactId(y)) && y != x
    ensures Safe(LostSlope(x) * y)
  {
    if ExactId(y) {
      ExactProductsSafe(y, LostSlope(x));
    } else {
      SlopeInReach(LostSlope(x), x, y);
      forall k | 45 < k < 65
        ensures LostSlope(x) * y != Q * k - 1
      {
        SlopeMisses(x, y, k);
      }
      hide LostSlope;
      SafeBetween(LostSlope(x) * y);
    }
  }

  lemma SlopeInReach(r: nat, x: nat, y: nat)
    requires 65 <= x < 0x100 && y < x && r == LostSlope(x)
    ensures r * y < 213055
  {
    SlopeFits(r, x);
    MulMono(r, r, y, x - 1);
    assert r * (x - 1) == r * x - r;
  }

  lemma SlopeFits(r: nat, x: nat)
    requires 65 <= x < 0x100 && r == LostSlope(x)
    ensures r * x <= 213054 + 2 * x && r > 2 * x
  {
    if x != 158 && x != 220 {
      CeilingFits(213054 + x, x, r);
    }
  }

  lemma CeilingFits(a: nat, x: nat, r: nat)
    requires 0 < x < 0x100 && a >= 213054 && r == a / x
    ensures r * x <= a && r > 2 * x
  {
    assert (r + 1) * x > a;
  }

  lemma SafeBetween(a: nat)
    requires a < 213055 && forall k :: 45 < k < 65 ==> a != Q * k - 1
    ensures Safe(a)
  {
    assert a == Q * (a / Q + 1) - 1 <==> a % Q == Q - 1;
  }

  lemma SlopeMisses(x: nat, y: nat, k: nat)
    requires 65 <= x < 0x100 && y < x && 45 < k < 65
    ensures LostSlope(x) * y != Q * k - 1
  {
    if x < 97 { SlopeMisses65(x, y, k); }
    else if x < 129 { SlopeMisses97(x, y, k); }
    else if x < 161 { SlopeMisses129(x, y, k); }
    else if x < 193 { SlopeMisses161(x, y, k); }
    else if x < 225 { SlopeMisses193(x, y, k); }
    else { SlopeMisses225(x, y, k); }
  }

  lemma SlopeMisses65(x: nat, y: nat, k: nat)
    requires 65 <= x < 97 && y < x && 45 < k < 65
    ensures LostSlope(x) * y != Q * k - 1
  {
    if x == 65 {} else if x == 66 {} else if x == 67 {} else if x == 68 {} else if x == 69 {} else if x == 70 {}
    else if x == 71 {} else if x == 72 {} else if x == 73 {} else if x == 74 {} else if x == 75 {} else if x == 76 {}
    else if x == 77 {} else if x == 78 {} else if x == 79 {} else if x == 80 {} else if x == 81 {} else if x == 82 {}
    else if x == 83 {} else if x == 84 {} else if x == 85 {} else if x == 86 {} else if x == 87 {} else if x == 88 {}
    else if x == 89 {} else if x == 90 {} else if x == 91 {} else if x == 92 {} else if x == 93 {} else if x == 94 {}
    else if x == 95 {} else if x == 96 {}
  }

  lemma SlopeMisses97(x: nat, y: nat, k: nat)
    requires 97 <= x < 129 && y < x && 45 < k < 65
    ensures LostSlope(x) * y != Q * k - 1
  {
    if x == 97 {} else if x == 98 {} else if x == 99 {} else if x == 100 {} else if x == 101 {} else if x == 102 {}
    else if x == 103 {} else if x == 104 {} else if x == 105 {} else if x == 106 {} else if x == 107 {} else if x == 108 {}
    else if x == 109 {} else if x == 110 {} else if x == 111 {} else if x == 112 {} else if x == 113 {} else if x == 114 {}
    else if x == 115 {} else if x == 116 {} else if x == 117 {} else if x == 118 {} else if x == 119 {} else if x == 120 {}
    else if x == 121 {} else if x == 122 {} else if x == 123 {} else if x == 124 {} else if x == 125 {} else if x == 126 {}
    else if x == 127 {} else if x == 128 {}
  }

  lemma SlopeMisses129(x: nat, y: nat, k: nat)
    requires 129 <= x < 161 && y < x && 45 < k < 65
    ensures LostSlope(x) * y != Q * k - 1
  {
    if x == 129 {} else if x == 130 {} else if x == 131 {} else if x == 132 {} else if x == 133 {} else if x == 134 {}
    else if x == 135 {} else if x == 136 {} else if x == 137 {} else if x == 138 {} else if x == 139 {} else if x == 140 {}
    else if x == 141 {} else if x == 142 {} else if x == 143 {} else if x == 144 {} else if x == 145 {} else if x == 146 {}
    else if x == 147 {} else if x == 148 {} else if x == 149 {} else if x == 150 {} else if x == 151 {} else if x == 152 {}
    else if x == 153 {} else if x == 154 {} else if x == 155 {} else if x == 156 {} else if x == 157 {} else if x == 158 {}
    else if x == 159 {} else if x == 160 {}
  }

  lemma SlopeMisses161(x: nat, y: nat, k: nat)
    requires 161 <= x < 193 && y < x && 45 < k < 65
    ensures LostSlope(x) * y != Q * k - 1
  {
    if x == 161 {} else if x == 162 {} else if x == 163 {} else if x == 164 {} else if x == 165 {} else if x == 166 {}
    else if x == 167 {} else if x == 168 {} else if x == 169 {} else if x == 170 {} else if x == 171 {} else if x == 172 {}
    else if x == 173 {} else if x == 174 {} else if x == 175 {} else if x == 176 {} else if x == 177 {} else if x == 178 {}
    else if x == 179 {} else if x == 180 {} else if x == 181 {} else if x == 182 {} else if x == 183 {} else if x == 184 {}
    else if x == 185 {} else if x == 186 {} else if x == 187 {} else if x == 188 {} else if x == 189 {} else if x == 190 {}
    else if x == 191 {} else if x == 192 {}
  }

  lemma SlopeMisses193(x: nat, y: nat, k: nat)
    requires 193 <= x < 225 && y < x && 45 < k < 65
    ensures LostSlope(x) * y != Q * k - 1
  {
    if x == 193 {} else if x == 194 {} else if x == 195 {} else if x == 196 {} else if x == 197 {} else if x == 198 {}
    else if x == 199 {} else if x == 200 {} else if x == 201 {} else if x == 202 {} else if x == 203 {} else if x == 204 {}
    else if x == 205 {} else if x == 206 {} else if x == 207 {} else if x == 208 {} else if x == 209 {} else if x == 210 {}
    else if x == 211 {} else if x == 212 {} else if x == 213 {} else if x == 214 {} else if x == 215 {} else if x == 216 {}
    else if x == 217 {} else if x == 218 {} else if x == 219 {} else if x == 220 {} else if x == 221 {} else if x == 222 {}
    else if x == 223 {} else if x == 224 {}
  }

  lemma SlopeMisses225(x: nat, y: nat, k: nat)
    requires 225 <= x < 256 && y < x && 45 < k < 65
    ensures LostSlope(x) * y != Q * k - 1
  {
    if x == 225 {} else if x == 226 {} else if x == 227 {} else if x == 228 {} else if x == 229 {} else if x == 230 {}
    else if x == 231 {} else if x == 232 {} else if x == 233 {} else if x == 234 {} else if x == 235 {} else if x == 236 {}
    else if x == 237 {} else if x == 238 {} else if x == 239 {} else if x == 240 {} else if x == 241 {} else if x == 242 {}
    else if x == 243 {} else if x == 244 {} else if x == 245 {} else if x == 246 {} else if x == 247 {} else if x == 248 {}
    else if x == 249 {} else if x == 250 {} else if x == 251 {} else if x == 252 {} else if x == 253 {} else if x == 254 {}
    else if x == 255 {}
  }

  /** Share generation is exact at the ids up to 64 other than 58, and at no other: there some
      share is not even congruent to the polynomial's value. */
  lemma ExactIds(x: uint16)
    ensures AlwaysExact(x) <==> ExactId(x)
    ensures !ExactId(x) ==>
      !Cong(EvalC(Line(LostSlope(x), 2), x), Eval(Line(LostSlope(x), 2), x))
  {
    hide EvalC, Eval, LostSlope, Line, Safe;
    if ExactId(x) {
      forall c: seq<uint16> | Canonical(c)
        ensures EvalC(c, x) == Eval(c, x) % Q
      {
        EvalExact(c, x);
      }
    } else {
      LostSlopeUnsafe(x);
      var c := Line(LostSlope(x), 2);
      LineKept(LostSlope(x), 2, x);
      CongMod(Eval(c, x));
      assert EvalC(c, x) != Eval(c, x) % Q;
    }
  }

  /** So every share of a round is exact if and only if the round has at most 57 shares. */
  lemma ExactRounds(n: byte)
    ensures (forall x: byte :: 1 <= x <= n ==> AlwaysExact(x)) <==> n <= 57
  {
    hide AlwaysExact;
    forall x: byte | 1 <= x <= n
      ensures AlwaysExact(x) <==> ExactId(x)
    {
      ExactIds(x);
    }
    if n >= 58 {
      ExactIds(58);
    }
  }
}

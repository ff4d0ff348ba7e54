/**
 The POLYVAL field of RFC 8452, section 3: polynomials over GF(2) modulo
 p = x^128 + x^127 + x^126 + x^121 + 1, with the product
 dot(a, b) = a * b * x^-128 mod p.
 */
module Field {
  import opened Gf2

  const TWO64: nat := 0x1_0000_0000_0000_0000
  const TWO128: nat := 0x1_0000_0000_0000_0000_0000_0000_0000_0000

  type u64 = n: nat | n < TWO64
  type u128 = n: nat | n < TWO128

  /** The middle of the modulus: x^63 + x^62 + x^57. */
  const TAPS: nat := 0xC200_0000_0000_0000

  /** The modulus: x^128 + TAPS * x^64 + 1. */
  const P: nat := 0x1_C200_0000_0000_0000_0000_0000_0000_0001

  /** a and b differ by a multiple of p. */
  ghost predicate Congruent(a: nat, b: nat) {
    exists m: nat :: Xor(a, b) == Clmul(m, P)
  }

  // ---------------------------------------------------------------------------
  // The modulus as a polynomial
  // ---------------------------------------------------------------------------

  lemma ShlBy8(a: nat, k: nat)
    ensures Shl(a, k + 8) == 0x100 * Shl(a, k)
  {
    assert Shl(a, k + 2) == 4 * Shl(a, k);
    assert Shl(a, k + 4) == 16 * Shl(a, k);
    assert Shl(a, k + 6) == 64 * Shl(a, k);
  }

  lemma ShlBy32(a: nat, k: nat)
    ensures Shl(a, k + 32) == 0x1_0000_0000 * Shl(a, k)
  {
    ShlBy8(a, k);
    ShlBy8(a, k + 8);
    ShlBy8(a, k + 16);
    ShlBy8(a, k + 24);
  }

  lemma ShlBy64(a: nat, k: nat)
    ensures Shl(a, k + 64) == TWO64 * Shl(a, k)
  {
    ShlBy32(a, k);
    ShlBy32(a, k + 32);
  }

  lemma PowValues()
    ensures Pow2(64) == TWO64
    ensures Pow2(128) == TWO128
  {
    ShlIsTimesPow2(64);
    ShlIsTimesPow2(128);
    ShlBy64(1, 0);
    ShlBy64(1, 64);
  }

  lemma {:induction false} ShlIsTimesPow2(k: nat)
    ensures Shl(1, k) == Pow2(k)
    decreases k
  {
    if k > 0 { ShlIsTimesPow2(k - 1); }
  }

  /** Splitting the leading term off a factor. */
  lemma LeadingTerm(v: nat, low: nat, k: nat)
    requires low < Pow2(k)
    ensures Clmul(v, low + Pow2(k)) == Xor(Clmul(v, low), Shl(v, k))
  {
    ShlIsTimesPow2(k);
    XorJoin(low, 1, k);
    ClmulDistributes(v, low, Shl(1, k));
    ClmulShl(v, 1, k);
    ClmulZeroOne(v);
  }

  lemma TwoTerms(v: nat, i: nat, j: nat)
    requires i < j
    ensures Pow2(i) < Pow2(j)
    ensures Clmul(v, Pow2(i) + Pow2(j)) == Xor(Shl(v, i), Shl(v, j))
  {
    hide Xor, Clmul, Shl;
    PowMonotone(i + 1, j);
    LeadingTerm(v, Pow2(i), j);
    LeadingTerm(v, 0, i);
    ClmulZeroOne(v);
    XorZero(Shl(v, i));
  }

  /** Multiplying by a polynomial with three terms. */
  lemma ThreeTerms(v: nat, i: nat, j: nat, k: nat)
    requires i < j < k
    ensures Clmul(v, Pow2(i) + Pow2(j) + Pow2(k)) == Xor(Xor(Shl(v, i), Shl(v, j)), Shl(v, k))
  {
    hide Xor, Clmul, Shl;
    TwoTerms(v, i, j);
    var low := Pow2(i) + Pow2(j);
    assert low < Pow2(k) by { PowMonotone(j + 1, k); }
    LeadingTerm(v, low, k);
  }

  lemma PowChain(k: nat)
    requires k >= 7
    ensures Pow2(k) == 2 * Pow2(k - 1) == 4 * Pow2(k - 2) == 128 * Pow2(k - 7)
  {
    assert Pow2(k - 5) == 4 * Pow2(k - 7);
    assert Pow2(k - 3) == 4 * Pow2(k - 5);
  }

  lemma TapPowers(i: nat, j: nat, k: nat)
    requires i == 57 && j == 62 && k == 63
    ensures Pow2(i) + Pow2(j) + Pow2(k) == TAPS
  {
    PowValues();
    hide Pow2;
    PowChain(k + 1);
  }

  lemma ClmulTaps(v: nat)
    ensures Clmul(v, TAPS) == Xor(Xor(Shl(v, 57), Shl(v, 62)), Shl(v, 63))
  {
    hide Xor, Clmul, Shl, Pow2;
    ThreeTerms(v, 57, 62, 63);
    TapPowers(57, 62, 63);
  }

  lemma PowOfOne()
    ensures Pow2(1) == 2
  {
  }

  /** The shape 1 + taps * x^w + x^2w, for any lane width w. */
  lemma ModulusForm(v: nat, taps: nat, w: nat)
    requires taps < Pow2(w) && w > 0
    ensures Clmul(v, 1 + Shl(taps, w) + Pow2(2 * w)) == Xor(Xor(v, Shl(Clmul(v, taps), w)), Shl(v, 2 * w))
  {
    hide Xor, Clmul, Shl, Pow2;
    PowOfOne();
    PowMonotone(1, w);
    PowMonotone(1, 2 * w);
    XorJoin(1, taps, w);
    ShlFits(taps, w, w);
    assert 1 + Shl(taps, w) < Pow2(2 * w) by {
      XorFits(1, Shl(taps, w), 2 * w);
    }
    LeadingTerm(v, 1 + Shl(taps, w), 2 * w);
    ClmulDistributes(v, 1, Shl(taps, w));
    ClmulShl(v, taps, w);
    ClmulZeroOne(v);
  }

  lemma ClmulModulus(v: nat)
    ensures Clmul(v, P) == Xor(Xor(v, Shl(Clmul(v, TAPS), 64)), Shl(v, 128))
  {
    hide Xor, Clmul, Shl, Pow2;
    ModulusParts(TAPS, 64);
    ModulusForm(v, TAPS, 64);
  }

  lemma ModulusParts(taps: nat, w: nat)
    requires taps == TAPS && w == 64
    ensures taps < Pow2(w) && P == 1 + Shl(taps, w) + Pow2(2 * w)
  {
    hide Pow2;
    PowValues();
    ShlBy64(taps, 0);
  }

  /** The modulus is x^128 + x^127 + x^126 + x^121 + 1. */
  lemma ModulusBits(i: nat)
    ensures Bit(P, i) <==> i in {0, 121, 126, 127, 128}
  {
    hide Xor, Clmul, Shl, Bit;
    ClmulModulus(1);
    ClmulTaps(1);
    ClmulZeroOne(P);
    ClmulZeroOne(TAPS);
    BitFacts();
    forall k: nat ensures Bit(1, k) <==> k == 0 { BitOfOne(k); }
    assert P == Xor(Xor(1, Shl(Xor(Xor(Shl(1, 57), Shl(1, 62)), Shl(1, 63)), 64)), Shl(1, 128));
  }

  lemma ModulusShape()
    ensures Pow2(128) <= P < Pow2(129)
    ensures P % 2 == 1
  {
    PowValues();
  }

  // ---------------------------------------------------------------------------
  // Congruence modulo p
  // ---------------------------------------------------------------------------

  lemma CongruentSelf(a: nat)
    ensures Congruent(a, a)
  {
    XorSelf(a);
    ClmulZeroOne(P);
    assert Xor(a, a) == Clmul(0, P);
  }

  lemma CongruentSymmetric(a: nat, b: nat)
    requires Congruent(a, b)
    ensures Congruent(b, a)
  {
    XorCommutes(a, b);
  }

  /** Sums of congruent polynomials are congruent. */
  lemma CongruentXor(a: nat, b: nat, c: nat, d: nat)
    requires Congruent(a, b) && Congruent(c, d)
    ensures Congruent(Xor(a, c), Xor(b, d))
  {
    hide Xor, Clmul;
    var m: nat :| Xor(a, b) == Clmul(m, P);
    var n: nat :| Xor(c, d) == Clmul(n, P);
    XorSwapMiddle(a, c, b, d);
    ClmulDistributesLeft(m, n, P);
    assert Xor(Xor(a, c), Xor(b, d)) == Clmul(Xor(m, n), P);
  }

  lemma CongruentTransitive(a: nat, b: nat, c: nat)
    requires Congruent(a, b) && Congruent(b, c)
    ensures Congruent(a, c)
  {
    hide Xor, Clmul;
    var m: nat :| Xor(a, b) == Clmul(m, P);
    var n: nat :| Xor(b, c) == Clmul(n, P);
    XorAssociates(a, b, Xor(b, c));
    XorGroup(b, c, 0);
    ClmulDistributesLeft(m, n, P);
    assert Xor(a, c) == Clmul(Xor(m, n), P);
  }

  /** Multiplying both sides. */
  lemma CongruentClmul(a: nat, b: nat, c: nat)
    requires Congruent(a, b)
    ensures Congruent(Clmul(a, c), Clmul(b, c))
    ensures Congruent(Clmul(c, a), Clmul(c, b))
  {
    hide Xor, Clmul;
    var m: nat :| Xor(a, b) == Clmul(m, P);
    ClmulDistributesLeft(a, b, c);
    ClmulCommutes(m, P);
    ClmulAssociates(P, m, c);
    ClmulCommutes(P, Clmul(m, c));
    ClmulCommutes(Clmul(m, P), c);
    ClmulAssociates(m, P, c);
    assert Xor(Clmul(a, c), Clmul(b, c)) == Clmul(Clmul(m, c), P);
    ClmulCommutes(a, c);
    ClmulCommutes(b, c);
  }

  lemma CongruentShl(a: nat, b: nat, k: nat)
    requires Congruent(a, b)
    ensures Congruent(Shl(a, k), Shl(b, k))
  {
    hide *;
    CongruentClmul(a, b, Shl(1, k));
    ClmulShl(1, a, k);
    ClmulShl(1, b, k);
    ClmulZeroOne(a);
    ClmulZeroOne(b);
  }

  lemma {:induction false} XorZeroMeansEqual(a: nat, b: nat)
    requires Xor(a, b) == 0
    ensures a == b
    decreases a, b
  {
    if a != 0 || b != 0 { XorZeroMeansEqual(a / 2, b / 2); }
  }

  /** x is invertible modulo p, because p has constant term 1. */
  lemma {:induction false} CancelShl(a: nat, b: nat, k: nat)
    requires Congruent(Shl(a, k), Shl(b, k))
    ensures Congruent(a, b)
    decreases k
  {
    if k > 0 {
      var c, d := Shl(a, k - 1), Shl(b, k - 1);
      var m: nat :| Xor(2 * c, 2 * d) == Clmul(m, P);
      HalveMultiple(c, d, m);
      CancelShl(a, b, k - 1);
    }
  }

  lemma HalveMultiple(c: nat, d: nat, m: nat)
    requires Xor(2 * c, 2 * d) == Clmul(m, P)
    ensures Xor(c, d) == Clmul(m / 2, P)
  {
    hide Clmul, Xor;
    var q, s := Clmul(m / 2, P), Select(m, P);
    XorDouble(c, d);
    ClmulStep(m, P);
    XorHalves(s, 2 * q);
    XorZero(q);
  }

  /** Below degree 128 every residue class has one member. */
  lemma CongruentReduced(a: u128, b: u128)
    requires Congruent(a, b)
    ensures a == b
  {
    var m: nat :| Xor(a, b) == Clmul(m, P);
    hide Xor, Clmul;
    PowValues();
    ModulusShape();
    XorFits(a, b, 128);
    if m > 0 {
      ClmulLength(m, P, 128);
    } else {
      ClmulZeroOne(P);
      XorZeroMeansEqual(a, b);
    }
  }

  // ---------------------------------------------------------------------------
  // The product of the field
  // ---------------------------------------------------------------------------

  /** w * x^-1 modulo p: clear the constant term with p, then shift. */
  function DivX(w: nat): nat { (if w % 2 == 1 then Xor(w, P) else w) / 2 }

  lemma DivXDivides(w: nat, k: nat)
    ensures Congruent(2 * DivX(w), w)
    ensures k >= 128 && w < Pow2(k + 1) ==> DivX(w) < Pow2(k)
  {
    hide Clmul, Xor;
    ModulusShape();
    XorHalves(w, P);
    if w % 2 == 1 {
      XorCommutes(w, P);
      XorGroup(w, P, 0);
      ClmulZeroOne(P);
      assert 2 * DivX(w) == Xor(w, P);
      assert Xor(2 * DivX(w), w) == Clmul(1, P);
      if k >= 128 && w < Pow2(k + 1) {
        PowMonotone(129, k + 1);
        XorFits(w, P, k + 1);
      }
    } else {
      CongruentSelf(w);
    }
  }

  /** Dividing by x^k, one power at a time. */
  lemma {:induction false} DivideByPower(w: nat, k: nat) returns (r: nat)
    requires w < Pow2(128 + k)
    ensures r < Pow2(128) && Congruent(Shl(r, k), w)
    decreases k
  {
    if k == 0 {
      r := w;
      CongruentSelf(w);
    } else {
      DivXDivides(w, 127 + k);
      r := DivideByPower(DivX(w), k - 1);
      hide Congruent;
      CongruentShl(Shl(r, k - 1), DivX(w), 1);
      ShlShl(r, k - 1, 1);
      CongruentTransitive(Shl(r, k), 2 * DivX(w), w);
    }
  }

  /** r is w * x^-128 modulo p, in reduced form. */
  ghost predicate IsReduced(w: nat, r: nat) {
    r < TWO128 && Congruent(Shl(r, 128), w)
  }

  lemma ReducedExists(w: nat)
    requires w < Pow2(256)
    ensures exists r :: IsReduced(w, r)
  {
    var r := DivideByPower(w, 128);
    PowValues();
    assert IsReduced(w, r);
  }

  lemma ReducedUnique(w: nat, r: nat, s: nat)
    requires IsReduced(w, r) && IsReduced(w, s)
    ensures r == s
  {
    hide Congruent;
    CongruentSymmetric(Shl(s, 128), w);
    CongruentTransitive(Shl(r, 128), w, Shl(s, 128));
    CancelShl(r, s, 128);
    CongruentReduced(r, s);
  }

  /** The Montgomery reduction of a wide product: the one polynomial of degree
      below 128 that is congruent to w * x^-128. */
  ghost function Redc(w: nat): (r: u128)
    requires w < Pow2(256)
    ensures IsReduced(w, r)
  {
    ReducedExists(w);
    var r :| IsReduced(w, r);
    r
  }

  lemma ClmulWide(a: u128, b: u128)
    ensures Clmul(a, b) < Pow2(256)
  {
    PowValues();
    ClmulFits(a, b, 128, 128);
  }

  /** dot(a, b) of RFC 8452. */
  ghost function Dot(a: u128, b: u128): (r: u128)
    ensures IsReduced(Clmul(a, b), r)
  {
    ClmulWide(a, b);
    Redc(Clmul(a, b))
  }

  lemma DotUnique(a: u128, b: u128, r: nat)
    requires IsReduced(Clmul(a, b), r)
    ensures r == Dot(a, b)
  {
    hide *;
    ReducedUnique(Clmul(a, b), r, Dot(a, b));
  }

  lemma DotCommutes(a: u128, b: u128)
    ensures Dot(a, b) == Dot(b, a)
  {
    hide *;
    ClmulCommutes(a, b);
    DotUnique(a, b, Dot(b, a));
  }

  lemma XorWord(a: u128, b: u128)
    ensures Xor(a, b) < TWO128
  {
    PowValues();
    XorFits(a, b, 128);
  }

  lemma ReducedXor(v: nat, w: nat, r: nat, s: nat)
    requires IsReduced(v, r) && IsReduced(w, s)
    ensures IsReduced(Xor(v, w), Xor(r, s))
  {
    hide Congruent, Xor, Shl;
    XorWord(r, s);
    CongruentXor(Shl(r, 128), v, Shl(s, 128), w);
    ShlXor(r, s, 128);
  }

  lemma DotDistributes(a: u128, b: u128, c: u128)
    ensures Xor(a, b) < TWO128
    ensures Dot(Xor(a, b), c) == Xor(Dot(a, c), Dot(b, c))
  {
    hide *;
    XorWord(a, b);
    ClmulDistributesLeft(a, b, c);
    ReducedXor(Clmul(a, c), Clmul(b, c), Dot(a, c), Dot(b, c));
    DotUnique(Xor(a, b), c, Xor(Dot(a, c), Dot(b, c)));
  }

  /** Shl(dot(dot(a, b), c), 256) is congruent to a * b * c. */
  lemma DotTriple(a: u128, b: u128, c: u128)
    ensures Congruent(Shl(Shl(Dot(Dot(a, b), c), 128), 128), Clmul(Clmul(a, b), c))
  {
    hide Congruent, Clmul, Shl, Dot;
    var ab := Dot(a, b);
    var r := Dot(ab, c);
    CongruentShl(Shl(r, 128), Clmul(ab, c), 128);
    ClmulShl(ab, c, 128);
    CongruentClmul(Shl(ab, 128), Clmul(a, b), c);
    CongruentTransitive(Shl(Shl(r, 128), 128), Clmul(Shl(ab, 128), c), Clmul(Clmul(a, b), c));
  }

  lemma DotAssociates(a: u128, b: u128, c: u128)
    ensures Dot(Dot(a, b), c) == Dot(a, Dot(b, c))
  {
    hide *;
    DotTriple(a, b, c);
    DotTriple(b, c, a);
    ClmulAssociates(a, b, c);
    ClmulCommutes(a, Clmul(b, c));
    DotCommutes(Dot(b, c), a);
    var r, s := Dot(Dot(a, b), c), Dot(Dot(b, c), a);
    CongruentSymmetric(Shl(Shl(s, 128), 128), Clmul(Clmul(b, c), a));
    CongruentTransitive(Shl(Shl(r, 128), 128), Clmul(Clmul(a, b), c), Shl(Shl(s, 128), 128));
    CancelShl(Shl(r, 128), Shl(s, 128), 128);
    CancelShl(r, s, 128);
    CongruentReduced(r, s);
  }
}

/**
 Polynomials over GF(2), written as natural numbers: bit i of the number is the
 coefficient of x^i. Addition is XOR and multiplication is the carryless product.
 A machine word of w bits is a number below 2^w, so the same operations describe
 bytes, 64-bit lanes, 128-bit registers and unreduced wide products.
 */
module Gf2 {

  function Pow2(k: nat): (p: nat)
    ensures p > 0
  {
    if k == 0 then 1 else 2 * Pow2(k - 1)
  }

  function Xor(a: nat, b: nat): nat
    decreases a, b
  {
    if a == 0 && b == 0 then 0 else (if a % 2 == b % 2 then 0 else 1) + 2 * Xor(a / 2, b / 2)
  }

  predicate Bit(a: nat, i: nat)
    decreases a, i
  {
    if i == 0 then a % 2 == 1 else Bit(a / 2, i - 1)
  }

  /** Left shift without truncation: multiplication by x^k. */
  function Shl(a: nat, k: nat): nat
    decreases a, k
  {
    if k == 0 then a else 2 * Shl(a, k - 1)
  }

  /** Logical right shift: the quotient by x^k. */
  function Shr(a: nat, k: nat): nat
    decreases a, k
  {
    if k == 0 then a else Shr(a / 2, k - 1)
  }

  /** The low k bits: the remainder by x^k. */
  function Trunc(a: nat, k: nat): nat
    decreases a, k
  {
    if k == 0 then 0 else a % 2 + 2 * Trunc(a / 2, k - 1)
  }

  /** The carryless product: what PMULL and PCLMULQDQ compute on 64-bit lanes. */
  function Clmul(a: nat, b: nat): nat
    decreases a, b
  {
    if a == 0 then 0 else Xor(Select(a, b), 2 * Clmul(a / 2, b))
  }

  // ---------------------------------------------------------------------------
  // Bits of the operations
  // ---------------------------------------------------------------------------

  lemma {:induction false} BitOfXor(a: nat, b: nat, i: nat)
    ensures Bit(Xor(a, b), i) == (Bit(a, i) != Bit(b, i))
    decreases i
  {
    if a == 0 && b == 0 {
      BitOfZero(i);
    } else if i > 0 {
      assert Xor(a, b) / 2 == Xor(a / 2, b / 2);
      BitOfXor(a / 2, b / 2, i - 1);
    }
  }

  lemma {:induction false} BitOfZero(i: nat)
    ensures !Bit(0, i)
    decreases i
  {
    if i > 0 { BitOfZero(i - 1); }
  }

  lemma BitOfOne(i: nat)
    ensures Bit(1, i) <==> i == 0
  {
    if i > 0 { BitOfZero(i - 1); }
  }

  lemma {:induction false} BitOfShl(a: nat, k: nat, i: nat)
    ensures Bit(Shl(a, k), i) == (i >= k && Bit(a, i - k))
    decreases k
  {
    if k > 0 {
      if i > 0 { BitOfShl(a, k - 1, i - 1); }
    }
  }

  lemma {:induction false} BitOfShr(a: nat, k: nat, i: nat)
    ensures Bit(Shr(a, k), i) == Bit(a, i + k)
    decreases k
  {
    if k > 0 {
      BitOfShr(a / 2, k - 1, i);
    }
  }

  lemma {:induction false} BitOfTrunc(a: nat, k: nat, i: nat)
    ensures Bit(Trunc(a, k), i) == (i < k && Bit(a, i))
    decreases k
  {
    if k == 0 {
      BitOfZero(i);
    } else {
      if i > 0 { BitOfTrunc(a / 2, k - 1, i - 1); }
    }
  }

  /** The polynomial a has degree below k. */
  ghost predicate DegreeBelow(a: nat, k: nat) { forall i: nat :: i >= k ==> !Bit(a, i) }

  /** A number fits in k bits exactly when its bits from k on are clear. */
  lemma {:induction false} FitsIffDegreeBelow(a: nat, k: nat)
    ensures a < Pow2(k) <==> DegreeBelow(a, k)
    decreases k
  {
    if a < Pow2(k) {
      forall i: nat | i >= k ensures !Bit(a, i) { HighBitClear(a, k, i); }
    } else if DegreeBelow(a, k) {
      DegreeBelowFits(a, k);
    }
  }

  lemma {:induction false} HighBitClear(a: nat, k: nat, i: nat)
    requires a < Pow2(k) && i >= k
    ensures !Bit(a, i)
    decreases k
  {
    if k == 0 {
      BitOfZero(i);
    } else {
      HighBitClear(a / 2, k - 1, i - 1);
    }
  }

  lemma {:induction false} DegreeBelowFits(a: nat, k: nat)
    requires DegreeBelow(a, k)
    ensures a < Pow2(k)
    decreases k
  {
    if k == 0 {
      BitFacts();
      SameBits(a, 0);
    } else {
      forall i: nat | i >= k - 1 ensures !Bit(a / 2, i) {
        assert !Bit(a, i + 1);
      }
      DegreeBelowFits(a / 2, k - 1);
    }
  }

  /** Two numbers with the same bits are the same number. */
  lemma {:induction false} SameBits(a: nat, b: nat)
    requires forall i: nat :: Bit(a, i) == Bit(b, i)
    ensures a == b
    decreases a, b
  {
    if a != 0 || b != 0 {
      assert Bit(a, 0) == Bit(b, 0);
      forall i: nat ensures Bit(a / 2, i) == Bit(b / 2, i) {
        assert Bit(a, i + 1) == Bit(b, i + 1);
      }
      SameBits(a / 2, b / 2);
    }
  }

  /** The bit facts for XOR and the shifts, all at once: with them an XOR-linear
      identity is checked one bit at a time. */
  lemma BitFacts()
    ensures forall i: nat {:trigger Bit(0, i)} :: !Bit(0, i)
    ensures forall a: nat, b: nat, i: nat {:trigger Bit(Xor(a, b), i)} :: Bit(Xor(a, b), i) == (Bit(a, i) != Bit(b, i))
    ensures forall a: nat, k: nat, i: nat {:trigger Bit(Shl(a, k), i)} :: Bit(Shl(a, k), i) == (i >= k && Bit(a, i - k))
    ensures forall a: nat, k: nat, i: nat {:trigger Bit(Shr(a, k), i)} :: Bit(Shr(a, k), i) == Bit(a, i + k)
    ensures forall a: nat, k: nat, i: nat {:trigger Bit(Trunc(a, k), i)} :: Bit(Trunc(a, k), i) == (i < k && Bit(a, i))
  {
    forall i: nat ensures !Bit(0, i) { BitOfZero(i); }
    forall a: nat, b: nat, i: nat ensures Bit(Xor(a, b), i) == (Bit(a, i) != Bit(b, i)) { BitOfXor(a, b, i); }
    forall a: nat, k: nat, i: nat ensures Bit(Shl(a, k), i) == (i >= k && Bit(a, i - k)) { BitOfShl(a, k, i); }
    forall a: nat, k: nat, i: nat ensures Bit(Shr(a, k), i) == Bit(a, i + k) { BitOfShr(a, k, i); }
    forall a: nat, k: nat, i: nat ensures Bit(Trunc(a, k), i) == (i < k && Bit(a, i)) { BitOfTrunc(a, k, i); }
  }

  // ---------------------------------------------------------------------------
  // XOR as addition
  // ---------------------------------------------------------------------------

  lemma {:induction false} XorCommutes(a: nat, b: nat)
    ensures Xor(a, b) == Xor(b, a)
    decreases a, b
  {
    if a != 0 || b != 0 { XorCommutes(a / 2, b / 2); }
  }

  lemma {:induction false} XorAssociates(a: nat, b: nat, c: nat)
    ensures Xor(Xor(a, b), c) == Xor(a, Xor(b, c))
    decreases a, b, c
  {
    if a != 0 || b != 0 || c != 0 {
      XorAssociates(a / 2, b / 2, c / 2);
      XorHalves(a, b);
      XorHalves(b, c);
      XorHalves(Xor(a, b), c);
      XorHalves(a, Xor(b, c));
    }
  }

  lemma XorHalves(a: nat, b: nat)
    ensures Xor(a, b) % 2 == (if a % 2 == b % 2 then 0 else 1)
    ensures Xor(a, b) / 2 == Xor(a / 2, b / 2)
  {
  }

  lemma {:induction false} XorZero(a: nat)
    ensures Xor(a, 0) == a == Xor(0, a)
    decreases a
  {
    if a != 0 { XorZero(a / 2); }
  }

  lemma {:induction false} XorSelf(a: nat)
    ensures Xor(a, a) == 0
    decreases a
  {
    if a != 0 { XorSelf(a / 2); }
  }

  /** XOR is a commutative group operation in which every element is its own inverse. */
  lemma XorGroup(a: nat, b: nat, c: nat)
    ensures Xor(a, b) == Xor(b, a)
    ensures Xor(Xor(a, b), c) == Xor(a, Xor(b, c))
    ensures Xor(a, 0) == a == Xor(0, a)
    ensures Xor(a, a) == 0
    ensures Xor(a, Xor(a, b)) == b == Xor(Xor(b, a), a)
  {
    XorCommutes(a, b);
    XorAssociates(a, b, c);
    XorZero(a);
    XorZero(b);
    XorSelf(a);
    XorAssociates(a, a, b);
    XorAssociates(b, a, a);
  }

  lemma XorSwapMiddle(a: nat, b: nat, c: nat, d: nat)
    ensures Xor(Xor(a, b), Xor(c, d)) == Xor(Xor(a, c), Xor(b, d))
  {
    XorAssociates(a, b, Xor(c, d));
    XorAssociates(b, c, d);
    XorCommutes(b, c);
    XorAssociates(c, b, d);
    XorAssociates(a, c, Xor(b, d));
  }

  lemma XorFits(a: nat, b: nat, k: nat)
    requires a < Pow2(k) && b < Pow2(k)
    ensures Xor(a, b) < Pow2(k)
  {
    BitFacts();
    FitsIffDegreeBelow(a, k);
    FitsIffDegreeBelow(b, k);
    FitsIffDegreeBelow(Xor(a, b), k);
  }

  lemma {:induction false} PowMonotone(i: nat, j: nat)
    requires i <= j
    ensures Pow2(i) <= Pow2(j)
    decreases j
  {
    if i < j { PowMonotone(i, j - 1); }
  }

  lemma {:induction false} TruncFits(a: nat, k: nat)
    ensures Trunc(a, k) < Pow2(k)
    decreases k
  {
    if k > 0 { TruncFits(a / 2, k - 1); }
  }

  lemma {:induction false} ShrFits(a: nat, k: nat, n: nat)
    requires a < Pow2(n + k)
    ensures Shr(a, k) < Pow2(n)
    decreases k
  {
    if k > 0 { ShrFits(a / 2, k - 1, n); }
  }

  /** Joining disjoint fields: XOR is plain addition there. */
  lemma {:induction false} XorJoin(lo: nat, hi: nat, k: nat)
    requires lo < Pow2(k)
    ensures Xor(lo, Shl(hi, k)) == lo + Shl(hi, k)
    decreases k
  {
    if k == 0 {
      XorGroup(hi, 0, 0);
    } else {
      var h := Shl(hi, k - 1);
      XorJoin(lo / 2, hi, k - 1);
      XorHalves(lo, 2 * h);
      assert Xor(lo, 2 * h) == lo % 2 + 2 * Xor(lo / 2, h);
    }
  }

  lemma {:induction false} ShlShl(a: nat, i: nat, j: nat)
    ensures Shl(Shl(a, i), j) == Shl(a, i + j)
    decreases j
  {
    if j > 0 { ShlShl(a, i, j - 1); }
  }

  lemma {:induction false} ShlXor(a: nat, b: nat, k: nat)
    ensures Shl(Xor(a, b), k) == Xor(Shl(a, k), Shl(b, k))
    decreases k
  {
    if k > 0 {
      ShlXor(a, b, k - 1);
      XorDouble(Shl(a, k - 1), Shl(b, k - 1));
    }
  }

  lemma {:induction false} ShlFits(a: nat, k: nat, n: nat)
    ensures a < Pow2(n) <==> Shl(a, k) < Pow2(n + k)
    decreases k
  {
    if k > 0 { ShlFits(a, k - 1, n); }
  }

  // ---------------------------------------------------------------------------
  // The polynomial ring
  // ---------------------------------------------------------------------------

  lemma XorDouble(a: nat, b: nat)
    ensures Xor(2 * a, 2 * b) == 2 * Xor(a, b)
  {
    hide Xor;
    XorHalves(2 * a, 2 * b);
  }

  lemma {:induction false} ClmulZeroOne(a: nat)
    ensures Clmul(a, 0) == 0 == Clmul(0, a)
    ensures Clmul(a, 1) == a == Clmul(1, a)
    decreases a
  {
    XorGroup(a, 0, 0);
    if a > 0 {
      ClmulZeroOne(a / 2);
      XorJoin(a % 2, a / 2, 1);
      assert Pow2(1) == 2;
      XorGroup(2 * (a / 2), 0, 0);
    }
  }

  /** The contribution of the constant coefficient of a to a * b. */
  function Select(a: nat, b: nat): nat { if a % 2 == 1 then b else 0 }

  lemma SelectXor(a: nat, b: nat, c: nat)
    ensures Select(Xor(a, b), c) == Xor(Select(a, c), Select(b, c))
  {
    XorHalves(a, b);
    XorZero(Select(a, c));
    XorZero(Select(b, c));
    XorSelf(c);
  }

  lemma ClmulStep(a: nat, b: nat)
    ensures Clmul(a, b) == Xor(Select(a, b), 2 * Clmul(a / 2, b))
  {
    XorZero(0);
  }

  lemma {:induction false} ClmulDistributes(a: nat, b: nat, c: nat)
    ensures Clmul(a, Xor(b, c)) == Xor(Clmul(a, b), Clmul(a, c))
    decreases a
  {
    if a > 0 {
      var h := a / 2;
      ClmulDistributes(h, b, c);
      XorDouble(Clmul(h, b), Clmul(h, c));
      XorSwapMiddle(Select(a, b), 2 * Clmul(h, b), Select(a, c), 2 * Clmul(h, c));
      XorZero(0);
    }
  }

  lemma {:induction false} ClmulDistributesLeft(a: nat, b: nat, c: nat)
    ensures Clmul(Xor(a, b), c) == Xor(Clmul(a, c), Clmul(b, c))
    decreases a, b
  {
    if a != 0 || b != 0 {
      ClmulDistributesLeft(a / 2, b / 2, c);
      XorHalves(a, b);
      ClmulStep(Xor(a, b), c);
      ClmulStep(a, c);
      ClmulStep(b, c);
      XorDouble(Clmul(a / 2, c), Clmul(b / 2, c));
      XorSwapMiddle(Select(a, c), 2 * Clmul(a / 2, c), Select(b, c), 2 * Clmul(b / 2, c));
      SelectXor(a, b, c);
    }
  }

  lemma {:induction false} ClmulDouble(a: nat, b: nat)
    ensures Clmul(2 * a, b) == 2 * Clmul(a, b) == Clmul(a, 2 * b)
    decreases a
  {
    if a == 0 {
      ClmulZeroOne(b);
      ClmulZeroOne(2 * b);
    } else {
      hide Xor, Clmul;
      var h, s := a / 2, Select(a, b);
      ClmulDouble(h, b);
      ClmulStep(2 * a, b);
      ClmulStep(a, b);
      ClmulStep(a, 2 * b);
      XorZero(2 * Clmul(a, b));
      XorDouble(s, 2 * Clmul(h, b));
    }
  }

  lemma {:induction false} ClmulCommutes(a: nat, b: nat)
    ensures Clmul(a, b) == Clmul(b, a)
    decreases a
  {
    ClmulZeroOne(b);
    if a > 0 {
      ClmulCommutes(a / 2, b);
      ClmulStep(a, b);
      SplitLowBit(a);
      ClmulDistributes(b, a % 2, 2 * (a / 2));
      ClmulDouble(b, a / 2);
    }
  }

  lemma SplitLowBit(a: nat)
    ensures a == Xor(a % 2, 2 * (a / 2))
  {
    XorJoin(a % 2, a / 2, 1);
    assert Pow2(1) == 2;
  }

  lemma {:induction false} ClmulAssociates(a: nat, b: nat, c: nat)
    ensures Clmul(Clmul(a, b), c) == Clmul(a, Clmul(b, c))
    decreases a
  {
    if a > 0 {
      ClmulAssociates(a / 2, b, c);
      ClmulDistributesLeft(Select(a, b), 2 * Clmul(a / 2, b), c);
      ClmulDouble(Clmul(a / 2, b), c);
      ClmulZeroOne(c);
    }
  }

  lemma {:induction false} ClmulShl(a: nat, b: nat, k: nat)
    ensures Clmul(Shl(a, k), b) == Shl(Clmul(a, b), k)
    ensures Clmul(a, Shl(b, k)) == Shl(Clmul(a, b), k)
    decreases k
  {
    if k > 0 {
      ClmulShl(a, b, k - 1);
      ClmulDouble(Shl(a, k - 1), b);
      ClmulDouble(a, Shl(b, k - 1));
    }
  }

  /** Degrees at most add. */
  lemma {:induction false} ClmulFits(a: nat, b: nat, i: nat, j: nat)
    requires a < Pow2(i) && b < Pow2(j)
    ensures Clmul(a, b) < Pow2(i + j)
    decreases i
  {
    if a > 0 {
      ClmulFits(a / 2, b, i - 1, j);
      PowMonotone(j, i + j);
      XorFits(Select(a, b), 2 * Clmul(a / 2, b), i + j);
    }
  }

  /** A leading bit survives adding anything below it. */
  lemma TopBitSurvives(a: nat, b: nat, k: nat)
    requires a < Pow2(k) <= b
    ensures Xor(a, b) >= Pow2(k)
  {
    FitsIffDegreeBelow(a, k);
    FitsIffDegreeBelow(b, k);
    FitsIffDegreeBelow(Xor(a, b), k);
    var i: nat :| i >= k && Bit(b, i);
    BitOfXor(a, b, i);
  }

  /** Degrees exactly add, so a nonzero multiple is at least as long as its factor. */
  lemma {:induction false} ClmulLength(a: nat, b: nat, k: nat)
    requires a > 0 && Pow2(k) <= b < Pow2(k + 1)
    ensures Clmul(a, b) >= Pow2(k)
    ensures a > 1 ==> Clmul(a, b) >= Pow2(k + 1)
    decreases a
  {
    if a == 1 {
      ClmulZeroOne(b);
    } else {
      ClmulLength(a / 2, b, k);
      TopBitSurvives(Select(a, b), 2 * Clmul(a / 2, b), k + 1);
    }
  }
}

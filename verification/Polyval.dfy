/**
 POLYVAL and GHASH as folds over field elements, the ladder of key powers, and
 the bridge from the GHASH product of NIST SP 800-38D to the POLYVAL field.
 */
module Polyval {
  import opened Gf2
  import opened Field

  /** One POLYVAL step, section 3 of RFC 8452: dot(y + x, h). */
  ghost function Step(h: u128, y: u128, x: u128): u128 {
    XorWord(y, x);
    Dot(Xor(y, x), h)
  }

  /** POLYVAL over a sequence of field elements, starting from accumulator y. */
  ghost function Horner(h: u128, y: u128, xs: seq<u128>): u128
    decreases |xs|
  {
    if xs == [] then y else Horner(h, Step(h, y, xs[0]), xs[1..])
  }

  lemma {:induction false} HornerConcat(h: u128, y: u128, xs: seq<u128>, zs: seq<u128>)
    ensures Horner(h, y, xs + zs) == Horner(h, Horner(h, y, xs), zs)
    decreases |xs|
  {
    if xs == [] {
      assert xs + zs == zs;
    } else {
      assert (xs + zs)[1..] == xs[1..] + zs;
      HornerConcat(h, Step(h, y, xs[0]), xs[1..], zs);
    }
  }

  lemma HornerOne(h: u128, y: u128, x: u128)
    ensures Horner(h, y, [x]) == Step(h, y, x)
  {
    hide Step;
    assert Horner(h, Step(h, y, x), [x][1..]) == Step(h, y, x);
  }

  lemma HornerAppend(h: u128, y: u128, xs: seq<u128>, x: u128)
    ensures Horner(h, y, xs + [x]) == Step(h, Horner(h, y, xs), x)
  {
    HornerConcat(h, y, xs, [x]);
    HornerOne(h, Horner(h, y, xs), x);
  }

  // ---------------------------------------------------------------------------
  // Key powers
  // ---------------------------------------------------------------------------

  /** h^n under dot, for n at least 1. */
  ghost function Power(h: u128, n: nat): u128
    requires n > 0
    decreases n, h
  {
    if n == 1 then h else Dot(Power(h, n - 1), h)
  }

  lemma {:induction false} PowerAdd(h: u128, i: nat, j: nat)
    requires i > 0 && j > 0
    ensures Dot(Power(h, i), Power(h, j)) == Power(h, i + j)
    decreases j
  {
    hide Dot, Power;
    PowerStep(h, i + j);
    if j == 1 {
      PowerOne(h);
    } else {
      PowerStep(h, j);
      PowerAdd(h, i, j - 1);
      DotAssociates(Power(h, i), Power(h, j - 1), h);
    }
  }

  lemma PowerStep(h: u128, n: nat)
    requires n > 1
    ensures Power(h, n) == Dot(Power(h, n - 1), h)
  {
    hide Dot;
  }

  /** v * h^k, where h^0 leaves v alone. */
  ghost function Scaled(h: u128, v: u128, k: nat): u128 {
    if k == 0 then v else Dot(v, Power(h, k))
  }

  /** Moving one Horner step across the remaining powers: this is what makes one
      reduction for several blocks equal to one reduction per block. */
  lemma ScaledStep(h: u128, v: u128, x: u128, k: nat)
    ensures Xor(Scaled(h, v, k + 1), Dot(x, Power(h, k + 1))) == Scaled(h, Step(h, v, x), k)
  {
    hide Dot, Power, Xor;
    XorWord(v, x);
    DotDistributes(v, x, Power(h, k + 1));
    if k == 0 {
      assert Power(h, 1) == h by { PowerOne(h); }
    } else {
      PowerAdd(h, 1, k);
      PowerOne(h);
      DotAssociates(Xor(v, x), h, Power(h, k));
    }
  }

  lemma PowerOne(h: u128)
    ensures Power(h, 1) == h
  {
  }

  /** x_1 h^n + x_2 h^(n-1) + ... + x_n h. */
  ghost function PowerSum(h: u128, xs: seq<u128>): u128
    decreases |xs|
  {
    if xs == [] then 0
    else
      XorWord(Dot(xs[0], Power(h, |xs|)), PowerSum(h, xs[1..]));
      Xor(Dot(xs[0], Power(h, |xs|)), PowerSum(h, xs[1..]))
  }

  /** The recurrence is the polynomial in h, for every number of blocks. */
  lemma {:induction false} HornerIsPowerSum(h: u128, y: u128, xs: seq<u128>)
    ensures Horner(h, y, xs) == Xor(Scaled(h, y, |xs|), PowerSum(h, xs))
    decreases |xs|
  {
    hide Dot, Power, Step, Scaled, Xor;
    if xs == [] {
      ScaledByNothing(h, y);
      XorCommutes(y, 0);
      XorZero(y);
    } else {
      var v := Step(h, y, xs[0]);
      HornerIsPowerSum(h, v, xs[1..]);
      ScaledStep(h, y, xs[0], |xs| - 1);
      XorAssociates(Scaled(h, y, |xs|), Dot(xs[0], Power(h, |xs|)), PowerSum(h, xs[1..]));
    }
  }

  lemma ScaledByNothing(h: u128, v: u128)
    ensures Scaled(h, v, 0) == v
  {
  }

  // ---------------------------------------------------------------------------
  // GHASH as NIST SP 800-38D defines it
  // ---------------------------------------------------------------------------

  /** R of section 6.3: 11100001 followed by 120 zeros. A 128-bit string is read
      as the number whose most significant bit is the first bit of the string. */
  const R: nat := 0xE100_0000_0000_0000_0000_0000_0000_0000

  /** V_{i+1} from V_i. */
  function NextV(v: nat): nat { if v % 2 == 1 then Xor(v / 2, R) else v / 2 }

  /** Steps i to 127 of Algorithm 1; bit x_i of the string is bit 127 - i of x. */
  function MulFrom(x: nat, v: nat, z: nat, i: nat): nat
    decreases 128 - i, x, v, z
  {
    if i >= 128 then z
    else MulFrom(x, NextV(v), if Bit(x, 127 - i) then Xor(z, v) else z, i + 1)
  }

  /** The block product of section 6.3. */
  function GhashMul(x: nat, y: nat): nat { MulFrom(x, y, 0, 0) }

  /** GHASH of section 6.4, from accumulator y. */
  function Ghash(h: nat, y: nat, xs: seq<u128>): nat
    decreases |xs|
  {
    if xs == [] then y else Ghash(h, GhashMul(Xor(y, xs[0]), h), xs[1..])
  }

  /** The shift by one place in the GHASH bit order is division by x. */
  lemma NextVIsDivX(v: nat)
    ensures NextV(v) == DivX(v)
  {
    hide Xor;
    assert P / 2 == R;
    XorHalves(v, P);
  }

  lemma NextVFits(v: u128)
    ensures NextV(v) < TWO128
  {
    hide Xor;
    XorWord(v / 2, R);
  }

  /** The bits of x that steps 128 - n to 127 still have to process. */
  lemma TopBitOfTrunc(x: nat, n: nat)
    ensures Trunc(x, n + 1) == Xor(if Bit(x, n) then Shl(1, n) else 0, Trunc(x, n))
  {
    hide Xor, Shl, Trunc;
    var b := if Bit(x, n) then Shl(1, n) else 0;
    BitFacts();
    forall i: nat ensures Bit(Trunc(x, n + 1), i) == Bit(Xor(b, Trunc(x, n)), i) {
      if i >= n { BitOfOne(i - n); }
    }
    SameBits(Trunc(x, n + 1), Xor(b, Trunc(x, n)));
  }

  /** With n = 128 - i bits of x left, x^(n-1) times the result is
      x^(n-1) * z + (x mod x^n) * v. */
  lemma {:induction false} MulFromMeaning(x: nat, v: nat, z: nat, i: nat)
    requires i < 128
    ensures Congruent(Shl(MulFrom(x, v, z, i), 127 - i), Xor(Shl(z, 127 - i), Clmul(Trunc(x, 128 - i), v)))
    decreases 128 - i
  {
    hide Congruent, Shl, Clmul, Xor, Trunc, Bit, NextV;
    var n := 127 - i;
    var z' := if Bit(x, n) then Xor(z, v) else z;
    var r := MulFrom(x, v, z, i);
    var low := Trunc(x, n);
    SelectedTerm(x, v, z, n);
    if n == 0 {
      assert r == MulFrom(x, NextV(v), z', 128) == z';
      TruncZero(x);
      ClmulZeroOne(v);
      XorZero(Shl(z', 0));
      CongruentSelf(Shl(r, 0));
    } else {
      MulFromMeaning(x, NextV(v), z', i + 1);
      NextVIsDivX(v);
      DivXDivides(v, 0);
      RaiseByOne(r, z', low, NextV(v), v, n);
    }
  }

  lemma TruncZero(x: nat)
    ensures Trunc(x, 0) == 0
  {
  }

  /** The bit handled by one step, moved from z into the product. */
  lemma SelectedTerm(x: nat, v: nat, z: nat, n: nat)
    ensures var z' := if Bit(x, n) then Xor(z, v) else z;
            Xor(Shl(z', n), Clmul(Trunc(x, n), v)) == Xor(Shl(z, n), Clmul(Trunc(x, n + 1), v))
  {
    hide *;
    var low := Trunc(x, n);
    var b := if Bit(x, n) then Shl(1, n) else 0;
    TopBitOfTrunc(x, n);
    ClmulDistributesLeft(b, low, v);
    ClmulZeroOne(v);
    if Bit(x, n) {
      ClmulShl(1, v, n);
      ShlXor(z, v, n);
      XorAssociates(Shl(z, n), Shl(v, n), Clmul(low, v));
    } else {
      XorZero(Clmul(low, v));
    }
  }

  /** Multiplying the induction hypothesis by x. */
  lemma RaiseByOne(r: nat, z: nat, low: nat, v': nat, v: nat, n: nat)
    requires n > 0
    requires Congruent(Shl(r, n - 1), Xor(Shl(z, n - 1), Clmul(low, v')))
    requires Congruent(2 * v', v)
    ensures Congruent(Shl(r, n), Xor(Shl(z, n), Clmul(low, v)))
  {
    hide Congruent, Xor, Clmul;
    var s, t := Shl(z, n - 1), Clmul(low, v');
    CongruentShl(Shl(r, n - 1), Xor(s, t), 1);
    ShlOne(Shl(r, n - 1));
    ShlOne(Xor(s, t));
    XorDouble(s, t);
    ClmulDouble(low, v');
    CongruentClmul(2 * v', v, low);
    CongruentSelf(Shl(z, n));
    CongruentXor(Shl(z, n), Shl(z, n), Clmul(low, 2 * v'), Clmul(low, v));
    CongruentTransitive(Shl(r, n), Xor(Shl(z, n), Clmul(low, 2 * v')), Xor(Shl(z, n), Clmul(low, v)));
  }

  lemma ShlOne(a: nat)
    ensures Shl(a, 1) == 2 * a
  {
  }

  lemma TruncWord(x: u128)
    ensures Trunc(x, 128) == x
  {
    hide Trunc;
    PowValues();
    FitsIffDegreeBelow(x, 128);
    BitFacts();
    SameBits(Trunc(x, 128), x);
  }

  /** x^127 times the GHASH product is the product of the operands. */
  lemma GhashMulMeaning(x: u128, h: nat)
    ensures Congruent(Shl(GhashMul(x, h), 127), Clmul(x, h))
  {
    hide Congruent, Shl, Clmul, Xor, Trunc, MulFrom;
    MulFromMeaning(x, h, 0, 0);
    TruncWord(x);
    ShlZero(127);
    XorZero(Clmul(x, h));
  }

  lemma {:induction false} ShlZero(k: nat)
    ensures Shl(0, k) == 0
    decreases k
  {
    if k > 0 { ShlZero(k - 1); }
  }

  lemma {:induction false} MulFromFits(x: nat, v: u128, z: u128, i: nat)
    ensures MulFrom(x, v, z, i) < TWO128
    decreases 128 - i
  {
    hide NextV, Xor, Bit;
    if i < 128 {
      NextVFits(v);
      XorWord(z, v);
      MulFromFits(x, NextV(v), if Bit(x, 127 - i) then Xor(z, v) else z, i + 1);
    }
  }

  // ---------------------------------------------------------------------------
  // The bridge
  // ---------------------------------------------------------------------------

  /** The one-bit shift of the hash key on entry to the POLYVAL domain: the bit
      shifted out of the 128-bit word comes back as the taps. */
  function Mulx(v: u128): nat {
    var hi := Shr(v, 127);
    Xor(Trunc(Shl(v, 1), 128), Xor(Xor(Xor(hi, Shl(hi, 127)), Shl(hi, 126)), Shl(hi, 121)))
  }

  lemma TopBit(v: u128)
    ensures Shr(v, 127) == 0 || Shr(v, 127) == 1
  {
    hide Shr;
    PowValues();
    ShrFits(v, 127, 1);
    assert Pow2(1) == 2;
  }

  /** What the carry adds: nothing, or the modulus without its leading term. */
  lemma CarryTerm(hi: nat)
    requires hi == 0 || hi == 1
    ensures Xor(Xor(Xor(Xor(hi, Shl(hi, 127)), Shl(hi, 126)), Shl(hi, 121)), Shl(hi, 128)) == Clmul(hi, P)
  {
    hide Xor, Shl, Clmul, Bit;
    ClmulModulus(hi);
    ClmulTaps(hi);
    BitFacts();
    var taps := Xor(Xor(Shl(hi, 57), Shl(hi, 62)), Shl(hi, 63));
    SameBits(Xor(Xor(Xor(Xor(hi, Shl(hi, 127)), Shl(hi, 126)), Shl(hi, 121)), Shl(hi, 128)),
             Xor(Xor(hi, Shl(taps, 64)), Shl(hi, 128)));
  }

  lemma SplitAt(v: nat, k: nat)
    ensures v == Xor(Trunc(v, k), Shl(Shr(v, k), k))
  {
    hide Xor, Shl, Shr, Trunc, Bit;
    BitFacts();
    SameBits(v, Xor(Trunc(v, k), Shl(Shr(v, k), k)));
  }

  lemma ShlThenShr(v: nat)
    ensures Shr(Shl(v, 1), 128) == Shr(v, 127)
  {
    hide Shl, Shr, Bit;
    BitFacts();
    SameBits(Shr(Shl(v, 1), 128), Shr(v, 127));
  }

  /** Mulx multiplies by x and stays reduced. */
  lemma MulxMeaning(v: u128)
    ensures Mulx(v) < TWO128
    ensures Congruent(Mulx(v), Shl(v, 1))
  {
    hide Xor, Shl, Shr, Trunc, Clmul;
    var hi := Shr(v, 127);
    var d := Shl(v, 1);
    var k := Xor(Xor(Xor(hi, Shl(hi, 127)), Shl(hi, 126)), Shl(hi, 121));
    TopBit(v);
    CarryTerm(hi);
    SplitAt(d, 128);
    ShlThenShr(v);
    var t := Trunc(d, 128);
    var u := Shl(hi, 128);
    XorSwapMiddle(t, k, t, u);
    XorSelf(t);
    XorZero(Xor(k, u));
    assert Xor(Mulx(v), d) == Clmul(hi, P);
    MulxFits(v);
  }

  lemma MulxFits(v: u128)
    ensures Mulx(v) < TWO128
  {
    hide Xor, Shl, Shr, Trunc, Bit;
    TopBit(v);
    var hi := Shr(v, 127);
    PowValues();
    assert Pow2(1) == 2;
    PowMonotone(1, 128);
    FitsIffDegreeBelow(hi, 1);
    BitFacts();
    FitsIffDegreeBelow(Mulx(v), 128);
  }

  /** The one-block bridge: the SP 800-38D product by h is dot with mulx(h). */
  lemma GhashMulIsDot(x: u128, h: u128)
    ensures Mulx(h) < TWO128
    ensures GhashMul(x, h) == Dot(x, Mulx(h))
  {
    hide Congruent, Shl, Clmul, MulFrom, Mulx, Xor;
    MulxMeaning(h);
    var g := GhashMul(x, h);
    MulFromFits(x, h, 0, 0);
    GhashMulMeaning(x, h);
    CongruentShl(Shl(g, 127), Clmul(x, h), 1);
    ShlShl(g, 127, 1);
    ClmulShl(x, h, 1);
    CongruentSymmetric(Mulx(h), Shl(h, 1));
    CongruentClmul(Shl(h, 1), Mulx(h), x);
    CongruentTransitive(Shl(g, 128), Clmul(x, Shl(h, 1)), Clmul(x, Mulx(h)));
    DotUnique(x, Mulx(h), g);
  }

  /** GHASH over any number of blocks is POLYVAL under the shifted key. */
  lemma {:induction false} GhashIsHorner(h: u128, y: u128, xs: seq<u128>)
    ensures Mulx(h) < TWO128
    ensures Ghash(h, y, xs) == Horner(Mulx(h), y, xs)
    decreases |xs|
  {
    hide Mulx, GhashMul, Xor;
    MulxMeaning(h);
    if xs != [] {
      XorWord(y, xs[0]);
      GhashMulIsDot(Xor(y, xs[0]), h);
      GhashIsHorner(h, GhashMul(Xor(y, xs[0]), h), xs[1..]);
    }
  }
}

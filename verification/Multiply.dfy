/**
 The carryless multiply and Montgomery reduction sequences of the two GHASH
 backends. Each backend splits a 128 x 128 product into three 128-bit partial
 products that can be summed over several blocks before one reduction.
 */
module Multiply {
  import opened Gf2
  import opened Field
  import opened Lanes

  /** The reduction constant of the aarch64 backend: the taps in both lanes. */
  const POLY: nat := 0xC200_0000_0000_0000_C200_0000_0000_0000

  /** High, middle and low Karatsuba products. */
  datatype Partials = Partials(h: nat, m: nat, l: nat) {
    /** The 256-bit product the three parts stand for. */
    function Value(): nat {
      Xor(Xor(l, Shl(Xor(m, Xor(h, l)), 64)), Shl(h, 128))
    }

    function Plus(q: Partials): Partials { Partials(Xor(h, q.h), Xor(m, q.m), Xor(l, q.l)) }

    ghost predicate Fits() { h < TWO128 && m < TWO128 && l < TWO128 }
  }

  // ---------------------------------------------------------------------------
  // The aarch64 sequence
  // ---------------------------------------------------------------------------

  function Karatsuba1(x: u128, y: u128): Partials {
    Partials(Pmull2(x, y), Pmull(Xor(x, Ext8(x, x)), Xor(y, Ext8(y, y))), Pmull(x, y))
  }

  /** Recombines into the high and low halves of the product. */
  function Karatsuba2(p: Partials): (nat, nat) {
    var t0 := Xor(p.m, Ext8(p.l, p.h));
    var t1 := Xor(p.h, p.l);
    var t := Xor(t0, t1);
    var x01 := Ext8(Ext8(p.l, p.l), t);
    var x23 := Ext8(t, Ext8(p.h, p.h));
    (x23, x01)
  }

  function MontReduce(x23: nat, x01: nat): nat {
    var a := Pmull(x01, POLY);
    var b := Xor(x01, Ext8(a, a));
    var c := Pmull2(b, POLY);
    Xor(x23, Xor(c, b))
  }

  // ---------------------------------------------------------------------------
  // The x86 sequence
  // ---------------------------------------------------------------------------

  function ClmulWideX86(x: u128, h: u128): Partials {
    var h1 := Shuffle0E(h);
    var h2 := Xor(h, h1);
    var y1 := Shuffle0E(x);
    var y2 := Xor(x, y1);
    var t0 := Pmull(x, h);
    var t1 := Pmull2(x, h);
    var t2 := Pmull(y2, h2);
    Partials(t1, t2, t0)
  }

  function ReduceX86(p: Partials): nat {
    var t0, t1 := p.l, p.h;
    var t2 := Xor(p.m, Xor(t0, t1));
    var v0 := t0;
    var v1 := Xor(Shuffle0E(t0), t2);
    var v2 := Xor(t1, Shuffle0E(t2));
    var v3 := Shuffle0E(t1);
    var v2' := Xor5(v2, v0, Srlq(v0, 1), Srlq(v0, 2), Srlq(v0, 7));
    var v1' := Xor4(v1, Sllq(v0, 63), Sllq(v0, 62), Sllq(v0, 57));
    var v3' := Xor5(v3, v1', Srlq(v1', 1), Srlq(v1', 2), Srlq(v1', 7));
    var v2'' := Xor4(v2', Sllq(v1', 63), Sllq(v1', 62), Sllq(v1', 57));
    Unpacklo(v2'', v3')
  }

  // ---------------------------------------------------------------------------
  // Karatsuba
  // ---------------------------------------------------------------------------

  lemma PolyLanes()
    ensures Lo(POLY) == TAPS && Hi(POLY) == TAPS
  {
    hide Lo, Hi, Vec;
    VecIsSum(TAPS, TAPS);
    assert POLY == Vec(TAPS, TAPS);
    LaneFacts(TAPS, TAPS);
  }

  /** (x0 + x1)(y0 + y1) gives the middle coefficient of x * y. */
  lemma KaratsubaMiddle(x0: nat, x1: nat, y0: nat, y1: nat)
    ensures Xor(Clmul(Xor(x0, x1), Xor(y0, y1)), Xor(Clmul(x1, y1), Clmul(x0, y0)))
         == Xor(Clmul(x0, y1), Clmul(x1, y0))
  {
    hide *;
    ClmulDistributesLeft(x0, x1, Xor(y0, y1));
    ClmulDistributes(x0, y0, y1);
    ClmulDistributes(x1, y0, y1);
    var a, b, c, d := Clmul(x0, y0), Clmul(x0, y1), Clmul(x1, y0), Clmul(x1, y1);
    BitFacts();
    SameBits(Xor(Xor(Xor(a, b), Xor(c, d)), Xor(d, a)), Xor(b, c));
  }

  /** The schoolbook product over lanes. */
  lemma LaneProduct(x0: nat, x1: nat, y0: nat, y1: nat)
    ensures Clmul(Vec(x0, x1), Vec(y0, y1))
         == Xor(Xor(Clmul(x0, y0), Shl(Xor(Clmul(x0, y1), Clmul(x1, y0)), 64)), Shl(Clmul(x1, y1), 128))
  {
    hide Xor, Shl, Clmul;
    var X1, Y1 := Shl(x1, 64), Shl(y1, 64);
    ClmulDistributesLeft(x0, X1, Xor(y0, Y1));
    ClmulDistributes(x0, y0, Y1);
    ClmulDistributes(X1, y0, Y1);
    ClmulShl(x0, y1, 64);
    ClmulShl(x1, y0, 64);
    ClmulShl(x1, Y1, 64);
    ClmulShl(x1, y1, 64);
    ShlShl(Clmul(x1, y1), 64, 64);
    var a, b, c, d := Clmul(x0, y0), Clmul(x0, y1), Clmul(x1, y0), Clmul(x1, y1);
    ShlXor(b, c, 64);
    XorAssociates(a, Shl(b, 64), Xor(Shl(c, 64), Shl(d, 128)));
    XorAssociates(Shl(b, 64), Shl(c, 64), Shl(d, 128));
    XorAssociates(a, Xor(Shl(b, 64), Shl(c, 64)), Shl(d, 128));
  }

  lemma FoldedLanes(x: u128)
    ensures Lo(Xor(x, Ext8(x, x))) == Xor(Lo(x), Hi(x))
    ensures Lo(Xor(x, Shuffle0E(x))) == Xor(Lo(x), Hi(x))
  {
    hide Xor, Shr, Shl, Trunc, Bit;
    PowValues();
    LaneFits(x);
    FitsIffDegreeBelow(Hi(x), 64);
    BitFacts();
    SameBits(Lo(Xor(x, Ext8(x, x))), Xor(Lo(x), Hi(x)));
    SameBits(Lo(Xor(x, Shuffle0E(x))), Xor(Lo(x), Hi(x)));
  }

  lemma LaneProductFits(a: nat, b: nat)
    requires a < TWO64 && b < TWO64
    ensures Clmul(a, b) < TWO128
  {
    hide *;
    PowValues();
    ClmulFits(a, b, 64, 64);
  }

  /** Both backends form the same three partial products, and these stand for the
      carryless product of the operands. */
  lemma PartialsAreTheProduct(x: u128, y: u128)
    ensures Karatsuba1(x, y) == ClmulWideX86(x, y)
    ensures Karatsuba1(x, y).Fits()
    ensures Karatsuba1(x, y).Value() == Clmul(x, y)
  {
    hide Xor, Shl, Shr, Trunc, Clmul, Ext8, Shuffle0E, Lo, Hi;
    FoldedLanes(x);
    FoldedLanes(y);
    KaratsubaMiddle(Lo(x), Hi(x), Lo(y), Hi(y));
    LaneProduct(Lo(x), Hi(x), Lo(y), Hi(y));
    VecOfLanes(x);
    VecOfLanes(y);
    LaneFits(x);
    LaneFits(y);
    LaneProductFits(Lo(x), Lo(y));
    LaneProductFits(Hi(x), Hi(y));
    PowValues();
    XorFits(Lo(x), Hi(x), 64);
    XorFits(Lo(y), Hi(y), 64);
    LaneProductFits(Xor(Lo(x), Hi(x)), Xor(Lo(y), Hi(y)));
  }

  lemma HalvesFit(p: Partials)
    requires p.Fits()
    ensures Karatsuba2(p).0 < TWO128 && Karatsuba2(p).1 < TWO128
  {
    hide Xor, Shl, Shr, Trunc;
    var t := Xor(Xor(p.m, Ext8(p.l, p.h)), Xor(p.h, p.l));
    LaneFits(p.l);
    LaneFits(p.h);
    VecFits(Hi(p.l), Lo(p.h));
    XorWord(p.m, Ext8(p.l, p.h));
    XorWord(p.h, p.l);
    XorWord(Xor(p.m, Ext8(p.l, p.h)), Xor(p.h, p.l));
    LaneFits(t);
    VecFits(Hi(p.l), Lo(p.l));
    VecFits(Hi(p.h), Lo(p.h));
    LaneFits(Ext8(p.l, p.l));
    LaneFits(Ext8(p.h, p.h));
    VecFits(Hi(Ext8(p.l, p.l)), Lo(t));
    VecFits(Hi(t), Lo(Ext8(p.h, p.h)));
  }

  /** Recombination only moves the parts into place. */
  lemma Karatsuba2Recombines(p: Partials)
    requires p.Fits()
    ensures var (x23, x01) := Karatsuba2(p);
            x23 < TWO128 && x01 < TWO128 && Xor(x01, Shl(x23, 128)) == p.Value()
  {
    hide Xor, Shl, Shr, Trunc, Bit;
    HalvesFit(p);
    PowValues();
    FitsIffDegreeBelow(p.h, 128);
    FitsIffDegreeBelow(p.m, 128);
    FitsIffDegreeBelow(p.l, 128);
    BitFacts();
    SameBits(Xor(Karatsuba2(p).1, Shl(Karatsuba2(p).0, 128)), p.Value());
  }

  /** The two Montgomery folds cancel the low 128 bits: with u = the low lane of
      x01 and w = the high lane after the first fold, the multiple (u + w x^64) p
      is exactly what was added. */
  lemma FoldIdentity(x01: nat, a: nat, c: nat, b: nat, m: nat)
    requires b == Xor(x01, Ext8(a, a))
    requires m == Vec(Lo(x01), Hi(b))
    requires x01 < TWO128 && a < TWO128
    ensures Xor(Shl(Xor(c, b), 128), x01)
         == Xor(Xor(m, Shl(Xor(a, Shl(c, 64)), 64)), Shl(m, 128))
  {
    hide Xor, Shl, Shr, Trunc, Bit;
    PowValues();
    FitsIffDegreeBelow(x01, 128);
    FitsIffDegreeBelow(a, 128);
    BitFacts();
    SameBits(Xor(Shl(Xor(c, b), 128), x01), Xor(Xor(m, Shl(Xor(a, Shl(c, 64)), 64)), Shl(m, 128)));
  }

  /** The aarch64 reduction is the Montgomery reduction of the field. */
  lemma MontReduceIsReduced(x23: u128, x01: u128)
    ensures IsReduced(Xor(x01, Shl(x23, 128)), MontReduce(x23, x01))
  {
    hide Xor, Shl, Clmul, Ext8, Lo, Hi;
    PolyLanes();
    LaneFits(x01);
    var a := Pmull(x01, POLY);
    LaneProductFits(Lo(x01), TAPS);
    var b := Xor(x01, Ext8(a, a));
    var c := Pmull2(b, POLY);
    LaneFits(a);
    assert b < TWO128 by { VecFits(Hi(a), Lo(a)); ExtIsVec(a); XorWord(x01, Ext8(a, a)); }
    LaneFits(b);
    LaneProductFits(Hi(b), TAPS);
    var m := Vec(Lo(x01), Hi(b));
    var r := MontReduce(x23, x01);
    XorWord(c, b);
    XorWord(x23, Xor(c, b));
    FoldIdentity(x01, a, c, b, m);
    ClmulModulus(m);
    ClmulDistributesLeft(Lo(x01), Shl(Hi(b), 64), TAPS);
    ClmulShl(Hi(b), TAPS, 64);
    CancelHigh(x23, Xor(c, b), x01);
    assert Xor(Shl(r, 128), Xor(x01, Shl(x23, 128))) == Clmul(m, P);
  }

  lemma ExtIsVec(a: nat)
    ensures Ext8(a, a) == Vec(Hi(a), Lo(a))
  {
  }

  lemma CancelHigh(x23: nat, y: nat, x01: nat)
    ensures Xor(Shl(Xor(x23, y), 128), Xor(x01, Shl(x23, 128))) == Xor(Shl(y, 128), x01)
  {
    hide Xor, Shl;
    ShlXor(x23, y, 128);
    var h, z := Shl(x23, 128), Shl(y, 128);
    XorCommutes(h, z);
    XorCommutes(x01, h);
    XorSwapMiddle(z, h, h, x01);
    XorAssociates(z, h, Xor(h, x01));
    XorGroup(h, x01, 0);
  }

  // ---------------------------------------------------------------------------
  // The x86 reduction
  // ---------------------------------------------------------------------------

  /** One x86 fold in its low lanes: three left shifts give the low lane of
      u * TAPS and three right shifts its high lane. */
  lemma ShiftFold(v: nat, e: nat)
    ensures Lo(Xor4(e, Sllq(v, 63), Sllq(v, 62), Sllq(v, 57))) == Xor(Lo(e), Lo(Clmul(Lo(v), TAPS)))
    ensures Lo(Xor5(e, v, Srlq(v, 1), Srlq(v, 2), Srlq(v, 7))) == Xor(Lo(e), Xor(Lo(v), Hi(Clmul(Lo(v), TAPS))))
  {
    hide Xor, Shl, Shr, Trunc, Bit, Clmul;
    ClmulTaps(Lo(v));
    BitFacts();
    SameBits(Lo(Xor4(e, Sllq(v, 63), Sllq(v, 62), Sllq(v, 57))), Xor(Lo(e), Lo(Clmul(Lo(v), TAPS))));
    SameBits(Lo(Xor5(e, v, Srlq(v, 1), Srlq(v, 2), Srlq(v, 7))), Xor(Lo(e), Xor(Lo(v), Hi(Clmul(Lo(v), TAPS)))));
  }

  /** The low lanes that the x86 sequence starts from are the lanes of the
      recombined product. First the low half ... */
  lemma LimbZero(p: Partials)
    requires p.Fits()
    ensures Lo(p.l) == Lo(Karatsuba2(p).1)
  {
    hide Xor, Shl, Shr, Trunc, Bit;
    PowValues();
    FitsIffDegreeBelow(p.l, 128);
    BitFacts();
    SameBits(Lo(p.l), Lo(Karatsuba2(p).1));
  }

  lemma LimbOne(p: Partials)
    requires p.Fits()
    ensures Lo(Xor(Shuffle0E(p.l), Xor(p.m, Xor(p.l, p.h)))) == Hi(Karatsuba2(p).1)
  {
    hide Xor, Shl, Shr, Trunc, Bit;
    PowValues();
    FitsIffDegreeBelow(p.l, 128);
    BitFacts();
    SameBits(Lo(Xor(Shuffle0E(p.l), Xor(p.m, Xor(p.l, p.h)))), Hi(Karatsuba2(p).1));
  }

  /** ... and then the high half. */
  lemma LimbTwo(p: Partials)
    requires p.Fits()
    ensures Lo(Xor(p.h, Shuffle0E(Xor(p.m, Xor(p.l, p.h))))) == Lo(Karatsuba2(p).0)
  {
    hide Xor, Shl, Shr, Trunc, Bit;
    PowValues();
    FitsIffDegreeBelow(p.h, 128);
    FitsIffDegreeBelow(p.m, 128);
    FitsIffDegreeBelow(p.l, 128);
    BitFacts();
    SameBits(Lo(Xor(p.h, Shuffle0E(Xor(p.m, Xor(p.l, p.h))))), Lo(Karatsuba2(p).0));
  }

  lemma LimbThree(p: Partials)
    requires p.Fits()
    ensures Lo(Shuffle0E(p.h)) == Hi(Karatsuba2(p).0)
  {
    hide Xor, Shl, Shr, Trunc, Bit;
    PowValues();
    FitsIffDegreeBelow(p.h, 128);
    FitsIffDegreeBelow(p.m, 128);
    FitsIffDegreeBelow(p.l, 128);
    BitFacts();
    SameBits(Lo(Shuffle0E(p.h)), Hi(Karatsuba2(p).0));
  }

  /** The lanes of the aarch64 result, in terms of the two folds. */
  lemma MontReduceLanes(x23: u128, x01: u128)
    ensures var a := Clmul(Lo(x01), TAPS);
            var w := Xor(Hi(x01), Lo(a));
            var c := Clmul(w, TAPS);
            && Lo(MontReduce(x23, x01)) == Xor(Xor(Lo(x23), Xor(Lo(x01), Hi(a))), Lo(c))
            && Hi(MontReduce(x23, x01)) == Xor(Hi(x23), Xor(w, Hi(c)))
  {
    hide Xor, Clmul, Lo, Hi, Vec;
    var a := Clmul(Lo(x01), TAPS);
    var w := Xor(Hi(x01), Lo(a));
    var c := Clmul(w, TAPS);
    PolyLanes();
    LaneFits(x01);
    LaneProductFits(Lo(x01), TAPS);
    LaneFits(a);
    LaneFacts(Hi(a), Lo(a));
    var b := Xor(x01, Ext8(a, a));
    LanesOfXor(x01, Ext8(a, a));
    LanesOfXor(c, b);
    LanesOfXor(x23, Xor(c, b));
    XorCommutes(Lo(c), Lo(b));
    XorCommutes(Hi(c), Hi(b));
    XorAssociates(Lo(x23), Lo(b), Lo(c));
  }

  /** The two backends reduce to the same register. */
  lemma ReductionsAgree(p: Partials)
    requires p.Fits()
    ensures var (x23, x01) := Karatsuba2(p);
            x23 < TWO128 && x01 < TWO128 && ReduceX86(p) == MontReduce(x23, x01)
  {
    hide Xor, Clmul, Lo, Hi, Vec, Shuffle0E, Sllq, Srlq, Xor4, Xor5, Karatsuba2, MontReduce;
    Karatsuba2Recombines(p);
    var (x23, x01) := Karatsuba2(p);
    LimbZero(p);
    LimbOne(p);
    LimbTwo(p);
    LimbThree(p);
    var t2 := Xor(p.m, Xor(p.l, p.h));
    var v0 := p.l;
    var v1 := Xor(Shuffle0E(p.l), t2);
    var v2 := Xor(p.h, Shuffle0E(t2));
    ShiftFold(v0, v1);
    ShiftFold(v0, v2);
    var v1' := Xor4(v1, Sllq(v0, 63), Sllq(v0, 62), Sllq(v0, 57));
    var v2' := Xor5(v2, v0, Srlq(v0, 1), Srlq(v0, 2), Srlq(v0, 7));
    ShiftFold(v1', Shuffle0E(p.h));
    ShiftFold(v1', v2');
    MontReduceLanes(x23, x01);
    VecOfLanes(MontReduce(x23, x01));
  }

  // ---------------------------------------------------------------------------
  // Both backends compute dot
  // ---------------------------------------------------------------------------

  datatype Target = Aarch64 | X86

  function Wide(target: Target, x: u128, y: u128): Partials {
    match target
    case Aarch64 => Karatsuba1(x, y)
    case X86 => ClmulWideX86(x, y)
  }

  function Reduce(target: Target, p: Partials): nat {
    match target
    case Aarch64 => var (x23, x01) := Karatsuba2(p); MontReduce(x23, x01)
    case X86 => ReduceX86(p)
  }

  /** Reducing any sum of partial products is the field's Montgomery reduction of
      the value they stand for, on either target. */
  lemma ReduceIsReduced(target: Target, p: Partials)
    requires p.Fits()
    ensures IsReduced(p.Value(), Reduce(target, p))
  {
    hide Karatsuba2, MontReduce, ReduceX86, IsReduced, Partials.Value;
    Karatsuba2Recombines(p);
    var (x23, x01) := Karatsuba2(p);
    MontReduceIsReduced(x23, x01);
    ReductionsAgree(p);
  }

  /** The one-block product on either target is dot, for all operands. */
  lemma MultiplyIsDot(target: Target, x: u128, y: u128)
    ensures Reduce(target, Wide(target, x, y)) == Dot(x, y)
  {
    hide Reduce, Karatsuba1, ClmulWideX86, IsReduced, Partials.Value, Partials.Fits;
    PartialsAreTheProduct(x, y);
    ReduceIsReduced(target, Karatsuba1(x, y));
    DotUnique(x, y, Reduce(target, Wide(target, x, y)));
  }

  /** Partial products add up: the value of a sum is the sum of the values. */
  lemma ValueOfSum(p: Partials, q: Partials)
    ensures p.Plus(q).Value() == Xor(p.Value(), q.Value())
    ensures p.Fits() && q.Fits() ==> p.Plus(q).Fits()
  {
    hide Xor, Shl, Bit;
    BitFacts();
    SameBits(p.Plus(q).Value(), Xor(p.Value(), q.Value()));
    if p.Fits() && q.Fits() {
      XorWord(p.h, q.h);
      XorWord(p.m, q.m);
      XorWord(p.l, q.l);
    }
  }
}

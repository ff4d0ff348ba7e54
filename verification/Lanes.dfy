/**
 128-bit registers as pairs of 64-bit lanes, and the register instructions the
 two GHASH backends use on them.
 */
module Lanes {
  import opened Gf2
  import opened Field

  function Lo(v: nat): nat { Trunc(v, 64) }

  function Hi(v: nat): nat { Shr(v, 64) }

  /** The register with the given low and high 64-bit lanes. */
  function Vec(lo: nat, hi: nat): nat { Xor(lo, Shl(hi, 64)) }

  lemma LaneFits(v: nat)
    ensures Lo(v) < TWO64
    ensures v < TWO128 ==> Hi(v) < TWO64
  {
    hide Trunc, Shr;
    TruncFits(v, 64);
    PowValues();
    if v < TWO128 { ShrFits(v, 64, 64); }
  }

  lemma VecFits(lo: nat, hi: nat)
    requires lo < TWO64 && hi < TWO64
    ensures Vec(lo, hi) < TWO128
  {
    hide Xor, Shl;
    PowValues();
    ShlFits(hi, 64, 64);
    PowMonotone(64, 128);
    XorFits(lo, Shl(hi, 64), 128);
  }

  /** The bits of the lanes, in the style of BitFacts. */
  lemma LaneFacts(lo: nat, hi: nat)
    requires lo < TWO64 && hi < TWO64
    ensures Lo(Vec(lo, hi)) == lo
    ensures Hi(Vec(lo, hi)) == hi
  {
    hide Xor, Shl, Shr, Trunc;
    PowValues();
    FitsIffDegreeBelow(lo, 64);
    FitsIffDegreeBelow(hi, 64);
    BitFacts();
    SameBits(Lo(Vec(lo, hi)), lo);
    SameBits(Hi(Vec(lo, hi)), hi);
  }

  lemma VecIsSum(lo: nat, hi: nat)
    requires lo < TWO64
    ensures Vec(lo, hi) == lo + TWO64 * hi
  {
    hide Xor;
    PowValues();
    ShlBy64(hi, 0);
    XorJoin(lo, hi, 64);
  }

  lemma LanesOfXor(a: nat, b: nat)
    ensures Lo(Xor(a, b)) == Xor(Lo(a), Lo(b))
    ensures Hi(Xor(a, b)) == Xor(Hi(a), Hi(b))
  {
    hide Xor, Shr, Trunc, Bit;
    BitFacts();
    SameBits(Lo(Xor(a, b)), Xor(Lo(a), Lo(b)));
    SameBits(Hi(Xor(a, b)), Xor(Hi(a), Hi(b)));
  }

  lemma VecOfLanes(v: nat)
    ensures Vec(Lo(v), Hi(v)) == v
  {
    hide Xor, Shr, Shl, Trunc, Bit;
    BitFacts();
    SameBits(Vec(Lo(v), Hi(v)), v);
  }

  // ---------------------------------------------------------------------------
  // aarch64
  // ---------------------------------------------------------------------------

  /** EXT #8: the high lane of a below the low lane of b. */
  function Ext8(a: nat, b: nat): nat { Vec(Hi(a), Lo(b)) }

  /** PMULL: the product of the low lanes. */
  function Pmull(a: nat, b: nat): nat { Clmul(Lo(a), Lo(b)) }

  /** PMULL2: the product of the high lanes. */
  function Pmull2(a: nat, b: nat): nat { Clmul(Hi(a), Hi(b)) }

  // ---------------------------------------------------------------------------
  // x86
  // ---------------------------------------------------------------------------

  /** PSHUFD #0x0E: the high lane moves down; the new high lane is two copies of
      the lowest 32-bit word, which no later step reads. */
  function Shuffle0E(v: nat): nat { Vec(Hi(v), Xor(Trunc(v, 32), Shl(Trunc(v, 32), 32))) }

  /** PSLLQ and PSRLQ: each 64-bit lane shifts on its own. */
  function Sllq(v: nat, k: nat): nat { Vec(Trunc(Shl(Lo(v), k), 64), Trunc(Shl(Hi(v), k), 64)) }

  function Srlq(v: nat, k: nat): nat { Vec(Shr(Lo(v), k), Shr(Hi(v), k)) }

  /** PUNPCKLQDQ: the two low lanes. */
  function Unpacklo(a: nat, b: nat): nat { Vec(Lo(a), Lo(b)) }

  function Xor4(e1: nat, e2: nat, e3: nat, e4: nat): nat { Xor(Xor(e1, e2), Xor(e3, e4)) }

  function Xor5(e1: nat, e2: nat, e3: nat, e4: nat, e5: nat): nat {
    Xor(e1, Xor(Xor(e2, e3), Xor(e4, e5)))
  }
}

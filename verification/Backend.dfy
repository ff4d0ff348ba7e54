/**
 The hashing backend: the ladder of key powers, the one-, four- and eight-block
 accumulator updates, and the loops that interleave counter mode with hashing.
 */
module KeyLadder {
  import opened Field
  import opened Bytes
  import opened Multiply
  import opened Polyval
  import Ctr

  const KEY_POWERS: nat := 8

  const NO_POWERS: seq<u128> := [0, 0, 0, 0, 0, 0, 0, 0]

  type Powers = p: seq<u128> | |p| == KEY_POWERS witness NO_POWERS

  /** pows[i] is the (i+1)-th power of the key. */
  ghost predicate Ladder(pows: Powers) {
    forall i | 0 <= i < KEY_POWERS :: pows[i] == Power(pows[0], i + 1)
  }

  method Mul(target: Target, a: u128, b: u128) returns (r: u128)
    ensures r == Dot(a, b)
  {
    hide Wide, Reduce;
    MultiplyIsDot(target, a, b);
    r := Reduce(target, Wide(target, a, b));
  }

  /** The ladder in the order it is stored. */
  function Rungs(h1: u128, h2: u128, h3: u128, h4: u128, h5: u128, h6: u128, h7: u128, h8: u128): Powers {
    [h1, h2, h3, h4, h5, h6, h7, h8]
  }

  lemma LadderOf(h: u128)
    ensures var pows := Rungs(h, Power(h, 2), Power(h, 3), Power(h, 4),
                              Power(h, 5), Power(h, 6), Power(h, 7), Power(h, 8));
            Ladder(pows) && pows[0] == h
  {
    hide Power;
    PowerOne(h);
    var pows := Rungs(h, Power(h, 2), Power(h, 3), Power(h, 4), Power(h, 5), Power(h, 6), Power(h, 7), Power(h, 8));
    assert pows[0] == Power(h, 1);
    assert pows[1] == Power(h, 2) && pows[2] == Power(h, 3) && pows[3] == Power(h, 4);
    assert pows[4] == Power(h, 5) && pows[5] == Power(h, 6) && pows[6] == Power(h, 7) && pows[7] == Power(h, 8);
  }

  /** The addition chain for the powers one to eight. */
  method KeyPowers(target: Target, h1: u128) returns (pows: Powers)
    ensures Ladder(pows) && pows[0] == h1
  {
    hide *;
    PowerOne(h1);
    var h2 := Mul(target, h1, h1);
    PowerAdd(h1, 1, 1);
    var h3 := Mul(target, h2, h1);
    PowerAdd(h1, 2, 1);
    var h4 := Mul(target, h2, h2);
    PowerAdd(h1, 2, 2);
    var h5 := Mul(target, h4, h1);
    PowerAdd(h1, 4, 1);
    var h6 := Mul(target, h4, h2);
    PowerAdd(h1, 4, 2);
    var h7 := Mul(target, h4, h3);
    PowerAdd(h1, 4, 3);
    var h8 := Mul(target, h4, h4);
    PowerAdd(h1, 4, 4);
    pows := Rungs(h1, h2, h3, h4, h5, h6, h7, h8);
    LadderOf(h1);
  }

  /** GHASH key setup: reverse the hash subkey, shift it into the POLYVAL domain,
      wipe it, and build the ladder. */
  method InitGhashKey(target: Target, subkey: array<byte>) returns (pows: Powers)
    requires subkey.Length == 16
    modifies subkey
    ensures Ladder(pows)
    ensures Mulx(Load(GhashOrder, old(subkey[..]))) < TWO128
    ensures pows[0] == Mulx(Load(GhashOrder, old(subkey[..])))
    ensures subkey[..] == ZERO_BLOCK
  {
    ghost var before: Block := subkey[..];
    ReversedKey(before);
    hide *;
    Ctr.CopyInto(subkey, 0, Reverse(subkey[..]));
    SpliceWhole(before, Reverse(before));
    var h1 := Mulx(FromLe(subkey[..]));
    SpliceWhole(subkey[..], ZERO_BLOCK);
    Ctr.CopyInto(subkey, 0, ZERO_BLOCK);
    pows := KeyPowers(target, h1);
  }

  /** The reversed subkey, read little-endian, is the subkey read big-endian. */
  lemma ReversedKey(subkey: Block)
    ensures FromLe(Reverse(subkey)) == Load(GhashOrder, subkey)
    ensures Mulx(Load(GhashOrder, subkey)) < TWO128
  {
    hide Mulx, FromLe, FromBe;
    LoadFits(GhashOrder, subkey);
    FromBeIsReversedFromLe(subkey);
    MulxMeaning(FromBe(subkey));
  }

  /** One partial product, with the operands in each backend's order. */
  function KeyProduct(target: Target, h: u128, x: u128): Partials {
    match target
    case Aarch64 => Wide(target, h, x)
    case X86 => Wide(target, x, h)
  }

  lemma KeyProductIsReduced(target: Target, h: u128, x: u128)
    ensures KeyProduct(target, h, x).Fits()
    ensures IsReduced(KeyProduct(target, h, x).Value(), Dot(x, h))
  {
    hide Karatsuba1, ClmulWideX86, IsReduced, Partials.Value, Partials.Fits;
    PartialsAreTheProduct(h, x);
    PartialsAreTheProduct(x, h);
    DotCommutes(x, h);
  }

  /** Adding the next block to the unreduced sum, with k powers still to come. */
  lemma AggregateStep(target: Target, h: u128, acc: Partials, v: u128, x: u128, k: nat)
    requires acc.Fits() && IsReduced(acc.Value(), Scaled(h, v, k + 1))
    ensures acc.Plus(KeyProduct(target, Power(h, k + 1), x)).Fits()
    ensures IsReduced(acc.Plus(KeyProduct(target, Power(h, k + 1), x)).Value(), Scaled(h, Step(h, v, x), k))
  {
    hide Partials.Fits, Partials.Value, Partials.Plus, IsReduced, KeyProduct, Scaled, Power, Step;
    var q := KeyProduct(target, Power(h, k + 1), x);
    KeyProductIsReduced(target, Power(h, k + 1), x);
    ValueOfSum(acc, q);
    ReducedXor(acc.Value(), q.Value(), Scaled(h, v, k + 1), Dot(x, Power(h, k + 1)));
    ScaledStep(h, v, x, k);
  }

  /** Folds the blocks into the accumulator with a single reduction: the first
      block meets the highest power and the last block the first power. */
  method Aggregate(target: Target, pows: Powers, y: u128, blocks: seq<u128>) returns (r: u128)
    requires Ladder(pows) && 1 <= |blocks| <= KEY_POWERS
    ensures r == Horner(pows[0], y, blocks)
  {
    hide Partials.Fits, Partials.Value, Partials.Plus, IsReduced, KeyProduct, Scaled, Power, Step, Horner, Reduce;
    ghost var h := pows[0];
    var n := |blocks|;
    XorWord(y, blocks[0]);
    var acc := KeyProduct(target, pows[n - 1], Gf2.Xor(y, blocks[0]));
    FirstProduct(target, h, y, blocks[0], n - 1);
    assert blocks[..1] == [blocks[0]];
    HornerOne(h, y, blocks[0]);
    for j := 1 to n
      invariant acc.Fits()
      invariant IsReduced(acc.Value(), Scaled(h, Horner(h, y, blocks[..j]), n - j))
    {
      AggregateStep(target, h, acc, Horner(h, y, blocks[..j]), blocks[j], n - j - 1);
      assert blocks[..j + 1] == blocks[..j] + [blocks[j]];
      HornerAppend(h, y, blocks[..j], blocks[j]);
      acc := acc.Plus(KeyProduct(target, pows[n - 1 - j], blocks[j]));
    }
    assert blocks[..n] == blocks;
    ScaledByNothing(h, Horner(h, y, blocks));
    ReduceIsReduced(target, acc);
    ReducedUnique(acc.Value(), Reduce(target, acc), Horner(h, y, blocks));
    r := Reduce(target, acc);
  }

  lemma FirstProduct(target: Target, h: u128, y: u128, x: u128, k: nat)
    ensures Gf2.Xor(y, x) < TWO128
    ensures KeyProduct(target, Power(h, k + 1), Gf2.Xor(y, x)).Fits()
    ensures IsReduced(KeyProduct(target, Power(h, k + 1), Gf2.Xor(y, x)).Value(), Scaled(h, Step(h, y, x), k))
  {
    hide Partials.Fits, Partials.Value, IsReduced, KeyProduct, Power, Dot;
    XorWord(y, x);
    KeyProductIsReduced(target, Power(h, k + 1), Gf2.Xor(y, x));
    PowerOne(h);
    if k > 0 {
      PowerAdd(h, 1, k);
      DotAssociates(Gf2.Xor(y, x), h, Power(h, k));
    }
  }
}

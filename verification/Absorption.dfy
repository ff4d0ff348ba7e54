/**
 Absorbing byte strings: the specification of what a hashing section does.
 */
module Absorption {
  import opened Field
  import opened Bytes
  import opened Polyval

  /** One section of hash input, block by block from accumulator y, with the last
      block zero-padded. */
  ghost function Absorb(order: Order, h: u128, y: u128, data: seq<byte>): u128 {
    Horner(h, y, PaddedWords(order, data))
  }

  lemma AbsorbAligned(order: Order, h: u128, y: u128, data: seq<byte>)
    requires |data| % 16 == 0
    ensures Absorb(order, h, y, data) == Horner(h, y, Words(order, data))
  {
    assert ZeroPad(data) == data;
  }

  lemma AbsorbNothing(order: Order, h: u128, y: u128)
    ensures Absorb(order, h, y, []) == y
  {
    AbsorbAligned(order, h, y, []);
  }

  /** Input may be cut at any block boundary. */
  lemma AbsorbConcat(order: Order, h: u128, y: u128, a: seq<byte>, b: seq<byte>)
    requires |a| % 16 == 0
    ensures Absorb(order, h, y, a + b) == Absorb(order, h, Absorb(order, h, y, a), b)
  {
    hide Words, Horner;
    PaddedWordsSplit(order, a, b);
    HornerConcat(h, y, Words(order, a), PaddedWords(order, b));
    AbsorbAligned(order, h, y, a);
  }

  // ---------------------------------------------------------------------------
  // Digests
  // ---------------------------------------------------------------------------

  const TWO61: nat := 0x2000_0000_0000_0000

  /** The two lengths in bits, as 64-bit numbers in the hash's byte order. */
  function LengthBlock(order: Order, aadLen: nat, dataLen: nat): Block
  {
    if order == GhashOrder then ToBe(8 * aadLen, 8) + ToBe(8 * dataLen, 8)
    else ToLe(8 * aadLen, 8) + ToLe(8 * dataLen, 8)
  }

  /** The hash input of one message. */
  function MessageWords(order: Order, aad: seq<byte>, data: seq<byte>): seq<u128> {
    PaddedWords(order, aad) + PaddedWords(order, data) + [Load(order, LengthBlock(order, |aad|, |data|))]
  }

  /** POLYVAL of one message under key h; for GHASH order, h is the shifted key. */
  ghost function Digest(order: Order, h: u128, aad: seq<byte>, data: seq<byte>): Block {
    Store(order, Horner(h, 0, MessageWords(order, aad, data)))
  }

  /** GHASH of one message as section 7.1 of NIST SP 800-38D assembles it. */
  function GhashOf(subkey: Block, aad: seq<byte>, data: seq<byte>): Block {
    GhashFits(Load(GhashOrder, subkey), MessageWords(GhashOrder, aad, data));
    Store(GhashOrder, Ghash(Load(GhashOrder, subkey), 0, MessageWords(GhashOrder, aad, data)))
  }

  lemma GhashFits(h: u128, xs: seq<u128>)
    ensures Ghash(h, 0, xs) < TWO128
  {
    hide Ghash, Horner;
    GhashIsHorner(h, 0, xs);
  }

  /** The backend's digest under the shifted key is GHASH under the subkey. */
  lemma DigestIsGhash(subkey: Block, aad: seq<byte>, data: seq<byte>)
    ensures Mulx(Load(GhashOrder, subkey)) < TWO128
    ensures Digest(GhashOrder, Mulx(Load(GhashOrder, subkey)), aad, data) == GhashOf(subkey, aad, data)
  {
    hide Ghash, Horner, Store, Load, MessageWords;
    GhashIsHorner(Load(GhashOrder, subkey), 0, MessageWords(GhashOrder, aad, data));
  }

  // ---------------------------------------------------------------------------
  // The bytes that are hashed
  // ---------------------------------------------------------------------------

  lemma Pow2Of64()
    ensures Gf2.Pow2(64) == TWO64
  {
    PowValues();
  }

  /** The length block holds the AAD length first and the data length second, in bits,
      each in the byte order of the hash. */
  lemma LengthBlockHolds(a: nat, d: nat)
    requires a < TWO61 && d < TWO61
    ensures FromBe(LengthBlock(GhashOrder, a, d)[..8]) == 8 * a && FromBe(LengthBlock(GhashOrder, a, d)[8..]) == 8 * d
    ensures FromLe(LengthBlock(PolyvalOrder, a, d)[..8]) == 8 * a
    ensures FromLe(LengthBlock(PolyvalOrder, a, d)[8..]) == 8 * d
  {
    hide FromLe, FromBe, ToLe, ToBe;
    BitLengthRoundTrip(8 * a);
    BitLengthRoundTrip(8 * d);
    var g, p := LengthBlock(GhashOrder, a, d), LengthBlock(PolyvalOrder, a, d);
    assert g[..8] == ToBe(8 * a, 8) && g[8..] == ToBe(8 * d, 8);
    assert p[..8] == ToLe(8 * a, 8) && p[8..] == ToLe(8 * d, 8);
  }

  lemma BitLengthRoundTrip(n: nat)
    requires n < TWO64
    ensures FromLe(ToLe(n, 8)) == n && FromBe(ToBe(n, 8)) == n
  {
    hide FromLe, FromBe, ToLe, ToBe;
    Pow2Of64();
    LeRoundTrip(n, 64, 8);
    ToBeIsReversedToLe(n, 8);
    ReverseTwice(ToLe(n, 8));
    FromBeIsReversedFromLe(ToBe(n, 8));
  }

  /** Whole blocks one after the other are whole blocks. */
  lemma PaddedLengths(a: seq<byte>, b: seq<byte>, l: Block)
    ensures |ZeroPad(a) + ZeroPad(b) + l| % 16 == 0
  {
    hide ZeroPad;
    PadLengthSplit(|ZeroPad(a)|, |ZeroPad(b)|);
    PadLengthSplit(|ZeroPad(a) + ZeroPad(b)|, 16);
  }

  /** The hash input is the padded AAD, the padded data and the length block, in this
      order, read block by block. */
  lemma MessageBytes(order: Order, aad: seq<byte>, data: seq<byte>, bytes: seq<byte>)
    requires bytes == ZeroPad(aad) + ZeroPad(data) + LengthBlock(order, |aad|, |data|)
    ensures |bytes| % 16 == 0 && MessageWords(order, aad, data) == Words(order, bytes)
  {
    hide Words, Load, ZeroPad, LengthBlock;
    var l := LengthBlock(order, |aad|, |data|);
    PaddedLengths(aad, data, l);
    PadLengthSplit(|ZeroPad(aad)|, |ZeroPad(data)|);
    WordsConcat(order, ZeroPad(aad), ZeroPad(data));
    WordsConcat(order, ZeroPad(aad) + ZeroPad(data), l);
    WordsOfBlock(order, l);
  }

  /** Both digests from those bytes. */
  lemma DigestsOfBytes(order: Order, h: u128, subkey: Block, aad: seq<byte>, data: seq<byte>, bytes: seq<byte>)
    requires bytes == ZeroPad(aad) + ZeroPad(data) + LengthBlock(order, |aad|, |data|)
    ensures |bytes| % 16 == 0
    ensures Digest(order, h, aad, data) == Store(order, Horner(h, 0, Words(order, bytes)))
    ensures order == GhashOrder ==>
      var g := Ghash(Load(GhashOrder, subkey), 0, Words(order, bytes));
      g < TWO128 && GhashOf(subkey, aad, data) == Store(GhashOrder, g)
  {
    hide Words, Load, Store, Horner, Ghash, ZeroPad, LengthBlock, MessageWords;
    MessageBytes(order, aad, data, bytes);
    if order == GhashOrder { GhashFits(Load(GhashOrder, subkey), MessageWords(order, aad, data)); }
  }
}

/**
 AES-256-GCM-SIV: key derivation, tag-derived counter mode and the seal and open
 passes, against sections 4 and 5 of RFC 8452.
 */
module SivSpec {
  import Field
  import opened Gf2
  import Polyval
  import opened Bytes
  import opened Absorption
  import opened Ctr
  import opened Wrappers
  import opened GcmSpec

  const MAX_SIV_LEN: nat := 0x10_0000_0000

  predicate SivLengthsAccepted(aadLen: nat, dataLen: nat) {
    aadLen <= MAX_SIV_LEN && dataLen <= MAX_SIV_LEN
  }

  /** The i-th half-block of derived key material. */
  function Derived(master: Cipher, nonce: Nonce, i: nat): (r: seq<byte>)
    ensures |r| == 8
  {
    master.Encrypt(ToLe(i, 4) + nonce)[..8]
  }

  function AuthKey(master: Cipher, nonce: Nonce): Block { Derived(master, nonce, 0) + Derived(master, nonce, 1) }

  function EncKey(master: Cipher, nonce: Nonce): Key {
    Derived(master, nonce, 2) + Derived(master, nonce, 3) + Derived(master, nonce, 4) + Derived(master, nonce, 5)
  }

  /** AES under the derived message-encryption key. */
  function MessageCipher(master: Cipher, nonce: Nonce): Cipher { Cipher(master.aes, EncKey(master, nonce)) }

  /** b & 0x7f and b | 0x80. */
  function ClearTop(b: byte): byte { b % 0x80 }

  function SetTop(b: byte): byte { b % 0x80 + 0x80 }

  /** The block whose encryption is the tag: the digest with the nonce XORed into
      its low twelve bytes and the top bit of the last byte cleared. */
  function TagInput(nonce: Nonce, digest: Block): Block {
    XorBytes(digest[..12], nonce) + digest[12..15] + [ClearTop(digest[15])]
  }

  ghost function SivTag(master: Cipher, nonce: Nonce, aad: seq<byte>, pt: seq<byte>): Block {
    MessageCipher(master, nonce).Encrypt(
      TagInput(nonce, Digest(PolyvalOrder, Load(PolyvalOrder, AuthKey(master, nonce)), aad, pt)))
  }

  /** The first counter block: the tag with the top bit of its last byte set. */
  function FirstCounter(tag: Block): Block { tag[..15] + [SetTop(tag[15])] }

  function SivCtr(master: Cipher, nonce: Nonce, tag: Block, data: seq<byte>): (r: seq<byte>)
    ensures |r| == |data|
  {
    CtrXor(SivLayout, MessageCipher(master, nonce), FirstCounter(tag), data)
  }

  /** Ciphertext followed by tag. */
  ghost function SivSealed(master: Cipher, nonce: Nonce, aad: seq<byte>, pt: seq<byte>): (r: seq<byte>)
    ensures |r| == |pt| + 16
  {
    var tag := SivTag(master, nonce, aad, pt);
    SivCtr(master, nonce, tag, pt) + tag
  }

  /** Which inputs opening refuses before decrypting anything. */
  function SivOpenRefusal(nonce: seq<byte>, aad: seq<byte>, sealed: seq<byte>): Option<Error> {
    if |nonce| != NONCE_SIZE then Some(InvalidNonceLength)
    else if |sealed| < TAG_SIZE then Some(Decrypt)
    else if !SivLengthsAccepted(|aad|, |sealed| - TAG_SIZE) then Some(InputTooLarge)
    else None
  }

  function SivSealRefusal(nonce: seq<byte>, aad: seq<byte>, pt: seq<byte>): Option<Error> {
    if |nonce| != NONCE_SIZE then Some(InvalidNonceLength)
    else if !SivLengthsAccepted(|aad|, |pt|) then Some(InputTooLarge)
    else None
  }

  /** Opening decrypts first and then recomputes the tag of what came out. */
  ghost function SivOpened(master: Cipher, nonce: seq<byte>, aad: seq<byte>, sealed: seq<byte>)
      : Result<seq<byte>, Error>
  {
    match SivOpenRefusal(nonce, aad, sealed)
    case Some(e) => Failure(e)
    case None =>
      var n := |sealed| - TAG_SIZE;
      var pt := SivCtr(master, nonce, sealed[n..], sealed[..n]);
      if SivTag(master, nonce, aad, pt) == sealed[n..] then Success(pt) else Failure(Decrypt)
  }

  // ---------------------------------------------------------------------------
  // What GCM-SIV is for
  // ---------------------------------------------------------------------------

  /** Opening returns pt if and only if the input is the sealed form of pt, although
      sealing hashes before counter mode and opening hashes after it. */
  lemma SivOpenInvertsSeal(master: Cipher, nonce: Nonce, aad: seq<byte>, sealed: seq<byte>, pt: seq<byte>)
    requires SivLengthsAccepted(|aad|, |pt|)
    ensures SivOpened(master, nonce, aad, sealed) == Success(pt) <==> sealed == SivSealed(master, nonce, aad, pt)
  {
    hide CtrXor, Advance, Digest, TagInput, FirstCounter, MessageCipher;
    var c := MessageCipher(master, nonce);
    if sealed == SivSealed(master, nonce, aad, pt) {
      var tag := SivTag(master, nonce, aad, pt);
      CtrTwice(SivLayout, c, FirstCounter(tag), pt);
      assert sealed[..|pt|] == SivCtr(master, nonce, tag, pt);
      assert sealed[|pt|..] == tag;
    }
    if SivOpened(master, nonce, aad, sealed) == Success(pt) {
      var n := |sealed| - TAG_SIZE;
      CtrTwice(SivLayout, c, FirstCounter(sealed[n..]), sealed[..n]);
      assert sealed == sealed[..n] + sealed[n..];
    }
  }

  lemma SivEnvelopeRoundTrip(master: Cipher, nonce: Nonce, aad: seq<byte>, pt: seq<byte>)
    requires SivLengthsAccepted(|aad|, |pt|)
    ensures var data := SivSealed(master, nonce, aad, pt) + nonce;
            SivOpened(master, data[|data| - 12..], aad, data[..|data| - 12]) == Success(pt)
  {
    hide SivSealed, SivOpened;
    var s := SivSealed(master, nonce, aad, pt);
    assert (s + nonce)[..|s|] == s && (s + nonce)[|s|..] == nonce;
    SivOpenInvertsSeal(master, nonce, aad, s, pt);
  }

  /** The tag input is never a keystream input: counter blocks keep the top bit of
      their last byte through every increment and wrap, the tag input never has it. */
  lemma TagInputIsNoCounter(nonce: Nonce, digest: Block, tag: Block, i: nat)
    ensures TagInput(nonce, digest)[15] < 0x80
    ensures Advance(SivLayout, FirstCounter(tag), i)[15] >= 0x80
    ensures TagInput(nonce, digest) != Advance(SivLayout, FirstCounter(tag), i)
  {
    hide CounterOf, ToLe, XorByte;
    var c := FirstCounter(tag);
    var n := (CounterOf(SivLayout, c) + i) % TWO32;
    assert Advance(SivLayout, c, i) == ToLe(n, 4) + c[4..];
  }

  /** The length limit is exact: no two keystream blocks of a message coincide, even
      across a counter wrap, if and only if it has at most 2^36 bytes. */
  lemma SivLimitIsExact(start: Block, len: nat)
    ensures len <= MAX_SIV_LEN <==>
      forall i, j | 0 <= i < j < BlockCount(len) :: Advance(SivLayout, start, i) != Advance(SivLayout, start, j)
  {
    hide Advance, BlockCount;
    BlockCountBound(len, TWO32);
    assert MAX_SIV_LEN == 16 * TWO32;
    if len <= MAX_SIV_LEN {
      forall i, j | 0 <= i < j < BlockCount(len)
        ensures Advance(SivLayout, start, i) != Advance(SivLayout, start, j)
      {
        AdvanceRepeats(SivLayout, start, i, j);
      }
    } else {
      AdvanceRepeats(SivLayout, start, 0, TWO32);
      assert Advance(SivLayout, start, 0) == Advance(SivLayout, start, TWO32);
    }
  }

  // ---------------------------------------------------------------------------
  // The bytes of a sealed message
  // ---------------------------------------------------------------------------

  /** Clearing and setting the top bit leaves the other bits alone. */
  lemma TopBits(b: byte, j: nat)
    requires j < 8
    ensures Bit(ClearTop(b), j) <==> j < 7 && Bit(b, j)
    ensures Bit(SetTop(b), j) <==> j == 7 || Bit(b, j)
  {
    LowAndTop(b % 0x80, b / 0x80, j);
    LowAndTop(b % 0x80, 1, j);
    LowAndTop(b % 0x80, 0, j);
    BitOfOne(j - 7 + 7);
  }

  lemma LowAndTop(lo: nat, hi: nat, j: nat)
    requires lo < 0x80 && j < 8
    ensures Bit(lo + 0x80 * hi, j) <==> if j == 7 then Bit(hi, 0) else Bit(lo, j)
  {
    hide Xor;
    assert Pow2(7) == 0x80 by { assert Pow2(3) == 8; assert Pow2(5) == 32; }
    assert 2 * Shl(hi, 7) == 0x100 * hi by { Field.ShlBy8(hi, 0); }
    XorJoin(lo, hi, 7);
    BitOfXor(lo, Shl(hi, 7), j);
    BitOfShl(hi, 7, j);
    if j == 7 { HighBitClear(lo, 7, 7); }
  }

  /** The tag input: nonce XORed into the first twelve bytes of the digest, the next
      three bytes unchanged, the last without its top bit. */
  lemma TagInputBytes(nonce: Nonce, digest: Block)
    ensures var t := TagInput(nonce, digest);
            && (forall i | 0 <= i < 12 :: XorByte(t[i], digest[i]) == nonce[i])
            && t[12..15] == digest[12..15]
            && forall j: nat | j < 8 :: Bit(t[15], j) <==> j < 7 && Bit(digest[15], j)
  {
    hide XorByte, Bit, ClearTop;
    var t := TagInput(nonce, digest);
    forall i | 0 <= i < 12 ensures XorByte(t[i], digest[i]) == nonce[i] {
      XorByteTwice(digest[i], nonce[i]);
      XorByteTwice(nonce[i], digest[i]);
    }
    forall j: nat | j < 8 ensures Bit(t[15], j) <==> j < 7 && Bit(digest[15], j) {
      TopBits(digest[15], j);
    }
  }

  /** The first counter block is the tag with the top bit of its last byte set. */
  lemma FirstCounterBytes(tag: Block)
    ensures FirstCounter(tag)[..15] == tag[..15]
    ensures forall j: nat | j < 8 :: Bit(FirstCounter(tag)[15], j) <==> j == 7 || Bit(tag[15], j)
  {
    hide Bit, SetTop;
    forall j: nat | j < 8 ensures Bit(FirstCounter(tag)[15], j) <==> j == 7 || Bit(tag[15], j) {
      TopBits(tag[15], j);
    }
  }

  lemma SmallWord(i: byte)
    ensures ToLe(i, 4) == [i, 0, 0, 0]
  {
    assert ToLe(i, 4) == [i] + ToLe(0, 3);
    assert ToLe(0, 3) == [0] + ToLe(0, 2);
  }

  lemma DerivedByte(master: Cipher, nonce: Nonce, i: byte, k: nat, block: Block)
    requires k < 8 && block == [i, 0, 0, 0] + nonce
    ensures Derived(master, nonce, i)[k] == master.Encrypt(block)[k]
  {
    hide ToLe;
    SmallWord(i);
  }

  /** Byte j of the authentication key: the first eight bytes of the encryptions of the
      counters 0 and 1, each followed by the nonce. */
  lemma AuthKeyByte(master: Cipher, nonce: Nonce, j: nat, block: Block)
    requires j < 16 && block == [j / 8, 0, 0, 0] + nonce
    ensures AuthKey(master, nonce)[j] == master.Encrypt(block)[j % 8]
  {
    hide Derived;
    DerivedByte(master, nonce, j / 8, j % 8, block);
  }

  /** Byte j of the encryption key: the same from the counters 2 to 5. */
  lemma EncKeyByte(master: Cipher, nonce: Nonce, j: nat, block: Block)
    requires j < 32 && block == [2 + j / 8, 0, 0, 0] + nonce
    ensures EncKey(master, nonce)[j] == master.Encrypt(block)[j % 8]
  {
    hide Derived;
    DerivedByte(master, nonce, 2 + j / 8, j % 8, block);
  }

  /** The message cipher runs under the derived key, and the tag is its encryption of
      the tag input of the POLYVAL of padded AAD, padded plaintext and lengths. */
  lemma TagOfBytes(master: Cipher, nonce: Nonce, aad: seq<byte>, pt: seq<byte>, bytes: seq<byte>)
    requires bytes == ZeroPad(aad) + ZeroPad(pt) + LengthBlock(PolyvalOrder, |aad|, |pt|)
    ensures |bytes| % 16 == 0
    ensures var h := Load(PolyvalOrder, AuthKey(master, nonce));
            var digest := Store(PolyvalOrder, Polyval.Horner(h, 0, Words(PolyvalOrder, bytes)));
            SivTag(master, nonce, aad, pt) == master.aes(EncKey(master, nonce), TagInput(nonce, digest))
  {
    hide Words, Load, Store, Digest, TagInput, EncKey, AuthKey, ZeroPad, LengthBlock;
    DigestsOfBytes(PolyvalOrder, Load(PolyvalOrder, AuthKey(master, nonce)), ZERO_BLOCK, aad, pt, bytes);
  }

  /** Data byte j meets byte j mod 16 of the encryption of the tag with its top bit set
      and j / 16 added, modulo 2^32, to its first four bytes. */
  lemma SivByteMeets(master: Cipher, nonce: Nonce, tag: Block, data: seq<byte>, j: nat)
    requires j < |data|
    ensures var block := ToLe((FromLe(tag[..4]) + j / 16) % TWO32, 4) + tag[4..15] + [SetTop(tag[15])];
            SivCtr(master, nonce, tag, data)[j] == XorByte(data[j], master.aes(EncKey(master, nonce), block)[j % 16])
  {
    hide ToLe, FromLe, XorByte, SetTop, EncKey;
    var c := FirstCounter(tag);
    assert c[..4] == tag[..4] && c[4..] == tag[4..15] + [SetTop(tag[15])];
    var n := ToLe((FromLe(tag[..4]) + j / 16) % TWO32, 4);
    assert Advance(SivLayout, c, j / 16) == n + c[4..];
    assert n + c[4..] == n + tag[4..15] + [SetTop(tag[15])];
  }

  /** Ciphertext first, tag last. */
  lemma SivSealedParts(master: Cipher, nonce: Nonce, aad: seq<byte>, pt: seq<byte>)
    ensures var s, tag := SivSealed(master, nonce, aad, pt), SivTag(master, nonce, aad, pt);
            s[..|pt|] == SivCtr(master, nonce, tag, pt) && s[|pt|..] == tag
  {
    hide SivTag, SivCtr;
  }

  /** A message is accepted exactly when its counter blocks are pairwise distinct and
      its AAD has at most 2^32 blocks. */
  lemma SivAcceptedMeansSafe(start: Block, aadLen: nat, dataLen: nat)
    ensures SivLengthsAccepted(aadLen, dataLen) <==>
      && (forall i, j | 0 <= i < j < BlockCount(dataLen) ::
            Advance(SivLayout, start, i) != Advance(SivLayout, start, j))
      && BlockCount(aadLen) <= TWO32
  {
    hide Advance, BlockCount;
    SivLimitIsExact(start, dataLen);
    BlockCountBound(aadLen, TWO32);
  }

  /** Which failure opening reports: nonce length, missing tag, length, wrong tag. */
  lemma SivOpenFailures(master: Cipher, nonce: seq<byte>, aad: seq<byte>, sealed: seq<byte>)
    ensures var r := SivOpened(master, nonce, aad, sealed);
            && (r == Failure(InvalidNonceLength) <==> |nonce| != 12)
            && (r == Failure(InputTooLarge) <==>
                  |nonce| == 12 && |sealed| >= 16 && !SivLengthsAccepted(|aad|, |sealed| - 16))
            && (|nonce| == 12 && |sealed| < 16 ==> r == Failure(Decrypt))
            && (r.Failure? ==> r.error in {InvalidNonceLength, InputTooLarge, Decrypt})
  {
    hide SivTag, SivCtr, SivLengthsAccepted;
  }

  lemma SivSealRefuses(nonce: seq<byte>, aad: seq<byte>, pt: seq<byte>)
    ensures SivSealRefusal(nonce, aad, pt) == Some(InvalidNonceLength) <==> |nonce| != 12
    ensures SivSealRefusal(nonce, aad, pt) == Some(InputTooLarge)
      <==> |nonce| == 12 && !SivLengthsAccepted(|aad|, |pt|)
    ensures SivSealRefusal(nonce, aad, pt) == None <==> |nonce| == 12 && SivLengthsAccepted(|aad|, |pt|)
  {
  }
}

module Siv {
  import opened Bytes
  import opened Multiply
  import opened Polyval
  import opened Absorption
  import opened Ctr
  import opened KeyLadder
  import opened Hashing
  import opened Wrappers
  import opened GcmSpec
  import opened SivSpec

  method DeriveKeys(master: Cipher, nonce: Nonce) returns (authKey: Block, encKey: Key)
    ensures authKey == AuthKey(master, nonce)
    ensures encKey == EncKey(master, nonce)
  {
    hide ToLe;
    var counter := 0;
    var a: seq<byte> := [];
    while counter < 2
      invariant counter <= 2 && |a| == 8 * counter
      invariant a == DerivedRange(master, nonce, 0, counter)
    {
      a := a + master.Encrypt(ToLe(counter, 4) + nonce)[..8];
      counter := counter + 1;
    }
    var e: seq<byte> := [];
    while counter < 6
      invariant 2 <= counter <= 6 && |e| == 8 * (counter - 2)
      invariant e == DerivedRange(master, nonce, 2, counter)
    {
      e := e + master.Encrypt(ToLe(counter, 4) + nonce)[..8];
      counter := counter + 1;
    }
    KeyParts(master, nonce);
    authKey, encKey := a, e;
  }

  function DerivedRange(master: Cipher, nonce: Nonce, lo: nat, hi: nat): seq<byte>
    requires lo <= hi
    decreases hi - lo, master, nonce, lo, hi
  {
    if lo == hi then [] else DerivedRange(master, nonce, lo, hi - 1) + Derived(master, nonce, hi - 1)
  }

  lemma KeyParts(master: Cipher, nonce: Nonce)
    ensures DerivedRange(master, nonce, 0, 2) == AuthKey(master, nonce)
    ensures DerivedRange(master, nonce, 2, 6) == EncKey(master, nonce)
  {
    hide Derived;
    var d := (i: nat) => Derived(master, nonce, i);
    assert DerivedRange(master, nonce, 0, 0) == [] && DerivedRange(master, nonce, 2, 2) == [];
    assert DerivedRange(master, nonce, 0, 1) == d(0);
    assert DerivedRange(master, nonce, 2, 3) == d(2);
    assert DerivedRange(master, nonce, 2, 4) == d(2) + d(3);
    assert DerivedRange(master, nonce, 2, 5) == d(2) + d(3) + d(4);
  }

  method PolyvalDigest(target: Target, authKey: Block, aad: seq<byte>, message: seq<byte>) returns (r: Option<Block>)
    ensures r == if |aad| < TWO61 && |message| < TWO61
                 then Some(Digest(PolyvalOrder, Load(PolyvalOrder, authKey), aad, message)) else None
  {
    hide Ladder, Absorb, Load, Store, Horner, Digest;
    var h := Load(PolyvalOrder, authKey);
    var powers := KeyPowers(target, h);
    var hasher := new Hasher(PolyvalOrder, target, powers);
    hasher.AbsorbPadded(aad);
    hasher.AbsorbPadded(message);
    r := hasher.Finalize(|aad|, |message|);
    SectionsMakeDigest(PolyvalOrder, h, aad, message);
  }

  /** XORs the digest with the nonce, clears the top bit and encrypts. */
  method ComputeTag(cipher: Cipher, nonce: Nonce, digest: Block) returns (tag: Block)
    ensures tag == cipher.Encrypt(TagInput(nonce, digest))
  {
    var block := new byte[16](i requires 0 <= i < 16 => digest[i]);
    assert block[..] == digest == block[0..16];
    assert block[0..12] == digest[..12];
    XorInto(block, 0, nonce);
    assert block[..] == XorBytes(digest[..12], nonce) + digest[12..];
    block[15] := ClearTop(block[15]);
    assert block[..] == TagInput(nonce, digest);
    tag := cipher.Encrypt(block[..]);
  }

  /** Eight keystream blocks from consecutive counters. */
  method KeystreamBatch(cipher: Cipher, counter: array<byte>, n: nat) returns (keystream: seq<Block>)
    requires counter.Length == 16
    modifies counter
    ensures |keystream| == n
    ensures forall i | 0 <= i < n :: keystream[i] == Keystream(SivLayout, cipher, old(counter[..]), i)
    ensures counter[..] == Advance(SivLayout, old(counter[..]), n)
  {
    hide Advance;
    ghost var start: Block := counter[..];
    AdvanceAdd(SivLayout, start, 0, 0);
    var blocks: seq<Block> := [];
    for i := 0 to n
      invariant |blocks| == i && forall k | 0 <= k < i :: blocks[k] == Advance(SivLayout, start, k)
      invariant counter[..] == Advance(SivLayout, start, i)
    {
      blocks := blocks + [counter[..]];
      IncrementSivCounter(counter);
      AdvanceAdd(SivLayout, start, i, 1);
    }
    keystream := [];
    for i := 0 to n
      invariant |keystream| == i && forall k | 0 <= k < i :: keystream[k] == Keystream(SivLayout, cipher, start, k)
    {
      keystream := keystream + [cipher.Encrypt(blocks[i])];
    }
  }

  /** XORs eight consecutive keystream blocks into the buffer. */
  method XorBatch(cipher: Cipher, ghost start: Block, data: array<byte>, done: nat, keystream: seq<Block>,
      ghost src: seq<byte>, ghost before: seq<byte>)
    requires |keystream| == 8 && done % 16 == 0 && done + PAR_BYTES <= |src| <= data.Length == |before|
    requires forall i | 0 <= i < 8 :: keystream[i] == Keystream(SivLayout, cipher, start, done / 16 + i)
    requires src == before[0..0 + |src|]
    requires data[..] == Splice(before, 0, CtrXor(SivLayout, cipher, start, src[..done]))
    modifies data
    ensures data[..] == Splice(before, 0, CtrXor(SivLayout, cipher, start, src[..done + PAR_BYTES]))
  {
    hide CtrXor, Splice, Keystream;
    for i := 0 to 8
      invariant data[..] == Splice(before, 0, CtrXor(SivLayout, cipher, start, src[..done + 16 * i]))
    {
      XorBlock(SivLayout, cipher, start, data, 0, done + 16 * i, 16, keystream[i], src, before);
    }
  }

  /** Eight blocks of counter mode. */
  method Batch(cipher: Cipher, counter: array<byte>, data: array<byte>, done: nat,
      ghost start: Block, ghost before: seq<byte>, ghost src: seq<byte>)
    requires counter.Length == 16 && counter != data && |src| <= data.Length == |before|
    requires src == before[0..0 + |src|] && done % 16 == 0 && done + PAR_BYTES <= |src|
    requires Progress(SivLayout, cipher, start, before, 0, src, done, data[..], counter[..])
    modifies counter, data
    ensures Progress(SivLayout, cipher, start, before, 0, src, done + PAR_BYTES, data[..], counter[..])
  {
    assert done < |src|;
    hide *;
    ghost var now, at := data[..], counter[..];
    BatchFinds(cipher, start, before, src, done, now, at);
    var keystream := KeystreamBatch(cipher, counter, 8);
    ShiftedLanes(cipher, start, done / 16, at, keystream);
    XorBatch(cipher, start, data, done, keystream, src, before);
    BatchLeaves(cipher, start, before, src, done, now, at, data[..], counter[..]);
  }

  lemma BatchFinds(cipher: Cipher, start: Block, before: seq<byte>, src: seq<byte>, done: nat,
      now: seq<byte>, counter: seq<byte>)
    requires |src| <= |before| && done % 16 == 0 && done < |src|
    requires Progress(SivLayout, cipher, start, before, 0, src, done, now, counter)
    ensures |counter| == 16 && counter == Advance(SivLayout, start, done / 16)
    ensures now == Splice(before, 0, CtrXor(SivLayout, cipher, start, src[..done]))
  {
    hide CtrXor, Advance, Splice, BlockCount;
    BlockCountStep(done, 0);
  }

  lemma BatchLeaves(cipher: Cipher, start: Block, before: seq<byte>, src: seq<byte>, done: nat,
      now: seq<byte>, counter: seq<byte>, now': seq<byte>, counter': seq<byte>)
    requires |src| <= |before| && done % 16 == 0 && done + PAR_BYTES <= |src| && |counter| == 16
    requires Progress(SivLayout, cipher, start, before, 0, src, done, now, counter)
    requires now' == Splice(before, 0, CtrXor(SivLayout, cipher, start, src[..done + PAR_BYTES]))
    requires counter' == Advance(SivLayout, counter, 8)
    ensures Progress(SivLayout, cipher, start, before, 0, src, done + PAR_BYTES, now', counter')
  {
    hide CtrXor, Advance, Splice, BlockCount;
    BlockCountStep(done, 0);
    BlockCountStep(done + PAR_BYTES, 0);
    AdvanceAdd(SivLayout, start, done / 16, 8);
  }

  lemma ShiftedLanes(cipher: Cipher, start: Block, k: nat, counter: Block, keystream: seq<Block>)
    requires counter == Advance(SivLayout, start, k)
    requires forall i | 0 <= i < |keystream| :: keystream[i] == Keystream(SivLayout, cipher, counter, i)
    ensures forall i | 0 <= i < |keystream| :: keystream[i] == Keystream(SivLayout, cipher, start, k + i)
  {
    hide Keystream, Advance;
    forall i | 0 <= i < |keystream| ensures keystream[i] == Keystream(SivLayout, cipher, start, k + i) {
      KeystreamShift(cipher, start, k, i);
    }
  }

  /** The batch loop: eight blocks at a time while they last. */
  method CtrBatches(cipher: Cipher, counter: array<byte>, data: array<byte>, len: nat) returns (done: nat)
    requires counter.Length == 16 && counter != data && len <= data.Length
    modifies counter, data
    ensures done % 16 == 0 && done <= len < done + PAR_BYTES
    ensures Progress(SivLayout, cipher, old(counter[..]), old(data[..]), 0, old(data[0..0 + len]), done,
                     data[..], counter[..])
  {
    hide Progress;
    ghost var start: Block := counter[..];
    ghost var before, src := data[..], data[0..0 + len];
    ProgressStarts(SivLayout, cipher, start, before, 0, src);
    done := 0;
    while len - done >= PAR_BYTES
      invariant done % 16 == 0 && done <= len
      invariant Progress(SivLayout, cipher, start, before, 0, src, done, data[..], counter[..])
    {
      Batch(cipher, counter, data, done, start, before, src);
      done := done + PAR_BYTES;
    }
  }

  /** One block of the tail, possibly partial. */
  method TailBlock(cipher: Cipher, counter: array<byte>, data: array<byte>, done: nat, n: nat,
      ghost start: Block, ghost before: seq<byte>, ghost src: seq<byte>)
    requires counter.Length == 16 && counter != data && |src| <= data.Length == |before|
    requires src == before[0..0 + |src|] && done < |src| && n == NextLength(done, |src|)
    requires Progress(SivLayout, cipher, start, before, 0, src, done, data[..], counter[..])
    modifies counter, data
    ensures Progress(SivLayout, cipher, start, before, 0, src, done + n, data[..], counter[..])
  {
    hide *;
    ghost var now, at := data[..], counter[..];
    ProgressNow(SivLayout, cipher, start, before, 0, src, done, now, at);
    var keystream := cipher.Encrypt(counter[..]);
    IncrementSivCounter(counter);
    XorBlock(SivLayout, cipher, start, data, 0, done, n, keystream, src, before);
    ProgressNext(SivLayout, cipher, start, before, 0, src, done, now, at, data[..], counter[..]);
  }

  /** Counter mode over the first len bytes: eight blocks at a time, then singly. */
  method CtrApply(cipher: Cipher, counter: array<byte>, data: array<byte>, len: nat)
    requires counter.Length == 16 && counter != data && len <= data.Length
    modifies counter, data
    ensures data[..] == Splice(old(data[..]), 0, CtrXor(SivLayout, cipher, old(counter[..]), old(data[..len])))
    ensures counter[..] == Advance(SivLayout, old(counter[..]), BlockCount(len))
  {
    hide *;
    ghost var start: Block := counter[..];
    ghost var src, before := data[0..0 + len], data[..];
    assert src == data[..len];
    var done := CtrBatches(cipher, counter, data, len);
    while done < len
      invariant done <= len
      invariant Progress(SivLayout, cipher, start, before, 0, src, done, data[..], counter[..])
    {
      var n := NextLength(done, len);
      TailBlock(cipher, counter, data, done, n, start, before, src);
      done := done + n;
    }
    ProgressEnds(SivLayout, cipher, start, before, 0, src, done, data[..], counter[..]);
  }

  lemma KeystreamShift(cipher: Cipher, start: Block, k: nat, i: nat)
    ensures Keystream(SivLayout, cipher, Advance(SivLayout, start, k), i) == Keystream(SivLayout, cipher, start, k + i)
  {
    hide Advance;
    AdvanceAdd(SivLayout, start, k, i);
  }

  /** Seals the first len bytes in place: POLYVAL reads the plaintext before counter
      mode overwrites it. */
  method SivSeal(target: Target, master: Cipher, nonce: Nonce, aad: seq<byte>, data: array<byte>, len: nat)
    returns (tag: Option<Block>)
    requires len <= data.Length
    modifies data
    ensures var pt := old(data[..len]);
            var t := SivTag(master, nonce, aad, pt);
            if |aad| < TWO61 && len < TWO61
            then tag == Some(t) && data[..] == Splice(old(data[..]), 0, SivCtr(master, nonce, t, pt))
            else tag == None && data[..] == old(data[..])
  {
    hide CtrXor, Advance, Digest, TagInput, EncKey, AuthKey, Splice, Load;
    var authKey, encKey := DeriveKeys(master, nonce);
    var cipher := Cipher(master.aes, encKey);
    var digest := PolyvalDigest(target, authKey, aad, data[..len]);
    if digest == None { return None; }
    var t := ComputeTag(cipher, nonce, digest.value);
    var counter := new byte[16](i requires 0 <= i < 16 => t[i]);
    counter[15] := SetTop(counter[15]);
    assert counter[..] == FirstCounter(t);
    CtrApply(cipher, counter, data, len);
    tag := Some(t);
  }

  /** Opens the first len bytes in place: counter mode first, then POLYVAL over the
      plaintext; the caller wipes the buffer when the answer is no. */
  method SivOpen(target: Target, master: Cipher, nonce: Nonce, aad: seq<byte>, data: array<byte>, len: nat, tag: Block)
    returns (ok: bool)
    requires len <= data.Length
    modifies data
    ensures var pt := SivCtr(master, nonce, tag, old(data[..len]));
            && data[..] == Splice(old(data[..]), 0, pt)
            && ok == (|aad| < TWO61 && len < TWO61 && SivTag(master, nonce, aad, pt) == tag)
  {
    hide CtrXor, Advance, Digest, TagInput, EncKey, AuthKey, Splice, Load;
    var authKey, encKey := DeriveKeys(master, nonce);
    var cipher := Cipher(master.aes, encKey);
    var counter := new byte[16](i requires 0 <= i < 16 => tag[i]);
    counter[15] := SetTop(counter[15]);
    assert counter[..] == FirstCounter(tag);
    ghost var pt := SivCtr(master, nonce, tag, data[..len]);
    SpliceParts(data[..], 0, pt);
    CtrApply(cipher, counter, data, len);
    assert data[..len] == data[..][0..0 + |pt|] == pt;
    var digest := PolyvalDigest(target, authKey, aad, data[..len]);
    if digest == None { return false; }
    var expected := ComputeTag(cipher, nonce, digest.value);
    ok := expected == tag;
  }

  /** The reusable key state: the key-generating cipher. */
  class SivKeyState {
    const target: Target
    const master: Cipher

    constructor (target: Target, aes: (Key, Block) -> Block, key: Key)
      ensures master == Cipher(aes, key)
    {
      this.target := target;
      this.master := Cipher(aes, key);
    }

    /** Ciphertext and tag into the first len bytes of a caller's buffer. */
    method EncryptTo(nonce: seq<byte>, aad: seq<byte>, pt: seq<byte>, out: array<byte>, len: nat)
      returns (r: Result<nat, Error>)
      requires len <= out.Length
      modifies out
      ensures match SivSealRefusal(nonce, aad, pt)
        case Some(e) => r == Failure(e) && out[..] == old(out[..])
        case None =>
          if len < |pt| + TAG_SIZE then r == Failure(OutputTooSmall) && out[..] == old(out[..])
          else r == Success(|pt| + TAG_SIZE) && out[..] == Splice(old(out[..]), 0, SivSealed(master, nonce, aad, pt))
    {
      hide Splice, SivTag, CtrXor, FirstCounter, MessageCipher;
      if |nonce| != NONCE_SIZE { return Failure(InvalidNonceLength); }
      if !SivLengthsAccepted(|aad|, |pt|) { return Failure(InputTooLarge); }
      if |pt| + TAG_SIZE > USIZE_MAX { return Failure(InputTooLarge); }
      var total := |pt| + TAG_SIZE;
      if len < total { return Failure(OutputTooSmall); }
      ghost var before := out[..];
      CopyInto(out, 0, pt);
      SpliceParts(before, 0, pt);
      assert out[..|pt|] == out[..][0..0 + |pt|] == pt;
      var tag := SivSeal(target, master, nonce, aad, out, |pt|);
      if tag == None { return Failure(Error.Encrypt); }
      ghost var ct := SivCtr(master, nonce, tag.value, pt);
      SpliceOver(before, 0, pt, ct);
      SpliceTwice(before, 0, ct, tag.value);
      CopyInto(out, |pt|, tag.value);
      r := Success(total);
    }

    /** Ciphertext, tag and nonce in one new buffer. */
    method EncryptEnvelope(nonce: seq<byte>, aad: seq<byte>, pt: seq<byte>) returns (r: Result<seq<byte>, Error>)
      ensures r == match SivSealRefusal(nonce, aad, pt)
        case Some(e) => Failure(e)
        case None => Success(SivSealed(master, nonce, aad, pt) + nonce)
    {
      hide Splice, SivTag, CtrXor, FirstCounter, MessageCipher;
      if |nonce| != NONCE_SIZE { return Failure(InvalidNonceLength); }
      if !SivLengthsAccepted(|aad|, |pt|) { return Failure(InputTooLarge); }
      if |pt| + TAG_SIZE + NONCE_SIZE > USIZE_MAX { return Failure(InputTooLarge); }
      var data := new byte[|pt|](i requires 0 <= i < |pt| => pt[i]);
      assert data[..] == pt == data[..|pt|];
      var tag := SivSeal(target, master, nonce, aad, data, |pt|);
      if tag == None { return Failure(Error.Encrypt); }
      SpliceWhole(pt, SivCtr(master, nonce, tag.value, pt));
      r := Success(data[..] + tag.value + nonce);
    }

    method Decrypt(nonce: seq<byte>, aad: seq<byte>, sealed: seq<byte>) returns (r: Result<seq<byte>, Error>)
      ensures r == SivOpened(master, nonce, aad, sealed)
    {
      hide Splice, SivTag, CtrXor, FirstCounter, MessageCipher;
      if |nonce| != NONCE_SIZE { return Failure(InvalidNonceLength); }
      if |sealed| < TAG_SIZE { return Failure(Error.Decrypt); }
      var n := |sealed| - TAG_SIZE;
      var ct, tag := sealed[..n], sealed[n..];
      if !SivLengthsAccepted(|aad|, n) { return Failure(InputTooLarge); }
      var data := new byte[n](i requires 0 <= i < n => ct[i]);
      assert data[..] == ct == data[..n];
      var ok := SivOpen(target, master, nonce, aad, data, n, tag);
      if !ok { return Failure(Error.Decrypt); }
      SpliceWhole(ct, SivCtr(master, nonce, tag, ct));
      r := Success(data[..]);
    }

    /** Opening into a caller's buffer; a rejected message leaves zeros behind. */
    method DecryptTo(nonce: seq<byte>, aad: seq<byte>, sealed: seq<byte>, out: array<byte>, len: nat)
      returns (r: Result<nat, Error>)
      requires len <= out.Length
      modifies out
      ensures match SivOpenRefusal(nonce, aad, sealed)
        case Some(e) => r == Failure(e) && out[..] == old(out[..])
        case None =>
          var n := |sealed| - TAG_SIZE;
          if len < n then r == Failure(OutputTooSmall) && out[..] == old(out[..])
          else match SivOpened(master, nonce, aad, sealed)
            case Success(pt) => r == Success(n) && |pt| == n && out[..] == Splice(old(out[..]), 0, pt)
            case Failure(e) => r == Failure(e) && out[..] == Splice(old(out[..]), 0, Zeros(n))
    {
      hide Splice, SivTag, CtrXor, FirstCounter, MessageCipher;
      if |nonce| != NONCE_SIZE { return Failure(InvalidNonceLength); }
      if |sealed| < TAG_SIZE { return Failure(Error.Decrypt); }
      var n := |sealed| - TAG_SIZE;
      var ct, tag := sealed[..n], sealed[n..];
      if !SivLengthsAccepted(|aad|, n) { return Failure(InputTooLarge); }
      if len < n { return Failure(OutputTooSmall); }
      ghost var before := out[..];
      CopyInto(out, 0, ct);
      SpliceParts(before, 0, ct);
      assert out[..n] == out[..][0..0 + n] == ct;
      ghost var pt := SivCtr(master, nonce, tag, ct);
      SpliceOver(before, 0, ct, pt);
      var ok := SivOpen(target, master, nonce, aad, out, n, tag);
      if !ok {
        SpliceOver(before, 0, pt, Zeros(n));
        CopyInto(out, 0, Zeros(n));
        return Failure(Error.Decrypt);
      }
      r := Success(n);
    }

    method DecryptEnvelope(aad: seq<byte>, data: seq<byte>) returns (r: Result<seq<byte>, Error>)
      ensures r == if |data| < TAG_SIZE + NONCE_SIZE then Failure(CiphertextTooShort)
                   else SivOpened(master, data[|data| - NONCE_SIZE..], aad, data[..|data| - NONCE_SIZE])
    {
      hide SivOpened;
      if |data| < TAG_SIZE + NONCE_SIZE { return Failure(CiphertextTooShort); }
      var noncePos := |data| - NONCE_SIZE;
      r := Decrypt(data[noncePos..], aad, data[..noncePos]);
    }

    /** Ciphertext and tag in a new buffer; the size check comes first. */
    method Encrypt(nonce: seq<byte>, aad: seq<byte>, pt: seq<byte>) returns (r: Result<seq<byte>, Error>)
      ensures r ==
        if |pt| + TAG_SIZE > USIZE_MAX then Failure(InputTooLarge)
        else match SivSealRefusal(nonce, aad, pt)
          case Some(e) => Failure(e)
          case None => Success(SivSealed(master, nonce, aad, pt))
    {
      hide SivSealed, Splice;
      if |pt| + TAG_SIZE > USIZE_MAX { return Failure(InputTooLarge); }
      var out := new byte[|pt| + TAG_SIZE](_ => 0);
      ghost var blank := out[..];
      var written := EncryptTo(nonce, aad, pt, out, out.Length);
      match written {
        case Failure(e) => r := Failure(e);
        case Success(_) =>
          SpliceWhole(blank, SivSealed(master, nonce, aad, pt));
          r := Success(out[..]);
      }
    }

    /** The envelope into the first len bytes of a caller's buffer. */
    method EncryptEnvelopeTo(nonce: seq<byte>, aad: seq<byte>, pt: seq<byte>, out: array<byte>, len: nat)
      returns (r: Result<nat, Error>)
      requires len <= out.Length
      modifies out
      ensures match SivSealRefusal(nonce, aad, pt)
        case Some(e) => r == Failure(e) && out[..] == old(out[..])
        case None =>
          if len < |pt| + 28 then r == Failure(OutputTooSmall) && out[..] == old(out[..])
          else
            && r == Success(|pt| + 28)
            && out[..] == Splice(old(out[..]), 0, SivSealed(master, nonce, aad, pt) + nonce)
    {
      hide Splice, SivSealed;
      if |nonce| != NONCE_SIZE { return Failure(InvalidNonceLength); }
      if !SivLengthsAccepted(|aad|, |pt|) { return Failure(InputTooLarge); }
      if |pt| + TAG_SIZE + NONCE_SIZE > USIZE_MAX { return Failure(InputTooLarge); }
      var total := |pt| + TAG_SIZE + NONCE_SIZE;
      if len < total { return Failure(OutputTooSmall); }
      var ciphertextTagLen := |pt| + TAG_SIZE;
      var written := EncryptTo(nonce, aad, pt, out, ciphertextTagLen);
      if written.Failure? { return written; }
      SpliceTwice(old(out[..]), 0, SivSealed(master, nonce, aad, pt), nonce);
      CopyInto(out, ciphertextTagLen, nonce);
      r := Success(total);
    }

    method DecryptEnvelopeTo(aad: seq<byte>, data: seq<byte>, out: array<byte>, len: nat)
      returns (r: Result<nat, Error>)
      requires len <= out.Length
      modifies out
      ensures |data| < 28 ==> r == Failure(CiphertextTooShort) && out[..] == old(out[..])
      ensures |data| >= 28 ==>
        var n := |data| - 28;
        match SivOpenRefusal(data[n + 16..], aad, data[..n + 16])
        case Some(e) => r == Failure(e) && out[..] == old(out[..])
        case None =>
          if len < n then r == Failure(OutputTooSmall) && out[..] == old(out[..])
          else match SivOpened(master, data[n + 16..], aad, data[..n + 16])
            case Success(pt) => r == Success(n) && |pt| == n && out[..] == Splice(old(out[..]), 0, pt)
            case Failure(e) => r == Failure(e) && out[..] == Splice(old(out[..]), 0, Zeros(n))
    {
      hide SivOpened, Splice;
      if |data| < TAG_SIZE + NONCE_SIZE { return Failure(CiphertextTooShort); }
      var noncePos := |data| - NONCE_SIZE;
      r := DecryptTo(data[noncePos..], aad, data[..noncePos], out, len);
    }
  }
}

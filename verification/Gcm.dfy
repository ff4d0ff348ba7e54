/**
 AES-256-GCM: the four seal and open paths, the envelope framing, and the
 counter arithmetic, against section 7 of NIST SP 800-38D.
 */
module GcmSpec {
  import Field
  import Gf2
  import Polyval
  import opened Bytes
  import opened Absorption
  import opened Ctr
  import opened Wrappers

  const NONCE_SIZE: nat := 12
  const TAG_SIZE: nat := 16
  const NO_NONCE: seq<byte> := [0, 0, 0, 0, 0, 0, 0, 0, 0, 0, 0, 0]
  const USIZE_MAX: nat := 0xFFFF_FFFF_FFFF_FFFF
  const MAX_GCM_DATA_LEN: nat := (0xFFFF_FFFF - 1) * 16
  const MAX_GHASH_INPUT_LEN: nat := 0xFFFF_FFFF_FFFF_FFFF / 8

  type Nonce = n: seq<byte> | |n| == 12 witness NO_NONCE

  datatype Error =
    | InvalidNonceLength
    | Encrypt
    | Decrypt
    | CiphertextTooShort
    | InputTooLarge
    | OutputTooSmall

  predicate LengthsAccepted(aadLen: nat, dataLen: nat) {
    && dataLen <= MAX_GCM_DATA_LEN
    && aadLen <= MAX_GHASH_INPUT_LEN
    && dataLen <= MAX_GHASH_INPUT_LEN
  }

  /** The pre-counter block of a 96-bit nonce. */
  function J0(nonce: Nonce): Block { nonce + [0, 0, 0, 1] }

  /** The reference encryption: plaintext block i is XORed with E(inc32^(i+1)(J0)). */
  function GcmCtr(cipher: Cipher, nonce: Nonce, data: seq<byte>): (r: seq<byte>)
    ensures |r| == |data|
  {
    CtrXor(GcmLayout, cipher, Advance(GcmLayout, J0(nonce), 1), data)
  }

  /** The reference tag: GHASH under E(0), masked with E(J0). */
  function GcmTag(cipher: Cipher, nonce: Nonce, aad: seq<byte>, ct: seq<byte>): Block {
    XorBytes(GhashOf(cipher.Encrypt(ZERO_BLOCK), aad, ct), cipher.Encrypt(J0(nonce)))
  }

  /** Ciphertext followed by tag. */
  function GcmSeal(cipher: Cipher, nonce: Nonce, aad: seq<byte>, pt: seq<byte>): (r: seq<byte>)
    ensures |r| == |pt| + 16
  {
    var ct := GcmCtr(cipher, nonce, pt);
    ct + GcmTag(cipher, nonce, aad, ct)
  }

  /** Which inputs opening refuses before decrypting anything. */
  function OpenRefusal(nonce: seq<byte>, aad: seq<byte>, sealed: seq<byte>): Option<Error> {
    if |nonce| != NONCE_SIZE then Some(InvalidNonceLength)
    else if |sealed| < TAG_SIZE then Some(Decrypt)
    else if !LengthsAccepted(|aad|, |sealed| - TAG_SIZE) then Some(InputTooLarge)
    else None
  }

  /** Opening ciphertext-and-tag, with every way of failing, in the order the
      checks are made. */
  function GcmOpen(cipher: Cipher, nonce: seq<byte>, aad: seq<byte>, sealed: seq<byte>): Result<seq<byte>, Error> {
    match OpenRefusal(nonce, aad, sealed)
    case Some(e) => Failure(e)
    case None =>
      var n := |sealed| - TAG_SIZE;
      if GcmTag(cipher, nonce, aad, sealed[..n]) != sealed[n..] then Failure(Decrypt)
      else Success(GcmCtr(cipher, nonce, sealed[..n]))
  }

  function EnvelopeOpen(cipher: Cipher, aad: seq<byte>, data: seq<byte>): Result<seq<byte>, Error> {
    if |data| < TAG_SIZE + NONCE_SIZE then Failure(CiphertextTooShort)
    else GcmOpen(cipher, data[|data| - NONCE_SIZE..], aad, data[..|data| - NONCE_SIZE])
  }

  /** Which inputs sealing refuses before touching any buffer. */
  function SealRefusal(nonce: seq<byte>, aad: seq<byte>, pt: seq<byte>): Option<Error> {
    if |nonce| != NONCE_SIZE then Some(InvalidNonceLength)
    else if !LengthsAccepted(|aad|, |pt|) then Some(InputTooLarge)
    else None
  }

  // ---------------------------------------------------------------------------
  // What GCM is for
  // ---------------------------------------------------------------------------

  /** Opening accepts exactly what sealing produces: it returns pt if and only if
      the input is the sealed form of pt. */
  lemma OpenInvertsSeal(cipher: Cipher, nonce: Nonce, aad: seq<byte>, sealed: seq<byte>, pt: seq<byte>)
    requires LengthsAccepted(|aad|, |pt|)
    ensures GcmOpen(cipher, nonce, aad, sealed) == Success(pt) <==> sealed == GcmSeal(cipher, nonce, aad, pt)
  {
    hide GcmTag, CtrXor, Advance;
    CtrTwice(GcmLayout, cipher, Advance(GcmLayout, J0(nonce), 1), pt);
    if sealed == GcmSeal(cipher, nonce, aad, pt) {
      assert sealed[..|pt|] == GcmCtr(cipher, nonce, pt);
      assert sealed[|pt|..] == GcmTag(cipher, nonce, aad, GcmCtr(cipher, nonce, pt));
    }
    if GcmOpen(cipher, nonce, aad, sealed) == Success(pt) {
      var ct := sealed[..|sealed| - TAG_SIZE];
      CtrTwice(GcmLayout, cipher, Advance(GcmLayout, J0(nonce), 1), ct);
      assert sealed == ct + sealed[|sealed| - TAG_SIZE..];
    }
  }

  /** Envelopes: an accepted plaintext comes back from its own envelope. */
  lemma EnvelopeRoundTrip(cipher: Cipher, nonce: Nonce, aad: seq<byte>, pt: seq<byte>)
    requires LengthsAccepted(|aad|, |pt|)
    ensures EnvelopeOpen(cipher, aad, GcmSeal(cipher, nonce, aad, pt) + nonce) == Success(pt)
  {
    hide GcmSeal, GcmOpen;
    var s := GcmSeal(cipher, nonce, aad, pt);
    assert (s + nonce)[..|s|] == s && (s + nonce)[|s|..] == nonce;
    OpenInvertsSeal(cipher, nonce, aad, s, pt);
  }

  lemma J0Counter(nonce: Nonce)
    ensures CounterOf(GcmLayout, J0(nonce)) == 1
  {
    assert J0(nonce)[12..] == [0, 0, 0, 1];
    assert FromBe([0, 0, 0, 1]) == 1 by {
      assert [0, 0, 0, 1][..3] == [0, 0, 0];
      assert [0, 0, 0][..2] == [0, 0];
      assert [0, 0][..1] == [0];
    }
  }

  /** The data limit is exact: the counters 2, 3, ... of a message never wrap if
      and only if the message has at most MAX_GCM_DATA_LEN bytes. */
  lemma DataLimitIsExact(nonce: Nonce, len: nat)
    ensures len <= MAX_GCM_DATA_LEN <==>
      forall i | 1 <= i <= BlockCount(len) :: CounterOf(GcmLayout, Advance(GcmLayout, J0(nonce), i)) == i + 1
  {
    hide CounterOf, Advance, BlockCount;
    J0Counter(nonce);
    forall i: nat ensures CounterOf(GcmLayout, Advance(GcmLayout, J0(nonce), i)) == (i + 1) % TWO32 {
      AdvanceAdd(GcmLayout, J0(nonce), i, 0);
    }
    BlockCountBound(len, TWO32 - 2);
    assert MAX_GCM_DATA_LEN == 16 * (TWO32 - 2);
    if len > MAX_GCM_DATA_LEN {
      assert TWO32 - 1 <= BlockCount(len);
      assert CounterOf(GcmLayout, Advance(GcmLayout, J0(nonce), TWO32 - 1)) == 0;
    }
  }

  /** No counter block of a message repeats and none is the block that masks the tag,
      position 0, if and only if the message has at most one block more than accepted. */
  lemma CountersDistinct(nonce: Nonce, len: nat)
    ensures len <= MAX_GCM_DATA_LEN + 16 <==>
      forall i, j | 0 <= i < j <= BlockCount(len) ::
        Advance(GcmLayout, J0(nonce), i) != Advance(GcmLayout, J0(nonce), j)
  {
    hide Advance, BlockCount;
    BlockCountBound(len, TWO32 - 1);
    assert MAX_GCM_DATA_LEN + 16 == 16 * (TWO32 - 1);
    if len <= MAX_GCM_DATA_LEN + 16 {
      forall i, j | 0 <= i < j <= BlockCount(len)
        ensures Advance(GcmLayout, J0(nonce), i) != Advance(GcmLayout, J0(nonce), j)
      {
        AdvanceRepeats(GcmLayout, J0(nonce), i, j);
      }
    } else {
      AdvanceRepeats(GcmLayout, J0(nonce), 0, TWO32);
      assert Advance(GcmLayout, J0(nonce), 0) == Advance(GcmLayout, J0(nonce), TWO32);
    }
  }

  lemma J0Parts(nonce: Nonce, i: nat)
    ensures Advance(GcmLayout, J0(nonce), i)[..12] == nonce
    ensures CounterOf(GcmLayout, Advance(GcmLayout, J0(nonce), i)) == (i + 1) % TWO32
  {
    J0Counter(nonce);
    AdvanceAdd(GcmLayout, J0(nonce), i, 0);
    hide CounterOf, ToBe;
  }

  lemma ZeroBlockCounter()
    ensures CounterOf(GcmLayout, ZERO_BLOCK) == 0
  {
    assert ZERO_BLOCK[12..] == [0, 0, 0, 0];
    assert FromBe([0, 0, 0, 0]) == 0 by {
      assert [0, 0, 0, 0][..3] == [0, 0, 0];
      assert [0, 0, 0][..2] == [0, 0];
      assert [0, 0][..1] == [0];
    }
  }

  /** Over all accepted messages under one key, a block cipher input identifies its
      nonce and its position: position 0 masks the tag, the others are keystream. */
  lemma InputsIdentifyThemselves(nonce: Nonce, len: nat, i: nat, nonce': Nonce, len': nat, j: nat)
    requires len <= MAX_GCM_DATA_LEN && i <= BlockCount(len)
    requires len' <= MAX_GCM_DATA_LEN && j <= BlockCount(len')
    ensures Advance(GcmLayout, J0(nonce), i) == Advance(GcmLayout, J0(nonce'), j) <==> nonce == nonce' && i == j
  {
    hide Advance, BlockCount, J0, CounterOf;
    BlockCountBound(len, TWO32 - 2);
    BlockCountBound(len', TWO32 - 2);
    J0Parts(nonce, i);
    J0Parts(nonce', j);
  }

  /** No input of an accepted message is the zero block, whose encryption is the hash
      subkey. */
  lemma SubkeyInputIsApart(nonce: Nonce, len: nat, i: nat)
    requires len <= MAX_GCM_DATA_LEN && i <= BlockCount(len)
    ensures Advance(GcmLayout, J0(nonce), i) != ZERO_BLOCK
  {
    hide Advance, BlockCount, J0, CounterOf;
    BlockCountBound(len, TWO32 - 2);
    J0Parts(nonce, i);
    ZeroBlockCounter();
  }

  // ---------------------------------------------------------------------------
  // The bytes of a sealed message
  // ---------------------------------------------------------------------------

  lemma CounterBlockIs(nonce: Nonce, i: nat)
    requires i + 1 < TWO32
    ensures Advance(GcmLayout, J0(nonce), i) == nonce + ToBe(i + 1, 4)
  {
    hide FromBe, ToBe, CounterOf;
    J0Counter(nonce);
    assert J0(nonce)[..12] == nonce;
    assert (1 + i) % TWO32 == i + 1;
  }

  /** The mask of a tag is the encryption of the block at position 0, the nonce followed
      by the number one; without it a tag is the GHASH of AAD and ciphertext. */
  lemma TagMask(cipher: Cipher, nonce: Nonce, aad: seq<byte>, ct: seq<byte>)
    ensures XorBytes(GcmTag(cipher, nonce, aad, ct), GhashOf(cipher.Encrypt(ZERO_BLOCK), aad, ct))
         == cipher.Encrypt(Advance(GcmLayout, J0(nonce), 0)) == cipher.Encrypt(nonce + [0, 0, 0, 1])
  {
    hide Advance, GhashOf, XorBytes;
    AdvanceAdd(GcmLayout, J0(nonce), 0, 0);
    XorBytesTwice(GhashOf(cipher.Encrypt(ZERO_BLOCK), aad, ct), cipher.Encrypt(J0(nonce)));
  }

  /** Data byte j of an accepted message meets byte j mod 16 of the encryption of the
      nonce followed by the big-endian counter 2 + j / 16, which is position 1 + j / 16. */
  lemma DataByteMeets(cipher: Cipher, nonce: Nonce, data: seq<byte>, j: nat)
    requires j < |data| <= MAX_GCM_DATA_LEN
    ensures 1 <= 1 + j / 16 <= BlockCount(|data|)
    ensures Advance(GcmLayout, J0(nonce), 1 + j / 16) == nonce + ToBe(2 + j / 16, 4)
    ensures GcmCtr(cipher, nonce, data)[j] == XorByte(data[j], cipher.Encrypt(nonce + ToBe(2 + j / 16, 4))[j % 16])
  {
    hide Advance, J0, XorByte, ToBe;
    var i := j / 16;
    BlockCountBound(|data|, TWO32 - 2);
    CounterBlockIs(nonce, 1 + i);
    AdvanceAdd(GcmLayout, J0(nonce), 1, i);
  }

  lemma GhashOfNothing(subkey: Block)
    ensures GhashOf(subkey, [], []) == ZERO_BLOCK
  {
    hide Load, Store, Words, Polyval.Ghash, Polyval.GhashMul;
    var h := Load(GhashOrder, subkey);
    EmptyMessage();
    GhashOfZeroBlock(h);
    StoreZero();
  }

  lemma EmptyMessage()
    ensures MessageWords(GhashOrder, [], []) == [0]
  {
    hide FromBe, ToBe;
    assert ZeroPad([]) == [];
    assert LengthBlock(GhashOrder, 0, 0) == ZERO_BLOCK by { ToBeZero(8); }
    FromBeZero(16);
    assert Zeros(16) == ZERO_BLOCK;
  }

  lemma {:induction false} ToBeZero(n: nat)
    ensures ToBe(0, n) == Zeros(n)
    decreases n
  {
    if n > 0 { ToBeZero(n - 1); }
  }

  lemma {:induction false} FromBeZero(n: nat)
    ensures FromBe(Zeros(n)) == 0
    decreases n
  {
    if n > 0 {
      assert Zeros(n)[..n - 1] == Zeros(n - 1);
      FromBeZero(n - 1);
    }
  }

  lemma GhashOfZeroBlock(h: Field.u128)
    ensures Polyval.Ghash(h, 0, [0]) == 0
  {
    hide Polyval.MulFrom;
    assert Gf2.Xor(0, 0) == 0;
    ZeroTimes(h, 0);
    assert [0][1..] == [];
  }

  lemma {:induction false} ZeroTimes(v: nat, i: nat)
    ensures Polyval.MulFrom(0, v, 0, i) == 0
    decreases 128 - i
  {
    if i < 128 {
      Gf2.BitOfZero(127 - i);
      ZeroTimes(Polyval.NextV(v), i + 1);
    }
  }

  lemma StoreZero()
    ensures Store(GhashOrder, 0) == ZERO_BLOCK
  {
    ToBeZero(16);
  }

  /** With neither AAD nor data a tag is the bare mask. */
  lemma EmptyTag(cipher: Cipher, nonce: Nonce)
    ensures GcmTag(cipher, nonce, [], []) == cipher.Encrypt(nonce + [0, 0, 0, 1])
  {
    hide GhashOf, XorByte;
    GhashOfNothing(cipher.Encrypt(ZERO_BLOCK));
    var mask := cipher.Encrypt(J0(nonce));
    forall k | 0 <= k < 16 ensures XorByte(0, mask[k]) == mask[k] {
      ZeroXor(mask[k]);
    }
  }

  lemma ZeroXor(b: byte)
    ensures XorByte(0, b) == b
  {
    hide Gf2.Xor;
    Gf2.XorZero(b);
    Gf2.XorCommutes(0, b);
  }

  /** Ciphertext first, tag last. */
  lemma SealedParts(cipher: Cipher, nonce: Nonce, aad: seq<byte>, pt: seq<byte>)
    ensures var s := GcmSeal(cipher, nonce, aad, pt);
            && s[..|pt|] == GcmCtr(cipher, nonce, pt)
            && s[|pt|..] == GcmTag(cipher, nonce, aad, s[..|pt|])
  {
    hide GcmTag, CtrXor;
    var ct := GcmCtr(cipher, nonce, pt);
    assert (ct + GcmTag(cipher, nonce, aad, ct))[..|pt|] == ct;
  }

  /** A message is accepted exactly when its data counters do not wrap and both bit
      lengths fit 64 bits. */
  lemma AcceptedMeansSafe(nonce: Nonce, aadLen: nat, dataLen: nat)
    ensures LengthsAccepted(aadLen, dataLen) <==>
      && (forall i | 1 <= i <= BlockCount(dataLen) ::
            CounterOf(GcmLayout, Advance(GcmLayout, J0(nonce), i)) == i + 1)
      && 8 * aadLen < Field.TWO64 && 8 * dataLen < Field.TWO64
  {
    hide CounterOf, Advance, BlockCount;
    DataLimitIsExact(nonce, dataLen);
  }

  /** Which failure opening reports: a nonce of another length before anything else,
      then a missing tag, then a length, and a wrong tag last. */
  lemma OpenFailures(cipher: Cipher, nonce: seq<byte>, aad: seq<byte>, sealed: seq<byte>)
    ensures var r := GcmOpen(cipher, nonce, aad, sealed);
            && (r == Failure(InvalidNonceLength) <==> |nonce| != 12)
            && (r == Failure(InputTooLarge) <==>
                  |nonce| == 12 && |sealed| >= 16 && !LengthsAccepted(|aad|, |sealed| - 16))
            && (r == Failure(Decrypt) <==>
                  |nonce| == 12 && (|sealed| < 16 || (LengthsAccepted(|aad|, |sealed| - 16)
                  && GcmTag(cipher, nonce, aad, sealed[..|sealed| - 16]) != sealed[|sealed| - 16..])))
  {
    hide GcmTag, GcmCtr, LengthsAccepted;
  }

  lemma SealRefuses(nonce: seq<byte>, aad: seq<byte>, pt: seq<byte>)
    ensures SealRefusal(nonce, aad, pt) == Some(InvalidNonceLength) <==> |nonce| != 12
    ensures SealRefusal(nonce, aad, pt) == Some(InputTooLarge) <==> |nonce| == 12 && !LengthsAccepted(|aad|, |pt|)
    ensures SealRefusal(nonce, aad, pt) == None <==> |nonce| == 12 && LengthsAccepted(|aad|, |pt|)
  {
  }

  /** An envelope ends in its nonce; anything shorter than tag and nonce is refused. */
  lemma EnvelopeFailures(cipher: Cipher, aad: seq<byte>, data: seq<byte>)
    ensures EnvelopeOpen(cipher, aad, data) == Failure(CiphertextTooShort) <==> |data| < 28
    ensures |data| >= 28 ==>
      EnvelopeOpen(cipher, aad, data) == GcmOpen(cipher, data[|data| - 12..], aad, data[..|data| - 12])
  {
    hide GcmTag, GcmCtr, LengthsAccepted;
  }
}

module Gcm {
  import opened Field
  import opened Bytes
  import opened Multiply
  import opened Polyval
  import opened Absorption
  import opened Ctr
  import opened KeyLadder
  import opened Hashing
  import opened Wrappers
  import opened GcmSpec

  /** The reusable key state: the block cipher and the GHASH key powers. */
  class KeyState {
    const target: Target
    const cipher: Cipher
    const powers: Powers

    ghost predicate Valid() {
      var subkey := Load(GhashOrder, cipher.Encrypt(ZERO_BLOCK));
      Ladder(powers) && Mulx(subkey) < TWO128 && powers[0] == Mulx(subkey)
    }

    constructor (target: Target, aes: (Key, Block) -> Block, key: Key)
      ensures Valid() && cipher == Cipher(aes, key)
    {
      hide Ladder, Mulx, Load;
      var c := Cipher(aes, key);
      var subkey := new byte[16](_ => 0);
      assert subkey[..] == ZERO_BLOCK;
      CopyInto(subkey, 0, c.Encrypt(subkey[..]));
      assert subkey[..] == c.Encrypt(ZERO_BLOCK);
      var p := InitGhashKey(target, subkey);
      this.target := target;
      this.cipher := c;
      this.powers := p;
    }

    /** One block of serial counter mode, possibly partial. */
    method SerialBlock(counter: array<byte>, data: array<byte>, off: nat, done: nat, n: nat,
        ghost start: Block, ghost before: seq<byte>, ghost src: seq<byte>)
      requires counter.Length == 16 && counter != data && off + |src| <= data.Length == |before|
      requires src == before[off..off + |src|] && done < |src| && n == NextLength(done, |src|)
      requires Progress(GcmLayout, cipher, start, before, off, src, done, data[..], counter[..])
      modifies counter, data
      ensures Progress(GcmLayout, cipher, start, before, off, src, done + n, data[..], counter[..])
    {
      hide *;
      ghost var now, at := data[..], counter[..];
      ProgressNow(GcmLayout, cipher, start, before, off, src, done, now, at);
      var keystream := cipher.Encrypt(counter[..]);
      XorBlock(GcmLayout, cipher, start, data, off, done, n, keystream, src, before);
      IncrementCounter(counter);
      ProgressNext(GcmLayout, cipher, start, before, off, src, done, now, at, data[..], counter[..]);
    }

    /** Single-block counter mode, the last block possibly partial. */
    method ApplyCtrSerial(counter: array<byte>, data: array<byte>, off: nat, len: nat)
      requires counter.Length == 16 && counter != data && off + len <= data.Length
      modifies counter, data
      ensures var out := CtrXor(GcmLayout, cipher, old(counter[..]), old(data[off..off + len]));
              data[..] == Splice(old(data[..]), off, out)
      ensures counter[..] == Advance(GcmLayout, old(counter[..]), BlockCount(len))
    {
      hide *;
      ghost var start: Block := counter[..];
      ghost var src, before := data[off..off + len], data[..];
      ProgressStarts(GcmLayout, cipher, start, before, off, src);
      var done := 0;
      while done < len
        invariant done <= len
        invariant Progress(GcmLayout, cipher, start, before, off, src, done, data[..], counter[..])
      {
        var n := NextLength(done, len);
        SerialBlock(counter, data, off, done, n, start, before, src);
        done := done + n;
      }
      ProgressEnds(GcmLayout, cipher, start, before, off, src, done, data[..], counter[..]);
    }

    /** A fresh hasher that has absorbed the associated data. */
    method StartHash(aad: seq<byte>) returns (hasher: Hasher)
      requires Valid()
      ensures fresh(hasher) && fresh(hasher.backend) && hasher.Valid() && hasher.order == GhashOrder
      ensures hasher.H() == powers[0]
      ensures hasher.backend.y == Absorb(GhashOrder, powers[0], 0, aad)
    {
      hide Ladder, Absorb, Mulx;
      hasher := new Hasher(GhashOrder, target, powers);
      hasher.AbsorbPadded(aad);
    }

    /** The counter block after J0. */
    method StartCounter(nonce: Nonce) returns (counter: array<byte>)
      ensures fresh(counter) && counter.Length == 16
      ensures counter[..] == Advance(GcmLayout, J0(nonce), 1)
    {
      hide Advance, J0;
      counter := new byte[16](_ => 0);
      CopyInto(counter, 0, J0(nonce));
      assert counter[..] == J0(nonce);
      IncrementCounter(counter);
    }

    /** Length block, output reversal and mask. */
    method FinishTag(hasher: Hasher, nonce: Nonce, aad: seq<byte>, ghost ct: seq<byte>, dataLen: nat)
      returns (r: Option<Block>)
      requires Valid() && hasher.Valid() && hasher.order == GhashOrder && hasher.H() == powers[0]
      requires |ct| == dataLen
      requires hasher.backend.y == Absorb(GhashOrder, powers[0], Absorb(GhashOrder, powers[0], 0, aad), ct)
      modifies hasher.backend`y
      ensures r == if |aad| < TWO61 && dataLen < TWO61 then Some(GcmTag(cipher, nonce, aad, ct)) else None
    {
      hide Ladder, Absorb, Mulx, Load, Store, Horner, GhashOf, Digest, J0;
      var digest := hasher.Finalize(|aad|, dataLen);
      SectionsMakeDigest(GhashOrder, powers[0], aad, ct);
      DigestIsGhash(cipher.Encrypt(ZERO_BLOCK), aad, ct);
      if digest == None { return None; }
      var mask := cipher.Encrypt(J0(nonce));
      r := Some(XorBytes(digest.value, mask));
    }

    // -------------------------------------------------------------------------
    // Tails
    // -------------------------------------------------------------------------

    method SealTail(hasher: Hasher, counter: array<byte>, tail: seq<byte>, out: array<byte>, at: nat)
      requires Valid() && hasher.Valid() && hasher.order == GhashOrder
      requires counter.Length == 16 && counter != out && at + |tail| <= out.Length
      modifies hasher.backend`y, counter, out
      ensures var ct := CtrXor(GcmLayout, cipher, old(counter[..]), tail);
              && out[..] == Splice(old(out[..]), at, ct)
              && hasher.backend.y == Absorb(GhashOrder, hasher.H(), old(hasher.backend.y), ct)
    {
      hide Ladder, Absorb, Mulx, CtrXor, Advance, Splice;
      ghost var ct := CtrXor(GcmLayout, cipher, counter[..], tail);
      SpliceParts(out[..], at, tail);
      SpliceParts(out[..], at, ct);
      SpliceOver(out[..], at, tail, ct);
      CopyInto(out, at, tail);
      ApplyCtrSerial(counter, out, at, |tail|);
      hasher.AbsorbPadded(out[at..at + |tail|]);
    }

    method OpenTail(hasher: Hasher, counter: array<byte>, tail: seq<byte>, out: array<byte>, at: nat)
      requires Valid() && hasher.Valid() && hasher.order == GhashOrder
      requires counter.Length == 16 && counter != out && at + |tail| <= out.Length
      modifies hasher.backend`y, counter, out
      ensures out[..] == Splice(old(out[..]), at, CtrXor(GcmLayout, cipher, old(counter[..]), tail))
      ensures hasher.backend.y == Absorb(GhashOrder, hasher.H(), old(hasher.backend.y), tail)
    {
      hide Ladder, Absorb, Mulx, CtrXor, Advance, Splice;
      ghost var pt := CtrXor(GcmLayout, cipher, counter[..], tail);
      SpliceParts(out[..], at, tail);
      SpliceOver(out[..], at, tail, pt);
      hasher.AbsorbPadded(tail);
      CopyInto(out, at, tail);
      ApplyCtrSerial(counter, out, at, |tail|);
    }

    method OpenTailInPlace(hasher: Hasher, counter: array<byte>, data: array<byte>, at: nat, len: nat)
      requires Valid() && hasher.Valid() && hasher.order == GhashOrder
      requires counter.Length == 16 && counter != data && at + len <= data.Length
      modifies hasher.backend`y, counter, data
      ensures var tail := old(data[at..at + len]);
              && data[..] == Splice(old(data[..]), at, CtrXor(GcmLayout, cipher, old(counter[..]), tail))
              && hasher.backend.y == Absorb(GhashOrder, hasher.H(), old(hasher.backend.y), tail)
    {
      hide Ladder, Absorb, Mulx, CtrXor, Advance, Splice;
      hasher.AbsorbPadded(data[at..at + len]);
      ApplyCtrSerial(counter, data, at, len);
    }

    /** Whole blocks through the four- and one-lane path, then a partial block. */
    method SealTailInPlace(hasher: Hasher, counter: array<byte>, data: array<byte>, at: nat, len: nat)
      requires Valid() && hasher.Valid() && hasher.order == GhashOrder && len < PAR_BYTES
      requires counter.Length == 16 && counter != data && at + len <= data.Length
      modifies hasher.backend`y, counter, data
      ensures var ct := CtrXor(GcmLayout, cipher, old(counter[..]), old(data[at..at + len]));
              && data[..] == Splice(old(data[..]), at, ct)
              && hasher.backend.y == Absorb(GhashOrder, hasher.H(), old(hasher.backend.y), ct)
    {
      hide Ladder, Absorb, Mulx, CtrXor, Advance, Splice;
      ghost var start: Block := counter[..];
      ghost var y0 := hasher.backend.y;
      ghost var pt := data[at..at + len];
      var full := len / 16 * 16;
      ghost var a := CtrXor(GcmLayout, cipher, start, pt[..full]);
      ghost var mid := Advance(GcmLayout, start, full / 16);
      ghost var b := CtrXor(GcmLayout, cipher, mid, pt[full..]);
      assert pt == pt[..full] + pt[full..];
      CtrConcat(GcmLayout, cipher, start, pt[..full], pt[full..]);
      AbsorbConcat(GhashOrder, hasher.H(), y0, a, b);
      SpliceTwice(data[..], at, a, b);
      assert data[at..at + full] == pt[..full];
      if full > 0 {
        hasher.backend.SealInPlaceTailBlocks(cipher, counter, data, at, full);
      } else {
        EmptyRegion(cipher, start, hasher.H(), y0, data[..], at, pt[..full]);
      }
      var rest := len - full;
      ReadRest(old(data[..]), at, pt, a, data[..], at + full, rest);
      if rest > 0 {
        SealPartialInPlace(hasher, counter, data, at + full, rest);
      } else {
        EmptyRegion(cipher, mid, hasher.H(), hasher.backend.y, data[..], at + full, pt[full..]);
      }
    }

    method SealPartialInPlace(hasher: Hasher, counter: array<byte>, data: array<byte>, at: nat, len: nat)
      requires Valid() && hasher.Valid() && hasher.order == GhashOrder
      requires counter.Length == 16 && counter != data && at + len <= data.Length
      modifies hasher.backend`y, counter, data
      ensures var ct := CtrXor(GcmLayout, cipher, old(counter[..]), old(data[at..at + len]));
              && data[..] == Splice(old(data[..]), at, ct)
              && hasher.backend.y == Absorb(GhashOrder, hasher.H(), old(hasher.backend.y), ct)
    {
      hide Ladder, Absorb, Mulx, CtrXor, Advance, Splice;
      ghost var ct := CtrXor(GcmLayout, cipher, counter[..], data[at..at + len]);
      SpliceParts(data[..], at, ct);
      ApplyCtrSerial(counter, data, at, len);
      hasher.AbsorbPadded(data[at..at + len]);
    }

    // -------------------------------------------------------------------------
    // The four paths
    // -------------------------------------------------------------------------

    method SealBody(hasher: Hasher, counter: array<byte>, pt: seq<byte>, out: array<byte>, off: nat)
      requires Valid() && hasher.Valid() && hasher.order == GhashOrder
      requires counter.Length == 16 && counter != out && off + |pt| <= out.Length
      modifies hasher.backend`y, counter, out
      ensures out[..] == Splice(old(out[..]), off, CtrXor(GcmLayout, cipher, old(counter[..]), pt))
      ensures var ct := CtrXor(GcmLayout, cipher, old(counter[..]), pt);
              hasher.backend.y == Absorb(GhashOrder, hasher.H(), old(hasher.backend.y), ct)
    {
      hide Ladder, Absorb, Mulx, CtrXor, Advance, Splice;
      ghost var start: Block := counter[..];
      ghost var h, y0 := hasher.H(), hasher.backend.y;
      var bulk := |pt| / PAR_BYTES * PAR_BYTES;
      var ptBulk, ptTail := pt[..bulk], pt[bulk..];
      BatchesAligned(|pt| / PAR_BYTES);
      assert pt == ptBulk + ptTail;
      ghost var a := CtrXor(GcmLayout, cipher, start, ptBulk);
      ghost var at := Advance(GcmLayout, start, bulk / 16);
      ghost var b := CtrXor(GcmLayout, cipher, at, ptTail);
      CtrConcat(GcmLayout, cipher, start, ptBulk, ptTail);
      AbsorbConcat(GhashOrder, h, y0, a, b);
      SpliceTwice(out[..], off, a, b);
      if ptBulk != [] {
        hasher.backend.SealBulk(cipher, counter, ptBulk, out, off);
      } else {
        EmptyRegion(cipher, start, h, y0, out[..], off, ptBulk);
      }
      if ptTail != [] {
        SealTail(hasher, counter, ptTail, out, off + bulk);
      } else {
        EmptyRegion(cipher, at, h, hasher.backend.y, out[..], off + bulk, ptTail);
      }
    }

    /** Two-buffer seal: fused bulk, then a serial tail. */
    method Seal(nonce: Nonce, aad: seq<byte>, pt: seq<byte>, out: array<byte>, off: nat) returns (tag: Option<Block>)
      requires Valid() && off + |pt| <= out.Length
      modifies out
      ensures var ct := GcmCtr(cipher, nonce, pt);
              && out[..] == Splice(old(out[..]), off, ct)
              && tag == if |aad| < TWO61 && |pt| < TWO61 then Some(GcmTag(cipher, nonce, aad, ct)) else None
    {
      hide Ladder, Absorb, Mulx, CtrXor, Advance, Splice, GcmTag, J0;
      var hasher := StartHash(aad);
      var counter := StartCounter(nonce);
      SealBody(hasher, counter, pt, out, off);
      tag := FinishTag(hasher, nonce, aad, GcmCtr(cipher, nonce, pt), |pt|);
    }

    method SealInPlaceBody(hasher: Hasher, counter: array<byte>, data: array<byte>, off: nat, len: nat)
      requires Valid() && hasher.Valid() && hasher.order == GhashOrder
      requires counter.Length == 16 && counter != data && off + len <= data.Length
      modifies hasher.backend`y, counter, data
      ensures var out := CtrXor(GcmLayout, cipher, old(counter[..]), old(data[off..off + len]));
              data[..] == Splice(old(data[..]), off, out)
      ensures var out := CtrXor(GcmLayout, cipher, old(counter[..]), old(data[off..off + len]));
              hasher.backend.y == Absorb(GhashOrder, hasher.H(), old(hasher.backend.y), out)
    {
      hide Ladder, Absorb, Mulx, CtrXor, Advance, Splice;
      ghost var start: Block := counter[..];
      ghost var h, y0 := hasher.H(), hasher.backend.y;
      ghost var pt := data[off..off + len];
      var bulk := len / PAR_BYTES * PAR_BYTES;
      ghost var a := CtrXor(GcmLayout, cipher, start, pt[..bulk]);
      ghost var at := Advance(GcmLayout, start, bulk / 16);
      ghost var b := CtrXor(GcmLayout, cipher, at, pt[bulk..]);
      BatchesAligned(len / PAR_BYTES);
      assert pt == pt[..bulk] + pt[bulk..];
      CtrConcat(GcmLayout, cipher, start, pt[..bulk], pt[bulk..]);
      AbsorbConcat(GhashOrder, h, y0, a, b);
      SpliceTwice(data[..], off, a, b);
      assert data[off..off + bulk] == pt[..bulk];
      if bulk > 0 {
        hasher.backend.SealInPlaceBulk(cipher, counter, data, off, bulk);
      } else {
        EmptyRegion(cipher, start, h, y0, data[..], off, pt[..bulk]);
      }
      var rest := len - bulk;
      ReadRest(old(data[..]), off, pt, a, data[..], off + bulk, rest);
      if rest > 0 {
        SealTailInPlace(hasher, counter, data, off + bulk, rest);
      } else {
        EmptyRegion(cipher, at, h, hasher.backend.y, data[..], off + bulk, pt[bulk..]);
      }
    }

    /** One-buffer seal: fused bulk, then tail blocks, then a partial block. */
    method SealInPlace(nonce: Nonce, aad: seq<byte>, data: array<byte>, off: nat, len: nat) returns (tag: Option<Block>)
      requires Valid() && off + len <= data.Length
      modifies data
      ensures var ct := GcmCtr(cipher, nonce, old(data[off..off + len]));
              && data[..] == Splice(old(data[..]), off, ct)
              && tag == if |aad| < TWO61 && len < TWO61 then Some(GcmTag(cipher, nonce, aad, ct)) else None
    {
      hide Ladder, Absorb, Mulx, CtrXor, Advance, Splice, GcmTag, J0;
      var hasher := StartHash(aad);
      var counter := StartCounter(nonce);
      ghost var pt := data[off..off + len];
      SealInPlaceBody(hasher, counter, data, off, len);
      tag := FinishTag(hasher, nonce, aad, GcmCtr(cipher, nonce, pt), len);
    }

    method OpenBody(hasher: Hasher, counter: array<byte>, ct: seq<byte>, out: array<byte>, off: nat)
      requires Valid() && hasher.Valid() && hasher.order == GhashOrder
      requires counter.Length == 16 && counter != out && off + |ct| <= out.Length
      modifies hasher.backend`y, counter, out
      ensures out[..] == Splice(old(out[..]), off, CtrXor(GcmLayout, cipher, old(counter[..]), ct))
      ensures hasher.backend.y == Absorb(GhashOrder, hasher.H(), old(hasher.backend.y), ct)
    {
      hide Ladder, Absorb, Mulx, CtrXor, Advance, Splice;
      ghost var start: Block := counter[..];
      ghost var h, y0 := hasher.H(), hasher.backend.y;
      var bulk := |ct| / PAR_BYTES * PAR_BYTES;
      var ctBulk, ctTail := ct[..bulk], ct[bulk..];
      BatchesAligned(|ct| / PAR_BYTES);
      assert ct == ctBulk + ctTail;
      ghost var a := CtrXor(GcmLayout, cipher, start, ctBulk);
      ghost var at := Advance(GcmLayout, start, bulk / 16);
      ghost var b := CtrXor(GcmLayout, cipher, at, ctTail);
      CtrConcat(GcmLayout, cipher, start, ctBulk, ctTail);
      AbsorbConcat(GhashOrder, h, y0, ctBulk, ctTail);
      SpliceTwice(out[..], off, a, b);
      if ctBulk != [] {
        hasher.backend.OpenBulk(cipher, counter, ctBulk, out, off);
      } else {
        EmptyRegion(cipher, start, h, y0, out[..], off, ctBulk);
      }
      if ctTail != [] {
        OpenTail(hasher, counter, ctTail, out, off + bulk);
      } else {
        EmptyRegion(cipher, at, h, hasher.backend.y, out[..], off + bulk, ctTail);
      }
    }

    /** Two-buffer open: the tag returned is the one the ciphertext should carry. */
    method Open(nonce: Nonce, aad: seq<byte>, ct: seq<byte>, out: array<byte>, off: nat) returns (tag: Option<Block>)
      requires Valid() && off + |ct| <= out.Length
      modifies out
      ensures out[..] == Splice(old(out[..]), off, GcmCtr(cipher, nonce, ct))
      ensures tag == if |aad| < TWO61 && |ct| < TWO61 then Some(GcmTag(cipher, nonce, aad, ct)) else None
    {
      hide Ladder, Absorb, Mulx, CtrXor, Advance, Splice, GcmTag, J0;
      var hasher := StartHash(aad);
      var counter := StartCounter(nonce);
      OpenBody(hasher, counter, ct, out, off);
      tag := FinishTag(hasher, nonce, aad, ct, |ct|);
    }

    method OpenInPlaceBody(hasher: Hasher, counter: array<byte>, data: array<byte>, off: nat, len: nat)
      requires Valid() && hasher.Valid() && hasher.order == GhashOrder
      requires counter.Length == 16 && counter != data && off + len <= data.Length
      modifies hasher.backend`y, counter, data
      ensures var out := CtrXor(GcmLayout, cipher, old(counter[..]), old(data[off..off + len]));
              data[..] == Splice(old(data[..]), off, out)
      ensures hasher.backend.y == Absorb(GhashOrder, hasher.H(), old(hasher.backend.y), old(data[off..off + len]))
    {
      hide Ladder, Absorb, Mulx, CtrXor, Advance, Splice;
      ghost var start: Block := counter[..];
      ghost var h, y0 := hasher.H(), hasher.backend.y;
      ghost var ct := data[off..off + len];
      var bulk := len / PAR_BYTES * PAR_BYTES;
      ghost var a := CtrXor(GcmLayout, cipher, start, ct[..bulk]);
      ghost var at := Advance(GcmLayout, start, bulk / 16);
      ghost var b := CtrXor(GcmLayout, cipher, at, ct[bulk..]);
      BatchesAligned(len / PAR_BYTES);
      assert ct == ct[..bulk] + ct[bulk..];
      CtrConcat(GcmLayout, cipher, start, ct[..bulk], ct[bulk..]);
      AbsorbConcat(GhashOrder, h, y0, ct[..bulk], ct[bulk..]);
      SpliceTwice(data[..], off, a, b);
      assert data[off..off + bulk] == ct[..bulk];
      if bulk > 0 {
        hasher.backend.OpenInPlaceBulk(cipher, counter, data, off, bulk);
      } else {
        EmptyRegion(cipher, start, h, y0, data[..], off, ct[..bulk]);
      }
      var rest := len - bulk;
      ReadRest(old(data[..]), off, ct, a, data[..], off + bulk, rest);
      if rest > 0 {
        OpenTailInPlace(hasher, counter, data, off + bulk, rest);
      } else {
        EmptyRegion(cipher, at, h, hasher.backend.y, data[..], off + bulk, ct[bulk..]);
      }
    }

    /** One-buffer open. */
    method OpenInPlace(nonce: Nonce, aad: seq<byte>, data: array<byte>, off: nat, len: nat) returns (tag: Option<Block>)
      requires Valid() && off + len <= data.Length
      modifies data
      ensures var ct := old(data[off..off + len]);
              && data[..] == Splice(old(data[..]), off, GcmCtr(cipher, nonce, ct))
              && tag == if |aad| < TWO61 && len < TWO61 then Some(GcmTag(cipher, nonce, aad, ct)) else None
    {
      hide Ladder, Absorb, Mulx, CtrXor, Advance, Splice, GcmTag, J0;
      var hasher := StartHash(aad);
      var counter := StartCounter(nonce);
      ghost var ct := data[off..off + len];
      OpenInPlaceBody(hasher, counter, data, off, len);
      tag := FinishTag(hasher, nonce, aad, ct, len);
    }

    // -------------------------------------------------------------------------
    // Framing
    // -------------------------------------------------------------------------

    /** Ciphertext and tag in a new buffer. The size check comes before the checks
        that EncryptTo makes. */
    method Encrypt(nonce: seq<byte>, aad: seq<byte>, pt: seq<byte>) returns (r: Result<seq<byte>, Error>)
      requires Valid()
      ensures r ==
        if |pt| + TAG_SIZE > USIZE_MAX then Failure(InputTooLarge)
        else match SealRefusal(nonce, aad, pt)
          case Some(e) => Failure(e)
          case None => Success(GcmSeal(cipher, nonce, aad, pt))
    {
      hide GcmSeal, Splice;
      var total := CheckedAdd(|pt|, TAG_SIZE);
      if total == None { return Failure(InputTooLarge); }
      var out := new byte[total.value](_ => 0);
      ghost var blank := out[..];
      var written := EncryptTo(nonce, aad, pt, out, out.Length);
      match written {
        case Failure(e) => r := Failure(e);
        case Success(_) =>
          SpliceWhole(blank, GcmSeal(cipher, nonce, aad, pt));
          r := Success(out[..]);
      }
    }

    /** Ciphertext, tag and nonce in one new buffer, sealed in place. */
    method EncryptEnvelope(nonce: seq<byte>, aad: seq<byte>, pt: seq<byte>) returns (r: Result<seq<byte>, Error>)
      requires Valid()
      ensures r == match SealRefusal(nonce, aad, pt)
        case Some(e) => Failure(e)
        case None => Success(GcmSeal(cipher, nonce, aad, pt) + nonce)
    {
      hide Splice, GcmTag, CtrXor, Ladder, Mulx;
      if |nonce| != NONCE_SIZE { return Failure(InvalidNonceLength); }
      if !LengthsAccepted(|aad|, |pt|) { return Failure(InputTooLarge); }
      var total := CheckedAdd(|pt|, TAG_SIZE + NONCE_SIZE);
      if total == None { return Failure(InputTooLarge); }
      var data := new byte[|pt|](i requires 0 <= i < |pt| => pt[i]);
      assert data[..] == pt == data[0..0 + |pt|];
      var tag := SealInPlace(nonce, aad, data, 0, |pt|);
      if tag == None { return Failure(Error.Encrypt); }
      SpliceWhole(pt, GcmCtr(cipher, nonce, pt));
      r := Success(data[..] + tag.value + nonce);
    }

    /** The same envelope into the first len bytes of a caller's buffer. */
    method EncryptEnvelopeTo(nonce: seq<byte>, aad: seq<byte>, pt: seq<byte>, out: array<byte>, len: nat)
      returns (r: Result<nat, Error>)
      requires Valid() && len <= out.Length
      modifies out
      ensures match SealRefusal(nonce, aad, pt)
        case Some(e) => r == Failure(e) && out[..] == old(out[..])
        case None =>
          if len < |pt| + 28 then r == Failure(OutputTooSmall) && out[..] == old(out[..])
          else
            && r == Success(|pt| + 28)
            && out[..] == Splice(old(out[..]), 0, GcmSeal(cipher, nonce, aad, pt) + nonce)
    {
      hide Splice, GcmSeal, Ladder, Mulx;
      if |nonce| != NONCE_SIZE { return Failure(InvalidNonceLength); }
      if !LengthsAccepted(|aad|, |pt|) { return Failure(InputTooLarge); }
      var total := CheckedAdd(|pt|, TAG_SIZE + NONCE_SIZE);
      if total == None { return Failure(InputTooLarge); }
      if len < total.value { return Failure(OutputTooSmall); }
      var ciphertextTagLen := |pt| + TAG_SIZE;
      var written := EncryptTo(nonce, aad, pt, out, ciphertextTagLen);
      if written.Failure? { return written; }
      SpliceTwice(old(out[..]), 0, GcmSeal(cipher, nonce, aad, pt), nonce);
      CopyInto(out, ciphertextTagLen, nonce);
      r := Success(total.value);
    }

    method Decrypt(nonce: seq<byte>, aad: seq<byte>, sealed: seq<byte>) returns (r: Result<seq<byte>, Error>)
      requires Valid()
      ensures r == GcmOpen(cipher, nonce, aad, sealed)
    {
      hide Splice, GcmTag, CtrXor, Ladder, Mulx;
      if |nonce| != NONCE_SIZE { return Failure(InvalidNonceLength); }
      if |sealed| < TAG_SIZE { return Failure(Error.Decrypt); }
      var n := |sealed| - TAG_SIZE;
      var ct, tag := sealed[..n], sealed[n..];
      if !LengthsAccepted(|aad|, n) { return Failure(InputTooLarge); }
      var data := new byte[n](i requires 0 <= i < n => ct[i]);
      assert data[..] == ct == data[0..0 + n];
      var expected := OpenInPlace(nonce, aad, data, 0, n);
      if expected == None { return Failure(Error.Decrypt); }
      if expected.value != tag { return Failure(Error.Decrypt); }
      SpliceWhole(ct, GcmCtr(cipher, nonce, ct));
      r := Success(data[..]);
    }

    /** Opening into a caller's buffer: on a tag mismatch the plaintext that was
        already written is wiped; any earlier failure leaves the buffer alone. */
    method DecryptTo(nonce: seq<byte>, aad: seq<byte>, sealed: seq<byte>, out: array<byte>, len: nat)
      returns (r: Result<nat, Error>)
      requires Valid() && len <= out.Length
      modifies out
      ensures match OpenRefusal(nonce, aad, sealed)
        case Some(e) => r == Failure(e) && out[..] == old(out[..])
        case None =>
          var n := |sealed| - TAG_SIZE;
          if len < n then r == Failure(OutputTooSmall) && out[..] == old(out[..])
          else match GcmOpen(cipher, nonce, aad, sealed)
            case Success(pt) => r == Success(n) && |pt| == n && out[..] == Splice(old(out[..]), 0, pt)
            case Failure(e) => r == Failure(e) && out[..] == Splice(old(out[..]), 0, Zeros(n))
    {
      hide Splice, GcmTag, CtrXor, Ladder, Mulx;
      if |nonce| != NONCE_SIZE { return Failure(InvalidNonceLength); }
      if |sealed| < TAG_SIZE { return Failure(Error.Decrypt); }
      var n := |sealed| - TAG_SIZE;
      var ct, tag := sealed[..n], sealed[n..];
      if !LengthsAccepted(|aad|, n) { return Failure(InputTooLarge); }
      if len < n { return Failure(OutputTooSmall); }
      var expected := Open(nonce, aad, ct, out, 0);
      if expected == None || expected.value != tag {
        SpliceOver(old(out[..]), 0, GcmCtr(cipher, nonce, ct), Zeros(n));
        CopyInto(out, 0, Zeros(n));
        return Failure(Error.Decrypt);
      }
      r := Success(n);
    }

    method DecryptEnvelope(aad: seq<byte>, data: seq<byte>) returns (r: Result<seq<byte>, Error>)
      requires Valid()
      ensures r == EnvelopeOpen(cipher, aad, data)
    {
      hide GcmOpen, Ladder, Mulx;
      if |data| < TAG_SIZE + NONCE_SIZE { return Failure(CiphertextTooShort); }
      var noncePos := |data| - NONCE_SIZE;
      r := Decrypt(data[noncePos..], aad, data[..noncePos]);
    }

    method DecryptEnvelopeTo(aad: seq<byte>, data: seq<byte>, out: array<byte>, len: nat)
      returns (r: Result<nat, Error>)
      requires Valid() && len <= out.Length
      modifies out
      ensures |data| < 28 ==> r == Failure(CiphertextTooShort) && out[..] == old(out[..])
      ensures |data| >= 28 ==>
        var n := |data| - 28;
        match OpenRefusal(data[n + 16..], aad, data[..n + 16])
        case Some(e) => r == Failure(e) && out[..] == old(out[..])
        case None =>
          if len < n then r == Failure(OutputTooSmall) && out[..] == old(out[..])
          else match EnvelopeOpen(cipher, aad, data)
            case Success(pt) => r == Success(n) && |pt| == n && out[..] == Splice(old(out[..]), 0, pt)
            case Failure(e) => r == Failure(e) && out[..] == Splice(old(out[..]), 0, Zeros(n))
    {
      hide GcmOpen, Splice, Ladder, Mulx;
      if |data| < TAG_SIZE + NONCE_SIZE { return Failure(CiphertextTooShort); }
      var noncePos := |data| - NONCE_SIZE;
      r := DecryptTo(data[noncePos..], aad, data[..noncePos], out, len);
    }

    /** Ciphertext and tag into the first len bytes of a caller's buffer. */
    method EncryptTo(nonce: seq<byte>, aad: seq<byte>, pt: seq<byte>, out: array<byte>, len: nat)
      returns (r: Result<nat, Error>)
      requires Valid() && len <= out.Length
      modifies out
      ensures match SealRefusal(nonce, aad, pt)
        case Some(e) => r == Failure(e) && out[..] == old(out[..])
        case None =>
          if len < |pt| + TAG_SIZE then r == Failure(OutputTooSmall) && out[..] == old(out[..])
          else r == Success(|pt| + TAG_SIZE) && out[..] == Splice(old(out[..]), 0, GcmSeal(cipher, nonce, aad, pt))
    {
      hide Splice, GcmTag, CtrXor, Ladder, Mulx;
      if |nonce| != NONCE_SIZE { return Failure(InvalidNonceLength); }
      if !LengthsAccepted(|aad|, |pt|) { return Failure(InputTooLarge); }
      var total := CheckedAdd(|pt|, TAG_SIZE);
      if total == None { return Failure(InputTooLarge); }
      if len < total.value { return Failure(OutputTooSmall); }
      var tag := Seal(nonce, aad, pt, out, 0);
      if tag == None { return Failure(Error.Encrypt); }
      SpliceTwice(old(out[..]), 0, GcmCtr(cipher, nonce, pt), tag.value);
      CopyInto(out, |pt|, tag.value);
      r := Success(total.value);
    }
  }

  function CheckedAdd(a: nat, b: nat): Option<nat> {
    if a + b <= USIZE_MAX then Some(a + b) else None
  }

  lemma TimesSixteen(m: nat)
    ensures (16 * m) % 16 == 0 && 16 * m / 16 == m
  {
  }

  lemma TimesBatch(k: nat)
    ensures (128 * k) % 128 == 0
  {
  }

  lemma BatchesAligned(k: nat)
    ensures (k * PAR_BYTES) % PAR_BYTES == 0 && (k * PAR_BYTES) % 16 == 0 && k * PAR_BYTES / 16 == 8 * k
  {
    TimesBatch(k);
    TimesSixteen(8 * k);
    assert k * PAR_BYTES == 128 * k == 16 * (8 * k);
  }

  /** An empty region is skipped; skipping it is the same as processing it. */
  lemma EmptyRegion(cipher: Cipher, start: Block, h: u128, y: u128, buffer: seq<byte>, off: nat, data: seq<byte>)
    requires data == [] && off <= |buffer|
    ensures Absorb(GhashOrder, h, y, data) == y
    ensures Absorb(GhashOrder, h, y, CtrXor(GcmLayout, cipher, start, data)) == y
    ensures Splice(buffer, off, CtrXor(GcmLayout, cipher, start, data)) == buffer
    ensures Advance(GcmLayout, start, 0) == start
  {
    hide Absorb, Advance;
    AbsorbNothing(GhashOrder, h, y);
    SpliceNothing(buffer, off);
    AdvanceAdd(GcmLayout, start, 0, 0);
    assert CtrXor(GcmLayout, cipher, start, data) == [];
  }
}

/**
 The hashing backend with its loops that interleave counter mode with GHASH. In
 the bulk loops the accumulator runs one eight-block batch behind the cipher.
 */
module Stitched {
  import opened Field
  import opened Bytes
  import opened Multiply
  import opened Polyval
  import opened KeyLadder
  import opened Ctr
  import opened Absorption

  // ---------------------------------------------------------------------------
  // Lanes of keystream
  // ---------------------------------------------------------------------------

  /** state holds the first |state| keystream blocks from start. */
  ghost predicate KeystreamLanes(state: seq<Block>, cipher: Cipher, start: Block) {
    forall i | 0 <= i < |state| :: state[i] == Keystream(GcmLayout, cipher, start, i)
  }

  method CounterBlocks(counter: array<byte>, n: nat) returns (ctr: seq<Block>)
    requires counter.Length == 16
    modifies counter
    ensures |ctr| == n && forall i | 0 <= i < n :: ctr[i] == Advance(GcmLayout, old(counter[..]), i)
    ensures counter[..] == Advance(GcmLayout, old(counter[..]), n)
  {
    hide Advance;
    ghost var start: Block := counter[..];
    AdvanceAdd(GcmLayout, start, 0, 0);
    ctr := [];
    for i := 0 to n
      invariant |ctr| == i && forall k | 0 <= k < i :: ctr[k] == Advance(GcmLayout, start, k)
      invariant counter[..] == Advance(GcmLayout, start, i)
    {
      ctr := ctr + [counter[..]];
      IncrementCounter(counter);
      AdvanceAdd(GcmLayout, start, i, 1);
    }
  }

  method EncryptLanes(cipher: Cipher, ctr: seq<Block>, ghost start: Block) returns (state: seq<Block>)
    requires forall i | 0 <= i < |ctr| :: ctr[i] == Advance(GcmLayout, start, i)
    ensures |state| == |ctr| && KeystreamLanes(state, cipher, start)
  {
    hide Advance;
    state := [];
    for i := 0 to |ctr|
      invariant |state| == i && KeystreamLanes(state, cipher, start)
    {
      state := state + [cipher.Encrypt(ctr[i])];
    }
  }

  /** Counter mode, extended by its next whole block. */
  lemma NextBlock(cipher: Cipher, start: Block, data: seq<byte>, i: nat, k: Block)
    requires 16 * i + 16 <= |data|
    requires k == Keystream(GcmLayout, cipher, start, i)
    ensures CtrXor(GcmLayout, cipher, start, data[..16 * i + 16])
         == CtrXor(GcmLayout, cipher, start, data[..16 * i]) + XorBytes(k, data[16 * i..16 * i + 16])
  {
    hide CtrXor, XorByte, Advance;
    var p := data[16 * i..16 * i + 16];
    assert data[..16 * i + 16] == data[..16 * i] + p;
    CtrConcat(GcmLayout, cipher, start, data[..16 * i], p);
    CtrOneBlock(GcmLayout, cipher, Advance(GcmLayout, start, i), p);
    assert k[..16] == k;
    forall j | 0 <= j < 16 ensures XorByte(p[j], k[j]) == XorByte(k[j], p[j]) {
      XorByteTwice(p[j], k[j]);
    }
    assert XorBytes(k, p) == XorBytes(p, k);
  }

  lemma WordsNextBlock(data: seq<byte>, b: Block)
    requires |data| % 16 == 0
    ensures Words(GhashOrder, data + b) == Words(GhashOrder, data) + [Load(GhashOrder, b)]
  {
    hide Words, Load;
    WordsConcat(GhashOrder, data, b);
    WordsOfBlock(GhashOrder, b);
  }

  /** The register image of a block: byte-reversed, then read little-endian. */
  function Reversed(b: Block): (v: u128)
    ensures v == Load(GhashOrder, b)
  {
    ByteReverseIsReverse(b);
    FromBeIsReversedFromLe(b);
    LoadFits(GhashOrder, b);
    FromLe(SwapHalves(Rev64(b)))
  }

  // ---------------------------------------------------------------------------
  // One batch of lanes
  // ---------------------------------------------------------------------------

  /** Encrypts one batch from plaintext to ciphertext, keeping the hash input. */
  method SealLanes(ghost cipher: Cipher, ghost start: Block, state: seq<Block>, pt: seq<byte>,
      ct: array<byte>, base: nat)
    returns (prev: seq<u128>)
    requires KeystreamLanes(state, cipher, start)
    requires |pt| == 16 * |state| && base + |pt| <= ct.Length
    modifies ct
    ensures ct[..] == Splice(old(ct[..]), base, CtrXor(GcmLayout, cipher, start, pt))
    ensures prev == Words(GhashOrder, CtrXor(GcmLayout, cipher, start, pt))
  {
    hide CtrXor, XorBytes, Words, Keystream, Load, Reversed, Splice;
    prev := [];
    SpliceNothing(ct[..], base);
    for i := 0 to |state|
      invariant ct[..] == Splice(old(ct[..]), base, CtrXor(GcmLayout, cipher, start, pt[..16 * i]))
      invariant prev == Words(GhashOrder, CtrXor(GcmLayout, cipher, start, pt[..16 * i]))
    {
      var p := pt[16 * i..16 * i + 16];
      var c := XorBytes(state[i], p);
      NextBlock(cipher, start, pt, i, state[i]);
      WordsNextBlock(CtrXor(GcmLayout, cipher, start, pt[..16 * i]), c);
      SpliceTwice(old(ct[..]), base, CtrXor(GcmLayout, cipher, start, pt[..16 * i]), c);
      CopyInto(ct, base + 16 * i, c);
      prev := prev + [Reversed(c)];
    }
    assert pt[..16 * |state|] == pt;
  }

  /** Encrypts one batch of a single buffer: each block is loaded, overwritten by
      its ciphertext, and the ciphertext is kept as hash input. */
  method SealLanesInPlace(ghost cipher: Cipher, ghost start: Block, state: seq<Block>, data: array<byte>, base: nat)
    returns (prev: seq<u128>)
    requires KeystreamLanes(state, cipher, start)
    requires base + 16 * |state| <= data.Length
    modifies data
    ensures var pt := old(data[base..base + 16 * |state|]);
            && data[..] == Splice(old(data[..]), base, CtrXor(GcmLayout, cipher, start, pt))
            && prev == Words(GhashOrder, CtrXor(GcmLayout, cipher, start, pt))
  {
    hide CtrXor, XorBytes, Words, Keystream, Load, Reversed, Splice;
    ghost var pt := data[base..base + 16 * |state|];
    prev := [];
    SpliceNothing(data[..], base);
    for i := 0 to |state|
      invariant data[..] == Splice(old(data[..]), base, CtrXor(GcmLayout, cipher, start, pt[..16 * i]))
      invariant prev == Words(GhashOrder, CtrXor(GcmLayout, cipher, start, pt[..16 * i]))
    {
      var p := data[base + 16 * i..base + 16 * i + 16];
      ReadAhead(old(data[..]), base, pt, CtrXor(GcmLayout, cipher, start, pt[..16 * i]), data[..], 16);
      assert p == pt[16 * i..16 * i + 16];
      var c := XorBytes(state[i], p);
      NextBlock(cipher, start, pt, i, state[i]);
      WordsNextBlock(CtrXor(GcmLayout, cipher, start, pt[..16 * i]), c);
      SpliceTwice(old(data[..]), base, CtrXor(GcmLayout, cipher, start, pt[..16 * i]), c);
      CopyInto(data, base + 16 * i, c);
      prev := prev + [Reversed(c)];
    }
    assert pt[..16 * |state|] == pt;
  }

  /** Decrypts one batch from ciphertext to plaintext; the hash input is the
      ciphertext that was read. */
  method OpenLanes(ghost cipher: Cipher, ghost start: Block, state: seq<Block>, ct: seq<byte>,
      pt: array<byte>, base: nat)
    returns (prev: seq<u128>)
    requires KeystreamLanes(state, cipher, start)
    requires |ct| == 16 * |state| && base + |ct| <= pt.Length
    modifies pt
    ensures pt[..] == Splice(old(pt[..]), base, CtrXor(GcmLayout, cipher, start, ct))
    ensures prev == Words(GhashOrder, ct)
  {
    hide CtrXor, XorBytes, Words, Keystream, Load, Reversed, Splice;
    prev := [];
    SpliceNothing(pt[..], base);
    for i := 0 to |state|
      invariant pt[..] == Splice(old(pt[..]), base, CtrXor(GcmLayout, cipher, start, ct[..16 * i]))
      invariant prev == Words(GhashOrder, ct[..16 * i])
    {
      var c := ct[16 * i..16 * i + 16];
      prev := prev + [Reversed(c)];
      NextBlock(cipher, start, ct, i, state[i]);
      WordsNextBlock(ct[..16 * i], c);
      assert ct[..16 * i + 16] == ct[..16 * i] + c;
      var p := XorBytes(state[i], c);
      SpliceTwice(old(pt[..]), base, CtrXor(GcmLayout, cipher, start, ct[..16 * i]), p);
      CopyInto(pt, base + 16 * i, p);
    }
    assert ct[..16 * |state|] == ct;
  }

  /** Decrypts one batch of a single buffer: each ciphertext block is taken into
      the hash input before plaintext overwrites it. */
  method OpenLanesInPlace(ghost cipher: Cipher, ghost start: Block, state: seq<Block>, data: array<byte>, base: nat)
    returns (prev: seq<u128>)
    requires KeystreamLanes(state, cipher, start)
    requires base + 16 * |state| <= data.Length
    modifies data
    ensures var ct := old(data[base..base + 16 * |state|]);
            && data[..] == Splice(old(data[..]), base, CtrXor(GcmLayout, cipher, start, ct))
            && prev == Words(GhashOrder, ct)
  {
    hide CtrXor, XorBytes, Words, Keystream, Load, Reversed, Splice;
    ghost var ct := data[base..base + 16 * |state|];
    prev := [];
    SpliceNothing(data[..], base);
    for i := 0 to |state|
      invariant data[..] == Splice(old(data[..]), base, CtrXor(GcmLayout, cipher, start, ct[..16 * i]))
      invariant prev == Words(GhashOrder, ct[..16 * i])
    {
      var c := data[base + 16 * i..base + 16 * i + 16];
      ReadAhead(old(data[..]), base, ct, CtrXor(GcmLayout, cipher, start, ct[..16 * i]), data[..], 16);
      assert c == ct[16 * i..16 * i + 16];
      prev := prev + [Reversed(c)];
      NextBlock(cipher, start, ct, i, state[i]);
      WordsNextBlock(ct[..16 * i], c);
      assert ct[..16 * i + 16] == ct[..16 * i] + c;
      var p := XorBytes(state[i], c);
      SpliceTwice(old(data[..]), base, CtrXor(GcmLayout, cipher, start, ct[..16 * i]), p);
      CopyInto(data, base + 16 * i, p);
    }
    assert ct[..16 * |state|] == ct;
  }

  // ---------------------------------------------------------------------------
  // The lag of the pipelined hash
  // ---------------------------------------------------------------------------

  /** The state of the pipeline: the accumulator has absorbed the batches in
      folded, and prev still holds the one batch after them (none at the start). */
  ghost predicate Lagging(h: u128, y0: u128, folded: seq<byte>, pending: seq<byte>, acc: u128, prev: seq<u128>) {
    && |folded| % 16 == 0
    && acc == Absorb(GhashOrder, h, y0, folded)
    && if pending == [] then folded == [] else |pending| == PAR_BYTES && prev == Words(GhashOrder, pending)
  }

  /** Folding the pending batch brings the accumulator up to date. */
  lemma LagFolds(h: u128, y0: u128, folded: seq<byte>, pending: seq<byte>, acc: u128, prev: seq<u128>)
    requires pending != [] && Lagging(h, y0, folded, pending, acc, prev)
    ensures |prev| == 8
    ensures |folded + pending| % 16 == 0
    ensures Horner(h, acc, prev) == Absorb(GhashOrder, h, y0, folded + pending)
  {
    hide Horner, Absorb, Words;
    AbsorbConcat(GhashOrder, h, y0, folded, pending);
    AbsorbAligned(GhashOrder, h, acc, pending);
  }

  // ---------------------------------------------------------------------------
  // The backend
  // ---------------------------------------------------------------------------

  class Backend {
    const target: Target
    const pows: Powers
    var y: u128

    ghost predicate Valid() { Ladder(pows) }

    constructor (target: Target, powers: Powers)
      requires Ladder(powers)
      ensures Valid() && this.target == target && pows == powers && y == 0
    {
      this.target := target;
      this.pows := powers;
      this.y := 0;
    }

    method UpdateBlock(block: u128)
      requires Valid()
      modifies this`y
      ensures y == Horner(pows[0], old(y), [block])
    {
      hide Horner;
      y := Aggregate(target, pows, y, [block]);
    }

    method UpdateBlocks4(blocks: seq<u128>)
      requires Valid() && |blocks| == 4
      modifies this`y
      ensures y == Horner(pows[0], old(y), blocks)
    {
      hide Horner;
      y := Aggregate(target, pows, y, blocks);
    }

    method UpdateBlocks8(blocks: seq<u128>)
      requires Valid() && |blocks| == 8
      modifies this`y
      ensures y == Horner(pows[0], old(y), blocks)
    {
      hide Horner;
      y := Aggregate(target, pows, y, blocks);
    }

    /** The pipelined seal loop refines: encrypt everything serially, then hash the
        ciphertext block by block. */
    method SealBulk(cipher: Cipher, counter: array<byte>, pt: seq<byte>, ct: array<byte>, off: nat)
      requires Valid() && counter.Length == 16 && counter != ct
      requires |pt| % PAR_BYTES == 0 && off + |pt| <= ct.Length
      modifies this`y, counter, ct
      ensures var out := CtrXor(GcmLayout, cipher, old(counter[..]), pt);
              && ct[..] == Splice(old(ct[..]), off, out)
              && y == Absorb(GhashOrder, pows[0], old(y), out)
      ensures counter[..] == Advance(GcmLayout, old(counter[..]), |pt| / 16)
    {
      hide CtrXor, Words, Horner, Advance, Absorb, KeystreamLanes, Splice, Ladder;
      ghost var start: Block := counter[..];
      ghost var h, y0 := pows[0], y;
      AdvanceAdd(GcmLayout, start, 0, 0);
      AbsorbNothing(GhashOrder, h, y0);
      var batches := |pt| / PAR_BYTES;
      if batches == 0 {
        CtrNothing(GcmLayout, cipher, start, pt);
        SpliceNothing(ct[..], off);
        return;
      }
      var acc := y;
      var prev: seq<u128> := seq(8, _ => 0);
      var havePrev := false;
      ghost var folded: seq<byte>, pending: seq<byte> := [], [];
      SpliceNothing(ct[..], off);
      CtrNothing(GcmLayout, cipher, start, pt[..0]);
      for batch := 0 to batches
        invariant havePrev == (batch > 0) == (pending != [])
        invariant Lagging(h, y0, folded, pending, acc, prev)
        invariant folded + pending == CtrXor(GcmLayout, cipher, start, pt[..PAR_BYTES * batch])
        invariant ct[..] == Splice(old(ct[..]), off, folded + pending)
        invariant counter[..] == Advance(GcmLayout, start, 8 * batch)
      {
        var ctr := CounterBlocks(counter, 8);
        ghost var at := Advance(GcmLayout, start, 8 * batch);
        var state := EncryptLanes(cipher, ctr, at);
        AdvanceAdd(GcmLayout, start, 8 * batch, 8);
        if havePrev {
          LagFolds(h, y0, folded, pending, acc, prev);
          acc := Aggregate(target, pows, acc, prev);
        }
        folded := folded + pending;
        var base := PAR_BYTES * batch;
        var chunk := pt[base..base + PAR_BYTES];
        CtrNextChunk(GcmLayout, cipher, start, pt, base, PAR_BYTES);
        pending := CtrXor(GcmLayout, cipher, at, chunk);
        SpliceTwice(old(ct[..]), off, folded, pending);
        prev := SealLanes(cipher, at, state, chunk, ct, off + base);
        havePrev := true;
      }
      assert pt[..PAR_BYTES * batches] == pt;
      LagFolds(h, y0, folded, pending, acc, prev);
      acc := Aggregate(target, pows, acc, prev);
      y := acc;
    }

    /** The seal loop over one buffer that enters as plaintext and leaves as
        ciphertext; the hash input is the ciphertext. */
    method SealInPlaceBulk(cipher: Cipher, counter: array<byte>, data: array<byte>, off: nat, len: nat)
      requires Valid() && counter.Length == 16 && counter != data
      requires len % PAR_BYTES == 0 && off + len <= data.Length
      modifies this`y, counter, data
      ensures var pt := old(data[off..off + len]);
              var out := CtrXor(GcmLayout, cipher, old(counter[..]), pt);
              && data[..] == Splice(old(data[..]), off, out)
              && y == Absorb(GhashOrder, pows[0], old(y), out)
      ensures counter[..] == Advance(GcmLayout, old(counter[..]), len / 16)
    {
      hide CtrXor, Words, Horner, Advance, Absorb, KeystreamLanes, Splice, Ladder;
      ghost var start: Block := counter[..];
      ghost var h, y0 := pows[0], y;
      ghost var pt := data[off..off + len];
      AdvanceAdd(GcmLayout, start, 0, 0);
      SpliceNothing(data[..], off);
      AbsorbNothing(GhashOrder, h, y0);
      CtrNothing(GcmLayout, cipher, start, pt[..0]);
      var batches := len / PAR_BYTES;
      if batches == 0 {
        assert pt == [];
        return;
      }
      var acc := y;
      var prev: seq<u128> := seq(8, _ => 0);
      var havePrev := false;
      ghost var folded: seq<byte>, pending: seq<byte> := [], [];
      for batch := 0 to batches
        invariant havePrev == (batch > 0) == (pending != [])
        invariant Lagging(h, y0, folded, pending, acc, prev)
        invariant folded + pending == CtrXor(GcmLayout, cipher, start, pt[..PAR_BYTES * batch])
        invariant data[..] == Splice(old(data[..]), off, CtrXor(GcmLayout, cipher, start, pt[..PAR_BYTES * batch]))
        invariant counter[..] == Advance(GcmLayout, start, 8 * batch)
      {
        var ctr := CounterBlocks(counter, 8);
        ghost var at := Advance(GcmLayout, start, 8 * batch);
        var state := EncryptLanes(cipher, ctr, at);
        AdvanceAdd(GcmLayout, start, 8 * batch, 8);
        if havePrev {
          LagFolds(h, y0, folded, pending, acc, prev);
          acc := Aggregate(target, pows, acc, prev);
        }
        folded := folded + pending;
        var base := PAR_BYTES * batch;
        ghost var chunk := pt[base..base + PAR_BYTES];
        CtrNextChunk(GcmLayout, cipher, start, pt, base, PAR_BYTES);
        ghost var done := CtrXor(GcmLayout, cipher, start, pt[..PAR_BYTES * batch]);
        ReadAhead(old(data[..]), off, pt, done, data[..], PAR_BYTES);
        pending := CtrXor(GcmLayout, cipher, at, chunk);
        SpliceTwice(old(data[..]), off, done, CtrXor(GcmLayout, cipher, at, chunk));
        prev := SealLanesInPlace(cipher, at, state, data, off + base);
        havePrev := true;
      }
      assert pt[..PAR_BYTES * batches] == pt;
      LagFolds(h, y0, folded, pending, acc, prev);
      acc := Aggregate(target, pows, acc, prev);
      y := acc;
    }

    /** The two-buffer open loop: the hash consumes the ciphertext that is read
        while plaintext goes to the other buffer. */
    method OpenBulk(cipher: Cipher, counter: array<byte>, ct: seq<byte>, pt: array<byte>, off: nat)
      requires Valid() && counter.Length == 16 && counter != pt
      requires |ct| % PAR_BYTES == 0 && off + |ct| <= pt.Length
      modifies this`y, counter, pt
      ensures pt[..] == Splice(old(pt[..]), off, CtrXor(GcmLayout, cipher, old(counter[..]), ct))
      ensures y == Absorb(GhashOrder, pows[0], old(y), ct)
      ensures counter[..] == Advance(GcmLayout, old(counter[..]), |ct| / 16)
    {
      hide CtrXor, Words, Horner, Advance, Absorb, KeystreamLanes, Splice, Ladder;
      ghost var start: Block := counter[..];
      ghost var h, y0 := pows[0], y;
      AdvanceAdd(GcmLayout, start, 0, 0);
      SpliceNothing(pt[..], off);
      AbsorbNothing(GhashOrder, h, y0);
      CtrNothing(GcmLayout, cipher, start, ct[..0]);
      var batches := |ct| / PAR_BYTES;
      if batches == 0 {
        assert ct == [];
        return;
      }
      var acc := y;
      var prev: seq<u128> := seq(8, _ => 0);
      var havePrev := false;
      ghost var folded: seq<byte>, pending: seq<byte> := [], [];
      for batch := 0 to batches
        invariant havePrev == (batch > 0) == (pending != [])
        invariant Lagging(h, y0, folded, pending, acc, prev)
        invariant folded + pending == ct[..PAR_BYTES * batch]
        invariant pt[..] == Splice(old(pt[..]), off, CtrXor(GcmLayout, cipher, start, ct[..PAR_BYTES * batch]))
        invariant counter[..] == Advance(GcmLayout, start, 8 * batch)
      {
        var ctr := CounterBlocks(counter, 8);
        ghost var at := Advance(GcmLayout, start, 8 * batch);
        var state := EncryptLanes(cipher, ctr, at);
        AdvanceAdd(GcmLayout, start, 8 * batch, 8);
        if havePrev {
          LagFolds(h, y0, folded, pending, acc, prev);
          acc := Aggregate(target, pows, acc, prev);
        }
        folded := folded + pending;
        var base := PAR_BYTES * batch;
        var chunk := ct[base..base + PAR_BYTES];
        CtrNextChunk(GcmLayout, cipher, start, ct, base, PAR_BYTES);
        pending := chunk;
        ghost var done := CtrXor(GcmLayout, cipher, start, ct[..base]);
        SpliceTwice(old(pt[..]), off, done, CtrXor(GcmLayout, cipher, at, chunk));
        prev := OpenLanes(cipher, at, state, chunk, pt, off + base);
        assert ct[..base + PAR_BYTES] == ct[..base] + chunk;
        havePrev := true;
      }
      assert ct[..PAR_BYTES * batches] == ct;
      LagFolds(h, y0, folded, pending, acc, prev);
      acc := Aggregate(target, pows, acc, prev);
      y := acc;
    }

    /** The open loop over one buffer: every block is overwritten by plaintext, yet
        the hash is that of the original ciphertext. */
    method OpenInPlaceBulk(cipher: Cipher, counter: array<byte>, data: array<byte>, off: nat, len: nat)
      requires Valid() && counter.Length == 16 && counter != data
      requires len % PAR_BYTES == 0 && off + len <= data.Length
      modifies this`y, counter, data
      ensures var ct := old(data[off..off + len]);
              var out := CtrXor(GcmLayout, cipher, old(counter[..]), ct);
              && data[..] == Splice(old(data[..]), off, out)
              && y == Absorb(GhashOrder, pows[0], old(y), ct)
      ensures counter[..] == Advance(GcmLayout, old(counter[..]), len / 16)
    {
      hide CtrXor, Words, Horner, Advance, Absorb, KeystreamLanes, Splice, Ladder;
      ghost var start: Block := counter[..];
      ghost var h, y0 := pows[0], y;
      ghost var ct := data[off..off + len];
      AdvanceAdd(GcmLayout, start, 0, 0);
      SpliceNothing(data[..], off);
      AbsorbNothing(GhashOrder, h, y0);
      CtrNothing(GcmLayout, cipher, start, ct[..0]);
      var batches := len / PAR_BYTES;
      if batches == 0 {
        assert ct == [];
        return;
      }
      var acc := y;
      var prev: seq<u128> := seq(8, _ => 0);
      var havePrev := false;
      ghost var folded: seq<byte>, pending: seq<byte> := [], [];
      for batch := 0 to batches
        invariant havePrev == (batch > 0) == (pending != [])
        invariant Lagging(h, y0, folded, pending, acc, prev)
        invariant folded + pending == ct[..PAR_BYTES * batch]
        invariant data[..] == Splice(old(data[..]), off, CtrXor(GcmLayout, cipher, start, ct[..PAR_BYTES * batch]))
        invariant counter[..] == Advance(GcmLayout, start, 8 * batch)
      {
        var ctr := CounterBlocks(counter, 8);
        ghost var at := Advance(GcmLayout, start, 8 * batch);
        var state := EncryptLanes(cipher, ctr, at);
        AdvanceAdd(GcmLayout, start, 8 * batch, 8);
        if havePrev {
          LagFolds(h, y0, folded, pending, acc, prev);
          acc := Aggregate(target, pows, acc, prev);
        }
        folded := folded + pending;
        var base := PAR_BYTES * batch;
        ghost var chunk := ct[base..base + PAR_BYTES];
        CtrNextChunk(GcmLayout, cipher, start, ct, base, PAR_BYTES);
        ghost var done := CtrXor(GcmLayout, cipher, start, ct[..PAR_BYTES * batch]);
        ReadAhead(old(data[..]), off, ct, done, data[..], PAR_BYTES);
        pending := chunk;
        SpliceTwice(old(data[..]), off, done, CtrXor(GcmLayout, cipher, at, chunk));
        prev := OpenLanesInPlace(cipher, at, state, data, off + base);
        assert ct[..base + PAR_BYTES] == ct[..base] + chunk;
        havePrev := true;
      }
      assert ct[..PAR_BYTES * batches] == ct;
      LagFolds(h, y0, folded, pending, acc, prev);
      acc := Aggregate(target, pows, acc, prev);
      y := acc;
    }

    /** Whole tail blocks below the batch width: four lanes at a time, then one. */
    method SealInPlaceTailBlocks(cipher: Cipher, counter: array<byte>, data: array<byte>, off: nat, len: nat)
      requires Valid() && counter.Length == 16 && counter != data
      requires len % 16 == 0 && len < PAR_BYTES && off + len <= data.Length
      modifies this`y, counter, data
      ensures var pt := old(data[off..off + len]);
              var out := CtrXor(GcmLayout, cipher, old(counter[..]), pt);
              && data[..] == Splice(old(data[..]), off, out)
              && y == Absorb(GhashOrder, pows[0], old(y), out)
      ensures counter[..] == Advance(GcmLayout, old(counter[..]), len / 16)
    {
      hide CtrXor, Words, Horner, Advance, Absorb, KeystreamLanes, Splice, Ladder;
      ghost var start: Block := counter[..];
      ghost var h, y0 := pows[0], y;
      ghost var pt := data[off..off + len];
      AdvanceAdd(GcmLayout, start, 0, 0);
      SpliceNothing(data[..], off);
      AbsorbNothing(GhashOrder, h, y0);
      CtrNothing(GcmLayout, cipher, start, pt[..0]);
      var done := 0;
      while len - done >= 64
        invariant done % 16 == 0 && done <= len
        invariant y == Absorb(GhashOrder, h, y0, CtrXor(GcmLayout, cipher, start, pt[..done]))
        invariant data[..] == Splice(old(data[..]), off, CtrXor(GcmLayout, cipher, start, pt[..done]))
        invariant counter[..] == Advance(GcmLayout, start, done / 16)
      {
        TailLanes(cipher, counter, data, off, start, pt, y0, done, 4, old(data[..]));
        done := done + 64;
      }
      while len - done >= 16
        invariant done % 16 == 0 && done <= len
        invariant y == Absorb(GhashOrder, h, y0, CtrXor(GcmLayout, cipher, start, pt[..done]))
        invariant data[..] == Splice(old(data[..]), off, CtrXor(GcmLayout, cipher, start, pt[..done]))
        invariant counter[..] == Advance(GcmLayout, start, done / 16)
      {
        TailLanes(cipher, counter, data, off, start, pt, y0, done, 1, old(data[..]));
        done := done + 16;
      }
      assert pt[..done] == pt;
    }

    /** One round of n lanes of the tail, hashed as soon as it is encrypted. */
    method TailLanes(cipher: Cipher, counter: array<byte>, data: array<byte>, off: nat,
        ghost start: Block, ghost pt: seq<byte>, ghost y0: u128, done: nat, n: nat, ghost before: seq<byte>)
      requires Valid() && counter.Length == 16 && counter != data && 1 <= n <= KEY_POWERS
      requires done % 16 == 0 && done + 16 * n <= |pt| && off + |pt| <= data.Length == |before|
      requires pt == before[off..off + |pt|]
      requires y == Absorb(GhashOrder, pows[0], y0, CtrXor(GcmLayout, cipher, start, pt[..done]))
      requires data[..] == Splice(before, off, CtrXor(GcmLayout, cipher, start, pt[..done]))
      requires counter[..] == Advance(GcmLayout, start, done / 16)
      modifies this`y, counter, data
      ensures y == Absorb(GhashOrder, pows[0], y0, CtrXor(GcmLayout, cipher, start, pt[..done + 16 * n]))
      ensures data[..] == Splice(before, off, CtrXor(GcmLayout, cipher, start, pt[..done + 16 * n]))
      ensures counter[..] == Advance(GcmLayout, start, done / 16 + n)
    {
      hide CtrXor, Words, Horner, Advance, Absorb, KeystreamLanes, Splice, Ladder;
      var ctr := CounterBlocks(counter, n);
      ghost var at := Advance(GcmLayout, start, done / 16);
      var state := EncryptLanes(cipher, ctr, at);
      AdvanceAdd(GcmLayout, start, done / 16, n);
      ghost var chunk := pt[done..done + 16 * n];
      ghost var out := CtrXor(GcmLayout, cipher, start, pt[..done]);
      ghost var next := CtrXor(GcmLayout, cipher, at, chunk);
      CtrNextChunk(GcmLayout, cipher, start, pt, done, 16 * n);
      ReadAhead(before, off, pt, out, data[..], 16 * n);
      SpliceTwice(before, off, out, next);
      var blocks := SealLanesInPlace(cipher, at, state, data, off + done);
      AbsorbConcat(GhashOrder, pows[0], y0, out, next);
      AbsorbAligned(GhashOrder, pows[0], y, next);
      y := Aggregate(target, pows, y, blocks);
    }
  }
}

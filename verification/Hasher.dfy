/**
 The streaming hashers: sections are absorbed eight, four and one block at a time.
 */
module Hashing {
  import opened Field
  import opened Bytes
  import opened Multiply
  import opened Polyval
  import opened Absorption
  import opened KeyLadder
  import opened Stitched
  import opened Wrappers

  /** A 64-bit bit count, unless it overflows. */
  function BitLen(len: nat): (r: Option<nat>)
    ensures r.Some? <==> len < TWO61
    ensures r.Some? ==> r.value == 8 * len < TWO64
  {
    if 8 * len < TWO64 then Some(8 * len) else None
  }

  method LoadBlocks(order: Order, chunk: seq<byte>) returns (blocks: seq<u128>)
    requires |chunk| % 16 == 0
    ensures blocks == Words(order, chunk)
  {
    blocks := [];
    for i := 0 to |chunk| / 16
      invariant blocks == Words(order, chunk)[..i]
    {
      blocks := blocks + [Load(order, chunk[16 * i..16 * i + 16])];
    }
  }

  /** GHASH (order GhashOrder) or POLYVAL (order PolyvalOrder) over one message. */
  class Hasher {
    const order: Order
    const backend: Backend

    ghost predicate Valid() { backend.Valid() }

    /** The key the accumulator is multiplied by. */
    ghost function H(): u128 { backend.pows[0] }

    constructor (order: Order, target: Target, powers: Powers)
      requires Ladder(powers)
      ensures Valid() && this.order == order && backend.pows == powers && backend.y == 0 && fresh(backend)
    {
      this.order := order;
      this.backend := new Backend(target, powers);
    }

    /** The next eight, four or one blocks of a section. */
    method AbsorbChunk(ghost y0: u128, data: seq<byte>, done: nat, n: nat)
      requires Valid() && (n == 128 || n == 64 || n == 16) && done % 16 == 0 && done + n <= |data|
      requires backend.y == Absorb(order, H(), y0, data[..done])
      modifies backend`y
      ensures backend.y == Absorb(order, H(), y0, data[..done + n])
    {
      hide Words, Horner, Absorb, Ladder, Load;
      NextChunk(order, H(), y0, data, done, n);
      var blocks := LoadBlocks(order, data[done..done + n]);
      if n == 128 {
        backend.UpdateBlocks8(blocks);
      } else if n == 64 {
        backend.UpdateBlocks4(blocks);
      } else {
        assert blocks == [blocks[0]];
        backend.UpdateBlock(blocks[0]);
      }
    }

    /** Chunks of exactly n bytes, for as long as they last. */
    method AbsorbChunks(ghost y0: u128, data: seq<byte>, start: nat, n: nat) returns (done: nat)
      requires Valid() && (n == 128 || n == 64 || n == 16) && start % 16 == 0 && start <= |data|
      requires backend.y == Absorb(order, H(), y0, data[..start])
      modifies backend`y
      ensures done % 16 == 0 && start <= done <= |data| < done + n
      ensures backend.y == Absorb(order, H(), y0, data[..done])
    {
      hide Words, Horner, Absorb, Ladder, Load;
      done := start;
      while |data| - done >= n
        invariant done % 16 == 0 && start <= done <= |data|
        invariant backend.y == Absorb(order, H(), y0, data[..done])
      {
        AbsorbChunk(y0, data, done, n);
        done := done + n;
      }
    }

    method AbsorbBlocks(data: seq<byte>)
      requires Valid() && |data| % 16 == 0
      modifies backend`y
      ensures backend.y == Absorb(order, H(), old(backend.y), data)
    {
      hide Words, Horner, Absorb, Ladder, Load;
      ghost var y0 := backend.y;
      AbsorbNothing(order, H(), y0);
      assert data[..0] == [];
      var octets := AbsorbChunks(y0, data, 0, 128);
      var quads := AbsorbChunks(y0, data, octets, 64);
      var done := AbsorbChunks(y0, data, quads, 16);
      assert data[..done] == data;
    }

    method AbsorbPadded(data: seq<byte>)
      requires Valid()
      modifies backend`y
      ensures backend.y == Absorb(order, H(), old(backend.y), data)
    {
      hide Words, Horner, Absorb, Ladder, ZeroPad;
      var full := |data| - |data| % 16;
      AbsorbBlocks(data[..full]);
      var remainder := data[full..];
      assert data == data[..full] + remainder;
      AbsorbConcat(order, H(), old(backend.y), data[..full], remainder);
      if remainder != [] {
        var block: Block := remainder + Zeros(16 - |remainder|);
        LastBlock(order, H(), backend.y, remainder);
        backend.UpdateBlock(Load(order, block));
      } else {
        AbsorbNothing(order, H(), backend.y);
      }
    }

    /** Absorbs the length block and returns the digest, unless a length does not
        fit its 64-bit field. */
    method Finalize(aadLen: nat, dataLen: nat) returns (r: Option<Block>)
      requires Valid()
      modifies backend`y
      ensures r.Some? <==> aadLen < TWO61 && dataLen < TWO61
      ensures r.Some? ==>
        r.value == Store(order, Horner(H(), old(backend.y), [Load(order, LengthBlock(order, aadLen, dataLen))]))
    {
      hide Horner, Load, Store, ToBe, ToLe, Ladder;
      var a, d := BitLen(aadLen), BitLen(dataLen);
      if a == None || d == None { return None; }
      var block: Block :=
        if order == GhashOrder then ToBe(a.value, 8) + ToBe(d.value, 8)
        else ToLe(a.value, 8) + ToLe(d.value, 8);
      backend.UpdateBlock(Load(order, block));
      r := Some(Store(order, backend.y));
    }
  }

  lemma NextChunk(order: Order, h: u128, y: u128, data: seq<byte>, done: nat, n: nat)
    requires done % 16 == 0 && n % 16 == 0 && done + n <= |data|
    ensures Absorb(order, h, y, data[..done + n])
         == Horner(h, Absorb(order, h, y, data[..done]), Words(order, data[done..done + n]))
  {
    hide Horner, Words, Absorb;
    assert data[..done + n] == data[..done] + data[done..done + n];
    AbsorbConcat(order, h, y, data[..done], data[done..done + n]);
    AbsorbAligned(order, h, Absorb(order, h, y, data[..done]), data[done..done + n]);
  }

  lemma LastBlock(order: Order, h: u128, y: u128, rest: seq<byte>)
    requires 0 < |rest| < 16
    ensures Absorb(order, h, y, rest) == Horner(h, y, [Load(order, rest + Zeros(16 - |rest|))])
  {
    hide Horner, Load;
    var block: Block := rest + Zeros(16 - |rest|);
    assert ZeroPad(rest) == block;
    WordsOfBlock(order, block);
  }

  /** Absorbing both sections and the lengths gives the message digest. */
  lemma SectionsMakeDigest(order: Order, h: u128, aad: seq<byte>, data: seq<byte>)
    ensures Digest(order, h, aad, data)
         == Store(order, Horner(h, Absorb(order, h, Absorb(order, h, 0, aad), data),
                                [Load(order, LengthBlock(order, |aad|, |data|))]))
  {
    hide Horner, Load, Store, PaddedWords, LengthBlock;
    var a, d := PaddedWords(order, aad), PaddedWords(order, data);
    var l := [Load(order, LengthBlock(order, |aad|, |data|))];
    HornerConcat(h, 0, a + d, l);
    HornerConcat(h, 0, a, d);
  }
}

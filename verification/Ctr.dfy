/**
 Counter blocks and counter mode. GCM counts in the last four bytes, big-endian;
 GCM-SIV in the first four, little-endian. Both counters wrap modulo 2^32 and
 leave the other twelve bytes alone.
 */
module Ctr {
  import opened Gf2
  import opened Field
  import opened Bytes

  const TWO32: nat := 0x1_0000_0000

  /** Bytes of one batch of eight blocks. */
  const PAR_BYTES: nat := 128

  datatype Layout = GcmLayout | SivLayout

  function CounterOf(layout: Layout, b: Block): nat {
    if layout == GcmLayout then FromBe(b[12..]) else FromLe(b[..4])
  }

  function WithCounter(layout: Layout, b: Block, n: nat): Block {
    if layout == GcmLayout then b[..12] + ToBe(n, 4) else ToLe(n, 4) + b[4..]
  }

  /** The counter block k increments after b. */
  function Advance(layout: Layout, b: Block, k: nat): Block {
    WithCounter(layout, b, (CounterOf(layout, b) + k) % TWO32)
  }

  lemma Pow2Of32()
    ensures Pow2(32) == TWO32
  {
    ShlBy32(1, 0);
    ShlIsTimesPow2(32);
  }

  lemma LeWordRoundTrip(n: nat, s: seq<byte>)
    requires n < TWO32 && |s| == 4
    ensures FromLe(ToLe(n, 4)) == n && ToLe(FromLe(s), 4) == s && FromLe(s) < TWO32
  {
    hide FromLe, ToLe, Pow2;
    Pow2Of32();
    LeRoundTrip(n, 32, 4);
    LeInverse(s);
    FromLeFits(s, 32);
  }

  /** Four-byte numbers and their bytes, in both orders. */
  lemma WordRoundTrip(n: nat, s: seq<byte>)
    requires n < TWO32 && |s| == 4
    ensures FromLe(ToLe(n, 4)) == n && FromBe(ToBe(n, 4)) == n
    ensures ToLe(FromLe(s), 4) == s && ToBe(FromBe(s), 4) == s
    ensures FromLe(s) < TWO32 && FromBe(s) < TWO32
  {
    hide FromLe, FromBe, ToLe, ToBe, Reverse;
    LeWordRoundTrip(n, s);
    LeWordRoundTrip(n, Reverse(s));
    ToBeIsReversedToLe(n, 4);
    ReverseTwice(ToLe(n, 4));
    FromBeIsReversedFromLe(ToBe(n, 4));
    FromBeIsReversedFromLe(s);
    ReverseTwice(s);
    ToBeIsReversedToLe(FromBe(s), 4);
  }

  lemma CounterRoundTrip(layout: Layout, b: Block, n: nat, m: nat)
    requires n < TWO32
    ensures CounterOf(layout, WithCounter(layout, b, n)) == n
    ensures WithCounter(layout, WithCounter(layout, b, n), m) == WithCounter(layout, b, m)
    ensures WithCounter(layout, b, CounterOf(layout, b)) == b
    ensures CounterOf(layout, b) < TWO32
  {
    hide FromLe, FromBe, ToLe, ToBe;
    WordRoundTrip(n, b[12..]);
    WordRoundTrip(n, b[..4]);
    if layout == GcmLayout {
      assert WithCounter(layout, b, n)[12..] == ToBe(n, 4);
      assert WithCounter(layout, b, n)[..12] == b[..12];
    } else {
      assert WithCounter(layout, b, n)[..4] == ToLe(n, 4);
      assert WithCounter(layout, b, n)[4..] == b[4..];
    }
  }

  /** Increments add up, through any number of wraps. */
  lemma AdvanceAdd(layout: Layout, b: Block, i: nat, j: nat)
    ensures Advance(layout, Advance(layout, b, i), j) == Advance(layout, b, i + j)
    ensures Advance(layout, b, 0) == b
    ensures CounterOf(layout, Advance(layout, b, i)) == (CounterOf(layout, b) + i) % TWO32
  {
    hide WithCounter, CounterOf;
    var c := CounterOf(layout, b);
    CounterRoundTrip(layout, b, (c + i) % TWO32, ((c + i) % TWO32 + j) % TWO32);
    assert ((c + i) % TWO32 + j) % TWO32 == (c + (i + j)) % TWO32;
  }

  /** Two positions use the same counter block exactly when they are a multiple of
      2^32 blocks apart. */
  lemma AdvanceRepeats(layout: Layout, b: Block, i: nat, j: nat)
    ensures Advance(layout, b, i) == Advance(layout, b, j) <==> i % TWO32 == j % TWO32
  {
    hide WithCounter, CounterOf;
    AdvanceAdd(layout, b, i, 0);
    AdvanceAdd(layout, b, j, 0);
    var c := CounterOf(layout, b);
    SameResidueShifted(c, i, j);
  }

  lemma AddMultiple(a: int, k: int)
    ensures (a + TWO32 * k) % TWO32 == a % TWO32
  {
    var q, r := a / TWO32, a % TWO32;
    assert a + TWO32 * k == TWO32 * (q + k) + r;
  }

  lemma SameResidueShifted(c: nat, i: nat, j: nat)
    ensures (c + i) % TWO32 == (c + j) % TWO32 <==> i % TWO32 == j % TWO32
  {
    if (c + i) % TWO32 == (c + j) % TWO32 {
      var k := (c + i) / TWO32 - (c + j) / TWO32;
      assert i == j + TWO32 * k;
      AddMultiple(j, k);
    } else if i % TWO32 == j % TWO32 {
      var k := i / TWO32 - j / TWO32;
      assert c + i == c + j + TWO32 * k;
      AddMultiple(c + j, k);
    }
  }

  // ---------------------------------------------------------------------------
  // Counter mode
  // ---------------------------------------------------------------------------

  function Keystream(layout: Layout, cipher: Cipher, start: Block, i: nat): Block {
    cipher.Encrypt(Advance(layout, start, i))
  }

  /** The reference: byte j is XORed with byte j mod 16 of keystream block j / 16. */
  function CtrXor(layout: Layout, cipher: Cipher, start: Block, data: seq<byte>): (r: seq<byte>)
    ensures |r| == |data|
  {
    seq(|data|, j requires 0 <= j < |data| => XorByte(data[j], Keystream(layout, cipher, start, j / 16)[j % 16]))
  }

  /** Counter mode is its own inverse. */
  lemma CtrTwice(layout: Layout, cipher: Cipher, start: Block, data: seq<byte>)
    ensures CtrXor(layout, cipher, start, CtrXor(layout, cipher, start, data)) == data
  {
    hide XorByte, Keystream;
    var r := CtrXor(layout, cipher, start, data);
    forall j | 0 <= j < |data|
      ensures CtrXor(layout, cipher, start, r)[j] == data[j]
    {
      XorByteTwice(data[j], Keystream(layout, cipher, start, j / 16)[j % 16]);
    }
  }

  lemma CtrNothing(layout: Layout, cipher: Cipher, start: Block, none: seq<byte>)
    requires none == []
    ensures CtrXor(layout, cipher, start, none) == []
  {
  }

  /** Whole blocks can be processed separately, the counter carrying on. */
  lemma CtrConcat(layout: Layout, cipher: Cipher, start: Block, a: seq<byte>, b: seq<byte>)
    requires |a| % 16 == 0
    ensures CtrXor(layout, cipher, start, a + b)
         == CtrXor(layout, cipher, start, a) + CtrXor(layout, cipher, Advance(layout, start, |a| / 16), b)
  {
    hide XorByte, Advance;
    var k := |a| / 16;
    var next := Advance(layout, start, k);
    var l := CtrXor(layout, cipher, start, a + b);
    var r := CtrXor(layout, cipher, start, a) + CtrXor(layout, cipher, next, b);
    forall j | 0 <= j < |l| ensures l[j] == r[j] {
      if j >= |a| {
        var i := j - |a|;
        IndexPastBlocks(k, i);
        AdvanceAdd(layout, start, k, i / 16);
      }
    }
  }

  lemma IndexPastBlocks(k: nat, i: nat)
    ensures (16 * k + i) / 16 == k + i / 16
    ensures (16 * k + i) % 16 == i % 16
  {
  }

  /** One block, or a final partial block. */
  lemma CtrOneBlock(layout: Layout, cipher: Cipher, start: Block, data: seq<byte>)
    requires |data| <= 16
    ensures CtrXor(layout, cipher, start, data) == XorBytes(data, cipher.Encrypt(start)[..|data|])
  {
    hide XorByte, Advance;
    AdvanceAdd(layout, start, 0, 0);
  }

  /** Counter mode extended by its next chunk. */
  lemma CtrNextChunk(layout: Layout, cipher: Cipher, start: Block, data: seq<byte>, done: nat, n: nat)
    requires done % 16 == 0 && done + n <= |data|
    ensures CtrXor(layout, cipher, start, data[..done + n])
         == CtrXor(layout, cipher, start, data[..done])
          + CtrXor(layout, cipher, Advance(layout, start, done / 16), data[done..done + n])
  {
    assert data[..done + n] == data[..done] + data[done..done + n];
    CtrConcat(layout, cipher, start, data[..done], data[done..done + n]);
  }

  /** Past the part already rewritten, a buffer still holds its original contents src. */
  lemma ReadAhead(before: seq<byte>, base: nat, src: seq<byte>, done: seq<byte>, now: seq<byte>, n: nat)
    requires base + |src| <= |before| && src == before[base..base + |src|]
    requires |done| + n <= |src| && now == Splice(before, base, done)
    ensures now[base + |done|..base + |done| + n] == src[|done|..|done| + n]
  {
    var at := base + |done|;
    var l, r := now[at..at + n], src[|done|..|done| + n];
    assert |l| == |r| == n;
    forall k | 0 <= k < n ensures l[k] == r[k] {
      SpliceAt(before, base, done, at + k);
      assert l[k] == now[at + k] == before[base + (|done| + k)];
      assert r[k] == src[|done| + k];
    }
  }

  /** The same for everything that is left. */
  lemma ReadRest(before: seq<byte>, base: nat, src: seq<byte>, done: seq<byte>, now: seq<byte>, at: nat, n: nat)
    requires base + |src| <= |before| && src == before[base..base + |src|]
    requires |done| <= |src| && now == Splice(before, base, done)
    requires at == base + |done| && n == |src| - |done|
    ensures now[at..at + n] == src[|done|..]
  {
    hide Splice;
    ReadAhead(before, base, src, done, now, n);
    assert src[|done|..|done| + n] == src[|done|..];
  }

  // ---------------------------------------------------------------------------
  // The increments
  // ---------------------------------------------------------------------------

  /** Overwrites part of a buffer with a slice of the same length. */
  method CopyInto(dst: array<byte>, off: nat, src: seq<byte>)
    requires off + |src| <= dst.Length
    modifies dst
    ensures dst[..] == Splice(old(dst[..]), off, src)
  {
    forall i | 0 <= i < |src| {
      dst[off + i] := src[i];
    }
  }

  method IncrementCounter(counter: array<byte>)
    requires counter.Length == 16
    modifies counter
    ensures counter[..] == Advance(GcmLayout, old(counter[..]), 1)
  {
    hide FromBe, ToBe;
    var low := (FromBe(counter[12..]) + 1) % TWO32;
    assert counter[..][12..] == counter[12..] && counter[..][..12] == counter[..12];
    CopyInto(counter, 12, ToBe(low, 4));
  }

  method IncrementSivCounter(counter: array<byte>)
    requires counter.Length == 16
    modifies counter
    ensures counter[..] == Advance(SivLayout, old(counter[..]), 1)
  {
    hide FromLe, ToLe;
    var next := (FromLe(counter[..4]) + 1) % TWO32;
    assert counter[..][4..] == counter[4..] && counter[..][..4] == counter[..4];
    CopyInto(counter, 0, ToLe(next, 4));
  }

  /** XORs key bytes into part of a buffer. */
  method XorInto(dst: array<byte>, off: nat, key: seq<byte>)
    requires off + |key| <= dst.Length
    modifies dst
    ensures dst[..] == Splice(old(dst[..]), off, XorBytes(old(dst[off..off + |key|]), key))
  {
    hide XorByte;
    ghost var before := dst[..];
    for i := 0 to |key|
      invariant forall k | 0 <= k < dst.Length ::
        dst[k] == if off <= k < off + i then XorByte(before[k], key[k - off]) else before[k]
    {
      dst[off + i] := XorByte(dst[off + i], key[i]);
    }
    ghost var mid := XorBytes(before[off..off + |key|], key);
    forall k | 0 <= k < |before| ensures dst[..][k] == Splice(before, off, mid)[k] {
      SpliceAt(before, off, mid, k);
      if off <= k < off + |key| {
        assert before[off..off + |key|][k - off] == before[k];
      }
    }
  }

  /** Extends counter mode over src by one block, the last one possibly partial; src
      is what the buffer held from base on, before any of it was rewritten. */
  method XorBlock(layout: Layout, cipher: Cipher, ghost start: Block, data: array<byte>, base: nat, done: nat, n: nat,
      key: Block, ghost src: seq<byte>, ghost before: seq<byte>)
    requires done % 16 == 0 && n <= 16 && done + n <= |src| && base + |src| <= data.Length == |before|
    requires src == before[base..base + |src|] && key == Keystream(layout, cipher, start, done / 16)
    requires data[..] == Splice(before, base, CtrXor(layout, cipher, start, src[..done]))
    modifies data
    ensures data[..] == Splice(before, base, CtrXor(layout, cipher, start, src[..done + n]))
  {
    hide CtrXor, Advance, Splice, XorBytes;
    ghost var out := CtrXor(layout, cipher, start, src[..done]);
    ghost var at := Advance(layout, start, done / 16);
    ghost var chunk := src[done..done + n];
    CtrNextChunk(layout, cipher, start, src, done, n);
    CtrOneBlock(layout, cipher, at, chunk);
    ReadAhead(before, base, src, out, data[..], n);
    SpliceTwice(before, base, out, CtrXor(layout, cipher, at, chunk));
    XorInto(data, base + done, key[..n]);
  }

  /** The number of blocks, the last possibly partial, in a message of this length. */
  function BlockCount(len: nat): nat { (len + 15) / 16 }

  lemma BlockCountStep(done: nat, n: nat)
    requires done % 16 == 0
    ensures BlockCount(done) == done / 16
    ensures 0 < n <= 16 ==> BlockCount(done + n) == done / 16 + 1
  {
  }

  lemma BlockCountBound(len: nat, k: nat)
    ensures BlockCount(len) <= k <==> len <= 16 * k
  {
  }

  /** Serial counter mode over src is done up to this position: the buffer, which held
      before, and the counter are as they should be. */
  ghost predicate Progress(layout: Layout, cipher: Cipher, start: Block, before: seq<byte>, base: nat, src: seq<byte>,
      done: nat, now: seq<byte>, counter: seq<byte>)
    requires base + |src| <= |before|
  {
    && done <= |src| && (done % 16 == 0 || done == |src|)
    && now == Splice(before, base, CtrXor(layout, cipher, start, src[..done]))
    && counter == Advance(layout, start, BlockCount(done))
  }

  lemma ProgressStarts(layout: Layout, cipher: Cipher, start: Block, before: seq<byte>, base: nat, src: seq<byte>)
    requires base + |src| <= |before|
    ensures Progress(layout, cipher, start, before, base, src, 0, before, start)
  {
    hide CtrXor, Advance, Splice;
    AdvanceAdd(layout, start, 0, 0);
    CtrNothing(layout, cipher, start, src[..0]);
    SpliceNothing(before, base);
  }

  lemma ProgressEnds(layout: Layout, cipher: Cipher, start: Block, before: seq<byte>, base: nat, src: seq<byte>,
      done: nat, now: seq<byte>, counter: seq<byte>)
    requires base + |src| <= |before| && done >= |src|
    requires Progress(layout, cipher, start, before, base, src, done, now, counter)
    ensures now == Splice(before, base, CtrXor(layout, cipher, start, src))
    ensures counter == Advance(layout, start, BlockCount(|src|))
  {
    hide CtrXor, Advance, Splice, BlockCount;
    assert src[..done] == src;
  }

  /** The length of the next block. */
  function NextLength(done: nat, len: nat): (n: nat)
    requires done < len
    ensures 0 < n <= 16 && done + n <= len && (n == 16 || done + n == len)
  {
    if len - done < 16 then len - done else 16
  }

  /** What the step of a serial loop has to do with the buffer and the counter. */
  lemma ProgressNext(layout: Layout, cipher: Cipher, start: Block, before: seq<byte>, base: nat, src: seq<byte>,
      done: nat, now: seq<byte>, counter: seq<byte>, now': seq<byte>, counter': seq<byte>)
    requires base + |src| <= |before| && done < |src|
    requires Progress(layout, cipher, start, before, base, src, done, now, counter)
    requires now' == Splice(before, base, CtrXor(layout, cipher, start, src[..done + NextLength(done, |src|)]))
    requires |counter| == 16 && counter' == Advance(layout, counter, 1)
    ensures Progress(layout, cipher, start, before, base, src, done + NextLength(done, |src|), now', counter')
  {
    hide CtrXor, Advance, Splice, BlockCount;
    BlockCountStep(done, NextLength(done, |src|));
    AdvanceAdd(layout, start, done / 16, 1);
  }

  /** What it finds there. */
  lemma ProgressNow(layout: Layout, cipher: Cipher, start: Block, before: seq<byte>, base: nat, src: seq<byte>,
      done: nat, now: seq<byte>, counter: seq<byte>)
    requires base + |src| <= |before| && done < |src|
    requires Progress(layout, cipher, start, before, base, src, done, now, counter)
    ensures done % 16 == 0 && |counter| == 16
    ensures now == Splice(before, base, CtrXor(layout, cipher, start, src[..done]))
    ensures cipher.Encrypt(counter) == Keystream(layout, cipher, start, done / 16)
  {
    hide CtrXor, Advance, Splice, BlockCount;
    BlockCountStep(done, 0);
  }

  /** What k increments do to the bytes: GCM counts in the last four, most significant
      first, GCM-SIV in the first four, least significant first, both modulo 2^32. */
  lemma AdvanceBytes(b: Block, k: nat)
    ensures var g := Advance(GcmLayout, b, k);
            g[..12] == b[..12] && FromBe(g[12..]) == (FromBe(b[12..]) + k) % TWO32
    ensures var s := Advance(SivLayout, b, k);
            s[4..] == b[4..] && FromLe(s[..4]) == (FromLe(b[..4]) + k) % TWO32
  {
    hide FromLe, FromBe, ToLe, ToBe;
    var m, n := (FromBe(b[12..]) + k) % TWO32, (FromLe(b[..4]) + k) % TWO32;
    WordRoundTrip(m, b[12..]);
    WordRoundTrip(n, b[..4]);
    assert Advance(GcmLayout, b, k) == b[..12] + ToBe(m, 4);
    assert Advance(SivLayout, b, k) == ToLe(n, 4) + b[4..];
  }
}

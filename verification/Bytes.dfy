/**
 Bytes, 16-byte blocks and their integer readings.
 */
module Bytes {
  import opened Gf2
  import opened Field

  type byte = n: nat | n < 0x100

  const ZERO_BLOCK: seq<byte> := [0, 0, 0, 0, 0, 0, 0, 0, 0, 0, 0, 0, 0, 0, 0, 0]

  type Block = b: seq<byte> | |b| == 16 witness ZERO_BLOCK

  const ZERO_KEY: seq<byte> := ZERO_BLOCK + ZERO_BLOCK

  type Key = k: seq<byte> | |k| == 32 witness ZERO_KEY

  /** AES-256 as an arbitrary function of key and block. */
  datatype Cipher = Cipher(aes: (Key, Block) -> Block, key: Key) {
    function Encrypt(b: Block): Block { aes(key, b) }
  }

  function Zeros(n: nat): seq<byte> { seq(n, _ => 0) }

  function Reverse(s: seq<byte>): (r: seq<byte>)
    ensures |r| == |s|
  {
    seq(|s|, i requires 0 <= i < |s| => s[|s| - 1 - i])
  }

  function FromLe(s: seq<byte>): nat {
    if s == [] then 0 else s[0] + 0x100 * FromLe(s[1..])
  }

  function FromBe(s: seq<byte>): nat {
    if s == [] then 0 else 0x100 * FromBe(s[..|s| - 1]) + s[|s| - 1]
  }

  function ToLe(n: nat, len: nat): (s: seq<byte>)
    ensures |s| == len
    decreases len, n
  {
    if len == 0 then [] else [n % 0x100] + ToLe(n / 0x100, len - 1)
  }

  function ToBe(n: nat, len: nat): (s: seq<byte>)
    ensures |s| == len
    decreases len, n
  {
    if len == 0 then [] else ToBe(n / 0x100, len - 1) + [n % 0x100]
  }

  function XorByte(a: byte, b: byte): byte {
    XorByteFits(a, b);
    Xor(a, b)
  }

  lemma XorByteFits(a: byte, b: byte)
    ensures Xor(a, b) < 0x100
  {
    assert Pow2(4) == 16;
    assert Pow2(8) == 0x100;
    XorFits(a, b, 8);
  }

  function XorBytes(a: seq<byte>, b: seq<byte>): (r: seq<byte>)
    requires |a| == |b|
    ensures |r| == |a|
  {
    seq(|a|, i requires 0 <= i < |a| => XorByte(a[i], b[i]))
  }

  lemma XorByteTwice(a: byte, b: byte)
    ensures XorByte(XorByte(a, b), b) == a == XorByte(b, XorByte(b, a))
    ensures XorByte(a, b) == XorByte(b, a)
  {
    hide Xor;
    XorGroup(b, a, 0);
  }

  /** s with the bytes from off on replaced by mid. */
  function Splice(s: seq<byte>, off: nat, mid: seq<byte>): (r: seq<byte>)
    requires off + |mid| <= |s|
    ensures |r| == |s|
  {
    s[..off] + mid + s[off + |mid|..]
  }

  /** Two adjacent replacements are one. */
  lemma SpliceTwice(s: seq<byte>, off: nat, a: seq<byte>, b: seq<byte>)
    requires off + |a| + |b| <= |s|
    ensures Splice(Splice(s, off, a), off + |a|, b) == Splice(s, off, a + b)
  {
  }

  lemma SpliceAt(s: seq<byte>, off: nat, mid: seq<byte>, k: nat)
    requires off + |mid| <= |s| && k < |s|
    ensures Splice(s, off, mid)[k] == if off <= k < off + |mid| then mid[k - off] else s[k]
  {
  }

  /** Replacing the same part again. */
  lemma SpliceOver(s: seq<byte>, off: nat, a: seq<byte>, b: seq<byte>)
    requires off + |a| <= |s| && |a| == |b|
    ensures Splice(Splice(s, off, a), off, b) == Splice(s, off, b)
  {
  }

  lemma SpliceNothing(s: seq<byte>, off: nat)
    requires off <= |s|
    ensures Splice(s, off, []) == s
  {
  }

  /** Replacing everything. */
  lemma SpliceWhole(s: seq<byte>, mid: seq<byte>)
    requires |mid| == |s|
    ensures Splice(s, 0, mid) == mid
  {
  }

  /** Reading the replaced part, and reading after it. */
  lemma SpliceParts(s: seq<byte>, off: nat, mid: seq<byte>)
    requires off + |mid| <= |s|
    ensures Splice(s, off, mid)[off..off + |mid|] == mid
    ensures Splice(s, off, mid)[off + |mid|..] == s[off + |mid|..]
    ensures Splice(s, off, mid)[..off] == s[..off]
  {
  }

  /** Zero-extends to a whole number of blocks. */
  function ZeroPad(s: seq<byte>): (r: seq<byte>)
    ensures |r| % 16 == 0 && s <= r
  {
    s + Zeros((16 - |s| % 16) % 16)
  }

  /** A slice of a concatenation that lies on one side of the seam. */
  lemma SliceOfConcat(a: seq<byte>, b: seq<byte>, i: nat, j: nat)
    requires i <= j <= |a + b|
    ensures j <= |a| ==> (a + b)[i..j] == a[i..j]
    ensures |a| <= i ==> (a + b)[i..j] == b[i - |a|..j - |a|]
  {
    var l := (a + b)[i..j];
    if j <= |a| {
      forall k | 0 <= k < |l| ensures l[k] == a[i..j][k] {
        assert l[k] == (a + b)[i + k];
      }
    }
    if |a| <= i {
      forall k | 0 <= k < |l| ensures l[k] == b[i - |a|..j - |a|][k] {
        assert l[k] == (a + b)[i + k];
      }
    }
  }

  // ---------------------------------------------------------------------------
  // Readings of a block
  // ---------------------------------------------------------------------------

  lemma {:induction false} FromLeFits(s: seq<byte>, k: nat)
    requires k == 8 * |s|
    ensures FromLe(s) < Pow2(k)
    decreases |s|
  {
    if s != [] {
      FromLeFits(s[1..], k - 8);
      Pow2By8(k - 8);
    }
  }

  lemma Pow2By8(k: nat)
    ensures Pow2(k + 8) == 0x100 * Pow2(k)
  {
    assert Pow2(k + 2) == 4 * Pow2(k);
    assert Pow2(k + 4) == 16 * Pow2(k);
    assert Pow2(k + 6) == 64 * Pow2(k);
  }

  lemma {:induction false} FromBeIsReversedFromLe(s: seq<byte>)
    ensures FromLe(Reverse(s)) == FromBe(s)
    decreases |s|
  {
    if s != [] {
      var n := |s| - 1;
      assert Reverse(s)[1..] == Reverse(s[..n]);
      FromBeIsReversedFromLe(s[..n]);
    }
  }

  lemma {:induction false} ToBeIsReversedToLe(n: nat, len: nat)
    ensures Reverse(ToLe(n, len)) == ToBe(n, len)
    decreases len
  {
    if len > 0 {
      ToBeIsReversedToLe(n / 0x100, len - 1);
      var t := ToLe(n / 0x100, len - 1);
      assert Reverse([n % 0x100] + t) == Reverse(t) + [n % 0x100];
    }
  }

  lemma {:induction false} LeRoundTrip(n: nat, k: nat, len: nat)
    requires k == 8 * len && n < Pow2(k)
    ensures FromLe(ToLe(n, len)) == n
    decreases len
  {
    if len > 0 {
      Pow2By8(k - 8);
      LeRoundTrip(n / 0x100, k - 8, len - 1);
      assert ToLe(n, len)[1..] == ToLe(n / 0x100, len - 1);
    }
  }

  /** Reading a block and writing it back. */
  lemma {:induction false} LeInverse(s: seq<byte>)
    ensures ToLe(FromLe(s), |s|) == s
    decreases |s|
  {
    if s != [] {
      LeInverse(s[1..]);
      assert FromLe(s) % 0x100 == s[0] && FromLe(s) / 0x100 == FromLe(s[1..]);
    }
  }

  /** GHASH reads a block most significant byte first; POLYVAL, least significant first. */
  datatype Order = GhashOrder | PolyvalOrder

  function Load(order: Order, b: Block): (v: u128)
  {
    LoadFits(order, b);
    if order == GhashOrder then FromBe(b) else FromLe(b)
  }

  function Store(order: Order, v: u128): Block
  {
    if order == GhashOrder then ToBe(v, 16) else ToLe(v, 16)
  }

  lemma LoadFits(order: Order, b: Block)
    ensures FromBe(b) < TWO128 && FromLe(b) < TWO128
  {
    PowValues();
    FromLeFits(b, 128);
    FromLeFits(Reverse(b), 128);
    FromBeIsReversedFromLe(b);
  }

  /** Blocks and field elements correspond one to one, in either order. */
  lemma LoadStore(order: Order, v: u128, b: Block)
    ensures Load(order, Store(order, v)) == v
    ensures Store(order, Load(order, b)) == b
  {
    hide FromLe, FromBe, ToLe, ToBe;
    PowValues();
    LeRoundTrip(v, 128, 16);
    LeInverse(b);
    LeInverse(Reverse(b));
    ReverseTwice(b);
    ReverseTwice(ToLe(v, 16));
    ToBeIsReversedToLe(v, 16);
    FromBeIsReversedFromLe(ToBe(v, 16));
    FromBeIsReversedFromLe(b);
    ToBeIsReversedToLe(FromBe(b), 16);
  }

  /** A little-endian number bit by bit: byte k holds the bits from 8 k on. */
  lemma {:induction false} BitOfFromLe(s: seq<byte>, k: nat, j: nat)
    requires k < |s| && j < 8
    ensures Bit(FromLe(s), 8 * k + j) <==> Bit(s[k], j)
    decreases k
  {
    hide Bit, Xor, Shl, Pow2;
    var hi := FromLe(s[1..]);
    assert Pow2(8) == 0x100 by { Pow2By8(0); PowOfNought(); }
    ShlIs256(hi);
    XorJoin(s[0], hi, 8);
    BitOfXor(s[0], Shl(hi, 8), 8 * k + j);
    BitOfShl(hi, 8, 8 * k + j);
    if k > 0 {
      HighBitClear(s[0], 8, 8 * k + j);
      BitOfFromLe(s[1..], k - 1, j);
      assert 8 * k + j - 8 == 8 * (k - 1) + j;
    }
  }

  lemma PowOfNought()
    ensures Pow2(0) == 1
  {
  }

  lemma ShlIs256(hi: nat)
    ensures Shl(hi, 8) == 0x100 * hi
  {
    ShlBy8(hi, 0);
  }

  /** How the two hashes read a block: POLYVAL takes byte k as bits 8 k to 8 k + 7,
      GHASH takes the bytes in the opposite order. */
  lemma BitOfLoad(b: Block, k: nat, j: nat)
    requires k < 16 && j < 8
    ensures Bit(Load(PolyvalOrder, b), 8 * k + j) <==> Bit(b[k], j)
    ensures Bit(Load(GhashOrder, b), 8 * (15 - k) + j) <==> Bit(b[k], j)
  {
    hide Bit, FromLe, FromBe;
    BitOfFromLe(b, k, j);
    FromBeIsReversedFromLe(b);
    BitOfFromLe(Reverse(b), 15 - k, j);
  }

  /** XOR of bytes, bit by bit. */
  lemma BitOfXorBytes(a: seq<byte>, b: seq<byte>, k: nat, j: nat)
    requires |a| == |b| && k < |a|
    ensures Bit(XorBytes(a, b)[k], j) <==> Bit(a[k], j) != Bit(b[k], j)
  {
    hide Bit, Xor;
    BitOfXor(a[k], b[k], j);
  }

  lemma XorBytesTwice(a: seq<byte>, b: seq<byte>)
    requires |a| == |b|
    ensures XorBytes(XorBytes(a, b), b) == a && XorBytes(XorBytes(a, b), a) == b
  {
    hide XorByte;
    forall k | 0 <= k < |a|
      ensures XorByte(XorByte(a[k], b[k]), b[k]) == a[k] && XorByte(XorByte(a[k], b[k]), a[k]) == b[k]
    {
      XorByteTwice(a[k], b[k]);
      XorByteTwice(b[k], a[k]);
    }
  }

  /** Padding appends fewer than sixteen zero bytes, and none to whole blocks. */
  lemma ZeroPadAppendsZeros(s: seq<byte>)
    ensures var r := ZeroPad(s);
            && |s| <= |r| < |s| + 16 && |r| % 16 == 0 && r[..|s|] == s
            && forall k | |s| <= k < |r| :: r[k] == 0
  {
  }

  lemma ReverseTwice(s: seq<byte>)
    ensures Reverse(Reverse(s)) == s
  {
  }

  /** The register byte reversal: on aarch64 REV64 then EXT #8, on x86 a shuffle
      whose mask sends byte i to byte 15 - i. */
  function Rev64(b: Block): Block { Reverse(b[..8]) + Reverse(b[8..]) }

  function SwapHalves(b: Block): Block { b[8..] + b[..8] }

  lemma ByteReverseIsReverse(b: Block)
    ensures SwapHalves(Rev64(b)) == Reverse(b)
  {
  }

  // ---------------------------------------------------------------------------
  // Data as words
  // ---------------------------------------------------------------------------

  /** The blocks of aligned data as field elements. */
  function Words(order: Order, data: seq<byte>): (w: seq<u128>)
    requires |data| % 16 == 0
    ensures |w| == |data| / 16
  {
    seq(|data| / 16, i requires 0 <= i < |data| / 16 => Load(order, data[16 * i..16 * i + 16]))
  }

  function PaddedWords(order: Order, data: seq<byte>): seq<u128> { Words(order, ZeroPad(data)) }

  lemma WordAt(order: Order, a: seq<byte>, b: seq<byte>, i: nat)
    requires |a| % 16 == 0 && |b| % 16 == 0 && i < |a + b| / 16
    ensures Words(order, a + b)[i] == if i < |a| / 16 then Words(order, a)[i] else Words(order, b)[i - |a| / 16]
  {
    hide Load;
    var k := |a| / 16;
    assert |a| == 16 * k;
    SliceOfConcat(a, b, 16 * i, 16 * i + 16);
    if i >= k {
      var j := i - k;
      assert 16 * i - |a| == 16 * j;
    }
  }

  lemma WordsConcat(order: Order, a: seq<byte>, b: seq<byte>)
    requires |a| % 16 == 0 && |b| % 16 == 0
    ensures Words(order, a + b) == Words(order, a) + Words(order, b)
  {
    hide Words;
    var u, v := Words(order, a + b), Words(order, a) + Words(order, b);
    assert |u| == |v|;
    forall i | 0 <= i < |u| ensures u[i] == v[i] {
      WordAt(order, a, b, i);
    }
  }

  lemma WordsOfBlock(order: Order, b: Block)
    ensures Words(order, b) == [Load(order, b)]
  {
    assert b[0..16] == b;
  }

  lemma PadLengthSplit(m: nat, n: nat)
    requires m % 16 == 0
    ensures (m + n) % 16 == n % 16
  {
    var k, q, r := m / 16, n / 16, n % 16;
    assert m + n == 16 * (k + q) + r;
  }

  /** Padding only touches the final partial block. */
  lemma PaddedWordsSplit(order: Order, a: seq<byte>, b: seq<byte>)
    requires |a| % 16 == 0
    ensures PaddedWords(order, a + b) == Words(order, a) + PaddedWords(order, b)
  {
    hide Words;
    PadLengthSplit(|a|, |b|);
    assert (a + b) + Zeros((16 - |b| % 16) % 16) == a + ZeroPad(b);
    WordsConcat(order, a, ZeroPad(b));
  }
}

/**
 AES-256 key expansion: the word recurrence of section 5.2 of FIPS 197, the portable
 schedule that follows it, and the two vector expansions.
 */
module KeyScheduleSpec {
  import opened Bytes

  const NO_WORD: seq<byte> := [0, 0, 0, 0]

  type Word = w: seq<byte> | |w| == 4 witness NO_WORD

  type Sbox = byte -> byte

  const RCON: seq<byte> := [0x01, 0x02, 0x04, 0x08, 0x10, 0x20, 0x40]

  function SubWord(sbox: Sbox, w: Word): Word { [sbox(w[0]), sbox(w[1]), sbox(w[2]), sbox(w[3])] }

  function RotWord(w: Word): Word { [w[1], w[2], w[3], w[0]] }

  function XorWords(a: Word, b: Word): Word { XorBytes(a, b) }

  /** The transformation of w[i-1] before it meets w[i-8]. */
  function Temp(sbox: Sbox, prev: Word, i: nat): Word
    requires 8 <= i < 60
  {
    if i % 8 == 0 then XorWords(SubWord(sbox, RotWord(prev)), [RCON[i / 8 - 1], 0, 0, 0])
    else if i % 8 == 4 then SubWord(sbox, prev)
    else prev
  }

  /** Word i of the expanded key. */
  function W(sbox: Sbox, key: Key, i: nat): Word
    requires i < 60
    decreases i, key
  {
    if i < 8 then key[4 * i..4 * i + 4]
    else XorWords(W(sbox, key, i - 8), Temp(sbox, W(sbox, key, i - 1), i))
  }

  /** Four consecutive words. */
  function Join(a: Word, b: Word, c: Word, d: Word): Block { a + b + c + d }

  function RoundKey(sbox: Sbox, key: Key, r: nat): Block
    requires r < 15
  {
    Join(W(sbox, key, 4 * r), W(sbox, key, 4 * r + 1), W(sbox, key, 4 * r + 2), W(sbox, key, 4 * r + 3))
  }

  /** Word c of a register. */
  function Lane(v: Block, c: nat): Word
    requires c < 4
  {
    v[4 * c..4 * c + 4]
  }

  lemma LanesOfJoin(a: Word, b: Word, c: Word, d: Word)
    ensures var v := Join(a, b, c, d);
            Lane(v, 0) == a && Lane(v, 1) == b && Lane(v, 2) == c && Lane(v, 3) == d
  {
  }

  lemma FirstRoundKeys(sbox: Sbox, key: Key)
    ensures RoundKey(sbox, key, 0) == key[..16] && RoundKey(sbox, key, 1) == key[16..]
  {
  }
}

module KeySchedule {
  import opened Gf2
  import opened Field
  import opened Bytes
  import opened Ctr
  import opened KeyScheduleSpec

  // ---------------------------------------------------------------------------
  // The portable schedule
  // ---------------------------------------------------------------------------

  lemma WStep(sbox: Sbox, key: Key, i: nat)
    requires 8 <= i < 60
    ensures W(sbox, key, i) == XorWords(W(sbox, key, i - 8), Temp(sbox, W(sbox, key, i - 1), i))
  {
  }

  lemma WStart(sbox: Sbox, key: Key, i: nat)
    requires i < 8
    ensures W(sbox, key, i) == key[4 * i..4 * i + 4]
  {
  }

  /** The round constants are the powers x^0 to x^6. */
  lemma RconIsPower(i: nat)
    requires i < 7
    ensures RCON[i] == Shl(1, i)
  {
    assert Shl(1, 3) == 8;
  }

  lemma TempBytes(sbox: Sbox, prev: Word, i: nat, c: nat)
    requires 8 <= i < 60 && c < 4
    ensures Temp(sbox, prev, i)[c] ==
      if i % 8 == 0 then
        if c == 0 then XorByte(sbox(prev[1]), RCON[i / 8 - 1]) else sbox(prev[(c + 1) % 4])
      else if i % 8 == 4 then sbox(prev[c])
      else prev[c]
  {
    hide XorByte;
    XorByteZero(sbox(prev[(c + 1) % 4]));
  }

  /** The recurrence of section 5.2 of FIPS 197, byte c of word i at a time: every
      eighth word meets the rotated and substituted one before it, its first byte also
      the next power of x; every fourth the substituted one; the others the plain one. */
  lemma WBytes(sbox: Sbox, key: Key, i: nat, c: nat)
    requires 8 <= i < 60 && c < 4
    ensures W(sbox, key, i)[c] == XorByte(W(sbox, key, i - 8)[c],
      if i % 8 == 0 then
        var s := sbox(W(sbox, key, i - 1)[(c + 1) % 4]);
        if c == 0 then XorByte(s, RCON[i / 8 - 1]) else s
      else if i % 8 == 4 then sbox(W(sbox, key, i - 1)[c])
      else W(sbox, key, i - 1)[c])
  {
    hide W, XorByte, Temp;
    WStep(sbox, key, i);
    TempBytes(sbox, W(sbox, key, i - 1), i, c);
  }

  /** The first eight words are the key. */
  lemma WKeyBytes(sbox: Sbox, key: Key, i: nat, c: nat)
    requires i < 8 && c < 4
    ensures W(sbox, key, i)[c] == key[4 * i + c]
  {
    hide W;
    WStart(sbox, key, i);
  }

  /** Byte j of round key r. */
  lemma RoundKeyBytes(sbox: Sbox, key: Key, r: nat, j: nat)
    requires r < 15 && j < 16
    ensures RoundKey(sbox, key, r)[j] == W(sbox, key, 4 * r + j / 4)[j % 4]
  {
    hide W;
  }

  /** The 60-word recurrence, filled in order. */
  method ExpandWords(sbox: Sbox, key: Key) returns (w: array<Word>)
    ensures w.Length == 60 && forall k | 0 <= k < 60 :: w[k] == W(sbox, key, k)
  {
    hide SubWord, RotWord, XorWords, W;
    w := new Word[60](_ => NO_WORD);
    for i := 0 to 8
      invariant forall k | 0 <= k < i :: w[k] == W(sbox, key, k)
    {
      WStart(sbox, key, i);
      w[i] := key[4 * i..4 * i + 4];
    }
    for i := 8 to 60
      invariant forall k | 0 <= k < i :: w[k] == W(sbox, key, k)
    {
      WStep(sbox, key, i);
      var t := w[i - 1];
      if i % 8 == 0 {
        t := SubWord(sbox, RotWord(t));
        t := XorWords(t, [RCON[i / 8 - 1], 0, 0, 0]);
      } else if i % 8 == 4 {
        t := SubWord(sbox, t);
      }
      w[i] := XorWords(w[i - 8], t);
    }
  }

  method SoftwareKeySchedule(sbox: Sbox, key: Key) returns (rk: seq<Block>)
    ensures |rk| == 15 && forall r | 0 <= r < 15 :: rk[r] == RoundKey(sbox, key, r)
  {
    hide W, Join;
    var w := ExpandWords(sbox, key);
    rk := [];
    for r := 0 to 15
      invariant |rk| == r && forall k | 0 <= k < r :: rk[k] == RoundKey(sbox, key, k)
    {
      rk := rk + [Join(w[4 * r], w[4 * r + 1], w[4 * r + 2], w[4 * r + 3])];
    }
  }

  // ---------------------------------------------------------------------------
  // The prefix cascade
  // ---------------------------------------------------------------------------

  /** The register shifted up by one word, zeros coming in. */
  function ShiftWord(v: Block): Block { NO_WORD + v[..12] }

  function CascadeStep(v: Block): Block { XorBytes(v, ShiftWord(v)) }

  function PrefixCascade(v: Block): Block { CascadeStep(CascadeStep(CascadeStep(v))) }

  function Broadcast(w: Word): Block { Join(w, w, w, w) }

  lemma XorOfJoins(a: Word, b: Word, c: Word, d: Word, a': Word, b': Word, c': Word, d': Word)
    ensures XorBytes(Join(a, b, c, d), Join(a', b', c', d'))
         == Join(XorWords(a, a'), XorWords(b, b'), XorWords(c, c'), XorWords(d, d'))
  {
    hide XorByte;
  }

  lemma CascadeStepOfJoin(a: Word, b: Word, c: Word, d: Word)
    ensures CascadeStep(Join(a, b, c, d)) == Join(a, XorWords(b, a), XorWords(c, b), XorWords(d, c))
  {
    hide XorByte, XorWords;
    assert ShiftWord(Join(a, b, c, d)) == Join(NO_WORD, a, b, c);
    XorOfJoins(a, b, c, d, NO_WORD, a, b, c);
    XorNoWord(a);
  }

  lemma XorNoWord(a: Word)
    ensures XorWords(a, NO_WORD) == a
  {
    hide Xor;
    forall k | 0 <= k < 4 ensures XorByte(a[k], 0) == a[k] { XorZero(a[k]); }
  }

  /** The three cascade steps leave prefix sums, so adding f everywhere gives the
      chain in which each new word is added to the next old one. */
  lemma CascadeBytes(a: nat, b: nat, c: nat, d: nat, f: nat)
    ensures Xor(Xor(Xor(Xor(b, a), a), a), f) == Xor(b, Xor(a, f))
    ensures Xor(Xor(Xor(Xor(c, b), Xor(b, a)), Xor(Xor(b, a), a)), f) == Xor(c, Xor(b, Xor(a, f)))
    ensures Xor(Xor(Xor(Xor(d, c), Xor(c, b)), Xor(Xor(c, b), Xor(b, a))), f) == Xor(d, Xor(c, Xor(b, Xor(a, f))))
  {
    hide Xor, Bit;
    BitFacts();
    SameBits(Xor(Xor(Xor(Xor(b, a), a), a), f), Xor(b, Xor(a, f)));
    SameBits(Xor(Xor(Xor(Xor(c, b), Xor(b, a)), Xor(Xor(b, a), a)), f), Xor(c, Xor(b, Xor(a, f))));
    SameBits(Xor(Xor(Xor(Xor(d, c), Xor(c, b)), Xor(Xor(c, b), Xor(b, a))), f), Xor(d, Xor(c, Xor(b, Xor(a, f)))));
  }

  lemma CascadeWords(a: Word, b: Word, c: Word, d: Word, f: Word)
    ensures XorWords(XorWords(XorWords(XorWords(b, a), a), a), f) == XorWords(b, XorWords(a, f))
    ensures XorWords(XorWords(XorWords(XorWords(c, b), XorWords(b, a)), XorWords(XorWords(b, a), a)), f)
         == XorWords(c, XorWords(b, XorWords(a, f)))
    ensures XorWords(XorWords(XorWords(XorWords(d, c), XorWords(c, b)), XorWords(XorWords(c, b), XorWords(b, a))), f)
         == XorWords(d, XorWords(c, XorWords(b, XorWords(a, f))))
  {
    hide Xor;
    forall k | 0 <= k < 4
      ensures var a, b, c, d, f := a[k], b[k], c[k], d[k], f[k];
              && XorByte(XorByte(XorByte(XorByte(b, a), a), a), f) == XorByte(b, XorByte(a, f))
              && XorByte(XorByte(XorByte(XorByte(c, b), XorByte(b, a)), XorByte(XorByte(b, a), a)), f)
                 == XorByte(c, XorByte(b, XorByte(a, f)))
              && XorByte(XorByte(XorByte(XorByte(d, c), XorByte(c, b)), XorByte(XorByte(c, b), XorByte(b, a))), f)
                 == XorByte(d, XorByte(c, XorByte(b, XorByte(a, f))))
    {
      CascadeBytes(a[k], b[k], c[k], d[k], f[k]);
    }
  }

  /** The chain of section 5.2, one round key at a time. */
  function Chain(a: Word, b: Word, c: Word, d: Word, f: Word): Block {
    var n0 := XorWords(a, f);
    var n1 := XorWords(b, n0);
    var n2 := XorWords(c, n1);
    var n3 := XorWords(d, n2);
    Join(n0, n1, n2, n3)
  }

  lemma CascadeIsChain(a: Word, b: Word, c: Word, d: Word, f: Word)
    ensures XorBytes(PrefixCascade(Join(a, b, c, d)), Broadcast(f)) == Chain(a, b, c, d, f)
  {
    hide XorWords, XorBytes, Join, CascadeStep;
    CascadeStepOfJoin(a, b, c, d);
    var b1, c1, d1 := XorWords(b, a), XorWords(c, b), XorWords(d, c);
    CascadeStepOfJoin(a, b1, c1, d1);
    var b2, c2, d2 := XorWords(b1, a), XorWords(c1, b1), XorWords(d1, c1);
    CascadeStepOfJoin(a, b2, c2, d2);
    var b3, c3, d3 := XorWords(b2, a), XorWords(c2, b2), XorWords(d2, c2);
    XorOfJoins(a, b3, c3, d3, f, f, f, f);
    CascadeWords(a, b, c, d, f);
  }

  // ---------------------------------------------------------------------------
  // Round keys as chains
  // ---------------------------------------------------------------------------

  /** What is added to the first word of the even round key 2 i + 2. */
  function EvenTerm(sbox: Sbox, last: Word, i: nat): Word
    requires i < 7
  {
    XorWords(RotWord(SubWord(sbox, last)), [RCON[i], 0, 0, 0])
  }

  /** Inside a round key the recurrence applies no transformation. */
  lemma PlainWord(sbox: Sbox, key: Key, i: nat)
    requires 8 <= i < 60 && i % 4 != 0
    ensures W(sbox, key, i) == XorWords(W(sbox, key, i - 8), W(sbox, key, i - 1))
  {
    hide W, XorWords, SubWord, RotWord;
    WStep(sbox, key, i);
  }

  /** Four words of the recurrence are a chain over the four words two keys back. */
  lemma FourWords(sbox: Sbox, key: Key, r: nat, f: Word)
    requires r < 13 && f == Temp(sbox, W(sbox, key, 4 * r + 7), 4 * r + 8)
    ensures Chain(W(sbox, key, 4 * r), W(sbox, key, 4 * r + 1), W(sbox, key, 4 * r + 2), W(sbox, key, 4 * r + 3), f)
         == RoundKey(sbox, key, r + 2)
  {
    hide W, XorWords, Join, Temp;
    WStep(sbox, key, 4 * r + 8);
    PlainWord(sbox, key, 4 * r + 9);
    PlainWord(sbox, key, 4 * r + 10);
    PlainWord(sbox, key, 4 * r + 11);
  }

  lemma EvenRoundKey(sbox: Sbox, key: Key, i: nat)
    requires i < 7
    ensures Chain(W(sbox, key, 8 * i), W(sbox, key, 8 * i + 1), W(sbox, key, 8 * i + 2), W(sbox, key, 8 * i + 3),
                  EvenTerm(sbox, W(sbox, key, 8 * i + 7), i))
         == RoundKey(sbox, key, 2 * i + 2)
  {
    hide W, XorWords, Join, Chain, RoundKey;
    assert 4 * (2 * i) + 8 == 8 * (i + 1);
    FourWords(sbox, key, 2 * i, EvenTerm(sbox, W(sbox, key, 8 * i + 7), i));
  }

  lemma OddRoundKey(sbox: Sbox, key: Key, i: nat)
    requires i < 6
    ensures Chain(W(sbox, key, 8 * i + 4), W(sbox, key, 8 * i + 5), W(sbox, key, 8 * i + 6), W(sbox, key, 8 * i + 7),
                  SubWord(sbox, W(sbox, key, 8 * i + 11)))
         == RoundKey(sbox, key, 2 * i + 3)
  {
    hide W, XorWords, Join, SubWord, Chain, RoundKey;
    assert 4 * (2 * i + 1) + 8 == 8 * (i + 1) + 4;
    FourWords(sbox, key, 2 * i + 1, SubWord(sbox, W(sbox, key, 8 * i + 11)));
  }

  /** A cascade over one round key makes the next of the same parity. */
  lemma CascadeOverRoundKey(sbox: Sbox, key: Key, r: nat, f: Word)
    requires r < 15
    ensures XorBytes(PrefixCascade(RoundKey(sbox, key, r)), Broadcast(f))
         == Chain(W(sbox, key, 4 * r), W(sbox, key, 4 * r + 1), W(sbox, key, 4 * r + 2), W(sbox, key, 4 * r + 3), f)
  {
    hide W, XorBytes, PrefixCascade, Broadcast, Chain;
    CascadeIsChain(W(sbox, key, 4 * r), W(sbox, key, 4 * r + 1), W(sbox, key, 4 * r + 2), W(sbox, key, 4 * r + 3), f);
  }

  lemma LastLane(sbox: Sbox, key: Key, r: nat)
    requires r < 15
    ensures Lane(RoundKey(sbox, key, r), 3) == W(sbox, key, 4 * r + 3)
  {
    hide W, Join, Lane;
    LanesOfJoin(W(sbox, key, 4 * r), W(sbox, key, 4 * r + 1), W(sbox, key, 4 * r + 2), W(sbox, key, 4 * r + 3));
  }

  // ---------------------------------------------------------------------------
  // aarch64
  // ---------------------------------------------------------------------------

  function SubBytes(sbox: Sbox, v: Block): Block { seq(16, i requires 0 <= i < 16 => sbox(v[i])) }

  /** Row r of the state is every fourth byte from r; it rotates by r places. */
  function ShiftRows(v: Block): Block {
    seq(16, i requires 0 <= i < 16 => v[i % 4 + 4 * ((i / 4 + i % 4) % 4)])
  }

  /** Row r of column c comes from row r of column c + r, section 5.1.2 of FIPS 197. */
  lemma ShiftRowsFrom(v: Block, r: nat, c: nat)
    requires r < 4 && c < 4
    ensures ShiftRows(v)[r + 4 * c] == v[r + 4 * ((c + r) % 4)]
  {
  }

  /** AESE: add the round key, substitute, shift rows. */
  function Aese(sbox: Sbox, v: Block, k: Block): Block { ShiftRows(SubBytes(sbox, XorBytes(v, k))) }

  /** SubWord by way of AESE on four equal words with a zero key, lane 0. */
  function SubWordAese(sbox: Sbox, input: nat): nat {
    FromLe(Lane(Aese(sbox, Broadcast(ToLe(input, 4)), ZERO_BLOCK), 0))
  }

  function RotateRight8(n: nat): nat { n / 0x100 + n % 0x100 * 0x100_0000 }

  lemma BroadcastAt(w: Word, k: nat)
    requires k < 16
    ensures Broadcast(w)[k] == w[k % 4]
  {
  }

  lemma SubBytesOfBroadcast(sbox: Sbox, w: Word)
    ensures SubBytes(sbox, Broadcast(w)) == Broadcast(SubWord(sbox, w))
  {
    hide Broadcast;
    forall k | 0 <= k < 16 ensures sbox(Broadcast(w)[k]) == Broadcast(SubWord(sbox, w))[k] {
      BroadcastAt(w, k);
      BroadcastAt(SubWord(sbox, w), k);
    }
  }

  /** Four equal columns are a fixed point of the row shifts. */
  lemma ShiftRowsOfBroadcast(w: Word)
    ensures ShiftRows(Broadcast(w)) == Broadcast(w)
  {
    hide Broadcast;
    forall k | 0 <= k < 16 ensures Broadcast(w)[k % 4 + 4 * ((k / 4 + k % 4) % 4)] == Broadcast(w)[k] {
      BroadcastAt(w, k);
      BroadcastAt(w, k % 4 + 4 * ((k / 4 + k % 4) % 4));
    }
  }

  lemma XorZeroBlock(v: Block)
    ensures XorBytes(v, ZERO_BLOCK) == v
  {
    hide Xor;
    forall k | 0 <= k < 16 ensures XorByte(v[k], 0) == v[k] { XorZero(v[k]); }
  }

  lemma AeseIsSubWord(sbox: Sbox, w: Word)
    ensures SubWordAese(sbox, FromLe(w)) == FromLe(SubWord(sbox, w))
  {
    hide FromLe, ToLe, XorBytes, SubBytes, ShiftRows, SubWord, Join, Lane;
    WordRoundTrip(0, w);
    XorZeroBlock(Broadcast(w));
    SubBytesOfBroadcast(sbox, w);
    var s := SubWord(sbox, w);
    ShiftRowsOfBroadcast(s);
    LanesOfJoin(s, s, s, s);
  }

  /** A byte as a number. */
  function Num(b: byte): nat { b }

  lemma FromLeOfWord(w: Word)
    ensures FromLe(w) == Num(w[0]) + 0x100 * Num(w[1]) + 0x1_0000 * Num(w[2]) + 0x100_0000 * Num(w[3])
  {
    assert w[1..][1..] == w[2..] && w[2..][1..] == w[3..] && w[3..][1..] == [];
    assert FromLe(w[3..]) == w[3];
    assert FromLe(w[2..]) == Num(w[2]) + 0x100 * FromLe(w[3..]);
    assert FromLe(w[1..]) == Num(w[1]) + 0x100 * FromLe(w[2..]);
  }

  lemma RotateIsRotWord(w: Word)
    ensures RotateRight8(FromLe(w)) == FromLe(RotWord(w))
  {
    hide FromLe;
    FromLeOfWord(w);
    FromLeOfWord(RotWord(w));
  }

  /** XOR of a byte constant into a 32-bit word meets only its first byte. */
  lemma XorConstant(w: Word, rcon: byte)
    ensures ToLe(Xor(FromLe(w), rcon), 4) == XorWords(w, [rcon, 0, 0, 0])
  {
    hide FromLe, ToLe, Xor, XorByte;
    var x: Word := [XorByte(w[0], rcon), w[1], w[2], w[3]];
    FromLeOfWord(w);
    FromLeOfWord(x);
    XorLowByte(w[0], Num(w[1]) + 0x100 * Num(w[2]) + 0x1_0000 * Num(w[3]), rcon);
    WordRoundTrip(0, x);
    forall k | 0 <= k < 4 ensures x[k] == XorWords(w, [rcon, 0, 0, 0])[k] {
      XorByteZero(w[k]);
    }
    assert x == XorWords(w, [rcon, 0, 0, 0]);
  }

  lemma XorByteZero(b: byte)
    ensures XorByte(b, 0) == b
  {
    hide Xor;
    XorZero(b);
  }

  lemma XorLowByte(lo: byte, hi: nat, r: byte)
    ensures Xor(lo + 0x100 * hi, r) == XorByte(lo, r) + 0x100 * hi
  {
    hide Xor;
    assert Pow2(8) == 0x100 by { assert Pow2(4) == 16; }
    ShlBy8(hi, 0);
    XorByteFits(lo, r);
    XorJoin(lo, hi, 8);
    XorJoin(Xor(lo, r), hi, 8);
    XorAssociates(lo, Shl(hi, 8), r);
    XorCommutes(Shl(hi, 8), r);
    XorAssociates(lo, r, Shl(hi, 8));
  }

  function NextEvenKey(sbox: Sbox, prevEven: Block, prevOdd: Block, rcon: byte): Block {
    var word := FromLe(Lane(prevOdd, 3));
    var derived := Xor(RotateRight8(SubWordAese(sbox, word)), rcon);
    XorBytes(PrefixCascade(prevEven), Broadcast(ToLe(derived, 4)))
  }

  function NextOddKey(sbox: Sbox, prevOdd: Block, newEven: Block): Block {
    var word := FromLe(Lane(newEven, 3));
    XorBytes(PrefixCascade(prevOdd), Broadcast(ToLe(SubWordAese(sbox, word), 4)))
  }

  lemma NextEvenIsRoundKey(sbox: Sbox, key: Key, i: nat)
    requires i < 7
    ensures NextEvenKey(sbox, RoundKey(sbox, key, 2 * i), RoundKey(sbox, key, 2 * i + 1), RCON[i])
         == RoundKey(sbox, key, 2 * i + 2)
  {
    hide W, FromLe, ToLe, Xor, XorWords, XorBytes, RoundKey, PrefixCascade, Broadcast, Chain;
    hide SubWord, RotWord, SubWordAese, RotateRight8;
    var last := W(sbox, key, 8 * i + 7);
    LastLane(sbox, key, 2 * i + 1);
    AeseIsSubWord(sbox, last);
    RotateIsRotWord(SubWord(sbox, last));
    XorConstant(RotWord(SubWord(sbox, last)), RCON[i]);
    CascadeOverRoundKey(sbox, key, 2 * i, EvenTerm(sbox, last, i));
    EvenRoundKey(sbox, key, i);
  }

  lemma NextOddIsRoundKey(sbox: Sbox, key: Key, i: nat)
    requires i < 6
    ensures NextOddKey(sbox, RoundKey(sbox, key, 2 * i + 1), RoundKey(sbox, key, 2 * i + 2))
         == RoundKey(sbox, key, 2 * i + 3)
  {
    hide W, FromLe, ToLe, XorWords, XorBytes, RoundKey, PrefixCascade, Broadcast, Chain, SubWord, SubWordAese;
    var last := W(sbox, key, 8 * i + 11);
    LastLane(sbox, key, 2 * i + 2);
    AeseIsSubWord(sbox, last);
    WordRoundTrip(0, SubWord(sbox, last));
    CascadeOverRoundKey(sbox, key, 2 * i + 1, SubWord(sbox, last));
    OddRoundKey(sbox, key, i);
  }

  method ExpandAarch64(sbox: Sbox, key: Key) returns (rk: array<Block>)
    ensures rk.Length == 15 && forall r | 0 <= r < 15 :: rk[r] == RoundKey(sbox, key, r)
  {
    hide RoundKey, NextEvenKey, NextOddKey;
    var even: Block, odd: Block := key[..16], key[16..];
    FirstRoundKeys(sbox, key);
    rk := new Block[15](_ => ZERO_BLOCK);
    rk[0], rk[1] := even, odd;
    for index := 0 to 7
      invariant even == RoundKey(sbox, key, 2 * index)
      invariant index < 7 ==> odd == RoundKey(sbox, key, 2 * index + 1)
      invariant forall r | 0 <= r < 2 * index + 2 && r < 15 :: rk[r] == RoundKey(sbox, key, r)
    {
      NextEvenIsRoundKey(sbox, key, index);
      even := NextEvenKey(sbox, even, odd, RCON[index]);
      rk[2 * index + 2] := even;
      if index < 6 {
        NextOddIsRoundKey(sbox, key, index);
        odd := NextOddKey(sbox, odd, even);
        rk[2 * index + 3] := odd;
      }
    }
  }

  // ---------------------------------------------------------------------------
  // x86
  // ---------------------------------------------------------------------------

  /** AESKEYGENASSIST. */
  function KeygenAssist(sbox: Sbox, v: Block, rcon: byte): Block {
    var x1, x3 := SubWord(sbox, Lane(v, 1)), SubWord(sbox, Lane(v, 3));
    Join(x1, XorWords(RotWord(x1), [rcon, 0, 0, 0]), x3, XorWords(RotWord(x3), [rcon, 0, 0, 0]))
  }

  lemma AssistLanes(sbox: Sbox, v: Block, rcon: byte)
    ensures Lane(KeygenAssist(sbox, v, rcon), 3) == XorWords(RotWord(SubWord(sbox, Lane(v, 3))), [rcon, 0, 0, 0])
    ensures Lane(KeygenAssist(sbox, v, rcon), 2) == SubWord(sbox, Lane(v, 3))
  {
    hide XorWords, SubWord, RotWord, Join, Lane;
    var x1, x3 := SubWord(sbox, Lane(v, 1)), SubWord(sbox, Lane(v, 3));
    LanesOfJoin(x1, XorWords(RotWord(x1), [rcon, 0, 0, 0]), x3, XorWords(RotWord(x3), [rcon, 0, 0, 0]));
  }

  /** PSHUFD #0xFF or #0xAA: one lane everywhere. */
  function Splat(v: Block, lane: nat): Block
    requires lane < 4
  {
    Broadcast(Lane(v, lane))
  }

  lemma XorBlocksCommute(a: Block, b: Block)
    ensures XorBytes(a, b) == XorBytes(b, a)
  {
    hide XorByte;
    forall k | 0 <= k < 16 ensures XorByte(a[k], b[k]) == XorByte(b[k], a[k]) {
      XorByteTwice(a[k], b[k]);
    }
  }

  method ExpandX86(sbox: Sbox, key: Key) returns (rk: array<Block>)
    ensures rk.Length == 15 && forall r | 0 <= r < 15 :: rk[r] == RoundKey(sbox, key, r)
  {
    hide RoundKey, KeygenAssist, Splat, PrefixCascade, XorBytes, Chain, Broadcast, W, Lane;
    FirstRoundKeys(sbox, key);
    rk := new Block[15](_ => ZERO_BLOCK);
    rk[0], rk[1] := key[..16], key[16..];
    for rnum := 0 to 7
      invariant forall r | 0 <= r < 2 * rnum + 2 && r < 15 :: rk[r] == RoundKey(sbox, key, r)
    {
      var prev0, prev1 := rk[2 * rnum], rk[2 * rnum + 1];
      EvenKeyX86(sbox, key, rnum);
      var even := XorBytes(Splat(KeygenAssist(sbox, prev1, RCON[rnum]), 3), PrefixCascade(prev0));
      rk[2 * rnum + 2] := even;
      if rnum < 6 {
        OddKeyX86(sbox, key, rnum);
        rk[2 * rnum + 3] := XorBytes(Splat(KeygenAssist(sbox, even, 0), 2), PrefixCascade(prev1));
      }
    }
  }

  lemma EvenKeyX86(sbox: Sbox, key: Key, i: nat)
    requires i < 7
    ensures XorBytes(Splat(KeygenAssist(sbox, RoundKey(sbox, key, 2 * i + 1), RCON[i]), 3),
                     PrefixCascade(RoundKey(sbox, key, 2 * i)))
         == RoundKey(sbox, key, 2 * i + 2)
  {
    hide RoundKey, KeygenAssist, PrefixCascade, XorBytes, Chain, Broadcast, W, Lane, XorWords, SubWord, RotWord;
    var prev := RoundKey(sbox, key, 2 * i + 1);
    LastLane(sbox, key, 2 * i + 1);
    AssistLanes(sbox, prev, RCON[i]);
    CascadeOverRoundKey(sbox, key, 2 * i, EvenTerm(sbox, Lane(prev, 3), i));
    EvenRoundKey(sbox, key, i);
    XorBlocksCommute(Splat(KeygenAssist(sbox, prev, RCON[i]), 3), PrefixCascade(RoundKey(sbox, key, 2 * i)));
  }

  lemma OddKeyX86(sbox: Sbox, key: Key, i: nat)
    requires i < 6
    ensures XorBytes(Splat(KeygenAssist(sbox, RoundKey(sbox, key, 2 * i + 2), 0), 2),
                     PrefixCascade(RoundKey(sbox, key, 2 * i + 1)))
         == RoundKey(sbox, key, 2 * i + 3)
  {
    hide RoundKey, KeygenAssist, PrefixCascade, XorBytes, Chain, Broadcast, W, Lane, XorWords, SubWord, RotWord;
    var prev := RoundKey(sbox, key, 2 * i + 2);
    LastLane(sbox, key, 2 * i + 2);
    AssistLanes(sbox, prev, 0);
    CascadeOverRoundKey(sbox, key, 2 * i + 1, SubWord(sbox, Lane(prev, 3)));
    OddRoundKey(sbox, key, i);
    XorBlocksCommute(Splat(KeygenAssist(sbox, prev, 0), 2), PrefixCascade(RoundKey(sbox, key, 2 * i + 1)));
  }
}

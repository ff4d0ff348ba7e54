/**
 The AES-256 cipher of section 5.1 of FIPS 197, and the two instruction sequences
 that run it on interleaved lanes. The S-box and the column mixing are arbitrary
 functions; the order of the transformations is what is modelled.
 */
module AesRounds {
  import opened Bytes
  import opened Ctr
  import opened Multiply
  import opened KeyScheduleSpec
  import opened KeySchedule
  import opened Stitched

  const NO_KEYS: seq<Block> := seq(15, _ => ZERO_BLOCK)

  type Schedule = k: seq<Block> | |k| == 15 witness NO_KEYS

  type Mix = Block -> Block

  /** The schedule of section 5.2. */
  function ScheduleOf(sbox: Sbox, key: Key): Schedule {
    seq(15, r requires 0 <= r < 15 => RoundKey(sbox, key, r))
  }

  /** The state after the first AddRoundKey and r full rounds. */
  function CipherState(sbox: Sbox, mix: Mix, rk: Schedule, input: Block, r: nat): Block
    requires r < 15
    decreases r
  {
    if r == 0 then XorBytes(input, rk[0])
    else XorBytes(mix(ShiftRows(SubBytes(sbox, CipherState(sbox, mix, rk, input, r - 1)))), rk[r])
  }

  /** The cipher: thirteen full rounds and a last one without column mixing. */
  function Encipher(sbox: Sbox, mix: Mix, rk: Schedule, input: Block): Block {
    XorBytes(ShiftRows(SubBytes(sbox, CipherState(sbox, mix, rk, input, 13))), rk[14])
  }

  // ---------------------------------------------------------------------------
  // The instructions
  // ---------------------------------------------------------------------------

  /** AESENC and AESENCLAST shift rows before they substitute, and add the key last. */
  function Aesenc(sbox: Sbox, mix: Mix, v: Block, k: Block): Block {
    XorBytes(mix(SubBytes(sbox, ShiftRows(v))), k)
  }

  function Aesenclast(sbox: Sbox, v: Block, k: Block): Block { XorBytes(SubBytes(sbox, ShiftRows(v)), k) }

  /** A lane as it is loaded. */
  function Enter(target: Target, rk: Schedule, v: Block): Block {
    match target
    case Aarch64 => v
    case X86 => XorBytes(v, rk[0])
  }

  /** Pass r of the round loop: AESE and AESMC, or AESENC with the next key. */
  function Round(target: Target, sbox: Sbox, mix: Mix, rk: Schedule, v: Block, r: nat): Block
    requires r < 13
  {
    match target
    case Aarch64 => mix(Aese(sbox, v, rk[r]))
    case X86 => Aesenc(sbox, mix, v, rk[r + 1])
  }

  function Leave(target: Target, sbox: Sbox, rk: Schedule, v: Block): Block {
    match target
    case Aarch64 => XorBytes(Aese(sbox, v, rk[13]), rk[14])
    case X86 => Aesenclast(sbox, v, rk[14])
  }

  /** A lane after r passes. */
  function LaneState(target: Target, sbox: Sbox, mix: Mix, rk: Schedule, input: Block, r: nat): Block
    requires r <= 13
    decreases r
  {
    if r == 0 then Enter(target, rk, input)
    else Round(target, sbox, mix, rk, LaneState(target, sbox, mix, rk, input, r - 1), r - 1)
  }

  // ---------------------------------------------------------------------------
  // Both sequences are the cipher
  // ---------------------------------------------------------------------------

  lemma RowsAndBytesCommute(sbox: Sbox, v: Block)
    ensures SubBytes(sbox, ShiftRows(v)) == ShiftRows(SubBytes(sbox, v))
  {
  }

  /** aarch64 holds the state one key addition early; x86 holds it exactly. */
  lemma {:induction false} LaneIsCipherState(target: Target, sbox: Sbox, mix: Mix, rk: Schedule, input: Block, r: nat)
    requires r <= 13
    ensures var lane := LaneState(target, sbox, mix, rk, input, r);
            CipherState(sbox, mix, rk, input, r) == if target == Aarch64 then XorBytes(lane, rk[r]) else lane
    decreases r
  {
    hide XorBytes, SubBytes, ShiftRows;
    if r > 0 {
      LaneIsCipherState(target, sbox, mix, rk, input, r - 1);
      RowsAndBytesCommute(sbox, LaneState(target, sbox, mix, rk, input, r - 1));
    }
  }

  /** After the last round a lane holds the cipher's output, on either target. */
  lemma LaneIsEncipher(target: Target, sbox: Sbox, mix: Mix, rk: Schedule, input: Block)
    ensures Leave(target, sbox, rk, LaneState(target, sbox, mix, rk, input, 13)) == Encipher(sbox, mix, rk, input)
  {
    hide XorBytes, SubBytes, ShiftRows, LaneState, CipherState;
    LaneIsCipherState(target, sbox, mix, rk, input, 13);
    RowsAndBytesCommute(sbox, LaneState(target, sbox, mix, rk, input, 13));
  }

  /** AES-256 as the function of key and block that the rest of the model takes. */
  function AesFunction(sbox: Sbox, mix: Mix): (Key, Block) -> Block {
    (key, block) => Encipher(sbox, mix, ScheduleOf(sbox, key), block)
  }

  class Aes256 {
    const target: Target
    const sbox: Sbox
    const mix: Mix
    const roundKeys: Schedule
    ghost const key: Key

    ghost predicate Valid() { roundKeys == ScheduleOf(sbox, key) }

    constructor (target: Target, sbox: Sbox, mix: Mix, key: Key)
      ensures Valid() && this.key == key && this.sbox == sbox && this.mix == mix
    {
      hide RoundKey;
      var rk;
      if target == Aarch64 {
        rk := ExpandAarch64(sbox, key);
      } else {
        rk := ExpandX86(sbox, key);
      }
      this.target := target;
      this.sbox := sbox;
      this.mix := mix;
      this.key := key;
      this.roundKeys := rk[..];
    }

    /** Eight (or any number of) interleaved chains: every round is applied to every
        lane before the next round starts. */
    method EncryptLanes(blocks: array<Block>)
      requires Valid()
      modifies blocks
      ensures forall i | 0 <= i < blocks.Length :: blocks[i] == AesFunction(sbox, mix)(key, old(blocks[i]))
    {
      hide Enter, Round, Leave, LaneState, Encipher, ScheduleOf;
      var n := blocks.Length;
      ghost var input := blocks[..];
      var state := new Block[n](_ => ZERO_BLOCK);
      for lane := 0 to n
        invariant blocks[..] == input
        invariant forall i | 0 <= i < lane :: state[i] == LaneState(target, sbox, mix, roundKeys, input[i], 0)
      {
        LaneStart(target, sbox, mix, roundKeys, input[lane]);
        state[lane] := Enter(target, roundKeys, blocks[lane]);
      }
      RunRounds(state, input);
      LastRound(state, input);
      for lane := 0 to n
        invariant forall i | 0 <= i < n :: state[i] == Encipher(sbox, mix, roundKeys, input[i])
        invariant forall i | 0 <= i < lane :: blocks[i] == Encipher(sbox, mix, roundKeys, input[i])
      {
        blocks[lane] := state[lane];
      }
    }

    /** The round without column mixing, on every lane. */
    method LastRound(state: array<Block>, ghost input: seq<Block>)
      requires |input| == state.Length
      requires forall i | 0 <= i < |input| :: state[i] == LaneState(target, sbox, mix, roundKeys, input[i], 13)
      modifies state
      ensures forall i | 0 <= i < |input| :: state[i] == Encipher(sbox, mix, roundKeys, input[i])
    {
      hide Leave, LaneState, Encipher;
      for lane := 0 to state.Length
        invariant forall i | 0 <= i < lane :: state[i] == Encipher(sbox, mix, roundKeys, input[i])
        invariant forall i | lane <= i < |input| :: state[i] == LaneState(target, sbox, mix, roundKeys, input[i], 13)
      {
        LaneIsEncipher(target, sbox, mix, roundKeys, input[lane]);
        state[lane] := Leave(target, sbox, roundKeys, state[lane]);
      }
    }

    /** The loop over round keys, with the loop over lanes inside it. */
    method RunRounds(state: array<Block>, ghost input: seq<Block>)
      requires |input| == state.Length
      requires forall i | 0 <= i < |input| :: state[i] == LaneState(target, sbox, mix, roundKeys, input[i], 0)
      modifies state
      ensures forall i | 0 <= i < |input| :: state[i] == LaneState(target, sbox, mix, roundKeys, input[i], 13)
    {
      hide Round, LaneState;
      var n := state.Length;
      for r := 0 to 13
        invariant forall i | 0 <= i < n :: state[i] == LaneState(target, sbox, mix, roundKeys, input[i], r)
      {
        for lane := 0 to n
          invariant forall i | 0 <= i < lane :: state[i] == LaneState(target, sbox, mix, roundKeys, input[i], r + 1)
          invariant forall i | lane <= i < n :: state[i] == LaneState(target, sbox, mix, roundKeys, input[i], r)
        {
          LaneStep(target, sbox, mix, roundKeys, input[lane], r);
          state[lane] := Round(target, sbox, mix, roundKeys, state[lane], r);
        }
      }
    }
  }

  /** The keystream of one batch as the bulk loops compute it, with the rounds of all
      lanes interleaved: what Stitched.EncryptLanes takes from the cipher block by block. */
  method BatchKeystream(aes: Aes256, ctr: seq<Block>, ghost start: Block) returns (state: seq<Block>)
    requires aes.Valid()
    requires forall i | 0 <= i < |ctr| :: ctr[i] == Advance(GcmLayout, start, i)
    ensures |state| == |ctr| && KeystreamLanes(state, Cipher(AesFunction(aes.sbox, aes.mix), aes.key), start)
  {
    hide Advance, Encipher, ScheduleOf;
    var blocks := new Block[|ctr|](i requires 0 <= i < |ctr| => ctr[i]);
    aes.EncryptLanes(blocks);
    state := blocks[..];
  }

  lemma LaneStart(target: Target, sbox: Sbox, mix: Mix, rk: Schedule, input: Block)
    ensures LaneState(target, sbox, mix, rk, input, 0) == Enter(target, rk, input)
  {
  }

  lemma LaneStep(target: Target, sbox: Sbox, mix: Mix, rk: Schedule, input: Block, r: nat)
    requires r < 13
    ensures LaneState(target, sbox, mix, rk, input, r + 1)
         == Round(target, sbox, mix, rk, LaneState(target, sbox, mix, rk, input, r), r)
  {
  }

  /** AES-256 written out: a key addition, thirteen full rounds and a last round without
      column mixing, each with its own round key of the recurrence. */
  lemma CipherUnrolled(sbox: Sbox, mix: Mix, key: Key, input: Block, s: seq<Block>)
    requires |s| == 14 && s[0] == XorBytes(input, RoundKey(sbox, key, 0))
    requires forall r | 1 <= r < 14 ::
      s[r] == XorBytes(mix(ShiftRows(SubBytes(sbox, s[r - 1]))), RoundKey(sbox, key, r))
    ensures AesFunction(sbox, mix)(key, input)
         == XorBytes(ShiftRows(SubBytes(sbox, s[13])), RoundKey(sbox, key, 14))
  {
    hide XorBytes, ShiftRows, SubBytes, RoundKey;
    var rk := ScheduleOf(sbox, key);
    for r := 0 to 13
      invariant s[r] == CipherState(sbox, mix, rk, input, r)
    {
      assert s[r + 1] == XorBytes(mix(ShiftRows(SubBytes(sbox, s[r]))), rk[r + 1]);
    }
  }
}

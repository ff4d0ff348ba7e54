/**
 The AES-CTR random generator: a one-byte-at-a-time reference machine, its epoch
 and counter properties, and the buffered implementation that refines it.
 */
module GeneratorSpec {
  import opened Field
  import opened Bytes
  import opened Wrappers

  const NO_SEED: seq<byte> := ZERO_BLOCK + ZERO_BLOCK + ZERO_BLOCK
  const U64_MAX: nat := 0xFFFF_FFFF_FFFF_FFFF

  type Seed = s: seq<byte> | |s| == 48 witness NO_SEED

  type Aes = (Key, Block) -> Block

  /** The environment: what the CPU generator and the operating system answer to
      the i-th reseed attempt. */
  datatype Entropy = Entropy(cpu: nat -> Option<Seed>, os: nat -> Option<Seed>)

  /** Some two of the six 64-bit words of a draw are identical. */
  predicate StuckOutput(s: Seed) {
    exists i, j | 0 <= i < j < 6 :: s[8 * i..8 * i + 8] == s[8 * j..8 * j + 8]
  }

  /** A CPU draw that also passed the stuck-output screen. */
  function CpuFill(entropy: Entropy, i: nat): Option<Seed> {
    match entropy.cpu(i)
    case Some(s) => if StuckOutput(s) then None else Some(s)
    case None => None
  }

  /** Key, 128-bit counter and the unconsumed tail of the last keystream block. */
  datatype Source = Source(key: Key, counter: u128, pending: seq<byte>)

  /** The generator between bytes. first is the counter its seed started with. */
  datatype State = State(src: Source, since: nat, interval: nat, draws: nat, first: u128)

  function KeyBlock(aes: Aes, key: Key, counter: u128): Block { aes(key, ToLe(counter, 16)) }

  function Plus(counter: u128, n: nat): u128 { (counter + n) % TWO128 }

  // ---------------------------------------------------------------------------
  // The reference machine
  // ---------------------------------------------------------------------------

  /** One byte from the source. */
  function Emit(aes: Aes, src: Source): (byte, Source) {
    if src.pending != [] then (src.pending[0], src.(pending := src.pending[1..]))
    else
      var block := KeyBlock(aes, src.key, src.counter);
      (block[0], Source(src.key, Plus(src.counter, 1), block[1..]))
  }

  function SplitSeed(seed: Seed): (src: Source)
    ensures src.pending == []
  {
    LoadFits(PolyvalOrder, seed[32..]);
    Source(seed[..32], FromLe(seed[32..]), [])
  }

  /** Three keystream blocks of the current state, XORed with fresh CPU entropy. */
  function Blend(aes: Aes, src: Source, entropy: Seed): Seed {
    XorBytes(KeyBlock(aes, src.key, src.counter)
             + KeyBlock(aes, src.key, Plus(src.counter, 1))
             + KeyBlock(aes, src.key, Plus(src.counter, 2)), entropy)
  }

  /** Where a reseed starts from, if attempt i at entropy succeeds: blended CPU
      entropy first, the operating system otherwise. */
  function NewSource(aes: Aes, entropy: Entropy, src: Source, i: nat): (r: Option<Source>)
    ensures r.Some? ==> r.value.pending == []
  {
    match CpuFill(entropy, i)
    case Some(e) => Some(SplitSeed(Blend(aes, src, e)))
    case None =>
      match entropy.os(i)
      case Some(e) => Some(SplitSeed(e))
      case None => None
  }

  /** The state after a reseed, if entropy could be had; otherwise only the count
      of attempts moves. */
  function Reseed(aes: Aes, entropy: Entropy, st: State): (bool, State) {
    match NewSource(aes, entropy, st.src, st.draws)
    case Some(src) => (true, State(src, 0, st.interval, st.draws + 1, src.counter))
    case None => (false, st.(draws := st.draws + 1))
  }

  /** Bytes per seed: a zero interval counts as one. */
  function Limit(st: State): nat { if st.interval < 1 then 1 else st.interval }

  /** A finished run: the bytes produced, the state left, and whether every reseed
      on the way succeeded. */
  datatype Run = Run(bytes: seq<byte>, state: State, ok: bool)

  /** n bytes, one at a time, reseeding whenever the interval is used up. */
  function Stream(aes: Aes, entropy: Entropy, st: State, n: nat): Run
    decreases n
  {
    if n == 0 then Run([], st, true)
    else if st.since >= Limit(st) then
      var (ok, next) := Reseed(aes, entropy, st);
      if ok then EmitThen(aes, entropy, next, n) else Run([], next, false)
    else EmitThen(aes, entropy, st, n)
  }

  function EmitThen(aes: Aes, entropy: Entropy, st: State, n: nat): Run
    requires n > 0
    decreases n, 0
  {
    var (b, src) := Emit(aes, st.src);
    var rest := Stream(aes, entropy, st.(src := src, since := st.since + 1), n - 1);
    Run([b] + rest.bytes, rest.state, rest.ok)
  }

  // ---------------------------------------------------------------------------
  // Requests may be split anywhere
  // ---------------------------------------------------------------------------

  function Then(aes: Aes, entropy: Entropy, r: Run, n: nat): Run {
    if !r.ok then r
    else
      var s := Stream(aes, entropy, r.state, n);
      Run(r.bytes + s.bytes, s.state, s.ok)
  }

  lemma {:induction false} StreamSplit(aes: Aes, entropy: Entropy, st: State, a: nat, b: nat)
    ensures Stream(aes, entropy, st, a + b) == Then(aes, entropy, Stream(aes, entropy, st, a), b)
    decreases a
  {
    hide Emit, Reseed;
    if a > 0 {
      var st' := if st.since >= Limit(st) then Reseed(aes, entropy, st).1 else st;
      if st.since >= Limit(st) && !Reseed(aes, entropy, st).0 {
      } else {
        var (x, src) := Emit(aes, st'.src);
        var next := st'.(src := src, since := st'.since + 1);
        StreamSplit(aes, entropy, next, a - 1, b);
        var r := Stream(aes, entropy, next, a - 1);
        if r.ok {
          var s := Stream(aes, entropy, r.state, b);
          assert [x] + (r.bytes + s.bytes) == ([x] + r.bytes) + s.bytes;
        }
      }
    }
  }

  /** A sequence of requests in which the caller goes on after an error: the bytes of
      all of them, the state left, and whether none failed. */
  function Calls(aes: Aes, entropy: Entropy, st: State, requests: seq<nat>): Run
    decreases |requests|
  {
    if requests == [] then Run([], st, true)
    else
      var s := Stream(aes, entropy, st, requests[0]);
      var rest := Calls(aes, entropy, s.state, requests[1..]);
      Run(s.bytes + rest.bytes, rest.state, s.ok && rest.ok)
  }

  function Total(requests: seq<nat>): nat
    decreases |requests|
  {
    if requests == [] then 0 else requests[0] + Total(requests[1..])
  }

  /** After an error the caller asks for more bytes. */
  predicate Retries(aes: Aes, entropy: Entropy, st: State, requests: seq<nat>)
    decreases |requests|
  {
    requests != [] &&
    var s := Stream(aes, entropy, st, requests[0]);
    if s.ok then Retries(aes, entropy, s.state, requests[1..]) else Total(requests[1..]) > 0
  }

  /** A failed run stands at the end of an epoch. */
  lemma {:induction false} FailedAtLimit(aes: Aes, entropy: Entropy, st: State, n: nat)
    requires !Stream(aes, entropy, st, n).ok
    ensures n > 0
    ensures var end := Stream(aes, entropy, st, n).state;
            end.since >= Limit(end) && |Stream(aes, entropy, st, n).bytes| < n
    decreases n
  {
    hide Emit, NewSource;
    if n > 0 {
      var st' := if st.since >= Limit(st) then Reseed(aes, entropy, st).1 else st;
      if st.since < Limit(st) || Reseed(aes, entropy, st).0 {
        var src := Emit(aes, st'.src).1;
        FailedAtLimit(aes, entropy, st'.(src := src, since := st'.since + 1), n - 1);
      }
    }
  }

  /** Entropy attempts only add up, and at the end of an epoch a byte costs one. */
  lemma {:induction false} DrawsGrow(aes: Aes, entropy: Entropy, st: State, n: nat)
    ensures Stream(aes, entropy, st, n).state.draws >= st.draws
    ensures n > 0 && st.since >= Limit(st) ==> Stream(aes, entropy, st, n).state.draws > st.draws
    decreases n
  {
    hide Emit, NewSource;
    if n > 0 {
      var st' := if st.since >= Limit(st) then Reseed(aes, entropy, st).1 else st;
      if st.since < Limit(st) || Reseed(aes, entropy, st).0 {
        var src := Emit(aes, st'.src).1;
        DrawsGrow(aes, entropy, st'.(src := src, since := st'.since + 1), n - 1);
      }
    }
  }

  lemma {:induction false} CallsDraw(aes: Aes, entropy: Entropy, st: State, requests: seq<nat>)
    ensures Calls(aes, entropy, st, requests).state.draws >= st.draws
    ensures Total(requests) == 0 ==> Calls(aes, entropy, st, requests) == Run([], st, true)
    ensures Total(requests) > 0 && st.since >= Limit(st) ==> Calls(aes, entropy, st, requests).state.draws > st.draws
    decreases |requests|
  {
    hide EmitThen, Reseed, Limit;
    if requests != [] {
      DrawsGrow(aes, entropy, st, requests[0]);
      CallsDraw(aes, entropy, Stream(aes, entropy, st, requests[0]).state, requests[1..]);
    }
  }

  lemma SamePrefix(a: seq<byte>, b: seq<byte>, c: seq<byte>)
    ensures a + b == a + c <==> b == c
  {
    assert (a + b)[|a|..] == b && (a + c)[|a|..] == c;
  }

  /** Splitting a request changes nothing at all, the number of entropy attempts
      included, if and only if the caller does not ask for more bytes after an error. */
  lemma {:induction false} AttemptsIgnoreSplit(aes: Aes, entropy: Entropy, st: State, requests: seq<nat>)
    ensures Calls(aes, entropy, st, requests) == Stream(aes, entropy, st, Total(requests))
            <==> !Retries(aes, entropy, st, requests)
    decreases |requests|
  {
    hide Stream, Limit;
    if requests == [] {
      NoRequest(aes, entropy, st);
    } else {
      var s := Stream(aes, entropy, st, requests[0]);
      StreamSplit(aes, entropy, st, requests[0], Total(requests[1..]));
      var rest := Calls(aes, entropy, s.state, requests[1..]);
      if s.ok {
        AttemptsIgnoreSplit(aes, entropy, s.state, requests[1..]);
        SamePrefix(s.bytes, rest.bytes, Stream(aes, entropy, s.state, Total(requests[1..])).bytes);
      } else {
        FailedAtLimit(aes, entropy, st, requests[0]);
        CallsDraw(aes, entropy, s.state, requests[1..]);
      }
    }
  }

  lemma NoRequest(aes: Aes, entropy: Entropy, st: State)
    ensures Stream(aes, entropy, st, 0) == Run([], st, true)
  {
  }

  /** Attempt i at entropy succeeds. */
  predicate Answers(entropy: Entropy, i: nat) { CpuFill(entropy, i).Some? || entropy.os(i).Some? }

  /** How many requests ask for anything. */
  function Asking(requests: seq<nat>): nat
    decreases |requests|
  {
    if requests == [] then 0 else (if requests[0] > 0 then 1 else 0) + Asking(requests[1..])
  }

  /** One of the next n attempts succeeds. */
  predicate AnsweredWithin(entropy: Entropy, first: nat, n: nat) {
    exists i | first <= i < first + n :: Answers(entropy, i)
  }

  /** After the first error, one of the attempts that the later requests make succeeds. */
  predicate RetryAnswered(aes: Aes, entropy: Entropy, st: State, requests: seq<nat>)
    decreases |requests|
  {
    requests != [] &&
    var s := Stream(aes, entropy, st, requests[0]);
    if s.ok then RetryAnswered(aes, entropy, s.state, requests[1..])
    else AnsweredWithin(entropy, s.state.draws, Asking(requests[1..]))
  }

  lemma ReseedAnswers(aes: Aes, entropy: Entropy, st: State)
    ensures var (ok, next) := Reseed(aes, entropy, st);
            && ok == Answers(entropy, st.draws)
            && if ok then next.since == 0 else next == st.(draws := st.draws + 1)
  {
    hide Blend, SplitSeed, CpuFill;
  }

  lemma FirstByteComes(aes: Aes, entropy: Entropy, st: State, n: nat)
    requires n > 0 && st.since < Limit(st)
    ensures Stream(aes, entropy, st, n).bytes != []
  {
    hide Emit, NewSource;
  }

  lemma LimitStays(aes: Aes, entropy: Entropy, st: State)
    ensures Limit(Reseed(aes, entropy, st).1) == Limit(st) > 0
  {
    hide NewSource;
  }

  lemma AnsweredStep(entropy: Entropy, first: nat, n: nat)
    ensures AnsweredWithin(entropy, first, n + 1) <==> Answers(entropy, first) || AnsweredWithin(entropy, first + 1, n)
  {
    hide Answers;
  }

  /** At the end of an epoch, requests yield nothing if and only if none of their
      attempts succeeds, and then only the number of attempts has moved. */
  lemma {:induction false} NothingUnlessAnswered(aes: Aes, entropy: Entropy, st: State, requests: seq<nat>)
    requires st.since >= Limit(st)
    ensures Calls(aes, entropy, st, requests).bytes == [] <==> !AnsweredWithin(entropy, st.draws, Asking(requests))
    ensures !AnsweredWithin(entropy, st.draws, Asking(requests)) ==>
      Calls(aes, entropy, st, requests).state == st.(draws := st.draws + Asking(requests))
    decreases |requests|
  {
    hide Stream, Reseed, Limit, AnsweredWithin, Answers;
    if requests == [] {
      NoneWithinNothing(entropy, st.draws);
    } else if requests[0] == 0 {
      NoRequest(aes, entropy, st);
      NothingUnlessAnswered(aes, entropy, st, requests[1..]);
    } else {
      var (ok, next) := Reseed(aes, entropy, st);
      StreamAtLimit(aes, entropy, st, requests[0]);
      ReseedAnswers(aes, entropy, st);
      AnsweredStep(entropy, st.draws, Asking(requests[1..]));
      LimitStays(aes, entropy, st);
      if ok {
        FirstByteComes(aes, entropy, next, requests[0]);
      } else {
        NothingUnlessAnswered(aes, entropy, next, requests[1..]);
      }
    }
  }

  lemma NoneWithinNothing(entropy: Entropy, first: nat)
    ensures !AnsweredWithin(entropy, first, 0)
  {
  }

  /** The concatenated output depends only on the total requested if and only if, after
      an error, no later request meets entropy; and then the generator is left as it
      would be, but for the number of attempts. */
  lemma {:induction false} OnlyTheTotalMatters(aes: Aes, entropy: Entropy, st: State, requests: seq<nat>)
    ensures var calls, one := Calls(aes, entropy, st, requests), Stream(aes, entropy, st, Total(requests));
            && (calls.bytes == one.bytes <==> !RetryAnswered(aes, entropy, st, requests))
            && (calls.bytes == one.bytes ==> calls.state == one.state.(draws := calls.state.draws))
            && calls.ok == one.ok
    decreases |requests|
  {
    hide Stream, Limit, AnsweredWithin;
    if requests == [] {
      NoRequest(aes, entropy, st);
    } else {
      var s := Stream(aes, entropy, st, requests[0]);
      StreamSplit(aes, entropy, st, requests[0], Total(requests[1..]));
      var rest := Calls(aes, entropy, s.state, requests[1..]);
      if s.ok {
        OnlyTheTotalMatters(aes, entropy, s.state, requests[1..]);
        SamePrefix(s.bytes, rest.bytes, Stream(aes, entropy, s.state, Total(requests[1..])).bytes);
      } else {
        FailedAtLimit(aes, entropy, st, requests[0]);
        NothingUnlessAnswered(aes, entropy, s.state, requests[1..]);
        SamePrefix(s.bytes, rest.bytes, []);
        assert s.bytes + [] == s.bytes;
      }
    }
  }

  /** A run in which every reseed succeeds does not depend on the split, and whether it
      is such a run does not either. */
  lemma {:induction false} SuccessIgnoresSplit(aes: Aes, entropy: Entropy, st: State, requests: seq<nat>)
    ensures Calls(aes, entropy, st, requests).ok <==> Stream(aes, entropy, st, Total(requests)).ok
    ensures Stream(aes, entropy, st, Total(requests)).ok ==>
      Calls(aes, entropy, st, requests) == Stream(aes, entropy, st, Total(requests))
    decreases |requests|
  {
    hide Stream;
    if requests == [] {
      NoRequest(aes, entropy, st);
    } else {
      StreamSplit(aes, entropy, st, requests[0], Total(requests[1..]));
      SuccessIgnoresSplit(aes, entropy, Stream(aes, entropy, st, requests[0]).state, requests[1..]);
    }
  }

  /** What a call after an error yields: it makes a new attempt from the same key and
      counter, and goes on with the new seed or fails again without a byte. */
  lemma RetryAfterFailure(aes: Aes, entropy: Entropy, st: State, n: nat, m: nat)
    requires !Stream(aes, entropy, st, n).ok && m > 0
    ensures var end := Stream(aes, entropy, st, n).state;
            var (ok, next) := Reseed(aes, entropy, end);
            Stream(aes, entropy, end, m) == if ok then Stream(aes, entropy, next, m) else Run([], next, false)
  {
    hide Stream, Reseed, Limit;
    FailedAtLimit(aes, entropy, st, n);
    StreamAtLimit(aes, entropy, Stream(aes, entropy, st, n).state, m);
  }

  /** Entropy that fails once and then answers. */
  function FailsOnce(seed: Seed): Entropy { Entropy(_ => None, i => if i == 0 then None else Some(seed)) }

  /** The split can matter: at the end of an epoch, with the first attempt failing and
      the second succeeding, two requests of one byte yield a byte and one of two none. */
  lemma RetrySplitMatters(aes: Aes, st: State, seed: Seed)
    requires st.since >= Limit(st) && st.draws == 0
    ensures Retries(aes, FailsOnce(seed), st, [1, 1])
    ensures |Calls(aes, FailsOnce(seed), st, [1, 1]).bytes| == 1
    ensures Stream(aes, FailsOnce(seed), st, 2).bytes == []
  {
    hide Emit, SplitSeed, Blend;
    var entropy := FailsOnce(seed);
    var failed := st.(draws := 1);
    assert Reseed(aes, entropy, st) == (false, failed);
    assert Stream(aes, entropy, st, 1) == Stream(aes, entropy, st, 2) == Run([], failed, false);
    var next := Reseed(aes, entropy, failed).1;
    var src := Emit(aes, next.src).1;
    NoRequest(aes, entropy, next.(src := src, since := 1));
    assert [1, 1][1..] == [1] && [1][1..] == [];
    assert Total([1]) == 1;
    assert |Stream(aes, entropy, failed, 1).bytes| == 1;
    assert Calls(aes, entropy, failed, [1]).bytes == Stream(aes, entropy, failed, 1).bytes;
  }

  // ---------------------------------------------------------------------------
  // Epochs
  // ---------------------------------------------------------------------------

  /** Blocks drawn so far from the current seed. */
  function BlocksUsed(st: State): nat { (st.since + |st.src.pending|) / 16 }

  /** What holds of every state of every run: the counter has advanced once per
      block, and pending is exactly the part of the last block not yet given out. */
  ghost predicate Consistent(aes: Aes, st: State) {
    && st.interval <= U64_MAX
    && st.since <= Limit(st)
    && |st.src.pending| < 16
    && (st.since + |st.src.pending|) % 16 == 0
    && st.src.counter == Plus(st.first, BlocksUsed(st))
    && (st.src.pending != [] ==>
          BlocksUsed(st) > 0 &&
          st.src.pending == KeyBlock(aes, st.src.key, Plus(st.first, BlocksUsed(st) - 1))[16 - |st.src.pending|..])
  }

  lemma SeededConsistent(aes: Aes, src: Source, interval: nat, draws: nat)
    requires src.pending == [] && interval <= U64_MAX
    ensures Consistent(aes, State(src, 0, interval, draws, src.counter))
  {
  }

  /** A byte from the buffer. */
  lemma EmitBuffered(aes: Aes, st: State)
    requires Consistent(aes, st) && st.since < Limit(st) && st.src.pending != []
    ensures var (b, src) := Emit(aes, st.src);
            && b == KeyBlock(aes, st.src.key, Plus(st.first, st.since / 16))[st.since % 16]
            && src.key == st.src.key
            && Consistent(aes, st.(src := src, since := st.since + 1))
  {
    hide KeyBlock, Plus;
    var k, p := BlocksUsed(st), |st.src.pending|;
    SixteenBlocks(st.since, p, k);
    var block := KeyBlock(aes, st.src.key, Plus(st.first, k - 1));
    assert block[16 - p..][1..] == block[16 - (p - 1)..];
  }

  /** The first byte of a new block. */
  lemma EmitFresh(aes: Aes, st: State)
    requires Consistent(aes, st) && st.since < Limit(st) && st.src.pending == []
    ensures var (b, src) := Emit(aes, st.src);
            && b == KeyBlock(aes, st.src.key, Plus(st.first, st.since / 16))[st.since % 16]
            && src.key == st.src.key
            && Consistent(aes, st.(src := src, since := st.since + 1))
  {
    hide KeyBlock, Plus;
    var k := BlocksUsed(st);
    SixteenBlocks(st.since, 0, k);
    SixteenBlocks(st.since + 1, 15, k + 1);
    PlusOne(st.first, k);
  }

  lemma SixteenBlocks(since: nat, p: nat, k: nat)
    requires (since + p) % 16 == 0 && p < 16 && (k == (since + p) / 16 || since + p == 16 * k)
    ensures since + p == 16 * k && (since + p) / 16 == k
    ensures p > 0 ==> k > 0 && since / 16 == k - 1 && since % 16 == 16 - p
    ensures p == 0 ==> since / 16 == k && since % 16 == 0
  {
  }

  /** Byte j of an epoch is byte j mod 16 of keystream block j / 16, for as long as
      the seed is in use; emitting it keeps the state consistent. */
  lemma EmitIsKeystream(aes: Aes, st: State)
    requires Consistent(aes, st) && st.since < Limit(st)
    ensures var (b, src) := Emit(aes, st.src);
            && b == KeyBlock(aes, st.src.key, Plus(st.first, st.since / 16))[st.since % 16]
            && src.key == st.src.key
            && Consistent(aes, st.(src := src, since := st.since + 1))
  {
    hide Consistent, Emit, KeyBlock, Plus;
    if st.src.pending == [] { EmitFresh(aes, st); } else { EmitBuffered(aes, st); }
  }

  lemma PlusOne(first: u128, k: nat)
    ensures Plus(Plus(first, k), 1) == Plus(first, k + 1)
  {
    var q, r := (first + k) / TWO128, (first + k) % TWO128;
    assert first + (k + 1) == TWO128 * q + (r + 1);
  }

  /** Every state of every run from a consistent state is consistent. */
  lemma {:induction false} StreamConsistent(aes: Aes, entropy: Entropy, st: State, n: nat)
    requires Consistent(aes, st)
    ensures Consistent(aes, Stream(aes, entropy, st, n).state)
    decreases n
  {
    hide Emit, NewSource, Consistent;
    if n > 0 {
      var st' := if st.since >= Limit(st) then Reseed(aes, entropy, st).1 else st;
      ReseedConsistent(aes, entropy, st);
      if st.since >= Limit(st) && !Reseed(aes, entropy, st).0 {
      } else {
        var (x, src) := Emit(aes, st'.src);
        EmitIsKeystream(aes, st');
        StreamConsistent(aes, entropy, st'.(src := src, since := st'.since + 1), n - 1);
      }
    }
  }

  lemma ReseedConsistent(aes: Aes, entropy: Entropy, st: State)
    requires Consistent(aes, st)
    ensures Consistent(aes, Reseed(aes, entropy, st).1)
    ensures Reseed(aes, entropy, st).1.interval == st.interval
    ensures Reseed(aes, entropy, st).0 ==> Reseed(aes, entropy, st).1.since == 0
  {
    hide NewSource, KeyBlock;
  }

  /** The first n bytes under one seed. */
  function EpochBytes(aes: Aes, key: Key, first: u128, n: nat): seq<byte> {
    seq(n, j requires 0 <= j < n => KeyBlock(aes, key, Plus(first, j / 16))[j % 16])
  }

  /** Bytes from the middle of an epoch to any point up to its end. */
  lemma {:induction false} StreamIsKeystream(aes: Aes, entropy: Entropy, st: State, n: nat)
    requires Consistent(aes, st) && st.since + n <= Limit(st)
    ensures var r := Stream(aes, entropy, st, n);
            && r.ok && r.state.since == st.since + n
            && r.state.src.key == st.src.key && r.state.first == st.first && r.state.draws == st.draws
            && r.state.interval == st.interval
            && EpochBytes(aes, st.src.key, st.first, st.since) + r.bytes
            == EpochBytes(aes, st.src.key, st.first, st.since + n)
    decreases n
  {
    hide Emit, KeyBlock, Consistent;
    if n == 0 {
      assert EpochBytes(aes, st.src.key, st.first, st.since) + [] == EpochBytes(aes, st.src.key, st.first, st.since);
    } else {
      var (x, src) := Emit(aes, st.src);
      var next := st.(src := src, since := st.since + 1);
      EmitIsKeystream(aes, st);
      StreamIsKeystream(aes, entropy, next, n - 1);
      var e := EpochBytes(aes, st.src.key, st.first, st.since);
      assert EpochBytes(aes, st.src.key, st.first, st.since + 1) == e + [x];
      var rest := Stream(aes, entropy, next, n - 1);
      assert e + ([x] + rest.bytes) == (e + [x]) + rest.bytes;
    }
  }

  /** The shape of the whole output: a fresh seed yields exactly Limit bytes of its
      keystream, and everything after them comes from the reseeded state. */
  lemma EpochThenReseed(aes: Aes, entropy: Entropy, st: State, m: nat)
    requires Consistent(aes, st) && st.since == 0 && m > 0
    ensures var end := Stream(aes, entropy, st, Limit(st)).state;
            var (ok, next) := Reseed(aes, entropy, end);
            var r := Stream(aes, entropy, st, Limit(st) + m);
            && r.ok == (ok && Stream(aes, entropy, next, m).ok)
            && r.bytes == EpochBytes(aes, st.src.key, st.first, Limit(st))
                        + (if ok then Stream(aes, entropy, next, m).bytes else [])
  {
    hide Emit, KeyBlock, Consistent, Reseed, EpochBytes;
    StreamIsKeystream(aes, entropy, st, Limit(st));
    StreamSplit(aes, entropy, st, Limit(st), m);
    NoBytes(aes, st.src.key, st.first);
    var end := Stream(aes, entropy, st, Limit(st)).state;
    StreamAtLimit(aes, entropy, end, m);
  }

  /** Such a state is reached: a whole first epoch from a fresh seed, and then the same
      two bytes asked for separately or at once. */
  lemma RetrySplitIsReachable(aes: Aes, first: Seed, interval: nat, seed: Seed)
    requires interval <= U64_MAX
    ensures var src := SplitSeed(first);
            var st, l := State(src, 0, interval, 0, src.counter), if interval < 1 then 1 else interval;
            && |Calls(aes, FailsOnce(seed), st, [l, 1, 1]).bytes| == l + 1
            && |Stream(aes, FailsOnce(seed), st, l + 2).bytes| == l
  {
    hide Stream, KeyBlock, FromLe, Reseed;
    var entropy, src := FailsOnce(seed), SplitSeed(first);
    var st := State(src, 0, interval, 0, src.counter);
    var l := Limit(st);
    SeededConsistent(aes, src, interval, 0);
    StreamIsKeystream(aes, entropy, st, l);
    SuccessIsComplete(aes, entropy, st, l);
    var end := Stream(aes, entropy, st, l).state;
    StreamSplit(aes, entropy, st, l, 2);
    RetrySplitMatters(aes, end, seed);
    assert [l, 1, 1][1..] == [1, 1];
  }

  /** The state from which epoch e of a run is drawn. */
  function EpochState(aes: Aes, entropy: Entropy, st: State, e: nat): State
    decreases e
  {
    if e == 0 then st
    else EpochState(aes, entropy, Reseed(aes, entropy, Stream(aes, entropy, st, Limit(st)).state).1, e - 1)
  }

  /** The byte the closed form gives for position t. */
  function EpochByte(aes: Aes, epoch: State, i: nat): byte {
    KeyBlock(aes, epoch.src.key, Plus(epoch.src.counter, i / 16))[i % 16]
  }

  /** The closed form of a whole run from a fresh seed: byte t is byte t mod L of the
      keystream of epoch t / L, as far as the run gets. */
  lemma {:induction false} RunIsEpochs(aes: Aes, entropy: Entropy, st: State, n: nat, t: nat)
    requires Consistent(aes, st) && st.since == 0
    requires t < |Stream(aes, entropy, st, n).bytes|
    ensures Limit(st) > 0
    ensures Stream(aes, entropy, st, n).bytes[t]
         == EpochByte(aes, EpochState(aes, entropy, st, t / Limit(st)), t % Limit(st))
    decreases n
  {
    hide Stream, EpochByte, Reseed, Consistent, Limit;
    LimitPositive(st);
    var l := Limit(st);
    if t < l {
      FirstEpoch(l, t);
      FirstEpochByte(aes, entropy, st, n, t);
    } else {
      LaterEpoch(l, t);
      LaterByte(aes, entropy, st, n, t);
      RunIsEpochs(aes, entropy, Reseed(aes, entropy, Stream(aes, entropy, st, l).state).1, n - l, t - l);
    }
  }

  lemma LimitPositive(st: State)
    ensures Limit(st) > 0
  {
  }

  lemma FirstEpochByte(aes: Aes, entropy: Entropy, st: State, n: nat, t: nat)
    requires Consistent(aes, st) && st.since == 0
    requires t < |Stream(aes, entropy, st, n).bytes| && t < Limit(st)
    ensures Stream(aes, entropy, st, n).bytes[t] == EpochByte(aes, st, t)
  {
    hide Stream, KeyBlock, Reseed, Consistent, Limit;
    var l := Limit(st);
    FreshSource(aes, st);
    NoBytes(aes, st.src.key, st.first);
    if n <= l {
      StreamIsKeystream(aes, entropy, st, n);
      var bytes := Stream(aes, entropy, st, n).bytes;
      assert [] + bytes == bytes;
    } else {
      EpochThenReseed(aes, entropy, st, n - l);
    }
  }

  lemma LaterByte(aes: Aes, entropy: Entropy, st: State, n: nat, t: nat)
    requires Consistent(aes, st) && st.since == 0
    requires Limit(st) <= t < |Stream(aes, entropy, st, n).bytes|
    ensures var l := Limit(st);
            var next := Reseed(aes, entropy, Stream(aes, entropy, st, l).state).1;
            && n > l && Consistent(aes, next) && next.since == 0 && Limit(next) == l
            && t - l < |Stream(aes, entropy, next, n - l).bytes|
            && Stream(aes, entropy, st, n).bytes[t] == Stream(aes, entropy, next, n - l).bytes[t - l]
  {
    hide Stream, KeyBlock, Reseed, Consistent, EpochBytes;
    var l := Limit(st);
    EpochLength(aes, st.src.key, st.first, l);
    FreshSource(aes, st);
    BytesAtMost(aes, entropy, st, n);
    EpochThenReseed(aes, entropy, st, n - l);
    StreamIsKeystream(aes, entropy, st, l);
    StreamConsistent(aes, entropy, st, l);
    ReseedConsistent(aes, entropy, Stream(aes, entropy, st, l).state);
  }

  lemma EpochLength(aes: Aes, key: Key, first: u128, n: nat)
    ensures |EpochBytes(aes, key, first, n)| == n
  {
  }

  lemma BytesAtMost(aes: Aes, entropy: Entropy, st: State, n: nat)
    ensures |Stream(aes, entropy, st, n).bytes| <= n
  {
    hide Stream;
    SuccessIsComplete(aes, entropy, st, n);
    if !Stream(aes, entropy, st, n).ok { FailedAtLimit(aes, entropy, st, n); }
  }

  lemma FirstEpoch(l: nat, t: nat)
    requires t < l
    ensures t / l == 0 && t % l == t
  {
  }

  lemma LaterEpoch(l: nat, t: nat)
    requires 0 < l <= t
    ensures t / l == (t - l) / l + 1 && t % l == (t - l) % l
  {
    var q, r := (t - l) / l, (t - l) % l;
    assert t == l * (q + 1) + r;
    QuotientIs(t, l, q + 1, r);
  }

  lemma QuotientIs(t: nat, l: nat, q: nat, r: nat)
    requires l > 0 && r < l && t == l * q + r
    ensures t / l == q && t % l == r
  {
    if t / l > q {
      assert l * (t / l) >= l * (q + 1) by { Times(l, q + 1, t / l); }
    } else if t / l < q {
      assert l * q >= l * (t / l + 1) by { Times(l, t / l + 1, q); }
    }
  }

  lemma Times(l: nat, a: nat, b: nat)
    requires a <= b
    ensures l * a <= l * b
  {
  }

  lemma FreshSource(aes: Aes, st: State)
    requires Consistent(aes, st) && st.since == 0
    ensures st.src.pending == [] && st.src.counter == st.first
  {
    hide KeyBlock;
  }

  /** A successful run leaves out nothing. */
  lemma {:induction false} SuccessIsComplete(aes: Aes, entropy: Entropy, st: State, n: nat)
    ensures Stream(aes, entropy, st, n).ok <==> |Stream(aes, entropy, st, n).bytes| == n
    decreases n
  {
    hide Emit, Reseed;
    if !Stream(aes, entropy, st, n).ok {
      FailedAtLimit(aes, entropy, st, n);
    } else if n > 0 {
      var st' := if st.since >= Limit(st) then Reseed(aes, entropy, st).1 else st;
      SuccessIsComplete(aes, entropy, st'.(src := Emit(aes, st'.src).1, since := st'.since + 1), n - 1);
    }
  }

  lemma NoBytes(aes: Aes, key: Key, first: u128)
    ensures EpochBytes(aes, key, first, 0) == []
  {
  }

  /** At the end of an epoch the next byte comes from the reseeded state. */
  lemma StreamAtLimit(aes: Aes, entropy: Entropy, end: State, m: nat)
    requires end.since >= Limit(end) && m > 0
    ensures var (ok, next) := Reseed(aes, entropy, end);
            Stream(aes, entropy, end, m) == if ok then Stream(aes, entropy, next, m) else Run([], next, false)
  {
    hide Emit, KeyBlock, NewSource;
  }

  /** Within an epoch no counter value is used twice, and the three that a blending
      reseed consumes are different from every one behind emitted or buffered bytes. */
  lemma CountersFresh(aes: Aes, st: State, i: nat, j: nat)
    requires Consistent(aes, st)
    requires i < j < BlocksUsed(st) + 3
    ensures Plus(st.first, i) != Plus(st.first, j)
    ensures j >= BlocksUsed(st) ==> Plus(st.first, j) == Plus(st.src.counter, j - BlocksUsed(st))
  {
    CounterPosition(aes, st);
    hide Consistent, KeyBlock, BlocksUsed, Plus;
    var k := BlocksUsed(st);
    SmallStepsDiffer(st.first, i, j);
    if j >= k { PlusTwice(st.first, k, j - k); }
  }

  lemma CounterPosition(aes: Aes, st: State)
    requires Consistent(aes, st)
    ensures BlocksUsed(st) < TWO128 - 3 && st.src.counter == Plus(st.first, BlocksUsed(st))
  {
    hide KeyBlock, Plus;
  }

  lemma PlusTwice(first: u128, a: nat, b: nat)
    ensures Plus(Plus(first, a), b) == Plus(first, a + b)
  {
  }

  lemma SmallStepsDiffer(first: u128, i: nat, j: nat)
    requires i < j < TWO128
    ensures Plus(first, i) != Plus(first, j)
  {
  }

  // ---------------------------------------------------------------------------
  // The bytes behind a seed
  // ---------------------------------------------------------------------------

  lemma EpochSplit(aes: Aes, key: Key, first: u128, k: nat)
    ensures EpochBytes(aes, key, first, 16 * (k + 1))
         == EpochBytes(aes, key, first, 16 * k) + KeyBlock(aes, key, Plus(first, k))
  {
    hide KeyBlock, Plus;
    var l := EpochBytes(aes, key, first, 16 * (k + 1));
    var r := EpochBytes(aes, key, first, 16 * k) + KeyBlock(aes, key, Plus(first, k));
    forall j | 0 <= j < 16 * (k + 1) ensures l[j] == r[j] {
      if j >= 16 * k { LastBlock(k, j - 16 * k); }
    }
  }

  lemma LastBlock(k: nat, i: nat)
    requires i < 16
    ensures (16 * k + i) / 16 == k && (16 * k + i) % 16 == i
  {
  }

  lemma ThreeBlocksMore(aes: Aes, key: Key, first: u128, k: nat, a: seq<byte>, b: seq<byte>, c: seq<byte>)
    requires a == KeyBlock(aes, key, Plus(first, k))
    requires b == KeyBlock(aes, key, Plus(first, k + 1)) && c == KeyBlock(aes, key, Plus(first, k + 2))
    ensures EpochBytes(aes, key, first, 16 * (k + 3)) == EpochBytes(aes, key, first, 16 * k) + (a + b + c)
  {
    hide KeyBlock, Plus, EpochBytes;
    EpochSplit(aes, key, first, k);
    EpochSplit(aes, key, first, k + 1);
    EpochSplit(aes, key, first, k + 2);
    var before := EpochBytes(aes, key, first, 16 * k);
    assert before + a + b + c == before + (a + b + c);
  }

  lemma BlendedBlocks(aes: Aes, src: Source, entropy: Seed)
    ensures XorBytes(Blend(aes, src, entropy), entropy)
         == KeyBlock(aes, src.key, src.counter)
          + KeyBlock(aes, src.key, Plus(src.counter, 1))
          + KeyBlock(aes, src.key, Plus(src.counter, 2))
  {
    hide KeyBlock, Plus, XorBytes;
    var blocks: seq<byte> := KeyBlock(aes, src.key, src.counter)
                           + KeyBlock(aes, src.key, Plus(src.counter, 1))
                           + KeyBlock(aes, src.key, Plus(src.counter, 2));
    XorBytesTwice(blocks, entropy);
  }

  /** A blend consumes the 48 keystream bytes that follow everything emitted or buffered
      under the old seed: XORed with the entropy they are the new one. */
  lemma BlendIsNextKeystream(aes: Aes, st: State, entropy: Seed)
    requires Consistent(aes, st)
    ensures var k := BlocksUsed(st);
            var stream := EpochBytes(aes, st.src.key, st.first, 16 * (k + 3));
            |stream| == 16 * (k + 3) && XorBytes(Blend(aes, st.src, entropy), entropy) == stream[16 * k..]
  {
    CounterPosition(aes, st);
    hide *;
    var k, key, first := BlocksUsed(st), st.src.key, st.first;
    PlusTwice(first, k, 1);
    PlusTwice(first, k, 2);
    BlendedBlocks(aes, st.src, entropy);
    EpochLength(aes, key, first, 16 * k);
    EpochLength(aes, key, first, 16 * (k + 3));
    ThreeBlocksMore(aes, key, first, k, KeyBlock(aes, key, Plus(first, k)),
                    KeyBlock(aes, key, Plus(first, k + 1)), KeyBlock(aes, key, Plus(first, k + 2)));
  }

  /** A keystream block is the encryption of the sixteen little-endian counter bytes. */
  lemma KeyBlockInput(aes: Aes, key: Key, input: Block)
    ensures FromLe(input) < TWO128 && KeyBlock(aes, key, FromLe(input)) == aes(key, input)
  {
    hide FromLe, ToLe;
    LoadFits(PolyvalOrder, input);
    LeInverse(input);
  }

  /** A seed is 32 key bytes and then the first block to be encrypted under that key. */
  lemma SeedParts(aes: Aes, seed: Seed)
    ensures var src := SplitSeed(seed);
            && src == Source(seed[..32], src.counter, []) && ToLe(src.counter, 16) == seed[32..]
            && KeyBlock(aes, src.key, src.counter) == aes(seed[..32], seed[32..])
  {
    hide FromLe, ToLe;
    LeInverse(seed[32..]);
  }

  /** A CPU draw is refused exactly when two of its six 64-bit words agree byte for byte. */
  lemma RefusedDraw(entropy: Entropy, i: nat)
    ensures CpuFill(entropy, i) == entropy.cpu(i) || CpuFill(entropy, i) == None
    ensures entropy.cpu(i).Some? ==>
      (CpuFill(entropy, i) == None <==> exists a, b | 0 <= a < b < 6 :: SameWord(entropy.cpu(i).value, a, b))
  {
    hide SameWord;
    if entropy.cpu(i).Some? {
      var s := entropy.cpu(i).value;
      if StuckOutput(s) {
        var a, b :| 0 <= a < b < 6 && s[8 * a..8 * a + 8] == s[8 * b..8 * b + 8];
        WordsAgree(s, a, b);
      }
      if a, b :| 0 <= a < b < 6 && SameWord(s, a, b) {
        WordsAgree(s, a, b);
      }
    }
  }

  /** Byte k of word a. */
  function WordByte(s: Seed, a: nat, k: nat): byte
    requires a < 6 && k < 8
  {
    s[8 * a + k]
  }

  predicate SameWord(s: Seed, a: nat, b: nat)
    requires a < 6 && b < 6
  {
    forall k | 0 <= k < 8 :: WordByte(s, a, k) == WordByte(s, b, k)
  }

  lemma WordsAgree(s: Seed, a: nat, b: nat)
    requires a < b < 6
    ensures s[8 * a..8 * a + 8] == s[8 * b..8 * b + 8] <==> SameWord(s, a, b)
  {
    var u, v := s[8 * a..8 * a + 8], s[8 * b..8 * b + 8];
    if SameWord(s, a, b) {
      forall k | 0 <= k < 8 ensures u[k] == v[k] {
        assert WordByte(s, a, k) == WordByte(s, b, k);
      }
    }
    if u == v {
      forall k | 0 <= k < 8 ensures WordByte(s, a, k) == WordByte(s, b, k) {
        assert u[k] == v[k];
      }
    }
  }

  /** Which source wins: an accepted CPU draw is blended whatever the operating system
      would answer; that answer is taken as it is; with neither there is no seed. */
  lemma SourceWins(aes: Aes, entropy: Entropy, src: Source, i: nat)
    ensures NewSource(aes, entropy, src, i) == None <==> CpuFill(entropy, i) == None && entropy.os(i) == None
    ensures CpuFill(entropy, i).Some? ==>
      NewSource(aes, entropy, src, i) == Some(SplitSeed(Blend(aes, src, CpuFill(entropy, i).value)))
    ensures CpuFill(entropy, i) == None && entropy.os(i).Some? ==>
      NewSource(aes, entropy, src, i) == Some(SplitSeed(entropy.os(i).value))
  {
    hide CpuFill, SplitSeed, Blend;
  }

  /** The bytes per seed are the larger of the interval and one. */
  lemma LimitIsMaximum(st: State)
    ensures Limit(st) >= 1 && Limit(st) >= st.interval && Limit(st) in {1, st.interval}
  {
  }

  /** A reseed starts the next epoch with the encryption of the last sixteen seed bytes
      under the first 32: the blended seed if a CPU draw was accepted, else the draw of
      the operating system. */
  lemma NextEpochStarts(aes: Aes, entropy: Entropy, st: State)
    ensures var (ok, next) := Reseed(aes, entropy, st);
            var cpu, os := CpuFill(entropy, st.draws), entropy.os(st.draws);
            && (ok <==> cpu.Some? || os.Some?)
            && (ok ==>
                  var seed := if cpu.Some? then Blend(aes, st.src, cpu.value) else os.value;
                  && next.src == Source(seed[..32], next.first, []) && ToLe(next.first, 16) == seed[32..]
                  && KeyBlock(aes, next.src.key, next.src.counter) == aes(seed[..32], seed[32..])
                  && next.since == 0 && next.interval == st.interval)
            && (!ok ==> next.src == st.src && next.since == st.since && next.interval == st.interval)
            && next.draws == st.draws + 1
  {
    hide CpuFill, Blend, KeyBlock, SplitSeed, ToLe;
    SourceWins(aes, entropy, st.src, st.draws);
    if CpuFill(entropy, st.draws).Some? {
      SeedParts(aes, Blend(aes, st.src, CpuFill(entropy, st.draws).value));
    } else if entropy.os(st.draws).Some? {
      SeedParts(aes, entropy.os(st.draws).value);
    }
  }
}

module Generator {
  import opened Field
  import opened Bytes
  import opened Wrappers
  import opened GeneratorSpec
  import Ctr

  const DEFAULT_RESEED_INTERVAL_BYTES: nat := 0x4000_0000

  datatype Error = OsEntropy | ForkDetected

  // ---------------------------------------------------------------------------
  // Chunks of emitted bytes
  // ---------------------------------------------------------------------------

  /** n bytes from the source, without any reseed. */
  function EmitN(aes: Aes, src: Source, n: nat): (seq<byte>, Source)
    decreases n
  {
    if n == 0 then ([], src)
    else
      var (b, next) := Emit(aes, src);
      var (rest, end) := EmitN(aes, next, n - 1);
      ([b] + rest, end)
  }

  lemma {:induction false} EmitNLength(aes: Aes, src: Source, n: nat)
    ensures |EmitN(aes, src, n).0| == n
    decreases n
  {
    if n > 0 { EmitNLength(aes, Emit(aes, src).1, n - 1); }
  }

  lemma {:induction false} EmitNAdd(aes: Aes, src: Source, a: nat, b: nat)
    ensures var (x, mid) := EmitN(aes, src, a);
            var (y, end) := EmitN(aes, mid, b);
            EmitN(aes, src, a + b) == (x + y, end)
    decreases a
  {
    hide Emit;
    if a == 0 {
      assert [] + EmitN(aes, src, b).0 == EmitN(aes, src, b).0;
    } else {
      var (v, next) := Emit(aes, src);
      EmitNAdd(aes, next, a - 1, b);
      var (x, mid) := EmitN(aes, next, a - 1);
      var (y, end) := EmitN(aes, mid, b);
      assert [v] + (x + y) == ([v] + x) + y;
    }
  }

  /** Buffered bytes come out in order. */
  lemma {:induction false} EmitPending(aes: Aes, src: Source, n: nat)
    requires n <= |src.pending|
    ensures EmitN(aes, src, n) == (src.pending[..n], src.(pending := src.pending[n..]))
    decreases n
  {
    hide KeyBlock;
    if n > 0 {
      var p := src.pending;
      EmitPending(aes, src.(pending := p[1..]), n - 1);
      assert [p[0]] + p[1..][..n - 1] == p[..n];
      assert p[1..][n - 1..] == p[n..];
    }
  }

  /** A fresh block, of which n bytes are taken and the rest is kept. */
  lemma EmitFromBlock(aes: Aes, src: Source, n: nat)
    requires src.pending == [] && 0 < n <= 16
    ensures var block := KeyBlock(aes, src.key, src.counter);
            EmitN(aes, src, n) == (block[..n], Source(src.key, Plus(src.counter, 1), block[n..]))
  {
    hide KeyBlock;
    var block := KeyBlock(aes, src.key, src.counter);
    EmitPending(aes, Source(src.key, Plus(src.counter, 1), block[1..]), n - 1);
    assert [block[0]] + block[1..][..n - 1] == block[..n];
    assert block[1..][n - 1..] == block[n..];
  }

  /** Up to the reseed limit the reference machine just emits. */
  lemma {:induction false} StreamIsEmitN(aes: Aes, entropy: Entropy, st: State, n: nat)
    requires st.since + n <= Limit(st)
    ensures var (bytes, src) := EmitN(aes, st.src, n);
            Stream(aes, entropy, st, n) == Run(bytes, st.(src := src, since := st.since + n), true)
    decreases n
  {
    hide Emit, Reseed;
    if n > 0 {
      var (b, src) := Emit(aes, st.src);
      StreamIsEmitN(aes, entropy, st.(src := src, since := st.since + 1), n - 1);
    }
  }

  // ---------------------------------------------------------------------------
  // The generator
  // ---------------------------------------------------------------------------

  class AesCtrKeyGenerator {
    const aes: Aes
    var key: Key
    var counter: u128
    const buffer: array<byte>
    var bufferPos: nat
    var generatedSinceReseed: nat
    var reseedInterval: nat
    var forkGuard: nat
    /** How often entropy has been asked for: the position in the oracle. */
    var draws: nat
    ghost var first: u128

    ghost predicate BufferOk()
      reads this`bufferPos, buffer
    {
      buffer.Length == 16 && bufferPos <= 16 && forall i | 0 <= i < bufferPos :: buffer[i] == 0
    }

    ghost function Src(): Source
      reads this`key, this`counter, this`bufferPos, buffer
    {
      Source(key, counter, if bufferPos <= buffer.Length then buffer[bufferPos..] else [])
    }

    ghost function Abs(): State
      reads this, buffer
    {
      State(Src(), generatedSinceReseed, reseedInterval, draws, first)
    }

    /** Given-out buffer bytes are wiped, and the rest is the unconsumed tail of
        the last keystream block of the epoch. */
    ghost predicate Valid()
      reads this, buffer
    {
      BufferOk() && Consistent(aes, Abs())
    }

    constructor FromSeed(aes: Aes, seed: Seed, generation: nat)
      ensures Valid() && fresh(buffer)
      ensures this.aes == aes && forkGuard == generation && draws == 0
      ensures Abs().src == SplitSeed(seed) && Abs().since == 0
      ensures reseedInterval == DEFAULT_RESEED_INTERVAL_BYTES
    {
      hide KeyBlock, FromLe;
      var src := SplitSeed(seed);
      this.aes := aes;
      this.key := src.key;
      this.counter := src.counter;
      this.buffer := new byte[16](_ => 0);
      this.bufferPos := 16;
      this.generatedSinceReseed := 0;
      this.reseedInterval := DEFAULT_RESEED_INTERVAL_BYTES;
      this.forkGuard := generation;
      this.draws := 0;
      this.first := src.counter;
      new;
      assert buffer[16..] == [];
      SeededConsistent(aes, src, DEFAULT_RESEED_INTERVAL_BYTES, 0);
    }

    method FillBlock() returns (block: Block)
      modifies this`counter
      ensures block == KeyBlock(aes, key, old(counter)) && counter == Plus(old(counter), 1)
    {
      hide ToLe;
      block := aes(key, ToLe(counter, 16));
      counter := (counter + 1) % TWO128;
    }

    method DrainBuffer(out: array<byte>, off: nat, len: nat) returns (take: nat)
      requires BufferOk() && out != buffer && off + len <= out.Length
      modifies this`bufferPos, buffer, out
      ensures BufferOk()
      ensures take == if len < 16 - old(bufferPos) then len else 16 - old(bufferPos)
      ensures (EmitN(aes, old(Src()), take)) == (old(buffer[bufferPos..])[..take], Src())
      ensures out[..] == Splice(old(out[..]), off, old(buffer[bufferPos..])[..take])
      ensures take < len ==> bufferPos == 16
    {
      hide Splice, KeyBlock;
      ghost var pending := buffer[bufferPos..];
      take := if len < 16 - bufferPos then len else 16 - bufferPos;
      EmitPending(aes, Src(), take);
      if take == 0 {
        SpliceNothing(out[..], off);
        assert pending[..0] == [] && pending[0..] == pending;
        return;
      }
      var end := bufferPos + take;
      assert buffer[bufferPos..end] == pending[..take];
      Ctr.CopyInto(out, off, buffer[bufferPos..end]);
      forall i | bufferPos <= i < end { buffer[i] := 0; }
      bufferPos := end;
      assert buffer[bufferPos..] == pending[take..];
    }

    /** Buffered bytes first, then whole blocks straight to the output, then one
        block of which the remainder is kept. */
    method FillWithoutLifecycleChecks(out: array<byte>, off: nat, len: nat)
      requires BufferOk() && out != buffer && off + len <= out.Length
      modifies this`bufferPos, this`counter, buffer, out
      ensures BufferOk()
      ensures |EmitN(aes, old(Src()), len).0| == len
      ensures out[..] == Splice(old(out[..]), off, EmitN(aes, old(Src()), len).0)
      ensures Src() == EmitN(aes, old(Src()), len).1
    {
      hide Splice, KeyBlock, EmitN, Plus;
      ghost var src0 := Src();
      EmitNLength(aes, src0, len);
      var done := DrainBuffer(out, off, len);
      ghost var bytes := EmitN(aes, src0, done).0;
      EmitNLength(aes, src0, done);
      while len - done >= 16
        invariant BufferOk() && done <= len && (done < len ==> bufferPos == 16)
        invariant |bytes| == done && EmitN(aes, src0, done) == (bytes, Src())
        invariant out[..] == Splice(old(out[..]), off, bytes)
      {
        NextEmit(aes, src0, done, 16, bytes, Src());
        SpliceTwice(old(out[..]), off, bytes, KeyBlock(aes, key, counter)[..16]);
        var block := FillBlock();
        assert block[..16] == block && block[16..] == [];
        Ctr.CopyInto(out, off + done, block);
        bytes := bytes + block;
        done := done + 16;
      }
      var remainder := len - done;
      if remainder > 0 {
        NextEmit(aes, src0, done, remainder, bytes, Src());
        SpliceTwice(old(out[..]), off, bytes, KeyBlock(aes, key, counter)[..remainder]);
        var block := FillBlock();
        FillAndKeep(block, out, off + done, remainder);
      }
    }

    /** A block goes through the buffer: n bytes leave and are wiped. */
    method FillAndKeep(block: Block, out: array<byte>, at: nat, n: nat)
      requires buffer.Length == 16 && out != buffer && 0 < n < 16 && at + n <= out.Length
      modifies this`bufferPos, buffer, out
      ensures BufferOk() && bufferPos == n && buffer[n..] == block[n..]
      ensures out[..] == Splice(old(out[..]), at, block[..n])
    {
      Ctr.CopyInto(buffer, 0, block);
      assert buffer[..] == block;
      Ctr.CopyInto(out, at, buffer[..n]);
      forall i | 0 <= i < n { buffer[i] := 0; }
      bufferPos := n;
    }

    /** New seed: blended CPU entropy if a draw passes the screen, else the
        operating system; on failure nothing but the attempt count changes. */
    method Reseed(entropy: Entropy, generation: nat) returns (ok: bool)
      requires Valid()
      modifies this, buffer
      ensures Valid()
      ensures (ok, Abs()) == GeneratorSpec.Reseed(aes, entropy, old(Abs()))
      ensures ok ==> buffer[..] == ZERO_BLOCK && forkGuard == generation
      ensures !ok ==> forkGuard == old(forkGuard) && buffer[..] == old(buffer[..]) && bufferPos == old(bufferPos)
    {
      assert buffer.Length == 16;
      ghost var st := Abs();
      ReseedConsistent(aes, entropy, st);
      hide KeyBlock, Consistent, NewSource, BufferOk, Src;
      ok := Rekey(entropy);
      if !ok { return; }
      generatedSinceReseed := 0;
      forkGuard := generation;
      ClearBuffer();
      assert Abs() == State(Source(key, counter, []), 0, st.interval, st.draws + 1, counter);
    }

    /** The new key and counter, if entropy can be had. */
    method Rekey(entropy: Entropy) returns (ok: bool)
      modifies this`key, this`counter, this`first, this`draws
      ensures draws == old(draws) + 1
      ensures
        match NewSource(aes, entropy, old(Src()), old(draws))
        case Some(src) => ok && Source(key, counter, []) == src && first == counter
        case None => !ok && key == old(key) && counter == old(counter) && first == old(first)
    {
      hide KeyBlock, SplitSeed, Blend, CpuFill, Src;
      var cpu := CpuFill(entropy, draws);
      var os := entropy.os(draws);
      draws := draws + 1;
      if cpu.Some? {
        ReseedBlend(cpu.value);
      } else {
        if os == None { return false; }
        var src := SplitSeed(os.value);
        key, counter, first := src.key, src.counter, src.counter;
      }
      ok := true;
    }

    method ClearBuffer()
      requires buffer.Length == 16
      modifies this`bufferPos, buffer
      ensures BufferOk() && buffer[..] == ZERO_BLOCK && Src() == Source(key, counter, [])
    {
      Ctr.CopyInto(buffer, 0, ZERO_BLOCK);
      bufferPos := 16;
      assert buffer[..] == ZERO_BLOCK;
    }

    /** Rekeys from three keystream blocks XORed with CPU entropy. */
    method ReseedBlend(cpuEntropy: Seed)
      modifies this`key, this`counter, this`first
      ensures Source(key, counter, []) == SplitSeed(Blend(aes, old(Src()), cpuEntropy))
      ensures first == counter
    {
      hide KeyBlock, FromLe;
      ghost var c := counter;
      var b0 := FillBlock();
      var b1 := FillBlock();
      var b2 := FillBlock();
      TwoSteps(c);
      var s0: seq<byte>, s1: seq<byte>, s2: seq<byte> := b0, b1, b2;
      var seed: Seed := XorBytes(s0 + s1 + s2, cpuEntropy);
      var src := SplitSeed(seed);
      key, counter, first := src.key, src.counter, src.counter;
    }

    /** Fills len bytes: the buffered implementation of the reference machine. */
    method FillChecked(entropy: Entropy, generation: nat, out: array<byte>, off: nat, len: nat)
      returns (r: Result<(), Error>)
      requires Valid() && out != buffer && off + len <= out.Length
      modifies this, buffer, out
      ensures Valid()
      ensures generation != old(forkGuard) ==>
        r == Failure(ForkDetected) && out[..] == old(out[..]) && Abs() == old(Abs()) && forkGuard == old(forkGuard)
      ensures generation == old(forkGuard) ==>
        var run := Stream(aes, entropy, old(Abs()), len);
        && |run.bytes| <= len
        && r == (if run.ok then Success(()) else Failure(OsEntropy))
        && Abs() == run.state && forkGuard == generation
        && out[..] == Splice(old(out[..]), off, run.bytes)
    {
      hide Consistent, Splice, Stream, EmitN, Src, GeneratorSpec.Reseed;
      if forkGuard != generation { return Failure(ForkDetected); }
      ghost var st0 := Abs();
      ghost var bytes: seq<byte> := [];
      var done := 0;
      SpliceNothing(out[..], off);
      NoRequest(aes, entropy, st0);
      while done < len
        invariant Valid() && forkGuard == generation && done <= len
        invariant |bytes| == done && Stream(aes, entropy, st0, done) == Run(bytes, Abs(), true)
        invariant out[..] == Splice(old(out[..]), off, bytes)
        decreases len - done
      {
        ghost var st := Abs();
        SinceWithinLimit(aes, st);
        var interval := if reseedInterval < 1 then 1 else reseedInterval;
        if generatedSinceReseed >= interval {
          FailedReseed(aes, entropy, st0, done, bytes, st, len - done);
          ReseedConsistent(aes, entropy, st);
          var ok := Reseed(entropy, generation);
          if !ok { return Failure(OsEntropy); }
        }
        ghost var st1 := Abs();
        var remaining := interval - generatedSinceReseed;
        var take := if len - done < remaining then len - done else remaining;
        ChunkStep(aes, entropy, st0, done, bytes, st, st1, take);
        SpliceTwice(old(out[..]), off, bytes, EmitN(aes, st1.src, take).0);
        FillWithoutLifecycleChecks(out, off + done, take);
        generatedSinceReseed := generatedSinceReseed + take;
        bytes := bytes + EmitN(aes, st1.src, take).0;
        done := done + take;
      }
      r := Success(());
    }
  }

  lemma SinceWithinLimit(aes: Aes, st: State)
    requires Consistent(aes, st)
    ensures st.since <= Limit(st)
  {
  }

  /** A failed reseed in the middle of a request is a failed run, with the bytes
      produced so far. */
  lemma FailedReseed(aes: Aes, entropy: Entropy, st0: State, done: nat, bytes: seq<byte>, st: State, n: nat)
    requires Stream(aes, entropy, st0, done) == Run(bytes, st, true)
    requires n > 0 && st.since == Limit(st)
    ensures !GeneratorSpec.Reseed(aes, entropy, st).0 ==>
      Stream(aes, entropy, st0, done + n) == Run(bytes, GeneratorSpec.Reseed(aes, entropy, st).1, false)
  {
    hide Stream, Reseed;
    StreamSplit(aes, entropy, st0, done, n);
    StreamAtLimit(aes, entropy, st, n);
  }

  /** One pass of the loop: an optional reseed, then a chunk up to the next limit. */
  lemma ChunkStep(aes: Aes, entropy: Entropy, st0: State, done: nat, bytes: seq<byte>, st: State, st1: State, take: nat)
    requires Consistent(aes, st)
    requires Stream(aes, entropy, st0, done) == Run(bytes, st, true)
    requires if st.since >= Limit(st) then GeneratorSpec.Reseed(aes, entropy, st) == (true, st1) else st1 == st
    requires 0 < take && st1.since + take <= Limit(st1)
    ensures var (b, src) := EmitN(aes, st1.src, take);
            var st2 := st1.(src := src, since := st1.since + take);
            && |b| == take
            && Stream(aes, entropy, st0, done + take) == Run(bytes + b, st2, true)
            && Consistent(aes, st2)
  {
    hide Stream, EmitN, Reseed, Consistent;
    SinceWithinLimit(aes, st);
    StreamSplit(aes, entropy, st0, done, take);
    if st.since >= Limit(st) {
      StreamAtLimit(aes, entropy, st, take);
    }
    StreamIsEmitN(aes, entropy, st1, take);
    StreamConsistent(aes, entropy, st, take);
    EmitNLength(aes, st1.src, take);
  }

  lemma TwoSteps(c: u128)
    ensures Plus(Plus(c, 1), 1) == Plus(c, 2)
  {
  }

  /** Emitting n more bytes when nothing is buffered. */
  lemma NextEmit(aes: Aes, src0: Source, done: nat, n: nat, bytes: seq<byte>, src: Source)
    requires EmitN(aes, src0, done) == (bytes, src) && src.pending == [] && 0 < n <= 16
    ensures var block := KeyBlock(aes, src.key, src.counter);
            EmitN(aes, src0, done + n) == (bytes + block[..n], Source(src.key, Plus(src.counter, 1), block[n..]))
  {
    hide KeyBlock, EmitN;
    EmitNAdd(aes, src0, done, n);
    EmitFromBlock(aes, src, n);
  }

  /** The default interval is 2^30 bytes. */
  lemma DefaultInterval(k: nat)
    requires k == 30
    ensures DEFAULT_RESEED_INTERVAL_BYTES == Gf2.Pow2(k)
  {
    Pow2By8(k - 14);
    Pow2By8(k - 22);
    Pow2By8(k - 30);
    assert Gf2.Pow2(k - 30) == 1;
    assert Gf2.Pow2(k - 3) == 8 * Gf2.Pow2(k - 6) by { assert Gf2.Pow2(k - 4) == 4 * Gf2.Pow2(k - 6); }
    assert Gf2.Pow2(k - 1) == 4 * Gf2.Pow2(k - 3);
  }
}

/**
 The generated-nonce sequence: a base drawn from the operating system, walked by a
 64-bit counter and drawn again after a fork or a counter wrap.
 */
module NonceSpec {
  import opened Field
  import opened Bytes
  import opened Wrappers
  import opened GcmSpec

  const TWO96: nat := 0x1_0000_0000_0000_0000_0000_0000

  type u96 = n: nat | n < TWO96

  /** A 96-bit number as a nonce: the first twelve of its sixteen little-endian bytes. */
  function NonceOf(value: u96): Nonce { ToLe(value, 16)[..12] }

  /** (base + counter) mod 2^96, little-endian. */
  function NonceValue(base: u128, counter: u64): Nonce { NonceOf((base + counter) % TWO128 % TWO96) }

  lemma {:induction false} ToLePrefix(n: nat, len: nat, k: nat)
    requires k <= len
    ensures ToLe(n, len)[..k] == ToLe(n, k)
    decreases k
  {
    if k > 0 {
      ToLePrefix(n / 0x100, len - 1, k - 1);
      var t := ToLe(n / 0x100, len - 1);
      assert ([n % 0x100] + t)[..k] == [n % 0x100] + t[..k - 1];
    }
  }

  lemma Pow2Of96()
    ensures Gf2.Pow2(96) == TWO96
  {
    ShlBy32(1, 0);
    ShlBy64(1, 32);
    ShlIsTimesPow2(96);
  }

  /** The twelve bytes of a nonce are its number, least significant byte first. */
  lemma NonceOfBytes(v: u96)
    ensures FromLe(NonceOf(v)) == v
  {
    hide FromLe, ToLe;
    ToLePrefix(v, 16, 12);
    Pow2Of96();
    LeRoundTrip(v, 96, 12);
  }

  lemma NonceOfInjective(v: u96, w: u96)
    ensures NonceOf(v) == NonceOf(w) <==> v == w
  {
    hide NonceOf;
    NonceOfBytes(v);
    NonceOfBytes(w);
  }

  /** For a 96-bit base the 128-bit addition does not wrap. */
  lemma NonceNumber(base: u96, c: u64)
    ensures NonceValue(base, c) == NonceOf((base + c) % TWO96)
  {
    hide NonceOf;
  }

  /** Nonces of any two bases are equal exactly when base plus counter agree modulo 2^96. */
  lemma NoncesEqual(base: u96, c: u64, base': u96, c': u64)
    ensures NonceValue(base, c) == NonceValue(base', c') <==> (base + c) % TWO96 == (base' + c') % TWO96
  {
    hide NonceOf, NonceValue;
    NonceNumber(base, c);
    NonceNumber(base', c');
    NonceOfInjective((base + c) % TWO96, (base' + c') % TWO96);
  }

  lemma SmallShift(base: u96, c: nat, d: nat)
    requires c < TWO96 && d < TWO96
    ensures (base + c) % TWO96 == (base + d) % TWO96 <==> c == d
  {
  }

  /** Under one base, different counters give different nonces. */
  lemma NonceInjective(base: u96, c: u64, d: u64)
    ensures NonceValue(base, c) == NonceValue(base, d) <==> c == d
  {
    hide NonceValue;
    NoncesEqual(base, c, base, d);
    SmallShift(base, c, d);
  }

  // ---------------------------------------------------------------------------
  // The step system
  // ---------------------------------------------------------------------------

  /** The generator, with the number of bases drawn so far. */
  datatype Gen = Gen(base: u96, counter: u64, guard: nat, epoch: nat)

  /** The environment of one call: the fork generation, and what the operating
      system answers to a draw after a fork and to a draw after a wrap. */
  datatype Call = Call(generation: nat, forkSalt: Option<u96>, wrapSalt: Option<u96>)

  /** An emitted nonce: which base, when that base was drawn, and the counter. */
  datatype Record = Record(epoch: nat, base: u96, drawnAt: nat, counter: u64) {
    function Nonce(): Nonce { NonceValue(base, counter) }
  }

  function Drawn(g: Gen, salt: u96, generation: nat): Gen { Gen(salt, 0, generation, g.epoch + 1) }

  /** The generator as it is after the fork check, if that needs no failed draw. */
  function Ready(g: Gen, c: Call): Option<Gen> {
    if g.guard == c.generation then Some(g)
    else match c.forkSalt
      case Some(s) => Some(Drawn(g, s, c.generation))
      case None => None
  }

  /** One call: what it returns, and the generator it leaves. */
  function Step(g: Gen, c: Call): (Option<Record>, Gen) {
    match Ready(g, c)
    case None => (None, g)
    case Some(r) =>
      var out := Record(r.epoch, r.base, r.guard, r.counter);
      var next := r.(counter := (r.counter + 1) % TWO64);
      if next.counter != 0 then (Some(out), next)
      else match c.wrapSalt
        case Some(s) => (Some(out), Drawn(next, s, c.generation))
        case None => (None, next)
  }

  /** The guard of the branch that goes wrong: the counter wraps in this call and
      the operating system has no entropy at that moment. */
  predicate WrapFails(g: Gen, c: Call) {
    Ready(g, c).Some? && Ready(g, c).value.counter == TWO64 - 1 && c.wrapSalt == None
  }

  function Trace(g: Gen, calls: seq<Call>): seq<Option<Record>>
    decreases |calls|
  {
    if calls == [] then [] else [Step(g, calls[0]).0] + Trace(Step(g, calls[0]).1, calls[1..])
  }

  // ---------------------------------------------------------------------------
  // Reuse of one drawn base
  // ---------------------------------------------------------------------------

  /** Whether the current base is spent: its counter wrapped and the draw of a new
      base failed, and no draw has succeeded since. */
  predicate SpentAfter(g: Gen, c: Call, spent: bool) { if Ready(g, c).None? then spent else WrapFails(g, c) }

  /** A call that goes on with a spent base, because it observes no fork. */
  predicate Reuses(g: Gen, c: Call, spent: bool) { spent && g.guard == c.generation }

  /** Somewhere in the run a call goes on with a spent base. */
  predicate Reused(g: Gen, calls: seq<Call>, spent: bool)
    decreases |calls|
  {
    calls != [] &&
    (Reuses(g, calls[0], spent) || Reused(Step(g, calls[0]).1, calls[1..], SpentAfter(g, calls[0], spent)))
  }

  /** A later nonce comes from the same base further on, or from a later base. */
  ghost predicate Ahead(g: Gen, spent: bool, r: Record) {
    r.epoch > g.epoch || (!spent && r.epoch == g.epoch && r.base == g.base && r.counter >= g.counter)
  }

  lemma {:induction false} TraceAhead(g: Gen, calls: seq<Call>, spent: bool, i: nat)
    requires !Reused(g, calls, spent)
    requires i < |Trace(g, calls)| && Trace(g, calls)[i].Some?
    ensures Ahead(g, spent, Trace(g, calls)[i].value)
    decreases |calls|
  {
    if i > 0 {
      TraceAhead(Step(g, calls[0]).1, calls[1..], SpentAfter(g, calls[0], spent), i - 1);
    }
  }

  /** Over every interleaving of calls and forks in which no spent base is reused,
      all nonces emitted under one drawn base are pairwise distinct. */
  lemma {:induction false} NoncesDistinct(g: Gen, calls: seq<Call>, spent: bool, i: nat, j: nat)
    requires !Reused(g, calls, spent)
    requires i < j < |Trace(g, calls)|
    requires Trace(g, calls)[i].Some? && Trace(g, calls)[j].Some?
    requires Trace(g, calls)[i].value.epoch == Trace(g, calls)[j].value.epoch
    ensures Trace(g, calls)[i].value.Nonce() != Trace(g, calls)[j].value.Nonce()
    decreases |calls|
  {
    hide NonceValue;
    var next, spent' := Step(g, calls[0]).1, SpentAfter(g, calls[0], spent);
    if i > 0 {
      NoncesDistinct(next, calls[1..], spent', i - 1, j - 1);
    } else {
      TraceAhead(next, calls[1..], spent', j - 1);
      var a, b := Trace(g, calls)[i].value, Trace(g, calls)[j].value;
      NonceInjective(a.base, a.counter, b.counter);
    }
  }

  /** Every nonce is emitted under a base drawn in the fork generation of its own
      call: never under one drawn before the last observed fork. */
  lemma {:induction false} NoStaleBase(g: Gen, calls: seq<Call>, i: nat)
    requires i < |Trace(g, calls)| && i < |calls| && Trace(g, calls)[i].Some?
    ensures Trace(g, calls)[i].value.drawnAt == calls[i].generation
    decreases |calls|
  {
    if i > 0 {
      NoStaleBase(Step(g, calls[0]).1, calls[1..], i - 1);
    }
  }

  // ---------------------------------------------------------------------------
  // What has been emitted under the current base
  // ---------------------------------------------------------------------------

  /** The log holds the counters 0 up to the current one of the current base; of a
      spent base it holds counter 0, which comes next. */
  ghost predicate Complete(g: Gen, log: set<Record>, spent: bool) {
    && (forall r | r in log :: r.epoch <= g.epoch)
    && (forall r | r in log && r.epoch == g.epoch :: r.base == g.base)
    && if spent then g.counter == 0 && Record(g.epoch, g.base, g.guard, 0) in log
       else
         && (forall r | r in log && r.epoch == g.epoch :: r.counter < g.counter)
         && (forall k: u64 | k < g.counter :: Record(g.epoch, g.base, g.guard, k) in log)
  }

  /** The counter that comes next has not been emitted under the current base. */
  ghost predicate NextIsNew(g: Gen, log: set<Record>) {
    forall r | r in log && r.epoch == g.epoch :: r.counter != g.counter
  }

  function Logged(log: set<Record>, out: Option<Record>): set<Record> {
    match out
    case Some(r) => log + {r}
    case None => log
  }

  /** A call leaves the next counter new under its base if and only if it does not
      leave the base spent. */
  lemma SpentIsTheOnlyRepeatUnderABase(g: Gen, c: Call, log: set<Record>, spent: bool)
    requires Complete(g, log, spent) && !Reuses(g, c, spent)
    ensures var (out, next) := Step(g, c);
            && Complete(next, Logged(log, out), SpentAfter(g, c, spent))
            && (NextIsNew(next, Logged(log, out)) <==> !SpentAfter(g, c, spent))
  {
    if !spent && WrapFails(g, c) {
      assert Record(g.epoch, g.base, g.guard, 0) in log;
    }
  }

  /** Everything emitted by a run, added to log, the generator it leaves, and whether
      that generator's base is spent. */
  function RunLog(g: Gen, log: set<Record>, spent: bool, calls: seq<Call>): (Gen, set<Record>, bool)
    decreases |calls|
  {
    if calls == [] then (g, log, spent)
    else
      var (out, next) := Step(g, calls[0]);
      RunLog(next, Logged(log, out), SpentAfter(g, calls[0], spent), calls[1..])
  }

  lemma {:induction false} RunKeepsComplete(g: Gen, log: set<Record>, spent: bool, calls: seq<Call>)
    requires Complete(g, log, spent) && !Reused(g, calls, spent)
    ensures var (end, all, spentAtEnd) := RunLog(g, log, spent, calls);
            Complete(end, all, spentAtEnd) && (NextIsNew(end, all) <==> !spentAtEnd)
    decreases |calls|
  {
    hide Complete, SpentAfter, Step, NextIsNew;
    if calls == [] {
      CompleteMeansNew(g, log, spent);
    } else {
      var (out, next) := Step(g, calls[0]);
      SpentIsTheOnlyRepeatUnderABase(g, calls[0], log, spent);
      RunKeepsComplete(next, Logged(log, out), SpentAfter(g, calls[0], spent), calls[1..]);
    }
  }

  lemma CompleteMeansNew(g: Gen, log: set<Record>, spent: bool)
    requires Complete(g, log, spent)
    ensures NextIsNew(g, log) <==> !spent
  {
  }

  /** The state the constructor leaves. */
  function NewGen(salt: u96, generation: nat): Gen { Gen(salt, 0, generation, 0) }

  /** A generator that has emitted nothing. */
  lemma NewIsComplete(salt: u96, generation: nat)
    ensures Complete(NewGen(salt, generation), {}, false)
  {
  }

  /** From the constructor on, over every run that reuses no spent base, the next
      counter is new under its base if and only if that base is not spent. */
  lemma RunsStayNew(salt: u96, generation: nat, calls: seq<Call>)
    requires !Reused(NewGen(salt, generation), calls, false)
    ensures var (end, all, spentAtEnd) := RunLog(NewGen(salt, generation), {}, false, calls);
            NextIsNew(end, all) <==> !spentAtEnd
  {
    NewIsComplete(salt, generation);
    RunKeepsComplete(NewGen(salt, generation), {}, false, calls);
  }

  /** A call that goes on with a spent base emits a nonce of the log again. */
  lemma FailedWrapRepeats(g: Gen, c: Call, log: set<Record>)
    requires Complete(g, log, true) && Reuses(g, c, true)
    ensures Step(g, c).0.Some? && Step(g, c).0.value in log
  {
  }

  lemma {:induction false} ReusedRunRepeats(g: Gen, log: set<Record>, spent: bool, calls: seq<Call>) returns (j: nat)
    requires Complete(g, log, spent) && Reused(g, calls, spent)
    ensures j < |Trace(g, calls)| && Trace(g, calls)[j].Some?
    ensures Trace(g, calls)[j].value in log || exists i | 0 <= i < j :: Trace(g, calls)[i] == Trace(g, calls)[j]
    decreases |calls|
  {
    hide Complete;
    if Reuses(g, calls[0], spent) {
      FailedWrapRepeats(g, calls[0], log);
      j := 0;
    } else {
      var (out, next) := Step(g, calls[0]);
      var spent' := SpentAfter(g, calls[0], spent);
      SpentIsTheOnlyRepeatUnderABase(g, calls[0], log, spent);
      var k := ReusedRunRepeats(next, Logged(log, out), spent', calls[1..]);
      j := k + 1;
      var t, t' := Trace(g, calls), Trace(next, calls[1..]);
      assert t == [out] + t';
      if t'[k].value in log {
      } else if t'[k].value in Logged(log, out) {
        assert t[0] == t[j];
      } else {
        var i :| 0 <= i < k && t'[i] == t'[k];
        assert t[i + 1] == t[j];
      }
    }
  }

  /** Nonces of one drawn base are pairwise distinct over a run from the constructor
      if and only if the run reuses no spent base. */
  lemma DistinctUnderEachBase(salt: u96, generation: nat, calls: seq<Call>)
    ensures var t := Trace(NewGen(salt, generation), calls);
            (forall i, j | 0 <= i < j < |t| && t[i].Some? && t[j].Some? && t[i].value.epoch == t[j].value.epoch ::
               t[i].value.Nonce() != t[j].value.Nonce())
            <==> !Reused(NewGen(salt, generation), calls, false)
  {
    hide NonceValue, Trace, Reused;
    var g := NewGen(salt, generation);
    var t := Trace(g, calls);
    if Reused(g, calls, false) {
      NewIsComplete(salt, generation);
      var j := ReusedRunRepeats(g, {}, false, calls);
      var i :| 0 <= i < j && t[i] == t[j];
      assert t[i].value.Nonce() == t[j].value.Nonce();
    } else {
      forall i, j | 0 <= i < j < |t| && t[i].Some? && t[j].Some? && t[i].value.epoch == t[j].value.epoch
        ensures t[i].value.Nonce() != t[j].value.Nonce()
      {
        NoncesDistinct(g, calls, false, i, j);
      }
    }
  }

  // ---------------------------------------------------------------------------
  // A run that repeats
  // ---------------------------------------------------------------------------

  /** The generator a run leaves. */
  function After(g: Gen, calls: seq<Call>): Gen
    decreases |calls|
  {
    if calls == [] then g else After(Step(g, calls[0]).1, calls[1..])
  }

  /** n calls in one process, each with no entropy to be had. */
  function Quiet(generation: nat, n: nat): seq<Call> { seq(n, _ => Call(generation, None, None)) }

  /** Calls without a fork walk the counter. */
  lemma {:induction false} QuietCallsCount(g: Gen, n: nat, more: seq<Call>)
    requires g.counter + n < TWO64
    ensures var calls := Quiet(g.guard, n);
            && After(g, calls) == g.(counter := g.counter + n)
            && |Trace(g, calls + more)| >= n
            && Trace(g, calls + more)[n..] == Trace(After(g, calls), more)
            && (n > 0 ==> Trace(g, calls + more)[0] == Some(Record(g.epoch, g.base, g.guard, g.counter)))
    decreases n
  {
    var calls := Quiet(g.guard, n);
    if n == 0 {
      assert calls + more == more;
      assert Trace(g, more)[0..] == Trace(g, more);
    } else {
      assert calls[1..] == Quiet(g.guard, n - 1);
      assert (calls + more)[1..] == calls[1..] + more;
      var next := Step(g, calls[0]).1;
      QuietCallsCount(next, n - 1, more);
      assert Trace(g, calls + more)[n..] == Trace(next, calls[1..] + more)[n - 1..];
    }
  }

  /** A run the environment can produce: in one process, with no entropy after the
      first draw, the call at the wrap fails and the next emits the first nonce again. */
  lemma RepeatAfterFailedWrap(salt: u96, generation: nat)
    ensures var g, n := NewGen(salt, generation), TWO64 - 1;
            var t := Trace(g, Quiet(generation, n) + Quiet(generation, 2));
            && After(g, Quiet(generation, n)).counter == TWO64 - 1
            && |t| == n + 2 && t[n] == None
            && t[0] == t[n + 1] == Some(Record(0, salt, generation, 0))
  {
    hide Trace, After, Quiet;
    var g, n, more := NewGen(salt, generation), TWO64 - 1, Quiet(generation, 2);
    QuietCallsCount(g, n, more);
    var t := Trace(g, Quiet(generation, n) + more);
    LastTwo(After(g, Quiet(generation, n)), more);
    assert t[n] == t[n..][0] && t[n + 1] == t[n..][1];
  }

  /** The n-th nonce of a process that has not forked is base plus n modulo 2^96, for
      every n before the last, least significant byte first. */
  lemma QuietNonce(salt: u96, generation: nat, n: nat)
    requires n < TWO64 - 1
    ensures var t := Trace(NewGen(salt, generation), Quiet(generation, n) + Quiet(generation, 1));
            |t| == n + 1 && t[n].Some? && FromLe(t[n].value.Nonce()) == (salt + n) % TWO96
  {
    hide Trace, After, Quiet, NonceOf, FromLe, NonceValue;
    var g, more := NewGen(salt, generation), Quiet(generation, 1);
    QuietCallsCount(g, n, more);
    var end := After(g, Quiet(generation, n));
    NextOne(end, more);
    NonceNumber(salt, n);
    NonceOfBytes((salt + n) % TWO96);
    assert Trace(g, Quiet(generation, n) + more)[n] == Trace(end, more)[0];
  }

  lemma NextOne(g: Gen, more: seq<Call>)
    requires g.counter + 1 < TWO64 && more == Quiet(g.guard, 1)
    ensures Trace(g, more) == [Some(Record(g.epoch, g.base, g.guard, g.counter))]
  {
    assert more[1..] == [];
  }

  /** The first nonce after an observed fork is the newly drawn base itself. */
  lemma ForkedNonce(g: Gen, c: Call)
    requires g.guard != c.generation && c.forkSalt.Some?
    ensures var (out, next) := Step(g, c);
            && out.Some? && FromLe(out.value.Nonce()) == c.forkSalt.value
            && next == Gen(c.forkSalt.value, 1, c.generation, g.epoch + 1)
  {
    hide NonceOf, FromLe;
    NonceNumber(c.forkSalt.value, 0);
    NonceOfBytes(c.forkSalt.value);
  }

  lemma LastTwo(g: Gen, more: seq<Call>)
    requires g.counter == TWO64 - 1 && more == Quiet(g.guard, 2)
    ensures Trace(g, more) == [None, Some(Record(g.epoch, g.base, g.guard, 0))]
  {
    var next := Step(g, more[0]).1;
    assert more[1..][1..] == [];
    assert Trace(next, more[1..]) == [Step(next, more[1]).0];
  }
}

module NonceGenerator {
  import opened Field
  import opened Wrappers
  import opened GcmSpec
  import opened NonceSpec

  class NonceGen {
    var base: u96
    var counter: u64
    var forkGuard: nat
    ghost var epoch: nat

    ghost function Abs(): Gen
      reads this
    {
      Gen(base, counter, forkGuard, epoch)
    }

    constructor (salt: u96, generation: nat)
      ensures Abs() == NewGen(salt, generation)
    {
      base, counter, forkGuard, epoch := salt, 0, generation, 0;
    }

    method Resalt(salt: Option<u96>, generation: nat) returns (ok: bool)
      modifies this
      ensures ok == salt.Some?
      ensures Abs() == if ok then Drawn(old(Abs()), salt.value, generation) else old(Abs())
    {
      if salt == None { return false; }
      base := salt.value;
      counter := 0;
      forkGuard := generation;
      epoch := epoch + 1;
      ok := true;
    }

    /** The next nonce, or None where the operating system had no entropy. */
    method Next(c: Call) returns (r: Option<Nonce>)
      modifies this
      ensures var (out, next) := Step(old(Abs()), c);
              Abs() == next && r == match out case Some(rec) => Some(rec.Nonce()) case None => None
    {
      hide NonceValue;
      if forkGuard != c.generation {
        var ok := Resalt(c.forkSalt, c.generation);
        if !ok { return None; }
      }
      var nonce := NonceValue(base, counter);
      counter := (counter + 1) % TWO64;
      if counter == 0 {
        var ok := Resalt(c.wrapSalt, c.generation);
        if !ok { return None; }
      }
      r := Some(nonce);
    }
  }
}

/**
 All nonces of a run, across all drawn bases: the run is a sequence of walks, each
 from one start upwards, and it repeats a nonce exactly when two walks overlap.
 */
module NonceRuns {
  import opened Bytes
  import opened Ctr
  import opened Field
  import opened Wrappers
  import opened GcmSpec
  import opened NonceSpec

  /** Consecutive nonces from start on. A restart is the walk over a base that was
      walked before, left behind by a counter wrap whose draw failed. */
  datatype Walk = Walk(start: u96, length: nat, restart: bool) {
    function At(k: nat): u96 { (start + k) % TWO96 }

    function Nonces(): (s: seq<Nonce>)
      ensures |s| == length
    {
      seq<Nonce>(length, k requires 0 <= k < length => NonceOf(At(k)))
    }
  }

  function Start(g: Gen): u96 { (g.base + g.counter) % TWO96 }

  /** The nonces handed out by a run, in order. */
  function Emitted(g: Gen, calls: seq<Call>): seq<Nonce>
    decreases |calls|
  {
    if calls == [] then []
    else
      var (out, next) := Step(g, calls[0]);
      (match out case Some(r) => [r.Nonce()] case None => []) + Emitted(next, calls[1..])
  }

  /** The first walk, begun one nonce earlier. */
  function Extend(start: u96, restart: bool, ws: seq<Walk>): seq<Walk>
    requires ws != []
  {
    [Walk(start, ws[0].length + 1, restart)] + ws[1..]
  }

  /** What one call amounts to: no base to be had after a fork, a first nonce after a
      fork, the last nonce of a base, a failed draw at the wrap, or just a nonce. */
  datatype Outcome = Blocked | Forked(ready: Gen) | Wrapped | WrapFailed | Plain

  function Classify(g: Gen, c: Call): Outcome {
    match Ready(g, c)
    case None => Blocked
    case Some(r) =>
      if g.guard != c.generation then Forked(r)
      else if g.counter + 1 < TWO64 then Plain
      else if c.wrapSalt == None then WrapFailed
      else Wrapped
  }

  lemma StepOutcome(g: Gen, c: Call)
    ensures var (out, next) := Step(g, c);
            match Classify(g, c)
            case Blocked => out == None && next == g
            case Forked(r) => out.Some? && out.value.Nonce() == NonceOf(Start(r)) && r.counter == 0
                              && next == r.(counter := 1)
            case Wrapped => out.Some? && out.value.Nonce() == NonceOf(Start(g)) && g.counter == TWO64 - 1
                            && next.counter == 0
            case WrapFailed => out == None && g.counter == TWO64 - 1 && next == g.(counter := 0)
            case Plain => out.Some? && out.value.Nonce() == NonceOf(Start(g)) && g.counter + 1 < TWO64
                          && next == g.(counter := g.counter + 1)
  {
    hide NonceOf, NonceValue;
    match Ready(g, c) {
      case None =>
      case Some(r) => NonceNumber(r.base, r.counter);
    }
  }

  lemma SpentByOutcome(g: Gen, c: Call, spent: bool)
    requires spent ==> g.counter == 0
    ensures SpentAfter(g, c, spent) == (if Classify(g, c) == Blocked then spent else Classify(g, c) == WrapFailed)
    ensures Reuses(g, c, spent) == (spent && Classify(g, c) == Plain)
  {
  }

  /** The walks of a run. A new one begins with every drawn base and with every
      counter wrap; restart says how the current one began. */
  function Walks(g: Gen, calls: seq<Call>, restart: bool): (ws: seq<Walk>)
    ensures ws != []
    decreases |calls|
  {
    if calls == [] then [Walk(Start(g), 0, restart)]
    else
      var next := Step(g, calls[0]).1;
      match Classify(g, calls[0])
      case Blocked => Walks(next, calls[1..], restart)
      case Forked(r) => [Walk(Start(g), 0, restart)] + Extend(Start(r), false, Walks(next, calls[1..], false))
      case Wrapped => [Walk(Start(g), 1, restart)] + Walks(next, calls[1..], false)
      case WrapFailed => [Walk(Start(g), 0, restart)] + Walks(next, calls[1..], true)
      case Plain => Extend(Start(g), restart, Walks(next, calls[1..], false))
  }

  function Flatten(ws: seq<Walk>): seq<Nonce>
    decreases |ws|
  {
    if ws == [] then [] else ws[0].Nonces() + Flatten(ws[1..])
  }

  // ---------------------------------------------------------------------------
  // A run is its walks
  // ---------------------------------------------------------------------------

  lemma NextAt(v: u96, n: nat, f: bool, n': nat, f': bool, k: nat)
    ensures Walk((v + 1) % TWO96, n, f).At(k) == Walk(v, n', f').At(k + 1)
    ensures Walk(v, n', f').At(0) == v
  {
  }

  lemma ExtendNonces(v: u96, n: nat, f: bool, f': bool)
    ensures Walk(v, n + 1, f).Nonces() == [NonceOf(v)] + Walk((v + 1) % TWO96, n, f').Nonces()
  {
    hide NonceOf, Walk.At;
    var l, r := Walk(v, n + 1, f).Nonces(), [NonceOf(v)] + Walk((v + 1) % TWO96, n, f').Nonces();
    NextAt(v, n, f', n + 1, f, 0);
    forall k | 0 <= k < n + 1 ensures l[k] == r[k] {
      if k > 0 { NextAt(v, n, f', n + 1, f, k - 1); }
    }
  }

  lemma FlattenOne(w: Walk, ws: seq<Walk>)
    ensures Flatten([w] + ws) == w.Nonces() + Flatten(ws)
  {
    assert ([w] + ws)[1..] == ws;
  }

  lemma FlattenExtend(v: u96, f: bool, ws: seq<Walk>)
    requires ws != [] && ws[0].start == (v + 1) % TWO96
    ensures Flatten(Extend(v, f, ws)) == [NonceOf(v)] + Flatten(ws)
  {
    hide NonceOf, Walk.Nonces;
    ExtendNonces(v, ws[0].length, f, ws[0].restart);
    FlattenOne(Walk(v, ws[0].length + 1, f), ws[1..]);
    assert ws[0] == Walk((v + 1) % TWO96, ws[0].length, ws[0].restart);
    assert ([NonceOf(v)] + ws[0].Nonces()) + Flatten(ws[1..]) == [NonceOf(v)] + Flatten(ws);
  }

  lemma StartOfNext(g: Gen)
    requires g.counter + 1 < TWO64
    ensures Start(g.(counter := g.counter + 1)) == (Start(g) + 1) % TWO96
  {
  }

  ghost predicate Bounded(ws: seq<Walk>) { forall w | w in ws :: w.length <= TWO64 }

  /** What a run hands out is the concatenation of its walks. */
  lemma {:induction false} RunIsItsWalks(g: Gen, calls: seq<Call>, restart: bool)
    ensures var ws := Walks(g, calls, restart);
            && Emitted(g, calls) == Flatten(ws)
            && ws[0].start == Start(g) && ws[0].restart == restart && ws[0].length <= TWO64 - g.counter
            && Bounded(ws)
    decreases |calls|
  {
    hide NonceOf, NonceValue, Start, Flatten, Walk.Nonces, Step, Classify, Record.Nonce;
    EmptyWalk(Start(g), restart);
    if calls == [] {
      FlattenOne(Walk(Start(g), 0, restart), []);
      assert [Walk(Start(g), 0, restart)] + [] == Walks(g, calls, restart);
    } else {
      var next := Step(g, calls[0]).1;
      var o := Classify(g, calls[0]);
      StepOutcome(g, calls[0]);
      var f := if o == Blocked then restart else o == WrapFailed;
      RunIsItsWalks(next, calls[1..], f);
      var ws := Walks(next, calls[1..], f);
      match o {
        case Blocked =>
        case Forked(r) =>
          StartOfNext(r);
          FlattenExtend(Start(r), false, ws);
          FlattenOne(Walk(Start(g), 0, restart), Extend(Start(r), false, ws));
        case Wrapped =>
          OneNonce(Start(g), restart);
          FlattenOne(Walk(Start(g), 1, restart), ws);
        case WrapFailed =>
          FlattenOne(Walk(Start(g), 0, restart), ws);
        case Plain =>
          StartOfNext(g);
          FlattenExtend(Start(g), restart, ws);
      }
    }
  }

  lemma EmptyWalk(v: u96, f: bool)
    ensures Walk(v, 0, f).Nonces() == [] && Flatten([]) == []
  {
  }

  lemma OneNonce(v: u96, f: bool)
    ensures Walk(v, 1, f).Nonces() == [NonceOf(v)]
  {
    hide NonceOf;
  }

  // ---------------------------------------------------------------------------
  // When walks overlap
  // ---------------------------------------------------------------------------

  ghost predicate Distinct(s: seq<Nonce>) { forall i, j | 0 <= i < j < |s| :: s[i] != s[j] }

  ghost predicate Apart(s: seq<Nonce>, t: seq<Nonce>) { forall i, j | 0 <= i < |s| && 0 <= j < |t| :: s[i] != t[j] }

  /** One of the two starts lies on the other walk. */
  predicate Overlap(v: Walk, w: Walk) {
    && v.length > 0 && w.length > 0
    && ((w.start - v.start) % TWO96 < v.length || (v.start - w.start) % TWO96 < w.length)
  }

  lemma Distance(a: u96, b: u96, i: nat, j: nat)
    requires (a + i) % TWO96 == (b + j) % TWO96 && j <= i
    ensures (b - a) % TWO96 <= i
  {
    var q := (a + i) / TWO96 - (b + j) / TWO96;
    assert b - a == (i - j) - TWO96 * q;
    ResidueBelow(i - j, q);
  }

  lemma ResidueBelow(d: nat, q: int)
    ensures (d - TWO96 * q) % TWO96 <= d
  {
    var k, r := d / TWO96, d % TWO96;
    assert d - TWO96 * q == TWO96 * (k - q) + r;
  }

  lemma Reaches(v: Walk, b: u96)
    ensures v.At((b - v.start) % TWO96) == b && v.At(0) == v.start
  {
  }

  lemma MeetingOverlaps(v: Walk, w: Walk, i: nat, j: nat)
    requires i < v.length && j < w.length && v.At(i) == w.At(j)
    ensures Overlap(v, w)
  {
    if j <= i { Distance(v.start, w.start, i, j); } else { Distance(w.start, v.start, j, i); }
  }

  /** Two walks reach a common number if and only if one of the two starts lies on the
      other walk. */
  lemma OverlapExactly(v: Walk, w: Walk)
    ensures Overlap(v, w) <==> exists i, j | 0 <= i < v.length && 0 <= j < w.length :: v.At(i) == w.At(j)
  {
    hide Walk.At;
    if Overlap(v, w) {
      Reaches(v, w.start);
      Reaches(w, v.start);
      if (w.start - v.start) % TWO96 < v.length {
        assert v.At((w.start - v.start) % TWO96) == w.At(0);
      } else {
        assert v.At(0) == w.At((v.start - w.start) % TWO96);
      }
    }
    if i, j :| 0 <= i < v.length && 0 <= j < w.length && v.At(i) == w.At(j) {
      MeetingOverlaps(v, w, i, j);
    }
  }

  /** Two walks share no nonce if and only if they do not overlap. */
  lemma WalksApart(v: Walk, w: Walk)
    ensures Apart(v.Nonces(), w.Nonces()) <==> !Overlap(v, w)
  {
    hide NonceOf, Overlap, Walk.At;
    var s, t := v.Nonces(), w.Nonces();
    OverlapExactly(v, w);
    forall i, j | 0 <= i < |s| && 0 <= j < |t| ensures s[i] == t[j] <==> v.At(i) == w.At(j) {
      NonceOfInjective(v.At(i), w.At(j));
    }
  }

  lemma WalkDistinct(w: Walk)
    requires w.length <= TWO96
    ensures Distinct(w.Nonces())
  {
    hide NonceOf;
    var s := w.Nonces();
    forall i, j | 0 <= i < j < |s| ensures s[i] != s[j] {
      NonceOfInjective(w.At(i), w.At(j));
      SmallShift(w.start, i, j);
    }
  }

  lemma DistinctConcat(s: seq<Nonce>, t: seq<Nonce>)
    ensures Distinct(s + t) <==> Distinct(s) && Distinct(t) && Apart(s, t)
  {
    var u := s + t;
    assert forall i | 0 <= i < |s| :: u[i] == s[i];
    assert forall j | 0 <= j < |t| :: t[j] == u[|s| + j];
    if Distinct(u) {
      forall i, j | 0 <= i < j < |t| ensures t[i] != t[j] {
        assert u[|s| + i] != u[|s| + j];
      }
      forall i, j | 0 <= i < |s| && 0 <= j < |t| ensures s[i] != t[j] {
        assert u[i] != u[|s| + j];
      }
    }
  }

  lemma ApartConcat(s: seq<Nonce>, t: seq<Nonce>, u: seq<Nonce>)
    ensures Apart(s, t + u) <==> Apart(s, t) && Apart(s, u)
  {
    assert forall j | 0 <= j < |t| :: (t + u)[j] == t[j];
    assert forall j | 0 <= j < |u| :: (t + u)[|t| + j] == u[j];
  }

  lemma {:induction false} ApartFromAll(w: Walk, ws: seq<Walk>)
    ensures Apart(w.Nonces(), Flatten(ws)) <==> forall v | v in ws :: !Overlap(w, v)
    decreases |ws|
  {
    hide Apart, Overlap, Walk.Nonces;
    if ws == [] {
      ApartFromNothing(w.Nonces());
    } else {
      ApartConcat(w.Nonces(), ws[0].Nonces(), Flatten(ws[1..]));
      WalksApart(w, ws[0]);
      ApartFromAll(w, ws[1..]);
      assert ws == [ws[0]] + ws[1..];
    }
  }

  lemma ApartFromNothing(s: seq<Nonce>)
    ensures Apart(s, [])
  {
  }

  /** No two walks of a run overlap. */
  ghost predicate Disjoint(ws: seq<Walk>) { forall i, j | 0 <= i < j < |ws| :: !Overlap(ws[i], ws[j]) }

  lemma {:induction false} DistinctIffDisjoint(ws: seq<Walk>)
    requires Bounded(ws)
    ensures Distinct(Flatten(ws)) <==> Disjoint(ws)
    decreases |ws|
  {
    hide Distinct, Apart, Overlap, Walk.Nonces;
    if ws == [] {
      NothingDistinct();
    } else {
      var rest := ws[1..];
      WalkDistinct(ws[0]);
      DistinctConcat(ws[0].Nonces(), Flatten(rest));
      ApartFromAll(ws[0], rest);
      DistinctIffDisjoint(rest);
      DisjointHead(ws);
    }
  }

  lemma NothingDistinct()
    ensures Distinct([])
  {
  }

  lemma DisjointHead(ws: seq<Walk>)
    requires ws != []
    ensures Disjoint(ws) <==> Disjoint(ws[1..]) && forall v | v in ws[1..] :: !Overlap(ws[0], v)
  {
    hide Overlap;
    var rest := ws[1..];
    if Disjoint(ws) {
      forall v | v in rest ensures !Overlap(ws[0], v) {
        var k :| 0 <= k < |rest| && rest[k] == v;
        assert ws[k + 1] == v;
      }
      forall i, j | 0 <= i < j < |rest| ensures !Overlap(rest[i], rest[j]) {
        assert rest[i] == ws[i + 1] && rest[j] == ws[j + 1];
      }
    }
    if Disjoint(rest) && forall v | v in rest :: !Overlap(ws[0], v) {
      forall i, j | 0 <= i < j < |ws| ensures !Overlap(ws[i], ws[j]) {
        assert ws[j] == rest[j - 1];
        if i > 0 { assert ws[i] == rest[i - 1]; }
      }
    }
  }

  /** From any state, with no assumption on entropy: the nonces of a run are pairwise
      distinct if and only if no two of its walks overlap. */
  lemma RunDistinctIffWalksDisjoint(g: Gen, calls: seq<Call>, restart: bool)
    ensures Distinct(Emitted(g, calls)) <==> Disjoint(Walks(g, calls, restart))
  {
    hide Distinct, Disjoint, Emitted, Walks, Flatten;
    RunIsItsWalks(g, calls, restart);
    DistinctIffDisjoint(Walks(g, calls, restart));
  }

  // ---------------------------------------------------------------------------
  // Restarts are reuses of a spent base
  // ---------------------------------------------------------------------------

  /** Some restart hands out a nonce. */
  predicate RestartUsed(ws: seq<Walk>)
    decreases |ws|
  {
    ws != [] && ((ws[0].restart && ws[0].length > 0) || RestartUsed(ws[1..]))
  }

  lemma {:induction false} ReusedIffRestartUsed(g: Gen, calls: seq<Call>, spent: bool)
    requires spent ==> g.counter == 0
    ensures Reused(g, calls, spent) <==> RestartUsed(Walks(g, calls, spent))
    decreases |calls|
  {
    hide Start, Step, Classify, SpentAfter, Reuses;
    if calls == [] {
      assert [Walk(Start(g), 0, spent)][1..] == [];
    } else {
      var next, o := Step(g, calls[0]).1, Classify(g, calls[0]);
      StepOutcome(g, calls[0]);
      SpentByOutcome(g, calls[0], spent);
      var spent' := SpentAfter(g, calls[0], spent);
      if !Reuses(g, calls[0], spent) {
        var ws, ws' := Walks(g, calls, spent), Walks(next, calls[1..], spent');
        ReusedIffRestartUsed(next, calls[1..], spent');
        HeadOfWalks(next, calls[1..], spent');
        match o {
          case Blocked =>
          case Forked(r) =>
            var e := Extend(Start(r), false, ws');
            assert ws[1..] == e && e[1..] == ws'[1..];
          case Wrapped => assert ws[1..] == ws';
          case WrapFailed => assert ws[1..] == ws';
          case Plain => assert ws[1..] == ws'[1..];
        }
      }
    }
  }

  /** A restart begins where the walk before it began, and that walk was a full one. */
  lemma {:induction false} RestartFollows(g: Gen, calls: seq<Call>, restart: bool, i: nat)
    requires 0 < i < |Walks(g, calls, restart)| && Walks(g, calls, restart)[i].restart
    ensures Follows(g, Walks(g, calls, restart), i)
    decreases |calls|
  {
    hide Step, Classify, Start, Emitted, Flatten, Follows, Walks, Extend;
    WalksUnfold(g, calls, restart);
    if calls != [] {
      var next, o := Step(g, calls[0]).1, Classify(g, calls[0]);
      StepOutcome(g, calls[0]);
      var f := if o == Blocked then restart else o == WrapFailed;
      var ws := Walks(next, calls[1..], f);
      HeadOfWalks(next, calls[1..], f);
      match o {
        case Blocked => RestartFollows(next, calls[1..], f, i);
        case Plain =>
          ExtendTail(Start(g), restart, ws);
          RestartFollows(next, calls[1..], f, i);
          FollowsExtended(g, Start(g), restart, ws, i);
        case Forked(r) =>
          ExtendTail(Start(r), false, ws);
          if i > 1 {
            RestartFollows(next, calls[1..], f, i - 1);
            FollowsExtended(r, Start(r), false, ws, i - 1);
            StartIs(r);
            FollowsPrepended(g, r, Walk(Start(g), 0, restart), Extend(Start(r), false, ws), i);
          }
        case Wrapped =>
          if i > 1 {
            RestartFollows(next, calls[1..], f, i - 1);
            FollowsPrepended(g, next, Walk(Start(g), 1, restart), ws, i);
          }
        case WrapFailed =>
          if i > 1 {
            RestartFollows(next, calls[1..], f, i - 1);
            FollowsPrepended(g, next, Walk(Start(g), 0, restart), ws, i);
          } else {
            FollowsAtOnce(g, Walk(Start(g), 0, restart), ws);
          }
      }
    }
  }

  lemma ExtendTail(v: u96, f: bool, ws: seq<Walk>)
    requires ws != []
    ensures var e := Extend(v, f, ws);
            |e| == |ws| && e[0] == Walk(v, ws[0].length + 1, f) && forall i | 0 < i < |ws| :: e[i] == ws[i]
  {
  }

  lemma WalksUnfold(g: Gen, calls: seq<Call>, restart: bool)
    ensures calls == [] ==> Walks(g, calls, restart) == [Walk(Start(g), 0, restart)]
    ensures calls != [] ==>
      var next, rest := Step(g, calls[0]).1, calls[1..];
      Walks(g, calls, restart) ==
        match Classify(g, calls[0])
        case Blocked => Walks(next, rest, restart)
        case Forked(r) => [Walk(Start(g), 0, restart)] + Extend(Start(r), false, Walks(next, rest, false))
        case Wrapped => [Walk(Start(g), 1, restart)] + Walks(next, rest, false)
        case WrapFailed => [Walk(Start(g), 0, restart)] + Walks(next, rest, true)
        case Plain => Extend(Start(g), restart, Walks(next, rest, false))
  {
    hide Step, Classify, Start, Extend;
  }

  /** Walk i is a restart of the walk before it, in the walks from g on. */
  predicate Follows(g: Gen, ws: seq<Walk>, i: nat)
    requires 0 < i < |ws|
  {
    if i == 1 then ws[0].length == TWO64 - 1 - g.counter && ws[1].start == g.base
    else ws[i - 1].start == ws[i].start && ws[i - 1].length == TWO64 - 1
  }

  lemma FollowsExtended(g: Gen, v: u96, f: bool, ws: seq<Walk>, i: nat)
    requires 0 < i < |ws| && g.counter + 1 < TWO64 && Follows(g.(counter := g.counter + 1), ws, i)
    ensures Follows(g, Extend(v, f, ws), i)
  {
  }

  lemma FollowsPrepended(g: Gen, next: Gen, w: Walk, ws: seq<Walk>, i: nat)
    requires 1 < i <= |ws| && next.counter == 0 && ws[0].start == next.base && Follows(next, ws, i - 1)
    ensures Follows(g, [w] + ws, i)
  {
  }

  lemma FollowsAtOnce(g: Gen, w: Walk, ws: seq<Walk>)
    requires ws != [] && g.counter == TWO64 - 1 && w.length == 0 && ws[0].start == g.base
    ensures Follows(g, [w] + ws, 1)
  {
  }

  lemma HeadOfWalks(g: Gen, calls: seq<Call>, restart: bool)
    ensures var w := Walks(g, calls, restart)[0];
            w.restart == restart && w.start == Start(g) && (g.counter == 0 ==> w.start == g.base)
  {
    RunIsItsWalks(g, calls, restart);
    StartIs(g);
  }

  lemma StartIs(g: Gen)
    ensures Start(g) == (g.base + g.counter) % TWO96
    ensures g.counter == 0 ==> Start(g) == g.base
  {
  }

  // ---------------------------------------------------------------------------
  // The run theorem
  // ---------------------------------------------------------------------------

  /** The ranges walked from drawn bases are pairwise disjoint. */
  ghost predicate DrawnRangesDisjoint(ws: seq<Walk>) {
    forall i, j | 0 <= i < j < |ws| && !ws[i].restart && !ws[j].restart :: !Overlap(ws[i], ws[j])
  }

  lemma {:induction false} RestartUsedAt(ws: seq<Walk>)
    ensures RestartUsed(ws) <==> exists i | 0 <= i < |ws| :: ws[i].restart && ws[i].length > 0
    decreases |ws|
  {
    if ws != [] {
      RestartUsedAt(ws[1..]);
      if RestartUsed(ws) && !(ws[0].restart && ws[0].length > 0) {
        var i :| 0 <= i < |ws[1..]| && ws[1..][i].restart && ws[1..][i].length > 0;
        assert ws[i + 1].restart;
      }
      if i :| 0 <= i < |ws| && ws[i].restart && ws[i].length > 0 {
        if i > 0 { assert ws[1..][i - 1].restart; }
      }
    }
  }

  lemma RestartsIdle(salt: u96, generation: nat, calls: seq<Call>)
    requires Disjoint(Walks(NewGen(salt, generation), calls, false))
    ensures !RestartUsed(Walks(NewGen(salt, generation), calls, false))
  {
    hide Walks, RestartUsed;
    var g := NewGen(salt, generation);
    var ws := Walks(g, calls, false);
    HeadOfWalks(g, calls, false);
    RestartUsedAt(ws);
    forall i | 0 <= i < |ws| && ws[i].restart ensures ws[i].length == 0 {
      RestartFollows(g, calls, false, i);
      assert !Overlap(ws[i - 1], ws[i]);
    }
  }

  lemma OnlyDrawnRangesMatter(ws: seq<Walk>)
    requires !RestartUsed(ws)
    ensures Disjoint(ws) <==> DrawnRangesDisjoint(ws)
  {
    hide RestartUsed;
    RestartUsedAt(ws);
    if DrawnRangesDisjoint(ws) {
      forall i, j | 0 <= i < j < |ws| ensures !Overlap(ws[i], ws[j]) {
        assert ws[i].restart ==> ws[i].length == 0;
        assert ws[j].restart ==> ws[j].length == 0;
      }
    }
  }

  /** All nonces of a run from the constructor, across all draws, are pairwise distinct
      if and only if no call goes on with a base whose wrap draw failed and the ranges
      walked from the drawn bases are pairwise disjoint. */
  lemma RunDistinctExactly(salt: u96, generation: nat, calls: seq<Call>)
    ensures var g := NewGen(salt, generation);
            Distinct(Emitted(g, calls))
            <==> !Reused(g, calls, false) && DrawnRangesDisjoint(Walks(g, calls, false))
  {
    hide Distinct, Disjoint, DrawnRangesDisjoint, Emitted, Walks, Reused, RestartUsed;
    var g := NewGen(salt, generation);
    var ws := Walks(g, calls, false);
    RunDistinctIffWalksDisjoint(g, calls, false);
    ReusedIffRestartUsed(g, calls, false);
    if Disjoint(ws) { RestartsIdle(salt, generation, calls); }
    if !RestartUsed(ws) { OnlyDrawnRangesMatter(ws); }
  }

  // ---------------------------------------------------------------------------
  // A redrawn base near the old one
  // ---------------------------------------------------------------------------

  lemma {:induction false} QuietWalk(g: Gen, n: nat, more: seq<Call>, restart: bool)
    requires g.counter + n < TWO64
    ensures var w := Walks(g.(counter := g.counter + n), more, if n == 0 then restart else false);
            Walks(g, Quiet(g.guard, n) + more, restart) == [Walk(Start(g), n + w[0].length, restart)] + w[1..]
    decreases n
  {
    hide Start, Step, Classify, Walks;
    var calls := Quiet(g.guard, n);
    if n == 0 {
      assert calls + more == more;
      RunIsItsWalks(g, more, restart);
    } else {
      var next := g.(counter := g.counter + 1);
      QuietStep(g);
      StepOutcome(g, calls[0]);
      assert calls[1..] == Quiet(g.guard, n - 1);
      assert (calls + more)[1..] == calls[1..] + more;
      WalksUnfold(g, calls + more, restart);
      QuietWalk(next, n - 1, more, false);
    }
  }

  lemma QuietStep(g: Gen)
    requires g.counter + 1 < TWO64
    ensures Classify(g, Call(g.guard, None, None)) == Plain
  {
  }

  /** Every nonce of one base and then one of the next: */
  function WholeBaseAndOne(generation: nat, redrawn: u96): seq<Call> {
    Quiet(generation, TWO64 - 1) + [Call(generation, None, Some(redrawn)), Call(generation, None, None)]
  }

  /** no draw fails, yet this run repeats a nonce if and only if the redrawn base lies
      in the range walked from the first. */
  lemma RedrawnBaseMayRepeat(salt: u96, generation: nat, redrawn: u96)
    ensures var g, calls := NewGen(salt, generation), WholeBaseAndOne(generation, redrawn);
            && !Reused(g, calls, false)
            && (Distinct(Emitted(g, calls)) <==> (redrawn - salt) % TWO96 >= TWO64)
  {
    hide Distinct, Emitted, Walks, Reused, Quiet;
    var g, calls := NewGen(salt, generation), WholeBaseAndOne(generation, redrawn);
    var last := g.(counter := TWO64 - 1);
    var more := [Call(generation, None, Some(redrawn)), Call(generation, None, None)];
    QuietWalk(g, TWO64 - 1, more, false);
    StartIs(g);
    LastWalks(last, redrawn);
    var ws := Walks(g, calls, false);
    assert ws == [Walk(salt, TWO64, false), Walk(redrawn, 1, false)];
    ReusedIffRestartUsed(g, calls, false);
    RestartUsedAt(ws);
    RunDistinctIffWalksDisjoint(g, calls, false);
    assert Disjoint(ws) <==> !Overlap(ws[0], ws[1]);
  }

  lemma LastWalks(g: Gen, redrawn: u96)
    requires g.counter == TWO64 - 1
    ensures Walks(g, [Call(g.guard, None, Some(redrawn)), Call(g.guard, None, None)], false)
         == [Walk(Start(g), 1, false), Walk(redrawn, 1, false)]
  {
    hide Start;
    var calls := [Call(g.guard, None, Some(redrawn)), Call(g.guard, None, None)];
    var next := Step(g, calls[0]).1;
    var end := Step(next, calls[1]).1;
    StartIs(next);
    assert calls[1..] == [calls[1]] && calls[1..][1..] == [];
    assert Walks(end, [], false) == [Walk(Start(end), 0, false)];
    assert Walks(next, calls[1..], false) == [Walk(redrawn, 1, false)];
  }

  // ---------------------------------------------------------------------------
  // The block cipher inputs of a run
  // ---------------------------------------------------------------------------

  /** The input at position i of a message: 0 masks the tag, the others are keystream. */
  function Input(nonce: Nonce, i: nat): Block { Advance(GcmLayout, J0(nonce), i) }

  ghost predicate Accepted(lens: seq<nat>) { forall m | 0 <= m < |lens| :: LengthsAccepted(0, lens[m]) }

  /** No block cipher input occurs twice over all positions of all messages. */
  ghost predicate InputsDistinct(nonces: seq<Nonce>, lens: seq<nat>)
    requires |nonces| == |lens|
  {
    forall m, i, m', i' |
      && 0 <= m < |lens| && 0 <= i <= BlockCount(lens[m])
      && 0 <= m' < |lens| && 0 <= i' <= BlockCount(lens[m'])
      && (m, i) != (m', i')
      :: Input(nonces[m], i) != Input(nonces[m'], i')
  }

  /** Over messages of accepted length under one key, no block cipher input occurs twice
      if and only if no nonce does. */
  lemma InputsDistinctIffNonces(nonces: seq<Nonce>, lens: seq<nat>)
    requires |nonces| == |lens| && Accepted(lens)
    ensures InputsDistinct(nonces, lens) <==> Distinct(nonces)
  {
    hide Input, BlockCount;
    if InputsDistinct(nonces, lens) {
      forall m, m' | 0 <= m < m' < |nonces| ensures nonces[m] != nonces[m'] {
        assert Input(nonces[m], 0) != Input(nonces[m'], 0);
      }
    }
    if Distinct(nonces) {
      forall m, i, m', i' |
        && 0 <= m < |lens| && 0 <= i <= BlockCount(lens[m])
        && 0 <= m' < |lens| && 0 <= i' <= BlockCount(lens[m'])
        && (m, i) != (m', i')
        ensures Input(nonces[m], i) != Input(nonces[m'], i')
      {
        InputsOfTwo(nonces[m], lens[m], i, nonces[m'], lens[m'], i');
        if m != m' {
          assert nonces[if m < m' then m else m'] != nonces[if m < m' then m' else m];
        }
      }
    }
  }

  lemma InputsOfTwo(nonce: Nonce, len: nat, i: nat, nonce': Nonce, len': nat, j: nat)
    requires len <= MAX_GCM_DATA_LEN && i <= BlockCount(len)
    requires len' <= MAX_GCM_DATA_LEN && j <= BlockCount(len')
    ensures Input(nonce, i) == Input(nonce', j) <==> nonce == nonce' && i == j
  {
    hide Advance, J0;
    InputsIdentifyThemselves(nonce, len, i, nonce', len', j);
  }

  /** When a run of the generator seals one accepted message with each nonce it hands
      out, no block cipher input occurs twice if and only if no call goes on with a base
      whose wrap draw failed and the ranges walked from the drawn bases are disjoint. */
  lemma RunInputsDistinctExactly(salt: u96, generation: nat, calls: seq<Call>, lens: seq<nat>)
    requires |lens| == |Emitted(NewGen(salt, generation), calls)| && Accepted(lens)
    ensures var g := NewGen(salt, generation);
            InputsDistinct(Emitted(g, calls), lens)
            <==> !Reused(g, calls, false) && DrawnRangesDisjoint(Walks(g, calls, false))
  {
    hide Distinct, InputsDistinct, DrawnRangesDisjoint, Emitted, Walks, Reused;
    InputsDistinctIffNonces(Emitted(NewGen(salt, generation), calls), lens);
    RunDistinctExactly(salt, generation, calls);
  }
}

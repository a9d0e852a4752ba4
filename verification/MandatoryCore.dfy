/**
  The mandatory core: a word proved to occur in every certified window, by a
  product of the live tables with the core's longest-prefix-suffix matcher.
 */
module MandatoryCore {
  import opened Options
  import opened Machine
  import opened SplitWindow
  import opened Counting
  import opened Suffixes

  /** The longest proper border of the core's first k bytes has length m. */
  ghost predicate IsFall(core: Word, k: nat, m: nat)
    requires 0 < k <= |core|
  {
    && m < k && Suffix(core[..m], core[..k])
    && forall n | m < n < k :: !Suffix(core[..n], core[..k])
  }

  /**
    The rows of the table hold, for each position and byte, the longest prefix the core's prefix and
    the byte end with.
   */
  ghost predicate IsMatcher(core: Word, table: seq<seq<nat>>) {
    && |table| <= |core|
    && (forall m | 0 <= m < |table| :: |table[m]| == 256)
    && (forall m, b: Byte | 0 <= m < |table| :: IsMatched(core, core[..m] + [b], table[m][b]))
  }

  ghost predicate AreFalls(core: Word, fall: seq<nat>) {
    |fall| <= |core| && forall k | 0 <= k < |fall| :: fall[k] <= k && IsFall(core, k + 1, fall[k])
  }

  /** A border of one byte more shortens to a border, so no longer than the candidate. */
  ghost predicate Candidate(core: Word, at: nat, matched: nat)
    requires 0 < at < |core|
  {
    && matched < at && Suffix(core[..matched], core[..at])
    && forall n | 0 < n <= at && Suffix(core[..n], core[..at + 1]) :: n - 1 <= matched
  }

  lemma {:induction false} FirstCandidate(core: Word, at: nat, matched: nat)
    requires 0 < at < |core| && IsFall(core, at, matched)
    ensures Candidate(core, at, matched)
  {
    assert core[..at + 1] == core[..at] + [core[at]];
    forall n | 0 < n <= at && Suffix(core[..n], core[..at + 1]) ensures n - 1 <= matched {
      SuffixSnoc(core, n, core[..at], core[at]);
    }
  }

  lemma {:induction false} NextCandidate(core: Word, at: nat, matched: nat, shorter: nat)
    requires 0 < at < |core| && Candidate(core, at, matched) && 0 < matched
    requires core[at] != core[matched] && IsFall(core, matched, shorter)
    ensures Candidate(core, at, shorter)
  {
    assert core[..at + 1] == core[..at] + [core[at]];
    SuffixOfSuffix(core, shorter, matched, core[..at]);
    forall n | 0 < n <= at && Suffix(core[..n], core[..at + 1]) ensures n - 1 <= shorter {
      SuffixSnoc(core, n, core[..at], core[at]);
      SuffixOfSuffix(core, n - 1, matched, core[..at]);
    }
  }

  lemma {:induction false} CandidateSettles(core: Word, at: nat, matched: nat)
    requires 0 < at < |core| && Candidate(core, at, matched)
    requires matched == 0 || core[at] == core[matched]
    ensures IsFall(core, at + 1, if core[at] == core[matched] then matched + 1 else matched)
  {
    assert core[..at + 1] == core[..at] + [core[at]];
    SuffixSnoc(core, matched + 1, core[..at], core[at]);
    SuffixSnoc(core, 1, core[..at], core[at]);
    assert core[..0] == [];
  }

  /** The next failure entry, found by falling back through the earlier ones. */
  method FallEntry(core: Word, fall: seq<nat>, at: nat) returns (matched: nat)
    requires 0 < at < |core| && |fall| == at && AreFalls(core, fall)
    ensures matched <= at && IsFall(core, at + 1, matched)
  {
    hide Suffix, IsFall;
    matched := fall[at - 1];
    assert IsFall(core, at - 1 + 1, fall[at - 1]);
    FirstCandidate(core, at, matched);
    while matched != 0 && core[at] != core[matched]
      invariant Candidate(core, at, matched)
    {
      assert IsFall(core, matched - 1 + 1, fall[matched - 1]);
      NextCandidate(core, at, matched, fall[matched - 1]);
      matched := fall[matched - 1];
    }
    CandidateSettles(core, at, matched);
    if core[at] == core[matched] {
      matched := matched + 1;
    }
  }

  /** The failure table: the longest proper border of each prefix of the core. */
  method Falls(core: Word) returns (fall: seq<nat>)
    requires core != []
    ensures |fall| == |core| && AreFalls(core, fall)
  {
    fall := [0];
    assert IsFall(core, 1, 0);
    hide IsFall;
    for at := 1 to |core|
      invariant |fall| == at && AreFalls(core, fall)
    {
      var matched := FallEntry(core, fall, at);
      fall := fall + [matched];
    }
  }

  /**
    Where the core does not go on with the byte, its prefixes end the word just as they end the
    border followed by it.
   */
  lemma {:induction false} FallsAlike(core: Word, at: nat, b: Byte, f: nat, n: nat)
    requires 0 < at < |core| && IsFall(core, at, f) && core[at] != b && 0 < n <= |core|
    ensures Suffix(core[..n], core[..at] + [b]) <==> Suffix(core[..n], core[..f] + [b])
  {
    SuffixSnoc(core, n, core[..at], b);
    SuffixSnoc(core, n, core[..f], b);
    if n - 1 <= f {
      SuffixOfSuffix(core, n - 1, f, core[..at]);
    }
  }

  /** One table entry, read off the core's own byte or the row fallen back to. */
  lemma {:induction false} MatcherEntry(core: Word, at: nat, b: Byte, f: nat, there: nat)
    requires at < |core|
    requires at > 0 ==> IsFall(core, at, f) && IsMatched(core, core[..f] + [b], there)
    ensures core[at] == b ==> IsMatched(core, core[..at] + [b], at + 1)
    ensures core[at] != b ==> IsMatched(core, core[..at] + [b], if at > 0 then there else 0)
  {
    var x := core[..at] + [b];
    assert Suffix(core[..0], x);
    if core[at] == b {
      assert core[..at + 1] == x;
    } else {
      forall n | 0 < n <= |core| ensures Suffix(core[..n], x) <==> at > 0 && Suffix(core[..n], core[..f] + [b]) {
        if at > 0 {
          FallsAlike(core, at, b, f, n);
        } else {
          SuffixSnoc(core, n, [], b);
          assert x == [] + [b];
        }
      }
      hide Suffix, IsFall;
    }
  }

  ghost predicate IsRow(core: Word, at: nat, row: seq<nat>, bytes: int)
    requires at <= |core|
  {
    |row| == bytes && forall b: Byte | b < bytes :: IsMatched(core, core[..at] + [b], row[b])
  }

  /** One row of the matcher, from the row of the position fallen back to. */
  method MatcherRow(core: Word, at: nat, f: nat, fallback: seq<nat>) returns (row: seq<nat>)
    requires at < |core| && (at > 0 ==> IsFall(core, at, f) && IsRow(core, f, fallback, 256))
    ensures IsRow(core, at, row, 256)
  {
    hide IsMatched, IsFall;
    row := [];
    for value: int := 0 to 256
      invariant IsRow(core, at, row, value)
    {
      var b: Byte := value;
      var there := if at > 0 then fallback[b] else 0;
      MatcherEntry(core, at, b, f, there);
      row := row + [if core[at] == b then at + 1 else there];
    }
  }

  /** The core's longest-prefix-suffix matcher, one row per position short of the whole core. */
  method CoreMatcher(core: Word) returns (table: seq<seq<nat>>)
    requires core != []
    ensures |table| == |core| && IsMatcher(core, table)
  {
    hide IsMatched, IsFall;
    var fall := Falls(core);
    table := [];
    for at := 0 to |core|
      invariant |table| == at && forall m | 0 <= m < at :: IsRow(core, m, table[m], 256)
    {
      var f := if at > 0 then fall[at - 1] else 0;
      assert at > 0 ==> IsFall(core, at - 1 + 1, f);
      var row := MatcherRow(core, at, f, if at > 0 then table[f] else []);
      table := table + [row];
    }
    forall m, b: Byte | 0 <= m < |table| ensures |table[m]| == 256 && IsMatched(core, core[..m] + [b], table[m][b]) {
      assert IsRow(core, m, table[m], 256);
    }
  }

  // ----- the proof search -----

  /** The live state a word leads to through live states alone. */
  function LiveRun(sim: Simulator, q: State, w: Word): Option<State> {
    if w == [] then Some(q)
    else
      match LiveRun(sim, q, w[..|w| - 1])
      case None => None
      case Some(p) => LiveStep(sim, p, w[|w| - 1])
  }

  lemma {:induction false} LiveRunSnoc(sim: Simulator, q: State, w: Word, b: Byte)
    ensures LiveRun(sim, q, w + [b]) == match LiveRun(sim, q, w) case None => None case Some(p) => LiveStep(sim, p, b)
  {
    assert (w + [b])[..|w|] == w;
  }

  /** No word avoiding the core kills the state, whatever byte follows it. */
  ghost predicate Proves(sim: Simulator, q: State, core: Word) {
    forall u: Word, b: Byte | !Contains(u, core) :: LiveRun(sim, q, u + [b]).Some?
  }

  /** The word avoids the core and leads to the live state, the matcher standing at m. */
  ghost predicate Reaches(sim: Simulator, q: State, core: Word, pair: (State, nat), u: Word) {
    !Contains(u, core) && LiveRun(sim, q, u) == Some(pair.0) && IsMatched(core, u, pair.1)
  }

  ghost predicate SomehowReached(sim: Simulator, q: State, core: Word, pair: (State, nat)) {
    exists u :: Reaches(sim, q, core, pair, u)
  }

  /** A word avoids the core, one byte further, exactly when the matcher stays short of it. */
  lemma {:induction false} AvoidsSnoc(core: Word, u: Word, b: Byte, n: nat)
    requires core != [] && !Contains(u, core) && IsMatched(core, u + [b], n)
    ensures Contains(u + [b], core) <==> n == |core|
  {
    var x := u + [b];
    if n == |core| {
      assert core[..n] == core;
      assert OccursAt(x, core, |x| - |core|);
    }
    if Contains(x, core) {
      var i: nat :| OccursAt(x, core, i);
      if i + |core| <= |u| {
        assert x[i..i + |core|] == u[i..i + |core|];
        assert OccursAt(u, core, i);
      }
      assert x[|x| - |core|..] == core && core[..|core|] == core;
      assert Suffix(core[..|core|], x);
    }
  }

  /** Some word of a core-avoiding prefix and one byte dies, so the core is not proved. */
  lemma {:induction false} DeathRefutes(sim: Simulator, q: State, core: Word, pair: (State, nat), b: Byte)
    requires SomehowReached(sim, q, core, pair) && LiveStep(sim, pair.0, b).None?
    ensures !Proves(sim, q, core)
  {
    var u :| Reaches(sim, q, core, pair, u);
    LiveRunSnoc(sim, q, u, b);
  }

  lemma {:induction false} ReachOneMore(
      sim: Simulator, q: State, core: Word, table: seq<seq<nat>>, pair: (State, nat), b: Byte)
    requires core != [] && |table| == |core| && IsMatcher(core, table)
    requires pair.1 < |core| && SomehowReached(sim, q, core, pair) && LiveStep(sim, pair.0, b).Some?
    requires table[pair.1][b] != |core|
    ensures table[pair.1][b] < |core|
    ensures SomehowReached(sim, q, core, (LiveStep(sim, pair.0, b).value, table[pair.1][b]))
    ensures (LiveStep(sim, pair.0, b).value, table[pair.1][b]) in Pairs(sim, core)
  {
    var u :| Reaches(sim, q, core, pair, u);
    var n := table[pair.1][b];
    assert IsMatched(core, core[..pair.1] + [b], n);
    MatchedForgets(core, u, pair.1, b, n);
    AvoidsSnoc(core, u, b, n);
    LiveRunSnoc(sim, q, u, b);
    assert Reaches(sim, q, core, (LiveStep(sim, pair.0, b).value, n), u + [b]);
  }

  /** Every byte out of the pair steps to a live state, and to a seen pair unless it completes the core. */
  ghost predicate Closed(
      sim: Simulator, core: Word, table: seq<seq<nat>>, seen: set<(State, nat)>, pair: (State, nat), bytes: int)
    requires |table| == |core| && IsMatcher(core, table) && pair.1 < |core|
  {
    forall b: Byte | b < bytes ::
      LiveStep(sim, pair.0, b).Some?
      && (table[pair.1][b] == |core| || (LiveStep(sim, pair.0, b).value, table[pair.1][b]) in seen)
  }

  /** Once every seen pair is closed, every core-avoiding word is live and stays in the seen pairs. */
  lemma {:induction false} ClosedHoldsAvoiders(
      sim: Simulator, q: State, core: Word, table: seq<seq<nat>>, seen: set<(State, nat)>, u: Word) returns (m: nat)
    requires core != [] && |table| == |core| && IsMatcher(core, table)
    requires (q, 0) in seen
    requires forall pair | pair in seen :: pair.1 < |core| && Closed(sim, core, table, seen, pair, 256)
    requires !Contains(u, core)
    ensures IsMatched(core, u, m) && LiveRun(sim, q, u).Some? && (LiveRun(sim, q, u).value, m) in seen
    decreases |u|
  {
    if u == [] {
      m := 0;
      assert core[..0] == [];
    } else {
      var front, b := u[..|u| - 1], u[|u| - 1];
      assert u == front + [b];
      if i: nat :| OccursAt(front, core, i) {
        assert OccursAt(u, core, i);
      }
      var before := ClosedHoldsAvoiders(sim, q, core, table, seen, front);
      var pair := (LiveRun(sim, q, front).value, before);
      assert Closed(sim, core, table, seen, pair, 256);
      m := table[before][b];
      assert IsMatched(core, core[..before] + [b], m);
      MatchedForgets(core, front, before, b, m);
      AvoidsSnoc(core, front, b, m);
      LiveRunSnoc(sim, q, front, b);
    }
  }

  /** The pairs a proof may visit: live states beside positions short of the whole core. */
  function Pairs(sim: Simulator, core: Word): set<(State, nat)> {
    set q, m | q in sim.live && m in Below(|core|) :: (q, m)
  }

  /** Every seen pair is in range and reached, and every one but those pending is closed. */
  ghost predicate Exploring(
      sim: Simulator, origin: State, core: Word, table: seq<seq<nat>>, seen: set<(State, nat)>,
      pending: set<(State, nat)>)
    requires |table| == |core| && IsMatcher(core, table)
  {
    && (origin, 0) in seen && pending <= seen <= Pairs(sim, core)
    && (forall pair | pair in seen :: pair.1 < |core| && SomehowReached(sim, origin, core, pair))
    && (forall pair | pair in seen - pending :: Closed(sim, core, table, seen, pair, 256))
  }

  lemma ClosedInMore(
      sim: Simulator, core: Word, table: seq<seq<nat>>, seen: set<(State, nat)>, more: set<(State, nat)>,
      pair: (State, nat), bytes: int)
    requires |table| == |core| && IsMatcher(core, table) && pair.1 < |core| && seen <= more
    requires Closed(sim, core, table, seen, pair, bytes)
    ensures Closed(sim, core, table, more, pair, bytes)
  {
  }

  /**
    Reads every byte from one pair: a dead byte refutes the core, any other is followed unless it
    completes the core.
   */
  method ExpandPair(
      sim: Simulator, origin: State, core: Word, table: seq<seq<nat>>, entry: set<(State, nat)>,
      queued: set<(State, nat)>, at: (State, nat))
    returns (alive: bool, seen: set<(State, nat)>, pending: set<(State, nat)>)
    requires core != [] && |table| == |core| && IsMatcher(core, table)
    requires at in entry && Exploring(sim, origin, core, table, entry, queued + {at})
    ensures !alive ==> !Proves(sim, origin, core)
    ensures alive ==> Exploring(sim, origin, core, table, seen, pending)
    ensures alive ==> entry < seen || (seen == entry && pending == queued)
  {
    hide IsMatched, SomehowReached, Proves, Pairs, LiveStep;
    seen, pending := entry, queued;
    for value: int := 0 to 256
      invariant entry <= seen && pending == queued + (seen - entry) && seen <= Pairs(sim, core)
      invariant forall pair | pair in seen :: pair.1 < |core| && SomehowReached(sim, origin, core, pair)
      invariant Closed(sim, core, table, seen, at, value)
    {
      var b: Byte := value;
      var to := LiveStep(sim, at.0, b);
      if to.None? {
        DeathRefutes(sim, origin, core, at, b);
        return false, seen, pending;
      }
      var next := table[at.1][b];
      ghost var before := seen;
      if next != |core| {
        ReachOneMore(sim, origin, core, table, at, b);
        if (to.value, next) !in seen {
          seen, pending := seen + {(to.value, next)}, pending + {(to.value, next)};
        }
      }
      ClosedInMore(sim, core, table, before, seen, at, value);
    }
    alive := true;
    forall pair | pair in seen - pending ensures Closed(sim, core, table, seen, pair, 256) {
      if pair != at {
        ClosedInMore(sim, core, table, entry, seen, pair, 256);
      }
    }
  }

  lemma TakenOut<T>(pending: set<T>, at: T)
    requires at in pending
    ensures pending - {at} + {at} == pending
  {
  }

  /** Explored to the end, the pairs show every core-avoiding word alive. */
  lemma {:induction false} ClosedProves(
      sim: Simulator, origin: State, core: Word, table: seq<seq<nat>>, seen: set<(State, nat)>)
    requires core != [] && |table| == |core| && IsMatcher(core, table)
    requires (origin, 0) in seen
    requires forall pair | pair in seen :: pair.1 < |core| && Closed(sim, core, table, seen, pair, 256)
    ensures Proves(sim, origin, core)
  {
    forall u: Word, b: Byte | !Contains(u, core) ensures LiveRun(sim, origin, u + [b]).Some? {
      var m := ClosedHoldsAvoiders(sim, origin, core, table, seen, u);
      assert Closed(sim, core, table, seen, (LiveRun(sim, origin, u).value, m), 256);
      LiveRunSnoc(sim, origin, u, b);
    }
  }

  lemma {:induction false} StartsExploring(sim: Simulator, origin: State, core: Word, table: seq<seq<nat>>)
    requires origin in sim.live && core != [] && |table| == |core| && IsMatcher(core, table)
    ensures Exploring(sim, origin, core, table, {(origin, 0)}, {(origin, 0)})
  {
    hide IsMatcher;
    assert core[..0] == [];
    assert Reaches(sim, origin, core, (origin, 0), []);
    hide Reaches;
  }

  lemma {:induction false} FewerLeft(
      sim: Simulator, origin: State, core: Word, table: seq<seq<nat>>, seen: set<(State, nat)>,
      more: set<(State, nat)>, queued: set<(State, nat)>)
    requires |table| == |core| && IsMatcher(core, table)
    requires Exploring(sim, origin, core, table, more, queued) && seen < more
    ensures Pairs(sim, core) - more < Pairs(sim, core) - seen
  {
    assert more <= Pairs(sim, core);
    hide *;
  }

  lemma {:induction false} ExploredProves(
      sim: Simulator, origin: State, core: Word, table: seq<seq<nat>>, seen: set<(State, nat)>)
    requires core != [] && |table| == |core| && IsMatcher(core, table)
    requires Exploring(sim, origin, core, table, seen, {})
    ensures Proves(sim, origin, core)
  {
    hide IsMatcher, Closed, SomehowReached, Proves;
    assert seen - {} == seen;
    ClosedProves(sim, origin, core, table, seen);
  }

  /**
    Decides, exactly, whether every core-avoiding word keeps the state alive
    through whatever byte follows: the core is a live state's forced exit.
   */
  method ProvesCore(sim: Simulator, origin: State, core: Word) returns (proved: bool)
    requires origin in sim.live && core != []
    ensures proved <==> Proves(sim, origin, core)
  {
    hide *;
    var table := CoreMatcher(core);
    var seen := {(origin, 0)};
    var pending := {(origin, 0)};
    StartsExploring(sim, origin, core, table);
    while pending != {}
      invariant Exploring(sim, origin, core, table, seen, pending)
      decreases Pairs(sim, core) - seen, pending
    {
      var at :| at in pending;
      TakenOut(pending, at);
      PendingSeen(sim, origin, core, table, seen, pending, at);
      var alive, more, queued := ExpandPair(sim, origin, core, table, seen, pending - {at}, at);
      if !alive {
        return false;
      }
      if seen < more {
        FewerLeft(sim, origin, core, table, seen, more, queued);
      }
      seen, pending := more, queued;
    }
    ExploredProves(sim, origin, core, table, seen);
    return true;
  }

  lemma PendingSeen(
      sim: Simulator, origin: State, core: Word, table: seq<seq<nat>>, seen: set<(State, nat)>,
      pending: set<(State, nat)>, at: (State, nat))
    requires |table| == |core| && IsMatcher(core, table)
    requires Exploring(sim, origin, core, table, seen, pending) && at in pending
    ensures at in seen
  {
  }

  // ----- what a proved core means for certified windows -----

  /** A state alive through the window keeps a hypothesis whose token began before it. */
  lemma {:induction false} SurvivorStaysBefore(sim: Simulator, q: State, w: Word)
    requires sim.Valid() && q in sim.live && (q == sim.dfa.init ==> sim.reentrant)
    requires LiveRun(sim, q, w).Some?
    ensures LiveRun(sim, q, w).value in sim.live
    ensures LiveRun(sim, q, w).value == sim.dfa.init ==> sim.reentrant
    ensures Hypothesis(LiveRun(sim, q, w).value, Before) in CloudAfter(sim, w)
  {
    if w != [] {
      var front, b := w[..|w| - 1], w[|w| - 1];
      SurvivorStaysBefore(sim, q, front);
      var p := LiveRun(sim, q, front).value;
      assert w == front + [b];
      CloudSnoc(sim, front, b);
      CloudKeeps(sim, CloudAfter(sim, front), Hypothesis(p, Before), b, |front|);
      ReentrantByStep(sim.dfa);
      assert sim.dfa.Reachable(p) && sim.dfa.Step(p, b) == LiveRun(sim, q, w);
    }
  }

  /** Every certified window holds the proved core, with at least one byte after it. */
  lemma {:induction false} CertifiedHoldsCore(sim: Simulator, q: State, core: Word, w: Word, o: nat)
    requires sim.Valid() && q in sim.live && (q == sim.dfa.init ==> sim.reentrant)
    requires Proves(sim, q, core) && Certifies(sim, w, o)
    ensures Contains(w[..|w| - 1], core)
  {
    var front, b := w[..|w| - 1], w[|w| - 1];
    assert w == front + [b];
    if !Contains(front, core) {
      assert LiveRun(sim, q, front + [b]).Some?;
      SurvivorStaysBefore(sim, q, w);
    }
  }
}

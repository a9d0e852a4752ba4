/**
  The repair profile of a tail: for every endpoint, the starts that every repair
  whose scan gets that far commits, and three repairs at most that decide them.
 */
module RepairProfile {
  import opened Options
  import opened Machine
  import opened Suffixes
  import opened Munch
  import opened Repairs
  import opened JumpForest
  import R = Recovery

  // ----- the last-accept recurrence -----

  /** Where the run from the state over the rest of the tail last accepts. */
  ghost predicate LastAt(d: Dfa, q: State, tail: Word, i: nat, last: Option<nat>)
    requires i <= |tail|
  {
    if last.Some? then RunEnds(d, q, tail, i, last.value)
    else forall k: nat | i <= k <= |tail| :: !d.AcceptsFrom(q, tail[i..k])
  }

  ghost predicate IsRow(d: Dfa, tail: Word, i: nat, row: seq<Option<nat>>)
    requires i <= |tail|
  {
    |row| == d.states && forall q: nat | q < d.states :: LastAt(d, q, tail, i, row[q])
  }

  lemma {:induction false} AcceptsAfterByte(d: Dfa, q: State, tail: Word, i: nat, k: nat)
    requires i < k <= |tail|
    ensures d.AcceptsFrom(q, tail[i..k])
       <==> d.Step(q, tail[i]).Some? && d.AcceptsFrom(d.Step(q, tail[i]).value, tail[i + 1..k])
  {
    d.RunByte(q, tail[i]);
    d.RunAppend(q, [tail[i]], tail[i + 1..k]);
    assert tail[i..k] == [tail[i]] + tail[i + 1..k];
  }

  /** The last accept of a state from that of the state its byte leads to. */
  function LastBefore(d: Dfa, q: State, i: nat, later: Option<nat>): Option<nat> {
    if later.Some? then later else if d.Accepting(q) then Some(i) else None
  }

  lemma {:induction false} RecurrenceHolds(d: Dfa, q: State, tail: Word, i: nat, later: Option<nat>)
    requires i < |tail|
    requires match d.Step(q, tail[i]) case None => later.None? case Some(next) => LastAt(d, next, tail, i + 1, later)
    ensures LastAt(d, q, tail, i, LastBefore(d, q, i, later))
  {
    forall k: nat | i < k <= |tail|
      ensures d.AcceptsFrom(q, tail[i..k])
         <==> d.Step(q, tail[i]).Some? && d.AcceptsFrom(d.Step(q, tail[i]).value, tail[i + 1..k])
    {
      AcceptsAfterByte(d, q, tail, i, k);
    }
    assert tail[i..i] == [];
    assert d.AcceptsFrom(q, tail[i..i]) <==> d.Accepting(q);
    hide Dfa.AcceptsFrom, Dfa.Step;
  }

  /** The row of one offset from the next one's. */
  method RowBefore(d: Dfa, tail: Word, i: nat, row: seq<Option<nat>>) returns (before: seq<Option<nat>>)
    requires d.Valid() && i < |tail| && IsRow(d, tail, i + 1, row)
    ensures IsRow(d, tail, i, before)
  {
    hide LastAt;
    before := [];
    for q := 0 to d.states
      invariant |before| == q && forall p: nat | p < q :: LastAt(d, p, tail, i, before[p])
    {
      var next := d.Step(q, tail[i]);
      assert next.Some? ==> (q, tail[i]) in d.delta && next.value < d.states;
      var later := if next.Some? then row[next.value] else None;
      RecurrenceHolds(d, q, tail, i, later);
      before := before + [LastBefore(d, q, i, later)];
    }
  }

  /** The jump table holds where every token of the tail ends. */
  ghost predicate IsJumps(d: Dfa, tail: Word, jump: Jumps) {
    && |jump| == |tail|
    && forall i: nat | i < |jump| :: JumpIs(d, tail, i, jump[i])
  }

  ghost predicate JumpIs(d: Dfa, tail: Word, i: nat, end: Option<nat>) {
    if end.Some? then TokenAt(d, tail, i, end.value) else Stuck(d, tail, i)
  }

  lemma {:induction false} LastIsJump(d: Dfa, tail: Word, i: nat, last: Option<nat>)
    requires i < |tail| && LastAt(d, d.init, tail, i, last)
    ensures JumpIs(d, tail, i, if last.Some? && last.value > i then last else None)
  {
    forall k: nat | i < k <= |tail| ensures MatchAt(d, tail, i, k) <==> d.AcceptsFrom(d.init, tail[i..k]) {
    }
    hide Dfa.AcceptsFrom, MatchAt;
    if last.Some? && last.value > i {
      forall k | last.value < k <= |tail| ensures !MatchAt(d, tail, i, k) {
        assert !d.AcceptsFrom(d.init, tail[i..k]);
      }
    }
  }

  lemma {:induction false} JumpsAreForest(d: Dfa, tail: Word, jump: Jumps)
    requires IsJumps(d, tail, jump)
    ensures IsForest(jump)
  {
    forall i: nat | i < |jump| && jump[i].Some? ensures i < jump[i].value <= |jump| {
      assert JumpIs(d, tail, i, jump[i]);
    }
  }

  /** The jump table and the first row, in two rolling rows. */
  method Recurrence(d: Dfa, tail: Word) returns (jump: Jumps, row: seq<Option<nat>>)
    requires d.Valid()
    ensures IsJumps(d, tail, jump) && IsRow(d, tail, 0, row)
  {
    hide LastAt, JumpIs;
    var m := |tail|;
    row := seq(d.states, q requires 0 <= q < d.states => if d.Accepting(q) then Some(m) else None);
    forall q: nat | q < d.states ensures LastAt(d, q, tail, m, row[q]) {
      LastAtEnd(d, q, tail);
    }
    jump := seq(m, _ => None);
    var i := m;
    while i > 0
      invariant i <= m == |jump| && IsRow(d, tail, i, row)
      invariant forall j: nat | i <= j < m :: JumpIs(d, tail, j, jump[j])
    {
      i := i - 1;
      row := RowBefore(d, tail, i, row);
      var last := row[d.init];
      assert LastAt(d, d.init, tail, i, last);
      LastIsJump(d, tail, i, last);
      jump := jump[i := if last.Some? && last.value > i then last else None];
    }
  }

  lemma {:induction false} LastAtEnd(d: Dfa, q: State, tail: Word)
    ensures LastAt(d, q, tail, |tail|, if d.Accepting(q) then Some(|tail|) else None)
  {
    assert tail[|tail|..|tail|] == [];
  }

  // ----- what a chain is in the forest -----

  lemma {:induction false} ChainIsPath(d: Dfa, tail: Word, jump: Jumps, a: nat, chain: seq<nat>)
    requires IsJumps(d, tail, jump) && IsForest(jump) && Commits(d, tail, a, chain)
    ensures Last(chain) == Terminal(jump, a)
    ensures forall p: nat :: p in Starts(chain) <==> StartOn(jump, a, p)
    decreases |chain|
  {
    StuckAtOnce(d, tail, a, chain);
    if |chain| == 1 {
      assert a < |jump| ==> JumpIs(d, tail, a, jump[a]);
    } else {
      assert TokenAt(d, tail, chain[0], chain[1]);
      assert JumpIs(d, tail, a, jump[a]);
      CommitsTail(d, tail, a, chain, 1);
      NextIs(d, tail, a, jump[a], chain[1]);
      hide Commits, TokenAt, Stuck;
      ChainIsPath(d, tail, jump, chain[1], chain[1..]);
      assert Starts(chain) == [a] + Starts(chain[1..]);
    }
  }

  lemma {:induction false} NextIs(d: Dfa, tail: Word, a: nat, end: Option<nat>, next: nat)
    requires JumpIs(d, tail, a, end) && TokenAt(d, tail, a, next)
    ensures end == Some(next)
  {
    if end.Some? {
      TokenEndUnique(d, tail, a, end.value, next);
    }
  }

  lemma {:induction false} ChainExists(d: Dfa, tail: Word, jump: Jumps, a: nat) returns (chain: seq<nat>)
    requires IsJumps(d, tail, jump) && IsForest(jump) && a <= |tail|
    ensures Commits(d, tail, a, chain)
    decreases |tail| - a
  {
    if a < |jump| && jump[a].Some? {
      assert JumpIs(d, tail, a, jump[a]);
      chain := ChainExists(d, tail, jump, jump[a].value);
      CommitsCons(d, tail, a, chain);
      chain := [a] + chain;
    } else {
      assert a < |jump| ==> JumpIs(d, tail, a, jump[a]);
      chain := [a];
    }
  }

  // ----- what repairs observe -----

  /** The scan of the repaired input commits tokens up to h inside the tail, or further. */
  ghost predicate Reaches(d: Dfa, r: Word, tail: Word, h: nat) {
    exists cuts: seq<nat> :: Commits(d, r + tail, 0, cuts) && Last(cuts) >= |r| + h
  }

  /** A token committed by the scan of the repaired input begins at the tail's position. */
  ghost predicate StartsAt(d: Dfa, r: Word, tail: Word, p: nat) {
    exists cuts :: Commits(d, r + tail, 0, cuts) && |r| + p in Starts(cuts)
  }

  /** The starts that every repair reaching h commits. */
  ghost predicate Invariant(d: Dfa, tail: Word, h: nat, p: nat) {
    forall r | Reaches(d, r, tail, h) :: StartsAt(d, r, tail, p)
  }

  /** The repair's scan enters the forest there. */
  ghost predicate Observed(d: Dfa, r: Word, tail: Word, jump: Jumps, first: nat)
    requires IsForest(jump)
  {
    && (forall h: nat :: Reaches(d, r, tail, h) <==> h <= Terminal(jump, first))
    && forall p: nat :: StartsAt(d, r, tail, p) <==> StartOn(jump, first, p)
  }

  lemma {:induction false} ObservesPath(
      d: Dfa, r: Word, tail: Word, jump: Jumps, first: nat, cuts: seq<nat>, chain: seq<nat>)
    requires IsJumps(d, tail, jump) && IsForest(jump)
    requires Commits(d, r + tail, 0, cuts) && Commits(d, tail, first, chain) && SameInside(|r|, cuts, chain)
    ensures Observed(d, r, tail, jump, first)
  {
    ChainIsPath(d, tail, jump, first, chain);
    hide Commits, StartOn, Terminal, IsJumps, IsForest;
    forall h: nat ensures Reaches(d, r, tail, h) <==> h <= Terminal(jump, first) {
      if other: seq<nat> :| Commits(d, r + tail, 0, other) && Last(other) >= |r| + h {
        CommitsUnique(d, r + tail, 0, cuts, other);
      }
    }
    forall p: nat ensures StartsAt(d, r, tail, p) <==> StartOn(jump, first, p) {
      if other :| Commits(d, r + tail, 0, other) && |r| + p in Starts(other) {
        CommitsUnique(d, r + tail, 0, cuts, other);
      }
    }
  }

  /** A representative repair, and where its scan enters the forest. */
  datatype Scenario = Scenario(via: Word, first: nat)

  ghost predicate IsScenario(d: Dfa, tail: Word, s: Scenario) {
    Enters(d, s.via, tail, s.first) && s.first <= |tail|
  }

  /** Some scenario enters there with no longer a word. */
  ghost predicate Represented(scenarios: seq<Scenario>, first: nat, length: nat) {
    exists i: nat :: i < |scenarios| && scenarios[i].first == first && |scenarios[i].via| <= length
  }

  ghost predicate AreScenarios(d: Dfa, tail: Word, scenarios: seq<Scenario>) {
    && (forall i: nat | i < |scenarios| :: IsScenario(d, tail, scenarios[i]))
    && forall via, first: nat | Enters(d, via, tail, first) :: Represented(scenarios, first, |via|)
  }

  ghost predicate EntryCovered(d: Dfa, tail: Word, seen: map<State, Word>, scenarios: seq<Scenario>, q: State) {
    q in seen ==> forall first: nat | RunEnds(d, q, tail, 0, first) :: Represented(scenarios, first, |seen[q]|)
  }

  lemma {:induction false} CoveredMore(
      d: Dfa, tail: Word, seen: map<State, Word>, scenarios: seq<Scenario>, more: seq<Scenario>, q: State)
    requires EntryCovered(d, tail, seen, scenarios, q) && scenarios <= more
    ensures EntryCovered(d, tail, seen, more, q)
  {
    hide RunEnds;
    forall first: nat | q in seen && RunEnds(d, q, tail, 0, first) ensures Represented(more, first, |seen[q]|) {
      var i: nat :| i < |scenarios| && scenarios[i].first == first && |scenarios[i].via| <= |seen[q]|;
      assert more[i] == scenarios[i];
    }
  }

  lemma {:induction false} CoveredOne(
      d: Dfa, tail: Word, row: seq<Option<nat>>, seen: map<State, Word>, scenarios: seq<Scenario>, q: State)
    requires IsRow(d, tail, 0, row) && q < d.states
    requires q in seen && row[q].Some? ==>
      scenarios != [] && scenarios[|scenarios| - 1] == Scenario(seen[q], row[q].value)
    ensures EntryCovered(d, tail, seen, scenarios, q)
  {
    assert LastAt(d, q, tail, 0, row[q]);
    hide Dfa.AcceptsFrom;
    forall first: nat | q in seen && RunEnds(d, q, tail, 0, first) ensures Represented(scenarios, first, |seen[q]|) {
      assert row[q] == Some(first);
    }
  }

  /** One scenario per way to enter the tail: between tokens, or in a state from which a token could end in it. */
  method Scenarios(d: Dfa, tail: Word, row: seq<Option<nat>>) returns (scenarios: seq<Scenario>)
    requires d.Valid() && IsRow(d, tail, 0, row)
    ensures AreScenarios(d, tail, scenarios) && scenarios != []
  {
    hide Dfa.Run, EntryCovered, IsScenario, LastAt;
    var seen := R.CrossingEntries(d);
    scenarios := [Scenario([], 0)];
    EmptyScenario(d, tail);
    for q := 0 to d.states
      invariant scenarios != [] && scenarios[0] == Scenario([], 0)
      invariant forall i: nat | i < |scenarios| :: IsScenario(d, tail, scenarios[i])
      invariant forall p | 0 <= p < q :: EntryCovered(d, tail, seen, scenarios, p)
    {
      ghost var before := scenarios;
      if q in seen && row[q].Some? {
        scenarios := scenarios + [Scenario(seen[q], row[q].value)];
        assert R.Shortest(d, q, seen[q]) && LastAt(d, q, tail, 0, row[q]);
        EntryScenario(d, tail, q, seen[q], row[q]);
      }
      CoveredOne(d, tail, row, seen, scenarios, q);
      forall p | 0 <= p < q ensures EntryCovered(d, tail, seen, scenarios, p) {
        CoveredMore(d, tail, seen, before, scenarios, p);
      }
    }
    forall via, first: nat | Enters(d, via, tail, first) ensures Represented(scenarios, first, |via|) {
      EntryRepresented(d, tail, seen, scenarios, via, first);
    }
  }

  lemma EmptyScenario(d: Dfa, tail: Word)
    ensures IsScenario(d, tail, Scenario([], 0))
  {
  }

  lemma {:induction false} EntryScenario(d: Dfa, tail: Word, q: State, via: Word, last: Option<nat>)
    requires via != [] && d.Run(d.init, via) == Some(q) && last.Some? && LastAt(d, q, tail, 0, last)
    ensures IsScenario(d, tail, Scenario(via, last.value))
  {
    hide Dfa.Run;
  }

  lemma {:induction false} EntryRepresented(
      d: Dfa, tail: Word, seen: map<State, Word>, scenarios: seq<Scenario>, via: Word, first: nat)
    requires Enters(d, via, tail, first) && scenarios != [] && scenarios[0] == Scenario([], 0)
    requires forall q | q in seen :: R.Shortest(d, q, seen[q]) && q < d.states
    requires forall w | w != [] && d.Run(d.init, w).Some? :: d.Run(d.init, w).value in seen
    requires forall p | 0 <= p < d.states :: EntryCovered(d, tail, seen, scenarios, p)
    ensures Represented(scenarios, first, |via|)
  {
    hide RunEnds, Dfa.Run;
    if via != [] {
      var q := d.Run(d.init, via).value;
      assert EntryCovered(d, tail, seen, scenarios, q);
      assert R.Shortest(d, q, seen[q]);
      var i: nat :| i < |scenarios| && scenarios[i].first == first && |scenarios[i].via| <= |seen[q]|;
      assert |scenarios[i].via| <= |via|;
    }
  }

  lemma {:induction false} ReachingCuts(d: Dfa, r: Word, tail: Word, h: nat) returns (cuts: seq<nat>)
    requires Reaches(d, r, tail, h)
    ensures cuts != [] && Commits(d, r + tail, 0, cuts) && Last(cuts) >= |r| + h
  {
    var reaching: seq<nat> :| Commits(d, r + tail, 0, reaching) && Last(reaching) >= |r| + h;
    cuts := reaching;
  }

  /** A scenario's word is a repair that its entry describes. */
  lemma {:induction false} ScenarioObserved(d: Dfa, tail: Word, jump: Jumps, s: Scenario)
    requires IsJumps(d, tail, jump) && IsForest(jump) && IsScenario(d, tail, s)
    ensures Observed(d, s.via, tail, jump, s.first)
  {
    hide IsJumps, IsForest, Commits, SameInside, Enters, Observed;
    assert s.first <= |tail|;
    var chain := ChainExists(d, tail, jump, s.first);
    var cuts := EntryRepairs(d, s.via, tail, s.first, chain);
    ObservesPath(d, s.via, tail, jump, s.first, cuts, chain);
  }

  /**
    Every repair whose scan gets into the tail is described by some scenario's entry, the scenario's
    word no longer.
   */
  lemma {:induction false} RepairObserved(d: Dfa, tail: Word, jump: Jumps, scenarios: seq<Scenario>, r: Word)
    returns (i: nat)
    requires IsJumps(d, tail, jump) && IsForest(jump) && AreScenarios(d, tail, scenarios) && Reaches(d, r, tail, 0)
    ensures i < |scenarios| && |scenarios[i].via| <= |r| && Observed(d, r, tail, jump, scenarios[i].first)
  {
    hide IsJumps, IsForest, Commits, SameInside, Enters, Observed;
    var cuts := ReachingCuts(d, r, tail, 0);
    var via, first, chain := RepairEnters(d, r, tail, cuts);
    ObservesPath(d, r, tail, jump, first, cuts, chain);
    assert Represented(scenarios, first, |via|);
    i :| i < |scenarios| && scenarios[i].first == first && |scenarios[i].via| <= |via|;
  }

  // ----- the endpoints and the invariants, over the scenarios -----

  ghost predicate ScenarioReaches(jump: Jumps, s: Scenario, h: nat)
    requires IsForest(jump)
  {
    h <= Terminal(jump, s.first)
  }

  /** The starts every scenario reaching h has. */
  ghost predicate InvariantOf(jump: Jumps, scenarios: seq<Scenario>, h: nat, p: nat)
    requires IsForest(jump)
  {
    forall i: nat | i < |scenarios| && ScenarioReaches(jump, scenarios[i], h) :: StartOn(jump, scenarios[i].first, p)
  }

  ghost predicate SomeReaches(jump: Jumps, scenarios: seq<Scenario>, h: nat)
    requires IsForest(jump)
  {
    exists i: nat :: i < |scenarios| && ScenarioReaches(jump, scenarios[i], h)
  }

  lemma {:induction false} ReachesLess(d: Dfa, r: Word, tail: Word, h: nat)
    requires Reaches(d, r, tail, h)
    ensures Reaches(d, r, tail, 0)
  {
    var cuts := ReachingCuts(d, r, tail, h);
    assert Last(cuts) >= |r| + 0;
  }

  /** The scenarios decide every endpoint and every start for all repairs. */
  lemma {:induction false} ScenariosDecide(d: Dfa, tail: Word, jump: Jumps, scenarios: seq<Scenario>, h: nat, p: nat)
    requires IsJumps(d, tail, jump) && IsForest(jump) && AreScenarios(d, tail, scenarios)
    ensures SomeReaches(jump, scenarios, h) <==> exists r :: Reaches(d, r, tail, h)
    ensures InvariantOf(jump, scenarios, h, p) <==> Invariant(d, tail, h, p)
  {
    hide IsJumps, IsForest, Reaches, StartsAt, StartOn, Terminal, Enters;
    forall i: nat | i < |scenarios| ensures Observed(d, scenarios[i].via, tail, jump, scenarios[i].first) {
      assert IsScenario(d, tail, scenarios[i]);
      ScenarioObserved(d, tail, jump, scenarios[i]);
    }
    forall r | Reaches(d, r, tail, h)
      ensures exists i: nat :: i < |scenarios| && Observed(d, r, tail, jump, scenarios[i].first)
    {
      ReachesLess(d, r, tail, h);
      var i := RepairObserved(d, tail, jump, scenarios, r);
    }
    DecidedReach(d, tail, jump, scenarios, h);
    DecidedInvariant(d, tail, jump, scenarios, h, p);
  }

  lemma {:induction false} DecidedReach(d: Dfa, tail: Word, jump: Jumps, scenarios: seq<Scenario>, h: nat)
    requires IsForest(jump)
    requires forall i: nat | i < |scenarios| :: Observed(d, scenarios[i].via, tail, jump, scenarios[i].first)
    requires forall r | Reaches(d, r, tail, h) :: exists i: nat ::
      i < |scenarios| && Observed(d, r, tail, jump, scenarios[i].first)
    ensures SomeReaches(jump, scenarios, h) <==> exists r :: Reaches(d, r, tail, h)
  {
    hide IsForest, Reaches, StartsAt, StartOn, Terminal;
    if SomeReaches(jump, scenarios, h) {
      var i: nat :| i < |scenarios| && ScenarioReaches(jump, scenarios[i], h);
      assert Reaches(d, scenarios[i].via, tail, h);
    }
    if r :| Reaches(d, r, tail, h) {
      var i: nat :| i < |scenarios| && Observed(d, r, tail, jump, scenarios[i].first);
      assert ScenarioReaches(jump, scenarios[i], h);
    }
  }

  lemma {:induction false} DecidedInvariant(d: Dfa, tail: Word, jump: Jumps, scenarios: seq<Scenario>, h: nat, p: nat)
    requires IsForest(jump)
    requires forall i: nat | i < |scenarios| :: Observed(d, scenarios[i].via, tail, jump, scenarios[i].first)
    requires forall r | Reaches(d, r, tail, h) :: exists i: nat ::
      i < |scenarios| && Observed(d, r, tail, jump, scenarios[i].first)
    ensures InvariantOf(jump, scenarios, h, p) <==> Invariant(d, tail, h, p)
  {
    hide IsForest, Reaches, StartsAt, StartOn, Terminal;
    if InvariantOf(jump, scenarios, h, p) {
      forall r | Reaches(d, r, tail, h) ensures StartsAt(d, r, tail, p) {
        var i: nat :| i < |scenarios| && Observed(d, r, tail, jump, scenarios[i].first);
        assert ScenarioReaches(jump, scenarios[i], h);
      }
    }
    if Invariant(d, tail, h, p) {
      forall i: nat | i < |scenarios| && ScenarioReaches(jump, scenarios[i], h)
        ensures StartOn(jump, scenarios[i].first, p)
      {
        assert Reaches(d, scenarios[i].via, tail, h);
      }
    }
  }

  // ----- the profile -----

  /**
    The furthest endpoint, the next one where it lies inside the tail, the starts
    from where the paths to the furthest meet, and the scenarios of the basis.
   */
  datatype Profile = Profile(furthest: nat, second: nat, common: set<nat>, basis: seq<nat>) {
    /** The starts at an endpoint inside the tail; nothing where no repair reaches it. */
    function Invariants(h: nat): Option<set<nat>> {
      if h > furthest then None else if h <= second then Some({}) else Some(common)
    }
  }

  /** The furthest terminal of any scenario, and the next one, zero where there is none past the tail's first byte. */
  ghost predicate AreEndpoints(jump: Jumps, scenarios: seq<Scenario>, furthest: nat, second: nat)
    requires IsForest(jump)
  {
    && (exists i: nat :: i < |scenarios| && Terminal(jump, scenarios[i].first) == furthest)
    && second < furthest + 1 && (second > 0 ==> second < furthest)
    && (second > 0 ==> exists i: nat :: i < |scenarios| && Terminal(jump, scenarios[i].first) == second)
    && forall i: nat | i < |scenarios| ::
      Terminal(jump, scenarios[i].first) == furthest || Terminal(jump, scenarios[i].first) <= second
  }

  method Endpoints(jump: Jumps, terminal: seq<nat>, scenarios: seq<Scenario>) returns (furthest: nat, second: nat)
    requires IsForest(jump) && scenarios != [] && |terminal| == |jump| + 1
    requires forall i: nat | i <= |jump| :: terminal[i] == Terminal(jump, i)
    requires forall i: nat | i < |scenarios| :: scenarios[i].first <= |jump|
    ensures AreEndpoints(jump, scenarios, furthest, second)
  {
    hide Terminal, IsForest;
    furthest, second := terminal[scenarios[0].first], 0;
    for i := 1 to |scenarios|
      invariant AreEndpoints(jump, scenarios[..i], furthest, second)
    {
      var t := terminal[scenarios[i].first];
      ghost var before, f, s := scenarios[..i], furthest, second;
      if t > furthest {
        furthest, second := t, furthest;
      } else if t < furthest && t > second {
        second := t;
      }
      EndpointsMore(jump, before, scenarios[i], f, s, furthest, second);
      assert scenarios[..i + 1] == before + [scenarios[i]];
    }
    assert scenarios[..|scenarios|] == scenarios;
  }

  lemma {:induction false} EndpointsMore(
      jump: Jumps, before: seq<Scenario>, s: Scenario, furthest: nat, second: nat, further: nat, next: nat)
    requires IsForest(jump) && AreEndpoints(jump, before, furthest, second)
    requires var t := Terminal(jump, s.first);
      if t > furthest then further == t && next == furthest
      else further == furthest && next == if t < furthest && t > second then t else second
    ensures AreEndpoints(jump, before + [s], further, next)
  {
    hide Terminal, IsForest;
    var all := before + [s];
    assert all[|before|] == s;
    var i: nat :| i < |before| && Terminal(jump, before[i].first) == furthest;
    assert all[i] == before[i];
    if second > 0 {
      var j: nat :| j < |before| && Terminal(jump, before[j].first) == second;
      assert all[j] == before[j];
    }
  }

  /** The scenarios that reach the furthest endpoint. */
  method Maximal(jump: Jumps, terminal: seq<nat>, scenarios: seq<Scenario>, furthest: nat) returns (maximal: seq<nat>)
    requires IsForest(jump) && |terminal| == |jump| + 1
    requires forall i: nat | i <= |jump| :: terminal[i] == Terminal(jump, i)
    requires forall i: nat | i < |scenarios| :: scenarios[i].first <= |jump|
    ensures forall k: nat | k < |maximal| ::
      maximal[k] < |scenarios| && Terminal(jump, scenarios[maximal[k]].first) == furthest
    ensures forall i: nat | i < |scenarios| && Terminal(jump, scenarios[i].first) == furthest :: i in maximal
  {
    hide Terminal, IsForest;
    maximal := [];
    for i := 0 to |scenarios|
      invariant forall k: nat | k < |maximal| ::
        maximal[k] < i && Terminal(jump, scenarios[maximal[k]].first) == furthest
      invariant forall j: nat | j < i && Terminal(jump, scenarios[j].first) == furthest :: j in maximal
    {
      if terminal[scenarios[i].first] == furthest {
        maximal := maximal + [i];
      }
    }
  }

  /** The entries of the maximal scenarios. */
  function EntriesOf(scenarios: seq<Scenario>, maximal: seq<nat>): seq<nat>
    requires forall k: nat | k < |maximal| :: maximal[k] < |scenarios|
  {
    seq(|maximal|, k requires 0 <= k < |maximal| => scenarios[maximal[k]].first)
  }

  /**
    The profile decides the invariant starts of every endpoint inside the tail, and so do the
    scenarios of its basis.
   */
  ghost predicate Decides(jump: Jumps, scenarios: seq<Scenario>, profile: Profile, h: nat)
    requires IsForest(jump) && forall k: nat | k < |profile.basis| :: profile.basis[k] < |scenarios|
  {
    var answer := profile.Invariants(h);
    && (answer.Some? <==> SomeReaches(jump, scenarios, h))
    && (answer.Some? <==> SomeReaches(jump, Chosen(scenarios, profile.basis), h))
    && (answer.Some? ==> forall p: nat :: p in answer.value <==> InvariantOf(jump, scenarios, h, p))
    && (answer.Some? ==> forall p: nat ::
      p in answer.value <==> InvariantOf(jump, Chosen(scenarios, profile.basis), h, p))
  }

  function Chosen(scenarios: seq<Scenario>, basis: seq<nat>): seq<Scenario>
    requires forall k: nat | k < |basis| :: basis[k] < |scenarios|
  {
    seq(|basis|, k requires 0 <= k < |basis| => scenarios[basis[k]])
  }

  /**
    What a set of scenarios needs to decide as the profile does: the furthest paths meeting at g,
    and the next endpoint.
   */
  ghost predicate Spans(jump: Jumps, some: seq<Scenario>, furthest: nat, second: nat, g: nat)
    requires IsForest(jump)
  {
    && AreEndpoints(jump, some, furthest, second)
    && forall p: nat :: StartOn(jump, g, p) <==>
         forall i: nat | i < |some| && Terminal(jump, some[i].first) == furthest :: StartOn(jump, some[i].first, p)
  }

  lemma {:induction false} SpanDecides(jump: Jumps, some: seq<Scenario>, profile: Profile, g: nat, h: nat)
    requires IsForest(jump) && Spans(jump, some, profile.furthest, profile.second, g) && h > 0
    requires forall p: nat :: p in profile.common <==> StartOn(jump, g, p)
    ensures profile.Invariants(h).Some? <==> SomeReaches(jump, some, h)
    ensures profile.Invariants(h).Some? ==>
      forall p: nat :: p in profile.Invariants(h).value <==> InvariantOf(jump, some, h, p)
  {
    hide Terminal, IsForest, StartOn;
    var furthest, second := profile.furthest, profile.second;
    var i: nat :| i < |some| && Terminal(jump, some[i].first) == furthest;
    assert h <= furthest ==> ScenarioReaches(jump, some[i], h);
    if h <= second {
      var j: nat :| j < |some| && Terminal(jump, some[j].first) == second;
      forall p: nat ensures !InvariantOf(jump, some, h, p) {
        SharedNowhere(jump, some, i, j, h, p);
      }
    } else if h <= furthest {
      forall p: nat ensures StartOn(jump, g, p) <==> InvariantOf(jump, some, h, p) {
        FurthestOnly(jump, some, furthest, second, h, p);
      }
    }
  }

  lemma {:induction false} SharedNowhere(jump: Jumps, some: seq<Scenario>, i: nat, j: nat, h: nat, p: nat)
    requires IsForest(jump) && i < |some| && j < |some|
    requires Terminal(jump, some[i].first) != Terminal(jump, some[j].first)
    requires ScenarioReaches(jump, some[i], h) && ScenarioReaches(jump, some[j], h)
    ensures !InvariantOf(jump, some, h, p)
  {
    DifferentTerminals(jump, some[i].first, some[j].first, p);
    hide On;
  }

  lemma {:induction false} FurthestOnly(jump: Jumps, some: seq<Scenario>, furthest: nat, second: nat, h: nat, p: nat)
    requires IsForest(jump) && AreEndpoints(jump, some, furthest, second) && second < h <= furthest
    ensures InvariantOf(jump, some, h, p)
       <==> forall i: nat | i < |some| && Terminal(jump, some[i].first) == furthest :: StartOn(jump, some[i].first, p)
  {
    hide Terminal, StartOn, IsForest;
    forall i: nat | i < |some|
      ensures ScenarioReaches(jump, some[i], h) <==> Terminal(jump, some[i].first) == furthest
    {
    }
  }

  /** Every path to the furthest endpoint, over the scenarios and over their maximal ones, starts alike. */
  lemma {:induction false} MaximalSpan(
      jump: Jumps, scenarios: seq<Scenario>, maximal: seq<nat>, furthest: nat, second: nat, g: nat)
    requires IsForest(jump) && AreEndpoints(jump, scenarios, furthest, second)
    requires forall k: nat | k < |maximal| ::
      maximal[k] < |scenarios| && Terminal(jump, scenarios[maximal[k]].first) == furthest
    requires forall i: nat | i < |scenarios| && Terminal(jump, scenarios[i].first) == furthest :: i in maximal
    requires maximal != [] && Meets(jump, EntriesOf(scenarios, maximal), g)
    ensures Spans(jump, scenarios, furthest, second, g)
  {
    hide Terminal, StartOn, IsForest, Meets, AreEndpoints;
    var entries := EntriesOf(scenarios, maximal);
    forall p: nat ensures StartOn(jump, g, p) <==>
      forall i: nat | i < |scenarios| && Terminal(jump, scenarios[i].first) == furthest ::
        StartOn(jump, scenarios[i].first, p)
    {
      MeetingStarts(jump, entries, g, p);
      if StartOn(jump, g, p) {
        forall i: nat | i < |scenarios| && Terminal(jump, scenarios[i].first) == furthest
          ensures StartOn(jump, scenarios[i].first, p)
        {
          var k :| 0 <= k < |maximal| && maximal[k] == i;
          assert StartOn(jump, entries[k], p);
        }
      }
      if forall i: nat | i < |scenarios| && Terminal(jump, scenarios[i].first) == furthest ::
        StartOn(jump, scenarios[i].first, p) {
        forall k: nat | k < |entries| ensures StartOn(jump, entries[k], p) {
          assert Terminal(jump, scenarios[maximal[k]].first) == furthest;
        }
      }
    }
  }

  /** The basis: the maximal scenarios chosen, and one at the next endpoint where there is one. */
  ghost predicate IsBasis(
      jump: Jumps, scenarios: seq<Scenario>, maximal: seq<nat>, pair: seq<nat>, second: nat, basis: seq<nat>)
    requires IsForest(jump)
  {
    && (forall k: nat | k < |pair| :: pair[k] < |maximal|)
    && |pair| <= |basis| <= |pair| + 1
    && (forall k: nat | k < |pair| :: basis[k] == maximal[pair[k]])
    && (|basis| == |pair| + 1 <==> second > 0)
    && (second > 0 ==> basis[|pair|] < |scenarios| && Terminal(jump, scenarios[basis[|pair|]].first) == second)
  }

  lemma {:induction false} BasisSpan(
      jump: Jumps, scenarios: seq<Scenario>, maximal: seq<nat>, pair: seq<nat>, furthest: nat, second: nat, g: nat,
      basis: seq<nat>)
    requires IsForest(jump) && AreEndpoints(jump, scenarios, furthest, second)
    requires forall k: nat | k < |maximal| ::
      maximal[k] < |scenarios| && Terminal(jump, scenarios[maximal[k]].first) == furthest
    requires Bases(jump, EntriesOf(scenarios, maximal), g, pair)
    requires IsBasis(jump, scenarios, maximal, pair, second, basis)
    ensures forall k: nat | k < |basis| :: basis[k] < |scenarios|
    ensures |basis| <= 3 && Spans(jump, Chosen(scenarios, basis), furthest, second, g)
  {
    hide Terminal, IsForest, On;
    var entries, some := EntriesOf(scenarios, maximal), Chosen(scenarios, basis);
    forall k: nat | k < |pair| ensures some[k].first == entries[pair[k]] && Terminal(jump, some[k].first) == furthest {
    }
    BasisEndpoints(jump, scenarios, some, |pair|, furthest, second);
    forall p: nat ensures StartOn(jump, g, p) <==>
      forall i: nat | i < |some| && Terminal(jump, some[i].first) == furthest :: StartOn(jump, some[i].first, p)
    {
      BasisStarts(jump, entries, some, pair, furthest, g, p);
    }
  }

  lemma {:induction false} BasisEndpoints(
      jump: Jumps, scenarios: seq<Scenario>, some: seq<Scenario>, n: nat, furthest: nat, second: nat)
    requires IsForest(jump) && AreEndpoints(jump, scenarios, furthest, second) && 1 <= n <= |some| <= n + 1
    requires forall k: nat | k < n :: Terminal(jump, some[k].first) == furthest
    requires (|some| == n + 1 <==> second > 0) && (second > 0 ==> Terminal(jump, some[n].first) == second)
    ensures AreEndpoints(jump, some, furthest, second)
  {
    hide Terminal, IsForest;
    assert Terminal(jump, some[0].first) == furthest;
  }

  lemma {:induction false} BasisStarts(
      jump: Jumps, entries: seq<nat>, some: seq<Scenario>, pair: seq<nat>, furthest: nat, g: nat, p: nat)
    requires IsForest(jump) && Bases(jump, entries, g, pair) && |pair| <= |some| <= |pair| + 1
    requires forall k: nat | k < |pair| ::
      some[k].first == entries[pair[k]] && Terminal(jump, some[k].first) == furthest
    requires |some| > |pair| ==> Terminal(jump, some[|pair|].first) != furthest
    ensures StartOn(jump, g, p) <==>
      forall i: nat | i < |some| && Terminal(jump, some[i].first) == furthest :: StartOn(jump, some[i].first, p)
  {
    hide Terminal, IsForest, On;
    if forall i: nat | i < |some| && Terminal(jump, some[i].first) == furthest :: StartOn(jump, some[i].first, p) {
      forall k: nat | k < |pair| ensures On(jump, entries[pair[k]], p) {
        assert StartOn(jump, some[k].first, p);
      }
      assert StartOn(jump, some[0].first, p);
    }
  }

  /** The profile of the scenarios over a forest. */
  method ProfileOf(jump: Jumps, scenarios: seq<Scenario>) returns (profile: Profile)
    requires IsForest(jump) && scenarios != [] && forall i: nat | i < |scenarios| :: scenarios[i].first <= |jump|
    ensures |profile.basis| <= 3 && forall k: nat | k < |profile.basis| :: profile.basis[k] < |scenarios|
    ensures forall h: nat | h > 0 :: Decides(jump, scenarios, profile, h)
  {
    hide IsForest, Terminal, On, AreEndpoints, Meets, Bases, StartOn;
    var terminal := Terminals(jump);
    var furthest, second := Endpoints(jump, terminal, scenarios);
    var maximal := Maximal(jump, terminal, scenarios, furthest);
    SomeMaximal(jump, scenarios, maximal, furthest, second);
    var entries := EntriesOf(scenarios, maximal);
    var g, carried := FindMeeting(jump, entries);
    var common := StartsFrom(jump, g);
    var pair := FindBasis(jump, entries, g, carried);
    var basis := AddSecond(jump, terminal, scenarios, maximal, pair, entries, furthest, second, g);
    profile := Profile(furthest, second, common, basis);
    MaximalSpan(jump, scenarios, maximal, furthest, second, g);
    BasisSpan(jump, scenarios, maximal, pair, furthest, second, g, basis);
    hide IsBasis;
    forall h: nat | h > 0 ensures Decides(jump, scenarios, profile, h) {
      SpanDecides(jump, scenarios, profile, g, h);
      SpanDecides(jump, Chosen(scenarios, basis), profile, g, h);
    }
  }

  lemma {:induction false} SomeMaximal(
      jump: Jumps, scenarios: seq<Scenario>, maximal: seq<nat>, furthest: nat, second: nat)
    requires IsForest(jump) && AreEndpoints(jump, scenarios, furthest, second)
    requires forall i: nat | i < |scenarios| && Terminal(jump, scenarios[i].first) == furthest :: i in maximal
    ensures maximal != []
  {
    hide Terminal, IsForest;
    var i: nat :| i < |scenarios| && Terminal(jump, scenarios[i].first) == furthest;
    assert i in maximal;
  }

  /** The scenarios of the pair, and the first that ends at the next endpoint where there is one. */
  method AddSecond(
      jump: Jumps, terminal: seq<nat>, scenarios: seq<Scenario>, maximal: seq<nat>, pair: seq<nat>,
      ghost entries: seq<nat>,
      ghost furthest: nat, second: nat, ghost g: nat) returns (basis: seq<nat>)
    requires IsForest(jump) && AreEndpoints(jump, scenarios, furthest, second) && |terminal| == |jump| + 1
    requires forall i: nat | i <= |jump| :: terminal[i] == Terminal(jump, i)
    requires forall i: nat | i < |scenarios| :: scenarios[i].first <= |jump|
    requires |entries| == |maximal| && Bases(jump, entries, g, pair)
    ensures IsBasis(jump, scenarios, maximal, pair, second, basis)
  {
    hide Terminal, IsForest, On;
    assert forall k: nat | k < |pair| :: pair[k] < |maximal|;
    basis := seq(|pair|, k requires 0 <= k < |pair| => maximal[pair[k]]);
    if second == 0 {
      return;
    }
    ghost var last: nat :| last < |scenarios| && Terminal(jump, scenarios[last].first) == second;
    var i := 0;
    while terminal[scenarios[i].first] != second
      invariant i <= last
      decreases last - i
    {
      i := i + 1;
    }
    basis := basis + [i];
  }

  // ----- the decisions -----

  /** The jump table, the representative repairs and the profile of one tail. */
  datatype Analysis = Analysis(jump: Jumps, scenarios: seq<Scenario>, profile: Profile) {
    ghost predicate Valid(d: Dfa, tail: Word) {
      && IsJumps(d, tail, jump) && IsForest(jump) && AreScenarios(d, tail, scenarios)
      && forall k: nat | k < |profile.basis| :: profile.basis[k] < |scenarios|
    }
  }

  /** The starts every one of the repairs that reaches h commits. */
  ghost predicate InvariantAmong(d: Dfa, tail: Word, repairs: seq<Scenario>, h: nat, p: nat) {
    forall i: nat | i < |repairs| && Reaches(d, repairs[i].via, tail, h) :: StartsAt(d, repairs[i].via, tail, p)
  }

  ghost predicate ReachedAmong(d: Dfa, tail: Word, repairs: seq<Scenario>, h: nat) {
    exists i: nat :: i < |repairs| && Reaches(d, repairs[i].via, tail, h)
  }

  /** The answer for an endpoint is exact for all repairs, and the repairs given have the same one. */
  ghost predicate Exact(d: Dfa, tail: Word, answer: Option<set<nat>>, repairs: seq<Scenario>, h: nat) {
    && (answer.Some? <==> exists r :: Reaches(d, r, tail, h))
    && (answer.Some? <==> ReachedAmong(d, tail, repairs, h))
    && (answer.Some? ==> forall p: nat :: p in answer.value <==> Invariant(d, tail, h, p))
    && (answer.Some? ==> forall p: nat :: p in answer.value <==> InvariantAmong(d, tail, repairs, h, p))
  }

  /** Repairs chosen among the scenarios observe what the scenarios' entries do. */
  lemma {:induction false} AmongScenarios(d: Dfa, tail: Word, jump: Jumps, some: seq<Scenario>, h: nat, p: nat)
    requires IsJumps(d, tail, jump) && IsForest(jump) && forall i: nat | i < |some| :: IsScenario(d, tail, some[i])
    ensures ReachedAmong(d, tail, some, h) <==> SomeReaches(jump, some, h)
    ensures InvariantAmong(d, tail, some, h, p) <==> InvariantOf(jump, some, h, p)
  {
    hide IsJumps, IsForest, IsScenario, Reaches, StartsAt, StartOn, Terminal;
    forall i: nat | i < |some|
      ensures Reaches(d, some[i].via, tail, h) <==> ScenarioReaches(jump, some[i], h)
      ensures StartsAt(d, some[i].via, tail, p) <==> StartOn(jump, some[i].first, p)
    {
      ScenarioObserved(d, tail, jump, some[i]);
    }
  }

  lemma {:induction false} DecisionsExact(d: Dfa, tail: Word, a: Analysis, h: nat)
    requires a.Valid(d, tail) && Decides(a.jump, a.scenarios, a.profile, h)
    ensures Exact(d, tail, a.profile.Invariants(h), Chosen(a.scenarios, a.profile.basis), h)
  {
    hide IsJumps, IsForest, IsScenario, Reaches, Invariant, InvariantAmong, ReachedAmong, SomeReaches, InvariantOf,
      Profile.Invariants;
    var some := Chosen(a.scenarios, a.profile.basis);
    forall p: nat
      ensures InvariantOf(a.jump, a.scenarios, h, p) <==> Invariant(d, tail, h, p)
      ensures SomeReaches(a.jump, a.scenarios, h) <==> exists r :: Reaches(d, r, tail, h)
    {
      ScenariosDecide(d, tail, a.jump, a.scenarios, h, p);
    }
    ScenariosDecide(d, tail, a.jump, a.scenarios, h, 0);
    forall p: nat
      ensures InvariantAmong(d, tail, some, h, p) <==> InvariantOf(a.jump, some, h, p)
      ensures ReachedAmong(d, tail, some, h) <==> SomeReaches(a.jump, some, h)
    {
      AmongScenarios(d, tail, a.jump, some, h, p);
    }
    AmongScenarios(d, tail, a.jump, some, h, 0);
    hide AreScenarios;
  }

  /**
    Analyzes a tail: for every endpoint inside it, the profile's answer is the set
    of starts that all repairs reaching it share, decided by three repairs at most.
   */
  method Analyze(d: Dfa, tail: Word) returns (a: Analysis)
    requires d.Valid()
    ensures a.Valid(d, tail) && |a.profile.basis| <= 3
    ensures forall h: nat | h > 0 :: Exact(d, tail, a.profile.Invariants(h), Chosen(a.scenarios, a.profile.basis), h)
  {
    hide IsJumps, IsRow, IsForest, AreScenarios, Decides, Exact;
    var jump, row := Recurrence(d, tail);
    JumpsAreForest(d, tail, jump);
    var scenarios := Scenarios(d, tail, row);
    EntriesInside(d, tail, jump, scenarios);
    var profile := ProfileOf(jump, scenarios);
    a := Analysis(jump, scenarios, profile);
    forall h: nat | h > 0 ensures Exact(d, tail, a.profile.Invariants(h), Chosen(a.scenarios, a.profile.basis), h) {
      DecisionsExact(d, tail, a, h);
    }
  }

  lemma {:induction false} EntriesInside(d: Dfa, tail: Word, jump: Jumps, scenarios: seq<Scenario>)
    requires IsJumps(d, tail, jump) && AreScenarios(d, tail, scenarios)
    ensures forall i: nat | i < |scenarios| :: scenarios[i].first <= |jump|
  {
    forall i: nat | i < |scenarios| ensures scenarios[i].first <= |jump| {
      assert IsScenario(d, tail, scenarios[i]);
    }
  }

  /** Of the repairs reaching h, one refutes the start; any repair reaching h does where no start is asked. */
  ghost predicate Refutes(d: Dfa, tail: Word, r: Word, h: nat, start: Option<nat>) {
    Reaches(d, r, tail, h) && (start.Some? ==> !StartsAt(d, r, tail, start.value))
  }

  ghost predicate RefutesAt(jump: Jumps, s: Scenario, h: nat, start: Option<nat>)
    requires IsForest(jump)
  {
    ScenarioReaches(jump, s, h) && (start.Some? ==> !StartOn(jump, s.first, start.value))
  }

  lemma {:induction false} RefutesByScenario(d: Dfa, tail: Word, a: Analysis, i: nat, h: nat, start: Option<nat>)
    requires a.Valid(d, tail) && i < |a.scenarios|
    ensures Refutes(d, tail, a.scenarios[i].via, h, start) <==> RefutesAt(a.jump, a.scenarios[i], h, start)
  {
    hide Reaches, StartsAt, StartOn, Terminal, IsJumps, IsForest;
    assert IsScenario(d, tail, a.scenarios[i]);
    ScenarioObserved(d, tail, a.jump, a.scenarios[i]);
  }

  lemma {:induction false} RefutedNoLonger(d: Dfa, tail: Word, a: Analysis, r: Word, h: nat, start: Option<nat>)
    returns (i: nat)
    requires a.Valid(d, tail) && Refutes(d, tail, r, h, start)
    ensures i < |a.scenarios| && |a.scenarios[i].via| <= |r| && RefutesAt(a.jump, a.scenarios[i], h, start)
  {
    hide Reaches, StartsAt, StartOn, Terminal, IsJumps, IsForest, AreScenarios;
    ReachesLess(d, r, tail, h);
    i := RepairObserved(d, tail, a.jump, a.scenarios, r);
  }

  /** The length of a shortest repair reaching h, and of a shortest one reaching h that refutes a start. */
  method ShortestRefuting(d: Dfa, tail: Word, a: Analysis, h: nat, start: Option<nat>) returns (repair: Option<Word>)
    requires a.Valid(d, tail)
    ensures repair.Some? ==> Refutes(d, tail, repair.value, h, start)
    ensures repair.Some? ==> forall r | Refutes(d, tail, r, h, start) :: |repair.value| <= |r|
    ensures repair.None? ==> forall r :: !Refutes(d, tail, r, h, start)
  {
    hide Analysis.Valid, IsForest, Refutes, RefutesAt, Terminal, StartOn;
    JumpBounds(d, tail, a);
    var terminal := Terminals(a.jump);
    repair := None;
    for i := 0 to |a.scenarios|
      invariant repair.Some? ==> Refutes(d, tail, repair.value, h, start)
      invariant forall j: nat | j < i && RefutesAt(a.jump, a.scenarios[j], h, start) ::
                  repair.Some? && |repair.value| <= |a.scenarios[j].via|
    {
      var s := a.scenarios[i];
      var starts := StartsFrom(a.jump, s.first);
      RefutesTold(a.jump, s, h, start, terminal[s.first], starts);
      if h <= terminal[s.first] && (start.Some? ==>
        start.value !in starts) && (repair.None? || |s.via| < |repair.value|) {
        RefutesByScenario(d, tail, a, i, h, start);
        repair := Some(s.via);
      }
    }
    forall r | Refutes(d, tail, r, h, start) ensures repair.Some? && |repair.value| <= |r| {
      var i := RefutedNoLonger(d, tail, a, r, h, start);
    }
  }

  lemma {:induction false} RefutesTold(
      jump: Jumps, s: Scenario, h: nat, start: Option<nat>, terminal: nat, starts: set<nat>)
    requires IsForest(jump) && terminal == Terminal(jump, s.first)
    requires forall p: nat :: p in starts <==> StartOn(jump, s.first, p)
    ensures RefutesAt(jump, s, h, start) <==> h <= terminal && (start.Some? ==> start.value !in starts)
  {
    hide IsForest, Terminal, StartOn;
  }

  lemma {:induction false} JumpBounds(d: Dfa, tail: Word, a: Analysis)
    requires a.Valid(d, tail)
    ensures IsForest(a.jump) && forall i: nat | i < |a.scenarios| :: a.scenarios[i].first <= |a.jump|
  {
    EntriesInside(d, tail, a.jump, a.scenarios);
  }
}

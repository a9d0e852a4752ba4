/**
  Deriving the mandatory core: every live state's shortest way to die, the longest
  first, kept where every certified window is proved to hold it.
 */
module CoreDerivation {
  import opened Options
  import opened Machine
  import opened SplitWindow
  import opened Suffixes
  import opened MandatoryCore
  import opened Counting

  // ----- words that kill a live state -----

  /** Read from the state, the word leaves the live states on its last byte and not before. */
  ghost predicate Kills(sim: Simulator, q: State, w: Word)
    decreases |w|
  {
    && w != []
    && match LiveStep(sim, q, w[0])
       case None => |w| == 1
       case Some(p) => Kills(sim, p, w[1..])
  }

  /** The least length of a word that kills the state. */
  ghost predicate DiesAt(sim: Simulator, q: State, depth: nat) {
    (exists w :: Kills(sim, q, w) && |w| == depth) && forall w | Kills(sim, q, w) :: depth <= |w|
  }

  /** The states that can die, each with its distance from death. */
  ghost predicate AreDepths(sim: Simulator, depth: Depths) {
    && (forall q :: q in depth <==> q in sim.live && exists w :: Kills(sim, q, w))
    && forall q | q in depth :: DiesAt(sim, q, depth[q])
  }

  ghost predicate SomeKills(sim: Simulator, q: State, length: nat) {
    exists w :: Kills(sim, q, w) && |w| == length
  }

  lemma {:induction false} KillsThrough(sim: Simulator, q: State, b: Byte, p: State, length: nat)
    requires LiveStep(sim, q, b) == Some(p) && SomeKills(sim, p, length)
    ensures SomeKills(sim, q, length + 1)
  {
    var w :| Kills(sim, p, w) && |w| == length;
    assert ([b] + w)[1..] == w;
    assert Kills(sim, q, [b] + w);
  }

  /** Some byte kills the state at once. */
  predicate Mortal(sim: Simulator, q: State) {
    exists b: Byte | 0 <= b < 256 :: LiveStep(sim, q, b) == None
  }

  lemma {:induction false} MortalKills(sim: Simulator, q: State)
    requires Mortal(sim, q)
    ensures SomeKills(sim, q, 1)
  {
    var b: Byte :| 0 <= b < 256 && LiveStep(sim, q, b) == None;
    assert Kills(sim, q, [b]);
  }

  /** The live states some byte leads from into the state. */
  function LivePredecessors(sim: Simulator, to: State): set<State> {
    set q | q in Predecessors(sim.dfa, to) && q in sim.live
  }

  // ----- depths, from the killed backward -----

  type Depths = map<State, nat>

  /** The frontier holds the states found, nearer death first. */
  ghost predicate Ordered(depth: Depths, frontier: seq<State>) {
    && (forall q :: q in frontier <==> q in depth)
    && (forall i, j | 0 <= i < j < |frontier| :: depth[frontier[i]] <= depth[frontier[j]])
  }

  /** The states found, nearer death first, each with the length of a word that kills it. */
  ghost predicate Found(sim: Simulator, depth: Depths, frontier: seq<State>) {
    && (forall q | q in depth :: q in sim.live && depth[q] > 0 && SomeKills(sim, q, depth[q]))
    && Ordered(depth, frontier)
    && (forall q | q in sim.live && Mortal(sim, q) :: q in depth && depth[q] == 1)
  }

  /** The live predecessors of the first states of the frontier are found, at most one further from death. */
  ghost predicate Spread(sim: Simulator, depth: Depths, frontier: seq<State>, head: nat) {
    && head <= |frontier|
    && forall i: nat, q | i < head && q in LivePredecessors(sim, frontier[i]) ::
         q in depth && frontier[i] in depth && depth[q] <= depth[frontier[i]] + 1
  }

  /** No state is found further than one past the next. */
  ghost predicate Shallow(depth: Depths, frontier: seq<State>, head: nat) {
    head < |frontier| ==> frontier[head] in depth && forall q | q in depth :: depth[q] <= depth[frontier[head]] + 1
  }

  method MortalStates(sim: Simulator) returns (depth: Depths, frontier: seq<State>)
    ensures Found(sim, depth, frontier) && Shallow(depth, frontier, 0) && Distinct(frontier)
  {
    hide Mortal, SomeKills;
    depth, frontier := map[], [];
    var rest := sim.live;
    while rest != {}
      invariant rest <= sim.live && (forall q :: q in frontier <==> q in depth) && Distinct(frontier)
      invariant forall q | q in depth :: q in sim.live && q !in rest && depth[q] == 1 && SomeKills(sim, q, 1)
      invariant forall q | q in sim.live && q !in rest && Mortal(sim, q) :: q in depth && depth[q] == 1
      decreases rest
    {
      var q :| q in rest;
      if Mortal(sim, q) {
        MortalKills(sim, q);
        depth, frontier := depth[q := 1], frontier + [q];
      }
      rest := rest - {q};
    }
    forall i, j | 0 <= i < j < |frontier| ensures depth[frontier[i]] <= depth[frontier[j]] {
      assert frontier[i] in frontier && frontier[j] in frontier;
    }
    if frontier != [] {
      assert frontier[0] in frontier;
    }
  }

  lemma {:induction false} PredecessorKills(sim: Simulator, q: State, to: State, length: nat)
    requires sim.Valid() && to in sim.live && q in LivePredecessors(sim, to) && SomeKills(sim, to, length)
    ensures SomeKills(sim, q, length + 1)
  {
    hide SomeKills;
    var k :| k in sim.dfa.delta && sim.dfa.delta[k] == to && k.0 == q;
    assert sim.dfa.Step(q, k.1) == Some(to) && k == (q, k.1);
    assert LiveStep(sim, q, k.1) == Some(to);
    hide *;
    KillsThrough(sim, q, k.1, to, length);
  }

  lemma {:induction false} OrderedMore(depth: Depths, frontier: seq<State>, q: State, far: nat)
    requires Ordered(depth, frontier) && q !in depth && forall p | p in depth :: depth[p] <= far
    ensures Ordered(depth[q := far], frontier + [q])
  {
    var deeper, longer := depth[q := far], frontier + [q];
    forall p ensures p in longer <==> p in deeper {
      assert p in frontier <==> p in depth;
    }
    forall i, j | 0 <= i < j < |longer| ensures deeper[longer[i]] <= deeper[longer[j]] {
      assert longer[i] in frontier;
      if j < |frontier| {
        assert longer[j] in frontier;
      }
    }
  }

  lemma {:induction false} FoundMore(sim: Simulator, depth: Depths, frontier: seq<State>, head: nat, q: State)
    requires sim.Valid() && Found(sim, depth, frontier) && Distinct(frontier)
    requires head < |frontier| && frontier[head] in depth
    requires forall p | p in depth :: depth[p] <= depth[frontier[head]] + 1
    requires q in LivePredecessors(sim, frontier[head]) && q !in depth
    ensures Found(sim, depth[q := depth[frontier[head]] + 1], frontier + [q]) && Distinct(frontier + [q])
  {
    hide SomeKills, Mortal, Simulator.Valid, Ordered;
    var to := frontier[head];
    PredecessorKills(sim, q, to, depth[to]);
    assert q in sim.live;
    hide LivePredecessors;
    OrderedMore(depth, frontier, q, depth[to] + 1);
    OrderedIn(depth, frontier, q);
  }

  lemma OrderedIn(depth: Depths, frontier: seq<State>, q: State)
    requires Ordered(depth, frontier)
    ensures q in frontier <==> q in depth
  {
  }

  /** The live predecessors of one state found. */
  method SpreadOne(sim: Simulator, depth0: Depths, frontier0: seq<State>, head: nat)
    returns (depth: Depths, frontier: seq<State>)
    requires sim.Valid() && Found(sim, depth0, frontier0) && Shallow(depth0, frontier0, head) && Distinct(frontier0)
    requires head < |frontier0| && Spread(sim, depth0, frontier0, head)
    ensures Found(sim, depth, frontier) && Distinct(frontier) && Spread(sim, depth, frontier, head + 1)
    ensures Shallow(depth, frontier, head + 1)
    ensures |frontier| >= |frontier0|
  {
    hide Simulator.Valid, Found, LivePredecessors;
    depth, frontier := depth0, frontier0;
    var to := frontier[head];
    var rest := LivePredecessors(sim, to);
    while rest != {}
      invariant rest <= LivePredecessors(sim, to) && Found(sim, depth, frontier) && Distinct(frontier)
      invariant frontier0 <= frontier && Spread(sim, depth, frontier, head)
      invariant to in depth && forall q | q in depth :: depth[q] <= depth[to] + 1
      invariant forall q | q in LivePredecessors(sim, to) && q !in rest :: q in depth
      decreases rest
    {
      var q :| q in rest;
      if q !in depth {
        FoundMore(sim, depth, frontier, head, q);
        depth, frontier := depth[q := depth[to] + 1], frontier + [q];
      }
      rest := rest - {q};
    }
    NextShallow(sim, depth, frontier, head);
  }

  lemma {:induction false} NextShallow(sim: Simulator, depth: Depths, frontier: seq<State>, head: nat)
    requires Found(sim, depth, frontier) && head < |frontier| && frontier[head] in depth
    requires forall q | q in depth :: depth[q] <= depth[frontier[head]] + 1
    ensures Shallow(depth, frontier, head + 1)
  {
    hide SomeKills, Mortal;
    if head + 1 < |frontier| {
      assert frontier[head + 1] in frontier;
    }
  }

  /** The distance from death of every state that can die, found backward from those one byte kills. */
  method DeathDepths(sim: Simulator) returns (depth: Depths)
    requires sim.Valid()
    ensures AreDepths(sim, depth)
  {
    hide Found, Kills, Simulator.Valid, Shallow, Spread, LivePredecessors, AreDepths, SomeKills;
    var frontier: seq<State>;
    depth, frontier := MortalStates(sim);
    var head := 0;
    assert Spread(sim, depth, frontier, head) by {
      SpreadNone(sim, depth, frontier);
    }
    while head < |frontier|
      invariant head <= |frontier| && Found(sim, depth, frontier) && Distinct(frontier)
      invariant Spread(sim, depth, frontier, head) && Shallow(depth, frontier, head)
      decreases |sim.live| - head
    {
      FrontierBounded(sim, depth, frontier);
      depth, frontier := SpreadOne(sim, depth, frontier, head);
      head := head + 1;
    }
    forall q, w | q in sim.live && Kills(sim, q, w) ensures q in depth && depth[q] <= |w| {
      KillerFound(sim, depth, frontier, q, w);
    }
    forall q | q in depth ensures q in sim.live && SomeKills(sim, q, depth[q]) {
      FoundKills(sim, depth, frontier, q);
    }
    NearestDeaths(sim, depth);
  }

  lemma {:induction false} NearestDeaths(sim: Simulator, depth: Depths)
    requires forall q | q in depth :: q in sim.live && SomeKills(sim, q, depth[q])
    requires forall q, w | q in sim.live && Kills(sim, q, w) :: q in depth && depth[q] <= |w|
    ensures AreDepths(sim, depth)
  {
    hide Kills;
  }

  lemma SpreadNone(sim: Simulator, depth: Depths, frontier: seq<State>)
    ensures Spread(sim, depth, frontier, 0)
  {
  }

  lemma FoundKills(sim: Simulator, depth: Depths, frontier: seq<State>, q: State)
    requires Found(sim, depth, frontier) && q in depth
    ensures q in sim.live && SomeKills(sim, q, depth[q])
  {
  }

  lemma {:induction false} FrontierBounded(sim: Simulator, depth: Depths, frontier: seq<State>)
    requires Found(sim, depth, frontier) && Distinct(frontier)
    ensures |frontier| <= |sim.live|
  {
    hide SomeKills, Mortal;
    ImageSize(frontier);
    forall q | q in Image(frontier) ensures q in sim.live {
      assert q in frontier;
    }
    SubsetSize(Image(frontier), sim.live);
  }

  /** With every state spread, a word that kills a live state is no shorter than the state's depth. */
  lemma {:induction false} KillerFound(sim: Simulator, depth: Depths, frontier: seq<State>, q: State, w: Word)
    requires sim.Valid() && Found(sim, depth, frontier) && Spread(sim, depth, frontier, |frontier|)
    requires q in sim.live && Kills(sim, q, w)
    ensures q in depth && depth[q] <= |w|
    decreases |w|
  {
    var step := LiveStep(sim, q, w[0]);
    if step.None? {
      assert Mortal(sim, q);
    } else {
      var p := step.value;
      KillerFound(sim, depth, frontier, p, w[1..]);
      assert p in frontier;
      var i :| 0 <= i < |frontier| && frontier[i] == p;
      assert (q, w[0]) in sim.dfa.delta && q == (q, w[0]).0;
      assert q in LivePredecessors(sim, frontier[i]);
    }
  }

  // ----- spelling a core -----

  /** The byte leads one nearer to death. */
  predicate LeadsNearer(sim: Simulator, depth: Depths, q: State, b: Byte) {
    var to := LiveStep(sim, q, b);
    to.Some? && to.value in depth && q in depth && depth[to.value] + 1 == depth[q]
  }

  /** The lowest byte that leads one nearer to death. */
  ghost predicate IsOnward(sim: Simulator, depth: Depths, q: State, b: Byte) {
    LeadsNearer(sim, depth, q, b) && forall c: Byte | LeadsNearer(sim, depth, q, c) :: b <= c
  }

  /** The core of a state: the lowest bytes onward, one step after another, up to the byte that kills. */
  ghost predicate IsCoreOf(sim: Simulator, depth: Depths, q: State, core: Word)
    decreases |core|
  {
    && q in depth
    && if depth[q] <= 1 then core == []
       else core != [] && IsOnward(sim, depth, q, core[0]) && IsCoreOf(sim, depth, LiveStep(sim, q, core[0]).value,
         core[1..])
  }

  /** The first byte of a shortest killing word leads one nearer to death. */
  lemma {:induction false} SomeOnward(sim: Simulator, depth: Depths, q: State) returns (b: Byte)
    requires AreDepths(sim, depth) && q in depth && depth[q] > 1
    ensures LeadsNearer(sim, depth, q, b)
  {
    assert DiesAt(sim, q, depth[q]);
    var w :| Kills(sim, q, w) && |w| == depth[q];
    b := w[0];
    NextKills(sim, q, w);
    var p := LiveStep(sim, q, b).value;
    StepLive(sim, q, b);
    assert Kills(sim, p, w[1..]);
    assert p in depth && DiesAt(sim, p, depth[p]);
    assert SomeKills(sim, p, depth[p]);
    KillsThrough(sim, q, b, p, depth[p]);
    assert SomeKills(sim, q, depth[p] + 1);
  }

  lemma NextKills(sim: Simulator, q: State, w: Word)
    requires Kills(sim, q, w) && |w| > 1
    ensures LiveStep(sim, q, w[0]).Some? && Kills(sim, LiveStep(sim, q, w[0]).value, w[1..])
  {
  }

  lemma StepLive(sim: Simulator, q: State, b: Byte)
    requires LiveStep(sim, q, b).Some?
    ensures LiveStep(sim, q, b).value in sim.live
  {
  }

  method OnwardByte(sim: Simulator, depth: Depths, q: State) returns (b: Byte)
    requires sim.Valid() && AreDepths(sim, depth) && q in depth && depth[q] > 1
    ensures IsOnward(sim, depth, q, b)
  {
    hide LeadsNearer, AreDepths, Simulator.Valid;
    ghost var some := SomeOnward(sim, depth, q);
    b := 0;
    while !LeadsNearer(sim, depth, q, b)
      invariant b <= some && forall c: Byte | c < b :: !LeadsNearer(sim, depth, q, c)
      decreases some - b
    {
      b := b + 1;
    }
  }

  method SpellCore(sim: Simulator, depth: Depths, origin: State) returns (core: Word)
    requires sim.Valid() && AreDepths(sim, depth) && origin in depth
    ensures IsCoreOf(sim, depth, origin, core) && |core| + 1 == depth[origin]
    decreases depth[origin]
  {
    hide Kills, Simulator.Valid;
    DepthPositive(sim, depth, origin);
    if depth[origin] <= 1 {
      return [];
    }
    var b := OnwardByte(sim, depth, origin);
    var rest := SpellCore(sim, depth, LiveStep(sim, origin, b).value);
    core := [b] + rest;
    assert core[1..] == rest;
  }

  lemma {:induction false} DepthPositive(sim: Simulator, depth: Depths, q: State)
    requires AreDepths(sim, depth) && q in depth
    ensures depth[q] > 0
  {
    assert DiesAt(sim, q, depth[q]);
    var w :| Kills(sim, q, w) && |w| == depth[q];
  }

  lemma {:induction false} OneCore(sim: Simulator, depth: Depths, q: State, a: Word, b: Word)
    requires IsCoreOf(sim, depth, q, a) && IsCoreOf(sim, depth, q, b)
    ensures a == b
    decreases |a|
  {
    if depth[q] > 1 {
      assert a[0] == b[0];
      OneCore(sim, depth, LiveStep(sim, q, a[0]).value, a[1..], b[1..]);
      assert a == [a[0]] + a[1..] && b == [b[0]] + b[1..];
    }
  }

  // ----- the core of a state, in terms of the words that kill it -----

  /** Of two words of one length the first differing byte of the one is the lower. */
  ghost predicate Sooner(u: Word, v: Word) {
    u != [] && v != [] && (u[0] < v[0] || (u[0] == v[0] && Sooner(u[1..], v[1..])))
  }

  /**
    The word and one byte more are a shortest word that kills the state, and no shortest word that does
    begins lower.
   */
  ghost predicate IsDeathCore(sim: Simulator, q: State, core: Word) {
    && (exists b: Byte :: Kills(sim, q, core + [b]))
    && (forall w | Kills(sim, q, w) :: |core| + 1 <= |w|)
    && forall u: Word, b: Byte | Kills(sim, q, u + [b]) && |u| == |core| :: !Sooner(u, core)
  }

  lemma {:induction false} SoonerOrEqual(u: Word, v: Word)
    requires |u| == |v| && !Sooner(u, v) && !Sooner(v, u)
    ensures u == v
  {
    if u != [] {
      SoonerOrEqual(u[1..], v[1..]);
      assert u == [u[0]] + u[1..] && v == [v[0]] + v[1..];
    }
  }

  lemma {:induction false} OneDeathCore(sim: Simulator, q: State, u: Word, v: Word)
    requires IsDeathCore(sim, q, u) && IsDeathCore(sim, q, v)
    ensures u == v
  {
    var a: Byte :| Kills(sim, q, u + [a]);
    var b: Byte :| Kills(sim, q, v + [b]);
    hide Kills;
    SoonerOrEqual(u, v);
  }

  /** Killing from the state is killing, one byte on, from the next. */
  lemma {:induction false} KillsOn(sim: Simulator, q: State, w: Word)
    requires |w| > 1
    ensures Kills(sim, q, w) <==> LiveStep(sim, q, w[0]).Some? && Kills(sim, LiveStep(sim, q, w[0]).value, w[1..])
  {
  }

  /** A shortest killing word begins one nearer to death. */
  lemma {:induction false} BeginsNearer(sim: Simulator, depth: Depths, q: State, w: Word)
    requires AreDepths(sim, depth) && q in depth && depth[q] > 1 && Kills(sim, q, w) && |w| == depth[q]
    ensures LeadsNearer(sim, depth, q, w[0]) && Kills(sim, LiveStep(sim, q, w[0]).value, w[1..])
  {
    NextKills(sim, q, w);
    var p := LiveStep(sim, q, w[0]).value;
    StepLive(sim, q, w[0]);
    assert Kills(sim, p, w[1..]) && p in depth && DiesAt(sim, p, depth[p]);
    assert SomeKills(sim, p, depth[p]);
    KillsThrough(sim, q, w[0], p, depth[p]);
    assert DiesAt(sim, q, depth[q]) && SomeKills(sim, q, depth[p] + 1);
  }

  /** What is spelled onward is the state's core. */
  lemma {:induction false} CoreIsDeathCore(sim: Simulator, depth: Depths, q: State, core: Word)
    requires AreDepths(sim, depth) && IsCoreOf(sim, depth, q, core)
    ensures IsDeathCore(sim, q, core)
    decreases |core|
  {
    CoreLength(sim, depth, q, core);
    if core == [] {
      EmptyDeathCore(sim, depth, q);
    } else {
      CoreIsDeathCore(sim, depth, LiveStep(sim, q, core[0]).value, core[1..]);
      DeathCoreMore(sim, depth, q, core);
    }
  }

  lemma {:induction false} EmptyDeathCore(sim: Simulator, depth: Depths, q: State)
    requires AreDepths(sim, depth) && q in depth && depth[q] == 1
    ensures IsDeathCore(sim, q, [])
  {
    assert DiesAt(sim, q, depth[q]);
    hide Kills;
    var w :| Kills(sim, q, w) && |w| == 1;
    assert [] + [w[0]] == w;
  }

  lemma {:induction false} DeathCoreMore(sim: Simulator, depth: Depths, q: State, core: Word)
    requires AreDepths(sim, depth) && IsCoreOf(sim, depth, q, core) && core != [] && |core| + 1 == depth[q]
    requires IsDeathCore(sim, LiveStep(sim, q, core[0]).value, core[1..])
    ensures IsDeathCore(sim, q, core)
  {
    assert DiesAt(sim, q, depth[q]);
    var p := LiveStep(sim, q, core[0]).value;
    hide Kills, AreDepths, LiveStep;
    var b: Byte :| Kills(sim, p, core[1..] + [b]);
    assert (core + [b])[1..] == core[1..] + [b];
    KillsOn(sim, q, core + [b]);
    forall u: Word, c: Byte | Kills(sim, q, u + [c]) && |u| == |core| ensures !Sooner(u, core) {
      CoreIsSoonest(sim, depth, q, core, u, c);
    }
  }

  lemma {:induction false} CoreIsSoonest(sim: Simulator, depth: Depths, q: State, core: Word, u: Word, c: Byte)
    requires AreDepths(sim, depth) && IsCoreOf(sim, depth, q, core) && core != [] && |core| + 1 == depth[q]
    requires IsDeathCore(sim, LiveStep(sim, q, core[0]).value, core[1..])
    requires Kills(sim, q, u + [c]) && |u| == |core|
    ensures !Sooner(u, core)
  {
    BeginsNearer(sim, depth, q, u + [c]);
    assert (u + [c])[1..] == u[1..] + [c] && (u + [c])[0] == u[0];
    hide Kills, AreDepths;
    assert core[0] <= u[0];
  }

  lemma {:induction false} SomeCore(sim: Simulator, depth: Depths, q: State) returns (core: Word)
    requires AreDepths(sim, depth) && q in depth
    ensures IsCoreOf(sim, depth, q, core)
    decreases depth[q]
  {
    DepthPositive(sim, depth, q);
    if depth[q] <= 1 {
      return [];
    }
    var some := SomeOnward(sim, depth, q);
    var b := LeastOnward(sim, depth, q, some);
    var rest := SomeCore(sim, depth, LiveStep(sim, q, b).value);
    core := [b] + rest;
    assert core[1..] == rest;
  }

  lemma {:induction false} LeastOnward(sim: Simulator, depth: Depths, q: State, some: Byte) returns (b: Byte)
    requires LeadsNearer(sim, depth, q, some)
    ensures IsOnward(sim, depth, q, b)
    decreases some
  {
    if c: Byte :| c < some && LeadsNearer(sim, depth, q, c) {
      b := LeastOnward(sim, depth, q, c);
    } else {
      b := some;
    }
  }

  /** The core spelled for a state is exactly its core in terms of the words that kill it. */
  lemma {:induction false} CoreIsSpelled(sim: Simulator, depth: Depths, q: State, core: Word)
    requires AreDepths(sim, depth) && q in sim.live
    ensures IsDeathCore(sim, q, core) <==> IsCoreOf(sim, depth, q, core)
  {
    if IsCoreOf(sim, depth, q, core) {
      CoreIsDeathCore(sim, depth, q, core);
    }
    if IsDeathCore(sim, q, core) {
      var b: Byte :| Kills(sim, q, core + [b]);
      assert q in depth;
      var spelled := SomeCore(sim, depth, q);
      CoreIsDeathCore(sim, depth, q, spelled);
      OneDeathCore(sim, q, core, spelled);
    }
  }

  // ----- the longest core proved -----

  /** The state may stand before a window, and no single byte kills it. */
  predicate IsCandidate(sim: Simulator, depth: Depths, q: State) {
    q in depth && depth[q] >= 2 && (q != sim.dfa.init || sim.reentrant)
  }

  /** The state proposes the core and the core is proved mandatory. */
  ghost predicate Proposes(sim: Simulator, depth: Depths, q: State, core: Word) {
    IsCandidate(sim, depth, q) && IsCoreOf(sim, depth, q, core) && Proves(sim, q, core)
  }

  /** No candidate proposes a longer proved core, nor one as long in a lower state. */
  ghost predicate IsFirst(sim: Simulator, depth: Depths, q: State, core: Word) {
    && Proposes(sim, depth, q, core)
    && forall p, other | Proposes(sim, depth, p, other) :: |other| < |core| || (|other| == |core| && q <= p)
  }

  /** What deriving promises of the core kept. */
  ghost predicate IsMandatory(sim: Simulator, depth: Depths, core: Word) {
    && core != [] && (exists q :: IsFirst(sim, depth, q, core))
    && forall w, o | Certifies(sim, w, o) :: Contains(w[..|w| - 1], core)
  }

  /** The core is the first of the longest proved; none where none is proved. */
  ghost predicate Derives(sim: Simulator, depth: Depths, core: Option<Word>) {
    match core
    case Some(c) => IsMandatory(sim, depth, c)
    case None => forall q, c :: !Proposes(sim, depth, q, c)
  }

  lemma {:induction false} ProposedMandatory(sim: Simulator, depth: Depths, q: State, core: Word)
    requires sim.Valid() && AreDepths(sim, depth) && Proposes(sim, depth, q, core)
    ensures core != [] && forall w, o | Certifies(sim, w, o) :: Contains(w[..|w| - 1], core)
  {
    OriginLive(sim, depth, q);
    hide Certifies, Contains, Proves, AreDepths, Simulator.Valid;
    forall w, o | Certifies(sim, w, o) ensures Contains(w[..|w| - 1], core) {
      CertifiedHoldsCore(sim, q, core, w, o);
    }
  }

  /** No state below the bound proposes a proved core at that depth. */
  ghost predicate NoneBelow(sim: Simulator, depth: Depths, bound: State, length: nat) {
    forall p: State, core | p < bound && Proposes(sim, depth, p, core) :: |core| + 1 != length
  }

  /** One candidate tried: its core, where proved. */
  method TryCandidate(sim: Simulator, depth: Depths, q: State) returns (found: Option<Word>)
    requires sim.Valid() && AreDepths(sim, depth) && IsCandidate(sim, depth, q)
    ensures found.Some? ==> Proposes(sim, depth, q, found.value) && |found.value| + 1 == depth[q]
    ensures found.None? ==> forall core :: !Proposes(sim, depth, q, core)
  {
    hide Proves, AreDepths, IsCoreOf, Simulator.Valid;
    var core := SpellCore(sim, depth, q);
    OriginLive(sim, depth, q);
    var proved := ProvesCore(sim, q, core);
    if proved {
      return Some(core);
    }
    forall other ensures !Proposes(sim, depth, q, other) {
      if Proposes(sim, depth, q, other) {
        OneCore(sim, depth, q, core, other);
      }
    }
    found := None;
  }

  lemma {:induction false} NoneHere(sim: Simulator, depth: Depths, q: State, length: nat)
    requires AreDepths(sim, depth) && NoneBelow(sim, depth, q, length)
    requires IsCandidate(sim, depth, q) && depth[q] == length ==> forall core :: !Proposes(sim, depth, q, core)
    ensures NoneBelow(sim, depth, q + 1, length)
  {
    hide AreDepths, Proposes;
    forall p: State, core | p < q + 1 && Proposes(sim, depth, p, core) ensures |core| + 1 != length {
      ProposesDepth(sim, depth, p, core);
    }
  }

  /** The candidates of one depth tried in state order. */
  method TryDepth(sim: Simulator, depth: Depths, length: nat) returns (found: Option<Word>, ghost proposer: State)
    requires sim.Valid() && AreDepths(sim, depth)
    ensures found.Some? ==> |found.value| + 1 == length && Proposes(sim, depth, proposer, found.value)
    ensures found.Some? ==> NoneBelow(sim, depth, proposer, length)
    ensures found.None? ==> forall q, core | Proposes(sim, depth, q, core) :: |core| + 1 != length
  {
    hide Proposes, AreDepths, Simulator.Valid;
    proposer := 0;
    for q: State := 0 to sim.dfa.states
      invariant NoneBelow(sim, depth, q, length)
    {
      if IsCandidate(sim, depth, q) && depth[q] == length {
        found := TryCandidate(sim, depth, q);
        if found.Some? {
          proposer := q;
          return;
        }
      }
      NoneHere(sim, depth, q, length);
    }
    forall q, core | Proposes(sim, depth, q, core) ensures |core| + 1 != length {
      ProposesDepth(sim, depth, q, core);
      OriginLive(sim, depth, q);
    }
    found := None;
  }

  lemma {:induction false} OriginLive(sim: Simulator, depth: Depths, q: State)
    requires sim.Valid() && AreDepths(sim, depth) && q in depth
    ensures q in sim.live && q < sim.dfa.states
  {
    assert sim.dfa.Live(q);
    var w :| sim.dfa.Run(sim.dfa.init, w) == Some(q);
    sim.dfa.RunInRange(sim.dfa.init, w);
  }

  method Deepest(depth: Depths) returns (most: nat)
    ensures forall q | q in depth :: depth[q] <= most
  {
    most := 0;
    var rest := depth.Keys;
    while rest != {}
      invariant rest <= depth.Keys && forall q | q in depth && q !in rest :: depth[q] <= most
      decreases rest
    {
      var q :| q in rest;
      most := if depth[q] > most then depth[q] else most;
      rest := rest - {q};
    }
  }

  /**
    The state is live and may stand before a window, no one byte kills it, its core is this one, and no
    word free of the core kills it, whatever byte comes next.
   */
  ghost predicate HasProvedCore(sim: Simulator, q: State, core: Word) {
    && q in sim.live && (q != sim.dfa.init || sim.reentrant) && core != []
    && IsDeathCore(sim, q, core) && Proves(sim, q, core)
  }

  lemma {:induction false} ProposesIsProved(sim: Simulator, depth: Depths, q: State, core: Word)
    requires AreDepths(sim, depth)
    ensures Proposes(sim, depth, q, core) <==> HasProvedCore(sim, q, core)
  {
    hide AreDepths, IsDeathCore, Proves;
    if Proposes(sim, depth, q, core) {
      ProposesDepth(sim, depth, q, core);
      DepthsLive(sim, depth, q);
      CoreIsSpelled(sim, depth, q, core);
    }
    if HasProvedCore(sim, q, core) {
      CoreIsSpelled(sim, depth, q, core);
      CoreLength(sim, depth, q, core);
    }
  }

  lemma DepthsLive(sim: Simulator, depth: Depths, q: State)
    requires AreDepths(sim, depth) && q in depth
    ensures q in sim.live
  {
  }

  /**
    The mandatory core: of the proved cores of the states, the longest, and of those the lowest state's;
    every certified window holds it with a byte to follow. None where no state's core is proved.
   */
  method DeriveMandatoryCore(sim: Simulator) returns (core: Option<Word>)
    requires sim.Valid()
    ensures core.Some? ==> forall w, o | Certifies(sim, w, o) :: Contains(w[..|w| - 1], core.value)
    ensures core.Some? ==>
      exists q :: HasProvedCore(sim, q, core.value)
        && forall p, other | HasProvedCore(sim, p, other) ::
             |other| < |core.value| || (|other| == |core.value| && q <= p)
    ensures core.None? ==> forall q, other :: !HasProvedCore(sim, q, other)
  {
    hide Certifies, Contains, HasProvedCore, Proposes, Simulator.Valid, AreDepths;
    ghost var depth;
    core, depth := LongestProved(sim);
    forall q, other ensures Proposes(sim, depth, q, other) <==> HasProvedCore(sim, q, other) {
      ProposesIsProved(sim, depth, q, other);
    }
  }

  /** The candidates' cores tried, longest first. */
  method LongestProved(sim: Simulator) returns (core: Option<Word>, ghost depth: Depths)
    requires sim.Valid()
    ensures AreDepths(sim, depth) && Derives(sim, depth, core)
  {
    hide Proposes, Simulator.Valid, Certifies, Contains, AreDepths, NoneBelow;
    var depths := DeathDepths(sim);
    depth := depths;
    var length := Deepest(depths);
    ShallowCores(sim, depths, length);
    while length > 1
      invariant NoneLonger(sim, depths, length)
    {
      var found, proposer := TryDepth(sim, depths, length);
      if found.Some? {
        ProposedMandatory(sim, depths, proposer, found.value);
        FirstFound(sim, depths, proposer, found.value);
        return found, depths;
      }
      length := length - 1;
    }
    forall q, c ensures !Proposes(sim, depths, q, c) {
      if Proposes(sim, depths, q, c) {
        ProposesDepth(sim, depths, q, c);
      }
    }
    core := None;
  }

  ghost predicate NoneLonger(sim: Simulator, depth: Depths, length: nat) {
    forall q, core | Proposes(sim, depth, q, core) :: |core| + 1 <= length
  }

  lemma {:induction false} ShallowCores(sim: Simulator, depth: Depths, length: nat)
    requires AreDepths(sim, depth) && forall q | q in depth :: depth[q] <= length
    ensures NoneLonger(sim, depth, length)
  {
    hide AreDepths, Proposes;
    forall q, core | Proposes(sim, depth, q, core) ensures |core| + 1 <= length {
      ProposesDepth(sim, depth, q, core);
    }
  }

  lemma {:induction false} FirstFound(sim: Simulator, depth: Depths, q: State, core: Word)
    requires Proposes(sim, depth, q, core)
    requires NoneBelow(sim, depth, q, |core| + 1) && NoneLonger(sim, depth, |core| + 1)
    ensures IsFirst(sim, depth, q, core)
  {
    hide Proposes;
  }

  lemma {:induction false} ProposesDepth(sim: Simulator, depth: Depths, q: State, core: Word)
    requires AreDepths(sim, depth) && Proposes(sim, depth, q, core)
    ensures IsCandidate(sim, depth, q) && q in depth && depth[q] >= 2 && |core| + 1 == depth[q]
  {
    CoreLength(sim, depth, q, core);
  }

  lemma {:induction false} CoreLength(sim: Simulator, depth: Depths, q: State, core: Word)
    requires AreDepths(sim, depth) && IsCoreOf(sim, depth, q, core)
    ensures |core| + 1 == depth[q]
    decreases |core|
  {
    DepthPositive(sim, depth, q);
    if core != [] {
      CoreLength(sim, depth, LiveStep(sim, q, core[0]).value, core[1..]);
    }
  }
}

/**
  Recovery decisions: the first start of a preserved tail that every complete
  repair commits, and a shortest complete repair.
 */
module Recovery {
  import opened Options
  import opened Machine
  import opened Munch
  import opened Repairs
  import Counting

  // ----- the words a scan can enter a tail with -----

  /** The state's word leads to it, is not empty, and no nonempty word that leads to it is shorter. */
  ghost predicate Shortest(d: Dfa, q: State, via: Word) {
    && via != [] && d.Run(d.init, via) == Some(q)
    && forall w | w != [] && d.Run(d.init, w) == Some(q) :: |via| <= |w|
  }

  /**
    Every state found has a nonempty word that leads to it, and the frontier lists the states found,
    shorter words first.
   */
  ghost predicate Found(d: Dfa, seen: map<State, Word>, frontier: seq<State>) {
    && (forall q | q in seen :: seen[q] != [] && d.Run(d.init, seen[q]) == Some(q) && q < d.states && q in frontier)
    && (forall i: nat | i < |frontier| :: frontier[i] in seen)
    && (forall i, j | 0 <= i < j < |frontier| :: |seen[frontier[i]]| <= |seen[frontier[j]]|)
  }

  /** Every byte below the bound leads to a state found with a word at most one longer. */
  ghost predicate Near(d: Dfa, seen: map<State, Word>, from: State, length: nat, bytes: int) {
    forall b: Byte | b < bytes && d.Step(from, b).Some? ::
      d.Step(from, b).value in seen && |seen[d.Step(from, b).value]| <= length + 1
  }

  /** No state is found at a word more than one longer. */
  ghost predicate Shallow(seen: map<State, Word>, length: nat) {
    forall q | q in seen :: |seen[q]| <= length + 1
  }

  ghost predicate Extends(seen: map<State, Word>, more: map<State, Word>) {
    forall q | q in seen :: q in more && more[q] == seen[q]
  }

  lemma {:induction false} FoundOne(
      d: Dfa, seen: map<State, Word>, frontier: seq<State>, from: State, via: Word, b: Byte)
    requires d.Valid() && Found(d, seen, frontier) && Shallow(seen, |via|) && d.Run(d.init, via) == Some(from)
    requires d.Step(from, b).Some? && d.Step(from, b).value !in seen
    ensures var to := d.Step(from, b).value; Found(d, seen[to := via + [b]], frontier + [to])
  {
    d.RunSnoc(d.init, via, b);
    var to := d.Step(from, b).value;
    assert (from, b) in d.delta && to < d.states;
    assert to !in frontier;
    hide Dfa.Run, Dfa.Step, Dfa.Valid;
    var wider, longer := seen[to := via + [b]], frontier + [to];
    assert longer[|frontier|] == to;
    forall q | q in wider ensures q in longer {
      if q != to {
        assert q in frontier;
      }
    }
  }

  /** Reads every byte from a state, recording each state first found. */
  method Expand(d: Dfa, from: State, via: Word, seen0: map<State, Word>, frontier0: seq<State>)
    returns (seen: map<State, Word>, frontier: seq<State>)
    requires d.Valid() && d.Run(d.init, via) == Some(from) && Found(d, seen0, frontier0) && Shallow(seen0, |via|)
    ensures Found(d, seen, frontier) && Shallow(seen, |via|) && Extends(seen0, seen) && frontier0 <= frontier
    ensures Near(d, seen, from, |via|, 256)
    ensures seen.Keys == seen0.Keys ==> frontier == frontier0
    ensures forall i: nat | |frontier0| <= i < |frontier| :: frontier[i] in seen && |seen[frontier[i]]| == |via| + 1
  {
    hide Found, Dfa.Valid, Dfa.Run;
    seen, frontier := seen0, frontier0;
    for byte := 0 to 256
      invariant Found(d, seen, frontier) && Shallow(seen, |via|) && Extends(seen0, seen) && frontier0 <= frontier
      invariant Near(d, seen, from, |via|, byte)
      invariant seen.Keys == seen0.Keys ==> frontier == frontier0
      invariant forall i: nat | |frontier0| <= i < |frontier| :: frontier[i] in seen && |seen[frontier[i]]| == |via| + 1
    {
      var to := d.Step(from, byte);
      if to.Some? && to.value !in seen {
        FoundOne(d, seen, frontier, from, via, byte);
        seen, frontier := seen[to.value := via + [byte]], frontier + [to.value];
        assert to.value in seen.Keys && to.value !in seen0.Keys;
      }
    }
  }

  /** The states reachable by at least one transition, each with a shortest word that leads to it. */
  method CrossingEntries(d: Dfa) returns (seen: map<State, Word>)
    requires d.Valid()
    ensures forall q | q in seen :: Shortest(d, q, seen[q]) && q < d.states
    ensures forall w | w != [] && d.Run(d.init, w).Some? :: d.Run(d.init, w).value in seen
  {
    var frontier: seq<State>;
    assert d.Run(d.init, []) == Some(d.init);
    hide Dfa.Run, Dfa.Valid, Near, Shortest;
    seen, frontier := Expand(d, d.init, [], map[], []);
    var at := 0;
    while at < |frontier|
      invariant at <= |frontier| && Found(d, seen, frontier)
      invariant at < |frontier| ==> Shallow(seen, |seen[frontier[at]]|)
      invariant Around(d, seen, frontier, at)
      decreases Counting.Below(d.states) - seen.Keys, |frontier| - at
    {
      var state := frontier[at];
      ghost var before, was := seen, frontier;
      seen, frontier := Expand(d, state, seen[state], seen, frontier);
      AroundMore(d, before, was, seen, frontier, at);
      UnseenShrinks(d, before, seen, frontier);
      StillShallow(d, seen, frontier, |was|, at, |before[state]|);
      at := at + 1;
    }
    AllShortest(d, seen, frontier);
  }

  /** What the start and the first at states of the frontier lead to is found near. */
  ghost predicate Around(d: Dfa, seen: map<State, Word>, frontier: seq<State>, at: nat) {
    && at <= |frontier| && Near(d, seen, d.init, 0, 256)
    && forall i: nat | i < at :: frontier[i] in seen && Near(d, seen, frontier[i], |seen[frontier[i]]|, 256)
  }

  lemma {:induction false} AroundMore(
      d: Dfa, before: map<State, Word>, was: seq<State>, seen: map<State, Word>, frontier: seq<State>, at: nat)
    requires Around(d, before, was, at) && at < |was| && Extends(before, seen) && was <= frontier && was[at] in before
    requires Near(d, seen, was[at], |before[was[at]]|, 256)
    ensures Around(d, seen, frontier, at + 1)
  {
    NearKept(d, before, seen, d.init, 0);
    forall i: nat | i < at ensures frontier[i] in seen && Near(d, seen, frontier[i], |seen[frontier[i]]|, 256) {
      NearKept(d, before, seen, was[i], |before[was[i]]|);
    }
  }

  lemma {:induction false} UnseenShrinks(d: Dfa, before: map<State, Word>, seen: map<State, Word>, frontier: seq<State>)
    requires Extends(before, seen) && Found(d, seen, frontier)
    ensures var all := Counting.Below(d.states); all - seen.Keys < all - before.Keys || seen.Keys == before.Keys
  {
    assert before.Keys <= seen.Keys;
    if seen.Keys != before.Keys {
      var q :| q in seen.Keys && q !in before.Keys;
      assert q in Counting.Below(d.states);
    }
  }

  lemma StillShallow(d: Dfa, seen: map<State, Word>, frontier: seq<State>, were: nat, at: nat, length: nat)
    requires Found(d, seen, frontier) && Shallow(seen, length) && at < were <= |frontier|
    requires |seen[frontier[at]]| == length
    ensures at + 1 < |frontier| ==> Shallow(seen, |seen[frontier[at + 1]]|)
  {
  }

  lemma NearKept(d: Dfa, seen: map<State, Word>, more: map<State, Word>, from: State, length: nat)
    requires Near(d, seen, from, length, 256) && Extends(seen, more)
    ensures Near(d, more, from, length, 256)
  {
  }

  ghost predicate HeldShort(d: Dfa, seen: map<State, Word>, w: Word) {
    var q := d.Run(d.init, w);
    q.Some? ==> q.value in seen && |seen[q.value]| <= |w|
  }

  lemma {:induction false} WordHeld(d: Dfa, seen: map<State, Word>, frontier: seq<State>, w: Word)
    requires Found(d, seen, frontier) && w != []
    requires Around(d, seen, frontier, |frontier|)
    ensures HeldShort(d, seen, w)
  {
    var front, b := w[..|w| - 1], w[|w| - 1];
    if front != [] && d.Run(d.init, front).Some? {
      WordHeld(d, seen, frontier, front);
      var p := d.Run(d.init, front).value;
      assert p in frontier;
      var i :| 0 <= i < |frontier| && frontier[i] == p;
      assert Near(d, seen, frontier[i], |seen[frontier[i]]|, 256);
    }
  }

  lemma {:induction false} AllShortest(d: Dfa, seen: map<State, Word>, frontier: seq<State>)
    requires Found(d, seen, frontier) && Around(d, seen, frontier, |frontier|)
    ensures forall q | q in seen :: Shortest(d, q, seen[q]) && q < d.states
    ensures forall w | w != [] && d.Run(d.init, w).Some? :: d.Run(d.init, w).value in seen
  {
    forall w | w != [] && d.Run(d.init, w).Some? ensures HeldShort(d, seen, w) {
      WordHeld(d, seen, frontier, w);
    }
    hide Dfa.Run, Around;
  }

  // ----- the jump table -----

  /** Where the token beginning at each offset ends, and whether the suffix from it tokenizes completely. */
  datatype JumpTable = JumpTable(end: seq<Option<nat>>, tokenizes: seq<bool>)

  ghost predicate JumpAt(d: Dfa, tail: Word, table: JumpTable, offset: nat) {
    && offset < |table.end| && (table.end[offset].Some? ==> TokenAt(d, tail, offset, table.end[offset].value))
    && (table.end[offset].None? ==> Stuck(d, tail, offset))
  }

  ghost predicate IsJumpTable(d: Dfa, tail: Word, table: JumpTable) {
    && |table.end| == |tail| && |table.tokenizes| == |tail| + 1
    && (forall offset: nat | offset < |tail| :: JumpAt(d, tail, table, offset))
    && (forall offset: nat | offset <= |tail| :: table.tokenizes[offset] <==> TokenizesFrom(d, tail, offset))
  }

  lemma {:induction false} TokenizesStep(d: Dfa, tail: Word, offset: nat, end: Option<nat>)
    requires offset < |tail| && if end.Some? then TokenAt(d, tail, offset, end.value) else Stuck(d, tail, offset)
    ensures TokenizesFrom(d, tail, offset) <==> end.Some? && TokenizesFrom(d, tail, end.value)
  {
    if cuts :| Segmentation(d, tail, offset, cuts) {
      NothingLeft(d, tail, offset, cuts);
      assert TokenAt(d, tail, cuts[0], cuts[1]);
      SegmentationTail(d, tail, offset, cuts, 1);
      if end.Some? {
        TokenEndUnique(d, tail, offset, end.value, cuts[1]);
      }
    }
    if end.Some? {
      if cuts :| Segmentation(d, tail, end.value, cuts) {
        SegmentationCons(d, tail, offset, cuts);
      }
    }
  }

  /** The maximal run from the start at an offset. */
  method TokenEnd(d: Dfa, tail: Word, offset: nat) returns (end: Option<nat>)
    requires offset < |tail| && !d.Accepting(d.init)
    ensures if end.Some? then TokenAt(d, tail, offset, end.value) else Stuck(d, tail, offset)
  {
    end := MaximalRun(d, d.init, tail, offset);
    if end.Some? {
      TokenIsRun(d, tail, offset, end.value);
    } else {
      forall e: nat ensures !TokenAt(d, tail, offset, e) {
        TokenIsRun(d, tail, offset, e);
      }
    }
  }

  /** The jump table, built right to left so that each suffix is decided by one past its token. */
  method BuildJumpTable(d: Dfa, tail: Word) returns (table: JumpTable)
    requires !d.Accepting(d.init)
    ensures IsJumpTable(d, tail, table)
  {
    hide TokenizesFrom, TokenAt, Stuck;
    var end: seq<Option<nat>> := seq(|tail|, _ => None);
    var tokenizes := seq(|tail| + 1, i => i == |tail|);
    EmptySuffix(d, tail);
    var offset := |tail|;
    while offset > 0
      invariant offset <= |tail| == |end| && |tokenizes| == |tail| + 1
      invariant forall i: nat | offset <= i < |tail| :: JumpAt(d, tail, JumpTable(end, tokenizes), i)
      invariant forall i: nat | offset <= i <= |tail| :: tokenizes[i] <==> TokenizesFrom(d, tail, i)
    {
      offset := offset - 1;
      ghost var before := JumpTable(end, tokenizes);
      var e := TokenEnd(d, tail, offset);
      TokenizesStep(d, tail, offset, e);
      TokenInside(d, tail, offset, e);
      end := end[offset := e];
      tokenizes := tokenizes[offset := e.Some? && tokenizes[e.value]];
      forall i: nat | offset <= i < |tail| ensures JumpAt(d, tail, JumpTable(end, tokenizes), i) {
        assert i > offset ==> JumpAt(d, tail, before, i);
      }
    }
    table := JumpTable(end, tokenizes);
  }

  lemma {:induction false} EmptySuffix(d: Dfa, tail: Word)
    ensures TokenizesFrom(d, tail, |tail|)
  {
    assert Segmentation(d, tail, |tail|, [|tail|]);
  }

  lemma TokenInside(d: Dfa, tail: Word, offset: nat, end: Option<nat>)
    requires end.Some? ==> TokenAt(d, tail, offset, end.value)
    ensures end.Some? ==> offset < end.value <= |tail|
  {
  }

  // ----- completing scenarios -----

  /**
    A run into the tail that ends where a suffix tokenizes completely: its end there, and a shortest
    word that begins it.
   */
  datatype Crossing = Crossing(boundary: nat, via: Word)

  ghost predicate Completes(d: Dfa, via: Word, tail: Word, first: nat) {
    Enters(d, via, tail, first) && first <= |tail| && TokenizesFrom(d, tail, first)
  }

  ghost predicate IsCrossing(d: Dfa, tail: Word, c: Crossing) {
    c.via != [] && Completes(d, c.via, tail, c.boundary)
  }

  /** Some scenario listed has the first boundary and no longer a word. */
  ghost predicate Listed(crossings: seq<Crossing>, first: nat, length: nat) {
    exists i :: 0 <= i < |crossings| && crossings[i].boundary == first && |crossings[i].via| <= length
  }

  ghost predicate ListsAll(d: Dfa, tail: Word, crossings: seq<Crossing>) {
    && (forall i: nat | i < |crossings| :: IsCrossing(d, tail, crossings[i]))
    && (forall via, first: nat | via != [] && Completes(d, via, tail, first) :: Listed(crossings, first, |via|))
  }

  /** The crossing from one entry state is listed if it completes. */
  ghost predicate Covers(d: Dfa, tail: Word, seen: map<State, Word>, crossings: seq<Crossing>, q: State) {
    q in seen ==> forall first: nat | RunEnds(d, q, tail, 0, first) && TokenizesFrom(d, tail, first) ::
      Listed(crossings, first, |seen[q]|)
  }

  lemma {:induction false} CoversMore(
      d: Dfa, tail: Word, seen: map<State, Word>, crossings: seq<Crossing>, more: seq<Crossing>, q: State)
    requires Covers(d, tail, seen, crossings, q) && crossings <= more
    ensures Covers(d, tail, seen, more, q)
  {
    hide RunEnds, TokenizesFrom;
  }

  /** Plays the scenario of one entry state. */
  method PlayEntry(
      d: Dfa, tail: Word, table: JumpTable, ghost seen: map<State, Word>, crossings0: seq<Crossing>, q: State,
      via: Word)
    returns (crossings: seq<Crossing>)
    requires IsJumpTable(d, tail, table) && q in seen && seen[q] == via && via != [] && d.Run(d.init, via) == Some(q)
    requires forall i: nat | i < |crossings0| :: IsCrossing(d, tail, crossings0[i])
    ensures crossings0 <= crossings && Covers(d, tail, seen, crossings, q)
    ensures forall i: nat | i < |crossings| :: IsCrossing(d, tail, crossings[i])
  {
    hide TokenizesFrom, Dfa.Run, Dfa.AcceptsFrom;
    crossings := crossings0;
    var boundary := MaximalRun(d, q, tail, 0);
    if boundary.Some? && table.tokenizes[boundary.value] {
      crossings := crossings + [Crossing(boundary.value, via)];
      assert crossings[|crossings0|] == Crossing(boundary.value, via);
      assert Listed(crossings, boundary.value, |via|);
    }
    hide IsCrossing, IsJumpTable;
    forall first: nat | RunEnds(d, q, tail, 0, first) && TokenizesFrom(d, tail, first)
      ensures Listed(crossings, first, |via|)
    {
      RunEndUniqueTo(d, q, tail, boundary, first);
    }
  }

  lemma RunEndUniqueTo(d: Dfa, q: State, tail: Word, boundary: Option<nat>, first: nat)
    requires boundary.Some? ==> RunEnds(d, q, tail, 0, boundary.value)
    requires boundary.None? ==> forall k: nat | k <= |tail| :: !d.AcceptsFrom(q, tail[0..k])
    ensures RunEnds(d, q, tail, 0, first) ==> boundary == Some(first)
  {
  }

  /** Every completing scenario that enters the tail inside a token. */
  method CompletingCrossings(d: Dfa, tail: Word, table: JumpTable) returns (crossings: seq<Crossing>)
    requires d.Valid() && IsJumpTable(d, tail, table)
    ensures ListsAll(d, tail, crossings)
  {
    hide Dfa.Run, IsJumpTable, IsCrossing, Covers;
    var seen := CrossingEntries(d);
    crossings := [];
    for q := 0 to d.states
      invariant forall i: nat | i < |crossings| :: IsCrossing(d, tail, crossings[i])
      invariant forall p | 0 <= p < q :: Covers(d, tail, seen, crossings, p)
    {
      ghost var before := crossings;
      if q in seen {
        crossings := PlayEntry(d, tail, table, seen, crossings, q, seen[q]);
      } else {
        NotSeen(d, tail, seen, crossings, q);
      }
      forall p | 0 <= p < q ensures Covers(d, tail, seen, crossings, p) {
        CoversMore(d, tail, seen, before, crossings, p);
      }
    }
    forall via, first: nat | via != [] && Completes(d, via, tail, first) ensures Listed(crossings, first, |via|) {
      CompletingListed(d, tail, seen, crossings, via, first);
    }
  }

  lemma NotSeen(d: Dfa, tail: Word, seen: map<State, Word>, crossings: seq<Crossing>, q: State)
    requires q !in seen
    ensures Covers(d, tail, seen, crossings, q)
  {
  }

  lemma {:induction false} CompletingListed(
      d: Dfa, tail: Word, seen: map<State, Word>, crossings: seq<Crossing>, via: Word, first: nat)
    requires via != [] && Completes(d, via, tail, first)
    requires forall q | q in seen :: Shortest(d, q, seen[q]) && q < d.states
    requires forall w | w != [] && d.Run(d.init, w).Some? :: d.Run(d.init, w).value in seen
    requires forall p | 0 <= p < d.states :: Covers(d, tail, seen, crossings, p)
    ensures Listed(crossings, first, |via|)
  {
    hide RunEnds, TokenizesFrom, Dfa.Run;
    var q := d.Run(d.init, via).value;
    assert Covers(d, tail, seen, crossings, q);
    assert Shortest(d, q, seen[q]);
  }

  // ----- what complete repairs commit -----

  /** The repair makes the whole completely tokenizable. */
  ghost predicate Completed(d: Dfa, r: Word, tail: Word) {
    Tokenizes(d, r + tail)
  }

  /** The tail's position begins a token of the repaired input. */
  ghost predicate StartsThere(d: Dfa, r: Word, tail: Word, p: nat) {
    IsStart(d, r + tail, |r| + p)
  }

  /** The chain of tokens from the boundary passes the position. */
  ghost predicate ChainHas(d: Dfa, tail: Word, first: nat, p: nat) {
    exists chain :: Segmentation(d, tail, first, chain) && p in Starts(chain)
  }

  /**
    Two completing words of the same first boundary, or a completed repair and the word it enters
    with, agree on every start.
   */
  ghost predicate Agrees(d: Dfa, r: Word, tail: Word, first: nat) {
    Completed(d, r, tail) && forall p: nat :: StartsThere(d, r, tail, p) <==> ChainHas(d, tail, first, p)
  }

  lemma {:induction false} ObservesChain(d: Dfa, r: Word, tail: Word, first: nat, cuts: seq<nat>, chain: seq<nat>)
    requires Segmentation(d, r + tail, 0, cuts) && Segmentation(d, tail, first, chain) && SameInside(|r|, cuts, chain)
    ensures Agrees(d, r, tail, first)
  {
    var s := r + tail;
    forall p: nat ensures IsStart(d, s, |r| + p) <==> ChainHas(d, tail, first, p) {
      if IsStart(d, s, |r| + p) {
        var other :| Segmentation(d, s, 0, other) && |r| + p in other[..|other| - 1];
        SegmentationUnique(d, s, 0, cuts, other);
        assert p in Starts(chain);
      }
      if ChainHas(d, tail, first, p) {
        var other :| Segmentation(d, tail, first, other) && p in Starts(other);
        SegmentationUnique(d, tail, first, chain, other);
        assert |r| + p in cuts[..|cuts| - 1];
      }
      hide Segmentation;
    }
  }

  /** A word that completes is a complete repair, and its starts are its chain's. */
  lemma {:induction false} CompletingRepairs(d: Dfa, via: Word, tail: Word, first: nat)
    requires Completes(d, via, tail, first)
    ensures Agrees(d, via, tail, first)
  {
    var chain :| Segmentation(d, tail, first, chain);
    hide Enters, Segmentation, Commits;
    CommittedToEnd(d, tail, first, chain);
    var cuts := EntryRepairs(d, via, tail, first, chain);
    CommittedToEnd(d, via + tail, 0, cuts);
    ObservesChain(d, via, tail, first, cuts, chain);
  }

  /** A complete repair enters the tail with some completing word no longer than it, and commits that word's chain. */
  lemma {:induction false} RepairCompletes(d: Dfa, r: Word, tail: Word) returns (via: Word, first: nat)
    requires Completed(d, r, tail)
    ensures |via| <= |r| && Completes(d, via, tail, first) && Agrees(d, r, tail, first)
  {
    var cuts :| Segmentation(d, r + tail, 0, cuts);
    hide Enters, Segmentation, Commits, Agrees;
    CommittedToEnd(d, r + tail, 0, cuts);
    var chain: seq<nat>;
    via, first, chain := RepairEnters(d, r, tail, cuts);
    ChainBounded(d, tail, first, chain);
    CommittedToEnd(d, tail, first, chain);
    ObservesChain(d, r, tail, first, cuts, chain);
  }

  lemma ChainBounded(d: Dfa, tail: Word, first: nat, chain: seq<nat>)
    requires Commits(d, tail, first, chain)
    ensures first <= |tail| && chain != []
  {
  }

  /** Some repair completes the tail, and every one that does begins a token at the position. */
  ghost predicate Anchored(d: Dfa, tail: Word, p: nat) {
    && p < |tail| && (exists r :: Completed(d, r, tail))
    && forall r | Completed(d, r, tail) :: StartsThere(d, r, tail, p)
  }

  // ----- voting -----

  /** The scenarios that have voted: their first boundaries. */
  ghost predicate Counted(d: Dfa, tail: Word, firsts: seq<nat>, votes: seq<nat>) {
    && |votes| == |tail|
    && forall p: nat | p < |tail| :: votes[p] <= |firsts| && (votes[p] == |firsts| <==> AllHave(d, tail, firsts, p))
  }

  ghost predicate AllHave(d: Dfa, tail: Word, firsts: seq<nat>, p: nat) {
    forall i: nat | i < |firsts| :: ChainHas(d, tail, firsts[i], p)
  }

  /** One scenario votes for the boundaries of its chain inside the tail. */
  method Vote(d: Dfa, tail: Word, table: JumpTable, votes0: seq<nat>, first: nat) returns (votes: seq<nat>)
    requires IsJumpTable(d, tail, table) && first <= |tail| && TokenizesFrom(d, tail, first) && |votes0| == |tail|
    ensures |votes| == |tail|
    ensures forall p: nat | p < |tail| :: votes[p] == votes0[p] + if ChainHas(d, tail, first, p) then 1 else 0
  {
    ghost var chain :| Segmentation(d, tail, first, chain);
    ghost var i := 0;
    votes := votes0;
    var at := first;
    NothingLeftAt(d, tail, first, chain, 0);
    hide Segmentation, IsJumpTable, TokenAt, ChainHas;
    while at < |tail|
      invariant i < |chain| && at == chain[i] <= |tail| && (i == |chain| - 1 <==> at == |tail|)
      invariant |votes| == |tail|
      invariant forall p: nat | p < |tail| :: votes[p] == votes0[p] + if p in chain[..i] then 1 else 0
      decreases |chain| - i
    {
      NotYetVoted(d, tail, first, chain, i);
      votes := votes[at := votes[at] + 1];
      JumpIsNext(d, tail, table, first, chain, i);
      assert chain[..i + 1] == chain[..i] + [chain[i]];
      at, i := table.end[at].value, i + 1;
    }
    forall p: nat | p < |tail| ensures p in chain[..i] <==> ChainHas(d, tail, first, p) {
      ChainIs(d, tail, first, chain, p);
    }
  }

  lemma {:induction false} NothingLeftAt(d: Dfa, s: Word, t: nat, cuts: seq<nat>, i: nat)
    requires Segmentation(d, s, t, cuts) && i < |cuts|
    ensures cuts[i] <= |s| && (i == |cuts| - 1 <==> cuts[i] == |s|)
  {
    if i < |cuts| - 1 {
      CutsIncrease(d, s, t, cuts, i, |cuts| - 1);
    }
  }

  lemma {:induction false} NotYetVoted(d: Dfa, tail: Word, first: nat, chain: seq<nat>, i: nat)
    requires Segmentation(d, tail, first, chain) && i < |chain|
    ensures chain[i] !in chain[..i]
  {
    var front := chain[..i];
    if chain[i] in front {
      var j :| 0 <= j < i && front[j] == chain[i];
      CutsIncrease(d, tail, first, chain, j, i);
    }
  }

  lemma {:induction false} JumpIsNext(d: Dfa, tail: Word, table: JumpTable, first: nat, chain: seq<nat>, i: nat)
    requires IsJumpTable(d, tail, table) && Segmentation(d, tail, first, chain) && i < |chain| - 1 && chain[i] < |tail|
    ensures |table.end| == |tail| && table.end[chain[i]] == Some(chain[i + 1])
    ensures chain[i + 1] <= |tail| && (i + 1 == |chain| - 1 <==> chain[i + 1] == |tail|)
  {
    NothingLeftAt(d, tail, first, chain, i + 1);
    assert TokenAt(d, tail, chain[i], chain[i + 1]);
    assert JumpAt(d, tail, table, chain[i]);
    hide TokenAt;
    var end := table.end[chain[i]];
    if end.Some? {
      TokenEndUnique(d, tail, chain[i], end.value, chain[i + 1]);
    }
  }

  lemma {:induction false} ChainIs(d: Dfa, tail: Word, first: nat, chain: seq<nat>, p: nat)
    requires Segmentation(d, tail, first, chain)
    ensures ChainHas(d, tail, first, p) <==> p in Starts(chain)
  {
    if other :| Segmentation(d, tail, first, other) && p in Starts(other) {
      SegmentationUnique(d, tail, first, chain, other);
    }
  }

  lemma {:induction false} CountedOne(
      d: Dfa, tail: Word, firsts: seq<nat>, before: seq<nat>, votes: seq<nat>, first: nat)
    requires Counted(d, tail, firsts, before) && |votes| == |tail|
    requires forall p: nat | p < |tail| :: votes[p] == before[p] + if ChainHas(d, tail, first, p) then 1 else 0
    ensures Counted(d, tail, firsts + [first], votes)
  {
    hide ChainHas;
    var more := firsts + [first];
    forall p: nat | p < |tail| ensures votes[p] <= |more| && (votes[p] == |more| <==> AllHave(d, tail, more, p)) {
      if AllHave(d, tail, more, p) {
        forall i: nat | i < |firsts| ensures ChainHas(d, tail, firsts[i], p) {
          assert ChainHas(d, tail, more[i], p);
        }
        assert ChainHas(d, tail, more[|firsts|], p);
      }
    }
  }

  /** The first boundaries stand for every complete repair: each is some repair's, and every repair has one of them. */
  ghost predicate Represents(d: Dfa, tail: Word, firsts: seq<nat>) {
    && (forall i: nat | i < |firsts| :: IsRealized(d, tail, firsts[i]))
    && forall r | Completed(d, r, tail) :: HasFirst(d, tail, firsts, r)
  }

  ghost predicate IsRealized(d: Dfa, tail: Word, first: nat) {
    exists r :: Agrees(d, r, tail, first)
  }

  ghost predicate HasFirst(d: Dfa, tail: Word, firsts: seq<nat>, r: Word) {
    exists i: nat :: i < |firsts| && Agrees(d, r, tail, firsts[i])
  }

  lemma {:induction false} RepresentedAnchors(d: Dfa, tail: Word, firsts: seq<nat>, p: nat)
    requires Represents(d, tail, firsts) && p < |tail|
    ensures Anchored(d, tail, p) <==> firsts != [] && AllHave(d, tail, firsts, p)
  {
    hide StartsThere, ChainHas, Completed;
    if Anchored(d, tail, p) {
      var r :| Completed(d, r, tail);
      forall i: nat | i < |firsts| ensures ChainHas(d, tail, firsts[i], p) {
        assert IsRealized(d, tail, firsts[i]);
        var via :| Agrees(d, via, tail, firsts[i]);
      }
    }
    if firsts != [] && AllHave(d, tail, firsts, p) {
      assert IsRealized(d, tail, firsts[0]);
      var via :| Agrees(d, via, tail, firsts[0]);
      assert Completed(d, via, tail);
      forall r | Completed(d, r, tail) ensures StartsThere(d, r, tail, p) {
        assert HasFirst(d, tail, firsts, r);
      }
    }
  }

  /** The first boundary of the tail on its own, if it tokenizes, and then the crossings'. */
  ghost function FirstsOf(alone: bool, crossings: seq<Crossing>, n: nat): seq<nat>
    requires n <= |crossings|
  {
    (if alone then [0] else []) + seq(n, i requires 0 <= i < n => crossings[i].boundary)
  }

  lemma {:induction false} ScenariosRepresent(d: Dfa, tail: Word, crossings: seq<Crossing>, alone: bool)
    requires ListsAll(d, tail, crossings) && (alone <==> TokenizesFrom(d, tail, 0))
    ensures Represents(d, tail, FirstsOf(alone, crossings, |crossings|))
  {
    hide Agrees, Completed, ListsAll, TokenizesFrom;
    var firsts := FirstsOf(alone, crossings, |crossings|);
    forall i: nat | i < |firsts| ensures IsRealized(d, tail, firsts[i]) {
      var r := ScenarioOf(d, tail, crossings, alone, i);
    }
    forall r | Completed(d, r, tail) ensures HasFirst(d, tail, firsts, r) {
      var i := FirstOf(d, tail, crossings, alone, r);
    }
  }

  lemma {:induction false} ScenarioOf(d: Dfa, tail: Word, crossings: seq<Crossing>, alone: bool, i: nat)
    returns (r: Word)
    requires ListsAll(d, tail, crossings) && (alone ==> TokenizesFrom(d, tail, 0))
    requires i < |FirstsOf(alone, crossings, |crossings|)|
    ensures Agrees(d, r, tail, FirstsOf(alone, crossings, |crossings|)[i])
  {
    hide Agrees, Enters, TokenizesFrom;
    if alone && i == 0 {
      EmptyEnters(d, tail);
      r := [];
      CompletingRepairs(d, r, tail, 0);
    } else {
      var c := crossings[if alone then i - 1 else i];
      assert IsCrossing(d, tail, c);
      r := c.via;
      CompletingRepairs(d, r, tail, c.boundary);
    }
  }

  lemma {:induction false} FirstOf(d: Dfa, tail: Word, crossings: seq<Crossing>, alone: bool, r: Word) returns (i: nat)
    requires ListsAll(d, tail, crossings) && (TokenizesFrom(d, tail, 0) ==> alone) && Completed(d, r, tail)
    ensures i < |FirstsOf(alone, crossings, |crossings|)|
    ensures Agrees(d, r, tail, FirstsOf(alone, crossings, |crossings|)[i])
  {
    hide Agrees, Enters, TokenizesFrom;
    var via, first := RepairCompletes(d, r, tail);
    if via == [] {
      EmptyFirst(d, tail, first);
      i := 0;
    } else {
      var j :| 0 <= j < |crossings| && crossings[j].boundary == first && |crossings[j].via| <= |via|;
      i := if alone then j + 1 else j;
    }
  }

  lemma EmptyEnters(d: Dfa, tail: Word)
    ensures Enters(d, [], tail, 0)
  {
  }

  lemma EmptyFirst(d: Dfa, tail: Word, first: nat)
    requires Enters(d, [], tail, first)
    ensures first == 0
  {
  }

  /**
    The first position of the tail from the offset on that every complete repair
    begins a token at, or none where there is no such position or no repair.
   */
  method NextAnchoredStart(sim: Simulator, tail: Word, from: nat) returns (start: Option<nat>)
    requires sim.Valid()
    ensures start.Some? ==> from <= start.value && Anchored(sim.dfa, tail, start.value)
    ensures start.Some? ==> forall p: nat | from <= p < start.value :: !Anchored(sim.dfa, tail, p)
    ensures start.None? ==> forall p: nat | from <= p :: !Anchored(sim.dfa, tail, p)
  {
    if from >= |tail| {
      return None;
    }
    var d := sim.dfa;
    var votes, completing := CountVotes(d, tail);
    hide Anchored;
    if completing == 0 {
      NoneBeyond(d, tail);
      return None;
    }
    for at := from to |tail|
      invariant forall p: nat | from <= p < at :: !Anchored(d, tail, p)
    {
      if votes[at] == completing {
        return Some(at);
      }
    }
    NoneBeyond(d, tail);
    start := None;
  }

  lemma NoneBeyond(d: Dfa, tail: Word)
    ensures forall p: nat | p >= |tail| :: !Anchored(d, tail, p)
  {
  }

  /** Every completing scenario's votes for the boundaries of its chain, and how many scenarios complete. */
  method CountVotes(d: Dfa, tail: Word) returns (votes: seq<nat>, completing: nat)
    requires d.Valid() && !d.Accepting(d.init)
    ensures |votes| == |tail|
    ensures forall p: nat | p < |tail| :: Anchored(d, tail, p) <==> completing > 0 && votes[p] == completing
  {
    hide ListsAll, Counted, IsJumpTable, TokenizesFrom, Represents, Anchored, ChainHas;
    var table := BuildJumpTable(d, tail);
    votes, completing := seq(|tail|, _ => 0), 0;
    NoVotes(d, tail);
    var alone := TableTells(d, tail, table);
    if alone {
      ghost var before := votes;
      votes := Vote(d, tail, table, votes, 0);
      CountedOne(d, tail, [], before, votes, 0);
      completing := 1;
    }
    var crossings := CompletingCrossings(d, tail, table);
    ghost var firsts := FirstsOf(alone, crossings, 0);
    assert firsts == if alone then [] + [0] else [];
    for index := 0 to |crossings|
      invariant firsts == FirstsOf(alone, crossings, index) && completing == |firsts|
      invariant |votes| == |tail| && Counted(d, tail, firsts, votes)
    {
      ghost var before := votes;
      var boundary := crossings[index].boundary;
      CrossingTokenizes(d, tail, crossings, index);
      votes := Vote(d, tail, table, votes, boundary);
      CountedOne(d, tail, firsts, before, votes, boundary);
      firsts, completing := firsts + [boundary], completing + 1;
    }
    ScenariosRepresent(d, tail, crossings, alone);
    forall p: nat | p < |tail| ensures Anchored(d, tail, p) <==> completing > 0 && votes[p] == completing {
      RepresentedAnchors(d, tail, firsts, p);
      VotesTell(d, tail, firsts, votes, p);
    }
  }

  lemma NoVotes(d: Dfa, tail: Word)
    ensures Counted(d, tail, [], seq(|tail|, _ => 0))
  {
  }

  method TableTells(d: Dfa, tail: Word, table: JumpTable) returns (alone: bool)
    requires IsJumpTable(d, tail, table)
    ensures alone <==> TokenizesFrom(d, tail, 0)
  {
    alone := table.tokenizes[0];
  }

  lemma {:induction false} CrossingTokenizes(d: Dfa, tail: Word, crossings: seq<Crossing>, i: nat)
    requires ListsAll(d, tail, crossings) && i < |crossings|
    ensures crossings[i].boundary <= |tail| && TokenizesFrom(d, tail, crossings[i].boundary)
  {
    assert IsCrossing(d, tail, crossings[i]);
  }

  lemma VotesTell(d: Dfa, tail: Word, firsts: seq<nat>, votes: seq<nat>, p: nat)
    requires Counted(d, tail, firsts, votes) && p < |tail|
    ensures |votes| == |tail| && (votes[p] == |firsts| <==> AllHave(d, tail, firsts, p))
  {
  }

  /** A shortest word that makes the whole completely tokenizable, or none where no word does. */
  method MinimalRepair(sim: Simulator, tail: Word) returns (repair: Option<Word>)
    requires sim.Valid()
    ensures repair.Some? ==> Completed(sim.dfa, repair.value, tail)
    ensures repair.Some? ==> forall r | Completed(sim.dfa, r, tail) :: |repair.value| <= |r|
    ensures repair.None? ==> forall r :: !Completed(sim.dfa, r, tail)
  {
    var d := sim.dfa;
    var table := BuildJumpTable(d, tail);
    if table.tokenizes[0] {
      assert [] + tail == tail;
      return Some([]);
    }
    var crossings := CompletingCrossings(d, tail, table);
    hide IsJumpTable, Completed, TokenizesFrom, ListsAll;
    repair := None;
    for index := 0 to |crossings|
      invariant repair.Some? ==> Completed(d, repair.value, tail)
      invariant forall i: nat | i < index :: repair.Some? && |repair.value| <= |crossings[i].via|
    {
      if repair.None? || |crossings[index].via| < |repair.value| {
        repair := Some(crossings[index].via);
        CrossingRepairs(d, tail, crossings, index);
      }
    }
    forall r | Completed(d, r, tail) ensures repair.Some? && |repair.value| <= |r| {
      var via, first := RepairCompletes(d, r, tail);
      var i := ListedNoLonger(d, tail, crossings, via, first);
    }
  }

  lemma {:induction false} CrossingRepairs(d: Dfa, tail: Word, crossings: seq<Crossing>, i: nat)
    requires ListsAll(d, tail, crossings) && i < |crossings|
    ensures Completed(d, crossings[i].via, tail)
  {
    assert IsCrossing(d, tail, crossings[i]);
    CompletingRepairs(d, crossings[i].via, tail, crossings[i].boundary);
  }

  lemma {:induction false} ListedNoLonger(d: Dfa, tail: Word, crossings: seq<Crossing>, via: Word, first: nat)
    returns (i: nat)
    requires ListsAll(d, tail, crossings) && Completes(d, via, tail, first) && !TokenizesFrom(d, tail, 0)
    ensures i < |crossings| && |crossings[i].via| <= |via|
  {
    hide TokenizesFrom;
    i :| 0 <= i < |crossings| && crossings[i].boundary == first && |crossings[i].via| <= |via|;
  }
}

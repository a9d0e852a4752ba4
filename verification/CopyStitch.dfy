/** The stitch: chains of copies from the start, kept at every cut, and where they share a chain. */
module CopyStitch {
  import opened Options
  import opened Machine
  import opened V = Verifiers
  import opened Counting
  import opened CopyReading
  import G = GuessedMarking
  import opened CopyAnchors
  import opened ChunkWorkers

  // ----- the stitch -----

  /**
    One chain at a cut: where it stands, the index of its earlier part one cut back, and the marking
    of the chunk it added.
   */
  datatype Candidate = Candidate(state: nat, parent: nat, boundaries: seq<bool>)

  type Levels = seq<seq<Candidate>>

  ghost predicate Rooted(levels: Levels) {
    && levels != [] && |levels[0]| == 1
    && forall l: nat, i: nat | 0 < l < |levels| && i < |levels[l]| :: levels[l][i].parent < |levels[l - 1]|
  }

  /** The boundaries of a chain, its chunks' in order. */
  function ChainOf(levels: Levels, l: nat, i: nat): seq<bool>
    requires Rooted(levels) && l < |levels| && i < |levels[l]|
    decreases l
  {
    if l == 0 then [] else ChainOf(levels, l - 1, levels[l][i].parent) + levels[l][i].boundaries
  }

  /** The chain reads the input up to its cut, into its state. */
  ghost predicate ChainReads(s: Scan, levels: Levels, l: nat, i: nat)
    requires s.Valid() && Rooted(levels) && l < |levels| <= |s.cuts| && i < |levels[l]|
  {
    Reads(s.t, s.t.start, s.input[..s.cuts[l]], ChainOf(levels, l, i), levels[l][i].state)
  }

  /** Some chain of the level is the marking's own. */
  ghost predicate Follows(s: Scan, levels: Levels, l: nat, u: seq<bool>)
    requires s.Valid() && Rooted(levels) && l < |levels| <= |s.cuts|
  {
    exists i: nat :: i < |levels[l]| && s.cuts[l] <= |u| && ChainOf(levels, l, i) == u[..s.cuts[l]]
  }

  /** No two chains of a level are the same. */
  ghost predicate Apart(levels: Levels, l: nat)
    requires Rooted(levels) && l < |levels|
  {
    forall i: nat, j: nat | i < j < |levels[l]| :: ChainOf(levels, l, i) != ChainOf(levels, l, j)
  }

  /** The chains kept at a cut read the input to it, each once, and every accepted marking is followed by one. */
  ghost predicate Stitched(s: Scan, levels: Levels, l: nat)
    requires s.Valid()
  {
    && Rooted(levels) && l < |levels| <= |s.cuts| && Apart(levels, l)
    && (forall i: nat | i < |levels[l]| ::
      ChainReads(s, levels, l, i) && (0 < l ==> MayExit(s, l - 1, levels[l][i].state)))
    && forall u | Accepted(s.t, s.input, u) :: Follows(s, levels, l, u)
  }

  /** The reading of the input to the cut passes every cut before in a state its chunk's copies may exit in. */
  ghost predicate Passes(s: Scan, l: nat, u: seq<bool>, q: nat)
    requires s.Valid() && l < |s.cuts|
    decreases l
  {
    if l == 0 then u == [] && q == s.t.start
    else
      && s.Spans(l - 1) && |u| == s.cuts[l] && MayExit(s, l - 1, q)
      && var before, front, part := l - 1, u[..s.cuts[l - 1]], u[s.cuts[l - 1]..];
         exists m: nat :: Passes(s, before, front, m) && Reads(s.t, m, s.BytesOf(before), part, q)
  }

  /** Some chain of the level is the reading. */
  ghost predicate HasChain(levels: Levels, l: nat, u: seq<bool>, q: nat)
    requires Rooted(levels) && l < |levels|
  {
    exists i: nat :: i < |levels[l]| && ChainOf(levels, l, i) == u && levels[l][i].state == q
  }

  /** The chains kept are exactly the readings that pass every cut. */
  ghost predicate Exact(s: Scan, levels: Levels, l: nat)
    requires s.Valid()
  {
    && Rooted(levels) && l < |levels| <= |s.cuts|
    && forall u, q: nat :: HasChain(levels, l, u, q) <==> Passes(s, l, u, q)
  }

  /** A level's candidates: every exit of the copy each chain's state selects. */
  ghost predicate Selects(worker: Worker, level: seq<Candidate>, next: seq<Candidate>, done: nat) {
    && Distinct(next)
    && forall c :: c in next <==>
         c.parent < done && c.parent < |level| && level[c.parent].state in worker
         && Exit(c.state, c.boundaries) in worker[level[c.parent].state]
  }

  /** The candidates that extend one chain. */
  method ExtendChain(exits: seq<Exit>, parent: nat) returns (candidates: seq<Candidate>)
    requires Distinct(exits)
    ensures Distinct(candidates)
    ensures forall c :: c in candidates <==> c.parent == parent && Exit(c.state, c.boundaries) in exits
  {
    candidates := [];
    for k := 0 to |exits|
      invariant |candidates| == k
      invariant forall j: nat | j < k :: candidates[j] == Candidate(exits[j].state, parent, exits[j].boundaries)
    {
      candidates := candidates + [Candidate(exits[k].state, parent, exits[k].boundaries)];
    }
    forall c ensures c in candidates <==> c.parent == parent && Exit(c.state, c.boundaries) in exits {
      if c.parent == parent && Exit(c.state, c.boundaries) in exits {
        var k :| 0 <= k < |exits| && exits[k] == Exit(c.state, c.boundaries);
        assert candidates[k] == c;
      }
      if c in candidates {
        var k :| 0 <= k < |candidates| && candidates[k] == c;
        assert exits[k] == Exit(c.state, c.boundaries);
      }
    }
    forall i: nat, j: nat | i < j < |candidates| ensures candidates[i] != candidates[j] {
      assert exits[i] != exits[j];
    }
  }

  method SelectLevel(worker: Worker, level: seq<Candidate>) returns (next: seq<Candidate>)
    requires forall entry: nat | entry in worker :: Distinct(worker[entry])
    ensures Selects(worker, level, next, |level|)
  {
    next := [];
    for parent := 0 to |level|
      invariant Selects(worker, level, next, parent)
    {
      if level[parent].state in worker {
        var candidates := ExtendChain(worker[level[parent].state], parent);
        DistinctJoin(next, candidates);
        next := next + candidates;
      }
    }
  }

  lemma {:induction false} DistinctJoin(next: seq<Candidate>, more: seq<Candidate>)
    requires Distinct(next) && Distinct(more) && forall c | c in next :: c !in more
    ensures Distinct(next + more)
  {
    var all := next + more;
    forall i: nat, j: nat | i < j < |all| ensures all[i] != all[j] {
      if i < |next| <= j {
        assert all[i] in next && all[j] in more;
      }
    }
  }

  lemma {:induction false} ChainKept(levels: Levels, next: seq<Candidate>, l: nat, i: nat)
    requires Rooted(levels) && Rooted(levels + [next]) && l < |levels| && i < |levels[l]|
    ensures ChainOf(levels + [next], l, i) == ChainOf(levels, l, i)
    decreases l
  {
    if l > 0 {
      ChainKept(levels, next, l - 1, levels[l][i].parent);
    }
  }

  lemma {:induction false} RootedMore(levels: Levels, next: seq<Candidate>, worker: Worker)
    requires Rooted(levels) && Selects(worker, levels[|levels| - 1], next, |levels[|levels| - 1]|)
    ensures Rooted(levels + [next])
  {
    forall i: nat | i < |next| ensures next[i].parent < |levels[|levels| - 1]| {
      assert next[i] in next;
    }
  }

  /** A chain extended by an exit of its copy reads on to the next cut. */
  lemma {:induction false} ChainExtends(s: Scan, levels: Levels, l: nat, worker: Worker, next: seq<Candidate>, i: nat)
    requires s.Valid() && Stitched(s, levels, l) && |levels| == l + 1 && l < s.Chunks() && IsWorker(s, l, worker)
    requires Selects(worker, levels[l], next, |levels[l]|) && Rooted(levels + [next]) && i < |next| && l + 2 <= |s.cuts|
    ensures ChainReads(s, levels + [next], l + 1, i) && MayExit(s, l, next[i].state)
  {
    var c := next[i];
    SelectedExit(worker, levels[l], next, i);
    var from := levels[l][c.parent];
    OfferedExit(s, l, worker, from.state, Exit(c.state, c.boundaries));
    assert ChainReads(s, levels, l, c.parent) && s.Spans(l);
    hide Reads, MayExit, IsWorker, Selects, Stitched, Scan.Valid;
    ChainReadsOn(s, levels, l, next, i);
  }

  lemma {:induction false} SelectedExit(worker: Worker, level: seq<Candidate>, next: seq<Candidate>, i: nat)
    requires Selects(worker, level, next, |level|) && i < |next|
    ensures next[i].parent < |level| && level[next[i].parent].state in worker
    ensures Exit(next[i].state, next[i].boundaries) in worker[level[next[i].parent].state]
  {
    assert next[i] in next;
  }

  lemma {:induction false} ChainReadsOn(s: Scan, levels: Levels, l: nat, next: seq<Candidate>, i: nat)
    requires s.Valid() && s.Spans(l) && Rooted(levels) && Rooted(levels + [next]) && |levels| == l + 1 && l < s.Chunks()
    requires i < |next| && next[i].parent < |levels[l]| && ChainReads(s, levels, l, next[i].parent)
    requires Reads(s.t, levels[l][next[i].parent].state, s.BytesOf(l), next[i].boundaries, next[i].state)
    ensures ChainReads(s, levels + [next], l + 1, i)
  {
    hide Reads, Scan.Valid;
    var c := next[i];
    ChainKept(levels, next, l, c.parent);
    assert s.input[..s.cuts[l]] + s.BytesOf(l) == s.input[..s.cuts[l + 1]];
    ReadsJoin(
      s.t, s.t.start, s.input[..s.cuts[l]], ChainOf(levels, l, c.parent), levels[l][c.parent].state,
      s.BytesOf(l), c.boundaries, c.state);
  }

  lemma {:induction false} OfferedExit(s: Scan, l: nat, worker: Worker, q: nat, e: Exit)
    requires s.Valid() && l < s.Chunks() && IsWorker(s, l, worker) && q in worker && e in worker[q]
    ensures MayExit(s, l, e.state) && Reads(s.t, q, s.BytesOf(l), e.boundaries, e.state)
  {
    hide MayExit, Reads, Scan.Valid;
  }

  /** Where an accepted marking stands at the next cut may be exited in. */
  lemma {:induction false} MarkingMayExit(s: Scan, l: nat, u: seq<bool>, q: nat)
    requires s.Valid() && s.Sound() && l < s.Chunks() && Accepted(s.t, s.input, u)
    requires CarriedAt(s.t, s.input, u, s.cuts[l + 1], q)
    ensures MayExit(s, l, q)
  {
    assert s.Spans(l);
    ChunkExits(s, l, q);
    hide MayExit;
    var chunk, end := s.ChunkAt(l), s.cuts[l + 1];
    var p: nat :| p in s.t.accepting && Reads(s.t, s.t.start, s.input, u, p);
    var m := ReadsSplit(s.t, s.t.start, s.input, u, p, end);
    OneReading(s.t, s.t.start, s.input[..end], u[..end], m, q);
    StateBounded(s, s.input[..end], u[..end], q);
    if l + 1 == s.Chunks() {
      assert s.input[end..] == [] && u[end..] == [];
      ReadsNothing(s.t, q, p);
      ReadsNothing(s.t, q, q);
      assert Reads(s.t, q, chunk.lookahead, [], q);
    } else {
      var k := |chunk.lookahead|;
      var r := ReadsSplit(s.t, q, s.input[end..], u[end..], p, k);
      assert s.input[end..][..k] == chunk.lookahead;
      if chunk.toEnd {
        assert s.input[end..][k..] == [] && u[end..][k..] == [];
        ReadsNothing(s.t, r, p);
      }
      assert Reads(s.t, q, chunk.lookahead, u[end..][..k], r) && (chunk.toEnd ==> r in s.t.accepting);
    }
  }

  lemma {:induction false} StateBounded(s: Scan, bytes: Word, u: seq<bool>, q: nat)
    requires s.Valid() && Reads(s.t, s.t.start, bytes, u, q)
    ensures q < s.n
  {
    RunBounded(s.t, s.n, s.t.start, Mark(bytes, u));
  }

  lemma {:induction false} RunBounded(t: Table, n: nat, q: nat, marks: seq<G.Marked>)
    requires InStates(t, n) && q < n
    ensures RunTo(t, q, marks).Some? ==> RunTo(t, q, marks).value < n
  {
    if marks != [] {
      RunBounded(t, n, q, marks[..|marks| - 1]);
    }
  }

  /** An accepted marking followed to one cut is followed to the next. */
  lemma {:induction false} FollowsOn(
      s: Scan, levels: Levels, l: nat, worker: Worker, next: seq<Candidate>, u: seq<bool>)
    requires s.Valid() && s.Sound() && Stitched(s, levels, l) && |levels| == l + 1 && l < s.Chunks()
    requires IsWorker(s, l, worker)
    requires Selects(worker, levels[l], next, |levels[l]|) && Rooted(levels + [next]) && Accepted(s.t, s.input, u)
    ensures Follows(s, levels + [next], l + 1, u)
  {
    assert s.Spans(l);
    var i, q := FollowedChain(s, levels, l, u);
    EntryKnown(s, levels, l, i);
    AcceptedLength(s.t, s.input, u);
    var m := ExitTaken(s, l, worker, u, q);
    hide IsWorker, Accepted, Stitched, Scan.Sound, Scan.Valid, Reads, Selects;
    var j := ChainTaken(levels, l, worker, next, i, m, u, s.cuts[l], s.cuts[l + 1]);
  }

  /** The candidate of an exit taken goes on with the marking. */
  lemma {:induction false} ChainTaken(
      levels: Levels, l: nat, worker: Worker, next: seq<Candidate>, i: nat, m: nat, u: seq<bool>, begin: nat, end: nat)
    returns (j: nat)
    requires Rooted(levels) && |levels| == l + 1 && Rooted(levels + [next])
    requires Selects(worker, levels[l], next, |levels[l]|)
    requires i < |levels[l]| && begin <= end <= |u| && ChainOf(levels, l, i) == u[..begin]
    requires levels[l][i].state in worker && Exit(m, u[begin..end]) in worker[levels[l][i].state]
    ensures j < |next| && ChainOf(levels + [next], l + 1, j) == u[..end] && next[j].state == m
  {
    var c := Candidate(m, i, u[begin..end]);
    assert c in next;
    j :| 0 <= j < |next| && next[j] == c;
    ChainKept(levels, next, l, i);
    assert u[..begin] + u[begin..end] == u[..end];
  }

  lemma AcceptedLength(t: Table, bytes: Word, u: seq<bool>)
    requires Accepted(t, bytes, u)
    ensures |u| == |bytes|
  {
  }

  /** The copy from where an accepted marking stands offers the exit the marking takes. */
  lemma {:induction false} ExitTaken(s: Scan, l: nat, worker: Worker, u: seq<bool>, q: nat) returns (m: nat)
    requires s.Valid() && s.Sound() && l < s.Chunks() && IsWorker(s, l, worker) && Accepted(s.t, s.input, u)
    requires s.Spans(l)
    requires |u| == |s.input| && Reads(s.t, s.t.start, s.input[..s.cuts[l]], u[..s.cuts[l]], q)
    requires q in s.ChunkAt(l).entries
    ensures q in worker && Exit(m, u[s.cuts[l]..s.cuts[l + 1]]) in worker[q]
  {
    var begin, end := s.cuts[l], s.cuts[l + 1];
    var p: nat :| p in s.t.accepting && Reads(s.t, s.t.start, s.input, u, p);
    hide Reads, Scan.Sound, Scan.Valid, IsWorker, MayExit;
    m := ReadsSplit(s.t, s.t.start, s.input, u, p, end);
    assert CarriedAt(s.t, s.input, u, end, m);
    MarkingMayExit(s, l, u, m);
    var r := ReadsSplit(s.t, s.t.start, s.input[..end], u[..end], m, begin);
    assert s.input[..end][..begin] == s.input[..begin] && u[..end][..begin] == u[..begin];
    assert s.input[..end][begin..] == s.BytesOf(l) && u[..end][begin..] == u[begin..end];
    OneReading(s.t, s.t.start, s.input[..begin], u[..begin], r, q);
    WorkerOffers(s, l, worker, q, Exit(m, u[begin..end]));
  }

  lemma {:induction false} WorkerOffers(s: Scan, l: nat, worker: Worker, q: nat, e: Exit)
    requires s.Valid() && l < s.Chunks() && IsWorker(s, l, worker) && q in s.ChunkAt(l).entries
    requires MayExit(s, l, e.state) && Reads(s.t, q, s.BytesOf(l), e.boundaries, e.state)
    ensures q in worker && e in worker[q]
  {
    hide MayExit, Reads, Scan.Valid;
  }

  /** The chain that follows an accepted marking stands where the marking does. */
  lemma {:induction false} FollowedChain(s: Scan, levels: Levels, l: nat, u: seq<bool>) returns (i: nat, q: nat)
    requires s.Valid() && Stitched(s, levels, l) && Accepted(s.t, s.input, u)
    ensures Rooted(levels) && i < |levels[l]|
    ensures s.cuts[l] <= |u| && ChainOf(levels, l, i) == u[..s.cuts[l]] && q == levels[l][i].state
    ensures l < |s.cuts| && s.cuts[l] <= |s.input| && Reads(s.t, s.t.start, s.input[..s.cuts[l]], u[..s.cuts[l]], q)
  {
    hide Reads, Accepted;
    assert Follows(s, levels, l, u);
    i :| i < |levels[l]| && s.cuts[l] <= |u| && ChainOf(levels, l, i) == u[..s.cuts[l]];
    q := levels[l][i].state;
    assert ChainReads(s, levels, l, i);
  }

  /** A chain's state is an entry of the next chunk. */
  lemma {:induction false} EntryKnown(s: Scan, levels: Levels, l: nat, i: nat)
    requires s.Valid() && Stitched(s, levels, l) && l < s.Chunks() && i < |levels[l]|
    ensures levels[l][i].state in s.ChunkAt(l).entries
  {
    assert ChainReads(s, levels, l, i);
    if l == 0 {
      ReadsNothing(s.t, s.t.start, levels[0][i].state);
    } else {
      assert MayExit(s, l - 1, levels[l][i].state);
    }
  }

  lemma {:induction false} ApartMore(
      s: Scan, levels: Levels, l: nat, worker: Worker, next: seq<Candidate>, all: Levels, top: nat)
    requires s.Valid() && Stitched(s, levels, l) && |levels| == top == l + 1 && l < s.Chunks() && IsWorker(s, l, worker)
    requires Selects(worker, levels[l], next, |levels[l]|) && all == levels + [next] && Rooted(all) && l + 2 <= |s.cuts|
    requires forall i: nat | i < |next| :: ChainReads(s, all, top, i)
    ensures Apart(all, top)
  {
    forall i: nat, j: nat | i < j < |next| ensures ChainOf(all, top, i) != ChainOf(all, top, j) {
      if ChainOf(all, top, i) == ChainOf(all, top, j) {
        SameCandidate(s, levels, l, next, i, j);
      }
    }
  }

  lemma OneChain(levels: Levels, l: nat, i: nat, j: nat)
    requires Rooted(levels) && l < |levels| && Apart(levels, l) && i < |levels[l]| && j < |levels[l]|
    ensures ChainOf(levels, l, i) == ChainOf(levels, l, j) ==> i == j
  {
  }

  /** Candidates of one chain and one state are one candidate. */
  lemma {:induction false} SameCandidate(s: Scan, levels: Levels, l: nat, next: seq<Candidate>, i: nat, j: nat)
    requires s.Valid() && Stitched(s, levels, l) && |levels| == l + 1 && l + 2 <= |s.cuts|
    requires Rooted(levels + [next]) && i < |next| && j < |next|
    requires ChainReads(s, levels + [next], l + 1, i) && ChainReads(s, levels + [next], l + 1, j)
    requires ChainOf(levels + [next], l + 1, i) == ChainOf(levels + [next], l + 1, j)
    ensures next[i] == next[j]
  {
    var all, a, b := levels + [next], next[i], next[j];
    assert s.Spans(l);
    ChainKept(levels, next, l, a.parent);
    ChainKept(levels, next, l, b.parent);
    assert ChainReads(s, levels, l, a.parent) && ChainReads(s, levels, l, b.parent);
    var x, y := ChainOf(levels, l, a.parent), ChainOf(levels, l, b.parent);
    assert |x| == |y| == s.cuts[l];
    assert x + a.boundaries == y + b.boundaries;
    assert x == (x + a.boundaries)[..s.cuts[l]] && y == (y + b.boundaries)[..s.cuts[l]];
    assert a.boundaries == (x + a.boundaries)[s.cuts[l]..] && b.boundaries == (y + b.boundaries)[s.cuts[l]..];
    OneChain(levels, l, a.parent, b.parent);
    OneReading(s.t, s.t.start, s.input[..s.cuts[l + 1]], ChainOf(all, l + 1, i), a.state, b.state);
  }

  lemma {:induction false} StitchedMore(s: Scan, levels: Levels, l: nat, worker: Worker, next: seq<Candidate>)
    requires s.Valid() && s.Sound() && Stitched(s, levels, l) && |levels| == l + 1 && l < s.Chunks()
    requires IsWorker(s, l, worker)
    requires Selects(worker, levels[l], next, |levels[l]|)
    ensures Stitched(s, levels + [next], l + 1)
  {
    RootedMore(levels, next, worker);
    var all := levels + [next];
    forall i: nat | i < |next| ensures ChainReads(s, all, l + 1, i) && MayExit(s, l, next[i].state) {
      ChainExtends(s, levels, l, worker, next, i);
    }
    ApartMore(s, levels, l, worker, next, all, l + 1);
    hide Scan.Sound, IsWorker, Selects, ChainReads, MayExit, Accepted, Follows, Apart;
    forall u | Accepted(s.t, s.input, u) ensures Follows(s, all, l + 1, u) {
      FollowsOn(s, levels, l, worker, next, u);
    }
  }

  /** Extending every chain by every exit keeps exactly the readings that pass the next cut too. */
  lemma {:induction false} ExactMore(s: Scan, levels: Levels, l: nat, worker: Worker, next: seq<Candidate>)
    requires s.Valid() && Stitched(s, levels, l) && Exact(s, levels, l) && |levels| == l + 1 && l < s.Chunks()
    requires IsWorker(s, l, worker) && Selects(worker, levels[l], next, |levels[l]|)
    requires Stitched(s, levels + [next], l + 1)
    ensures Exact(s, levels + [next], l + 1)
  {
    var all, top := levels + [next], l + 1;
    forall u, q: nat ensures HasChain(all, top, u, q) <==> Passes(s, top, u, q) {
      if HasChain(all, top, u, q) {
        ChainPasses(s, levels, l, worker, next, u, q);
      }
      if Passes(s, top, u, q) {
        PassingKept(s, levels, l, worker, next, u, q);
      }
    }
  }

  lemma {:induction false} ChainPasses(
      s: Scan, levels: Levels, l: nat, worker: Worker, next: seq<Candidate>, u: seq<bool>, q: nat)
    requires s.Valid() && Exact(s, levels, l) && |levels| == l + 1 && l < s.Chunks() && IsWorker(s, l, worker)
    requires Selects(worker, levels[l], next, |levels[l]|) && Stitched(s, levels + [next], l + 1)
    requires HasChain(levels + [next], l + 1, u, q)
    ensures Passes(s, l + 1, u, q)
  {
    var all := levels + [next];
    hide Stitched, IsWorker, Selects, MayExit, Reads, Passes, Scan.Valid;
    StitchedRooted(s, all, l + 1);
    var i: nat :| i < |next| && ChainOf(all, l + 1, i) == u && next[i].state == q;
    var c := next[i];
    SelectedExit(worker, levels[l], next, i);
    OfferedExit(s, l, worker, levels[l][c.parent].state, Exit(c.state, c.boundaries));
    ChainKept(levels, next, l, c.parent);
    ChainPassed(s, levels, l, c.parent);
    PassesOn(s, l, ChainOf(levels, l, c.parent), levels[l][c.parent].state, c.boundaries, q);
  }

  lemma {:induction false} ChainPassed(s: Scan, levels: Levels, l: nat, i: nat)
    requires s.Valid() && Exact(s, levels, l) && i < |levels[l]|
    ensures Passes(s, l, ChainOf(levels, l, i), levels[l][i].state)
  {
    hide Passes, Scan.Valid;
    assert HasChain(levels, l, ChainOf(levels, l, i), levels[l][i].state);
  }

  /** The reading that passes a cut is some chain kept there. */
  lemma {:induction false} PassedChain(s: Scan, levels: Levels, l: nat, u: seq<bool>, q: nat) returns (i: nat)
    requires s.Valid() && Exact(s, levels, l) && Passes(s, l, u, q)
    ensures Rooted(levels) && i < |levels[l]| && ChainOf(levels, l, i) == u && levels[l][i].state == q
  {
    hide Passes, Scan.Valid;
    assert HasChain(levels, l, u, q);
    i :| i < |levels[l]| && ChainOf(levels, l, i) == u && levels[l][i].state == q;
  }

  lemma {:induction false} PassesOn(s: Scan, l: nat, front: seq<bool>, m: nat, part: seq<bool>, q: nat)
    requires s.Valid() && l < s.Chunks() && Passes(s, l, front, m) && MayExit(s, l, q)
    requires Reads(s.t, m, s.BytesOf(l), part, q)
    ensures Passes(s, l + 1, front + part, q)
  {
    assert s.Spans(l);
    PassesLength(s, l, front, m);
    var u := front + part;
    assert u[..s.cuts[l]] == front && u[s.cuts[l]..] == part;
    hide MayExit;
  }

  lemma {:induction false} PassesLength(s: Scan, l: nat, u: seq<bool>, q: nat)
    requires s.Valid() && l < |s.cuts| && Passes(s, l, u, q)
    ensures |u| == s.cuts[l]
  {
    hide MayExit, Reads;
  }

  lemma {:induction false} PassingKept(
      s: Scan, levels: Levels, l: nat, worker: Worker, next: seq<Candidate>, u: seq<bool>, q: nat)
    requires s.Valid() && Stitched(s, levels, l) && Exact(s, levels, l) && |levels| == l + 1 && l < s.Chunks()
    requires IsWorker(s, l, worker) && Selects(worker, levels[l], next, |levels[l]|) && Rooted(levels + [next])
    requires Passes(s, l + 1, u, q)
    ensures HasChain(levels + [next], l + 1, u, q)
  {
    hide Stitched, Exact, IsWorker, Reads, HasChain, MayExit, Selects, Passes, Scan.Valid;
    var m := PassesBack(s, l, u, q);
    var begin, end := s.cuts[l], s.cuts[l + 1];
    var i := PassedChain(s, levels, l, u[..begin], m);
    EntryKnown(s, levels, l, i);
    assert u[begin..end] == u[begin..] && u[..end] == u;
    WorkerOffers(s, l, worker, m, Exit(q, u[begin..end]));
    var j := ChainTaken(levels, l, worker, next, i, q, u, begin, end);
    HasTaken(levels + [next], l + 1, j, u, q);
  }

  lemma {:induction false} PassesBack(s: Scan, l: nat, u: seq<bool>, q: nat) returns (m: nat)
    requires s.Valid() && l < s.Chunks() && Passes(s, l + 1, u, q)
    ensures l + 1 < |s.cuts| && s.cuts[l] <= s.cuts[l + 1] == |u| && MayExit(s, l, q)
    ensures Passes(s, l, u[..s.cuts[l]], m) && Reads(s.t, m, s.BytesOf(l), u[s.cuts[l]..], q)
  {
    hide Reads, MayExit;
    m :| Passes(s, l, u[..s.cuts[l]], m) && Reads(s.t, m, s.BytesOf(l), u[s.cuts[l]..], q);
  }

  lemma HasTaken(levels: Levels, l: nat, i: nat, u: seq<bool>, q: nat)
    requires Rooted(levels) && l < |levels| && i < |levels[l]| && ChainOf(levels, l, i) == u && levels[l][i].state == q
    ensures HasChain(levels, l, u, q)
  {
  }

  lemma {:induction false} StitchedRoot(s: Scan)
    requires s.Valid()
    ensures Stitched(s, [[Candidate(s.t.start, 0, [])]], 0)
  {
    var levels := [[Candidate(s.t.start, 0, [])]];
    ReadsNothing(s.t, s.t.start, s.t.start);
    assert s.input[..0] == [];
    assert ChainReads(s, levels, 0, 0);
    hide Accepted;
    forall u | Accepted(s.t, s.input, u) ensures Follows(s, levels, 0, u) {
      assert ChainOf(levels, 0, 0) == u[..0];
    }
  }

  /** At every level so far the chains are as they should be, and all that should be. */
  ghost predicate AllStitched(s: Scan, levels: Levels)
    requires s.Valid()
  {
    && Rooted(levels) && |levels| <= |s.cuts|
    && forall l: nat | l < |levels| :: Stitched(s, levels, l) && Exact(s, levels, l)
  }

  lemma {:induction false} LevelKept(s: Scan, levels: Levels, next: seq<Candidate>, l: nat)
    requires s.Valid() && Stitched(s, levels, l) && Exact(s, levels, l) && Rooted(levels + [next])
    requires |levels| < |s.cuts|
    ensures Stitched(s, levels + [next], l) && Exact(s, levels + [next], l)
  {
    var all := levels + [next];
    assert all[l] == levels[l];
    forall i: nat | i < |levels[l]| ensures ChainOf(all, l, i) == ChainOf(levels, l, i) {
      ChainKept(levels, next, l, i);
    }
    assert forall i: nat | i < |levels[l]| :: ChainReads(s, all, l, i) <==> ChainReads(s, levels, l, i);
    hide Accepted, MayExit, Reads, ChainReads, Passes, ChainOf;
    forall u | Accepted(s.t, s.input, u) ensures Follows(s, all, l, u) {
      assert Follows(s, levels, l, u);
    }
    forall u, q: nat ensures HasChain(all, l, u, q) <==> HasChain(levels, l, u, q) {
    }
  }

  lemma {:induction false} AllStitchedMore(s: Scan, levels: Levels, next: seq<Candidate>)
    requires s.Valid() && AllStitched(s, levels) && |levels| < |s.cuts|
    requires Stitched(s, levels + [next], |levels|) && Exact(s, levels + [next], |levels|)
    ensures AllStitched(s, levels + [next])
  {
    hide Stitched, Exact;
    var all := levels + [next];
    StitchedRooted(s, all, |levels|);
    forall l: nat | l < |all| ensures Stitched(s, all, l) && Exact(s, all, l) {
      if l < |levels| {
        LevelKept(s, levels, next, l);
      }
    }
  }

  lemma StitchedRooted(s: Scan, levels: Levels, l: nat)
    requires s.Valid() && Stitched(s, levels, l)
    ensures Rooted(levels) && l < |levels| <= |s.cuts|
  {
  }

  lemma {:induction false} StitchedLengths(s: Scan, levels: Levels, l: nat)
    requires s.Valid() && Stitched(s, levels, l)
    ensures Rooted(levels) && l < |levels| <= |s.cuts|
    ensures forall i: nat | i < |levels[l]| :: |ChainOf(levels, l, i)| == s.cuts[l]
  {
    hide Accepted;
    forall i: nat | i < |levels[l]| ensures |ChainOf(levels, l, i)| == s.cuts[l] {
      assert ChainReads(s, levels, l, i);
      if l > 0 {
        assert s.Spans(l - 1);
      }
    }
  }

  /** Stitches the copies: every exit a selected copy offers kept, nothing where no chain is left at some cut. */
  method Stitch(s: Scan, workers: seq<Worker>) returns (levels: Option<Levels>)
    requires s.Valid() && s.Sound() && AreWorkers(s, workers)
    ensures levels.None? ==> forall u :: !Accepted(s.t, s.input, u)
    ensures levels.Some? ==> |levels.value| == s.Chunks() + 1 && AllStitched(s, levels.value)
    ensures levels.Some? ==> levels.value[s.Chunks()] != []
  {
    hide Scan.Valid, Scan.Sound, Stitched, IsWorker, Selects, Accepted, AllStitched, Exact;
    var built: Levels := [[Candidate(s.t.start, 0, [])]];
    StitchedRoot(s);
    RootExact(s);
    for l := 0 to s.Chunks()
      invariant |built| == l + 1 && Stitched(s, built, l) && built[l] != [] && Exact(s, built, l)
      invariant AllStitched(s, built)
    {
      assert IsWorker(s, l, workers[l]);
      WorkerDistinct(s, l, workers[l]);
      var next := SelectLevel(workers[l], built[l]);
      StitchedMore(s, built, l, workers[l], next);
      ExactMore(s, built, l, workers[l], next);
      AllStitchedMore(s, built, next);
      built := built + [next];
      if next == [] {
        NoneFollows(s, built, l + 1);
        return None;
      }
    }
    levels := Some(built);
  }

  lemma {:induction false} RootExact(s: Scan)
    requires s.Valid()
    ensures Exact(s, [[Candidate(s.t.start, 0, [])]], 0) && AllStitched(s, [[Candidate(s.t.start, 0, [])]])
  {
    var levels := [[Candidate(s.t.start, 0, [])]];
    StitchedRoot(s);
    forall u, q: nat ensures HasChain(levels, 0, u, q) <==> Passes(s, 0, u, q) {
      if u == [] && q == s.t.start {
        assert ChainOf(levels, 0, 0) == u && levels[0][0].state == q;
      }
    }
  }

  lemma WorkerDistinct(s: Scan, i: nat, worker: Worker)
    requires s.Valid() && i < s.Chunks() && IsWorker(s, i, worker)
    ensures forall entry: nat | entry in worker :: Distinct(worker[entry])
  {
  }

  lemma {:induction false} NoneFollows(s: Scan, levels: Levels, l: nat)
    requires s.Valid() && Stitched(s, levels, l) && levels[l] == []
    ensures forall u :: !Accepted(s.t, s.input, u)
  {
    hide Accepted;
    forall u ensures !Accepted(s.t, s.input, u) {
      assert !Follows(s, levels, l, u);
    }
  }

  // ----- the segmentation -----

  /** The last level's chains are accepted markings of the whole input. */
  lemma {:induction false} LastAccepted(s: Scan, levels: Levels, i: nat)
    requires s.Valid() && Stitched(s, levels, s.Chunks()) && i < |levels[s.Chunks()]|
    ensures Accepted(s.t, s.input, ChainOf(levels, s.Chunks(), i))
  {
    var last := s.Chunks();
    assert ChainReads(s, levels, last, i) && MayExit(s, last - 1, levels[last][i].state);
    assert s.input[..s.cuts[last]] == s.input;
  }

  /** A functional automaton leaves one chain at the input's end. */
  lemma {:induction false} OneAtTheEnd(s: Scan, levels: Levels)
    requires s.Valid() && Functional(s.t) && Stitched(s, levels, s.Chunks()) && levels[s.Chunks()] != []
    ensures |levels[s.Chunks()]| == 1
  {
    SameEnd(s, levels, 0, |levels[s.Chunks()]| - 1);
  }

  lemma {:induction false} SameEnd(s: Scan, levels: Levels, i: nat, j: nat)
    requires s.Valid() && Functional(s.t) && Stitched(s, levels, s.Chunks())
    requires i < |levels[s.Chunks()]| && j < |levels[s.Chunks()]|
    ensures i == j
  {
    var last := s.Chunks();
    LastAccepted(s, levels, i);
    LastAccepted(s, levels, j);
    OneMarking(s.t, s.input, ChainOf(levels, last, i), ChainOf(levels, last, j));
    OneChain(levels, last, i, j);
  }

  lemma OneMarking(t: Table, bytes: Word, u: seq<bool>, v: seq<bool>)
    requires Functional(t) && Accepted(t, bytes, u) && Accepted(t, bytes, v)
    ensures u == v
  {
  }

  /** The boundaries of one chain, its chunks' read back along the pointers. */
  method SegmentationOf(levels: Levels, l: nat, i: nat) returns (boundaries: seq<bool>)
    requires Rooted(levels) && l < |levels| && i < |levels[l]|
    ensures boundaries == ChainOf(levels, l, i)
  {
    var level: nat, at: nat := l, i;
    boundaries := [];
    while level > 0
      invariant level < |levels| && at < |levels[level]|
      invariant ChainOf(levels, level, at) + boundaries == ChainOf(levels, l, i)
    {
      boundaries := levels[level][at].boundaries + boundaries;
      level, at := level - 1, levels[level][at].parent;
    }
  }

  // ----- where a chunk's marking is settled -----

  /** The chain at an earlier level that the chain extends. */
  function AncestorOf(levels: Levels, l: nat, i: nat, k: nat): (a: nat)
    requires Rooted(levels) && k <= l < |levels| && i < |levels[l]|
    ensures a < |levels[k]|
    decreases l
  {
    if k == l then i else AncestorOf(levels, l - 1, levels[l][i].parent, k)
  }

  /** Every chain of the level extends one chain at the earlier level. */
  ghost predicate ShareAt(levels: Levels, l: nat, k: nat)
    requires Rooted(levels) && k <= l < |levels|
  {
    forall i: nat, j: nat | i < |levels[l]| && j < |levels[l]| ::
      AncestorOf(levels, l, i, k) == AncestorOf(levels, l, j, k)
  }

  /** The chains at an earlier level that chains of the level extend. */
  ghost predicate AreAncestors(levels: Levels, l: nat, k: nat, at: set<nat>)
    requires Rooted(levels) && k <= l < |levels|
  {
    forall a: nat :: a in at <==> exists i: nat :: i < |levels[l]| && AncestorOf(levels, l, i, k) == a
  }

  lemma {:induction false} AncestorParent(levels: Levels, l: nat, i: nat, k: nat)
    requires Rooted(levels) && 0 < k <= l < |levels| && i < |levels[l]|
    ensures AncestorOf(levels, l, i, k - 1) == levels[k][AncestorOf(levels, l, i, k)].parent
    decreases l
  {
    if k < l {
      AncestorParent(levels, l - 1, levels[l][i].parent, k);
    }
  }

  lemma {:induction false} AncestorsBefore(levels: Levels, l: nat, k: nat, at: set<nat>)
    requires Rooted(levels) && 0 < k <= l < |levels| && AreAncestors(levels, l, k, at)
    ensures (forall a: nat | a in at :: a < |levels[k]|)
    ensures AreAncestors(levels, l, k - 1, set a: nat | a in at && a < |levels[k]| :: levels[k][a].parent)
  {
    forall a: nat | a in at ensures a < |levels[k]| {
      var i: nat :| i < |levels[l]| && AncestorOf(levels, l, i, k) == a;
    }
    var before: set<nat> := set a: nat | a in at && a < |levels[k]| :: levels[k][a].parent;
    var lower: nat := k - 1;
    forall b: nat ensures b in before <==> exists i: nat :: i < |levels[l]| && AncestorOf(levels, l, i, lower) == b {
      if b in before {
        var a: nat :| a in at && a < |levels[k]| && levels[k][a].parent == b;
        var i: nat :| i < |levels[l]| && AncestorOf(levels, l, i, k) == a;
        AncestorParent(levels, l, i, k);
      }
      if i: nat :| i < |levels[l]| && AncestorOf(levels, l, i, lower) == b {
        AncestorParent(levels, l, i, k);
        assert AncestorOf(levels, l, i, k) in at;
      }
    }
  }

  lemma {:induction false} FewAncestorsShare(levels: Levels, l: nat, k: nat, at: set<nat>)
    requires Rooted(levels) && k <= l < |levels| && AreAncestors(levels, l, k, at)
    ensures |at| <= 1 <==> ShareAt(levels, l, k)
  {
    if |at| <= 1 {
      forall i: nat, j: nat | i < |levels[l]| && j < |levels[l]|
        ensures AncestorOf(levels, l, i, k) == AncestorOf(levels, l, j, k)
      {
        AtMostOne(at, AncestorOf(levels, l, i, k), AncestorOf(levels, l, j, k));
      }
    }
    if ShareAt(levels, l, k) && at != {} {
      var a: nat :| a in at;
      forall b: nat | b in at ensures b == a {
        var i: nat :| i < |levels[l]| && AncestorOf(levels, l, i, k) == a;
        var j: nat :| j < |levels[l]| && AncestorOf(levels, l, j, k) == b;
      }
      SubsetSize(at, {a});
    }
  }

  lemma {:induction false} AtMostOne(at: set<nat>, a: nat, b: nat)
    requires |at| <= 1 && a in at && b in at
    ensures a == b
  {
    if a != b {
      SubsetSize({a, b}, at);
    }
  }

  /** The cut at which the chains kept at a level last share a chain: their nearest common ancestor's level. */
  method CommonLevel(levels: Levels, l: nat) returns (shared: nat)
    requires Rooted(levels) && l < |levels|
    ensures shared <= l && ShareAt(levels, l, shared) && forall k: nat | shared < k <= l :: !ShareAt(levels, l, k)
  {
    hide AreAncestors, ShareAt, Rooted;
    shared := l;
    var at := Below(|levels[l]|);
    AllAtLevel(levels, l, at);
    FewAncestorsShare(levels, l, shared, at);
    while |at| > 1
      invariant shared <= l && AreAncestors(levels, l, shared, at)
      invariant |at| <= 1 <==> ShareAt(levels, l, shared)
      invariant forall k: nat | shared < k <= l :: !ShareAt(levels, l, k)
      decreases shared
    {
      if shared == 0 {
        RootShared(levels, l);
      }
      AncestorsBefore(levels, l, shared, at);
      at := set a: nat | a in at && a < |levels[shared]| :: levels[shared][a].parent;
      shared := shared - 1;
      FewAncestorsShare(levels, l, shared, at);
    }
  }

  lemma {:induction false} AllAtLevel(levels: Levels, l: nat, at: set<nat>)
    requires Rooted(levels) && l < |levels| && forall i: nat :: i in at <==> i < |levels[l]|
    ensures AreAncestors(levels, l, l, at)
  {
    forall a: nat | a in at ensures exists i: nat :: i < |levels[l]| && AncestorOf(levels, l, i, l) == a {
      assert AncestorOf(levels, l, a, l) == a;
    }
  }

  /** The start is every chain's. */
  lemma RootShared(levels: Levels, l: nat)
    requires Rooted(levels) && l < |levels|
    ensures ShareAt(levels, l, 0)
  {
  }

  /** A chain begins with the chain it extends. */
  lemma {:induction false} ChainExtendsAncestor(levels: Levels, l: nat, i: nat, k: nat)
    requires Rooted(levels) && k <= l < |levels| && i < |levels[l]|
    ensures ChainOf(levels, k, AncestorOf(levels, l, i, k)) <= ChainOf(levels, l, i)
    decreases l
  {
    if k < l {
      ChainExtendsAncestor(levels, l - 1, levels[l][i].parent, k);
    }
  }

  /** Chains that share a chain past a chunk mark the chunk alike. */
  lemma {:induction false} SharedChunk(s: Scan, levels: Levels, l: nat, i: nat, j: nat, k: nat, chunk: nat)
    requires s.Valid() && AllStitched(s, levels) && chunk < k <= l < |levels| && i < |levels[l]| && j < |levels[l]|
    requires AncestorOf(levels, l, i, k) == AncestorOf(levels, l, j, k)
    ensures s.cuts[chunk] <= s.cuts[chunk + 1] <= |ChainOf(levels, l, i)|
    ensures s.cuts[chunk + 1] <= |ChainOf(levels, l, j)|
    ensures ChainOf(levels, l, i)[s.cuts[chunk]..s.cuts[chunk + 1]] ==
      ChainOf(levels, l, j)[s.cuts[chunk]..s.cuts[chunk + 1]]
  {
    var a := AncestorOf(levels, l, i, k);
    ChainExtendsAncestor(levels, l, i, k);
    ChainExtendsAncestor(levels, l, j, k);
    CutsOrdered(s, chunk + 1, k);
    assert s.Spans(chunk);
    var x, begin, end := ChainOf(levels, k, a), s.cuts[chunk], s.cuts[chunk + 1];
    StitchedLengths(s, levels, k);
    assert ChainOf(levels, l, i)[begin..end] == x[begin..end] == ChainOf(levels, l, j)[begin..end];
  }

  lemma {:induction false} CutsOrdered(s: Scan, i: nat, j: nat)
    requires s.Valid() && i <= j < |s.cuts|
    ensures s.cuts[i] <= s.cuts[j]
    decreases j - i
  {
    if i < j {
      assert s.Spans(i);
      CutsOrdered(s, i + 1, j);
    }
  }

  /** Every level's common ancestor's level. */
  ghost predicate AreCommon(levels: Levels, common: seq<nat>)
    requires Rooted(levels)
  {
    && |common| == |levels|
    && forall l: nat | l < |levels| :: IsCommon(levels, l, common[l])
  }

  /** The level's chains last share a chain there. */
  ghost predicate IsCommon(levels: Levels, l: nat, shared: nat)
    requires Rooted(levels) && l < |levels|
  {
    shared <= l && ShareAt(levels, l, shared) && forall k: nat | shared < k <= l :: !ShareAt(levels, l, k)
  }

  method CommonLevels(levels: Levels) returns (common: seq<nat>)
    requires Rooted(levels)
    ensures AreCommon(levels, common)
    ensures forall l: nat | l < |levels| && |levels[l]| == 1 :: common[l] == l
  {
    hide ShareAt, Rooted;
    common := [];
    for l := 0 to |levels|
      invariant |common| == l && forall m: nat | m < l :: IsCommon(levels, m, common[m])
      invariant forall m: nat | m < l && |levels[m]| == 1 :: common[m] == m
    {
      var shared := CommonLevel(levels, l);
      if |levels[l]| == 1 {
        OneShares(levels, l);
      }
      common := common + [shared];
    }
  }

  lemma OneShares(levels: Levels, l: nat)
    requires Rooted(levels) && l < |levels| && |levels[l]| == 1
    ensures ShareAt(levels, l, l)
  {
  }

  /** Sharing a chain at a level is sharing one at every earlier level. */
  lemma {:induction false} SharedBelow(levels: Levels, l: nat, k: nat, j: nat)
    requires Rooted(levels) && j <= k <= l < |levels| && ShareAt(levels, l, k)
    ensures ShareAt(levels, l, j)
    decreases k - j
  {
    if j < k {
      var lower: nat := k - 1;
      forall x: nat, y: nat | x < |levels[l]| && y < |levels[l]|
        ensures AncestorOf(levels, l, x, lower) == AncestorOf(levels, l, y, lower)
      {
        AncestorParent(levels, l, x, k);
        AncestorParent(levels, l, y, k);
      }
      SharedBelow(levels, l, k - 1, j);
    }
  }

  /** The chains last share one past the chunk exactly where they all pass through one exit of it. */
  lemma {:induction false} CommonPast(levels: Levels, l: nat, shared: nat, chunk: nat)
    requires Rooted(levels) && l < |levels| && IsCommon(levels, l, shared) && chunk < l
    ensures shared > chunk <==> ShareAt(levels, l, chunk + 1)
  {
    if shared > chunk {
      SharedBelow(levels, l, shared, chunk + 1);
    }
  }

  /** Chains that pass through one exit of a chunk are those that agree up to it. */
  lemma {:induction false} ShareIsAgreeing(s: Scan, levels: Levels, l: nat, k: nat, i: nat, j: nat)
    requires s.Valid() && AllStitched(s, levels) && k <= l < |levels| && i < |levels[l]| && j < |levels[l]|
    ensures s.cuts[k] <= |ChainOf(levels, l, i)| && s.cuts[k] <= |ChainOf(levels, l, j)|
    ensures AncestorOf(levels, l, i, k) == AncestorOf(levels, l, j, k)
       <==> ChainOf(levels, l, i)[..s.cuts[k]] == ChainOf(levels, l, j)[..s.cuts[k]]
  {
    var a, b := AncestorOf(levels, l, i, k), AncestorOf(levels, l, j, k);
    ChainExtendsAncestor(levels, l, i, k);
    ChainExtendsAncestor(levels, l, j, k);
    StitchedLengths(s, levels, k);
    StitchedApart(s, levels, k);
    OneChain(levels, k, a, b);
    hide AllStitched, Scan.Valid, ChainOf, AncestorOf, Rooted, Apart;
    var x, y := ChainOf(levels, k, a), ChainOf(levels, k, b);
    assert ChainOf(levels, l, i)[..s.cuts[k]] == x && ChainOf(levels, l, j)[..s.cuts[k]] == y;
  }

  lemma {:induction false} StitchedApart(s: Scan, levels: Levels, l: nat)
    requires s.Valid() && AllStitched(s, levels) && l < |levels|
    ensures Rooted(levels) && Apart(levels, l)
  {
    assert Stitched(s, levels, l);
  }
}

/** The workers of a scan in copies: every chunk read from every state its cut can carry. */
module ChunkWorkers {
  import opened Options
  import opened Machine
  import opened V = Verifiers
  import opened Counting
  import opened CopyReading
  import G = GuessedMarking
  import opened CopyAnchors

  // ----- readable exits -----

  /** The lookahead can be read from the state, to acceptance where it runs to the input's end. */
  ghost predicate Readable(t: Table, q: nat, lookahead: Word, toEnd: bool) {
    exists v, p: nat :: Reads(t, q, lookahead, v, p) && (toEnd ==> p in t.accepting)
  }

  /** The states from which the byte leads into the set. */
  function PreimageBy(t: Table, states: set<nat>, b: Byte): set<nat> {
    set k | k in t.transitions && k.1.byte == b && t.transitions[k] in states :: k.0
  }

  /** The set holds exactly the states the rest of the lookahead can be read from. */
  ghost predicate AreReadable(t: Table, n: nat, rest: Word, toEnd: bool, states: set<nat>) {
    forall q: nat :: q in states <==> q < n && Readable(t, q, rest, toEnd)
  }

  lemma {:induction false} PreimageReadable(t: Table, n: nat, b: Byte, rest: Word, toEnd: bool, states: set<nat>)
    requires InStates(t, n) && AreReadable(t, n, rest, toEnd, states)
    ensures AreReadable(t, n, [b] + rest, toEnd, PreimageBy(t, states, b))
  {
    hide Reads, Readable;
    forall q: nat ensures q in PreimageBy(t, states, b) <==> q < n && Readable(t, q, [b] + rest, toEnd) {
      if q in PreimageBy(t, states, b) {
        var k :| k in t.transitions && k.1.byte == b && t.transitions[k] in states && k.0 == q;
        assert k == (q, G.Marked(b, k.1.closes));
        ReadableBefore(t, q, b, k.1.closes, t.transitions[k], rest, toEnd);
      }
      if q < n && Readable(t, q, [b] + rest, toEnd) {
        var mark, m := ReadableAfter(t, q, b, rest, toEnd);
        assert (q, G.Marked(b, mark)) in t.transitions;
      }
    }
  }

  lemma {:induction false} ReadableBefore(t: Table, q: nat, b: Byte, mark: bool, m: nat, rest: Word, toEnd: bool)
    requires t.Step(q, G.Marked(b, mark)) == Some(m) && Readable(t, m, rest, toEnd)
    ensures Readable(t, q, [b] + rest, toEnd)
  {
    var v, p: nat :| Reads(t, m, rest, v, p) && (toEnd ==> p in t.accepting);
    ReadsByte(t, q, b, mark, m);
    ReadsJoin(t, q, [b], [mark], m, rest, v, p);
    assert Reads(t, q, [b] + rest, [mark] + v, p);
  }

  lemma {:induction false} ReadableAfter(t: Table, q: nat, b: Byte, rest: Word, toEnd: bool)
    returns (mark: bool, m: nat)
    requires Readable(t, q, [b] + rest, toEnd)
    ensures t.Step(q, G.Marked(b, mark)) == Some(m) && Readable(t, m, rest, toEnd)
  {
    var v, p: nat :| Reads(t, q, [b] + rest, v, p) && (toEnd ==> p in t.accepting);
    m := ReadsSplit(t, q, [b] + rest, v, p, 1);
    mark := v[0];
    assert ([b] + rest)[..1] == [b] && ([b] + rest)[1..] == rest && v[..1] == [mark];
    ReadsByte(t, q, b, mark, m);
  }

  lemma {:induction false} NothingReadable(t: Table, n: nat, toEnd: bool)
    requires InStates(t, n)
    ensures AreReadable(t, n, [], toEnd, if toEnd then t.accepting else Below(n))
  {
    forall q: nat ensures Readable(t, q, [], toEnd) <==> (toEnd ==> q in t.accepting) {
      ReadsNothing(t, q, q);
      if v, p: nat :| Reads(t, q, [], v, p) && (toEnd ==> p in t.accepting) {
        assert v == [];
        ReadsNothing(t, q, p);
      }
    }
  }

  lemma ReadableAt(t: Table, n: nat, rest: Word, toEnd: bool, states: set<nat>)
    requires AreReadable(t, n, rest, toEnd, states)
    ensures forall q: nat :: q in states <==> q < n && Readable(t, q, rest, toEnd)
  {
  }

  /** A chunk as its worker reads it. */
  datatype Chunk = Chunk(begin: nat, end: nat, entries: set<nat>, exits: set<nat>, lookahead: Word, toEnd: bool)

  /** The exits from which the lookahead can be read, by one walk back over it. */
  method ReadableExits(t: Table, n: nat, chunk: Chunk) returns (readable: set<nat>)
    requires InStates(t, n)
    ensures forall q: nat ::
      q in readable <==> q in chunk.exits && q < n && Readable(t, q, chunk.lookahead, chunk.toEnd)
  {
    hide AreReadable;
    readable := if chunk.toEnd then t.accepting else Below(n);
    NothingReadable(t, n, chunk.toEnd);
    var at := |chunk.lookahead|;
    assert chunk.lookahead[at..] == [];
    while at > 0
      invariant at <= |chunk.lookahead| && AreReadable(t, n, chunk.lookahead[at..], chunk.toEnd, readable)
    {
      at := at - 1;
      PreimageReadable(t, n, chunk.lookahead[at], chunk.lookahead[at + 1..], chunk.toEnd, readable);
      assert [chunk.lookahead[at]] + chunk.lookahead[at + 1..] == chunk.lookahead[at..];
      readable := PreimageBy(t, readable, chunk.lookahead[at]);
    }
    assert chunk.lookahead[0..] == chunk.lookahead;
    ReadableAt(t, n, chunk.lookahead, chunk.toEnd, readable);
    readable := readable * chunk.exits;
  }

  // ----- the workers -----

  /** The scan's setting: the automaton, the input, its anchors and cuts, and how far a worker reads past its chunk. */
  datatype Scan = Scan(t: Table, n: nat, input: Word, anchors: map<nat, set<nat>>, cuts: seq<nat>, lookahead: nat) {
    /** The cuts ascend through the anchors to the input's end. */
    ghost predicate Valid() {
      && InStates(t, n) && |cuts| >= 2 && cuts[0] == 0 && cuts[|cuts| - 1] == |input|
      && (forall i: nat | i < |cuts| - 1 :: Spans(i))
      && (forall i: nat | 0 < i < |cuts| - 1 :: cuts[i] in anchors && cuts[i] < |input|)
    }

    /** The chunk lies within the input. */
    ghost predicate Spans(i: nat) {
      i + 1 < |cuts| && cuts[i] <= cuts[i + 1] <= |input|
    }

    /** Every accepted marking carries one of the anchor's states at each cut. */
    ghost predicate Sound() {
      forall u, c: nat, q: nat | Accepted(t, input, u) && c in anchors && CarriedAt(t, input, u, c, q) ::
        q in anchors[c]
    }

    function Chunks(): nat {
      if cuts == [] then 0 else |cuts| - 1
    }

    function ChunkAt(i: nat): Chunk
      requires Valid() && i < Chunks()
    {
      assert Spans(i);
      var begin, end := cuts[i], cuts[i + 1];
      var last := i + 1 == Chunks();
      Chunk(
        begin, end,
        if i == 0 then {t.start} else anchors[begin],
        if last then t.accepting else anchors[end],
        if last then [] else input[end..if end + lookahead < |input| then end + lookahead else |input|],
        !last && end + lookahead >= |input|)
    }

    function BytesOf(i: nat): Word
      requires Valid() && i < Chunks()
    {
      assert Spans(i);
      input[cuts[i]..cuts[i + 1]]
    }
  }

  /** Per entry state, the exits its copy offers. */
  type Worker = map<nat, seq<Exit>>

  /** The next so many of the bytes left, or all of them, to acceptance, can be read from the state. */
  ghost predicate GoesOn(t: Table, q: nat, rest: Word, lookahead: nat) {
    if lookahead < |rest| then exists v, p: nat :: Reads(t, q, rest[..lookahead], v, p)
    else exists v, p: nat :: p in t.accepting && Reads(t, q, rest, v, p)
  }

  /**
    A state the chunk's copies may exit in: an accepting one at the input's end, and at a cut before it one
    the anchor allows from which the lookahead can be read.
   */
  ghost predicate MayExit(s: Scan, i: nat, q: nat)
    requires s.Valid() && i < s.Chunks()
  {
    assert s.Spans(i);
    var end := s.cuts[i + 1];
    && q < s.n
    && if i + 2 == |s.cuts| then q in s.t.accepting
       else q in s.anchors[end] && GoesOn(s.t, q, s.input[end..], s.lookahead)
  }

  /** The chunk as its worker reads it allows exactly those exits. */
  lemma {:induction false} ChunkExits(s: Scan, i: nat, q: nat)
    requires s.Valid() && i < s.Chunks()
    ensures var chunk := s.ChunkAt(i);
            MayExit(s, i, q) <==> q in chunk.exits && q < s.n && Readable(s.t, q, chunk.lookahead, chunk.toEnd)
  {
    assert s.Spans(i);
    var chunk, end := s.ChunkAt(i), s.cuts[i + 1];
    if i + 1 == s.Chunks() {
      ReadsNothing(s.t, q, q);
      assert Reads(s.t, q, chunk.lookahead, [], q);
    } else {
      var rest := s.input[end..];
      if s.lookahead < |rest| {
        assert rest[..s.lookahead] == chunk.lookahead;
      } else {
        assert rest == chunk.lookahead;
      }
    }
    hide Reads;
  }

  /** The worker's copies: from every entry, exactly the readings of the chunk that may exit. */
  ghost predicate IsWorker(s: Scan, i: nat, worker: Worker)
    requires s.Valid() && i < s.Chunks()
  {
    && worker.Keys == s.ChunkAt(i).entries
    && (forall entry: nat | entry in worker :: Distinct(worker[entry]))
    && forall entry: nat, e | entry in worker ::
         e in worker[entry] <==> MayExit(s, i, e.state) && Reads(s.t, entry, s.BytesOf(i), e.boundaries, e.state)
  }

  /** Runs one copy per entry state of the chunk. */
  method RunWorker(s: Scan, i: nat) returns (worker: Worker)
    requires s.Valid() && i < s.Chunks()
    ensures IsWorker(s, i, worker)
  {
    hide Scan.Valid, Readable, Reads, Copied, Distinct, MayExit;
    var chunk, bytes := s.ChunkAt(i), s.BytesOf(i);
    InStatesOf(s);
    var exitStates := ReadableExits(s.t, s.n, chunk);
    worker := map[];
    var rest := chunk.entries;
    while rest != {}
      invariant rest <= chunk.entries && worker.Keys == chunk.entries - rest
      invariant forall entry: nat | entry in worker ::
        AreExits(s.t, bytes, exitStates, entry, worker[entry]) && Distinct(worker[entry])
      decreases rest
    {
      hide AreExits;
      var entry: nat :| entry in rest;
      var exits, copied := CopyExits(s.t, bytes, exitStates, entry);
      worker := worker[entry := exits];
      rest := rest - {entry};
    }
    forall entry: nat, e | entry in worker
      ensures e in worker[entry] <==> MayExit(s, i, e.state) && Reads(s.t, entry, bytes, e.boundaries, e.state)
    {
      ChunkExits(s, i, e.state);
      assert AreExits(s.t, bytes, exitStates, entry, worker[entry]);
      assert e in worker[entry] <==> IsExit(s.t, bytes, exitStates, entry, e);
    }
  }

  lemma InStatesOf(s: Scan)
    requires s.Valid()
    ensures InStates(s.t, s.n)
  {
  }

  ghost predicate AreWorkers(s: Scan, workers: seq<Worker>)
    requires s.Valid()
  {
    |workers| == s.Chunks() && forall i: nat | i < |workers| :: IsWorker(s, i, workers[i])
  }

  /** Every chunk's worker; no worker reads what another writes. */
  method RunWorkers(s: Scan) returns (workers: seq<Worker>)
    requires s.Valid()
    ensures AreWorkers(s, workers)
  {
    hide IsWorker;
    workers := [];
    for i := 0 to s.Chunks()
      invariant |workers| == i && forall j: nat | j < i :: IsWorker(s, j, workers[j])
    {
      hide Scan.Valid;
      var worker := RunWorker(s, i);
      workers := workers + [worker];
    }
  }
}

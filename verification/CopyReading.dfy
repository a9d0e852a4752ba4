/** One copy of a chunk: every way an automaton over marked bytes reads it from one state, and the exits it offers. */
module CopyReading {
  import opened Options
  import opened Machine
  import opened V = Verifiers
  import opened Counting
  import G = GuessedMarking

  type Table = Verifier<G.Marked>

  /** The bytes marked with the boundaries. */
  function Mark(bytes: Word, boundaries: seq<bool>): seq<G.Marked>
    requires |bytes| == |boundaries|
  {
    seq(|bytes|, i requires 0 <= i < |bytes| => G.Marked(bytes[i], boundaries[i]))
  }

  /** The marking leads from one state to the other. */
  ghost predicate Reads(t: Table, q: nat, bytes: Word, boundaries: seq<bool>, p: nat) {
    |bytes| == |boundaries| && RunTo(t, q, Mark(bytes, boundaries)) == Some(p)
  }

  lemma {:induction false} RunJoin(t: Table, q: nat, s: seq<G.Marked>, u: seq<G.Marked>)
    ensures RunTo(t, q, s + u) == match RunTo(t, q, s) case None => None case Some(p) => RunTo(t, p, u)
    decreases |u|
  {
    if u == [] {
      assert s + u == s;
    } else {
      RunJoin(t, q, s, u[..|u| - 1]);
      assert (s + u)[..|s + u| - 1] == s + u[..|u| - 1];
    }
  }

  lemma {:induction false} ReadsJoin(t: Table, q: nat, a: Word, u: seq<bool>, m: nat, b: Word, v: seq<bool>, p: nat)
    requires Reads(t, q, a, u, m)
    ensures Reads(t, m, b, v, p) <==> |b| == |v| && Reads(t, q, a + b, u + v, p)
  {
    if |b| == |v| {
      assert Mark(a + b, u + v) == Mark(a, u) + Mark(b, v);
      RunJoin(t, q, Mark(a, u), Mark(b, v));
    }
  }

  lemma {:induction false} ReadsNothing(t: Table, q: nat, p: nat)
    ensures Reads(t, q, [], [], p) <==> p == q
  {
    assert Mark([], []) == [];
  }

  lemma {:induction false} ReadsByte(t: Table, q: nat, b: Byte, mark: bool, p: nat)
    ensures Reads(t, q, [b], [mark], p) <==> t.Step(q, G.Marked(b, mark)) == Some(p)
  {
    var s := Mark([b], [mark]);
    assert s == [G.Marked(b, mark)] && s[..0] == [] && |s| == 1;
    assert RunTo(t, q, s[..|s| - 1]) == Some(q);
  }

  /** A reading splits at every position. */
  lemma {:induction false} ReadsSplit(t: Table, q: nat, bytes: Word, boundaries: seq<bool>, p: nat, c: nat)
    returns (m: nat)
    requires Reads(t, q, bytes, boundaries, p) && c <= |bytes|
    ensures Reads(t, q, bytes[..c], boundaries[..c], m) && Reads(t, m, bytes[c..], boundaries[c..], p)
  {
    assert bytes[..c] + bytes[c..] == bytes && boundaries[..c] + boundaries[c..] == boundaries;
    assert Mark(bytes, boundaries) == Mark(bytes[..c], boundaries[..c]) + Mark(bytes[c..], boundaries[c..]);
    RunJoin(t, q, Mark(bytes[..c], boundaries[..c]), Mark(bytes[c..], boundaries[c..]));
    m := RunTo(t, q, Mark(bytes[..c], boundaries[..c])).value;
  }

  lemma OneReading(t: Table, q: nat, bytes: Word, boundaries: seq<bool>, m: nat, p: nat)
    requires Reads(t, q, bytes, boundaries, m) && Reads(t, q, bytes, boundaries, p)
    ensures m == p
  {
  }

  // ----- layers -----

  /** A state a copy reaches, the index of the state before it, and the boundary bit read under. */
  datatype Reached = Reached(state: nat, from: nat, boundaryAfter: bool)

  /** The back-pointers of every layer point into the layer before. */
  ghost predicate Linked(layers: seq<seq<Reached>>) {
    && layers != [] && |layers[0]| == 1
    && forall k: nat, i: nat | 0 < k < |layers| && i < |layers[k]| :: layers[k][i].from < |layers[k - 1]|
  }

  /** The boundaries read on the way to an entry of a layer. */
  function BoundariesAt(layers: seq<seq<Reached>>, k: nat, i: nat): (boundaries: seq<bool>)
    requires Linked(layers) && k < |layers| && i < |layers[k]|
    ensures |boundaries| == k
    decreases k
  {
    if k == 0 then []
    else BoundariesAt(layers, k - 1, layers[k][i].from) + [layers[k][i].boundaryAfter]
  }

  /** The layer holds the reading: its boundaries and the state it ends in. */
  ghost predicate Holds(layers: seq<seq<Reached>>, k: nat, boundaries: seq<bool>, state: nat)
    requires Linked(layers)
  {
    k < |layers| && exists i: nat :: i < |layers[k]| && HeldAt(layers, k, i, boundaries, state)
  }

  ghost predicate HeldAt(layers: seq<seq<Reached>>, k: nat, i: nat, boundaries: seq<bool>, state: nat)
    requires Linked(layers) && k < |layers| && i < |layers[k]|
  {
    BoundariesAt(layers, k, i) == boundaries && layers[k][i].state == state
  }

  /** A layer's entries are exactly the readings of the bytes before it. */
  ghost predicate Layered(t: Table, bytes: Word, entry: nat, layers: seq<seq<Reached>>, k: nat) {
    && Linked(layers) && k < |layers| && k <= |bytes|
    && forall boundaries, state ::
      Holds(layers, k, boundaries, state) <==> Reads(t, entry, bytes[..k], boundaries, state)
  }

  lemma {:induction false} BoundariesKept(layers: seq<seq<Reached>>, next: seq<Reached>, k: nat, i: nat)
    requires Linked(layers) && Linked(layers + [next]) && k < |layers| && i < |layers[k]|
    ensures BoundariesAt(layers + [next], k, i) == BoundariesAt(layers, k, i)
    decreases k
  {
    if k > 0 {
      BoundariesKept(layers, next, k - 1, layers[k][i].from);
    }
  }

  /** Entries come in the order of what they were read from, no boundary first. */
  ghost predicate Earlier(a: Reached, b: Reached) {
    a.from < b.from || (a.from == b.from && !a.boundaryAfter && b.boundaryAfter)
  }

  /** The steps of one byte from the first entries of the layer. */
  ghost predicate Stepped(t: Table, layer: seq<Reached>, b: Byte, next: seq<Reached>, done: nat) {
    && (forall i: nat | i < |next| ::
          next[i].from < done && next[i].from < |layer|
          && t.Step(layer[next[i].from].state, G.Marked(b, next[i].boundaryAfter)) == Some(next[i].state))
    && (forall i: nat, j: nat | i < j < |next| :: Earlier(next[i], next[j]))
    && forall from: nat, mark: bool, to: nat ::
         from < done && from < |layer| && t.Step(layer[from].state, G.Marked(b, mark)) == Some(to)
         ==> exists i: nat :: i < |next| && next[i] == Reached(to, from, mark)
  }

  /** Steps every entry of the layer by a byte under both marks. */
  method StepLayer(t: Table, layer: seq<Reached>, b: Byte) returns (next: seq<Reached>)
    ensures Stepped(t, layer, b, next, |layer|)
  {
    next := [];
    for from := 0 to |layer|
      invariant Stepped(t, layer, b, next, from)
    {
      var plain := StepOne(t, layer, b, next, from, false);
      var both := StepOne(t, layer, b, plain, from, true);
      BothMarks(t, layer, b, next, plain, both, from);
      next := both;
    }
  }

  /** What a state of the layer reaches under one mark. */
  ghost function OneStep(t: Table, layer: seq<Reached>, b: Byte, from: nat, mark: bool): seq<Reached>
    requires from < |layer|
  {
    match t.Step(layer[from].state, G.Marked(b, mark))
    case None => []
    case Some(to) => [Reached(to, from, mark)]
  }

  /** The step under one mark, where there is one. */
  method StepOne(t: Table, layer: seq<Reached>, b: Byte, before: seq<Reached>, from: nat, mark: bool)
    returns (next: seq<Reached>)
    requires from < |layer|
    ensures next == before + OneStep(t, layer, b, from, mark)
  {
    var to := t.Step(layer[from].state, G.Marked(b, mark));
    next := before + if to.Some? then [Reached(to.value, from, mark)] else [];
  }

  lemma {:induction false} BothMarks(
      t: Table, layer: seq<Reached>, b: Byte, before: seq<Reached>, plain: seq<Reached>, both: seq<Reached>, from: nat)
    requires from < |layer| && Stepped(t, layer, b, before, from)
    requires plain == before + OneStep(t, layer, b, from, false)
    requires both == plain + OneStep(t, layer, b, from, true)
    ensures Stepped(t, layer, b, both, from + 1)
  {
    forall f: nat, mark: bool, to: nat | f < from + 1 && t.Step(layer[f].state, G.Marked(b, mark)) == Some(to)
      ensures exists i: nat :: i < |both| && both[i] == Reached(to, f, mark)
    {
      if f < from {
        var i: nat :| i < |before| && before[i] == Reached(to, f, mark);
        assert both[i] == Reached(to, f, mark);
      } else if mark {
        assert both[|plain|] == Reached(to, f, mark);
      } else {
        assert both[|before|] == Reached(to, f, mark);
      }
    }
    BothInOrder(t, layer, b, before, plain, both, from);
    hide Earlier;
  }

  lemma {:induction false} BothInOrder(
      t: Table, layer: seq<Reached>, b: Byte, before: seq<Reached>, plain: seq<Reached>, both: seq<Reached>, from: nat)
    requires from < |layer| && Stepped(t, layer, b, before, from)
    requires plain == before + OneStep(t, layer, b, from, false)
    requires both == plain + OneStep(t, layer, b, from, true)
    ensures forall i: nat, j: nat | i < j < |both| :: Earlier(both[i], both[j])
  {
    forall i: nat, j: nat | i < j < |both| ensures Earlier(both[i], both[j]) {
      if j < |before| {
        assert Earlier(before[i], before[j]);
      }
    }
  }

  lemma {:induction false} LinkedMore(t: Table, layers: seq<seq<Reached>>, next: seq<Reached>, b: Byte)
    requires Linked(layers) && Stepped(t, layers[|layers| - 1], b, next, |layers[|layers| - 1]|)
    ensures Linked(layers + [next])
  {
  }

  lemma {:induction false} LayerMore(
      t: Table, bytes: Word, entry: nat, layers: seq<seq<Reached>>, next: seq<Reached>, k: nat)
    requires Layered(t, bytes, entry, layers, k) && |layers| == k + 1 && k < |bytes|
    requires Stepped(t, layers[k], bytes[k], next, |layers[k]|)
    ensures Layered(t, bytes, entry, layers + [next], k + 1)
  {
    LinkedMore(t, layers, next, bytes[k]);
    var all, top, read := layers + [next], k + 1, bytes[..k + 1];
    forall boundaries, state ensures Holds(all, top, boundaries, state) <==> Reads(t, entry, read, boundaries, state) {
      if Holds(all, top, boundaries, state) {
        LayerSound(t, bytes, entry, layers, next, k, boundaries, state);
      }
      if Reads(t, entry, read, boundaries, state) {
        LayerComplete(t, bytes, entry, layers, next, k, boundaries, state);
      }
    }
  }

  lemma {:induction false} LayerSound(
      t: Table, bytes: Word, entry: nat, layers: seq<seq<Reached>>, next: seq<Reached>, k: nat, boundaries: seq<bool>,
      state: nat)
    requires Layered(t, bytes, entry, layers, k) && |layers| == k + 1 && k < |bytes| && Linked(layers + [next])
    requires Stepped(t, layers[k], bytes[k], next, |layers[k]|) && Holds(layers + [next], k + 1, boundaries, state)
    ensures Reads(t, entry, bytes[..k + 1], boundaries, state)
  {
    var all := layers + [next];
    var i: nat :| i < |next| && HeldAt(all, k + 1, i, boundaries, state);
    var r := next[i];
    BoundariesKept(layers, next, k, r.from);
    var front := BoundariesAt(layers, k, r.from);
    assert HeldAt(layers, k, r.from, front, layers[k][r.from].state);
    assert Holds(layers, k, front, layers[k][r.from].state);
    hide Reads;
    assert Reads(t, entry, bytes[..k], front, layers[k][r.from].state);
    ReadsByte(t, layers[k][r.from].state, bytes[k], r.boundaryAfter, state);
    ReadsJoin(t, entry, bytes[..k], front, layers[k][r.from].state, [bytes[k]], [r.boundaryAfter], state);
    assert bytes[..k] + [bytes[k]] == bytes[..k + 1];
  }

  lemma {:induction false} LayerComplete(
      t: Table, bytes: Word, entry: nat, layers: seq<seq<Reached>>, next: seq<Reached>, k: nat, boundaries: seq<bool>,
      state: nat)
    requires Layered(t, bytes, entry, layers, k) && |layers| == k + 1 && k < |bytes| && Linked(layers + [next])
    requires Stepped(t, layers[k], bytes[k], next, |layers[k]|) && Reads(t, entry, bytes[..k + 1], boundaries, state)
    ensures Holds(layers + [next], k + 1, boundaries, state)
  {
    var all := layers + [next];
    var m := ReadsSplit(t, entry, bytes[..k + 1], boundaries, state, k);
    assert bytes[..k + 1][..k] == bytes[..k] && bytes[..k + 1][k..] == [bytes[k]];
    var front, mark := boundaries[..k], boundaries[k];
    assert boundaries[k..] == [mark] && boundaries == front + [mark];
    ReadsByte(t, m, bytes[k], mark, state);
    hide Reads;
    assert Holds(layers, k, front, m);
    var from: nat :| from < |layers[k]| && HeldAt(layers, k, from, front, m);
    var i: nat :| i < |next| && next[i] == Reached(state, from, mark);
    BoundariesKept(layers, next, k, from);
    assert all[k + 1] == next && all[k] == layers[k];
    assert HeldAt(all, k + 1, i, boundaries, state);
  }

  lemma {:induction false} FirstLayer(t: Table, bytes: Word, entry: nat)
    ensures Layered(t, bytes, entry, [[Reached(entry, 0, false)]], 0) && Linked([[Reached(entry, 0, false)]])
  {
    var layers := [[Reached(entry, 0, false)]];
    assert bytes[..0] == [];
    forall boundaries, state ensures Holds(layers, 0, boundaries, state) <==> Reads(t, entry, [], boundaries, state) {
      if Reads(t, entry, [], boundaries, state) {
        assert boundaries == [];
        ReadsNothing(t, entry, state);
        assert HeldAt(layers, 0, 0, boundaries, state);
      }
      if Holds(layers, 0, boundaries, state) {
        ReadsNothing(t, entry, state);
      }
    }
  }

  // ----- exits -----

  /** The state reached at a chunk's end, and the boundaries that reach it. */
  datatype Exit = Exit(state: nat, boundaries: seq<bool>)

  ghost predicate IsExit(t: Table, bytes: Word, exitStates: set<nat>, entry: nat, e: Exit) {
    e.state in exitStates && Reads(t, entry, bytes, e.boundaries, e.state)
  }

  /** The exits offered are exactly the readings of the chunk that end in an exit state. */
  ghost predicate AreExits(t: Table, bytes: Word, exitStates: set<nat>, entry: nat, exits: seq<Exit>) {
    forall e :: e in exits <==> IsExit(t, bytes, exitStates, entry, e)
  }

  lemma {:induction false} NothingReadOn(
      t: Table, bytes: Word, entry: nat, layers: seq<seq<Reached>>, k: nat, exitStates: set<nat>)
    requires Layered(t, bytes, entry, layers, k) && layers[k] == []
    ensures AreExits(t, bytes, exitStates, entry, [])
  {
    forall e ensures !IsExit(t, bytes, exitStates, entry, e) {
      if IsExit(t, bytes, exitStates, entry, e) {
        var m := ReadsSplit(t, entry, bytes, e.boundaries, e.state, k);
        var i := HeldSomewhere(t, bytes, entry, layers, k, e.boundaries[..k], m);
      }
    }
  }

  lemma {:induction false} HeldSomewhere(
      t: Table, bytes: Word, entry: nat, layers: seq<seq<Reached>>, k: nat, boundaries: seq<bool>, m: nat)
    returns (i: nat)
    requires Layered(t, bytes, entry, layers, k) && Reads(t, entry, bytes[..k], boundaries, m)
    ensures i < |layers[k]| && HeldAt(layers, k, i, boundaries, m)
  {
    hide Reads;
    assert Holds(layers, k, boundaries, m);
    i :| i < |layers[k]| && HeldAt(layers, k, i, boundaries, m);
  }

  /** The boundaries of one entry of the last layer, read back along the pointers. */
  method ReadBack(layers: seq<seq<Reached>>, at: nat) returns (boundaries: seq<bool>)
    requires Linked(layers) && at < |layers[|layers| - 1]|
    ensures boundaries == BoundariesAt(layers, |layers| - 1, at)
  {
    var k: nat, position: nat := |layers| - 1, at;
    boundaries := [];
    while k > 0
      invariant k < |layers| && position < |layers[k]|
      invariant BoundariesAt(layers, k, position) + boundaries == BoundariesAt(layers, |layers| - 1, at)
    {
      boundaries := [layers[k][position].boundaryAfter] + boundaries;
      k, position := k - 1, layers[k][position].from;
    }
  }

  /** Every layer read, and no two entries of one from one entry under one mark. */
  ghost predicate Copied(t: Table, bytes: Word, entry: nat, layers: seq<seq<Reached>>) {
    && Linked(layers) && Separate(layers)
    && forall k: nat | k < |layers| :: Layered(t, bytes, entry, layers, k)
  }

  ghost predicate Separate(layers: seq<seq<Reached>>) {
    forall k: nat, i: nat, j: nat | 0 < k < |layers| && i < j < |layers[k]| :: layers[k][i] != layers[k][j]
  }

  lemma {:induction false} LayeredKept(
      t: Table, bytes: Word, entry: nat, layers: seq<seq<Reached>>, next: seq<Reached>, k: nat)
    requires Layered(t, bytes, entry, layers, k) && Linked(layers + [next])
    ensures Layered(t, bytes, entry, layers + [next], k)
  {
    var all := layers + [next];
    forall boundaries, state ensures Holds(all, k, boundaries, state) <==> Holds(layers, k, boundaries, state) {
      forall i: nat | i < |layers[k]|
        ensures HeldAt(all, k, i, boundaries, state) <==> HeldAt(layers, k, i, boundaries, state)
      {
        BoundariesKept(layers, next, k, i);
      }
      assert all[k] == layers[k];
    }
    hide Reads, Holds;
  }

  lemma {:induction false} CopiedMore(
      t: Table, bytes: Word, entry: nat, layers: seq<seq<Reached>>, next: seq<Reached>, k: nat)
    requires Copied(t, bytes, entry, layers) && |layers| == k + 1 && k < |bytes|
    requires Stepped(t, layers[k], bytes[k], next, |layers[k]|)
    ensures Copied(t, bytes, entry, layers + [next])
  {
    LayerMore(t, bytes, entry, layers, next, k);
    LinkedMore(t, layers, next, bytes[k]);
    var all := layers + [next];
    forall l: nat | l < |all| ensures Layered(t, bytes, entry, all, l) {
      if l <= k {
        LayeredKept(t, bytes, entry, layers, next, l);
      }
    }
    hide Layered, Linked;
    forall l: nat, i: nat, j: nat | 0 < l < |all| && i < j < |all[l]| ensures all[l][i] != all[l][j] {
      if l == k + 1 {
        assert Earlier(next[i], next[j]);
      }
    }
  }

  /** Runs one copy of a chunk: one layer of reached states a byte, and the exits of the last. */
  method CopyExits(t: Table, bytes: Word, exitStates: set<nat>, entry: nat)
    returns (exits: seq<Exit>, ghost copied: seq<seq<Reached>>)
    ensures AreExits(t, bytes, exitStates, entry, exits) && Distinct(exits) && Copied(t, bytes, entry, copied)
  {
    hide Layered, Stepped, AreExits, Linked;
    var layers := [[Reached(entry, 0, false)]];
    FirstLayer(t, bytes, entry);
    for k := 0 to |bytes|
      invariant |layers| == k + 1 && Copied(t, bytes, entry, layers)
    {
      var next := StepLayer(t, layers[k], bytes[k]);
      CopiedMore(t, bytes, entry, layers, next, k);
      layers := layers + [next];
      if next == [] {
        NothingReadOn(t, bytes, entry, layers, k + 1, exitStates);
        return [], layers;
      }
    }
    exits := CollectExits(t, bytes, exitStates, entry, layers);
    copied := layers;
  }

  method CollectExits(t: Table, bytes: Word, exitStates: set<nat>, entry: nat, layers: seq<seq<Reached>>)
    returns (exits: seq<Exit>)
    requires |layers| == |bytes| + 1 && Copied(t, bytes, entry, layers)
    ensures AreExits(t, bytes, exitStates, entry, exits) && Distinct(exits)
  {
    hide Reads, Copied;
    var k := |bytes|;
    exits := [];
    CopiedAt(t, bytes, entry, layers, k);
    for at := 0 to |layers[k]|
      invariant Distinct(exits)
      invariant forall e :: e in exits <==> e.state in exitStates && exists i: nat ::
        i < at && HeldAt(layers, k, i, e.boundaries, e.state)
    {
      var state := layers[k][at].state;
      if state in exitStates {
        var boundaries := ReadBack(layers, at);
        assert HeldAt(layers, k, at, boundaries, state);
        NotYetCollected(t, bytes, entry, layers, at);
        exits := exits + [Exit(state, boundaries)];
      }
    }
    assert bytes[..k] == bytes;
    forall e ensures e in exits <==> IsExit(t, bytes, exitStates, entry, e) {
      assert Holds(layers, k, e.boundaries, e.state) <==> Reads(t, entry, bytes[..k], e.boundaries, e.state);
    }
  }

  lemma CopiedAt(t: Table, bytes: Word, entry: nat, layers: seq<seq<Reached>>, k: nat)
    requires Copied(t, bytes, entry, layers) && k < |layers|
    ensures Linked(layers) && Layered(t, bytes, entry, layers, k)
  {
  }

  lemma {:induction false} NotYetCollected(t: Table, bytes: Word, entry: nat, layers: seq<seq<Reached>>, at: nat)
    requires |layers| == |bytes| + 1 && Copied(t, bytes, entry, layers) && at < |layers[|bytes|]|
    ensures forall i: nat | i < at :: BoundariesAt(layers, |bytes|, i) != BoundariesAt(layers, |bytes|, at)
  {
    hide Copied;
    CopiedAt(t, bytes, entry, layers, |bytes|);
    forall i: nat | i < at ensures BoundariesAt(layers, |bytes|, i) != BoundariesAt(layers, |bytes|, at) {
      if BoundariesAt(layers, |bytes|, i) == BoundariesAt(layers, |bytes|, at) {
        SeparateBoundaries(t, bytes, entry, layers, |bytes|, i, at);
      }
    }
  }

  // ----- no layer repeats a state -----

  /** A byte string is accepted under one marking at most. */
  ghost predicate Functional(t: Table) {
    forall bytes: Word, u, v, p: nat, q: nat |
      Reads(t, t.start, bytes, u, p) && p in t.accepting && Reads(t, t.start, bytes, v, q) && q in t.accepting :: u == v
  }

  /** The state is on the way from the start to acceptance. */
  ghost predicate OnTheWay(t: Table, q: nat) {
    && (exists bytes: Word, u :: Reads(t, t.start, bytes, u, q))
    && exists bytes: Word, u, p: nat :: Reads(t, q, bytes, u, p) && p in t.accepting
  }

  /** Two readings of the same bytes that meet in a state on the way are one reading. */
  lemma {:induction false} MeetingReadings(t: Table, entry: nat, bytes: Word, u: seq<bool>, v: seq<bool>, m: nat)
    requires Functional(t) && OnTheWay(t, entry) && OnTheWay(t, m)
    requires Reads(t, entry, bytes, u, m) && Reads(t, entry, bytes, v, m)
    ensures u == v
  {
    var a: Word, x :| Reads(t, t.start, a, x, entry);
    var b: Word, y, p: nat :| Reads(t, m, b, y, p) && p in t.accepting;
    ReadsJoin(t, t.start, a, x, entry, bytes, u, m);
    ReadsJoin(t, t.start, a, x, entry, bytes, v, m);
    ReadsJoin(t, t.start, a + bytes, x + u, m, b, y, p);
    ReadsJoin(t, t.start, a + bytes, x + v, m, b, y, p);
    assert |u| == |v|;
    hide Reads;
    assert x + u + y == x + v + y;
    assert u == (x + u + y)[|x|..|x| + |u|];
    assert v == (x + v + y)[|x|..|x| + |u|];
  }

  /** No layer of a copy begun on the way holds a state on the way twice. */
  lemma {:induction false} LayersNeverRepeat(
      t: Table, bytes: Word, entry: nat, layers: seq<seq<Reached>>, k: nat, i: nat, j: nat)
    requires Functional(t) && OnTheWay(t, entry) && Copied(t, bytes, entry, layers)
    requires k < |layers| && i < |layers[k]| && j < |layers[k]|
    requires layers[k][i].state == layers[k][j].state && OnTheWay(t, layers[k][i].state)
    ensures i == j
  {
    hide OnTheWay;
    var m, u, v := layers[k][i].state, BoundariesAt(layers, k, i), BoundariesAt(layers, k, j);
    assert Layered(t, bytes, entry, layers, k);
    HeldReads(t, bytes, entry, layers, k, i);
    HeldReads(t, bytes, entry, layers, k, j);
    MeetingReadings(t, entry, bytes[..k], u, v, m);
    SeparateBoundaries(t, bytes, entry, layers, k, i, j);
  }

  lemma {:induction false} HeldReads(t: Table, bytes: Word, entry: nat, layers: seq<seq<Reached>>, k: nat, i: nat)
    requires Layered(t, bytes, entry, layers, k) && i < |layers[k]|
    ensures Reads(t, entry, bytes[..k], BoundariesAt(layers, k, i), layers[k][i].state)
  {
    hide Reads;
    assert HeldAt(layers, k, i, BoundariesAt(layers, k, i), layers[k][i].state);
    assert Holds(layers, k, BoundariesAt(layers, k, i), layers[k][i].state);
  }

  /** Entries read under the same boundaries are one entry. */
  lemma {:induction false} SeparateBoundaries(
      t: Table, bytes: Word, entry: nat, layers: seq<seq<Reached>>, k: nat, i: nat, j: nat)
    requires Copied(t, bytes, entry, layers) && k < |layers| && i < |layers[k]| && j < |layers[k]|
    requires BoundariesAt(layers, k, i) == BoundariesAt(layers, k, j)
    ensures i == j
    decreases k
  {
    if k > 0 {
      var f, g := layers[k][i].from, layers[k][j].from;
      var u, v := BoundariesAt(layers, k - 1, f), BoundariesAt(layers, k - 1, g);
      assert u == BoundariesAt(layers, k, i)[..k - 1] && v == BoundariesAt(layers, k, j)[..k - 1];
      SeparateBoundaries(t, bytes, entry, layers, k - 1, f, g);
      assert Layered(t, bytes, entry, layers, k);
      HeldReads(t, bytes, entry, layers, k, i);
      HeldReads(t, bytes, entry, layers, k, j);
      OneReading(t, entry, bytes[..k], BoundariesAt(layers, k, i), layers[k][i].state, layers[k][j].state);
      assert BoundariesAt(layers, k, i)[k - 1] == layers[k][i].boundaryAfter;
      assert BoundariesAt(layers, k, j)[k - 1] == layers[k][j].boundaryAfter;
      SeparateAt(layers, k, i, j);
    }
  }

  lemma SeparateAt(layers: seq<seq<Reached>>, k: nat, i: nat, j: nat)
    requires Separate(layers) && 0 < k < |layers| && i < |layers[k]| && j < |layers[k]|
    ensures layers[k][i] == layers[k][j] ==> i == j
  {
  }
}

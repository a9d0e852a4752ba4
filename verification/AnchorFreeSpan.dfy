/** The longest stretch of a completely tokenizable input that no certified window anchors. */
module AnchorFreeSpan {
  import opened Options
  import opened Machine
  import opened Munch
  import opened SplitWindow
  import opened SplitPoints
  import opened Suffixes
  import T = TopologicalOrder
  import opened AnchorStretch
  import opened AnchorWalk
  import opened AnchorGraph

  // ----- what some ending follows -----

  ghost predicate Ends(d: Dfa, walk: Walk, node: Node) {
    walk.Valid() && Endable(d, walk.inventory, walk.cap, node)
  }

  lemma {:induction false} AcceptingEnds(d: Dfa, walk: Walk, node: Node)
    requires walk.Valid() && EndsAt(d, node)
    ensures Ends(d, walk, node)
  {
    assert FinishesWith(d, walk.inventory, walk.cap, node, []);
  }

  lemma {:induction false} SourceEnds(d: Dfa, walk: Walk, nodes: seq<Node>, at: nat, e: Edge)
    requires Reads(d, walk, nodes, at, e) && Ends(d, walk, nodes[e.target])
    ensures Ends(d, walk, nodes[at])
  {
    hide NodeStep, EndsAt, Walk.Valid;
    assert WellFormed(walk.inventory) by {
      WalkFormed(walk);
    }
    var l: Letter :| l.inside == e.inside
      && NodeStep(d, walk.inventory, walk.cap, nodes[at], l) == Some(nodes[e.target]);
    var rest :| FinishesWith(d, walk.inventory, walk.cap, nodes[e.target], rest);
    OneLetter(d, walk, nodes[at], l);
    RunJoin(d, walk.inventory, walk.cap, nodes[at], [l], rest);
    assert FinishesWith(d, walk.inventory, walk.cap, nodes[at], [l] + rest);
  }

  lemma WalkFormed(walk: Walk)
    requires walk.Valid()
    ensures WellFormed(walk.inventory) && Reach(walk.inventory, walk.cap)
  {
  }

  lemma {:induction false} OneLetter(d: Dfa, walk: Walk, node: Node, l: Letter)
    requires WellFormed(walk.inventory)
    ensures NodeRun(d, walk.inventory, walk.cap, node, [l]) == NodeStep(d, walk.inventory, walk.cap, node, l)
  {
    assert [l][..0] == [];
  }

  ghost predicate Backed(graph: Graph, finishing: seq<bool>, at: nat) {
    && at < |graph.edges| <= |finishing|
    && forall e | e in graph.edges[at] && e.target < |finishing| && finishing[e.target] :: finishing[at]
  }

  /** Every source of a finishing node is finishing, and so is every accepting node. */
  ghost predicate ClosedBack(d: Dfa, graph: Graph, finishing: seq<bool>) {
    && |finishing| == |graph.nodes| == |graph.edges|
    && (forall at: nat | at < |graph.nodes| && EndsAt(d, graph.nodes[at]) :: finishing[at])
    && (forall at: nat | at < |graph.nodes| :: Backed(graph, finishing, at))
  }

  lemma {:induction false} EndsIsFinishing(
      d: Dfa, walk: Walk, graph: Graph, finishing: seq<bool>, at: nat, letters: seq<Letter>)
    requires walk.Valid() && IsProduct(d, walk, graph) && ClosedBack(d, graph, finishing) && at < |graph.nodes|
    requires FinishesWith(d, walk.inventory, walk.cap, graph.nodes[at], letters)
    ensures finishing[at]
    decreases |letters|
  {
    hide NodeStep, EndsAt, Reads, Reached;
    if letters != [] {
      var l, rest := letters[0], letters[1..];
      assert letters[..1] == [l];
      RunPrefix(d, walk.inventory, walk.cap, graph.nodes[at], letters, 1);
      OneLetter(d, walk, graph.nodes[at], l);
      var e := EdgeOf(d, walk, graph, at, l);
      EndsIsFinishing(d, walk, graph, finishing, e.target, rest);
      assert Backed(graph, finishing, at);
    }
  }

  /** The edge of a letter that can be read. */
  lemma {:induction false} EdgeOf(d: Dfa, walk: Walk, graph: Graph, at: nat, l: Letter) returns (e: Edge)
    requires IsProduct(d, walk, graph) && at < |graph.nodes| && walk.Valid()
    requires NodeStep(d, walk.inventory, walk.cap, graph.nodes[at], l).Some?
    ensures e in graph.edges[at] && e.target < |graph.nodes| && e.inside == l.inside
    ensures NodeStep(d, walk.inventory, walk.cap, graph.nodes[at], l) == Some(graph.nodes[e.target])
  {
    hide NodeStep, Reads, Reached;
    assert Expanded(d, walk, graph.nodes, graph.edges[at], at);
    assert HasEdge(d, walk, graph.nodes, graph.edges[at], graph.nodes[at], l);
    e :| e in graph.edges[at] && e.target < |graph.nodes| && e.inside == l.inside
         && graph.nodes[e.target] == NodeStep(d, walk.inventory, walk.cap, graph.nodes[at], l).value;
  }

  ghost predicate AllEnd(d: Dfa, walk: Walk, graph: Graph, finishing: seq<bool>) {
    |finishing| == |graph.nodes| && forall at: nat | at < |finishing| && finishing[at] :: Ends(d, walk, graph.nodes[at])
  }

  /** Backed but for the sources of the nodes still pending. */
  ghost predicate BackedExcept(graph: Graph, finishing: seq<bool>, pending: seq<nat>) {
    forall at: nat, e | at < |graph.edges| <= |finishing| && e in graph.edges[at] && e.target < |finishing|
      && finishing[e.target] && e.target !in pending ::
      finishing[at]
  }

  function Sources(graph: Graph, target: nat): set<nat> {
    set at, e | 0 <= at < |graph.edges| && e in graph.edges[at] && e.target == target :: at
  }

  ghost function Unfinished(finishing: seq<bool>): set<nat> {
    set at: nat | at < |finishing| && !finishing[at]
  }

  /** The sources of one pending node become finishing and wait. */
  method Drain(d: Dfa, ghost walk: Walk, graph: Graph, finishing0: seq<bool>, pending0: seq<nat>)
    returns (finishing: seq<bool>, pending: seq<nat>)
    requires walk.Valid() && IsProduct(d, walk, graph) && AllEnd(d, walk, graph, finishing0)
    requires BackedExcept(graph, finishing0, pending0) && pending0 != []
    requires forall at | at in pending0 :: at < |finishing0| && finishing0[at]
    ensures AllEnd(d, walk, graph, finishing) && BackedExcept(graph, finishing, pending)
    ensures forall at | at in pending :: at < |finishing| && finishing[at]
    ensures forall at: nat | at < |finishing0| && finishing0[at] :: finishing[at]
    ensures Unfinished(finishing) < Unfinished(finishing0)
         || (Unfinished(finishing) == Unfinished(finishing0) && |pending| < |pending0|)
  {
    hide Reads, HasEdge, Reached, Ends, Walk.Valid;
    var target := pending0[0];
    assert target in pending0 && finishing0[target];
    finishing, pending := finishing0, pending0[1..];
    var sources := Sources(graph, target);
    while sources != {}
      invariant AllEnd(d, walk, graph, finishing) && sources <= Sources(graph, target)
      invariant forall at | at in pending :: at < |finishing| && finishing[at]
      invariant forall at: nat | at < |finishing0| && finishing0[at] :: finishing[at]
      invariant BackedExcept(graph, finishing, pending + [target])
      invariant forall at | at in Sources(graph, target) - sources :: at < |finishing| && finishing[at]
      invariant Unfinished(finishing) < Unfinished(finishing0) || (finishing == finishing0 && pending == pending0[1..])
      decreases |sources|
    {
      var source :| source in sources;
      SourceFinishes(d, walk, graph, finishing, target, source);
      if !finishing[source] {
        assert source in Unfinished(finishing)
          && Unfinished(finishing[source := true]) == Unfinished(finishing) - {source};
        finishing, pending := finishing[source := true], pending + [source];
      }
      sources := sources - {source};
    }
  }

  lemma {:induction false} SourceFinishes(
      d: Dfa, walk: Walk, graph: Graph, finishing: seq<bool>, target: nat, source: nat)
    requires IsProduct(d, walk, graph) && AllEnd(d, walk, graph, finishing) && target < |finishing| && finishing[target]
    requires source in Sources(graph, target)
    ensures source < |finishing| && AllEnd(d, walk, graph, finishing[source := true])
  {
    hide Reads, HasEdge, Reached, Ends;
    var e :| e in graph.edges[source] && e.target == target;
    assert Expanded(d, walk, graph.nodes, graph.edges[source], source);
    SourceEnds(d, walk, graph.nodes, source, e);
  }

  /** Marks, against the edges, every node some suffix of input finishes from. */
  method Finishing(d: Dfa, ghost walk: Walk, graph: Graph) returns (finishing: seq<bool>)
    requires walk.Valid() && IsProduct(d, walk, graph)
    ensures |finishing| == |graph.nodes|
    ensures forall at: nat | at < |finishing| :: finishing[at] <==> Ends(d, walk, graph.nodes[at])
  {
    hide Reads, HasEdge, Reached, Ends, Walk.Valid, Expanded;
    finishing := seq(|graph.nodes|, _ => false);
    var pending: seq<nat> := [];
    for at := 0 to |graph.nodes|
      invariant |finishing| == |graph.nodes|
      invariant forall q: nat | q < |finishing| :: finishing[q] <==> q < at && EndsAt(d, graph.nodes[q])
      invariant forall q: nat :: q in pending <==> q < at && EndsAt(d, graph.nodes[q])
    {
      if d.Accepting(graph.nodes[at].scan.reading) {
        finishing, pending := finishing[at := true], pending + [at];
      }
    }
    forall at: nat | at < |finishing| && finishing[at] ensures Ends(d, walk, graph.nodes[at]) {
      AcceptingEnds(d, walk, graph.nodes[at]);
    }
    while pending != []
      invariant AllEnd(d, walk, graph, finishing) && BackedExcept(graph, finishing, pending)
      invariant forall at | at in pending :: at < |finishing| && finishing[at]
      invariant forall at: nat | at < |finishing| && EndsAt(d, graph.nodes[at]) :: finishing[at]
      decreases Unfinished(finishing), |pending|
    {
      finishing, pending := Drain(d, walk, graph, finishing, pending);
    }
    forall at: nat | at < |finishing| && Ends(d, walk, graph.nodes[at]) ensures finishing[at] {
      EndsFinishes(d, walk, graph, finishing, at);
    }
  }

  lemma {:induction false} EndsFinishes(d: Dfa, walk: Walk, graph: Graph, finishing: seq<bool>, at: nat)
    requires walk.Valid() && IsProduct(d, walk, graph) && |finishing| == |graph.nodes|
    requires BackedExcept(graph, finishing, [])
    requires forall q: nat | q < |finishing| && EndsAt(d, graph.nodes[q]) :: finishing[q]
    requires at < |finishing| && Ends(d, walk, graph.nodes[at])
    ensures finishing[at]
  {
    hide Reads, HasEdge, Reached, Walk.Valid, Expanded, NodeStep, EndsAt;
    WalkFormed(walk);
    forall q: nat | q < |graph.nodes| ensures Backed(graph, finishing, q) {
    }
    var letters :| FinishesWith(d, walk.inventory, walk.cap, graph.nodes[at], letters);
    hide FinishesWith;
    EndsIsFinishing(d, walk, graph, finishing, at, letters);
  }

  // ----- walks inside the stretch -----

  function InsideTargets(edges: seq<Edge>, finishing: seq<bool>): (targets: seq<nat>)
    ensures forall t: nat :: t in targets <==> t < |finishing| && finishing[t] && Edge(t, true) in edges
  {
    if edges == [] then []
    else
      var last := edges[|edges| - 1];
      InsideTargets(edges[..|edges| - 1], finishing)
      + if last.inside && last.target < |finishing| && finishing[last.target] then [last.target] else []
  }

  /** The targets of the edges inside the stretch between nodes an input can be finished from. */
  ghost function StretchSuccessors(graph: Graph, finishing: seq<bool>): T.Successors {
    (at: nat) =>
      if at < |finishing| && finishing[at] && at < |graph.edges| then InsideTargets(graph.edges[at], finishing)
      else []
  }

  /** Some completely tokenizable input holds a stretch at least so long. */
  ghost predicate HoldsStretch(d: Dfa, inventory: seq<Pair>, length: nat)
    requires WellFormed(inventory)
  {
    exists s, i: nat, j: nat :: IsStretch(d, inventory, s, i, j) && j - i >= length
  }

  /** Letters all inside the stretch. */
  ghost predicate AllInside(letters: seq<Letter>) {
    forall y | 0 <= y < |letters| :: letters[y].inside
  }

  /** A walk inside the stretch is read by letters inside it. */
  lemma {:induction false} WalkReads(d: Dfa, walk: Walk, graph: Graph, finishing: seq<bool>, steps: seq<nat>)
    returns (letters: seq<Letter>)
    requires walk.Valid() && IsProduct(d, walk, graph) && |finishing| == |graph.nodes|
    requires T.IsWalk(|graph.nodes|, StretchSuccessors(graph, finishing), steps)
    ensures AllInside(letters) && |letters| == |steps| - 1
    ensures NodeRun(d, walk.inventory, walk.cap, graph.nodes[steps[0]], letters) ==
      Some(graph.nodes[steps[|steps| - 1]])
    decreases |steps|
  {
    hide Reads, HasEdge, Reached, NodeStep, Walk.Valid;
    WalkFormed(walk);
    if |steps| == 1 {
      letters := [];
    } else {
      var front := steps[..|steps| - 1];
      WalkFront(|graph.nodes|, StretchSuccessors(graph, finishing), steps);
      var before := WalkReads(d, walk, graph, finishing, front);
      var k := |steps| - 2;
      assert T.Leads(StretchSuccessors(graph, finishing), steps[k], steps[k + 1]);
      var l := InsideLetter(d, walk, graph, finishing, steps[k], steps[k + 1]);
      RunSnoc(d, walk.inventory, walk.cap, graph.nodes[steps[0]], before, l);
      letters := before + [l];
    }
  }

  lemma {:induction false} WalkFront(count: nat, successors: T.Successors, steps: seq<nat>)
    requires T.IsWalk(count, successors, steps) && |steps| > 1
    ensures T.IsWalk(count, successors, steps[..|steps| - 1])
  {
    hide T.Leads;
    var front := steps[..|steps| - 1];
    forall i | 0 <= i < |front| - 1 ensures T.Leads(successors, front[i], front[i + 1]) {
      assert T.Leads(successors, steps[i], steps[i + 1]);
    }
  }

  lemma {:induction false} InsideLetter(d: Dfa, walk: Walk, graph: Graph, finishing: seq<bool>, u: nat, v: nat)
    returns (l: Letter)
    requires walk.Valid() && IsProduct(d, walk, graph) && |finishing| == |graph.nodes| && u < |graph.nodes|
    requires v < |graph.nodes|
    requires T.Leads(StretchSuccessors(graph, finishing), u, v)
    ensures l.inside && NodeStep(d, walk.inventory, walk.cap, graph.nodes[u], l) == Some(graph.nodes[v])
  {
    hide HasEdge, Reached, NodeStep;
    assert Expanded(d, walk, graph.nodes, graph.edges[u], u);
    assert Reads(d, walk, graph.nodes, u, Edge(v, true));
    l :| l.inside && NodeStep(d, walk.inventory, walk.cap, graph.nodes[u], l) == Some(graph.nodes[v]);
  }

  /**
    A walk of n edges inside the stretch between nodes an input can be finished from is n positions
    of some stretch.
   */
  lemma {:induction false} WalkIsStretch(d: Dfa, walk: Walk, graph: Graph, finishing: seq<bool>, steps: seq<nat>)
    requires walk.Valid() && IsProduct(d, walk, graph) && !d.Accepting(d.init) && |finishing| == |graph.nodes|
    requires forall at: nat | at < |finishing| :: finishing[at] <==> Ends(d, walk, graph.nodes[at])
    requires T.IsWalk(|graph.nodes|, StretchSuccessors(graph, finishing), steps) && finishing[steps[|steps| - 1]]
    ensures HoldsStretch(d, walk.inventory, |steps| - 1)
  {
    hide Reads, HasEdge, Expanded, NodeStep, Walk.Valid, EndsAt;
    WalkFormed(walk);
    var inside := WalkReads(d, walk, graph, finishing, steps);
    assert Reached(d, walk, graph.nodes[steps[0]]);
    var before :| NodeRun(d, walk.inventory, walk.cap, StartNode(d), before) == Some(graph.nodes[steps[0]]);
    assert Ends(d, walk, graph.nodes[steps[|steps| - 1]]);
    var rest :| FinishesWith(d, walk.inventory, walk.cap, graph.nodes[steps[|steps| - 1]], rest);
    RunJoin(d, walk.inventory, walk.cap, StartNode(d), before, inside);
    RunJoin(d, walk.inventory, walk.cap, StartNode(d), before + inside, rest);
    RunHolds(d, walk.inventory, walk.cap, before, inside, rest);
  }

  lemma {:induction false} RunHolds(
      d: Dfa, inventory: seq<Pair>, cap: nat, before: seq<Letter>, inside: seq<Letter>, rest: seq<Letter>)
    requires Reach(inventory, cap) && !d.Accepting(d.init) && AllInside(inside)
    requires FinishesWith(d, inventory, cap, StartNode(d), before + inside + rest)
    ensures HoldsStretch(d, inventory, |inside|)
  {
    hide FinishesWith, Clear;
    var letters := before + inside + rest;
    RunTokenizes(d, inventory, cap, letters);
    var s, flags := BytesOf(letters), FlagsOf(letters);
    var i: nat, j: nat :| Block(flags, i, j) && Clear(inventory, s, i, j);
    assert forall y | 0 <= y < |inside| :: flags[|before| + y] == inside[y].inside;
    if inside != [] {
      assert flags[|before|] && flags[|before| + |inside| - 1];
    }
    assert IsStretch(d, inventory, s, i, j);
  }

  /** A stretch of n positions of a completely tokenizable input is a walk of n edges. */
  lemma {:induction false} StretchIsWalk(
      d: Dfa, walk: Walk, graph: Graph, finishing: seq<bool>, s: Word, i: nat, j: nat)
    requires walk.Valid() && IsProduct(d, walk, graph) && !d.Accepting(d.init) && |finishing| == |graph.nodes|
    requires forall at: nat | at < |finishing| :: finishing[at] <==> Ends(d, walk, graph.nodes[at])
    requires s != [] && IsStretch(d, walk.inventory, s, i, j)
    ensures T.WalksFor(|graph.nodes|, StretchSuccessors(graph, finishing), j - i)
  {
    hide Reads, HasEdge, Expanded, NodeStep, Clear, Walk.Valid, FinishesWith;
    WalkFormed(walk);
    var letters := StretchRuns(d, walk.inventory, walk.cap, s, i, j);
    var at := NodeAfter(d, walk, graph, finishing, letters, i);
    var steps := WalkAfter(d, walk, graph, finishing, letters, i, j, at);
  }

  /** The node a prefix of a finishing run leads to, finishing itself. */
  lemma {:induction false} NodeAfter(
      d: Dfa, walk: Walk, graph: Graph, finishing: seq<bool>, letters: seq<Letter>, k: nat)
    returns (at: nat)
    requires walk.Valid() && IsProduct(d, walk, graph) && |finishing| == |graph.nodes| && k <= |letters|
    requires forall q: nat | q < |finishing| :: finishing[q] <==> Ends(d, walk, graph.nodes[q])
    requires FinishesWith(d, walk.inventory, walk.cap, StartNode(d), letters)
    ensures at < |graph.nodes| && finishing[at]
    ensures NodeRun(d, walk.inventory, walk.cap, StartNode(d), letters[..k]) == Some(graph.nodes[at])
    decreases k
  {
    hide Reads, HasEdge, Expanded, NodeStep, EndsAt, Walk.Valid, Reached;
    WalkFormed(walk);
    RunPrefix(d, walk.inventory, walk.cap, StartNode(d), letters, k);
    if k == 0 {
      at := 0;
      assert letters[..0] == [];
    } else {
      var before := NodeAfter(d, walk, graph, finishing, letters, k - 1);
      at := NextNode(d, walk, graph, letters, k - 1, before);
    }
    assert FinishesWith(d, walk.inventory, walk.cap, graph.nodes[at], letters[k..]);
    assert Ends(d, walk, graph.nodes[at]);
  }

  lemma {:induction false} NextNode(d: Dfa, walk: Walk, graph: Graph, letters: seq<Letter>, k: nat, before: nat)
    returns (at: nat)
    requires walk.Valid() && IsProduct(d, walk, graph) && k < |letters| && before < |graph.nodes|
    requires NodeRun(d, walk.inventory, walk.cap, StartNode(d), letters[..k]) == Some(graph.nodes[before])
    requires NodeRun(d, walk.inventory, walk.cap, StartNode(d), letters[..k + 1]).Some?
    ensures at < |graph.nodes| && Edge(at, letters[k].inside) in graph.edges[before]
    ensures NodeRun(d, walk.inventory, walk.cap, StartNode(d), letters[..k + 1]) == Some(graph.nodes[at])
  {
    hide NodeStep, IsProduct;
    assert letters[..k + 1] == letters[..k] + [letters[k]];
    RunSnoc(d, walk.inventory, walk.cap, StartNode(d), letters[..k], letters[k]);
    var e := EdgeOf(d, walk, graph, before, letters[k]);
    at := e.target;
  }

  /** Through the stretch the nodes are a walk. */
  lemma {:induction false} WalkAfter(
      d: Dfa, walk: Walk, graph: Graph, finishing: seq<bool>, letters: seq<Letter>, i: nat, j: nat, at: nat)
    returns (steps: seq<nat>)
    requires walk.Valid() && IsProduct(d, walk, graph) && |finishing| == |graph.nodes| && i <= j <= |letters|
    requires forall q: nat | q < |finishing| :: finishing[q] <==> Ends(d, walk, graph.nodes[q])
    requires FinishesWith(d, walk.inventory, walk.cap, StartNode(d), letters)
    requires forall y | i <= y < j :: letters[y].inside
    requires at < |graph.nodes| && finishing[at]
    requires NodeRun(d, walk.inventory, walk.cap, StartNode(d), letters[..i]) == Some(graph.nodes[at])
    ensures T.IsWalk(|graph.nodes|, StretchSuccessors(graph, finishing), steps) && |steps| == j - i + 1
    ensures finishing[steps[j - i]]
    ensures NodeRun(d, walk.inventory, walk.cap, StartNode(d), letters[..j]) == Some(graph.nodes[steps[j - i]])
    decreases j
  {
    hide Reads, HasEdge, Expanded, NodeStep, EndsAt, Walk.Valid, Reached, FinishesWith;
    if i == j {
      steps := [at];
    } else {
      var before := WalkAfter(d, walk, graph, finishing, letters, i, j - 1, at);
      var last := before[j - 1 - i];
      var known := NodeAfter(d, walk, graph, finishing, letters, j);
      var next := NextNode(d, walk, graph, letters, j - 1, last);
      assert Ends(d, walk, graph.nodes[known]) && graph.nodes[known] == graph.nodes[next];
      assert T.Leads(StretchSuccessors(graph, finishing), last, next);
      WalkMore(|graph.nodes|, StretchSuccessors(graph, finishing), before, next);
      steps := before + [next];
    }
  }

  lemma {:induction false} WalkMore(count: nat, successors: T.Successors, steps: seq<nat>, next: nat)
    requires T.IsWalk(count, successors, steps) && next < count && T.Leads(successors, steps[|steps| - 1], next)
    ensures T.IsWalk(count, successors, steps + [next])
  {
    hide T.Leads;
    var more := steps + [next];
    forall i | 0 <= i < |more| - 1 ensures T.Leads(successors, more[i], more[i + 1]) {
      assert i < |steps| - 1 ==> T.Leads(successors, steps[i], steps[i + 1]);
    }
  }

  // ----- inputs as long as wanted -----

  /** A match is an input of one token. */
  lemma {:induction false} MatchTokenizes(d: Dfa, w: Word)
    requires d.Matches(w) && w != []
    ensures Segmentation(d, w, 0, [0, |w|]) && Tokenizes(d, w)
  {
    assert w[0..|w|] == w;
    assert TokenAt(d, w, 0, |w|);
  }

  /** A longest match in front of a completely tokenizable input leaves it so. */
  lemma {:induction false} TokenizesCons(d: Dfa, w: Word, s: Word)
    requires d.Matches(w) && w != [] && (forall v | d.Matches(v) :: |v| <= |w|) && Tokenizes(d, s)
    ensures Tokenizes(d, w + s)
  {
    hide Dfa.Matches, TokenAt;
    var cuts :| Segmentation(d, s, 0, cuts);
    var shifted := seq(|cuts|, i requires 0 <= i < |cuts| => |w| + cuts[i]);
    forall i | 0 <= i < |shifted| - 1 ensures TokenAt(d, w + s, shifted[i], shifted[i + 1]) {
      assert TokenAt(d, s, cuts[i], cuts[i + 1]);
      TokenAtShift(d, w, s, cuts[i], cuts[i + 1]);
    }
    FrontToken(d, w, s);
    SegmentationCons(d, w + s, 0, shifted);
  }

  lemma {:induction false} FrontToken(d: Dfa, w: Word, s: Word)
    requires d.Matches(w) && w != [] && forall v | d.Matches(v) :: |v| <= |w|
    ensures TokenAt(d, w + s, 0, |w|)
  {
    hide Dfa.Matches;
    assert (w + s)[0..|w|] == w;
  }

  lemma {:induction false} Repeats(d: Dfa, w: Word, n: nat) returns (s: Word)
    requires d.Matches(w) && w != [] && forall v | d.Matches(v) :: |v| <= |w|
    ensures Tokenizes(d, s) && |s| >= n
    decreases n
  {
    hide Dfa.Matches;
    if n == 0 {
      MatchTokenizes(d, w);
      s := w;
    } else {
      var rest := Repeats(d, w, n - 1);
      TokenizesCons(d, w, rest);
      s := w + rest;
    }
  }

  /**
    Where some token matches, completely tokenizable inputs are as long as wanted: a match that
    long, or a longest one repeated.
   */
  lemma {:induction false} LongInput(d: Dfa, w: Word, n: nat) returns (s: Word)
    requires d.Matches(w) && w != []
    ensures Tokenizes(d, s) && |s| >= n
    decreases if |w| < n then n - |w| else 0
  {
    hide Dfa.Matches;
    if |w| >= n {
      MatchTokenizes(d, w);
      s := w;
    } else if v :| d.Matches(v) && |v| > |w| {
      s := LongInput(d, v, n);
    } else {
      s := Repeats(d, w, n);
    }
  }

  lemma {:induction false} LiveMatches(sim: Simulator, q: State) returns (w: Word, k: nat)
    requires sim.Valid() && q in sim.live
    ensures sim.dfa.Matches(w) && k <= |w| && sim.dfa.Run(sim.dfa.init, w[..k]) == Some(q) && w != []
  {
    var d := sim.dfa;
    var u :| d.Run(d.init, u) == Some(q);
    var v :| d.AcceptsFrom(q, v);
    w, k := u + v, |u|;
    d.RunAppend(d.init, u, v);
    assert w[..k] == u;
    assert w != [];
  }

  // ----- an inventory without windows -----

  lemma {:induction false} NoWindowsSpan(sim: Simulator, n: nat)
    requires sim.Valid() && sim.dfa.init in sim.live
    ensures HoldsStretch(sim.dfa, [], n)
  {
    var w, k := LiveMatches(sim, sim.dfa.init);
    var s := LongInput(sim.dfa, w, n);
    assert IsStretch(sim.dfa, [], s, 0, |s|);
  }

  lemma {:induction false} MatchLivens(sim: Simulator, w: Word)
    requires sim.Valid() && sim.dfa.Matches(w)
    ensures sim.dfa.init in sim.live
  {
    sim.dfa.MatchPassesLive(w, 0);
    assert w[..0] == [];
  }

  lemma {:induction false} NothingMatches(sim: Simulator, s: Word)
    requires sim.Valid() && sim.dfa.init !in sim.live && Tokenizes(sim.dfa, s)
    ensures s == []
  {
    var d := sim.dfa;
    var cuts :| Segmentation(d, s, 0, cuts);
    NothingLeft(d, s, 0, cuts);
    if |cuts| > 1 {
      assert TokenAt(d, s, cuts[0], cuts[1]);
      MatchLivens(sim, s[cuts[0]..cuts[1]]);
    }
  }

  // ----- tokens as long as wanted -----

  function LiveTargets(sim: Simulator, q: nat, value: nat): (targets: seq<nat>)
    requires value <= 256
    ensures forall t: nat :: t in targets <==> t in sim.live && exists b: Byte ::
      b < value && sim.dfa.Step(q, b) == Some(t)
  {
    if value == 0 then []
    else
      var b: Byte := value - 1;
      var next := sim.dfa.Step(q, b);
      LiveTargets(sim, q, value - 1) + if next.Some? && next.value in sim.live then [next.value] else []
  }

  ghost function LiveSuccessors(sim: Simulator): T.Successors {
    (q: nat) => if q in sim.live then LiveTargets(sim, q, 256) else []
  }

  /** A walk among the live states is read by a word as long. */
  lemma {:induction false} LiveWalkReads(sim: Simulator, steps: seq<nat>) returns (w: Word)
    requires sim.Valid() && T.IsWalk(sim.dfa.states, LiveSuccessors(sim), steps)
    ensures |w| == |steps| - 1 && sim.dfa.Run(steps[0], w) == Some(steps[|steps| - 1])
    ensures |steps| > 1 ==> steps[0] in sim.live && steps[|steps| - 1] in sim.live
    decreases |steps|
  {
    hide Simulator.Valid;
    if |steps| == 1 {
      w := [];
    } else {
      var k := |steps| - 2;
      WalkFront(sim.dfa.states, LiveSuccessors(sim), steps);
      var before := LiveWalkReads(sim, steps[..|steps| - 1]);
      assert T.Leads(LiveSuccessors(sim), steps[k], steps[k + 1]);
      var b: Byte :| sim.dfa.Step(steps[k], b) == Some(steps[k + 1]);
      sim.dfa.RunSnoc(steps[0], before, b);
      w := before + [b];
    }
  }

  lemma {:induction false} LongToken(sim: Simulator, steps: seq<nat>) returns (w: Word)
    requires sim.Valid() && T.IsWalk(sim.dfa.states, LiveSuccessors(sim), steps) && |steps| > 1
    ensures sim.dfa.Matches(w) && |w| >= |steps| - 1
  {
    var d := sim.dfa;
    var v := LiveWalkReads(sim, steps);
    hide T.IsWalk;
    var first, last := steps[0], steps[|steps| - 1];
    assert d.Live(first) && d.Live(last);
    var u :| d.Run(d.init, u) == Some(first);
    var z :| d.AcceptsFrom(last, z);
    d.RunAppend(d.init, u, v);
    d.RunAppend(d.init, u + v, z);
    w := u + v + z;
  }

  /** Every window of the inventory certifies its origin. */
  ghost predicate Certified(sim: Simulator, inventory: seq<Pair>) {
    WellFormed(inventory) && forall i | 0 <= i < |inventory| :: Certifies(sim, inventory[i].window, inventory[i].origin)
  }

  /** No certified origin falls inside a token: every position anchored in an input is a token's start. */
  lemma {:induction false} AnchorStarts(sim: Simulator, inventory: seq<Pair>, s: Word, k: nat, x: nat)
    requires sim.Valid() && Certified(sim, inventory) && Tokenizes(sim.dfa, s) && AnchorsAt(inventory, s, k, x)
    ensures IsStart(sim.dfa, s, x)
  {
    hide Certifies, Tokenizes, Simulator.Valid;
    var i :| 0 <= i < |inventory| && EndsWith(s[..k], inventory[i].window) && AgeOf(inventory[i]) == k - 1 - x;
    var w, o := inventory[i].window, inventory[i].origin;
    assert s[..k][k - |w|..] == s[k - |w|..k];
    CertificateSound(sim, w, o, s, k - |w|);
  }

  /** So a token of its own carries an anchor-free stretch as long as it is, but for its first byte. */
  lemma {:induction false} TokenStretch(sim: Simulator, inventory: seq<Pair>, w: Word)
    requires sim.Valid() && Certified(sim, inventory) && sim.dfa.Matches(w) && w != []
    ensures IsStretch(sim.dfa, inventory, w, 1, |w|)
  {
    MatchTokenizes(sim.dfa, w);
    hide Certified, Simulator.Valid, Dfa.Matches, AnchorsAt;
    assert WellFormed(inventory) by {
      CertifiedFormed(sim, inventory);
    }
    forall k, x: nat | 1 <= k <= |w| && 1 <= x < |w| ensures !AnchorsAt(inventory, w, k, x) {
      if AnchorsAt(inventory, w, k, x) {
        AnchorStarts(sim, inventory, w, k, x);
        OnlyStart(sim.dfa, w, x);
      }
    }
  }

  lemma CertifiedFormed(sim: Simulator, inventory: seq<Pair>)
    requires Certified(sim, inventory)
    ensures WellFormed(inventory)
  {
  }

  lemma {:induction false} OnlyStart(d: Dfa, w: Word, x: nat)
    requires Segmentation(d, w, 0, [0, |w|]) && IsStart(d, w, x)
    ensures x == 0
  {
    var cuts :| Segmentation(d, w, 0, cuts) && x in cuts[..|cuts| - 1];
    SegmentationUnique(d, w, 0, cuts, [0, |w|]);
  }

  lemma {:induction false} LongTokensSpan(sim: Simulator, inventory: seq<Pair>, n: nat)
    requires sim.Valid() && Certified(sim, inventory) && T.WalksFor(sim.dfa.states, LiveSuccessors(sim), n + 1)
    ensures HoldsStretch(sim.dfa, inventory, n)
  {
    hide Certified, Simulator.Valid;
    CertifiedFormed(sim, inventory);
    var steps :| T.IsWalk(sim.dfa.states, LiveSuccessors(sim), steps) && |steps| == n + 2;
    var w := LongToken(sim, steps);
    TokenStretch(sim, inventory, w);
  }

  // ----- the decision -----

  /** The supremum of the stretches' lengths: attained, or none for stretches as long as wanted. */
  ghost predicate IsSpan(d: Dfa, inventory: seq<Pair>, span: Option<nat>)
    requires WellFormed(inventory)
  {
    match span
    case Some(most) => HoldsStretch(d, inventory, most) && !HoldsStretch(d, inventory, most + 1)
    case None => forall n: nat :: HoldsStretch(d, inventory, n)
  }

  /** Whether some token is arbitrarily long: whether the live states have walks that never end. */
  method UnboundedToken(sim: Simulator) returns (unbounded: bool)
    requires sim.Valid()
    ensures unbounded ==> forall n: nat :: T.WalksFor(sim.dfa.states, LiveSuccessors(sim), n)
  {
    var successors := (q: nat) => if q in sim.live then LiveTargets(sim, q, 256) else [];
    assert successors == LiveSuccessors(sim);
    LiveTargetsInRange(sim);
    var order := T.ForwardOrder(sim.dfa.states, successors);
    unbounded := order.None?;
  }

  lemma {:induction false} LiveTargetsInRange(sim: Simulator)
    requires sim.Valid()
    ensures T.Targets(sim.dfa.states, LiveSuccessors(sim))
  {
    hide LiveTargets;
    forall v: nat, i | v < sim.dfa.states && 0 <= i < |LiveSuccessors(sim)(v)|
      ensures LiveSuccessors(sim)(v)[i] < sim.dfa.states
    {
      var t := LiveSuccessors(sim)(v)[i];
      assert t in LiveTargets(sim, v, 256);
      var b: Byte :| sim.dfa.Step(v, b) == Some(t);
    }
  }

  lemma {:induction false} StretchTargetsInRange(graph: Graph, finishing: seq<bool>)
    requires |finishing| == |graph.nodes|
    ensures T.Targets(|graph.nodes|, StretchSuccessors(graph, finishing))
  {
    forall v: nat, i | v < |graph.nodes| && 0 <= i < |StretchSuccessors(graph, finishing)(v)|
      ensures StretchSuccessors(graph, finishing)(v)[i] < |graph.nodes|
    {
      assert StretchSuccessors(graph, finishing)(v)[i] in StretchSuccessors(graph, finishing)(v);
    }
  }

  /** A walk of at least one edge ends at a node an input can be finished from. */
  lemma {:induction false} WalkFinishes(graph: Graph, finishing: seq<bool>, steps: seq<nat>)
    requires |finishing| == |graph.nodes| && T.IsWalk(|graph.nodes|, StretchSuccessors(graph, finishing), steps)
    requires |steps| > 1
    ensures finishing[steps[|steps| - 1]]
  {
    var k := |steps| - 2;
    assert T.Leads(StretchSuccessors(graph, finishing), steps[k], steps[k + 1]);
  }

  /** The stretches of an input are as long as the walks. */
  lemma {:induction false} WalksHold(d: Dfa, walk: Walk, graph: Graph, finishing: seq<bool>, n: nat)
    requires walk.Valid() && IsProduct(d, walk, graph) && !d.Accepting(d.init) && |finishing| == |graph.nodes|
    requires forall at: nat | at < |finishing| :: finishing[at] <==> Ends(d, walk, graph.nodes[at])
    requires finishing[0]
    ensures T.WalksFor(|graph.nodes|, StretchSuccessors(graph, finishing), n) ==> HoldsStretch(d, walk.inventory, n)
    ensures HoldsStretch(d, walk.inventory, n) ==> exists m: nat ::
      m >= n && T.WalksFor(|graph.nodes|, StretchSuccessors(graph, finishing), m)
  {
    hide IsProduct, Ends, StretchSuccessors, Walk.Valid, IsStretch;
    WalkFormed(walk);
    if T.WalksFor(|graph.nodes|, StretchSuccessors(graph, finishing), n) {
      var steps :| T.IsWalk(|graph.nodes|, StretchSuccessors(graph, finishing), steps) && |steps| == n + 1;
      if n == 0 {
        NoSteps(d, walk, graph, finishing);
      } else {
        WalkFinishes(graph, finishing, steps);
        WalkIsStretch(d, walk, graph, finishing, steps);
      }
    }
    if HoldsStretch(d, walk.inventory, n) {
      var s, i: nat, j: nat :| IsStretch(d, walk.inventory, s, i, j) && j - i >= n;
      HeldIsWalk(d, walk, graph, finishing, s, i, j);
    }
  }

  lemma {:induction false} NoSteps(d: Dfa, walk: Walk, graph: Graph, finishing: seq<bool>)
    requires walk.Valid() && IsProduct(d, walk, graph) && !d.Accepting(d.init) && |finishing| == |graph.nodes|
    requires forall at: nat | at < |finishing| :: finishing[at] <==> Ends(d, walk, graph.nodes[at])
    requires finishing[0]
    ensures HoldsStretch(d, walk.inventory, 0)
  {
    hide StretchSuccessors;
    assert T.IsWalk(|graph.nodes|, StretchSuccessors(graph, finishing), [0]);
    WalkIsStretch(d, walk, graph, finishing, [0]);
  }

  lemma {:induction false} HeldIsWalk(d: Dfa, walk: Walk, graph: Graph, finishing: seq<bool>, s: Word, i: nat, j: nat)
    requires walk.Valid() && IsProduct(d, walk, graph) && !d.Accepting(d.init) && |finishing| == |graph.nodes|
    requires forall at: nat | at < |finishing| :: finishing[at] <==> Ends(d, walk, graph.nodes[at])
    requires IsStretch(d, walk.inventory, s, i, j)
    ensures T.WalksFor(|graph.nodes|, StretchSuccessors(graph, finishing), j - i)
  {
    hide StretchSuccessors;
    if s == [] {
      assert T.IsWalk(|graph.nodes|, StretchSuccessors(graph, finishing), [0]);
    } else {
      StretchIsWalk(d, walk, graph, finishing, s, i, j);
    }
  }

  /**
    The most edges inside the stretch along a walk between nodes an input can be finished from; none
    where such walks never end.
   */
  method LongestStretch(d: Dfa, ghost walk: Walk, graph: Graph, finishing: seq<bool>) returns (span: Option<nat>)
    requires walk.Valid() && IsProduct(d, walk, graph) && !d.Accepting(d.init) && |finishing| == |graph.nodes|
    requires forall at: nat | at < |finishing| :: finishing[at] <==> Ends(d, walk, graph.nodes[at])
    requires finishing[0]
    ensures WellFormed(walk.inventory) && IsSpan(d, walk.inventory, span)
  {
    var successors := (at: nat) =>
      if at < |finishing| && finishing[at] && at < |graph.edges| then InsideTargets(graph.edges[at], finishing) else [];
    assert successors == StretchSuccessors(graph, finishing);
    StretchTargetsInRange(graph, finishing);
    WalkFormed(walk);
    hide IsProduct, Ends, StretchSuccessors, HoldsStretch, Walk.Valid, T.IsForward, T.Targets;
    var order := T.ForwardOrder(|graph.nodes|, successors);
    forall n: nat
      ensures T.WalksFor(|graph.nodes|, successors, n) ==> HoldsStretch(d, walk.inventory, n)
      ensures HoldsStretch(d, walk.inventory, n) ==> exists m: nat :: m >= n && T.WalksFor(|graph.nodes|, successors, m)
    {
      WalksHold(d, walk, graph, finishing, n);
    }
    if order.None? {
      return None;
    }
    var longest := T.LongestWalk(|graph.nodes|, successors, order.value);
    span := Some(longest);
  }

  /** No input is completely tokenizable but the empty one. */
  lemma {:induction false} NothingFinishes(d: Dfa, walk: Walk, graph: Graph)
    requires walk.Valid() && IsProduct(d, walk, graph) && !d.Accepting(d.init) && !Ends(d, walk, graph.nodes[0])
    ensures WellFormed(walk.inventory) && IsSpan(d, walk.inventory, Some(0))
  {
    hide Reached, Expanded, NodeStep, Clear, FinishesWith;
    WalkFormed(walk);
    EmptyTokenizes(d, walk.inventory);
    forall s, i: nat, j: nat | IsStretch(d, walk.inventory, s, i, j) ensures j - i < 1 {
      if s != [] {
        var letters := StretchRuns(d, walk.inventory, walk.cap, s, i, j);
        FinishedEnds(d, walk, StartNode(d), letters);
      }
    }
  }

  lemma FinishedEnds(d: Dfa, walk: Walk, node: Node, letters: seq<Letter>)
    requires walk.Valid() && FinishesWith(d, walk.inventory, walk.cap, node, letters)
    ensures Ends(d, walk, node)
  {
  }

  lemma {:induction false} EmptyTokenizes(d: Dfa, inventory: seq<Pair>)
    requires WellFormed(inventory)
    ensures HoldsStretch(d, inventory, 0)
  {
    assert Segmentation(d, [], 0, [0]);
    assert IsStretch(d, inventory, [], 0, 0);
  }

  /** Decides the longest anchor-free stretch over a certified inventory. */
  method Decide(sim: Simulator, walk: Walk) returns (span: Option<nat>)
    requires sim.Valid() && walk.Valid() && Certified(sim, walk.inventory)
    ensures WellFormed(walk.inventory) && IsSpan(sim.dfa, walk.inventory, span)
  {
    WalkFormed(walk);
    hide Certified, HoldsStretch, Walk.Valid, IsProduct;
    if walk.inventory == [] {
      span := DecideEmpty(sim);
      return;
    }
    var unbounded := UnboundedToken(sim);
    if unbounded {
      forall n: nat ensures HoldsStretch(sim.dfa, walk.inventory, n) {
        LongTokensSpan(sim, walk.inventory, n);
      }
      return None;
    }
    var graph := Explore(sim.dfa, walk);
    var finishing := Finishing(sim.dfa, walk, graph);
    ProductStarts(sim.dfa, walk, graph);
    if !finishing[0] {
      NothingFinishes(sim.dfa, walk, graph);
      return Some(0);
    }
    span := LongestStretch(sim.dfa, walk, graph, finishing);
  }

  lemma ProductStarts(d: Dfa, walk: Walk, graph: Graph)
    requires IsProduct(d, walk, graph)
    ensures graph.nodes != []
  {
  }

  /** An empty inventory anchors nowhere, so the input length alone bounds the run. */
  method DecideEmpty(sim: Simulator) returns (span: Option<nat>)
    requires sim.Valid()
    ensures IsSpan(sim.dfa, [], span)
  {
    if sim.dfa.init in sim.live {
      forall n: nat ensures HoldsStretch(sim.dfa, [], n) {
        NoWindowsSpan(sim, n);
      }
      return None;
    }
    EmptyTokenizes(sim.dfa, []);
    forall s, i: nat, j: nat | IsStretch(sim.dfa, [], s, i, j) ensures j - i < 1 {
      NothingMatches(sim, s);
    }
    span := Some(0);
  }

  // ----- the answer, in terms of occurrences -----

  /** A run of positions of a tokenizable input at none of which an occurrence of a window has its origin. */
  ghost predicate IsUnanchored(d: Dfa, inventory: seq<Pair>, s: Word, i: nat, j: nat) {
    && Tokenizes(d, s) && i <= j <= |s|
    && forall k: nat, p: nat | k < |inventory| && OccursAt(s, inventory[k].window, p) ::
         !(i <= p + inventory[k].origin < j)
  }

  ghost predicate HoldsUnanchored(d: Dfa, inventory: seq<Pair>, length: nat) {
    exists s, i: nat, j: nat :: IsUnanchored(d, inventory, s, i, j) && j - i >= length
  }

  /** The supremum of those runs' lengths: attained, or none for runs as long as wanted. */
  ghost predicate IsSupremum(d: Dfa, inventory: seq<Pair>, most: Option<nat>) {
    match most
    case Some(n) => HoldsUnanchored(d, inventory, n) && !HoldsUnanchored(d, inventory, n + 1)
    case None => forall n: nat :: HoldsUnanchored(d, inventory, n)
  }

  /** An occurrence anchors, as the walk counts, where its origin stands. */
  lemma {:induction false} OccurrenceAnchors(inventory: seq<Pair>, s: Word, m: nat, p: nat)
    requires WellFormed(inventory) && m < |inventory| && OccursAt(s, inventory[m].window, p)
    ensures AnchorsAt(inventory, s, p + |inventory[m].window|, p + inventory[m].origin)
  {
    var w, k := inventory[m].window, p + |inventory[m].window|;
    assert s[..k][k - |w|..] == s[p..k];
    assert EndsWith(s[..k], inventory[m].window) && AgeOf(inventory[m]) == k - 1 - (p + inventory[m].origin);
  }

  lemma {:induction false} AnchorOccurs(inventory: seq<Pair>, s: Word, k: nat, x: nat) returns (m: nat, p: nat)
    requires WellFormed(inventory) && AnchorsAt(inventory, s, k, x)
    ensures m < |inventory| && OccursAt(s, inventory[m].window, p) && p + inventory[m].origin == x
  {
    m :| m < |inventory| && EndsWith(s[..k], inventory[m].window) && AgeOf(inventory[m]) == k - 1 - x;
    p := k - |inventory[m].window|;
    assert s[..k][p..] == s[p..k];
  }

  lemma {:induction false} StretchIsUnanchored(d: Dfa, inventory: seq<Pair>, s: Word, i: nat, j: nat)
    requires WellFormed(inventory)
    ensures IsStretch(d, inventory, s, i, j) <==> IsUnanchored(d, inventory, s, i, j)
  {
    hide Tokenizes, AnchorsAt, OccursAt;
    if IsStretch(d, inventory, s, i, j) {
      forall k: nat, p: nat | k < |inventory| && OccursAt(s, inventory[k].window, p)
        ensures !(i <= p + inventory[k].origin < j)
      {
        OccurrenceAnchors(inventory, s, k, p);
        OccursInside(s, inventory[k].window, p);
      }
    }
    if IsUnanchored(d, inventory, s, i, j) {
      forall k, x: nat | 1 <= k <= |s| && i <= x < j ensures !AnchorsAt(inventory, s, k, x) {
        if AnchorsAt(inventory, s, k, x) {
          var m, p := AnchorOccurs(inventory, s, k, x);
        }
      }
    }
  }

  lemma OccursInside(s: Word, w: Word, p: nat)
    requires OccursAt(s, w, p)
    ensures p + |w| <= |s|
  {
  }

  lemma {:induction false} SpanIsSupremum(d: Dfa, inventory: seq<Pair>, most: Option<nat>)
    requires WellFormed(inventory)
    ensures IsSpan(d, inventory, most) <==> IsSupremum(d, inventory, most)
  {
    hide IsStretch, IsUnanchored;
    forall s, i: nat, j: nat ensures IsStretch(d, inventory, s, i, j) <==> IsUnanchored(d, inventory, s, i, j) {
      StretchIsUnanchored(d, inventory, s, i, j);
    }
    assert forall n: nat :: HoldsStretch(d, inventory, n) <==> HoldsUnanchored(d, inventory, n);
  }

  /** A refused inventory, or the span over it. */
  datatype Answer = Refused | Span(most: Option<nat>)

  /**
    How long an input can go unanchored: the greatest number of successive positions,
    over all completely tokenizable inputs, at which no inventory window anchors, or
    that there is no greatest. One uncertified pair and the inventory is refused.
   */
  method AnchorFree(sim: Simulator, inventory: seq<Pair>) returns (answer: Answer)
    requires sim.Valid()
    ensures answer.Refused? <==>
              exists i: nat :: i < |inventory| && !Pins(sim, inventory[i].window, inventory[i].origin)
    ensures answer.Span? ==> IsSupremum(sim.dfa, inventory, answer.most)
  {
    hide Pins, IsSpan, IsSupremum, Certified, Simulator.Valid;
    answer := SpanOver(sim, inventory);
    CertifiedIsPins(sim, inventory);
    if answer.Span? {
      CertifiedFormed(sim, inventory);
      SpanIsSupremum(sim.dfa, inventory, answer.most);
    }
  }

  lemma {:induction false} CertifiedIsPins(sim: Simulator, inventory: seq<Pair>)
    requires sim.Valid()
    ensures Certified(sim, inventory) <==>
              forall i: nat | i < |inventory| :: Pins(sim, inventory[i].window, inventory[i].origin)
  {
    hide Certifies, Simulator.Valid, Pins;
    forall i: nat | i < |inventory|
      ensures Certifies(sim, inventory[i].window, inventory[i].origin) <==>
                Pins(sim, inventory[i].window, inventory[i].origin)
    {
      CertifiesIsPins(sim, inventory[i].window, inventory[i].origin);
    }
    forall i: nat | i < |inventory| && Certifies(sim, inventory[i].window, inventory[i].origin)
      ensures inventory[i].origin < |inventory[i].window|
    {
      OriginInside(sim, inventory[i].window, inventory[i].origin);
    }
  }

  lemma {:induction false} OriginInside(sim: Simulator, w: Word, o: nat)
    requires sim.Valid() && Certifies(sim, w, o)
    ensures o < |w|
  {
    var h :| h in CloudAfter(sim, w);
    HypothesisPossible(sim, w, h);
  }

  /** The span over an inventory, checked pair by pair. */
  method SpanOver(sim: Simulator, inventory: seq<Pair>) returns (answer: Answer)
    requires sim.Valid()
    ensures answer.Refused? <==> !Certified(sim, inventory)
    ensures answer.Span? ==> Certified(sim, inventory) && IsSpan(sim.dfa, inventory, answer.most)
  {
    hide Certifies;
    for i := 0 to |inventory|
      invariant forall j | 0 <= j < i ::
                  inventory[j].origin < |inventory[j].window|
                    && Certifies(sim, inventory[j].window, inventory[j].origin)
    {
      if inventory[i].window == [] || inventory[i].origin >= |inventory[i].window| {
        return Refused;
      }
      var certified := IsSplitWindow(sim, inventory[i].window);
      if certified != Some(inventory[i].origin) {
        OneOrigin(sim, inventory[i].window, certified, inventory[i].origin);
        return Refused;
      }
    }
    var walk := BuildWalk(inventory);
    var span := Decide(sim, walk);
    answer := Span(span);
  }

  /** A window certifies one origin at most. */
  lemma {:induction false} OneOrigin(sim: Simulator, w: Word, found: Option<nat>, o: nat)
    requires found.Some? ==> Certifies(sim, w, found.value)
    requires found.None? ==> forall p :: !Certifies(sim, w, p)
    requires found != Some(o)
    ensures !Certifies(sim, w, o)
  {
    if Certifies(sim, w, o) && found.Some? {
      OneCertified(sim, w, found.value, o);
    }
  }

  /** The certified bytes as windows of width one. */
  ghost predicate IsBytes(sim: Simulator, inventory: seq<Pair>)
    requires sim.Valid()
  {
    && (forall i | 0 <= i < |inventory| ::
          |inventory[i].window| == 1 && inventory[i].origin == 0 && SafeByte(sim, {}, inventory[i].window[0]))
    && forall b: Byte | SafeByte(sim, {}, b) :: Pair([b], 0) in inventory
  }

  /** A run of positions of a tokenizable input at which no certified byte stands. */
  ghost predicate IsByteStretch(sim: Simulator, s: Word, i: nat, j: nat)
    requires sim.Valid()
  {
    Tokenizes(sim.dfa, s) && i <= j <= |s| && forall x | i <= x < j :: !SafeByte(sim, {}, s[x])
  }

  ghost predicate HoldsByteStretch(sim: Simulator, length: nat)
    requires sim.Valid()
  {
    exists s, i: nat, j: nat :: IsByteStretch(sim, s, i, j) && j - i >= length
  }

  ghost predicate IsByteSpan(sim: Simulator, span: Option<nat>)
    requires sim.Valid()
  {
    match span
    case Some(most) => HoldsByteStretch(sim, most) && !HoldsByteStretch(sim, most + 1)
    case None => forall n: nat :: HoldsByteStretch(sim, n)
  }

  /** A window of one certified byte anchors exactly the positions where the byte stands. */
  lemma {:induction false} BytesAnchor(sim: Simulator, inventory: seq<Pair>, s: Word, k: nat, x: nat)
    requires sim.Valid() && WellFormed(inventory) && IsBytes(sim, inventory)
    ensures AnchorsAt(inventory, s, k, x) <==> k == x + 1 <= |s| && SafeByte(sim, {}, s[x])
  {
    hide SafeByte, Simulator.Valid;
    if AnchorsAt(inventory, s, k, x) {
      var i :| 0 <= i < |inventory| && EndsWith(s[..k], inventory[i].window) && AgeOf(inventory[i]) == k - 1 - x;
      assert s[..k][k - 1..] == [s[x]];
    }
    if k == x + 1 <= |s| && SafeByte(sim, {}, s[x]) {
      var i :| 0 <= i < |inventory| && inventory[i] == Pair([s[x]], 0);
      assert s[..k][k - 1..] == [s[x]];
      assert EndsWith(s[..k], inventory[i].window) && AgeOf(inventory[i]) == k - 1 - x;
    }
  }

  lemma {:induction false} BytesStretch(sim: Simulator, inventory: seq<Pair>, s: Word, i: nat, j: nat)
    requires sim.Valid() && WellFormed(inventory) && IsBytes(sim, inventory)
    ensures IsStretch(sim.dfa, inventory, s, i, j) <==> IsByteStretch(sim, s, i, j)
  {
    hide SafeByte, Simulator.Valid, IsBytes, AnchorsAt, Tokenizes;
    forall k: nat, x: nat ensures AnchorsAt(inventory, s, k, x) <==> k == x + 1 <= |s| && SafeByte(sim, {}, s[x]) {
      BytesAnchor(sim, inventory, s, k, x);
    }
    if i <= j <= |s| && Clear(inventory, s, i, j) {
      forall x | i <= x < j ensures !SafeByte(sim, {}, s[x]) {
        assert !AnchorsAt(inventory, s, x + 1, x);
      }
    }
  }

  lemma {:induction false} BytesSpan(sim: Simulator, inventory: seq<Pair>, span: Option<nat>)
    requires sim.Valid() && WellFormed(inventory) && IsBytes(sim, inventory) && IsSpan(sim.dfa, inventory, span)
    ensures IsByteSpan(sim, span)
  {
    hide IsStretch, IsByteStretch, Simulator.Valid, IsBytes;
    forall s, i: nat, j: nat ensures IsStretch(sim.dfa, inventory, s, i, j) <==> IsByteStretch(sim, s, i, j) {
      BytesStretch(sim, inventory, s, i, j);
    }
    assert forall n: nat :: HoldsStretch(sim.dfa, inventory, n) <==> HoldsByteStretch(sim, n);
  }

  /** The greatest number of successive positions of an input at which no certified byte stands. */
  method ByteFree(sim: Simulator) returns (span: Option<nat>)
    requires sim.Valid()
    ensures IsByteSpan(sim, span)
  {
    hide SafeByte, Certifies, Simulator.Valid, IsSpan;
    var points := DeriveSplitPoints(sim, {});
    var pairs: seq<Pair> := [];
    for value: int := 0 to 256
      invariant forall i | 0 <= i < |pairs| ::
                  |pairs[i].window| == 1 && pairs[i].origin == 0 && SafeByte(sim, {}, pairs[i].window[0])
      invariant forall b: Byte | b < value && SafeByte(sim, {}, b) :: Pair([b], 0) in pairs
    {
      var b: Byte := value;
      if b in points {
        pairs := pairs + [Pair([b], 0)];
      }
    }
    forall i | 0 <= i < |pairs| ensures Certifies(sim, pairs[i].window, pairs[i].origin) {
      SafeByteIsWindow(sim, pairs[i].window[0]);
      assert pairs[i].window == [pairs[i].window[0]];
    }
    var answer := SpanOver(sim, pairs);
    span := answer.most;
    BytesSpan(sim, pairs, span);
  }
}

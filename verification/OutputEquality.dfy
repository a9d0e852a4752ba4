/**
  Whether every accepting path of a product graph carries equal output words, decided by the delays
  of one stem per vertex.
 */
module OutputEquality {
  import opened Options
  import opened FreeGroup

  datatype Edge = Edge(source: nat, target: nat, symbol: int, h: Letters, g: Letters)

  /** The product graph: its edges, and by vertex the edges out of it, the edges into it, and whether it accepts. */
  datatype Graph = Graph(edges: seq<Edge>, out: seq<seq<nat>>, into: seq<seq<nat>>, accepting: seq<bool>) {

    ghost predicate Valid() {
      && |out| > 0 && |into| == |out| == |accepting|
      && (forall e | 0 <= e < |edges| ::
        edges[e].source < |out| && edges[e].target < |out| && Positive(edges[e].h) && Positive(edges[e].g))
      && (forall v | 0 <= v < |out| :: ListsOut(v) && ListsInto(v))
    }

    /** The edges out of a vertex are listed there. */
    ghost predicate ListsOut(v: nat) {
      v < |out| && forall e: nat :: e in out[v] <==> e < |edges| && edges[e].source == v
    }

    ghost predicate ListsInto(v: nat) {
      v < |into| && forall e: nat :: e in into[v] <==> e < |edges| && edges[e].target == v
    }

    /** The edges follow one another from one vertex to another. */
    ghost predicate IsPath(from: nat, path: seq<nat>, to: nat) {
      if path == [] then from == to
      else
        var last := path[|path| - 1];
        last < |edges| && edges[last].target == to && IsPath(from, path[..|path| - 1], edges[last].source)
    }

    ghost function EdgeH(e: nat): Letters {
      if e < |edges| then edges[e].h else []
    }

    ghost function EdgeG(e: nat): Letters {
      if e < |edges| then edges[e].g else []
    }

    ghost function H(path: seq<nat>): Letters {
      if path == [] then [] else H(path[..|path| - 1]) + EdgeH(path[|path| - 1])
    }

    ghost function G(path: seq<nat>): Letters {
      if path == [] then [] else G(path[..|path| - 1]) + EdgeG(path[|path| - 1])
    }

    /** A path from the initial vertex to an accepting one. */
    ghost predicate IsAccepting(path: seq<nat>) {
      exists v: nat :: v < |accepting| && accepting[v] && IsPath(0, path, v)
    }

    ghost predicate Live(v: nat) {
      exists path, to: nat :: to < |accepting| && accepting[to] && IsPath(v, path, to)
    }
  }

  // ----- paths -----

  lemma {:induction false} PathSnoc(graph: Graph, from: nat, path: seq<nat>, e: nat)
    requires e < |graph.edges| && graph.IsPath(from, path, graph.edges[e].source)
    ensures graph.IsPath(from, path + [e], graph.edges[e].target)
    ensures graph.H(path + [e]) == graph.H(path) + graph.edges[e].h
    ensures graph.G(path + [e]) == graph.G(path) + graph.edges[e].g
  {
    assert (path + [e])[..|path|] == path;
  }

  lemma {:induction false} StepsJoin(graph: Graph, from: nat, path: seq<nat>, via: nat, more: seq<nat>, to: nat)
    requires graph.IsPath(from, path, via) && graph.IsPath(via, more, to)
    ensures graph.IsPath(from, path + more, to)
  {
    if more == [] {
      assert path + more == path;
    } else {
      var front, last := more[..|more| - 1], more[|more| - 1];
      StepsJoin(graph, from, path, via, front, graph.edges[last].source);
      assert (path + more)[..|path + more| - 1] == path + front;
    }
  }

  lemma {:induction false} HJoin(graph: Graph, path: seq<nat>, more: seq<nat>)
    ensures graph.H(path + more) == graph.H(path) + graph.H(more)
  {
    if more == [] {
      assert path + more == path;
    } else {
      hide Graph.EdgeH;
      var front, last := more[..|more| - 1], more[|more| - 1];
      HJoin(graph, path, front);
      assert (path + more)[..|path + more| - 1] == path + front;
      assert (graph.H(path) + graph.H(front)) + graph.EdgeH(last) ==
        graph.H(path) + (graph.H(front) + graph.EdgeH(last));
    }
  }

  lemma {:induction false} GJoin(graph: Graph, path: seq<nat>, more: seq<nat>)
    ensures graph.G(path + more) == graph.G(path) + graph.G(more)
  {
    if more == [] {
      assert path + more == path;
    } else {
      hide Graph.EdgeG;
      var front, last := more[..|more| - 1], more[|more| - 1];
      GJoin(graph, path, front);
      assert (path + more)[..|path + more| - 1] == path + front;
      assert (graph.G(path) + graph.G(front)) + graph.EdgeG(last) ==
        graph.G(path) + (graph.G(front) + graph.EdgeG(last));
    }
  }

  lemma {:induction false} PathJoin(graph: Graph, from: nat, path: seq<nat>, via: nat, more: seq<nat>, to: nat)
    requires graph.IsPath(from, path, via) && graph.IsPath(via, more, to)
    ensures graph.IsPath(from, path + more, to)
    ensures graph.H(path + more) == graph.H(path) + graph.H(more)
    ensures graph.G(path + more) == graph.G(path) + graph.G(more)
  {
    StepsJoin(graph, from, path, via, more, to);
    HJoin(graph, path, more);
    GJoin(graph, path, more);
  }

  lemma {:induction false} PathPositive(graph: Graph, path: seq<nat>)
    requires graph.Valid()
    ensures Positive(graph.H(path)) && Positive(graph.G(path))
  {
    if path != [] {
      PathPositive(graph, path[..|path| - 1]);
    }
  }

  ghost function DelayOf(graph: Graph, path: seq<nat>): Letters {
    Delay(graph.H(path), graph.G(path))
  }

  /** The delay after one more edge. */
  lemma {:induction false} DelaySnoc(graph: Graph, from: nat, path: seq<nat>, e: nat)
    requires graph.Valid() && e < |graph.edges| && graph.IsPath(from, path, graph.edges[e].source)
    ensures DelayOf(graph, path + [e]) == Extended(DelayOf(graph, path), graph.edges[e].h, graph.edges[e].g)
  {
    hide Extended, Delay;
    PathSnoc(graph, from, path, e);
    PathPositive(graph, path);
    ExtendedDelay(graph.H(path), graph.G(path), graph.edges[e].h, graph.edges[e].g);
  }

  lemma {:induction false} DelayReduced(graph: Graph, path: seq<nat>)
    requires graph.Valid()
    ensures Reduced(DelayOf(graph, path))
  {
    PathPositive(graph, path);
    InverseNonzero(graph.H(path));
    NonzeroJoin(Inverse(graph.H(path)), graph.G(path));
    ActReduced([], Inverse(graph.H(path)) + graph.G(path));
  }

  // ----- the delay after an edge -----

  method PushAll(start: Letters, word: Letters) returns (result: Letters)
    ensures result == Act(start, word)
  {
    result := start;
    for i := 0 to |word|
      invariant result == Act(start, word[..i])
    {
      assert word[..i + 1][..i] == word[..i];
      result := Push(result, word[i]);
    }
    assert word[..|word|] == word;
  }

  /** The delay of two outputs after one more edge. */
  method Delayed(delay: Letters, h: Letters, g: Letters) returns (result: Letters)
    ensures result == Extended(delay, h, g)
  {
    result := [];
    var i := |h|;
    while i > 0
      invariant 0 <= i <= |h|
      invariant result == Act([], Inverse(h[i..]))
    {
      i := i - 1;
      assert h[i..][1..] == h[i + 1..];
      ActJoin([], Inverse(h[i + 1..]), [-h[i]]);
      ActOne(result, -h[i]);
      result := Push(result, -h[i]);
    }
    assert h[0..] == h;
    result := PushAll(result, delay);
    result := PushAll(result, g);
    ActJoin([], Inverse(h), delay);
    ActJoin([], Inverse(h) + delay, g);
  }

  // ----- accepting suffixes -----

  lemma {:induction false} InEdge(graph: Graph, v: nat, e: nat)
    requires graph.Valid() && v < |graph.into|
    ensures e in graph.into[v] <==> e < |graph.edges| && graph.edges[e].target == v
    ensures e < |graph.edges| ==> graph.edges[e].source < |graph.out|
  {
    assert graph.ListsInto(v);
  }

  lemma {:induction false} OutEdge(graph: Graph, v: nat, e: nat)
    requires graph.Valid() && v < |graph.out|
    ensures e in graph.out[v] <==> e < |graph.edges| && graph.edges[e].source == v
    ensures e < |graph.edges| ==> graph.edges[e].target < |graph.out|
  {
    assert graph.ListsOut(v);
  }

  /** Edges into a vertex are listed there. */
  lemma {:induction false} InListed(graph: Graph, v: nat)
    requires graph.Valid() && v < |graph.out|
    ensures |graph.into| == |graph.out| && forall i | 0 <= i < |graph.into[v]| :: EndsAt(graph, graph.into[v][i], v)
    ensures forall e: nat | EndsAt(graph, e, v) :: e in graph.into[v]
  {
    assert graph.ListsInto(v);
    forall i | 0 <= i < |graph.into[v]| ensures EndsAt(graph, graph.into[v][i], v) {
      InEdge(graph, v, graph.into[v][i]);
    }
  }

  ghost predicate EndsAt(graph: Graph, e: nat, v: nat) {
    e < |graph.edges| && graph.edges[e].target == v && graph.edges[e].source < |graph.out|
  }

  lemma {:induction false} OutListed(graph: Graph, v: nat)
    requires graph.Valid() && v < |graph.out|
    ensures forall i | 0 <= i < |graph.out[v]| :: StartsAt(graph, graph.out[v][i], v)
    ensures forall e: nat | StartsAt(graph, e, v) :: e in graph.out[v]
  {
    assert graph.ListsOut(v);
    forall i | 0 <= i < |graph.out[v]| ensures StartsAt(graph, graph.out[v][i], v) {
      OutEdge(graph, v, graph.out[v][i]);
    }
  }

  ghost predicate StartsAt(graph: Graph, e: nat, v: nat) {
    e < |graph.edges| && graph.edges[e].source == v && graph.edges[e].target < |graph.out|
  }

  /** The first edge of a path to an accepting vertex, by vertex, ranked so that each edge leads to a lower rank. */
  ghost predicate LeadsOn(graph: Graph, onward: seq<Option<nat>>, live: seq<bool>, rank: seq<nat>) {
    && |onward| == |live| == |rank| == |graph.out|
    && (forall v: nat | v < |live| && !live[v] :: onward[v].None?)
    && (forall v: nat | v < |live| && live[v] :: LeadsOnFrom(graph, onward, live, rank, v))
  }

  ghost predicate LeadsOnFrom(graph: Graph, onward: seq<Option<nat>>, live: seq<bool>, rank: seq<nat>, v: nat)
    requires |onward| == |live| == |rank| == |graph.out| && v < |live|
  {
    match onward[v]
    case None => v < |graph.accepting| && graph.accepting[v]
    case Some(e) =>
      && e < |graph.edges| && graph.edges[e].source == v
      && graph.edges[e].target < |live| && live[graph.edges[e].target] && rank[graph.edges[e].target] < rank[v]
  }

  /** The path along the first edges from a live vertex. */
  ghost function Suffix(graph: Graph, onward: seq<Option<nat>>, live: seq<bool>, rank: seq<nat>, v: nat): seq<nat>
    requires LeadsOn(graph, onward, live, rank) && v < |live| && live[v]
    decreases rank[v]
  {
    assert LeadsOnFrom(graph, onward, live, rank, v);
    match onward[v]
    case None => []
    case Some(e) => [e] + Suffix(graph, onward, live, rank, graph.edges[e].target)
  }

  /** It ends at an accepting vertex. */
  lemma {:induction false} SuffixAccepts(
      graph: Graph, onward: seq<Option<nat>>, live: seq<bool>, rank: seq<nat>, v: nat)
    returns (to: nat)
    requires LeadsOn(graph, onward, live, rank) && v < |live| && live[v]
    ensures graph.IsPath(v, Suffix(graph, onward, live, rank, v), to) && to < |graph.accepting| && graph.accepting[to]
    decreases rank[v]
  {
    assert LeadsOnFrom(graph, onward, live, rank, v);
    match onward[v]
    case None =>
      to := v;
    case Some(e) =>
      to := SuffixAccepts(graph, onward, live, rank, graph.edges[e].target);
      assert graph.IsPath(v, [], v);
      PathSnoc(graph, v, [], e);
      assert [] + [e] == [e];
      PathJoin(graph, v, [e], graph.edges[e].target, Suffix(graph, onward, live, rank, graph.edges[e].target), to);
  }

  /** Backward closure: the source of every edge into a live vertex is live. */
  ghost predicate ClosedBack(graph: Graph, live: seq<bool>) {
    forall e | 0 <= e < |graph.edges| :: BackFrom(graph, live, e)
  }

  ghost predicate BackFrom(graph: Graph, live: seq<bool>, e: nat) {
    e < |graph.edges| && graph.edges[e].source < |live| && graph.edges[e].target < |live|
      && live[graph.edges[e].target] ==>
      live[graph.edges[e].source]
  }

  lemma {:induction false} AcceptingIsLive(graph: Graph, live: seq<bool>, v: nat, path: seq<nat>, to: nat)
    requires graph.Valid() && ClosedBack(graph, live) && |live| == |graph.out| && v < |live|
    requires to < |live| && live[to] && graph.IsPath(v, path, to)
    ensures live[v]
  {
    if path != [] {
      var last := path[|path| - 1];
      assert BackFrom(graph, live, last);
      AcceptingIsLive(graph, live, v, path[..|path| - 1], graph.edges[last].source);
    }
  }

  ghost function Unmarked(live: seq<bool>): set<nat> {
    set v: nat | v < |live| && !live[v]
  }

  /** Every edge into a live vertex off the queue is closed backward. */
  ghost predicate BackExcept(graph: Graph, live: seq<bool>, queue: seq<nat>) {
    forall e: nat | e < |graph.edges| && graph.edges[e].target !in queue :: BackFrom(graph, live, e)
  }

  lemma {:induction false} LeadsOnMore(graph: Graph, onward: seq<Option<nat>>, live: seq<bool>, rank: seq<nat>, e: nat)
    requires graph.Valid() && LeadsOn(graph, onward, live, rank) && e < |graph.edges|
    requires live[graph.edges[e].target] && !live[graph.edges[e].source]
    ensures var v := graph.edges[e].source;
            LeadsOn(graph, onward[v := Some(e)], live[v := true], rank[v := rank[graph.edges[e].target] + 1])
  {
    var v := graph.edges[e].source;
    var onward', live', rank' := onward[v := Some(e)], live[v := true], rank[v := rank[graph.edges[e].target] + 1];
    forall u: nat | u < |live'| && live'[u] ensures LeadsOnFrom(graph, onward', live', rank', u) {
      assert u != v ==> LeadsOnFrom(graph, onward, live, rank, u);
    }
  }

  /** The live vertices, each with the first edge of a path to an accepting one, breadth first backwards. */
  method AcceptingSuffixes(graph: Graph) returns (onward: seq<Option<nat>>, live: seq<bool>, ghost rank: seq<nat>)
    requires graph.Valid()
    ensures LeadsOn(graph, onward, live, rank)
    ensures forall v: nat | v < |graph.out| :: live[v] <==> graph.Live(v)
  {
    var count := |graph.out|;
    onward, live, rank := seq(count, _ => None), seq(count, _ => false), seq(count, _ => 0);
    var queue: seq<nat> := [];
    for v := 0 to count
      invariant |live| == |onward| == |rank| == count
      invariant forall u: nat | u < count :: live[u] <==> u < v && graph.accepting[u]
      invariant forall u: nat | u < count :: onward[u] == None
      invariant forall u | u in queue :: u < count && live[u]
      invariant forall u: nat | u < count && live[u] :: u in queue
    {
      if graph.accepting[v] {
        live, queue := live[v := true], queue + [v];
      }
    }
    while queue != []
      invariant LeadsOn(graph, onward, live, rank) && BackExcept(graph, live, queue)
      invariant forall u | u in queue :: u < count && live[u]
      invariant forall u: nat | u < count && graph.accepting[u] :: live[u]
      decreases Unmarked(live), |queue|
    {
      onward, live, rank, queue := DrainInto(graph, onward, live, rank, queue);
    }
    AllLive(graph, onward, live, rank);
  }

  lemma {:induction false} AllLive(graph: Graph, onward: seq<Option<nat>>, live: seq<bool>, rank: seq<nat>)
    requires graph.Valid() && LeadsOn(graph, onward, live, rank) && BackExcept(graph, live, [])
    requires forall u: nat | u < |graph.out| && graph.accepting[u] :: live[u]
    ensures forall v: nat | v < |graph.out| :: live[v] <==> graph.Live(v)
  {
    forall v: nat | v < |graph.out| ensures live[v] <==> graph.Live(v) {
      if live[v] {
        var to := SuffixAccepts(graph, onward, live, rank, v);
      }
      if graph.Live(v) {
        var path, to: nat :| to < |graph.accepting| && graph.accepting[to] && graph.IsPath(v, path, to);
        AcceptingIsLive(graph, live, v, path, to);
      }
    }
  }

  /** Takes the front of the queue: the unmarked sources of the edges into it become live and wait. */
  method DrainInto(graph: Graph, onward0: seq<Option<nat>>, live0: seq<bool>, ghost rank0: seq<nat>, queue0: seq<nat>)
    returns (onward: seq<Option<nat>>, live: seq<bool>, ghost rank: seq<nat>, queue: seq<nat>)
    requires graph.Valid() && LeadsOn(graph, onward0, live0, rank0) && BackExcept(graph, live0, queue0) && queue0 != []
    requires |live0| == |onward0| == |rank0| == |graph.out| && forall u | u in queue0 :: u < |graph.out| && live0[u]
    ensures |live| == |onward| == |rank| == |graph.out|
    ensures LeadsOn(graph, onward, live, rank) && BackExcept(graph, live, queue)
    ensures forall u | u in queue :: u < |graph.out| && live[u]
    ensures forall u: nat | u < |graph.out| && live0[u] :: live[u]
    ensures Unmarked(live) < Unmarked(live0) || (Unmarked(live) == Unmarked(live0) && |queue| < |queue0|)
  {
    hide Graph.Valid, LeadsOn, Unmarked;
    var vertex := queue0[0];
    assert vertex in queue0;
    InListed(graph, vertex);
    onward, live, rank, queue := onward0, live0, rank0, queue0[1..];
    var into := graph.into[vertex];
    for i := 0 to |into|
      invariant LeadsOn(graph, onward, live, rank) && |live| == |onward| == |rank| == |graph.out| && live[vertex]
      invariant forall u | u in queue :: u < |graph.out| && live[u]
      invariant forall u: nat | u < |graph.out| && live0[u] :: live[u]
      invariant BackExcept(graph, live, queue + [vertex])
      invariant forall j | 0 <= j < i :: BackFrom(graph, live, into[j])
      invariant Unmarked(live) < Unmarked(live0) || (live == live0 && queue == queue0[1..])
    {
      var e := into[i];
      assert EndsAt(graph, into[i], vertex);
      var source := graph.edges[e].source;
      if !live[source] {
        LeadsOnMore(graph, onward, live, rank, e);
        MarkedLess(live, source);
        onward, rank := onward[source := Some(e)], rank[source := rank[vertex] + 1];
        live, queue := live[source := true], queue + [source];
      }
    }
    forall e: nat | e < |graph.edges| && graph.edges[e].target !in queue ensures BackFrom(graph, live, e) {
      InEdge(graph, vertex, e);
    }
  }

  lemma {:induction false} MarkedLess(live: seq<bool>, v: nat)
    requires v < |live| && !live[v]
    ensures Unmarked(live[v := true]) < Unmarked(live)
  {
    assert v in Unmarked(live) && v !in Unmarked(live[v := true]);
    assert forall u: nat | u < |live| && !live[v := true][u] :: u in Unmarked(live);
  }

  // ----- stems -----

  /** One path from the initial vertex to each reached vertex, over live vertices, with the delay it carries. */
  datatype Stems = Stems(stem: seq<Option<nat>>, reached: seq<bool>, delay: seq<Letters>)

  ghost predicate Stemmed(graph: Graph, live: seq<bool>, stems: Stems, paths: seq<seq<nat>>) {
    && |stems.stem| == |stems.reached| == |stems.delay| == |paths| == |graph.out| == |live|
    && 0 < |live| && stems.reached[0] && stems.stem[0].None?
    && AllStemmed(graph, live, stems, paths)
  }

  ghost predicate AllStemmed(graph: Graph, live: seq<bool>, stems: Stems, paths: seq<seq<nat>>)
    requires |stems.stem| == |stems.reached| == |stems.delay| == |paths| == |live|
  {
    forall v: nat | v < |live| && stems.reached[v] :: StemmedAt(graph, live, stems, paths, v)
  }

  ghost predicate StemmedAt(graph: Graph, live: seq<bool>, stems: Stems, paths: seq<seq<nat>>, v: nat)
    requires v < |stems.stem| == |stems.reached| == |stems.delay| == |paths| == |live|
  {
    && live[v] && graph.IsPath(0, paths[v], v) && stems.delay[v] == DelayOf(graph, paths[v])
    && match stems.stem[v]
       case None => v == 0 && paths[v] == []
       case Some(e) =>
         && e < |graph.edges| && graph.edges[e].target == v && graph.edges[e].source < |live|
         && stems.reached[graph.edges[e].source] && paths[v] == paths[graph.edges[e].source] + [e]
  }

  /** The edge leads from a reached vertex to a live one not reached yet, and the delay is carried over it. */
  ghost predicate StemsOut(graph: Graph, live: seq<bool>, stems: Stems, paths: seq<seq<nat>>, e: nat, delay: Letters) {
    && Stemmed(graph, live, stems, paths) && e < |graph.edges|
    && graph.edges[e].source < |live| && graph.edges[e].target < |live|
    && stems.reached[graph.edges[e].source] && live[graph.edges[e].target] && !stems.reached[graph.edges[e].target]
    && delay == Extended(stems.delay[graph.edges[e].source], graph.edges[e].h, graph.edges[e].g)
  }

  /** A vertex's stem and delay, set. */
  function WithStem(stems: Stems, v: nat, e: nat, delay: Letters): Stems
    requires v < |stems.stem| && v < |stems.reached| && v < |stems.delay|
  {
    Stems(stems.stem[v := Some(e)], stems.reached[v := true], stems.delay[v := delay])
  }

  /** The stems and paths grown by the edge. */
  ghost predicate Grows(
      graph: Graph, stems: Stems, paths: seq<seq<nat>>, e: nat, delay: Letters, more: Stems, longer: seq<seq<nat>>)
  {
    && e < |graph.edges| && |stems.stem| == |stems.reached| == |stems.delay| == |paths|
    && graph.edges[e].source < |paths| && graph.edges[e].target < |paths|
    && more == WithStem(stems, graph.edges[e].target, e, delay)
    && longer == paths[graph.edges[e].target := paths[graph.edges[e].source] + [e]]
  }

  lemma {:induction false} StemmedMore(
      graph: Graph, live: seq<bool>, stems: Stems, paths: seq<seq<nat>>, e: nat, delay: Letters, more: Stems,
      longer: seq<seq<nat>>)
    requires graph.Valid() && StemsOut(graph, live, stems, paths, e, delay)
    requires Grows(graph, stems, paths, e, delay, more, longer)
    ensures Stemmed(graph, live, more, longer)
  {
    StemmedThere(graph, live, stems, paths, e, delay, more, longer);
    hide StemmedAt, Graph.Valid, Extended, AllStemmed;
    AllStemmedMore(graph, live, stems, paths, e, delay, more, longer);
  }

  lemma {:induction false} AllStemmedMore(
      graph: Graph, live: seq<bool>, stems: Stems, paths: seq<seq<nat>>, e: nat, delay: Letters, more: Stems,
      longer: seq<seq<nat>>)
    requires Grows(graph, stems, paths, e, delay, more, longer) && |live| == |paths|
    requires !stems.reached[graph.edges[e].target] && AllStemmed(graph, live, stems, paths)
    requires StemmedAt(graph, live, more, longer, graph.edges[e].target)
    ensures AllStemmed(graph, live, more, longer)
  {
    hide StemmedAt;
    forall w: nat | w < |live| && stems.reached[w] ensures StemmedAt(graph, live, more, longer, w) {
      StemmedElsewhere(graph, live, stems, paths, e, delay, more, longer, w);
    }
  }

  /** The vertex the edge enters gets its stem. */
  lemma {:induction false} StemmedThere(
      graph: Graph, live: seq<bool>, stems: Stems, paths: seq<seq<nat>>, e: nat, delay: Letters, more: Stems,
      longer: seq<seq<nat>>)
    requires graph.Valid() && StemsOut(graph, live, stems, paths, e, delay)
    requires Grows(graph, stems, paths, e, delay, more, longer)
    ensures StemmedAt(graph, live, more, longer, graph.edges[e].target)
  {
    hide Extended, DelayOf, Graph.IsPath;
    var u := graph.edges[e].source;
    assert StemmedAt(graph, live, stems, paths, u);
    PathSnoc(graph, 0, paths[u], e);
    DelaySnoc(graph, 0, paths[u], e);
    hide Graph.Valid;
  }

  /** The other vertices keep theirs. */
  lemma {:induction false} StemmedElsewhere(
      graph: Graph, live: seq<bool>, stems: Stems, paths: seq<seq<nat>>, e: nat, delay: Letters, more: Stems,
      longer: seq<seq<nat>>, w: nat)
    requires Grows(graph, stems, paths, e, delay, more, longer) && |live| == |paths|
    requires !stems.reached[graph.edges[e].target]
    requires w < |live| && stems.reached[w] && StemmedAt(graph, live, stems, paths, w)
    ensures StemmedAt(graph, live, more, longer, w)
  {
    hide DelayOf, Graph.IsPath;
  }

  /** The live target of every edge out of a reached vertex off the queue is reached. */
  ghost predicate ForthFrom(graph: Graph, live: seq<bool>, reached: seq<bool>, e: nat) {
    e < |graph.edges| && graph.edges[e].source < |reached| && graph.edges[e].target < |live| == |reached|
    && reached[graph.edges[e].source] && live[graph.edges[e].target] ==>
      reached[graph.edges[e].target]
  }

  ghost predicate ForthExcept(graph: Graph, live: seq<bool>, reached: seq<bool>, queue: seq<nat>) {
    forall e: nat | e < |graph.edges| && graph.edges[e].source !in queue :: ForthFrom(graph, live, reached, e)
  }

  /** A path to each live vertex, with the delay along it. */
  method FindStems(graph: Graph, live: seq<bool>) returns (stems: Stems, ghost paths: seq<seq<nat>>)
    requires graph.Valid() && |live| == |graph.out| && live[0]
    ensures Stemmed(graph, live, stems, paths) && ForthExcept(graph, live, stems.reached, [])
  {
    var count := |graph.out|;
    stems := Stems(seq(count, _ => None), seq(count, v => v == 0), seq(count, _ => []));
    paths := seq(count, _ => []);
    var queue: seq<nat> := [0];
    while queue != []
      invariant Stemmed(graph, live, stems, paths) && ForthExcept(graph, live, stems.reached, queue)
      invariant forall u | u in queue :: u < count && stems.reached[u]
      decreases Unmarked(stems.reached), |queue|
    {
      stems, paths, queue := DrainOut(graph, live, stems, paths, queue);
    }
  }

  /** Takes the front of the queue: the unreached live targets of the edges out of it are reached and wait. */
  method DrainOut(graph: Graph, live: seq<bool>, stems0: Stems, ghost paths0: seq<seq<nat>>, queue0: seq<nat>)
    returns (stems: Stems, ghost paths: seq<seq<nat>>, queue: seq<nat>)
    requires graph.Valid() && Stemmed(graph, live, stems0, paths0) && ForthExcept(graph, live, stems0.reached, queue0)
    requires queue0 != [] && forall u | u in queue0 :: u < |graph.out| && stems0.reached[u]
    ensures Stemmed(graph, live, stems, paths) && ForthExcept(graph, live, stems.reached, queue)
    ensures forall u | u in queue :: u < |graph.out| && stems.reached[u]
    ensures Unmarked(stems.reached) < Unmarked(stems0.reached)
         || (Unmarked(stems.reached) == Unmarked(stems0.reached) && |queue| < |queue0|)
  {
    hide StemmedAt, Extended, Graph.Valid, Unmarked;
    var vertex := queue0[0];
    assert vertex in queue0;
    OutListed(graph, vertex);
    assert forall u | u in queue0[1..] :: u in queue0;
    stems, paths, queue := stems0, paths0, queue0[1..];
    var out := graph.out[vertex];
    for i := 0 to |out|
      invariant Stemmed(graph, live, stems, paths) && stems.reached[vertex]
      invariant forall u | u in queue :: u < |graph.out| && stems.reached[u]
      invariant ForthExcept(graph, live, stems.reached, queue + [vertex])
      invariant forall j | 0 <= j < i :: ForthFrom(graph, live, stems.reached, out[j])
      invariant Unmarked(stems.reached) < Unmarked(stems0.reached)
             || (stems.reached == stems0.reached && queue == queue0[1..])
    {
      var e := out[i];
      assert StartsAt(graph, out[i], vertex);
      var target := graph.edges[e].target;
      if live[target] && !stems.reached[target] {
        var delay := Delayed(stems.delay[vertex], graph.edges[e].h, graph.edges[e].g);
        MarkedLess(stems.reached, target);
        var more := WithStem(stems, target, e, delay);
        ghost var longer := paths[target := paths[vertex] + [e]];
        StemmedMore(graph, live, stems, paths, e, delay, more, longer);
        stems, paths, queue := more, longer, queue + [target];
      }
    }
    forall e: nat | e < |graph.edges| && graph.edges[e].source !in queue
      ensures ForthFrom(graph, live, stems.reached, e)
    {
      OutEdge(graph, vertex, e);
    }
  }

  // ----- the decision -----

  /** The path a stem traces, followed back from its end. */
  method PathTo(graph: Graph, live: seq<bool>, stems: Stems, ghost paths: seq<seq<nat>>, vertex: nat)
    returns (path: seq<nat>)
    requires graph.Valid() && Stemmed(graph, live, stems, paths) && vertex < |live| && stems.reached[vertex]
    ensures path == paths[vertex]
  {
    hide DelayOf, Graph.IsPath, Graph.Valid;
    path := [];
    var at: nat := vertex;
    assert StemmedAt(graph, live, stems, paths, at);
    while stems.stem[at].Some?
      invariant at < |live| && stems.reached[at] && paths[at] + path == paths[vertex]
      invariant StemmedAt(graph, live, stems, paths, at)
      decreases |paths[at]|
    {
      var e := stems.stem[at].value;
      path, at := [e] + path, graph.edges[e].source;
      assert StemmedAt(graph, live, stems, paths, at);
    }
  }

  /** A path carried on to an accepting vertex. */
  method PathFrom(
      graph: Graph, onward: seq<Option<nat>>, live: seq<bool>, ghost rank: seq<nat>, start: seq<nat>, vertex: nat)
    returns (path: seq<nat>)
    requires LeadsOn(graph, onward, live, rank) && vertex < |live| && live[vertex]
    ensures path == start + Suffix(graph, onward, live, rank, vertex)
  {
    path := start;
    var at: nat := vertex;
    assert LeadsOnFrom(graph, onward, live, rank, at);
    while onward[at].Some?
      invariant at < |live| && live[at]
      invariant path + Suffix(graph, onward, live, rank, at) == start + Suffix(graph, onward, live, rank, vertex)
      invariant LeadsOnFrom(graph, onward, live, rank, at)
      decreases rank[at]
    {
      var e := onward[at].value;
      ghost var rest := Suffix(graph, onward, live, rank, graph.edges[e].target);
      assert path + ([e] + rest) == path + [e] + rest;
      path, at := path + [e], graph.edges[e].target;
      assert LeadsOnFrom(graph, onward, live, rank, at);
    }
  }

  /** Whether the outputs along a path differ. */
  method Unequal(graph: Graph, path: seq<nat>) returns (differ: bool)
    requires forall i | 0 <= i < |path| :: path[i] < |graph.edges|
    ensures differ <==> graph.H(path) != graph.G(path)
  {
    var h: Letters, g: Letters := [], [];
    for i := 0 to |path|
      invariant h == graph.H(path[..i]) && g == graph.G(path[..i])
    {
      assert path[..i + 1][..i] == path[..i];
      h, g := h + graph.edges[path[i]].h, g + graph.edges[path[i]].g;
    }
    assert path[..|path|] == path;
    differ := h != g;
  }

  lemma {:induction false} PathEdges(graph: Graph, from: nat, path: seq<nat>, to: nat)
    requires graph.IsPath(from, path, to)
    ensures forall i | 0 <= i < |path| :: path[i] < |graph.edges|
  {
    if path != [] {
      PathEdges(graph, from, path[..|path| - 1], graph.edges[path[|path| - 1]].source);
      assert forall i | 0 <= i < |path| - 1 :: path[..|path| - 1][i] == path[i];
    }
  }

  /** Two paths to one vertex with different delays cannot both stay equal along one common suffix. */
  lemma {:induction false} SuffixParts(
      graph: Graph, first: seq<nat>, second: seq<nat>, via: nat, suffix: seq<nat>, to: nat)
    requires graph.Valid() && graph.IsPath(0, first, via) && graph.IsPath(0, second, via)
    requires graph.IsPath(via, suffix, to)
    requires DelayOf(graph, first) != DelayOf(graph, second)
    ensures graph.H(first + suffix) != graph.G(first + suffix) || graph.H(second + suffix) != graph.G(second + suffix)
  {
    SuffixDelay(graph, first, via, suffix, to);
    SuffixDelay(graph, second, via, suffix, to);
    PathPositive(graph, suffix);
    PathPositive(graph, first + suffix);
    PathPositive(graph, second + suffix);
    DelayReduced(graph, first);
    DelayReduced(graph, second);
    hide Extended, DelayOf, Reduced;
    if DelayOf(graph, first + suffix) == DelayOf(graph, second + suffix) {
      ExtendedApart(DelayOf(graph, first), DelayOf(graph, second), graph.H(suffix), graph.G(suffix));
    }
    PathDecides(graph, first + suffix);
    PathDecides(graph, second + suffix);
  }

  lemma {:induction false} SuffixDelay(graph: Graph, path: seq<nat>, via: nat, suffix: seq<nat>, to: nat)
    requires graph.Valid() && graph.IsPath(0, path, via) && graph.IsPath(via, suffix, to)
    ensures DelayOf(graph, path + suffix) == Extended(DelayOf(graph, path), graph.H(suffix), graph.G(suffix))
  {
    hide Extended, Delay;
    PathJoin(graph, 0, path, via, suffix, to);
    PathPositive(graph, path);
    PathPositive(graph, suffix);
    ExtendedDelay(graph.H(path), graph.G(path), graph.H(suffix), graph.G(suffix));
  }

  /** A path's outputs are equal exactly when its delay is empty. */
  lemma {:induction false} PathDecides(graph: Graph, path: seq<nat>)
    requires graph.Valid()
    ensures DelayOf(graph, path) == [] <==> graph.H(path) == graph.G(path)
  {
    hide Delay;
    PathPositive(graph, path);
    DelayDecides(graph.H(path), graph.G(path));
  }

  /**
    Every live edge out of a reached vertex carries that vertex's delay to its target's, and
    accepting vertices carry none.
   */
  ghost predicate Consistent(graph: Graph, live: seq<bool>, stems: Stems, v: nat)
    requires |stems.reached| == |stems.delay| == |live| == |graph.accepting| && v < |live|
  {
    stems.reached[v] ==>
      && (graph.accepting[v] ==> stems.delay[v] == [])
      && forall e | 0 <= e < |graph.edges| && graph.edges[e].source == v :: CarriesDelay(graph, live, stems, e)
  }

  ghost predicate CarriesDelay(graph: Graph, live: seq<bool>, stems: Stems, e: nat)
    requires |stems.reached| == |stems.delay| == |live| && e < |graph.edges|
  {
    var edge := graph.edges[e];
    && edge.source < |live| && edge.target < |live|
    && (live[edge.target] ==> Extended(stems.delay[edge.source], edge.h, edge.g) == stems.delay[edge.target])
  }

  /** Where every vertex is consistent, every path over live vertices reaches a vertex and carries its delay. */
  lemma {:induction false} AllCarry(
      graph: Graph, live: seq<bool>, stems: Stems, paths: seq<seq<nat>>, path: seq<nat>, v: nat)
    requires graph.Valid() && Stemmed(graph, live, stems, paths) && ForthExcept(graph, live, stems.reached, [])
    requires forall u: nat | u < |live| :: live[u] <==> graph.Live(u)
    requires forall u: nat | u < |live| :: Consistent(graph, live, stems, u)
    requires v < |live| && live[v] && graph.IsPath(0, path, v)
    ensures stems.reached[v] && DelayOf(graph, path) == stems.delay[v]
    decreases path
  {
    hide Extended, Delay, DelayOf, Graph.Live, StemmedAt, Consistent;
    if path == [] {
      EmptyDelay(graph, live, stems, paths);
    } else {
      var e := path[|path| - 1];
      var front := path[..|path| - 1];
      assert front + [e] == path;
      var u := graph.edges[e].source;
      OutEdge(graph, u, e);
      LiveBack(graph, e);
      AllCarry(graph, live, stems, paths, front, u);
      CarriesOn(graph, live, stems, front, e);
    }
  }

  lemma {:induction false} CarriesOn(graph: Graph, live: seq<bool>, stems: Stems, front: seq<nat>, e: nat)
    requires graph.Valid() && |live| == |stems.reached| == |stems.delay| == |graph.out| && e < |graph.edges|
    requires ForthExcept(graph, live, stems.reached, []) && Consistent(graph, live, stems, graph.edges[e].source)
    requires graph.IsPath(0, front, graph.edges[e].source) && live[graph.edges[e].target]
    requires stems.reached[graph.edges[e].source] && DelayOf(graph, front) == stems.delay[graph.edges[e].source]
    ensures stems.reached[graph.edges[e].target] && DelayOf(graph, front + [e]) == stems.delay[graph.edges[e].target]
  {
    hide Extended, DelayOf, Graph.IsPath;
    DelaySnoc(graph, 0, front, e);
    assert ForthFrom(graph, live, stems.reached, e);
    assert CarriesDelay(graph, live, stems, e);
  }

  /** The empty path carries the delay the initial vertex has. */
  lemma {:induction false} EmptyDelay(graph: Graph, live: seq<bool>, stems: Stems, paths: seq<seq<nat>>)
    requires Stemmed(graph, live, stems, paths)
    ensures stems.delay[0] == DelayOf(graph, [])
  {
    assert StemmedAt(graph, live, stems, paths, 0);
  }

  lemma {:induction false} LiveBack(graph: Graph, e: nat)
    requires e < |graph.edges| && graph.Live(graph.edges[e].target)
    ensures graph.Live(graph.edges[e].source)
  {
    var u, v := graph.edges[e].source, graph.edges[e].target;
    var path, to: nat :| to < |graph.accepting| && graph.accepting[to] && graph.IsPath(v, path, to);
    OneEdge(graph, e);
    hide Graph.IsPath;
    StepsJoin(graph, u, [e], v, path, to);
  }

  lemma {:induction false} OneEdge(graph: Graph, e: nat)
    requires e < |graph.edges|
    ensures graph.IsPath(graph.edges[e].source, [e], graph.edges[e].target)
  {
    assert [e][..0] == [];
  }

  /** A path from the initial vertex to an accepting one whose outputs differ. */
  ghost predicate Shows(graph: Graph, path: seq<nat>) {
    graph.IsAccepting(path) && graph.H(path) != graph.G(path)
  }

  /** Of the two paths through a failing edge and around it, the one whose outputs differ. */
  method Around(
      graph: Graph, onward: seq<Option<nat>>, live: seq<bool>, ghost rank: seq<nat>, stems: Stems,
      ghost paths: seq<seq<nat>>, e: nat)
    returns (path: seq<nat>)
    requires graph.Valid() && LeadsOn(graph, onward, live, rank) && Stemmed(graph, live, stems, paths)
    requires e < |graph.edges| && stems.reached[graph.edges[e].source] && live[graph.edges[e].target]
    requires stems.reached[graph.edges[e].target]
    requires stems.delay[graph.edges[e].target] !=
             Extended(stems.delay[graph.edges[e].source], graph.edges[e].h, graph.edges[e].g)
    ensures Shows(graph, path)
  {
    hide Extended, DelayOf, LeadsOn;
    var vertex, target := graph.edges[e].source, graph.edges[e].target;
    assert StemmedAt(graph, live, stems, paths, vertex) && StemmedAt(graph, live, stems, paths, target);
    var to := PathTo(graph, live, stems, paths, target);
    var before := PathTo(graph, live, stems, paths, vertex);
    PathSnoc(graph, 0, before, e);
    DelaySnoc(graph, 0, before, e);
    var through := before + [e];
    hide Stemmed, StemmedAt;
    path := Choose(graph, onward, live, rank, to, through, target);
  }

  method Choose(
      graph: Graph, onward: seq<Option<nat>>, live: seq<bool>, ghost rank: seq<nat>, to: seq<nat>, through: seq<nat>,
      target: nat)
    returns (path: seq<nat>)
    requires graph.Valid() && LeadsOn(graph, onward, live, rank) && target < |live| && live[target]
    requires graph.IsPath(0, to, target) && graph.IsPath(0, through, target)
    requires DelayOf(graph, to) != DelayOf(graph, through)
    ensures Shows(graph, path)
  {
    hide DelayOf, LeadsOn;
    ghost var suffix := Suffix(graph, onward, live, rank, target);
    ghost var end := SuffixAccepts(graph, onward, live, rank, target);
    var first := PathFrom(graph, onward, live, rank, to, target);
    var second := PathFrom(graph, onward, live, rank, through, target);
    SuffixParts(graph, to, through, target, suffix, end);
    PathJoin(graph, 0, to, target, suffix, end);
    PathJoin(graph, 0, through, target, suffix, end);
    PathEdges(graph, 0, first, end);
    var differ := Unequal(graph, first);
    path := if differ then first else second;
  }

  /** A stem to an accepting vertex with a delay left shows a difference. */
  lemma {:induction false} StemShows(graph: Graph, live: seq<bool>, stems: Stems, paths: seq<seq<nat>>, v: nat)
    requires graph.Valid() && Stemmed(graph, live, stems, paths) && v < |live| && stems.reached[v]
    requires graph.accepting[v] && stems.delay[v] != []
    ensures Shows(graph, paths[v])
  {
    hide DelayOf;
    assert StemmedAt(graph, live, stems, paths, v);
    PathDecides(graph, paths[v]);
  }

  /** No vertex reached is left with a delay where it accepts or an edge whose delay its target does not carry. */
  lemma {:induction false} AllEqual(graph: Graph, live: seq<bool>, stems: Stems, paths: seq<seq<nat>>, path: seq<nat>)
    requires graph.Valid() && Stemmed(graph, live, stems, paths) && ForthExcept(graph, live, stems.reached, [])
    requires forall u: nat | u < |live| :: live[u] <==> graph.Live(u)
    requires forall u: nat | u < |live| :: Consistent(graph, live, stems, u)
    requires graph.IsAccepting(path)
    ensures graph.H(path) == graph.G(path)
  {
    hide DelayOf, StemmedAt;
    var v: nat :| v < |graph.accepting| && graph.accepting[v] && graph.IsPath(0, path, v);
    assert graph.IsPath(v, [], v);
    assert graph.Live(v);
    AllCarry(graph, live, stems, paths, path, v);
    assert Consistent(graph, live, stems, v);
    PathDecides(graph, path);
  }

  /** Whether an edge carries its source's delay to its live target, and if not, a path that shows a difference. */
  method CheckEdge(
      graph: Graph, onward: seq<Option<nat>>, live: seq<bool>, ghost rank: seq<nat>, stems: Stems,
      ghost paths: seq<seq<nat>>, e: nat)
    returns (path: Option<seq<nat>>)
    requires graph.Valid() && LeadsOn(graph, onward, live, rank) && Stemmed(graph, live, stems, paths)
    requires ForthExcept(graph, live, stems.reached, [])
    requires e < |graph.edges| && graph.edges[e].source < |live| && stems.reached[graph.edges[e].source]
    ensures path.Some? ==> Shows(graph, path.value)
    ensures path.None? ==> CarriesDelay(graph, live, stems, e)
  {
    hide Extended, DelayOf, StemmedAt, Shows;
    OutEdge(graph, graph.edges[e].source, e);
    hide Graph.Valid;
    var edge := graph.edges[e];
    if !live[edge.target] {
      return None;
    }
    var delay := Delayed(stems.delay[edge.source], edge.h, edge.g);
    if delay == stems.delay[edge.target] {
      return None;
    }
    assert ForthFrom(graph, live, stems.reached, e);
    var around := Around(graph, onward, live, rank, stems, paths, e);
    path := Some(around);
  }

  /** Checks one reached vertex: its delay where it accepts, and every edge out of it. */
  method CheckVertex(
      graph: Graph, onward: seq<Option<nat>>, live: seq<bool>, ghost rank: seq<nat>, stems: Stems,
      ghost paths: seq<seq<nat>>, vertex: nat)
    returns (path: Option<seq<nat>>)
    requires graph.Valid() && LeadsOn(graph, onward, live, rank) && Stemmed(graph, live, stems, paths)
    requires ForthExcept(graph, live, stems.reached, []) && vertex < |live| == |graph.accepting|
    ensures path.Some? ==> Shows(graph, path.value)
    ensures path.None? ==> Consistent(graph, live, stems, vertex)
  {
    hide StemmedAt, Shows, LeadsOn, ForthExcept, CarriesDelay;
    if !stems.reached[vertex] {
      return None;
    }
    if graph.accepting[vertex] && stems.delay[vertex] != [] {
      StemShows(graph, live, stems, paths, vertex);
      var stem := PathTo(graph, live, stems, paths, vertex);
      return Some(stem);
    }
    OutListed(graph, vertex);
    var out := graph.out[vertex];
    for i := 0 to |out|
      invariant forall j | 0 <= j < i :: CarriesDelay(graph, live, stems, out[j])
    {
      assert StartsAt(graph, out[i], vertex);
      path := CheckEdge(graph, onward, live, rank, stems, paths, out[i]);
      if path.Some? {
        return;
      }
    }
    forall e: nat | e < |graph.edges| && graph.edges[e].source == vertex ensures CarriesDelay(graph, live, stems, e) {
      OutEdge(graph, vertex, e);
    }
    path := None;
  }

  /**
    Compares the two outputs along all accepting paths at once. A path returned has
    them unequal; none returned means they agree on all, however many there are.
   */
  method UnequalPath(graph: Graph) returns (path: Option<seq<nat>>)
    requires graph.Valid()
    ensures path.Some? ==> graph.IsAccepting(path.value) && graph.H(path.value) != graph.G(path.value)
    ensures path.None? ==> forall p | graph.IsAccepting(p) :: graph.H(p) == graph.G(p)
  {
    hide StemmedAt, Consistent, Extended, LeadsOnFrom;
    var onward, live, rank := AcceptingSuffixes(graph);
    if !live[0] {
      NoPaths(graph);
      return None;
    }
    var stems, paths := FindStems(graph, live);
    for vertex := 0 to |graph.out|
      invariant forall u: nat | u < vertex :: Consistent(graph, live, stems, u)
    {
      path := CheckVertex(graph, onward, live, rank, stems, paths, vertex);
      if path.Some? {
        return;
      }
    }
    forall p | graph.IsAccepting(p) ensures graph.H(p) == graph.G(p) {
      AllEqual(graph, live, stems, paths, p);
    }
    path := None;
  }

  /** Where the initial vertex is not live there is no accepting path. */
  lemma {:induction false} NoPaths(graph: Graph)
    requires !graph.Live(0)
    ensures forall p :: !graph.IsAccepting(p)
  {
    forall p ensures !graph.IsAccepting(p) {
      if v: nat :| v < |graph.accepting| && graph.accepting[v] && graph.IsPath(0, p, v) {
        assert graph.Live(0);
      }
    }
  }
}

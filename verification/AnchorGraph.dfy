/** The product graph of the anchor walk: its exploration, and the backward marking of what can still end. */
module AnchorGraph {
  import opened Options
  import opened Machine
  import G = GuessedMarking
  import B = ByteClasses
  import Counting
  import opened AnchorStretch
  import opened AnchorWalk

  // ----- the walk's tables -----

  ghost predicate Present(inventory: seq<Pair>, b: Byte) {
    exists i :: 0 <= i < |inventory| && b in inventory[i].window
  }

  /** Bytes in no window may be read as one stand-in; every other byte is read as itself. */
  ghost predicate Folds(inventory: seq<Pair>, fold: seq<Byte>) {
    && |fold| == 256
    && forall b: Byte :: FoldsByte(inventory, fold, b)
  }

  ghost predicate FoldsByte(inventory: seq<Pair>, fold: seq<Byte>, b: Byte)
    requires |fold| == 256
  {
    fold[b] == b || (!Present(inventory, b) && !Present(inventory, fold[b]))
  }

  /** The inventory, the most a window anchors back, the fold, and every prefix of every window. */
  datatype Walk = Walk(inventory: seq<Pair>, cap: nat, fold: seq<Byte>, prefixes: set<Word>) {
    ghost predicate Valid() {
      && Reach(inventory, cap) && Folds(inventory, fold)
      && forall w :: w in prefixes <==> Begins(inventory, w)
    }
  }

  /** A word that begins a window is made of bytes the windows hold. */
  lemma {:induction false} BeginsPresent(inventory: seq<Pair>, w: Word, b: Byte)
    requires w != [] && w[|w| - 1] == b && Begins(inventory, w)
    ensures Present(inventory, b)
  {
    var i :| 0 <= i < |inventory| && w <= inventory[i].window;
    assert inventory[i].window[|w| - 1] == b;
  }

  /** A byte in no window completes none and begins none. */
  lemma {:induction false} AbsentReads(inventory: seq<Pair>, p: Word, b: Byte)
    requires WellFormed(inventory) && !Present(inventory, b)
    ensures AgesOf(inventory, p + [b]) == {} && LongestOf(inventory, p + [b]) == []
  {
    hide Present, Begins;
    forall w: Word | EndsWith(p + [b], w) && Begins(inventory, w) ensures w == [] {
      EndsSnoc(p, b, w);
      if w != [] {
        BeginsPresent(inventory, w, b);
      }
    }
    forall i: nat | i < |inventory| ensures !EndsWith(p + [b], inventory[i].window) {
      WindowBegins(inventory, i);
    }
    LongestIs(inventory, p + [b]);
  }

  lemma {:induction false} WindowBegins(inventory: seq<Pair>, i: nat)
    requires WellFormed(inventory) && i < |inventory|
    ensures Begins(inventory, inventory[i].window) && inventory[i].window != []
  {
    assert inventory[i].window <= inventory[i].window;
  }

  /** Bytes folded alike are read alike. */
  lemma {:induction false} FoldReads(inventory: seq<Pair>, fold: seq<Byte>, p: Word, b: Byte, c: Byte)
    requires WellFormed(inventory) && Folds(inventory, fold) && fold[b] == fold[c]
    ensures AgesOf(inventory, p + [b]) == AgesOf(inventory, p + [c])
    ensures LongestOf(inventory, p + [b]) == LongestOf(inventory, p + [c])
  {
    assert FoldsByte(inventory, fold, b) && FoldsByte(inventory, fold, c);
    if b != c {
      AbsentReads(inventory, p, b);
      AbsentReads(inventory, p, c);
    }
  }

  /** The folded byte is read as the byte. */
  lemma {:induction false} FoldedReads(inventory: seq<Pair>, fold: seq<Byte>, p: Word, b: Byte)
    requires WellFormed(inventory) && Folds(inventory, fold)
    ensures AgesOf(inventory, p + [fold[b]]) == AgesOf(inventory, p + [b])
    ensures LongestOf(inventory, p + [fold[b]]) == LongestOf(inventory, p + [b])
  {
    assert FoldsByte(inventory, fold, b);
    if fold[b] != b {
      AbsentReads(inventory, p, b);
      AbsentReads(inventory, p, fold[b]);
    }
  }

  method BuildFold(inventory: seq<Pair>) returns (fold: seq<Byte>)
    ensures Folds(inventory, fold)
  {
    var present: set<Byte> := {};
    for i := 0 to |inventory|
      invariant forall b :: b in present <==> exists k :: 0 <= k < i && b in inventory[k].window
    {
      present := present + set b | b in inventory[i].window;
    }
    var standIn := FirstAbsent(present);
    fold := [];
    for value: int := 0 to 256
      invariant |fold| == value
      invariant forall b: Byte | b < value :: fold[b] == if standIn.Some? && b !in present then standIn.value else b
    {
      var b: Byte := value;
      fold := fold + [if standIn.Some? && b !in present then standIn.value else b];
    }
  }

  method FirstAbsent(present: set<Byte>) returns (absent: Option<Byte>)
    ensures absent.Some? ==> absent.value !in present
  {
    for value: int := 0 to 256 {
      var b: Byte := value;
      if b !in present {
        return Some(b);
      }
    }
    absent := None;
  }

  method BuildWalk(inventory: seq<Pair>) returns (walk: Walk)
    requires WellFormed(inventory)
    ensures walk.Valid() && walk.inventory == inventory
  {
    var fold := BuildFold(inventory);
    var cap: nat := 0;
    var prefixes: set<Word> := {[]};
    for i := 0 to |inventory|
      invariant forall k | 0 <= k < i :: |inventory[k].window| - 1 <= cap
      invariant forall w :: w in prefixes <==> w == [] || exists k :: 0 <= k < i && w <= inventory[k].window
    {
      var window := inventory[i].window;
      cap := if cap < |window| - 1 then |window| - 1 else cap;
      var more := set length | 0 <= length <= |window| :: window[..length];
      forall w: Word ensures w in more <==> w <= window {
        if w <= window {
          assert w == window[..|w|];
        }
      }
      prefixes := prefixes + more;
    }
    walk := Walk(inventory, cap, fold, prefixes);
  }

  /** The prefix moved to on a byte, and how far back each window it completes anchors. */
  method Move(walk: Walk, prefix: Word, byte: Byte) returns (next: Word, ages: set<nat>)
    requires walk.Valid()
    ensures next == LongestOf(walk.inventory, prefix + [byte]) && ages == AgesOf(walk.inventory, prefix + [byte])
  {
    FoldedReads(walk.inventory, walk.fold, prefix, byte);
    var seen := prefix + [walk.fold[byte]];
    ages := {};
    for i := 0 to |walk.inventory|
      invariant ages == set k | 0 <= k < i && EndsWith(seen, walk.inventory[k].window) :: AgeOf(walk.inventory[k])
    {
      if EndsWith(seen, walk.inventory[i].window) {
        ages := ages + {AgeOf(walk.inventory[i])};
      }
    }
    var drop := 0;
    while seen[drop..] !in walk.prefixes
      invariant 0 <= drop <= |seen|
      invariant LongestOf(walk.inventory, seen[drop..]) == LongestOf(walk.inventory, seen)
      decreases |seen| - drop
    {
      assert drop < |seen|;
      assert seen[drop..][1..] == seen[drop + 1..];
      drop := drop + 1;
    }
    next := seen[drop..];
  }

  // ----- the graph -----

  datatype Edge = Edge(target: nat, inside: bool)

  datatype Graph = Graph(nodes: seq<Node>, edges: seq<seq<Edge>>)

  /** The edge is a letter read. */
  ghost predicate Reads(d: Dfa, walk: Walk, nodes: seq<Node>, at: nat, e: Edge) {
    && walk.Valid() && at < |nodes| && e.target < |nodes|
    && exists l: Letter ::
      l.inside == e.inside && NodeStep(d, walk.inventory, walk.cap, nodes[at], l) == Some(nodes[e.target])
  }

  /** What the letter leads to has its edge. */
  ghost predicate HasEdge(d: Dfa, walk: Walk, nodes: seq<Node>, edges: seq<Edge>, node: Node, l: Letter) {
    walk.Valid() && var next := NodeStep(d, walk.inventory, walk.cap, node, l);
    next.Some? ==> exists e :: e in edges && e.target < |nodes| && e.inside == l.inside && nodes[e.target] == next.value
  }

  ghost predicate Reached(d: Dfa, walk: Walk, node: Node) {
    walk.Valid() && exists letters :: NodeRun(d, walk.inventory, walk.cap, StartNode(d), letters) == Some(node)
  }

  /** Every edge of the node is a letter read, and every letter that can be read has its edge. */
  ghost predicate Expanded(d: Dfa, walk: Walk, nodes: seq<Node>, edges: seq<Edge>, at: nat) {
    && at < |nodes|
    && (forall e | e in edges :: Reads(d, walk, nodes, at, e))
    && (forall l: Letter :: HasEdge(d, walk, nodes, edges, nodes[at], l))
  }

  ghost predicate IsProduct(d: Dfa, walk: Walk, graph: Graph) {
    && graph.nodes != [] && graph.nodes[0] == StartNode(d) && |graph.edges| == |graph.nodes|
    && (forall at: nat | at < |graph.nodes| :: Reached(d, walk, graph.nodes[at]))
    && (forall at: nat | at < |graph.nodes| :: Expanded(d, walk, graph.nodes, graph.edges[at], at))
  }

  // ----- one byte per class -----

  /** The two bytes are read alike by every scan and by the prefixes. */
  ghost predicate SameByte(d: Dfa, walk: Walk, a: Byte, b: Byte)
    requires |walk.fold| == 256
  {
    B.SameRow(d, a, b) && walk.fold[a] == walk.fold[b]
  }

  lemma {:induction false} SameByteSteps(d: Dfa, walk: Walk, node: Node, a: Byte, b: Byte, mark: bool, inside: bool)
    requires walk.Valid() && SameByte(d, walk, a, b)
    ensures NodeStep(d, walk.inventory, walk.cap, node, Letter(a, mark, inside))
         == NodeStep(d, walk.inventory, walk.cap, node, Letter(b, mark, inside))
  {
    FoldReads(walk.inventory, walk.fold, node.prefix, a, b);
    var from := if mark then G.Closed(d, node.scan) else node.scan;
    assert G.Survivors(d, from.closed, a) == G.Survivors(d, from.closed, b);
    assert d.Step(from.reading, a) == d.Step(from.reading, b);
    assert G.Refuted(d, from.closed, a) == G.Refuted(d, from.closed, b);
    hide AgesOf, LongestOf, Stretched, G.Refuted, G.Survivors;
  }

  ghost predicate Stands(d: Dfa, walk: Walk, bytes: seq<Byte>, b: Byte)
    requires |walk.fold| == 256
  {
    exists r :: r in bytes && SameByte(d, walk, r, b)
  }

  /** Ascending bytes that between them take every step any byte takes. */
  method Representatives(d: Dfa, walk: Walk) returns (bytes: seq<Byte>)
    requires |walk.fold| == 256
    ensures forall b: Byte :: Stands(d, walk, bytes, b)
    ensures forall i, j | 0 <= i < j < |bytes| :: bytes[i] < bytes[j]
  {
    hide B.SameRow;
    bytes := [];
    for value: int := 0 to 256
      invariant forall b: Byte | b < value :: Stands(d, walk, bytes, b)
      invariant (forall r | r in bytes :: r < value) && forall i, j | 0 <= i < j < |bytes| :: bytes[i] < bytes[j]
    {
      var b: Byte := value;
      if r :| r in bytes && B.Row(d, r) == B.Row(d, b) && walk.fold[r] == walk.fold[b] {
        B.RowDecides(d, r, b);
        assert Stands(d, walk, bytes, b);
      } else {
        B.RowDecides(d, b, b);
        assert forall c: Byte | Stands(d, walk, bytes, c) :: Stands(d, walk, bytes + [b], c) by {
          forall c: Byte | Stands(d, walk, bytes, c) ensures Stands(d, walk, bytes + [b], c) {
            var r :| r in bytes && SameByte(d, walk, r, c);
            assert r in bytes + [b];
          }
        }
        assert b in bytes + [b] && SameByte(d, walk, b, b);
        assert forall i | 0 <= i < |bytes| :: bytes[i] in bytes;
        bytes := bytes + [b];
      }
    }
  }

  // ----- finitely many nodes -----

  ghost predicate Bounded(d: Dfa, walk: Walk, node: Node) {
    && G.InRange(d, node.scan)
    && node.prefix in walk.prefixes
    && node.stretch.sinceStart <= walk.cap && node.stretch.sinceEnd <= walk.cap
  }

  ghost function Stretches(cap: nat): set<Stretch> {
    set phase, a, b | phase in {Before, Inside, After, Settled} && 0 <= a <= cap && 0 <= b <= cap ::
      Stretch(phase, a, b)
  }

  ghost function Universe(d: Dfa, walk: Walk): set<Node> {
    set scan, prefix, stretch | scan in G.Positions(d) && prefix in walk.prefixes && stretch in Stretches(walk.cap) ::
      Node(scan, prefix, stretch)
  }

  lemma {:induction false} BoundedIn(d: Dfa, walk: Walk, node: Node)
    requires Bounded(d, walk, node)
    ensures node in Universe(d, walk)
  {
    assert node.scan.closed <= Counting.Below(d.states);
    assert node.scan == G.Position(node.scan.reading, node.scan.closed);
    assert node.scan in G.Positions(d);
    var t := node.stretch;
    match t.phase
    case Before =>
    case Inside =>
    case After =>
    case Settled =>
  }

  lemma {:induction false} StretchBounded(t: Stretch, ages: set<nat>, cap: nat, inside: bool)
    ensures var r := Stretched(t, ages, cap, inside); r.Some? ==> r.value.sinceStart <= cap && r.value.sinceEnd <= cap
  {
    hide AnchorsWithin;
  }

  lemma {:induction false} StepBounded(d: Dfa, walk: Walk, node: Node, l: Letter)
    requires d.Valid() && walk.Valid()
    ensures var r := NodeStep(d, walk.inventory, walk.cap, node, l); r.Some? ==> Bounded(d, walk, r.value)
  {
    hide G.Advanced, Stretched, AgesOf, LongestOf;
    var from := if l.mark then G.Closed(d, node.scan) else node.scan;
    if G.Advanced(d, from, l.byte).Some? {
      G.AdvanceInRange(d, from, l.byte);
      StretchBounded(node.stretch, AgesOf(walk.inventory, node.prefix + [l.byte]), walk.cap, l.inside);
      LongestIs(walk.inventory, node.prefix + [l.byte]);
    }
  }

  // ----- the exploration -----

  /** Each node found has one index, and some run leads to it. */
  ghost predicate Interns(d: Dfa, walk: Walk, nodes: seq<Node>, index: map<Node, nat>) {
    && (forall q: nat | q < |nodes| :: nodes[q] in index && index[nodes[q]] == q)
    && (forall n | n in index :: index[n] < |nodes| && nodes[index[n]] == n)
    && (forall q: nat | q < |nodes| :: Reached(d, walk, nodes[q]) && Bounded(d, walk, nodes[q]))
  }

  lemma {:induction false} InternMore(d: Dfa, walk: Walk, nodes: seq<Node>, index: map<Node, nat>, node: Node)
    requires Interns(d, walk, nodes, index) && node !in index && Reached(d, walk, node) && Bounded(d, walk, node)
    ensures Interns(d, walk, nodes + [node], index[node := |nodes|])
  {
    hide Reached, Bounded;
  }

  lemma {:induction false} InternedBounded(d: Dfa, walk: Walk, nodes: seq<Node>, index: map<Node, nat>)
    requires Interns(d, walk, nodes, index)
    ensures |nodes| <= |Universe(d, walk)|
  {
    hide Reached, Bounded, Universe;
    forall i, j | 0 <= i < j < |nodes| ensures nodes[i] != nodes[j] {
      assert index[nodes[i]] == i && index[nodes[j]] == j;
    }
    Counting.ImageSize(nodes);
    forall n | n in Counting.Image(nodes) ensures n in Universe(d, walk) {
      var q :| 0 <= q < |nodes| && nodes[q] == n;
      BoundedIn(d, walk, n);
    }
    Counting.SubsetSize(Counting.Image(nodes), Universe(d, walk));
  }

  lemma {:induction false} StepReached(d: Dfa, walk: Walk, node: Node, l: Letter, next: Node)
    requires d.Valid() && Reached(d, walk, node) && NodeStep(d, walk.inventory, walk.cap, node, l) == Some(next)
    ensures Reached(d, walk, next) && Bounded(d, walk, next)
  {
    hide NodeStep;
    StepBounded(d, walk, node, l);
    var letters :| NodeRun(d, walk.inventory, walk.cap, StartNode(d), letters) == Some(node);
    RunSnoc(d, walk.inventory, walk.cap, StartNode(d), letters, l);
  }

  ghost predicate AllRead(d: Dfa, walk: Walk, nodes: seq<Node>, edges: seq<Edge>, at: nat) {
    forall e | e in edges :: Reads(d, walk, nodes, at, e)
  }

  /** Every letter with the byte has its edge. */
  ghost predicate ByteRead(d: Dfa, walk: Walk, nodes: seq<Node>, edges: seq<Edge>, node: Node, byte: Byte) {
    forall mark: bool, inside: bool :: HasEdge(d, walk, nodes, edges, node, Letter(byte, mark, inside))
  }

  lemma {:induction false} ReadsInMore(d: Dfa, walk: Walk, nodes: seq<Node>, more: seq<Node>, edges: seq<Edge>, at: nat)
    requires AllRead(d, walk, nodes, edges, at) && nodes <= more
    ensures AllRead(d, walk, more, edges, at)
  {
    hide NodeStep;
    forall e | e in edges ensures Reads(d, walk, more, at, e) {
      assert Reads(d, walk, nodes, at, e);
    }
  }

  lemma {:induction false} EdgeInMore(
      d: Dfa, walk: Walk, nodes: seq<Node>, more: seq<Node>, edges: seq<Edge>, wider: seq<Edge>, node: Node, l: Letter)
    requires HasEdge(d, walk, nodes, edges, node, l) && nodes <= more && edges <= wider
    ensures HasEdge(d, walk, more, wider, node, l)
  {
    hide NodeStep;
    var next := NodeStep(d, walk.inventory, walk.cap, node, l);
    if next.Some? {
      var e :| e in edges && e.target < |nodes| && e.inside == l.inside && nodes[e.target] == next.value;
      assert e in wider;
    }
  }

  lemma {:induction false} ByteInMore(
      d: Dfa, walk: Walk, nodes: seq<Node>, more: seq<Node>, edges: seq<Edge>, wider: seq<Edge>, node: Node, byte: Byte)
    requires ByteRead(d, walk, nodes, edges, node, byte) && nodes <= more && edges <= wider
    ensures ByteRead(d, walk, more, wider, node, byte)
  {
    hide HasEdge;
    forall mark: bool, inside: bool ensures HasEdge(d, walk, more, wider, node, Letter(byte, mark, inside)) {
      EdgeInMore(d, walk, nodes, more, edges, wider, node, Letter(byte, mark, inside));
    }
  }

  lemma {:induction false} ExpandedInMore(
      d: Dfa, walk: Walk, nodes: seq<Node>, more: seq<Node>, edges: seq<Edge>, at: nat)
    requires Expanded(d, walk, nodes, edges, at) && nodes <= more
    ensures Expanded(d, walk, more, edges, at)
  {
    hide Reads, HasEdge;
    ReadsInMore(d, walk, nodes, more, edges, at);
    forall l: Letter ensures HasEdge(d, walk, more, edges, more[at], l) {
      EdgeInMore(d, walk, nodes, more, edges, edges, nodes[at], l);
    }
  }

  /** The representatives' edges are every byte's. */
  lemma {:induction false} BytesExpand(
      d: Dfa, walk: Walk, nodes: seq<Node>, edges: seq<Edge>, at: nat, bytes: seq<Byte>)
    requires walk.Valid() && |walk.fold| == 256 && at < |nodes| && AllRead(d, walk, nodes, edges, at)
    requires forall b: Byte :: Stands(d, walk, bytes, b)
    requires forall i | 0 <= i < |bytes| :: ByteRead(d, walk, nodes, edges, nodes[at], bytes[i])
    ensures Expanded(d, walk, nodes, edges, at)
  {
    assert |walk.fold| == 256;
    hide Reads, SameByte, Walk.Valid;
    forall l: Letter ensures HasEdge(d, walk, nodes, edges, nodes[at], l) {
      assert Stands(d, walk, bytes, l.byte);
      var r :| r in bytes && SameByte(d, walk, r, l.byte);
      SameByteSteps(d, walk, nodes[at], r, l.byte, l.mark, l.inside);
      var i :| 0 <= i < |bytes| && bytes[i] == r;
      assert ByteRead(d, walk, nodes, edges, nodes[at], bytes[i]);
      hide NodeStep;
      assert HasEdge(d, walk, nodes, edges, nodes[at], Letter(r, l.mark, l.inside));
    }
  }

  /** Only the edges of one node grow; a node found since has none yet. */
  ghost predicate Grows(edges: seq<seq<Edge>>, more: seq<seq<Edge>>, at: nat) {
    && |edges| <= |more|
    && (forall q | 0 <= q < |edges| && q != at :: more[q] == edges[q])
    && (forall q | |edges| <= q < |more| :: more[q] == [])
  }

  class Exploration {
    const d: Dfa
    const walk: Walk
    var nodes: seq<Node>
    var edges: seq<seq<Edge>>
    var index: map<Node, nat>

    ghost predicate Valid()
      reads this
    {
      d.Valid() && walk.Valid() && |edges| == |nodes| && Interns(d, walk, nodes, index)
    }

    constructor (d: Dfa, walk: Walk)
      requires d.Valid() && walk.Valid()
      ensures Valid() && this.d == d && this.walk == walk && nodes == [StartNode(d)] && edges == [[]]
    {
      this.d, this.walk := d, walk;
      nodes, edges, index := [StartNode(d)], [[]], map[StartNode(d) := 0];
      assert NodeRun(d, walk.inventory, walk.cap, StartNode(d), []) == Some(StartNode(d));
    }

    /** An edge to a node, found anew or before. */
    method AddEdge(at: nat, target: Node, inside: bool, ghost l: Letter)
      requires Valid() && at < |nodes| && l.inside == inside
      requires NodeStep(d, walk.inventory, walk.cap, nodes[at], l) == Some(target)
      requires AllRead(d, walk, nodes, edges[at], at)
      modifies this
      ensures Valid() && old(nodes) <= nodes && Grows(old(edges), edges, at) && old(edges)[at] <= edges[at]
      ensures AllRead(d, walk, nodes, edges[at], at)
      ensures HasEdge(d, walk, nodes, edges[at], nodes[at], l)
    {
      hide Dfa.Valid, NodeStep, Bounded, Walk.Valid;
      assert Reached(d, walk, nodes[at]);
      StepReached(d, walk, nodes[at], l, target);
      hide Reached;
      ghost var before := nodes;
      var entered := |nodes|;
      if target in index {
        entered := index[target];
      } else {
        InternMore(d, walk, nodes, index, target);
        hide Interns;
        nodes, edges, index := nodes + [target], edges + [[]], index[target := entered];
      }
      ReadsInMore(d, walk, before, nodes, edges[at], at);
      EdgeAdded(d, walk, nodes, edges[at], at, Edge(entered, inside), l);
      hide Interns, AllRead, HasEdge;
      edges := edges[at := edges[at] + [Edge(entered, inside)]];
    }

    /** Reads one byte from a node, closing the segment being read first or not, in the stretch or out of it. */
    method Follow(at: nat, byte: Byte, mark: bool)
      requires Valid() && at < |nodes| && AllRead(d, walk, nodes, edges[at], at)
      modifies this
      ensures Valid() && old(nodes) <= nodes && Grows(old(edges), edges, at) && old(edges)[at] <= edges[at]
      ensures AllRead(d, walk, nodes, edges[at], at)
      ensures forall inside: bool :: HasEdge(d, walk, nodes, edges[at], nodes[at], Letter(byte, mark, inside))
    {
      hide Interns, Dfa.Valid, AllRead, Bounded, Stretched, AgesOf, LongestOf, G.Advanced;
      var node := nodes[at];
      if mark && !d.Accepting(node.scan.reading) {
        return;
      }
      var scan := G.Advanced(d, if mark then G.Closed(d, node.scan) else node.scan, byte);
      if scan.None? {
        return;
      }
      var prefix, ages := Move(walk, node.prefix, byte);
      label start:
      Branch(at, Letter(byte, mark, false), Stretched(node.stretch, ages, walk.cap, false), scan.value, prefix);
      label half:
      Branch(at, Letter(byte, mark, true), Stretched(node.stretch, ages, walk.cap, true), scan.value, prefix);
      hide NodeStep, HasEdge, Walk.Valid;
      forall inside: bool ensures HasEdge(d, walk, nodes, edges[at], nodes[at], Letter(byte, mark, inside)) {
        if !inside {
          EdgeInMore(d, walk, old@half(nodes), nodes, old@half(edges)[at], edges[at], node, Letter(byte, mark, false));
        }
      }
    }

    /** Adds the edge to what one outcome of the stretch leads to, if it is not refused. */
    method Branch(at: nat, l: Letter, stretch: Option<Stretch>, scan: G.Position, prefix: Word)
      requires Valid() && at < |nodes| && AllRead(d, walk, nodes, edges[at], at)
      requires NodeStep(d, walk.inventory, walk.cap, nodes[at], l) ==
                 if stretch.Some? then Some(Node(scan, prefix, stretch.value)) else None
      modifies this
      ensures Valid() && old(nodes) <= nodes && Grows(old(edges), edges, at) && old(edges)[at] <= edges[at]
      ensures AllRead(d, walk, nodes, edges[at], at)
      ensures HasEdge(d, walk, nodes, edges[at], nodes[at], l)
    {
      hide NodeStep, Interns, Dfa.Valid, AllRead;
      if stretch.Some? {
        AddEdge(at, Node(scan, prefix, stretch.value), l.inside, l);
      }
    }

    /** Reads a byte without closing the segment being read first and with closing it. */
    method ReadByte(at: nat, byte: Byte)
      requires Valid() && at < |nodes| && AllRead(d, walk, nodes, edges[at], at)
      modifies this
      ensures Valid() && old(nodes) <= nodes && Grows(old(edges), edges, at) && old(edges)[at] <= edges[at]
      ensures AllRead(d, walk, nodes, edges[at], at)
      ensures ByteRead(d, walk, nodes, edges[at], nodes[at], byte)
    {
      hide Interns, AllRead, HasEdge, Walk.Valid, Dfa.Valid;
      Follow(at, byte, false);
      label half:
      Follow(at, byte, true);
      forall mark: bool, inside: bool
        ensures HasEdge(d, walk, nodes, edges[at], nodes[at], Letter(byte, mark, inside))
      {
        if !mark {
          EdgeInMore(d, walk, old@half(nodes), nodes, old@half(edges)[at], edges[at], nodes[at],
            Letter(byte, false, inside));
        }
      }
    }

    /** Reads every representative byte from one node. */
    method Expand(at: nat, bytes: seq<Byte>)
      requires Valid() && at < |nodes| && edges[at] == [] && |walk.fold| == 256
      requires forall b: Byte :: Stands(d, walk, bytes, b)
      modifies this
      ensures Valid() && old(nodes) <= nodes && Grows(old(edges), edges, at)
      ensures Expanded(d, walk, nodes, edges[at], at)
    {
      hide Interns, Reads, Dfa.Valid, ByteRead, Expanded;
      for i := 0 to |bytes|
        invariant Valid() && old(nodes) <= nodes && Grows(old(edges), edges, at) && at < |nodes|
        invariant AllRead(d, walk, nodes, edges[at], at)
        invariant forall j | 0 <= j < i :: ByteRead(d, walk, nodes, edges[at], nodes[at], bytes[j])
      {
        hide AllRead, Walk.Valid;
        label before:
        ReadByte(at, bytes[i]);
        forall j | 0 <= j < i ensures ByteRead(d, walk, nodes, edges[at], nodes[at], bytes[j]) {
          ByteInMore(d, walk, old@before(nodes), nodes, old@before(edges)[at], edges[at], nodes[at], bytes[j]);
        }
      }
      BytesExpand(d, walk, nodes, edges[at], at, bytes);
    }
  }

  /** The whole product graph: everything reachable, each node expanded once in the order found. */
  method Explore(d: Dfa, walk: Walk) returns (graph: Graph)
    requires d.Valid() && walk.Valid()
    ensures IsProduct(d, walk, graph)
  {
    hide Reads, HasEdge, Dfa.Valid, Expanded, Bounded, Reached;
    var bytes := Representatives(d, walk);
    var search := new Exploration(d, walk);
    var at := 0;
    assert |walk.fold| == 256;
    while at < |search.nodes|
      invariant search.Valid() && search.d == d && search.walk == walk && at <= |search.nodes|
      invariant search.nodes != [] && search.nodes[0] == StartNode(d)
      invariant forall q: nat | q < at :: Expanded(d, walk, search.nodes, search.edges[q], q)
      invariant forall q: nat | at <= q < |search.nodes| :: search.edges[q] == []
      invariant fresh(search)
      decreases |Universe(d, walk)| - at
    {
      InternedBounded(d, walk, search.nodes, search.index);
      hide Interns, Walk.Valid, Stands;
      label before:
      search.Expand(at, bytes);
      forall q: nat | q < at ensures Expanded(d, walk, search.nodes, search.edges[q], q) {
        ExpandedInMore(d, walk, old@before(search.nodes), search.nodes, search.edges[q], q);
      }
      at := at + 1;
    }
    graph := Graph(search.nodes, search.edges);
  }

  lemma {:induction false} EdgeAdded(
      d: Dfa, walk: Walk, nodes: seq<Node>, edges: seq<Edge>, at: nat, e: Edge, l: Letter)
    requires walk.Valid() && at < |nodes| && e.target < |nodes| && l.inside == e.inside
    requires AllRead(d, walk, nodes, edges, at)
    requires NodeStep(d, walk.inventory, walk.cap, nodes[at], l) == Some(nodes[e.target])
    ensures AllRead(d, walk, nodes, edges + [e], at) && HasEdge(d, walk, nodes, edges + [e], nodes[at], l)
  {
    hide NodeStep;
    assert Reads(d, walk, nodes, at, e);
    assert e in edges + [e];
  }
}

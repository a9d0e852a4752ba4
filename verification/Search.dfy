/** What a breadth-first search over a graph establishes, shared by every search of the project. */
module Search {

  ghost predicate IsWalk<N(!new)>(edge: (N, N) -> bool, walk: seq<N>) {
    walk != [] && forall i | 0 <= i < |walk| - 1 :: edge(walk[i], walk[i + 1])
  }

  /** Node n is held at a depth of at most most. */
  ghost predicate HeldBy<N(!new)>(nodes: seq<N>, depth: seq<nat>, n: N, most: nat)
    requires |nodes| == |depth|
  {
    exists j :: 0 <= j < |nodes| && nodes[j] == n && depth[j] <= most
  }

  /** Every edge out of the first at nodes leads to a node held at most one deeper. */
  ghost predicate Expanded<N(!new)>(edge: (N, N) -> bool, nodes: seq<N>, depth: seq<nat>, at: nat)
    requires |nodes| == |depth| && at <= |nodes|
  {
    forall i, n | 0 <= i < at && edge(nodes[i], n) :: HeldBy(nodes, depth, n, depth[i] + 1)
  }

  /** Depths never decrease along the list of nodes, which begins at depth zero. */
  ghost predicate Layered(depth: seq<nat>) {
    depth != [] && depth[0] == 0 && forall i, j | 0 <= i < j < |depth| :: depth[i] <= depth[j]
  }

  /**
    A walk from the first node is held up to its end, or up to a node not yet
    expanded; either is held no deeper than the walk is long there.
   */
  lemma {:induction false} WalkIsHeld<N(!new)>(
      edge: (N, N) -> bool, nodes: seq<N>, depth: seq<nat>, at: nat, walk: seq<N>) returns (k: nat, j: nat)
    requires |nodes| == |depth| && at <= |nodes| && Layered(depth)
    requires Expanded(edge, nodes, depth, at)
    requires IsWalk(edge, walk) && walk[0] == nodes[0]
    ensures k < |walk| && j < |nodes| && nodes[j] == walk[k] && depth[j] <= k
    ensures k == |walk| - 1 || at <= j
    decreases |walk|
  {
    if |walk| == 1 {
      return 0, 0;
    }
    var front := walk[..|walk| - 1];
    assert forall i | 0 <= i < |front| - 1 :: edge(front[i], front[i + 1]) by {
      forall i | 0 <= i < |front| - 1 ensures edge(front[i], front[i + 1]) {
        assert edge(walk[i], walk[i + 1]);
      }
    }
    k, j := WalkIsHeld(edge, nodes, depth, at, front);
    if j < at {
      assert edge(walk[|walk| - 2], walk[|walk| - 1]);
      assert HeldBy(nodes, depth, walk[|walk| - 1], depth[j] + 1);
      j :| 0 <= j < |nodes| && nodes[j] == walk[|walk| - 1] && depth[j] <= k + 1;
      k := |walk| - 1;
    }
  }

  /** A walk to a node that is not held is longer than the depth of the node being expanded. */
  lemma {:induction false} UnheldIsDeeper<N(!new)>(
      edge: (N, N) -> bool, nodes: seq<N>, depth: seq<nat>, at: nat, walk: seq<N>)
    requires |nodes| == |depth| && at <= |nodes| && Layered(depth)
    requires Expanded(edge, nodes, depth, at)
    requires IsWalk(edge, walk) && walk[0] == nodes[0] && walk[|walk| - 1] !in nodes
    ensures at < |nodes| && depth[at] + 1 < |walk|
  {
    var k, j := WalkIsHeld(edge, nodes, depth, at, walk);
    if at < j {
      assert depth[at] <= depth[j];
    }
  }
}

/** A graph with expressions on its edges, and the elimination of its states one by one. */
module Elimination {
  import opened Patterns

  /** The expression of each edge; no entry is no edge. */
  type Labels = map<(nat, nat), Expression>

  ghost predicate Edge(labels: Labels, i: nat, j: nat, w: Text) {
    (i, j) in labels && Spells(labels[(i, j)], w)
  }

  /** A path of n edges spells the word. */
  ghost predicate Walks(labels: Labels, n: nat, i: nat, j: nat, w: Text)
    decreases n
  {
    if n == 0 then i == j && w == []
    else exists m: nat, c: nat :: c <= |w| && Edge(labels, i, m, w[..c]) && Walks(labels, n - 1, m, j, w[c..])
  }

  /** The word leads from one state to the other. */
  ghost predicate Reaches(labels: Labels, i: nat, j: nat, w: Text) {
    exists n: nat :: Walks(labels, n, i, j, w)
  }

  lemma {:induction false} ReachesAfterEdge(labels: Labels, i: nat, m: nat, j: nat, u: Text, v: Text)
    requires Edge(labels, i, m, u) && Reaches(labels, m, j, v)
    ensures Reaches(labels, i, j, u + v)
  {
    var n: nat :| Walks(labels, n, m, j, v);
    var w, c := u + v, |u|;
    assert w[..c] == u && w[c..] == v;
    hide Edge;
    assert Walks(labels, n + 1, i, j, w);
  }

  /** A path is empty or begins with an edge. */
  lemma {:induction false} FirstEdge(labels: Labels, i: nat, j: nat, w: Text) returns (empty: bool, m: nat, c: nat)
    requires Reaches(labels, i, j, w)
    ensures empty ==> i == j && w == []
    ensures !empty ==> c <= |w| && Edge(labels, i, m, w[..c]) && Reaches(labels, m, j, w[c..])
  {
    hide Edge;
    var n: nat :| Walks(labels, n, i, j, w);
    empty, m, c := n == 0, i, 0;
    if !empty {
      m, c :| c <= |w| && Edge(labels, i, m, w[..c]) && Walks(labels, n - 1, m, j, w[c..]);
    }
  }

  // ----- one label joined to another -----

  /** The label of an edge with one more expression for it. */
  function Joined(labels: Labels, k: (nat, nat), more: Expression): Labels {
    if k !in labels then labels[k := more]
    else if labels[k] == Empty || more == Empty then labels[k := Maybe(if labels[k] == Empty then more else labels[k])]
    else labels[k := Either(labels[k], more)]
  }

  lemma JoinedEdge(labels: Labels, k: (nat, nat), more: Expression, i: nat, j: nat, w: Text)
    ensures Edge(Joined(labels, k, more), i, j, w) <==> Edge(labels, i, j, w) || ((i, j) == k && Spells(more, w))
  {
  }

  // ----- one state eliminated -----

  /** The loop of a state, repeated; the empty word where it has none. */
  function LoopOf(labels: Labels, q: nat): Expression {
    if (q, q) in labels then Star(labels[(q, q)]) else Empty
  }

  /** The words from i through the state, its loop between, on to j. */
  ghost predicate Through(labels: Labels, i: nat, gone: nat, j: nat, w: Text) {
    && (i, gone) in labels && (gone, j) in labels
    && Spells(Then(Then(labels[(i, gone)], LoopOf(labels, gone)), labels[(gone, j)]), w)
  }

  /** The edge takes also the words through the state gone. */
  ghost predicate Bypassed(labels: Labels, cur: Labels, gone: nat, i: nat, j: nat, w: Text) {
    Edge(cur, i, j, w) <==> Edge(labels, i, j, w) || Through(labels, i, gone, j, w)
  }

  /** No edge touches the state, and every other edge takes also the words through it. */
  ghost predicate Eliminated(labels: Labels, cur: Labels, gone: nat) {
    && (forall i: nat, w | i != gone, j: nat | j != gone :: Bypassed(labels, cur, gone, i, j, w))
    && (forall k | k in cur :: k.0 != gone && k.1 != gone)
  }

  lemma {:induction false} LoopReaches(labels: Labels, gone: nat, j: nat, u: Text, v: Text)
    requires Spells(LoopOf(labels, gone), u) && Reaches(labels, gone, j, v)
    ensures Reaches(labels, gone, j, u + v)
    decreases |u|
  {
    if u == [] {
      assert u + v == v;
    } else {
      hide Reaches;
      var c := StarSplits(labels[(gone, gone)], u);
      LoopReaches(labels, gone, j, u[c..], v);
      ReachesAfterEdge(labels, gone, gone, j, u[..c], u[c..] + v);
      assert u[..c] + (u[c..] + v) == u + v;
    }
  }

  lemma {:induction false} ThroughReaches(labels: Labels, i: nat, gone: nat, m: nat, j: nat, u: Text, v: Text)
    requires Through(labels, i, gone, m, u) && Reaches(labels, m, j, v)
    ensures Reaches(labels, i, j, u + v)
  {
    hide Reaches, Spells, LoopOf;
    var into, onto, loop := labels[(i, gone)], labels[(gone, m)], LoopOf(labels, gone);
    var b := ThenSplits(Then(into, loop), onto, u);
    var a := ThenSplits(into, loop, u[..b]);
    ReachesAfterEdge(labels, gone, m, j, u[b..], v);
    LoopReaches(labels, gone, j, u[..b][a..], u[b..] + v);
    ReachesAfterEdge(labels, i, gone, j, u[..b][..a], u[..b][a..] + (u[b..] + v));
    assert u[..b][..a] + (u[..b][a..] + (u[b..] + v)) == u + v;
  }

  /** Every path left after the elimination was there before. */
  lemma {:induction false} EliminationSound(labels: Labels, cur: Labels, gone: nat, n: nat, i: nat, j: nat, w: Text)
    requires Eliminated(labels, cur, gone) && i != gone && Walks(cur, n, i, j, w)
    ensures Reaches(labels, i, j, w)
    decreases n
  {
    if n == 0 {
      assert Walks(labels, 0, i, j, w);
    } else {
      hide Through;
      var m: nat, c: nat :| c <= |w| && Edge(cur, i, m, w[..c]) && Walks(cur, n - 1, m, j, w[c..]);
      EliminationSound(labels, cur, gone, n - 1, m, j, w[c..]);
      hide Walks, Reaches;
      assert Bypassed(labels, cur, gone, i, m, w[..c]);
      assert w[..c] + w[c..] == w;
      if Edge(labels, i, m, w[..c]) {
        ReachesAfterEdge(labels, i, m, j, w[..c], w[c..]);
      } else {
        ThroughReaches(labels, i, gone, m, j, w[..c], w[c..]);
      }
    }
  }

  /** A path from the state loops there and then leaves it. */
  lemma {:induction false} LeavesGone(labels: Labels, gone: nat, n: nat, j: nat, w: Text)
    returns (a: nat, c: nat, m: nat, left: nat)
    requires Walks(labels, n, gone, j, w) && j != gone
    ensures a <= c <= |w| && m != gone && left < n
    ensures Spells(LoopOf(labels, gone), w[..a]) && Edge(labels, gone, m, w[a..c]) && Walks(labels, left, m, j, w[c..])
    decreases n
  {
    hide Spells, LoopOf, Edge;
    var m', c' :| 0 <= c' <= |w| && Edge(labels, gone, m', w[..c']) && Walks(labels, n - 1, m', j, w[c'..]);
    hide Walks;
    if m' != gone {
      a, c, m, left := 0, c', m', n - 1;
      LoopEmpty(labels, gone);
    } else {
      var u := w[c'..];
      a, c, m, left := LeavesGone(labels, gone, n - 1, j, u);
      LoopJoins(labels, gone, w[..c'], u[..a]);
      Cuts(w, c', a, c);
      a, c := c' + a, c' + c;
    }
  }

  lemma Cuts(w: Text, d: nat, a: nat, c: nat)
    requires d <= |w| && a <= c <= |w| - d
    ensures w[..d] + w[d..][..a] == w[..d + a] && w[d..][a..c] == w[d + a..d + c] && w[d..][c..] == w[d + c..]
  {
  }

  lemma LoopEmpty(labels: Labels, q: nat)
    ensures Spells(LoopOf(labels, q), [])
  {
  }

  lemma {:induction false} LoopJoins(labels: Labels, q: nat, u: Text, v: Text)
    requires Edge(labels, q, q, u) && Spells(LoopOf(labels, q), v)
    ensures Spells(LoopOf(labels, q), u + v)
  {
    StarJoins(labels[(q, q)], u, v);
  }

  /** Every path there was is left after the elimination. */
  lemma {:induction false} EliminationComplete(labels: Labels, cur: Labels, gone: nat, n: nat, i: nat, j: nat, w: Text)
    requires Eliminated(labels, cur, gone) && i != gone && j != gone && Walks(labels, n, i, j, w)
    ensures Reaches(cur, i, j, w)
    decreases n
  {
    if n == 0 {
      assert Walks(cur, 0, i, j, w);
    } else {
      var m: nat, c: nat :| c <= |w| && Edge(labels, i, m, w[..c]) && Walks(labels, n - 1, m, j, w[c..]);
      hide Walks, Reaches;
      if m != gone {
        EliminationComplete(labels, cur, gone, n - 1, m, j, w[c..]);
        assert Bypassed(labels, cur, gone, i, m, w[..c]);
        ReachesAfterEdge(cur, i, m, j, w[..c], w[c..]);
        assert w[..c] + w[c..] == w;
      } else {
        CompleteThrough(labels, cur, gone, n, i, j, w, c);
      }
    }
  }

  lemma {:induction false} CompleteThrough(
      labels: Labels, cur: Labels, gone: nat, n: nat, i: nat, j: nat, w: Text, c: nat)
    requires Eliminated(labels, cur, gone) && i != gone && j != gone && n > 0 && c <= |w|
    requires Edge(labels, i, gone, w[..c]) && Walks(labels, n - 1, gone, j, w[c..])
    ensures Reaches(cur, i, j, w)
    decreases n, 0
  {
    hide Walks, Reaches, Spells, LoopOf;
    var u := w[c..];
    var a, e, m, left := LeavesGone(labels, gone, n - 1, j, u);
    EliminationComplete(labels, cur, gone, left, m, j, u[e..]);
    ThenJoins(labels[(i, gone)], LoopOf(labels, gone), w[..c], u[..a]);
    ThenJoins(Then(labels[(i, gone)], LoopOf(labels, gone)), labels[(gone, m)], w[..c] + u[..a], u[a..e]);
    var t := w[..c] + u[..a] + u[a..e];
    assert t + u[e..] == w;
    assert Bypassed(labels, cur, gone, i, m, t);
    ReachesAfterEdge(cur, i, m, j, t, u[e..]);
  }

  /** Eliminating a state keeps the words from any other state to any other. */
  lemma {:induction false} EliminationPreserves(labels: Labels, cur: Labels, gone: nat, i: nat, j: nat, w: Text)
    requires Eliminated(labels, cur, gone) && i != gone && j != gone
    ensures Reaches(cur, i, j, w) <==> Reaches(labels, i, j, w)
  {
    hide Eliminated, Walks;
    if Reaches(cur, i, j, w) {
      var n: nat :| Walks(cur, n, i, j, w);
      EliminationSound(labels, cur, gone, n, i, j, w);
    }
    if Reaches(labels, i, j, w) {
      var n: nat :| Walks(labels, n, i, j, w);
      EliminationComplete(labels, cur, gone, n, i, j, w);
    }
  }

  // ----- eliminating in place -----

  /** The edges of states up to the greatest. */
  ghost predicate Within(labels: Labels, final: nat) {
    forall k | k in labels :: k.0 <= final && k.1 <= final
  }

  ghost predicate SameEdge(labels: Labels, cur: Labels, i: nat, j: nat) {
    ((i, j) in cur <==> (i, j) in labels) && ((i, j) in cur ==> cur[(i, j)] == labels[(i, j)])
  }

  /** Adds to each edge out of a state the paths through the one eliminated, its loop between. */
  method Bypass(labels: Labels, from: nat, gone: nat, loop: Expression, final: nat) returns (cur: Labels)
    requires Within(labels, final) && from <= final && from != gone && (from, gone) in labels
    requires loop == LoopOf(labels, gone)
    ensures Within(cur, final)
    ensures forall j: nat, w | j != gone :: Bypassed(labels, cur, gone, from, j, w)
    ensures forall i: nat, j: nat | i != from || j == gone :: SameEdge(labels, cur, i, j)
  {
    hide Bypassed;
    cur := labels;
    for to := 0 to final + 1
      invariant Within(cur, final)
      invariant forall j: nat, w | j < to && j != gone :: Bypassed(labels, cur, gone, from, j, w)
      invariant forall i: nat, j: nat | i != from || j == gone || j >= to :: SameEdge(labels, cur, i, j)
    {
      assert SameEdge(labels, cur, from, to) && SameEdge(labels, cur, gone, to) && SameEdge(labels, cur, from, gone);
      ghost var before := cur;
      if to != gone && (gone, to) in cur {
        cur := Joined(cur, (from, to), Then(Then(cur[(from, gone)], loop), cur[(gone, to)]));
      }
      forall j: nat, w | j < to + 1 && j != gone ensures Bypassed(labels, cur, gone, from, j, w) {
        BypassStep(labels, before, cur, gone, from, to, j, w, loop);
      }
      forall i: nat, j: nat | i != from || j == gone || j >= to + 1 ensures SameEdge(labels, cur, i, j) {
        assert SameEdge(labels, before, i, j);
      }
    }
    forall j: nat, w | j != gone ensures Bypassed(labels, cur, gone, from, j, w) {
      if j > final {
        NoEdgeBypassed(labels, cur, gone, from, j, w, final);
      }
    }
  }

  lemma NoEdgeBypassed(labels: Labels, cur: Labels, gone: nat, i: nat, j: nat, w: Text, final: nat)
    requires Within(labels, final) && Within(cur, final) && (i > final || j > final)
    ensures Bypassed(labels, cur, gone, i, j, w)
  {
  }

  lemma {:induction false} BypassStep(
      labels: Labels, before: Labels, cur: Labels, gone: nat, from: nat, to: nat, j: nat, w: Text, loop: Expression)
    requires j <= to && j != gone && from != gone && (from, gone) in labels && loop == LoopOf(labels, gone)
    requires j < to ==> Bypassed(labels, before, gone, from, j, w)
    requires SameEdge(labels, before, from, to) && SameEdge(labels, before, gone, to)
    requires SameEdge(labels, before, from, gone)
    requires cur == if to != gone && (gone, to) in before
      then Joined(before, (from, to), Then(Then(before[(from, gone)], loop), before[(gone, to)])) else before
    ensures Bypassed(labels, cur, gone, from, j, w)
  {
    hide Spells, LoopOf;
    if to != gone && (gone, to) in before {
      JoinedEdge(before, (from, to), Then(Then(before[(from, gone)], loop), before[(gone, to)]), from, j, w);
    }
    hide Joined;
  }

  /** Eliminates one state: every path through it bypassed, and its edges removed. */
  method Eliminate(labels: Labels, gone: nat, final: nat) returns (cur: Labels)
    requires Within(labels, final)
    ensures Within(cur, final) && Eliminated(labels, cur, gone)
  {
    hide Bypassed, LoopOf;
    var loop := LoopOf(labels, gone);
    cur := labels;
    for from := 0 to final + 1
      invariant Within(cur, final)
      invariant forall i: nat, j: nat, w | i < from && i != gone && j != gone :: Bypassed(labels, cur, gone, i, j, w)
      invariant forall i: nat, j: nat | i == gone || j == gone || i >= from :: SameEdge(labels, cur, i, j)
    {
      ghost var before := cur;
      assert SameEdge(labels, cur, from, gone) && SameEdge(labels, cur, gone, gone);
      SameLoop(labels, cur, gone);
      if from != gone && (from, gone) in cur {
        cur := Bypass(cur, from, gone, loop, final);
      }
      forall i: nat, j: nat, w | i < from + 1 && i != gone && j != gone ensures Bypassed(labels, cur, gone, i, j, w) {
        assert SameEdge(labels, before, from, j) && SameEdge(labels, before, gone, j);
        if i < from {
          RowKept(labels, before, cur, gone, i, j, w);
        } else {
          RowAdded(labels, before, cur, gone, i, j, w);
        }
      }
      forall i: nat, j: nat | i == gone || j == gone || i >= from + 1 ensures SameEdge(labels, cur, i, j) {
        assert SameEdge(labels, before, i, j) && SameEdge(before, cur, i, j);
      }
    }
    ghost var all := cur;
    for other := 0 to final + 1
      invariant Within(cur, final)
      invariant forall i: nat, j: nat | i != gone && j != gone :: SameEdge(all, cur, i, j)
      invariant forall other': nat | other' < other :: (gone, other') !in cur && (other', gone) !in cur
    {
      ghost var before := cur;
      cur := cur - {(gone, other), (other, gone)};
      forall i: nat, j: nat | i != gone && j != gone ensures SameEdge(all, cur, i, j) {
        assert SameEdge(all, before, i, j);
      }
    }
    forall i: nat, j: nat, w | i != gone && j != gone ensures Bypassed(labels, cur, gone, i, j, w) {
      if i > final || j > final {
        NoEdgeBypassed(labels, cur, gone, i, j, w, final);
      } else {
        RowKept(labels, all, cur, gone, i, j, w);
      }
    }
  }

  lemma SameLoop(labels: Labels, cur: Labels, q: nat)
    requires SameEdge(labels, cur, q, q)
    ensures LoopOf(labels, q) == LoopOf(cur, q)
  {
  }

  lemma {:induction false} RowKept(labels: Labels, before: Labels, cur: Labels, gone: nat, i: nat, j: nat, w: Text)
    requires Bypassed(labels, before, gone, i, j, w) && SameEdge(before, cur, i, j)
    ensures Bypassed(labels, cur, gone, i, j, w)
  {
    hide Spells, Through;
  }

  lemma {:induction false} RowAdded(labels: Labels, before: Labels, cur: Labels, gone: nat, i: nat, j: nat, w: Text)
    requires SameEdge(labels, before, i, j) && SameEdge(labels, before, i, gone)
    requires SameEdge(labels, before, gone, j) && SameEdge(labels, before, gone, gone)
    requires if (i, gone) in before then Bypassed(before, cur, gone, i, j, w) else cur == before
    ensures Bypassed(labels, cur, gone, i, j, w)
  {
    hide Spells;
  }
}

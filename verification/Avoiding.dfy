/**
  The body of a non-greedy loop before a terminator: an expression of exactly the
  words after which the terminator occurs for the first time.
 */
module Avoiding {
  import opened Patterns
  import opened Elimination
  import opened Suffixes

  /** The terminator, and what the loop admits: ASCII characters and code points beyond them. */
  datatype Loop = Loop(terminator: Text, ascii: set<Symbol>, beyond: set<Symbol>) {
    ghost predicate Valid() {
      && (forall i | 0 <= i < |terminator| :: terminator[i] < 128)
      && (forall b | b in ascii :: b < 128)
      && (forall b | b in beyond :: b >= 128)
    }
  }

  ghost predicate Over(loop: Loop, w: Text) {
    forall i | 0 <= i < |w| :: w[i] in loop.ascii || w[i] in loop.beyond
  }

  /** The terminator after x and w is its first occurrence there. */
  ghost predicate AvoidsAfter(loop: Loop, x: Text, w: Text) {
    forall p: nat | p < |x| + |w| :: !OccursAt(x + w + loop.terminator, loop.terminator, p)
  }

  /** A body the loop may match: over its alphabet, the terminator after it nowhere earlier. */
  ghost predicate IsBody(loop: Loop, body: Text) {
    Over(loop, body) && AvoidsAfter(loop, [], body)
  }

  // ----- periods -----

  /** The terminator shifted by the length agrees with itself: the length is a period of it. */
  predicate Overlapped(terminator: Text, length: nat)
    requires length <= |terminator|
  {
    length > 0 && terminator[length..] == terminator[..|terminator| - length]
  }

  lemma {:induction false} PeriodAt(t: Text, k: nat, i: nat)
    requires k <= |t| && Overlapped(t, k) && i + k < |t|
    ensures t[i + k] == t[i]
  {
    assert t[k..][i] == t[..|t| - k][i];
  }

  lemma {:induction false} LongerAt(t: Text, k: nat, m: nat, j: nat)
    requires 0 < k <= m <= |t| && Overlapped(t, k) && Suffix(t[..k], t[..m]) && m + j < |t|
    ensures t[m + j] == t[j]
    decreases j
  {
    PeriodAt(t, k, m + j - k);
    if j < k {
      assert t[..m][m - k..][j] == t[..k][j];
    } else {
      LongerAt(t, k, m, j - k);
      PeriodAt(t, k, j - k);
    }
  }

  /** A period that is a border of a longer prefix makes the longer prefix's length one too. */
  lemma {:induction false} LongestOverlapSuffices(t: Text, k: nat, m: nat)
    requires k <= m <= |t| && Overlapped(t, k) && Suffix(t[..k], t[..m])
    ensures Overlapped(t, m)
  {
    forall j: nat | m + j < |t| ensures t[m..][j] == t[..|t| - m][j] {
      LongerAt(t, k, m, j);
    }
  }

  // ----- where the terminator may follow -----

  ghost predicate Free(loop: Loop, x: Text) {
    forall p: nat :: !OccursAt(x, loop.terminator, p)
  }

  /** An occurrence begun k before the end of x: its first k characters end x, and the rest begin the terminator. */
  lemma {:induction false} OccursAcross(x: Text, t: Text, k: nat)
    requires 0 < k <= |x| && k <= |t|
    ensures OccursAt(x + t, t, |x| - k) <==> Suffix(t[..k], x) && Overlapped(t, k)
  {
    var p := |x| - k;
    var y := (x + t)[p..p + |t|];
    assert y == x[p..] + t[..|t| - k];
    assert t == t[..k] + t[k..];
    if y == t {
      assert x[p..] == y[..k] && t[..|t| - k] == y[k..];
    }
  }

  lemma {:induction false} OccursInside(x: Text, y: Text, t: Text, p: nat)
    requires p + |t| <= |x|
    ensures OccursAt(x + y, t, p) <==> OccursAt(x, t, p)
  {
    assert (x + y)[p..p + |t|] == x[p..p + |t|];
  }

  /** The body may end exactly where the longest prefix it ends in is no period of the terminator. */
  lemma {:induction false} EndsExactly(loop: Loop, x: Text, i: nat)
    requires Free(loop, x) && IsMatched(loop.terminator, x, i)
    ensures AvoidsAfter(loop, x, []) <==> !Overlapped(loop.terminator, i)
  {
    var t := loop.terminator;
    assert x + [] == x;
    if Overlapped(t, i) {
      OccursAcross(x, t, i);
    } else {
      forall p: nat | p < |x| ensures !OccursAt(x + t, t, p) {
        if p + |t| <= |x| {
          OccursInside(x, t, t, p);
        } else {
          var k := |x| - p;
          OccursAcross(x, t, k);
          if Suffix(t[..k], x) && Overlapped(t, k) {
            SuffixOfSuffix(t, k, i, x);
            LongestOverlapSuffices(t, k, i);
          }
        }
      }
    }
  }

  /** One more character: the whole terminator read, or the text still free of it. */
  lemma {:induction false} FreeSnoc(loop: Loop, x: Text, b: Symbol, m: nat)
    requires Free(loop, x) && IsMatched(loop.terminator, x + [b], m)
    ensures Free(loop, x + [b]) <==> m < |loop.terminator|
  {
    var t, y := loop.terminator, x + [b];
    if m == |t| {
      assert t[..m] == t;
      assert OccursAt(y, t, |y| - m);
    } else {
      forall p: nat ensures !OccursAt(y, t, p) {
        if p + |t| <= |x| {
          OccursInside(x, [b], t, p);
        } else {
          OccursLast(y, t, p);
        }
      }
    }
  }

  lemma {:induction false} OccursLast(y: Text, t: Text, p: nat)
    requires p + |t| >= |y|
    ensures OccursAt(y, t, p) ==> Suffix(t[..|t|], y)
  {
    assert t[..|t|] == t;
  }

  // ----- the prefix automaton -----

  /** What the automaton's edge from i to j is to match. */
  ghost predicate Traced(loop: Loop, i: nat, j: nat, w: Text) {
    var t := loop.terminator;
    && i < |t|
    && if j < |t| then |w| == 1 && ((w[0] in loop.ascii && IsMatched(t, t[..i] + w, j))
      || (w[0] in loop.beyond && j == 0))
       else j == |t| && w == [] && !Overlapped(t, i)
  }

  ghost predicate Traces(loop: Loop, labels: Labels, i: nat, j: nat, w: Text) {
    Edge(labels, i, j, w) <==> Traced(loop, i, j, w)
  }

  ghost predicate IsAutomaton(loop: Loop, labels: Labels) {
    forall i: nat, j: nat, w :: Traces(loop, labels, i, j, w)
  }

  /** No path leaves the final state. */
  lemma {:induction false} FinalReaches(loop: Loop, labels: Labels, w: Text)
    requires IsAutomaton(loop, labels)
    ensures Reaches(labels, |loop.terminator|, |loop.terminator|, w) <==> w == []
  {
    var n := |loop.terminator|;
    if w == [] {
      assert Walks(labels, 0, n, n, w);
    } else if Reaches(labels, n, n, w) {
      var empty, m, c := FirstEdge(labels, n, n, w);
      NoEdgeFromFinal(loop, labels, m, w[..c]);
    }
  }

  lemma {:induction false} NoEdgeFromFinal(loop: Loop, labels: Labels, m: nat, w: Text)
    requires IsAutomaton(loop, labels)
    ensures !Edge(labels, |loop.terminator|, m, w)
  {
    assert Traces(loop, labels, |loop.terminator|, m, w);
  }

  /** A character beyond ASCII extends no prefix of the terminator. */
  lemma {:induction false} BeyondMatches(loop: Loop, x: Text, b: Symbol)
    requires loop.Valid() && b in loop.beyond
    ensures IsMatched(loop.terminator, x + [b], 0)
  {
    var t := loop.terminator;
    forall n | 0 < n <= |t| ensures !Suffix(t[..n], x + [b]) {
      SuffixSnoc(t, n, x, b);
    }
  }

  /** The edges on one character follow the longest prefix the text ends in. */
  lemma {:induction false} CharacterEdge(loop: Loop, labels: Labels, x: Text, i: nat, b: Symbol, m: nat)
    requires loop.Valid() && IsAutomaton(loop, labels) && IsMatched(loop.terminator, x, i) && i < |loop.terminator|
    requires m < |loop.terminator|
    ensures Edge(labels, i, m, [b]) <==> (b in loop.ascii || b in loop.beyond) && IsMatched(loop.terminator, x + [b], m)
  {
    assert Traces(loop, labels, i, m, [b]);
    MatchedForgets(loop.terminator, x, i, b, m);
    if b in loop.beyond {
      BeyondMatches(loop, x, b);
    }
    hide Suffix, Edge;
    if b in loop.beyond && IsMatched(loop.terminator, x + [b], m) {
      MatchedUnique(loop.terminator, x + [b], m, 0);
    }
  }

  ghost predicate ReachesExactly(loop: Loop, labels: Labels, x: Text, i: nat, w: Text) {
    Reaches(labels, i, |loop.terminator|, w) <==> Over(loop, w) && AvoidsAfter(loop, x, w)
  }

  /**
    From the state of a text free of the terminator, exactly the words that may end the body lead to
    the final state.
   */
  lemma {:induction false} AutomatonExact(loop: Loop, labels: Labels, x: Text, i: nat, w: Text)
    requires loop.Valid() && IsAutomaton(loop, labels) && Free(loop, x)
    requires IsMatched(loop.terminator, x, i) && i < |loop.terminator|
    ensures ReachesExactly(loop, labels, x, i, w)
    decreases |w|
  {
    hide IsMatched, Reaches, AvoidsAfter;
    if w == [] {
      EndsExactly(loop, x, i);
      EmptyReaches(loop, labels, i);
    } else {
      var b, rest := w[0], w[1..];
      var m := TheMatched(loop.terminator, x + [b]);
      FreeSnoc(loop, x, b, m);
      assert w == [b] + rest;
      CharacterReaches(loop, labels, x, i, b, m, rest);
      OverCons(loop, w);
      if m < |loop.terminator| {
        AutomatonExact(loop, labels, x + [b], m, rest);
        AvoidsCons(loop, x, w);
      } else {
        NotAvoided(loop, x, w);
      }
    }
  }

  lemma {:induction false} TheMatched(t: Text, y: Text) returns (m: nat)
    ensures IsMatched(t, y, m)
  {
    m := |t|;
    assert t[..0] == [] && y[|y|..] == [];
    while !Suffix(t[..m], y)
      decreases m
      invariant Suffix(t[..0], y)
      invariant m <= |t| && forall n | m < n <= |t| :: !Suffix(t[..n], y)
    {
      m := m - 1;
    }
  }

  lemma {:induction false} OverCons(loop: Loop, w: Text)
    requires w != []
    ensures Over(loop, w) <==> (w[0] in loop.ascii || w[0] in loop.beyond) && Over(loop, w[1..])
  {
    assert forall i | 0 < i < |w| :: w[i] == w[1..][i - 1];
  }

  lemma {:induction false} AvoidsCons(loop: Loop, x: Text, w: Text)
    requires w != []
    ensures AvoidsAfter(loop, x, w) <==> AvoidsAfter(loop, x + [w[0]], w[1..])
  {
    assert x + [w[0]] + w[1..] == x + w;
  }

  lemma {:induction false} NotAvoided(loop: Loop, x: Text, w: Text)
    requires w != [] && Free(loop, x) && !Free(loop, x + [w[0]]) && loop.terminator != []
    ensures !AvoidsAfter(loop, x, w)
  {
    var t, y := loop.terminator, x + [w[0]];
    var p: nat :| OccursAt(y, t, p);
    assert y + (w[1..] + t) == x + w + t;
    OccursInside(y, w[1..] + t, t, p);
  }

  lemma {:induction false} EmptyReaches(loop: Loop, labels: Labels, i: nat)
    requires IsAutomaton(loop, labels) && i < |loop.terminator|
    ensures Reaches(labels, i, |loop.terminator|, []) <==> !Overlapped(loop.terminator, i)
  {
    var n := |loop.terminator|;
    var w: Text := [];
    assert Traces(loop, labels, i, n, w);
    FinalReaches(loop, labels, w);
    hide Edge, Reaches;
    if Reaches(labels, i, n, w) {
      var empty, m, c := FirstEdge(labels, i, n, w);
      assert Traces(loop, labels, i, m, w[..c]);
    }
    if Edge(labels, i, n, w) {
      ReachesAfterEdge(labels, i, n, n, w, w);
      assert w + w == w;
    }
  }

  lemma {:induction false} CharacterReaches(loop: Loop, labels: Labels, x: Text, i: nat, b: Symbol, m: nat, rest: Text)
    requires loop.Valid() && IsAutomaton(loop, labels) && IsMatched(loop.terminator, x, i) && i < |loop.terminator|
    requires IsMatched(loop.terminator, x + [b], m)
    ensures Reaches(labels, i, |loop.terminator|, [b] + rest)
       <==>
       m < |loop.terminator| && (b in loop.ascii || b in loop.beyond) && Reaches(labels, m, |loop.terminator|, rest)
  {
    hide Edge, Reaches, IsMatched, IsAutomaton;
    var n, w := |loop.terminator|, [b] + rest;
    if Reaches(labels, i, n, w) {
      var empty, to, c := FirstEdge(labels, i, n, w);
      EdgeLength(loop, labels, i, to, w[..c]);
      if to == n {
        FinalReaches(loop, labels, w[c..]);
      } else {
        assert w[..c] == [b] && w[c..] == rest;
        CharacterEdge(loop, labels, x, i, b, to);
        OneMatched(loop.terminator, x + [b], to, m);
      }
    }
    if m < n {
      CharacterEdge(loop, labels, x, i, b, m);
      if Edge(labels, i, m, [b]) && Reaches(labels, m, n, rest) {
        ReachesAfterEdge(labels, i, m, n, [b], rest);
      }
    }
  }

  lemma {:induction false} OneMatched(t: Text, y: Text, m: nat, n: nat)
    requires IsMatched(t, y, m) && IsMatched(t, y, n)
    ensures m == n
  {
    MatchedUnique(t, y, m, n);
  }

  lemma {:induction false} EdgeLength(loop: Loop, labels: Labels, i: nat, j: nat, w: Text)
    requires IsAutomaton(loop, labels) && Edge(labels, i, j, w)
    ensures j <= |loop.terminator| && |w| == if j < |loop.terminator| then 1 else 0
  {
    assert Traces(loop, labels, i, j, w);
  }

  // ----- building the automaton -----

  /** The longest prefix of the terminator the state's prefix and the character end in. */
  /** No prefix of the terminator longer than the bound ends the text. */
  ghost predicate NoneLonger(terminator: Text, x: Text, bound: nat) {
    forall n | bound < n <= |terminator| :: !Suffix(terminator[..n], x)
  }

  lemma {:induction false} OneShorter(terminator: Text, x: Text, n: nat)
    requires 0 < n <= |terminator| && NoneLonger(terminator, x, n) && !Suffix(terminator[..n], x)
    ensures NoneLonger(terminator, x, n - 1)
  {
    hide Suffix;
  }

  lemma {:induction false} LongestMatched(terminator: Text, x: Text, n: nat)
    requires n <= |terminator| && NoneLonger(terminator, x, n) && (n == 0 || Suffix(terminator[..n], x))
    ensures IsMatched(terminator, x, n)
  {
    assert Suffix(terminator[..0], x);
    hide Suffix;
  }

  lemma {:induction false} NoneBeyond(terminator: Text, x: Text)
    ensures NoneLonger(terminator, x, if |x| < |terminator| then |x| else |terminator|)
  {
  }

  method NextState(terminator: Text, from: nat, b: Symbol) returns (to: nat)
    requires from < |terminator|
    ensures IsMatched(terminator, terminator[..from] + [b], to)
  {
    var tail := terminator[..from] + [b];
    to := if |tail| < |terminator| then |tail| else |terminator|;
    NoneBeyond(terminator, tail);
    hide NoneLonger, IsMatched;
    while to > 0 && terminator[..to] != tail[|tail| - to..]
      invariant to <= |tail| && to <= |terminator| && NoneLonger(terminator, tail, to)
    {
      OneShorter(terminator, tail, to);
      to := to - 1;
    }
    LongestMatched(terminator, tail, to);
  }

  /** The ASCII characters leading from a state to each state. */
  method Onto(loop: Loop, from: nat) returns (onto: seq<set<Symbol>>)
    requires loop.Valid() && from < |loop.terminator|
    ensures |onto| == |loop.terminator| + 1
    ensures forall to: nat, b | to < |onto| ::
      b in onto[to] <==> b in loop.ascii && IsMatched(loop.terminator, loop.terminator[..from] + [b], to)
  {
    hide Suffix, IsMatched;
    onto := seq(|loop.terminator| + 1, _ => {});
    for byte := 0 to 128
      invariant |onto| == |loop.terminator| + 1
      invariant forall to: nat, b | to < |onto| ::
        b in onto[to] <==> b < byte && b in loop.ascii && IsMatched(loop.terminator, loop.terminator[..from] + [b], to)
    {
      if byte in loop.ascii {
        var to := NextState(loop.terminator, from, byte);
        MatchedShort(loop.terminator, loop.terminator[..from] + [byte], to);
        onto := onto[to := onto[to] + {byte}];
      }
    }
  }

  lemma {:induction false} MatchedShort(t: Text, y: Text, m: nat)
    requires IsMatched(t, y, m)
    ensures m <= |t| && forall n: nat :: IsMatched(t, y, n) ==> n == m
  {
    forall n: nat | IsMatched(t, y, n) ensures n == m {
      MatchedUnique(t, y, m, n);
    }
  }

  /** The labels out of one state. */
  method Row(loop: Loop, labels: Labels, from: nat) returns (cur: Labels)
    requires loop.Valid() && from < |loop.terminator| && Within(labels, |loop.terminator|)
    requires forall k | k in labels :: k.0 < from
    ensures Within(cur, |loop.terminator|)
    ensures forall j: nat, w :: Traces(loop, cur, from, j, w)
    ensures forall k | k in cur :: k.0 <= from
    ensures forall i: nat, j: nat | i != from :: SameEdge(labels, cur, i, j)
  {
    hide IsMatched, Suffix, Overlapped;
    var n := |loop.terminator|;
    var onto := Onto(loop, from);
    cur := labels;
    for to := 0 to n
      invariant Within(cur, n) && forall k | k in cur :: k.0 <= from
      invariant forall i: nat, j: nat | i != from :: SameEdge(labels, cur, i, j)
      invariant forall j: nat, w :: Edge(cur, from, j, w) <==> j < to && |w| == 1 && w[0] in onto[j]
    {
      if onto[to] != {} {
        cur := RowJoined(labels, cur, from, to, Class(onto[to]));
      }
    }
    ghost var characters := cur;
    if loop.beyond != {} {
      cur := RowJoined(labels, cur, from, 0, Class(loop.beyond));
    }
    ghost var steps := cur;
    if !Overlapped(loop.terminator, from) {
      cur := RowJoined(labels, cur, from, n, Empty);
    }
    forall j: nat, w ensures Traces(loop, cur, from, j, w) {
      assert Edge(cur, from, j, w) <==>
        Edge(steps, from, j, w) || (j == n && w == [] && !Overlapped(loop.terminator, from));
      assert Edge(steps, from, j, w) <==> Edge(characters, from, j, w) || (j == 0 && |w| == 1 && w[0] in loop.beyond);
      assert |w| == 1 ==> w == [w[0]];
    }
  }

  /** One expression joined to an edge of the row. */
  method RowJoined(ghost labels: Labels, before: Labels, from: nat, to: nat, more: Expression) returns (cur: Labels)
    requires forall i: nat, j: nat | i != from :: SameEdge(labels, before, i, j)
    ensures cur == Joined(before, (from, to), more)
    ensures forall i: nat, j: nat | i != from :: SameEdge(labels, cur, i, j)
    ensures forall i: nat, j: nat, w ::
      Edge(cur, i, j, w) <==> Edge(before, i, j, w) || ((i, j) == (from, to) && Spells(more, w))
    ensures forall k :: k in cur <==> k in before || k == (from, to)
  {
    cur := Joined(before, (from, to), more);
    forall i: nat, j: nat | i != from ensures SameEdge(labels, cur, i, j) {
      assert SameEdge(labels, before, i, j);
    }
    forall i: nat, j: nat, w
      ensures Edge(cur, i, j, w) <==> Edge(before, i, j, w) || ((i, j) == (from, to) && Spells(more, w))
    {
      JoinedEdge(before, (from, to), more, i, j, w);
    }
  }

  method Automaton(loop: Loop) returns (labels: Labels)
    requires loop.Valid()
    ensures Within(labels, |loop.terminator|) && IsAutomaton(loop, labels)
    ensures loop.terminator == [] ==> labels == map[]
  {
    hide Traces;
    var n := |loop.terminator|;
    labels := map[];
    for from := 0 to n
      invariant Within(labels, n) && forall k | k in labels :: k.0 < from
      invariant forall i: nat, j: nat, w | i < from :: Traces(loop, labels, i, j, w)
    {
      ghost var before := labels;
      labels := Row(loop, labels, from);
      forall i: nat, j: nat, w | i < from + 1 ensures Traces(loop, labels, i, j, w) {
        if i < from {
          assert SameEdge(before, labels, i, j);
          TracesKept(loop, before, labels, i, j, w);
        }
      }
    }
    forall i: nat, j: nat, w ensures Traces(loop, labels, i, j, w) {
      if i >= n {
        UntracedState(loop, labels, i, j, w);
      }
    }
  }

  lemma {:induction false} TracesKept(loop: Loop, before: Labels, labels: Labels, i: nat, j: nat, w: Text)
    requires Traces(loop, before, i, j, w) && SameEdge(before, labels, i, j)
    ensures Traces(loop, labels, i, j, w)
  {
    hide Traced;
  }

  lemma UntracedState(loop: Loop, labels: Labels, i: nat, j: nat, w: Text)
    requires i >= |loop.terminator| && forall k | k in labels :: k.0 < |loop.terminator|
    ensures Traces(loop, labels, i, j, w)
  {
  }

  // ----- the expression -----

  /** Every edge leaves the start, to loop there or to end. */
  ghost predicate OnlyFromStart(labels: Labels, final: nat) {
    forall i: nat, j: nat, w | Edge(labels, i, j, w) :: i == 0 && (j == 0 || j == final)
  }

  /** When only two states remain, a word repeats the first one's loop and leaves by the edge to the second. */
  lemma {:induction false} LoopThenRest(labels: Labels, final: nat, w: Text)
    requires final > 0 && OnlyFromStart(labels, final) && (0, final) in labels
    ensures Reaches(labels, 0, final, w) <==> Spells(Then(LoopOf(labels, 0), labels[(0, final)]), w)
  {
    hide LoopOf, Spells;
    var loop, rest := LoopOf(labels, 0), labels[(0, final)];
    if Reaches(labels, 0, final, w) {
      var n: nat :| Walks(labels, n, 0, final, w);
      var a, c, m, left := LeavesGone(labels, 0, n, final, w);
      assert w[c..] == [];
      assert w[..a] + w[a..c] == w;
      ThenJoins(loop, rest, w[..a], w[a..c]);
    }
    hide OnlyFromStart;
    if Spells(Then(loop, rest), w) {
      var c := ThenSplits(loop, rest, w);
      assert Walks(labels, 0, final, final, []);
      ReachesAfterEdge(labels, 0, final, final, w[c..], []);
      assert w[c..] + [] == w[c..];
      LoopReaches(labels, 0, final, w[..c], w[c..]);
      assert w[..c] + w[c..] == w;
    }
  }

  /** No word leads from the final state, or to or from a state eliminated. */
  ghost predicate Isolated(labels: Labels, final: nat, gone: nat, i: nat, j: nat) {
    i >= final || 0 < i < gone || 0 < j < gone || j > final ==> forall w :: !Edge(labels, i, j, w)
  }

  ghost predicate AllIsolated(labels: Labels, final: nat, gone: nat) {
    forall i: nat, j: nat :: Isolated(labels, final, gone, i, j)
  }

  lemma {:induction false} IsolatedMore(labels: Labels, cur: Labels, final: nat, gone: nat)
    requires 0 < gone < final && Within(cur, final) && Eliminated(labels, cur, gone) && AllIsolated(labels, final, gone)
    ensures AllIsolated(cur, final, gone + 1)
  {
    hide Isolated, Eliminated;
    var next := gone + 1;
    forall i: nat, j: nat ensures Isolated(cur, final, next, i, j) {
      assert Isolated(labels, final, gone, i, j) && Isolated(labels, final, gone, i, gone)
        && Isolated(labels, final, gone, gone, j);
      IsolatedKept(labels, cur, final, gone, i, j);
    }
  }

  lemma {:induction false} IsolatedKept(labels: Labels, cur: Labels, final: nat, gone: nat, i: nat, j: nat)
    requires 0 < gone < final && Within(cur, final) && Eliminated(labels, cur, gone)
    requires Isolated(labels, final, gone, i, j) && Isolated(labels, final, gone, i, gone)
    requires Isolated(labels, final, gone, gone, j)
    ensures Isolated(cur, final, gone + 1, i, j)
  {
    forall w | i >= final || 0 < i <= gone || 0 < j <= gone || j > final ensures !Edge(cur, i, j, w) {
      if i != gone && j != gone {
        assert Bypassed(labels, cur, gone, i, j, w);
        hide Eliminated, Isolated;
        assert !Edge(labels, i, j, w);
        NotThrough(labels, i, gone, j, w);
      }
    }
  }

  lemma {:induction false} NotThrough(labels: Labels, i: nat, gone: nat, j: nat, w: Text)
    requires (forall u :: !Edge(labels, i, gone, u)) || forall u :: !Edge(labels, gone, j, u)
    ensures !Through(labels, i, gone, j, w)
  {
    hide Edge, Through;
    if Through(labels, i, gone, j, w) {
      var a, b := ThroughEdges(labels, i, gone, j, w);
    }
  }

  lemma {:induction false} ThroughEdges(labels: Labels, i: nat, gone: nat, j: nat, w: Text) returns (a: nat, b: nat)
    requires Through(labels, i, gone, j, w)
    ensures a <= |w| && b <= |w| && Edge(labels, i, gone, w[..a]) && Edge(labels, gone, j, w[b..])
  {
    hide Spells;
    b := ThenSplits(Then(labels[(i, gone)], LoopOf(labels, gone)), labels[(gone, j)], w);
    a := ThenSplits(labels[(i, gone)], LoopOf(labels, gone), w[..b]);
    assert w[..b][..a] == w[..a];
  }

  /** The expression of what is left: a group of the start's loop and the edge out, or nothing where both are empty. */
  function Written(labels: Labels, final: nat): Expression {
    var rest := if (0, final) in labels then labels[(0, final)] else Empty;
    if (0, 0) !in labels && rest == Empty then Empty else Then(LoopOf(labels, 0), rest)
  }

  /**
    The expression of every body a non-greedy loop before the terminator matches:
    the labels of the prefix automaton, its states between the start and the final
    one eliminated in turn, as the start's loop and the edge onward.
   */
  method Avoid(loop: Loop) returns (body: Expression)
    requires loop.Valid()
    ensures forall w :: Spells(body, w) <==> IsBody(loop, w)
  {
    hide Eliminated, IsAutomaton, Reaches, AllIsolated, Overlapped, Edge, Spells, Written, Within, IsBody;
    var n := |loop.terminator|;
    var labels := Automaton(loop);
    ghost var automaton := labels;
    AutomatonEnds(loop, labels);
    var gone := 1;
    while gone < n
      invariant 1 <= gone && (n > 0 ==> gone <= n) && Within(labels, n) && (n == 0 ==> labels == map[])
      invariant AllIsolated(labels, n, gone)
      invariant n > 0 ==> Edge(labels, 0, n, [])
      invariant n > 0 ==> forall w :: Reaches(labels, 0, n, w) <==> Reaches(automaton, 0, n, w)
    {
      ghost var before := labels;
      labels := Eliminate(labels, gone, n);
      IsolatedMore(before, labels, n, gone);
      forall w ensures Reaches(labels, 0, n, w) <==> Reaches(automaton, 0, n, w) {
        EliminationPreserves(before, labels, gone, 0, n, w);
      }
      EdgeKept(before, labels, gone, n);
      gone := gone + 1;
    }
    body := Written(labels, n);
    forall w ensures Spells(body, w) <==> IsBody(loop, w) {
      if n == 0 {
        EmptyTerminator(loop, w);
      } else {
        WrittenExact(labels, n, w);
        BodyExact(loop, automaton, w);
      }
    }
  }

  lemma {:induction false} EdgeKept(labels: Labels, cur: Labels, gone: nat, final: nat)
    requires Eliminated(labels, cur, gone) && 0 < gone < final && Edge(labels, 0, final, [])
    ensures Edge(cur, 0, final, [])
  {
    assert Bypassed(labels, cur, gone, 0, final, []);
  }

  /** The automaton has no edge out of its final state or past it, and the empty body ends at once. */
  lemma {:induction false} AutomatonEnds(loop: Loop, labels: Labels)
    requires IsAutomaton(loop, labels)
    ensures AllIsolated(labels, |loop.terminator|, 1)
    ensures |loop.terminator| > 0 ==> Edge(labels, 0, |loop.terminator|, [])
  {
    hide Edge;
    var n := |loop.terminator|;
    forall i: nat, j: nat, w | i >= n || j > n ensures !Edge(labels, i, j, w) {
      assert Traces(loop, labels, i, j, w);
    }
    assert Traces(loop, labels, 0, n, []);
  }

  lemma {:induction false} WrittenExact(labels: Labels, final: nat, w: Text)
    requires final > 0 && Edge(labels, 0, final, []) && AllIsolated(labels, final, final)
    ensures Spells(Written(labels, final), w) <==> Reaches(labels, 0, final, w)
  {
    OnlyStartLeft(labels, final);
    LoopThenRest(labels, final, w);
    assert w[0..] == w && w[..0] == [];
    hide Reaches, OnlyFromStart, Isolated;
  }

  lemma {:induction false} OnlyStartLeft(labels: Labels, final: nat)
    requires final > 0 && AllIsolated(labels, final, final)
    ensures OnlyFromStart(labels, final)
  {
    hide Edge;
    forall i: nat, j: nat, w | Edge(labels, i, j, w) ensures i == 0 && (j == 0 || j == final) {
      assert Isolated(labels, final, final, i, j);
    }
  }

  lemma {:induction false} BodyExact(loop: Loop, labels: Labels, w: Text)
    requires loop.Valid() && IsAutomaton(loop, labels) && loop.terminator != []
    ensures Reaches(labels, 0, |loop.terminator|, w) <==> IsBody(loop, w)
  {
    hide IsAutomaton, Reaches, AvoidsAfter;
    assert loop.terminator[..0] == [];
    AutomatonExact(loop, labels, [], 0, w);
  }

  /** Before the empty terminator the loop stops at once. */
  lemma {:induction false} EmptyTerminator(loop: Loop, w: Text)
    requires loop.terminator == []
    ensures Spells(Written(map[], 0), w) <==> IsBody(loop, w)
  {
    if w != [] {
      assert OccursAt([] + w + loop.terminator, loop.terminator, 0);
    }
  }
}

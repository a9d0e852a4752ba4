/**
  Piece sets: the automaton that finds every longest piece ending at a position,
  the cuts no piece straddles, and the windows that certify one.
 */
module PieceSet {
  import opened Options
  import opened Machine
  import opened Suffixes
  import opened Counting

  // ----- what the automaton stands for -----

  /** The nodes are the prefixes of the pieces, each named by its spelling. */
  ghost predicate IsTrie(pieces: seq<Word>, nodes: set<Word>) {
    [] in nodes && forall w: Word | w != [] :: w in nodes <==> BeginsPiece(pieces, w)
  }

  ghost predicate BeginsPiece(pieces: seq<Word>, w: Word) {
    exists p :: p in pieces && w <= p
  }

  /** The longest node the text ends in. */
  ghost predicate IsLongest(nodes: set<Word>, x: Word, m: Word) {
    m in nodes && Suffix(m, x) && forall n | n in nodes && Suffix(n, x) :: |n| <= |m|
  }

  /** The longest node a node ends in short of itself. */
  ghost predicate IsFailure(nodes: set<Word>, w: Word, f: Word) {
    w != [] && IsLongest(nodes, w[1..], f)
  }

  /** The length of the longest piece the text ends in, zero for none. */
  ghost predicate IsEnding(pieces: seq<Word>, x: Word, length: nat) {
    && length <= |x| && (length > 0 ==> x[|x| - length..] in pieces)
    && forall p | p in pieces && Suffix(p, x) :: |p| <= length
  }

  lemma {:induction false} SuffixTail(u: Word, x: Word)
    requires x != [] && |u| < |x|
    ensures Suffix(u, x[1..]) <==> Suffix(u, x)
  {
    assert x[1..][|x| - 1 - |u|..] == x[|x| - |u|..];
  }

  lemma {:induction false} SuffixLast(u: Word, b: Byte, x: Word, c: Byte)
    ensures Suffix(u + [b], x + [c]) <==> b == c && Suffix(u, x)
  {
    if |u| <= |x| {
      assert (x + [c])[|x| - |u|..] == x[|x| - |u|..] + [c];
      assert x[|x| - |u|..] + [c] == u + [b] ==> (x[|x| - |u|..] + [c])[..|u|] == (u + [b])[..|u|];
    }
  }

  lemma {:induction false} WholeSuffix(u: Word, x: Word)
    requires Suffix(u, x)
    ensures |u| == |x| ==> u == x
  {
    assert x[0..] == x;
  }

  /** Suffixes of one text: the shorter is a suffix of the longer. */
  lemma {:induction false} ShorterSuffix(u: Word, v: Word, x: Word)
    requires Suffix(u, x) && Suffix(v, x) && |u| <= |v|
    ensures Suffix(u, v)
  {
    assert v[|v| - |u|..] == x[|x| - |u|..];
  }

  lemma {:induction false} SuffixTransitive(u: Word, v: Word, x: Word)
    requires Suffix(u, v) && Suffix(v, x)
    ensures Suffix(u, x)
  {
    assert x[|x| - |u|..] == v[|v| - |u|..];
  }

  lemma {:induction false} TriePrefix(pieces: seq<Word>, nodes: set<Word>, u: Word, b: Byte)
    requires IsTrie(pieces, nodes) && u + [b] in nodes
    ensures u in nodes
  {
    if u != [] {
      var p :| p in pieces && u + [b] <= p;
      assert u <= p;
    }
  }

  /** The links of every node in the set are right. */
  ghost predicate Linked(nodes: set<Word>, failure: map<Word, Word>, linked: set<Word>) {
    forall w | w in linked :: w in failure && IsFailure(nodes, w, failure[w])
  }

  // ----- following the links -----

  /** The nodes the node ends in that the byte extends are no longer than the one reached. */
  ghost predicate Reaching(nodes: set<Word>, node: Word, b: Byte, cur: Word) {
    && cur in nodes && Suffix(cur, node)
    && forall n | n in nodes && Suffix(n, node) && n + [b] in nodes :: |n| <= |cur|
  }

  lemma {:induction false} FollowLink(pieces: seq<Word>, nodes: set<Word>, node: Word, b: Byte, cur: Word, f: Word)
    requires IsTrie(pieces, nodes) && Reaching(nodes, node, b, cur) && cur + [b] !in nodes && IsFailure(nodes, cur, f)
    ensures Reaching(nodes, node, b, f) && |f| < |cur|
  {
    SuffixTail(f, cur);
    SuffixTransitive(f, cur, node);
    forall n | n in nodes && Suffix(n, node) && n + [b] in nodes ensures |n| <= |f| {
      ShorterSuffix(n, cur, node);
      WholeSuffix(n, cur);
      if |n| < |cur| {
        SuffixTail(n, cur);
      }
    }
  }

  lemma {:induction false} ReachedLongest(pieces: seq<Word>, nodes: set<Word>, node: Word, b: Byte, cur: Word, m: Word)
    requires IsTrie(pieces, nodes) && Reaching(nodes, node, b, cur)
    requires if cur + [b] in nodes then m == cur + [b] else cur == [] && m == []
    ensures IsLongest(nodes, node + [b], m)
  {
    var x := node + [b];
    if cur + [b] in nodes {
      SuffixLast(cur, b, node, b);
    }
    forall n | n in nodes && Suffix(n, x) ensures |n| <= |m| {
      if n != [] {
        var front, c := n[..|n| - 1], n[|n| - 1];
        assert n == front + [c];
        SuffixLast(front, c, node, b);
        TriePrefix(pieces, nodes, front, c);
      }
    }
  }

  /** The longest node the node and the byte end in, by the links of the node and shorter ones. */
  method Next(
      ghost pieces: seq<Word>, nodes: set<Word>, failure: map<Word, Word>, node: Word, b: Byte, ghost linked: set<Word>)
    returns (to: Word)
    requires IsTrie(pieces, nodes) && node in nodes && Linked(nodes, failure, linked)
    requires forall w | w in nodes && w != [] && |w| <= |node| :: w in linked
    ensures IsLongest(nodes, node + [b], to)
  {
    hide IsTrie, IsLongest, IsFailure, Suffix, Reaching;
    var cur := node;
    StartReaching(nodes, node, b);
    while cur + [b] !in nodes && cur != []
      invariant Reaching(nodes, node, b, cur) && cur in nodes && |cur| <= |node|
      decreases |cur|
    {
      assert cur in linked;
      FollowLink(pieces, nodes, node, b, cur, failure[cur]);
      ReachingNode(nodes, node, b, failure[cur]);
      cur := failure[cur];
    }
    to := if cur + [b] in nodes then cur + [b] else [];
    ReachedLongest(pieces, nodes, node, b, cur, to);
  }

  lemma {:induction false} StartReaching(nodes: set<Word>, node: Word, b: Byte)
    requires node in nodes
    ensures Reaching(nodes, node, b, node)
  {
    assert node[0..] == node;
  }

  lemma ReachingNode(nodes: set<Word>, node: Word, b: Byte, cur: Word)
    requires Reaching(nodes, node, b, cur)
    ensures cur in nodes
  {
  }

  // ----- the text so far -----

  /** The longest node forgets nothing the next one needs. */
  lemma {:induction false} LongestForgets(pieces: seq<Word>, nodes: set<Word>, x: Word, node: Word, b: Byte, m: Word)
    requires IsTrie(pieces, nodes) && IsLongest(nodes, x, node) && IsLongest(nodes, node + [b], m)
    ensures IsLongest(nodes, x + [b], m)
  {
    SuffixLast(node, b, x, b);
    SuffixTransitive(m, node + [b], x + [b]);
    forall n | n in nodes && Suffix(n, x + [b]) ensures |n| <= |m| {
      if n != [] {
        var front, c := n[..|n| - 1], n[|n| - 1];
        assert n == front + [c];
        SuffixLast(front, c, x, b);
        TriePrefix(pieces, nodes, front, c);
        ShorterSuffix(front, node, x);
        SuffixLast(front, c, node, b);
      }
    }
  }

  /** The longest piece a text ends in is the longest its longest node ends in. */
  lemma {:induction false} EndingOfLongest(pieces: seq<Word>, nodes: set<Word>, x: Word, node: Word, length: nat)
    requires IsTrie(pieces, nodes) && IsLongest(nodes, x, node) && IsEnding(pieces, node, length)
    ensures IsEnding(pieces, x, length)
  {
    assert node[|node| - length..] == x[|x| - length..];
    forall p | p in pieces && Suffix(p, x) ensures |p| <= length {
      if p != [] {
        assert BeginsPiece(pieces, p);
        ShorterSuffix(p, node, x);
      }
    }
  }

  // ----- building -----

  /** The pieces, the trie of their prefixes, and each node's link and longest piece. */
  datatype Pieces = Pieces(
      pieces: seq<Word>, longest: nat, pairs: set<(Byte, Byte)>, nodes: set<Word>, failure: map<Word, Word>,
      ending: map<Word, nat>)
  {

    ghost predicate Valid() {
      && [] !in pieces && IsTrie(pieces, nodes)
      && (forall w | w in nodes && w != [] :: w in failure && IsFailure(nodes, w, failure[w]))
      && (forall w | w in nodes :: w in ending && IsEnding(pieces, w, ending[w]))
      && (forall a: Byte, b: Byte :: (a, b) in pairs <==> SideBySide(pieces, a, b))
      && (forall p | p in pieces :: |p| <= longest)
    }
  }

  /** Some piece holds the two bytes side by side. */
  ghost predicate SideBySide(pieces: seq<Word>, a: Byte, b: Byte) {
    exists p, i: nat :: p in pieces && PairAt(p, i, a, b)
  }

  ghost predicate PairAt(p: Word, i: nat, a: Byte, b: Byte) {
    0 < i < |p| && p[i - 1] == a && p[i] == b
  }

  /** A word's prefixes added to the nodes. */
  method AddPiece(ghost pieces: seq<Word>, nodes0: set<Word>, pairs0: set<(Byte, Byte)>, piece: Word)
    returns (nodes: set<Word>, pairs: set<(Byte, Byte)>)
    requires IsTrie(pieces, nodes0) && (forall a: Byte, b: Byte :: (a, b) in pairs0 <==> SideBySide(pieces, a, b))
    requires piece != []
    ensures IsTrie(pieces + [piece], nodes)
    ensures forall a: Byte, b: Byte :: (a, b) in pairs <==> SideBySide(pieces + [piece], a, b)
  {
    nodes := nodes0;
    for length := 0 to |piece| + 1
      invariant forall w :: w in nodes <==> w in nodes0 || (w <= piece && |w| < length)
    {
      nodes := nodes + {piece[..length]};
      assert forall w | w <= piece && |w| == length :: w == piece[..length];
    }
    pairs := pairs0;
    for index := 1 to |piece|
      invariant forall a: Byte, b: Byte :: (a, b) in pairs <==> (a, b) in pairs0 || exists i: nat ::
        i < index && PairAt(piece, i, a, b)
    {
      pairs := pairs + {(piece[index - 1], piece[index])};
      assert PairAt(piece, index, piece[index - 1], piece[index]);
    }
    ghost var all := pieces + [piece];
    forall w: Word | w != [] ensures w in nodes <==> BeginsPiece(all, w) {
      if w <= piece {
        assert piece in all;
      }
      if p :| p in pieces && w <= p {
        assert p in all;
      }
    }
    forall a: Byte, b: Byte ensures (a, b) in pairs <==> SideBySide(all, a, b) {
      if p, i: nat :| p in pieces && PairAt(p, i, a, b) {
        assert p in all;
      }
      if i: nat :| PairAt(piece, i, a, b) {
        assert piece in all;
      }
    }
  }

  /** The nodes whose links are known, shorter ones first, each with its longest piece. */
  ghost predicate Queued(
      pieces: seq<Word>, nodes: set<Word>, failure: map<Word, Word>, ending: map<Word, nat>, queue: seq<Word>)
  {
    && (forall i: nat | i < |queue| :: queue[i] in nodes && queue[i] != [] && queue[i] in failure && queue[i] in ending)
    && (forall i: nat | i < |queue| ::
      IsFailure(nodes, queue[i], failure[queue[i]]) && IsEnding(pieces, queue[i], ending[queue[i]]))
    && (forall i, j | 0 <= i < j < |queue| :: |queue[i]| <= |queue[j]|)
  }

  /** The nodes one byte longer than the first at of the queue are queued, and so are the nodes of one byte. */
  ghost predicate ChildrenQueued(nodes: set<Word>, queue: seq<Word>, at: nat) {
    && at <= |queue| && (forall b: Byte | [b] in nodes :: [b] in queue)
    && forall i: nat, b: Byte | i < at && queue[i] + [b] in nodes :: queue[i] + [b] in queue
  }

  /** What is queued is all that is no longer than the node taken next. */
  lemma {:induction false} ShortQueued(
      pieces: seq<Word>, nodes: set<Word>, failure: map<Word, Word>, ending: map<Word, nat>, queue: seq<Word>, at: nat,
      w: Word)
    requires IsTrie(pieces, nodes) && Queued(pieces, nodes, failure, ending, queue) && ChildrenQueued(nodes, queue, at)
    requires at <= |queue| && w in nodes && w != [] && (at < |queue| ==> |w| <= |queue[at]|)
    ensures w in queue
    decreases |w|
  {
    var front, b := w[..|w| - 1], w[|w| - 1];
    assert w == front + [b];
    TriePrefix(pieces, nodes, front, b);
    hide IsTrie;
    if front == [] {
      assert w == [b];
    } else {
      hide Queued, ChildrenQueued;
      ShortQueued(pieces, nodes, failure, ending, queue, at, front);
      ChildInQueue(pieces, nodes, failure, ending, queue, at, front, b);
    }
  }

  /** A queued node shorter than the one taken next is taken already, so its children are queued. */
  lemma {:induction false} ChildInQueue(
      pieces: seq<Word>, nodes: set<Word>, failure: map<Word, Word>, ending: map<Word, nat>, queue: seq<Word>, at: nat,
      front: Word, b: Byte)
    requires Queued(pieces, nodes, failure, ending, queue) && ChildrenQueued(nodes, queue, at)
    requires front in queue && front + [b] in nodes && (at < |queue| ==> |front| < |queue[at]|)
    ensures front + [b] in queue
  {
    hide IsFailure, IsEnding;
    var i :| 0 <= i < |queue| && queue[i] == front;
    if at <= i {
      LengthsAscend(pieces, nodes, failure, ending, queue, at, i);
    }
  }

  lemma LengthsAscend(
      pieces: seq<Word>, nodes: set<Word>, failure: map<Word, Word>, ending: map<Word, nat>, queue: seq<Word>,
      i: nat, j: nat)
    requires Queued(pieces, nodes, failure, ending, queue) && i <= j < |queue|
    ensures |queue[i]| <= |queue[j]|
  {
  }

  lemma {:induction false} EndingOneMore(pieces: seq<Word>, w: Word, length: nat)
    requires w != [] && IsEnding(pieces, w[1..], length)
    ensures IsEnding(pieces, w, if w in pieces && |w| > length then |w| else length)
  {
    assert w[1..][|w| - 1 - length..] == w[|w| - length..];
    assert w[0..] == w;
    hide Suffix;
    forall p | p in pieces && Suffix(p, w) ensures |p| <= if w in pieces && |w| > length then |w| else length {
      SuffixNoLonger(p, w);
      if |p| < |w| {
        SuffixTail(p, w);
      }
    }
  }

  /** A node's longest piece: itself, or its link's. */
  lemma {:induction false} EndingOfNode(pieces: seq<Word>, nodes: set<Word>, w: Word, f: Word, length: nat)
    requires IsTrie(pieces, nodes) && IsFailure(nodes, w, f) && IsEnding(pieces, f, length)
    ensures IsEnding(pieces, w, if w in pieces && |w| > length then |w| else length)
  {
    EndingOfLongest(pieces, nodes, w[1..], f, length);
    assert w != [];
    hide IsTrie, IsLongest;
    EndingOneMore(pieces, w, length);
  }

  lemma {:induction false} SuffixNoLonger(p: Word, w: Word)
    requires Suffix(p, w)
    ensures |p| <= |w| && (|p| == |w| ==> p == w)
  {
    WholeSuffix(p, w);
  }

  lemma RootEnding(pieces: seq<Word>)
    ensures IsEnding(pieces, [], 0)
  {
  }

  /** One child of a node: its link found, its longest piece, and its place in the queue. */
  method LinkChild(
      pieces: seq<Word>, nodes: set<Word>, failure0: map<Word, Word>, ending0: map<Word, nat>, queue0: seq<Word>,
      ghost at: nat, node: Word, b: Byte)
    returns (failure: map<Word, Word>, ending: map<Word, nat>, queue: seq<Word>)
    requires IsTrie(pieces, nodes) && Queued(pieces, nodes, failure0, ending0, queue0)
    requires ChildrenQueued(nodes, queue0, at)
    requires [] in ending0 && ending0[[]] == 0
    requires at < |queue0| && queue0[at] == node && node + [b] in nodes && |queue0[|queue0| - 1]| <= |node| + 1
    ensures Queued(pieces, nodes, failure, ending, queue) && [] in ending && ending[[]] == 0
    ensures queue == queue0 + [node + [b]]
    ensures forall w | w in queue0 :: w in failure && w in ending
  {
    hide IsTrie, IsLongest, IsEnding, ChildrenQueued;
    var child := node + [b];
    ghost var linked := set w | w in queue0;
    assert Linked(nodes, failure0, linked) by {
      forall w | w in linked ensures w in failure0 && IsFailure(nodes, w, failure0[w]) {
        var i :| 0 <= i < |queue0| && queue0[i] == w;
      }
    }
    forall w | w in nodes && w != [] && |w| <= |node| ensures w in linked {
      ShortQueued(pieces, nodes, failure0, ending0, queue0, at, w);
    }
    var above := failure0[node];
    LinkInside(nodes, node, above);
    var link := Next(pieces, nodes, failure0, above, b, linked);
    ChildLink(pieces, nodes, node, above, b, link);
    LinkInside(nodes, child, link);
    if link != [] {
      LinkQueued(pieces, nodes, failure0, ending0, queue0, at, link);
    } else {
      RootEnding(pieces);
    }
    var length := ending0[link];
    EndingOfNode(pieces, nodes, child, link, length);
    hide IsFailure;
    failure := failure0[child := link];
    ending := ending0[child := if child in pieces && |child| > length then |child| else length];
    queue := queue0 + [child];
    QueuedMore(pieces, nodes, failure0, ending0, queue0, child, link, ending[child]);
  }

  lemma LinkInside(nodes: set<Word>, w: Word, f: Word)
    requires IsFailure(nodes, w, f)
    ensures f in nodes && |f| < |w|
  {
  }

  lemma {:induction false} LinkQueued(
      pieces: seq<Word>, nodes: set<Word>, failure: map<Word, Word>, ending: map<Word, nat>, queue: seq<Word>, at: nat,
      link: Word)
    requires IsTrie(pieces, nodes) && Queued(pieces, nodes, failure, ending, queue) && ChildrenQueued(nodes, queue, at)
    requires at < |queue| && link in nodes && link != [] && |link| <= |queue[at]|
    ensures link in ending && IsEnding(pieces, link, ending[link])
  {
    ShortQueued(pieces, nodes, failure, ending, queue, at, link);
    var i :| 0 <= i < |queue| && queue[i] == link;
  }

  lemma {:induction false} QueuedMore(
      pieces: seq<Word>, nodes: set<Word>, failure: map<Word, Word>, ending: map<Word, nat>, queue: seq<Word>,
      child: Word, link: Word, length: nat)
    requires Queued(pieces, nodes, failure, ending, queue) && child in nodes && child != []
    requires IsFailure(nodes, child, link) && IsEnding(pieces, child, length)
    requires queue != [] && |queue[|queue| - 1]| <= |child|
    ensures Queued(pieces, nodes, failure[child := link], ending[child := length], queue + [child])
  {
    hide IsFailure, IsEnding;
    var more := queue + [child];
    forall i: nat | i < |more| ensures var f, e := failure[child := link], ending[child := length];
      IsFailure(nodes, more[i], f[more[i]]) && IsEnding(pieces, more[i], e[more[i]])
    {
      if i < |queue| {
        assert more[i] == queue[i];
      }
    }
  }

  /** The link of a child is what its parent's link and the byte end in. */
  lemma {:induction false} ChildLink(pieces: seq<Word>, nodes: set<Word>, node: Word, above: Word, b: Byte, link: Word)
    requires IsTrie(pieces, nodes) && IsFailure(nodes, node, above) && IsLongest(nodes, above + [b], link)
    ensures IsFailure(nodes, node + [b], link)
  {
    LongestForgets(pieces, nodes, node[1..], above, b, link);
    assert (node + [b])[1..] == node[1..] + [b];
  }

  /**
    Each node is queued once: of one byte, or a child of a node taken, or of the one being taken by
    a byte below the bound.
   */
  ghost predicate Sourced(queue: seq<Word>, at: nat, bytes: int) {
    && Distinct(queue) && at <= |queue|
    && forall i: nat | i < |queue| :: HasSource(queue, at, bytes, queue[i])
  }

  ghost predicate HasSource(queue: seq<Word>, at: nat, bytes: int, w: Word)
    requires at <= |queue|
  {
    && w != []
    && var front, b := w[..|w| - 1], w[|w| - 1];
       front == [] || front in queue[..at] || (at < |queue| && front == queue[at] && b < bytes)
  }

  lemma {:induction false} NotYetQueued(queue: seq<Word>, at: nat, b: Byte)
    requires Sourced(queue, at, b) && at < |queue| && queue[at] != []
    ensures queue[at] + [b] !in queue
  {
    var child := queue[at] + [b];
    assert child[..|child| - 1] == queue[at];
    TakenEarlier(queue, at);
    forall i: nat | i < |queue| ensures queue[i] != child {
      assert HasSource(queue, at, b, queue[i]);
    }
  }

  lemma TakenEarlier(queue: seq<Word>, at: nat)
    requires Distinct(queue) && at < |queue|
    ensures queue[at] !in queue[..at]
  {
  }

  lemma {:induction false} SourcedMore(queue: seq<Word>, at: nat, b: Byte)
    requires Sourced(queue, at, b) && at < |queue| && queue[at] != []
    ensures Sourced(queue + [queue[at] + [b]], at, b + 1)
  {
    NotYetQueued(queue, at, b);
    var child := queue[at] + [b];
    var more := queue + [child];
    forall i: nat | i < |more| ensures HasSource(more, at, b + 1, more[i]) {
      if i < |queue| {
        assert HasSource(queue, at, b, queue[i]);
        SourceKept(queue, more, at, b, more[i]);
      } else {
        ChildSource(more, at, b);
      }
    }
    hide HasSource;
  }

  lemma {:induction false} SourceKept(queue: seq<Word>, more: seq<Word>, at: nat, b: Byte, w: Word)
    requires at <= |queue| && queue <= more && HasSource(queue, at, b, w)
    ensures HasSource(more, at, b + 1, w)
  {
    assert more[..at] == queue[..at];
  }

  lemma {:induction false} ChildSource(more: seq<Word>, at: nat, b: Byte)
    requires at < |more|
    ensures HasSource(more, at, b + 1, more[at] + [b])
  {
    var child := more[at] + [b];
    assert child[..|child| - 1] == more[at];
  }

  lemma {:induction false} SourcedOn(queue: seq<Word>, at: nat, bytes: int, further: int)
    requires Sourced(queue, at, bytes) && bytes <= further
    ensures Sourced(queue, at, further)
  {
    forall i: nat | i < |queue| ensures HasSource(queue, at, further, queue[i]) {
      assert HasSource(queue, at, bytes, queue[i]);
    }
  }

  lemma {:induction false} SourcedNext(queue: seq<Word>, at: nat)
    requires Sourced(queue, at, 256) && at < |queue|
    ensures Sourced(queue, at + 1, 0)
  {
    assert queue[..at + 1] == queue[..at] + [queue[at]];
    forall i: nat | i < |queue| ensures HasSource(queue, at + 1, 0, queue[i]) {
      assert HasSource(queue, at, 256, queue[i]);
    }
  }

  lemma {:induction false} ChildrenStillQueued(nodes: set<Word>, queue: seq<Word>, at: nat, child: Word)
    requires ChildrenQueued(nodes, queue, at)
    ensures ChildrenQueued(nodes, queue + [child], at)
  {
    var more := queue + [child];
    assert forall i: nat | i < at :: more[i] == queue[i];
  }

  /** Every child of one node of the queue. */
  method LinkChildren(
      pieces: seq<Word>, nodes: set<Word>, failure0: map<Word, Word>, ending0: map<Word, nat>, queue0: seq<Word>,
      at: nat)
    returns (failure: map<Word, Word>, ending: map<Word, nat>, queue: seq<Word>)
    requires IsTrie(pieces, nodes) && Queued(pieces, nodes, failure0, ending0, queue0)
    requires ChildrenQueued(nodes, queue0, at)
    requires [] in ending0 && ending0[[]] == 0 && at < |queue0| && |queue0[|queue0| - 1]| <= |queue0[at]| + 1
    requires Sourced(queue0, at, 0)
    ensures Queued(pieces, nodes, failure, ending, queue) && [] in ending && ending[[]] == 0
    ensures queue0 <= queue && ChildrenQueued(nodes, queue, at + 1) && Sourced(queue, at + 1, 0)
    ensures |queue[|queue| - 1]| <= |queue0[at]| + 1
  {
    hide IsTrie, Queued, ChildrenQueued, Sourced;
    failure, ending, queue := failure0, ending0, queue0;
    var node := queue[at];
    QueuedNode(pieces, nodes, failure, ending, queue, at);
    for byte := 0 to 256
      invariant Queued(pieces, nodes, failure, ending, queue) && [] in ending && ending[[]] == 0
      invariant queue0 <= queue && ChildrenQueued(nodes, queue, at) && Sourced(queue, at, byte)
      invariant |queue[|queue| - 1]| <= |node| + 1
      invariant forall b: Byte | b < byte && node + [b] in nodes :: node + [b] in queue
    {
      assert queue[at] == node;
      if node + [byte] in nodes {
        SourcedMore(queue, at, byte);
        ChildrenStillQueued(nodes, queue, at, node + [byte]);
        failure, ending, queue := LinkChild(pieces, nodes, failure, ending, queue, at, node, byte);
      } else {
        SourcedOn(queue, at, byte, byte + 1);
      }
    }
    assert queue[at] == node;
    ChildrenDone(nodes, queue, at);
    SourcedNext(queue, at);
  }

  lemma QueuedNode(
      pieces: seq<Word>, nodes: set<Word>, failure: map<Word, Word>, ending: map<Word, nat>, queue: seq<Word>, at: nat)
    requires Queued(pieces, nodes, failure, ending, queue) && at < |queue|
    ensures queue[at] in nodes && queue[at] != []
  {
  }

  lemma ChildrenDone(nodes: set<Word>, queue: seq<Word>, at: nat)
    requires ChildrenQueued(nodes, queue, at) && at < |queue|
    requires forall b: Byte | queue[at] + [b] in nodes :: queue[at] + [b] in queue
    ensures ChildrenQueued(nodes, queue, at + 1)
  {
  }

  /** The nodes of one byte, linked to the root. */
  method RootChildren(pieces: seq<Word>, nodes: set<Word>)
    returns (failure: map<Word, Word>, ending: map<Word, nat>, queue: seq<Word>)
    requires IsTrie(pieces, nodes) && [] !in pieces
    ensures Queued(pieces, nodes, failure, ending, queue) && [] in ending && ending[[]] == 0
    ensures ChildrenQueued(nodes, queue, 0) && Sourced(queue, 0, 0)
    ensures forall i: nat | i < |queue| :: |queue[i]| == 1
  {
    hide IsTrie, IsEnding, IsFailure;
    failure, ending, queue := map[], map[[] := 0], [];
    for byte := 0 to 256
      invariant Queued(pieces, nodes, failure, ending, queue) && [] in ending && ending[[]] == 0
      invariant forall i: nat | i < |queue| :: |queue[i]| == 1 && queue[i][0] < byte
      invariant forall b: Byte | b < byte && [b] in nodes :: [b] in queue
      invariant Distinct(queue)
    {
      if [byte] in nodes {
        RootLink(pieces, nodes, byte);
        ghost var before := queue;
        failure, ending := failure[[byte] := []], ending[[byte] := if [byte] in pieces then 1 else 0];
        queue := queue + [[byte]];
        forall i: nat | i < |queue|
          ensures IsFailure(nodes, queue[i], failure[queue[i]]) && IsEnding(pieces, queue[i], ending[queue[i]])
        {
          if i < |before| {
            assert queue[i] == before[i];
          }
        }
      }
    }
    forall i: nat | i < |queue| ensures HasSource(queue, 0, 0, queue[i]) {
      assert queue[i][..0] == [];
    }
  }

  lemma {:induction false} RootLink(pieces: seq<Word>, nodes: set<Word>, b: Byte)
    requires IsTrie(pieces, nodes) && [b] in nodes && [] !in pieces
    ensures IsFailure(nodes, [b], []) && IsEnding(pieces, [b], if [b] in pieces then 1 else 0)
  {
    assert [b][1..] == [] && [b][0..] == [b];
    forall p | p in pieces && Suffix(p, [b]) ensures p == [b] {
      assert [b][1 - |p|..] == p;
    }
  }

  /** The links and the longest pieces, shorter nodes first. */
  method LinkFailures(pieces: seq<Word>, nodes: set<Word>) returns (failure: map<Word, Word>, ending: map<Word, nat>)
    requires IsTrie(pieces, nodes) && [] !in pieces
    ensures forall w | w in nodes && w != [] :: w in failure && IsFailure(nodes, w, failure[w])
    ensures forall w | w in nodes :: w in ending && IsEnding(pieces, w, ending[w])
  {
    hide IsTrie, IsEnding, IsFailure, Queued, ChildrenQueued, Sourced;
    var queue: seq<Word>;
    failure, ending, queue := RootChildren(pieces, nodes);
    var at := 0;
    while at < |queue|
      invariant Queued(pieces, nodes, failure, ending, queue) && [] in ending && ending[[]] == 0
      invariant at <= |queue| && ChildrenQueued(nodes, queue, at) && Sourced(queue, at, 0)
      invariant at < |queue| ==> |queue[|queue| - 1]| <= |queue[at]| + 1
      decreases |nodes| - at
    {
      QueueBounded(pieces, nodes, failure, ending, queue, at);
      ghost var before := queue;
      failure, ending, queue := LinkChildren(pieces, nodes, failure, ending, queue, at);
      LastStillNear(pieces, nodes, failure, ending, queue, at, |before[at]|);
      at := at + 1;
    }
    forall w | w in nodes
      ensures w in ending && IsEnding(pieces, w, ending[w])
      ensures (w != [] ==> w in failure && IsFailure(nodes, w, failure[w]))
    {
      if w == [] {
        RootEnding(pieces);
      } else {
        ShortQueued(pieces, nodes, failure, ending, queue, at, w);
        QueuedHas(pieces, nodes, failure, ending, queue, w);
      }
    }
  }

  lemma {:induction false} QueuedHas(
      pieces: seq<Word>, nodes: set<Word>, failure: map<Word, Word>, ending: map<Word, nat>, queue: seq<Word>, w: Word)
    requires Queued(pieces, nodes, failure, ending, queue) && w in queue
    ensures w in failure && IsFailure(nodes, w, failure[w]) && w in ending && IsEnding(pieces, w, ending[w])
  {
    hide IsFailure, IsEnding;
    var i :| 0 <= i < |queue| && queue[i] == w;
  }

  lemma {:induction false} LastStillNear(
      pieces: seq<Word>, nodes: set<Word>, failure: map<Word, Word>, ending: map<Word, nat>, queue: seq<Word>, at: nat,
      length: nat)
    requires Queued(pieces, nodes, failure, ending, queue) && at < |queue| && |queue[at]| == length
    requires |queue[|queue| - 1]| <= length + 1
    ensures at + 1 < |queue| ==> |queue[|queue| - 1]| <= |queue[at + 1]| + 1
  {
    hide IsFailure, IsEnding;
  }

  lemma {:induction false} QueueBounded(
      pieces: seq<Word>, nodes: set<Word>, failure: map<Word, Word>, ending: map<Word, nat>, queue: seq<Word>, at: nat)
    requires Queued(pieces, nodes, failure, ending, queue) && Sourced(queue, at, 0)
    ensures |queue| <= |nodes|
  {
    hide IsFailure, IsEnding, HasSource;
    ImageSize(queue);
    forall w | w in Image(queue) ensures w in nodes {
      var i :| 0 <= i < |queue| && queue[i] == w;
    }
    SubsetSize(Image(queue), nodes);
  }

  /** The set of the pieces; nothing where one is empty or two are the same. */
  method BuildPieceSet(pieces: seq<Word>) returns (set_: Option<Pieces>)
    ensures set_.None? <==> [] in pieces || !Distinct(pieces)
    ensures set_.Some? ==> set_.value.Valid() && set_.value.pieces == pieces
  {
    var nodes: set<Word>, pairs: set<(Byte, Byte)>, longest: nat := {[]}, {}, 0;
    EmptyTrie();
    hide IsTrie, SideBySide;
    for index := 0 to |pieces|
      invariant IsTrie(pieces[..index], nodes) && [] !in pieces[..index] && Distinct(pieces[..index])
      invariant forall a: Byte, b: Byte :: (a, b) in pairs <==> SideBySide(pieces[..index], a, b)
      invariant forall p | p in pieces[..index] :: |p| <= longest
    {
      assert pieces[..index + 1] == pieces[..index] + [pieces[index]];
      if pieces[index] == [] || pieces[index] in pieces[..index] {
        Repeats(pieces, index);
        return None;
      }
      nodes, pairs := AddPiece(pieces[..index], nodes, pairs, pieces[index]);
      longest := if |pieces[index]| > longest then |pieces[index]| else longest;
    }
    assert pieces[..|pieces|] == pieces;
    var failure, ending := LinkFailures(pieces, nodes);
    set_ := Some(Pieces(pieces, longest, pairs, nodes, failure, ending));
  }

  lemma EmptyTrie()
    ensures IsTrie([], {[]})
    ensures forall a: Byte, b: Byte :: !SideBySide([], a, b)
  {
  }

  lemma {:induction false} Repeats(pieces: seq<Word>, i: nat)
    requires i < |pieces| && (pieces[i] == [] || pieces[i] in pieces[..i])
    ensures [] in pieces || !Distinct(pieces)
  {
    if pieces[i] != [] {
      var j :| 0 <= j < i && pieces[..i][j] == pieces[i];
    }
  }

  // ----- cuts no piece straddles -----

  /** An occurrence of a piece begins at start and ends at end. */
  ghost predicate PieceAt(pieces: seq<Word>, text: Word, start: nat, end: nat) {
    start <= end <= |text| && text[start..end] in pieces
  }

  ghost predicate StraddleFree(pieces: seq<Word>, text: Word, position: nat) {
    forall start: nat, end: nat | PieceAt(pieces, text, start, end) :: !(start < position < end)
  }

  /** A segmentation into pieces and single bytes. */
  ghost predicate Cuts(pieces: seq<Word>, text: Word, bounds: seq<nat>) {
    && bounds != [] && bounds[0] == 0 && bounds[|bounds| - 1] == |text|
    && forall i: nat | i < |bounds| - 1 :: Part(pieces, text, bounds[i], bounds[i + 1])
  }

  ghost predicate Part(pieces: seq<Word>, text: Word, start: nat, end: nat) {
    start < end && (end == start + 1 || PieceAt(pieces, text, start, end))
  }

  /**
    Where nothing can straddle, everything is cut: the position bounds two pieces in whatever way
    the text is segmented.
   */
  lemma {:induction false} StraddleFreeIsCut(pieces: seq<Word>, text: Word, bounds: seq<nat>, position: nat)
    requires Cuts(pieces, text, bounds) && position <= |text| && StraddleFree(pieces, text, position)
    ensures position in bounds
  {
    if position != 0 {
      var i := 0;
      while bounds[i + 1] < position
        invariant i < |bounds| - 1 && bounds[i] < position
      {
        i := i + 1;
      }
      assert Part(pieces, text, bounds[i], bounds[i + 1]);
    }
  }

  /**
    What is recorded at a start is a piece's end, and no piece of two bytes or more that ends so far
    is left uncovered.
   */
  ghost predicate Records(pieces: seq<Word>, text: Word, reach: seq<nat>, end: nat) {
    && |reach| == |text| + 1
    && (forall start: nat | start < |reach| && reach[start] > 0 ::
      PieceAt(pieces, text, start, reach[start]) && reach[start] <= end)
    && forall s: nat, e: nat | PieceAt(pieces, text, s, e) && s + 2 <= e <= end :: Covered(reach, s, e)
  }

  /** Something recorded at the start or before reaches the end. */
  ghost predicate Covered(reach: seq<nat>, s: nat, e: nat) {
    exists start: nat :: start <= s && start < |reach| && reach[start] >= e
  }

  lemma {:induction false} RecordOne(
      pieces: seq<Word>, text: Word, reach: seq<nat>, more: seq<nat>, end: nat, length: nat)
    requires 0 < end <= |text| && Records(pieces, text, reach, end - 1) && IsEnding(pieces, text[..end], length)
    requires more == if length < 2 then reach else reach[end - length := end]
    ensures Records(pieces, text, more, end)
  {
    assert text[..end][end - length..] == text[end - length..end];
    forall s: nat, e: nat | PieceAt(pieces, text, s, e) && s + 2 <= e <= end ensures Covered(more, s, e) {
      if e == end {
        assert text[..end][s..] == text[s..end];
        assert Suffix(text[s..end], text[..end]);
        assert more[end - length] >= e;
      } else {
        assert Covered(reach, s, e);
        var start: nat :| start <= s && start < |reach| && reach[start] >= e;
        assert more[start] >= e;
      }
    }
  }

  /** The furthest recorded before the position decides whether a piece straddles it. */
  ghost predicate Furthest(reach: seq<nat>, position: nat, furthest: nat) {
    && position <= |reach| && (forall s: nat | s < position :: reach[s] <= furthest)
    && (furthest == 0 || exists s: nat :: s < position && reach[s] == furthest)
  }

  lemma {:induction false} FurthestDecides(pieces: seq<Word>, text: Word, reach: seq<nat>, position: nat, furthest: nat)
    requires Records(pieces, text, reach, |text|) && Furthest(reach, position, furthest)
    ensures furthest <= position <==> StraddleFree(pieces, text, position)
  {
    if furthest > position {
      var s: nat :| s < position && reach[s] == furthest;
      assert PieceAt(pieces, text, s, furthest);
    } else {
      forall start: nat, end: nat | PieceAt(pieces, text, start, end) ensures !(start < position < end) {
        if start + 2 <= end {
          assert Covered(reach, start, end);
        }
      }
    }
  }

  /** The interior positions no occurrence of a piece straddles, ascending. */
  method FindStraddleFree(s: Pieces, input: Word) returns (cuts: seq<nat>)
    requires s.Valid()
    ensures forall position: nat ::
      position in cuts <==> 0 < position < |input| && StraddleFree(s.pieces, input, position)
    ensures forall i, j | 0 <= i < j < |cuts| :: cuts[i] < cuts[j]
  {
    hide StraddleFree, Records, Furthest, IsLongest, IsEnding, IsTrie;
    var reach := Reach(s, input);
    cuts := [];
    var furthest: nat := 0;
    FurthestAtStart(reach);
    RecordsLength(s.pieces, input, reach, |input|);
    var position: nat := 1;
    while position < |input|
      invariant 0 < position && (position == 1 || position <= |input|) && Furthest(reach, position - 1, furthest)
      invariant forall i | 0 <= i < |cuts| :: cuts[i] < position
      invariant forall p: nat :: p in cuts <==> 0 < p < position && StraddleFree(s.pieces, input, p)
      invariant forall i, j | 0 <= i < j < |cuts| :: cuts[i] < cuts[j]
    {
      FurthestMore(reach, position - 1, furthest);
      furthest := if reach[position - 1] > furthest then reach[position - 1] else furthest;
      FurthestDecides(s.pieces, input, reach, position, furthest);
      if furthest <= position {
        cuts := cuts + [position];
      }
      position := position + 1;
    }
  }

  lemma RecordsLength(pieces: seq<Word>, text: Word, reach: seq<nat>, end: nat)
    requires Records(pieces, text, reach, end)
    ensures |reach| == |text| + 1
  {
  }

  lemma FurthestAtStart(reach: seq<nat>)
    ensures Furthest(reach, 0, 0)
  {
  }

  lemma FurthestMore(reach: seq<nat>, position: nat, furthest: nat)
    requires Furthest(reach, position, furthest) && position < |reach|
    ensures Furthest(reach, position + 1, if reach[position] > furthest then reach[position] else furthest)
  {
  }

  /**
    The furthest end of a piece of two bytes or more recorded at each start, by the longest piece
    ending at each position.
   */
  method Reach(s: Pieces, input: Word) returns (reach: seq<nat>)
    requires s.Valid()
    ensures Records(s.pieces, input, reach, |input|)
  {
    hide Records, IsLongest, IsEnding, IsTrie, IsFailure;
    var size := |input|;
    reach := seq(size + 1, _ => 0);
    NothingRecorded(s.pieces, input);
    var node: Word := [];
    RootLongest(s.pieces, s.nodes);
    var all := s.nodes - {[]};
    for end := 0 to size
      invariant |reach| == size + 1 && Records(s.pieces, input, reach, end)
      invariant node in s.nodes && IsLongest(s.nodes, input[..end], node)
    {
      var byte := input[end];
      ghost var before := reach;
      assert Linked(s.nodes, s.failure, all);
      var to := Next(s.pieces, s.nodes, s.failure, node, byte, all);
      LongestForgets(s.pieces, s.nodes, input[..end], node, byte, to);
      assert input[..end + 1] == input[..end] + [byte];
      node := to;
      LongestInside(s.nodes, input[..end + 1], node);
      var length := s.ending[node];
      EndingOfLongest(s.pieces, s.nodes, input[..end + 1], node, length);
      EndingFits(s.pieces, input[..end + 1], length);
      if length >= 2 {
        reach := reach[end + 1 - length := end + 1];
      }
      RecordOne(s.pieces, input, before, reach, end + 1, length);
    }
  }

  lemma NothingRecorded(pieces: seq<Word>, text: Word)
    ensures Records(pieces, text, seq(|text| + 1, _ => 0), 0)
  {
  }

  lemma RootLongest(pieces: seq<Word>, nodes: set<Word>)
    requires IsTrie(pieces, nodes)
    ensures [] in nodes && forall x: Word | x == [] :: IsLongest(nodes, x, [])
  {
  }

  lemma LongestInside(nodes: set<Word>, x: Word, m: Word)
    requires IsLongest(nodes, x, m)
    ensures m in nodes
  {
  }

  lemma EndingFits(pieces: seq<Word>, x: Word, length: nat)
    requires IsEnding(pieces, x, length)
    ensures length <= |x|
  {
  }

  // ----- windows that certify a cut -----

  /** In the text an occurrence of the window has a piece straddling its offset. */
  ghost predicate StraddledAt(pieces: seq<Word>, text: Word, window: Word, p: nat, offset: nat, start: nat, end: nat) {
    OccursAt(text, window, p) && PieceAt(pieces, text, start, end) && start < p + offset < end
  }

  ghost predicate Straddled(pieces: seq<Word>, window: Word, offset: nat) {
    exists text, p: nat, start: nat, end: nat :: StraddledAt(pieces, text, window, p, offset, start, end)
  }

  /** Laid over the window with byte j at the offset, the piece contradicts none of the window's bytes. */
  ghost predicate AgreesAt(window: Word, offset: nat, piece: Word, j: nat) {
    forall i: nat | i < |piece| && 0 <= i + offset - j < |window| :: piece[i] == window[i + offset - j]
  }

  method Agrees(window: Word, offset: nat, piece: Word, j: nat) returns (agrees: bool)
    requires 0 < offset < |window| && 0 < j < |piece|
    ensures agrees <==> AgreesAt(window, offset, piece, j)
  {
    var first := if j > offset then j - offset else 0;
    var last := if |piece| < |window| - offset + j then |piece| else |window| - offset + j;
    var overlap := piece[first..last];
    var begin := offset + first - j;
    agrees := window[begin..begin + (last - first)] == overlap;
    assert forall i: nat | i < |overlap| :: overlap[i] == piece[first + i];
    if agrees {
      forall i: nat | i < |piece| && 0 <= i + offset - j < |window| ensures piece[i] == window[i + offset - j] {
        assert overlap[i - first] == window[begin..begin + (last - first)][i - first];
      }
    }
    if AgreesAt(window, offset, piece, j) {
      forall i: nat | i < |overlap| ensures overlap[i] == window[begin..begin + (last - first)][i] {
        assert piece[first + i] == window[first + i + offset - j];
      }
    }
  }

  /** A piece that straddles the offset agrees where it does. */
  lemma {:induction false} StraddlerAgrees(
      pieces: seq<Word>, text: Word, window: Word, p: nat, offset: nat, start: nat, end: nat)
    requires StraddledAt(pieces, text, window, p, offset, start, end) && 0 < offset < |window|
    ensures text[start..end] in pieces && AgreesAt(window, offset, text[start..end], p + offset - start)
    ensures PairAt(text[start..end], p + offset - start, window[offset - 1], window[offset])
  {
    var piece, j := text[start..end], p + offset - start;
    forall i: nat | i < |piece| && 0 <= i + offset - j < |window| ensures piece[i] == window[i + offset - j] {
      assert text[p..p + |window|][i + offset - j] == text[start + i];
    }
    assert text[p..p + |window|][offset] == text[start + j] && text[p..p + |window|][offset - 1] == text[start + j - 1];
  }

  /** The union of the window and the piece laid over it. */
  function Extended(window: Word, offset: nat, piece: Word, j: nat): Word
    requires 0 < offset < |window| && 0 < j < |piece|
  {
    var before := if j > offset then j - offset else 0;
    var past := if |piece| < |window| - offset + j then |piece| else |window| - offset + j;
    piece[..before] + window + piece[past..]
  }

  /** The extended window holds the piece across the offset. */
  lemma {:induction false} ExtendedStraddles(pieces: seq<Word>, window: Word, offset: nat, piece: Word, j: nat)
    requires 0 < offset < |window| && 0 < j < |piece| && piece in pieces && AgreesAt(window, offset, piece, j)
    ensures var before := if j > offset then j - offset else 0;
      var text := Extended(window, offset, piece, j);
      OccursAt(text, window, before) && OccursAt(text, piece, before + offset - j)
      && StraddledAt(pieces, text, window, before, offset, before + offset - j, before + offset - j + |piece|)
  {
    var before := if j > offset then j - offset else 0;
    var text, begin := Extended(window, offset, piece, j), before + offset - j;
    ExtendedWindow(window, offset, piece, j);
    forall i: nat | i < |piece| ensures begin + i < |text| && text[begin + i] == piece[i] {
      ExtendedAt(window, offset, piece, j, i);
    }
    hide Extended, AgreesAt;
    PieceOccurs(text, piece, begin);
  }

  lemma {:induction false} ExtendedWindow(window: Word, offset: nat, piece: Word, j: nat)
    requires 0 < offset < |window| && 0 < j < |piece|
    ensures OccursAt(Extended(window, offset, piece, j), window, if j > offset then j - offset else 0)
  {
    var before := if j > offset then j - offset else 0;
    assert Extended(window, offset, piece, j)[before..before + |window|] == window;
  }

  lemma {:induction false} PieceOccurs(text: Word, piece: Word, begin: nat)
    requires piece != [] && forall i: nat | i < |piece| :: begin + i < |text| && text[begin + i] == piece[i]
    ensures OccursAt(text, piece, begin) && begin + |piece| <= |text| && text[begin..begin + |piece|] == piece
  {
    var last := |piece| - 1;
    assert piece[last] in piece && begin + last < |text|;
    assert text[begin..begin + |piece|] == piece;
  }

  lemma {:induction false} ExtendedAt(window: Word, offset: nat, piece: Word, j: nat, i: nat)
    requires 0 < offset < |window| && 0 < j < |piece| && AgreesAt(window, offset, piece, j) && i < |piece|
    ensures var before := if j > offset then j - offset else 0;
      var text, at := Extended(window, offset, piece, j), before + offset - j + i;
      at < |text| && text[at] == piece[i]
  {
    var before := if j > offset then j - offset else 0;
    var past := if |piece| < |window| - offset + j then |piece| else |window| - offset + j;
    var at := before + offset - j + i;
    if at < before {
      assert at == i;
    } else if at < before + |window| {
      assert piece[i] == window[i + offset - j];
    } else {
      assert at - before - |window| == i - past;
    }
  }

  /** A text with an occurrence of a window, segmented with a piece across the window's offset. */
  datatype Straddling = Straddling(text: Word, bounds: seq<nat>, occurrence: nat)

  ghost predicate IsStraddling(pieces: seq<Word>, window: Word, offset: nat, s: Straddling) {
    && OccursAt(s.text, window, s.occurrence)
    && s.bounds != [] && s.bounds[0] == 0 && s.bounds[|s.bounds| - 1] == |s.text|
    && (forall i, j | 0 <= i < j < |s.bounds| :: s.bounds[i] < s.bounds[j])
    && exists i: nat :: StraddlesIn(pieces, offset, s, i)
  }

  /** One of the tokens is a piece, the window's offset lies inside it, and the others are single characters. */
  ghost predicate StraddlesIn(pieces: seq<Word>, offset: nat, s: Straddling, i: nat) {
    && i < |s.bounds| - 1 && PieceAt(pieces, s.text, s.bounds[i], s.bounds[i + 1])
    && s.bounds[i] < s.occurrence + offset < s.bounds[i + 1]
    && CharactersBeside(s.text, s.bounds, s.bounds[i], s.bounds[i + 1])
  }

  /** Outside the piece a boundary stands before every byte but those that continue a character. */
  ghost predicate CharactersBeside(text: Word, bounds: seq<nat>, start: nat, end: nat) {
    forall x: nat | 0 < x < |text| && (x < start || end < x) :: x in bounds <==> !(0x80 <= text[x] < 0xC0)
  }

  /** The byte continues a character of the encoding. */
  predicate Continues(b: Byte) {
    0x80 <= b < 0xC0
  }

  /** The characters' ends of a text, past an offset: every byte that does not continue a character begins one. */
  function CharacterEnds(text: Word, from: nat): (ends: seq<nat>)
    ensures text != [] <==> ends != []
    ensures text != [] ==> ends[|ends| - 1] == from + |text|
    ensures forall i | 0 <= i < |ends| :: from < ends[i] <= from + |text|
    ensures forall i, j | 0 <= i < j < |ends| :: ends[i] < ends[j]
  {
    if text == [] then []
    else
      var front := CharacterEnds(text[..|text| - 1], from);
      if Continues(text[|text| - 1]) && front != [] then front[..|front| - 1] + [from + |text|]
      else front + [from + |text|]
  }

  /** One end more, in place of the last or after it. */
  lemma {:induction false} EndMore(front: seq<nat>, end: nat, joins: bool, x: nat)
    requires front != [] && x != end && forall i, j | 0 <= i < j < |front| :: front[i] < front[j]
    ensures var ends := if joins then front[..|front| - 1] + [end] else front + [end];
            x in ends <==> if x == front[|front| - 1] then !joins else x in front
  {
    if joins && x in front[..|front| - 1] {
      var i :| 0 <= i < |front| - 1 && front[..|front| - 1][i] == x;
      assert front[i] < front[|front| - 1];
    }
    assert front[|front| - 1] in front;
  }

  lemma {:induction false} EndsAreCharacters(text: Word, from: nat, x: nat)
    requires from < x < from + |text|
    ensures x in CharacterEnds(text, from) <==> !(0x80 <= text[x - from] < 0xC0)
    decreases |text|
  {
    hide CharacterEnds;
    if x < from + |text| - 1 {
      EndsAreCharacters(text[..|text| - 1], from, x);
    }
    EndsStep(text, from, x);
  }

  /** The text's last byte decides whether its own beginning is an end, and leaves the ends before. */
  lemma {:induction false} EndsStep(text: Word, from: nat, x: nat)
    requires from < x < from + |text|
    ensures x in CharacterEnds(text, from) <==>
              if x < from + |text| - 1 then x in CharacterEnds(text[..|text| - 1], from)
              else !Continues(text[|text| - 1])
  {
    EndsSnoc(text, from);
    var front, end, joins := CharacterEnds(text[..|text| - 1], from), from + |text|, Continues(text[|text| - 1]);
    var ends := CharacterEnds(text, from);
    hide *;
    EndMore(front, end, joins, x);
  }

  lemma EndsSnoc(text: Word, from: nat)
    requires |text| > 1
    ensures var front := CharacterEnds(text[..|text| - 1], from);
            && front != [] && front[|front| - 1] == from + |text| - 1
            && CharacterEnds(text, from) ==
                 if Continues(text[|text| - 1]) then front[..|front| - 1] + [from + |text|] else front + [from + |text|]
  {
  }

  /** Everything beside the piece cut into characters. */
  method StraddlingOf(pieces: seq<Word>, window: Word, offset: nat, piece: Word, j: nat) returns (s: Straddling)
    requires 0 < offset < |window| && 0 < j < |piece| && piece in pieces && AgreesAt(window, offset, piece, j)
    ensures IsStraddling(pieces, window, offset, s)
  {
    hide CharacterEnds, Extended, AgreesAt;
    var before := if j > offset then j - offset else 0;
    var text := Extended(window, offset, piece, j);
    ExtendedStraddles(pieces, window, offset, piece, j);
    var begin := before + offset - j;
    var end := begin + |piece|;
    assert end <= |text|;
    var left, right := CharacterEnds(text[..begin], 0), CharacterEnds(text[end..], end);
    var bounds := [0] + left + [end] + right;
    BoundsOrdered(left, begin, end, right, |text|);
    s := Straddling(text, bounds, before);
    assert bounds[|left|] == begin && bounds[|left| + 1] == end;
    forall x: nat | 0 < x < |text| && (x < begin || end < x) ensures x in bounds <==> !(0x80 <= text[x] < 0xC0) {
      BoundsBeside(text, begin, end, left, right, x);
    }
    assert StraddlesIn(pieces, offset, s, |left|);
  }

  lemma {:induction false} BoundsBeside(text: Word, begin: nat, end: nat, left: seq<nat>, right: seq<nat>, x: nat)
    requires begin < end <= |text| && left == CharacterEnds(text[..begin], 0)
    requires right == CharacterEnds(text[end..], end)
    requires 0 < x < |text| && (x < begin || end < x)
    ensures x in [0] + left + [end] + right <==> !(0x80 <= text[x] < 0xC0)
  {
    hide CharacterEnds;
    if x < begin {
      EndsAreCharacters(text[..begin], 0, x);
    } else {
      EndsAreCharacters(text[end..], end, x);
    }
  }

  lemma BoundsOrdered(left: seq<nat>, begin: nat, end: nat, right: seq<nat>, size: nat)
    requires begin < end <= size
    requires (begin > 0 <==> left != []) && (begin > 0 ==> left[|left| - 1] == begin)
    requires (forall i | 0 <= i < |left| :: 0 < left[i] <= begin)
    requires forall i, j | 0 <= i < j < |left| :: left[i] < left[j]
    requires (end < size <==> right != []) && (end < size ==> right[|right| - 1] == size)
    requires (forall i | 0 <= i < |right| :: end < right[i] <= size)
    requires forall i, j | 0 <= i < j < |right| :: right[i] < right[j]
    ensures var bounds := [0] + left + [end] + right;
      && (forall i, j | 0 <= i < j < |bounds| :: bounds[i] < bounds[j])
      && bounds[|bounds| - 1] == size && bounds[|left|] == begin
  {
  }

  /**
    Nothing where the window certifies its offset: no piece straddles it in any text; otherwise a
    text in which one does.
   */
  method PieceCut(s: Pieces, window: Word, offset: nat) returns (found: Option<Straddling>)
    requires s.Valid() && 0 < offset < |window|
    ensures found.None? <==> !Straddled(s.pieces, window, offset)
    ensures found.Some? ==> IsStraddling(s.pieces, window, offset, found.value)
  {
    hide AgreesAt, IsTrie, IsLongest, IsEnding, IsFailure;
    if (window[offset - 1], window[offset]) !in s.pairs {
      NoPairNoStraddle(s.pieces, window, offset);
      return None;
    }
    for index := 0 to |s.pieces|
      invariant forall k: nat, j: nat | k < index && 0 < j < |s.pieces[k]| :: !AgreesAt(window, offset, s.pieces[k], j)
    {
      var piece := s.pieces[index];
      for j := 1 to |piece|
        invariant forall i: nat | 0 < i < j :: !AgreesAt(window, offset, piece, i)
      {
        var agrees := Agrees(window, offset, piece, j);
        if agrees {
          ExtendedStraddles(s.pieces, window, offset, piece, j);
          var straddling := StraddlingOf(s.pieces, window, offset, piece, j);
          return Some(straddling);
        }
      }
    }
    NoneStraddles(s.pieces, window, offset);
    found := None;
  }

  lemma {:induction false} NoPairNoStraddle(pieces: seq<Word>, window: Word, offset: nat)
    requires 0 < offset < |window| && !SideBySide(pieces, window[offset - 1], window[offset])
    ensures !Straddled(pieces, window, offset)
  {
    if text, p: nat, start: nat, end: nat :| StraddledAt(pieces, text, window, p, offset, start, end) {
      StraddlerAgrees(pieces, text, window, p, offset, start, end);
    }
  }

  lemma {:induction false} NoneStraddles(pieces: seq<Word>, window: Word, offset: nat)
    requires 0 < offset < |window|
    requires forall k: nat, j: nat | k < |pieces| && 0 < j < |pieces[k]| :: !AgreesAt(window, offset, pieces[k], j)
    ensures !Straddled(pieces, window, offset)
  {
    hide AgreesAt;
    if text, p: nat, start: nat, end: nat :| StraddledAt(pieces, text, window, p, offset, start, end) {
      StraddlerAgrees(pieces, text, window, p, offset, start, end);
    }
  }

  /** A certified offset is a boundary of every segmentation, at every occurrence of the window. */
  lemma {:induction false} CertifiedIsCut(
      pieces: seq<Word>, window: Word, offset: nat, text: Word, p: nat, bounds: seq<nat>)
    requires 0 < offset < |window| && !Straddled(pieces, window, offset)
    requires OccursAt(text, window, p) && Cuts(pieces, text, bounds)
    ensures p + offset in bounds
  {
    forall start: nat, end: nat | PieceAt(pieces, text, start, end) ensures !(start < p + offset < end) {
      assert !StraddledAt(pieces, text, window, p, offset, start, end);
    }
    hide PieceAt;
    StraddleFreeIsCut(pieces, text, bounds, p + offset);
  }
}

/**
  Deciding a window certificate over byte-pair encodings: does every encoding holding the window
  cover its last byte from the origin?
 */
module Miscovering {
  import opened Options
  import opened Machine
  import opened Suffixes
  import opened MergeTable
  import opened MergePasses
  import opened TokenAutomaton
  import opened TokenRuns

  /** The automaton's state beside the length of the window's prefix already read. */
  datatype Node = Node(state: nat, spelled: nat)

  /** The automaton's tables and the certificate decided on them. */
  datatype Task = Task(table: seq<Merge>, entries: seq<Entry>, states: seq<Copy>, window: Word, origin: nat) {

    /** The tables are the token automaton of the whole merge table. */
    ghost predicate Told() {
      && Admissible(table) && window != []
      && TellsTokens(table, |table|, entries, states)
      && TellsPairs(table, |table|, entries, states)
    }

    predicate HasTarget(t: Token) {
      t < |entries| && entries[t].target.Some?
    }

    /** The state reads the token. */
    ghost predicate Reads(q: nat, t: Token) {
      Told() && q < |states| && HasTarget(t) && Walks(table, states, q, t)
    }

    ghost predicate InWindow(node: Node) {
      node.state < |states| && 1 <= node.spelled < |window|
    }

    /** No canonical token holds the window but at its start with the origin zero. */
    ghost predicate NoneHolds() {
      forall t: nat, p: nat | HasTarget(t) && OccursAt(entries[t].spelling, window, p) :: p == 0 && origin == 0
    }

    /** The tokens ending with the window's first k bytes enter nodes. */
    ghost predicate SeedsIn(nodes: set<Node>, k: nat)
      requires k <= |window|
    {
      forall t: nat | HasTarget(t) && EndsWith(entries[t].spelling, window[..k]) ::
        Node(entries[t].target.value, k) in nodes
    }

    ghost predicate Seeded(nodes: set<Node>) {
      forall k | 1 <= k < |window| :: SeedsIn(nodes, k)
    }

    /** No readable token covers the rest of the window from a node off the origin. */
    ghost predicate NoneCovers(node: Node)
      requires InWindow(node)
    {
      node.spelled != origin ==>
        forall t: nat | Reads(node.state, t) :: !StartsWith(entries[t].spelling, window[node.spelled..])
    }

    /** Every readable token the window's next bytes spell, ending before a bound, enters a node. */
    ghost predicate FollowsIn(nodes: set<Node>, node: Node, upTo: nat)
      requires InWindow(node) && upTo <= |window|
    {
      forall t: nat, next: nat
        | node.spelled < next < upTo && Reads(node.state, t) && entries[t].spelling == window[node.spelled..next] ::
        Node(entries[t].target.value, next) in nodes
    }

    ghost predicate Finished(nodes: set<Node>, node: Node) {
      InWindow(node) && NoneCovers(node) && FollowsIn(nodes, node, |window|)
    }

    ghost predicate Exhausted(nodes: set<Node>) {
      Seeded(nodes) && forall node | node in nodes :: Finished(nodes, node)
    }

    /** The run ends over the node's part of the window and enters its state. */
    ghost predicate RunEnters(run: seq<Token>, node: Node) {
      && PartsEarlier(table) && IsRun(table, window, run, node.spelled) && node.state < |states|
      && Last(run) < |entries| && entries[Last(run)].target == Some(node.state)
    }

    /** The tokens are an encoding whose text holds the window at p. */
    ghost predicate HoldsAt(tokens: seq<Token>, p: nat) {
      PartsEarlier(table) && Canonical(table, |table|, tokens) && OccursAt(SpellingOf(table, tokens), window, p)
    }

    /** The i-th token ends past the occurrence's start and entered a node there. */
    ghost predicate Entered(nodes: set<Node>, tokens: seq<Token>, p: nat, i: nat)
      requires PartsEarlier(table) && Under(tokens, ProductOf(|table|))
    {
      && i < |tokens| && HasTarget(tokens[i])
      && p < Start(table, tokens, i + 1)
      && Node(entries[tokens[i]].target.value, Start(table, tokens, i + 1) - p) in nodes
    }
  }

  // ----- what an exhausted search rules out -----

  lemma {:induction false} TokenHasTarget(k: Task, tokens: seq<Token>, i: nat)
    requires k.Told() && Canonical(k.table, |k.table|, tokens) && i < |tokens|
    ensures k.HasTarget(tokens[i]) && k.entries[tokens[i]].spelling == Spelling(k.table, tokens[i])
    ensures k.entries[tokens[i]].target.value < |k.states|
  {
    Adjacency(k.table, |k.table|, tokens);
    assert tokens[i] < ProductOf(|k.table|);
    assert Canonical(k.table, |k.table|, [tokens[i]]);
    hide Canonical, CanonicalPair, Walks, Spelling;
  }

  /** Neighbours of an encoding are readable one from the other's state. */
  lemma {:induction false} NeighbourReadable(k: Task, tokens: seq<Token>, i: nat)
    requires k.Told() && Canonical(k.table, |k.table|, tokens) && i + 1 < |tokens|
    ensures k.HasTarget(tokens[i]) && k.Reads(k.entries[tokens[i]].target.value, tokens[i + 1])
  {
    TokenHasTarget(k, tokens, i);
    TokenHasTarget(k, tokens, i + 1);
    Adjacency(k.table, |k.table|, tokens);
    assert CanonicalPair(k.table, |k.table|, tokens[i], tokens[i + 1]);
    hide Canonical, CanonicalPair, Walks, Spelling;
  }

  /** The token over the window's first byte, ending inside it, ends with the window's first bytes. */
  lemma {:induction false} SeedPiece(k: Task, tokens: seq<Token>, p: nat, i: nat)
    requires k.Told() && k.HoldsAt(tokens, p)
    requires CoversByte(k.table, tokens, i, p) && Start(k.table, tokens, i + 1) < p + |k.window|
    ensures k.HasTarget(tokens[i])
    ensures EndsWith(k.entries[tokens[i]].spelling, k.window[..Start(k.table, tokens, i + 1) - p])
  {
    hide Start, SpellingOf, Spelling, EndsWith, OccursAt, Task.Told;
    CanonicalUnder(k.table, |k.table|, tokens);
    hide Canonical;
    TokenHasTarget(k, tokens, i);
    StartNext(k.table, tokens, i);
    PieceEnds(SpellingOf(k.table, tokens), k.window, p, Start(k.table, tokens, i), Start(k.table, tokens, i + 1));
  }

  /** It enters a node of an exhausted search. */
  lemma {:induction false} SeedIsReached(k: Task, nodes: set<Node>, tokens: seq<Token>, p: nat, i: nat)
    requires k.Told() && k.Seeded(nodes) && k.HoldsAt(tokens, p)
    requires CoversByte(k.table, tokens, i, p) && Start(k.table, tokens, i + 1) < p + |k.window|
    ensures k.Entered(nodes, tokens, p, i)
  {
    hide Start, Canonical, SpellingOf, Spelling, EndsWith, OccursAt, Task.Told;
    SeedPiece(k, tokens, p, i);
    CanonicalUnder(k.table, |k.table|, tokens);
    hide Task.HoldsAt;
    assert k.SeedsIn(nodes, Start(k.table, tokens, i + 1) - p);
  }

  lemma {:induction false} StepIsReached(k: Task, nodes: set<Node>, node: Node, t: Token, next: nat)
    requires k.Exhausted(nodes) && node in nodes && k.Reads(node.state, t)
    requires node.spelled < next < |k.window| && k.entries[t].spelling == k.window[node.spelled..next]
    ensures Node(k.entries[t].target.value, next) in nodes
  {
    assert k.Finished(nodes, node);
    hide Walks;
  }

  /** The node a token entered reads the token after it. */
  lemma {:induction false} EnteredReads(k: Task, nodes: set<Node>, tokens: seq<Token>, p: nat, i: nat)
    returns (node: Node)
    requires EntersHeld(k, nodes, tokens, i, p) && i + 1 < |tokens|
    ensures ReadsHeld(k, nodes, tokens, i + 1, p, node)
  {
    hide Start, SpellingOf, Spelling, Canonical, OccursAt, Task.Told, Task.Reads;
    NeighbourReadable(k, tokens, i);
    node := Node(k.entries[tokens[i]].target.value, Start(k.table, tokens, i + 1) - p);
  }

  /** The node stands where the token begins in the occurrence, and reads it. */
  ghost predicate ReadsHeld(k: Task, nodes: set<Node>, tokens: seq<Token>, j: nat, p: nat, node: Node) {
    && k.Told() && k.HoldsAt(tokens, p) && Under(tokens, ProductOf(|k.table|))
    && j < |tokens| && node in nodes && k.Reads(node.state, tokens[j])
    && p <= Start(k.table, tokens, j) && node.spelled == Start(k.table, tokens, j) - p
  }

  /** A token inside the window after one that entered a node enters a node too. */
  lemma {:induction false} NextIsReached(k: Task, nodes: set<Node>, tokens: seq<Token>, p: nat, i: nat)
    requires k.Told() && k.Exhausted(nodes) && k.HoldsAt(tokens, p) && k.Entered(nodes, tokens, p, i)
    requires i + 1 < |tokens| && Start(k.table, tokens, i + 2) < p + |k.window|
    ensures k.Entered(nodes, tokens, p, i + 1)
  {
    hide Start, SpellingOf, Spelling, Canonical, OccursAt;
    assert Under(tokens, ProductOf(|k.table|)) by {
      CanonicalUnder(k.table, |k.table|, tokens);
    }
    NeighbourReadable(k, tokens, i);
    TokenHasTarget(k, tokens, i + 1);
    StartNext(k.table, tokens, i + 1);
    var a, b := Start(k.table, tokens, i + 1), Start(k.table, tokens, i + 2);
    PieceInside(SpellingOf(k.table, tokens), k.window, p, a, b);
    StepIsReached(k, nodes, Node(k.entries[tokens[i]].target.value, a - p), tokens[i + 1], b - p);
  }

  lemma CanonicalUnder(table: seq<Merge>, cutoff: nat, tokens: seq<Token>)
    requires PartsEarlier(table) && cutoff <= |table| && Canonical(table, cutoff, tokens)
    ensures Under(tokens, ProductOf(cutoff))
  {
  }

  ghost predicate CoversHeld(k: Task, tokens: seq<Token>, i: nat, p: nat) {
    k.Told() && k.HoldsAt(tokens, p) && CoversByte(k.table, tokens, i, p)
  }

  /** The first j tokens end before the occurrence does. */
  ghost predicate EndsInside(k: Task, tokens: seq<Token>, j: nat, p: nat) {
    k.Told() && k.HoldsAt(tokens, p) && j <= |tokens| && Start(k.table, tokens, j) < p + |k.window|
  }

  lemma {:induction false} InsideSooner(k: Task, tokens: seq<Token>, j: nat, p: nat)
    requires 0 < j && EndsInside(k, tokens, j, p)
    ensures EndsInside(k, tokens, j - 1, p)
  {
    StartsIncrease(k.table, tokens, j - 1, j);
  }

  ghost predicate EntersHeld(k: Task, nodes: set<Node>, tokens: seq<Token>, i: nat, p: nat) {
    && k.Told() && k.HoldsAt(tokens, p)
    && Under(tokens, ProductOf(|k.table|)) && k.Entered(nodes, tokens, p, i)
  }

  lemma {:induction false} FirstEnters(k: Task, nodes: set<Node>, tokens: seq<Token>, i: nat, p: nat)
    requires k.Exhausted(nodes) && CoversHeld(k, tokens, i, p) && EndsInside(k, tokens, i + 1, p)
    ensures EntersHeld(k, nodes, tokens, i, p)
  {
    CanonicalUnder(k.table, |k.table|, tokens);
    assert k.Seeded(nodes);
    hide Start, Task.Told, Task.Exhausted, Task.Entered, Task.Seeded, CoversByte, Canonical, Under, SpellingOf,
      OccursAt;
    SeedIsReached(k, nodes, tokens, p, i);
  }

  lemma {:induction false} NextEnters(k: Task, nodes: set<Node>, tokens: seq<Token>, i: nat, p: nat)
    requires k.Exhausted(nodes) && EntersHeld(k, nodes, tokens, i, p) && EndsInside(k, tokens, i + 2, p)
    ensures EntersHeld(k, nodes, tokens, i + 1, p)
  {
    hide Start, Task.Told, Task.Exhausted, Task.Entered, Task.HoldsAt, Under;
    NextIsReached(k, nodes, tokens, p, i);
  }

  /**
    Along an encoding that holds the window at p, every token ending inside the window enters a node
    of an exhausted search.
   */
  lemma {:induction false} RunIsReached(k: Task, nodes: set<Node>, tokens: seq<Token>, p: nat, i: nat, j: nat)
    requires k.Exhausted(nodes) && i < j && CoversHeld(k, tokens, i, p) && EndsInside(k, tokens, j, p)
    ensures EntersHeld(k, nodes, tokens, j - 1, p)
    decreases j
  {
    hide *;
    if j == i + 1 {
      FirstEnters(k, nodes, tokens, i, p);
    } else {
      InsideSooner(k, tokens, j, p);
      RunIsReached(k, nodes, tokens, p, i, j - 1);
      NextEnters(k, nodes, tokens, j - 2, p);
    }
  }

  /** One token over the whole occurrence starts where the certificate says. */
  lemma {:induction false} HeldIsRuledOut(k: Task, tokens: seq<Token>, p: nat, i: nat)
    requires k.Told() && k.NoneHolds() && k.HoldsAt(tokens, p)
    requires CoversByte(k.table, tokens, i, p) && CoversByte(k.table, tokens, i, p + |k.window| - 1)
    ensures Start(k.table, tokens, i) == p + k.origin
  {
    TokenHasTarget(k, tokens, i);
    StartNext(k.table, tokens, i);
    var text, a, b := SpellingOf(k.table, tokens), Start(k.table, tokens, i), Start(k.table, tokens, i + 1);
    hide Start, Canonical, SpellingOf, Spelling;
    PieceHolds(text, k.window, p, a, b);
    var offset: nat := p - a;
    assert OccursAt(k.entries[tokens[i]].spelling, k.window, offset);
  }

  /** A run of tokens over the occurrence ends in one that starts where the certificate says. */
  lemma {:induction false} ChainIsRuledOut(k: Task, nodes: set<Node>, tokens: seq<Token>, p: nat, i: nat, j: nat)
    requires k.Told() && k.Exhausted(nodes) && k.HoldsAt(tokens, p)
    requires i < j && CoversByte(k.table, tokens, i, p) && CoversByte(k.table, tokens, j, p + |k.window| - 1)
    ensures Start(k.table, tokens, j) == p + k.origin
  {
    hide Start, Task.Exhausted;
    RunIsReached(k, nodes, tokens, p, i, j);
    var node := EnteredReads(k, nodes, tokens, p, j - 1);
    CoverStarts(k, tokens, p, j);
    hide Task.Entered, Task.HoldsAt, Task.Told, Task.Reads, CoversByte;
    CoverIsRuledOut(k, nodes, node, tokens[j]);
  }

  /** A token that begins inside the occurrence and covers its last byte starts with the rest of the window. */
  lemma {:induction false} CoverStarts(k: Task, tokens: seq<Token>, p: nat, j: nat)
    requires k.Told() && k.HoldsAt(tokens, p)
    requires CoversByte(k.table, tokens, j, p + |k.window| - 1) && p <= Start(k.table, tokens, j)
    ensures k.HasTarget(tokens[j]) && Start(k.table, tokens, j) - p <= |k.window|
    ensures StartsWith(k.entries[tokens[j]].spelling, k.window[Start(k.table, tokens, j) - p..])
  {
    CanonicalUnder(k.table, |k.table|, tokens);
    hide Start, SpellingOf, Spelling, Canonical;
    TokenHasTarget(k, tokens, j);
    StartNext(k.table, tokens, j);
    PieceStarts(SpellingOf(k.table, tokens), k.window, p, Start(k.table, tokens, j), Start(k.table, tokens, j + 1));
  }

  lemma {:induction false} CoverIsRuledOut(k: Task, nodes: set<Node>, node: Node, t: Token)
    requires k.Exhausted(nodes) && node in nodes && node.spelled <= |k.window|
    requires k.Reads(node.state, t) && StartsWith(k.entries[t].spelling, k.window[node.spelled..])
    ensures node.spelled == k.origin
  {
    assert k.Finished(nodes, node);
    hide Walks;
  }

  /**
    A search that found no token holding the window and exhausted the runs over it proves the
    certificate for every text.
   */
  lemma {:induction false} ExhaustedCertifies(k: Task, nodes: set<Node>, text: Word, p: nat)
    requires k.Told() && k.NoneHolds() && k.Exhausted(nodes)
    ensures !Miscovers(k.table, k.window, k.origin, text, p)
  {
    var tokens, x := Encoded(k.table, |k.table|, text), p + |k.window| - 1;
    EncodedSpells(k.table, |k.table|, text);
    EncodedIsCanonical(k.table, |k.table|, text);
    StartEnds(k.table, tokens);
    hide Canonical, Encoded, SpellingOf, Start;
    if OccursAt(text, k.window, p) {
      assert k.HoldsAt(tokens, p);
      forall j | CoversByte(k.table, tokens, j, x) ensures Start(k.table, tokens, j) == p + k.origin {
        CoverIsCertified(k, nodes, tokens, p, j);
      }
    }
  }

  lemma {:induction false} CoverIsCertified(k: Task, nodes: set<Node>, tokens: seq<Token>, p: nat, j: nat)
    requires k.Told() && k.NoneHolds() && k.Exhausted(nodes) && k.HoldsAt(tokens, p)
    requires CoversByte(k.table, tokens, j, p + |k.window| - 1)
    ensures Start(k.table, tokens, j) == p + k.origin
  {
    hide Start;
    var i := FirstCovers(k, tokens, p, j);
    if i < j {
      ChainIsRuledOut(k, nodes, tokens, p, i, j);
    } else {
      HeldIsRuledOut(k, tokens, p, i);
    }
  }

  /** The token over the window's first byte is at or before the one over its last. */
  lemma {:induction false} FirstCovers(k: Task, tokens: seq<Token>, p: nat, j: nat) returns (i: nat)
    requires k.Told() && k.HoldsAt(tokens, p) && CoversByte(k.table, tokens, j, p + |k.window| - 1)
    ensures CoversByte(k.table, tokens, i, p) && i <= j
  {
    StartEnds(k.table, tokens);
    i := SomeCovers(k.table, tokens, p, |tokens|);
    if j < i {
      StartsIncrease(k.table, tokens, j + 1, i);
    }
  }

  // ----- the search's moves -----

  /** The step by which a node came to be found: its token, and where from unless it opens a run. */
  datatype Link = Link(previous: Option<Node>, token: Token)

  /** A run's last token is followed exactly by the tokens readable from the node it enters. */
  lemma {:induction false} RunReads(k: Task, run: seq<Token>, node: Node, t: Token)
    requires k.Told() && k.RunEnters(run, node) && k.Reads(node.state, t)
    ensures t < ProductOf(|k.table|) && CanonicalPair(k.table, |k.table|, Last(run), t)
    ensures k.entries[t].spelling == Spelling(k.table, t)
  {
    hide IsRun, CanonicalPair, Canonical, Walks, Spelling;
  }

  /** One token more takes a run into the node that token enters. */
  lemma {:induction false} RunEntersNext(k: Task, run: seq<Token>, node: Node, t: Token, next: nat)
    requires k.Told() && k.RunEnters(run, node) && k.Reads(node.state, t)
    requires node.spelled < next < |k.window| && k.entries[t].spelling == k.window[node.spelled..next]
    ensures k.RunEnters(run + [t], Node(k.entries[t].target.value, next))
  {
    RunReads(k, run, node, t);
    RunMore(k.table, k.window, run, node.spelled, t, next);
    hide IsRun, CanonicalPair, Canonical, Walks, Spelling;
  }

  lemma {:induction false} SeedEnters(k: Task, t: Token, n: nat)
    requires k.Told() && 1 <= n < |k.window| && k.HasTarget(t) && EndsWith(k.entries[t].spelling, k.window[..n])
    ensures k.RunEnters([t], Node(k.entries[t].target.value, n))
  {
    SeedIsRun(k.table, k.window, t, n);
    hide IsRun, Canonical, Walks, Spelling;
  }

  lemma {:induction false} FinishedInMore(k: Task, nodes: set<Node>, more: set<Node>, node: Node)
    requires nodes <= more && k.Finished(nodes, node)
    ensures k.Finished(more, node)
  {
    hide Walks;
  }

  lemma SeedsInMore(k: Task, nodes: set<Node>, more: set<Node>, n: nat)
    requires nodes <= more && n <= |k.window| && k.SeedsIn(nodes, n)
    ensures k.SeedsIn(more, n)
  {
  }

  lemma {:induction false} FollowsOneMore(k: Task, nodes: set<Node>, more: set<Node>, node: Node, next: nat)
    requires k.InWindow(node) && node.spelled < next < |k.window| && nodes <= more && k.FollowsIn(nodes, node, next)
    requires forall t: nat | k.Reads(node.state, t) && k.entries[t].spelling == k.window[node.spelled..next] ::
               Node(k.entries[t].target.value, next) in more
    ensures k.FollowsIn(more, node, next + 1)
  {
    hide Walks;
  }

  /** Past the greatest spelling length no token is left to try. */
  lemma {:induction false} LongerNamesNone(k: Task, nodes: set<Node>, node: Node, longest: nat, upTo: nat)
    requires k.InWindow(node) && upTo <= |k.window| && k.FollowsIn(nodes, node, upTo)
    requires upTo == |k.window| || upTo == node.spelled + longest + 1
    requires forall t: nat | t < |k.entries| :: |k.entries[t].spelling| <= longest
    ensures k.FollowsIn(nodes, node, |k.window|)
  {
    hide Walks;
    forall t: nat, next: nat
      | node.spelled < next < |k.window| && k.Reads(node.state, t)
        && k.entries[t].spelling == k.window[node.spelled..next]
      ensures Node(k.entries[t].target.value, next) in nodes
    {
      assert |k.entries[t].spelling| == next - node.spelled;
    }
  }

  // ----- the links -----

  /** The run a node's links lead back along. */
  ghost predicate Traces(k: Task, links: map<Node, Link>, runs: map<Node, seq<Token>>, node: Node) {
    node in links && node in runs && Extends(k, runs, node, links[node], runs[node])
  }

  /** The run to the node extends one already reached by the link's token, or is that token alone. */
  ghost predicate Extends(k: Task, runs: map<Node, seq<Token>>, node: Node, link: Link, run: seq<Token>) {
    && link.token < |k.entries|
    && match link.previous
       case None => run == [link.token]
       case Some(before) =>
         && before in runs && run == runs[before] + [link.token]
         && node.spelled == before.spelled + |k.entries[link.token].spelling|
  }

  /** Every node reached is one that a run its links lead back along enters. */
  ghost predicate Linked(k: Task, links: map<Node, Link>, runs: map<Node, seq<Token>>) {
    links.Keys == runs.Keys && forall node | node in links ::
      Traces(k, links, runs, node) && k.RunEnters(runs[node], node)
  }

  /** The nodes not waiting are finished. */
  ghost predicate Searching(k: Task, nodes: set<Node>, waiting: set<Node>) {
    waiting <= nodes && forall node | node in nodes && node !in waiting :: k.Finished(nodes, node)
  }

  lemma LinkedRun(k: Task, links: map<Node, Link>, runs: map<Node, seq<Token>>, node: Node)
    requires Linked(k, links, runs) && node in links
    ensures node in runs && k.RunEnters(runs[node], node)
  {
  }

  /** A readable token inside the window extends the run of a node reached. */
  lemma {:induction false} LinkEnters(
      k: Task, links: map<Node, Link>, runs: map<Node, seq<Token>>, node: Node, t: Token, next: nat)
    requires k.Told() && Linked(k, links, runs) && node in links && k.Reads(node.state, t)
    requires node.spelled < next < |k.window| && k.entries[t].spelling == k.window[node.spelled..next]
    ensures node in runs && k.RunEnters(runs[node] + [t], Node(k.entries[t].target.value, next))
    ensures Extends(k, runs, Node(k.entries[t].target.value, next), Link(Some(node), t), runs[node] + [t])
  {
    hide IsRun, Walks, Task.RunEnters, Task.Told;
    LinkedRun(k, links, runs, node);
    hide Linked;
    RunEntersNext(k, runs[node], node, t, next);
  }

  lemma {:induction false} ReachLinks(
      k: Task, links: map<Node, Link>, runs: map<Node, seq<Token>>, node: Node, link: Link, run: seq<Token>)
    requires Linked(k, links, runs) && node !in links && k.RunEnters(run, node) && Extends(k, runs, node, link, run)
    ensures Linked(k, links[node := link], runs[node := run])
  {
    hide IsRun, Last;
    var more, longer := links[node := link], runs[node := run];
    forall n | n in more ensures Traces(k, more, longer, n) {
      assert n != node ==> Traces(k, links, runs, n);
    }
  }

  /** A node found anew waits. */
  lemma {:induction false} ReachSearching(k: Task, nodes: set<Node>, waiting: set<Node>, node: Node)
    requires Searching(k, nodes, waiting)
    ensures Searching(k, nodes + {node}, waiting + {node})
  {
    var more := nodes + {node};
    forall n | n in more && n !in waiting + {node} ensures k.Finished(more, n) {
      FinishedInMore(k, nodes, more, n);
    }
  }

  ghost function Nodes(frontier: seq<Node>): set<Node> {
    set node | node in frontier
  }

  // ----- following the links back -----

  /** The run to a node and the one to a node on its way begin with the same token and place the occurrence alike. */
  ghost predicate Traced(k: Task, runs: map<Node, seq<Token>>, node: Node, at: Node) {
    && node in runs && at in runs && k.RunEnters(runs[node], node) && k.RunEnters(runs[at], at)
    && |SpellingOf(k.table, runs[node])| - node.spelled == |SpellingOf(k.table, runs[at])| - at.spelled
    && runs[at][0] == runs[node][0]
  }

  lemma {:induction false} LinkTraces(
      k: Task, links: map<Node, Link>, runs: map<Node, seq<Token>>, node: Node, at: Node)
    requires k.Told() && Linked(k, links, runs) && at in links && Traced(k, runs, node, at)
    ensures match links[at].previous
            case None => runs[at] == [links[at].token]
            case Some(before) =>
              && before in links && before in runs && Traced(k, runs, node, before)
              && runs[at] == runs[before] + [links[at].token]
  {
    assert Traces(k, links, runs, at);
    match links[at].previous
    case None =>
    case Some(before) =>
      RunUnder(k, runs[before], before);
      SpellingSnoc(k.table, runs[before], links[at].token);
      hide Spelling, SpellingOf, Canonical, Walks;
  }

  lemma RunUnder(k: Task, run: seq<Token>, node: Node)
    requires k.RunEnters(run, node)
    ensures Under(run, ProductOf(|k.table|)) && run != []
  {
  }

  /**
    The run enters the node, and the occurrence starts in its first token, as many bytes before that
    token's end as the seed spells.
   */
  ghost predicate SeededRun(k: Task, run: seq<Token>, node: Node, seed: Node) {
    && k.RunEnters(run, node)
    && run[0] < |k.entries| && seed.spelled <= |k.entries[run[0]].spelling|
    && |SpellingOf(k.table, run)| - node.spelled == |k.entries[run[0]].spelling| - seed.spelled
  }

  /** The links followed back so far: the tokens read off, and what is left of the run. */
  ghost predicate Following(
      k: Task, links: map<Node, Link>, runs: map<Node, seq<Token>>, node: Node, at: Option<Node>, run: seq<Token>,
      seed: Node)
  {
    && node in runs && Traced(k, runs, node, seed)
    && match at
       case Some(n) => n in links && n in runs && Traced(k, runs, node, n) && runs[n] + run == runs[node]
       case None => seed in runs && |runs[seed]| == 1 && run == runs[node]
  }

  lemma FollowingStarts(k: Task, links: map<Node, Link>, runs: map<Node, seq<Token>>, node: Node)
    requires Linked(k, links, runs) && node in links
    ensures Following(k, links, runs, node, Some(node), [], node)
  {
  }

  lemma {:induction false} FollowingSteps(
      k: Task, links: map<Node, Link>, runs: map<Node, seq<Token>>, node: Node, at: Node, run: seq<Token>, seed: Node)
    requires k.Told() && Linked(k, links, runs) && Following(k, links, runs, node, Some(at), run, seed)
    ensures at in links && at in runs
    ensures Following(k, links, runs, node, links[at].previous, [links[at].token] + run, at)
    ensures links[at].previous.Some? ==>
              links[at].previous.value in runs && |runs[links[at].previous.value]| < |runs[at]|
  {
    hide Traced, Task.Told, Task.RunEnters, Linked;
    LinkTraces(k, links, runs, node, at);
    match links[at].previous
    case None =>
    case Some(before) =>
      assert runs[before] + ([links[at].token] + run) == runs[at] + run;
  }

  lemma {:induction false} FollowingEnds(
      k: Task, links: map<Node, Link>, runs: map<Node, seq<Token>>, node: Node, run: seq<Token>, seed: Node)
    requires k.Told() && Following(k, links, runs, node, None, run, seed)
    ensures SeededRun(k, run, node, seed)
  {
    RunUnder(k, runs[seed], seed);
    var t := runs[seed][0];
    assert runs[seed] == [t];
    SpellingOfOne(k.table, t);
    hide Spelling, SpellingOf, Canonical, Walks;
  }

  /** Every node a search can reach. */
  ghost function Universe(states: nat, length: nat): set<Node> {
    set q, n | 0 <= q < states && 0 <= n < length :: Node(q, n)
  }

  // ----- one token over the whole window -----

  /** The first occurrence of the window at or after a position. */
  method Find(s: Word, window: Word, from: nat) returns (first: Option<nat>)
    ensures first.Some? ==> first.value >= from && OccursAt(s, window, first.value)
    ensures forall p: nat | from <= p && (first.Some? ==> p < first.value) :: !OccursAt(s, window, p)
  {
    var p := from;
    while p + |window| <= |s|
      invariant from <= p
      invariant forall q: nat | from <= q < p :: !OccursAt(s, window, q)
      decreases |s| - p
    {
      if s[p..p + |window|] == window {
        return Some(p);
      }
      p := p + 1;
    }
    first := None;
  }

  /** The first canonical token that holds the window and misses the origin by itself. */
  method HeldMiscovering(automaton: Automaton, window: Word, origin: nat) returns (found: Option<Found>)
    requires automaton.Valid() && window != []
    ensures found.Some? ==> Miscovers(automaton.table, window, origin, found.value.bytes, found.value.occurrence)
    ensures found.Some? ==> MarksEncoding(automaton.table, found.value)
    ensures found.None? ==> Task(automaton.table, automaton.entries, automaton.states, window, origin).NoneHolds()
  {
    hide TellsPairs, Spelling, Canonical, Miscovers, MarksEncoding;
    ghost var k := Task(automaton.table, automaton.entries, automaton.states, window, origin);
    for token := 0 to |automaton.entries|
      invariant forall t: nat, p: nat | t < token && k.HasTarget(t) && OccursAt(k.entries[t].spelling, window, p) ::
                  p == 0 && origin == 0
    {
      var spelling := automaton.entries[token].spelling;
      if automaton.entries[token].target.Some? {
        var first := Find(spelling, window, 0);
        var occurrence := first;
        if first == Some(0) && origin == 0 {
          occurrence := Find(spelling, window, 1);
        }
        if occurrence.Some? {
          HeldMiscovers(automaton.table, window, origin, token, occurrence.value);
          TokenMarks(automaton.table, token, occurrence.value);
          return Some(Found(spelling, seq(|spelling|, _ => false), occurrence.value));
        }
      }
    }
    found := None;
  }

  // ----- runs of two or more tokens -----

  /**
    The canonical tokens whose spelling starts with the rest of the window, for each number of bytes
    spelled but zero and the origin.
   */
  ghost predicate ListsCoveringAt(k: Task, tokens: seq<Token>, n: nat)
    requires n <= |k.window|
  {
    forall t: nat :: t in tokens <==>
      n != k.origin && k.HasTarget(t) && StartsWith(k.entries[t].spelling, k.window[n..])
  }

  ghost predicate ListsCovering(k: Task, covering: seq<seq<Token>>) {
    |covering| == |k.window| && forall n | 1 <= n < |k.window| :: ListsCoveringAt(k, covering[n], n)
  }

  lemma {:induction false} ListedCover(k: Task, node: Node, tokens: seq<Token>)
    requires k.InWindow(node) && ListsCoveringAt(k, tokens, node.spelled)
    requires forall i | 0 <= i < |tokens| :: !k.Reads(node.state, tokens[i])
    ensures k.NoneCovers(node)
  {
    hide Walks;
    forall t: nat | node.spelled != k.origin && k.Reads(node.state, t)
      ensures !StartsWith(k.entries[t].spelling, k.window[node.spelled..])
    {
      assert t !in tokens;
    }
  }

  method CoveringTokens(automaton: Automaton, window: Word, origin: nat) returns (covering: seq<seq<Token>>)
    requires automaton.Valid() && window != []
    ensures ListsCovering(Task(automaton.table, automaton.entries, automaton.states, window, origin), covering)
  {
    ghost var task := Task(automaton.table, automaton.entries, automaton.states, window, origin);
    covering := [[]];
    for k := 1 to |window|
      invariant |covering| == k
      invariant forall j | 1 <= j < k :: ListsCoveringAt(task, covering[j], j)
    {
      var tokens: seq<Token> := [];
      if k != origin {
        tokens := TokensStarting(automaton, window[k..]);
      }
      assert ListsCoveringAt(task, tokens, k);
      hide ListsCoveringAt;
      covering := covering + [tokens];
    }
  }

  method TokensStarting(automaton: Automaton, rest: Word) returns (tokens: seq<Token>)
    requires automaton.Valid()
    ensures forall t: nat :: t in tokens <==>
              t < |automaton.entries| && automaton.entries[t].target.Some?
                && StartsWith(automaton.entries[t].spelling, rest)
  {
    hide TellsTokens, TellsPairs;
    tokens := [];
    for token := 0 to |automaton.entries|
      invariant forall t: nat :: t in tokens <==>
                  t < token && automaton.entries[t].target.Some? && StartsWith(automaton.entries[t].spelling, rest)
    {
      if automaton.entries[token].target.Some? && StartsWith(automaton.entries[token].spelling, rest) {
        tokens := tokens + [token];
      }
    }
  }

  // ----- marking a run's boundaries -----

  /** A mark after every one of the first i tokens, and nowhere else before where they end. */
  ghost predicate MarksUpTo(table: seq<Merge>, run: seq<Token>, i: nat, boundaries: seq<bool>)
    requires PartsEarlier(table) && Under(run, ProductOf(|table|)) && i <= |run|
  {
    && |boundaries| == Start(table, run, i)
    && forall x | 0 <= x < |boundaries| ::
         boundaries[x] <==> exists j | 0 < j <= i :: Start(table, run, j) == x + 1
  }

  lemma {:induction false} MarksMore(table: seq<Merge>, run: seq<Token>, i: nat, boundaries: seq<bool>, more: seq<bool>)
    requires PartsEarlier(table) && Under(run, ProductOf(|table|)) && i < |run| && MarksUpTo(table, run, i, boundaries)
    requires |more| == |boundaries| + |Spelling(table, run[i])| && boundaries <= more
    requires forall x | |boundaries| <= x < |more| :: more[x] <==> x == |more| - 1
    ensures MarksUpTo(table, run, i + 1, more)
  {
    StartNext(table, run, i);
    hide Start, Spelling;
    forall x | 0 <= x < |more| ensures more[x] <==> exists j | 0 < j <= i + 1 :: Start(table, run, j) == x + 1 {
      if more[x] {
        if x < |boundaries| {
          var j :| 0 < j <= i && Start(table, run, j) == x + 1;
          assert 0 < j <= i + 1;
        } else {
          assert Start(table, run, i + 1) == x + 1;
        }
      }
      if j :| 0 < j <= i + 1 && Start(table, run, j) == x + 1 {
        if j <= i {
          StartsIncrease(table, run, j, i);
          assert boundaries[x];
        }
      }
    }
  }

  lemma {:induction false} MarksAll(table: seq<Merge>, run: seq<Token>, boundaries: seq<bool>)
    requires PartsEarlier(table) && Under(run, ProductOf(|table|)) && run != []
    requires MarksUpTo(table, run, |run|, boundaries)
    ensures boundaries != [] && MarksTokens(table, run, boundaries[|boundaries| - 1 := false])
  {
    StartEnds(table, run);
    StartNext(table, run, |run| - 1);
    var marks := boundaries[|boundaries| - 1 := false];
    hide Start;
    forall x | 0 <= x < |marks| ensures marks[x] <==> exists i | 0 < i < |run| :: Start(table, run, i) == x + 1 {
      if marks[x] {
        var j :| 0 < j <= |run| && Start(table, run, j) == x + 1;
        assert j < |run|;
      }
      if i :| 0 < i < |run| && Start(table, run, i) == x + 1 {
        StartsIncrease(table, run, i, |run|);
        assert 0 < i <= |run|;
      }
    }
  }

  /** A run's spelling, with a boundary after each token but the last. */
  method MarkedRun(automaton: Automaton, run: seq<Token>) returns (bytes: Word, boundaries: seq<bool>)
    requires automaton.Valid() && run != [] && Under(run, ProductOf(|automaton.table|))
    ensures bytes == SpellingOf(automaton.table, run) && MarksTokens(automaton.table, run, boundaries)
  {
    hide TellsPairs, Canonical, Spelling, MarksUpTo;
    bytes, boundaries := [], [];
    NothingMarked(automaton.table, run);
    for i := 0 to |run|
      invariant bytes == SpellingOf(automaton.table, run[..i]) && |bytes| == |boundaries|
      invariant MarksUpTo(automaton.table, run, i, boundaries)
    {
      var spelling := automaton.entries[run[i]].spelling;
      SpelledNonempty(automaton.table, run[i]);
      var more := boundaries + seq(|spelling| - 1, _ => false) + [true];
      MarksMore(automaton.table, run, i, boundaries, more);
      assert run[..i + 1] == run[..i] + [run[i]];
      SpellingSnoc(automaton.table, run[..i], run[i]);
      bytes, boundaries := bytes + spelling, more;
    }
    assert run[..|run|] == run;
    MarksAll(automaton.table, run, boundaries);
    boundaries := boundaries[|boundaries| - 1 := false];
  }

  lemma NothingMarked(table: seq<Merge>, run: seq<Token>)
    requires PartsEarlier(table) && Under(run, ProductOf(|table|))
    ensures MarksUpTo(table, run, 0, [])
  {
  }

  class Search {
    const automaton: Automaton
    const window: Word
    const origin: nat
    var links: map<Node, Link>
    var frontier: seq<Node>
    ghost const task: Task
    ghost var runs: map<Node, seq<Token>>

    ghost predicate Poses()
      reads automaton
    {
      automaton.Valid() && task.Told()
    }

    /** The nodes neither on the frontier nor being expanded are finished. */
    ghost predicate Valid(expanding: set<Node>)
      reads this, automaton
    {
      && window != [] && task == Task(automaton.table, automaton.entries, automaton.states, window, origin)
      && Poses() && Linked(task, links, runs) && Searching(task, links.Keys, Nodes(frontier) + expanding)
    }

    constructor (automaton: Automaton, window: Word, origin: nat)
      requires automaton.Valid() && window != []
      ensures Valid({}) && links == map[]
      ensures this.automaton == automaton && this.window == window && this.origin == origin
    {
      this.automaton, this.window, this.origin := automaton, window, origin;
      task := Task(automaton.table, automaton.entries, automaton.states, window, origin);
      links, frontier, runs := map[], [], map[];
    }

    /** Links and queues a node on first sight; a known node is left alone. */
    method Reach(node: Node, link: Link, ghost run: seq<Token>, ghost expanding: set<Node>)
      requires Valid(expanding) && task.RunEnters(run, node) && Extends(task, runs, node, link, run)
      modifies this
      ensures Valid(expanding) && node in links && old(links).Keys <= links.Keys
      ensures links.Keys == old(links).Keys ==> frontier == old(frontier)
    {
      hide Linked, Searching, Poses;
      if node !in links {
        ReachLinks(task, links, runs, node, link, run);
        ReachSearching(task, links.Keys, Nodes(frontier) + expanding, node);
        assert Nodes(frontier + [node]) + expanding == Nodes(frontier) + expanding + {node};
        assert links[node := link].Keys == links.Keys + {node};
        links, frontier, runs := links[node := link], frontier + [node], runs[node := run];
      }
    }

    /** The nodes of the tokens ending with the window's first bytes. */
    method Seed(spelled: nat)
      requires Valid({}) && 1 <= spelled < |window|
      modifies this
      ensures Valid({}) && old(links).Keys <= links.Keys && task.SeedsIn(links.Keys, spelled)
    {
      hide Linked, Searching, TellsTokens, TellsPairs;
      for token := 0 to |automaton.entries|
        invariant Valid({}) && old(links).Keys <= links.Keys
        invariant forall t: nat | t < token && task.HasTarget(t)
          && EndsWith(task.entries[t].spelling, window[..spelled]) ::
                    Node(task.entries[t].target.value, spelled) in links.Keys
      {
        var entry := automaton.entries[token];
        if entry.target.Some? && EndsWith(entry.spelling, window[..spelled]) {
          SeedEnters(task, token, spelled);
          hide Task.RunEnters;
          Reach(Node(entry.target.value, spelled), Link(None, token), [token], {});
        }
      }
    }

    method SeedAll()
      requires Valid({})
      modifies this
      ensures Valid({}) && task.Seeded(links.Keys)
    {
      hide Linked, Searching, Task.SeedsIn, Poses;
      for spelled := 1 to |window|
        invariant Valid({})
        invariant forall k | 1 <= k < spelled :: task.SeedsIn(links.Keys, k)
      {
        label before:
        Seed(spelled);
        forall k | 1 <= k < spelled ensures task.SeedsIn(links.Keys, k) {
          SeedsInMore(task, old@before(links).Keys, links.Keys, k);
        }
      }
    }

    /** Follows the token the window's next bytes of one length spell, if the node's state reads it. */
    method FollowOne(node: Node, length: nat)
      requires Valid({node}) && node in links && 1 <= length && node.spelled + length < |window|
      requires task.InWindow(node) && task.FollowsIn(links.Keys, node, node.spelled + length)
      modifies this
      ensures Valid({node}) && node in links && old(links).Keys <= links.Keys
      ensures links.Keys == old(links).Keys ==> frontier == old(frontier)
      ensures task.FollowsIn(links.Keys, node, node.spelled + length + 1)
    {
      hide Searching, Linked, Poses, Task.FollowsIn, Task.Reads;
      var next := node.spelled + length;
      var inner := ReadableToken(node, window[node.spelled..next]);
      if inner.Some? {
        Enter(node, inner.value, next);
      }
      FollowsOneMore(task, old(links).Keys, links.Keys, node, next);
    }

    /** Reaches the node a readable token inside the window enters. */
    method Enter(node: Node, token: Token, next: nat)
      requires Valid({node}) && node in links && node.spelled < next < |task.window|
      requires task.Reads(node.state, token) && task.entries[token].spelling == task.window[node.spelled..next]
      modifies this
      ensures Valid({node}) && Node(task.entries[token].target.value, next) in links && old(links).Keys <= links.Keys
      ensures links.Keys == old(links).Keys ==> frontier == old(frontier)
    {
      hide Searching, TellsTokens, TellsPairs, Walks, Linked, Task.RunEnters, Extends, IsRun;
      LinkEnters(task, links, runs, node, token, next);
      Reach(Node(automaton.entries[token].target.value, next), Link(Some(node), token), runs[node] + [token], {node});
    }

    /** Follows the readable tokens the window's next bytes spell from the node being expanded. */
    method Follow(node: Node, longest: nat)
      requires Valid({node}) && node in links && task.InWindow(node)
      requires forall t: nat | t < |task.entries| :: |task.entries[t].spelling| <= longest
      modifies this
      ensures Valid({node}) && node in links && old(links).Keys <= links.Keys
      ensures links.Keys == old(links).Keys ==> frontier == old(frontier)
      ensures task.FollowsIn(links.Keys, node, |task.window|)
    {
      hide Searching, Linked, Poses, Task.Reads;
      var rest := window[node.spelled..];
      var probed := if |rest| < longest + 1 then |rest| else longest + 1;
      assert task.FollowsIn(links.Keys, node, node.spelled + 1);
      hide Task.FollowsIn;
      for length := 1 to probed
        invariant Valid({node}) && node in links && old(links).Keys <= links.Keys
        invariant links.Keys == old(links).Keys ==> frontier == old(frontier)
        invariant task.FollowsIn(links.Keys, node, node.spelled + length)
      {
        FollowOne(node, length);
      }
      LongerNamesNone(task, links.Keys, node, longest, node.spelled + probed);
    }

    /** The token a piece spells, if the node's state reads it. */
    method ReadableToken(node: Node, piece: Word) returns (token: Option<Token>)
      requires Poses() && task == Task(automaton.table, automaton.entries, automaton.states, window, origin)
      requires task.InWindow(node)
      ensures token.Some? ==> task.Reads(node.state, token.value) && task.entries[token.value].spelling == piece
      ensures forall t: nat | task.Reads(node.state, t) && task.entries[t].spelling == piece :: token == Some(t)
    {
      token := automaton.TokenOf(piece);
      var readable := false;
      if token.Some? {
        readable := ReadsToken(node, token.value);
      }
      SpelledIsToken(task, node.state, piece, token, readable);
      if !readable {
        token := None;
      }
    }

    /** Whether the node's state reads the token. */
    method ReadsToken(node: Node, token: Token) returns (readable: bool)
      requires Poses() && task == Task(automaton.table, automaton.entries, automaton.states, window, origin)
      requires task.InWindow(node) && token < |task.entries|
      ensures readable <==> task.Reads(node.state, token)
    {
      readable := automaton.IsAllowed(node.state, token);
    }

    /** The first covering token the node's state reads. */
    method FirstReadable(node: Node, tokens: seq<Token>) returns (found: Option<Token>)
      requires Poses() && task == Task(automaton.table, automaton.entries, automaton.states, window, origin)
      requires task.InWindow(node) && ListsCoveringAt(task, tokens, node.spelled)
      ensures found.Some? ==> found.value in tokens && task.Reads(node.state, found.value)
      ensures found.None? ==> task.NoneCovers(node)
    {
      hide Poses, Task.Reads;
      for index := 0 to |tokens|
        invariant forall i | 0 <= i < index :: !task.Reads(node.state, tokens[i])
      {
        assert tokens[index] in tokens;
        var readable := ReadsToken(node, tokens[index]);
        if readable {
          return Some(tokens[index]);
        }
      }
      ListedCover(task, node, tokens);
      found := None;
    }

    /** The length of the longest token. */
    method Longest() returns (longest: nat)
      ensures forall t: nat | t < |automaton.entries| :: |automaton.entries[t].spelling| <= longest
    {
      longest := 0;
      for token := 0 to |automaton.entries|
        invariant forall t: nat | t < token :: |automaton.entries[t].spelling| <= longest
      {
        if |automaton.entries[token].spelling| > longest {
          longest := |automaton.entries[token].spelling|;
        }
      }
    }

    /** The tokens of the run to a node, followed back along its links, and the node the run was seeded at. */
    method RunTo(node: Node, ghost expanding: set<Node>) returns (run: seq<Token>, seed: Node)
      requires Valid(expanding) && node in links
      ensures SeededRun(task, run, node, seed)
    {
      assert task.Told();
      run, seed := [], node;
      var at := Some(node);
      hide Searching, Linked, Poses, Task.Told, Task.RunEnters, Following;
      FollowingStarts(task, links, runs, node);
      while at.Some?
        invariant Following(task, links, runs, node, at, run, seed)
        decreases if at.Some? && at.value in runs then 1 + |runs[at.value]| else 0
      {
        FollowingSteps(task, links, runs, node, at.value, run, seed);
        var link := links[at.value];
        run, seed, at := [link.token] + run, at.value, link.previous;
      }
      FollowingEnds(task, links, runs, node, run, seed);
    }

    /** The refutation read back along the links, with the token over the final byte at its end. */
    method MiscoveringOf(node: Node, covering: Token, ghost expanding: set<Node>) returns (found: Found)
      requires Valid(expanding) && node in links && Covering(task, node, covering)
      ensures Refutes(automaton.table, window, origin, found)
    {
      hide Linked, Searching, Refutes, Covering, SeededRun, MarksTokens, TellsTokens, TellsPairs;
      var run, seed := RunTo(node, expanding);
      CoverRuns(task, run, node, seed, covering);
      hide Canonical;
      var bytes, boundaries := MarkedRun(automaton, run + [covering]);
      CoverRefutes(task, run, node, seed, covering, boundaries);
      found := Found(bytes, boundaries, |automaton.entries[run[0]].spelling| - seed.spelled);
    }

    /** Finds a miscovering at a node taken off the frontier, or finishes the node. */
    method Expand(node: Node, covering: seq<seq<Token>>, longest: nat) returns (found: Option<Found>)
      requires Valid({node}) && node in links && task.InWindow(node) && ListsCovering(task, covering)
      requires forall t: nat | t < |task.entries| :: |task.entries[t].spelling| <= longest
      modifies this
      ensures found.Some? ==> Refutes(automaton.table, window, origin, found.value)
      ensures found.None? ==> Valid({}) && old(links).Keys <= links.Keys
      ensures found.None? && links.Keys == old(links).Keys ==> frontier == old(frontier)
    {
      hide Poses, Linked, Searching, Refutes, ListsCoveringAt, Task.NoneCovers, Task.FollowsIn;
      var token := FirstReadable(node, covering[node.spelled]);
      if token.Some? {
        ListedCovers(task, node, covering[node.spelled], token.value);
        var miscovering := MiscoveringOf(node, token.value, {node});
        return Some(miscovering);
      }
      Follow(node, longest);
      FinishSearching(task, links.Keys, Nodes(frontier), node);
      assert Nodes(frontier) + {} == Nodes(frontier);
      found := None;
    }

    /** Follows every run that splits an occurrence of the window among several tokens; stops early on a refutation. */
    method Chained() returns (found: Option<Found>)
      requires Valid({})
      modifies this
      ensures found.Some? ==> Refutes(automaton.table, window, origin, found.value)
      ensures found.None? ==> task.Exhausted(links.Keys)
    {
      hide Poses, Linked, Searching, Refutes, ListsCovering, Task.Seeded, Task.Exhausted;
      var covering := StartCovering();
      SeedAll();
      var longest := Longest();
      while frontier != []
        invariant Valid({}) && task.Seeded(links.Keys)
        decreases Universe(|automaton.states|, |window|) - links.Keys, |frontier|
      {
        LinksBounded(task, links, runs);
        var node := frontier[|frontier| - 1];
        PopWaits(frontier);
        LinkedInWindow(task, links, runs, Nodes(frontier), node);
        label popped:
        frontier := frontier[..|frontier| - 1];
        found := Expand(node, covering, longest);
        if found.Some? {
          return;
        }
        SeededInMore(task, old@popped(links).Keys, links.Keys);
        LinksBounded(task, links, runs);
      }
      found := None;
      NothingWaits(task, links.Keys);
    }

    method StartCovering() returns (covering: seq<seq<Token>>)
      requires Poses() && window != []
      requires task == Task(automaton.table, automaton.entries, automaton.states, window, origin)
      ensures ListsCovering(task, covering)
    {
      covering := CoveringTokens(automaton, window, origin);
    }
  }

  lemma {:induction false} LinksBounded(k: Task, links: map<Node, Link>, runs: map<Node, seq<Token>>)
    requires Linked(k, links, runs)
    ensures links.Keys <= Universe(|k.states|, |k.window|)
  {
    forall node | node in links.Keys ensures node in Universe(|k.states|, |k.window|) {
      assert k.RunEnters(runs[node], node);
    }
  }

  /** Taking the last node off the frontier leaves it waiting beside the others. */
  lemma {:induction false} PopWaits(frontier: seq<Node>)
    requires frontier != []
    ensures Nodes(frontier) + {} == Nodes(frontier[..|frontier| - 1]) + {frontier[|frontier| - 1]}
  {
    var front, node := frontier[..|frontier| - 1], frontier[|frontier| - 1];
    assert frontier == front + [node];
    forall n ensures n in Nodes(frontier) <==> n in Nodes(front) + {node} {
    }
  }

  lemma {:induction false} LinkedInWindow(
      k: Task, links: map<Node, Link>, runs: map<Node, seq<Token>>, waiting: set<Node>, node: Node)
    requires Linked(k, links, runs) && Searching(k, links.Keys, waiting + {}) && node in waiting
    ensures node in links && k.InWindow(node)
  {
    assert node in waiting + {};
  }

  lemma {:induction false} SeededInMore(k: Task, nodes: set<Node>, more: set<Node>)
    requires nodes <= more && k.Seeded(nodes)
    ensures k.Seeded(more)
  {
    forall n | 1 <= n < |k.window| ensures k.SeedsIn(more, n) {
      SeedsInMore(k, nodes, more, n);
    }
  }

  lemma NothingWaits(k: Task, nodes: set<Node>)
    requires k.Seeded(nodes) && Searching(k, nodes, Nodes([]) + {})
    ensures k.Exhausted(nodes)
  {
  }

  /**
    Decides whether every encoding that holds the window covers its last byte from
    the origin: a marked text and an occurrence in it where that fails, or a proof
    that there is none.
   */
  method FindMiscovering(automaton: Automaton, window: Word, origin: nat) returns (found: Option<Found>)
    requires automaton.Valid() && window != [] && origin < |window|
    ensures found.Some? ==> Refutes(automaton.table, window, origin, found.value)
    ensures found.None? ==> forall text: Word, p: nat :: !Miscovers(automaton.table, window, origin, text, p)
  {
    found := HeldMiscovering(automaton, window, origin);
    if found.None? {
      var search := new Search(automaton, window, origin);
      found := search.Chained();
      if found.None? {
        ghost var k, nodes := search.task, search.links.Keys;
        forall text: Word, p: nat ensures !Miscovers(automaton.table, window, origin, text, p) {
          ExhaustedCertifies(k, nodes, text, p);
        }
      }
    }
  }

  /** The token is readable from the node and covers the window's rest off the origin. */
  ghost predicate Covering(k: Task, node: Node, t: Token) {
    && k.Reads(node.state, t) && node.spelled <= |k.window| && node.spelled != k.origin
    && StartsWith(k.entries[t].spelling, k.window[node.spelled..])
  }

  lemma {:induction false} ListedCovers(k: Task, node: Node, tokens: seq<Token>, t: Token)
    requires k.InWindow(node) && ListsCoveringAt(k, tokens, node.spelled) && t in tokens && k.Reads(node.state, t)
    ensures Covering(k, node, t)
  {
    hide Task.Reads;
  }

  /** A marked string that is an encoding, holding the window where its last byte is not covered from the origin. */
  ghost predicate Refutes(table: seq<Merge>, window: Word, origin: nat, found: Found) {
    && PartsEarlier(table) && window != []
    && MarksEncoding(table, found)
    && Miscovers(table, window, origin, found.bytes, found.occurrence)
  }

  /** A covering token takes a run to a node one token further. */
  lemma {:induction false} CoverRuns(k: Task, run: seq<Token>, node: Node, seed: Node, t: Token)
    requires k.Told() && SeededRun(k, run, node, seed) && Covering(k, node, t)
    ensures run != [] && run[0] < |k.entries| && seed.spelled <= |k.entries[run[0]].spelling|
    ensures Under(run + [t], ProductOf(|k.table|)) && Canonical(k.table, |k.table|, run + [t])
  {
    RunReads(k, run, node, t);
    CanonicalSnoc(k.table, run, t);
    hide SpellingOf, Spelling, Walks;
  }

  lemma {:induction false} CanonicalMarks(table: seq<Merge>, tokens: seq<Token>, boundaries: seq<bool>, p: nat)
    requires PartsEarlier(table) && Canonical(table, |table|, tokens) && MarksTokens(table, tokens, boundaries)
    ensures MarksEncoding(table, Found(SpellingOf(table, tokens), boundaries, p))
  {
    hide MarksTokens;
  }

  /** A run to a node and a token covering the rest of the window refute the certificate. */
  lemma {:induction false} CoverRefutes(
      k: Task, run: seq<Token>, node: Node, seed: Node, t: Token, boundaries: seq<bool>)
    requires k.Told() && SeededRun(k, run, node, seed) && Covering(k, node, t)
    requires run != [] && run[0] < |k.entries| && seed.spelled <= |k.entries[run[0]].spelling|
    requires Canonical(k.table, |k.table|, run + [t]) && MarksTokens(k.table, run + [t], boundaries)
    ensures Refutes(k.table, k.window, k.origin,
                    Found(SpellingOf(k.table, run + [t]), boundaries, |k.entries[run[0]].spelling| - seed.spelled))
  {
    hide IsRun, Miscovers, SpellingOf, Spelling, MarksTokens, Walks, Canonical, MarksEncoding, CanonicalPair;
    CanonicalUnder(k.table, |k.table|, run + [t]);
    RunReads(k, run, node, t);
    CoverMiscovers(k.table, k.window, k.origin, run, node.spelled, t);
    CanonicalMarks(k.table, run + [t], boundaries, |k.entries[run[0]].spelling| - seed.spelled);
  }

  /** A node that no token covers and whose followers are all reached is finished. */
  lemma {:induction false} FinishSearching(k: Task, nodes: set<Node>, waiting: set<Node>, node: Node)
    requires Searching(k, nodes, waiting + {node}) && k.InWindow(node)
    requires k.NoneCovers(node) && k.FollowsIn(nodes, node, |k.window|)
    ensures Searching(k, nodes, waiting)
  {
    hide Task.NoneCovers, Task.FollowsIn;
  }

  /** A spelling names one token, so the state reads it exactly where it reads that token. */
  lemma {:induction false} SpelledIsToken(k: Task, q: nat, piece: Word, token: Option<Token>, readable: bool)
    requires k.Told() && q < |k.states|
    requires token.Some? ==> token.value < |k.entries| && Spelling(k.table, token.value) == piece
    requires token.None? ==> forall t: nat | t < |k.entries| :: Spelling(k.table, t) != piece
    requires readable <==> token.Some? && k.Reads(q, token.value)
    ensures readable ==> k.Reads(q, token.value) && k.entries[token.value].spelling == piece
    ensures forall t: nat | k.Reads(q, t) && k.entries[t].spelling == piece :: readable && token == Some(t)
  {
    forall t: nat | k.Reads(q, t) && k.entries[t].spelling == piece ensures readable && token == Some(t) {
      assert Spelling(k.table, t) == piece;
      SpelledApart(k.table, t, token.value);
    }
  }
}

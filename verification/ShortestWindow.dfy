/**
  The exact search for a shortest certified window: the cloud with every origin
  forgotten but one, explored breadth first.
 */
module ShortestWindow {
  import opened Options
  import opened Machine
  import opened ByteClasses
  import opened SplitWindow
  import opened Search
  import opened Counting

  /** Before an origin is chosen, the states of every hypothesis; after, the chosen one's state and the others'. */
  datatype Node = Node(chosen: Option<State>, others: set<State>)

  datatype Outcome =
    | Found(window: Word, origin: nat)
    | Nothing
    | Budget

  /** The initial state begins the token at the first byte where no transition re-enters it. */
  predicate Renamed(sim: Simulator, node: Node) {
    !sim.reentrant && node.chosen.None? && sim.dfa.init in node.others
  }

  function MovedStates(sim: Simulator, node: Node, b: Byte): set<State> {
    set q | q in node.others && !(Renamed(sim, node) && q == sim.dfa.init) && LiveStep(sim, q, b).Some?
      :: LiveStep(sim, q, b).value
  }

  predicate AcceptsSomewhere(sim: Simulator, node: Node) {
    || (node.chosen.Some? && sim.dfa.Accepting(node.chosen.value))
    || exists q | q in node.others :: sim.dfa.Accepting(q)
  }

  /** The state of a token beginning at the byte, where one may. */
  function FreshState(sim: Simulator, node: Node, b: Byte): Option<State> {
    if AcceptsSomewhere(sim, node) || Renamed(sim, node) then LiveStep(sim, sim.dfa.init, b) else None
  }

  function AsSet(q: Option<State>): set<State> {
    match q case Some(p) => {p} case None => {}
  }

  /** One byte further: the successors, flagged where the byte itself became the origin. */
  function Advance(sim: Simulator, node: Node, b: Byte): seq<(Node, bool)> {
    var moved := MovedStates(sim, node, b);
    var begun := FreshState(sim, node, b);
    var all := moved + AsSet(begun);
    if node.chosen.Some? then
      var chosen := LiveStep(sim, node.chosen.value, b);
      if chosen.Some? && chosen.value !in all then [(Node(chosen, all), false)] else []
    else
      (if begun.Some? && begun.value !in moved then [(Node(begun, moved), true)] else [])
      + (if all != {} then [(Node(None, all), false)] else [])
  }

  // ----- the search nodes as a quotient of the cloud -----

  function Support(cloud: Cloud): set<State> {
    set h | h in cloud :: h.state
  }

  /** The states of the hypotheses of every origin but o. */
  function Rest(cloud: Cloud, o: nat): set<State> {
    set h | h in cloud && h.origin != Inside(o) :: h.state
  }

  /** The node stands for the cloud after w, its chosen origin, if any, being o. */
  ghost predicate StandsFor(sim: Simulator, node: Node, w: Word, o: Option<nat>) {
    var cloud := CloudAfter(sim, w);
    match o
    case None => node == Node(None, Support(cloud)) && cloud != {}
    case Some(o) =>
      && o < |w|
      && node.chosen.Some?
      && node.others == Rest(cloud, o)
      && node.chosen.value !in node.others
      && forall h :: h in cloud && h.origin == Inside(o) <==> h == Hypothesis(node.chosen.value, Inside(o))
  }

  /** Past the first byte only a re-entered start is a hypothesis. */
  lemma {:induction false} StartLeftBehind(sim: Simulator, w: Word, h: Hypothesis)
    requires sim.Valid() && h in CloudAfter(sim, w) && h.state == sim.dfa.init
    ensures w == [] || sim.reentrant
  {
    if w != [] {
      var before, b := CloudAfter(sim, w[..|w| - 1]), w[|w| - 1];
      CloudStatesLive(sim, w[..|w| - 1]);
      CloudStatesLive(sim, w);
      StepIntoStart(sim, b);
      if h in MovedAll(sim, before, b, |w| - 1) {
        var g :| g in before && Moved(sim, g, b, |w| - 1) == Some(h);
        assert LiveStep(sim, g.state, b) == Some(sim.dfa.init);
      }
    }
  }

  lemma {:induction false} StepIntoStart(sim: Simulator, b: Byte)
    requires sim.Valid()
    ensures forall q | q in sim.live && sim.dfa.Step(q, b) == Some(sim.dfa.init) :: sim.reentrant
    ensures sim.dfa.Step(sim.dfa.init, b) == Some(sim.dfa.init) ==> sim.reentrant
  {
    ReentrantByStep(sim.dfa);
    assert sim.dfa.Run(sim.dfa.init, []) == Some(sim.dfa.init);
    assert sim.dfa.Reachable(sim.dfa.init);
  }

  lemma {:induction false} CloudStatesLive(sim: Simulator, w: Word)
    requires sim.Valid()
    ensures forall h | h in CloudAfter(sim, w) :: h.state in sim.live
    ensures forall h | h in CloudAfter(sim, w) :: h.origin.Inside? ==> h.origin.at < |w|
  {
    if w != [] {
      CloudStatesLive(sim, w[..|w| - 1]);
    }
  }

  /** One step of a node with a chosen origin is one step of the cloud, refused exactly on a collision or a death. */
  lemma {:induction false} AdvanceChosen(sim: Simulator, node: Node, w: Word, o: nat, b: Byte)
    requires sim.Valid() && StandsFor(sim, node, w, Some(o))
    ensures forall n | n in Advance(sim, node, b) :: n.1 == false && StandsFor(sim, n.0, w + [b], Some(o))
    ensures forall m | StandsFor(sim, m, w + [b], Some(o)) :: (m, false) in Advance(sim, node, b)
  {
    var cloud, next := CloudAfter(sim, w), CloudAfter(sim, w + [b]);
    CloudSnoc(sim, w, b);
    var q := node.chosen.value;
    var mine := Hypothesis(q, Inside(o));
    assert mine in cloud;
    forall h | h in cloud && h.state == sim.dfa.init ensures sim.reentrant {
      StartLeftBehind(sim, w, h);
    }
    forall h | h in cloud ensures Moved(sim, h, b, |w|) ==
      match LiveStep(sim, h.state, b) case Some(p) => Some(Hypothesis(p, h.origin)) case None => None {
    }
    AcceptingSeen(sim, node, cloud, o);
    RestMoves(sim, node, cloud, w, o, b);
    forall h ensures h in next && h.origin == Inside(o)
                <==> LiveStep(sim, q, b).Some? && h == Hypothesis(LiveStep(sim, q, b).value, Inside(o)) {
      if h in next && h.origin == Inside(o) {
        assert h in MovedAll(sim, cloud, b, |w|);
        var g :| g in cloud && Moved(sim, g, b, |w|) == Some(h);
        assert g == mine;
      }
      if LiveStep(sim, q, b).Some? && h == Hypothesis(LiveStep(sim, q, b).value, Inside(o)) {
        assert Moved(sim, mine, b, |w|) == Some(h);
      }
    }
    hide CloudAfter, CloudStep, LiveStep, Simulator.Valid, MovedStates, FreshState;
  }

  /** Every origin but the chosen one moves on as the node's other states do. */
  lemma {:induction false} RestMoves(sim: Simulator, node: Node, cloud: Cloud, w: Word, o: nat, b: Byte)
    requires node.chosen.Some? && node.others == Rest(cloud, o) && o < |w|
    requires forall h | h in cloud && h.state == sim.dfa.init :: sim.reentrant
    requires AcceptsSomewhere(sim, node) <==> AnyAccepting(sim, cloud)
    ensures Rest(CloudStep(sim, cloud, b, |w|), o) == MovedStates(sim, node, b) + AsSet(FreshState(sim, node, b))
  {
    var next := CloudStep(sim, cloud, b, |w|);
    var all := MovedStates(sim, node, b) + AsSet(FreshState(sim, node, b));
    forall h | h in cloud ensures Moved(sim, h, b, |w|) ==
      match LiveStep(sim, h.state, b) case Some(p) => Some(Hypothesis(p, h.origin)) case None => None {
    }
    hide LiveStep, AcceptsSomewhere, AnyAccepting;
    forall p | p in all ensures p in Rest(next, o) {
      if p in MovedStates(sim, node, b) {
        var r :| r in node.others && LiveStep(sim, r, b) == Some(p);
        var g :| g in cloud && g.origin != Inside(o) && g.state == r;
        assert Moved(sim, g, b, |w|) == Some(Hypothesis(p, g.origin));
        assert Hypothesis(p, g.origin) in next;
      } else {
        assert Hypothesis(p, Inside(|w|)) in next;
      }
    }
    forall p | p in Rest(next, o) ensures p in all {
      var h :| h in next && h.origin != Inside(o) && h.state == p;
      if h in MovedAll(sim, cloud, b, |w|) {
        var g :| g in cloud && Moved(sim, g, b, |w|) == Some(h);
        assert g.state in node.others;
        assert p in MovedStates(sim, node, b);
      }
    }
  }

  /** The node sees an accepting state exactly where the cloud has an accepting hypothesis. */
  lemma {:induction false} AcceptingSeen(sim: Simulator, node: Node, cloud: Cloud, o: nat)
    requires node.others == Rest(cloud, o) && node.chosen.Some?
    requires forall h :: h in cloud && h.origin == Inside(o) <==> h == Hypothesis(node.chosen.value, Inside(o))
    ensures AcceptsSomewhere(sim, node) <==> AnyAccepting(sim, cloud)
  {
    var mine := Hypothesis(node.chosen.value, Inside(o));
    assert mine in cloud;
    if h :| h in cloud && sim.dfa.Accepting(h.state) {
      if h.origin != Inside(o) {
        assert h.state in node.others;
      }
    }
    if q :| q in node.others && sim.dfa.Accepting(q) {
      var h :| h in cloud && h.origin != Inside(o) && h.state == q;
    }
    if sim.dfa.Accepting(node.chosen.value) {
      assert sim.dfa.Accepting(mine.state);
    }
  }

  /** One step of a node before the choice: the cloud goes on unchosen, or the origin begun at this byte is chosen. */
  lemma {:induction false} AdvanceUnchosen(sim: Simulator, node: Node, w: Word, b: Byte)
    requires sim.Valid() && StandsFor(sim, node, w, None)
    ensures forall n | n in Advance(sim, node, b) ::
              StandsFor(sim, n.0, w + [b], if n.1 then Some(|w|) else None)
    ensures forall m | StandsFor(sim, m, w + [b], None) :: (m, false) in Advance(sim, node, b)
    ensures forall m | StandsFor(sim, m, w + [b], Some(|w|)) :: (m, true) in Advance(sim, node, b)
  {
    hide CloudAfter, CloudStep, MovedStates, FreshState;
    var cloud, next := CloudAfter(sim, w), CloudAfter(sim, w + [b]);
    var moved, begun := MovedStates(sim, node, b), FreshState(sim, node, b);
    UnchosenMoves(sim, node, cloud, w, b);
    assert Support(next) == moved + AsSet(begun) by {
      forall p ensures p in Support(next) <==> p in moved + AsSet(begun) {
        if p in Support(next) {
          var h :| h in next && h.state == p;
        }
        if p in moved {
          assert p in Rest(next, |w|);
        }
        if p in AsSet(begun) {
          assert Hypothesis(p, Inside(|w|)) in next;
        }
      }
    }
    assert next != {} <==> Support(next) != {} by {
      if h :| h in next {
        assert h.state in Support(next);
      }
    }
  }

  /** What the cloud after one more byte holds: the states moved on, under older origins, and the one begun here. */
  lemma {:induction false} UnchosenMoves(sim: Simulator, node: Node, cloud: Cloud, w: Word, b: Byte)
    requires sim.Valid() && StandsFor(sim, node, w, None) && cloud == CloudAfter(sim, w)
    ensures Rest(CloudAfter(sim, w + [b]), |w|) == MovedStates(sim, node, b)
    ensures forall h :: h in CloudAfter(sim, w + [b]) && h.origin == Inside(|w|)
              <==> FreshState(sim, node, b).Some? && h == Hypothesis(FreshState(sim, node, b).value, Inside(|w|))
  {
    CloudSnoc(sim, w, b);
    CloudStatesLive(sim, w);
    UnchosenSees(sim, node, cloud);
    var next := CloudStep(sim, cloud, b, |w|);
    hide CloudAfter, LiveStep, Simulator.Valid;
    forall p ensures p in Rest(next, |w|) <==> p in MovedStates(sim, node, b) {
      OlderMoves(sim, node, cloud, w, b, p);
    }
    forall h ensures h in next && h.origin == Inside(|w|)
                <==> FreshState(sim, node, b).Some? && h == Hypothesis(FreshState(sim, node, b).value, Inside(|w|)) {
      FreshMoves(sim, node, cloud, w, b, h);
    }
  }

  /** The unchosen node sees what the cloud holds: an accepting state, and the start. */
  lemma {:induction false} UnchosenSees(sim: Simulator, node: Node, cloud: Cloud)
    requires node == Node(None, Support(cloud))
    ensures AcceptsSomewhere(sim, node) <==> AnyAccepting(sim, cloud)
    ensures Renamed(sim, node) <==> !sim.reentrant && exists h :: h in cloud && h.state == sim.dfa.init
  {
    if h :| h in cloud && sim.dfa.Accepting(h.state) {
      assert h.state in node.others;
    }
    if q :| q in node.others && sim.dfa.Accepting(q) {
      var h :| h in cloud && h.state == q;
    }
  }

  /** The states moved on under older origins are the node's. */
  lemma {:induction false} OlderMoves(sim: Simulator, node: Node, cloud: Cloud, w: Word, b: Byte, p: State)
    requires node == Node(None, Support(cloud)) && forall h | h in cloud :: h.origin.Inside? ==> h.origin.at < |w|
    requires Renamed(sim, node) <==> !sim.reentrant && exists h :: h in cloud && h.state == sim.dfa.init
    ensures p in Rest(CloudStep(sim, cloud, b, |w|), |w|) <==> p in MovedStates(sim, node, b)
  {
    var next := CloudStep(sim, cloud, b, |w|);
    hide LiveStep;
    if p in Rest(next, |w|) {
      var h :| h in next && h.origin != Inside(|w|) && h.state == p;
      var g :| g in cloud && Moved(sim, g, b, |w|) == Some(h);
      assert g.state in node.others;
    }
    if p in MovedStates(sim, node, b) {
      var q :| q in node.others && !(Renamed(sim, node) && q == sim.dfa.init) && LiveStep(sim, q, b) == Some(p);
      var g :| g in cloud && g.state == q;
      assert Moved(sim, g, b, |w|) == Some(Hypothesis(p, g.origin));
      assert Hypothesis(p, g.origin) in next;
    }
  }

  /** The hypothesis begun at the byte is the node's fresh state. */
  lemma {:induction false} FreshMoves(sim: Simulator, node: Node, cloud: Cloud, w: Word, b: Byte, h: Hypothesis)
    requires node == Node(None, Support(cloud)) && forall h | h in cloud :: h.origin.Inside? ==> h.origin.at < |w|
    requires AcceptsSomewhere(sim, node) <==> AnyAccepting(sim, cloud)
    requires Renamed(sim, node) <==> !sim.reentrant && exists h :: h in cloud && h.state == sim.dfa.init
    ensures h in CloudStep(sim, cloud, b, |w|) && h.origin == Inside(|w|)
       <==> FreshState(sim, node, b).Some? && h == Hypothesis(FreshState(sim, node, b).value, Inside(|w|))
  {
    hide LiveStep, AcceptsSomewhere, AnyAccepting, Renamed;
    if h in CloudStep(sim, cloud, b, |w|) && h.origin == Inside(|w|) && h in MovedAll(sim, cloud, b, |w|) {
      var g :| g in cloud && Moved(sim, g, b, |w|) == Some(h);
      assert g.state == sim.dfa.init;
    }
    if FreshState(sim, node, b).Some? && h == Hypothesis(FreshState(sim, node, b).value, Inside(|w|)) && Renamed(sim,
      node) {
      var g :| g in cloud && g.state == sim.dfa.init;
      assert Moved(sim, g, b, |w|) == Some(h);
    }
  }

  // ----- every certificate is a path of nodes -----

  /** An in-window origin has one hypothesis at most. */
  lemma {:induction false} OriginUnique(sim: Simulator, w: Word, g: Hypothesis, h: Hypothesis)
    requires sim.Valid() && g in CloudAfter(sim, w) && h in CloudAfter(sim, w)
    requires g.origin.Inside? && g.origin == h.origin
    ensures g == h
  {
    if w != [] {
      var front, b, at := w[..|w| - 1], w[|w| - 1], |w| - 1;
      var cloud := CloudAfter(sim, front);
      CloudStatesLive(sim, front);
      hide LiveStep, Simulator.Valid;
      if g.origin.at < at {
        var g' := MovedFrom(sim, cloud, g, b, at);
        var h' := MovedFrom(sim, cloud, h, b, at);
        OriginUnique(sim, front, g', h');
      } else {
        BegunHere(sim, cloud, g, b, at);
        BegunHere(sim, cloud, h, b, at);
      }
    }
  }

  /** An older origin was already a hypothesis. */
  lemma {:induction false} MovedFrom(sim: Simulator, cloud: Cloud, h: Hypothesis, b: Byte, at: nat)
    returns (before: Hypothesis)
    requires h in CloudStep(sim, cloud, b, at) && h.origin.Inside? && h.origin.at < at
    ensures before in cloud && Moved(sim, before, b, at) == Some(h) && before.origin == h.origin
  {
    before :| before in cloud && Moved(sim, before, b, at) == Some(h);
  }

  lemma {:induction false} BegunHere(sim: Simulator, cloud: Cloud, h: Hypothesis, b: Byte, at: nat)
    requires h in CloudStep(sim, cloud, b, at) && h.origin == Inside(at)
    requires forall g | g in cloud :: g.origin.Inside? ==> g.origin.at < at
    ensures Some(h.state) == LiveStep(sim, sim.dfa.init, b)
  {
    if h in MovedAll(sim, cloud, b, at) {
      var g :| g in cloud && Moved(sim, g, b, at) == Some(h);
    }
  }

  /** A node standing for a chosen origin is preceded by one, or by the unchosen node where the origin is chosen. */
  lemma {:induction false} ChosenBack(sim: Simulator, w: Word, b: Byte, o: nat, m: Node) returns (before: Node)
    requires sim.Valid() && StandsFor(sim, m, w + [b], Some(o)) && o < |w|
    ensures StandsFor(sim, before, w, Some(o))
  {
    var cloud, next := CloudAfter(sim, w), CloudAfter(sim, w + [b]);
    CloudSnoc(sim, w, b);
    var mine := Hypothesis(m.chosen.value, Inside(o));
    assert mine in next;
    var g :| g in cloud && Moved(sim, g, b, |w|) == Some(mine);
    before := Node(Some(g.state), Rest(cloud, o));
    forall h ensures h in cloud && h.origin == Inside(o) <==> h == Hypothesis(g.state, Inside(o)) {
      if h in cloud && h.origin == Inside(o) {
        OriginUnique(sim, w, g, h);
      }
    }
    forall h | h in cloud && h.state == g.state ensures h.origin == Inside(o) {
      assert Moved(sim, h, b, |w|).Some?;
      assert Moved(sim, h, b, |w|).value in next;
    }
  }

  /** Along a certified window every prefix past the origin has a node for it. */
  lemma {:induction false} NodeAlong(sim: Simulator, w: Word, o: nat, k: nat) returns (m: Node)
    requires sim.Valid() && Certifies(sim, w, o) && k <= |w|
    ensures StandsFor(sim, m, w[..k], if k <= o then None else Some(o))
    ensures k == |w| ==> o < k && IsCertified(m)
    decreases |w| - k
  {
    var cloud := CloudAfter(sim, w[..k]);
    if cloud == {} {
      EmptyCloudAbsorbs(sim, w, k);
    }
    if k == |w| {
      assert w[..k] == w;
      var h :| h in cloud;
      CloudStatesLive(sim, w);
      m := Node(Some(h.state), {});
      forall g ensures g in cloud && g.origin == Inside(o) <==> g == Hypothesis(h.state, Inside(o)) {
        if g in cloud {
          OriginUnique(sim, w, g, h);
        }
      }
      assert Rest(cloud, o) == {};
    } else if k <= o {
      m := Node(None, Support(cloud));
    } else {
      var after := NodeAlong(sim, w, o, k + 1);
      assert w[..k + 1] == w[..k] + [w[k]];
      m := ChosenBack(sim, w[..k], w[k], o, after);
    }
  }

  /** Some listed byte leads from one node to the other. */
  ghost predicate Edge(sim: Simulator, bytes: seq<Byte>, m: Node, n: Node) {
    exists b, c :: b in bytes && (n, c) in Advance(sim, m, b)
  }

  function StartNode(sim: Simulator): Node {
    Node(None, sim.live)
  }

  predicate IsCertified(n: Node) {
    n.chosen.Some? && n.others == {}
  }

  lemma {:induction false} InitialSupport(sim: Simulator)
    ensures Support(InitialCloud(sim)) == sim.live
    ensures sim.live != {} ==> InitialCloud(sim) != {}
  {
    forall q | q in sim.live ensures q in Support(InitialCloud(sim)) {
      assert Hypothesis(q, Before) in InitialCloud(sim);
    }
    if q :| q in sim.live {
      assert Hypothesis(q, Before) in InitialCloud(sim);
    }
  }

  lemma {:induction false} StartStandsFor(sim: Simulator)
    requires sim.live != {}
    ensures StandsFor(sim, StartNode(sim), [], None)
  {
    InitialSupport(sim);
  }

  lemma {:induction false} StartIsOnly(sim: Simulator, node: Node)
    requires StandsFor(sim, node, [], None)
    ensures node == StartNode(sim)
  {
    InitialSupport(sim);
  }

  /** A certified window over the listed bytes is a walk of its length from the start node to a certified one. */
  lemma {:induction false} CertificateIsWalk(sim: Simulator, bytes: seq<Byte>, w: Word, o: nat, k: nat)
    returns (walk: seq<Node>)
    requires sim.Valid() && Certifies(sim, w, o) && k <= |w| && forall b | b in w :: b in bytes
    ensures IsWalk((m, n) => Edge(sim, bytes, m, n), walk)
    ensures |walk| == k + 1 && walk[0] == StartNode(sim)
    ensures StandsFor(sim, walk[k], w[..k], if k <= o then None else Some(o))
    ensures k == |w| ==> IsCertified(walk[k])
    decreases k
  {
    hide CloudAfter, StandsFor, Advance, Certifies;
    var node := NodeAlong(sim, w, o, k);
    if k == 0 {
      assert w[..0] == [];
      StartIsOnly(sim, node);
      return [node];
    }
    var front := CertificateIsWalk(sim, bytes, w, o, k - 1);
    assert w[..k] == w[..k - 1] + [w[k - 1]];
    var c := k - 1 == o;
    if k - 1 <= o {
      AdvanceUnchosen(sim, front[k - 1], w[..k - 1], w[k - 1]);
    } else {
      AdvanceChosen(sim, front[k - 1], w[..k - 1], o, w[k - 1]);
    }
    assert (node, c) in Advance(sim, front[k - 1], w[k - 1]);
    assert w[k - 1] in bytes;
    assert Edge(sim, bytes, front[k - 1], node);
    walk := front + [node];
  }

  /** Bytes of one class certify alike, so one of each suffices. */
  lemma {:induction false} SameRowsSameCloud(sim: Simulator, w: Word, v: Word)
    requires |w| == |v| && forall i | 0 <= i < |w| :: SameRow(sim.dfa, v[i], w[i])
    ensures CloudAfter(sim, w) == CloudAfter(sim, v)
  {
    if w != [] {
      SameRowsSameCloud(sim, w[..|w| - 1], v[..|v| - 1]);
      var b, c := w[|w| - 1], v[|v| - 1];
      assert SameRow(sim.dfa, c, b);
      assert forall q :: LiveStep(sim, q, b) == LiveStep(sim, q, c);
      var cloud, at := CloudAfter(sim, w[..|w| - 1]), |w| - 1;
      assert forall h :: Moved(sim, h, b, at) == Moved(sim, h, c, at);
      assert MovedAll(sim, cloud, b, at) == MovedAll(sim, cloud, c, at);
    }
  }

  /** A window spelled over the listed bytes, class by class. */
  lemma {:induction false} Respelled(d: Dfa, bytes: seq<Byte>, w: Word) returns (v: Word)
    requires forall b: Byte :: Represented(d, bytes, b)
    ensures |v| == |w| && forall i | 0 <= i < |w| :: v[i] in bytes && SameRow(d, v[i], w[i])
  {
    if w == [] {
      return [];
    }
    v := Respelled(d, bytes, w[..|w| - 1]);
    assert Represented(d, bytes, w[|w| - 1]);
    var r :| r in bytes && r <= w[|w| - 1] && SameRow(d, r, w[|w| - 1]);
    v := v + [r];
  }

  /** A certified window of any spelling is a walk over the listed bytes. */
  lemma {:induction false} AnyCertificateIsWalk(sim: Simulator, bytes: seq<Byte>, w: Word, o: nat)
    returns (walk: seq<Node>)
    requires sim.Valid() && Certifies(sim, w, o) && forall b: Byte :: Represented(sim.dfa, bytes, b)
    ensures IsWalk((m, n) => Edge(sim, bytes, m, n), walk)
    ensures |walk| == |w| + 1 && walk[0] == StartNode(sim) && IsCertified(walk[|w|])
  {
    var v := Respelled(sim.dfa, bytes, w);
    SameRowsSameCloud(sim, w, v);
    walk := CertificateIsWalk(sim, bytes, v, o, |v|);
  }

  // ----- the search -----

  /** How a node was reached: the node before it, the byte read, and whether the origin was chosen on it. */
  datatype Reached = Reached(parent: nat, byte: Byte, chose: bool)

  /** What the nodes stand for: the word read along each one's trail and the origin chosen on it, if any. */
  datatype History = History(words: seq<Word>, origins: seq<Option<nat>>, depth: seq<nat>)

  /**
    Node i stands for the word read along its trail, as long as it is deep, with its origin where
    the trail chose one.
   */
  ghost predicate Trails(sim: Simulator, nodes: seq<Node>, reached: seq<Reached>, h: History, i: nat)
    requires |nodes| == |reached| == |h.words| == |h.origins| == |h.depth| && i < |nodes|
  {
    && StandsFor(sim, nodes[i], h.words[i], h.origins[i])
    && h.depth[i] == |h.words[i]|
    && (i == 0 ==> h.words[i] == [] && h.origins[i] == None)
    && (i > 0 ==>
          && reached[i].parent < i
          && h.words[i] == h.words[reached[i].parent] + [reached[i].byte]
          && (reached[i].chose ==> h.origins[reached[i].parent] == None)
          && h.origins[i] == if reached[i].chose then Some(|h.words[i]| - 1) else h.origins[reached[i].parent])
  }

  ghost predicate Recorded(sim: Simulator, nodes: seq<Node>, reached: seq<Reached>, h: History) {
    && 0 < |nodes| == |reached| == |h.words| == |h.origins| == |h.depth|
    && nodes[0] == StartNode(sim)
    && Layered(h.depth)
    && forall i | 0 <= i < |nodes| :: Trails(sim, nodes, reached, h, i)
  }

  /** The nodes before at are expanded and no node is deeper than one past node at. */
  ghost predicate Expanding(sim: Simulator, bytes: seq<Byte>, nodes: seq<Node>, depth: seq<nat>, at: nat) {
    && |nodes| == |depth| && at < |nodes|
    && Expanded((m, n) => Edge(sim, bytes, m, n), nodes, depth, at)
    && depth[|nodes| - 1] <= depth[at] + 1
  }

  /** Reads a window back from its last node through the trail, with the offset at which its origin was chosen. */
  method WindowTo(sim: Simulator, ghost nodes: seq<Node>, reached: seq<Reached>, ghost h: History, last: nat)
    returns (window: Word, origin: nat)
    requires Recorded(sim, nodes, reached, h) && last < |nodes| && h.origins[last].Some?
    ensures window == h.words[last] && Some(origin) == h.origins[last]
  {
    window := [];
    var chosenAt := 0;
    var walk: nat := last;
    while walk != 0
      invariant walk < |nodes| && h.words[last] == h.words[walk] + window
      invariant chosenAt <= |window|
      invariant if chosenAt > 0 then h.origins[walk] == None && h.origins[last] == Some(|h.words[last]| - chosenAt)
                else h.origins[walk] == h.origins[last]
    {
      var r := reached[walk];
      assert Trails(sim, nodes, reached, h, walk);
      assert h.words[last] == h.words[r.parent] + ([r.byte] + window);
      window := [r.byte] + window;
      if r.chose {
        chosenAt := |window|;
      }
      walk := r.parent;
    }
    assert Trails(sim, nodes, reached, h, 0);
    origin := |window| - chosenAt;
  }

  lemma {:induction false} NothingLive(sim: Simulator, w: Word, o: nat)
    requires sim.live == {}
    ensures !Certifies(sim, w, o)
  {
    assert w[..0] == [];
    assert InitialCloud(sim) == {};
    EmptyCloudAbsorbs(sim, w, 0);
  }

  /** A certified node's window is one the cloud walk certifies at the same origin. */
  lemma {:induction false} CertifiedNodeCertifies(sim: Simulator, n: Node, w: Word, o: nat)
    requires StandsFor(sim, n, w, Some(o)) && IsCertified(n)
    ensures Certifies(sim, w, o)
  {
    var cloud := CloudAfter(sim, w);
    assert Hypothesis(n.chosen.value, Inside(o)) in cloud;
    forall h | h in cloud ensures h.origin == Inside(o) || h.state in Rest(cloud, o) {
    }
  }

  lemma {:induction false} HeldInLonger(
      nodes: seq<Node>, depth: seq<nat>, more: seq<Node>, deeper: seq<nat>, n: Node, most: nat)
    requires |nodes| == |depth| && |more| == |deeper| && nodes <= more && depth <= deeper
    ensures HeldBy(nodes, depth, n, most) ==> HeldBy(more, deeper, n, most)
  {
    if HeldBy(nodes, depth, n, most) {
      var j :| 0 <= j < |nodes| && nodes[j] == n && depth[j] <= most;
      assert more[j] == n && deeper[j] <= most;
    }
  }

  /** A longest-known prefix of the nodes expanded stays expanded as nodes are added. */
  lemma {:induction false} ExpandedInLonger(
      edge: (Node, Node) -> bool, nodes: seq<Node>, depth: seq<nat>, more: seq<Node>, deeper: seq<nat>, at: nat)
    requires |nodes| == |depth| && |more| == |deeper| && nodes <= more && depth <= deeper && at <= |nodes|
    requires Expanded(edge, nodes, depth, at)
    ensures Expanded(edge, more, deeper, at)
  {
    forall i, n | 0 <= i < at && edge(more[i], n) ensures HeldBy(more, deeper, n, deeper[i] + 1) {
      assert more[i] == nodes[i] && deeper[i] == depth[i];
      HeldInLonger(nodes, depth, more, deeper, n, depth[i] + 1);
    }
  }

  /** The word and origin of a node one byte past a recorded one. */
  lemma {:induction false} SuccessorStandsFor(
      sim: Simulator, nodes: seq<Node>, reached: seq<Reached>, h: History, at: nat, byte: Byte, node: Node, chose: bool)
    requires sim.Valid() && Recorded(sim, nodes, reached, h) && at < |nodes|
    requires (node, chose) in Advance(sim, nodes[at], byte)
    ensures chose ==> h.origins[at] == None
    ensures StandsFor(sim, node, h.words[at] + [byte], if chose then Some(|h.words[at]|) else h.origins[at])
  {
    assert Trails(sim, nodes, reached, h, at);
    if h.origins[at].Some? {
      AdvanceChosen(sim, nodes[at], h.words[at], h.origins[at].value, byte);
    } else {
      AdvanceUnchosen(sim, nodes[at], h.words[at], byte);
    }
  }

  function Longer(h: History, w: Word, o: Option<nat>): History {
    History(h.words + [w], h.origins + [o], h.depth + [|w|])
  }

  lemma TrailLonger(
      sim: Simulator, nodes: seq<Node>, reached: seq<Reached>, h: History, n: Node, r: Reached, w: Word, o: Option<nat>,
      i: nat)
    requires |nodes| == |reached| == |h.words| == |h.origins| == |h.depth| && i < |nodes|
    requires Trails(sim, nodes, reached, h, i)
    ensures Trails(sim, nodes + [n], reached + [r], Longer(h, w, o), i)
  {
  }

  lemma LayeredLonger(depth: seq<nat>, d: nat)
    requires Layered(depth) && depth[|depth| - 1] <= d
    ensures Layered(depth + [d])
  {
  }

  /** Holding one more node keeps the record. */
  lemma {:induction false} RecordedLonger(
      sim: Simulator, bytes: seq<Byte>, nodes: seq<Node>, reached: seq<Reached>, h: History,
      at: nat, byte: Byte, node: Node, chose: bool) returns (longer: History)
    requires sim.Valid() && Recorded(sim, nodes, reached, h) && Expanding(sim, bytes, nodes, h.depth, at)
    requires (node, chose) in Advance(sim, nodes[at], byte)
    ensures longer == Longer(h, h.words[at] + [byte], if chose then Some(|h.words[at]|) else h.origins[at])
    ensures Recorded(sim, nodes + [node], reached + [Reached(at, byte, chose)], longer)
    ensures Expanding(sim, bytes, nodes + [node], longer.depth, at)
    ensures StandsFor(sim, node, longer.words[|nodes|], longer.origins[|nodes|])
    ensures |longer.words[|nodes|]| == h.depth[at] + 1
  {
    hide Advance, StandsFor, Edge;
    SuccessorStandsFor(sim, nodes, reached, h, at, byte, node, chose);
    var w, o := h.words[at] + [byte], if chose then Some(|h.words[at]|) else h.origins[at];
    longer := Longer(h, w, o);
    var r := Reached(at, byte, chose);
    assert |h.words[at]| == h.depth[at] by {
      assert Trails(sim, nodes, reached, h, at);
    }
    LayeredLonger(h.depth, |w|);
    forall i | 0 <= i < |nodes + [node]| ensures Trails(sim, nodes + [node], reached + [r], longer, i) {
      if i < |nodes| {
        TrailLonger(sim, nodes, reached, h, node, r, w, o, i);
      }
    }
    ExpandedInLonger((m, n) => Edge(sim, bytes, m, n), nodes, h.depth, nodes + [node], longer.depth, at);
  }

  /** While node at is being expanded and none held is certified, no window shorter than its successors is. */
  lemma {:induction false} NoShorter(
      sim: Simulator, bytes: seq<Byte>, nodes: seq<Node>, reached: seq<Reached>, h: History, at: nat, w: Word, o: nat)
    requires sim.Valid() && forall b: Byte :: Represented(sim.dfa, bytes, b)
    requires Recorded(sim, nodes, reached, h) && Expanding(sim, bytes, nodes, h.depth, at)
    requires forall n | n in nodes :: !IsCertified(n)
    requires Certifies(sim, w, o)
    ensures h.depth[at] + 1 <= |w|
  {
    var walk := AnyCertificateIsWalk(sim, bytes, w, o);
    UnheldIsDeeper((m, n) => Edge(sim, bytes, m, n), nodes, h.depth, at, walk);
  }

  /** Every node the byte leads to is held. */
  ghost predicate AllIn(sim: Simulator, node: Node, byte: Byte, nodes: seq<Node>) {
    forall c | c in Advance(sim, node, byte) :: c.0 in nodes
  }

  // ----- giving up -----

  /** The node stands for the cloud after some window. */
  ghost predicate Stands(sim: Simulator, n: Node) {
    exists w, o :: StandsFor(sim, n, w, o)
  }

  ghost predicate AllStand(sim: Simulator, nodes: seq<Node>) {
    forall i: nat | i < |nodes| :: Stands(sim, nodes[i])
  }

  /** More nodes than the budget stand for windows. */
  ghost predicate Exceeds(sim: Simulator, budget: nat) {
    exists nodes :: |nodes| > budget && Distinct(nodes) && AllStand(sim, nodes)
  }

  /** Every node a window can have. */
  ghost function NodesOf(sim: Simulator): set<Node> {
    (set others | others <= sim.live :: Node(None, others))
    + set q, others | q in sim.live && others <= sim.live :: Node(Some(q), others)
  }

  lemma {:induction false} StandsInNodes(sim: Simulator, n: Node)
    requires sim.Valid() && Stands(sim, n)
    ensures n in NodesOf(sim)
  {
    var w, o :| StandsFor(sim, n, w, o);
    CloudStatesLive(sim, w);
    hide CloudAfter, Simulator.Valid;
    if o.Some? {
      assert Hypothesis(n.chosen.value, Inside(o.value)) in CloudAfter(sim, w);
    }
    assert n.others <= sim.live;
  }

  /** A budget that covers every node a window can have is never exceeded. */
  lemma {:induction false} BudgetSuffices(sim: Simulator, budget: nat)
    requires sim.Valid() && |NodesOf(sim)| <= budget
    ensures !Exceeds(sim, budget)
  {
    hide Stands, NodesOf;
    forall nodes | Distinct(nodes) && AllStand(sim, nodes) ensures |nodes| <= budget {
      ImageSize(nodes);
      forall n | n in Image(nodes) ensures n in NodesOf(sim) {
        var i: nat :| i < |nodes| && nodes[i] == n;
        StandsInNodes(sim, n);
      }
      SubsetSize(Image(nodes), NodesOf(sim));
    }
  }

  lemma {:induction false} OneMoreExceeds(
      sim: Simulator, bytes: seq<Byte>, nodes: seq<Node>, reached: seq<Reached>, h: History, node: Node, w: Word,
      o: Option<nat>,
      budget: nat)
    requires Recorded(sim, nodes, reached, h) && Distinct(nodes) && |nodes| >= budget
    requires node !in nodes && StandsFor(sim, node, w, o)
    ensures Exceeds(sim, budget)
  {
    hide StandsFor;
    var more := nodes + [node];
    forall i: nat | i < |more| ensures Stands(sim, more[i]) {
      if i < |nodes| {
        assert Trails(sim, nodes, reached, h, i);
        assert StandsFor(sim, more[i], h.words[i], h.origins[i]);
      }
    }
    assert AllStand(sim, more) && Distinct(more);
  }

  lemma {:induction false} StartExceeds(sim: Simulator)
    requires sim.Valid() && sim.live != {}
    ensures Exceeds(sim, 0)
  {
    StartStandsFor(sim);
    hide StandsFor;
    var nodes := [StartNode(sim)];
    assert Stands(sim, nodes[0]);
    assert AllStand(sim, nodes) && Distinct(nodes);
  }

  /** What an answer other than nothing promises. */
  ghost predicate Answers(sim: Simulator, budget: nat, r: Outcome) {
    && !r.Nothing? && (r.Budget? ==> Exceeds(sim, budget))
    && (r.Found? ==> Certifies(sim, r.window, r.origin) && forall w, o | Certifies(sim, w, o) :: |r.window| <= |w|)
  }

  /** The nodes reached, in the order they were, which is also the queue, and how each was reached. */
  class WindowSearch {
    const sim: Simulator
    const budget: nat
    const bytes: seq<Byte>
    var nodes: seq<Node>
    var reached: seq<Reached>
    ghost var history: History

    ghost predicate Valid()
      reads this
    {
      && sim.Valid() && (forall b: Byte :: Represented(sim.dfa, bytes, b))
      && Recorded(sim, nodes, reached, history)
      && |nodes| <= budget && Distinct(nodes)
      && forall n | n in nodes :: !IsCertified(n)
    }

    constructor (sim: Simulator, budget: nat, bytes: seq<Byte>)
      requires sim.Valid() && sim.live != {} && budget > 0 && forall b: Byte :: Represented(sim.dfa, bytes, b)
      ensures Valid() && Expanding(sim, bytes, nodes, history.depth, 0)
      ensures this.sim == sim && this.budget == budget && this.bytes == bytes
    {
      this.sim, this.budget, this.bytes := sim, budget, bytes;
      nodes, reached := [StartNode(sim)], [Reached(0, 0, false)];
      history := History([[]], [None], [0]);
      new;
      StartStandsFor(sim);
    }

    /** Admits one node a byte leads to: known already, past the budget, certified, or held for expansion. */
    method Admit(at: nat, byte: Byte, node: Node, chose: bool) returns (finished: Option<Outcome>)
      requires Valid() && Expanding(sim, bytes, nodes, history.depth, at)
      requires (node, chose) in Advance(sim, nodes[at], byte)
      modifies this
      ensures old(nodes) <= nodes
      ensures finished == None ==> Valid() && Expanding(sim, bytes, nodes, history.depth, at) && node in nodes
      ensures finished.Some? ==> Answers(sim, budget, finished.value)
    {
      finished := None;
      if node in nodes {
        return;
      }
      if |nodes| >= budget {
        ghost var beyond := RecordedLonger(sim, bytes, nodes, reached, history, at, byte, node, chose);
        OneMoreExceeds(sim, bytes, nodes, reached, history, node, beyond.words[|nodes|], beyond.origins[|nodes|],
          budget);
        return Some(Budget);
      }
      ghost var longer := RecordedLonger(sim, bytes, nodes, reached, history, at, byte, node, chose);
      if IsCertified(node) {
        forall v, p | Certifies(sim, v, p) ensures history.depth[at] + 1 <= |v| {
          NoShorter(sim, bytes, nodes, reached, history, at, v, p);
        }
      }
      nodes, reached, history := nodes + [node], reached + [Reached(at, byte, chose)], longer;
      if IsCertified(node) {
        ghost var last := |nodes| - 1;
        CertifiedOrigin(sim, node, longer.words[last], longer.origins[last]);
        var window, origin := WindowTo(sim, nodes, reached, history, |nodes| - 1);
        return Some(Found(window, origin));
      }
    }

    method ExpandByte(at: nat, byte: Byte) returns (finished: Option<Outcome>)
      requires Valid() && Expanding(sim, bytes, nodes, history.depth, at)
      modifies this
      ensures old(nodes) <= nodes
      ensures finished == None ==> Valid() && Expanding(sim, bytes, nodes, history.depth, at)
      ensures finished == None ==> AllIn(sim, nodes[at], byte, nodes)
      ensures finished.Some? ==> Answers(sim, budget, finished.value)
    {
      var successors := Advance(sim, nodes[at], byte);
      for i := 0 to |successors|
        invariant old(nodes) <= nodes && Valid() && Expanding(sim, bytes, nodes, history.depth, at)
        invariant forall j | 0 <= j < i :: successors[j].0 in nodes
      {
        assert successors[i] in Advance(sim, nodes[at], byte);
        finished := Admit(at, byte, successors[i].0, successors[i].1);
        if finished != None {
          return;
        }
      }
      finished := None;
    }

    method Expand(at: nat) returns (finished: Option<Outcome>)
      requires Valid() && Expanding(sim, bytes, nodes, history.depth, at)
      modifies this
      ensures old(nodes) <= nodes
      ensures finished == None ==> Valid() && Done(sim, bytes, nodes, history.depth, at)
      ensures finished.Some? ==> Answers(sim, budget, finished.value)
    {
      hide Advance, StandsFor, Edge, Trails, Recorded, Done;
      ghost var node := nodes[at];
      for i := 0 to |bytes|
        invariant old(nodes) <= nodes && Valid() && Expanding(sim, bytes, nodes, history.depth, at)
        invariant forall j | 0 <= j < i :: AllIn(sim, node, bytes[j], nodes)
      {
        finished := ExpandByte(at, bytes[i]);
        if finished != None {
          return;
        }
      }
      finished := None;
      AllEdgesHeld(sim, bytes, nodes, reached, history, at);
    }
  }

  /** Node at is expanded, and the next one, if there is one, can be. */
  ghost predicate Done(sim: Simulator, bytes: seq<Byte>, nodes: seq<Node>, depth: seq<nat>, at: nat) {
    && |nodes| == |depth| && at < |nodes|
    && Expanded((m, n) => Edge(sim, bytes, m, n), nodes, depth, at + 1)
    && (at + 1 < |nodes| ==> Expanding(sim, bytes, nodes, depth, at + 1))
  }

  /** Once every byte of a node is read, its edges lead to nodes held one deeper at most. */
  lemma {:induction false} AllEdgesHeld(
      sim: Simulator, bytes: seq<Byte>, nodes: seq<Node>, reached: seq<Reached>, h: History, at: nat)
    requires Recorded(sim, nodes, reached, h) && Expanding(sim, bytes, nodes, h.depth, at)
    requires forall j | 0 <= j < |bytes| :: AllIn(sim, nodes[at], bytes[j], nodes)
    ensures Done(sim, bytes, nodes, h.depth, at)
  {
    forall n | Edge(sim, bytes, nodes[at], n) ensures HeldBy(nodes, h.depth, n, h.depth[at] + 1) {
      var b, c :| b in bytes && (n, c) in Advance(sim, nodes[at], b);
      var j :| 0 <= j < |bytes| && bytes[j] == b;
      assert AllIn(sim, nodes[at], bytes[j], nodes);
      assert (n, c).0 in nodes;
      var i :| 0 <= i < |nodes| && nodes[i] == n;
      assert i < |nodes| - 1 ==> h.depth[i] <= h.depth[|nodes| - 1];
    }
  }

  /** A certified node stands for a chosen origin, which its window certifies. */
  lemma {:induction false} CertifiedOrigin(sim: Simulator, n: Node, w: Word, o: Option<nat>)
    requires StandsFor(sim, n, w, o) && IsCertified(n)
    ensures o.Some? && Certifies(sim, w, o.value)
  {
    CertifiedNodeCertifies(sim, n, w, o.value);
  }

  /**
    A shortest window whose possible scans all began their last token at one
    offset in it, with the offset; or a proof that no window of any length is such;
    or neither, within the budget of nodes.
   */
  method ShortestSplitWindow(sim: Simulator, budget: nat) returns (r: Outcome)
    requires sim.Valid()
    ensures r.Found? ==> Certifies(sim, r.window, r.origin) && Pins(sim, r.window, r.origin)
    ensures r.Found? ==> forall w, o | Pins(sim, w, o) :: |r.window| <= |w|
    ensures r.Nothing? ==> forall w, o :: !Pins(sim, w, o)
    ensures r.Budget? ==> Exceeds(sim, budget)
    ensures |NodesOf(sim)| <= budget ==> !r.Budget?
  {
    hide Exceeds, NodesOf, Pins, Certifies, Simulator.Valid;
    r := SearchWindows(sim, budget);
    forall w, o ensures Pins(sim, w, o) <==> Certifies(sim, w, o) {
      CertifiesIsPins(sim, w, o);
    }
  }

  /** The search itself, over the nodes that stand for clouds. */
  method SearchWindows(sim: Simulator, budget: nat) returns (r: Outcome)
    requires sim.Valid()
    ensures r.Found? ==> Certifies(sim, r.window, r.origin)
    ensures r.Found? ==> forall w, o | Certifies(sim, w, o) :: |r.window| <= |w|
    ensures r.Nothing? ==> forall w, o :: !Certifies(sim, w, o)
    ensures r.Budget? ==> Exceeds(sim, budget)
    ensures |NodesOf(sim)| <= budget ==> !r.Budget?
  {
    hide Exceeds, NodesOf;
    if |NodesOf(sim)| <= budget {
      BudgetSuffices(sim, budget);
    }
    if sim.live == {} {
      forall w, o ensures !Certifies(sim, w, o) {
        NothingLive(sim, w, o);
      }
      return Nothing;
    }
    if budget == 0 {
      StartExceeds(sim);
      return Budget;
    }
    var bytes := Representatives(sim.dfa);
    var search := new WindowSearch(sim, budget, bytes);
    var at: nat := 0;
    ghost var edges := (m, n) => Edge(sim, bytes, m, n);
    while at < |search.nodes|
      invariant search.Valid() && search.sim == sim && search.budget == budget && search.bytes == bytes
      invariant at <= |search.nodes| == |search.history.depth|
      invariant Expanded(edges, search.nodes, search.history.depth, at)
      invariant at < |search.nodes| ==> Expanding(sim, bytes, search.nodes, search.history.depth, at)
      decreases budget - at
    {
      var finished := search.Expand(at);
      if finished.Some? {
        return finished.value;
      }
      at := at + 1;
    }
    forall w, o ensures !Certifies(sim, w, o) {
      if Certifies(sim, w, o) {
        var walk := AnyCertificateIsWalk(sim, bytes, w, o);
        UnheldIsDeeper(edges, search.nodes, search.history.depth, at, walk);
      }
    }
    return Nothing;
  }
}

/**
  The deterministic automaton a token set compiles to, and the compiled view
  (liveness, re-entrance) that every decision reads.
 */
module Machine {
  import opened Options

  type Byte = b: int | 0 <= b < 256
  type Word = seq<Byte>
  type State = nat
  type Token = nat

  /** A partial DFA; accepts maps each accepting state to its token. */
  datatype Dfa = Dfa(init: State, states: nat, delta: map<(State, Byte), State>, accepts: map<State, Token>) {

    ghost predicate Valid() {
      && init < states
      && (forall k | k in delta :: k.0 < states && delta[k] < states)
      && (forall q | q in accepts :: q < states)
    }

    function Step(q: State, b: Byte): Option<State> {
      if (q, b) in delta then Some(delta[(q, b)]) else None
    }

    predicate Accepting(q: State) {
      q in accepts
    }

    /** The state a word leads to, reading its last byte last. */
    function Run(q: State, w: Word): Option<State> {
      if w == [] then Some(q)
      else
        match Run(q, w[..|w| - 1])
        case None => None
        case Some(p) => Step(p, w[|w| - 1])
    }

    /** The word leads from q to an accepting state. */
    predicate AcceptsFrom(q: State, w: Word) {
      var p := Run(q, w);
      p.Some? && Accepting(p.value)
    }

    predicate Matches(w: Word) {
      AcceptsFrom(init, w)
    }

    /** The token of a matched word. */
    function TokenOf(w: Word): Token
      requires Matches(w)
    {
      accepts[Run(init, w).value]
    }

    ghost predicate Reachable(q: State) {
      exists w :: Run(init, w) == Some(q)
    }

    ghost predicate Coaccessible(q: State) {
      exists w :: AcceptsFrom(q, w)
    }

    /** A scan can stand in the state and still accept. */
    ghost predicate Live(q: State) {
      Reachable(q) && Coaccessible(q)
    }

    /** Some nonempty word leads from the initial state back to it. */
    ghost predicate Reentrant() {
      exists w :: w != [] && Run(init, w) == Some(init)
    }

    lemma {:induction false} RunByte(q: State, b: Byte)
      ensures Run(q, [b]) == Step(q, b)
    {
      assert [b][..0] == [];
    }

    lemma {:induction false} RunSnoc(q: State, w: Word, b: Byte)
      ensures Run(q, w + [b]) == match Run(q, w) case None => None case Some(p) => Step(p, b)
    {
      assert (w + [b])[..|w|] == w;
    }

    /** Reading a concatenation is reading one part after the other. */
    lemma {:induction false} RunAppend(q: State, u: Word, v: Word)
      ensures Run(q, u + v) == match Run(q, u) case None => None case Some(p) => Run(p, v)
      decreases |v|
    {
      if v == [] {
        assert u + v == u;
      } else {
        RunAppend(q, u, v[..|v| - 1]);
        assert (u + v)[..|u + v| - 1] == u + v[..|v| - 1];
      }
    }

    lemma {:induction false} RunInRange(q: State, w: Word)
      requires Valid() && q < states
      ensures Run(q, w).Some? ==> Run(q, w).value < states
    {
      if w != [] {
        RunInRange(q, w[..|w| - 1]);
      }
    }

    lemma {:induction false} ReachableStep(q: State, b: Byte)
      requires Reachable(q) && Step(q, b).Some?
      ensures Reachable(Step(q, b).value)
    {
      var w :| Run(init, w) == Some(q);
      RunSnoc(init, w, b);
    }

    lemma {:induction false} CoaccessibleStep(q: State, b: Byte)
      requires Step(q, b).Some? && Coaccessible(Step(q, b).value)
      ensures Coaccessible(q)
    {
      var w :| AcceptsFrom(Step(q, b).value, w);
      RunByte(q, b);
      RunAppend(q, [b], w);
      assert AcceptsFrom(q, [b] + w);
    }

    /** Every state a matched word passes through, before or after reading part of it, is live. */
    lemma {:induction false} MatchPassesLive(w: Word, k: nat)
      requires k <= |w| && Matches(w)
      ensures Run(init, w[..k]).Some? && Live(Run(init, w[..k]).value)
    {
      assert w[..k] + w[k..] == w;
      RunAppend(init, w[..k], w[k..]);
      assert AcceptsFrom(Run(init, w[..k]).value, w[k..]);
    }
  }

  /** The initial state's transition keys, renamed to a start past every state in use. */
  function FreshKeys(d: Dfa): (keys: set<(State, Byte)>)
    ensures forall q, b :: (q, b) in keys <==> q == d.states && (d.init, b) in d.delta
  {
    set k | k in d.delta && k.0 == d.init :: (d.states, k.1)
  }

  /** The automaton entered through a new start when the given start accepts. */
  function UnrollStart(d: Dfa): Dfa {
    if !d.Accepting(d.init) then d
    else
      Dfa(d.states, d.states + 1, (map k | k in FreshKeys(d) :: d.delta[(d.init, k.1)]) + d.delta, d.accepts)
  }

  lemma {:induction false} UnrolledStep(d: Dfa, q: State, b: Byte)
    requires d.Valid() && d.Accepting(d.init)
    ensures q != d.states ==> UnrollStart(d).Step(q, b) == d.Step(q, b)
    ensures UnrollStart(d).Step(d.states, b) == d.Step(d.init, b)
  {
    assert (d.states, b) !in d.delta;
    assert (d.states, b) in FreshKeys(d) <==> (d.init, b) in d.delta;
  }

  /** Unrolling is the positive-width equivalent: nonempty words run to the same state, so match alike. */
  lemma {:induction false} UnrollKeepsNonempty(d: Dfa, w: Word)
    requires d.Valid() && w != []
    ensures UnrollStart(d).Run(UnrollStart(d).init, w) == d.Run(d.init, w)
    ensures UnrollStart(d).Matches(w) <==> d.Matches(w)
    ensures d.Matches(w) ==> UnrollStart(d).TokenOf(w) == d.TokenOf(w)
  {
    if d.Accepting(d.init) {
      var u := UnrollStart(d);
      if |w| == 1 {
        assert w == [w[0]];
        d.RunByte(d.init, w[0]);
        u.RunByte(u.init, w[0]);
        UnrolledStep(d, d.init, w[0]);
      } else {
        UnrollKeepsNonempty(d, w[..|w| - 1]);
        d.RunInRange(d.init, w[..|w| - 1]);
        var p := d.Run(d.init, w[..|w| - 1]);
        if p.Some? {
          UnrolledStep(d, p.value, w[|w| - 1]);
        }
      }
    }
  }

  /** The unrolled start is valid, never accepts and, when new, is never re-entered. */
  lemma {:induction false} UnrollStartShape(d: Dfa)
    requires d.Valid()
    ensures UnrollStart(d).Valid()
    ensures !UnrollStart(d).Accepting(UnrollStart(d).init)
    ensures d.Accepting(d.init) ==> !UnrollStart(d).Reentrant()
  {
    var u := UnrollStart(d);
    if d.Accepting(d.init) {
      forall k | k in u.delta
        ensures k.0 < u.states && u.delta[k] < d.states
      {
        assert k in d.delta || (k in FreshKeys(d) && (k.0, k.1) in FreshKeys(d));
      }
      if w :| w != [] && u.Run(u.init, w) == Some(u.init) {
        UnrollKeepsNonempty(d, w);
        d.RunInRange(d.init, w);
        assert false;
      }
    }
  }

  /**
    The compiled machine: the automaton, the live states, whether the start is
    re-entered, and the token of the empty match of a set that has one.
   */
  datatype Simulator = Simulator(dfa: Dfa, live: set<State>, reentrant: bool, empty: Option<Token>) {
    ghost predicate Valid() {
      && dfa.Valid()
      && !dfa.Accepting(dfa.init)
      && (forall q :: q in live <==> dfa.Live(q))
      && (reentrant <==> dfa.Reentrant())
    }
  }

  /** The states with a transition into q. */
  function Predecessors(d: Dfa, q: State): set<State> {
    set k | k in d.delta && d.delta[k] == q :: k.0
  }

  function Successors(d: Dfa, q: State): set<State> {
    set k | k in d.delta && k.0 == q :: d.delta[k]
  }

  /** The states with a path into a seed, a seed included. */
  ghost predicate LeadsInto(d: Dfa, q: State, seeds: set<State>) {
    exists w :: d.Run(q, w).Some? && d.Run(q, w).value in seeds
  }

  lemma {:induction false} LeadsIntoStep(d: Dfa, from: State, q: State, seeds: set<State>)
    requires from in Predecessors(d, q) && LeadsInto(d, q, seeds)
    ensures LeadsInto(d, from, seeds)
  {
    var k :| k in d.delta && d.delta[k] == q && k.0 == from;
    var w :| d.Run(q, w).Some? && d.Run(q, w).value in seeds;
    d.RunByte(from, k.1);
    d.RunAppend(from, [k.1], w);
    assert d.Run(from, [k.1] + w).value in seeds;
  }

  /** A set holding the seeds and closed under predecessors holds every state leading into a seed. */
  lemma {:induction false} ClosedHoldsAll(d: Dfa, closed: set<State>, q: State, w: Word)
    requires forall p, from | p in closed && from in Predecessors(d, p) :: from in closed
    requires d.Run(q, w).Some? && d.Run(q, w).value in closed
    ensures q in closed
    decreases |w|
  {
    if w != [] {
      var front, last := w[..|w| - 1], w[|w| - 1];
      var p := d.Run(q, front).value;
      assert (p, last) in d.delta;
      assert p in Predecessors(d, d.delta[(p, last)]);
      ClosedHoldsAll(d, closed, q, front);
    }
  }

  /** Closes the seeds backward over the transitions, from a worklist of states to expand. */
  method ClosedBackward(d: Dfa, seeds: set<State>) returns (closed: set<State>)
    requires d.Valid() && forall q | q in seeds :: q < d.states
    ensures forall q :: q in closed <==> LeadsInto(d, q, seeds)
  {
    closed := seeds;
    var pending := seeds;
    forall q | q in seeds ensures LeadsInto(d, q, seeds) {
      assert d.Run(q, []) == Some(q);
    }
    ghost var all := set k | k in d.delta :: k.0;
    while pending != {}
      invariant seeds <= closed <= seeds + all && pending <= closed
      invariant forall q | q in closed :: LeadsInto(d, q, seeds)
      invariant forall q, from | q in closed - pending && from in Predecessors(d, q) :: from in closed
      decreases seeds + all - closed, pending
    {
      var q :| q in pending;
      pending := pending - {q};
      var unseen := Predecessors(d, q) - closed;
      forall from | from in unseen ensures LeadsInto(d, from, seeds) {
        LeadsIntoStep(d, from, q, seeds);
      }
      if unseen != {} {
        assert seeds + all - (closed + unseen) < seeds + all - closed;
      } else {
        assert closed + unseen == closed && pending + unseen == pending;
      }
      closed, pending := closed + unseen, pending + unseen;
    }
    forall q | LeadsInto(d, q, seeds) ensures q in closed {
      var w :| d.Run(q, w).Some? && d.Run(q, w).value in seeds;
      ClosedHoldsAll(d, closed, q, w);
    }
  }

  /** A set holding the start and closed under successors holds every reachable state. */
  lemma {:induction false} ForwardHoldsAll(d: Dfa, closed: set<State>, w: Word)
    requires d.init in closed
    requires forall q, to | q in closed && to in Successors(d, q) :: to in closed
    requires d.Run(d.init, w).Some?
    ensures d.Run(d.init, w).value in closed
    decreases |w|
  {
    if w != [] {
      var front, last := w[..|w| - 1], w[|w| - 1];
      ForwardHoldsAll(d, closed, front);
      var p := d.Run(d.init, front).value;
      assert (p, last) in d.delta;
      assert d.delta[(p, last)] in Successors(d, p);
    }
  }

  /** The states of all words, closed under steps from the start. */
  method ReachableStates(d: Dfa) returns (reachable: set<State>)
    requires d.Valid()
    ensures forall q :: q in reachable <==> d.Reachable(q)
  {
    reachable := {d.init};
    var pending := {d.init};
    assert d.Run(d.init, []) == Some(d.init);
    ghost var all := {d.init} + d.delta.Values;
    while pending != {}
      invariant d.init in reachable && reachable <= all && pending <= reachable
      invariant forall q | q in reachable :: d.Reachable(q)
      invariant forall q, to | q in reachable - pending && to in Successors(d, q) :: to in reachable
      decreases all - reachable, pending
    {
      var q :| q in pending;
      pending := pending - {q};
      var unseen := Successors(d, q) - reachable;
      forall to | to in unseen ensures d.Reachable(to) && to in all {
        var k :| k in d.delta && k.0 == q && d.delta[k] == to;
        assert d.Step(q, k.1) == Some(to);
        d.ReachableStep(q, k.1);
      }
      if unseen != {} {
        assert all - (reachable + unseen) < all - reachable;
      } else {
        assert reachable + unseen == reachable && pending + unseen == pending;
      }
      reachable, pending := reachable + unseen, pending + unseen;
    }
    forall q | d.Reachable(q) ensures q in reachable {
      var w :| d.Run(d.init, w) == Some(q);
      ForwardHoldsAll(d, reachable, w);
    }
  }

  /** Re-entrance read off one transition out of a reachable state. */
  lemma {:induction false} ReentrantByStep(d: Dfa)
    ensures d.Reentrant() <==> exists q: State, b: Byte :: d.Reachable(q) && d.Step(q, b) == Some(d.init)
  {
    if d.Reentrant() {
      var w :| w != [] && d.Run(d.init, w) == Some(d.init);
      var p := d.Run(d.init, w[..|w| - 1]).value;
      assert d.Reachable(p) && d.Step(p, w[|w| - 1]) == Some(d.init);
    }
    if q: State, b: Byte :| d.Reachable(q) && d.Step(q, b) == Some(d.init) {
      var w :| d.Run(d.init, w) == Some(q);
      d.RunSnoc(d.init, w, b);
      assert w + [b] != [];
    }
  }

  /** Compiles a token set's automaton: unrolls an accepting start and derives the views the decisions read. */
  method Compile(given: Dfa) returns (sim: Simulator)
    requires given.Valid()
    ensures sim.Valid()
    ensures forall w: Word | w != [] :: sim.dfa.Matches(w) <==> given.Matches(w)
    ensures forall w: Word | w != [] && given.Matches(w) :: sim.dfa.TokenOf(w) == given.TokenOf(w)
    ensures sim.empty == if given.Matches([]) then Some(given.TokenOf([])) else None
  {
    var d := UnrollStart(given);
    UnrollStartShape(given);
    var coaccessible := ClosedBackward(d, d.accepts.Keys);
    var reachable := ReachableStates(d);
    var reentrant := exists k :: k in d.delta && k.0 in reachable && d.delta[k] == d.init;
    ReentrantByStep(d);
    assert reentrant <==> d.Reentrant() by {
      if reentrant {
        var k :| k in d.delta && k.0 in reachable && d.delta[k] == d.init;
        assert d.Reachable(k.0) && d.Step(k.0, k.1) == Some(d.init);
      }
      if q: State, b: Byte :| d.Reachable(q) && d.Step(q, b) == Some(d.init) {
        assert (q, b) in d.delta && (q, b).0 in reachable;
      }
    }
    forall q ensures q in coaccessible <==> d.Coaccessible(q) {
      if q in coaccessible {
        var w :| d.Run(q, w).Some? && d.Run(q, w).value in d.accepts.Keys;
        assert d.AcceptsFrom(q, w);
      }
      if w :| d.AcceptsFrom(q, w) {
        assert d.Run(q, w).value in d.accepts.Keys;
      }
    }
    var empty := if given.Accepting(given.init) then Some(given.accepts[given.init]) else None;
    sim := Simulator(d, reachable * coaccessible, reentrant, empty);
    forall w: Word | w != [] ensures d.Matches(w) <==> given.Matches(w)
                             ensures given.Matches(w) ==> d.TokenOf(w) == given.TokenOf(w) {
      UnrollKeepsNonempty(given, w);
    }
  }
}

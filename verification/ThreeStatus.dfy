/**
  A second quotient of the cloud: of each state only whether one in-window origin
  leads to it, or more than one, or one before the window.
 */
module ThreeStatus {
  import opened Options
  import opened Machine
  import opened SplitWindow
  import opened WordSearch
  import Counting
  import ShortestWindow

  /** The states of one in-window origin each, and those blocked: of several origins, or of one before the window. */
  datatype Key = Key(single: set<State>, blocked: set<State>)

  // ----- what a key keeps of a cloud -----

  ghost predicate IsHeld(cloud: Cloud, q: State) {
    exists h | h in cloud :: h.state == q
  }

  ghost predicate IsBlocked(cloud: Cloud, q: State) {
    exists g, h :: Blocks(cloud, q, g, h)
  }

  ghost predicate Blocks(cloud: Cloud, q: State, g: Hypothesis, h: Hypothesis) {
    g in cloud && h in cloud && g.state == h.state == q && (g.origin != h.origin || g.origin == Before)
  }

  ghost function KeyOf(cloud: Cloud): Key {
    Key(
      set h | h in cloud && !IsBlocked(cloud, h.state) :: h.state,
      set h | h in cloud && IsBlocked(cloud, h.state) :: h.state)
  }

  lemma KeyHolds(cloud: Cloud, q: State)
    ensures q in KeyOf(cloud).blocked <==> IsBlocked(cloud, q)
    ensures q in KeyOf(cloud).single <==> IsHeld(cloud, q) && !IsBlocked(cloud, q)
  {
  }

  // ----- one byte -----

  predicate Holds(key: Key, q: State) {
    q in key.single || q in key.blocked
  }

  predicate Renamed(sim: Simulator, key: Key) {
    !sim.reentrant && sim.dfa.init in key.blocked
  }

  predicate AcceptsSomewhere(sim: Simulator, key: Key) {
    exists q | q in key.single + key.blocked :: sim.dfa.Accepting(q)
  }

  /** The state of a token beginning at the byte, where one may. */
  function FreshState(sim: Simulator, key: Key, b: Byte): Option<State> {
    if AcceptsSomewhere(sim, key) || Renamed(sim, key) then LiveStep(sim, sim.dfa.init, b) else None
  }

  /** The member moves to the state, the initial one unless it is renamed. */
  predicate MovesTo(sim: Simulator, key: Key, q: State, b: Byte, p: State) {
    !(Renamed(sim, key) && q == sim.dfa.init) && LiveStep(sim, q, b) == Some(p)
  }

  /** A blocked state arrives, or two of one origin each, the fresh one counted. */
  predicate BlockedNext(sim: Simulator, key: Key, b: Byte, p: State) {
    || (exists q | q in key.blocked :: MovesTo(sim, key, q, b, p))
    || (exists q, r | q in key.single && r in key.single ::
      q != r && MovesTo(sim, key, q, b, p) && MovesTo(sim, key, r, b, p))
    || (FreshState(sim, key, b) == Some(p) && exists q | q in key.single :: MovesTo(sim, key, q, b, p))
  }

  predicate Arrives(sim: Simulator, key: Key, b: Byte, p: State) {
    FreshState(sim, key, b) == Some(p) || exists q | q in key.single + key.blocked :: MovesTo(sim, key, q, b, p)
  }

  function NextKey(sim: Simulator, key: Key, b: Byte): Key {
    Key(
      set p | p in sim.live && Arrives(sim, key, b, p) && !BlockedNext(sim, key, b, p),
      set p | p in sim.live && BlockedNext(sim, key, b, p))
  }

  /** Arrivals counted: blocked ones, and those of one origin each with the fresh one. */
  ghost predicate Counts(
      sim: Simulator, key: Key, b: Byte, arrivals: map<State, nat>, blocked: set<State>, rest: set<State>)
  {
    && (forall p :: p in blocked <==> exists q | q in key.blocked && q !in rest :: MovesTo(sim, key, q, b, p))
    && (forall p :: (p in arrivals && arrivals[p] >= 1) <==>
          exists q | q in key.single && q !in rest && q !in key.blocked :: MovesTo(sim, key, q, b, p))
    && forall p :: (p in arrivals && arrivals[p] >= 2) <==>
         exists q, r | q in key.single && q !in rest && q !in key.blocked && r in key.single && r !in rest
           && r !in key.blocked ::
           q != r && MovesTo(sim, key, q, b, p) && MovesTo(sim, key, r, b, p)
  }

  /** Steps a key on one byte, counting what arrives at each state. */
  method StepKey(sim: Simulator, key: Key, b: Byte) returns (next: Key)
    requires key.single !! key.blocked && key.single <= sim.live && key.blocked <= sim.live
    ensures next == NextKey(sim, key, b)
  {
    hide LiveStep;
    var arrivals: map<State, nat>, blocked: set<State> := map[], {};
    var rest := key.single + key.blocked;
    while rest != {}
      invariant rest <= key.single + key.blocked && Counts(sim, key, b, arrivals, blocked, rest)
      decreases rest
    {
      hide Counts;
      var q :| q in rest;
      ghost var before, was, left := arrivals, blocked, rest;
      rest := rest - {q};
      var to := if Renamed(sim, key) && q == sim.dfa.init then None else LiveStep(sim, q, b);
      if to.Some? {
        if q in key.blocked {
          blocked := blocked + {to.value};
        } else {
          arrivals := arrivals[to.value := (if to.value in arrivals then arrivals[to.value] else 0) + 1];
        }
      }
      CountOne(sim, key, b, before, was, left, q, arrivals, blocked);
    }
    var begun := FreshState(sim, key, b);
    next := Key(
      set p | p in sim.live && (p in arrivals || begun == Some(p)) && p !in blocked && CountAt(arrivals, begun, p) == 1,
      set p | p in sim.live && (p in blocked || CountAt(arrivals, begun, p) >= 2));
    CountsTell(sim, key, b, arrivals, blocked, next);
  }

  function CountAt(arrivals: map<State, nat>, begun: Option<State>, p: State): nat {
    (if p in arrivals then arrivals[p] else 0) + if begun == Some(p) then 1 else 0
  }

  lemma {:induction false} CountOne(
      sim: Simulator, key: Key, b: Byte, before: map<State, nat>, was: set<State>, left: set<State>, q: State,
      arrivals: map<State, nat>, blocked: set<State>)
    requires Counts(sim, key, b, before, was, left) && q in left && q in key.single + key.blocked
    requires var to := if Renamed(sim, key) && q == sim.dfa.init then None else LiveStep(sim, q, b);
      && blocked == (if to.Some? && q in key.blocked then was + {to.value} else was)
      && arrivals == if to.Some? && q !in key.blocked
           then before[to.value := (if to.value in before then before[to.value] else 0) + 1] else before
    ensures Counts(sim, key, b, arrivals, blocked, left - {q})
  {
    hide LiveStep;
    forall p ensures p in blocked <==> exists r | r in key.blocked && r !in left - {q} :: MovesTo(sim, key, r, b, p) {
    }
    CountSingles(sim, key, b, before, was, left, q, arrivals);
  }

  lemma {:induction false} CountSingles(
      sim: Simulator, key: Key, b: Byte, before: map<State, nat>, was: set<State>, left: set<State>, q: State,
      arrivals: map<State, nat>)
    requires Counts(sim, key, b, before, was, left) && q in left && q in key.single + key.blocked
    requires var to := if Renamed(sim, key) && q == sim.dfa.init then None else LiveStep(sim, q, b);
      arrivals == if to.Some? && q !in key.blocked
        then before[to.value := (if to.value in before then before[to.value] else 0) + 1] else before
    ensures forall p :: (p in arrivals && arrivals[p] >= 1) <==>
      exists r | r in key.single && r !in left - {q} && r !in key.blocked :: MovesTo(sim, key, r, b, p)
    ensures forall p :: (p in arrivals && arrivals[p] >= 2) <==>
      exists r, s | r in key.single && r !in left - {q} && r !in key.blocked && s in key.single && s !in left - {q}
        && s !in key.blocked ::
        r != s && MovesTo(sim, key, r, b, p) && MovesTo(sim, key, s, b, p)
  {
    hide LiveStep, Renamed;
    var rest := left - {q};
    forall p
      ensures (p in arrivals && arrivals[p] >= 1) <==>
        exists r | r in key.single && r !in rest && r !in key.blocked :: MovesTo(sim, key, r, b, p)
    {
    }
    forall p
      ensures (p in arrivals && arrivals[p] >= 2) <==>
        exists r, s | r in key.single && r !in rest && r !in key.blocked && s in key.single && s !in rest
          && s !in key.blocked ::
          r != s && MovesTo(sim, key, r, b, p) && MovesTo(sim, key, s, b, p)
    {
      var mine := q in key.single && q !in key.blocked && MovesTo(sim, key, q, b, p);
      if mine && p in before && before[p] >= 1 {
        var r :| r in key.single && r !in left && r !in key.blocked && MovesTo(sim, key, r, b, p);
        assert r != q;
      }
    }
  }

  lemma {:induction false} CountsTell(
      sim: Simulator, key: Key, b: Byte, arrivals: map<State, nat>, blocked: set<State>, next: Key)
    requires Counts(sim, key, b, arrivals, blocked, {}) && key.single !! key.blocked
    requires var begun := FreshState(sim, key, b);
      next == Key(
        set p | p in sim.live && (p in arrivals || begun == Some(p)) && p !in blocked
          && CountAt(arrivals, begun, p) == 1,
        set p | p in sim.live && (p in blocked || CountAt(arrivals, begun, p) >= 2))
    ensures next == NextKey(sim, key, b)
  {
    hide LiveStep, Renamed, FreshState;
    var begun := FreshState(sim, key, b);
    forall p ensures p in next.blocked <==> p in NextKey(sim, key, b).blocked {
      assert (p in arrivals && arrivals[p] >= 1) <==> exists q | q in key.single && q !in key.blocked ::
        MovesTo(sim, key, q, b, p);
    }
    forall p ensures p in next.single <==> p in NextKey(sim, key, b).single {
      assert (p in arrivals && arrivals[p] >= 1) <==> exists q | q in key.single && q !in key.blocked ::
        MovesTo(sim, key, q, b, p);
    }
  }

  // ----- the key abstracts the cloud, byte by byte -----

  /** The fresh hypothesis the byte begins, where one hypothesis accepts or the start is renamed. */
  ghost predicate Begins(sim: Simulator, cloud: Cloud, b: Byte, p: State) {
    && (AnyAccepting(sim, cloud) || (!sim.reentrant && IsHeld(cloud, sim.dfa.init)))
    && LiveStep(sim, sim.dfa.init, b) == Some(p)
  }

  /** A hypothesis moved on under its own origin. */
  ghost predicate MovedFrom(sim: Simulator, cloud: Cloud, b: Byte, h: Hypothesis, g: Hypothesis) {
    && g in cloud && !(g.state == sim.dfa.init && !sim.reentrant)
    && LiveStep(sim, g.state, b) == Some(h.state) && h.origin == g.origin
  }

  /** What the cloud holds after the byte: hypotheses moved on, and the one begun at it. */
  lemma {:induction false} StepHolds(sim: Simulator, w: Word, b: Byte, h: Hypothesis)
    requires sim.Valid()
    ensures h in CloudAfter(sim, w + [b]) <==>
      (exists g :: MovedFrom(sim, CloudAfter(sim, w), b, h, g))
      || (h.origin == Inside(|w|) && Begins(sim, CloudAfter(sim, w), b, h.state))
  {
    CloudSnoc(sim, w, b);
    var cloud := CloudAfter(sim, w);
    hide CloudAfter, LiveStep, Simulator.Valid;
    if h in MovedAll(sim, cloud, b, |w|) {
      var g :| g in cloud && Moved(sim, g, b, |w|) == Some(h);
      if !(g.state == sim.dfa.init && !sim.reentrant) {
        assert MovedFrom(sim, cloud, b, h, g);
      }
    }
    if g :| MovedFrom(sim, cloud, b, h, g) {
      assert Moved(sim, g, b, |w|) == Some(h);
    }
    if h.origin == Inside(|w|) && Begins(sim, cloud, b, h.state) && !AnyAccepting(sim, cloud) {
      var g :| g in cloud && g.state == sim.dfa.init;
      assert Moved(sim, g, b, |w|) == Some(h);
    }
  }

  /** Only before the first byte is a start that nothing re-enters a hypothesis, and then it is blocked. */
  lemma {:induction false} RenamedIsHeld(sim: Simulator, w: Word)
    requires sim.Valid()
    ensures Renamed(sim, KeyOf(CloudAfter(sim, w))) <==> !sim.reentrant && IsHeld(CloudAfter(sim, w), sim.dfa.init)
  {
    var cloud := CloudAfter(sim, w);
    KeyHolds(cloud, sim.dfa.init);
    if !sim.reentrant && IsHeld(cloud, sim.dfa.init) {
      var h :| h in cloud && h.state == sim.dfa.init;
      ShortestWindow.StartLeftBehind(sim, w, h);
      assert Blocks(cloud, sim.dfa.init, h, h);
    }
  }

  lemma {:induction false} AcceptingSeen(sim: Simulator, cloud: Cloud)
    ensures AcceptsSomewhere(sim, KeyOf(cloud)) <==> AnyAccepting(sim, cloud)
  {
    hide IsBlocked;
    var key := KeyOf(cloud);
    if h :| h in cloud && sim.dfa.Accepting(h.state) {
      assert h.state in key.single + key.blocked;
    }
    if q :| q in key.single + key.blocked && sim.dfa.Accepting(q) {
      var h :| h in cloud && h.state == q;
    }
  }

  lemma {:induction false} FreshBegins(sim: Simulator, w: Word, b: Byte, p: State)
    requires sim.Valid()
    ensures FreshState(sim, KeyOf(CloudAfter(sim, w)), b) == Some(p) <==> Begins(sim, CloudAfter(sim, w), b, p)
  {
    RenamedIsHeld(sim, w);
    AcceptingSeen(sim, CloudAfter(sim, w));
    hide CloudAfter, KeyOf, LiveStep;
  }

  /** A member of the key moves where its hypotheses do. */
  lemma {:induction false} MemberMoves(sim: Simulator, w: Word, b: Byte, g: Hypothesis, p: State)
    requires sim.Valid() && g in CloudAfter(sim, w)
    ensures MovesTo(sim, KeyOf(CloudAfter(sim, w)), g.state, b, p)
       <==> MovedFrom(sim, CloudAfter(sim, w), b, Hypothesis(p, g.origin), g)
  {
    RenamedIsHeld(sim, w);
    hide CloudAfter, KeyOf, LiveStep;
    assert IsHeld(CloudAfter(sim, w), g.state);
  }

  /** A state is held after the byte exactly where the key has something arrive. */
  lemma {:induction false} HeldArrives(sim: Simulator, w: Word, b: Byte, p: State)
    requires sim.Valid()
    ensures IsHeld(CloudAfter(sim, w + [b]), p) <==> Arrives(sim, KeyOf(CloudAfter(sim, w)), b, p)
  {
    var cloud, next := CloudAfter(sim, w), CloudAfter(sim, w + [b]);
    var key := KeyOf(cloud);
    FreshBegins(sim, w, b, p);
    hide CloudAfter, LiveStep, Simulator.Valid, MovesTo, Begins, FreshState;
    if IsHeld(next, p) {
      var h :| h in next && h.state == p;
      StepHolds(sim, w, b, h);
      if g :| MovedFrom(sim, cloud, b, h, g) {
        MemberMoves(sim, w, b, g, p);
        assert g.state in key.single + key.blocked;
      }
    }
    if FreshState(sim, key, b) == Some(p) {
      StepHolds(sim, w, b, Hypothesis(p, Inside(|w|)));
    }
    if q :| q in key.single + key.blocked && MovesTo(sim, key, q, b, p) {
      var g :| g in cloud && g.state == q;
      MemberMoves(sim, w, b, g, p);
      StepHolds(sim, w, b, Hypothesis(p, g.origin));
    }
  }

  /**
    What blocks a state after the byte blocked it before, or comes from two states of one origin
    each, or from one and the fresh start.
   */
  lemma {:induction false} BlockedComes(sim: Simulator, w: Word, b: Byte, p: State, g: Hypothesis, h: Hypothesis)
    requires sim.Valid() && Blocks(CloudAfter(sim, w + [b]), p, g, h)
    ensures BlockedNext(sim, KeyOf(CloudAfter(sim, w)), b, p)
  {
    var cloud := CloudAfter(sim, w);
    StepHolds(sim, w, b, g);
    StepHolds(sim, w, b, h);
    hide CloudAfter, LiveStep, Simulator.Valid, MovesTo, Begins, FreshState;
    if x :| MovedFrom(sim, cloud, b, g, x) {
      if y :| MovedFrom(sim, cloud, b, h, y) {
        BothMoved(sim, w, b, p, g, h, x, y);
      } else {
        MovedAndBegun(sim, w, b, p, g, x);
      }
    } else {
      var y :| MovedFrom(sim, cloud, b, h, y);
      MovedAndBegun(sim, w, b, p, h, y);
    }
  }

  lemma {:induction false} BothMoved(
      sim: Simulator, w: Word, b: Byte, p: State, g: Hypothesis, h: Hypothesis, x: Hypothesis, y: Hypothesis)
    requires sim.Valid() && g.state == h.state == p && (g.origin != h.origin || g.origin == Before)
    requires MovedFrom(sim, CloudAfter(sim, w), b, g, x) && MovedFrom(sim, CloudAfter(sim, w), b, h, y)
    ensures BlockedNext(sim, KeyOf(CloudAfter(sim, w)), b, p)
  {
    var cloud := CloudAfter(sim, w);
    var key := KeyOf(cloud);
    MemberMoves(sim, w, b, x, p);
    MemberMoves(sim, w, b, y, p);
    KeyHolds(cloud, x.state);
    KeyHolds(cloud, y.state);
    hide CloudAfter, LiveStep, Simulator.Valid, MovesTo, FreshState, KeyOf;
    assert IsHeld(cloud, x.state) && IsHeld(cloud, y.state);
    if x.state == y.state {
      assert Blocks(cloud, x.state, x, y);
    } else if x.origin == Before {
      assert Blocks(cloud, x.state, x, x);
    }
  }

  lemma {:induction false} MovedAndBegun(sim: Simulator, w: Word, b: Byte, p: State, g: Hypothesis, x: Hypothesis)
    requires sim.Valid() && g.state == p && MovedFrom(sim, CloudAfter(sim, w), b, g, x)
    requires Begins(sim, CloudAfter(sim, w), b, p)
    ensures BlockedNext(sim, KeyOf(CloudAfter(sim, w)), b, p)
  {
    var cloud := CloudAfter(sim, w);
    MemberMoves(sim, w, b, x, p);
    FreshBegins(sim, w, b, p);
    KeyHolds(cloud, x.state);
    hide CloudAfter, LiveStep, Simulator.Valid, MovesTo, FreshState, KeyOf, Begins;
    assert IsHeld(cloud, x.state);
  }

  /** What the key blocks is blocked in the cloud after the byte. */
  lemma {:induction false} BlockedStays(sim: Simulator, w: Word, b: Byte, p: State)
    requires sim.Valid() && BlockedNext(sim, KeyOf(CloudAfter(sim, w)), b, p)
    ensures IsBlocked(CloudAfter(sim, w + [b]), p)
  {
    var cloud := CloudAfter(sim, w);
    var key := KeyOf(cloud);
    hide CloudAfter, LiveStep, Simulator.Valid, MovesTo, FreshState, Begins;
    if q :| q in key.blocked && MovesTo(sim, key, q, b, p) {
      KeyHolds(cloud, q);
      var x, y :| Blocks(cloud, q, x, y);
      MovesBoth(sim, w, b, p, x, y);
    } else if q, r :|
      q in key.single && r in key.single && q != r && MovesTo(sim, key, q, b, p) && MovesTo(sim, key, r, b, p)
    {
      var x := SingleOf(sim, w, q);
      var y := SingleOf(sim, w, r);
      if x.origin == y.origin {
        ShortestWindow.OriginUnique(sim, w, x, y);
      }
      MovesBoth(sim, w, b, p, x, y);
    } else {
      var q :| q in key.single && MovesTo(sim, key, q, b, p);
      var x := SingleOf(sim, w, q);
      SingleAndFresh(sim, w, b, p, x);
    }
  }

  /** A state of one origin has a hypothesis begun inside the window. */
  lemma {:induction false} SingleOf(sim: Simulator, w: Word, q: State) returns (h: Hypothesis)
    requires q in KeyOf(CloudAfter(sim, w)).single
    ensures h in CloudAfter(sim, w) && h.state == q && h.origin.Inside?
  {
    var cloud := CloudAfter(sim, w);
    hide CloudAfter;
    h :| h in cloud && h.state == q;
    assert !Blocks(cloud, q, h, h);
  }

  lemma {:induction false} MovesBoth(sim: Simulator, w: Word, b: Byte, p: State, x: Hypothesis, y: Hypothesis)
    requires sim.Valid() && x in CloudAfter(sim, w) && y in CloudAfter(sim, w)
    requires (x.origin != y.origin || x.origin == Before)
    requires MovesTo(sim, KeyOf(CloudAfter(sim, w)), x.state, b, p)
    requires MovesTo(sim, KeyOf(CloudAfter(sim, w)), y.state, b, p)
    ensures IsBlocked(CloudAfter(sim, w + [b]), p)
  {
    MemberMoves(sim, w, b, x, p);
    MemberMoves(sim, w, b, y, p);
    var g, h := Hypothesis(p, x.origin), Hypothesis(p, y.origin);
    StepHolds(sim, w, b, g);
    StepHolds(sim, w, b, h);
    hide CloudAfter, LiveStep, Simulator.Valid, MovesTo, Begins, KeyOf;
    assert Blocks(CloudAfter(sim, w + [b]), p, g, h);
  }

  lemma {:induction false} SingleAndFresh(sim: Simulator, w: Word, b: Byte, p: State, x: Hypothesis)
    requires sim.Valid() && x in CloudAfter(sim, w) && MovesTo(sim, KeyOf(CloudAfter(sim, w)), x.state, b, p)
    requires FreshState(sim, KeyOf(CloudAfter(sim, w)), b) == Some(p)
    ensures IsBlocked(CloudAfter(sim, w + [b]), p)
  {
    MemberMoves(sim, w, b, x, p);
    FreshBegins(sim, w, b, p);
    ShortestWindow.CloudStatesLive(sim, w);
    var g, h := Hypothesis(p, x.origin), Hypothesis(p, Inside(|w|));
    StepHolds(sim, w, b, g);
    StepHolds(sim, w, b, h);
    hide CloudAfter, LiveStep, Simulator.Valid, MovesTo, Begins, KeyOf, FreshState;
    assert Blocks(CloudAfter(sim, w + [b]), p, g, h);
  }

  /** The key after one more byte is the key's own step: three statuses lose nothing the step needs. */
  lemma {:induction false} KeyAbstracts(sim: Simulator, w: Word, b: Byte)
    requires sim.Valid()
    ensures KeyOf(CloudAfter(sim, w + [b])) == NextKey(sim, KeyOf(CloudAfter(sim, w)), b)
  {
    var next, key := CloudAfter(sim, w + [b]), KeyOf(CloudAfter(sim, w));
    forall p
      ensures p in KeyOf(next).blocked <==> p in NextKey(sim, key, b).blocked
      ensures p in KeyOf(next).single <==> p in NextKey(sim, key, b).single
    {
      KeyHolds(next, p);
      HeldArrives(sim, w, b, p);
      BlockedIff(sim, w, b, p);
      HeldLive(sim, w + [b], p);
      hide CloudAfter, Arrives, BlockedNext, IsBlocked, IsHeld, Simulator.Valid;
      hide KeyOf;
    }
    hide CloudAfter, KeyOf, NextKey;
  }

  lemma {:induction false} BlockedIff(sim: Simulator, w: Word, b: Byte, p: State)
    requires sim.Valid()
    ensures IsBlocked(CloudAfter(sim, w + [b]), p) <==> BlockedNext(sim, KeyOf(CloudAfter(sim, w)), b, p)
  {
    hide CloudAfter, BlockedNext, Blocks, Simulator.Valid;
    if BlockedNext(sim, KeyOf(CloudAfter(sim, w)), b, p) {
      BlockedStays(sim, w, b, p);
    }
    if g, h :| Blocks(CloudAfter(sim, w + [b]), p, g, h) {
      BlockedComes(sim, w, b, p, g, h);
    }
  }

  lemma {:induction false} HeldLive(sim: Simulator, w: Word, p: State)
    requires sim.Valid()
    ensures IsHeld(CloudAfter(sim, w), p) ==> p in sim.live
    ensures IsBlocked(CloudAfter(sim, w), p) ==> IsHeld(CloudAfter(sim, w), p)
  {
    ShortestWindow.CloudStatesLive(sim, w);
  }

  // ----- certificates -----

  /** Nothing is blocked, and one state of one origin is left. */
  predicate IsCertified(key: Key) {
    key.blocked == {} && |key.single| == 1
  }

  predicate IsDead(key: Key) {
    key.blocked == {} && key.single == {}
  }

  /** A window certifies exactly where its key is certified. */
  lemma {:induction false} CertifiedKey(sim: Simulator, w: Word)
    requires sim.Valid() && w != []
    ensures IsCertified(KeyOf(CloudAfter(sim, w))) <==> exists o :: Certifies(sim, w, o)
  {
    var cloud := CloudAfter(sim, w);
    if o :| Certifies(sim, w, o) {
      CertificateKey(sim, w, o);
    }
    if IsCertified(KeyOf(cloud)) {
      var o := KeyCertificate(sim, w);
    }
  }

  lemma {:induction false} CertificateKey(sim: Simulator, w: Word, o: nat)
    requires sim.Valid() && Certifies(sim, w, o)
    ensures IsCertified(KeyOf(CloudAfter(sim, w)))
  {
    var cloud := CloudAfter(sim, w);
    var h :| h in cloud;
    forall g | g in cloud ensures g == h {
      ShortestWindow.OriginUnique(sim, w, g, h);
    }
    hide CloudAfter, Simulator.Valid;
    forall q ensures !IsBlocked(cloud, q) {
    }
    assert KeyOf(cloud).single == {h.state};
  }

  lemma {:induction false} KeyCertificate(sim: Simulator, w: Word) returns (o: nat)
    requires sim.Valid() && w != [] && IsCertified(KeyOf(CloudAfter(sim, w)))
    ensures Certifies(sim, w, o)
  {
    var cloud := CloudAfter(sim, w);
    var key := KeyOf(cloud);
    var q :| q in key.single;
    var h := SingleOf(sim, w, q);
    hide CloudAfter, Simulator.Valid;
    o := h.origin.at;
    forall g | g in cloud ensures g.origin == Inside(o) {
      OneSingle(cloud, key, g, h);
    }
  }

  lemma {:induction false} OneSingle(cloud: Cloud, key: Key, g: Hypothesis, h: Hypothesis)
    requires key == KeyOf(cloud) && IsCertified(key) && g in cloud && h in cloud && h.origin != Before
    ensures g.origin == h.origin
  {
    KeyHolds(cloud, g.state);
    KeyHolds(cloud, h.state);
    assert g.state in key.single && h.state in key.single;
    OnlyMember(key.single, g.state, h.state);
    assert !Blocks(cloud, g.state, g, h);
  }

  lemma {:induction false} OnlyMember(s: set<State>, a: State, b: State)
    requires |s| == 1 && a in s && b in s
    ensures a == b
  {
    if a != b {
      Counting.SubsetSize({a, b}, s);
    }
  }

  lemma {:induction false} DeadCloud(sim: Simulator, w: Word)
    ensures IsDead(KeyOf(CloudAfter(sim, w))) <==> CloudAfter(sim, w) == {}
  {
    var cloud := CloudAfter(sim, w);
    hide CloudAfter;
    if h :| h in cloud {
      assert h.state in KeyOf(cloud).single + KeyOf(cloud).blocked;
    }
  }

  // ----- the search -----

  /** Before the window every live state is of an origin before it. */
  function StartKey(sim: Simulator): Key {
    Key({}, sim.live)
  }

  lemma {:induction false} StartIsKey(sim: Simulator)
    ensures StartKey(sim) == KeyOf(CloudAfter(sim, []))
  {
    var cloud := InitialCloud(sim);
    forall q | q in sim.live ensures IsBlocked(cloud, q) {
      assert Blocks(cloud, q, Hypothesis(q, Before), Hypothesis(q, Before));
    }
    assert forall q | q in sim.live :: Hypothesis(q, Before) in cloud && Hypothesis(q, Before).state == q;
    assert forall q :: q in KeyOf(cloud).blocked <==> q in sim.live;
  }

  /** A byte ends the search at a certified key, and is followed to any other that is not dead. */
  function KeyStep(sim: Simulator, key: Key, b: Byte): Step<Key> {
    var next := NextKey(sim, key, b);
    if IsDead(next) then Step([], false) else if IsCertified(next) then Step([], true) else Step([next], false)
  }

  ghost function Expand(sim: Simulator): (Key, Byte) -> Step<Key> {
    (key: Key, b: Byte) => KeyStep(sim, key, b)
  }

  function KeysOf(sim: Simulator): set<Key> {
    set single, blocked | single <= sim.live && blocked <= sim.live :: Key(single, blocked)
  }

  /** A word leads to its own key. */
  lemma {:induction false} LeadsToKey(sim: Simulator, w: Word, key: Key)
    requires sim.Valid() && Leads(Expand(sim), StartKey(sim), w, key)
    ensures key == KeyOf(CloudAfter(sim, w))
    decreases |w|
  {
    hide CloudAfter, KeyOf, NextKey, Simulator.Valid;
    if w == [] {
      StartIsKey(sim);
    } else {
      var front, b := w[..|w| - 1], w[|w| - 1];
      var k :| Leads(Expand(sim), StartKey(sim), front, k) && Passes(Expand(sim), k, b, key);
      LeadsToKey(sim, front, k);
      KeyAbstracts(sim, front, b);
      assert front + [b] == w;
    }
  }

  lemma {:induction false} EndCertifies(sim: Simulator, w: Word) returns (o: nat)
    requires sim.Valid() && EndsOn(Expand(sim), StartKey(sim), w)
    ensures Certifies(sim, w, o)
  {
    hide CloudAfter, KeyOf, NextKey, Simulator.Valid;
    var front, b := w[..|w| - 1], w[|w| - 1];
    var k := EndsAtKey(Expand(sim), StartKey(sim), w);
    LeadsToKey(sim, front, k);
    KeyAbstracts(sim, front, b);
    assert front + [b] == w;
    o := KeyCertificate(sim, w);
  }

  /** A certified window ends the search, itself or a part of it. */
  lemma {:induction false} CertificateEnds(sim: Simulator, w: Word, o: nat) returns (j: nat)
    requires sim.Valid() && Certifies(sim, w, o)
    ensures j <= |w| && EndsOn(Expand(sim), StartKey(sim), w[..j])
  {
    hide CloudAfter, KeyOf, NextKey, IsDead, IsCertified, Simulator.Valid, Certifies;
    var keys := seq(|w|, k requires 0 <= k < |w| => KeyOf(CloudAfter(sim, w[..k])));
    var expand := Expand(sim);
    StartIsKey(sim);
    assert w[..0] == [];
    forall k: nat | k < |w|
      ensures expand(keys[k], w[k]).ends || (k + 1 < |w| && keys[k + 1] in expand(keys[k], w[k]).successors)
    {
      AlongCertificate(sim, w, o, k);
    }
    CertifiedNotEmpty(sim, w, o);
    j := SomePrefixEnds(expand, StartKey(sim), w, keys, 0);
  }

  lemma CertifiedNotEmpty(sim: Simulator, w: Word, o: nat)
    requires Certifies(sim, w, o)
    ensures w != []
  {
  }

  /** Along a certified window every key but the last either ends the search early or leads to the next. */
  lemma {:induction false} AlongCertificate(sim: Simulator, w: Word, o: nat, k: nat)
    requires sim.Valid() && Certifies(sim, w, o) && k < |w|
    ensures var step := KeyStep(sim, KeyOf(CloudAfter(sim, w[..k])), w[k]);
      step.ends || (k + 1 < |w| && KeyOf(CloudAfter(sim, w[..k + 1])) in step.successors)
  {
    hide CloudAfter, KeyOf, NextKey, IsDead, IsCertified, Simulator.Valid;
    KeyAbstracts(sim, w[..k], w[k]);
    assert w[..k + 1] == w[..k] + [w[k]];
    DeadCloud(sim, w[..k + 1]);
    if CloudAfter(sim, w[..k + 1]) == {} {
      EmptyCloudAbsorbs(sim, w, k + 1);
    }
    if k + 1 == |w| {
      assert w[..k + 1] == w;
      CertificateKey(sim, w, o);
    }
  }

  lemma {:induction false} KeysSuffice(sim: Simulator)
    ensures !Exceeds(Expand(sim), StartKey(sim), |KeysOf(sim)|)
  {
    var expand := Expand(sim);
    forall m, b: Byte, n | m in KeysOf(sim) && n in expand(m, b).successors ensures n in KeysOf(sim) {
      assert n == NextKey(sim, m, b) && n.single <= sim.live && n.blocked <= sim.live;
    }
    UniverseSuffices(expand, StartKey(sim), |KeysOf(sim)|, KeysOf(sim));
  }

  /** The length of a shortest certified window. */
  ghost predicate IsLeast(sim: Simulator, length: nat) {
    && (exists w, o :: Pins(sim, w, o) && |w| == length)
    && forall w, o | Pins(sim, w, o) :: length <= |w|
  }

  /** The least length of a certified window, found over the three-status keys; nothing where no window certifies. */
  method ThreeStatusSearch(sim: Simulator) returns (shortest: Option<nat>)
    requires sim.Valid()
    ensures shortest.Some? ==> IsLeast(sim, shortest.value)
    ensures shortest.None? ==> forall w, o :: !Pins(sim, w, o)
  {
    hide Exceeds, KeysOf, KeyStep, CloudAfter, Certifies, Simulator.Valid, Pins;
    forall w, o ensures Pins(sim, w, o) <==> Certifies(sim, w, o) {
      CertifiesIsPins(sim, w, o);
    }
    var expand := (key: Key, b: Byte) => KeyStep(sim, key, b);
    var found, exhaustive := RunSearch(StartKey(sim), |KeysOf(sim)|, expand);
    assert expand == Expand(sim);
    KeysSuffice(sim);
    forall w, o | Certifies(sim, w, o) ensures exists j: nat :: j <= |w| && EndsOn(Expand(sim), StartKey(sim), w[..j]) {
      var j := CertificateEnds(sim, w, o);
    }
    if found == [] {
      return None;
    }
    ghost var o := EndCertifies(sim, found);
    shortest := Some(|found|);
  }

  /** The search over keys and the search for a chosen origin find the same length, or both none. */
  lemma {:induction false} SearchesAgree(sim: Simulator, shortest: Option<nat>, r: ShortestWindow.Outcome)
    requires shortest.Some? ==> IsLeast(sim, shortest.value)
    requires shortest.None? ==> forall w, o :: !Pins(sim, w, o)
    requires r.Found? ==> Pins(sim, r.window, r.origin) && forall w, o | Pins(sim, w, o) :: |r.window| <= |w|
    requires r.Nothing? ==> forall w, o :: !Pins(sim, w, o)
    ensures r.Found? ==> shortest == Some(|r.window|)
    ensures r.Nothing? ==> shortest == None
  {
    hide Pins;
    if shortest.Some? {
      var w, o :| Pins(sim, w, o) && |w| == shortest.value;
    }
  }
}

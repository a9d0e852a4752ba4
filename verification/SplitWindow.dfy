/**
  Certified split windows: the cloud of hypotheses about where a scan could be,
  and what its agreement proves about every completely tokenizable input.
 */
module SplitWindow {
  import opened Options
  import opened Machine
  import opened Munch

  /** Where a hypothesis' token began: before the window, or at an offset into it. */
  datatype Origin = Before | Inside(at: nat)

  datatype Hypothesis = Hypothesis(state: State, origin: Origin)

  type Cloud = set<Hypothesis>

  function LiveStep(sim: Simulator, q: State, b: Byte): Option<State> {
    match sim.dfa.Step(q, b)
    case Some(p) => if p in sim.live then Some(p) else None
    case None => None
  }

  function InitialCloud(sim: Simulator): Cloud {
    set q | q in sim.live :: Hypothesis(q, Before)
  }

  predicate AnyAccepting(sim: Simulator, cloud: Cloud) {
    exists h | h in cloud :: sim.dfa.Accepting(h.state)
  }

  /**
    A hypothesis after byte number at of the window, its token beginning there when only a fresh
    scan stands in its state.
   */
  function Moved(sim: Simulator, h: Hypothesis, b: Byte, at: nat): Option<Hypothesis> {
    match LiveStep(sim, h.state, b)
    case None => None
    case Some(p) =>
      var begins := h.state == sim.dfa.init && !sim.reentrant;
      Some(Hypothesis(p, if begins then Inside(at) else h.origin))
  }

  function MovedAll(sim: Simulator, hs: Cloud, b: Byte, at: nat): Cloud {
    set h | h in hs && Moved(sim, h, b, at).Some? :: Moved(sim, h, b, at).value
  }

  lemma MovedOneMore(sim: Simulator, hs: Cloud, h: Hypothesis, b: Byte, at: nat)
    ensures MovedAll(sim, hs + {h}, b, at)
         == MovedAll(sim, hs, b, at) + match Moved(sim, h, b, at) case Some(m) => {m} case None => {}
  {
  }

  /** The hypothesis of a token beginning at the byte, possible where some hypothesis had just accepted. */
  function Begun(sim: Simulator, cloud: Cloud, b: Byte, at: nat): Cloud {
    match LiveStep(sim, sim.dfa.init, b)
    case Some(p) => if AnyAccepting(sim, cloud) then {Hypothesis(p, Inside(at))} else {}
    case None => {}
  }

  function CloudStep(sim: Simulator, cloud: Cloud, b: Byte, at: nat): Cloud {
    MovedAll(sim, cloud, b, at) + Begun(sim, cloud, b, at)
  }

  /** The hypotheses left after reading the window. */
  function CloudAfter(sim: Simulator, w: Word): Cloud {
    if w == [] then InitialCloud(sim)
    else CloudStep(sim, CloudAfter(sim, w[..|w| - 1]), w[|w| - 1], |w| - 1)
  }

  /** Some hypothesis survives the window, and all that do agree on the in-window origin o. */
  ghost predicate Certifies(sim: Simulator, w: Word, o: nat) {
    && w != []
    && CloudAfter(sim, w) != {}
    && forall h | h in CloudAfter(sim, w) :: h.origin == Inside(o)
  }

  // ----- what the cloud holds, in terms of the scans there could have been -----

  /**
    A past a scan could have over the window: the state after each number of bytes, and whether a
    token began at each byte. It stands in a live state before the window; a token begins only where
    the state accepts, or where it is a start nothing comes back to, and there always.
   */
  ghost predicate IsPast(sim: Simulator, w: Word, states: seq<State>, begins: seq<bool>) {
    && |states| == |w| + 1 && |begins| == |w| && sim.dfa.Live(states[0])
    && forall k | 0 <= k < |w| :: PastReads(sim, w, states, begins, k)
  }

  ghost predicate PastReads(sim: Simulator, w: Word, states: seq<State>, begins: seq<bool>, k: nat)
    requires k < |w| && |states| == |w| + 1 && |begins| == |w|
  {
    var d := sim.dfa;
    && d.Step(if begins[k] then d.init else states[k], w[k]) == Some(states[k + 1]) && d.Live(states[k + 1])
    && (begins[k] ==> states[k] in d.accepts || (states[k] == d.init && !d.Reentrant()))
    && (states[k] == d.init && !d.Reentrant() ==> begins[k])
  }

  /** The last token began there. */
  ghost predicate LastBegan(begins: seq<bool>, origin: Origin) {
    match origin
    case Before => forall k | 0 <= k < |begins| :: !begins[k]
    case Inside(at) => at < |begins| && begins[at] && forall k | at < k < |begins| :: !begins[k]
  }

  /** Some scan could stand in the state after the window, its last token begun at the origin. */
  ghost predicate Possible(sim: Simulator, w: Word, q: State, origin: Origin) {
    exists states, begins :: IsPast(sim, w, states, begins) && states[|w|] == q && LastBegan(begins, origin)
  }

  /** The scans that could have read the window, of which there is one, all began their last token at o inside it. */
  ghost predicate Pins(sim: Simulator, w: Word, o: nat) {
    && w != [] && (exists q, origin :: Possible(sim, w, q, origin))
    && forall q, origin | Possible(sim, w, q, origin) :: origin == Inside(o)
  }

  lemma {:induction false} SomeLastBegan(begins: seq<bool>) returns (origin: Origin)
    ensures LastBegan(begins, origin)
  {
    if begins == [] {
      origin := Before;
    } else if begins[|begins| - 1] {
      origin := Inside(|begins| - 1);
    } else {
      origin := SomeLastBegan(begins[..|begins| - 1]);
      assert LastBegan(begins[..|begins| - 1], origin);
    }
  }

  lemma {:induction false} PastFront(sim: Simulator, w: Word, states: seq<State>, begins: seq<bool>)
    requires w != [] && IsPast(sim, w, states, begins)
    ensures IsPast(sim, w[..|w| - 1], states[..|w|], begins[..|w| - 1])
    ensures PastReads(sim, w, states, begins, |w| - 1)
  {
    var v, s, g := w[..|w| - 1], states[..|w|], begins[..|w| - 1];
    forall k | 0 <= k < |v| ensures PastReads(sim, v, s, g, k) {
      assert PastReads(sim, w, states, begins, k);
    }
  }

  lemma {:induction false} PastMore(
      sim: Simulator, w: Word, states: seq<State>, begins: seq<bool>, b: Byte, q: State, begin: bool)
    requires IsPast(sim, w, states, begins)
    requires PastReads(sim, w + [b], states + [q], begins + [begin], |w|)
    ensures IsPast(sim, w + [b], states + [q], begins + [begin])
  {
    var v, s, g := w + [b], states + [q], begins + [begin];
    forall k | 0 <= k < |v| ensures PastReads(sim, v, s, g, k) {
      if k < |w| {
        assert PastReads(sim, w, states, begins, k);
      }
    }
  }

  /** Every hypothesis of the cloud is a scan's that could have been. */
  lemma {:induction false} HypothesisPossible(sim: Simulator, w: Word, h: Hypothesis)
    requires sim.Valid() && h in CloudAfter(sim, w)
    ensures Possible(sim, w, h.state, h.origin)
    decreases |w|
  {
    if w == [] {
      assert IsPast(sim, w, [h.state], []) && LastBegan([], h.origin);
    } else {
      var v, b := w[..|w| - 1], w[|w| - 1];
      assert v + [b] == w;
      var cloud := CloudAfter(sim, v);
      if h in MovedAll(sim, cloud, b, |v|) {
        var g :| g in cloud && Moved(sim, g, b, |v|) == Some(h);
        HypothesisPossible(sim, v, g);
        MovedPossible(sim, v, b, g, h);
      } else {
        assert h in Begun(sim, cloud, b, |v|);
        var g :| g in cloud && sim.dfa.Accepting(g.state);
        HypothesisPossible(sim, v, g);
        BegunPossible(sim, v, b, g, h);
      }
    }
  }

  lemma {:induction false} MovedPossible(sim: Simulator, w: Word, b: Byte, g: Hypothesis, h: Hypothesis)
    requires sim.Valid() && Possible(sim, w, g.state, g.origin) && Moved(sim, g, b, |w|) == Some(h)
    ensures Possible(sim, w + [b], h.state, h.origin)
  {
    var states, begins :| IsPast(sim, w, states, begins) && states[|w|] == g.state && LastBegan(begins, g.origin);
    var begin := g.state == sim.dfa.init && !sim.reentrant;
    PastMore(sim, w, states, begins, b, h.state, begin);
    assert LastBegan(begins + [begin], h.origin);
  }

  lemma {:induction false} BegunPossible(sim: Simulator, w: Word, b: Byte, g: Hypothesis, h: Hypothesis)
    requires sim.Valid() && Possible(sim, w, g.state, g.origin) && g.state in sim.dfa.accepts
    requires LiveStep(sim, sim.dfa.init, b) == Some(h.state) && h.origin == Inside(|w|)
    ensures Possible(sim, w + [b], h.state, h.origin)
  {
    var states, begins :| IsPast(sim, w, states, begins) && states[|w|] == g.state && LastBegan(begins, g.origin);
    PastMore(sim, w, states, begins, b, h.state, true);
    assert LastBegan(begins + [true], h.origin);
  }

  /** Every scan that could have been has its hypothesis in the cloud. */
  lemma {:induction false} PastInCloud(
      sim: Simulator, w: Word, states: seq<State>, begins: seq<bool>, origin: Origin)
    requires sim.Valid() && IsPast(sim, w, states, begins) && LastBegan(begins, origin)
    ensures Hypothesis(states[|w|], origin) in CloudAfter(sim, w)
    decreases |w|
  {
    if w != [] {
      var v, n := w[..|w| - 1], |w| - 1;
      var b, cloud := w[n], CloudAfter(sim, v);
      PastFront(sim, w, states, begins);
      var before := origin;
      if begins[n] {
        before := SomeLastBegan(begins[..n]);
      }
      PastInCloud(sim, v, states[..|w|], begins[..n], before);
      hide CloudAfter, IsPast;
      PastSteps(sim, w, states, begins, cloud, before, origin);
      CloudSnoc(sim, v, b);
      assert v + [b] == w;
    }
  }

  /** The scan's last byte takes its hypothesis on, or begins another. */
  lemma {:induction false} PastSteps(
      sim: Simulator, w: Word, states: seq<State>, begins: seq<bool>, cloud: Cloud, before: Origin, origin: Origin)
    requires sim.Valid() && w != [] && |states| == |w| + 1 && |begins| == |w|
    requires PastReads(sim, w, states, begins, |w| - 1) && LastBegan(begins, origin)
    requires Hypothesis(states[|w| - 1], before) in cloud && (!begins[|w| - 1] ==> before == origin)
    ensures Hypothesis(states[|w|], origin) in CloudStep(sim, cloud, w[|w| - 1], |w| - 1)
  {
    var n := |w| - 1;
    var b, g := w[n], Hypothesis(states[n], before);
    if begins[n] {
      assert origin == Inside(n);
    }
    hide LastBegan;
    if states[n] in sim.dfa.accepts && begins[n] {
      assert sim.dfa.Accepting(g.state);
      assert Hypothesis(states[|w|], Inside(n)) in Begun(sim, cloud, b, n);
    } else {
      assert Moved(sim, g, b, n) == Some(Hypothesis(states[|w|], origin));
    }
  }

  /** The cloud after a window holds exactly the states and origins of the scans that could have read it. */
  lemma {:induction false} CloudIsPossible(sim: Simulator, w: Word, q: State, origin: Origin)
    requires sim.Valid()
    ensures Hypothesis(q, origin) in CloudAfter(sim, w) <==> Possible(sim, w, q, origin)
  {
    if Hypothesis(q, origin) in CloudAfter(sim, w) {
      HypothesisPossible(sim, w, Hypothesis(q, origin));
    }
    if states, begins :| IsPast(sim, w, states, begins) && states[|w|] == q && LastBegan(begins, origin) {
      PastInCloud(sim, w, states, begins, origin);
    }
  }

  lemma {:induction false} CertifiesIsPins(sim: Simulator, w: Word, o: nat)
    requires sim.Valid()
    ensures Certifies(sim, w, o) <==> Pins(sim, w, o)
  {
    hide CloudAfter, Possible, Simulator.Valid;
    forall q, origin ensures Hypothesis(q, origin) in CloudAfter(sim, w) <==> Possible(sim, w, q, origin) {
      CloudIsPossible(sim, w, q, origin);
    }
    forall h | h in CloudAfter(sim, w) ensures Possible(sim, w, h.state, h.origin) {
      assert h == Hypothesis(h.state, h.origin);
    }
  }

  lemma {:induction false} CloudSnoc(sim: Simulator, w: Word, b: Byte)
    ensures CloudAfter(sim, w + [b]) == CloudStep(sim, CloudAfter(sim, w), b, |w|)
  {
    assert (w + [b])[..|w|] == w;
  }

  /** The hypotheses after one byte, and the one begun at it where some hypothesis had just accepted. */
  method StepCloud(sim: Simulator, cloud: Cloud, b: Byte, at: nat) returns (next: Cloud)
    ensures next == CloudStep(sim, cloud, b, at)
  {
    hide LiveStep;
    var accepting := AnyAccepting(sim, cloud);
    next := {};
    var rest := cloud;
    while rest != {}
      invariant rest <= cloud && next == MovedAll(sim, cloud - rest, b, at)
      decreases rest
    {
      var h :| h in rest;
      MovedOneMore(sim, cloud - rest, h, b, at);
      assert cloud - (rest - {h}) == cloud - rest + {h};
      rest := rest - {h};
      var to := LiveStep(sim, h.state, b);
      if to.Some? {
        var begins := h.state == sim.dfa.init && !sim.reentrant;
        next := next + {Hypothesis(to.value, if begins then Inside(at) else h.origin)};
      }
    }
    assert cloud - rest == cloud;
    if accepting {
      var begun := LiveStep(sim, sim.dfa.init, b);
      if begun.Some? {
        next := next + {Hypothesis(begun.value, Inside(at))};
      }
    }
  }

  /** The origin every hypothesis left agrees on, if they do. */
  method UnanimousOrigin(sim: Simulator, w: Word) returns (r: Option<nat>)
    ensures r.Some? ==> Certifies(sim, w, r.value)
    ensures r.None? ==> forall o :: !Certifies(sim, w, o)
  {
    hide CloudStep, LiveStep;
    if w == [] {
      return None;
    }
    var cloud := InitialCloud(sim);
    for at := 0 to |w|
      invariant cloud == CloudAfter(sim, w[..at]) && (at > 0 ==> cloud != {})
    {
      assert w[..at + 1] == w[..at] + [w[at]];
      CloudSnoc(sim, w[..at], w[at]);
      var next := StepCloud(sim, cloud, w[at], at);
      if next == {} {
        EmptyCloudAbsorbs(sim, w, at + 1);
        return None;
      }
      cloud := next;
    }
    assert w[..|w|] == w;
    var first :| first in cloud;
    if (forall h | h in cloud :: h.origin == first.origin) && first.origin.Inside? {
      return Some(first.origin.at);
    }
    return None;
  }

  lemma {:induction false} OneCertified(sim: Simulator, w: Word, o: nat, p: nat)
    requires Certifies(sim, w, o) && Certifies(sim, w, p)
    ensures o == p
  {
    var h :| h in CloudAfter(sim, w);
  }

  /** The certified origin of a window, or nothing when the cloud dies, disagrees or never saw the token begin. */
  method IsSplitWindow(sim: Simulator, w: Word) returns (r: Option<nat>)
    ensures r.Some? ==> Certifies(sim, w, r.value)
    ensures r.None? ==> forall o :: !Certifies(sim, w, o)
    ensures sim.Valid() ==> forall o: nat :: r == Some(o) <==> Pins(sim, w, o)
  {
    r := UnanimousOrigin(sim, w);
    if sim.Valid() {
      forall o: nat ensures r == Some(o) <==> Pins(sim, w, o) {
        CertifiesIsPins(sim, w, o);
        if Certifies(sim, w, o) && r.Some? {
          OneCertified(sim, w, o, r.value);
        }
      }
    }
  }

  lemma {:induction false} EmptyCloudAbsorbs(sim: Simulator, w: Word, k: nat)
    requires k <= |w| && CloudAfter(sim, w[..k]) == {}
    ensures CloudAfter(sim, w) == {}
    decreases |w| - k
  {
    if k < |w| {
      assert w[..k + 1] == w[..k] + [w[k]];
      CloudSnoc(sim, w[..k], w[k]);
      EmptyCloudAbsorbs(sim, w, k + 1);
    } else {
      assert w[..k] == w;
    }
  }

  /** The origin the true scan has when the window occurs at p and the covering token began at t. */
  function OriginOf(t: nat, p: nat): Origin {
    if t >= p then Inside(t - p) else Before
  }

  /**
    Reading one byte inside a token: the scan steps between live states, and stands in the start
    only where it re-enters.
   */
  lemma {:induction false} ScanStep(sim: Simulator, s: Word, t: nat, e: nat, x: nat)
    requires sim.Valid() && TokenAt(sim.dfa, s, t, e) && t <= x < e
    ensures sim.dfa.Run(sim.dfa.init, s[t..x]).Some?
    ensures var q := sim.dfa.Run(sim.dfa.init, s[t..x]).value;
            && q in sim.live
            && LiveStep(sim, q, s[x]).Some?
            && LiveStep(sim, q, s[x]) == sim.dfa.Run(sim.dfa.init, s[t..x + 1])
            && (q == sim.dfa.init && t < x ==> sim.reentrant)
  {
    assert s[t..e][..x - t] == s[t..x] && s[t..e][..x + 1 - t] == s[t..x + 1];
    sim.dfa.MatchPassesLive(s[t..e], x - t);
    sim.dfa.MatchPassesLive(s[t..e], x + 1 - t);
    ReadOneMore(sim.dfa, s, t, x);
    if t < x && sim.dfa.Run(sim.dfa.init, s[t..x]).value == sim.dfa.init {
      assert s[t..x] != [];
    }
  }

  lemma {:induction false} TokenEndsLive(sim: Simulator, s: Word, t: nat, e: nat)
    requires sim.Valid() && TokenAt(sim.dfa, s, t, e)
    ensures sim.dfa.Run(sim.dfa.init, s[t..e]).Some?
    ensures sim.dfa.Run(sim.dfa.init, s[t..e]).value in sim.live
    ensures sim.dfa.Accepting(sim.dfa.Run(sim.dfa.init, s[t..e]).value)
  {
    assert s[t..e][..e - t] == s[t..e];
    sim.dfa.MatchPassesLive(s[t..e], e - t);
  }

  lemma {:induction false} CloudKeeps(sim: Simulator, cloud: Cloud, h: Hypothesis, b: Byte, at: nat)
    requires h in cloud && LiveStep(sim, h.state, b).Some?
    requires h.state == sim.dfa.init ==> sim.reentrant
    ensures Hypothesis(LiveStep(sim, h.state, b).value, h.origin) in CloudStep(sim, cloud, b, at)
  {
    assert Moved(sim, h, b, at).Some?;
  }

  /**
    The scan of the token begun at t stands, after the byte before x, where the cloud has a
    hypothesis of its origin.
   */
  ghost predicate Tracked(sim: Simulator, s: Word, t: nat, p: nat, x: nat, cloud: Cloud)
    requires t <= x <= |s|
  {
    var q := sim.dfa.Run(sim.dfa.init, s[t..x]);
    q.Some? && Hypothesis(q.value, OriginOf(t, p)) in cloud
  }

  /** One byte of the occurrence keeps the true hypothesis, whether the byte is inside the token or begins one. */
  lemma {:induction false} TrackStep(sim: Simulator, s: Word, t: nat, e: nat, p: nat, x: nat, cloud: Cloud)
    requires sim.Valid() && TokenAt(sim.dfa, s, t, e) && t <= x < e && p <= x
    requires t < x ==> Tracked(sim, s, t, p, x, cloud)
    requires t == x ==> AnyAccepting(sim, cloud)
    ensures Tracked(sim, s, t, p, x + 1, CloudStep(sim, cloud, s[x], x - p))
  {
    ScanStep(sim, s, t, e, x);
    var q := sim.dfa.Run(sim.dfa.init, s[t..x]).value;
    var after := LiveStep(sim, q, s[x]).value;
    if t < x {
      CloudKeeps(sim, cloud, Hypothesis(q, OriginOf(t, p)), s[x], x - p);
    } else {
      assert s[t..x] == [];
      assert Hypothesis(after, Inside(x - p)) in Begun(sim, cloud, s[x], x - p);
    }
  }

  /** Reading s on from p, the true hypothesis is in the cloud after every byte. */
  lemma {:induction false} TrueHypothesisSurvives(sim: Simulator, s: Word, cuts: seq<nat>, p: nat, x: nat, i: nat)
    requires sim.Valid() && Segmentation(sim.dfa, s, 0, cuts)
    requires p <= x < |s| && i < |cuts| - 1 && cuts[i] <= x < cuts[i + 1]
    ensures Tracked(sim, s, cuts[i], p, x + 1, CloudAfter(sim, s[p..x + 1]))
    decreases x
  {
    var t, e := cuts[i], cuts[i + 1];
    var cloud := CloudAfter(sim, s[p..x]);
    assert TokenAt(sim.dfa, s, t, e);
    if p == x {
      StartTracks(sim, s, t, e, p);
      assert s[p..x] == [];
    } else if t < x {
      TrueHypothesisSurvives(sim, s, cuts, p, x - 1, i);
    } else {
      assert i > 0;
      assert TokenAt(sim.dfa, s, cuts[i - 1], t);
      TrueHypothesisSurvives(sim, s, cuts, p, x - 1, i - 1);
      BoundaryAccepts(sim, s, cuts[i - 1], t, p, cloud);
    }
    TrackStep(sim, s, t, e, p, x, cloud);
    CloudReads(sim, s, p, x);
  }

  lemma {:induction false} CloudReads(sim: Simulator, s: Word, p: nat, x: nat)
    requires p <= x < |s|
    ensures CloudAfter(sim, s[p..x + 1]) == CloudStep(sim, CloudAfter(sim, s[p..x]), s[x], x - p)
  {
    assert s[p..x + 1] == s[p..x] + [s[x]];
    CloudSnoc(sim, s[p..x], s[x]);
  }

  /** Before the window's first byte every live state is a hypothesis, the true one and an accepting one among them. */
  lemma {:induction false} StartTracks(sim: Simulator, s: Word, t: nat, e: nat, p: nat)
    requires sim.Valid() && TokenAt(sim.dfa, s, t, e) && t <= p < e
    ensures t < p ==> Tracked(sim, s, t, p, p, InitialCloud(sim))
    ensures AnyAccepting(sim, InitialCloud(sim))
  {
    ScanStep(sim, s, t, e, p);
    TokenEndsLive(sim, s, t, e);
    var q := sim.dfa.Run(sim.dfa.init, s[t..e]).value;
    assert Hypothesis(q, Before) in InitialCloud(sim) && sim.dfa.Accepting(Hypothesis(q, Before).state);
  }

  /** Where the true scan has a boundary, its hypothesis accepts. */
  lemma {:induction false} BoundaryAccepts(sim: Simulator, s: Word, t: nat, e: nat, p: nat, cloud: Cloud)
    requires sim.Valid() && TokenAt(sim.dfa, s, t, e) && Tracked(sim, s, t, p, e, cloud)
    ensures AnyAccepting(sim, cloud)
  {
    TokenEndsLive(sim, s, t, e);
    var h := Hypothesis(sim.dfa.Run(sim.dfa.init, s[t..e]).value, OriginOf(t, p));
    assert h in cloud && sim.dfa.Accepting(h.state);
  }

  /**
    Soundness: wherever a tokenizable input holds a certified window, the token
    over the window's last byte starts at the certified offset, and nowhere else.
   */
  lemma {:induction false} CertificateSound(sim: Simulator, w: Word, o: nat, s: Word, p: nat)
    requires sim.Valid() && Certifies(sim, w, o)
    requires Tokenizes(sim.dfa, s)
    requires p + |w| <= |s| && s[p..p + |w|] == w
    ensures o < |w|
    ensures CoveredFrom(sim.dfa, s, p + |w| - 1, p + o)
  {
    var cuts :| Segmentation(sim.dfa, s, 0, cuts);
    var x := p + |w| - 1;
    var i := CoveringIndex(sim.dfa, s, 0, cuts, x);
    CertificateTells(sim, w, o, s, cuts, p, x, i);
    hide Certifies, Simulator.Valid, Segmentation, CoveredFrom;
    CoveredIsIndex(sim.dfa, s, cuts, i, x, cuts[i]);
  }

  /** The true hypothesis is in the cloud, so the certificate's origin is where its token begins. */
  lemma {:induction false} CertificateTells(
      sim: Simulator, w: Word, o: nat, s: Word, cuts: seq<nat>, p: nat, x: nat, i: nat)
    requires sim.Valid() && Certifies(sim, w, o) && Segmentation(sim.dfa, s, 0, cuts)
    requires x < |s| && p + |w| == x + 1 && s[p..x + 1] == w && i < |cuts| - 1 && cuts[i] <= x < cuts[i + 1]
    ensures o < |w| && cuts[i] == p + o
  {
    hide CloudAfter, Simulator.Valid, Segmentation;
    TrueHypothesisSurvives(sim, s, cuts, p, x, i);
    assert OriginOf(cuts[i], p) == Inside(o);
  }
}

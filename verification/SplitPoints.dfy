/**
  Certified bytes: an exact account of which bytes are safe to cut before, with
  and without tokens the stream will drop.
 */
module SplitPoints {
  import opened Options
  import opened Machine
  import opened Munch
  import opened SplitWindow
  import opened ByteClasses
  import opened Partition
  import opened DfaRows

  /** How a state is coloured once discarded kinds are not told apart. */
  datatype Shade = Nonaccepting | Discarded | Kept(token: Token)

  function ShadeOf(d: Dfa, ignored: set<Token>, q: nat): Shade {
    if !d.Accepting(q) then Nonaccepting
    else if d.accepts[q] in ignored then Discarded
    else Kept(d.accepts[q])
  }

  /** The byte leads from the state to one a scan can still accept from. */
  ghost predicate Consumes(d: Dfa, q: State, b: Byte) {
    d.Step(q, b).Some? && d.Coaccessible(d.Step(q, b).value)
  }

  ghost predicate ReachesKept(d: Dfa, ignored: set<Token>, q: State) {
    exists w :: d.Run(q, w).Some? && ShadeOf(d, ignored, d.Run(q, w).value).Kept?
  }

  /**
    Cutting before the byte severs a discarded token only: the state has just
    accepted one, nothing kept can come of it, and the restarted scan has the
    interrupted one's future.
   */
  ghost predicate Harmless(d: Dfa, ignored: set<Token>, q: State, b: Byte)
    requires d.Valid() && d.Step(q, b).Some?
  {
    && ShadeOf(d, ignored, q) == Discarded
    && !ReachesKept(d, ignored, d.Step(q, b).value)
    && Agree(RowsOf(d), (p: nat) => ShadeOf(d, ignored, p), Target(d, q, b), Target(d, d.init, b))
  }

  /**
    Every state a scan can arrive in mid-token dies on the byte, or is cut harmlessly; and the byte
    begins some token.
   */
  ghost predicate SafeByte(sim: Simulator, ignored: set<Token>, b: Byte)
    requires sim.Valid()
  {
    var d := sim.dfa;
    && Consumes(d, d.init, b)
    && forall q | d.Reachable(q) && Consumes(d, q, b) :: (q == d.init && !sim.reentrant) || Harmless(d, ignored, q, b)
  }

  /** The bytes an input may be cut before. */
  method DeriveSplitPoints(sim: Simulator, ignored: set<Token>) returns (points: set<Byte>)
    requires sim.Valid()
    ensures forall b: Byte :: b in points <==> MayCut(sim.dfa, ignored, b)
    ensures forall b: Byte :: b in points <==> SafeByte(sim, ignored, b)
  {
    hide SafeByte, MayCut, Simulator.Valid;
    points := SafeBytes(sim, ignored);
    forall b: Byte ensures SafeByte(sim, ignored, b) <==> MayCut(sim.dfa, ignored, b) {
      SafeIsMayCut(sim, ignored, b);
    }
  }

  /** Decides every byte, state by state. */
  method SafeBytes(sim: Simulator, ignored: set<Token>) returns (points: set<Byte>)
    requires sim.Valid()
    ensures forall b: Byte :: b in points <==> SafeByte(sim, ignored, b)
  {
    var d := sim.dfa;
    var reachable := ReachableStates(d);
    var coaccessible := ClosedBackward(d, d.accepts.Keys);
    CoaccessibleSet(d, coaccessible);
    var kept := set q | q in d.accepts && d.accepts[q] !in ignored;
    var reachesKept := ClosedBackward(d, kept);
    KeptSet(d, ignored, kept, reachesKept);
    var bytes := Representatives(d);
    RowsValid(d);
    RepresentedRows(d, bytes);
    var observed, count := CoarsestClasses(RowsOf(d), bytes, (p: nat) => ShadeOf(d, ignored, p));
    points := {};
    for value: int := 0 to 256
      invariant forall b: Byte :: b in points <==> b < value && SafeByte(sim, ignored, b)
    {
      var b: Byte := value;
      var safe := true;
      for q: int := 0 to d.states
        invariant safe <==> forall p | 0 <= p < q && d.Reachable(p) && Consumes(d, p, b) ::
                              (p == d.init && !sim.reentrant) || Harmless(d, ignored, p, b)
      {
        var to := d.Step(q, b);
        var consumes := to.Some? && to.value in coaccessible;
        if q in reachable && consumes && !(q == d.init && !sim.reentrant) {
          var harmless := && ShadeOf(d, ignored, q) == Discarded
                          && to.value !in reachesKept
                          && observed[Target(d, q, b)] == observed[Target(d, d.init, b)];
          assert harmless <==> Harmless(d, ignored, q, b);
          safe := safe && harmless;
        }
      }
      var begins := d.Step(d.init, b);
      if safe && begins.Some? && begins.value in coaccessible {
        points := points + {b};
      }
      assert forall q: State | d.Reachable(q) && Consumes(d, q, b) :: q < d.states;
    }
  }

  lemma {:induction false} CoaccessibleSet(d: Dfa, coaccessible: set<State>)
    requires forall q :: q in coaccessible <==> LeadsInto(d, q, d.accepts.Keys)
    ensures forall q :: q in coaccessible <==> d.Coaccessible(q)
  {
    forall q ensures LeadsInto(d, q, d.accepts.Keys) <==> d.Coaccessible(q) {
      if LeadsInto(d, q, d.accepts.Keys) {
        var w :| d.Run(q, w).Some? && d.Run(q, w).value in d.accepts.Keys;
        assert d.AcceptsFrom(q, w);
      }
      if w :| d.AcceptsFrom(q, w) {
        assert d.Run(q, w).value in d.accepts.Keys;
      }
    }
  }

  lemma {:induction false} KeptSet(d: Dfa, ignored: set<Token>, kept: set<State>, reaches: set<State>)
    requires kept == set q | q in d.accepts && d.accepts[q] !in ignored
    requires forall q :: q in reaches <==> LeadsInto(d, q, kept)
    ensures forall q :: q in reaches <==> ReachesKept(d, ignored, q)
  {
    assert forall q :: q in kept <==> ShadeOf(d, ignored, q).Kept?;
  }

  // ----- what a certified byte means for the words tokens are spelled with -----

  /** Some token is spelled with the byte right after the word. */
  ghost predicate GoesOn(d: Dfa, u: Word, b: Byte) {
    exists v :: d.Matches(u + [b] + v)
  }

  /**
    Nothing kept is lost by cutting between the word and the byte: the word is an ignored token, every
    token that goes on over the byte is ignored, and goes on exactly as a token that begins at the byte does.
   */
  ghost predicate LosesNothing(d: Dfa, ignored: set<Token>, u: Word, b: Byte) {
    && d.Matches(u) && d.TokenOf(u) in ignored
    && (forall v | d.Matches(u + [b] + v) :: d.TokenOf(u + [b] + v) in ignored)
    && (forall v | d.Matches([b] + v) :: d.TokenOf([b] + v) in ignored)
    && forall v :: d.Matches(u + [b] + v) <==> d.Matches([b] + v)
  }

  /** The byte begins some token, and wherever a token could go on over it, cutting before it loses nothing. */
  ghost predicate MayCut(d: Dfa, ignored: set<Token>, b: Byte) {
    && (exists v :: d.Matches([b] + v))
    && forall u: Word | u != [] && GoesOn(d, u, b) :: LosesNothing(d, ignored, u, b)
  }

  /** Matching across the byte is accepting from the state it leads to. */
  lemma {:induction false} MatchesAcross(d: Dfa, u: Word, b: Byte, v: Word)
    ensures d.Matches(u + [b] + v) <==>
              d.Run(d.init, u).Some? && d.Step(d.Run(d.init, u).value, b).Some?
              && d.AcceptsFrom(d.Step(d.Run(d.init, u).value, b).value, v)
    ensures d.Matches(u + [b] + v) ==>
              d.TokenOf(u + [b] + v) == d.accepts[d.Run(d.Step(d.Run(d.init, u).value, b).value, v).value]
  {
    d.RunSnoc(d.init, u, b);
    d.RunAppend(d.init, u + [b], v);
  }

  lemma {:induction false} MatchesFrom(d: Dfa, b: Byte, v: Word)
    ensures d.Matches([b] + v) <==> d.Step(d.init, b).Some? && d.AcceptsFrom(d.Step(d.init, b).value, v)
    ensures d.Matches([b] + v) ==> d.TokenOf([b] + v) == d.accepts[d.Run(d.Step(d.init, b).value, v).value]
  {
    MatchesAcross(d, [], b, v);
    assert [] + [b] + v == [b] + v;
  }

  /** The shade of the state a word leads to; that of no acceptance where it leads nowhere. */
  ghost function ShadeAfter(d: Dfa, ignored: set<Token>, q: State, v: Word): Shade {
    match d.Run(q, v)
    case None => Nonaccepting
    case Some(p) => ShadeOf(d, ignored, p)
  }

  lemma {:induction false} AgreeIsShades(d: Dfa, ignored: set<Token>, p: State, r: State)
    requires d.Valid() && p < d.states && r < d.states
    ensures Agree(RowsOf(d), (q: nat) => ShadeOf(d, ignored, q), p, r) <==>
              forall v :: ShadeAfter(d, ignored, p, v) == ShadeAfter(d, ignored, r, v)
  {
    var rows := RowsOf(d);
    forall q: nat, v: Word | q < d.states
      ensures ShadeOf(d, ignored, After(rows, q, v)) == ShadeAfter(d, ignored, q, v)
    {
      AfterIsRun(d, q, v);
    }
    hide After, ShadeAfter, ShadeOf;
    var colour := (q: nat) => ShadeOf(d, ignored, q);
    forall v: Word ensures colour(After(rows, p, v)) == ShadeAfter(d, ignored, p, v)
                        && colour(After(rows, r, v)) == ShadeAfter(d, ignored, r, v) {
    }
  }

  /** What comes of the two states is the same, and ignored. */
  ghost predicate SameIgnored(d: Dfa, ignored: set<Token>, p: State, r: State) {
    && (forall v | d.AcceptsFrom(p, v) :: d.accepts[d.Run(p, v).value] in ignored)
    && (forall v | d.AcceptsFrom(r, v) :: d.accepts[d.Run(r, v).value] in ignored)
    && forall v :: d.AcceptsFrom(p, v) <==> d.AcceptsFrom(r, v)
  }

  lemma {:induction false} ShadesIgnored(d: Dfa, ignored: set<Token>, p: State, r: State)
    ensures SameIgnored(d, ignored, p, r) <==>
              !ReachesKept(d, ignored, p) && forall v :: ShadeAfter(d, ignored, p, v) == ShadeAfter(d, ignored, r, v)
  {
    forall q: State, v
      ensures d.AcceptsFrom(q, v) <==> ShadeAfter(d, ignored, q, v) != Nonaccepting
      ensures d.AcceptsFrom(q, v) && d.accepts[d.Run(q, v).value] in ignored <==>
                ShadeAfter(d, ignored, q, v) == Discarded
    {
    }
    if SameIgnored(d, ignored, p, r) {
      forall v ensures ShadeAfter(d, ignored, p, v) == ShadeAfter(d, ignored, r, v) {
        assert d.AcceptsFrom(p, v) <==> d.AcceptsFrom(r, v);
      }
    }
    if !ReachesKept(d, ignored, p) && forall v :: ShadeAfter(d, ignored, p, v) == ShadeAfter(d, ignored, r, v) {
      forall v ensures !ShadeAfter(d, ignored, p, v).Kept? {
      }
      assert SameIgnored(d, ignored, p, r);
    }
  }

  lemma {:induction false} LossesAcross(d: Dfa, ignored: set<Token>, u: Word, q: State, p: State, r: State, b: Byte)
    requires d.Run(d.init, u) == Some(q) && d.Step(q, b) == Some(p) && d.Step(d.init, b) == Some(r)
    ensures LosesNothing(d, ignored, u, b) <==>
              q in d.accepts && d.accepts[q] in ignored && SameIgnored(d, ignored, p, r)
  {
    forall v: Word
      ensures d.Matches(u + [b] + v) <==> d.AcceptsFrom(p, v)
      ensures d.Matches(u + [b] + v) ==> d.TokenOf(u + [b] + v) == d.accepts[d.Run(p, v).value]
      ensures d.Matches([b] + v) <==> d.AcceptsFrom(r, v)
      ensures d.Matches([b] + v) ==> d.TokenOf([b] + v) == d.accepts[d.Run(r, v).value]
    {
      MatchesAcross(d, u, b, v);
      MatchesFrom(d, b, v);
    }
    hide Dfa.Run;
  }

  /** A cut before the byte in the state the word leads to is harmless exactly where it loses nothing. */
  lemma {:induction false} HarmlessIsLossless(
      d: Dfa, ignored: set<Token>, u: Word, q: State, p: State, r: State, b: Byte)
    requires d.Valid() && d.Run(d.init, u) == Some(q) && d.Step(q, b) == Some(p) && d.Step(d.init, b) == Some(r)
    ensures Harmless(d, ignored, q, b) <==> LosesNothing(d, ignored, u, b)
  {
    AgreeIsShades(d, ignored, p, r);
    ShadesIgnored(d, ignored, p, r);
    LossesAcross(d, ignored, u, q, p, r, b);
    hide LosesNothing, SameIgnored, Agree, ShadeAfter, ReachesKept;
  }

  /** A byte is certified exactly when it may be cut before, whatever is ignored. */
  lemma {:induction false} SafeIsMayCut(sim: Simulator, ignored: set<Token>, b: Byte)
    requires sim.Valid()
    ensures SafeByte(sim, ignored, b) <==> MayCut(sim.dfa, ignored, b)
  {
    var d := sim.dfa;
    if SafeByte(sim, ignored, b) {
      var v :| d.AcceptsFrom(d.Step(d.init, b).value, v);
      MatchesFrom(d, b, v);
      forall u: Word | u != [] && GoesOn(d, u, b) ensures LosesNothing(d, ignored, u, b) {
        GoingOnIsHarmless(sim, ignored, u, b);
      }
    }
    if MayCut(d, ignored, b) {
      var v :| d.Matches([b] + v);
      MatchesFrom(d, b, v);
      forall q | d.Reachable(q) && Consumes(d, q, b)
        ensures (q == d.init && !sim.reentrant) || Harmless(d, ignored, q, b)
      {
        LossIsHarmless(sim, ignored, q, b);
      }
    }
  }

  lemma {:induction false} GoingOnIsHarmless(sim: Simulator, ignored: set<Token>, u: Word, b: Byte)
    requires sim.Valid() && SafeByte(sim, ignored, b) && u != [] && GoesOn(sim.dfa, u, b)
    ensures LosesNothing(sim.dfa, ignored, u, b)
  {
    var d := sim.dfa;
    var v :| d.Matches(u + [b] + v);
    MatchesAcross(d, u, b, v);
    var q := d.Run(d.init, u).value;
    assert d.Reachable(q) && Consumes(d, q, b);
    HarmlessIsLossless(d, ignored, u, q, d.Step(q, b).value, d.Step(d.init, b).value, b);
  }

  lemma {:induction false} LossIsHarmless(sim: Simulator, ignored: set<Token>, q: State, b: Byte)
    requires sim.Valid() && MayCut(sim.dfa, ignored, b) && Consumes(sim.dfa, sim.dfa.init, b)
    requires sim.dfa.Reachable(q) && Consumes(sim.dfa, q, b)
    ensures (q == sim.dfa.init && !sim.reentrant) || Harmless(sim.dfa, ignored, q, b)
  {
    var d := sim.dfa;
    if !(q == d.init && !sim.reentrant) {
      var u := WordInto(sim, q);
      var v :| d.AcceptsFrom(d.Step(q, b).value, v);
      MatchesAcross(d, u, b, v);
      assert GoesOn(d, u, b);
      HarmlessIsLossless(d, ignored, u, q, d.Step(q, b).value, d.Step(d.init, b).value, b);
    }
  }

  /** A state that is no start left behind is led to by a nonempty word. */
  lemma {:induction false} WordInto(sim: Simulator, q: State) returns (u: Word)
    requires sim.Valid() && sim.dfa.Reachable(q) && !(q == sim.dfa.init && !sim.reentrant)
    ensures u != [] && sim.dfa.Run(sim.dfa.init, u) == Some(q)
  {
    if q == sim.dfa.init {
      u :| u != [] && sim.dfa.Run(sim.dfa.init, u) == Some(sim.dfa.init);
    } else {
      u :| sim.dfa.Run(sim.dfa.init, u) == Some(q);
    }
  }

  // ----- nothing ignored: the exact meaning of a certified byte -----

  /** Some token of some completely tokenizable input begins with the byte. */
  ghost predicate StartsSome(d: Dfa, b: Byte) {
    exists s: Word, t: nat :: Tokenizes(d, s) && t < |s| && s[t] == b && IsStart(d, s, t)
  }

  /** The byte never occurs inside a token of a segmentation, only first in one. */
  ghost predicate StartsAlways(d: Dfa, b: Byte) {
    forall s: Word, t: nat | Tokenizes(d, s) && t < |s| && s[t] == b :: IsStart(d, s, t)
  }

  /** A matched word is tokenizable as one token. */
  lemma {:induction false} SingleToken(sim: Simulator, w: Word)
    requires sim.Valid() && sim.dfa.Matches(w)
    ensures w != [] && Segmentation(sim.dfa, w, 0, [0, |w|])
  {
    assert w[0..|w|] == w;
    assert MatchAt(sim.dfa, w, 0, |w|);
  }

  /** The byte is certified exactly when it begins some token and begins one wherever it occurs. */
  lemma {:induction false} SafeByteExact(sim: Simulator, b: Byte)
    requires sim.Valid()
    ensures SafeByte(sim, {}, b) <==> StartsSome(sim.dfa, b) && StartsAlways(sim.dfa, b)
  {
    if SafeByte(sim, {}, b) {
      SafeStartsSome(sim, b);
      forall s: Word, t: nat | Tokenizes(sim.dfa, s) && t < |s| && s[t] == b ensures IsStart(sim.dfa, s, t) {
        SafeStartsHere(sim, b, s, t);
      }
    }
    if StartsSome(sim.dfa, b) && StartsAlways(sim.dfa, b) {
      StartConsumes(sim, b);
      forall q | sim.dfa.Reachable(q) && Consumes(sim.dfa, q, b) ensures q == sim.dfa.init && !sim.reentrant {
        MidTokenRefutes(sim, q, b);
      }
    }
  }

  lemma {:induction false} SafeStartsSome(sim: Simulator, b: Byte)
    requires sim.Valid() && Consumes(sim.dfa, sim.dfa.init, b)
    ensures StartsSome(sim.dfa, b)
  {
    var d := sim.dfa;
    var v :| d.AcceptsFrom(d.Step(d.init, b).value, v);
    var w := [b] + v;
    d.RunByte(d.init, b);
    d.RunAppend(d.init, [b], v);
    SingleToken(sim, w);
    assert 0 in [0, |w|][..1];
    assert w[0] == b && IsStart(d, w, 0);
  }

  /** Inside a token, the scan stands in a reachable state that consumes the next byte, and is exempt nowhere. */
  lemma {:induction false} InsideConsumes(sim: Simulator, s: Word, t: nat, e: nat, p: nat)
    requires sim.Valid() && TokenAt(sim.dfa, s, t, e) && t <= p < e
    ensures sim.dfa.Run(sim.dfa.init, s[t..p]).Some?
    ensures var q := sim.dfa.Run(sim.dfa.init, s[t..p]).value;
            && sim.dfa.Reachable(q) && Consumes(sim.dfa, q, s[p])
            && (q == sim.dfa.init && t < p ==> sim.reentrant)
  {
    ScanStep(sim, s, t, e, p);
  }

  lemma {:induction false} SafeStartsHere(sim: Simulator, b: Byte, s: Word, p: nat)
    requires sim.Valid() && SafeByte(sim, {}, b)
    requires Tokenizes(sim.dfa, s) && p < |s| && s[p] == b
    ensures IsStart(sim.dfa, s, p)
  {
    var cuts :| Segmentation(sim.dfa, s, 0, cuts);
    var i := CoveringIndex(sim.dfa, s, 0, cuts, p);
    assert TokenAt(sim.dfa, s, cuts[i], cuts[i + 1]);
    InsideConsumes(sim, s, cuts[i], cuts[i + 1], p);
    assert cuts[i] == p;
    assert cuts[..|cuts| - 1][i] == p;
  }

  lemma {:induction false} StartConsumes(sim: Simulator, b: Byte)
    requires sim.Valid() && StartsSome(sim.dfa, b)
    ensures Consumes(sim.dfa, sim.dfa.init, b)
  {
    var s: Word, t: nat :| Tokenizes(sim.dfa, s) && t < |s| && s[t] == b && IsStart(sim.dfa, s, t);
    var cuts :| Segmentation(sim.dfa, s, 0, cuts) && t in cuts[..|cuts| - 1];
    var i :| 0 <= i < |cuts| - 1 && cuts[..|cuts| - 1][i] == t;
    assert TokenAt(sim.dfa, s, cuts[i], cuts[i + 1]);
    InsideConsumes(sim, s, t, cuts[i + 1], t);
    assert s[t..t] == [];
  }

  /** A state reached by a nonempty word that consumes the byte puts it inside a token. */
  lemma {:induction false} MidTokenRefutes(sim: Simulator, q: State, b: Byte)
    requires sim.Valid() && StartsAlways(sim.dfa, b)
    requires sim.dfa.Reachable(q) && Consumes(sim.dfa, q, b)
    ensures q == sim.dfa.init && !sim.reentrant
  {
    var d := sim.dfa;
    if !(q == d.init && !sim.reentrant) {
      var u := WordInto(sim, q);
      var v :| d.AcceptsFrom(d.Step(q, b).value, v);
      var w := u + [b] + v;
      d.RunSnoc(d.init, u, b);
      d.RunAppend(d.init, u + [b], v);
      SingleToken(sim, w);
      assert w[|u|] == b && IsStart(d, w, |u|);
      var cuts :| Segmentation(d, w, 0, cuts) && |u| in cuts[..|cuts| - 1];
      SegmentationUnique(d, w, 0, cuts, [0, |w|]);
    }
  }

  /** A certified byte is exactly a window of width one certified at origin zero. */
  lemma {:induction false} SafeByteIsWindow(sim: Simulator, b: Byte)
    requires sim.Valid()
    ensures SafeByte(sim, {}, b) <==> Certifies(sim, [b], 0)
  {
    if SafeByte(sim, {}, b) {
      SafeCertifies(sim, b);
    }
    if Certifies(sim, [b], 0) {
      CertifiedSafe(sim, b);
    }
  }

  lemma {:induction false} ConsumingIsLive(sim: Simulator, q: State, b: Byte)
    requires sim.Valid() && sim.dfa.Reachable(q) && Consumes(sim.dfa, q, b)
    ensures LiveStep(sim, q, b).Some? && q in sim.live
  {
    sim.dfa.ReachableStep(q, b);
    sim.dfa.CoaccessibleStep(q, b);
  }

  lemma {:induction false} SafeCertifies(sim: Simulator, b: Byte)
    requires sim.Valid() && SafeByte(sim, {}, b)
    ensures Certifies(sim, [b], 0)
  {
    var d := sim.dfa;
    var cloud := CloudAfter(sim, [b]);
    CloudSnoc(sim, [], b);
    assert [] + [b] == [b];
    assert d.Run(d.init, []) == Some(d.init);
    assert d.Reachable(d.init);
    ConsumingIsLive(sim, d.init, b);
    SomethingLive(sim, b);
    assert Hypothesis(LiveStep(sim, d.init, b).value, Inside(0)) in cloud;
    forall h | h in cloud ensures h.origin == Inside(0) {
      if h in MovedAll(sim, InitialCloud(sim), b, 0) {
        var g :| g in InitialCloud(sim) && Moved(sim, g, b, 0) == Some(h);
        assert d.Reachable(g.state) && Consumes(d, g.state, b);
      }
    }
  }

  lemma {:induction false} CertifiedSafe(sim: Simulator, b: Byte)
    requires sim.Valid() && Certifies(sim, [b], 0)
    ensures SafeByte(sim, {}, b)
  {
    var d := sim.dfa;
    var cloud := CloudAfter(sim, [b]);
    CloudSnoc(sim, [], b);
    assert [] + [b] == [b];
    forall q | d.Reachable(q) && Consumes(d, q, b) ensures q == d.init && !sim.reentrant {
      ConsumingIsLive(sim, q, b);
      var h := Hypothesis(q, Before);
      assert h in InitialCloud(sim) && Moved(sim, h, b, 0).Some?;
      assert Moved(sim, h, b, 0).value in cloud;
    }
    var h :| h in cloud;
    if h in MovedAll(sim, InitialCloud(sim), b, 0) {
      var g :| g in InitialCloud(sim) && Moved(sim, g, b, 0) == Some(h);
      assert d.Reachable(g.state) && Consumes(d, g.state, b);
    } else {
      assert h in Begun(sim, InitialCloud(sim), b, 0);
    }
    assert Consumes(d, d.init, b);
  }

  lemma {:induction false} SomethingLive(sim: Simulator, b: Byte)
    requires sim.Valid() && LiveStep(sim, sim.dfa.init, b).Some?
    ensures AnyAccepting(sim, InitialCloud(sim))
  {
    var d := sim.dfa;
    var p := LiveStep(sim, d.init, b).value;
    var v :| d.AcceptsFrom(p, v);
    d.RunByte(d.init, b);
    d.RunAppend(d.init, [b], v);
    d.MatchPassesLive([b] + v, |[b] + v|);
    assert ([b] + v)[..|[b] + v|] == [b] + v;
    var q := d.Run(d.init, [b] + v).value;
    assert Hypothesis(q, Before) in InitialCloud(sim) && d.Accepting(Hypothesis(q, Before).state);
  }

  // ----- ignored kinds: chunks cut at a certified byte keep the kept stream -----

  function Piece(s: Word, t: nat, e: nat): Word {
    if t <= e <= |s| then s[t..e] else []
  }

  /** The tokens between consecutive boundaries, as words. */
  function Words(s: Word, cuts: seq<nat>): seq<Word> {
    seq(if cuts == [] then 0 else |cuts| - 1, i requires 0 <= i < |cuts| - 1 => Piece(s, cuts[i], cuts[i + 1]))
  }

  /** The token stream with discarded kinds deleted: each kept token's kind and length. */
  function KeptStream(d: Dfa, ignored: set<Token>, words: seq<Word>): seq<(Token, nat)> {
    if words == [] then []
    else
      var last := words[|words| - 1];
      KeptStream(d, ignored, words[..|words| - 1])
      + if d.Matches(last) && d.TokenOf(last) !in ignored then [(d.TokenOf(last), |last|)] else []
  }

  lemma {:induction false} KeptAppend(d: Dfa, ignored: set<Token>, u: seq<Word>, v: seq<Word>)
    ensures KeptStream(d, ignored, u + v) == KeptStream(d, ignored, u) + KeptStream(d, ignored, v)
    decreases |v|
  {
    if v == [] {
      assert u + v == u;
    } else {
      KeptAppend(d, ignored, u, v[..|v| - 1]);
      assert (u + v)[..|u + v| - 1] == u + v[..|v| - 1];
    }
  }

  ghost predicate IsDiscarded(d: Dfa, ignored: set<Token>, w: Word) {
    d.Matches(w) && d.TokenOf(w) in ignored
  }

  /** A discarded token leaves no trace in the stream. */
  lemma {:induction false} KeptSkips(d: Dfa, ignored: set<Token>, words: seq<Word>, w: Word, more: seq<Word>)
    requires IsDiscarded(d, ignored, w)
    ensures KeptStream(d, ignored, words + [w] + more) == KeptStream(d, ignored, words + more)
  {
    assert (words + [w])[..|words|] == words;
    KeptAppend(d, ignored, words + [w], more);
    KeptAppend(d, ignored, words, more);
  }

  /** One discarded token in front is as good as another. */
  lemma {:induction false} KeptSwaps(d: Dfa, ignored: set<Token>, a: Word, b: Word, more: seq<Word>)
    requires IsDiscarded(d, ignored, a) && IsDiscarded(d, ignored, b)
    ensures KeptStream(d, ignored, [a] + more) == KeptStream(d, ignored, [b] + more)
  {
    KeptSkips(d, ignored, [], a, more);
    KeptSkips(d, ignored, [], b, more);
    assert [] + [a] + more == [a] + more && [] + [b] + more == [b] + more;
  }

  function Shifted(cuts: seq<nat>, p: nat): seq<nat>
    requires forall i | 0 <= i < |cuts| :: p <= cuts[i]
  {
    seq(|cuts|, i requires 0 <= i < |cuts| => cuts[i] - p)
  }

  lemma {:induction false} TokenAtPrefix(d: Dfa, s: Word, t: nat, e: nat, p: nat)
    requires TokenAt(d, s, t, e) && e <= p <= |s|
    ensures TokenAt(d, s[..p], t, e)
  {
    forall k | t <= k <= p ensures MatchAt(d, s[..p], t, k) <==> MatchAt(d, s, t, k) {
      assert s[..p][t..k] == s[t..k];
    }
  }

  /** The tokens from p on are the tokens of the input restarted at p. */
  lemma {:induction false} SuffixSegmentation(d: Dfa, s: Word, cuts: seq<nat>, p: nat)
    requires p <= |s| && Segmentation(d, s, p, cuts)
    requires forall i | 0 <= i < |cuts| :: p <= cuts[i]
    ensures Segmentation(d, s[p..], 0, Shifted(cuts, p))
  {
    var shifted := Shifted(cuts, p);
    assert s[..p] + s[p..] == s;
    forall i | 0 <= i < |shifted| - 1 ensures TokenAt(d, s[p..], shifted[i], shifted[i + 1]) {
      assert TokenAt(d, s, cuts[i], cuts[i + 1]);
      TokenAtShift(d, s[..p], s[p..], shifted[i], shifted[i + 1]);
    }
  }

  /**
    Where a discarded token is severed, the chunk before ends in a discarded
    token, and the chunk after begins with one that ends where the severed one did.
   */
  lemma {:induction false} SeveredToken(sim: Simulator, ignored: set<Token>, s: Word, t: nat, e: nat, p: nat)
    requires sim.Valid() && TokenAt(sim.dfa, s, t, e) && t < p < e
    requires SafeByte(sim, ignored, s[p])
    ensures MatchAt(sim.dfa, s, t, p) && sim.dfa.TokenOf(s[t..p]) in ignored
    ensures TokenAt(sim.dfa, s, p, e) && sim.dfa.TokenOf(s[p..e]) in ignored
    ensures sim.dfa.TokenOf(s[t..e]) in ignored
  {
    var d := sim.dfa;
    InsideConsumes(sim, s, t, e, p);
    var q := d.Run(d.init, s[t..p]).value;
    assert Harmless(d, ignored, q, s[p]);
    forall k | p < k <= |s| ensures MatchAt(d, s, p, k) <==> MatchAt(d, s, t, k)
                            ensures MatchAt(d, s, p, k) ==>
                              ShadeOfWord(d, ignored, s[p..k]) == ShadeOfWord(d, ignored, s[t..k])
    {
      RestartAgrees(sim, ignored, s, t, p, k, q);
    }
    var to := d.Step(q, s[p]).value;
    assert s[t..e] == s[t..p] + s[p..e] && s[p..e] == [s[p]] + s[p + 1..e];
    d.RunAppend(d.init, s[t..p], s[p..e]);
    d.RunByte(q, s[p]);
    d.RunAppend(q, [s[p]], s[p + 1..e]);
    assert d.Run(to, s[p + 1..e]) == d.Run(d.init, s[t..e]);
  }

  /** The colour a matched word's state carries. */
  function ShadeOfWord(d: Dfa, ignored: set<Token>, w: Word): Shade {
    match d.Run(d.init, w) case Some(q) => ShadeOf(d, ignored, q) case None => Nonaccepting
  }

  /** The scan restarted at p sees the colours the interrupted scan sees. */
  lemma {:induction false} RestartAgrees(sim: Simulator, ignored: set<Token>, s: Word, t: nat, p: nat, k: nat, q: State)
    requires sim.Valid() && t < p < k <= |s|
    requires sim.dfa.Run(sim.dfa.init, s[t..p]) == Some(q) && sim.dfa.Step(q, s[p]).Some?
    requires Agree(RowsOf(sim.dfa),
      (r: nat) => ShadeOf(sim.dfa, ignored, r), Target(sim.dfa, q, s[p]), Target(sim.dfa, sim.dfa.init, s[p]))
    ensures ShadeOfWord(sim.dfa, ignored, s[p..k]) == ShadeOfWord(sim.dfa, ignored, s[t..k])
  {
    var d := sim.dfa;
    var colour := (r: nat) => ShadeOf(d, ignored, r);
    var rest := s[p..k];
    d.RunInRange(d.init, s[t..p]);
    assert s[t..k] == s[t..p] + rest;
    d.RunAppend(d.init, s[t..p], rest);
    AfterIsRun(d, q, rest);
    AfterIsRun(d, d.init, rest);
    assert rest[0] == s[p];
    assert colour(After(RowsOf(d), Target(d, q, s[p]), rest[1..])) == colour(After(RowsOf(d), Target(d, d.init, s[p]),
      rest[1..]));
  }

  function LeftCuts(cuts: seq<nat>, i: nat, p: nat): seq<nat>
    requires i < |cuts|
  {
    cuts[..i + 1] + if cuts[i] < p then [p] else []
  }

  lemma {:induction false} LeftSegmentation(
      sim: Simulator, ignored: set<Token>, s: Word, cuts: seq<nat>, i: nat, p: nat)
    requires sim.Valid() && Segmentation(sim.dfa, s, 0, cuts)
    requires i < |cuts| - 1 && cuts[i] <= p < cuts[i + 1] && SafeByte(sim, ignored, s[p])
    ensures p < |s| && Segmentation(sim.dfa, s[..p], 0, LeftCuts(cuts, i, p))
  {
    hide SafeByte;
    var d := sim.dfa;
    var left := LeftCuts(cuts, i, p);
    assert TokenAt(d, s, cuts[i], cuts[i + 1]);
    forall j | 0 <= j < |left| - 1 ensures TokenAt(d, s[..p], left[j], left[j + 1]) {
      if j < i {
        CutsIncreaseTo(d, s, cuts, j + 1, i);
        assert TokenAt(d, s, cuts[j], cuts[j + 1]);
        TokenAtPrefix(d, s, cuts[j], cuts[j + 1], p);
      } else {
        SeveredToken(sim, ignored, s, cuts[i], cuts[i + 1], p);
        assert s[..p][cuts[i]..p] == s[cuts[i]..p];
        assert MatchAt(d, s[..p], cuts[i], p);
      }
    }
  }

  /** Words read off boundaries inside a prefix are the prefix's words. */
  lemma {:induction false} PrefixWords(s: Word, cuts: seq<nat>, p: nat)
    requires p <= |s| && forall j | 0 <= j < |cuts| :: cuts[j] <= p
    ensures Words(s[..p], cuts) == Words(s, cuts)
  {
    forall j | 0 <= j < |cuts| - 1 ensures Piece(s[..p], cuts[j], cuts[j + 1]) == Piece(s, cuts[j], cuts[j + 1]) {
      if cuts[j] <= cuts[j + 1] {
        assert s[..p][cuts[j]..cuts[j + 1]] == s[cuts[j]..cuts[j + 1]];
      }
    }
  }

  /** The chunk before a certified byte tokenizes, severing at most one discarded token. */
  lemma {:induction false} ChunkBefore(sim: Simulator, ignored: set<Token>, s: Word, cuts: seq<nat>, i: nat, p: nat)
    requires sim.Valid() && Segmentation(sim.dfa, s, 0, cuts)
    requires i < |cuts| - 1 && cuts[i] <= p < cuts[i + 1] && SafeByte(sim, ignored, s[p])
    ensures p < |s| && Segmentation(sim.dfa, s[..p], 0, LeftCuts(cuts, i, p))
    ensures KeptStream(sim.dfa, ignored, Words(s[..p], LeftCuts(cuts, i, p)))
         == KeptStream(sim.dfa, ignored, Words(s, cuts)[..i])
  {
    assert TokenAt(sim.dfa, s, cuts[i], cuts[i + 1]);
    hide SafeByte, KeptStream, Segmentation, LeftCuts;
    LeftSegmentation(sim, ignored, s, cuts, i, p);
    var left, front := LeftCuts(cuts, i, p), Words(s, cuts)[..i];
    LeftBounded(sim.dfa, s, cuts, i, p);
    PrefixWords(s, left, p);
    LeftWords(s, cuts, i, p);
    assert front + [] == front;
    if cuts[i] < p {
      SeveredToken(sim, ignored, s, cuts[i], cuts[i + 1], p);
      KeptSkips(sim.dfa, ignored, front, s[cuts[i]..p], []);
      assert front + [s[cuts[i]..p]] + [] == front + [s[cuts[i]..p]];
    }
  }

  lemma {:induction false} LeftBounded(d: Dfa, s: Word, cuts: seq<nat>, i: nat, p: nat)
    requires Segmentation(d, s, 0, cuts) && i < |cuts| && cuts[i] <= p
    ensures forall j | 0 <= j < |LeftCuts(cuts, i, p)| :: LeftCuts(cuts, i, p)[j] <= p
  {
    forall j | 0 <= j <= i ensures cuts[j] <= p {
      CutsIncreaseTo(d, s, cuts, j, i);
    }
  }

  lemma LeftWords(s: Word, cuts: seq<nat>, i: nat, p: nat)
    requires i < |cuts| - 1 && cuts[i] <= p < |s|
    ensures Words(s, LeftCuts(cuts, i, p)) == Words(s, cuts)[..i] + if cuts[i] < p then [s[cuts[i]..p]] else []
  {
  }

  /** The boundaries from p on, read in the input restarted at p. */
  function RightCuts(cuts: seq<nat>, i: nat, p: nat): seq<nat>
    requires i + 1 < |cuts| && forall j | i < j < |cuts| :: p <= cuts[j]
  {
    Shifted([p] + cuts[i + 1..], p)
  }

  lemma {:induction false} RightSegmentation(
      sim: Simulator, ignored: set<Token>, s: Word, cuts: seq<nat>, i: nat, p: nat)
    requires sim.Valid() && Segmentation(sim.dfa, s, 0, cuts)
    requires i < |cuts| - 1 && cuts[i] <= p < cuts[i + 1] && SafeByte(sim, ignored, s[p])
    ensures p < |s| && forall j | i < j < |cuts| :: p <= cuts[j]
    ensures Segmentation(sim.dfa, s, p, [p] + cuts[i + 1..])
    ensures Segmentation(sim.dfa, s[p..], 0, RightCuts(cuts, i, p))
  {
    hide SafeByte;
    var d := sim.dfa;
    assert TokenAt(d, s, cuts[i], cuts[i + 1]);
    forall j | i < j < |cuts| ensures p <= cuts[j] {
      CutsIncreaseTo(d, s, cuts, i + 1, j);
    }
    SegmentationTail(d, s, 0, cuts, i + 1);
    if cuts[i] < p {
      SeveredToken(sim, ignored, s, cuts[i], cuts[i + 1], p);
    }
    SegmentationCons(d, s, p, cuts[i + 1..]);
    SuffixSegmentation(d, s, [p] + cuts[i + 1..], p);
  }

  lemma {:induction false} PieceShift(s: Word, t: nat, e: nat, p: nat)
    requires p <= |s| && p <= t && p <= e
    ensures Piece(s[p..], t - p, e - p) == Piece(s, t, e)
  {
    if t <= e <= |s| {
      assert s[p..][t - p..e - p] == s[t..e];
    }
  }

  /** Words read off boundaries from p on are the words of the input restarted there. */
  lemma {:induction false} SuffixWords(s: Word, cuts: seq<nat>, p: nat)
    requires p <= |s| && forall j | 0 <= j < |cuts| :: p <= cuts[j]
    ensures Words(s[p..], Shifted(cuts, p)) == Words(s, cuts)
  {
    hide Piece;
    var shifted := Shifted(cuts, p);
    forall j | 0 <= j < |cuts| - 1
      ensures Piece(s[p..], shifted[j], shifted[j + 1]) == Piece(s, cuts[j], cuts[j + 1])
    {
      PieceShift(s, cuts[j], cuts[j + 1], p);
    }
  }

  /** The chunk from a certified byte on tokenizes, restarting at most one discarded token. */
  lemma {:induction false} ChunkAfter(sim: Simulator, ignored: set<Token>, s: Word, cuts: seq<nat>, i: nat, p: nat)
    requires sim.Valid() && Segmentation(sim.dfa, s, 0, cuts)
    requires i < |cuts| - 1 && cuts[i] <= p < cuts[i + 1] && SafeByte(sim, ignored, s[p])
    ensures p < |s| && forall j | i < j < |cuts| :: p <= cuts[j]
    ensures Segmentation(sim.dfa, s[p..], 0, RightCuts(cuts, i, p))
    ensures KeptStream(sim.dfa, ignored, Words(s[p..], RightCuts(cuts, i, p)))
         == KeptStream(sim.dfa, ignored, Words(s, cuts)[i..])
  {
    assert TokenAt(sim.dfa, s, cuts[i], cuts[i + 1]);
    hide SafeByte, KeptStream, Segmentation, RightCuts, Words, Piece;
    RightSegmentation(sim, ignored, s, cuts, i, p);
    RightWords(s, cuts, i, p);
    if cuts[i] < p {
      SeveredToken(sim, ignored, s, cuts[i], cuts[i + 1], p);
      KeptSwaps(sim.dfa, ignored, s[p..cuts[i + 1]], s[cuts[i]..cuts[i + 1]], Words(s, cuts)[i + 1..]);
    }
  }

  lemma {:induction false} RightWords(s: Word, cuts: seq<nat>, i: nat, p: nat)
    requires i < |cuts| - 1 && cuts[i] <= p < cuts[i + 1] <= |s| && forall j | i < j < |cuts| :: p <= cuts[j]
    ensures |Words(s, cuts)| == |cuts| - 1
    ensures Words(s[p..], RightCuts(cuts, i, p)) == [s[p..cuts[i + 1]]] + Words(s, cuts)[i + 1..]
    ensures Words(s, cuts)[i..] == [s[cuts[i]..cuts[i + 1]]] + Words(s, cuts)[i + 1..]
  {
    var from := [p] + cuts[i + 1..];
    SuffixWords(s, from, p);
    assert Words(s, from) == [s[p..cuts[i + 1]]] + Words(s, cuts)[i + 1..];
  }

  /**
    An input cut where a certified byte stands loses nothing: each part tokenizes
    to its end, and the kept tokens of the parts, in order, are those of the input.
   */
  lemma {:induction false} CutKeepsStream(sim: Simulator, ignored: set<Token>, s: Word, cuts: seq<nat>, p: nat)
    returns (left: seq<nat>, right: seq<nat>)
    requires sim.Valid() && Segmentation(sim.dfa, s, 0, cuts)
    requires p < |s| && SafeByte(sim, ignored, s[p])
    ensures Segmentation(sim.dfa, s[..p], 0, left) && Segmentation(sim.dfa, s[p..], 0, right)
    ensures KeptStream(sim.dfa, ignored, Words(s, cuts))
         == KeptStream(sim.dfa, ignored, Words(s[..p], left)) + KeptStream(sim.dfa, ignored, Words(s[p..], right))
  {
    hide SafeByte, KeptStream, LeftCuts, RightCuts;
    var i := CoveringIndex(sim.dfa, s, 0, cuts, p);
    ChunkBefore(sim, ignored, s, cuts, i, p);
    ChunkAfter(sim, ignored, s, cuts, i, p);
    left, right := LeftCuts(cuts, i, p), RightCuts(cuts, i, p);
    var words := Words(s, cuts);
    assert words == words[..i] + words[i..];
    KeptAppend(sim.dfa, ignored, words[..i], words[i..]);
  }

  /** Deleting more kinds never loses a certified byte. */
  lemma {:induction false} IgnoringKeepsSafe(sim: Simulator, ignored: set<Token>, b: Byte)
    requires sim.Valid() && SafeByte(sim, {}, b)
    ensures SafeByte(sim, ignored, b)
  {
    forall q | sim.dfa.Reachable(q) && Consumes(sim.dfa, q, b) ensures q == sim.dfa.init && !sim.reentrant {
      assert ShadeOf(sim.dfa, {}, q) != Discarded;
    }
  }
}

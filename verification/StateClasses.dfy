/**
  The classes of a trim verifier's states, those no marked continuation tells
  apart, and the verifier the classes make.
 */
module StateClasses {
  import opened Options
  import opened Verifiers
  import opened Partition
  import opened Counting

  // ----- refinement -----

  function TargetOf<S(==,!new)>(t: Verifier<S>, n: nat, q: nat, x: S): nat {
    match t.Step(q, x) case Some(p) => p case None => n
  }

  /** The verifier's states as rows, a refused symbol leading past them. */
  function RowsOf<S(==,!new)>(t: Verifier<S>, n: nat): System<S> {
    System(n, (q: nat, x: S) => TargetOf(t, n, q, x))
  }

  /** Acceptance, and the row past the states apart from both. */
  function ColourOf<S(!new)>(t: Verifier<S>, n: nat, q: nat): nat {
    if q >= n then 2 else if q in t.accepting then 1 else 0
  }

  /** The symbols on the transitions. */
  method SymbolsRead<S(==,!new)>(t: Verifier<S>) returns (symbols: seq<S>)
    ensures forall x :: x in symbols <==> exists k | k in t.transitions :: k.1 == x
  {
    symbols := [];
    var rest := t.transitions.Keys;
    while rest != {}
      invariant rest <= t.transitions.Keys
      invariant forall x :: x in symbols <==> exists k | k in t.transitions && k !in rest :: k.1 == x
      decreases rest
    {
      var k: (nat, S) :| k in rest;
      ghost var before, left := symbols, rest;
      symbols, rest := symbols + [k.1], rest - {k};
      forall x ensures x in symbols <==> exists j | j in t.transitions && j !in rest :: j.1 == x {
        if j :| j in t.transitions && j !in rest && j.1 == x {
          assert j != k ==> j !in left;
        }
        if x in before {
          var j :| j in t.transitions && j !in left && j.1 == x;
          assert j !in rest;
        }
      }
    }
  }

  lemma {:induction false} SymbolsRepresent<S(!new)>(t: Verifier<S>, n: nat, symbols: seq<S>)
    requires InStates(t, n) && forall x :: x in symbols <==> exists k | k in t.transitions :: k.1 == x
    ensures RowsOf(t, n).Valid() && forall x :: Represented(RowsOf(t, n), symbols, x)
  {
    forall x ensures Represented(RowsOf(t, n), symbols, x) {
      if x in symbols {
        assert SameColumn(RowsOf(t, n), x, x);
      } else {
        forall q: nat ensures TargetOf(t, n, q, x) == n {
          assert (q, x).1 == x;
        }
      }
    }
  }

  /** The states accept the same continuations. */
  ghost predicate SameContinuations<S(!new)>(t: Verifier<S>, p: nat, q: nat) {
    forall s :: t.AcceptsFrom(p, s) <==> t.AcceptsFrom(q, s)
  }

  /** Reading on from a row past the states stays there. */
  lemma {:induction false} StaysPast<S(!new)>(t: Verifier<S>, n: nat, q: nat, s: seq<S>)
    requires InStates(t, n) && q >= n
    ensures After(RowsOf(t, n), q, s) >= n && !t.AcceptsFrom(q, s)
    decreases |s|
  {
    if s != [] {
      assert (q, s[0]) !in t.transitions;
      StaysPast(t, n, TargetOf(t, n, q, s[0]), s[1..]);
    }
  }

  /** A word is accepted on from where its beginning leads, and not where that is past the states. */
  lemma {:induction false} AcceptsOn<S(!new)>(t: Verifier<S>, n: nat, q: nat, s: seq<S>, u: seq<S>)
    requires InStates(t, n)
    ensures t.AcceptsFrom(q, s + u) <==> After(RowsOf(t, n), q, s) < n && t.AcceptsFrom(After(RowsOf(t, n), q, s), u)
    decreases |s|
  {
    if s == [] {
      assert s + u == u;
      if q >= n {
        StaysPast(t, n, q, u);
      }
    } else {
      assert (s + u)[0] == s[0] && (s + u)[1..] == s[1..] + u;
      if t.Step(q, s[0]).Some? {
        AcceptsOn(t, n, t.Step(q, s[0]).value, s[1..], u);
      } else {
        StaysPast(t, n, n, s[1..]);
      }
    }
  }

  /** A row reached by a symbol can still accept. */
  lemma {:induction false} EnteredAccepts<S(!new)>(t: Verifier<S>, n: nat, q: nat, s: seq<S>)
    requires IsTrim(t, n) && After(RowsOf(t, n), q, s) < n && s != []
    ensures t.Coaccessible(After(RowsOf(t, n), q, s))
    decreases |s|
  {
    var to := TargetOf(t, n, q, s[0]);
    if |s| == 1 {
      assert s[1..] == [];
      assert (q, s[0]) in t.transitions;
    } else {
      if to >= n {
        StaysPast(t, n, to, s[1..]);
      }
      EnteredAccepts(t, n, to, s[1..]);
    }
  }

  /** No continuation, refusals told apart too, tells the rows apart exactly where none is accepted from one alone. */
  lemma {:induction false} AgreeIsSame<S(!new)>(t: Verifier<S>, n: nat, p: nat, q: nat)
    requires IsTrim(t, n) && p < n && q < n
    ensures Agree(RowsOf(t, n), (r: nat) => ColourOf(t, n, r), p, q) <==> SameContinuations(t, p, q)
  {
    var m, colour := RowsOf(t, n), (r: nat) => ColourOf(t, n, r);
    if Agree(m, colour, p, q) {
      forall s ensures t.AcceptsFrom(p, s) <==> t.AcceptsFrom(q, s) {
        assert colour(After(m, p, s)) == colour(After(m, q, s));
        AcceptsHere(t, n, p, s);
        AcceptsHere(t, n, q, s);
      }
    }
    if SameContinuations(t, p, q) {
      forall s: seq<S> ensures colour(After(m, p, s)) == colour(After(m, q, s)) {
        AcceptsHere(t, n, p, s);
        AcceptsHere(t, n, q, s);
        assert t.AcceptsFrom(p, s) <==> t.AcceptsFrom(q, s);
        AliveAlike(t, n, p, q, s);
        AliveAlike(t, n, q, p, s);
      }
    }
  }

  lemma {:induction false} AcceptsHere<S(!new)>(t: Verifier<S>, n: nat, q: nat, s: seq<S>)
    requires InStates(t, n)
    ensures t.AcceptsFrom(q, s) <==> ColourOf(t, n, After(RowsOf(t, n), q, s)) == 1
  {
    AcceptsOn(t, n, q, s, []);
    assert s + [] == s;
  }

  /** Of states of the same continuations, what one reads the other reads. */
  lemma {:induction false} AliveAlike<S(!new)>(t: Verifier<S>, n: nat, p: nat, q: nat, s: seq<S>)
    requires IsTrim(t, n) && p < n && q < n && SameContinuations(t, p, q)
    ensures After(RowsOf(t, n), p, s) < n ==> After(RowsOf(t, n), q, s) < n
  {
    if After(RowsOf(t, n), p, s) < n && s != [] {
      EnteredAccepts(t, n, p, s);
      var u :| t.AcceptsFrom(After(RowsOf(t, n), p, s), u);
      AcceptsOn(t, n, p, s, u);
      AcceptsOn(t, n, q, s, u);
      assert t.AcceptsFrom(p, s + u) <==> t.AcceptsFrom(q, s + u);
    }
  }

  /** The classes are numbered below the count, and hold together the states of the same continuations. */
  ghost predicate AreClasses<S(!new)>(t: Verifier<S>, n: nat, classes: seq<nat>, count: nat) {
    && |classes| >= n && (forall q: nat | q < n :: classes[q] < count)
    && forall p: nat, q: nat | p < n && q < n :: classes[p] == classes[q] <==> SameContinuations(t, p, q)
  }

  /** Refines the split by acceptance until every class moves as one. */
  method ClassesOf<S(==,!new)>(t: Verifier<S>, n: nat) returns (classes: seq<nat>, count: nat)
    requires IsTrim(t, n)
    ensures AreClasses(t, n, classes, count)
  {
    hide SameContinuations, Agree, IsTrim;
    TrimInStates(t, n);
    var symbols := SymbolsRead(t);
    SymbolsRepresent(t, n, symbols);
    classes, count := CoarsestClasses(RowsOf(t, n), symbols, (r: nat) => ColourOf(t, n, r));
    forall p: nat, q: nat | p < n && q < n ensures classes[p] == classes[q] <==> SameContinuations(t, p, q) {
      AgreeIsSame(t, n, p, q);
    }
  }

  lemma TrimInStates<S(!new)>(t: Verifier<S>, n: nat)
    requires IsTrim(t, n)
    ensures InStates(t, n)
  {
  }

  // ----- the projection -----

  /** The projection steps on a symbol from a state's class as the state does. */
  ghost predicate StepsAlike<S(!new)>(t: Verifier<S>, classes: seq<nat>, p: Verifier<S>, q: nat, x: S) {
    && q < |classes|
    && match t.Step(q, x)
       case None => p.Step(classes[q], x) == None
       case Some(to) => to < |classes| && p.Step(classes[q], x) == Some(classes[to])
  }

  /** The verifier of the classes: its start, steps and acceptance are those of every state of each class. */
  ghost predicate IsProjection<S(!new)>(t: Verifier<S>, n: nat, classes: seq<nat>, p: Verifier<S>) {
    && t.start < n <= |classes| && p.start == classes[t.start]
    && (forall q: nat, x | q < n :: StepsAlike(t, classes, p, q, x))
    && (forall q: nat | q < n :: q in t.accepting <==> classes[q] in p.accepting)
    && (forall k | k in p.transitions :: IsClass(n, classes, k.0) && IsClass(n, classes, p.transitions[k]))
    && forall c | c in p.accepting :: IsClass(n, classes, c)
  }

  ghost predicate IsClass(n: nat, classes: seq<nat>, c: nat) {
    exists q: nat :: q < n && q < |classes| && classes[q] == c
  }

  /** States of one class step into one class, or are refused together. */
  lemma {:induction false} ClassSteps<S(!new)>(
      t: Verifier<S>, n: nat, classes: seq<nat>, count: nat, p: nat, q: nat, x: S)
    requires IsTrim(t, n) && AreClasses(t, n, classes, count) && p < n && q < n && classes[p] == classes[q]
    requires t.Step(p, x).Some?
    ensures t.Step(q, x).Some? && t.Step(p, x).value < n && t.Step(q, x).value < n
    ensures classes[t.Step(p, x).value] == classes[t.Step(q, x).value]
  {
    assert SameContinuations(t, p, q);
    assert (p, x) in t.transitions;
    var to := t.Step(p, x).value;
    assert t.transitions[(p, x)] == to && t.Coaccessible(to);
    var u :| t.AcceptsFrom(to, u);
    assert ([x] + u)[1..] == u;
    assert t.AcceptsFrom(p, [x] + u) <==> t.AcceptsFrom(q, [x] + u);
    assert (q, x) in t.transitions;
    var other := t.Step(q, x).value;
    forall s ensures t.AcceptsFrom(to, s) <==> t.AcceptsFrom(other, s) {
      assert ([x] + s)[1..] == s;
      assert t.AcceptsFrom(p, [x] + s) <==> t.AcceptsFrom(q, [x] + s);
    }
  }

  lemma {:induction false} ClassAccepts<S(!new)>(t: Verifier<S>, n: nat, classes: seq<nat>, count: nat, p: nat, q: nat)
    requires AreClasses(t, n, classes, count) && p < n && q < n && classes[p] == classes[q]
    ensures p in t.accepting <==> q in t.accepting
  {
    assert SameContinuations(t, p, q);
    assert t.AcceptsFrom(p, []) <==> t.AcceptsFrom(q, []);
  }

  /** The steps between classes carried over so far, each some state's. */
  ghost predicate Carried<S(!new)>(
      t: Verifier<S>, n: nat, classes: seq<nat>, transitions: map<(nat, S), nat>, rest: set<(nat, S)>)
    requires InStates(t, n) && n <= |classes|
  {
    && (forall k | k in t.transitions && k !in rest ::
          (classes[k.0], k.1) in transitions && transitions[(classes[k.0], k.1)] == classes[t.transitions[k]])
    && forall c, x | (c, x) in transitions :: exists q: nat :: Comes(t, n, classes, transitions, c, x, q)
  }

  ghost predicate Comes<S(!new)>(
      t: Verifier<S>, n: nat, classes: seq<nat>, transitions: map<(nat, S), nat>, c: nat, x: S, q: nat)
    requires InStates(t, n) && n <= |classes|
  {
    && q < n && classes[q] == c && (q, x) in t.transitions && (c, x) in transitions
    && transitions[(c, x)] == classes[t.transitions[(q, x)]]
  }

  lemma {:induction false} CarryOne<S(!new)>(
      t: Verifier<S>, n: nat, classes: seq<nat>, count: nat, transitions: map<(nat, S), nat>, rest: set<(nat, S)>,
      k: (nat, S))
    requires IsTrim(t, n) && AreClasses(t, n, classes, count) && Carried(t, n, classes, transitions, rest)
    requires k in t.transitions && k in rest
    ensures Carried(t, n, classes, transitions[(classes[k.0], k.1) := classes[t.transitions[k]]], rest - {k})
  {
    var more := transitions[(classes[k.0], k.1) := classes[t.transitions[k]]];
    forall j | j in t.transitions && j !in rest - {k}
      ensures (classes[j.0], j.1) in more && more[(classes[j.0], j.1)] == classes[t.transitions[j]]
    {
      if classes[j.0] == classes[k.0] && j.1 == k.1 {
        assert t.Step(j.0, j.1) == Some(t.transitions[j]) && t.Step(k.0, k.1) == Some(t.transitions[k]);
        ClassSteps(t, n, classes, count, j.0, k.0, k.1);
      }
    }
    forall c, x | (c, x) in more ensures exists q: nat :: Comes(t, n, classes, more, c, x, q) {
      if (c, x) == (classes[k.0], k.1) {
        assert k == (k.0, x);
        assert Comes(t, n, classes, more, c, x, k.0);
      } else {
        var q: nat :| Comes(t, n, classes, transitions, c, x, q);
        assert Comes(t, n, classes, more, c, x, q);
      }
    }
  }

  /** The verifier of the classes. */
  method Project<S(==,!new)>(t: Verifier<S>, n: nat, classes: seq<nat>, ghost count: nat) returns (p: Verifier<S>)
    requires IsTrim(t, n) && AreClasses(t, n, classes, count)
    ensures IsProjection(t, n, classes, p) && InStates(p, count)
  {
    hide IsTrim, AreClasses, Carried;
    TrimInStates(t, n);
    assert |classes| >= n by {
      ClassesLength(t, n, classes, count);
    }
    var transitions: map<(nat, S), nat> := map[];
    NothingCarried(t, n, classes);
    var rest := t.transitions.Keys;
    while rest != {}
      invariant rest <= t.transitions.Keys && Carried(t, n, classes, transitions, rest)
      decreases rest
    {
      var k: (nat, S) :| k in rest;
      CarryOne(t, n, classes, count, transitions, rest, k);
      transitions := transitions[(classes[k.0], k.1) := classes[t.transitions[k]]];
      rest := rest - {k};
    }
    var accepting := set q | q in t.accepting :: classes[q];
    p := Verifier(classes[t.start], transitions, accepting, map[], map[]);
    ProjectionHolds(t, n, classes, count, p);
  }

  lemma ClassesLength<S(!new)>(t: Verifier<S>, n: nat, classes: seq<nat>, count: nat)
    requires AreClasses(t, n, classes, count)
    ensures |classes| >= n
  {
  }

  lemma NothingCarried<S(!new)>(t: Verifier<S>, n: nat, classes: seq<nat>)
    requires InStates(t, n) && n <= |classes|
    ensures Carried(t, n, classes, map[], t.transitions.Keys)
  {
  }

  lemma {:induction false} ProjectionHolds<S(!new)>(
      t: Verifier<S>, n: nat, classes: seq<nat>, count: nat, p: Verifier<S>)
    requires IsTrim(t, n) && AreClasses(t, n, classes, count) && Carried(t, n, classes, p.transitions, {})
    requires p.start == classes[t.start] && p.accepting == set q | q in t.accepting :: classes[q]
    ensures IsProjection(t, n, classes, p) && InStates(p, count)
  {
    hide SameContinuations;
    forall q: nat, x | q < n ensures StepsAlike(t, classes, p, q, x) {
      ProjectionSteps(t, n, classes, count, p, q, x);
    }
    forall q: nat | q < n ensures q in t.accepting <==> classes[q] in p.accepting {
      if classes[q] in p.accepting {
        var r :| r in t.accepting && classes[r] == classes[q];
        ClassAccepts(t, n, classes, count, q, r);
      }
    }
    forall k | k in p.transitions ensures IsClass(n, classes, k.0) && IsClass(n, classes, p.transitions[k]) {
      assert k == (k.0, k.1);
      var q: nat :| Comes(t, n, classes, p.transitions, k.0, k.1, q);
    }
    forall c | c in p.accepting ensures IsClass(n, classes, c) {
      var q :| q in t.accepting && classes[q] == c;
    }
  }

  lemma {:induction false} ProjectionSteps<S(!new)>(
      t: Verifier<S>, n: nat, classes: seq<nat>, count: nat, p: Verifier<S>, q: nat, x: S)
    requires IsTrim(t, n) && AreClasses(t, n, classes, count) && Carried(t, n, classes, p.transitions, {}) && q < n
    ensures StepsAlike(t, classes, p, q, x)
  {
    hide SameContinuations, AreClasses;
    ClassesLength(t, n, classes, count);
    if t.Step(q, x).Some? {
      assert (q, x) in t.transitions;
    } else if (classes[q], x) in p.transitions {
      var r: nat :| Comes(t, n, classes, p.transitions, classes[q], x, r);
      assert t.Step(r, x) == Some(t.transitions[(r, x)]);
      ClassSteps(t, n, classes, count, r, q, x);
    }
  }

  /** Reading in the projection is reading in the verifier, class by class. */
  lemma {:induction false} ProjectedRun<S(!new)>(
      t: Verifier<S>, n: nat, classes: seq<nat>, p: Verifier<S>, q: nat, s: seq<S>)
    requires IsProjection(t, n, classes, p) && InStates(t, n) && q < n
    ensures match RunTo(t, q, s)
      case None => RunTo(p, classes[q], s) == None
      case Some(r) => r < n && RunTo(p, classes[q], s) == Some(classes[r])
  {
    if s != [] {
      var front, x := s[..|s| - 1], s[|s| - 1];
      ProjectedRun(t, n, classes, p, q, front);
      var mid := RunTo(t, q, front);
      if mid.Some? {
        assert StepsAlike(t, classes, p, mid.value, x);
        assert t.Step(mid.value, x).Some? ==> (mid.value, x) in t.transitions;
      }
    }
  }

  /** No two classes have the same continuations. */
  lemma {:induction false} ClassesApart<S(!new)>(
      t: Verifier<S>, n: nat, classes: seq<nat>, count: nat, p: Verifier<S>, a: nat, b: nat)
    requires IsTrim(t, n) && AreClasses(t, n, classes, count) && IsProjection(t, n, classes, p) && a < n && b < n
    requires SameContinuations(p, classes[a], classes[b])
    ensures classes[a] == classes[b]
  {
    forall s ensures t.AcceptsFrom(a, s) <==> t.AcceptsFrom(b, s) {
      assert p.AcceptsFrom(classes[a], s) <==> p.AcceptsFrom(classes[b], s);
      ProjectedAccepts(t, n, classes, p, a, s);
      ProjectedAccepts(t, n, classes, p, b, s);
    }
  }

  lemma {:induction false} ProjectedAccepts<S(!new)>(
      t: Verifier<S>, n: nat, classes: seq<nat>, p: Verifier<S>, q: nat, s: seq<S>)
    requires IsProjection(t, n, classes, p) && InStates(t, n) && q < n
    ensures p.AcceptsFrom(classes[q], s) <==> t.AcceptsFrom(q, s)
  {
    AcceptsRun(t, q, s);
    AcceptsRun(p, classes[q], s);
    ProjectedRun(t, n, classes, p, q, s);
  }
}

/** Minimization: states no word tells apart are merged, and nothing smaller does the same. */
module Minimize {
  import opened Options
  import opened Machine
  import opened Outcomes
  import opened Partition
  import opened DfaRows
  import opened Counting

  /** What ending at a row means: nothing past the table, and a state's token or none in it. */
  function ColourOf(d: Dfa, p: nat): Outcome {
    if p >= d.states then Undefined else Defined(if d.Accepting(p) then Some(d.accepts[p]) else None)
  }

  lemma {:induction false} ColourIsOutcome(d: Dfa, q: nat, w: Word)
    requires d.Valid() && q < d.states
    ensures ColourOf(d, After(RowsOf(d), q, w)) == OutcomeFrom(d, q, w)
  {
    AfterIsRun(d, q, w);
    d.RunInRange(q, w);
  }

  /** The groups are the states no word tells apart. */
  ghost predicate Groups(d: Dfa, group: seq<nat>) {
    |group| >= d.states && forall p: nat, q: nat | p < d.states && q < d.states ::
      group[p] == group[q] <==> SameOutcomes(d, p, q)
  }

  method AllBytes(d: Dfa) returns (bytes: seq<Byte>)
    ensures forall b: Byte :: Represented(RowsOf(d), bytes, b)
  {
    bytes := seq(256, i requires 0 <= i < 256 => i);
    forall b: Byte ensures Represented(RowsOf(d), bytes, b) {
      assert bytes[b] == b && SameColumn(RowsOf(d), b, b);
    }
  }

  /** Refines the grouping by token until no state's edges tell a group apart. */
  method RefinedGroups(d: Dfa) returns (group: seq<nat>)
    requires d.Valid()
    ensures Groups(d, group)
  {
    var bytes := AllBytes(d);
    var colour := (p: nat) => ColourOf(d, p);
    RowsValid(d);
    var count: nat;
    group, count := CoarsestClasses(RowsOf(d), bytes, colour);
    forall p: nat, q: nat | p < d.states && q < d.states ensures group[p] == group[q] <==> SameOutcomes(d, p, q) {
      forall w: Word
        ensures colour(After(RowsOf(d), p, w)) == OutcomeFrom(d, p, w)
        ensures colour(After(RowsOf(d), q, w)) == OutcomeFrom(d, q, w)
      {
        ColourIsOutcome(d, p, w);
        ColourIsOutcome(d, q, w);
      }
      hide OutcomeFrom, After;
    }
  }

  // ----- the groups as states -----

  /** Each group met has one number, and each number a state that belongs to its group. */
  ghost predicate Numbers(d: Dfa, group: seq<nat>, numbers: map<nat, nat>, members: seq<State>) {
    && |group| >= d.states
    && (forall n: nat | n < |members| ::
      members[n] < d.states && group[members[n]] in numbers && numbers[group[members[n]]] == n)
    && forall g | g in numbers :: numbers[g] < |members| && group[members[numbers[g]]] == g
  }

  ghost predicate Extends(numbers: map<nat, nat>, more: map<nat, nat>) {
    forall g | g in numbers :: g in more && more[g] == numbers[g]
  }

  /** The merged state of a state, numbered when its group is first met. */
  method StateOf(d: Dfa, group: seq<nat>, numbers0: map<nat, nat>, members0: seq<State>, old_state: State)
    returns (state: nat, numbers: map<nat, nat>, members: seq<State>)
    requires Numbers(d, group, numbers0, members0) && old_state < d.states
    ensures Numbers(d, group, numbers, members) && Extends(numbers0, numbers) && members0 <= members
    ensures group[old_state] in numbers && numbers[group[old_state]] == state
  {
    numbers, members := numbers0, members0;
    if group[old_state] in numbers {
      return numbers[group[old_state]], numbers, members;
    }
    state := |members|;
    numbers, members := numbers[group[old_state] := state], members + [old_state];
  }

  /** Where a group is numbered, the number of the state's group. */
  ghost function Merged(group: seq<nat>, numbers: map<nat, nat>, q: State): Option<nat> {
    if q < |group| && group[q] in numbers then Some(numbers[group[q]]) else None
  }

  /** The transition of the old automaton is one of the merged. */
  ghost predicate Carried(
      d: Dfa, group: seq<nat>, numbers: map<nat, nat>, delta: map<(State, Byte), State>, k: (State, Byte))
  {
    && k in d.delta
    && var from, to := Merged(group, numbers, k.0), Merged(group, numbers, d.delta[k]);
       from.Some? && to.Some? && (from.value, k.1) in delta && delta[(from.value, k.1)] == to.value
  }

  /** The merged transition is that of some old one. */
  ghost predicate Comes(
      d: Dfa, group: seq<nat>, numbers: map<nat, nat>, delta: map<(State, Byte), State>, from: State, b: Byte)
  {
    exists q :: (q, b) in d.delta && Merged(group, numbers, q) == Some(from)
  }

  ghost predicate AllCarried(
      d: Dfa, group: seq<nat>, numbers: map<nat, nat>, delta: map<(State, Byte), State>, rest: set<(State, Byte)>)
  {
    && (forall k | k in d.delta && k !in rest :: Carried(d, group, numbers, delta, k))
    && forall from, b | (from, b) in delta :: Comes(d, group, numbers, delta, from, b)
  }

  lemma {:induction false} CarryOne(
      d: Dfa, group: seq<nat>, numbers: map<nat, nat>, more: map<nat, nat>, delta: map<(State, Byte), State>,
      rest: set<(State, Byte)>, k: (State, Byte), from: nat, to: nat)
    requires d.Valid() && Groups(d, group) && AllCarried(d, group, numbers, delta, rest) && Extends(numbers, more)
    requires k in rest && k in d.delta && Merged(group, more, k.0) == Some(from)
    requires Merged(group, more, d.delta[k]) == Some(to)
    requires forall g, h | g in more && h in more && more[g] == more[h] :: g == h
    ensures AllCarried(d, group, more, delta[(from, k.1) := to], rest - {k})
  {
    var wider := delta[(from, k.1) := to];
    forall j | j in d.delta && j !in rest - {k} ensures Carried(d, group, more, wider, j) {
      if j != k {
        assert Carried(d, group, numbers, delta, j);
        if Merged(group, more, j.0) == Some(from) && j.1 == k.1 {
          SameTarget(d, group, j.0, k.0, k.1);
        }
      }
    }
    forall f, b | (f, b) in wider ensures Comes(d, group, more, wider, f, b) {
      if (f, b) == (from, k.1) {
        assert k == (k.0, b);
      } else {
        assert Comes(d, group, numbers, delta, f, b);
        var q :| (q, b) in d.delta && Merged(group, numbers, q) == Some(f);
        assert Merged(group, more, q) == Some(f);
      }
    }
  }

  /** States of one group have their transitions on the same bytes, into one group. */
  lemma {:induction false} SameTarget(d: Dfa, group: seq<nat>, p: State, q: State, b: Byte)
    requires d.Valid() && Groups(d, group) && p < d.states && q < d.states && group[p] == group[q]
    ensures (p, b) in d.delta <==> (q, b) in d.delta
    ensures (p, b) in d.delta ==> group[d.delta[(p, b)]] == group[d.delta[(q, b)]]
  {
    assert SameOutcomes(d, p, q);
    assert OutcomeFrom(d, p, [b]) == OutcomeFrom(d, q, [b]);
    d.RunByte(p, b);
    d.RunByte(q, b);
    if (p, b) in d.delta {
      var s, t := d.delta[(p, b)], d.delta[(q, b)];
      forall w ensures OutcomeFrom(d, s, w) == OutcomeFrom(d, t, w) {
        assert OutcomeFrom(d, p, [b] + w) == OutcomeFrom(d, q, [b] + w);
        d.RunAppend(p, [b], w);
        d.RunAppend(q, [b], w);
      }
      hide OutcomeFrom;
      assert SameOutcomes(d, s, t);
    }
  }

  /** The accepting state of the old automaton is one of the merged, of its token. */
  ghost predicate Kept(d: Dfa, group: seq<nat>, numbers: map<nat, nat>, accepts: map<State, Token>, q: State) {
    && q in d.accepts
    && var n := Merged(group, numbers, q);
       n.Some? && n.value in accepts && accepts[n.value] == d.accepts[q]
  }

  ghost predicate AllKept(
      d: Dfa, group: seq<nat>, numbers: map<nat, nat>, accepts: map<State, Token>, rest: set<State>)
  {
    && (forall q | q in d.accepts && q !in rest :: Kept(d, group, numbers, accepts, q))
    && forall n | n in accepts :: exists q | q in d.accepts :: Merged(group, numbers, q) == Some(n)
  }

  lemma {:induction false} KeepOne(
      d: Dfa, group: seq<nat>, numbers: map<nat, nat>, more: map<nat, nat>, accepts: map<State, Token>,
      rest: set<State>, q: State, n: nat)
    requires d.Valid() && Groups(d, group) && AllKept(d, group, numbers, accepts, rest) && Extends(numbers, more)
    requires q in rest && q in d.accepts && Merged(group, more, q) == Some(n)
    requires forall g, h | g in more && h in more && more[g] == more[h] :: g == h
    ensures AllKept(d, group, more, accepts[n := d.accepts[q]], rest - {q})
  {
    var wider := accepts[n := d.accepts[q]];
    forall p | p in d.accepts && p !in rest - {q} ensures Kept(d, group, more, wider, p) {
      if p != q {
        assert Kept(d, group, numbers, accepts, p);
        if Merged(group, more, p) == Some(n) {
          assert SameOutcomes(d, p, q);
          assert OutcomeFrom(d, p, []) == OutcomeFrom(d, q, []);
        }
      }
    }
    forall m | m in wider ensures exists p | p in d.accepts :: Merged(group, more, p) == Some(m) {
      if m != n {
        var p :| p in d.accepts && Merged(group, numbers, p) == Some(m);
        assert Merged(group, more, p) == Some(m);
      }
    }
  }

  /** The merged automaton: its transitions and tokens are the old ones of each group's states. */
  ghost predicate IsQuotient(d: Dfa, group: seq<nat>, numbers: map<nat, nat>, members: seq<State>, m: Dfa) {
    && Groups(d, group) && Numbers(d, group, numbers, members)
    && Merged(group, numbers, d.init) == Some(m.init) && m.states == |members|
    && AllCarried(d, group, numbers, m.delta, {}) && AllKept(d, group, numbers, m.accepts, {})
  }

  lemma {:induction false} OneNumber(d: Dfa, group: seq<nat>, numbers: map<nat, nat>, members: seq<State>)
    requires Numbers(d, group, numbers, members)
    ensures forall g, h | g in numbers && h in numbers && numbers[g] == numbers[h] :: g == h
  {
  }

  /** Reading a word in the merged automaton is reading it in the old one. */
  lemma {:induction false} QuotientRuns(
      d: Dfa, group: seq<nat>, numbers: map<nat, nat>, members: seq<State>, m: Dfa, q: State, w: Word)
    requires d.Valid() && IsQuotient(d, group, numbers, members, m) && q < d.states && Merged(group, numbers, q).Some?
    ensures match d.Run(q, w)
      case None => m.Run(Merged(group, numbers, q).value, w) == None
      case Some(p) => p < d.states && Merged(group, numbers, p).Some?
                      && m.Run(Merged(group, numbers, q).value, w) == Merged(group, numbers, p)
  {
    if w != [] {
      var front, b := w[..|w| - 1], w[|w| - 1];
      QuotientRuns(d, group, numbers, members, m, q, front);
      if d.Run(q, front).Some? {
        QuotientSteps(d, group, numbers, members, m, d.Run(q, front).value, b);
      }
    }
  }

  lemma {:induction false} QuotientSteps(
      d: Dfa, group: seq<nat>, numbers: map<nat, nat>, members: seq<State>, m: Dfa, p: State, b: Byte)
    requires d.Valid() && IsQuotient(d, group, numbers, members, m) && p < d.states && Merged(group, numbers, p).Some?
    ensures match d.Step(p, b)
      case None => m.Step(Merged(group, numbers, p).value, b) == None
      case Some(to) => to < d.states && Merged(group, numbers, to).Some?
                       && m.Step(Merged(group, numbers, p).value, b) == Merged(group, numbers, to)
  {
    var n := Merged(group, numbers, p).value;
    OneNumber(d, group, numbers, members);
    if (p, b) in d.delta {
      assert Carried(d, group, numbers, m.delta, (p, b));
    } else if (n, b) in m.delta {
      assert Comes(d, group, numbers, m.delta, n, b);
      var q :| (q, b) in d.delta && Merged(group, numbers, q) == Some(n);
      SameTarget(d, group, p, q, b);
    }
  }

  lemma {:induction false} QuotientOutcomes(
      d: Dfa, group: seq<nat>, numbers: map<nat, nat>, members: seq<State>, m: Dfa, q: State, w: Word)
    requires d.Valid() && IsQuotient(d, group, numbers, members, m) && q < d.states && Merged(group, numbers, q).Some?
    ensures OutcomeFrom(m, Merged(group, numbers, q).value, w) == OutcomeFrom(d, q, w)
  {
    QuotientRuns(d, group, numbers, members, m, q, w);
    if d.Run(q, w).Some? {
      QuotientAccepts(d, group, numbers, members, m, d.Run(q, w).value);
    }
  }

  lemma {:induction false} QuotientAccepts(
      d: Dfa, group: seq<nat>, numbers: map<nat, nat>, members: seq<State>, m: Dfa, p: State)
    requires d.Valid() && IsQuotient(d, group, numbers, members, m) && p < d.states && Merged(group, numbers, p).Some?
    ensures var n := Merged(group, numbers, p).value;
      (p in d.accepts <==> n in m.accepts) && (p in d.accepts ==> m.accepts[n] == d.accepts[p])
  {
    var n := Merged(group, numbers, p).value;
    OneNumber(d, group, numbers, members);
    if p in d.accepts {
      assert Kept(d, group, numbers, m.accepts, p);
    }
    if n in m.accepts {
      var q :| q in d.accepts && Merged(group, numbers, q) == Some(n);
      assert SameOutcomes(d, p, q);
      assert OutcomeFrom(d, p, []) == OutcomeFrom(d, q, []);
    }
  }

  // ----- what minimizing promises -----

  /** Some word tells any two states apart. */
  ghost predicate AllDistinct(m: Dfa) {
    forall p: nat, q: nat | p < q < m.states :: !SameOutcomes(m, p, q)
  }

  lemma {:induction false} QuotientDistinct(
      d: Dfa, group: seq<nat>, numbers: map<nat, nat>, members: seq<State>, m: Dfa)
    requires d.Valid() && IsQuotient(d, group, numbers, members, m)
    ensures AllDistinct(m)
  {
    forall i: nat, j: nat | i < j < m.states ensures !SameOutcomes(m, i, j) {
      var p, q := members[i], members[j];
      assert group[p] != group[q] && !SameOutcomes(d, p, q);
      assert Merged(group, numbers, p) == Some(i) && Merged(group, numbers, q) == Some(j);
      var w :| OutcomeFrom(d, p, w) != OutcomeFrom(d, q, w);
      QuotientOutcomes(d, group, numbers, members, m, p, w);
      QuotientOutcomes(d, group, numbers, members, m, q, w);
    }
  }

  lemma {:induction false} QuotientReached(d: Dfa, group: seq<nat>, numbers: map<nat, nat>, members: seq<State>, m: Dfa)
    requires d.Valid() && IsQuotient(d, group, numbers, members, m) && AllReached(d)
    ensures AllReached(m)
  {
    forall n: nat | n < m.states ensures m.Reachable(n) {
      var q := members[n];
      assert q < d.states && d.Reachable(q);
      var w :| d.Run(d.init, w) == Some(q);
      QuotientRuns(d, group, numbers, members, m, d.init, w);
      assert m.Run(m.init, w) == Some(n);
    }
  }

  lemma {:induction false} QuotientValid(d: Dfa, group: seq<nat>, numbers: map<nat, nat>, members: seq<State>, m: Dfa)
    requires d.Valid() && IsQuotient(d, group, numbers, members, m)
    ensures m.Valid()
  {
    OneNumber(d, group, numbers, members);
    forall k | k in m.delta ensures k.0 < m.states && m.delta[k] < m.states {
      assert Comes(d, group, numbers, m.delta, k.0, k.1);
      var q :| (q, k.1) in d.delta && Merged(group, numbers, q) == Some(k.0);
      assert Carried(d, group, numbers, m.delta, (q, k.1));
    }
    forall n | n in m.accepts ensures n < m.states {
      var q :| q in d.accepts && Merged(group, numbers, q) == Some(n);
    }
  }

  /** Any automaton of the same outcomes has no fewer states. */
  lemma {:induction false} Fewest(m: Dfa, e: Dfa)
    requires m.Valid() && e.Valid() && AllReached(m) && AllDistinct(m) && Equivalent(m, e)
    ensures m.states <= e.states
  {
    var images := seq(m.states, n requires 0 <= n < m.states => ImageOf(m, e, n));
    forall i, j | 0 <= i < j < m.states ensures images[i] != images[j] {
      if ImageOf(m, e, i) == ImageOf(m, e, j) {
        SameImage(m, e, i, j);
      }
    }
    DistinctBelow(images, e.states);
  }

  ghost function WordOf(m: Dfa, n: nat): (w: Word)
    requires AllReached(m) && n < m.states
    ensures m.Run(m.init, w) == Some(n)
  {
    assert m.Reachable(n);
    var w :| m.Run(m.init, w) == Some(n);
    w
  }

  /** Where a word to the state leads in the other automaton. */
  ghost function ImageOf(m: Dfa, e: Dfa, n: nat): (q: State)
    requires m.Valid() && e.Valid() && AllReached(m) && Equivalent(m, e) && n < m.states
    ensures e.Run(e.init, WordOf(m, n)) == Some(q) && q < e.states
  {
    assert OutcomeFrom(m, m.init, WordOf(m, n)) == OutcomeFrom(e, e.init, WordOf(m, n));
    e.RunInRange(e.init, WordOf(m, n));
    e.Run(e.init, WordOf(m, n)).value
  }

  lemma {:induction false} SameImage(m: Dfa, e: Dfa, i: nat, j: nat)
    requires m.Valid() && e.Valid() && AllReached(m) && Equivalent(m, e) && i < m.states && j < m.states
    requires ImageOf(m, e, i) == ImageOf(m, e, j)
    ensures SameOutcomes(m, i, j)
  {
    var u, v, q := WordOf(m, i), WordOf(m, j), ImageOf(m, e, i);
    hide ImageOf, WordOf;
    forall w ensures OutcomeFrom(m, i, w) == OutcomeFrom(m, j, w) {
      OutcomeAfter(m, u, i, w);
      OutcomeAfter(m, v, j, w);
      OutcomeAfter(e, u, q, w);
      OutcomeAfter(e, v, q, w);
      assert OutcomeFrom(m, m.init, u + w) == OutcomeFrom(e, e.init, u + w);
      assert OutcomeFrom(m, m.init, v + w) == OutcomeFrom(e, e.init, v + w);
    }
  }

  /** Minimizes an automaton: the same outcome for every word, and no two states of the result alike. */
  method Minimized(d: Dfa) returns (m: Dfa)
    requires d.Valid()
    ensures m.Valid() && Equivalent(m, d) && AllDistinct(m)
    ensures AllReached(d) ==> AllReached(m)
  {
    hide Groups, Numbers, Extends, AllCarried, AllKept, Dfa.Valid, AllReached, AllDistinct;
    var group := RefinedGroups(d);
    var numbers, members := Begin(d, group);
    ghost var first := numbers;
    var delta: map<(State, Byte), State>, accepts: map<State, Token>;
    delta, numbers, members := MergeTransitions(d, group, numbers, members);
    ghost var middle := numbers;
    accepts, numbers, members := MergeAccepts(d, group, numbers, members);
    m := Dfa(0, |members|, delta, accepts);
    StillCarried(d, group, middle, numbers, delta);
    InitMerged(d, group, first, middle, numbers);
    assert IsQuotient(d, group, numbers, members, m);
    QuotientValid(d, group, numbers, members, m);
    QuotientDistinct(d, group, numbers, members, m);
    if AllReached(d) {
      QuotientReached(d, group, numbers, members, m);
    }
    hide IsQuotient;
    forall w ensures OutcomeFrom(m, m.init, w) == OutcomeFrom(d, d.init, w) {
      InitInRange(d);
      QuotientOutcomes(d, group, numbers, members, m, d.init, w);
    }
  }

  lemma InitInRange(d: Dfa)
    requires d.Valid()
    ensures d.init < d.states
  {
  }

  /** The group of the initial state becomes the initial state. */
  method Begin(d: Dfa, group: seq<nat>) returns (numbers: map<nat, nat>, members: seq<State>)
    requires d.Valid() && Groups(d, group)
    ensures Numbers(d, group, numbers, members) && Merged(group, numbers, d.init) == Some(0)
  {
    numbers, members := map[group[d.init] := 0], [d.init];
  }

  lemma InitMerged(d: Dfa, group: seq<nat>, first: map<nat, nat>, middle: map<nat, nat>, numbers: map<nat, nat>)
    requires Merged(group, first, d.init) == Some(0) && Extends(first, middle) && Extends(middle, numbers)
    ensures Merged(group, numbers, d.init) == Some(0)
  {
  }

  lemma {:induction false} StillCarried(
      d: Dfa, group: seq<nat>, numbers: map<nat, nat>, more: map<nat, nat>, delta: map<(State, Byte), State>)
    requires AllCarried(d, group, numbers, delta, {}) && Extends(numbers, more)
    ensures AllCarried(d, group, more, delta, {})
  {
    forall k | k in d.delta ensures Carried(d, group, more, delta, k) {
      assert Carried(d, group, numbers, delta, k);
    }
    forall from, b | (from, b) in delta ensures Comes(d, group, more, delta, from, b) {
      assert Comes(d, group, numbers, delta, from, b);
      var q :| (q, b) in d.delta && Merged(group, numbers, q) == Some(from);
      assert Merged(group, more, q) == Some(from);
    }
  }

  /** Every transition between the groups of its states, the target numbered before the source. */
  method MergeTransitions(d: Dfa, group: seq<nat>, numbers0: map<nat, nat>, members0: seq<State>)
    returns (delta: map<(State, Byte), State>, numbers: map<nat, nat>, members: seq<State>)
    requires d.Valid() && Groups(d, group) && Numbers(d, group, numbers0, members0)
    ensures Numbers(d, group, numbers, members) && Extends(numbers0, numbers)
    ensures AllCarried(d, group, numbers, delta, {})
  {
    hide Groups, Numbers;
    delta, numbers, members := map[], numbers0, members0;
    var rest := d.delta.Keys;
    while rest != {}
      invariant rest <= d.delta.Keys && Numbers(d, group, numbers, members) && Extends(numbers0, numbers)
      invariant AllCarried(d, group, numbers, delta, rest)
      decreases rest
    {
      hide AllCarried;
      var k: (State, Byte) :| k in rest;
      ghost var before := numbers;
      var to, from: nat;
      to, numbers, members := StateOf(d, group, numbers, members, d.delta[k]);
      from, numbers, members := StateOf(d, group, numbers, members, k.0);
      OneNumber(d, group, numbers, members);
      MergedNow(d, group, numbers, members, k, from, to);
      CarryOne(d, group, before, numbers, delta, rest, k, from, to);
      delta := delta[(from, k.1) := to];
      rest := rest - {k};
    }
  }

  lemma MergedNow(
      d: Dfa, group: seq<nat>, numbers: map<nat, nat>, members: seq<State>, k: (State, Byte), from: nat, to: nat)
    requires d.Valid() && Numbers(d, group, numbers, members) && k in d.delta
    requires group[k.0] in numbers && numbers[group[k.0]] == from && group[d.delta[k]] in numbers
    requires numbers[group[d.delta[k]]] == to
    ensures Merged(group, numbers, k.0) == Some(from) && Merged(group, numbers, d.delta[k]) == Some(to)
  {
  }

  /** Every accepting state's token for its group. */
  method MergeAccepts(d: Dfa, group: seq<nat>, numbers0: map<nat, nat>, members0: seq<State>)
    returns (accepts: map<State, Token>, numbers: map<nat, nat>, members: seq<State>)
    requires d.Valid() && Groups(d, group) && Numbers(d, group, numbers0, members0)
    ensures Numbers(d, group, numbers, members) && Extends(numbers0, numbers) && AllKept(d, group, numbers, accepts, {})
  {
    hide Groups, Numbers;
    accepts, numbers, members := map[], numbers0, members0;
    var rest := d.accepts.Keys;
    while rest != {}
      invariant rest <= d.accepts.Keys && Numbers(d, group, numbers, members) && Extends(numbers0, numbers)
      invariant AllKept(d, group, numbers, accepts, rest)
      decreases rest
    {
      hide AllKept;
      var q: State :| q in rest;
      ghost var before := numbers;
      var n: nat;
      n, numbers, members := StateOf(d, group, numbers, members, q);
      OneNumber(d, group, numbers, members);
      GroupKnown(d, group, numbers, members, q);
      KeepOne(d, group, before, numbers, accepts, rest, q, n);
      accepts := accepts[n := d.accepts[q]];
      rest := rest - {q};
    }
  }

  lemma GroupKnown(d: Dfa, group: seq<nat>, numbers: map<nat, nat>, members: seq<State>, q: State)
    requires Numbers(d, group, numbers, members) && q < d.states
    ensures q < |group|
  {
  }
}

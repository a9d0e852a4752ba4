/**
  Verifiers: partial automata over marked symbols that record the kind of every token they close,
  and their trimming.
 */
module Verifiers {
  import opened Options
  import Counting

  /** An automaton over symbols: entry, steps, ends, and the kinds noted where a token closes. */
  datatype Verifier<S(==,!new)> = Verifier(
      start: nat, transitions: map<(nat, S), nat>, accepting: set<nat>, closes: map<(nat, S), nat>,
      finals: map<nat, nat>)
  {

    function Step(q: nat, x: S): Option<nat> {
      if (q, x) in transitions then Some(transitions[(q, x)]) else None
    }

    /** Whether reading the symbols from the state ends in an accepting one. */
    ghost predicate AcceptsFrom(q: nat, s: seq<S>)
      decreases s
    {
      if s == [] then q in accepting
      else Step(q, s[0]).Some? && AcceptsFrom(Step(q, s[0]).value, s[1..])
    }

    ghost predicate Accepts(s: seq<S>) {
      AcceptsFrom(start, s)
    }

    ghost predicate Leads(q: nat, s: seq<S>, to: nat)
      decreases s
    {
      if s == [] then q == to
      else
        var front, x := s[..|s| - 1], s[|s| - 1];
        exists p: nat :: Leads(q, front, p) && Follows(p, x, to)
    }

    ghost predicate Follows(p: nat, x: S, to: nat) {
      Step(p, x) == Some(to)
    }

    ghost predicate Reachable(q: nat) {
      exists s :: Leads(start, s, q)
    }

    ghost predicate Coaccessible(q: nat) {
      exists s :: AcceptsFrom(q, s)
    }

    ghost function CloseKind(q: nat, x: S): seq<nat> {
      if (q, x) in closes then [closes[(q, x)]] else []
    }

    ghost function FinalKind(q: nat): seq<nat> {
      if q in finals then [finals[q]] else []
    }

    /** The kinds recorded while reading the symbols from the state, and on ending there. */
    ghost function KindsFrom(q: nat, s: seq<S>): seq<nat>
      decreases s
    {
      if s == [] then FinalKind(q)
      else CloseKind(q, s[0]) + if Step(q, s[0]).Some? then KindsFrom(Step(q, s[0]).value, s[1..]) else []
    }
  }

  // ----- coaccessible states -----

  function SourcesOf<S(==,!new)>(v: Verifier<S>, to: nat): set<nat> {
    set k | k in v.transitions && v.transitions[k] == to :: k.0
  }

  ghost function Named<S(!new)>(v: Verifier<S>): set<nat> {
    v.accepting + set k | k in v.transitions :: k.0
  }

  lemma {:induction false} LiveHoldsAll<S(!new)>(v: Verifier<S>, live: set<nat>, q: nat, s: seq<S>)
    requires v.accepting <= live && (forall to | to in live :: SourcesOf(v, to) <= live) && v.AcceptsFrom(q, s)
    ensures q in live
    decreases s
  {
    if s != [] {
      var to := v.Step(q, s[0]).value;
      LiveHoldsAll(v, live, to, s[1..]);
      assert (q, s[0]) in v.transitions && (q, s[0]).0 in SourcesOf(v, to);
    }
  }

  lemma {:induction false} SourceCoaccessible<S(!new)>(v: Verifier<S>, q: nat, to: nat)
    requires q in SourcesOf(v, to) && v.Coaccessible(to)
    ensures v.Coaccessible(q)
  {
    var k :| k in v.transitions && v.transitions[k] == to && k.0 == q;
    var s :| v.AcceptsFrom(to, s);
    assert k == (q, k.1) && ([k.1] + s)[1..] == s;
    assert v.AcceptsFrom(q, [k.1] + s);
  }

  /** What acceptance can still follow, collected against the transitions. */
  method CoaccessibleStates<S(==,!new)>(v: Verifier<S>) returns (live: set<nat>)
    ensures forall q: nat :: q in live <==> v.Coaccessible(q)
  {
    live := v.accepting;
    var pending := v.accepting;
    forall q | q in live ensures v.Coaccessible(q) {
      assert v.AcceptsFrom(q, []);
    }
    while pending != {}
      invariant v.accepting <= live <= Named(v) && pending <= live
      invariant forall q | q in live :: v.Coaccessible(q)
      invariant forall to | to in live && to !in pending :: SourcesOf(v, to) <= live
      decreases Named(v) - live, pending
    {
      var state :| state in pending;
      var found := SourcesOf(v, state) - live;
      forall q | q in found ensures v.Coaccessible(q) && q in Named(v) {
        SourceCoaccessible(v, q, state);
      }
      live, pending := live + found, pending - {state} + found;
    }
    forall q: nat | v.Coaccessible(q) ensures q in live {
      var s :| v.AcceptsFrom(q, s);
      LiveHoldsAll(v, live, q, s);
    }
  }

  // ----- the trimmed table -----

  /** Every state a table names. */
  ghost function Mentioned<S(!new)>(v: Verifier<S>): set<nat> {
    {v.start} + v.accepting + (set k | k in v.transitions :: k.0) + (set k | k in v.transitions :: v.transitions[k])
  }

  /** What a state reads as: the copy reads as the start. */
  function NameOf(start: nat, copy: nat, q: nat): nat {
    if q == copy then start else q
  }

  /** Where a step goes once the start has a stand-in for being entered. */
  function Redirected(start: nat, copy: nat, q: nat): nat {
    if q == start then copy else q
  }

  /** The number of each state kept, and the state of each number, the start first. */
  ghost predicate Numbers(start: nat, order: seq<nat>, renumbered: map<nat, nat>) {
    && order != [] && order[0] == start
    && (forall n: nat | n < |order| :: order[n] in renumbered && renumbered[order[n]] == n)
    && (forall q | q in renumbered :: renumbered[q] < |order| && order[renumbered[q]] == q)
  }

  /** The state numbered n does on the symbol what the state it stands for does, into live states only. */
  ghost predicate Copies<S(!new)>(
      v: Verifier<S>, live: set<nat>, copy: nat, order: seq<nat>, transitions: map<(nat, S), nat>, n: nat, x: S)
  {
    n < |order| &&
    var step := v.Step(NameOf(v.start, copy, order[n]), x);
    if step.Some? && step.value in live then
      && (n, x) in transitions && 0 < transitions[(n, x)] < |order|
      && order[transitions[(n, x)]] == Redirected(v.start, copy, step.value)
    else (n, x) !in transitions
  }

  ghost predicate CopiesAll<S(!new)>(
      v: Verifier<S>, live: set<nat>, copy: nat, order: seq<nat>, transitions: map<(nat, S), nat>, n: nat)
  {
    forall x: S :: Copies(v, live, copy, order, transitions, n, x)
  }

  /** The trimmed verifier stands for the given one, state by state. */
  ghost predicate StandsFor<S(!new)>(v: Verifier<S>, w: Verifier<S>, live: set<nat>, copy: nat, order: seq<nat>) {
    && copy !in Mentioned(v) && order != [] && order[0] == v.start && w.start == 0
    && (forall k | k in w.transitions :: k.0 < |order|)
    && (forall n: nat | n < |order| :: CopiesAll(v, live, copy, order, w.transitions, n))
    && (forall n: nat :: n in w.accepting <==> n < |order| && NameOf(v.start, copy, order[n]) in v.accepting)
    && (forall n: nat | n < |order| :: w.FinalKind(n) == v.FinalKind(NameOf(v.start, copy, order[n])))
    && (forall n: nat, x: S | (n, x) in w.transitions && n < |order| ::
          w.CloseKind(n, x) == v.CloseKind(NameOf(v.start, copy, order[n]), x))
  }

  lemma {:induction false} StandsAccepts<S(!new)>(
      v: Verifier<S>, w: Verifier<S>, live: set<nat>, copy: nat, order: seq<nat>, n: nat, s: seq<S>)
    requires StandsFor(v, w, live, copy, order) && n < |order|
    requires forall q: nat :: q in live <==> v.Coaccessible(q)
    ensures w.AcceptsFrom(n, s) <==> v.AcceptsFrom(NameOf(v.start, copy, order[n]), s)
    ensures w.AcceptsFrom(n, s) ==> w.KindsFrom(n, s) == v.KindsFrom(NameOf(v.start, copy, order[n]), s)
    decreases s
  {
    hide Verifier.Coaccessible, Mentioned;
    var q := NameOf(v.start, copy, order[n]);
    if s != [] {
      assert CopiesAll(v, live, copy, order, w.transitions, n);
      assert Copies(v, live, copy, order, w.transitions, n, s[0]);
      var step := v.Step(q, s[0]);
      if step.Some? {
        if step.value in live {
          var m := w.transitions[(n, s[0])];
          TargetNamed(v, q, s[0], copy);
          StandsAccepts(v, w, live, copy, order, m, s[1..]);
        } else {
          NotAccepted(v, step.value, s[1..]);
        }
      }
    }
  }

  lemma {:induction false} TargetNamed<S(!new)>(v: Verifier<S>, q: nat, x: S, copy: nat)
    requires v.Step(q, x).Some? && copy !in Mentioned(v)
    ensures NameOf(v.start, copy, Redirected(v.start, copy, v.Step(q, x).value)) == v.Step(q, x).value
  {
    assert (q, x) in v.transitions;
  }

  lemma NotAccepted<S(!new)>(v: Verifier<S>, q: nat, s: seq<S>)
    requires !v.Coaccessible(q)
    ensures !v.AcceptsFrom(q, s)
  {
  }

  /** The words the states are reached by. */
  ghost predicate ReachedBy<S(!new)>(w: Verifier<S>, words: seq<seq<S>>) {
    forall n: nat | n < |words| :: w.Leads(0, words[n], n)
  }

  lemma {:induction false} LeadsInMore<S(!new)>(w: Verifier<S>, more: Verifier<S>, q: nat, s: seq<S>, to: nat)
    requires w.Leads(q, s, to)
    requires forall k | k in w.transitions :: k in more.transitions && more.transitions[k] == w.transitions[k]
    ensures more.Leads(q, s, to)
    decreases s
  {
    if s != [] {
      var p: nat :| w.Leads(q, s[..|s| - 1], p) && w.Follows(p, s[|s| - 1], to);
      LeadsInMore(w, more, q, s[..|s| - 1], p);
    }
  }

  /** The states are numbered below n. */
  ghost predicate InStates<S(!new)>(t: Verifier<S>, n: nat) {
    && t.start < n && (forall k | k in t.transitions ::
      k.0 < n && t.transitions[k] < n) && forall q | q in t.accepting :: q < n
  }

  /** No step enters the start, every state is reached, and every one but the start can reach acceptance. */
  ghost predicate IsTrim<S(!new)>(t: Verifier<S>, n: nat) {
    && InStates(t, n) && (forall k | k in t.transitions :: t.transitions[k] != t.start)
    && forall q: nat | q < n :: t.Reachable(q) && (q != t.start ==> t.Coaccessible(q))
  }

  /** What trimming promises. */
  ghost predicate Trims<S(!new)>(v: Verifier<S>, w: Verifier<S>, states: nat) {
    && IsTrim(w, states) && w.start == 0
    && (forall s :: w.Accepts(s) <==> v.Accepts(s))
    && (forall s | v.Accepts(s) :: w.KindsFrom(w.start, s) == v.KindsFrom(v.start, s))
    && (forall k | k in w.transitions :: IsRead(v, k.1))
  }

  /** Some transition is on the symbol. */
  ghost predicate IsRead<S(!new)>(v: Verifier<S>, x: S) {
    exists q: nat :: (q, x) in v.transitions
  }

  /** The states numbered past the start are live. */
  ghost predicate OrderLive(start: nat, live: set<nat>, copy: nat, order: seq<nat>) {
    forall n: nat | 0 < n < |order| :: NameOf(start, copy, order[n]) in live
  }

  lemma {:induction false} StandingTrims<S(!new)>(
      v: Verifier<S>, w: Verifier<S>, live: set<nat>, copy: nat, order: seq<nat>, words: seq<seq<S>>)
    requires StandsFor(v, w, live, copy, order) && |words| == |order| && ReachedBy(w, words)
    requires forall q: nat :: q in live <==> v.Coaccessible(q)
    requires OrderLive(v.start, live, copy, order)
    ensures Trims(v, w, |order|)
  {
    assert NameOf(v.start, copy, order[0]) == v.start;
    forall s
      ensures (w.Accepts(s) <==> v.Accepts(s)) && (v.Accepts(s) ==> w.KindsFrom(0, s) == v.KindsFrom(v.start, s))
    {
      StandsAccepts(v, w, live, copy, order, 0, s);
    }
    forall n: nat | 0 < n < |order| ensures w.Coaccessible(n) {
      var s :| v.AcceptsFrom(NameOf(v.start, copy, order[n]), s);
      StandsAccepts(v, w, live, copy, order, n, s);
    }
    forall k | k in w.transitions ensures k.0 < |order| && 0 < w.transitions[k] < |order| && IsRead(v, k.1) {
      assert CopiesAll(v, live, copy, order, w.transitions, k.0);
      assert Copies(v, live, copy, order, w.transitions, k.0, k.1);
      assert (NameOf(v.start, copy, order[k.0]), k.1) in v.transitions;
    }
    forall n: nat | n < |order| ensures w.Reachable(n) {
      assert w.Leads(0, words[n], n);
    }
  }

  // ----- trimming -----

  method HighestState<S(==,!new)>(v: Verifier<S>) returns (highest: nat)
    ensures forall q | q in Mentioned(v) :: q <= highest
  {
    highest := v.start;
    var rest := v.transitions.Keys;
    while rest != {}
      invariant rest <= v.transitions.Keys && v.start <= highest
      invariant forall k | k in v.transitions && k !in rest :: k.0 <= highest && v.transitions[k] <= highest
      decreases rest
    {
      var k: (nat, S) :| k in rest;
      highest := if k.0 > highest then k.0 else highest;
      highest := if v.transitions[k] > highest then v.transitions[k] else highest;
      rest := rest - {k};
    }
    var states := v.accepting;
    while states != {}
      invariant states <= v.accepting && v.start <= highest
      invariant forall k | k in v.transitions :: k.0 <= highest && v.transitions[k] <= highest
      invariant forall q | q in v.accepting && q !in states :: q <= highest
      decreases states
    {
      var q :| q in states;
      highest := if q > highest then q else highest;
      states := states - {q};
    }
  }

  /** The symbols a state reads. */
  function SymbolsOf<S(==,!new)>(v: Verifier<S>, q: nat): (symbols: set<S>)
    ensures forall x :: x in symbols <==> (q, x) in v.transitions
  {
    set k | k in v.transitions && k.0 == q :: k.1
  }

  /** The table under construction: the states in order, their numbers, the transitions and the closing kinds. */
  datatype Trimming<S(==,!new)> = Trimming(
      order: seq<nat>, renumbered: map<nat, nat>, transitions: map<(nat, S), nat>, closes: map<(nat, S), nat>)

  /** The numbering is one to one, its states are reached and live, and the states before the next are copied. */
  ghost predicate Keeps<S(!new)>(
      v: Verifier<S>, live: set<nat>, copy: nat, t: Trimming<S>, words: seq<seq<S>>, next: nat)
  {
    && Numbers(v.start, t.order, t.renumbered) && next <= |t.order| == |words|
    && OrderLive(v.start, live, copy, t.order)
    && (forall n: nat | n < |words| :: Verifier(0, t.transitions, {}, map[], map[]).Leads(0, words[n], n))
    && (forall n: nat | n < next :: CopiesAll(v, live, copy, t.order, t.transitions, n))
  }

  /** The closing kinds recorded are the given verifier's. */
  ghost predicate KeepsKinds<S(!new)>(v: Verifier<S>, copy: nat, t: Trimming<S>) {
    && (forall k | k in t.transitions :: k.0 < |t.order|)
    && (forall k | k in t.closes :: k in t.transitions)
    && forall k | k in t.transitions ::
         KindKept(v, copy, t, k)
  }

  ghost predicate KindKept<S(!new)>(v: Verifier<S>, copy: nat, t: Trimming<S>, k: (nat, S))
    requires k.0 < |t.order|
  {
    var from := (NameOf(v.start, copy, t.order[k.0]), k.1);
    (k in t.closes <==> from in v.closes) && (k in t.closes ==> t.closes[k] == v.closes[from])
  }

  /** One transition taken over: its target keeps its number or takes the next one. */
  ghost function TakenOver<S(!new)>(v: Verifier<S>, t: Trimming<S>, n: nat, x: S, target: nat, from: nat): Trimming<S> {
    var unknown := target !in t.renumbered;
    var number := if unknown then |t.order| else t.renumbered[target];
    Trimming(
      if unknown then t.order + [target] else t.order,
      if unknown then t.renumbered[target := number] else t.renumbered,
      t.transitions[(n, x) := number],
      if (from, x) in v.closes then t.closes[(n, x) := v.closes[(from, x)]] else t.closes)
  }

  lemma {:induction false} CopiesInMore<S(!new)>(
      v: Verifier<S>, live: set<nat>, copy: nat, t: Trimming<S>, more: Trimming<S>, n: nat, x: S)
    requires Copies(v, live, copy, t.order, t.transitions, n, x) && t.order <= more.order
    requires (n, x) in more.transitions <==> (n, x) in t.transitions
    requires (n, x) in t.transitions ==> more.transitions[(n, x)] == t.transitions[(n, x)]
    ensures Copies(v, live, copy, more.order, more.transitions, n, x)
  {
  }

  /** Taking over a live transition: the states before the next stay copied, and the next copies the symbol. */
  lemma {:induction false} TakeCopies<S(!new)>(
      v: Verifier<S>, live: set<nat>, copy: nat, t: Trimming<S>, next: nat, x: S, target: nat, from: nat,
      more: Trimming<S>)
    requires forall n: nat | n < next :: CopiesAll(v, live, copy, t.order, t.transitions, n)
    requires next < |t.order| && more == TakenOver(v, t, next, x, target, from)
    ensures forall n: nat | n < next :: CopiesAll(v, live, copy, more.order, more.transitions, n)
  {
    forall n: nat | n < next ensures CopiesAll(v, live, copy, more.order, more.transitions, n) {
      assert CopiesAll(v, live, copy, t.order, t.transitions, n);
      forall y: S ensures Copies(v, live, copy, more.order, more.transitions, n, y) {
        assert Copies(v, live, copy, t.order, t.transitions, n, y);
        hide Copies;
        CopiesInMore(v, live, copy, t, more, n, y);
      }
    }
  }

  lemma {:induction false} TakeNumbers<S(!new)>(
      v: Verifier<S>, live: set<nat>, copy: nat, t: Trimming<S>, next: nat, x: S, from: nat, to: nat, more: Trimming<S>)
    requires Numbers(v.start, t.order, t.renumbered) && OrderLive(v.start, live, copy, t.order) && next < |t.order|
    requires from == NameOf(v.start, copy, t.order[next]) && v.Step(from, x) == Some(to) && to in live
    requires v.start != copy && NameOf(v.start, copy, Redirected(v.start, copy, to)) == to
    requires more == TakenOver(v, t, next, x, Redirected(v.start, copy, to), from)
    ensures Numbers(v.start, more.order, more.renumbered) && OrderLive(v.start, live, copy, more.order)
    ensures Copies(v, live, copy, more.order, more.transitions, next, x) && t.order <= more.order
  {
  }

  /** Taking over a live transition keeps the table in step. */
  lemma {:induction false} TakeKeeps<S(!new)>(
      v: Verifier<S>, live: set<nat>, copy: nat, t: Trimming<S>, words: seq<seq<S>>, next: nat, x: S)
    returns (longer: seq<seq<S>>)
    requires Keeps(v, live, copy, t, words, next) && KeepsKinds(v, copy, t) && next < |t.order| && copy !in Mentioned(v)
    requires (next, x) !in t.transitions
    requires var from :=
      NameOf(v.start, copy, t.order[next]); (from, x) in v.transitions && v.transitions[(from, x)] in live
    ensures var from := NameOf(v.start, copy, t.order[next]);
            var target := Redirected(v.start, copy, v.transitions[(from, x)]);
            var more := TakenOver(v, t, next, x, target, from);
            && Keeps(v, live, copy, more, longer, next) && KeepsKinds(v, copy, more)
            && Copies(v, live, copy, more.order, more.transitions, next, x) && t.order <= more.order
  {
    var from := NameOf(v.start, copy, t.order[next]);
    var to := v.transitions[(from, x)];
    TargetNamed(v, from, x, copy);
    assert v.start in Mentioned(v);
    hide Mentioned, CopiesAll, Copies, Verifier.Leads, KeepsKinds;
    var target := Redirected(v.start, copy, to);
    var more := TakenOver(v, t, next, x, target, from);
    longer := if target in t.renumbered then words else words + [words[next] + [x]];
    TakeNumbers(v, live, copy, t, next, x, from, to, more);
    TakeWords(v, live, copy, t, words, next, x, target, from, more, longer);
    TakeCopies(v, live, copy, t, next, x, target, from, more);
    TakeKinds(v, copy, t, next, x, target, from, more);
  }

  lemma {:induction false} TakeKinds<S(!new)>(
      v: Verifier<S>, copy: nat, t: Trimming<S>, next: nat, x: S, target: nat, from: nat, more: Trimming<S>)
    requires KeepsKinds(v, copy, t) && next < |t.order| && from == NameOf(v.start, copy, t.order[next])
    requires (next, x) !in t.transitions && more == TakenOver(v, t, next, x, target, from)
    ensures KeepsKinds(v, copy, more)
  {
    forall k | k in more.transitions ensures k.0 < |more.order| && KindKept(v, copy, more, k) {
      assert k != (next, x) ==> KindKept(v, copy, t, k);
    }
  }

  /** Every state is still reached by its word, a new one by the word of the state before it and the symbol. */
  lemma {:induction false} TakeWords<S(!new)>(
      v: Verifier<S>, live: set<nat>, copy: nat, t: Trimming<S>, words: seq<seq<S>>, next: nat, x: S, target: nat,
      from: nat,
      more: Trimming<S>, longer: seq<seq<S>>)
    requires Keeps(v, live, copy, t, words, next) && next < |t.order| && (next, x) !in t.transitions
    requires more == TakenOver(v, t, next, x, target, from)
    requires longer == if target in t.renumbered then words else words + [words[next] + [x]]
    ensures forall n: nat | n < |longer| :: Verifier(0, more.transitions, {}, map[], map[]).Leads(0, longer[n], n)
  {
    var w, wider := Verifier(0, t.transitions, {}, map[], map[]), Verifier(0, more.transitions, {}, map[], map[]);
    forall n: nat | n < |words| ensures wider.Leads(0, words[n], n) {
      assert w.Leads(0, words[n], n);
      hide Verifier.Leads;
      LeadsInMore(w, wider, 0, words[n], n);
    }
    if target !in t.renumbered {
      var word := words[next] + [x];
      assert word[..|word| - 1] == words[next] && word[|word| - 1] == x;
      assert wider.Leads(0, words[next], next) && wider.Follows(next, x, |words|);
      assert wider.Leads(0, word, |words|);
    }
  }

  /** Takes over the transitions of one state into live states. */
  method CopyState<S(==,!new)>(
      v: Verifier<S>, live: set<nat>, copy: nat, t0: Trimming<S>, ghost words0: seq<seq<S>>, next: nat)
    returns (t: Trimming<S>, ghost words: seq<seq<S>>)
    requires Keeps(v, live, copy, t0, words0, next) && KeepsKinds(v, copy, t0) && next < |t0.order|
    requires copy !in Mentioned(v)
    requires forall k | k in t0.transitions :: k.0 < next
    ensures Keeps(v, live, copy, t, words, next + 1) && KeepsKinds(v, copy, t) && t0.order <= t.order
    ensures forall k | k in t.transitions :: k.0 < next + 1
  {
    hide Mentioned, Copies, KeepsKinds;
    t, words := t0, words0;
    var from := NameOf(v.start, copy, t.order[next]);
    var symbols := SymbolsOf(v, from);
    while symbols != {}
      invariant symbols <= SymbolsOf(v, from) && t0.order <= t.order && next < |t.order|
      invariant Keeps(v, live, copy, t, words, next) && KeepsKinds(v, copy, t)
      invariant forall k | k in t.transitions :: k.0 < next || (k.0 == next && k.1 in SymbolsOf(v, from) - symbols)
      invariant forall y | y in SymbolsOf(v, from) - symbols :: Copies(v, live, copy, t.order, t.transitions, next, y)
      decreases symbols
    {
      var x :| x in symbols;
      var to := v.transitions[(from, x)];
      ghost var before := t;
      if to in live {
        words := TakeKeeps(v, live, copy, t, words, next, x);
        hide Keeps;
        var target := Redirected(v.start, copy, to);
        if target !in t.renumbered {
          t := t.(renumbered := t.renumbered[target := |t.order|], order := t.order + [target]);
        }
        t := t.(transitions := t.transitions[(next, x) := t.renumbered[target]]);
        if (from, x) in v.closes {
          t := t.(closes := t.closes[(next, x) := v.closes[(from, x)]]);
        }
        assert t == TakenOver(v, before, next, x, target, from);
      } else {
        DeadCopied(v, live, copy, t.order, t.transitions, next, x);
      }
      forall y | y in SymbolsOf(v, from) - symbols ensures Copies(v, live, copy, t.order, t.transitions, next, y) {
        CopiesInMore(v, live, copy, before, t, next, y);
      }
      symbols := symbols - {x};
    }
    forall y: S ensures Copies(v, live, copy, t.order, t.transitions, next, y) {
      if y !in SymbolsOf(v, from) {
        UnreadCopied(v, live, copy, t.order, t.transitions, next, y);
      }
    }
  }

  lemma DeadCopied<S(!new)>(
      v: Verifier<S>, live: set<nat>, copy: nat, order: seq<nat>, transitions: map<(nat, S), nat>, n: nat, x: S)
    requires n < |order| && (n, x) !in transitions
    requires var from :=
      NameOf(v.start, copy, order[n]); (from, x) in v.transitions && v.transitions[(from, x)] !in live
    ensures Copies(v, live, copy, order, transitions, n, x)
  {
  }

  lemma UnreadCopied<S(!new)>(
      v: Verifier<S>, live: set<nat>, copy: nat, order: seq<nat>, transitions: map<(nat, S), nat>, n: nat, x: S)
    requires n < |order| && (n, x) !in transitions && (NameOf(v.start, copy, order[n]), x) !in v.transitions
    ensures Copies(v, live, copy, order, transitions, n, x)
  {
  }

  lemma {:induction false} OrderBounded<S(!new)>(
      v: Verifier<S>, live: set<nat>, copy: nat, t: Trimming<S>, words: seq<seq<S>>, next: nat)
    requires Keeps(v, live, copy, t, words, next) && forall q | q in live :: q in Mentioned(v)
    ensures |t.order| <= |Mentioned(v) + {copy}|
  {
    assert v.start in Mentioned(v);
    hide Mentioned, CopiesAll;
    forall i, j | 0 <= i < j < |t.order| ensures t.order[i] != t.order[j] {
      assert t.renumbered[t.order[i]] == i && t.renumbered[t.order[j]] == j;
    }
    Counting.ImageSize(t.order);
    forall q | q in Counting.Image(t.order) ensures q in Mentioned(v) + {copy} {
      var n :| 0 <= n < |t.order| && t.order[n] == q;
      assert n > 0 ==> NameOf(v.start, copy, t.order[n]) in live;
    }
    Counting.SubsetSize(Counting.Image(t.order), Mentioned(v) + {copy});
  }

  lemma {:induction false} CoaccessibleMentioned<S(!new)>(v: Verifier<S>, q: nat)
    requires v.Coaccessible(q)
    ensures q in Mentioned(v)
  {
    var s :| v.AcceptsFrom(q, s);
    if s != [] {
      assert (q, s[0]) in v.transitions && (q, s[0]).0 == q;
    }
  }

  /** Takes over the states reached through live states, in the order found. */
  method TakeStates<S(==,!new)>(v: Verifier<S>, live: set<nat>, copy: nat)
    returns (t: Trimming<S>, ghost words: seq<seq<S>>)
    requires copy !in Mentioned(v) && forall q | q in live :: q in Mentioned(v)
    ensures Keeps(v, live, copy, t, words, |t.order|) && KeepsKinds(v, copy, t)
  {
    hide CopiesAll;
    t, words := Trimming([v.start], map[v.start := 0], map[], map[]), [[]];
    assert Verifier(0, t.transitions, {}, map[], map[]).Leads(0, [], 0);
    var next := 0;
    while next < |t.order|
      invariant Keeps(v, live, copy, t, words, next) && KeepsKinds(v, copy, t)
      invariant forall k | k in t.transitions :: k.0 < next
      decreases |Mentioned(v) + {copy}| - next
    {
      hide Mentioned, Keeps;
      OrderBounded(v, live, copy, t, words, next);
      t, words := CopyState(v, live, copy, t, words, next);
      next := next + 1;
    }
  }

  /**
    Drops every state no accepted word passes through, but never the start. Steps
    that used to come back to the start go to a stand-in with the same moves.
   */
  method Trim<S(==,!new)>(v: Verifier<S>) returns (w: Verifier<S>, states: nat)
    ensures Trims(v, w, states)
  {
    hide CopiesAll, Trims, Keeps, KeepsKinds;
    var live := CoaccessibleStates(v);
    var highest := HighestState(v);
    var copy := highest + 1;
    forall q | q in live ensures q in Mentioned(v) {
      CoaccessibleMentioned(v, q);
    }
    assert copy !in Mentioned(v);
    hide Mentioned, Verifier.Coaccessible;
    var t, words := TakeStates(v, live, copy);
    states := |t.order|;
    var accepting := set n | 0 <= n < |t.order| && NameOf(v.start, copy, t.order[n]) in v.accepting;
    var finals := map n | 0 <= n < |t.order| && NameOf(v.start, copy, t.order[n]) in v.finals ::
      v.finals[NameOf(v.start, copy, t.order[n])];
    w := Verifier(0, t.transitions, accepting, t.closes, finals);
    TrimStands(v, w, live, copy, t, words);
  }

  lemma {:induction false} TrimStands<S(!new)>(
      v: Verifier<S>, w: Verifier<S>, live: set<nat>, copy: nat, t: Trimming<S>, words: seq<seq<S>>)
    requires Keeps(v, live, copy, t, words, |t.order|) && KeepsKinds(v, copy, t) && copy !in Mentioned(v)
    requires forall q: nat :: q in live <==> v.Coaccessible(q)
    requires w.start == 0 && w.transitions == t.transitions && w.closes == t.closes
    requires forall n: nat :: n in w.accepting <==> n < |t.order| && NameOf(v.start, copy, t.order[n]) in v.accepting
    requires forall n: nat | n < |t.order| :: n in w.finals <==> NameOf(v.start, copy, t.order[n]) in v.finals
    requires forall n: nat | n < |t.order| && n in w.finals ::
      w.finals[n] == v.finals[NameOf(v.start, copy, t.order[n])]
    ensures Trims(v, w, |t.order|)
  {
    hide Mentioned, CopiesAll, Trims, Verifier.Coaccessible;
    var bare := Verifier(0, t.transitions, {}, map[], map[]);
    forall n: nat | n < |words| ensures w.Leads(0, words[n], n) {
      assert bare.Leads(0, words[n], n);
      hide Verifier.Leads;
      LeadsInMore(bare, w, 0, words[n], n);
    }
    forall n: nat, x: S | (n, x) in w.transitions && n < |t.order|
      ensures w.CloseKind(n, x) == v.CloseKind(NameOf(v.start, copy, t.order[n]), x)
    {
      assert KindKept(v, copy, t, (n, x));
    }
    StandingTrims(v, w, live, copy, t.order, words);
  }

  // ----- runs and kinds, symbol by symbol -----

  ghost function RunTo<S(!new)>(v: Verifier<S>, q: nat, s: seq<S>): Option<nat> {
    if s == [] then Some(q)
    else
      match RunTo(v, q, s[..|s| - 1])
      case None => None
      case Some(p) => v.Step(p, s[|s| - 1])
  }

  /** The kinds the steps of a run record. */
  ghost function StepKinds<S(!new)>(v: Verifier<S>, q: nat, s: seq<S>): seq<nat> {
    if s == [] then []
    else
      StepKinds(v, q, s[..|s| - 1])
      + match RunTo(v, q, s[..|s| - 1])
        case None => []
        case Some(p) => v.CloseKind(p, s[|s| - 1])
  }

  lemma {:induction false} RunCons<S(!new)>(v: Verifier<S>, q: nat, s: seq<S>)
    requires s != []
    ensures RunTo(v, q, s) == match v.Step(q, s[0]) case None => None case Some(p) => RunTo(v, p, s[1..])
    ensures v.Step(q, s[0]).Some? ==>
      StepKinds(v, q, s) == v.CloseKind(q, s[0]) + StepKinds(v, v.Step(q, s[0]).value, s[1..])
  {
    hide Verifier.CloseKind, Verifier.Step;
    var front := s[..|s| - 1];
    if front == [] {
      assert s[1..] == [] && s == [s[0]];
    } else {
      RunCons(v, q, front);
      assert s[1..][..|s[1..]| - 1] == front[1..];
    }
  }

  /** A verifier accepts where its run ends accepting, and its kinds are the steps' and the end's. */
  lemma {:induction false} AcceptsRun<S(!new)>(v: Verifier<S>, q: nat, s: seq<S>)
    ensures v.AcceptsFrom(q, s) <==> RunTo(v, q, s).Some? && RunTo(v, q, s).value in v.accepting
    ensures RunTo(v, q, s).Some? ==> v.KindsFrom(q, s) == StepKinds(v, q, s) + v.FinalKind(RunTo(v, q, s).value)
    decreases s
  {
    hide Verifier.CloseKind, Verifier.FinalKind;
    if s != [] {
      RunCons(v, q, s);
      if v.Step(q, s[0]).Some? {
        AcceptsRun(v, v.Step(q, s[0]).value, s[1..]);
      }
    }
  }

  /** Leading to a state is running to it. */
  lemma {:induction false} LeadsRuns<S(!new)>(t: Verifier<S>, q: nat, s: seq<S>, to: nat)
    ensures t.Leads(q, s, to) <==> RunTo(t, q, s) == Some(to)
    decreases s
  {
    if s != [] {
      var front, x := s[..|s| - 1], s[|s| - 1];
      if t.Leads(q, s, to) {
        var m: nat :| t.Leads(q, front, m) && t.Follows(m, x, to);
        LeadsRuns(t, q, front, m);
      }
      if RunTo(t, q, s) == Some(to) {
        var m := RunTo(t, q, front).value;
        LeadsRuns(t, q, front, m);
        assert t.Follows(m, x, to);
      }
    }
  }
}

/** Exploring a finite deterministic system from its start, each key found numbered once. */
module Explorations {
  import opened Options
  import Counting

  /** The transitions of the key numbered q are the system's. */
  ghost predicate Steps<K(!new), S(!new)>(
      step: (K, S) -> Option<K>, symbols: set<S>, sources: seq<K>, transitions: map<(nat, S), nat>, q: nat, x: S)
  {
    q < |sources| &&
    if x in symbols && step(sources[q], x).Some? then
      (q, x) in transitions && transitions[(q, x)] < |sources|
        && sources[transitions[(q, x)]] == step(sources[q], x).value
    else (q, x) !in transitions
  }

  ghost predicate StepsAll<K(!new), S(!new)>(
      step: (K, S) -> Option<K>, symbols: set<S>, sources: seq<K>, transitions: map<(nat, S), nat>, q: nat)
  {
    forall x: S :: Steps(step, symbols, sources, transitions, q, x)
  }

  /** Each key has one number and meets the invariant. */
  ghost predicate Numbered<K(!new)>(holds: K -> bool, sources: seq<K>, interned: map<K, nat>) {
    && (forall q: nat | q < |sources| :: sources[q] in interned && interned[sources[q]] == q && holds(sources[q]))
    && (forall k | k in interned :: interned[k] < |sources| && sources[interned[k]] == k)
  }

  /** The invariant is kept by every step and leaves finitely many keys. */
  ghost predicate Keeps<K(!new), S(!new)>(step: (K, S) -> Option<K>, holds: K -> bool, universe: set<K>) {
    && (forall k | holds(k) :: k in universe)
    && (forall k, x | holds(k) && step(k, x).Some? :: holds(step(k, x).value))
  }

  lemma {:induction false} NumberedBounded<K(!new)>(
      holds: K -> bool, sources: seq<K>, interned: map<K, nat>, universe: set<K>)
    requires Numbered(holds, sources, interned) && forall k | holds(k) :: k in universe
    ensures |sources| <= |universe|
  {
    forall i, j | 0 <= i < j < |sources| ensures sources[i] != sources[j] {
      assert interned[sources[i]] == i && interned[sources[j]] == j;
    }
    Counting.ImageSize(sources);
    forall k | k in Counting.Image(sources) ensures k in universe {
      var q :| 0 <= q < |sources| && sources[q] == k;
      assert holds(sources[q]);
    }
    Counting.SubsetSize(Counting.Image(sources), universe);
  }

  lemma {:induction false} StepsInMore<K(!new), S(!new)>(
      step: (K, S) -> Option<K>, symbols: set<S>, sources: seq<K>, more: seq<K>,
      transitions: map<(nat, S), nat>, wider: map<(nat, S), nat>, q: nat, x: S)
    requires Steps(step, symbols, sources, transitions, q, x) && sources <= more
    requires ((q, x) in wider <==> (q, x) in transitions)
    requires ((q, x) in transitions ==> wider[(q, x)] == transitions[(q, x)])
    ensures Steps(step, symbols, more, wider, q, x)
  {
  }

  /** Reads every symbol from one key. */
  method Expand<K(==,!new), S(==,!new)>(
      symbols: set<S>, step: (K, S) -> Option<K>, ghost holds: K -> bool, ghost universe: set<K>,
      sources0: seq<K>, interned0: map<K, nat>, transitions0: map<(nat, S), nat>, state: nat)
    returns (sources: seq<K>, interned: map<K, nat>, transitions: map<(nat, S), nat>)
    requires Keeps(step, holds, universe) && Numbered(holds, sources0, interned0) && state < |sources0|
    requires forall k | k in transitions0 :: k.0 < state
    ensures Numbered(holds, sources, interned) && sources0 <= sources
    ensures StepsAll(step, symbols, sources, transitions, state)
    ensures forall k | k in transitions0 :: k in transitions && transitions[k] == transitions0[k]
    ensures forall k | k in transitions :: k in transitions0 || k.0 == state
  {
    sources, interned, transitions := sources0, interned0, transitions0;
    var rest := symbols;
    while rest != {}
      invariant rest <= symbols && Numbered(holds, sources, interned) && sources0 <= sources
      invariant forall k | k in transitions0 :: k in transitions && transitions[k] == transitions0[k]
      invariant forall k | k in transitions :: k in transitions0 || (k.0 == state && k.1 in symbols - rest)
      invariant forall x | x in symbols - rest :: Steps(step, symbols, sources, transitions, state, x)
      decreases rest
    {
      var x :| x in rest;
      ghost var before, was := sources, transitions;
      var next := step(sources[state], x);
      if next.Some? {
        assert holds(sources[state]) && holds(next.value);
        if next.value !in interned {
          interned, sources := interned[next.value := |sources|], sources + [next.value];
        }
        transitions := transitions[(state, x) := interned[next.value]];
      }
      forall y | y in symbols - rest ensures Steps(step, symbols, sources, transitions, state, y) {
        StepsInMore(step, symbols, before, sources, was, transitions, state, y);
      }
      rest := rest - {x};
    }
  }

  /** Explores every key reachable from the start. */
  method Explore<K(==,!new), S(==,!new)>(
      start: K, symbols: set<S>, step: (K, S) -> Option<K>, ghost holds: K -> bool, ghost universe: set<K>)
    returns (sources: seq<K>, transitions: map<(nat, S), nat>)
    requires holds(start) && Keeps(step, holds, universe)
    ensures sources != [] && sources[0] == start
    ensures forall q: nat | q < |sources| :: holds(sources[q]) && StepsAll(step, symbols, sources, transitions, q)
  {
    hide StepsAll, Keeps;
    sources, transitions := [start], map[];
    var interned := map[start := 0];
    var state := 0;
    while state < |sources|
      invariant Numbered(holds, sources, interned) && sources != [] && sources[0] == start && state <= |sources|
      invariant forall k | k in transitions :: k.0 < state
      invariant forall q: nat | q < state :: StepsAll(step, symbols, sources, transitions, q)
      decreases |universe| - state
    {
      Bounded(step, holds, universe, sources, interned);
      ghost var before, was := sources, transitions;
      sources, interned, transitions := Expand(symbols, step, holds, universe, sources, interned, transitions, state);
      forall q: nat | q < state ensures StepsAll(step, symbols, sources, transitions, q) {
        AllInMore(step, symbols, before, sources, was, transitions, q, state);
      }
      state := state + 1;
    }
  }

  lemma {:induction false} Bounded<K(!new), S(!new)>(
      step: (K, S) -> Option<K>, holds: K -> bool, universe: set<K>, sources: seq<K>, interned: map<K, nat>)
    requires Keeps(step, holds, universe) && Numbered(holds, sources, interned)
    ensures |sources| <= |universe|
  {
    NumberedBounded(holds, sources, interned, universe);
  }

  lemma {:induction false} AllInMore<K(!new), S(!new)>(
      step: (K, S) -> Option<K>, symbols: set<S>, sources: seq<K>, more: seq<K>,
      transitions: map<(nat, S), nat>, wider: map<(nat, S), nat>, q: nat, state: nat)
    requires StepsAll(step, symbols, sources, transitions, q) && sources <= more && q < state
    requires forall k | k in transitions :: k in wider && wider[k] == transitions[k]
    requires forall k | k in wider :: k in transitions || k.0 == state
    ensures StepsAll(step, symbols, more, wider, q)
  {
    hide Steps;
    forall x: S ensures Steps(step, symbols, more, wider, q, x) {
      assert Steps(step, symbols, sources, transitions, q, x);
      StepsInMore(step, symbols, sources, more, transitions, wider, q, x);
    }
  }
}

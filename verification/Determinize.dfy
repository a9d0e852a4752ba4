/**
  The subset construction: a deterministic automaton whose states are the sets of
  states words lead to, each awarding the least token its members offer.
 */
module Determinize {
  import opened Options
  import opened Machine
  import opened Nfas
  import opened Counting
  import opened Outcomes

  // ----- what a word leads to -----

  /** The set holds exactly the states the word leads to. */
  ghost predicate LedTo(nfa: Nfa, w: Word, members: set<nat>) {
    forall p: nat :: p in members <==> Reads(nfa.edges, nfa.init, w, p)
  }

  /** A transition on the byte from a state the word leads to. */
  ghost predicate CrossesOn(nfa: Nfa, w: Word, b: Byte, e: Edge) {
    e in nfa.edges && e.on == Some(b) && Reads(nfa.edges, nfa.init, w, e.from)
  }

  /** The last byte of a word is read by one transition, empty moves following it. */
  lemma {:induction false} LastByte(edges: set<Edge>, n: nat, q: nat, w: Word, b: Byte, p: nat) returns (e: Edge)
    requires Walks(edges, n, q, w + [b], p)
    ensures e in edges && e.on == Some(b) && Reads(edges, q, w, e.from) && Reads(edges, e.to, [], p)
    decreases n
  {
    var all := w + [b];
    var f := FirstStep(edges, n, q, all, p);
    var d := |Spelled(f.on)|;
    if d == 1 && w == [] {
      e := f;
      ReadsNothing(edges, q);
      assert all[1..] == [] && Spelled(f.on)[0] == all[0] == b;
    } else {
      assert all[d..] == w[d..] + [b];
      e := LastByte(edges, n - 1, f.to, w[d..], b, p);
      ReadsEdge(edges, f, w[d..], e.from);
      assert Spelled(f.on) + w[d..] == w;
    }
  }

  lemma {:induction false} ReadsSnoc(nfa: Nfa, w: Word, b: Byte, p: nat)
    ensures Reads(nfa.edges, nfa.init, w + [b], p)
       <==> exists e :: CrossesOn(nfa, w, b, e) && Reads(nfa.edges, e.to, [], p)
  {
    hide Walks;
    if n: nat :| Walks(nfa.edges, n, nfa.init, w + [b], p) {
      var e := LastByte(nfa.edges, n, nfa.init, w, b, p);
      assert CrossesOn(nfa, w, b, e);
    }
    hide Reads;
    if e :| CrossesOn(nfa, w, b, e) && Reads(nfa.edges, e.to, [], p) {
      ReadsEdge(nfa.edges, e, [], p);
      assert [b] + [] == [b];
      ReadsThrough(nfa.edges, nfa.init, w, e.from, [b], p);
    }
  }

  // ----- closures -----

  ghost predicate IsClosure(edges: set<Edge>, q: nat, closure: set<nat>) {
    forall p: nat :: p in closure <==> Reads(edges, q, [], p)
  }

  /** The closures found so far. */
  ghost predicate AreClosures(edges: set<Edge>, closures: map<nat, set<nat>>) {
    forall q | q in closures :: IsClosure(edges, q, closures[q])
  }

  function EmptyMoves(edges: set<Edge>, q: nat): set<nat> {
    set e | e in edges && e.on.None? && e.from == q :: e.to
  }

  ghost function Targets(edges: set<Edge>): set<nat> {
    set e | e in edges :: e.to
  }

  lemma {:induction false} ClosedHolds(edges: set<Edge>, closure: set<nat>, n: nat, q: nat, p: nat)
    requires (forall r | r in closure :: EmptyMoves(edges, r) <= closure) && q in closure && Walks(edges, n, q, [], p)
    ensures p in closure
    decreases n
  {
    if n > 0 {
      var e := FirstStep(edges, n, q, [], p);
      assert e.to in EmptyMoves(edges, q);
      ClosedHolds(edges, closure, n - 1, e.to, p);
    }
  }

  lemma {:induction false} OneMove(edges: set<Edge>, q: nat, r: nat, p: nat)
    requires Reads(edges, q, [], r) && p in EmptyMoves(edges, r)
    ensures Reads(edges, q, [], p) && p in Targets(edges)
  {
    var e :| e in edges && e.on.None? && e.from == r && e.to == p;
    ReadsNothing(edges, p);
    ReadsEdge(edges, e, [], p);
    hide Reads;
    var nothing: Word := [];
    assert nothing + nothing == nothing;
    ReadsThrough(edges, q, nothing, r, nothing, p);
  }

  /** The states empty moves lead to from one state, computed once for each. */
  method ClosureOf(edges: set<Edge>, closures0: map<nat, set<nat>>, state: nat)
    returns (closure: set<nat>, closures: map<nat, set<nat>>)
    requires AreClosures(edges, closures0)
    ensures IsClosure(edges, state, closure) && AreClosures(edges, closures)
  {
    hide Reads;
    closures := closures0;
    if state in closures {
      closure := closures[state];
      return;
    }
    closure := {state};
    var pending := {state};
    ReadsNothing(edges, state);
    while pending != {}
      invariant state in closure && pending <= closure <= {state} + Targets(edges)
      invariant forall p | p in closure :: Reads(edges, state, [], p)
      invariant forall p | p in closure && p !in pending :: EmptyMoves(edges, p) <= closure
      decreases {state} + Targets(edges) - closure, pending
    {
      var q :| q in pending;
      var found := EmptyMoves(edges, q) - closure;
      forall p | p in found ensures Reads(edges, state, [], p) && p in Targets(edges) {
        OneMove(edges, state, q, p);
      }
      closure, pending := closure + found, pending - {q} + found;
    }
    forall p: nat | Reads(edges, state, [], p) ensures p in closure {
      ClosureHolds(edges, closure, state, p);
    }
    closures := closures[state := closure];
  }

  lemma {:induction false} ClosureHolds(edges: set<Edge>, closure: set<nat>, q: nat, p: nat)
    requires (forall r | r in closure :: EmptyMoves(edges, r) <= closure) && q in closure && Reads(edges, q, [], p)
    ensures p in closure
  {
    var n: nat :| Walks(edges, n, q, [], p);
    ClosedHolds(edges, closure, n, q, p);
  }

  /** The closures of the targets on the byte, united. */
  method UniteTargets(nfa: Nfa, closures0: map<nat, set<nat>>, targets: set<nat>)
    returns (united: set<nat>, closures: map<nat, set<nat>>)
    requires AreClosures(nfa.edges, closures0)
    ensures AreClosures(nfa.edges, closures)
    ensures forall p: nat :: p in united <==> exists t | t in targets :: Reads(nfa.edges, t, [], p)
  {
    hide Reads;
    closures := closures0;
    united := {};
    var rest := targets;
    while rest != {}
      invariant rest <= targets && AreClosures(nfa.edges, closures)
      invariant forall p: nat :: p in united <==> exists t | t in targets - rest :: Reads(nfa.edges, t, [], p)
      decreases rest
    {
      var t :| t in rest;
      var closure: set<nat>;
      closure, closures := ClosureOf(nfa.edges, closures, t);
      ghost var before := united;
      united := united + closure;
      forall p: nat ensures p in united <==> exists u | u in targets - (rest - {t}) :: Reads(nfa.edges, u, [], p) {
        if u :| u in targets - rest && Reads(nfa.edges, u, [], p) {
          assert u in targets - (rest - {t});
        }
        if p in closure {
          assert t in targets - (rest - {t}) && Reads(nfa.edges, t, [], p);
        }
      }
      rest := rest - {t};
    }
    assert targets - rest == targets;
  }

  /** The targets of the members' transitions on the byte. */
  function MovesOn(edges: set<Edge>, members: set<nat>, b: Byte): set<nat> {
    set e | e in edges && e.on == Some(b) && e.from in members :: e.to
  }

  lemma {:induction false} UnitedIsLedTo(nfa: Nfa, w: Word, b: Byte, members: set<nat>, united: set<nat>)
    requires LedTo(nfa, w, members)
    requires forall p: nat :: p in united <==> exists t | t in MovesOn(nfa.edges, members, b) ::
      Reads(nfa.edges, t, [], p)
    ensures LedTo(nfa, w + [b], united)
    ensures united == {} <==> MovesOn(nfa.edges, members, b) == {}
  {
    hide Reads;
    forall p: nat ensures p in united <==> Reads(nfa.edges, nfa.init, w + [b], p) {
      ReadsSnoc(nfa, w, b, p);
      if p in united {
        var t :| t in MovesOn(nfa.edges, members, b) && Reads(nfa.edges, t, [], p);
        var e :| e in nfa.edges && e.on == Some(b) && e.from in members && e.to == t;
        assert CrossesOn(nfa, w, b, e);
      }
      if e :| CrossesOn(nfa, w, b, e) && Reads(nfa.edges, e.to, [], p) {
        assert e.to in MovesOn(nfa.edges, members, b);
      }
    }
    if t :| t in MovesOn(nfa.edges, members, b) {
      ReadsNothing(nfa.edges, t);
      assert t in united;
    }
  }

  // ----- accepting -----

  /** The lower priority first, and the lower identifier among equal ones. */
  predicate Less(a: Tagged, b: Tagged) {
    a.priority < b.priority || (a.priority == b.priority && a.id < b.id)
  }

  ghost predicate Offers(nfa: Nfa, members: set<nat>, t: Tagged) {
    exists p | p in members :: p in nfa.accepts && nfa.accepts[p] == Some(t)
  }

  /**
    A token the members offer, of the least priority value any of them has, and of the least
    identifier at that one.
   */
  ghost predicate IsBest(nfa: Nfa, members: set<nat>, best: Option<Tagged>) {
    match best
    case None => forall t :: !Offers(nfa, members, t)
    case Some(t) =>
      && Offers(nfa, members, t)
      && forall u | Offers(nfa, members, u) :: t.priority <= u.priority && (t.priority == u.priority ==> t.id <= u.id)
  }

  method AcceptOf(nfa: Nfa, members: set<nat>) returns (best: Option<Tagged>)
    ensures IsBest(nfa, members, best)
  {
    best := None;
    var rest := members;
    while rest != {}
      invariant rest <= members && IsBest(nfa, members - rest, best)
      decreases rest
    {
      var p :| p in rest;
      ghost var before, was := best, members - rest;
      if p in nfa.accepts && nfa.accepts[p].Some? && (best.None? || Less(nfa.accepts[p].value, best.value)) {
        best := nfa.accepts[p];
      }
      rest := rest - {p};
      assert members - rest == was + {p};
      BestMore(nfa, was, p, before, best);
    }
    assert members - rest == members;
  }

  lemma {:induction false} BestMore(nfa: Nfa, was: set<nat>, p: nat, before: Option<Tagged>, best: Option<Tagged>)
    requires IsBest(nfa, was, before)
    requires best == if p in nfa.accepts && nfa.accepts[p].Some? && (before.None?
      || Less(nfa.accepts[p].value, before.value))
      then nfa.accepts[p] else before
    ensures IsBest(nfa, was + {p}, best)
  {
    var all := was + {p};
    forall t ensures Offers(nfa, all, t) <==> Offers(nfa, was, t) || (p in nfa.accepts && nfa.accepts[p] == Some(t)) {
      if q :| q in was && q in nfa.accepts && nfa.accepts[q] == Some(t) {
        assert q in all;
      }
      if p in nfa.accepts && nfa.accepts[p] == Some(t) {
        assert p in all;
      }
    }
    hide Offers;
  }

  lemma {:induction false} OffersIsAwards(nfa: Nfa, w: Word, members: set<nat>, t: Tagged)
    requires LedTo(nfa, w, members)
    ensures Offers(nfa, members, t) <==> Awards(nfa, w, Some(t))
  {
    hide Reads;
  }

  // ----- the walk -----

  /** The subsets found, the words they are found by, their numbers and the transitions between them. */
  datatype Walked = Walked(subsets: seq<set<nat>>, ids: map<set<nat>, nat>, delta: map<(nat, Byte), nat>)

  ghost predicate Interned(subsets: seq<set<nat>>, ids: map<set<nat>, nat>) {
    && (forall i: nat | i < |subsets| :: subsets[i] in ids && ids[subsets[i]] == i)
    && forall s | s in ids :: ids[s] < |subsets| && subsets[ids[s]] == s
  }

  /** Each subset is what its word leads to, and some state is. */
  ghost predicate Found(nfa: Nfa, subsets: seq<set<nat>>, words: seq<Word>) {
    |words| == |subsets| && forall i: nat | i < |subsets| :: LedTo(nfa, words[i], subsets[i]) && subsets[i] != {}
  }

  /**
    The transition on the byte leads to the subset the longer word leads to, and there is none where
    it leads nowhere.
   */
  ghost predicate Steps(
      nfa: Nfa, subsets: seq<set<nat>>, words: seq<Word>, delta: map<(nat, Byte), nat>, i: nat, b: Byte)
  {
    && i < |words|
    && if (i, b) in delta then delta[(i, b)] < |subsets| && LedTo(nfa, words[i] + [b], subsets[delta[(i, b)]])
       else LedTo(nfa, words[i] + [b], {})
  }

  ghost predicate StepsAll(nfa: Nfa, subsets: seq<set<nat>>, words: seq<Word>, delta: map<(nat, Byte), nat>, i: nat) {
    forall b: Byte :: Steps(nfa, subsets, words, delta, i, b)
  }

  lemma {:induction false} StepsKept(
      nfa: Nfa, subsets: seq<set<nat>>, more: seq<set<nat>>, words: seq<Word>, longer: seq<Word>,
      delta: map<(nat, Byte), nat>, wider: map<(nat, Byte), nat>, i: nat, b: Byte)
    requires Steps(nfa, subsets, words, delta, i, b) && subsets <= more && words <= longer
    requires ((i, b) in wider <==> (i, b) in delta) && ((i, b) in delta ==> wider[(i, b)] == delta[(i, b)])
    ensures Steps(nfa, more, longer, wider, i, b)
  {
    hide LedTo;
    assert longer[i] == words[i];
  }

  lemma {:induction false} StepsAllKept(
      nfa: Nfa, subsets: seq<set<nat>>, more: seq<set<nat>>, words: seq<Word>, longer: seq<Word>,
      delta: map<(nat, Byte), nat>, wider: map<(nat, Byte), nat>, i: nat, state: nat)
    requires StepsAll(nfa, subsets, words, delta, i) && subsets <= more && words <= longer && i < state
    requires forall k | k in delta :: k in wider && wider[k] == delta[k]
    requires forall k | k in wider :: k in delta || k.0 == state
    ensures StepsAll(nfa, more, longer, wider, i)
  {
    hide Steps;
    forall b: Byte ensures Steps(nfa, more, longer, wider, i, b) {
      StepsKept(nfa, subsets, more, words, longer, delta, wider, i, b);
    }
  }

  /** Takes the number of a subset, a new one with its word if it has none. */
  method StateOf(
      nfa: Nfa, subsets0: seq<set<nat>>, ids0: map<set<nat>, nat>, ghost words0: seq<Word>, subset: set<nat>,
      ghost word: Word)
    returns (state: nat, subsets: seq<set<nat>>, ids: map<set<nat>, nat>, ghost words: seq<Word>)
    requires Interned(subsets0, ids0) && Found(nfa, subsets0, words0) && LedTo(nfa, word, subset) && subset != {}
    ensures Interned(subsets, ids) && Found(nfa, subsets, words) && subsets0 <= subsets && words0 <= words
    ensures state < |subsets| && subsets[state] == subset
  {
    hide LedTo;
    subsets, ids, words := subsets0, ids0, words0;
    if subset in ids {
      return ids[subset], subsets, ids, words;
    }
    state := |subsets|;
    subsets, ids, words := subsets + [subset], ids[subset := state], words + [word];
  }

  lemma {:induction false} StepTaken(
      nfa: Nfa, subsets: seq<set<nat>>, words: seq<Word>, delta: map<(nat, Byte), nat>, i: nat, b: Byte, next: set<nat>)
    requires i < |words| && LedTo(nfa, words[i] + [b], next)
    requires if (i, b) in delta then delta[(i, b)] < |subsets| && subsets[delta[(i, b)]] == next else next == {}
    ensures Steps(nfa, subsets, words, delta, i, b)
  {
    hide LedTo;
  }

  lemma NoClosures(edges: set<Edge>)
    ensures AreClosures(edges, map[])
  {
  }

  /** Reads every byte from one subset. */
  method Expand(nfa: Nfa, found: Walked, closures0: map<nat, set<nat>>, ghost words0: seq<Word>, state: nat)
    returns (walked: Walked, closures: map<nat, set<nat>>, ghost words: seq<Word>)
    requires Interned(found.subsets, found.ids) && Found(nfa, found.subsets, words0)
    requires AreClosures(nfa.edges, closures0)
    requires state < |found.subsets| && forall k | k in found.delta :: k.0 < state
    ensures Interned(walked.subsets, walked.ids) && Found(nfa, walked.subsets, words)
    ensures AreClosures(nfa.edges, closures)
    ensures found.subsets <= walked.subsets && words0 <= words
    ensures StepsAll(nfa, walked.subsets, words, walked.delta, state)
    ensures forall k | k in found.delta :: k in walked.delta && walked.delta[k] == found.delta[k]
    ensures forall k | k in walked.delta :: k in found.delta || k.0 == state
  {
    hide LedTo, Interned, AreClosures, Steps;
    var subsets, ids := found.subsets, found.ids;
    var delta: map<(nat, Byte), nat> := found.delta;
    closures, words := closures0, words0;
    assert LedTo(nfa, words[state], subsets[state]);
    for byte := 0 to 256
      invariant Interned(subsets, ids) && Found(nfa, subsets, words) && AreClosures(nfa.edges, closures)
      invariant found.subsets <= subsets && words0 <= words
      invariant forall k | k in found.delta :: k in delta && delta[k] == found.delta[k]
      invariant forall k | k in delta :: k in found.delta || (k.0 == state && k.1 < byte)
      invariant forall b: Byte | b < byte :: Steps(nfa, subsets, words, delta, state, b)
    {
      var targets := MovesOn(nfa.edges, subsets[state], byte);
      ghost var before, spelled := subsets, words;
      ghost var was: map<(nat, Byte), nat> := delta;
      var united: set<nat>;
      united, closures := UniteTargets(nfa, closures, targets);
      UnitedIsLedTo(nfa, words[state], byte, subsets[state], united);
      if targets != {} {
        var to: nat;
        to, subsets, ids, words := StateOf(nfa, subsets, ids, words, united, words[state] + [byte]);
        delta := delta[(state, byte) := to];
      }
      assert words[state] == words0[state];
      StepTaken(nfa, subsets, words, delta, state, byte, united);
      forall b: Byte | b < byte ensures Steps(nfa, subsets, words, delta, state, b) {
        StepsKept(nfa, before, subsets, spelled, words, was, delta, state, b);
      }
    }
    walked := Walked(subsets, ids, delta);
  }

  ghost function Subsets(n: nat): set<set<nat>> {
    set s: set<nat> | s <= Below(n)
  }

  lemma {:induction false} SubsetsBounded(nfa: Nfa, subsets: seq<set<nat>>, ids: map<set<nat>, nat>, words: seq<Word>)
    requires nfa.Valid() && Interned(subsets, ids) && Found(nfa, subsets, words)
    ensures |subsets| <= |Subsets(nfa.next)|
  {
    hide Reads, LedTo, Nfa.Valid;
    forall i, j | 0 <= i < j < |subsets| ensures subsets[i] != subsets[j] {
      assert ids[subsets[i]] == i && ids[subsets[j]] == j;
    }
    ImageSize(subsets);
    forall s | s in Image(subsets) ensures s in Subsets(nfa.next) {
      var i: nat :| i < |subsets| && subsets[i] == s;
      assert LedTo(nfa, words[i], s);
      LedToBounded(nfa, words[i], s);
    }
    SubsetSize(Image(subsets), Subsets(nfa.next));
  }

  lemma {:induction false} LedToBounded(nfa: Nfa, w: Word, members: set<nat>)
    requires nfa.Valid() && LedTo(nfa, w, members)
    ensures members <= Below(nfa.next)
  {
    forall p | p in members ensures p < nfa.next {
      var n: nat :| Walks(nfa.edges, n, nfa.init, w, p);
      WalkBounded(nfa, n, nfa.init, w, p);
    }
  }

  lemma {:induction false} WalkBounded(nfa: Nfa, n: nat, q: nat, w: Word, p: nat)
    requires nfa.Valid() && q < nfa.next && Walks(nfa.edges, n, q, w, p)
    ensures p < nfa.next
    decreases n
  {
    if n > 0 {
      var e := FirstStep(nfa.edges, n, q, w, p);
      WalkBounded(nfa, n - 1, e.to, w[|Spelled(e.on)|..], p);
    }
  }

  /** Every subset some word leads to, in the order found. */
  method Walk(nfa: Nfa) returns (walked: Walked, ghost words: seq<Word>)
    requires nfa.Valid()
    ensures Interned(walked.subsets, walked.ids) && Found(nfa, walked.subsets, words) && walked.subsets != []
    ensures words[0] == []
    ensures forall i: nat | i < |walked.subsets| :: StepsAll(nfa, walked.subsets, words, walked.delta, i)
    ensures forall k | k in walked.delta :: k.0 < |walked.subsets|
  {
    hide Reads, LedTo, AreClosures, Nfa.Valid, StepsAll;
    var closures: map<nat, set<nat>> := map[];
    NoClosures(nfa.edges);
    var initial: set<nat>;
    initial, closures := ClosureOf(nfa.edges, closures, nfa.init);
    InitialLedTo(nfa, initial);
    walked, words := Walked([initial], map[initial := 0], map[]), [[]];
    var state := 0;
    while state < |walked.subsets|
      invariant Interned(walked.subsets, walked.ids) && Found(nfa, walked.subsets, words)
      invariant AreClosures(nfa.edges, closures)
      invariant walked.subsets != [] && words[0] == [] && state <= |walked.subsets|
      invariant forall k | k in walked.delta :: k.0 < state
      invariant forall i: nat | i < state :: StepsAll(nfa, walked.subsets, words, walked.delta, i)
      decreases |Subsets(nfa.next)| - state
    {
      SubsetsBounded(nfa, walked.subsets, walked.ids, words);
      ghost var before, spelled := walked, words;
      walked, closures, words := Expand(nfa, walked, closures, words, state);
      forall i: nat | i < state ensures StepsAll(nfa, walked.subsets, words, walked.delta, i) {
        StepsAllKept(nfa, before.subsets, walked.subsets, spelled, words, before.delta, walked.delta, i, state);
      }
      state := state + 1;
    }
  }

  lemma {:induction false} InitialLedTo(nfa: Nfa, initial: set<nat>)
    requires IsClosure(nfa.edges, nfa.init, initial)
    ensures LedTo(nfa, [], initial) && initial != {}
  {
    ReadsNothing(nfa.edges, nfa.init);
    assert nfa.init in initial;
  }

  // ----- the automaton -----

  /** The least token the automaton awards the word, if any. */
  ghost predicate Awarded(nfa: Nfa, w: Word, best: Option<Tagged>) {
    match best
    case None => forall t :: !Awards(nfa, w, Some(t))
    case Some(t) =>
      && Awards(nfa, w, Some(t))
      && forall u | Awards(nfa, w, Some(u)) :: t.priority <= u.priority && (t.priority == u.priority ==> t.id <= u.id)
  }

  ghost predicate LeadsSomewhere(nfa: Nfa, w: Word) {
    exists p: nat :: Reads(nfa.edges, nfa.init, w, p)
  }

  /**
    The deterministic automaton gives each word the least token the other awards it, and is defined
    as far as it leads.
   */
  ghost predicate Agrees(nfa: Nfa, d: Dfa, w: Word) {
    match OutcomeFrom(d, d.init, w)
    case Undefined => !LeadsSomewhere(nfa, w)
    case Defined(token) => LeadsSomewhere(nfa, w) && exists best :: Awarded(nfa, w, best) && token == IdOf(best)
  }

  function IdOf(best: Option<Tagged>): Option<Token> {
    match best case None => None case Some(t) => Some(t.id)
  }

  ghost predicate IsWalked(nfa: Nfa, walked: Walked, words: seq<Word>) {
    && Interned(walked.subsets, walked.ids) && Found(nfa, walked.subsets, words) && walked.subsets != []
      && words[0] == []
    && (forall i: nat | i < |walked.subsets| :: StepsAll(nfa, walked.subsets, words, walked.delta, i))
    && forall k | k in walked.delta :: k.0 < |walked.subsets|
  }

  /** The automaton of the subsets walked. */
  ghost predicate IsAutomaton(nfa: Nfa, walked: Walked, d: Dfa) {
    && d.init == 0 && d.states == |walked.subsets| && d.delta == walked.delta
    && (forall q: nat :: q in d.accepts ==> q < d.states)
    && forall q: nat | q < d.states :: AcceptsBest(nfa, walked.subsets[q], d.accepts, q)
  }

  /** The token recorded for the state is the least its members offer. */
  ghost predicate AcceptsBest(nfa: Nfa, members: set<nat>, accepts: map<State, Token>, q: State) {
    exists best :: IsBest(nfa, members, best) && IdOf(best) == if q in accepts then Some(accepts[q]) else None
  }

  lemma {:induction false} LedToOne(nfa: Nfa, u: Word, v: Word, members: set<nat>, b: Byte, next: set<nat>)
    requires LedTo(nfa, u, members) && LedTo(nfa, v, members) && LedTo(nfa, u + [b], next)
    ensures LedTo(nfa, v + [b], next)
  {
    hide Reads;
    forall p: nat ensures Reads(nfa.edges, nfa.init, u + [b], p) <==> Reads(nfa.edges, nfa.init, v + [b], p) {
      ReadsSnoc(nfa, u, b, p);
      ReadsSnoc(nfa, v, b, p);
      if e :| CrossesOn(nfa, u, b, e) && Reads(nfa.edges, e.to, [], p) {
        assert CrossesOn(nfa, v, b, e);
      }
      if e :| CrossesOn(nfa, v, b, e) && Reads(nfa.edges, e.to, [], p) {
        assert CrossesOn(nfa, u, b, e);
      }
    }
  }

  lemma {:induction false} LedNowhere(nfa: Nfa, w: Word, b: Byte)
    requires LedTo(nfa, w, {})
    ensures LedTo(nfa, w + [b], {})
  {
    hide Reads;
    forall p: nat ensures !Reads(nfa.edges, nfa.init, w + [b], p) {
      ReadsSnoc(nfa, w, b, p);
    }
  }

  /** The state a word runs to is the subset it leads to, and it runs nowhere where it leads nowhere. */
  ghost predicate RunIsLedTo(nfa: Nfa, walked: Walked, d: Dfa, w: Word) {
    match d.Run(d.init, w)
    case None => LedTo(nfa, w, {})
    case Some(q) => q < |walked.subsets| && LedTo(nfa, w, walked.subsets[q])
  }

  lemma {:induction false} RunLeads(nfa: Nfa, walked: Walked, words: seq<Word>, d: Dfa, w: Word)
    requires IsWalked(nfa, walked, words) && IsAutomaton(nfa, walked, d)
    ensures RunIsLedTo(nfa, walked, d, w)
  {
    hide LedTo, AcceptsBest, Interned;
    if w == [] {
      assert LedTo(nfa, words[0], walked.subsets[0]);
    } else {
      var front, b := w[..|w| - 1], w[|w| - 1];
      assert w == front + [b];
      RunLeads(nfa, walked, words, d, front);
      match d.Run(d.init, front)
      case None => LedNowhere(nfa, front, b);
      case Some(q) => {
        assert StepsAll(nfa, walked.subsets, words, walked.delta, q);
        assert Steps(nfa, walked.subsets, words, walked.delta, q, b);
        assert LedTo(nfa, words[q], walked.subsets[q]);
        var next := if (q, b) in walked.delta then walked.subsets[walked.delta[(q, b)]] else {};
        LedToOne(nfa, words[q], front, walked.subsets[q], b, next);
      }
    }
  }

  lemma {:induction false} AutomatonAgrees(nfa: Nfa, walked: Walked, words: seq<Word>, d: Dfa, w: Word)
    requires IsWalked(nfa, walked, words) && IsAutomaton(nfa, walked, d)
    ensures Agrees(nfa, d, w)
  {
    hide Reads, Interned, StepsAll;
    RunLeads(nfa, walked, words, d, w);
    match d.Run(d.init, w)
    case None =>
    case Some(q) => {
      var members := walked.subsets[q];
      assert members != {};
      var p :| p in members;
      assert AcceptsBest(nfa, members, d.accepts, q);
      var best :| IsBest(nfa, members, best) && IdOf(best) == if q in d.accepts then Some(d.accepts[q]) else None;
      forall t ensures Offers(nfa, members, t) <==> Awards(nfa, w, Some(t)) {
        OffersIsAwards(nfa, w, members, t);
      }
      hide Offers, Awards;
      assert Awarded(nfa, w, best);
    }
  }

  /** Every state is reached: its own word runs to it. */
  lemma {:induction false} WordRunsThere(nfa: Nfa, walked: Walked, words: seq<Word>, d: Dfa, q: nat)
    requires IsWalked(nfa, walked, words) && IsAutomaton(nfa, walked, d) && q < d.states
    ensures d.Run(d.init, words[q]) == Some(q)
  {
    hide Reads, StepsAll, AcceptsBest;
    RunLeads(nfa, walked, words, d, words[q]);
    assert LedTo(nfa, words[q], walked.subsets[q]) && walked.subsets[q] != {};
    match d.Run(d.init, words[q])
    case None => OneLedTo(nfa, words[q], walked.subsets[q], {});
    case Some(r) => OneLedTo(nfa, words[q], walked.subsets[q], walked.subsets[r]);
  }

  lemma {:induction false} OneLedTo(nfa: Nfa, w: Word, members: set<nat>, others: set<nat>)
    requires LedTo(nfa, w, members) && LedTo(nfa, w, others)
    ensures members == others
  {
    hide Reads;
    assert forall p: nat :: p in members <==> p in others;
  }

  lemma {:induction false} NotNowhere(nfa: Nfa, w: Word)
    requires LeadsSomewhere(nfa, w)
    ensures !LedTo(nfa, w, {})
  {
    var p: nat :| Reads(nfa.edges, nfa.init, w, p);
    assert p !in {};
  }

  /** The accepting states of the subsets, each with its least token. */
  method Accepts(nfa: Nfa, subsets: seq<set<nat>>) returns (accepts: map<State, Token>)
    ensures forall q :: q in accepts ==> q < |subsets|
    ensures forall q: nat | q < |subsets| :: AcceptsBest(nfa, subsets[q], accepts, q)
  {
    hide IsBest;
    accepts := map[];
    for state := 0 to |subsets|
      invariant forall q :: q in accepts ==> q < state
      invariant forall q: nat | q < state :: AcceptsBest(nfa, subsets[q], accepts, q)
    {
      ghost var before := accepts;
      var best := AcceptOf(nfa, subsets[state]);
      if best.Some? {
        accepts := accepts[state := best.value.id];
      }
      forall q: nat | q <= state ensures AcceptsBest(nfa, subsets[q], accepts, q) {
        assert q < state ==> AcceptsBest(nfa, subsets[q], before, q);
      }
    }
  }

  ghost predicate IsLedTo(nfa: Nfa, members: set<nat>) {
    members != {} && exists w :: LedTo(nfa, w, members)
  }

  /** The states the word leads to are one of the subsets. */
  ghost predicate Visited(nfa: Nfa, subsets: seq<set<nat>>, w: Word) {
    exists i: nat :: i < |subsets| && LedTo(nfa, w, subsets[i])
  }

  /** Determinizes an automaton; the subsets walked are exactly those words lead to. */
  method Determinized(nfa: Nfa) returns (d: Dfa, walked: Walked)
    requires nfa.Valid()
    ensures d.Valid() && AllReached(d) && forall w :: Agrees(nfa, d, w)
    ensures Interned(walked.subsets, walked.ids)
    ensures forall i: nat | i < |walked.subsets| :: IsLedTo(nfa, walked.subsets[i])
    ensures forall w | LeadsSomewhere(nfa, w) :: Visited(nfa, walked.subsets, w)
  {
    hide Reads, IsBest, Interned, StepsAll, Agrees, LedTo, Nfa.Valid;
    ghost var words: seq<Word>;
    walked, words := Walk(nfa);
    var accepts := Accepts(nfa, walked.subsets);
    d := Dfa(0, |walked.subsets|, walked.delta, accepts);
    assert IsAutomaton(nfa, walked, d);
    AutomatonValid(nfa, walked, words, d);
    hide IsAutomaton, IsWalked;
    forall w ensures Agrees(nfa, d, w) {
      AutomatonAgrees(nfa, walked, words, d, w);
    }
    forall q: nat | q < d.states ensures d.Reachable(q) {
      WordRunsThere(nfa, walked, words, d, q);
    }
    forall i: nat | i < |walked.subsets| ensures IsLedTo(nfa, walked.subsets[i]) {
      assert LedTo(nfa, words[i], walked.subsets[i]);
    }
    forall w | LeadsSomewhere(nfa, w) ensures Visited(nfa, walked.subsets, w) {
      LedToFound(nfa, walked, words, d, w);
    }
  }

  lemma {:induction false} AutomatonValid(nfa: Nfa, walked: Walked, words: seq<Word>, d: Dfa)
    requires IsWalked(nfa, walked, words) && IsAutomaton(nfa, walked, d)
    ensures d.Valid()
  {
    hide Interned, LedTo, AcceptsBest;
    forall k | k in d.delta ensures k.0 < d.states && d.delta[k] < d.states {
      assert StepsAll(nfa, walked.subsets, words, walked.delta, k.0);
      assert Steps(nfa, walked.subsets, words, walked.delta, k.0, k.1);
      assert k == (k.0, k.1);
    }
  }

  lemma {:induction false} LedToFound(nfa: Nfa, walked: Walked, words: seq<Word>, d: Dfa, w: Word)
    requires IsWalked(nfa, walked, words) && IsAutomaton(nfa, walked, d) && LeadsSomewhere(nfa, w)
    ensures Visited(nfa, walked.subsets, w)
  {
    hide Reads, Interned, StepsAll, AcceptsBest;
    RunLeads(nfa, walked, words, d, w);
    NotNowhere(nfa, w);
  }
}

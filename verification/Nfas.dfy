/**
  Nondeterministic automata as their builder composes them, and what composition
  does to the words read between two states.
 */
module Nfas {
  import opened Options
  import opened Machine

  /** A token as the builder registers it: the lower priority wins, and of equal priorities the lower identifier. */
  datatype Tagged = Tagged(id: Token, priority: nat)

  /** A transition; no label is the empty move. */
  datatype Edge = Edge(from: nat, on: Option<Byte>, to: nat)

  /** The next state is past every state in use. */
  datatype Nfa = Nfa(init: nat, next: nat, edges: set<Edge>, accepts: map<nat, Option<Tagged>>) {
    ghost predicate Valid() {
      && init < next
      && (forall e | e in edges :: e.from < next && e.to < next)
      && forall q | q in accepts :: q < next
    }
  }

  function Spelled(on: Option<Byte>): Word {
    if on.Some? then [on.value] else []
  }

  /** A path of n transitions reads the word. */
  ghost predicate Walks(edges: set<Edge>, n: nat, q: nat, w: Word, p: nat)
    decreases n
  {
    if n == 0 then q == p && w == []
    else exists e :: e in edges && Begins(edges, n, e, q, w, p)
  }

  ghost predicate Begins(edges: set<Edge>, n: nat, e: Edge, q: nat, w: Word, p: nat)
    requires n > 0
    decreases n, 0
  {
    e.from == q && Spelled(e.on) <= w && Walks(edges, n - 1, e.to, w[|Spelled(e.on)|..], p)
  }

  /** The word leads from one state to the other. */
  ghost predicate Reads(edges: set<Edge>, q: nat, w: Word, p: nat) {
    exists n: nat :: Walks(edges, n, q, w, p)
  }

  /** Some accepting state is reached on the word, with the token. */
  ghost predicate Awards(nfa: Nfa, w: Word, token: Option<Tagged>) {
    exists p | p in nfa.accepts && nfa.accepts[p] == token :: Reads(nfa.edges, nfa.init, w, p)
  }

  ghost predicate Matches(nfa: Nfa, w: Word) {
    exists p | p in nfa.accepts :: Reads(nfa.edges, nfa.init, w, p)
  }

  lemma {:induction false} ReadsNothing(edges: set<Edge>, q: nat)
    ensures Reads(edges, q, [], q)
  {
    assert Walks(edges, 0, q, [], q);
  }

  lemma {:induction false} ReadsEdge(edges: set<Edge>, e: Edge, w: Word, p: nat)
    requires e in edges && Reads(edges, e.to, w, p)
    ensures Reads(edges, e.from, Spelled(e.on) + w, p)
  {
    var n: nat :| Walks(edges, n, e.to, w, p);
    var all := Spelled(e.on) + w;
    assert all[|Spelled(e.on)|..] == w;
    assert Begins(edges, n + 1, e, e.from, all, p);
    assert Walks(edges, n + 1, e.from, all, p);
  }

  /** The first transition of a path. */
  lemma {:induction false} FirstStep(edges: set<Edge>, n: nat, q: nat, w: Word, p: nat) returns (e: Edge)
    requires Walks(edges, n, q, w, p) && n > 0
    ensures e in edges && e.from == q && Spelled(e.on) <= w
    ensures Walks(edges, n - 1, e.to, w[|Spelled(e.on)|..], p)
  {
    e :| e in edges && Begins(edges, n, e, q, w, p);
  }

  lemma {:induction false} ReadsJoin(edges: set<Edge>, n: nat, q: nat, u: Word, m: nat, v: Word, p: nat)
    requires Walks(edges, n, q, u, m) && Reads(edges, m, v, p)
    ensures Reads(edges, q, u + v, p)
    decreases n
  {
    if n == 0 {
      assert u + v == v;
    } else {
      var e := FirstStep(edges, n, q, u, m);
      hide Reads;
      var rest := u[|Spelled(e.on)|..];
      ReadsJoin(edges, n - 1, e.to, rest, m, v, p);
      ReadsEdge(edges, e, rest + v, p);
      assert Spelled(e.on) + (rest + v) == u + v;
    }
  }

  lemma {:induction false} ReadsThrough(edges: set<Edge>, q: nat, u: Word, m: nat, v: Word, p: nat)
    requires Reads(edges, q, u, m) && Reads(edges, m, v, p)
    ensures Reads(edges, q, u + v, p)
  {
    var n: nat :| Walks(edges, n, q, u, m);
    ReadsJoin(edges, n, q, u, m, v, p);
  }

  /** More transitions read no less. */
  lemma {:induction false} WalksInMore(edges: set<Edge>, more: set<Edge>, n: nat, q: nat, w: Word, p: nat)
    requires Walks(edges, n, q, w, p) && edges <= more
    ensures Walks(more, n, q, w, p)
    decreases n
  {
    if n > 0 {
      var e := FirstStep(edges, n, q, w, p);
      WalksInMore(edges, more, n - 1, e.to, w[|Spelled(e.on)|..], p);
      assert Begins(more, n, e, q, w, p);
    }
  }

  lemma {:induction false} ReadsInMore(edges: set<Edge>, more: set<Edge>, q: nat, w: Word, p: nat)
    requires Reads(edges, q, w, p) && edges <= more
    ensures Reads(more, q, w, p)
  {
    var n: nat :| Walks(edges, n, q, w, p);
    WalksInMore(edges, more, n, q, w, p);
  }

  // ----- renumbering -----

  function ShiftedEdges(edges: set<Edge>, k: nat): set<Edge> {
    set e | e in edges :: Edge(e.from + k, e.on, e.to + k)
  }

  function ShiftedStates(states: set<nat>, k: nat): set<nat> {
    set q | q in states :: q + k
  }

  lemma {:induction false} ShiftedStatesAt(states: set<nat>, k: nat)
    ensures forall q: nat :: q in ShiftedStates(states, k) <==> q >= k && q - k in states
  {
    forall q: nat | q >= k && q - k in states ensures q in ShiftedStates(states, k) {
      var p: nat := q - k;
      assert p in states && q == p + k;
    }
  }

  function ShiftedAccepts(accepts: map<nat, Option<Tagged>>, k: nat): map<nat, Option<Tagged>> {
    ShiftedStatesAt(accepts.Keys, k);
    map q: nat | q in ShiftedStates(accepts.Keys, k) :: accepts[q - k]
  }

  /** The automaton with every state k further. */
  function Offset(nfa: Nfa, k: nat): Nfa {
    Nfa(nfa.init + k, nfa.next + k, ShiftedEdges(nfa.edges, k), ShiftedAccepts(nfa.accepts, k))
  }

  lemma {:induction false} ShiftedAcceptsAt(accepts: map<nat, Option<Tagged>>, k: nat)
    ensures forall q: nat :: q in ShiftedAccepts(accepts, k) <==> q >= k && q - k in accepts
    ensures forall q: nat | q in ShiftedAccepts(accepts, k) :: ShiftedAccepts(accepts, k)[q] == accepts[q - k]
  {
    hide ShiftedStates;
    ShiftedStatesAt(accepts.Keys, k);
  }

  lemma {:induction false} OffsetValid(nfa: Nfa, k: nat)
    requires nfa.Valid()
    ensures Offset(nfa, k).Valid()
    ensures forall e | e in Offset(nfa, k).edges :: k <= e.from && k <= e.to
  {
    ShiftedAcceptsAt(nfa.accepts, k);
    hide ShiftedAccepts;
  }

  lemma {:induction false} Unshifted(edges: set<Edge>, k: nat, e: Edge) returns (f: Edge)
    requires e in ShiftedEdges(edges, k)
    ensures f in edges && e == Edge(f.from + k, f.on, f.to + k)
  {
    f :| f in edges && e == Edge(f.from + k, f.on, f.to + k);
  }

  lemma {:induction false} ShiftedWalks(edges: set<Edge>, k: nat, n: nat, q: nat, w: Word, p: nat)
    ensures Walks(ShiftedEdges(edges, k), n, q + k, w, p + k) <==> Walks(edges, n, q, w, p)
    decreases n
  {
    var shifted := ShiftedEdges(edges, k);
    if n > 0 {
      if Walks(shifted, n, q + k, w, p + k) {
        var e := FirstStep(shifted, n, q + k, w, p + k);
        var f := Unshifted(edges, k, e);
        hide ShiftedEdges;
        ShiftedWalks(edges, k, n - 1, f.to, w[|Spelled(f.on)|..], p);
        assert Begins(edges, n, f, q, w, p);
      }
      if Walks(edges, n, q, w, p) {
        var f := FirstStep(edges, n, q, w, p);
        var e := Edge(f.from + k, f.on, f.to + k);
        assert e in shifted;
        hide ShiftedEdges;
        ShiftedWalks(edges, k, n - 1, f.to, w[|Spelled(f.on)|..], p);
        assert Begins(shifted, n, e, q + k, w, p + k);
      }
    }
  }

  lemma {:induction false} ShiftedReads(edges: set<Edge>, k: nat, q: nat, w: Word, p: nat)
    ensures Reads(ShiftedEdges(edges, k), q + k, w, p + k) <==> Reads(edges, q, w, p)
  {
    hide Walks, ShiftedEdges;
    var shifted, from, to := ShiftedEdges(edges, k), q + k, p + k;
    if n: nat :| Walks(shifted, n, from, w, to) {
      ShiftedWalks(edges, k, n, q, w, p);
    }
    if n: nat :| Walks(edges, n, q, w, p) {
      ShiftedWalks(edges, k, n, q, w, p);
    }
  }

  // ----- one automaton spliced after another -----

  /** Empty moves from the states to one state. */
  function Bridges(from: set<nat>, to: nat): set<Edge> {
    set q | q in from :: Edge(q, None, to)
  }

  /** The transitions of the first part stay below k, and those of the second from k on. */
  ghost predicate Apart(first: set<Edge>, second: set<Edge>, k: nat) {
    && (forall e | e in first :: e.from < k && e.to < k)
    && forall e | e in second :: k <= e.from && k <= e.to
  }

  /** The two parts, and empty moves from states of the first into the second. */
  function Spliced(first: set<Edge>, second: set<Edge>, bridge: set<nat>, entry: nat): set<Edge> {
    first + Bridges(bridge, entry) + second
  }

  /** Nothing leads back out of the second part. */
  lemma {:induction false} SecondIsClosed(
      first: set<Edge>, second: set<Edge>, bridge: set<nat>, entry: nat, k: nat, n: nat, q: nat, w: Word, p: nat)
    requires Apart(first, second, k) && (forall b | b in bridge :: b < k) && k <= entry && k <= q
    requires Walks(Spliced(first, second, bridge, entry), n, q, w, p)
    ensures Walks(second, n, q, w, p) && k <= p
    decreases n
  {
    var all := Spliced(first, second, bridge, entry);
    if n > 0 {
      var e := FirstStep(all, n, q, w, p);
      assert e in second;
      SecondIsClosed(first, second, bridge, entry, k, n - 1, e.to, w[|Spelled(e.on)|..], p);
      assert Begins(second, n, e, q, w, p);
    }
  }

  /** What is read between states of the first part is read there. */
  lemma {:induction false} FirstIsKept(
      first: set<Edge>, second: set<Edge>, bridge: set<nat>, entry: nat, k: nat, n: nat, q: nat, w: Word, p: nat)
    requires Apart(first, second, k) && (forall b | b in bridge :: b < k) && k <= entry && q < k && p < k
    requires Walks(Spliced(first, second, bridge, entry), n, q, w, p)
    ensures Walks(first, n, q, w, p)
    decreases n
  {
    var all := Spliced(first, second, bridge, entry);
    if n > 0 {
      var e := FirstStep(all, n, q, w, p);
      var rest := w[|Spelled(e.on)|..];
      if e in first {
        FirstIsKept(first, second, bridge, entry, k, n - 1, e.to, rest, p);
        assert Begins(first, n, e, q, w, p);
      } else {
        assert e.to == entry;
        SecondIsClosed(first, second, bridge, entry, k, n - 1, e.to, rest, p);
      }
    }
  }

  ghost predicate SplitsAt(first: set<Edge>, second: set<Edge>, entry: nat, q: nat, w: Word, p: nat, c: nat, a: nat) {
    c <= |w| && Reads(first, q, w[..c], a) && Reads(second, entry, w[c..], p)
  }

  lemma {:induction false} SplitsFurther(
      first: set<Edge>, second: set<Edge>, entry: nat, e: Edge, w: Word, p: nat, c: nat, a: nat)
    requires e in first && Spelled(e.on) <= w && SplitsAt(first, second, entry, e.to, w[|Spelled(e.on)|..], p, c, a)
    ensures SplitsAt(first, second, entry, e.from, w, p, |Spelled(e.on)| + c, a)
  {
    var d := |Spelled(e.on)|;
    hide Reads;
    ReadsEdge(first, e, w[d..][..c], a);
    assert Spelled(e.on) + w[d..][..c] == w[..d + c] && w[d..][c..] == w[d + c..];
  }

  /** What leads from the first part into the second passes one of the empty moves. */
  lemma {:induction false} SpliceSplits(
      first: set<Edge>, second: set<Edge>, bridge: set<nat>, entry: nat, k: nat, n: nat, q: nat, w: Word, p: nat)
    returns (c: nat, a: nat)
    requires Apart(first, second, k) && (forall b | b in bridge :: b < k) && k <= entry && q < k && k <= p
    requires Walks(Spliced(first, second, bridge, entry), n, q, w, p)
    ensures a in bridge && SplitsAt(first, second, entry, q, w, p, c, a)
    decreases n
  {
    var all := Spliced(first, second, bridge, entry);
    var e := FirstStep(all, n, q, w, p);
    var d := |Spelled(e.on)|;
    if e in first {
      c, a := SpliceSplits(first, second, bridge, entry, k, n - 1, e.to, w[d..], p);
      SplitsFurther(first, second, entry, e, w, p, c, a);
      c := d + c;
    } else {
      c, a := 0, q;
      assert w[d..] == w[0..] == w;
      SecondIsClosed(first, second, bridge, entry, k, n - 1, entry, w, p);
      ReadsNothing(first, q);
    }
  }

  /** What the splice reads from the first part: there what the first reads, and beyond what both read in turn. */
  lemma {:induction false} SpliceReads(
      first: set<Edge>, second: set<Edge>, bridge: set<nat>, entry: nat, k: nat, q: nat, w: Word, p: nat)
    requires Apart(first, second, k) && (forall b | b in bridge :: b < k) && k <= entry && q < k
    ensures p < k ==> (Reads(Spliced(first, second, bridge, entry), q, w, p) <==> Reads(first, q, w, p))
    ensures k <= p ==> (Reads(Spliced(first, second, bridge, entry), q, w, p) <==>
      ReadsBoth(first, second, bridge, entry, q, w, p))
  {
    var all := Spliced(first, second, bridge, entry);
    hide Walks;
    if n: nat :| Walks(all, n, q, w, p) {
      if p < k {
        FirstIsKept(first, second, bridge, entry, k, n, q, w, p);
      } else {
        var c, a := SpliceSplits(first, second, bridge, entry, k, n, q, w, p);
        assert SplitsAt(first, second, entry, q, w, p, c, a);
      }
    }
    if p < k && Reads(first, q, w, p) {
      ReadsInMore(first, all, q, w, p);
    }
    if ReadsBoth(first, second, bridge, entry, q, w, p) {
      var c: nat, a :| a in bridge && SplitsAt(first, second, entry, q, w, p, c, a);
      ReadsInMore(first, all, q, w[..c], a);
      ReadsInMore(second, all, entry, w[c..], p);
      assert Edge(a, None, entry) in all;
      ReadsEdge(all, Edge(a, None, entry), w[c..], p);
      assert [] + w[c..] == w[c..];
      ReadsThrough(all, q, w[..c], a, w[c..], p);
      assert w[..c] + w[c..] == w;
    }
  }

  ghost predicate ReadsBoth(
      first: set<Edge>, second: set<Edge>, bridge: set<nat>, entry: nat, q: nat, w: Word, p: nat)
  {
    exists c: nat, a :: a in bridge && SplitsAt(first, second, entry, q, w, p, c, a)
  }

  // ----- looping back -----

  /** Concatenated parts. */
  ghost function Flat(parts: seq<Word>): Word {
    if parts == [] then [] else parts[0] + Flat(parts[1..])
  }

  lemma {:induction false} FlatSnoc(parts: seq<Word>, last: Word)
    ensures Flat(parts + [last]) == Flat(parts) + last
  {
    if parts == [] {
      assert [last][1..] == [];
    } else {
      FlatSnoc(parts[1..], last);
      assert (parts + [last])[1..] == parts[1..] + [last];
    }
  }

  ghost predicate EachLeads(edges: set<Edge>, q: nat, ends: set<nat>, parts: seq<Word>) {
    forall i: nat | i < |parts| :: Leads(edges, q, ends, parts[i])
  }

  ghost predicate Leads(edges: set<Edge>, q: nat, ends: set<nat>, w: Word) {
    exists p | p in ends :: Reads(edges, q, w, p)
  }

  /** With empty moves from the ends back to the start, a path is complete turns and then one without them. */
  lemma {:induction false} LeadsFurther(edges: set<Edge>, e: Edge, ends: set<nat>, w: Word, c: nat)
    requires e in edges && Spelled(e.on) <= w && c <= |w| - |Spelled(e.on)|
    requires Leads(edges, e.to, ends, w[|Spelled(e.on)|..][..c])
    ensures Leads(edges, e.from, ends, w[..|Spelled(e.on)| + c])
  {
    var d := |Spelled(e.on)|;
    var a :| a in ends && Reads(edges, e.to, w[d..][..c], a);
    ReadsEdge(edges, e, w[d..][..c], a);
    assert Spelled(e.on) + w[d..][..c] == w[..d + c];
  }

  lemma {:induction false} LoopSplits(edges: set<Edge>, ends: set<nat>, t: nat, n: nat, q: nat, w: Word, p: nat)
    returns (turns: bool, c: nat, rest: nat)
    requires Walks(edges + Bridges(ends, t), n, q, w, p)
    ensures !turns ==> Reads(edges, q, w, p)
    ensures turns ==> c <= |w| && rest < n && Leads(edges, q, ends, w[..c]) && Walks(edges + Bridges(ends, t), rest, t,
      w[c..], p)
    decreases n
  {
    var all := edges + Bridges(ends, t);
    if n == 0 {
      turns, c, rest := false, 0, 0;
      ReadsNothing(edges, q);
    } else {
      var e := FirstStep(all, n, q, w, p);
      var d := |Spelled(e.on)|;
      if e in edges {
        turns, c, rest := LoopSplits(edges, ends, t, n - 1, e.to, w[d..], p);
        if turns {
          LeadsFurther(edges, e, ends, w, c);
          assert w[d..][c..] == w[d + c..];
          c := d + c;
        } else {
          ReadsEdge(edges, e, w[d..], p);
          assert Spelled(e.on) + w[d..] == w;
        }
      } else {
        turns, c, rest := true, 0, n - 1;
        assert w[d..] == w[0..] == w;
        ReadsNothing(edges, q);
      }
    }
  }

  lemma {:induction false} LoopParts(edges: set<Edge>, ends: set<nat>, t: nat, n: nat, w: Word, p: nat)
    returns (parts: seq<Word>, rest: Word)
    requires Walks(edges + Bridges(ends, t), n, t, w, p)
    ensures EachLeads(edges, t, ends, parts) && Flat(parts) + rest == w && Reads(edges, t, rest, p)
    decreases n
  {
    hide Leads, Walks, Reads, Bridges;
    var turns, c, left := LoopSplits(edges, ends, t, n, t, w, p);
    if !turns {
      parts, rest := [], w;
      assert [] + w == w;
    } else {
      parts, rest := LoopParts(edges, ends, t, left, w[c..], p);
      var all := [w[..c]] + parts;
      assert all[1..] == parts;
      assert Flat(all) + rest == w[..c] + (Flat(parts) + rest) == w;
      forall i: nat | i < |all| ensures Leads(edges, t, ends, all[i]) {
        if i > 0 {
          assert Leads(edges, t, ends, parts[i - 1]);
        }
      }
      parts := all;
    }
  }

  lemma {:induction false} LoopReads(edges: set<Edge>, ends: set<nat>, t: nat, parts: seq<Word>, rest: Word, p: nat)
    requires EachLeads(edges, t, ends, parts) && Reads(edges, t, rest, p)
    ensures Reads(edges + Bridges(ends, t), t, Flat(parts) + rest, p)
    decreases |parts|
  {
    var all := edges + Bridges(ends, t);
    if parts == [] {
      ReadsInMore(edges, all, t, rest, p);
      assert [] + rest == rest;
    } else {
      hide Reads;
      assert Leads(edges, t, ends, parts[0]);
      var a :| a in ends && Reads(edges, t, parts[0], a);
      forall i: nat | i < |parts[1..]| ensures Leads(edges, t, ends, parts[1..][i]) {
        assert Leads(edges, t, ends, parts[i + 1]);
      }
      LoopReads(edges, ends, t, parts[1..], rest, p);
      var tail := Flat(parts[1..]) + rest;
      assert Edge(a, None, t) in all;
      ReadsEdge(all, Edge(a, None, t), tail, p);
      assert [] + tail == tail;
      ReadsInMore(edges, all, t, parts[0], a);
      ReadsThrough(all, t, parts[0], a, tail, p);
      assert parts[0] + tail == Flat(parts) + rest;
    }
  }
}

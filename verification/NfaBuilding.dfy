/** The compositions the automaton builder offers, and the language of each. */
module NfaBuilding {
  import opened Options
  import opened Machine
  import opened Nfas

  /** One state and no transitions. */
  function Blank(): Nfa {
    Nfa(0, 1, {}, map[])
  }

  function Accepting(nfa: Nfa, q: nat): Nfa {
    nfa.(accepts := nfa.accepts[q := None])
  }

  /** A new start with an empty move to the old one. */
  function PrependInit(nfa: Nfa): Nfa {
    Nfa(nfa.next, nfa.next + 1, nfa.edges + {Edge(nfa.next, None, nfa.init)}, nfa.accepts)
  }

  /** The accepting states lead by an empty move into the other automaton, which then accepts. */
  function Append(nfa: Nfa, other: Nfa): Nfa {
    var shifted := Offset(other, nfa.next);
    Nfa(nfa.init, shifted.next, Spliced(nfa.edges, shifted.edges, nfa.accepts.Keys, shifted.init), shifted.accepts)
  }

  /** The accepting states lead back to the start. */
  function LoopBack(nfa: Nfa): Nfa {
    nfa.(edges := nfa.edges + Bridges(nfa.accepts.Keys, nfa.init))
  }

  /** The other automaton beside this one, entered from the start by an empty move. */
  function Merge(nfa: Nfa, other: Nfa): Nfa {
    var shifted := Offset(other, nfa.next);
    Nfa(nfa.init, shifted.next, Spliced(nfa.edges, shifted.edges, {nfa.init}, shifted.init),
      nfa.accepts + shifted.accepts)
  }

  /** No transition enters the start. */
  ghost predicate FreshStart(nfa: Nfa) {
    forall e | e in nfa.edges :: e.to != nfa.init
  }

  lemma {:induction false} FreshReadsNothing(nfa: Nfa, n: nat, q: nat, w: Word)
    requires FreshStart(nfa) && Walks(nfa.edges, n, q, w, nfa.init)
    ensures n == 0 && w == [] && q == nfa.init
    decreases n
  {
    if n > 0 {
      var e := FirstStep(nfa.edges, n, q, w, nfa.init);
      FreshReadsNothing(nfa, n - 1, e.to, w[|Spelled(e.on)|..]);
    }
  }

  // ----- a new start -----

  lemma {:induction false} OldWalks(nfa: Nfa, n: nat, q: nat, w: Word, p: nat)
    requires nfa.Valid() && q < nfa.next && Walks(PrependInit(nfa).edges, n, q, w, p)
    ensures p < nfa.next && Walks(nfa.edges, n, q, w, p)
    decreases n
  {
    var all := PrependInit(nfa).edges;
    if n > 0 {
      var e := FirstStep(all, n, q, w, p);
      assert e in nfa.edges;
      OldWalks(nfa, n - 1, e.to, w[|Spelled(e.on)|..], p);
      assert Begins(nfa.edges, n, e, q, w, p);
    }
  }

  lemma PrependValid(nfa: Nfa)
    requires nfa.Valid()
    ensures PrependInit(nfa).Valid() && FreshStart(PrependInit(nfa))
  {
  }

  lemma {:induction false} PrependReads(nfa: Nfa, w: Word, p: nat)
    requires nfa.Valid()
    ensures p < nfa.next ==> (Reads(PrependInit(nfa).edges, nfa.next, w, p) <==> Reads(nfa.edges, nfa.init, w, p))
  {
    var all, e := PrependInit(nfa).edges, Edge(nfa.next, None, nfa.init);
    hide Walks;
    if n: nat :| p < nfa.next && Walks(all, n, nfa.next, w, p) {
      FirstFromNew(nfa, n, w, p);
    }
    if Reads(nfa.edges, nfa.init, w, p) {
      ReadsInMore(nfa.edges, all, nfa.init, w, p);
      ReadsEdge(all, e, w, p);
      assert [] + w == w;
    }
  }

  lemma {:induction false} FirstFromNew(nfa: Nfa, n: nat, w: Word, p: nat)
    requires nfa.Valid() && p < nfa.next && Walks(PrependInit(nfa).edges, n, nfa.next, w, p)
    ensures Reads(nfa.edges, nfa.init, w, p)
  {
    if n > 0 {
      var e := FirstStep(PrependInit(nfa).edges, n, nfa.next, w, p);
      assert e == Edge(nfa.next, None, nfa.init) && w[0..] == w;
      OldWalks(nfa, n - 1, nfa.init, w, p);
    }
  }

  // ----- one automaton after another -----

  ghost predicate MatchesSplit(nfa: Nfa, other: Nfa, w: Word, c: nat) {
    c <= |w| && Matches(nfa, w[..c]) && Matches(other, w[c..])
  }

  lemma {:induction false} AppendApart(nfa: Nfa, other: Nfa)
    requires nfa.Valid() && other.Valid()
    ensures Append(nfa, other).Valid() && Apart(nfa.edges, Offset(other, nfa.next).edges, nfa.next)
    ensures forall q | q in nfa.accepts.Keys :: q < nfa.next
    ensures nfa.next <= Offset(other, nfa.next).init
  {
    OffsetValid(other, nfa.next);
    hide ShiftedEdges, ShiftedAccepts;
  }

  lemma {:induction false} AppendMatches(nfa: Nfa, other: Nfa, w: Word)
    requires nfa.Valid() && other.Valid()
    ensures Append(nfa, other).Valid()
    ensures Matches(Append(nfa, other), w) <==> exists c: nat :: MatchesSplit(nfa, other, w, c)
  {
    AppendApart(nfa, other);
    hide Reads, Append;
    if Matches(Append(nfa, other), w) {
      var c := AppendSplits(nfa, other, w);
    }
    if c: nat :| MatchesSplit(nfa, other, w, c) {
      AppendJoins(nfa, other, w, c);
    }
  }

  /** The state of the second automaton is read to in the appended one across some split. */
  ghost predicate Crosses(nfa: Nfa, other: Nfa, w: Word, p: nat, c: nat, a: nat) {
    c <= |w| && a in nfa.accepts && Reads(nfa.edges, nfa.init, w[..c], a) && Reads(other.edges, other.init, w[c..], p)
  }

  lemma {:induction false} AppendReads(nfa: Nfa, other: Nfa, w: Word, p: nat)
    requires nfa.Valid() && other.Valid()
    ensures Reads(Append(nfa, other).edges, nfa.init, w, p + nfa.next) <==> exists c: nat, a ::
      Crosses(nfa, other, w, p, c, a)
  {
    var k, shifted := nfa.next, Offset(other, nfa.next);
    AppendApart(nfa, other);
    assert shifted.init == other.init + k && shifted.edges == ShiftedEdges(other.edges, k);
    hide Reads, Apart, ShiftedEdges, ShiftedAccepts, Spliced;
    SpliceReads(nfa.edges, shifted.edges, nfa.accepts.Keys, shifted.init, k, nfa.init, w, p + k);
    assert Append(nfa, other).edges == Spliced(nfa.edges, shifted.edges, nfa.accepts.Keys, shifted.init);
    hide Nfa.Valid, Offset, Append;
    if Reads(Append(nfa, other).edges, nfa.init, w, p + k) {
      var c: nat, a :| a in nfa.accepts.Keys
        && SplitsAt(nfa.edges, shifted.edges, shifted.init, nfa.init, w, p + k, c, a);
      ShiftedReads(other.edges, k, other.init, w[c..], p);
      assert Crosses(nfa, other, w, p, c, a);
    }
    if c: nat, a :| Crosses(nfa, other, w, p, c, a) {
      ShiftedReads(other.edges, k, other.init, w[c..], p);
      assert a in nfa.accepts.Keys && SplitsAt(nfa.edges, shifted.edges, shifted.init, nfa.init, w, p + k, c, a);
    }
  }

  lemma {:induction false} AppendAccepts(nfa: Nfa, other: Nfa, p: nat)
    ensures p in Append(nfa, other).accepts <==> p >= nfa.next && p - nfa.next in other.accepts
  {
    ShiftedAcceptsAt(other.accepts, nfa.next);
    hide ShiftedAccepts, Spliced, ShiftedEdges;
  }

  lemma {:induction false} AppendSplits(nfa: Nfa, other: Nfa, w: Word) returns (c: nat)
    requires nfa.Valid() && other.Valid() && Matches(Append(nfa, other), w)
    ensures MatchesSplit(nfa, other, w, c)
  {
    assert Append(nfa, other).init == nfa.init;
    hide Reads, Append, Nfa.Valid;
    var p :| p in Append(nfa, other).accepts && Reads(Append(nfa, other).edges, nfa.init, w, p);
    AppendAccepts(nfa, other, p);
    AppendReads(nfa, other, w, p - nfa.next);
    var a;
    c, a :| Crosses(nfa, other, w, p - nfa.next, c, a);
  }

  lemma {:induction false} AppendJoins(nfa: Nfa, other: Nfa, w: Word, c: nat)
    requires nfa.Valid() && other.Valid() && MatchesSplit(nfa, other, w, c)
    ensures Matches(Append(nfa, other), w)
  {
    assert Append(nfa, other).init == nfa.init;
    hide Reads, Append, Nfa.Valid;
    var a :| a in nfa.accepts && Reads(nfa.edges, nfa.init, w[..c], a);
    var p :| p in other.accepts && Reads(other.edges, other.init, w[c..], p);
    assert Crosses(nfa, other, w, p, c, a);
    AppendReads(nfa, other, w, p);
    AppendAccepts(nfa, other, p + nfa.next);
  }

  /** Appending changes nothing of what is read in the automaton appended to. */
  lemma {:induction false} AppendKeeps(nfa: Nfa, other: Nfa, w: Word, p: nat)
    requires nfa.Valid() && other.Valid() && p < nfa.next
    ensures Reads(Append(nfa, other).edges, nfa.init, w, p) <==> Reads(nfa.edges, nfa.init, w, p)
  {
    AppendApart(nfa, other);
    hide Reads, Apart, ShiftedEdges, ShiftedAccepts, Spliced;
    SpliceReads(
      nfa.edges, Offset(other, nfa.next).edges, nfa.accepts.Keys, Offset(other, nfa.next).init,
      nfa.next, nfa.init, w, p);
  }

  // ----- automata side by side -----

  lemma {:induction false} MergeApart(nfa: Nfa, other: Nfa)
    requires nfa.Valid() && other.Valid()
    ensures Merge(nfa, other).Valid() && Apart(nfa.edges, Offset(other, nfa.next).edges, nfa.next)
    ensures nfa.next <= Offset(other, nfa.next).init
    ensures FreshStart(nfa) ==> FreshStart(Merge(nfa, other))
  {
    OffsetValid(other, nfa.next);
    hide ShiftedEdges, ShiftedAccepts;
  }

  lemma {:induction false} MergeReads(nfa: Nfa, other: Nfa, w: Word, p: nat)
    requires nfa.Valid() && other.Valid() && FreshStart(nfa)
    ensures var read := Reads(Merge(nfa, other).edges, nfa.init, w, p);
      if p < nfa.next then read <==> Reads(nfa.edges, nfa.init, w, p)
      else read <==> Reads(other.edges, other.init, w, p - nfa.next)
  {
    var k, shifted := nfa.next, Offset(other, nfa.next);
    MergeApart(nfa, other);
    SpliceReads(nfa.edges, shifted.edges, {nfa.init}, shifted.init, k, nfa.init, w, p);
    if p >= k {
      ShiftedReads(other.edges, k, other.init, w, p - k);
      hide Apart, ShiftedEdges, ShiftedAccepts, Spliced;
      BridgeAtOnce(nfa, shifted.edges, shifted.init, w, p);
    }
  }

  /** A start nothing enters is left only at once. */
  lemma {:induction false} BridgeAtOnce(nfa: Nfa, second: set<Edge>, entry: nat, w: Word, p: nat)
    requires FreshStart(nfa)
    ensures ReadsBoth(nfa.edges, second, {nfa.init}, entry, nfa.init, w, p) <==> Reads(second, entry, w, p)
  {
    hide Walks;
    if ReadsBoth(nfa.edges, second, {nfa.init}, entry, nfa.init, w, p) {
      var c: nat, a :| a in {nfa.init} && SplitsAt(nfa.edges, second, entry, nfa.init, w, p, c, a);
      var n: nat :| Walks(nfa.edges, n, nfa.init, w[..c], a);
      FreshReadsNothing(nfa, n, nfa.init, w[..c]);
      assert w[c..] == w;
    }
    if Reads(second, entry, w, p) {
      ReadsNothing(nfa.edges, nfa.init);
      assert w[..0] == [] && w[0..] == w;
      assert SplitsAt(nfa.edges, second, entry, nfa.init, w, p, 0, nfa.init);
    }
  }

  /** The union awards the tokens either awards. */
  lemma {:induction false} MergeAwards(nfa: Nfa, other: Nfa, w: Word, token: Option<Tagged>)
    requires nfa.Valid() && other.Valid() && FreshStart(nfa)
    ensures Awards(Merge(nfa, other), w, token) <==> Awards(nfa, w, token) || Awards(other, w, token)
  {
    var k, all := nfa.next, Merge(nfa, other);
    ShiftedAcceptsAt(other.accepts, k);
    hide Reads, ShiftedEdges, ShiftedAccepts, Spliced;
    if Awards(all, w, token) {
      var p :| p in all.accepts && all.accepts[p] == token && Reads(all.edges, nfa.init, w, p);
      MergeReads(nfa, other, w, p);
    }
    if Awards(nfa, w, token) {
      var p :| p in nfa.accepts && nfa.accepts[p] == token && Reads(nfa.edges, nfa.init, w, p);
      MergeReads(nfa, other, w, p);
      assert p in all.accepts && all.accepts[p] == token;
    }
    if Awards(other, w, token) {
      var p :| p in other.accepts && other.accepts[p] == token && Reads(other.edges, other.init, w, p);
      MergeReads(nfa, other, w, p + k);
      assert p + k in all.accepts && all.accepts[p + k] == token;
    }
  }

  lemma {:induction false} MatchesAwards(nfa: Nfa, w: Word)
    ensures Matches(nfa, w) <==> exists token :: Awards(nfa, w, token)
  {
    hide Reads;
    if p :| p in nfa.accepts && Reads(nfa.edges, nfa.init, w, p) {
      assert Awards(nfa, w, nfa.accepts[p]);
    }
  }

  lemma {:induction false} MergeMatches(nfa: Nfa, other: Nfa, w: Word)
    requires nfa.Valid() && other.Valid() && FreshStart(nfa)
    ensures Matches(Merge(nfa, other), w) <==> Matches(nfa, w) || Matches(other, w)
  {
    MatchesAwards(nfa, w);
    MatchesAwards(other, w);
    MatchesAwards(Merge(nfa, other), w);
    hide Matches, Awards, Merge;
    if token :| Awards(Merge(nfa, other), w, token) {
      MergeAwards(nfa, other, w, token);
    }
    if token :| Awards(nfa, w, token) {
      MergeAwards(nfa, other, w, token);
    }
    if token :| Awards(other, w, token) {
      MergeAwards(nfa, other, w, token);
    }
  }

  // ----- turns of a loop -----

  ghost predicate MatchesEach(nfa: Nfa, parts: seq<Word>) {
    forall i: nat | i < |parts| :: Matches(nfa, parts[i])
  }

  /** One turn or more. */
  lemma {:induction false} LoopMatches(nfa: Nfa, w: Word)
    ensures Matches(LoopBack(nfa), w) <==> exists parts :: parts != [] && MatchesEach(nfa, parts) && Flat(parts) == w
  {
    var all, ends := LoopBack(nfa), nfa.accepts.Keys;
    hide Walks;
    if Matches(all, w) {
      var p :| p in all.accepts && Reads(all.edges, nfa.init, w, p);
      var n: nat :| Walks(all.edges, n, nfa.init, w, p);
      var parts, rest := LoopParts(nfa.edges, ends, nfa.init, n, w, p);
      LeadsMatches(nfa, parts);
      hide Reads;
      FlatSnoc(parts, rest);
      assert MatchesEach(nfa, parts + [rest]);
    }
    hide Reads;
    if parts :| parts != [] && MatchesEach(nfa, parts) && Flat(parts) == w {
      var front, last := parts[..|parts| - 1], parts[|parts| - 1];
      assert parts == front + [last] && Matches(nfa, parts[|parts| - 1]);
      var p :| p in nfa.accepts && Reads(nfa.edges, nfa.init, last, p);
      FlatSnoc(front, last);
      MatchesLeads(nfa, front);
      LoopReads(nfa.edges, ends, nfa.init, front, last, p);
    }
  }

  lemma {:induction false} LeadsMatches(nfa: Nfa, parts: seq<Word>)
    requires EachLeads(nfa.edges, nfa.init, nfa.accepts.Keys, parts)
    ensures MatchesEach(nfa, parts)
  {
    hide Reads;
    forall i: nat | i < |parts| ensures Matches(nfa, parts[i]) {
      assert Leads(nfa.edges, nfa.init, nfa.accepts.Keys, parts[i]);
    }
  }

  lemma {:induction false} MatchesLeads(nfa: Nfa, parts: seq<Word>)
    requires MatchesEach(nfa, parts)
    ensures EachLeads(nfa.edges, nfa.init, nfa.accepts.Keys, parts)
  {
    hide Reads;
    forall i: nat | i < |parts| ensures Leads(nfa.edges, nfa.init, nfa.accepts.Keys, parts[i]) {
      assert Matches(nfa, parts[i]);
    }
  }

  /** With the start, which nothing enters, accepting too: any number of turns. */
  lemma {:induction false} StarMatches(nfa: Nfa, w: Word)
    requires FreshStart(nfa) && nfa.init !in nfa.accepts
    ensures Matches(Accepting(LoopBack(nfa), nfa.init), w) <==> exists parts ::
      MatchesEach(nfa, parts) && Flat(parts) == w
  {
    var all, ends := Accepting(LoopBack(nfa), nfa.init), nfa.accepts.Keys;
    hide Walks;
    if Matches(all, w) {
      var p :| p in all.accepts && Reads(all.edges, nfa.init, w, p);
      var n: nat :| Walks(all.edges, n, nfa.init, w, p);
      var parts, rest := LoopParts(nfa.edges, ends, nfa.init, n, w, p);
      LeadsMatches(nfa, parts);
      if p == nfa.init {
        var m: nat :| Walks(nfa.edges, m, nfa.init, rest, p);
        FreshReadsNothing(nfa, m, nfa.init, rest);
        assert Flat(parts) == w;
      } else {
        hide Reads;
        FlatSnoc(parts, rest);
        assert MatchesEach(nfa, parts + [rest]);
      }
    }
    hide Reads;
    if parts :| MatchesEach(nfa, parts) && Flat(parts) == w {
      if parts == [] {
        ReadsNothing(all.edges, nfa.init);
        assert nfa.init in all.accepts;
      } else {
        LoopMatches(nfa, w);
        var p :| p in nfa.accepts && Reads(LoopBack(nfa).edges, nfa.init, w, p);
        assert p in all.accepts;
      }
    }
  }
}

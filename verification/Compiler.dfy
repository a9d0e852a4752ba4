/**
  The compiler: patterns to automata, each determinized, minimized and turned back,
  then united, determinized and minimized again; and what it says of its patterns.
 */
module Compiler {
  import opened Options
  import opened Machine
  import opened Nfas
  import opened NfaBuilding
  import opened Regexes
  import opened RegexLowering
  import opened Outcomes
  import opened Minimize
  import D = Determinize

  /** A pattern registered with its token. */
  datatype Pattern = Pattern(regex: Regex, token: Tagged)

  // ----- tokens on automata -----

  /** Every accepting state of the automaton awards the token. */
  function SetAcceptToken(nfa: Nfa, token: Tagged): Nfa {
    nfa.(accepts := map q | q in nfa.accepts :: Some(token))
  }

  lemma {:induction false} TokenSet(nfa: Nfa, token: Tagged, w: Word, t: Option<Tagged>)
    ensures Awards(SetAcceptToken(nfa, token), w, t) <==> t == Some(token) && Matches(nfa, w)
  {
    hide Reads;
    if t == Some(token) && Matches(nfa, w) {
      var p :| p in nfa.accepts && Reads(nfa.edges, nfa.init, w, p);
      assert p in SetAcceptToken(nfa, token).accepts;
    }
  }

  /** A deterministic automaton's transitions as the other kind's, every accepting state awarding the token. */
  function FromDfa(d: Dfa, token: Tagged): Nfa {
    Nfa(d.init, d.states, set k | k in d.delta :: Edge(k.0, Some(k.1), d.delta[k]), map q | q in d.accepts ::
      Some(token))
  }

  lemma {:induction false} FromDfaWalks(d: Dfa, token: Tagged, n: nat, q: State, w: Word, p: State)
    requires Walks(FromDfa(d, token).edges, n, q, w, p)
    ensures d.Run(q, w) == Some(p)
    decreases n
  {
    var edges := FromDfa(d, token).edges;
    if n > 0 {
      var e := FirstStep(edges, n, q, w, p);
      var b := e.on.value;
      assert d.Step(q, b) == Some(e.to);
      FromDfaWalks(d, token, n - 1, e.to, w[1..], p);
      d.RunByte(q, b);
      d.RunAppend(q, [b], w[1..]);
      assert [b] + w[1..] == w;
    }
  }

  lemma {:induction false} FromDfaReads(d: Dfa, token: Tagged, q: State, w: Word, p: State)
    requires d.Run(q, w) == Some(p)
    ensures Reads(FromDfa(d, token).edges, q, w, p)
  {
    var edges := FromDfa(d, token).edges;
    if w == [] {
      ReadsNothing(edges, q);
    } else {
      var front, b := w[..|w| - 1], w[|w| - 1];
      var r := d.Run(q, front).value;
      FromDfaReads(d, token, q, front, r);
      assert (r, b) in d.delta && Edge(r, Some(b), p) in edges;
      ReadsNothing(edges, p);
      ReadsEdge(edges, Edge(r, Some(b), p), [], p);
      assert [b] + [] == [b];
      ReadsThrough(edges, q, front, r, [b], p);
      assert front + [b] == w;
    }
  }

  lemma FromDfaValid(d: Dfa, token: Tagged)
    requires d.Valid()
    ensures FromDfa(d, token).Valid()
  {
  }

  lemma {:induction false} FromDfaAwards(d: Dfa, token: Tagged, w: Word, t: Option<Tagged>)
    ensures Awards(FromDfa(d, token), w, t) <==> t == Some(token) && d.Matches(w)
  {
    var nfa := FromDfa(d, token);
    hide Walks;
    if Awards(nfa, w, t) {
      var p :| p in nfa.accepts && nfa.accepts[p] == t && Reads(nfa.edges, nfa.init, w, p);
      var n: nat :| Walks(nfa.edges, n, d.init, w, p);
      FromDfaWalks(d, token, n, d.init, w, p);
    }
    if t == Some(token) && d.Matches(w) {
      var p := d.Run(d.init, w).value;
      FromDfaReads(d, token, d.init, w, p);
      assert p in nfa.accepts && nfa.accepts[p] == t;
    }
  }

  // ----- one pattern -----

  /** The automaton awards the pattern's token, on exactly the words the pattern matches. */
  ghost predicate AwardsPattern(nfa: Nfa, pattern: Pattern) {
    nfa.Valid() && forall w, t :: Awards(nfa, w, t) <==> t == Some(pattern.token) && Denotes(pattern.regex, w)
  }

  /** The pattern's automaton; nothing where the pattern cannot be lowered. */
  method AddToken(pattern: Pattern) returns (nfa: Option<Nfa>)
    ensures nfa.Some? <==> Lowerable(pattern.regex)
    ensures nfa.Some? ==> AwardsPattern(nfa.value, pattern)
  {
    nfa := ToNfa(pattern.regex);
    if nfa.Some? {
      var plain := nfa.value;
      hide Matches, Denotes, Awards;
      forall w, t
        ensures Awards(SetAcceptToken(plain, pattern.token), w, t) <==>
          t == Some(pattern.token) && Denotes(pattern.regex, w)
      {
        TokenSet(plain, pattern.token, w, t);
      }
      nfa := Some(SetAcceptToken(plain, pattern.token));
    }
  }

  lemma {:induction false} MatchesIsAwarded(nfa: Nfa, d: Dfa, w: Word)
    requires D.Agrees(nfa, d, w)
    ensures d.Matches(w) <==> exists t :: Awards(nfa, w, Some(t))
    ensures d.Matches(w) ==> exists t :: D.Awarded(nfa, w, Some(t)) && d.TokenOf(w) == t.id
  {
    hide Awards;
    match OutcomeFrom(d, d.init, w)
    case Undefined =>
      NothingAwarded(nfa, w);
    case Defined(token) =>
      var best :| D.Awarded(nfa, w, best) && token == D.IdOf(best);
      if best.Some? {
        assert Awards(nfa, w, Some(best.value));
      }
  }

  lemma {:induction false} NothingAwarded(nfa: Nfa, w: Word)
    requires !D.LeadsSomewhere(nfa, w)
    ensures forall t :: !Awards(nfa, w, t)
  {
    hide Reads;
  }

  lemma {:induction false} EquivalentMatches(d: Dfa, e: Dfa, w: Word)
    requires Equivalent(d, e)
    ensures d.Matches(w) <==> e.Matches(w)
    ensures d.Matches(w) ==> d.TokenOf(w) == e.TokenOf(w)
  {
    assert OutcomeFrom(d, d.init, w) == OutcomeFrom(e, e.init, w);
  }

  /** A pattern's automaton determinized, minimized and turned back. */
  method Lower(built: Nfa, pattern: Pattern) returns (nfa: Nfa)
    requires AwardsPattern(built, pattern)
    ensures AwardsPattern(nfa, pattern)
  {
    hide Awards, Denotes, D.Agrees, Equivalent;
    var determinized, walked := D.Determinized(built);
    var minimized := Minimized(determinized);
    nfa := FromDfa(minimized, pattern.token);
    FromDfaValid(minimized, pattern.token);
    forall w, t ensures Awards(nfa, w, t) <==> t == Some(pattern.token) && Denotes(pattern.regex, w) {
      FromDfaAwards(minimized, pattern.token, w, t);
      EquivalentMatches(minimized, determinized, w);
      MatchesIsAwarded(built, determinized, w);
      assert Awards(built, w, Some(pattern.token)) <==> Denotes(pattern.regex, w);
    }
  }

  // ----- all patterns -----

  /** Some pattern of the token matches the word. */
  ghost predicate Offered(patterns: seq<Pattern>, w: Word, t: Tagged) {
    exists i: nat :: i < |patterns| && patterns[i].token == t && Denotes(patterns[i].regex, w)
  }

  ghost predicate AwardsAll(nfa: Nfa, patterns: seq<Pattern>) {
    && nfa.Valid() && FreshStart(nfa)
    && (forall w, t :: Awards(nfa, w, Some(t)) <==> Offered(patterns, w, t))
    && forall w :: !Awards(nfa, w, None)
  }

  lemma {:induction false} MergePattern(nfa: Nfa, patterns: seq<Pattern>, other: Nfa, pattern: Pattern)
    requires AwardsAll(nfa, patterns) && AwardsPattern(other, pattern)
    ensures AwardsAll(Merge(nfa, other), patterns + [pattern])
  {
    MergeApart(nfa, other);
    hide Awards, Denotes, Merge, FreshStart, Nfa.Valid;
    var all := patterns + [pattern];
    forall w, t
      ensures Offered(all, w, t) <==> Offered(patterns, w, t) || (t == pattern.token && Denotes(pattern.regex, w))
    {
      if i: nat :| i < |patterns| && patterns[i].token == t && Denotes(patterns[i].regex, w) {
        assert all[i] == patterns[i];
      }
      assert all[|patterns|] == pattern;
    }
    hide Offered;
    forall w, t: Option<Tagged> ensures Awards(Merge(nfa, other), w, t) <==> Awards(nfa, w, t) || Awards(other, w, t) {
      MergeAwards(nfa, other, w, t);
    }
  }

  lemma BlankAwards()
    ensures AwardsAll(Blank(), [])
  {
  }

  /** Every pattern's automaton lowered and united under one start; nothing where a pattern cannot be lowered. */
  method MergedNfa(patterns: seq<Pattern>) returns (nfa: Option<Nfa>)
    ensures nfa.Some? <==> forall i: nat | i < |patterns| :: Lowerable(patterns[i].regex)
    ensures nfa.Some? ==> AwardsAll(nfa.value, patterns)
  {
    hide AwardsAll, AwardsPattern, Lowerable;
    nfa := Some(Blank());
    BlankAwards();
    for i := 0 to |patterns|
      invariant nfa.Some? && AwardsAll(nfa.value, patterns[..i])
      invariant forall j: nat | j < i :: Lowerable(patterns[j].regex)
    {
      var built := AddToken(patterns[i]);
      if built.None? {
        return None;
      }
      var lowered := Lower(built.value, patterns[i]);
      MergePattern(nfa.value, patterns[..i], lowered, patterns[i]);
      assert patterns[..i + 1] == patterns[..i] + [patterns[i]];
      nfa := Some(Merge(nfa.value, lowered));
    }
    assert patterns[..|patterns|] == patterns;
  }

  /**
    The pattern matches the word; no pattern that does has a token of a lower priority value, nor one
    of the same value and a lower identifier.
   */
  ghost predicate Wins(patterns: seq<Pattern>, w: Word, i: nat) {
    && i < |patterns| && Denotes(patterns[i].regex, w)
    && forall j: nat | j < |patterns| && Denotes(patterns[j].regex, w) ::
         && patterns[i].token.priority <= patterns[j].token.priority
         && (patterns[i].token.priority == patterns[j].token.priority ==>
               patterns[i].token.id <= patterns[j].token.id)
  }

  /** The word is matched where some pattern matches it, and its token is the winning pattern's. */
  ghost predicate Compiles(patterns: seq<Pattern>, d: Dfa, w: Word) {
    && (d.Matches(w) <==> exists i: nat :: i < |patterns| && Denotes(patterns[i].regex, w))
    && forall i: nat | Wins(patterns, w, i) :: d.Matches(w) && d.TokenOf(w) == patterns[i].token.id
  }

  /** Of the tokens of equal least priority and identifier there is one identifier. */
  lemma {:induction false} LeastId(patterns: seq<Pattern>, w: Word, i: nat, t: Tagged)
    requires Wins(patterns, w, i) && Offered(patterns, w, t)
    requires t.priority <= patterns[i].token.priority
    requires t.priority == patterns[i].token.priority ==> t.id <= patterns[i].token.id
    ensures t.id == patterns[i].token.id
  {
    hide Denotes;
  }

  lemma {:induction false} AwardsCompiles(nfa: Nfa, patterns: seq<Pattern>, d: Dfa, w: Word)
    requires AwardsAll(nfa, patterns) && D.Agrees(nfa, d, w)
    ensures Compiles(patterns, d, w)
  {
    MatchesIsAwarded(nfa, d, w);
    hide Awards, Denotes, D.Agrees, Dfa.Matches;
    forall i: nat | Wins(patterns, w, i) ensures d.Matches(w) && d.TokenOf(w) == patterns[i].token.id {
      assert Offered(patterns, w, patterns[i].token);
      assert Awards(nfa, w, Some(patterns[i].token));
      var t :| D.Awarded(nfa, w, Some(t)) && d.TokenOf(w) == t.id;
      LeastId(patterns, w, i, t);
    }
    if i: nat :| i < |patterns| && Denotes(patterns[i].regex, w) {
      assert Offered(patterns, w, patterns[i].token);
    }
  }

  lemma {:induction false} CompilesEquivalent(patterns: seq<Pattern>, d: Dfa, e: Dfa, w: Word)
    requires Compiles(patterns, e, w) && Equivalent(d, e)
    ensures Compiles(patterns, d, w)
  {
    EquivalentMatches(d, e, w);
    hide Denotes, Dfa.Matches, Equivalent;
  }

  /**
    Compiles patterns to one automaton: every word gets the token of the least
    priority, then identifier, among the patterns that match it, and no automaton
    of the same outcomes has fewer states.
   */
  method Compile(patterns: seq<Pattern>) returns (compiled: Option<Dfa>)
    ensures compiled.Some? <==> forall i: nat | i < |patterns| :: Lowerable(patterns[i].regex)
    ensures compiled.Some? ==> compiled.value.Valid() && forall w :: Compiles(patterns, compiled.value, w)
    ensures compiled.Some? ==> AllDistinct(compiled.value) && AllReached(compiled.value)
    ensures compiled.Some? ==> forall e: Dfa | e.Valid() && Equivalent(compiled.value, e) ::
      compiled.value.states <= e.states
  {
    hide AwardsAll, Lowerable, D.Agrees, Compiles, Equivalent, AllDistinct, AllReached, Dfa.Valid;
    var merged := MergedNfa(patterns);
    if merged.None? {
      return None;
    }
    AwardsAllValid(merged.value, patterns);
    var determinized, walked := D.Determinized(merged.value);
    var minimized := Minimized(determinized);
    forall w ensures Compiles(patterns, minimized, w) {
      AwardsCompiles(merged.value, patterns, determinized, w);
      CompilesEquivalent(patterns, minimized, determinized, w);
    }
    forall e: Dfa | e.Valid() && Equivalent(minimized, e) ensures minimized.states <= e.states {
      Fewest(minimized, e);
    }
    compiled := Some(minimized);
  }

  lemma AwardsAllValid(nfa: Nfa, patterns: seq<Pattern>)
    requires AwardsAll(nfa, patterns)
    ensures nfa.Valid()
  {
  }

  /** Where some pattern matches, some pattern wins. */
  lemma {:induction false} SomeWins(patterns: seq<Pattern>, w: Word, i: nat) returns (best: nat)
    requires i < |patterns| && Denotes(patterns[i].regex, w)
    ensures Wins(patterns, w, best)
  {
    hide Denotes;
    best := i;
    for j := 0 to |patterns|
      invariant best < |patterns| && Denotes(patterns[best].regex, w)
      invariant forall k: nat | k < j && Denotes(patterns[k].regex, w) ::
        !D.Less(patterns[k].token, patterns[best].token)
    {
      if Denotes(patterns[j].regex, w) && D.Less(patterns[j].token, patterns[best].token) {
        best := j;
      }
    }
  }

  // ----- diagnostics -----

  /** Some word's winning pattern has the identifier. */
  ghost predicate IsAwarded(patterns: seq<Pattern>, id: Token) {
    exists w, i: nat :: Wins(patterns, w, i) && patterns[i].token.id == id
  }

  /** A pattern of the identifier matches the word at the winning pattern's priority. */
  ghost predicate Minimal(patterns: seq<Pattern>, w: Word, id: Token) {
    exists i: nat, t ::
      Wins(patterns, w, i) && Offered(patterns, w, t) && t.priority == patterns[i].token.priority && t.id == id
  }

  /** Some word is matched at its winning priority by patterns of both identifiers. */
  ghost predicate Ties(patterns: seq<Pattern>, a: Token, b: Token) {
    a < b && exists w :: Minimal(patterns, w, a) && Minimal(patterns, w, b)
  }

  /** The tokens the members offer. */
  function CandidatesOf(nfa: Nfa, members: set<nat>): set<Tagged> {
    set p | p in members && p in nfa.accepts && nfa.accepts[p].Some? :: nfa.accepts[p].value
  }

  /** What a subset says of a word that leads to it. */
  ghost predicate Tells(patterns: seq<Pattern>, nfa: Nfa, members: set<nat>, w: Word) {
    forall t :: t in CandidatesOf(nfa, members) <==> Offered(patterns, w, t)
  }

  lemma {:induction false} LedToTells(nfa: Nfa, patterns: seq<Pattern>, w: Word, members: set<nat>)
    requires AwardsAll(nfa, patterns) && D.LedTo(nfa, w, members)
    ensures Tells(patterns, nfa, members, w)
  {
    forall t ensures t in CandidatesOf(nfa, members) <==> Offered(patterns, w, t) {
      D.OffersIsAwards(nfa, w, members, t);
      assert D.Offers(nfa, members, t) <==> t in CandidatesOf(nfa, members);
    }
  }

  /** The least of a word's candidates is its winning pattern's token. */
  lemma {:induction false} BestWins(patterns: seq<Pattern>, nfa: Nfa, members: set<nat>, w: Word, best: Option<Tagged>)
    requires Tells(patterns, nfa, members, w) && D.IsBest(nfa, members, best)
    ensures forall i: nat | Wins(patterns, w, i) :: best == Some(patterns[i].token)
    ensures best.Some? ==> exists i: nat :: Wins(patterns, w, i) && patterns[i].token == best.value
  {
    forall t ensures D.Offers(nfa, members, t) <==> Offered(patterns, w, t) {
      assert D.Offers(nfa, members, t) <==> t in CandidatesOf(nfa, members);
    }
    hide Denotes, D.Offers;
    forall i: nat | Wins(patterns, w, i) ensures best == Some(patterns[i].token) {
      assert Offered(patterns, w, patterns[i].token);
    }
    if best.Some? {
      var j: nat :| j < |patterns| && patterns[j].token == best.value && Denotes(patterns[j].regex, w);
      var i := SomeWins(patterns, w, j);
    }
  }

  /** The identifiers at the winning priority. */
  function MinimalIds(candidates: set<Tagged>, best: Tagged): set<Token> {
    set t | t in candidates && t.priority == best.priority :: t.id
  }

  function TiesAmong(ids: set<Token>): set<(Token, Token)> {
    set a, b | a in ids && b in ids && a < b :: (a, b)
  }

  lemma {:induction false} MinimalTells(
      patterns: seq<Pattern>, nfa: Nfa, members: set<nat>, w: Word, best: Option<Tagged>, id: Token)
    requires Tells(patterns, nfa, members, w) && D.IsBest(nfa, members, best)
    ensures Minimal(patterns, w, id) <==> best.Some? && id in MinimalIds(CandidatesOf(nfa, members), best.value)
  {
    BestWins(patterns, nfa, members, w, best);
    hide Wins, Offered, D.IsBest, CandidatesOf;
    if Minimal(patterns, w, id) {
      var i: nat, t :| Wins(patterns, w, i) && Offered(patterns, w, t) && t.priority == patterns[i].token.priority
        && t.id == id;
      assert t in CandidatesOf(nfa, members);
    }
    if best.Some? && id in MinimalIds(CandidatesOf(nfa, members), best.value) {
      var t :| t in CandidatesOf(nfa, members) && t.priority == best.value.priority && t.id == id;
      var i: nat :| Wins(patterns, w, i) && patterns[i].token == best.value;
      assert Offered(patterns, w, t);
    }
  }

  /** The winners and the ties of the subsets visited so far are those of the words leading to them. */
  ghost predicate Recorded(
      patterns: seq<Pattern>, nfa: Nfa, subsets: seq<set<nat>>, winners: set<Token>, ties: set<(Token, Token)>)
  {
    && (forall id: Token :: id in winners <==> exists k: nat :: k < |subsets| && BestIs(nfa, subsets[k], id))
    && forall a: Token, b: Token :: (a, b) in ties <==> exists k: nat :: k < |subsets| && TiesIn(nfa, subsets[k], a, b)
  }

  ghost predicate BestIs(nfa: Nfa, members: set<nat>, id: Token) {
    exists best :: D.IsBest(nfa, members, Some(best)) && best.id == id
  }

  ghost predicate TiesIn(nfa: Nfa, members: set<nat>, a: Token, b: Token) {
    exists best :: D.IsBest(nfa, members, Some(best)) && (a, b) in TiesAmong(MinimalIds(CandidatesOf(nfa, members),
      best))
  }

  lemma {:induction false} OneBest(nfa: Nfa, members: set<nat>, a: Option<Tagged>, b: Option<Tagged>)
    requires D.IsBest(nfa, members, a) && D.IsBest(nfa, members, b)
    ensures a == b
  {
    hide D.Offers;
  }

  lemma {:induction false} RecordedOne(
      patterns: seq<Pattern>, nfa: Nfa, subsets: seq<set<nat>>, winners: set<Token>, ties: set<(Token, Token)>,
      members: set<nat>, best: Option<Tagged>)
    requires Recorded(patterns, nfa, subsets, winners, ties) && D.IsBest(nfa, members, best)
    ensures Recorded(
      patterns, nfa, subsets + [members], winners + if best.Some? then {best.value.id} else {},
      ties + if best.Some? then TiesAmong(MinimalIds(CandidatesOf(nfa, members), best.value)) else {})
  {
    hide D.IsBest, CandidatesOf, TiesAmong, MinimalIds;
    var all := subsets + [members];
    forall id: Token ensures BestIs(nfa, members, id) <==> best.Some? && best.value.id == id {
      if other :| D.IsBest(nfa, members, Some(other)) && other.id == id {
        OneBest(nfa, members, best, Some(other));
      }
    }
    forall a: Token, b: Token ensures TiesIn(nfa, members, a, b) <==>
      best.Some? && (a, b) in TiesAmong(MinimalIds(CandidatesOf(nfa, members), best.value))
    {
      if other :| D.IsBest(nfa, members, Some(other)) && (a, b) in TiesAmong(MinimalIds(CandidatesOf(nfa, members),
        other)) {
        OneBest(nfa, members, best, Some(other));
      }
    }
    hide BestIs, TiesIn;
    assert forall k: nat | k < |subsets| :: all[k] == subsets[k];
    assert all[|subsets|] == members;
  }

  /** Over all the subsets words lead to, the records are exact. */
  lemma {:induction false} RecordsExact(
      patterns: seq<Pattern>, nfa: Nfa, subsets: seq<set<nat>>, winners: set<Token>, ties: set<(Token, Token)>,
      a: Token, b: Token)
    requires AwardsAll(nfa, patterns) && Recorded(patterns, nfa, subsets, winners, ties)
    requires forall i: nat | i < |subsets| :: D.IsLedTo(nfa, subsets[i])
    requires forall w | D.LeadsSomewhere(nfa, w) :: D.Visited(nfa, subsets, w)
    ensures a in winners <==> IsAwarded(patterns, a)
    ensures (a, b) in ties <==> Ties(patterns, a, b)
  {
    hide AwardsAll, D.IsBest, Wins, Minimal, CandidatesOf, TiesAmong, MinimalIds, D.LedTo;
    if a in winners {
      var k: nat :| k < |subsets| && BestIs(nfa, subsets[k], a);
      assert D.IsLedTo(nfa, subsets[k]);
      var w :| D.LedTo(nfa, w, subsets[k]);
      var best :| D.IsBest(nfa, subsets[k], Some(best)) && best.id == a;
      LedToTells(nfa, patterns, w, subsets[k]);
      BestWins(patterns, nfa, subsets[k], w, Some(best));
    }
    if IsAwarded(patterns, a) {
      var w, i := AwardingWord(patterns, a);
      var k, best := VisitedSubset(nfa, patterns, subsets, w, i);
      assert BestIs(nfa, subsets[k], a);
    }
    if (a, b) in ties {
      TieSound(patterns, nfa, subsets, winners, ties, a, b);
    }
    if Ties(patterns, a, b) {
      TieComplete(patterns, nfa, subsets, winners, ties, a, b);
    }
  }

  lemma {:induction false} AwardingWord(patterns: seq<Pattern>, id: Token) returns (w: Word, i: nat)
    requires IsAwarded(patterns, id)
    ensures Wins(patterns, w, i) && i < |patterns| && patterns[i].token.id == id
  {
    hide Denotes;
    w, i :| Wins(patterns, w, i) && patterns[i].token.id == id;
  }

  lemma {:induction false} TieSound(
      patterns: seq<Pattern>, nfa: Nfa, subsets: seq<set<nat>>, winners: set<Token>, ties: set<(Token, Token)>,
      a: Token, b: Token)
    requires AwardsAll(nfa, patterns) && Recorded(patterns, nfa, subsets, winners, ties) && (a, b) in ties
    requires forall i: nat | i < |subsets| :: D.IsLedTo(nfa, subsets[i])
    ensures Ties(patterns, a, b)
  {
    hide AwardsAll, D.IsBest, Minimal, CandidatesOf, MinimalIds, D.LedTo;
    var k: nat :| k < |subsets| && TiesIn(nfa, subsets[k], a, b);
    assert D.IsLedTo(nfa, subsets[k]);
    var w :| D.LedTo(nfa, w, subsets[k]);
    var best :| D.IsBest(nfa, subsets[k], Some(best))
      && (a, b) in TiesAmong(MinimalIds(CandidatesOf(nfa, subsets[k]), best));
    LedToTells(nfa, patterns, w, subsets[k]);
    MinimalTells(patterns, nfa, subsets[k], w, Some(best), a);
    MinimalTells(patterns, nfa, subsets[k], w, Some(best), b);
  }

  lemma {:induction false} TieComplete(
      patterns: seq<Pattern>, nfa: Nfa, subsets: seq<set<nat>>, winners: set<Token>, ties: set<(Token, Token)>,
      a: Token, b: Token)
    requires AwardsAll(nfa, patterns) && Recorded(patterns, nfa, subsets, winners, ties) && Ties(patterns, a, b)
    requires forall w | D.LeadsSomewhere(nfa, w) :: D.Visited(nfa, subsets, w)
    ensures (a, b) in ties
  {
    var w :| Minimal(patterns, w, a) && Minimal(patterns, w, b);
    var i: nat, t :| Wins(patterns, w, i) && Offered(patterns, w, t) && t.priority == patterns[i].token.priority
      && t.id == a;
    hide AwardsAll, D.IsBest, Wins, Minimal, Offered, CandidatesOf, MinimalIds, D.LedTo, Tells, Recorded, TiesIn;
    var k, best := VisitedSubset(nfa, patterns, subsets, w, i);
    TieTells(patterns, nfa, subsets[k], w, best, a, b);
    TieRecorded(patterns, nfa, subsets, winners, ties, k, a, b);
  }

  lemma {:induction false} TieTells(
      patterns: seq<Pattern>, nfa: Nfa, members: set<nat>, w: Word, best: Tagged, a: Token, b: Token)
    requires Tells(patterns, nfa, members, w) && D.IsBest(nfa, members, Some(best))
    requires a < b && Minimal(patterns, w, a) && Minimal(patterns, w, b)
    ensures TiesIn(nfa, members, a, b)
  {
    hide D.IsBest, Minimal, CandidatesOf, MinimalIds, Tells;
    MinimalTells(patterns, nfa, members, w, Some(best), a);
    MinimalTells(patterns, nfa, members, w, Some(best), b);
  }

  lemma {:induction false} TieRecorded(
      patterns: seq<Pattern>, nfa: Nfa, subsets: seq<set<nat>>, winners: set<Token>, ties: set<(Token, Token)>,
      k: nat, a: Token, b: Token)
    requires Recorded(patterns, nfa, subsets, winners, ties) && k < |subsets| && TiesIn(nfa, subsets[k], a, b)
    ensures (a, b) in ties
  {
    hide TiesIn, BestIs;
  }

  /** The subset a winning word leads to is visited, its best the winner's token. */
  lemma {:induction false} VisitedSubset(nfa: Nfa, patterns: seq<Pattern>, subsets: seq<set<nat>>, w: Word, i: nat)
    returns (k: nat, best: Tagged)
    requires AwardsAll(nfa, patterns) && Wins(patterns, w, i)
    requires forall w | D.LeadsSomewhere(nfa, w) :: D.Visited(nfa, subsets, w)
    ensures k < |subsets| && D.LedTo(nfa, w, subsets[k]) && Tells(patterns, nfa, subsets[k], w)
    ensures D.IsBest(nfa, subsets[k], Some(best)) && best == patterns[i].token
  {
    best := patterns[i].token;
    assert Offered(patterns, w, best) && Awards(nfa, w, Some(best));
    AwardedLeads(nfa, w, Some(best));
    assert D.Visited(nfa, subsets, w);
    hide D.LedTo, Awards;
    k :| k < |subsets| && D.LedTo(nfa, w, subsets[k]);
    LedToTells(nfa, patterns, w, subsets[k]);
    WinnerIsBest(patterns, nfa, subsets[k], w, i);
  }

  lemma {:induction false} AwardedLeads(nfa: Nfa, w: Word, t: Option<Tagged>)
    requires Awards(nfa, w, t)
    ensures D.LeadsSomewhere(nfa, w)
  {
    hide Reads;
  }

  lemma {:induction false} WinnerIsBest(patterns: seq<Pattern>, nfa: Nfa, members: set<nat>, w: Word, i: nat)
    requires Tells(patterns, nfa, members, w) && Wins(patterns, w, i)
    ensures D.IsBest(nfa, members, Some(patterns[i].token))
  {
    hide Denotes;
    forall t ensures D.Offers(nfa, members, t) <==> Offered(patterns, w, t) {
      assert D.Offers(nfa, members, t) <==> t in CandidatesOf(nfa, members);
    }
    hide D.Offers;
    assert Offered(patterns, w, patterns[i].token);
  }

  /** The identifiers awarded to no word, and those some word leaves tied. */
  datatype Diagnostics = Diagnostics(deadTokens: seq<Token>, equalPriorityTies: set<(Token, Token)>)

  /** The identifier is registered. */
  ghost predicate Registered(patterns: seq<Pattern>, id: Token) {
    exists i: nat :: i < |patterns| && patterns[i].token.id == id
  }

  /** Diagnoses the patterns: the tokens no input is ever awarded, and the ties some input leaves to the identifiers. */
  method Diagnose(patterns: seq<Pattern>) returns (found: Option<Diagnostics>)
    ensures found.Some? <==> forall i: nat | i < |patterns| :: Lowerable(patterns[i].regex)
    ensures found.Some? ==> forall id: Token ::
      id in found.value.deadTokens <==> Registered(patterns, id) && !IsAwarded(patterns, id)
    ensures found.Some? ==> forall a: Token, b: Token ::
      (a, b) in found.value.equalPriorityTies <==> Ties(patterns, a, b)
  {
    hide AwardsAll, Lowerable, D.Agrees, Recorded, IsAwarded, Ties, D.Interned, Outcomes.AllReached, Dfa.Valid;
    var merged := MergedNfa(patterns);
    if merged.None? {
      return None;
    }
    var nfa := merged.value;
    AwardsAllValid(nfa, patterns);
    var determinized, walked := D.Determinized(nfa);
    hide D.IsLedTo, D.Visited, D.LeadsSomewhere;
    var winners, ties := RecordSubsets(patterns, nfa, walked.subsets);
    forall a: Token, b: Token
      ensures (a in winners <==> IsAwarded(patterns, a)) && ((a, b) in ties <==> Ties(patterns, a, b))
    {
      RecordsExact(patterns, nfa, walked.subsets, winners, ties, a, b);
    }
    forall id: Token ensures id in winners <==> IsAwarded(patterns, id) {
      RecordsExact(patterns, nfa, walked.subsets, winners, ties, id, id);
    }
    var dead: seq<Token> := [];
    for i := 0 to |patterns|
      invariant forall id: Token :: id in dead <==> id !in winners && exists j: nat ::
        j < i && patterns[j].token.id == id
    {
      var id := patterns[i].token.id;
      if id !in winners && id !in dead {
        dead := dead + [id];
      }
    }
    found := Some(Diagnostics(dead, ties));
  }

  method RecordSubsets(ghost patterns: seq<Pattern>, nfa: Nfa, subsets: seq<set<nat>>)
    returns (winners: set<Token>, ties: set<(Token, Token)>)
    ensures Recorded(patterns, nfa, subsets, winners, ties)
  {
    hide D.IsBest, CandidatesOf;
    winners, ties := {}, {};
    NothingRecorded(patterns, nfa);
    hide Recorded;
    for k := 0 to |subsets|
      invariant Recorded(patterns, nfa, subsets[..k], winners, ties)
    {
      var best := D.AcceptOf(nfa, subsets[k]);
      RecordedOne(patterns, nfa, subsets[..k], winners, ties, subsets[k], best);
      assert subsets[..k + 1] == subsets[..k] + [subsets[k]];
      if best.Some? {
        winners := winners + {best.value.id};
        ties := ties + TiesAmong(MinimalIds(CandidatesOf(nfa, subsets[k]), best.value));
      } else {
        assert winners + {} == winners && ties + {} == ties;
      }
    }
    assert subsets[..|subsets|] == subsets;
  }

  lemma NothingRecorded(patterns: seq<Pattern>, nfa: Nfa)
    ensures Recorded(patterns, nfa, [], {}, {})
  {
  }
}

/** Patterns lowered to automata, each of exactly the pattern's language. */
module RegexLowering {
  import opened Options
  import opened Machine
  import opened Nfas
  import opened NfaBuilding
  import opened Regexes

  /**
    The pattern can be lowered: what is lowered of it holds no empty choice or sequence, and no
    range ends before it starts.
   */
  ghost predicate Lowerable(r: Regex)
    decreases r
  {
    match r
    case AnyOf(_) => true
    case Text(_) => true
    case Concat(regexes) => regexes != [] && forall i: nat | i < |regexes| :: Lowerable(regexes[i])
    case Choice(regexes) => regexes != [] && forall i: nat | i < |regexes| :: Lowerable(regexes[i])
    case Repeat(kind, regex) => Ordered(kind) && (NoCopies(kind) || Lowerable(regex))
  }

  ghost predicate Ordered(kind: Kind) {
    kind.Range? ==> kind.low <= kind.high
  }

  ghost predicate NoCopies(kind: Kind) {
    match kind
    case Exact(count) => count == 0
    case Range(_, high) => high == 0
    case _ => false
  }

  ghost predicate Recognizes(nfa: Nfa, r: Regex) {
    nfa.Valid() && forall w :: Matches(nfa, w) <==> Denotes(r, w)
  }

  /** The automaton matches the words of the patterns in turn. */
  ghost predicate RecognizesInTurn(nfa: Nfa, regexes: seq<Regex>) {
    nfa.Valid() && forall w :: Matches(nfa, w) <==> InTurn(regexes, w)
  }

  // ----- single steps and texts -----

  ghost predicate IsAnyOf(nfa: Nfa, symbols: set<Byte>) {
    && nfa.init == 0 && nfa.next == 2 && nfa.accepts.Keys == {1}
    && forall e :: e in nfa.edges <==> e.from == 0 && e.on.Some? && e.on.value in symbols && e.to == 1
  }

  lemma {:induction false} AnyOfMatches(nfa: Nfa, symbols: set<Byte>, w: Word)
    requires IsAnyOf(nfa, symbols)
    ensures Matches(nfa, w) <==> |w| == 1 && w[0] in symbols
  {
    if Matches(nfa, w) {
      var p :| p in nfa.accepts && Reads(nfa.edges, nfa.init, w, p);
      var n: nat :| Walks(nfa.edges, n, 0, w, p);
      var e := FirstStep(nfa.edges, n, 0, w, p);
      if n > 1 {
        var f := FirstStep(nfa.edges, n - 1, 1, w[1..], p);
      }
    }
    if |w| == 1 && w[0] in symbols {
      var e := Edge(0, Some(w[0]), 1);
      ReadsNothing(nfa.edges, 1);
      ReadsEdge(nfa.edges, e, [], 1);
      assert [w[0]] + [] == w;
      assert 1 in nfa.accepts;
    }
  }

  method LowerAnyOf(symbols: set<Byte>) returns (nfa: Nfa)
    ensures Recognizes(nfa, AnyOf(symbols))
  {
    var edges := set b | b in symbols :: Edge(0, Some(b), 1);
    nfa := Nfa(0, 2, edges, map[1 := None]);
    forall w ensures Matches(nfa, w) <==> Denotes(AnyOf(symbols), w) {
      AnyOfMatches(nfa, symbols, w);
    }
  }

  /** A transition from each state to the next on the text's bytes. */
  ghost predicate IsChain(edges: set<Edge>, text: Word) {
    forall e :: e in edges <==> e.from < |text| && e.on == Some(text[e.from]) && e.to == e.from + 1
  }

  lemma {:induction false} ChainReads(edges: set<Edge>, text: Word, n: nat, i: nat, w: Word)
    requires IsChain(edges, text) && i <= |text| && Walks(edges, n, i, w, |text|)
    ensures w == text[i..]
    decreases n
  {
    if n > 0 {
      var e := FirstStep(edges, n, i, w, |text|);
      ChainReads(edges, text, n - 1, i + 1, w[1..]);
      assert w == [w[0]] + w[1..] && text[i..] == [text[i]] + text[i + 1..];
    }
  }

  lemma {:induction false} ChainRead(edges: set<Edge>, text: Word, i: nat)
    requires IsChain(edges, text) && i <= |text|
    ensures Reads(edges, i, text[i..], |text|)
    decreases |text| - i
  {
    if i == |text| {
      ReadsNothing(edges, i);
    } else {
      ChainRead(edges, text, i + 1);
      ReadsEdge(edges, Edge(i, Some(text[i]), i + 1), text[i + 1..], |text|);
      assert text[i..] == [text[i]] + text[i + 1..];
    }
  }

  method LowerText(text: Word) returns (nfa: Nfa)
    ensures Recognizes(nfa, Text(text))
  {
    nfa := Blank();
    for i := 0 to |text|
      invariant nfa.init == 0 && nfa.next == i + 1 && nfa.accepts == map[] && IsChain(nfa.edges, text[..i])
    {
      nfa := nfa.(next := i + 2, edges := nfa.edges + {Edge(i, Some(text[i]), i + 1)});
    }
    nfa := Accepting(nfa, |text|);
    assert text[..|text|] == text && text[0..] == text;
    ChainRead(nfa.edges, text, 0);
    hide Reads;
    forall w ensures Matches(nfa, w) <==> w == text {
      if p :| p in nfa.accepts && Reads(nfa.edges, nfa.init, w, p) {
        ChainMatches(nfa.edges, text, w);
      }
      assert |text| in nfa.accepts;
    }
  }

  lemma {:induction false} ChainMatches(edges: set<Edge>, text: Word, w: Word)
    requires IsChain(edges, text) && Reads(edges, 0, w, |text|)
    ensures w == text
  {
    var n: nat :| Walks(edges, n, 0, w, |text|);
    ChainReads(edges, text, n, 0, w);
  }

  // ----- sequences -----

  lemma {:induction false} AppendInTurn(nfa: Nfa, regexes: seq<Regex>, other: Nfa, r: Regex)
    requires RecognizesInTurn(nfa, regexes) && Recognizes(other, r)
    ensures RecognizesInTurn(Append(nfa, other), regexes + [r])
  {
    hide Matches, Denotes, InTurn, Append, Nfa.Valid;
    forall w ensures Append(nfa, other).Valid() && (Matches(Append(nfa, other), w) <==> InTurn(regexes + [r], w)) {
      AppendMatches(nfa, other, w);
      InTurnSnoc(regexes, r, w);
      forall c: nat ensures MatchesSplit(nfa, other, w, c) <==> SplitInTurn(regexes, r, w, c) {
      }
      hide MatchesSplit, SplitInTurn;
    }
    AppendMatches(nfa, other, []);
  }

  lemma {:induction false} FirstInTurn(nfa: Nfa, r: Regex)
    requires Recognizes(nfa, r)
    ensures RecognizesInTurn(nfa, [r])
  {
    hide Matches, Denotes, InTurn;
    forall w ensures InTurn([r], w) <==> Denotes(r, w) {
      InTurnSnoc([], r, w);
      assert [] + [r] == [r];
      OneInTurn(r, w);
    }
  }

  lemma {:induction false} OneInTurn(r: Regex, w: Word)
    ensures (exists c: nat :: SplitInTurn([], r, w, c)) <==> Denotes(r, w)
  {
    hide Denotes;
    if c: nat :| SplitInTurn([], r, w, c) {
      NothingInTurn(w[..c]);
      assert w[c..] == w;
    }
    if Denotes(r, w) {
      NothingInTurn(w[..0]);
      assert w[0..] == w;
      assert SplitInTurn([], r, w, 0);
    }
  }

  /** One accepting state: no copies at all. */
  function Start(): Nfa {
    Accepting(Blank(), 0)
  }

  lemma {:induction false} StartInTurn()
    ensures RecognizesInTurn(Start(), [])
  {
    forall w ensures Matches(Start(), w) <==> InTurn([], w) {
      NothingInTurn(w);
      if Matches(Start(), w) {
        var n: nat :| Walks({}, n, 0, w, 0);
      }
      ReadsNothing({}, 0);
      assert 0 in Start().accepts;
    }
  }

  method LowerConcat(regexes: seq<Regex>) returns (nfa: Option<Nfa>)
    ensures nfa.Some? <==> Lowerable(Concat(regexes))
    ensures nfa.Some? ==> Recognizes(nfa.value, Concat(regexes))
    decreases Concat(regexes), 0
  {
    hide Recognizes, RecognizesInTurn;
    if regexes == [] {
      return None;
    }
    nfa := ToNfa(regexes[0]);
    if nfa.None? {
      return;
    }
    FirstInTurn(nfa.value, regexes[0]);
    assert [regexes[0]] == regexes[..1];
    for i := 1 to |regexes|
      invariant nfa.Some? && RecognizesInTurn(nfa.value, regexes[..i])
      invariant forall j: nat | j < i :: Lowerable(regexes[j])
    {
      var next := ToNfa(regexes[i]);
      if next.None? {
        return None;
      }
      AppendInTurn(nfa.value, regexes[..i], next.value, regexes[i]);
      assert regexes[..i + 1] == regexes[..i] + [regexes[i]];
      nfa := Some(Append(nfa.value, next.value));
    }
    assert regexes[..|regexes|] == regexes;
    ConcatRecognized(nfa.value, regexes);
  }

  lemma {:induction false} ConcatRecognized(nfa: Nfa, regexes: seq<Regex>)
    requires RecognizesInTurn(nfa, regexes)
    ensures Recognizes(nfa, Concat(regexes))
  {
    hide Matches, Denotes, InTurn;
    forall w ensures Matches(nfa, w) <==> Denotes(Concat(regexes), w) {
      ConcatInTurn(regexes, w);
    }
  }

  // ----- choices -----

  ghost predicate RecognizesSome(nfa: Nfa, regexes: seq<Regex>) {
    nfa.Valid() && FreshStart(nfa) && forall w :: Matches(nfa, w) <==> exists i: nat ::
      i < |regexes| && Denotes(regexes[i], w)
  }

  lemma {:induction false} MergeSome(nfa: Nfa, regexes: seq<Regex>, other: Nfa, r: Regex)
    requires RecognizesSome(nfa, regexes) && Recognizes(other, r)
    ensures RecognizesSome(Merge(nfa, other), regexes + [r])
  {
    MergeApart(nfa, other);
    hide Matches, Denotes, Merge, FreshStart, Nfa.Valid;
    var all := regexes + [r];
    forall w ensures Matches(Merge(nfa, other), w) <==> exists i: nat :: i < |all| && Denotes(all[i], w) {
      MergeMatches(nfa, other, w);
      if i: nat :| i < |regexes| && Denotes(regexes[i], w) {
        assert Denotes(all[i], w);
      }
      assert all[|regexes|] == r;
    }
  }

  method LowerChoice(regexes: seq<Regex>) returns (nfa: Option<Nfa>)
    ensures nfa.Some? <==> Lowerable(Choice(regexes))
    ensures nfa.Some? ==> Recognizes(nfa.value, Choice(regexes))
    decreases Choice(regexes), 0
  {
    if regexes == [] {
      return None;
    }
    if |regexes| == 1 {
      nfa := ToNfa(regexes[0]);
      if nfa.Some? {
        OneChoice(nfa.value, regexes);
      }
      return;
    }
    nfa := Some(Blank());
    BlankSome();
    hide Recognizes, RecognizesSome;
    for i := 0 to |regexes|
      invariant nfa.Some? && RecognizesSome(nfa.value, regexes[..i])
      invariant forall j: nat | j < i :: Lowerable(regexes[j])
    {
      var next := ToNfa(regexes[i]);
      if next.None? {
        return None;
      }
      MergeSome(nfa.value, regexes[..i], next.value, regexes[i]);
      assert regexes[..i + 1] == regexes[..i] + [regexes[i]];
      nfa := Some(Merge(nfa.value, next.value));
    }
    assert regexes[..|regexes|] == regexes;
    ChoiceRecognized(nfa.value, regexes);
  }

  lemma {:induction false} OneChoice(nfa: Nfa, regexes: seq<Regex>)
    requires |regexes| == 1 && Recognizes(nfa, regexes[0])
    ensures Recognizes(nfa, Choice(regexes))
  {
    hide Matches;
    forall w ensures Denotes(Choice(regexes), w) <==> Denotes(regexes[0], w) {
    }
  }

  lemma BlankSome()
    ensures RecognizesSome(Blank(), [])
  {
  }

  lemma {:induction false} ChoiceRecognized(nfa: Nfa, regexes: seq<Regex>)
    requires RecognizesSome(nfa, regexes)
    ensures Recognizes(nfa, Choice(regexes))
  {
    hide Matches;
  }

  // ----- repetitions -----

  /** Copies of a pattern appended one after another. */
  method AppendCopies(nfa0: Nfa, regex: Regex, copies: nat, ghost before: nat) returns (nfa: Option<Nfa>)
    requires RecognizesInTurn(nfa0, Copies(regex, before))
    ensures nfa.Some? <==> copies == 0 || Lowerable(regex)
    ensures nfa.Some? ==> RecognizesInTurn(nfa.value, Copies(regex, before + copies))
    decreases regex, 2
  {
    hide RecognizesInTurn, Recognizes, Lowerable;
    nfa := Some(nfa0);
    for copy := 0 to copies
      invariant nfa.Some? && RecognizesInTurn(nfa.value, Copies(regex, before + copy))
      invariant copy > 0 ==> Lowerable(regex)
    {
      var body := ToNfa(regex);
      if body.None? {
        return None;
      }
      AppendInTurn(nfa.value, Copies(regex, before + copy), body.value, regex);
      CopiesSnoc(regex, before + copy);
      nfa := Some(Append(nfa.value, body.value));
    }
  }

  lemma {:induction false} EachIsCopies(nfa: Nfa, r: Regex, parts: seq<Word>)
    requires Recognizes(nfa, r)
    ensures MatchesEach(nfa, parts) <==> Parted(Copies(r, |parts|), parts)
  {
    hide Matches, Denotes;
    if Parted(Copies(r, |parts|), parts) {
      forall i: nat | i < |parts| ensures Matches(nfa, parts[i]) {
        assert Denotes(Copies(r, |parts|)[i], parts[i]);
      }
    }
  }

  /** The parts of a turn-wise match are a number of copies. */
  lemma {:induction false} TurnsAreCopies(nfa: Nfa, r: Regex, w: Word, least: nat)
    requires Recognizes(nfa, r)
    ensures (exists parts :: |parts| >= least && MatchesEach(nfa, parts) && Flat(parts) == w)
       <==> exists n: nat :: n >= least && InTurn(Copies(r, n), w)
  {
    hide Recognizes, MatchesEach, Denotes, Parted, Copies;
    if parts :| |parts| >= least && MatchesEach(nfa, parts) && Flat(parts) == w {
      EachIsCopies(nfa, r, parts);
      assert InTurn(Copies(r, |parts|), w);
    }
    if n: nat :| n >= least && InTurn(Copies(r, n), w) {
      var parts :| Parted(Copies(r, n), parts) && Flat(parts) == w;
      PartedLength(r, n, parts);
      EachIsCopies(nfa, r, parts);
    }
  }

  lemma PartedLength(r: Regex, n: nat, parts: seq<Word>)
    requires Parted(Copies(r, n), parts)
    ensures |parts| == n
  {
  }

  /** A loop over any body matches one copy or more. */
  lemma {:induction false} LoopRecognizes(nfa: Nfa, r: Regex, w: Word)
    requires Recognizes(nfa, r)
    ensures Matches(LoopBack(nfa), w) <==> exists n: nat :: n >= 1 && InTurn(Copies(r, n), w)
  {
    LoopMatches(nfa, w);
    TurnsAreCopies(nfa, r, w, 1);
    hide Recognizes, MatchesEach, InTurn, Matches;
    if parts :| parts != [] && MatchesEach(nfa, parts) && Flat(parts) == w {
      assert |parts| >= 1;
    }
  }

  lemma LoopValid(nfa: Nfa)
    requires nfa.Valid()
    ensures LoopBack(nfa).Valid()
  {
  }

  /** A new start changes no word of the body. */
  lemma {:induction false} PrependRecognizes(nfa: Nfa, r: Regex)
    requires Recognizes(nfa, r)
    ensures Recognizes(PrependInit(nfa), r)
  {
    PrependValid(nfa);
    hide Reads;
    forall w ensures Matches(PrependInit(nfa), w) <==> Matches(nfa, w) {
      if p :| p in nfa.accepts && Reads(PrependInit(nfa).edges, nfa.next, w, p) {
        PrependReads(nfa, w, p);
      }
      if p :| p in nfa.accepts && Reads(nfa.edges, nfa.init, w, p) {
        PrependReads(nfa, w, p);
      }
    }
  }

  method LowerKleene(regex: Regex) returns (nfa: Option<Nfa>)
    ensures nfa.Some? <==> Lowerable(regex)
    ensures nfa.Some? ==> Recognizes(nfa.value, Repeat(Kleene, regex))
    decreases regex, 2
  {
    hide Lowerable, Denotes, Matches;
    var body := ToNfa(regex);
    if body.None? {
      return None;
    }
    var prepended := PrependInit(body.value);
    PrependRecognizes(body.value, regex);
    PrependValid(body.value);
    nfa := Some(Accepting(LoopBack(prepended), prepended.init));
    forall w ensures Matches(nfa.value, w) <==> Denotes(Repeat(Kleene, regex), w) {
      StarMatches(prepended, w);
      TurnsAreCopies(prepended, regex, w, 0);
      RepeatInTurn(Kleene, regex, w);
      StarIsRepeated(prepended, regex, w);
    }
  }

  lemma {:induction false} StarIsRepeated(nfa: Nfa, r: Regex, w: Word)
    ensures (exists parts :: |parts| >= 0 && MatchesEach(nfa, parts) && Flat(parts) == w)
       <==> exists parts :: MatchesEach(nfa, parts) && Flat(parts) == w
    ensures (exists n: nat :: n >= 0 && InTurn(Copies(r, n), w)) <==> Repeated(Kleene, r, w)
  {
    hide MatchesEach, InTurn;
    if parts :| MatchesEach(nfa, parts) && Flat(parts) == w {
      assert |parts| >= 0;
    }
    if n: nat :| Takes(Kleene, n) && InTurn(Copies(r, n), w) {
      assert n >= 0;
    }
    if n: nat :| n >= 0 && InTurn(Copies(r, n), w) {
      assert Takes(Kleene, n);
    }
  }

  lemma {:induction false} RepeatedFrom(kind: Kind, r: Regex, w: Word, least: nat)
    requires forall n: nat :: Takes(kind, n) <==> n >= least
    ensures (exists n: nat :: n >= least && InTurn(Copies(r, n), w)) <==> Repeated(kind, r, w)
  {
    hide InTurn;
    if n: nat :| n >= least && InTurn(Copies(r, n), w) {
      assert Takes(kind, n);
    }
  }

  method LowerPlus(regex: Regex) returns (nfa: Option<Nfa>)
    ensures nfa.Some? <==> Lowerable(regex)
    ensures nfa.Some? ==> Recognizes(nfa.value, Repeat(Plus, regex))
    decreases regex, 2
  {
    hide Lowerable, Denotes, Matches;
    var body := ToNfa(regex);
    if body.None? {
      return None;
    }
    var prepended := PrependInit(body.value);
    PrependRecognizes(body.value, regex);
    PrependValid(body.value);
    LoopValid(prepended);
    nfa := Some(LoopBack(prepended));
    forall w ensures Matches(nfa.value, w) <==> Denotes(Repeat(Plus, regex), w) {
      LoopRecognizes(prepended, regex, w);
      RepeatInTurn(Plus, regex, w);
      RepeatedFrom(Plus, regex, w, 1);
    }
  }

  method LowerOptional(regex: Regex) returns (nfa: Option<Nfa>)
    ensures nfa.Some? <==> Lowerable(regex)
    ensures nfa.Some? ==> Recognizes(nfa.value, Repeat(Optional, regex))
    decreases regex, 2
  {
    hide Lowerable, Denotes, Matches;
    var body := ToNfa(regex);
    if body.None? {
      return None;
    }
    var prepended := PrependInit(body.value);
    PrependRecognizes(body.value, regex);
    PrependValid(body.value);
    nfa := Some(Accepting(prepended, prepended.init));
    forall w ensures Matches(nfa.value, w) <==> Denotes(Repeat(Optional, regex), w) {
      OptionalMatches(prepended, w);
      RepeatInTurn(Optional, regex, w);
      OptionalIsRepeated(regex, w);
    }
  }

  lemma {:induction false} OptionalMatches(nfa: Nfa, w: Word)
    requires FreshStart(nfa)
    ensures Matches(Accepting(nfa, nfa.init), w) <==> Matches(nfa, w) || w == []
  {
    var all := Accepting(nfa, nfa.init);
    hide Walks;
    if Matches(all, w) {
      var p :| p in all.accepts && Reads(all.edges, nfa.init, w, p);
      if p == nfa.init {
        var n: nat :| Walks(nfa.edges, n, nfa.init, w, nfa.init);
        FreshReadsNothing(nfa, n, nfa.init, w);
      }
    }
    if Matches(nfa, w) {
      var p :| p in nfa.accepts && Reads(nfa.edges, nfa.init, w, p);
      assert p in all.accepts;
    }
    ReadsNothing(nfa.edges, nfa.init);
    assert nfa.init in all.accepts;
  }

  lemma {:induction false} OptionalIsRepeated(r: Regex, w: Word)
    ensures Repeated(Optional, r, w) <==> Denotes(r, w) || w == []
  {
    hide Denotes;
    assert Copies(r, 0) == [] && Copies(r, 1) == [] + [r];
    NothingInTurn(w);
    InTurnSnoc([], r, w);
    OneInTurn(r, w);
    hide InTurn, Copies;
    assert Takes(Optional, 0) && Takes(Optional, 1);
    if n: nat :| Takes(Optional, n) && InTurn(Copies(r, n), w) {
      assert n == 0 || n == 1;
    }
  }

  method LowerExact(regex: Regex, count: nat) returns (nfa: Option<Nfa>)
    ensures nfa.Some? <==> count == 0 || Lowerable(regex)
    ensures nfa.Some? ==> Recognizes(nfa.value, Repeat(Exact(count), regex))
    decreases regex, 3
  {
    hide Lowerable, Denotes, Matches, InTurn;
    StartInTurn();
    assert Copies(regex, 0) == [];
    nfa := AppendCopies(Start(), regex, count, 0);
    if nfa.Some? {
      forall w ensures Matches(nfa.value, w) <==> Denotes(Repeat(Exact(count), regex), w) {
        RepeatInTurn(Exact(count), regex, w);
        assert Takes(Exact(count), count);
      }
    }
  }

  method LowerAtLeast(regex: Regex, min: nat) returns (nfa: Option<Nfa>)
    ensures nfa.Some? <==> Lowerable(regex)
    ensures nfa.Some? ==> Recognizes(nfa.value, Repeat(AtLeast(min), regex))
    decreases regex, 3
  {
    hide Lowerable, Denotes, Matches, InTurn;
    if min == 0 {
      nfa := LowerKleene(regex);
      if nfa.Some? {
        KleeneIsAtLeast(nfa.value, regex);
      }
      return;
    }
    StartInTurn();
    assert Copies(regex, 0) == [];
    var plain := AppendCopies(Start(), regex, min - 1, 0);
    if plain.None? {
      return None;
    }
    var body := ToNfa(regex);
    if body.None? {
      return None;
    }
    var loop := LoopBack(body.value);
    LoopValid(body.value);
    nfa := Some(Append(plain.value, loop));
    AppendMatches(plain.value, loop, []);
    forall w ensures Matches(nfa.value, w) <==> Denotes(Repeat(AtLeast(min), regex), w) {
      AtLeastMatches(plain.value, body.value, regex, min, w);
    }
  }

  lemma {:induction false} KleeneIsAtLeast(nfa: Nfa, r: Regex)
    requires Recognizes(nfa, Repeat(Kleene, r))
    ensures Recognizes(nfa, Repeat(AtLeast(0), r))
  {
    hide Matches, Denotes, InTurn;
    forall w ensures Denotes(Repeat(AtLeast(0), r), w) <==> Denotes(Repeat(Kleene, r), w) {
      RepeatInTurn(Kleene, r, w);
      RepeatInTurn(AtLeast(0), r, w);
      RepeatedFrom(Kleene, r, w, 0);
      RepeatedFrom(AtLeast(0), r, w, 0);
    }
  }

  lemma {:induction false} AtLeastMatches(plain: Nfa, body: Nfa, r: Regex, min: nat, w: Word)
    requires min > 0 && RecognizesInTurn(plain, Copies(r, min - 1)) && Recognizes(body, r)
    ensures Matches(Append(plain, LoopBack(body)), w) <==> Denotes(Repeat(AtLeast(min), r), w)
  {
    hide Matches, Denotes, InTurn, Copies, Append;
    LoopValid(body);
    var loop := LoopBack(body);
    AppendMatches(plain, loop, w);
    RepeatInTurn(AtLeast(min), r, w);
    if c: nat :| MatchesSplit(plain, loop, w, c) {
      LoopRecognizes(body, r, w[c..]);
      var n: nat :| n >= 1 && InTurn(Copies(r, n), w[c..]);
      CopiesJoin(r, min - 1, n, w[..c], w[c..]);
      assert w[..c] + w[c..] == w;
      assert Takes(AtLeast(min), min - 1 + n);
    }
    if n: nat :| Takes(AtLeast(min), n) && InTurn(Copies(r, n), w) {
      var c := CopiesSplit(r, min - 1, n - (min - 1), w);
      LoopRecognizes(body, r, w[c..]);
      assert MatchesSplit(plain, loop, w, c);
    }
  }

  // ----- ranges -----

  /** Some state of the set is reached on the word exactly where it is a number of copies within the bounds. */
  ghost predicate PendingReads(nfa: Nfa, pending: set<nat>, r: Regex, low: nat, high: nat) {
    && (forall p | p in pending :: p < nfa.next)
    && forall w :: Leads(nfa.edges, nfa.init, pending, w) <==> CopiesWithin(r, low, high, w)
  }

  /** Some number of copies from the first bound on and below the second. */
  ghost predicate CopiesWithin(r: Regex, low: nat, high: nat, w: Word) {
    exists n: nat :: low <= n < high && InTurn(Copies(r, n), w)
  }

  lemma {:induction false} PendingMore(nfa: Nfa, pending: set<nat>, r: Regex, low: nat, high: nat, w: Word)
    requires PendingReads(nfa, pending, r, low, high) && low <= high && RecognizesInTurn(nfa, Copies(r, high))
    ensures Leads(nfa.edges, nfa.init, pending + nfa.accepts.Keys, w) <==> CopiesWithin(r, low, high + 1, w)
  {
    hide InTurn, Copies, Reads;
    var all := pending + nfa.accepts.Keys;
    assert Leads(nfa.edges, nfa.init, all, w) <==> Leads(nfa.edges, nfa.init, pending, w) || Matches(nfa, w) by {
      if p :| p in pending && Reads(nfa.edges, nfa.init, w, p) {
        assert p in all;
      }
      if p :| p in nfa.accepts && Reads(nfa.edges, nfa.init, w, p) {
        assert p in all;
      }
    }
    assert Leads(nfa.edges, nfa.init, pending, w) <==> CopiesWithin(r, low, high, w);
    hide Matches, Leads;
    if n: nat :| low <= n < high && InTurn(Copies(r, n), w) {
      assert low <= n < high + 1;
    }
  }

  /** The pending states after one copy more. */
  lemma {:induction false} PendingAppended(nfa: Nfa, other: Nfa, pending: set<nat>, r: Regex, low: nat, high: nat)
    requires PendingReads(nfa, pending, r, low, high) && low <= high && RecognizesInTurn(nfa, Copies(r, high))
    requires other.Valid()
    ensures PendingReads(Append(nfa, other), pending + nfa.accepts.Keys, r, low, high + 1)
  {
    var all, more := Append(nfa, other), pending + nfa.accepts.Keys;
    AppendApart(nfa, other);
    hide Apart, Reads, CopiesWithin, Copies, InTurn, Spliced, ShiftedAccepts, ShiftedEdges;
    forall w ensures Leads(all.edges, all.init, more, w) <==> CopiesWithin(r, low, high + 1, w) {
      PendingMore(nfa, pending, r, low, high, w);
      forall p | p in more ensures Reads(all.edges, all.init, w, p) <==> Reads(nfa.edges, nfa.init, w, p) {
        AppendKeeps(nfa, other, w, p);
      }
    }
  }

  /** The states reached after each copy made accepting. */
  function AllAccepting(nfa: Nfa, pending: set<nat>): Nfa {
    nfa.(accepts := nfa.accepts + map q | q in pending :: None)
  }

  method LowerRange(regex: Regex, low: nat, high: nat) returns (nfa: Option<Nfa>)
    requires low <= high
    ensures nfa.Some? <==> high == 0 || Lowerable(regex)
    ensures nfa.Some? ==> Recognizes(nfa.value, Repeat(Range(low, high), regex))
    decreases regex, 3
  {
    hide Lowerable, Denotes, Matches, InTurn, Recognizes, RecognizesInTurn, PendingReads, Append, Copies, AllAccepting,
      Nfa.Valid;
    StartInTurn();
    assert Copies(regex, 0) == [];
    nfa := AppendCopies(Start(), regex, low, 0);
    if nfa.None? {
      return;
    }
    var pending: set<nat> := {};
    NonePending(nfa.value, regex, low);
    for copy := low to high
      invariant nfa.Some? && RecognizesInTurn(nfa.value, Copies(regex, copy))
      invariant PendingReads(nfa.value, pending, regex, low, copy)
      invariant copy > 0 ==> Lowerable(regex)
    {
      var reached := nfa.value.accepts.Keys;
      var body := ToNfa(regex);
      if body.None? {
        return None;
      }
      AppendInTurn(nfa.value, Copies(regex, copy), body.value, regex);
      CopiesSnoc(regex, copy);
      RecognizedValid(body.value, regex);
      PendingAppended(nfa.value, body.value, pending, regex, low, copy);
      pending := pending + reached;
      nfa := Some(Append(nfa.value, body.value));
    }
    RangeRecognized(nfa.value, pending, regex, low, high);
    nfa := Some(AllAccepting(nfa.value, pending));
  }

  lemma RecognizedValid(nfa: Nfa, r: Regex)
    requires Recognizes(nfa, r)
    ensures nfa.Valid()
  {
  }

  lemma {:induction false} NonePending(nfa: Nfa, r: Regex, low: nat)
    ensures PendingReads(nfa, {}, r, low, low)
  {
    forall w ensures !CopiesWithin(r, low, low, w) {
    }
  }

  lemma {:induction false} RangeRecognized(nfa: Nfa, pending: set<nat>, r: Regex, low: nat, high: nat)
    requires RecognizesInTurn(nfa, Copies(r, high)) && PendingReads(nfa, pending, r, low, high) && low <= high
    ensures Recognizes(AllAccepting(nfa, pending), Repeat(Range(low, high), r))
  {
    var all := AllAccepting(nfa, pending);
    assert all.Valid();
    hide Nfa.Valid, InTurn, Copies, Reads, Denotes;
    forall w ensures Matches(all, w) <==> Denotes(Repeat(Range(low, high), r), w) {
      PendingMore(nfa, pending, r, low, high, w);
      assert all.accepts.Keys == pending + nfa.accepts.Keys;
      assert Matches(all, w) <==> Leads(nfa.edges, nfa.init, pending + nfa.accepts.Keys, w);
      RepeatInTurn(Range(low, high), r, w);
      WithinIsRepeated(r, low, high, w);
    }
  }

  lemma {:induction false} WithinIsRepeated(r: Regex, low: nat, high: nat, w: Word)
    ensures CopiesWithin(r, low, high + 1, w) <==> Repeated(Range(low, high), r, w)
  {
    hide InTurn, Copies;
    if n: nat :| low <= n < high + 1 && InTurn(Copies(r, n), w) {
      assert Takes(Range(low, high), n);
    }
    if n: nat :| Takes(Range(low, high), n) && InTurn(Copies(r, n), w) {
      assert low <= n < high + 1;
    }
  }

  // ----- lowering -----

  method LowerRepeat(kind: Kind, regex: Regex) returns (nfa: Option<Nfa>)
    ensures nfa.Some? <==> Lowerable(Repeat(kind, regex))
    ensures nfa.Some? ==> Recognizes(nfa.value, Repeat(kind, regex))
    decreases regex, 4
  {
    hide Recognizes;
    match kind
    case Kleene => nfa := LowerKleene(regex);
    case Plus => nfa := LowerPlus(regex);
    case Optional => nfa := LowerOptional(regex);
    case Exact(count) => nfa := LowerExact(regex, count);
    case AtLeast(min) => nfa := LowerAtLeast(regex, min);
    case Range(low, high) =>
      if high < low {
        return None;
      }
      nfa := LowerRange(regex, low, high);
  }

  /**
    The automaton of a pattern; nothing where a choice or a sequence to lower is empty or a range
    ends before it starts.
   */
  method ToNfa(regex: Regex) returns (nfa: Option<Nfa>)
    ensures nfa.Some? <==> Lowerable(regex)
    ensures nfa.Some? ==> Recognizes(nfa.value, regex)
    decreases regex, 1
  {
    match regex
    case AnyOf(symbols) =>
      var lowered := LowerAnyOf(symbols);
      nfa := Some(lowered);
    case Text(text) =>
      var lowered := LowerText(text);
      nfa := Some(lowered);
    case Concat(regexes) => nfa := LowerConcat(regexes);
    case Choice(regexes) => nfa := LowerChoice(regexes);
    case Repeat(kind, inner) => nfa := LowerRepeat(kind, inner);
  }
}

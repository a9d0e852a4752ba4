/**
  The trie-chain verifier: its states are compressed configurations, and it accepts exactly the two-
  mode segmentations.
 */
module TrieExploration {
  import opened Options
  import opened Machine
  import opened Suffixes
  import opened TrieChain
  import G = GuessedMarking
  import V = Verifiers
  import E = Explorations
  import A = ArmedRun

  type Table = V.Verifier<G.Marked>

  function Unread(): Compressed {
    Compressed(Run(First, []), 0)
  }

  /** One marked byte, from a compressed state to the next. */
  function Step(v: Vocabulary, state: Compressed, m: G.Marked): Option<Compressed> {
    match ReadMarked(v, RunsOf(v, state), m)
    case None => None
    case Some(runs) => Some(StateOf(runs))
  }

  function StepOf(v: Vocabulary): (Compressed, G.Marked) -> Option<Compressed> {
    (state, m) => Step(v, state, m)
  }

  function Symbols(): set<G.Marked> {
    set b: Byte, closes: bool | 0 <= b < 256 :: G.Marked(b, closes)
  }

  /** The state compresses the configuration of some alive marking. */
  ghost predicate Kept(v: Vocabulary, state: Compressed) {
    exists s, cuts :: KeptBy(v, state, s, cuts)
  }

  ghost predicate KeptBy(v: Vocabulary, state: Compressed, s: Word, cuts: seq<nat>) {
    Alive(v, s, cuts) && state == StateOf(Configuration(v, s, cuts))
  }

  ghost function KeptOf(v: Vocabulary): Compressed -> bool {
    state => Kept(v, state)
  }

  // ----- finitely many states -----

  ghost function NodesOf(v: Vocabulary, mode: Mode): set<Word> {
    {[]} + set t, n | t in v.Tokens(mode) && 0 <= n <= |t| :: t[..n]
  }

  ghost function Tails(v: Vocabulary): set<Run> {
    (set w | w in NodesOf(v, First) :: Run(First, w)) + (set w | w in NodesOf(v, Later) :: Run(Later, w))
  }

  ghost function Universe(v: Vocabulary): set<Compressed> {
    set tail, began | tail in Tails(v) && 0 <= began <= |tail.word| :: Compressed(tail, began)
  }

  lemma {:induction false} NodeInTails(v: Vocabulary, mode: Mode, w: Word)
    requires v.IsNode(mode, w)
    ensures Run(mode, w) in Tails(v)
  {
    if w != [] {
      var t :| t in v.Tokens(mode) && w <= t;
      assert t[..|w|] == w;
    }
  }

  /** The state's tail begins a token. */
  lemma {:induction false} KeptInUniverse(v: Vocabulary, state: Compressed)
    requires Kept(v, state)
    ensures state in Universe(v)
  {
    var s: Word, cuts: seq<nat> :| KeptBy(v, state, s, cuts);
    var armed := ArmedFrom(v, s, cuts, 0);
    if armed != [] {
      var oldest := OldestArmed(v, s, cuts, 0);
      ParentNode(v, ModeAt(oldest), RunAt(s, cuts, oldest).word);
    }
    assert v.IsNode(state.tail.mode, state.tail.word);
    hide Vocabulary.IsNode, Tails;
    NodeInTails(v, state.tail.mode, state.tail.word);
    assert 0 <= state.began <= |state.tail.word|;
  }

  lemma {:induction false} KeptStep(v: Vocabulary, state: Compressed, m: G.Marked)
    requires v.Valid() && Kept(v, state) && Step(v, state, m).Some?
    ensures Kept(v, Step(v, state, m).value)
  {
    hide ReadMarked, RunsOf, StateOf, Alive, Configuration;
    var s: Word, cuts: seq<nat> :| KeptBy(v, state, s, cuts);
    StateRecovers(v, s, cuts);
    StepIsGreedy(v, s, cuts, m);
    var more, ends := s + [m.byte], cuts + if m.closes then [|s| + 1] else [];
    assert KeptBy(v, Step(v, state, m).value, more, ends);
  }

  lemma {:induction false} StartKept(v: Vocabulary)
    ensures Kept(v, Unread())
  {
    var text: Word, cuts: seq<nat> := [], [0];
    assert Marking(text, cuts) && ArmedFrom(v, text, cuts, 0) == [];
    assert text[0..] == [];
    hide ArmedFrom, Marking;
    assert KeptBy(v, Unread(), text, cuts);
  }

  /** Nothing read leads back to the unread start. */
  lemma {:induction false} NeverUnread(v: Vocabulary, s: Word, cuts: seq<nat>)
    requires Alive(v, s, cuts) && s != []
    ensures StateOf(Configuration(v, s, cuts)) != Unread()
  {
    if ArmedFrom(v, s, cuts, 0) != [] {
      var oldest := OldestArmed(v, s, cuts, 0);
      assert cuts[oldest] < cuts[|cuts| - 1];
      assert RunAt(s, cuts, oldest).word != [];
    }
  }

  // ----- what the explored table accepts -----

  /** The tokens are completely read and the marks are exactly the boundaries inside. */
  ghost predicate MarksSegmentation(v: Vocabulary, marks: seq<G.Marked>) {
    marks != [] ==>
      !marks[|marks| - 1].closes && Segmentation(v, G.BytesOf(marks), G.Boundaries(A.Ended(marks)))
  }

  /** An unarmed run at a token is exactly a segmentation to the end. */
  lemma {:induction false} EndExact(v: Vocabulary, marks: seq<G.Marked>)
    requires v.Valid() && marks != []
    ensures MarksSegmentation(v, marks)
       <==> ReadAll(v, marks).Some?
            && ReadAll(v, marks).value.unarmed.word in v.Tokens(ReadAll(v, marks).value.unarmed.mode)
  {
    ReadIsGreedy(v, marks);
    var s, cuts := G.BytesOf(marks), G.Boundaries(marks);
    var front, last := marks[..|marks| - 1], marks[|marks| - 1];
    if last.closes {
      assert Last(cuts) == |s|;
      hide Alive;
      assert s[|s|..] == [];
    } else {
      var ended := A.Ended(marks);
      assert ended[..|marks| - 1] == front;
      assert cuts == G.Boundaries(front) && G.Boundaries(ended) == cuts + [|s|];
      assert Last(cuts) < |s|;
      GreedyClose(v, s, cuts);
      hide Greedy, Marking, ArmedFrom;
      TokenIsNode(v, ModeAt(|cuts| - 1), s[Last(cuts)..]);
    }
  }

  lemma {:induction false} TokenIsNode(v: Vocabulary, mode: Mode, w: Word)
    ensures w in v.Tokens(mode) ==> v.IsNode(mode, w)
  {
    assert w <= w;
  }

  ghost predicate Explored(v: Vocabulary, sources: seq<Compressed>, table: Table) {
    && sources != [] && sources[0] == Unread() && table.start == 0
    && (forall q: nat | q < |sources| :: E.StepsAll(StepOf(v), Symbols(), sources, table.transitions, q))
    && (forall q: nat | q < |sources| :: q in table.accepting <==> AcceptsAt(v, sources[q], q))
  }

  /** The start accepts the empty input; any state accepts with its unarmed run at a token. */
  predicate AcceptsAt(v: Vocabulary, state: Compressed, q: nat) {
    var unarmed := RunsOf(v, state).unarmed;
    q == 0 || unarmed.word in v.Tokens(unarmed.mode)
  }

  ghost predicate RunReads(v: Vocabulary, sources: seq<Compressed>, table: Table, marks: seq<G.Marked>) {
    var run, read := V.RunTo(table, 0, marks), ReadAll(v, marks);
    && (run.Some? <==> read.Some?)
    && (run.Some? ==> run.value < |sources| && sources[run.value] == StateOf(read.value))
  }

  lemma {:induction false} TableRuns(v: Vocabulary, sources: seq<Compressed>, table: Table, marks: seq<G.Marked>)
    requires v.Valid() && Explored(v, sources, table)
    ensures RunReads(v, sources, table, marks)
  {
    hide ReadMarked, RunsOf, ReadsExactly, E.StepsAll;
    if marks != [] {
      var front, m := marks[..|marks| - 1], marks[|marks| - 1];
      TableRuns(v, sources, table, front);
      if ReadAll(v, front).Some? {
        var q := V.RunTo(table, 0, front).value;
        Recovered(v, front);
        StepTaken(v, sources, table, q, m);
      }
    }
  }

  lemma {:induction false} Recovered(v: Vocabulary, marks: seq<G.Marked>)
    requires v.Valid() && ReadAll(v, marks).Some?
    ensures RunsOf(v, StateOf(ReadAll(v, marks).value)) == ReadAll(v, marks).value
  {
    ReadIsGreedy(v, marks);
    StateRecovers(v, G.BytesOf(marks), G.Boundaries(marks));
  }

  lemma {:induction false} StepTaken(v: Vocabulary, sources: seq<Compressed>, table: Table, q: nat, m: G.Marked)
    requires Explored(v, sources, table) && q < |sources|
    ensures var next := Step(v, sources[q], m);
      && (table.Step(q, m).Some? <==> next.Some?)
      && (next.Some? ==> table.Step(q, m).value < |sources| && sources[table.Step(q, m).value] == next.value)
  {
    hide Step, AcceptsAt;
    assert E.StepsAll(StepOf(v), Symbols(), sources, table.transitions, q);
    assert E.Steps(StepOf(v), Symbols(), sources, table.transitions, q, m);
    assert m == G.Marked(m.byte, m.closes) && m in Symbols();
    assert StepOf(v)(sources[q], m) == Step(v, sources[q], m);
  }

  lemma {:induction false} TableVerifies(v: Vocabulary, sources: seq<Compressed>, table: Table, marks: seq<G.Marked>)
    requires v.Valid() && Explored(v, sources, table)
    ensures table.Accepts(marks) <==> MarksSegmentation(v, marks)
  {
    hide MarksSegmentation, E.StepsAll, RunsOf, StateOf;
    TableRuns(v, sources, table, marks);
    V.AcceptsRun(table, 0, marks);
    if marks == [] {
      EmptyMarks(v);
    } else {
      EndExact(v, marks);
      if ReadAll(v, marks).Some? {
        Recovered(v, marks);
        NotStart(v, marks);
      }
    }
  }

  lemma EmptyMarks(v: Vocabulary)
    ensures MarksSegmentation(v, [])
  {
  }

  lemma {:induction false} NotStart(v: Vocabulary, marks: seq<G.Marked>)
    requires v.Valid() && marks != [] && ReadAll(v, marks).Some?
    ensures StateOf(ReadAll(v, marks).value) != Unread()
  {
    ReadIsGreedy(v, marks);
    assert |G.BytesOf(marks)| > 0;
    NeverUnread(v, G.BytesOf(marks), G.Boundaries(marks));
  }

  // ----- the verifier -----

  lemma {:induction false} StepsKept(v: Vocabulary)
    requires v.Valid()
    ensures E.Keeps(StepOf(v), KeptOf(v), Universe(v))
  {
    hide Step, Kept, Universe;
    forall state | KeptOf(v)(state) ensures state in Universe(v) {
      KeptInUniverse(v, state);
    }
    forall state, m | KeptOf(v)(state) && StepOf(v)(state, m).Some? ensures KeptOf(v)(StepOf(v)(state, m).value) {
      KeptStep(v, state, m);
    }
  }

  /** The trimmed verifier of two vocabularies, refused where one holds the empty token. */
  method BuildTrieChain(first: seq<Word>, later: seq<Word>) returns (verifier: Option<Table>, states: nat)
    ensures verifier.None? <==> [] in first || [] in later
    ensures verifier.Some? ==>
      forall marks: seq<G.Marked> ::
        verifier.value.Accepts(marks) <==> MarksSegmentation(Vocabulary(set t | t in first, set t | t in later), marks)
    ensures verifier.Some? ==> V.IsTrim(verifier.value, states)
  {
    if [] in first || [] in later {
      return None, 0;
    }
    var v := Vocabulary(set t | t in first, set t | t in later);
    hide MarksSegmentation, E.Keeps, V.Trims, E.StepsAll, Kept;
    StepsKept(v);
    StartKept(v);
    var sources, transitions := E.Explore(Unread(), Symbols(), StepOf(v), KeptOf(v), Universe(v));
    var accepting := set q | 0 <= q < |sources| && AcceptsAt(v, sources[q], q);
    var explored := V.Verifier(0, transitions, accepting, map[], map[]);
    assert Explored(v, sources, explored);
    var trimmed, count := V.Trim(explored);
    forall marks: seq<G.Marked> ensures trimmed.Accepts(marks) <==> MarksSegmentation(v, marks) {
      TableVerifies(v, sources, explored, marks);
      TrimAccepts(explored, trimmed, count, marks);
    }
    verifier, states := Some(trimmed), count;
  }

  lemma TrimAccepts(explored: Table, trimmed: Table, states: nat, marks: seq<G.Marked>)
    requires V.Trims(explored, trimmed, states)
    ensures (trimmed.Accepts(marks) <==> explored.Accepts(marks)) && V.IsTrim(trimmed, states)
  {
  }
}

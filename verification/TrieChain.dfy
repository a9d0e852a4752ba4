/** The trie chain: two-mode longest-match segmentation checked with one armed run and a depth for a state. */
module TrieChain {
  import opened Options
  import opened Machine
  import opened Suffixes
  import G = GuessedMarking

  /** The tokens of the first segment, or of every later one. */
  datatype Mode = First | Later

  datatype Vocabulary = Vocabulary(first: set<Word>, later: set<Word>) {
    ghost predicate Valid() {
      [] !in first && [] !in later
    }

    function Tokens(mode: Mode): set<Word> {
      if mode == First then first else later
    }

    /** The word begins some token: it is a node of the mode's trie. */
    predicate IsNode(mode: Mode, w: Word) {
      w == [] || exists t | t in Tokens(mode) :: w <= t
    }

    /** Some longer token extends the word: its node has a child. */
    predicate HasChildren(mode: Mode, w: Word) {
      exists t | t in Tokens(mode) :: w < t
    }
  }

  /** A run of the scan: the mode of its segment and what it has read of it. */
  datatype Run = Run(mode: Mode, word: Word)

  /** The runs closed by boundaries and still alive, oldest first, and the run begun at the last boundary. */
  datatype Runs = Runs(armed: seq<Run>, unarmed: Run)

  /** The oldest armed run, or the unarmed one where none is, and where in it the unarmed run began. */
  datatype Compressed = Compressed(tail: Run, began: nat)

  // ----- one byte -----

  function Child(v: Vocabulary, run: Run, b: Byte): Option<Run> {
    if v.IsNode(run.mode, run.word + [b]) then Some(Run(run.mode, run.word + [b])) else None
  }

  /** The byte read into the armed runs, a run with no child dropping; refused where one reaches a token. */
  function ReadArmed(v: Vocabulary, armed: seq<Run>, b: Byte): Option<seq<Run>> {
    if armed == [] then Some([])
    else
      match Child(v, armed[0], b)
      case None => ReadArmed(v, armed[1..], b)
      case Some(stepped) =>
        if stepped.word in v.Tokens(stepped.mode) then None
        else
          match ReadArmed(v, armed[1..], b)
          case None => None
          case Some(rest) => Some([stepped] + rest)
  }

  function Read(v: Vocabulary, from: Runs, b: Byte): Option<Runs> {
    match Child(v, from.unarmed, b)
    case None => None
    case Some(unarmed) =>
      match ReadArmed(v, from.armed, b)
      case None => None
      case Some(armed) => Some(Runs(armed, unarmed))
  }

  /**
    A boundary after the byte: the unarmed run, at a token, is armed where a longer one extends it,
    and a fresh one begins.
   */
  function Close(v: Vocabulary, runs: Runs): Option<Runs> {
    if runs.unarmed.word !in v.Tokens(runs.unarmed.mode) then None
    else
      Some(Runs(
        runs.armed + if v.HasChildren(runs.unarmed.mode, runs.unarmed.word) then [runs.unarmed] else [],
        Run(Later, [])))
  }

  // ----- the compressed state -----

  function StateOf(runs: Runs): Compressed {
    if runs.armed == [] then Compressed(runs.unarmed, 0)
    else
      var oldest := runs.armed[0];
      Compressed(oldest, if |runs.unarmed.word| <= |oldest.word| then |oldest.word| - |runs.unarmed.word| else 0)
  }

  /** The longest token of the mode that begins the text, zero for none. */
  function Longest(v: Vocabulary, mode: Mode, text: Word): (n: nat)
    ensures n <= |text|
  {
    if text == [] then 0
    else if text in v.Tokens(mode) then |text|
    else Longest(v, mode, text[..|text| - 1])
  }

  /** A boundary longest match forces inside a tail, and the run begun there. */
  datatype Link = Link(boundary: nat, run: Run)

  /** The boundaries from one on, each at the longest token from the one before. */
  function Links(v: Vocabulary, mode: Mode, tail: Word, boundary: nat): seq<Link>
    requires boundary <= |tail|
    decreases |tail| - boundary
  {
    var rest := tail[boundary..];
    var step := Longest(v, mode, rest);
    [Link(boundary, Run(mode, rest))] + if step == 0 then [] else Links(v, Later, tail, boundary + step)
  }

  /** The armed runs before the link at the depth, and the run there. */
  function Collected(v: Vocabulary, links: seq<Link>, began: nat, default: Run): Runs {
    if links == [] then Runs([], default)
    else if links[0].boundary == began then Runs([], links[0].run)
    else
      var rest := Collected(v, links[1..], began, default);
      var run := links[0].run;
      Runs((if v.HasChildren(run.mode, run.word) then [run] else []) + rest.armed, rest.unarmed)
  }

  function RunsOf(v: Vocabulary, state: Compressed): Runs {
    if state.began == 0 then Runs([], state.tail)
    else Collected(v, Links(v, state.tail.mode, state.tail.word, 0), state.began, state.tail)
  }

  /** The links read so far are the chain up to the step pending from the last of them. */
  ghost predicate ChainRead(v: Vocabulary, mode: Mode, tail: Word, chain: seq<Link>, last: nat, at: Mode, step: nat) {
    && last <= |tail| && step == Longest(v, at, tail[last..])
    && Links(v, mode, tail, 0) == chain + if step == 0 then [] else Links(v, Later, tail, last + step)
  }

  lemma {:induction false} ChainStep(
      v: Vocabulary, mode: Mode, tail: Word, chain: seq<Link>, last: nat, at: Mode, step: nat, further: nat)
    requires ChainRead(v, mode, tail, chain, last, at, step) && step != 0
    requires further == Longest(v, Later, tail[last + step..])
    ensures ChainRead(v, mode, tail, chain + [Link(last + step, Run(Later, tail[last + step..]))], last + step, Later,
      further)
  {
    var rest := if further == 0 then [] else Links(v, Later, tail, last + step + further);
    assert Links(v, Later, tail, last + step) == [Link(last + step, Run(Later, tail[last + step..]))] + rest;
    hide Longest, Links;
  }

  /** The chain of a tail, read boundary by boundary. */
  method ChainOf(v: Vocabulary, mode: Mode, tail: Word) returns (chain: seq<Link>)
    ensures chain == Links(v, mode, tail, 0)
  {
    chain := [Link(0, Run(mode, tail))];
    assert tail[0..] == tail;
    var step: nat := LongestToken(v, mode, tail);
    assert ChainRead(v, mode, tail, chain, 0, mode, step);
    hide ChainRead, Longest;
    ghost var at := mode;
    var last: nat := 0;
    while step != 0
      invariant last + step <= |tail| && ChainRead(v, mode, tail, chain, last, at, step)
      decreases |tail| - last
    {
      var rest := tail[last + step..];
      var further := LongestToken(v, Later, rest);
      ChainStep(v, mode, tail, chain, last, at, step, further);
      chain, at, last := chain + [Link(last + step, Run(Later, rest))], Later, last + step;
      step := further;
    }
    ChainDone(v, mode, tail, chain, last, at);
  }

  lemma ChainDone(v: Vocabulary, mode: Mode, tail: Word, chain: seq<Link>, last: nat, at: Mode)
    requires ChainRead(v, mode, tail, chain, last, at, 0)
    ensures chain == Links(v, mode, tail, 0)
  {
  }

  /** The longest token, found by walking the text once. */
  method LongestToken(v: Vocabulary, mode: Mode, text: Word) returns (best: nat)
    ensures best == Longest(v, mode, text)
  {
    best := 0;
    for index := 0 to |text|
      invariant best == Longest(v, mode, text[..index])
    {
      var read := text[..index + 1];
      assert read[..index] == text[..index];
      if !v.IsNode(mode, read) {
        NothingLonger(v, mode, text, index);
        return;
      }
      if read in v.Tokens(mode) {
        best := index + 1;
      }
    }
    assert text[..|text|] == text;
  }

  /** Where what is read begins no token, no longer prefix is one. */
  lemma {:induction false} NothingLonger(v: Vocabulary, mode: Mode, text: Word, index: nat)
    requires index < |text| && !v.IsNode(mode, text[..index + 1])
    ensures Longest(v, mode, text) == Longest(v, mode, text[..index])
    decreases |text|
  {
    var front := text[..|text| - 1];
    assert text[..index + 1] <= text;
    assert text !in v.Tokens(mode);
    if index + 1 < |text| {
      assert front[..index + 1] == text[..index + 1] && front[..index] == text[..index];
      NothingLonger(v, mode, front, index);
    }
  }

  // ----- the configuration a marking leaves -----

  function ModeAt(i: nat): Mode {
    if i == 0 then First else Later
  }

  /** Ascending positions of the text, from its start. */
  ghost predicate Marking(s: Word, cuts: seq<nat>) {
    && cuts != [] && cuts[0] == 0
    && (forall i, j | 0 <= i < j < |cuts| :: cuts[i] < cuts[j])
    && forall i | 0 <= i < |cuts| :: cuts[i] <= |s|
  }

  /** A token of the mode lies between the positions, and no longer one begins there. */
  ghost predicate TokenAt(v: Vocabulary, mode: Mode, s: Word, t: nat, e: nat) {
    && t < e <= |s| && s[t..e] in v.Tokens(mode)
    && forall k | e < k <= |s| :: s[t..k] !in v.Tokens(mode)
  }

  ghost predicate SegmentAt(v: Vocabulary, s: Word, cuts: seq<nat>, i: nat) {
    i + 1 < |cuts| && TokenAt(v, ModeAt(i), s, cuts[i], cuts[i + 1])
  }

  ghost predicate Greedy(v: Vocabulary, s: Word, cuts: seq<nat>) {
    forall i: nat | i < |cuts| - 1 :: SegmentAt(v, s, cuts, i)
  }

  /** Two-mode longest match: the first token from the first vocabulary, every later one from the other. */
  ghost predicate Segmentation(v: Vocabulary, s: Word, cuts: seq<nat>) {
    Marking(s, cuts) && Last(cuts) == |s| && Greedy(v, s, cuts)
  }

  lemma {:induction false} OneSegmentation(v: Vocabulary, s: Word, a: seq<nat>, b: seq<nat>)
    requires Segmentation(v, s, a) && Segmentation(v, s, b)
    ensures a == b
  {
    SameCut(v, s, a, b, |a| - 1);
    SameCut(v, s, b, a, |b| - 1);
    forall i: nat | i < |a| ensures a[i] == b[i] {
      SameCut(v, s, a, b, i);
    }
  }

  lemma {:induction false} SameCut(v: Vocabulary, s: Word, a: seq<nat>, b: seq<nat>, i: nat)
    requires Segmentation(v, s, a) && Segmentation(v, s, b) && i < |a|
    ensures i < |b| && a[i] == b[i]
    decreases i
  {
    if i > 0 {
      SameCut(v, s, a, b, i - 1);
      var h := i - 1;
      assert SegmentAt(v, s, a, h);
      if i < |b| {
        assert SegmentAt(v, s, b, h);
      }
    }
  }

  ghost function RunAt(s: Word, cuts: seq<nat>, i: nat): Run
    requires Marking(s, cuts) && i < |cuts|
  {
    Run(ModeAt(i), s[cuts[i]..])
  }

  /** The closed segments from i on that a longer token could still extend. */
  ghost function ArmedFrom(v: Vocabulary, s: Word, cuts: seq<nat>, i: nat): seq<Run>
    requires Marking(s, cuts) && i < |cuts|
    decreases |cuts| - i
  {
    if i == |cuts| - 1 then []
    else
      var run := RunAt(s, cuts, i);
      (if v.HasChildren(run.mode, run.word) then [run] else []) + ArmedFrom(v, s, cuts, i + 1)
  }

  ghost function Configuration(v: Vocabulary, s: Word, cuts: seq<nat>): Runs
    requires Marking(s, cuts)
  {
    Runs(ArmedFrom(v, s, cuts, 0), RunAt(s, cuts, |cuts| - 1))
  }

  /** The closed segments are longest matches and the open one begins a token. */
  ghost predicate Alive(v: Vocabulary, s: Word, cuts: seq<nat>) {
    && Marking(s, cuts) && Greedy(v, s, cuts)
    && v.IsNode(ModeAt(|cuts| - 1), s[Last(cuts)..])
  }

  /** The byte completes no token from the boundaries from i on. */
  ghost predicate Untaken(v: Vocabulary, s: Word, cuts: seq<nat>, b: Byte, i: nat)
    requires Marking(s, cuts)
  {
    forall j: nat | i <= j < |cuts| - 1 :: s[cuts[j]..] + [b] !in v.Tokens(ModeAt(j))
  }

  lemma MarkingSnoc(s: Word, cuts: seq<nat>, b: Byte)
    requires Marking(s, cuts)
    ensures Marking(s + [b], cuts)
    ensures forall i: nat | i < |cuts| :: (s + [b])[cuts[i]..] == s[cuts[i]..] + [b]
  {
  }

  lemma ParentNode(v: Vocabulary, mode: Mode, w: Word)
    requires v.HasChildren(mode, w)
    ensures v.IsNode(mode, w)
  {
  }

  lemma {:induction false} ChildNode(v: Vocabulary, mode: Mode, w: Word, b: Byte)
    ensures v.IsNode(mode, w + [b]) <==> v.HasChildren(mode, w + [b]) || w + [b] in v.Tokens(mode)
    ensures v.IsNode(mode, w + [b]) ==> v.HasChildren(mode, w)
  {
    if v.HasChildren(mode, w + [b]) {
      ParentNode(v, mode, w + [b]);
    }
    if v.IsNode(mode, w + [b]) {
      var t :| t in v.Tokens(mode) && w + [b] <= t;
      assert w < t;
      assert w + [b] == t || w + [b] < t;
    }
  }

  lemma {:induction false} ReadArmedExact(v: Vocabulary, s: Word, cuts: seq<nat>, b: Byte, i: nat)
    requires Marking(s, cuts) && Marking(s + [b], cuts) && i < |cuts|
    ensures ReadArmed(v, ArmedFrom(v, s, cuts, i), b).Some? <==> Untaken(v, s, cuts, b, i)
    ensures Untaken(v, s, cuts, b, i) ==>
      ReadArmed(v, ArmedFrom(v, s, cuts, i), b) == Some(ArmedFrom(v, s + [b], cuts, i))
    decreases |cuts| - i
  {
    hide Marking, Vocabulary.HasChildren, Vocabulary.IsNode, Vocabulary.Tokens, Untaken;
    if i == |cuts| - 1 {
      UntakenAtLast(v, s, cuts, b, i);
    } else {
      ReadArmedExact(v, s, cuts, b, i + 1);
      UntakenStep(v, s, cuts, b, i);
      FirstExact(v, s, cuts, b, i);
    }
  }

  lemma UntakenAtLast(v: Vocabulary, s: Word, cuts: seq<nat>, b: Byte, i: nat)
    requires Marking(s, cuts) && i == |cuts| - 1
    ensures Untaken(v, s, cuts, b, i)
  {
  }

  /** One closed segment reads the byte, the rest having read it. */
  lemma {:induction false} FirstExact(v: Vocabulary, s: Word, cuts: seq<nat>, b: Byte, i: nat)
    requires Marking(s, cuts) && Marking(s + [b], cuts) && i < |cuts| - 1
    ensures var rest, taken := ReadArmed(v, ArmedFrom(v, s, cuts, i + 1), b), s[cuts[i]..] + [b] in v.Tokens(ModeAt(i));
      FirstRead(ReadArmed(v, ArmedFrom(v, s, cuts, i), b), ArmedFrom(v, s + [b], cuts, i), rest, taken,
        ArmedFrom(v, s + [b], cuts, i + 1))
  {
    MarkingSnoc(s, cuts, b);
    hide Vocabulary.HasChildren, Vocabulary.Tokens, ReadArmed, FirstRead, Marking;
    var run, rest := RunAt(s, cuts, i), ArmedFrom(v, s, cuts, i + 1);
    var after := ArmedFrom(v, s + [b], cuts, i + 1);
    assert RunAt(s + [b], cuts, i) == Run(run.mode, run.word + [b]);
    RunRead(v, run, rest, b, after);
  }

  ghost predicate FirstRead(
      all: Option<seq<Run>>, result: seq<Run>, rest: Option<seq<Run>>, taken: bool, after: seq<Run>)
  {
    && (rest.None? || taken ==> all.None?)
    && (rest == Some(after) && !taken ==> all == Some(result))
  }

  lemma {:induction false} RunRead(v: Vocabulary, run: Run, rest: seq<Run>, b: Byte, after: seq<Run>)
    ensures var armed := (if v.HasChildren(run.mode, run.word) then [run] else []) + rest;
      var stepped := Run(run.mode, run.word + [b]);
      var result := (if v.HasChildren(stepped.mode, stepped.word) then [stepped] else []) + after;
      FirstRead(ReadArmed(v, armed, b), result, ReadArmed(v, rest, b), stepped.word in v.Tokens(run.mode), after)
  {
    ChildNode(v, run.mode, run.word, b);
    ReadFirst(v, run, rest, b);
    hide ReadArmed, Vocabulary.HasChildren, Vocabulary.IsNode, Vocabulary.Tokens;
    assert [] + after == after;
  }

  lemma UntakenStep(v: Vocabulary, s: Word, cuts: seq<nat>, b: Byte, i: nat)
    requires Marking(s, cuts) && i < |cuts| - 1
    ensures Untaken(v, s, cuts, b, i) <==> s[cuts[i]..] + [b] !in v.Tokens(ModeAt(i)) && Untaken(v, s, cuts, b, i + 1)
  {
  }

  lemma {:induction false} ReadFirst(v: Vocabulary, run: Run, rest: seq<Run>, b: Byte)
    ensures ReadArmed(v, [run] + rest, b)
         == match Child(v, run, b)
            case None => ReadArmed(v, rest, b)
            case Some(stepped) =>
              if stepped.word in v.Tokens(stepped.mode) then None
              else match ReadArmed(v, rest, b) case None => None case Some(more) => Some([stepped] + more)
    ensures [] + rest == rest
  {
    assert ([run] + rest)[1..] == rest;
  }

  /** A longer text keeps the closed segments longest matches exactly where its byte completes none of theirs. */
  lemma {:induction false} GreedySnoc(v: Vocabulary, s: Word, cuts: seq<nat>, b: Byte)
    requires Marking(s, cuts)
    ensures Greedy(v, s + [b], cuts) <==> Greedy(v, s, cuts) && Untaken(v, s, cuts, b, 0)
  {
    forall i: nat | i < |cuts| - 1
      ensures SegmentAt(v, s + [b], cuts, i) <==> SegmentAt(v, s, cuts, i) && s[cuts[i]..] + [b] !in v.Tokens(ModeAt(i))
    {
      TokenSnoc(v, ModeAt(i), s, cuts[i], cuts[i + 1], b);
    }
    hide SegmentAt, TokenAt;
  }

  lemma {:induction false} TokenSnoc(v: Vocabulary, mode: Mode, s: Word, t: nat, e: nat, b: Byte)
    requires t < e <= |s|
    ensures TokenAt(v, mode, s + [b], t, e) <==> TokenAt(v, mode, s, t, e) && s[t..] + [b] !in v.Tokens(mode)
  {
    var more := s + [b];
    assert more[t..|more|] == s[t..] + [b];
    assert forall k | t <= k <= |s| :: more[t..k] == s[t..k];
  }

  lemma {:induction false} GreedyClose(v: Vocabulary, s: Word, cuts: seq<nat>)
    requires v.Valid() && Marking(s, cuts) && Last(cuts) < |s|
    ensures Greedy(v, s, cuts + [|s|]) <==> Greedy(v, s, cuts) && s[Last(cuts)..] in v.Tokens(ModeAt(|cuts| - 1))
    ensures Marking(s, cuts + [|s|])
    ensures Configuration(v, s, cuts + [|s|])
         == Runs(ArmedFrom(v, s, cuts, 0) + LastArmed(v, s, cuts), Run(Later, []))
  {
    var more := cuts + [|s|];
    var last := |cuts| - 1;
    assert s[cuts[last]..|s|] == s[Last(cuts)..];
    GreedyMore(v, s, cuts);
    ArmedClose(v, s, cuts, 0);
  }

  lemma {:induction false} GreedyMore(v: Vocabulary, s: Word, cuts: seq<nat>)
    requires Marking(s, cuts) && Last(cuts) < |s|
    ensures Greedy(v, s, cuts + [|s|])
       <==> Greedy(v, s, cuts) && TokenAt(v, ModeAt(|cuts| - 1), s, Last(cuts), |s|)
  {
    var more, last := cuts + [|s|], |cuts| - 1;
    assert last >= 0;
    hide TokenAt, Marking;
    forall i: nat | i < |cuts| - 1 ensures SegmentAt(v, s, more, i) <==> SegmentAt(v, s, cuts, i) {
      assert more[i] == cuts[i] && more[i + 1] == cuts[i + 1];
    }
    assert more[last] == cuts[last] && more[last + 1] == |s|;
    assert SegmentAt(v, s, more, last) <==> TokenAt(v, ModeAt(last), s, cuts[last], |s|);
    hide SegmentAt;
    if Greedy(v, s, more) {
      assert SegmentAt(v, s, more, last);
      forall i: nat | i < |cuts| - 1 ensures SegmentAt(v, s, cuts, i) {
        assert SegmentAt(v, s, more, i);
      }
    }
  }

  ghost function LastArmed(v: Vocabulary, s: Word, cuts: seq<nat>): seq<Run>
    requires Marking(s, cuts)
  {
    var run := RunAt(s, cuts, |cuts| - 1);
    if v.HasChildren(run.mode, run.word) then [run] else []
  }

  lemma {:induction false} ArmedClose(v: Vocabulary, s: Word, cuts: seq<nat>, i: nat)
    requires Marking(s, cuts) && Marking(s, cuts + [|s|]) && i < |cuts|
    ensures ArmedFrom(v, s, cuts + [|s|], i) == ArmedFrom(v, s, cuts, i) + LastArmed(v, s, cuts)
    decreases |cuts| - i
  {
    hide Vocabulary.HasChildren, Marking;
    var more := cuts + [|s|];
    assert more[i] == cuts[i] && RunAt(s, more, i) == RunAt(s, cuts, i);
    if i < |cuts| - 1 {
      ArmedClose(v, s, cuts, i + 1);
    } else {
      assert ArmedFrom(v, s, more, i + 1) == [];
    }
  }

  // ----- reading a marked text -----

  /** Reads one marked byte. */
  function ReadMarked(v: Vocabulary, runs: Runs, m: G.Marked): Option<Runs> {
    match Read(v, runs, m.byte)
    case None => None
    case Some(next) => if m.closes then Close(v, next) else Some(next)
  }

  ghost function ReadAll(v: Vocabulary, marks: seq<G.Marked>): Option<Runs> {
    if marks == [] then Some(Runs([], Run(First, [])))
    else
      match ReadAll(v, marks[..|marks| - 1])
      case None => None
      case Some(runs) => ReadMarked(v, runs, marks[|marks| - 1])
  }

  /** A byte is read exactly where it leaves the marking alive. */
  lemma {:induction false} ReadExact(v: Vocabulary, s: Word, cuts: seq<nat>, b: Byte)
    requires v.Valid() && Marking(s, cuts) && Greedy(v, s, cuts)
    ensures Marking(s + [b], cuts)
    ensures Read(v, Configuration(v, s, cuts), b).Some? <==> Alive(v, s + [b], cuts)
    ensures Alive(v, s + [b], cuts) ==> Read(v, Configuration(v, s, cuts), b) == Some(Configuration(v, s + [b], cuts))
  {
    MarkingSnoc(s, cuts, b);
    hide Marking;
    ReadArmedExact(v, s, cuts, b, 0);
    GreedySnoc(v, s, cuts, b);
    var last := |cuts| - 1;
    assert (s + [b])[cuts[last]..] == s[cuts[last]..] + [b];
    hide Greedy, Untaken, ReadArmed, ArmedFrom, Vocabulary.IsNode;
    assert RunAt(s + [b], cuts, last) == Run(ModeAt(last), s[cuts[last]..] + [b]);
  }

  /** A boundary is taken exactly where it leaves the marking alive. */
  lemma {:induction false} CloseExact(v: Vocabulary, s: Word, cuts: seq<nat>)
    requires v.Valid() && Marking(s, cuts) && Last(cuts) < |s| && Greedy(v, s, cuts)
    ensures Marking(s, cuts + [|s|])
    ensures Close(v, Configuration(v, s, cuts)).Some? <==> Alive(v, s, cuts + [|s|])
    ensures Alive(v, s, cuts + [|s|]) ==> Close(v, Configuration(v, s, cuts)) == Some(Configuration(v, s, cuts + [|s|]))
  {
    GreedyClose(v, s, cuts);
    assert s[|s|..] == [];
    hide Greedy, Marking, ArmedFrom, Vocabulary.HasChildren;
  }

  /** What is alive was alive before its last byte. */
  lemma {:induction false} AliveBefore(v: Vocabulary, s: Word, cuts: seq<nat>, b: Byte)
    requires v.Valid() && Marking(s, cuts)
    ensures Alive(v, s + [b], cuts) ==> Alive(v, s, cuts)
    ensures Marking(s + [b], cuts) && (Alive(v, s + [b], cuts + [|s| + 1]) ==> Alive(v, s + [b], cuts))
  {
    MarkingSnoc(s, cuts, b);
    GreedySnoc(v, s, cuts, b);
    GreedyClose(v, s + [b], cuts);
    var last := |cuts| - 1;
    var w := s[cuts[last]..];
    ChildNode(v, ModeAt(last), w, b);
    hide Greedy, Marking, Configuration;
    if v.IsNode(ModeAt(last), w + [b]) {
      var t :| t in v.Tokens(ModeAt(last)) && w < t;
      assert w <= t;
    }
  }

  /** The configuration a marked text is read to, and when it is. */
  ghost predicate ReadsExactly(v: Vocabulary, marks: seq<G.Marked>) {
    var s, cuts, runs := G.BytesOf(marks), G.Boundaries(marks), ReadAll(v, marks);
    && Marking(s, cuts)
    && (runs.Some? <==> Alive(v, s, cuts))
    && (runs.Some? ==> runs.value == Configuration(v, s, cuts))
  }

  lemma {:induction false} ReadIsGreedy(v: Vocabulary, marks: seq<G.Marked>)
    requires v.Valid()
    ensures ReadsExactly(v, marks)
  {
    var s, cuts := G.BytesOf(marks), G.Boundaries(marks);
    if marks == [] {
      assert s == [] && cuts == [0];
    } else {
      var front, m := marks[..|marks| - 1], marks[|marks| - 1];
      var before, was := G.BytesOf(front), G.Boundaries(front);
      ReadIsGreedy(v, front);
      assert s == before + [m.byte];
      AliveBefore(v, before, was, m.byte);
      if ReadAll(v, front).Some? {
        StepIsGreedy(v, before, was, m);
      }
      hide Marking, Alive, Configuration;
      assert cuts == was + if m.closes then [|s|] else [];
      assert was + [] == was;
    }
  }

  lemma {:induction false} StepIsGreedy(v: Vocabulary, s: Word, cuts: seq<nat>, m: G.Marked)
    requires v.Valid() && Alive(v, s, cuts)
    ensures var more, ends := s + [m.byte], cuts + if m.closes then [|s| + 1] else [];
      && Marking(more, ends)
      && (ReadMarked(v, Configuration(v, s, cuts), m).Some? <==> Alive(v, more, ends))
      && (Alive(v, more, ends) ==> ReadMarked(v, Configuration(v, s, cuts), m) == Some(Configuration(v, more, ends)))
  {
    ReadExact(v, s, cuts, m.byte);
    AliveBefore(v, s, cuts, m.byte);
    assert cuts + [] == cuts;
    assert Last(cuts) < |s + [m.byte]|;
    if m.closes {
      if Alive(v, s + [m.byte], cuts) {
        assert Greedy(v, s + [m.byte], cuts);
        CloseExact(v, s + [m.byte], cuts);
      } else {
        GreedyClose(v, s + [m.byte], cuts);
      }
    }
    hide Marking, Alive, Configuration, Close, Read;
  }

  // ----- the compressed state loses nothing -----

  lemma {:induction false} LongestExact(v: Vocabulary, mode: Mode, text: Word, n: nat)
    requires 0 < n <= |text| && text[..n] in v.Tokens(mode)
    requires forall k | n < k <= |text| :: text[..k] !in v.Tokens(mode)
    ensures Longest(v, mode, text) == n
  {
    if n < |text| {
      var front := text[..|text| - 1];
      assert text[..|text|] == text;
      assert forall k | 0 <= k < |text| :: front[..k] == text[..k];
      LongestExact(v, mode, front, n);
    } else {
      assert text[..n] == text;
    }
  }

  lemma {:induction false} TokenIsLongest(v: Vocabulary, mode: Mode, s: Word, t: nat, e: nat)
    requires TokenAt(v, mode, s, t, e)
    ensures Longest(v, mode, s[t..]) == e - t
  {
    assert forall k: nat | k <= |s| - t :: s[t..][..k] == s[t..t + k];
    LongestExact(v, mode, s[t..], e - t);
  }

  /** The chain of a tail from a boundary on gives back the closed runs from it on and the unarmed one. */
  lemma {:induction false} ChainRecovers(v: Vocabulary, s: Word, cuts: seq<nat>, base: nat, i: nat, default: Run)
    requires Marking(s, cuts) && Greedy(v, s, cuts) && i < |cuts| && base <= cuts[i]
    ensures Collected(v, Links(v, ModeAt(i), s[base..], cuts[i] - base), Last(cuts) - base, default)
         == Runs(ArmedFrom(v, s, cuts, i), RunAt(s, cuts, |cuts| - 1))
    decreases |cuts| - i
  {
    hide Vocabulary.HasChildren, Links, Longest, Collected, TokenAt;
    var tail, boundary, last := s[base..], cuts[i] - base, |cuts| - 1;
    assert tail[boundary..] == s[cuts[i]..];
    if i == last {
      LinksBegin(v, ModeAt(i), tail, boundary, default);
    } else {
      assert SegmentAt(v, s, cuts, i) && base <= cuts[i + 1];
      CutsBefore(s, cuts, i);
      hide Marking, Greedy;
      var next := cuts[i + 1] - base;
      TokenIsLongest(v, ModeAt(i), s, cuts[i], cuts[i + 1]);
      LinksStep(v, ModeAt(i), tail, boundary, next - boundary);
      ChainRecovers(v, s, cuts, base, i + 1, default);
      CollectedStep(v, Link(boundary, RunAt(s, cuts, i)), Links(v, Later, tail, next), Last(cuts) - base, default);
    }
  }

  lemma CutsBefore(s: Word, cuts: seq<nat>, i: nat)
    requires Marking(s, cuts) && i < |cuts| - 1
    ensures cuts[i] < cuts[i + 1] && cuts[i] < Last(cuts)
  {
  }

  lemma {:induction false} LinksBegin(v: Vocabulary, mode: Mode, tail: Word, boundary: nat, default: Run)
    requires boundary <= |tail|
    ensures Collected(v, Links(v, mode, tail, boundary), boundary, default) == Runs([], Run(mode, tail[boundary..]))
  {
    hide Longest;
  }

  lemma {:induction false} LinksStep(v: Vocabulary, mode: Mode, tail: Word, boundary: nat, step: nat)
    requires boundary <= |tail| && step > 0 && Longest(v, mode, tail[boundary..]) == step
    ensures Links(v, mode, tail, boundary) == [Link(boundary, Run(mode, tail[boundary..]))] + Links(v, Later, tail,
      boundary + step)
  {
    hide Longest;
  }

  lemma {:induction false} CollectedStep(v: Vocabulary, link: Link, rest: seq<Link>, began: nat, default: Run)
    requires link.boundary != began
    ensures var more := Collected(v, rest, began, default);
      Collected(v, [link] + rest, began, default)
      == Runs((if v.HasChildren(link.run.mode, link.run.word) then [link.run] else []) + more.armed, more.unarmed)
  {
    hide Vocabulary.HasChildren;
    assert ([link] + rest)[1..] == rest;
  }

  /** The oldest armed run is the first closed one a longer token could still extend. */
  lemma {:induction false} OldestArmed(v: Vocabulary, s: Word, cuts: seq<nat>, i: nat) returns (oldest: nat)
    requires Marking(s, cuts) && i < |cuts| && ArmedFrom(v, s, cuts, i) != []
    ensures i <= oldest < |cuts| - 1 && ArmedFrom(v, s, cuts, i) == ArmedFrom(v, s, cuts, oldest)
    ensures ArmedFrom(v, s, cuts, oldest)[0] == RunAt(s, cuts, oldest)
    ensures v.HasChildren(RunAt(s, cuts, oldest).mode, RunAt(s, cuts, oldest).word)
    decreases |cuts| - i
  {
    hide Vocabulary.HasChildren, Marking;
    oldest := i;
    if !v.HasChildren(RunAt(s, cuts, i).mode, RunAt(s, cuts, i).word) {
      oldest := OldestArmed(v, s, cuts, i + 1);
    }
  }

  /** Where the unarmed run began in the oldest armed one: the whole configuration can be read back from the state. */
  lemma {:induction false} StateRecovers(v: Vocabulary, s: Word, cuts: seq<nat>)
    requires Alive(v, s, cuts)
    ensures RunsOf(v, StateOf(Configuration(v, s, cuts))) == Configuration(v, s, cuts)
  {
    var last := |cuts| - 1;
    var armed := ArmedFrom(v, s, cuts, 0);
    if armed != [] {
      var oldest := OldestArmed(v, s, cuts, 0);
      assert cuts[oldest] < cuts[last];
      var tail := s[cuts[oldest]..];
      assert |RunAt(s, cuts, last).word| == |s| - cuts[last];
      assert StateOf(Configuration(v, s, cuts)) == Compressed(RunAt(s, cuts, oldest), cuts[last] - cuts[oldest]);
      ChainRecovers(v, s, cuts, cuts[oldest], oldest, RunAt(s, cuts, oldest));
    }
  }
}

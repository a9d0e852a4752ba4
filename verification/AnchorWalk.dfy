/** The walk that reads an input beside a guessed marking of its tokens and a guessed stretch of it. */
module AnchorWalk {
  import opened Options
  import opened Machine
  import opened Munch
  import G = GuessedMarking
  import opened AnchorStretch

  /** The scan so far, how much of a window it may be inside, and the state of the stretch being counted. */
  datatype Node = Node(scan: G.Position, prefix: Word, stretch: Stretch)

  /** A byte, whether the segment being read closes before it, and whether it lies in the stretch. */
  datatype Letter = Letter(byte: Byte, mark: bool, inside: bool)

  /** The longest suffix that begins a window. */
  ghost function LongestOf(inventory: seq<Pair>, s: Word): Word {
    if Begins(inventory, s) || s == [] then s else LongestOf(inventory, s[1..])
  }

  ghost function AgesOf(inventory: seq<Pair>, s: Word): set<nat>
    requires WellFormed(inventory)
  {
    set i | 0 <= i < |inventory| && EndsWith(s, inventory[i].window) :: AgeOf(inventory[i])
  }

  ghost predicate Reach(inventory: seq<Pair>, cap: nat) {
    WellFormed(inventory) && forall i | 0 <= i < |inventory| :: |inventory[i].window| - 1 <= cap
  }

  function StartNode(d: Dfa): Node {
    Node(G.Initial(d), [], Stretch(Before, 0, 0))
  }

  /** One letter read: refused where the close, the scan or the stretch refuses it. */
  ghost function NodeStep(d: Dfa, inventory: seq<Pair>, cap: nat, node: Node, l: Letter): Option<Node>
    requires WellFormed(inventory)
  {
    if l.mark && !d.Accepting(node.scan.reading) then None
    else
      match G.Advanced(d, if l.mark then G.Closed(d, node.scan) else node.scan, l.byte)
      case None => None
      case Some(p) =>
        match Stretched(node.stretch, AgesOf(inventory, node.prefix + [l.byte]), cap, l.inside)
        case None => None
        case Some(t) => Some(Node(p, LongestOf(inventory, node.prefix + [l.byte]), t))
  }

  ghost function NodeRun(d: Dfa, inventory: seq<Pair>, cap: nat, from: Node, letters: seq<Letter>): Option<Node>
    requires WellFormed(inventory)
  {
    if letters == [] then Some(from)
    else
      match NodeRun(d, inventory, cap, from, letters[..|letters| - 1])
      case None => None
      case Some(node) => NodeStep(d, inventory, cap, node, letters[|letters| - 1])
  }

  lemma {:induction false} RunSnoc(d: Dfa, inventory: seq<Pair>, cap: nat, from: Node, letters: seq<Letter>, l: Letter)
    requires WellFormed(inventory)
    ensures NodeRun(d, inventory, cap, from, letters + [l]) ==
              match NodeRun(d, inventory, cap, from, letters)
              case None => None
              case Some(node) => NodeStep(d, inventory, cap, node, l)
  {
    assert (letters + [l])[..|letters|] == letters;
  }

  lemma {:induction false} RunJoin(d: Dfa, inventory: seq<Pair>, cap: nat, from: Node, u: seq<Letter>, v: seq<Letter>)
    requires WellFormed(inventory)
    ensures NodeRun(d, inventory, cap, from, u + v) ==
              match NodeRun(d, inventory, cap, from, u)
              case None => None
              case Some(node) => NodeRun(d, inventory, cap, node, v)
  {
    hide NodeStep;
    if v == [] {
      assert u + v == u;
    } else {
      RunJoin(d, inventory, cap, from, u, v[..|v| - 1]);
      assert u + v == (u + v[..|v| - 1]) + [v[|v| - 1]];
      RunSnoc(d, inventory, cap, from, u + v[..|v| - 1], v[|v| - 1]);
    }
  }

  // ----- the prefix and the ages -----

  lemma {:induction false} LongestIs(inventory: seq<Pair>, s: Word)
    ensures IsLongest(inventory, s, LongestOf(inventory, s))
  {
    if Begins(inventory, s) || s == [] {
      assert s[|s| - |s|..] == s;
    } else {
      LongestIs(inventory, s[1..]);
      var w := LongestOf(inventory, s[1..]);
      assert EndsWith(s, s[1..]);
      EndsOnward(s, w, s[1..]);
      forall v: Word | EndsWith(s, v) && Begins(inventory, v) ensures |v| <= |w| {
        if |v| < |s| {
          EndsShorter(s, v, s[1..]);
        }
      }
    }
  }

  lemma AgesAre(inventory: seq<Pair>, s: Word, cap: nat)
    requires Reach(inventory, cap)
    ensures Ages(inventory, s, AgesOf(inventory, s), cap)
  {
  }

  /** The known prefix tells the ages of the windows that a byte completes. */
  lemma {:induction false} PrefixAges(inventory: seq<Pair>, s: Word, p: Word, b: Byte)
    requires WellFormed(inventory) && IsLongest(inventory, s, p)
    ensures AgesOf(inventory, s + [b]) == AgesOf(inventory, p + [b])
  {
    forall i: nat | i < |inventory|
      ensures EndsWith(s + [b], inventory[i].window) <==> EndsWith(p + [b], inventory[i].window)
    {
      WindowEnds(inventory, s, p, b, i);
    }
    hide EndsWith, AgeOf;
  }

  // ----- what a run means -----

  function BytesOf(letters: seq<Letter>): Word {
    seq(|letters|, i requires 0 <= i < |letters| => letters[i].byte)
  }

  function FlagsOf(letters: seq<Letter>): seq<bool> {
    seq(|letters|, i requires 0 <= i < |letters| => letters[i].inside)
  }

  /** The marking read: each close stands after the byte before it, the last as given. */
  function MarksOf(letters: seq<Letter>, closes: bool): (marks: seq<G.Marked>)
    ensures |marks| == |letters|
  {
    if letters == [] then []
    else
      var last := letters[|letters| - 1];
      MarksOf(letters[..|letters| - 1], last.mark) + [G.Marked(last.byte, closes)]
  }

  /** Nothing is closed before the first byte. */
  ghost predicate Opens(letters: seq<Letter>) {
    letters != [] ==> !letters[0].mark
  }

  ghost function ScanRun(d: Dfa, letters: seq<Letter>): Option<G.Position> {
    if letters == [] then Some(G.Initial(d))
    else
      var last := letters[|letters| - 1];
      match ScanRun(d, letters[..|letters| - 1])
      case None => None
      case Some(p) =>
        if last.mark && !d.Accepting(p.reading) then None
        else G.Advanced(d, if last.mark then G.Closed(d, p) else p, last.byte)
  }

  /** The scan of the letters is the scan of their marking. */
  lemma {:induction false} ScanIsMarking(d: Dfa, letters: seq<Letter>, closes: bool)
    requires !d.Accepting(d.init) && Opens(letters) && letters != []
    ensures G.ReadAll(d, MarksOf(letters, closes)) ==
              match ScanRun(d, letters)
              case None => None
              case Some(p) => if !closes then Some(p) else if d.Accepting(p.reading) then Some(G.Closed(d, p)) else None
  {
    hide G.Advanced, G.Closed;
    var front, last := letters[..|letters| - 1], letters[|letters| - 1];
    G.ReadSnoc(d, MarksOf(front, last.mark), G.Marked(last.byte, closes));
    if front != [] {
      assert front[0] == letters[0];
      ScanIsMarking(d, front, last.mark);
    } else {
      assert last == letters[0];
    }
  }

  /** The run survives exactly where its marking does and its stretch is one that no window read so far anchors. */
  ghost predicate RunMeans(d: Dfa, inventory: seq<Pair>, cap: nat, letters: seq<Letter>)
    requires WellFormed(inventory)
  {
    var run := NodeRun(d, inventory, cap, StartNode(d), letters);
    && (run.Some? <==> ScanRun(d, letters).Some? && ClearBlock(inventory, BytesOf(letters), FlagsOf(letters)))
    && (run.Some? ==>
          && run.value.scan == ScanRun(d, letters).value
          && IsLongest(inventory, BytesOf(letters), run.value.prefix)
          && Means(run.value.stretch, FlagsOf(letters), cap))
  }

  lemma {:induction false} EmptyMeans(d: Dfa, inventory: seq<Pair>, cap: nat)
    requires WellFormed(inventory)
    ensures RunMeans(d, inventory, cap, [])
  {
    assert Clear(inventory, BytesOf([]), 0, 0) && Block(FlagsOf([]), 0, 0);
  }

  /** Flags clear after a byte were clear before it. */
  lemma {:induction false} ClearBefore(inventory: seq<Pair>, s: Word, b: Byte, flags: seq<bool>, f: bool)
    requires WellFormed(inventory) && |flags| == |s| && ClearBlock(inventory, s + [b], flags + [f])
    ensures ClearBlock(inventory, s, flags)
  {
    var more := flags + [f];
    var i: nat, j: nat :| Block(more, i, j) && Clear(inventory, s + [b], i, j);
    ClearSnoc(inventory, s, b, i, j);
    assert forall y | 0 <= y < |flags| :: more[y] == flags[y];
    var x, y := Least(i, |s|), Least(j, |s|);
    assert Block(flags, x, y);
    hide AnchorsAt;
    assert Clear(inventory, s, x, y);
  }

  lemma LettersSnoc(letters: seq<Letter>)
    requires letters != []
    ensures BytesOf(letters) == BytesOf(letters[..|letters| - 1]) + [letters[|letters| - 1].byte]
    ensures FlagsOf(letters) == FlagsOf(letters[..|letters| - 1]) + [letters[|letters| - 1].inside]
  {
  }

  lemma {:induction false} RunIsMeant(d: Dfa, inventory: seq<Pair>, cap: nat, letters: seq<Letter>)
    requires Reach(inventory, cap)
    ensures RunMeans(d, inventory, cap, letters)
  {
    if letters == [] {
      EmptyMeans(d, inventory, cap);
    } else {
      var front, l := letters[..|letters| - 1], letters[|letters| - 1];
      RunIsMeant(d, inventory, cap, front);
      LettersSnoc(letters);
      if NodeRun(d, inventory, cap, StartNode(d), front).None? {
        if ClearBlock(inventory, BytesOf(letters), FlagsOf(letters)) {
          ClearBefore(inventory, BytesOf(front), l.byte, FlagsOf(front), l.inside);
        }
      } else {
        StepIsMeant(d, inventory, cap, letters, NodeRun(d, inventory, cap, StartNode(d), front).value);
      }
    }
  }

  lemma {:induction false} StepIsMeant(d: Dfa, inventory: seq<Pair>, cap: nat, letters: seq<Letter>, node: Node)
    requires Reach(inventory, cap) && letters != []
    requires NodeRun(d, inventory, cap, StartNode(d), letters[..|letters| - 1]) == Some(node)
    requires RunMeans(d, inventory, cap, letters[..|letters| - 1])
    ensures RunMeans(d, inventory, cap, letters)
  {
    hide ClearBlock, Means, IsLongest, Stretched, G.Advanced, G.Closed;
    var front, l := letters[..|letters| - 1], letters[|letters| - 1];
    var s, flags := BytesOf(front), FlagsOf(front);
    LettersSnoc(letters);
    PrefixAges(inventory, s, node.prefix, l.byte);
    AgesAre(inventory, s + [l.byte], cap);
    StretchStep(inventory, s, l.byte, flags, node.stretch, AgesOf(inventory, s + [l.byte]), cap, l.inside);
    LongestIs(inventory, node.prefix + [l.byte]);
    LongestStep(inventory, s, node.prefix, l.byte, LongestOf(inventory, node.prefix + [l.byte]));
    hide AgesOf, LongestOf;
  }

  // ----- runs and stretches -----

  /** A run of positions of a completely tokenizable input that no window of the inventory anchors. */
  ghost predicate IsStretch(d: Dfa, inventory: seq<Pair>, s: Word, i: nat, j: nat)
    requires WellFormed(inventory)
  {
    Tokenizes(d, s) && i <= j <= |s| && Clear(inventory, s, i, j)
  }

  /** The input may end at the node. */
  ghost predicate EndsAt(d: Dfa, node: Node) {
    d.Accepting(node.scan.reading)
  }

  /** Some input can be finished from the node. */
  ghost predicate Endable(d: Dfa, inventory: seq<Pair>, cap: nat, node: Node)
    requires WellFormed(inventory)
  {
    exists letters :: FinishesWith(d, inventory, cap, node, letters)
  }

  ghost predicate FinishesWith(d: Dfa, inventory: seq<Pair>, cap: nat, node: Node, letters: seq<Letter>)
    requires WellFormed(inventory)
  {
    var run := NodeRun(d, inventory, cap, node, letters);
    run.Some? && EndsAt(d, run.value)
  }

  lemma {:induction false} RunPrefix(d: Dfa, inventory: seq<Pair>, cap: nat, from: Node, letters: seq<Letter>, k: nat)
    requires WellFormed(inventory) && k <= |letters| && NodeRun(d, inventory, cap, from, letters).Some?
    ensures NodeRun(d, inventory, cap, from, letters[..k]).Some?
    ensures NodeRun(d, inventory, cap, NodeRun(d, inventory, cap, from, letters[..k]).value, letters[k..])
              == NodeRun(d, inventory, cap, from, letters)
  {
    hide NodeStep;
    assert letters == letters[..k] + letters[k..];
    RunJoin(d, inventory, cap, from, letters[..k], letters[k..]);
  }

  lemma {:induction false} SurvivorOpens(d: Dfa, inventory: seq<Pair>, cap: nat, letters: seq<Letter>)
    requires WellFormed(inventory) && !d.Accepting(d.init) && NodeRun(d, inventory, cap, StartNode(d), letters).Some?
    ensures Opens(letters)
  {
    if letters != [] {
      RunPrefix(d, inventory, cap, StartNode(d), letters, 1);
      assert letters[..1] == [] + [letters[0]];
      RunSnoc(d, inventory, cap, StartNode(d), [], letters[0]);
      hide Stretched, AgesOf, LongestOf;
    }
  }

  lemma {:induction false} MarksBytes(letters: seq<Letter>, closes: bool)
    ensures G.BytesOf(MarksOf(letters, closes)) == BytesOf(letters)
  {
    if letters != [] {
      var front, last := letters[..|letters| - 1], letters[|letters| - 1];
      MarksBytes(front, last.mark);
      G.BytesSnoc(MarksOf(front, last.mark), G.Marked(last.byte, closes));
      LettersSnoc(letters);
    }
  }

  /** A run that may end has read a completely tokenizable input, its stretch clear of anchors. */
  lemma {:induction false} RunTokenizes(d: Dfa, inventory: seq<Pair>, cap: nat, letters: seq<Letter>)
    requires Reach(inventory, cap) && !d.Accepting(d.init) && FinishesWith(d, inventory, cap, StartNode(d), letters)
    ensures Tokenizes(d, BytesOf(letters)) && ClearBlock(inventory, BytesOf(letters), FlagsOf(letters))
  {
    hide ClearBlock, Means, IsLongest, NodeStep, G.ReadAll, Segmentation;
    RunIsMeant(d, inventory, cap, letters);
    SurvivorOpens(d, inventory, cap, letters);
    assert letters != [];
    ScanIsMarking(d, letters, true);
    var marks := MarksOf(letters, true);
    MarksBytes(letters, true);
    G.SurvivorIsSegmentation(d, marks);
  }

  /** The letters of a marking beside a stretch. */
  function LettersOf(marks: seq<G.Marked>, i: nat, j: nat): seq<Letter> {
    seq(|marks|, k requires 0 <= k < |marks| => Letter(marks[k].byte, k > 0 && marks[k - 1].closes, i <= k < j))
  }

  lemma {:induction false} LettersMark(marks: seq<G.Marked>, i: nat, j: nat)
    requires marks != []
    ensures MarksOf(LettersOf(marks, i, j), marks[|marks| - 1].closes) == marks
  {
    var front, last := marks[..|marks| - 1], marks[|marks| - 1];
    var letters := LettersOf(marks, i, j);
    assert letters[..|letters| - 1] == LettersOf(front, i, j);
    if front != [] {
      LettersMark(front, i, j);
    }
    assert marks == front + [last];
  }

  /** A clear stretch of a completely tokenizable input is read by some run to its end. */
  lemma {:induction false} StretchRuns(d: Dfa, inventory: seq<Pair>, cap: nat, s: Word, i: nat, j: nat)
    returns (letters: seq<Letter>)
    requires Reach(inventory, cap) && !d.Accepting(d.init) && s != [] && IsStretch(d, inventory, s, i, j)
    ensures FinishesWith(d, inventory, cap, StartNode(d), letters) && |letters| == |s|
    ensures forall y | 0 <= y < |letters| :: letters[y].inside <==> i <= y < j
  {
    hide Means, IsLongest, NodeStep, Clear, G.ReadAll, G.Boundaries;
    var cuts :| Segmentation(d, s, 0, cuts);
    var marks := G.MarksOf(s, cuts);
    G.SegmentationIsMarking(d, s, cuts);
    letters := LettersOf(marks, i, j);
    LettersMark(marks, i, j);
    ScanIsMarking(d, letters, true);
    RunIsMeant(d, inventory, cap, letters);
    assert BytesOf(letters) == s;
    assert Block(FlagsOf(letters), i, j);
  }
}

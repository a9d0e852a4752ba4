/**
  Decisions over the markings a scan survives: whether two token sets segment
  every input alike, and whether a scan ever reads past a token it then rolls
  back to.
 */
module SegmentationDifference {
  import opened Options
  import opened Machine
  import opened Munch
  import opened GuessedMarking
  import opened WordSearch

  // ----- two token sets over one guessed marking -----

  /** The two scans' positions, nothing for a side that has died. */
  datatype Pair = Pair(mine: Option<Position>, theirs: Option<Position>)

  /** A dead side stays dead. */
  function ReadSide(d: Dfa, p: Option<Position>, m: Marked): Option<Position> {
    match p case None => None case Some(q) => ReadMarked(d, q, m)
  }

  predicate AcceptsSide(d: Dfa, p: Option<Position>) {
    p.Some? && d.Accepting(p.value.reading)
  }

  /** One byte read into both sides without a close and with one; the input ends where exactly one side accepts. */
  function PairStep(a: Dfa, b: Dfa, key: Pair, byte: Byte): Step<Pair> {
    var open := ReadPair(a, b, key, Marked(byte, false));
    var shut := ReadPair(a, b, key, Marked(byte, true));
    if Differs(a, b, open) then Step([], true)
    else if Differs(a, b, shut) then Step(IfAlive(open), true)
    else Step(IfAlive(open) + IfAlive(shut), false)
  }

  function ReadPair(a: Dfa, b: Dfa, key: Pair, m: Marked): Pair {
    Pair(ReadSide(a, key.mine, m), ReadSide(b, key.theirs, m))
  }

  predicate Differs(a: Dfa, b: Dfa, key: Pair) {
    AcceptsSide(a, key.mine) != AcceptsSide(b, key.theirs)
  }

  function IfAlive(key: Pair): seq<Pair> {
    if key.mine.None? && key.theirs.None? then [] else [key]
  }

  function ReadBoth(a: Dfa, b: Dfa, marks: seq<Marked>): Pair {
    Pair(ReadAll(a, marks), ReadAll(b, marks))
  }

  lemma {:induction false} ReadBothSnoc(a: Dfa, b: Dfa, marks: seq<Marked>, m: Marked)
    ensures ReadBoth(a, b, marks + [m]) == ReadPair(a, b, ReadBoth(a, b, marks), m)
  {
    ReadSnoc(a, marks, m);
    ReadSnoc(b, marks, m);
  }

  ghost function ExpandPair(a: Dfa, b: Dfa): (Pair, Byte) -> Step<Pair> {
    (key: Pair, byte: Byte) => PairStep(a, b, key, byte)
  }

  function StartPair(a: Dfa, b: Dfa): Pair {
    Pair(Some(Initial(a)), Some(Initial(b)))
  }

  lemma {:induction false} PassesRead(a: Dfa, b: Dfa, k: Pair, byte: Byte, key: Pair) returns (closes: bool)
    requires Passes(ExpandPair(a, b), k, byte, key)
    ensures key == ReadPair(a, b, k, Marked(byte, closes))
  {
    hide ReadPair, Differs;
    closes := key != ReadPair(a, b, k, Marked(byte, false));
  }

  ghost predicate IsReading(a: Dfa, b: Dfa, w: Word, key: Pair, marks: seq<Marked>) {
    BytesOf(marks) == w && ReadBoth(a, b, marks) == key
  }

  lemma {:induction false} ReadingMore(
      a: Dfa, b: Dfa, front: Word, byte: Byte, k: Pair, key: Pair, before: seq<Marked>) returns (marks: seq<Marked>)
    requires IsReading(a, b, front, k, before) && Passes(ExpandPair(a, b), k, byte, key)
    ensures IsReading(a, b, front + [byte], key, marks)
  {
    hide ExpandPair, ReadBoth, ReadPair, Passes, BytesOf;
    var closes := PassesRead(a, b, k, byte, key);
    ReadBothSnoc(a, b, before, Marked(byte, closes));
    BytesSnoc(before, Marked(byte, closes));
    marks := before + [Marked(byte, closes)];
  }

  lemma NoReading(a: Dfa, b: Dfa)
    ensures IsReading(a, b, [], StartPair(a, b), [])
  {
  }

  /** Every key a word leads to is what both sides are in after some marking of the word. */
  lemma {:induction false} LeadsIsReading(a: Dfa, b: Dfa, w: Word, key: Pair) returns (marks: seq<Marked>)
    requires Leads(ExpandPair(a, b), StartPair(a, b), w, key)
    ensures IsReading(a, b, w, key, marks)
    decreases |w|
  {
    hide IsReading, ExpandPair, StartPair, Passes;
    if w == [] {
      NoReading(a, b);
      return [];
    }
    var front, byte := w[..|w| - 1], w[|w| - 1];
    var k :| Leads(ExpandPair(a, b), StartPair(a, b), front, k) && Passes(ExpandPair(a, b), k, byte, key);
    var before := LeadsIsReading(a, b, front, k);
    marks := ReadingMore(a, b, front, byte, k, key, before);
    assert w == front + [byte];
  }

  /** The marking, left open on its last byte, is the tokenization the boundaries give with the input's end. */
  lemma {:induction false} AcceptsIsSegmentation(d: Dfa, marks: seq<Marked>)
    requires !d.Accepting(d.init) && marks != []
    ensures AcceptsSide(d, ReadAll(d, marks)) <==>
              !marks[|marks| - 1].closes && Segmentation(d, BytesOf(marks), 0, Boundaries(marks) + [|marks|])
  {
    var front, last := marks[..|marks| - 1], marks[|marks| - 1];
    assert marks == front + [last];
    ReadSnoc(d, front, last);
    if !last.closes {
      var shut := front + [Marked(last.byte, true)];
      ReadSnoc(d, front, Marked(last.byte, true));
      BytesSnoc(front, last);
      BytesSnoc(front, Marked(last.byte, true));
      BoundariesSnoc(front, last);
      BoundariesSnoc(front, Marked(last.byte, true));
      SurvivorIsSegmentation(d, shut);
      assert Boundaries(marks) == Boundaries(front);
    }
  }

  /** The two token sets segment the input alike: they tokenize it completely or not together, and cut it the same. */
  ghost predicate SameSegmentation(a: Dfa, b: Dfa, s: Word) {
    forall cuts :: Segmentation(a, s, 0, cuts) <==> Segmentation(b, s, 0, cuts)
  }

  /** Some marking of the word is accepted by exactly one side. */
  ghost predicate Separates(a: Dfa, b: Dfa, marks: seq<Marked>) {
    marks != [] && Differs(a, b, ReadBoth(a, b, marks))
  }

  /** A separating marking is an input the two segment apart. */
  lemma {:induction false} SeparatesIsDifference(a: Dfa, b: Dfa, marks: seq<Marked>)
    requires !a.Accepting(a.init) && !b.Accepting(b.init) && Separates(a, b, marks)
    ensures !SameSegmentation(a, b, BytesOf(marks))
  {
    AcceptsIsSegmentation(a, marks);
    AcceptsIsSegmentation(b, marks);
    var cuts := Boundaries(marks) + [|marks|];
    assert Segmentation(a, BytesOf(marks), 0, cuts) != Segmentation(b, BytesOf(marks), 0, cuts);
  }

  /** The marking of an input left open on its last byte. */
  function OpenMarks(s: Word, cuts: seq<nat>): seq<Marked> {
    seq(|s|, i requires 0 <= i < |s| => Marked(s[i], i + 1 < |s| && i + 1 in cuts))
  }

  /** A tokenization is accepted as the marking of its interior boundaries. */
  lemma {:induction false} SegmentationAccepts(d: Dfa, s: Word, cuts: seq<nat>)
    requires !d.Accepting(d.init) && s != [] && Segmentation(d, s, 0, cuts)
    ensures AcceptsSide(d, ReadAll(d, OpenMarks(s, cuts)))
  {
    SegmentationIsMarking(d, s, cuts);
    var marks, open := MarksOf(s, cuts), OpenMarks(s, cuts);
    assert marks == marks[..|s| - 1] + [marks[|s| - 1]];
    assert open == marks[..|s| - 1] + [Marked(s[|s| - 1], false)];
    ReadSnoc(d, marks[..|s| - 1], marks[|s| - 1]);
    ReadSnoc(d, marks[..|s| - 1], Marked(s[|s| - 1], false));
  }

  /** Whatever marks the input's interior boundaries with its last byte open lists them. */
  lemma {:induction false} AcceptedGivesCuts(d: Dfa, s: Word, cuts: seq<nat>)
    requires !d.Accepting(d.init) && s != [] && Ascending(cuts)
    requires cuts != [] && cuts[0] == 0 && cuts[|cuts| - 1] == |s|
    requires AcceptsSide(d, ReadAll(d, OpenMarks(s, cuts)))
    ensures Segmentation(d, s, 0, cuts)
  {
    var marks, open := MarksOf(s, cuts), OpenMarks(s, cuts);
    assert cuts[|cuts| - 1] in cuts;
    assert marks == marks[..|s| - 1] + [Marked(s[|s| - 1], true)];
    assert open == marks[..|s| - 1] + [Marked(s[|s| - 1], false)];
    ReadSnoc(d, marks[..|s| - 1], Marked(s[|s| - 1], true));
    ReadSnoc(d, marks[..|s| - 1], Marked(s[|s| - 1], false));
    MarkingLists(s, cuts);
    assert BytesOf(marks) == s;
    SurvivorIsSegmentation(d, marks);
  }

  /** An input the two segment apart has a separating marking. */
  lemma {:induction false} DifferenceSeparates(a: Dfa, b: Dfa, s: Word) returns (marks: seq<Marked>)
    requires !a.Accepting(a.init) && !b.Accepting(b.init) && !SameSegmentation(a, b, s)
    ensures BytesOf(marks) == s && Separates(a, b, marks)
  {
    var cuts :| Segmentation(a, s, 0, cuts) != Segmentation(b, s, 0, cuts);
    forall d: Dfa | Segmentation(d, s, 0, cuts) ensures Ascending(cuts) {
      forall i, j | 0 <= i < j < |cuts| ensures cuts[i] < cuts[j] {
        CutsIncrease(d, s, 0, cuts, i, j);
      }
    }
    if s == [] {
      EmptySegmentation(a, cuts);
      EmptySegmentation(b, cuts);
    }
    marks := OpenMarks(s, cuts);
    if Segmentation(a, s, 0, cuts) {
      SegmentationAccepts(a, s, cuts);
      if AcceptsSide(b, ReadAll(b, marks)) {
        AcceptedGivesCuts(b, s, cuts);
      }
    } else {
      SegmentationAccepts(b, s, cuts);
      if AcceptsSide(a, ReadAll(a, marks)) {
        AcceptedGivesCuts(a, s, cuts);
      }
    }
  }

  lemma {:induction false} EmptySegmentation(d: Dfa, cuts: seq<nat>)
    ensures Segmentation(d, [], 0, cuts) <==> cuts == [0]
  {
    if Segmentation(d, [], 0, cuts) {
      NothingLeft(d, [], 0, cuts);
    }
  }

  /** One byte of a separating marking: the search ends, or reaches the next key along; on the last byte it ends. */
  lemma {:induction false} PairAlong(a: Dfa, b: Dfa, marks: seq<Marked>, k: nat)
    requires k < |marks|
    requires ReadBoth(a, b, marks[..k + 1]) != Pair(None, None)
    ensures var step := ExpandPair(a, b)(ReadBoth(a, b, marks[..k]), marks[k].byte);
            && (step.ends || ReadBoth(a, b, marks[..k + 1]) in step.successors)
            && (Differs(a, b, ReadBoth(a, b, marks[..k + 1])) ==> step.ends)
  {
    assert marks[..k + 1] == marks[..k] + [marks[k]];
    ReadBothSnoc(a, b, marks[..k], marks[k]);
  }

  lemma {:induction false} AliveBefore(a: Dfa, b: Dfa, marks: seq<Marked>, k: nat)
    requires k <= |marks| && ReadBoth(a, b, marks) != Pair(None, None)
    ensures ReadBoth(a, b, marks[..k]) != Pair(None, None)
  {
    if ReadAll(a, marks).Some? {
      PrefixSurvives(a, marks, k);
    } else {
      PrefixSurvives(b, marks, k);
    }
  }

  /** An input the two segment apart ends the search, itself or a shorter part of it. */
  lemma {:induction false} DifferenceIsFound(a: Dfa, b: Dfa, s: Word) returns (j: nat)
    requires !a.Accepting(a.init) && !b.Accepting(b.init) && !SameSegmentation(a, b, s)
    ensures j <= |s| && EndsOn(ExpandPair(a, b), StartPair(a, b), s[..j])
  {
    var marks := DifferenceSeparates(a, b, s);
    assert marks[..|marks|] == marks && marks[..0] == [] && s[..0] == [];
    var keys := seq(|s|, k requires 0 <= k < |s| => ReadBoth(a, b, marks[..k]));
    var expand := ExpandPair(a, b);
    forall k | 0 <= k < |s|
      ensures expand(keys[k], s[k]).ends || (k + 1 < |s| && keys[k + 1] in expand(keys[k], s[k]).successors)
    {
      AliveBefore(a, b, marks, k + 1);
      PairAlong(a, b, marks, k);
      assert s[k] == marks[k].byte;
    }
    hide ExpandPair, ReadBoth;
    j := SomePrefixEnds(expand, StartPair(a, b), s, keys, 0);
  }

  lemma {:induction false} EndsIsDifference(a: Dfa, b: Dfa, w: Word)
    requires !a.Accepting(a.init) && !b.Accepting(b.init)
    requires EndsOn(ExpandPair(a, b), StartPair(a, b), w)
    ensures !SameSegmentation(a, b, w)
  {
    assert w != [];
    hide *;
    var front, byte := w[..|w| - 1], w[|w| - 1];
    var k := EndsAtKey(ExpandPair(a, b), StartPair(a, b), w);
    var before := LeadsIsReading(a, b, front, k);
    assert w == front + [byte];
    EndingMarks(a, b, front, byte, k, before);
  }

  /** A byte the search ends on, marked one way or the other, separates the two. */
  lemma {:induction false} EndingMarks(a: Dfa, b: Dfa, front: Word, byte: Byte, k: Pair, before: seq<Marked>)
    requires !a.Accepting(a.init) && !b.Accepting(b.init)
    requires IsReading(a, b, front, k, before) && ExpandPair(a, b)(k, byte).ends
    ensures !SameSegmentation(a, b, front + [byte])
  {
    var m := Marked(byte, !Differs(a, b, ReadPair(a, b, k, Marked(byte, false))));
    assert Differs(a, b, ReadPair(a, b, k, m));
    hide ReadPair, ExpandPair, SameSegmentation;
    ReadBothSnoc(a, b, before, m);
    BytesSnoc(before, m);
    hide BytesOf;
    SeparatesIsDifference(a, b, before + [m]);
  }

  // ----- finitely many pairs -----

  ghost function Sides(d: Dfa): set<Option<Position>> {
    {None} + set p | p in Positions(d) :: Some(p)
  }

  ghost function PairsOf(a: Dfa, b: Dfa): set<Pair> {
    set p, q | p in Sides(a) && q in Sides(b) :: Pair(p, q)
  }

  lemma {:induction false} SideInSides(d: Dfa, p: Option<Position>, m: Marked)
    requires d.Valid() && p in Sides(d)
    ensures ReadSide(d, p, m) in Sides(d)
  {
    if p.Some? && Advanced(d, p.value, m.byte).Some? {
      AdvanceInRange(d, p.value, m.byte);
      var q := ReadSide(d, p, m);
      if q.Some? {
        InPositions(d, q.value);
      }
    }
  }

  lemma {:induction false} SuccessorInPairs(a: Dfa, b: Dfa, m: Pair, x: Byte, n: Pair)
    requires a.Valid() && b.Valid() && m in PairsOf(a, b) && n in ExpandPair(a, b)(m, x).successors
    ensures n in PairsOf(a, b)
  {
    PairInPairs(a, b, m, Marked(x, false));
    PairInPairs(a, b, m, Marked(x, true));
    hide PairsOf, ReadPair, Differs;
  }

  lemma {:induction false} PairsSuffice(a: Dfa, b: Dfa, cap: nat)
    requires a.Valid() && b.Valid() && |PairsOf(a, b)| <= cap
    ensures !Exceeds(ExpandPair(a, b), StartPair(a, b), cap)
  {
    InPositions(a, Initial(a));
    InPositions(b, Initial(b));
    var expand := ExpandPair(a, b);
    forall m, x: Byte, n | m in PairsOf(a, b) && n in expand(m, x).successors ensures n in PairsOf(a, b) {
      SuccessorInPairs(a, b, m, x, n);
    }
    assert StartPair(a, b) in PairsOf(a, b);
    hide PairsOf, ExpandPair, StartPair;
    UniverseSuffices(expand, StartPair(a, b), cap, PairsOf(a, b));
  }

  lemma {:induction false} PairInPairs(a: Dfa, b: Dfa, key: Pair, m: Marked)
    requires a.Valid() && b.Valid() && key in PairsOf(a, b)
    ensures ReadPair(a, b, key, m) in PairsOf(a, b)
  {
    SideInSides(a, key.mine, m);
    SideInSides(b, key.theirs, m);
    hide Sides, ReadSide;
  }

  /** Which half of the comparison an input the two segment apart falls in. */
  datatype Half = Domain | Boundary

  /**
    Decides whether two token sets are one segmentation function: a shortest input
    they segment apart, with the half it falls in, or a proof that there is none.
   */
  method FindDifference(mine: Simulator, theirs: Simulator, cap: nat)
    returns (found: Word, half: Option<Half>, exhaustive: bool)
    requires mine.Valid() && theirs.Valid()
    ensures found != [] ==> exhaustive && !SameSegmentation(mine.dfa, theirs.dfa, found)
    ensures found != [] ==> forall s | !SameSegmentation(mine.dfa, theirs.dfa, s) :: |found| <= |s|
    ensures found != [] ==>
              half == Some(if Tokenizes(mine.dfa, found) && Tokenizes(theirs.dfa, found) then Boundary else Domain)
    ensures found == [] ==> half == None
    ensures found == [] && exhaustive ==> forall s :: SameSegmentation(mine.dfa, theirs.dfa, s)
    ensures !exhaustive ==> Exceeds(ExpandPair(mine.dfa, theirs.dfa), StartPair(mine.dfa, theirs.dfa), cap)
    ensures |PairsOf(mine.dfa, theirs.dfa)| <= cap ==> exhaustive
  {
    var a, b := mine.dfa, theirs.dfa;
    var expand := (key: Pair, byte: Byte) => PairStep(a, b, key, byte);
    found, exhaustive := RunSearch(StartPair(a, b), cap, expand);
    assert expand == ExpandPair(a, b);
    hide SameSegmentation, Exceeds, PairsOf;
    if |PairsOf(a, b)| <= cap {
      PairsSuffice(a, b, cap);
    }
    if found != [] {
      EndsIsDifference(a, b, found);
    }
    forall s | !SameSegmentation(a, b, s)
      ensures exists j: nat :: j <= |s| && EndsOn(ExpandPair(a, b), StartPair(a, b), s[..j])
    {
      var j := DifferenceIsFound(a, b, s);
    }
    half := None;
    if found != [] {
      var first, _ := RunAll(mine, found);
      var second, _ := RunAll(theirs, found);
      half := Some(if first[|first| - 1] == |found| && second[|second| - 1] == |found| then Boundary else Domain);
    }
  }
}

/**
  Guessed token boundaries: a scan that closes segments by guess and keeps every
  closed run alive, so that the guesses that survive are the greedy ones.
 */
module GuessedMarking {
  import opened Options
  import opened Machine
  import opened Suffixes
  import opened Munch
  import Counting

  /** Where the open segment stands, beside every earlier segment that could still have run longer. */
  datatype Position = Position(reading: State, closed: set<State>)

  /** One byte, and the guess whether a token ends on it. */
  datatype Marked = Marked(byte: Byte, closes: bool)

  function Initial(d: Dfa): Position {
    Position(d.init, {})
  }

  /** Some closed run accepts on the byte, so its close was not the longest match. */
  predicate Refuted(d: Dfa, closed: set<State>, b: Byte) {
    exists q | q in closed :: d.Step(q, b).Some? && d.Accepting(d.Step(q, b).value)
  }

  function Survivors(d: Dfa, closed: set<State>, b: Byte): set<State> {
    set q | q in closed && d.Step(q, b).Some? :: d.Step(q, b).value
  }

  /** A position after one byte, or nothing where the segment dies or a closed run refutes its close. */
  function Advanced(d: Dfa, p: Position, b: Byte): Option<Position> {
    match d.Step(p.reading, b)
    case None => None
    case Some(next) =>
      if Refuted(d, p.closed, b) then None else Some(Position(next, Survivors(d, p.closed, b)))
  }

  function Closed(d: Dfa, p: Position): Position {
    Position(d.init, p.closed + {p.reading})
  }

  /** A position after one marked byte; only an accepting segment closes. */
  function ReadMarked(d: Dfa, p: Position, m: Marked): Option<Position> {
    match Advanced(d, p, m.byte)
    case None => None
    case Some(next) =>
      if !m.closes then Some(next)
      else if d.Accepting(next.reading) then Some(Closed(d, next))
      else None
  }

  function ReadAll(d: Dfa, marks: seq<Marked>): Option<Position> {
    if marks == [] then Some(Initial(d))
    else
      match ReadAll(d, marks[..|marks| - 1])
      case None => None
      case Some(p) => ReadMarked(d, p, marks[|marks| - 1])
  }

  function BytesOf(marks: seq<Marked>): Word {
    seq(|marks|, i requires 0 <= i < |marks| => marks[i].byte)
  }

  /** The start, and every position after a marked byte that closes. */
  function Boundaries(marks: seq<Marked>): (cuts: seq<nat>)
    ensures cuts != [] && cuts[0] == 0
    ensures forall i | 0 <= i < |cuts| :: cuts[i] <= |marks|
  {
    if marks == [] then [0]
    else Boundaries(marks[..|marks| - 1]) + if marks[|marks| - 1].closes then [|marks|] else []
  }

  /** Each segment between consecutive boundaries is the longest match of what has been read. */
  ghost predicate Greedy(d: Dfa, s: Word, cuts: seq<nat>) {
    forall i | 0 <= i < |cuts| - 1 :: TokenAt(d, s, cuts[i], cuts[i + 1])
  }

  ghost function RunFrom(d: Dfa, s: Word, t: nat): Option<State>
    requires t <= |s|
  {
    d.Run(d.init, s[t..])
  }

  /** The position holds exactly the runs of the segments: the open one reading, the closed ones that have not died. */
  ghost predicate Describes(d: Dfa, s: Word, cuts: seq<nat>, p: Position)
    requires cuts != [] && forall i | 0 <= i < |cuts| :: cuts[i] <= |s|
  {
    && RunFrom(d, s, Last(cuts)) == Some(p.reading)
    && forall q :: q in p.closed <==> exists i :: 0 <= i < |cuts| - 1 && RunFrom(d, s, cuts[i]) == Some(q)
  }

  lemma {:induction false} RunFromSnoc(d: Dfa, s: Word, b: Byte, t: nat)
    requires t <= |s|
    ensures RunFrom(d, s + [b], t) == match RunFrom(d, s, t) case None => None case Some(p) => d.Step(p, b)
    ensures MatchAt(d, s + [b], t, |s| + 1) <==>
              RunFrom(d, s + [b], t).Some? && d.Accepting(RunFrom(d, s + [b], t).value)
  {
    assert (s + [b])[t..] == s[t..] + [b];
    assert (s + [b])[t..|s| + 1] == (s + [b])[t..];
    d.RunSnoc(d.init, s[t..], b);
  }

  /** One byte more keeps a token one exactly where the longer word does not match. */
  lemma {:induction false} TokenAtSnoc(d: Dfa, s: Word, b: Byte, t: nat, e: nat)
    requires e <= |s|
    ensures TokenAt(d, s + [b], t, e) <==> TokenAt(d, s, t, e) && !MatchAt(d, s + [b], t, |s| + 1)
  {
    var more := s + [b];
    if t < e {
      forall k | t <= k <= |s| ensures MatchAt(d, more, t, k) <==> MatchAt(d, s, t, k) {
        assert more[t..k] == s[t..k];
      }
      if TokenAt(d, s, t, e) && !MatchAt(d, more, t, |s| + 1) {
        forall k | e < k <= |more| ensures !MatchAt(d, more, t, k) {
        }
      }
      if TokenAt(d, more, t, e) {
        forall k | e < k <= |s| ensures !MatchAt(d, s, t, k) {
          assert !MatchAt(d, more, t, k);
        }
      }
    }
  }

  /** No closed run accepts on the byte exactly when every closed segment stays a token. */
  lemma {:induction false} RefutedIsNotGreedy(d: Dfa, s: Word, cuts: seq<nat>, p: Position, b: Byte)
    requires cuts != [] && (forall i | 0 <= i < |cuts| :: cuts[i] <= |s|)
    requires Greedy(d, s, cuts) && Describes(d, s, cuts, p)
    ensures Refuted(d, p.closed, b) <==> !Greedy(d, s + [b], cuts)
  {
    forall i | 0 <= i < |cuts| - 1
      ensures TokenAt(d, s + [b], cuts[i], cuts[i + 1]) <==> !MatchAt(d, s + [b], cuts[i], |s| + 1)
    {
      assert TokenAt(d, s, cuts[i], cuts[i + 1]);
      TokenAtSnoc(d, s, b, cuts[i], cuts[i + 1]);
    }
    if Refuted(d, p.closed, b) {
      var q :| q in p.closed && d.Step(q, b).Some? && d.Accepting(d.Step(q, b).value);
      var i :| 0 <= i < |cuts| - 1 && RunFrom(d, s, cuts[i]) == Some(q);
      RunFromSnoc(d, s, b, cuts[i]);
      assert !TokenAt(d, s + [b], cuts[i], cuts[i + 1]);
    }
    if !Greedy(d, s + [b], cuts) {
      var i :| 0 <= i < |cuts| - 1 && !TokenAt(d, s + [b], cuts[i], cuts[i + 1]);
      RunFromSnoc(d, s, b, cuts[i]);
      var q := RunFrom(d, s, cuts[i]).value;
      assert q in p.closed;
    }
  }

  /** Reading one more byte: the position advances exactly while the closes stay greedy and the open segment lives. */
  lemma {:induction false} AdvanceIsGreedy(d: Dfa, s: Word, cuts: seq<nat>, p: Position, b: Byte)
    requires cuts != [] && (forall i | 0 <= i < |cuts| :: cuts[i] <= |s|)
    requires Greedy(d, s, cuts) && Describes(d, s, cuts, p)
    ensures Advanced(d, p, b).Some? <==> Greedy(d, s + [b], cuts) && RunFrom(d, s + [b], Last(cuts)).Some?
    ensures Advanced(d, p, b).Some? ==> Describes(d, s + [b], cuts, Advanced(d, p, b).value)
  {
    RunFromSnoc(d, s, b, Last(cuts));
    RefutedIsNotGreedy(d, s, cuts, p, b);
    if Advanced(d, p, b).Some? {
      var next := Advanced(d, p, b).value;
      forall i | 0 <= i < |cuts| - 1
        ensures RunFrom(d, s + [b], cuts[i]) ==
          match RunFrom(d, s, cuts[i]) case None => None case Some(p) => d.Step(p, b)
      {
        RunFromSnoc(d, s, b, cuts[i]);
      }
      forall q
        ensures q in next.closed <==> exists i :: 0 <= i < |cuts| - 1 && RunFrom(d, s + [b], cuts[i]) == Some(q)
      {
        if q in next.closed {
          var r :| r in p.closed && d.Step(r, b) == Some(q);
          var i :| 0 <= i < |cuts| - 1 && RunFrom(d, s, cuts[i]) == Some(r);
          assert RunFrom(d, s + [b], cuts[i]) == Some(q);
        }
        if i :| 0 <= i < |cuts| - 1 && RunFrom(d, s + [b], cuts[i]) == Some(q) {
          assert RunFrom(d, s, cuts[i]).value in p.closed;
        }
      }
    }
  }

  /** Closing adds a boundary at the end, greedy exactly where the segment accepts. */
  lemma {:induction false} CloseIsGreedy(d: Dfa, s: Word, cuts: seq<nat>, p: Position)
    requires cuts != [] && (forall i | 0 <= i < |cuts| :: cuts[i] <= |s|)
    requires Greedy(d, s, cuts) && Describes(d, s, cuts, p) && !d.Accepting(d.init)
    ensures d.Accepting(p.reading) <==> Greedy(d, s, cuts + [|s|])
    ensures Describes(d, s, cuts + [|s|], Closed(d, p))
  {
    CloseGreedy(d, s, cuts, p);
    assert s[|s|..] == [];
    ClosedRuns(d, s, cuts, p);
  }

  lemma {:induction false} CloseGreedy(d: Dfa, s: Word, cuts: seq<nat>, p: Position)
    requires cuts != [] && (forall i | 0 <= i < |cuts| :: cuts[i] <= |s|)
    requires Greedy(d, s, cuts) && RunFrom(d, s, Last(cuts)) == Some(p.reading) && !d.Accepting(d.init)
    ensures d.Accepting(p.reading) <==> Greedy(d, s, cuts + [|s|])
  {
    var more := cuts + [|s|];
    assert s[Last(cuts)..|s|] == s[Last(cuts)..];
    assert MatchAt(d, s, Last(cuts), |s|) <==> d.Accepting(p.reading);
    assert TokenAt(d, s, Last(cuts), |s|) <==> d.Accepting(p.reading);
    if d.Accepting(p.reading) {
      forall i | 0 <= i < |more| - 1 ensures TokenAt(d, s, more[i], more[i + 1]) {
        if i < |cuts| - 1 {
          assert TokenAt(d, s, cuts[i], cuts[i + 1]);
        }
      }
    } else {
      assert !TokenAt(d, s, more[|cuts| - 1], more[|cuts| - 1 + 1]);
    }
  }

  /** The runs of the closed segments are those before and the one just closed. */
  lemma {:induction false} ClosedRuns(d: Dfa, s: Word, cuts: seq<nat>, p: Position)
    requires cuts != [] && (forall i | 0 <= i < |cuts| :: cuts[i] <= |s|) && Describes(d, s, cuts, p)
    ensures forall q ::
      q in Closed(d, p).closed <==> exists i ::
        0 <= i < |cuts + [|s|]| - 1 && RunFrom(d, s, (cuts + [|s|])[i]) == Some(q)
  {
    hide RunFrom;
    var more := cuts + [|s|];
    forall q
      ensures q in Closed(d, p).closed <==> exists i :: 0 <= i < |more| - 1 && RunFrom(d, s, more[i]) == Some(q)
    {
      if q in p.closed {
        var i :| 0 <= i < |cuts| - 1 && RunFrom(d, s, cuts[i]) == Some(q);
        assert RunFrom(d, s, more[i]) == Some(q);
      }
      if q == p.reading {
        assert RunFrom(d, s, more[|cuts| - 1]) == Some(q);
      }
      if i :| 0 <= i < |more| - 1 && RunFrom(d, s, more[i]) == Some(q) {
        if i < |cuts| - 1 {
          assert RunFrom(d, s, cuts[i]) == Some(q);
        }
      }
    }
  }

  function Extended(cuts: seq<nat>, m: Marked, n: nat): (more: seq<nat>)
    requires cuts != []
    ensures more != []
  {
    cuts + if m.closes then [n] else []
  }

  /** The open segment is alive and the closed ones are greedy. */
  ghost predicate Alive(d: Dfa, s: Word, cuts: seq<nat>)
    requires cuts != [] && Last(cuts) <= |s|
  {
    Greedy(d, s, cuts) && RunFrom(d, s, Last(cuts)).Some?
  }

  /** One marked byte is read exactly where it leaves the marking alive. */
  lemma {:induction false} ReadIsGreedy(d: Dfa, s: Word, cuts: seq<nat>, p: Position, m: Marked)
    requires cuts != [] && (forall i | 0 <= i < |cuts| :: cuts[i] <= |s|)
    requires Greedy(d, s, cuts) && Describes(d, s, cuts, p) && !d.Accepting(d.init)
    ensures ReadMarked(d, p, m).Some? <==> Alive(d, s + [m.byte], Extended(cuts, m, |s| + 1))
    ensures ReadMarked(d, p, m).Some? ==>
              Describes(d, s + [m.byte], Extended(cuts, m, |s| + 1), ReadMarked(d, p, m).value)
  {
    hide Describes, Refuted;
    AdvanceIsGreedy(d, s, cuts, p, m.byte);
    GreedyBefore(d, s, m, cuts);
    assert cuts + [] == cuts;
    var next := Advanced(d, p, m.byte);
    var t := s + [m.byte];
    if m.closes && next.Some? {
      CloseIsGreedy(d, t, cuts, next.value);
      assert t[|t|..] == [];
    }
  }

  lemma BytesSnoc(marks: seq<Marked>, m: Marked)
    ensures BytesOf(marks + [m]) == BytesOf(marks) + [m.byte]
  {
  }

  lemma {:induction false} BoundariesSnoc(marks: seq<Marked>, m: Marked)
    ensures Boundaries(marks + [m]) == Extended(Boundaries(marks), m, |marks| + 1)
  {
    var more := marks + [m];
    assert more[..|more| - 1] == marks && more[|more| - 1] == m;
  }

  lemma {:induction false} ReadSnoc(d: Dfa, marks: seq<Marked>, m: Marked)
    ensures ReadAll(d, marks + [m])
         == match ReadAll(d, marks) case None => None case Some(p) => ReadMarked(d, p, m)
  {
    var more := marks + [m];
    assert more[..|more| - 1] == marks && more[|more| - 1] == m;
  }

  /**
    The marking survives exactly while its closes are the greedy ones of what has
    been read and the open segment lives; the position is then the runs of both.
   */
  lemma {:induction false} SurvivesIsGreedy(d: Dfa, marks: seq<Marked>)
    requires !d.Accepting(d.init)
    ensures ReadAll(d, marks).Some? <==> Alive(d, BytesOf(marks), Boundaries(marks))
    ensures ReadAll(d, marks).Some? ==> Describes(d, BytesOf(marks), Boundaries(marks), ReadAll(d, marks).value)
  {
    hide Describes, ReadMarked, Greedy;
    if marks == [] {
      EmptySurvives(d);
    } else {
      var front, m := marks[..|marks| - 1], marks[|marks| - 1];
      SurvivesIsGreedy(d, front);
      assert marks == front + [m];
      BytesSnoc(front, m);
      BoundariesSnoc(front, m);
      GreedyBefore(d, BytesOf(front), m, Boundaries(front));
      if ReadAll(d, front).Some? {
        ReadIsGreedy(d, BytesOf(front), Boundaries(front), ReadAll(d, front).value, m);
      }
    }
  }

  lemma {:induction false} EmptySurvives(d: Dfa)
    ensures Alive(d, BytesOf([]), Boundaries([])) && Describes(d, BytesOf([]), Boundaries([]), Initial(d))
  {
    assert BytesOf([])[0..] == [];
  }

  /** What is greedy one marked byte later was greedy before it. */
  lemma {:induction false} GreedyBefore(d: Dfa, s: Word, m: Marked, cuts: seq<nat>)
    requires cuts != [] && forall i | 0 <= i < |cuts| :: cuts[i] <= |s|
    ensures var more := cuts + if m.closes then [|s| + 1] else [];
            Greedy(d, s + [m.byte], more) && RunFrom(d, s + [m.byte], Last(more)).Some? ==>
              && Greedy(d, s + [m.byte], cuts) && RunFrom(d, s + [m.byte], Last(cuts)).Some?
              && Greedy(d, s, cuts) && RunFrom(d, s, Last(cuts)).Some?
  {
    var t := s + [m.byte];
    var more := cuts + if m.closes then [|s| + 1] else [];
    if Greedy(d, t, more) && RunFrom(d, t, Last(more)).Some? {
      forall i | 0 <= i < |cuts| - 1
        ensures TokenAt(d, t, cuts[i], cuts[i + 1]) && TokenAt(d, s, cuts[i], cuts[i + 1])
      {
        assert TokenAt(d, t, more[i], more[i + 1]);
        TokenAtSnoc(d, s, m.byte, cuts[i], cuts[i + 1]);
      }
      if m.closes {
        assert TokenAt(d, t, more[|cuts| - 1], more[|cuts| - 1 + 1]);
        assert t[Last(cuts)..] == t[Last(cuts)..|s| + 1];
      }
      RunFromSnoc(d, s, m.byte, Last(cuts));
    }
  }

  /** A marking that closes on its last byte survives exactly when it marks the greedy tokenization. */
  lemma {:induction false} SurvivorIsSegmentation(d: Dfa, marks: seq<Marked>)
    requires !d.Accepting(d.init) && marks != [] && marks[|marks| - 1].closes
    ensures ReadAll(d, marks).Some? <==> Segmentation(d, BytesOf(marks), 0, Boundaries(marks))
  {
    SurvivesIsGreedy(d, marks);
    var s := BytesOf(marks);
    assert s[|s|..] == [] && Last(Boundaries(marks)) == |s|;
  }

  // ----- the marking of a tokenization -----

  /** The input marked with a close at every boundary past its start. */
  function MarksOf(s: Word, cuts: seq<nat>): seq<Marked> {
    seq(|s|, i requires 0 <= i < |s| => Marked(s[i], i + 1 in cuts))
  }

  ghost predicate Ascending(cuts: seq<nat>) {
    forall i, j | 0 <= i < j < |cuts| :: cuts[i] < cuts[j]
  }

  ghost predicate Within(a: seq<nat>, b: seq<nat>) {
    forall i | 0 <= i < |a| :: a[i] in b
  }

  /** Ascending sequences of the same elements are one sequence. */
  lemma {:induction false} AscendingEqual(a: seq<nat>, b: seq<nat>)
    requires Ascending(a) && Ascending(b) && Within(a, b) && Within(b, a)
    ensures a == b
    decreases |a|
  {
    assert a != [] ==> a[0] in b;
    assert b != [] ==> b[0] in a;
    hide Within;
    if a != [] && b != [] {
      SameLast(a, b);
      FrontInFront(a, b);
      FrontInFront(b, a);
      assert Ascending(a[..|a| - 1]) && Ascending(b[..|b| - 1]);
      hide Ascending;
      AscendingEqual(a[..|a| - 1], b[..|b| - 1]);
      FrontAndLast(a);
      FrontAndLast(b);
    }
  }

  lemma FrontAndLast(a: seq<nat>)
    requires a != []
    ensures a == a[..|a| - 1] + [Last(a)]
  {
  }

  lemma {:induction false} SameLast(a: seq<nat>, b: seq<nat>)
    requires Ascending(a) && Ascending(b) && Within(a, b) && Within(b, a) && a != [] && b != []
    ensures Last(a) == Last(b)
  {
    assert a[|a| - 1] in b && b[|b| - 1] in a;
    hide Within;
    LastIsMost(a, b[|b| - 1]);
    LastIsMost(b, a[|a| - 1]);
  }

  lemma {:induction false} FrontInFront(a: seq<nat>, b: seq<nat>)
    requires Ascending(a) && a != [] && b != [] && Last(a) == Last(b) && Within(a, b)
    ensures Within(a[..|a| - 1], b[..|b| - 1])
  {
    var m, n := a[..|a| - 1], b[..|b| - 1];
    forall i | 0 <= i < |m| ensures m[i] in n {
      assert a[i] in b && a[i] < a[|a| - 1];
      var j :| 0 <= j < |b| && b[j] == a[i];
      assert n[j] == a[i];
    }
  }

  lemma {:induction false} LastIsMost(a: seq<nat>, x: nat)
    requires Ascending(a) && x in a
    ensures x <= a[|a| - 1]
  {
    var i :| 0 <= i < |a| && a[i] == x;
  }

  lemma {:induction false} BoundariesAscend(marks: seq<Marked>)
    ensures Ascending(Boundaries(marks))
    ensures forall x: nat :: x in Boundaries(marks) <==> x == 0 || (x <= |marks| && marks[x - 1].closes)
  {
    if marks != [] {
      BoundariesAscend(marks[..|marks| - 1]);
      var front := Boundaries(marks[..|marks| - 1]);
      forall i | 0 <= i < |front| ensures front[i] < |marks| {
      }
    }
  }

  /** The boundaries of the marking are the boundaries marked. */
  lemma {:induction false} MarkingLists(s: Word, cuts: seq<nat>)
    requires Ascending(cuts) && cuts != [] && cuts[0] == 0 && cuts[|cuts| - 1] == |s|
    ensures Boundaries(MarksOf(s, cuts)) == cuts
  {
    var marks := MarksOf(s, cuts);
    BoundariesAscend(marks);
    var listed := Boundaries(marks);
    assert cuts[0] in cuts;
    forall i | 0 <= i < |cuts| ensures cuts[i] in listed {
      assert cuts[i] in cuts && cuts[i] <= |s|;
      if i > 0 {
        assert cuts[0] < cuts[i];
      }
    }
    forall i | 0 <= i < |listed| ensures listed[i] in cuts {
      assert listed[i] in listed;
    }
    AscendingEqual(listed, cuts);
  }

  /** The marking of a tokenization lists its boundaries and survives. */
  lemma {:induction false} SegmentationIsMarking(d: Dfa, s: Word, cuts: seq<nat>)
    requires !d.Accepting(d.init) && s != [] && Segmentation(d, s, 0, cuts)
    ensures BytesOf(MarksOf(s, cuts)) == s
    ensures Boundaries(MarksOf(s, cuts)) == cuts
    ensures ReadAll(d, MarksOf(s, cuts)).Some? && MarksOf(s, cuts)[|s| - 1].closes
  {
    forall i, j | 0 <= i < j < |cuts| ensures cuts[i] < cuts[j] <= |s| {
      CutsIncrease(d, s, 0, cuts, i, j);
    }
    MarkingLists(s, cuts);
    assert cuts[|cuts| - 1] in cuts;
    hide Boundaries, Ascending;
    SurvivorIsSegmentation(d, MarksOf(s, cuts));
  }

  lemma {:induction false} PrefixSurvives(d: Dfa, marks: seq<Marked>, k: nat)
    requires k <= |marks| && ReadAll(d, marks).Some?
    ensures ReadAll(d, marks[..k]).Some?
    decreases |marks|
  {
    if k < |marks| {
      var front := marks[..|marks| - 1];
      PrefixSurvives(d, front, k);
      assert front[..k] == marks[..k];
    } else {
      assert marks[..k] == marks;
    }
  }

  // ----- finitely many positions -----

  ghost predicate InRange(d: Dfa, p: Position) {
    p.reading < d.states && forall q | q in p.closed :: q < d.states
  }

  ghost function Positions(d: Dfa): set<Position> {
    set q, closed: set<nat> | q in Counting.Below(d.states) && closed <= Counting.Below(d.states) :: Position(q, closed)
  }

  lemma {:induction false} InPositions(d: Dfa, p: Position)
    requires InRange(d, p)
    ensures p in Positions(d)
  {
    assert p.closed <= Counting.Below(d.states);
    assert p == Position(p.reading, p.closed);
  }

  lemma {:induction false} AdvanceInRange(d: Dfa, p: Position, b: Byte)
    requires d.Valid() && Advanced(d, p, b).Some?
    ensures InRange(d, Advanced(d, p, b).value)
  {
    hide Refuted;
  }
}

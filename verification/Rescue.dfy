/** Whether a scan ever reads past the end of the token it then rolls back to. */
module Rescue {
  import opened Options
  import opened Machine
  import opened Munch
  import opened GuessedMarking
  import opened WordSearch

  /** One scan, and whether some closed run has survived a byte. */
  datatype Key = Key(scan: Position, marked: bool)

  function RescueStep(d: Dfa, key: Key, b: Byte): Step<Key> {
    match Advanced(d, key.scan, b)
    case None => Step([], false)
    case Some(p) =>
      var rescued := key.marked || p.closed != {};
      if d.Accepting(p.reading) then
        if rescued then Step([], true) else Step([Key(p, false), Key(Closed(d, p), false)], false)
      else Step([Key(p, rescued)], false)
  }

  ghost function Expand(d: Dfa): (Key, Byte) -> Step<Key> {
    (key: Key, b: Byte) => RescueStep(d, key, b)
  }

  function StartKey(d: Dfa): Key {
    Key(Initial(d), false)
  }

  /** Some segment's run is still defined one byte past its end. */
  ghost predicate ReadsOn(d: Dfa, s: Word, cuts: seq<nat>) {
    exists i :: 0 <= i < |cuts| - 1 && ReadsPast(d, s, cuts[i], cuts[i + 1])
  }

  ghost predicate ReadsPast(d: Dfa, s: Word, t: nat, e: nat) {
    t < e < |s| && d.Run(d.init, s[t..e + 1]).Some?
  }

  /** The scan of a completely tokenizable input reads past a token it then rolls back to. */
  ghost predicate RollsBack(d: Dfa, s: Word) {
    exists cuts :: Segmentation(d, s, 0, cuts) && ReadsOn(d, s, cuts)
  }

  /** Some run closed before the last byte is still alive after it. */
  ghost predicate ClosedAlive(d: Dfa, s: Word, cuts: seq<nat>) {
    exists i :: 0 <= i < |cuts| - 1 && AlivePast(d, s, cuts[i], cuts[i + 1])
  }

  ghost predicate AlivePast(d: Dfa, s: Word, t: nat, e: nat) {
    t < e < |s| && d.Run(d.init, s[t..]).Some?
  }

  lemma {:induction false} AliveReadsPast(d: Dfa, s: Word, t: nat, e: nat)
    requires AlivePast(d, s, t, e)
    ensures ReadsPast(d, s, t, e)
  {
    assert s[t..] == s[t..e + 1] + s[e + 1..];
    d.RunAppend(d.init, s[t..e + 1], s[e + 1..]);
  }

  /** Reading past an end is settled by the byte after it. */
  lemma {:induction false} ReadsPastSnoc(d: Dfa, s: Word, b: Byte, t: nat, e: nat)
    requires t < e
    ensures ReadsPast(d, s + [b], t, e) <==> ReadsPast(d, s, t, e) || (e == |s| && AlivePast(d, s + [b], t, e))
  {
    var more := s + [b];
    if e < |s| {
      assert more[t..e + 1] == s[t..e + 1];
    } else if e == |s| {
      assert more[t..] == more[t..e + 1];
    }
  }

  /** A byte after which no boundary is new: the segments read past before stay so, or one is alive now. */
  lemma {:induction false} ReadsOnSnoc(d: Dfa, s: Word, b: Byte, cuts: seq<nat>)
    requires cuts != [] && (forall i | 0 <= i < |cuts| :: cuts[i] <= |s|) && Greedy(d, s, cuts)
    ensures ReadsOn(d, s + [b], cuts) <==> ReadsOn(d, s, cuts) || ClosedAlive(d, s + [b], cuts)
  {
    var more := s + [b];
    forall i | 0 <= i < |cuts| - 1
      ensures ReadsPast(d, more, cuts[i], cuts[i + 1]) <==>
                ReadsPast(d, s, cuts[i], cuts[i + 1]) || AlivePast(d, more, cuts[i], cuts[i + 1])
    {
      assert TokenAt(d, s, cuts[i], cuts[i + 1]);
      ReadsPastSnoc(d, s, b, cuts[i], cuts[i + 1]);
      if AlivePast(d, more, cuts[i], cuts[i + 1]) {
        AliveReadsPast(d, more, cuts[i], cuts[i + 1]);
      }
    }
    if i :| 0 <= i < |cuts| - 1 && ReadsPast(d, more, cuts[i], cuts[i + 1]) {
      assert ReadsPast(d, s, cuts[i], cuts[i + 1]) || AlivePast(d, more, cuts[i], cuts[i + 1]);
    }
    if i :| 0 <= i < |cuts| - 1 && ReadsPast(d, s, cuts[i], cuts[i + 1]) {
      assert ReadsPast(d, more, cuts[i], cuts[i + 1]);
    }
    if i :| 0 <= i < |cuts| - 1 && AlivePast(d, more, cuts[i], cuts[i + 1]) {
      assert ReadsPast(d, more, cuts[i], cuts[i + 1]);
    }
  }

  /** The closed runs the position carries are exactly those alive past their segment's end. */
  lemma {:induction false} CarriedIsAlive(d: Dfa, s: Word, cuts: seq<nat>, p: Position)
    requires cuts != [] && (forall i | 0 <= i < |cuts| :: cuts[i] < |s|) && Greedy(d, s, cuts)
    requires Describes(d, s, cuts, p)
    ensures p.closed != {} <==> ClosedAlive(d, s, cuts)
  {
    if q :| q in p.closed {
      var i :| 0 <= i < |cuts| - 1 && RunFrom(d, s, cuts[i]) == Some(q);
      assert TokenAt(d, s, cuts[i], cuts[i + 1]);
      assert AlivePast(d, s, cuts[i], cuts[i + 1]);
    }
    if i :| 0 <= i < |cuts| - 1 && AlivePast(d, s, cuts[i], cuts[i + 1]) {
      assert RunFrom(d, s, cuts[i]).value in p.closed;
    }
  }

  /** A boundary at the end adds no segment read past. */
  lemma {:induction false} ReadsOnClosed(d: Dfa, s: Word, cuts: seq<nat>)
    requires cuts != []
    ensures ReadsOn(d, s, cuts + [|s|]) <==> ReadsOn(d, s, cuts)
  {
    var more := cuts + [|s|];
    if i :| 0 <= i < |more| - 1 && ReadsPast(d, s, more[i], more[i + 1]) {
      assert i < |cuts| - 1;
      assert ReadsPast(d, s, cuts[i], cuts[i + 1]);
    }
    if i :| 0 <= i < |cuts| - 1 && ReadsPast(d, s, cuts[i], cuts[i + 1]) {
      assert ReadsPast(d, s, more[i], more[i + 1]);
    }
  }

  /** The key a marking that survives is in. */
  ghost predicate Means(d: Dfa, key: Key, marks: seq<Marked>) {
    && ReadAll(d, marks) == Some(key.scan)
    && (key.marked <==> ReadsOn(d, BytesOf(marks), Boundaries(marks)))
  }

  /** The mark after a byte: raised before, or some closed run alive now. */
  lemma {:induction false} RescuedMeans(d: Dfa, key: Key, marks: seq<Marked>, b: Byte, p: Position)
    requires !d.Accepting(d.init) && Means(d, key, marks) && Advanced(d, key.scan, b) == Some(p)
    ensures (key.marked || p.closed != {}) <==> ReadsOn(d, BytesOf(marks) + [b], Boundaries(marks))
  {
    var s, cuts := BytesOf(marks), Boundaries(marks);
    SurvivesIsGreedy(d, marks);
    assert forall i | 0 <= i < |cuts| :: cuts[i] <= |s|;
    AdvanceIsGreedy(d, s, cuts, key.scan, b);
    ReadsOnSnoc(d, s, b, cuts);
    CarriedIsAlive(d, s + [b], cuts, p);
  }

  /** What a marking means is kept byte by byte. */
  lemma {:induction false} StepMeans(d: Dfa, key: Key, marks: seq<Marked>, m: Marked, p: Position)
    requires !d.Accepting(d.init) && Means(d, key, marks) && Advanced(d, key.scan, m.byte) == Some(p)
    requires m.closes ==> d.Accepting(p.reading)
    ensures Means(d, Key(if m.closes then Closed(d, p) else p, key.marked || p.closed != {}), marks + [m])
  {
    RescuedMeans(d, key, marks, m.byte, p);
    ReadSnoc(d, marks, m);
    BytesSnoc(marks, m);
    BoundariesSnoc(marks, m);
    ReadsOnClosed(d, BytesOf(marks) + [m.byte], Boundaries(marks));
    assert Boundaries(marks) + [] == Boundaries(marks);
    hide ReadsOn, Boundaries;
  }

  lemma StartMeans(d: Dfa)
    ensures Means(d, StartKey(d), [])
  {
  }

  lemma {:induction false} LeadsMeans(d: Dfa, w: Word, key: Key) returns (marks: seq<Marked>)
    requires !d.Accepting(d.init) && Leads(Expand(d), StartKey(d), w, key)
    ensures BytesOf(marks) == w && Means(d, key, marks)
    decreases |w|
  {
    if w == [] {
      StartMeans(d);
      return [];
    }
    var front, b := w[..|w| - 1], w[|w| - 1];
    var k :| Leads(Expand(d), StartKey(d), front, k) && Passes(Expand(d), k, b, key);
    var before := LeadsMeans(d, front, k);
    hide Means;
    var p := Advanced(d, k.scan, b).value;
    var m := Marked(b, key.scan != p);
    StepMeans(d, k, before, m, p);
    BytesSnoc(before, m);
    marks := before + [m];
  }

  /** A key whose next byte ends the search has a surviving marking that rolls back. */
  lemma {:induction false} KeyRollsBack(d: Dfa, key: Key, marks: seq<Marked>, b: Byte)
    requires !d.Accepting(d.init) && Means(d, key, marks) && RescueStep(d, key, b).ends
    ensures RollsBack(d, BytesOf(marks) + [b])
  {
    var p := Advanced(d, key.scan, b).value;
    var m := Marked(b, true);
    StepMeans(d, key, marks, m, p);
    BytesSnoc(marks, m);
    SurvivorIsSegmentation(d, marks + [m]);
  }

  lemma {:induction false} EndsRollsBack(d: Dfa, w: Word)
    requires !d.Accepting(d.init) && EndsOn(Expand(d), StartKey(d), w)
    ensures RollsBack(d, w)
  {
    hide Means, RollsBack, RescueStep, Leads;
    var front, b := w[..|w| - 1], w[|w| - 1];
    assert w == front + [b];
    var k := EndsAtKey(Expand(d), StartKey(d), w);
    hide EndsOn;
    var before := LeadsMeans(d, front, k);
    KeyRollsBack(d, k, before, b);
  }

  /** The key along a marking. */
  ghost function KeyAlong(d: Dfa, marks: seq<Marked>): Key
    requires ReadAll(d, marks).Some?
  {
    Key(ReadAll(d, marks).value, ReadsOn(d, BytesOf(marks), Boundaries(marks)))
  }

  /**
    One byte along: the search ends, or reaches the next key; it ends where the marking closes with
    a rollback behind it.
   */
  lemma {:induction false} StepAlong(d: Dfa, marks: seq<Marked>, m: Marked)
    requires !d.Accepting(d.init) && ReadAll(d, marks).Some? && ReadAll(d, marks + [m]).Some?
    ensures var step := Expand(d)(KeyAlong(d, marks), m.byte);
            && (step.ends || KeyAlong(d, marks + [m]) in step.successors)
            && (m.closes && KeyAlong(d, marks + [m]).marked ==> step.ends)
  {
    ReadSnoc(d, marks, m);
    var key := KeyAlong(d, marks);
    assert Means(d, key, marks);
    var p := Advanced(d, key.scan, m.byte).value;
    StepMeans(d, key, marks, m, p);
    hide ReadsOn, Boundaries;
  }

  /**
    Along a marking of a whole input that rolls back, every byte ends the search or reaches the next
    key; the last one ends it.
   */
  lemma {:induction false} MarkingIsWalked(d: Dfa, marks: seq<Marked>, k: nat)
    requires !d.Accepting(d.init) && k < |marks| && ReadAll(d, marks[..k]).Some? && ReadAll(d, marks[..k + 1]).Some?
    requires k + 1 == |marks| ==> marks[k].closes && ReadsOn(d, BytesOf(marks), Boundaries(marks))
    ensures var step := Expand(d)(KeyAlong(d, marks[..k]), marks[k].byte);
            step.ends || (k + 1 < |marks| && KeyAlong(d, marks[..k + 1]) in step.successors)
  {
    assert marks[..k + 1] == marks[..k] + [marks[k]];
    StepAlong(d, marks[..k], marks[k]);
    assert k + 1 == |marks| ==> marks[..k + 1] == marks;
    hide Expand, ReadsOn, Boundaries;
  }

  /** An input that rolls back has a surviving marking, closed at its end, that reads on. */
  lemma {:induction false} RollbackIsMarking(d: Dfa, s: Word) returns (marks: seq<Marked>)
    requires !d.Accepting(d.init) && RollsBack(d, s)
    ensures BytesOf(marks) == s && s != [] && |marks| == |s| && marks[|s| - 1].closes
    ensures forall k | 0 <= k <= |s| :: ReadAll(d, marks[..k]).Some?
    ensures ReadsOn(d, s, Boundaries(marks))
  {
    var cuts :| Segmentation(d, s, 0, cuts) && ReadsOn(d, s, cuts);
    assert s != [];
    marks := MarksOf(s, cuts);
    SegmentationIsMarking(d, s, cuts);
    hide ReadsOn, Segmentation, Boundaries;
    forall k | 0 <= k <= |s| ensures ReadAll(d, marks[..k]).Some? {
      PrefixSurvives(d, marks, k);
    }
  }

  lemma {:induction false} RollsBackIsFound(d: Dfa, s: Word) returns (j: nat)
    requires !d.Accepting(d.init) && RollsBack(d, s)
    ensures j <= |s| && EndsOn(Expand(d), StartKey(d), s[..j])
  {
    var marks := RollbackIsMarking(d, s);
    hide RollsBack;
    var keys := seq(|s|, k requires 0 <= k < |s| => KeyAlong(d, marks[..k]));
    var expand := Expand(d);
    assert marks[..0] == [] && s[..0] == [];
    StartMeans(d);
    forall k | 0 <= k < |s|
      ensures expand(keys[k], s[k]).ends || (k + 1 < |s| && keys[k + 1] in expand(keys[k], s[k]).successors)
    {
      MarkingIsWalked(d, marks, k);
    }
    hide Expand, ReadsOn, Boundaries;
    j := SomePrefixEnds(expand, StartKey(d), s, keys, 0);
  }

  ghost function KeysOf(d: Dfa): set<Key> {
    set p, x: bool | p in Positions(d) :: Key(p, x)
  }

  lemma {:induction false} KeysSuffice(d: Dfa, cap: nat)
    requires d.Valid() && |KeysOf(d)| <= cap
    ensures !Exceeds(Expand(d), StartKey(d), cap)
  {
    InPositions(d, Initial(d));
    var expand := Expand(d);
    forall m, b: Byte, n | m in KeysOf(d) && n in expand(m, b).successors ensures n in KeysOf(d) {
      AdvanceInRange(d, m.scan, b);
      InPositions(d, n.scan);
    }
    UniverseSuffices(expand, StartKey(d), cap, KeysOf(d));
  }

  /** A shortest input whose scan rolls back, or a proof that no scan ever does. */
  method FindRescue(sim: Simulator, cap: nat) returns (found: Word, exhaustive: bool)
    requires sim.Valid()
    ensures found != [] ==> exhaustive && RollsBack(sim.dfa, found)
    ensures found != [] ==> forall s | RollsBack(sim.dfa, s) :: |found| <= |s|
    ensures found == [] && exhaustive ==> forall s :: !RollsBack(sim.dfa, s)
    ensures !exhaustive ==> Exceeds(Expand(sim.dfa), StartKey(sim.dfa), cap)
    ensures |KeysOf(sim.dfa)| <= cap ==> exhaustive
  {
    var d := sim.dfa;
    var expand := (key: Key, b: Byte) => RescueStep(d, key, b);
    found, exhaustive := RunSearch(StartKey(d), cap, expand);
    assert expand == Expand(d);
    hide RollsBack, Exceeds, KeysOf;
    if |KeysOf(d)| <= cap {
      KeysSuffice(d, cap);
    }
    if found != [] {
      EndsRollsBack(d, found);
    }
    forall s | RollsBack(d, s) ensures exists j: nat :: j <= |s| && EndsOn(Expand(d), StartKey(d), s[..j]) {
      var j := RollsBackIsFound(d, s);
    }
  }
}

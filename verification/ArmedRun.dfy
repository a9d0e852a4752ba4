/** The armed-run verifier: the scan's own marking, checked by keeping every closed run armed against a longer match. */
module ArmedRun {
  import opened Options
  import opened Machine
  import opened Munch
  import opened GuessedMarking
  import V = Verifiers
  import Counting

  type Table = V.Verifier<Marked>

  // ----- what the verifier accepts -----

  /** The marking with the boundary after its last byte put in. */
  function Ended(marks: seq<Marked>): seq<Marked>
    requires marks != []
  {
    marks[|marks| - 1 := marks[|marks| - 1].(closes := true)]
  }

  /** The bytes are completely tokenizable and the marks are exactly the boundaries inside. */
  ghost predicate MarksSegmentation(d: Dfa, marks: seq<Marked>) {
    marks != [] ==>
      !marks[|marks| - 1].closes && Segmentation(d, BytesOf(marks), 0, Boundaries(Ended(marks)))
  }

  /** The token beginning at t ends at e and is of the kind. */
  ghost predicate KindAt(d: Dfa, s: Word, t: nat, e: nat, kind: Token) {
    TokenAt(d, s, t, e) && kind == d.TokenOf(s[t..e])
  }

  /** The kinds are those of the tokens between the boundaries, in order. */
  ghost predicate KindsAre(d: Dfa, s: Word, cuts: seq<nat>, kinds: seq<Token>) {
    |cuts| == |kinds| + 1 && forall i | 0 <= i < |kinds| :: KindAt(d, s, cuts[i], cuts[i + 1], kinds[i])
  }

  /** A marking that survives and stands at an accepting segment is the segmentation once closed. */
  lemma {:induction false} AcceptingMarks(d: Dfa, marks: seq<Marked>)
    requires !d.Accepting(d.init) && marks != []
    ensures ReadAll(d, marks).Some? && d.Accepting(ReadAll(d, marks).value.reading) <==> MarksSegmentation(d, marks)
  {
    var front, last := marks[..|marks| - 1], marks[|marks| - 1];
    var ended := Ended(marks);
    assert marks == front + [last] && ended == front + [Marked(last.byte, true)];
    ReadSnoc(d, front, last);
    ReadSnoc(d, front, Marked(last.byte, true));
    assert BytesOf(ended) == BytesOf(marks);
    SurvivorIsSegmentation(d, ended);
    hide Segmentation, Boundaries, Advanced;
  }

  // ----- kinds -----

  /** The kinds of the segments the marks close. */
  ghost function ClosedKinds(d: Dfa, marks: seq<Marked>): seq<Token>
    requires ReadAll(d, marks).Some?
  {
    if marks == [] then []
    else
      var front, last := marks[..|marks| - 1], marks[|marks| - 1];
      ClosedKinds(d, front)
        + if last.closes then [d.accepts[Advanced(d, ReadAll(d, front).value, last.byte).value.reading]] else []
  }

  /** A token ending before a byte keeps its kind where it stays the longest match. */
  lemma {:induction false} KindStays(d: Dfa, s: Word, b: Byte, t: nat, e: nat, kind: Token)
    requires KindAt(d, s, t, e, kind) && TokenAt(d, s + [b], t, e)
    ensures KindAt(d, s + [b], t, e, kind)
  {
    TokenInside(d, s, t, e);
    hide TokenAt;
    assert (s + [b])[t..e] == s[t..e];
  }

  lemma TokenInside(d: Dfa, s: Word, t: nat, e: nat)
    requires TokenAt(d, s, t, e)
    ensures t < e <= |s|
  {
  }

  lemma {:induction false} KindsStay(d: Dfa, s: Word, b: Byte, cuts: seq<nat>, kinds: seq<Token>)
    requires KindsAre(d, s, cuts, kinds) && Greedy(d, s + [b], cuts)
    ensures KindsAre(d, s + [b], cuts, kinds)
  {
    hide KindAt, TokenAt;
    forall i | 0 <= i < |kinds| ensures KindAt(d, s + [b], cuts[i], cuts[i + 1], kinds[i]) {
      assert KindAt(d, s, cuts[i], cuts[i + 1], kinds[i]) && TokenAt(d, s + [b], cuts[i], cuts[i + 1]);
      KindStays(d, s, b, cuts[i], cuts[i + 1], kinds[i]);
    }
  }

  /** The segment closing at the end is of the kind its run stands at. */
  lemma {:induction false} KindsMore(d: Dfa, s: Word, cuts: seq<nat>, kinds: seq<Token>, p: Position)
    requires KindsAre(d, s, cuts, kinds) && Greedy(d, s, cuts + [|s|]) && d.Accepting(p.reading)
    requires (forall i | 0 <= i < |cuts| :: cuts[i] <= |s|) && Describes(d, s, cuts, p)
    ensures KindsAre(d, s, cuts + [|s|], kinds + [d.accepts[p.reading]])
  {
    var more, n := cuts + [|s|], |kinds|;
    assert TokenAt(d, s, more[n], more[n + 1]);
    assert s[more[n]..|s|] == s[more[n]..];
    assert KindAt(d, s, more[n], more[n + 1], d.accepts[p.reading]);
    hide KindAt, TokenAt, Describes;
    forall i | 0 <= i < n ensures KindAt(d, s, more[i], more[i + 1], kinds[i]) {
      assert KindAt(d, s, cuts[i], cuts[i + 1], kinds[i]);
    }
  }

  /** They are the kinds of the tokens between the boundaries marked. */
  lemma {:induction false} ClosedAreTokens(d: Dfa, marks: seq<Marked>)
    requires !d.Accepting(d.init) && ReadAll(d, marks).Some?
    ensures KindsAre(d, BytesOf(marks), Boundaries(marks), ClosedKinds(d, marks))
  {
    if marks != [] {
      var front, last := marks[..|marks| - 1], marks[|marks| - 1];
      assert marks == front + [last];
      hide KindsAre, Greedy, Describes;
      ClosedAreTokens(d, front);
      SurvivesIsGreedy(d, front);
      SurvivesIsGreedy(d, marks);
      BytesSnoc(front, last);
      BoundariesSnoc(front, last);
      ClosedStep(d, BytesOf(front), Boundaries(front), ClosedKinds(d, front), ReadAll(d, front).value, last);
    }
  }

  lemma {:induction false} ClosedStep(d: Dfa, s: Word, cuts: seq<nat>, kinds: seq<Token>, p: Position, m: Marked)
    requires !d.Accepting(d.init) && cuts != [] && (forall i | 0 <= i < |cuts| :: cuts[i] <= |s|)
    requires KindsAre(d, s, cuts, kinds) && Greedy(d, s, cuts) && Describes(d, s, cuts, p) && ReadMarked(d, p, m).Some?
    ensures var next := Advanced(d, p, m.byte).value;
            KindsAre(d, s + [m.byte], Extended(cuts, m, |s| + 1),
              kinds + if m.closes then [d.accepts[next.reading]] else [])
  {
    hide KindsAre, Greedy, Describes;
    var next := Advanced(d, p, m.byte).value;
    AdvanceIsGreedy(d, s, cuts, p, m.byte);
    KindsStay(d, s, m.byte, cuts, kinds);
    if m.closes {
      CloseIsGreedy(d, s + [m.byte], cuts, next);
      KindsMore(d, s + [m.byte], cuts, kinds, next);
    } else {
      assert kinds + [] == kinds && cuts + [] == cuts;
    }
  }

  // ----- the exploration -----

  /** No armed run accepts where the unarmed one does, for a run is armed only with a new segment begun. */
  lemma {:induction false} ArmedSilent(d: Dfa, p: Position, m: Marked)
    requires !d.Accepting(d.init) && ReadMarked(d, p, m).Some?
    ensures var next := ReadMarked(d, p, m).value;
            d.Accepting(next.reading) ==> forall q | q in next.closed :: !d.Accepting(q)
  {
  }

  /** Whether the input may end in the configuration. */
  predicate IsAccepting(d: Dfa, p: Position) {
    d.Accepting(p.reading) && forall q | q in p.closed :: !d.Accepting(q)
  }

  ghost predicate Quiet(d: Dfa, p: Position) {
    d.Accepting(p.reading) ==> forall q | q in p.closed :: !d.Accepting(q)
  }

  /** The unconsumed start is state zero; every other state has one configuration, read from it. */
  ghost predicate Interns(d: Dfa, sources: seq<Position>, interned: map<Position, nat>) {
    && sources != [] && sources[0] == Initial(d)
    && (forall q: nat | 0 < q < |sources| :: sources[q] in interned && interned[sources[q]] == q)
    && (forall p | p in interned :: 0 < interned[p] < |sources| && sources[interned[p]] == p)
    && (forall q: nat | q < |sources| :: InRange(d, sources[q]) && Quiet(d, sources[q]))
  }

  /** The start accepts the empty input; any other state where its unarmed run accepts, with that run's kind. */
  ghost predicate Ends(d: Dfa, sources: seq<Position>, accepting: set<nat>, finals: map<nat, nat>) {
    && (forall q | q in accepting :: q < |sources|)
    && (forall q: nat | q < |sources| :: EndsAt(d, sources, accepting, finals, q))
  }

  ghost predicate EndsAt(d: Dfa, sources: seq<Position>, accepting: set<nat>, finals: map<nat, nat>, q: nat)
    requires q < |sources|
  {
    && (q in accepting <==> q == 0 || d.Accepting(sources[q].reading))
    && (q in finals <==> q > 0 && d.Accepting(sources[q].reading))
    && (q in finals && d.Accepting(sources[q].reading) ==> finals[q] == d.accepts[sources[q].reading])
  }

  /** The step on a marked symbol is the configuration's, a closing one recorded with the kind of the segment closed. */
  ghost predicate Moves(
      d: Dfa, sources: seq<Position>, transitions: map<(nat, Marked), nat>, closes: map<(nat, Marked), nat>, q: nat,
      m: Marked)
  {
    q < |sources| &&
    var next := ReadMarked(d, sources[q], m);
    if next.Some? then
      && (q, m) in transitions && 0 < transitions[(q, m)] < |sources| && sources[transitions[(q, m)]] == next.value
      && ((q, m) in closes <==> m.closes)
      && (m.closes ==> closes[(q, m)] == d.accepts[Advanced(d, sources[q], m.byte).value.reading])
    else (q, m) !in transitions
  }

  ghost predicate Expanded(
      d: Dfa, sources: seq<Position>, transitions: map<(nat, Marked), nat>, closes: map<(nat, Marked), nat>, q: nat)
  {
    forall m: Marked :: Moves(d, sources, transitions, closes, q, m)
  }

  lemma {:induction false} MovesInMore(
      d: Dfa, sources: seq<Position>, more: seq<Position>, transitions: map<(nat, Marked), nat>,
      wider: map<(nat, Marked), nat>,
      closes: map<(nat, Marked), nat>, longer: map<(nat, Marked), nat>, q: nat, m: Marked)
    requires Moves(d, sources, transitions, closes, q, m) && sources <= more
    requires ((q, m) in wider <==> (q, m) in transitions)
    requires ((q, m) in transitions ==> wider[(q, m)] == transitions[(q, m)])
    requires ((q, m) in longer <==> (q, m) in closes) && ((q, m) in closes ==> longer[(q, m)] == closes[(q, m)])
    ensures Moves(d, more, wider, longer, q, m)
  {
    hide ReadMarked, Advanced;
  }

  /** The bytes some transition carries. */
  function Alphabet(d: Dfa): set<Byte> {
    set k | k in d.delta :: k.1
  }

  lemma {:induction false} ReadByteListed(d: Dfa, q: State, b: Byte)
    requires d.Step(q, b).Some?
    ensures b in Alphabet(d)
  {
    assert (q, b).1 == b;
  }

  /** A byte no transition carries is read by nothing. */
  lemma {:induction false} UnreadByte(d: Dfa, p: Position, m: Marked)
    requires m.byte !in Alphabet(d)
    ensures ReadMarked(d, p, m) == None
  {
    if d.Step(p.reading, m.byte).Some? {
      ReadByteListed(d, p.reading, m.byte);
    }
  }

  lemma {:induction false} StepInRange(d: Dfa, p: Position, m: Marked)
    requires d.Valid() && !d.Accepting(d.init) && InRange(d, p) && ReadMarked(d, p, m).Some?
    ensures InRange(d, ReadMarked(d, p, m).value) && Quiet(d, ReadMarked(d, p, m).value)
  {
    ArmedSilent(d, p, m);
    AdvanceInRange(d, p, m.byte);
    hide Advanced;
  }

  lemma {:induction false} SourcesBounded(d: Dfa, sources: seq<Position>, interned: map<Position, nat>)
    requires Interns(d, sources, interned)
    ensures |sources| <= |Positions(d)| + 1
  {
    hide InRange, Quiet, Positions;
    var rest := sources[1..];
    forall i, j | 0 <= i < j < |rest| ensures rest[i] != rest[j] {
      assert interned[sources[i + 1]] == i + 1 && interned[sources[j + 1]] == j + 1;
    }
    Counting.ImageSize(rest);
    forall p | p in Counting.Image(rest) ensures p in Positions(d) {
      var i :| 0 <= i < |rest| && rest[i] == p;
      assert InRange(d, sources[i + 1]);
      InPositions(d, p);
    }
    Counting.SubsetSize(Counting.Image(rest), Positions(d));
  }

  lemma {:induction false} InternMore(d: Dfa, sources: seq<Position>, interned: map<Position, nat>, p: Position)
    requires Interns(d, sources, interned) && p !in interned && InRange(d, p) && Quiet(d, p)
    ensures Interns(d, sources + [p], interned[p := |sources|])
  {
    hide InRange, Quiet;
  }

  lemma {:induction false} EndsMore(
      d: Dfa, sources: seq<Position>, accepting: set<nat>, finals: map<nat, nat>, p: Position)
    requires Ends(d, sources, accepting, finals) && sources != [] && |sources| !in finals
    ensures var accepts := d.Accepting(p.reading);
            Ends(d, sources + [p], if accepts then accepting + {|sources|} else accepting,
                 if accepts then finals[|sources| := d.accepts[p.reading]] else finals)
  {
    var accepts := d.Accepting(p.reading);
    var more := sources + [p];
    var wider := if accepts then accepting + {|sources|} else accepting;
    var longer := if accepts then finals[|sources| := d.accepts[p.reading]] else finals;
    forall q: nat | q < |more| ensures EndsAt(d, more, wider, longer, q) {
      assert q < |sources| ==> EndsAt(d, sources, accepting, finals, q);
    }
  }

  class Exploration {
    const d: Dfa
    var sources: seq<Position>
    var transitions: map<(nat, Marked), nat>
    var closes: map<(nat, Marked), nat>
    var accepting: set<nat>
    var finals: map<nat, nat>
    var interned: map<Position, nat>

    ghost predicate Valid()
      reads this
    {
      && d.Valid() && !d.Accepting(d.init)
      && Interns(d, sources, interned) && Ends(d, sources, accepting, finals)
      && (forall q | q in finals :: q < |sources|)
    }

    /** The unconsumed start as state zero, accepting and not interned. */
    constructor (d: Dfa)
      requires d.Valid() && !d.Accepting(d.init)
      ensures Valid() && this.d == d && sources == [Initial(d)] && transitions == map[] && closes == map[]
    {
      this.d := d;
      sources, transitions, closes, accepting, finals, interned := [Initial(d)], map[], map[], {0}, map[], map[];
    }

    /**
      The state of a configuration, interned when first found, accepting with its unarmed run's kind
      when it accepts.
     */
    method Intern(p: Position) returns (state: nat)
      requires Valid() && InRange(d, p) && Quiet(d, p)
      modifies this
      ensures Valid() && 0 < state < |sources| && sources[state] == p && old(sources) <= sources
      ensures transitions == old(transitions) && closes == old(closes)
    {
      hide Dfa.Valid, InRange;
      if p in interned {
        return interned[p];
      }
      InternMore(d, sources, interned, p);
      EndsMore(d, sources, accepting, finals, p);
      hide Interns, Ends;
      state := |sources|;
      if IsAccepting(d, p) {
        accepting, finals := accepting + {state}, finals[state := d.accepts[p.reading]];
      }
      sources, interned := sources + [p], interned[p := state];
    }

    /** Reads one marked symbol from a state. */
    method Read(state: nat, m: Marked)
      requires Valid() && state < |sources| && (state, m) !in transitions && (state, m) !in closes
      modifies this
      ensures Valid() && old(sources) <= sources && Moves(d, sources, transitions, closes, state, m)
      ensures forall k | k != (state, m) :: k in transitions <==> k in old(transitions)
      ensures forall k | k in old(transitions) :: k in transitions && transitions[k] == old(transitions)[k]
      ensures forall k | k != (state, m) :: k in closes <==> k in old(closes)
      ensures forall k | k in old(closes) :: k in closes && closes[k] == old(closes)[k]
    {
      assert InRange(d, sources[state]) && sources != [];
      var next := ReadMarked(d, sources[state], m);
      if next.Some? {
        StepInRange(d, sources[state], m);
        assert m.closes ==> d.Accepting(Advanced(d, sources[state], m.byte).value.reading);
        hide Interns, Ends, Dfa.Valid, InRange, Quiet, Advanced, ReadMarked;
        var to := Intern(next.value);
        transitions := transitions[(state, m) := to];
        if m.closes {
          var closed := d.Step(sources[state].reading, m.byte);
          ClosingState(d, sources[state], m);
          closes := closes[(state, m) := d.accepts[closed.value]];
        }
      }
    }

    /** Reads a byte without a boundary after it and with one. */
    method ReadBoth(state: nat, byte: Byte)
      requires Valid() && state < |sources|
      requires forall m: Marked | m.byte == byte :: (state, m) !in transitions && (state, m) !in closes
      modifies this
      ensures Valid() && old(sources) <= sources
      ensures forall mark: bool :: Moves(d, sources, transitions, closes, state, Marked(byte, mark))
      ensures Untouched(old(transitions), transitions, state, byte) && Untouched(old(closes), closes, state, byte)
    {
      hide Interns, Ends, Dfa.Valid, ReadMarked;
      Read(state, Marked(byte, false));
      label half:
      Read(state, Marked(byte, true));
      forall mark: bool ensures Moves(d, sources, transitions, closes, state, Marked(byte, mark)) {
        if !mark {
          MovesInMore(
            d, old@half(sources), sources, old@half(transitions), transitions, old@half(closes), closes, state,
            Marked(byte, false));
        }
      }
    }

    /** Every byte from one state, once closing a segment and once not. */
    method Expand(state: nat)
      requires Valid() && state < |sources|
      requires (forall k | k in transitions :: k.0 < state) && (forall k | k in closes :: k.0 < state)
      modifies this
      ensures Valid() && old(sources) <= sources && Expanded(d, sources, transitions, closes, state)
      ensures GrownAt(old(transitions), transitions, state) && GrownAt(old(closes), closes, state)
    {
      hide Interns, Ends, Dfa.Valid, Moves;
      var bytes := Alphabet(d);
      while bytes != {}
        invariant bytes <= Alphabet(d) && Valid() && old(sources) <= sources
        invariant GrownAt(old(transitions), transitions, state) && GrownAt(old(closes), closes, state)
        invariant forall k | k in transitions :: k.0 < state || k.1.byte in Alphabet(d) - bytes
        invariant forall k | k in closes :: k.0 < state || k.1.byte in Alphabet(d) - bytes
        invariant forall m: Marked | m.byte in Alphabet(d) - bytes :: Moves(d, sources, transitions, closes, state, m)
        decreases bytes
      {
        var byte :| byte in bytes;
        label before:
        ReadBoth(state, byte);
        forall m: Marked | m.byte in Alphabet(d) - (bytes - {byte})
          ensures Moves(d, sources, transitions, closes, state, m)
        {
          if m.byte != byte {
            MovesInMore(
              d, old@before(sources), sources, old@before(transitions), transitions,
              old@before(closes), closes, state, m);
          } else {
            assert m == Marked(byte, m.closes);
          }
        }
        bytes := bytes - {byte};
      }
      forall m: Marked ensures Moves(d, sources, transitions, closes, state, m) {
        if m.byte !in Alphabet(d) {
          UnreadMoves(d, sources, transitions, closes, state, m);
        }
      }
    }

    /** Interns and expands states until none is left to expand. */
    method Run() returns (table: Table)
      requires Valid() && sources == [Initial(d)] && transitions == map[] && closes == map[]
      modifies this
      ensures forall marks: seq<Marked> :: Verifies(d, table, marks)
    {
      hide Interns, Ends, Dfa.Valid, Expanded, Verifies;
      var state := 0;
      while state < |sources|
        invariant Valid() && sources != [] && state <= |sources|
        invariant (forall k | k in transitions :: k.0 < state) && (forall k | k in closes :: k.0 < state)
        invariant forall q: nat | q < state :: Expanded(d, sources, transitions, closes, q)
        decreases |Positions(d)| + 1 - state
      {
        SourcesBounded(d, sources, interned);
        label before:
        Expand(state);
        forall q: nat | q < state ensures Expanded(d, sources, transitions, closes, q) {
          ExpandedInMore(
            d, old@before(sources), sources, old@before(transitions), transitions,
            old@before(closes), closes, q, state);
        }
        state := state + 1;
      }
      table := V.Verifier(0, transitions, accepting, closes, finals);
      forall marks: seq<Marked> ensures Verifies(d, table, marks) {
        TableVerifies(d, sources, interned, table, marks);
      }
    }
  }

  /** Only what one state reads on one byte changes. */
  ghost predicate Untouched(table: map<(nat, Marked), nat>, more: map<(nat, Marked), nat>, state: nat, byte: Byte) {
    && (forall k | k in table :: k in more && more[k] == table[k])
    && (forall k | k in more :: k in table || (k.0 == state && k.1.byte == byte))
  }

  /** Only what one state reads is added. */
  ghost predicate GrownAt(table: map<(nat, Marked), nat>, more: map<(nat, Marked), nat>, state: nat) {
    && (forall k | k in table :: k in more && more[k] == table[k])
    && (forall k | k in more :: k in table || k.0 == state)
  }

  lemma {:induction false} UnreadMoves(
      d: Dfa, sources: seq<Position>, transitions: map<(nat, Marked), nat>, closes: map<(nat, Marked), nat>, q: nat,
      m: Marked)
    requires q < |sources| && m.byte !in Alphabet(d) && (q, m) !in transitions
    ensures Moves(d, sources, transitions, closes, q, m)
  {
    UnreadByte(d, sources[q], m);
  }

  lemma {:induction false} ExpandedInMore(
      d: Dfa, sources: seq<Position>, more: seq<Position>, transitions: map<(nat, Marked), nat>,
      wider: map<(nat, Marked), nat>,
      closes: map<(nat, Marked), nat>, longer: map<(nat, Marked), nat>, q: nat, state: nat)
    requires Expanded(d, sources, transitions, closes, q) && sources <= more && q < state
    requires GrownAt(transitions, wider, state) && GrownAt(closes, longer, state)
    ensures Expanded(d, more, wider, longer, q)
  {
    hide Moves;
    forall m: Marked ensures Moves(d, more, wider, longer, q, m) {
      assert Moves(d, sources, transitions, closes, q, m);
      MovesInMore(d, sources, more, transitions, wider, closes, longer, q, m);
    }
  }

  /** The table accepts exactly the segmentations, and records the kinds of their tokens. */
  ghost predicate Verifies(d: Dfa, table: Table, marks: seq<Marked>) {
    && (table.Accepts(marks) <==> MarksSegmentation(d, marks))
    && (marks != [] && table.Accepts(marks) ==>
          KindsAre(d, BytesOf(marks), Boundaries(Ended(marks)), table.KindsFrom(table.start, marks)))
  }

  // ----- what the explored table accepts and records -----

  ghost predicate RunReads(d: Dfa, sources: seq<Position>, table: Table, marks: seq<Marked>) {
    var run, read := V.RunTo(table, 0, marks), ReadAll(d, marks);
    && (run.Some? <==> read.Some?)
    && (run.Some? ==> run.value < |sources| && sources[run.value] == read.value && (marks != [] ==> run.value > 0)
                      && V.StepKinds(table, 0, marks) == ClosedKinds(d, marks))
  }

  lemma {:induction false} TableRuns(d: Dfa, sources: seq<Position>, table: Table, marks: seq<Marked>)
    requires sources != [] && sources[0] == Initial(d)
    requires forall q: nat | q < |sources| :: Expanded(d, sources, table.transitions, table.closes, q)
    ensures RunReads(d, sources, table, marks)
  {
    if marks != [] {
      var front, m := marks[..|marks| - 1], marks[|marks| - 1];
      TableRuns(d, sources, table, front);
      if ReadAll(d, front).Some? {
        var q := V.RunTo(table, 0, front).value;
        assert Expanded(d, sources, table.transitions, table.closes, q);
        assert Moves(d, sources, table.transitions, table.closes, q, m);
        hide ReadMarked, Advanced;
      }
    }
  }

  /** Closing the open segment at the end adds its kind. */
  lemma {:induction false} EndedClosed(d: Dfa, front: seq<Marked>, b: Byte, p: Position)
    requires ReadAll(d, front).Some? && Advanced(d, ReadAll(d, front).value, b) == Some(p) && d.Accepting(p.reading)
    ensures ReadAll(d, front + [Marked(b, false)]) == Some(p) && ReadAll(d, front + [Marked(b, true)]).Some?
    ensures ClosedKinds(d, front + [Marked(b, true)]) ==
      ClosedKinds(d, front + [Marked(b, false)]) + [d.accepts[p.reading]]
  {
    hide Advanced;
    ReadSnoc(d, front, Marked(b, false));
    ReadSnoc(d, front, Marked(b, true));
    assert (front + [Marked(b, true)])[..|front|] == front && (front + [Marked(b, false)])[..|front|] == front;
    assert ClosedKinds(d, front) + [] == ClosedKinds(d, front);
  }

  /** The kinds of the segments closed, and of the one still open where the input ends, are the tokens' kinds. */
  lemma {:induction false} EndedKinds(d: Dfa, marks: seq<Marked>)
    requires !d.Accepting(d.init) && marks != [] && !marks[|marks| - 1].closes
    requires ReadAll(d, marks).Some? && d.Accepting(ReadAll(d, marks).value.reading)
    ensures KindsAre(d, BytesOf(marks), Boundaries(Ended(marks)),
      ClosedKinds(d, marks) + [d.accepts[ReadAll(d, marks).value.reading]])
  {
    hide KindsAre, Boundaries, Advanced, ClosedKinds;
    var front, b := marks[..|marks| - 1], marks[|marks| - 1].byte;
    assert marks == front + [Marked(b, false)] && Ended(marks) == front + [Marked(b, true)];
    ReadSnoc(d, front, Marked(b, false));
    EndedClosed(d, front, b, ReadAll(d, marks).value);
    ClosedAreTokens(d, Ended(marks));
    assert BytesOf(Ended(marks)) == BytesOf(marks);
  }

  lemma {:induction false} TableVerifies(
      d: Dfa, sources: seq<Position>, interned: map<Position, nat>, table: Table, marks: seq<Marked>)
    requires !d.Accepting(d.init) && table.start == 0 && Interns(d, sources, interned)
    requires Ends(d, sources, table.accepting, table.finals)
    requires forall q: nat | q < |sources| :: Expanded(d, sources, table.transitions, table.closes, q)
    ensures Verifies(d, table, marks)
  {
    hide Expanded, MarksSegmentation, KindsAre;
    TableRuns(d, sources, table, marks);
    V.AcceptsRun(table, 0, marks);
    if marks == [] {
      EmptyVerifies(d);
      assert EndsAt(d, sources, table.accepting, table.finals, 0);
    } else {
      AcceptingMarks(d, marks);
      var run := V.RunTo(table, 0, marks);
      if run.Some? {
        assert EndsAt(d, sources, table.accepting, table.finals, run.value);
        if d.Accepting(ReadAll(d, marks).value.reading) {
          OpenEnds(d, marks);
          EndedKinds(d, marks);
        }
      }
    }
  }

  lemma EmptyVerifies(d: Dfa)
    ensures MarksSegmentation(d, [])
  {
  }

  /** An accepted marking has no boundary after its last byte. */
  lemma OpenEnds(d: Dfa, marks: seq<Marked>)
    requires !d.Accepting(d.init) && marks != [] && ReadAll(d, marks).Some?
    requires d.Accepting(ReadAll(d, marks).value.reading)
    ensures !marks[|marks| - 1].closes
  {
  }

  /** The trimmed armed-run verifier of a token set, refused where a token matches the empty string. */
  method BuildArmedRun(d: Dfa) returns (verifier: Option<Table>, states: nat)
    requires d.Valid()
    ensures verifier.None? <==> d.Accepting(d.init)
    ensures verifier.Some? ==> forall marks: seq<Marked> :: Verifies(d, verifier.value, marks)
    ensures verifier.Some? ==> V.IsTrim(verifier.value, states)
  {
    if d.Accepting(d.init) {
      return None, 0;
    }
    hide Verifies;
    var exploration := new Exploration(d);
    var explored := exploration.Run();
    var trimmed, count := V.Trim(explored);
    forall marks: seq<Marked> ensures Verifies(d, trimmed, marks) {
      TrimVerifies(d, explored, trimmed, count, marks);
    }
    verifier, states := Some(trimmed), count;
  }

  lemma {:induction false} TrimVerifies(d: Dfa, explored: Table, trimmed: Table, count: nat, marks: seq<Marked>)
    requires V.Trims(explored, trimmed, count) && Verifies(d, explored, marks)
    ensures Verifies(d, trimmed, marks)
  {
    hide MarksSegmentation, KindsAre;
  }

  lemma ClosingState(d: Dfa, p: Position, m: Marked)
    requires ReadMarked(d, p, m).Some? && m.closes
    ensures d.Step(p.reading, m.byte) == Some(Advanced(d, p, m.byte).value.reading)
    ensures d.Accepting(Advanced(d, p, m.byte).value.reading)
  {
  }
}

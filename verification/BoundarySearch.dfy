/**
  Decisions by search over guessed boundaries: whether some completely tokenizable
  input fails a claim about an occurrence of a window.
 */
module BoundarySearch {
  import opened Options
  import opened Machine
  import opened Munch
  import opened GuessedMarking
  import opened WordSearch
  import opened Suffixes
  import SplitWindow

  /** What is claimed of an origin of a window, at every occurrence of the window. */
  datatype Claim =
    | Covers   // the token covering the final byte begins there
    | Cut      // a boundary lies there
    | Crossed  // a token crosses there

  /**
    The guessed scan beside the guessed occurrence: how many of its bytes are read, whether its
    origin opened a token, whether the claim is broken.
   */
  datatype Key = Key(scan: Position, matched: nat, atOrigin: bool, marked: bool)

  datatype Guess = Guess(matched: nat, closes: bool)

  function Branch(matched: nat, closes: bool): seq<Guess> {
    [Guess(matched, false)] + if closes then [Guess(matched, true)] else []
  }

  /** The occurrence guesses a byte allows under one choice of mark. */
  function Guesses(window: Word, key: Key, b: Byte, closes: bool): seq<Guess> {
    if key.marked then Branch(key.matched, closes)
    else
      (if key.matched == 0 then Branch(0, closes) else [])
      + (if key.matched < |window| && window[key.matched] == b then Branch(key.matched + 1, closes) else [])
  }

  datatype Fate = Dropped | Ends | Next(key: Key)

  /** The origin bit after the byte and its close. */
  function BitAfter(claim: Claim, origin: nat, atOrigin: bool, g: Guess): bool {
    if claim == Covers then (if g.closes then g.matched == origin else g.matched > 0 && atOrigin)
    else (g.closes && g.matched == origin) || (g.matched > origin && atOrigin)
  }

  /**
    What becomes of one guess: an occurrence that keeps the claim is dropped, one that fails it ends
    where a token does.
   */
  function FateOf(d: Dfa, window: Word, origin: nat, claim: Claim, key: Key, p: Position, g: Guess): Fate {
    var through := !key.marked && g.matched == |window|;
    var bit := BitAfter(claim, origin, key.atOrigin, g);
    var kept := if claim == Covers then key.atOrigin else bit == (claim == Cut);
    if through && kept then Dropped
    else
      var marked := key.marked || through;
      if marked && g.closes then Ends
      else Next(Key(if g.closes then Closed(d, p) else p, g.matched, bit && !marked, marked))
  }

  /** The keys the guesses lead to, in order, up to one that ends the input. */
  function Follow(
      d: Dfa, window: Word, origin: nat, claim: Claim, key: Key, p: Position, guesses: seq<Guess>): Step<Key>
  {
    if guesses == [] then Step([], false)
    else
      match FateOf(d, window, origin, claim, key, p, guesses[0])
      case Ends => Step([], true)
      case Dropped => Follow(d, window, origin, claim, key, p, guesses[1..])
      case Next(next) =>
        var rest := Follow(d, window, origin, claim, key, p, guesses[1..]);
        Step([next] + rest.successors, rest.ends)
  }

  function OriginStep(d: Dfa, window: Word, origin: nat, claim: Claim, key: Key, b: Byte): Step<Key> {
    match Advanced(d, key.scan, b)
    case None => Step([], false)
    case Some(p) => Follow(d, window, origin, claim, key, p, Guesses(window, key, b, d.Accepting(p.reading)))
  }

  /** The input ends where some guess does, and otherwise every guess that goes on is followed, and no other. */
  lemma {:induction false} FollowsAll(
      d: Dfa, window: Word, origin: nat, claim: Claim, key: Key, p: Position, guesses: seq<Guess>)
    ensures var step := Follow(d, window, origin, claim, key, p, guesses);
            && (step.ends <==> exists g :: g in guesses && FateOf(d, window, origin, claim, key, p, g).Ends?)
            && (forall n | n in step.successors :: exists g ::
              g in guesses && FateOf(d, window, origin, claim, key, p, g) == Next(n))
            && (!step.ends ==> forall g | g in guesses && FateOf(d, window, origin, claim, key, p, g).Next? ::
                  FateOf(d, window, origin, claim, key, p, g).key in step.successors)
  {
    if guesses != [] {
      FollowsAll(d, window, origin, claim, key, p, guesses[1..]);
      hide FateOf;
      var step := Follow(d, window, origin, claim, key, p, guesses);
      var first := guesses[0];
      assert forall g :: g in guesses <==> g == first || g in guesses[1..];
      assert first in guesses;
    }
  }

  // ----- the boundaries of a marking -----

  /** A position of the marked input is a boundary: its start, or right after a byte that closes. */
  predicate IsBoundary(marks: seq<Marked>, x: nat) {
    x == 0 || (x <= |marks| && marks[x - 1].closes)
  }

  /** The boundary the open segment began at. */
  function LastBoundary(marks: seq<Marked>): (last: nat)
    ensures last <= |marks|
  {
    if marks == [] then 0
    else if marks[|marks| - 1].closes then |marks|
    else LastBoundary(marks[..|marks| - 1])
  }

  lemma {:induction false} LastIsGreatest(marks: seq<Marked>)
    ensures IsBoundary(marks, LastBoundary(marks))
    ensures forall x: nat | IsBoundary(marks, x) :: x <= LastBoundary(marks)
  {
    if marks != [] {
      LastIsGreatest(marks[..|marks| - 1]);
      assert forall x: nat | x < |marks| :: IsBoundary(marks, x) <==> IsBoundary(marks[..|marks| - 1], x);
    }
  }

  lemma {:induction false} LastSnoc(marks: seq<Marked>, m: Marked)
    ensures LastBoundary(marks + [m]) == if m.closes then |marks| + 1 else LastBoundary(marks)
  {
    assert (marks + [m])[..|marks|] == marks;
  }

  /** The boundaries listed are exactly those. */
  lemma {:induction false} ListsBoundaries(marks: seq<Marked>, x: nat)
    ensures x in Boundaries(marks) <==> IsBoundary(marks, x)
  {
    if marks != [] {
      ListsBoundaries(marks[..|marks| - 1], x);
    }
  }

  // ----- the claims -----

  /** The greatest boundary at or before byte x is t. */
  ghost predicate BeginsCover(cuts: nat -> bool, x: nat, t: nat) {
    cuts(t) && t <= x && forall c: nat | cuts(c) && c <= x :: c <= t
  }

  /** The claim about the origin fails at the occurrence at p, its boundaries given as a predicate. */
  ghost predicate Fails(claim: Claim, origin: nat, window: Word, cuts: nat -> bool, p: nat)
    requires window != []
  {
    match claim
    case Covers => !BeginsCover(cuts, p + |window| - 1, p + origin)
    case Cut => !cuts(p + origin)
    case Crossed => cuts(p + origin)
  }

  ghost function AsBoundaries(cuts: seq<nat>): nat -> bool {
    (x: nat) => x in cuts
  }

  ghost function BoundariesOf(marks: seq<Marked>): nat -> bool {
    (x: nat) => IsBoundary(marks, x)
  }

  /** The input is completely tokenizable and the claim fails at an occurrence of the window in it. */
  ghost predicate Refutes(d: Dfa, window: Word, origin: nat, claim: Claim, s: Word)
    requires window != []
  {
    exists cuts, p: nat :: Segmentation(d, s, 0, cuts) && FailsAt(claim, origin, window, s, cuts, p)
  }

  ghost predicate FailsAt(claim: Claim, origin: nat, window: Word, s: Word, cuts: seq<nat>, p: nat)
    requires window != []
  {
    OccursAt(s, window, p) && Fails(claim, origin, window, AsBoundaries(cuts), p)
  }

  /** What the origin bit says of the occurrence guessed at p. */
  ghost predicate Bit(claim: Claim, origin: nat, marks: seq<Marked>, p: nat) {
    if claim == Covers then LastBoundary(marks) == p + origin else IsBoundary(marks, p + origin)
  }

  /** The input read so far refutes the claim, whatever may follow. */
  ghost predicate Refuted(window: Word, origin: nat, claim: Claim, marks: seq<Marked>)
    requires window != []
  {
    exists p: nat :: OccursAt(BytesOf(marks), window, p) && Fails(claim, origin, window, BoundariesOf(marks), p)
  }

  /** The key is what a scan and a matcher that guessed some occurrence are in after the marked input. */
  ghost predicate Means(d: Dfa, window: Word, origin: nat, claim: Claim, key: Key, marks: seq<Marked>)
    requires window != []
  {
    && ReadAll(d, marks) == Some(key.scan)
    && if key.marked then Refuted(window, origin, claim, marks)
       else
         && key.matched < |window| && key.matched <= |marks|
         && BytesOf(marks)[|marks| - key.matched..] == window[..key.matched]
         && key.atOrigin == Bit(claim, origin, marks, |marks| - key.matched)
  }

  // ----- one step of the search, read on the marked input -----

  /** The bit after a byte says of the occurrence under way what the boundaries after the byte do. */
  lemma {:induction false} BitStep(
      claim: Claim, origin: nat, atOrigin: bool, marks: seq<Marked>, m: Marked, matched: nat, p: nat)
    requires p + matched == |marks| + 1
    requires matched > 0 ==> atOrigin == Bit(claim, origin, marks, p)
    ensures BitAfter(claim, origin, atOrigin, Guess(matched, m.closes)) == Bit(claim, origin, marks + [m], p)
  {
    LastSnoc(marks, m);
  }

  /** A claim about an occurrence depends on the boundaries up to its end. */
  lemma FailsAgree(claim: Claim, origin: nat, window: Word, a: nat -> bool, b: nat -> bool, p: nat)
    requires window != [] && origin <= |window| && forall c: nat | c <= p + |window| :: a(c) == b(c)
    ensures Fails(claim, origin, window, a, p) <==> Fails(claim, origin, window, b, p)
  {
  }

  /** The boundary the open segment began at is the one that covers the last byte read. */
  lemma {:induction false} LastCovers(marks: seq<Marked>, m: Marked, t: nat)
    ensures BeginsCover(BoundariesOf(marks + [m]), |marks|, t) <==> t == LastBoundary(marks)
  {
    LastIsGreatest(marks);
    var cuts := BoundariesOf(marks + [m]);
    assert forall c: nat | c <= |marks| :: cuts(c) <==> IsBoundary(marks, c);
    if BeginsCover(cuts, |marks|, t) {
      assert IsBoundary(marks, t);
      assert cuts(LastBoundary(marks));
    }
  }

  /** On the byte that completes the occurrence, the claim fails exactly where the search does not drop it. */
  lemma {:induction false} ThroughFails(claim: Claim, origin: nat, window: Word, marks: seq<Marked>, m: Marked, p: nat)
    requires window != [] && p + |window| == |marks| + 1
    ensures Fails(claim, origin, window, BoundariesOf(marks + [m]), p) <==>
              !(if claim == Covers then Bit(Covers, origin, marks, p)
                else Bit(claim, origin, marks + [m], p) == (claim == Cut))
  {
    LastCovers(marks, m, p + origin);
  }

  /** Past the occurrence nothing read changes the claim. */
  lemma {:induction false} FailsStays(claim: Claim, origin: nat, window: Word, marks: seq<Marked>, k: nat, p: nat)
    requires window != [] && p + |window| <= k <= |marks| && origin <= |window|
    ensures Fails(claim, origin, window, BoundariesOf(marks[..k]), p) <==>
      Fails(claim, origin, window, BoundariesOf(marks), p)
  {
    var a, b := BoundariesOf(marks[..k]), BoundariesOf(marks);
    assert forall c: nat | c <= k :: a(c) == b(c);
    FailsAgree(claim, origin, window, a, b, p);
  }

  lemma {:induction false} OccursInMore(s: Word, b: Byte, window: Word, p: nat)
    requires OccursAt(s, window, p)
    ensures OccursAt(s + [b], window, p)
  {
    assert (s + [b])[p..p + |window|] == s[p..p + |window|];
  }

  lemma {:induction false} RefutedStays(window: Word, origin: nat, claim: Claim, marks: seq<Marked>, m: Marked)
    requires window != [] && origin <= |window| && Refuted(window, origin, claim, marks)
    ensures Refuted(window, origin, claim, marks + [m])
  {
    var p: nat :| OccursAt(BytesOf(marks), window, p) && Fails(claim, origin, window, BoundariesOf(marks), p);
    BytesSnoc(marks, m);
    OccursInMore(BytesOf(marks), m.byte, window, p);
    FailsStays(claim, origin, window, marks + [m], |marks|, p);
    assert (marks + [m])[..|marks|] == marks;
  }

  /** The matcher begins or goes on with the occurrence, or stays outside. */
  lemma GuessMoves(window: Word, key: Key, b: Byte, closes: bool, g: Guess)
    requires !key.marked && g in Guesses(window, key, b, closes)
    ensures g.closes ==> closes
    ensures (g.matched == 0 && key.matched == 0)
         || (g.matched == key.matched + 1 <= |window| && window[key.matched] == b)
  {
  }

  /** What the matcher has read ends the input read. */
  lemma {:induction false} MatchGrows(s: Word, window: Word, matched: nat, b: Byte)
    requires matched < |window| && matched <= |s| && s[|s| - matched..] == window[..matched] && window[matched] == b
    ensures (s + [b])[|s| - matched..] == window[..matched + 1]
  {
    assert (s + [b])[|s| - matched..] == s[|s| - matched..] + [b];
    assert window[..matched + 1] == window[..matched] + [b];
  }

  /** An occurrence read through that the search does not drop refutes the claim. */
  lemma {:induction false} ThroughRefutes(
      claim: Claim, origin: nat, window: Word, marks: seq<Marked>, m: Marked, p: nat)
    requires window != [] && p + |window| == |marks| + 1 && OccursAt(BytesOf(marks + [m]), window, p)
    requires
      if claim == Covers then !Bit(Covers, origin, marks, p)
      else Bit(claim, origin, marks + [m], p) != (claim == Cut)
    ensures Refuted(window, origin, claim, marks + [m])
  {
    ThroughFails(claim, origin, window, marks, m, p);
    hide Bit, Fails, OccursAt, BoundariesOf;
  }

  /** A guess off the marked path: the matcher's progress and bit, and what reading the occurrence through means. */
  lemma {:induction false} UnmarkedStep(
      d: Dfa, window: Word, origin: nat, claim: Claim, key: Key, marks: seq<Marked>, b: Byte, p: Position, g: Guess)
    requires window != [] && origin <= |window| && Means(d, window, origin, claim, key, marks) && !key.marked
    requires g in Guesses(window, key, b, d.Accepting(p.reading))
    ensures var fate := FateOf(d, window, origin, claim, key, p, g);
            var more := marks + [Marked(b, g.closes)];
            && (fate.Ends? || (fate.Next? && fate.key.marked) ==> Refuted(window, origin, claim, more))
            && (fate.Next? && !fate.key.marked ==>
                  && fate.key.matched < |window| && fate.key.matched <= |more|
                  && BytesOf(more)[|more| - fate.key.matched..] == window[..fate.key.matched]
                  && fate.key.atOrigin == Bit(claim, origin, more, |more| - fate.key.matched))
  {
    hide FateOf, Guesses, Bit, BitAfter, Refuted, OccursAt, ReadAll;
    var fate, more := FateOf(d, window, origin, claim, key, p, g), marks + [Marked(b, g.closes)];
    UnmarkedFate(d, window, origin, claim, key, p, g);
    MatcherMeans(window, key, marks, b, d.Accepting(p.reading), g);
    var at := |more| - g.matched;
    BitStep(claim, origin, key.atOrigin, marks, Marked(b, g.closes), g.matched, at);
    if g.matched == |window| && !fate.Dropped? {
      ThroughRefutes(claim, origin, window, marks, Marked(b, g.closes), at);
    }
  }

  /** Off the marked path a guess is dropped, refutes, or goes on with its own progress and bit. */
  lemma UnmarkedFate(d: Dfa, window: Word, origin: nat, claim: Claim, key: Key, p: Position, g: Guess)
    requires !key.marked
    ensures var fate := FateOf(d, window, origin, claim, key, p, g);
            var bit := BitAfter(claim, origin, key.atOrigin, g);
            && (g.matched == |window| ==>
                  (!fate.Dropped? <==> !(if claim == Covers then key.atOrigin else bit == (claim == Cut))))
            && (fate.Ends? || (fate.Next? && fate.key.marked) ==> g.matched == |window|)
            && (fate.Next? && !fate.key.marked ==>
                  g.matched != |window| && fate.key.matched == g.matched && fate.key.atOrigin == bit)
  {
  }

  /** The matcher's progress after the byte is what the input read ends with. */
  lemma {:induction false} MatcherMeans(window: Word, key: Key, marks: seq<Marked>, b: Byte, closes: bool, g: Guess)
    requires !key.marked && g in Guesses(window, key, b, closes)
    requires key.matched < |window| && key.matched <= |marks|
    requires BytesOf(marks)[|marks| - key.matched..] == window[..key.matched]
    ensures var more := marks + [Marked(b, g.closes)];
            && g.matched <= |window| && g.matched <= |more|
            && (g.matched > 0 ==> g.matched == key.matched + 1)
            && BytesOf(more)[|more| - g.matched..] == window[..g.matched]
            && (g.matched == |window| ==> OccursAt(BytesOf(more), window, |more| - g.matched))
  {
    GuessMoves(window, key, b, closes, g);
    BytesSnoc(marks, Marked(b, g.closes));
    if g.matched > 0 {
      MatchGrows(BytesOf(marks), window, key.matched, b);
    }
  }

  /** A guess closes only where the segment accepts, and what becomes of it carries the scan and keeps the mark. */
  lemma FateCarries(d: Dfa, window: Word, origin: nat, claim: Claim, key: Key, b: Byte, p: Position, g: Guess)
    requires g in Guesses(window, key, b, d.Accepting(p.reading))
    ensures g.closes ==> d.Accepting(p.reading)
    ensures var fate := FateOf(d, window, origin, claim, key, p, g);
            && (fate.Ends? ==> g.closes)
            && (fate.Next? ==> fate.key.scan == if g.closes then Closed(d, p) else p)
            && (key.marked && fate.Next? ==> fate.key.marked)
  {
  }

  /** The scan after a guess is what the longer marking reads as. */
  lemma {:induction false} GuessReads(d: Dfa, marks: seq<Marked>, scan: Position, b: Byte, p: Position, g: Guess)
    requires ReadAll(d, marks) == Some(scan) && Advanced(d, scan, b) == Some(p)
    requires g.closes ==> d.Accepting(p.reading)
    ensures ReadAll(d, marks + [Marked(b, g.closes)]) == Some(if g.closes then Closed(d, p) else p)
  {
    ReadSnoc(d, marks, Marked(b, g.closes));
  }

  /** Soundness of one step: what a key means is kept, and an ending refutes the claim on a complete tokenization. */
  lemma {:induction false} StepMeans(
      d: Dfa, window: Word, origin: nat, claim: Claim, key: Key, marks: seq<Marked>, b: Byte, p: Position, g: Guess)
    requires window != [] && origin <= |window| && Means(d, window, origin, claim, key, marks)
    requires Advanced(d, key.scan, b) == Some(p) && g in Guesses(window, key, b, d.Accepting(p.reading))
    ensures var more := marks + [Marked(b, g.closes)];
            var fate := FateOf(d, window, origin, claim, key, p, g);
            && (fate.Ends? ==> g.closes && ReadAll(d, more).Some? && Refuted(window, origin, claim, more))
            && (fate.Next? ==> Means(d, window, origin, claim, fate.key, more))
  {
    hide Bit, Refuted, OccursAt, ReadAll, Guesses, FateOf, Advanced, Closed;
    FateCarries(d, window, origin, claim, key, b, p, g);
    GuessReads(d, marks, key.scan, b, p, g);
    if key.marked {
      RefutedStays(window, origin, claim, marks, Marked(b, g.closes));
    } else {
      UnmarkedStep(d, window, origin, claim, key, marks, b, p, g);
    }
  }

  ghost function Expand(d: Dfa, window: Word, origin: nat, claim: Claim): (Key, Byte) -> Step<Key> {
    (key: Key, b: Byte) => OriginStep(d, window, origin, claim, key, b)
  }

  function StartKey(d: Dfa, origin: nat): Key {
    Key(Initial(d), 0, origin == 0, false)
  }

  lemma {:induction false} PassesIsGuess(d: Dfa, window: Word, origin: nat, claim: Claim, k: Key, b: Byte, next: Key)
    returns (p: Position, g: Guess)
    requires Passes(Expand(d, window, origin, claim), k, b, next)
    ensures Advanced(d, k.scan, b) == Some(p) && g in Guesses(window, k, b, d.Accepting(p.reading))
    ensures FateOf(d, window, origin, claim, k, p, g) == Next(next)
  {
    p := Advanced(d, k.scan, b).value;
    var guesses := Guesses(window, k, b, d.Accepting(p.reading));
    FollowsAll(d, window, origin, claim, k, p, guesses);
    g :| g in guesses && FateOf(d, window, origin, claim, k, p, g) == Next(next);
  }

  lemma {:induction false} EndsIsGuess(d: Dfa, window: Word, origin: nat, claim: Claim, k: Key, b: Byte)
    returns (p: Position, g: Guess)
    requires Expand(d, window, origin, claim)(k, b).ends
    ensures Advanced(d, k.scan, b) == Some(p) && g in Guesses(window, k, b, d.Accepting(p.reading))
    ensures FateOf(d, window, origin, claim, k, p, g) == Ends
  {
    p := Advanced(d, k.scan, b).value;
    var guesses := Guesses(window, k, b, d.Accepting(p.reading));
    FollowsAll(d, window, origin, claim, k, p, guesses);
    g :| g in guesses && FateOf(d, window, origin, claim, k, p, g).Ends?;
  }

  /** A byte between two keys extends the marking the first means to one the next means. */
  lemma {:induction false} PassMeans(
      d: Dfa, window: Word, origin: nat, claim: Claim, k: Key, before: seq<Marked>, b: Byte, next: Key)
    returns (marks: seq<Marked>)
    requires window != [] && origin <= |window| && Means(d, window, origin, claim, k, before)
    requires Passes(Expand(d, window, origin, claim), k, b, next)
    ensures BytesOf(marks) == BytesOf(before) + [b] && Means(d, window, origin, claim, next, marks)
  {
    hide Means, FateOf, Guesses, Expand, Passes;
    var p, g := PassesIsGuess(d, window, origin, claim, k, b, next);
    StepMeans(d, window, origin, claim, k, before, b, p, g);
    BytesSnoc(before, Marked(b, g.closes));
    marks := before + [Marked(b, g.closes)];
  }

  lemma StartMeans(d: Dfa, window: Word, origin: nat, claim: Claim)
    requires window != []
    ensures Means(d, window, origin, claim, StartKey(d, origin), [])
  {
  }

  /** Every key a word leads to is what some marking of the word means. */
  lemma {:induction false} LeadsMeans(d: Dfa, window: Word, origin: nat, claim: Claim, w: Word, key: Key)
    returns (marks: seq<Marked>)
    requires window != [] && origin <= |window|
    requires Leads(Expand(d, window, origin, claim), StartKey(d, origin), w, key)
    ensures BytesOf(marks) == w && Means(d, window, origin, claim, key, marks)
    decreases |w|
  {
    hide Means, Expand, Passes, StartKey;
    if w == [] {
      marks := [];
      StartMeans(d, window, origin, claim);
    } else {
      var front, b := w[..|w| - 1], w[|w| - 1];
      var expand := Expand(d, window, origin, claim);
      var k :| Leads(expand, StartKey(d, origin), front, k) && Passes(expand, k, b, key);
      hide Leads;
      var before := LeadsMeans(d, window, origin, claim, front, k);
      marks := PassMeans(d, window, origin, claim, k, before, b, key);
      assert w == front + [b];
    }
  }

  /** A refuting marking that closes on its last byte and survives marks an input that refutes the claim. */
  lemma {:induction false} RefutedMarkingRefutes(d: Dfa, window: Word, origin: nat, claim: Claim, marks: seq<Marked>)
    requires window != [] && !d.Accepting(d.init) && marks != [] && marks[|marks| - 1].closes
    requires ReadAll(d, marks).Some? && Refuted(window, origin, claim, marks)
    ensures Refutes(d, window, origin, claim, BytesOf(marks))
  {
    SurvivorIsSegmentation(d, marks);
    var p: nat :| OccursAt(BytesOf(marks), window, p) && Fails(claim, origin, window, BoundariesOf(marks), p);
    FailsListed(claim, origin, window, marks, p);
    assert FailsAt(claim, origin, window, BytesOf(marks), Boundaries(marks), p);
  }

  lemma {:induction false} FailsListed(claim: Claim, origin: nat, window: Word, marks: seq<Marked>, p: nat)
    requires window != []
    ensures Fails(claim, origin, window, BoundariesOf(marks), p) <==>
              Fails(claim, origin, window, AsBoundaries(Boundaries(marks)), p)
  {
    var a, b := BoundariesOf(marks), AsBoundaries(Boundaries(marks));
    forall c: nat ensures a(c) <==> b(c) {
      ListsBoundaries(marks, c);
    }
    hide Boundaries, IsBoundary;
  }

  lemma {:induction false} KeyEndRefutes(
      d: Dfa, window: Word, origin: nat, claim: Claim, k: Key, marks: seq<Marked>, b: Byte)
    requires window != [] && origin <= |window| && !d.Accepting(d.init)
    requires Means(d, window, origin, claim, k, marks) && Expand(d, window, origin, claim)(k, b).ends
    ensures Refutes(d, window, origin, claim, BytesOf(marks) + [b])
  {
    hide Means, FateOf, Guesses, Refuted, Refutes;
    var p, g := EndsIsGuess(d, window, origin, claim, k, b);
    StepMeans(d, window, origin, claim, k, marks, b, p, g);
    BytesSnoc(marks, Marked(b, g.closes));
    RefutedMarkingRefutes(d, window, origin, claim, marks + [Marked(b, g.closes)]);
  }

  /** An input the search ends on refutes the claim. */
  lemma {:induction false} EndsRefutes(d: Dfa, window: Word, origin: nat, claim: Claim, w: Word)
    requires window != [] && origin <= |window| && !d.Accepting(d.init)
    requires EndsOn(Expand(d, window, origin, claim), StartKey(d, origin), w)
    ensures Refutes(d, window, origin, claim, w)
  {
    hide Expand, Leads, Refutes, Means;
    var front, b := w[..|w| - 1], w[|w| - 1];
    var k := EndsAtKey(Expand(d, window, origin, claim), StartKey(d, origin), w);
    var before := LeadsMeans(d, window, origin, claim, front, k);
    assert w == front + [b];
    KeyEndRefutes(d, window, origin, claim, k, before, b);
  }

  // ----- every refuting input is found -----

  /** How far the matcher has read, guessing the occurrence at p, after k bytes. */
  function Progress(n: nat, p: nat, k: nat): nat {
    if k <= p then 0 else if k < p + n then k - p else n
  }

  /** The key a scan and a matcher are in after k bytes of a marking whose occurrence at p fails the claim. */
  ghost function KeyAlong(d: Dfa, window: Word, origin: nat, claim: Claim, marks: seq<Marked>, p: nat, k: nat): Key
    requires k <= |marks| && ReadAll(d, marks[..k]).Some?
  {
    var through := k >= p + |window|;
    Key(ReadAll(d, marks[..k]).value, Progress(|window|, p, k),
        !through && Bit(claim, origin, marks[..k], if k <= p then k else p), through)
  }

  lemma {:induction false} ReadOne(d: Dfa, marks: seq<Marked>, k: nat)
    requires k < |marks| && ReadAll(d, marks[..k]).Some? && ReadAll(d, marks[..k + 1]).Some?
    ensures var p := Advanced(d, ReadAll(d, marks[..k]).value, marks[k].byte);
            && p.Some?
            && (marks[k].closes ==> d.Accepting(p.value.reading))
            && ReadAll(d, marks[..k + 1]).value == if marks[k].closes then Closed(d, p.value) else p.value
  {
    assert marks[..k + 1] == marks[..k] + [marks[k]];
    ReadSnoc(d, marks[..k], marks[k]);
  }

  /** The guess the marking and the occurrence make is among those the byte opens. */
  lemma {:induction false} GuessAlong(window: Word, key: Key, b: Byte, closes: bool, accepting: bool, p: nat, k: nat)
    requires window != [] && key.matched == Progress(|window|, p, k) && (key.marked <==> k >= p + |window|)
    requires p <= k < p + |window| ==> window[k - p] == b
    requires closes ==> accepting
    ensures Guess(Progress(|window|, p, k + 1), closes) in Guesses(window, key, b, accepting)
  {
    var g := Guess(Progress(|window|, p, k + 1), closes);
    assert g in Branch(g.matched, accepting);
  }

  /** The bit after one more byte of the marking. */
  lemma {:induction false} BitAlong(d: Dfa, window: Word, origin: nat, claim: Claim, marks: seq<Marked>, p: nat, k: nat)
    requires window != [] && k < |marks| && k < p + |window|
    ensures BitAfter(claim, origin, Bit(claim, origin, marks[..k], if k <= p then k else p),
                     Guess(Progress(|window|, p, k + 1), marks[k].closes))
         == Bit(claim, origin, marks[..k + 1], if k + 1 <= p then k + 1 else p)
  {
    assert marks[..k + 1] == marks[..k] + [marks[k]];
    BitStep(claim, origin, Bit(claim, origin, marks[..k], if k <= p then k else p), marks[..k], marks[k],
            Progress(|window|, p, k + 1), if k + 1 <= p then k + 1 else p);
  }

  /**
    That guess ends the input where the claim has failed and a token closes, and otherwise leads to
    the next key along.
   */
  lemma {:induction false} FateAlong(
      d: Dfa, window: Word, origin: nat, claim: Claim, marks: seq<Marked>, p: nat, k: nat)
    requires window != [] && origin <= |window| && p + |window| <= |marks| && k < |marks|
    requires ReadAll(d, marks[..k]).Some? && ReadAll(d, marks[..k + 1]).Some?
    requires Fails(claim, origin, window, BoundariesOf(marks), p)
    ensures var key := KeyAlong(d, window, origin, claim, marks, p, k);
            var next := Advanced(d, key.scan, marks[k].byte);
            && next.Some?
            && FateOf(d, window, origin, claim, key, next.value, Guess(Progress(|window|, p, k + 1), marks[k].closes))
            == if k + 1 >= p + |window| && marks[k].closes then Ends
               else Next(KeyAlong(d, window, origin, claim, marks, p, k + 1))
  {
    ReadOne(d, marks, k);
    if k < p + |window| {
      BitAlong(d, window, origin, claim, marks, p, k);
    }
    if k + 1 == p + |window| {
      assert marks[..k + 1] == marks[..k] + [marks[k]];
      FailsStays(claim, origin, window, marks, k + 1, p);
      ThroughFails(claim, origin, window, marks[..k], marks[k], p);
    }
    hide Bit, Fails, BitAfter;
  }

  /** One byte along: the search ends, or reaches the next key along; on the last byte it ends. */
  lemma {:induction false} StepAlong(
      d: Dfa, window: Word, origin: nat, claim: Claim, marks: seq<Marked>, p: nat, k: nat)
    requires window != [] && origin <= |window| && k < |marks|
    requires ReadAll(d, marks[..k]).Some? && ReadAll(d, marks[..k + 1]).Some?
    requires OccursAt(BytesOf(marks), window, p) && Fails(claim, origin, window, BoundariesOf(marks), p)
    ensures var step := Expand(d, window, origin, claim)(KeyAlong(d, window, origin, claim, marks, p, k),
      marks[k].byte);
            && (step.ends || KeyAlong(d, window, origin, claim, marks, p, k + 1) in step.successors)
            && (k + 1 == |marks| && marks[k].closes ==> step.ends)
  {
    var key, b := KeyAlong(d, window, origin, claim, marks, p, k), marks[k].byte;
    var g := Guess(Progress(|window|, p, k + 1), marks[k].closes);
    FateAlong(d, window, origin, claim, marks, p, k);
    ReadOne(d, marks, k);
    var next := Advanced(d, key.scan, b).value;
    assert p <= k < p + |window| ==> window[k - p] == BytesOf(marks)[k];
    GuessAlong(window, key, b, marks[k].closes, d.Accepting(next.reading), p, k);
    hide FateOf, Guesses, KeyAlong;
    FollowsAll(d, window, origin, claim, key, next, Guesses(window, key, b, d.Accepting(next.reading)));
  }

  lemma {:induction false} StartAlong(d: Dfa, window: Word, origin: nat, claim: Claim, marks: seq<Marked>, p: nat)
    requires window != []
    ensures ReadAll(d, marks[..0]).Some? && KeyAlong(d, window, origin, claim, marks, p, 0) == StartKey(d, origin)
  {
    assert marks[..0] == [];
  }

  /** An input that refutes the claim ends the search, itself or a shorter part of it. */
  lemma {:induction false} RefutesIsFound(d: Dfa, window: Word, origin: nat, claim: Claim, s: Word) returns (j: nat)
    requires window != [] && origin <= |window| && !d.Accepting(d.init)
    requires Refutes(d, window, origin, claim, s)
    ensures j <= |s| && EndsOn(Expand(d, window, origin, claim), StartKey(d, origin), s[..j])
  {
    var cuts, p: nat :| Segmentation(d, s, 0, cuts) && FailsAt(claim, origin, window, s, cuts, p);
    hide Expand, KeyAlong, FailsAt, Segmentation, Fails, ReadAll, EndsOn;
    j := MarkingIsFound(d, window, origin, claim, s, cuts, p);
  }

  lemma {:induction false} MarkingIsFound(
      d: Dfa, window: Word, origin: nat, claim: Claim, s: Word, cuts: seq<nat>, p: nat)
    returns (j: nat)
    requires window != [] && origin <= |window| && !d.Accepting(d.init)
    requires Segmentation(d, s, 0, cuts) && FailsAt(claim, origin, window, s, cuts, p)
    ensures j <= |s| && EndsOn(Expand(d, window, origin, claim), StartKey(d, origin), s[..j])
  {
    hide Expand, KeyAlong, Fails, EndsOn;
    var marks := MarksOf(s, cuts);
    SegmentationIsMarking(d, s, cuts);
    FailsListed(claim, origin, window, marks, p);
    hide FailsAt, Segmentation;
    forall k | 0 <= k <= |s| ensures ReadAll(d, marks[..k]).Some? {
      PrefixSurvives(d, marks, k);
    }
    hide ReadAll;
    var keys := seq(|s|, k requires 0 <= k < |s| => KeyAlong(d, window, origin, claim, marks, p, k));
    var expand := Expand(d, window, origin, claim);
    StartAlong(d, window, origin, claim, marks, p);
    forall k | 0 <= k < |s|
      ensures expand(keys[k], s[k]).ends || (k + 1 < |s| && keys[k + 1] in expand(keys[k], s[k]).successors)
    {
      StepAlong(d, window, origin, claim, marks, p, k);
    }
    assert s[..0] == [];
    j := SomePrefixEnds(expand, StartKey(d, origin), s, keys, 0);
  }

  // ----- finitely many keys -----

  /** Every key the search can hold. */
  ghost function KeysOf(d: Dfa, window: Word): set<Key> {
    set p, m, x: bool, y: bool | p in Positions(d) && 0 <= m <= |window| :: Key(p, m, x, y)
  }

  lemma {:induction false} FollowInKeys(
      d: Dfa, window: Word, origin: nat, claim: Claim, key: Key, p: Position, guesses: seq<Guess>, n: Key)
    requires d.Valid() && InRange(d, p) && (forall g | g in guesses :: g.matched <= |window|)
    requires n in Follow(d, window, origin, claim, key, p, guesses).successors
    ensures n in KeysOf(d, window)
  {
    if guesses != [] {
      if n !in Follow(d, window, origin, claim, key, p, guesses[1..]).successors {
        assert guesses[0] in guesses;
        InPositions(d, n.scan);
      } else {
        FollowInKeys(d, window, origin, claim, key, p, guesses[1..], n);
      }
    }
  }

  lemma {:induction false} StepInKeys(d: Dfa, window: Word, origin: nat, claim: Claim, key: Key, b: Byte, n: Key)
    requires d.Valid() && key in KeysOf(d, window) && n in OriginStep(d, window, origin, claim, key, b).successors
    ensures n in KeysOf(d, window)
  {
    AdvanceInRange(d, key.scan, b);
    var p := Advanced(d, key.scan, b).value;
    var guesses := Guesses(window, key, b, d.Accepting(p.reading));
    FollowInKeys(d, window, origin, claim, key, p, guesses, n);
  }

  lemma {:induction false} KeysSuffice(d: Dfa, window: Word, origin: nat, claim: Claim, cap: nat)
    requires d.Valid() && |KeysOf(d, window)| <= cap
    ensures !Exceeds(Expand(d, window, origin, claim), StartKey(d, origin), cap)
  {
    InPositions(d, Initial(d));
    var expand := Expand(d, window, origin, claim);
    forall m, b: Byte, n | m in KeysOf(d, window) && n in expand(m, b).successors ensures n in KeysOf(d, window) {
      StepInKeys(d, window, origin, claim, m, b, n);
    }
    UniverseSuffices(expand, StartKey(d, origin), cap, KeysOf(d, window));
  }

  // ----- the decisions -----

  /**
    The search the window decisions share: a shortest completely tokenizable input
    in which some occurrence of the window fails the claim, where there is one;
    nothing found by an exhausted search proves there is none.
   */
  method OriginSearch(sim: Simulator, window: Word, origin: nat, claim: Claim, cap: nat)
    returns (found: Word, exhaustive: bool)
    requires sim.Valid() && window != [] && origin <= |window|
    ensures found != [] ==> exhaustive && Refutes(sim.dfa, window, origin, claim, found)
    ensures found != [] ==> forall s | Refutes(sim.dfa, window, origin, claim, s) :: |found| <= |s|
    ensures found == [] && exhaustive ==> forall s :: !Refutes(sim.dfa, window, origin, claim, s)
    ensures !exhaustive ==> Exceeds(Expand(sim.dfa, window, origin, claim), StartKey(sim.dfa, origin), cap)
    ensures |KeysOf(sim.dfa, window)| <= cap ==> exhaustive
  {
    var d := sim.dfa;
    var expand := (key: Key, b: Byte) => OriginStep(d, window, origin, claim, key, b);
    found, exhaustive := RunSearch(StartKey(d, origin), cap, expand);
    assert expand == Expand(d, window, origin, claim);
    hide Refutes, Exceeds, KeysOf;
    if |KeysOf(d, window)| <= cap {
      KeysSuffice(d, window, origin, claim, cap);
    }
    if found != [] {
      EndsRefutes(d, window, origin, claim, found);
    }
    forall s | Refutes(d, window, origin, claim, s)
      ensures exists j: nat :: j <= |s| && EndsOn(Expand(d, window, origin, claim), StartKey(d, origin), s[..j])
    {
      var j := RefutesIsFound(d, window, origin, claim, s);
    }
  }

  /** The greatest boundary at or before a byte is where its covering token begins. */
  lemma {:induction false} CoverIsIndex(d: Dfa, s: Word, cuts: seq<nat>, i: nat, x: nat, t: nat)
    requires Segmentation(d, s, 0, cuts) && i < |cuts| - 1 && cuts[i] <= x < cuts[i + 1]
    ensures BeginsCover(AsBoundaries(cuts), x, t) <==> t == cuts[i]
  {
    forall c: nat | c in cuts && c <= x ensures c <= cuts[i] {
      var j :| 0 <= j < |cuts| && cuts[j] == c;
      if i < j {
        CutsIncreaseTo(d, s, cuts, i + 1, j);
      } else {
        CutsIncreaseTo(d, s, cuts, j, i);
      }
    }
    assert AsBoundaries(cuts)(cuts[i]);
  }

  /** Failing the covering claim is the covering token of the final byte beginning elsewhere. */
  lemma {:induction false} CoversFails(d: Dfa, window: Word, origin: nat, s: Word, cuts: seq<nat>, p: nat)
    requires window != [] && Segmentation(d, s, 0, cuts) && OccursAt(s, window, p)
    ensures FailsAt(Covers, origin, window, s, cuts, p) <==> !CoveredFrom(d, s, p + |window| - 1, p + origin)
  {
    var i := CoveringIndex(d, s, 0, cuts, p + |window| - 1);
    CoverIsIndex(d, s, cuts, i, p + |window| - 1, p + origin);
    CoveredIsIndex(d, s, cuts, i, p + |window| - 1, p + origin);
  }

  /** The input refutes the certificate: at some occurrence of the window the covering token begins elsewhere. */
  ghost predicate Miscovers(d: Dfa, window: Word, origin: nat, s: Word)
    requires window != []
  {
    Tokenizes(d, s) && exists p: nat :: OccursAt(s, window, p) && !CoveredFrom(d, s, p + |window| - 1, p + origin)
  }

  lemma {:induction false} MiscoversIsRefutes(d: Dfa, window: Word, origin: nat, s: Word)
    requires window != []
    ensures Miscovers(d, window, origin, s) <==> Refutes(d, window, origin, Covers, s)
  {
    if Miscovers(d, window, origin, s) {
      var cuts :| Segmentation(d, s, 0, cuts);
      var p: nat :| OccursAt(s, window, p) && !CoveredFrom(d, s, p + |window| - 1, p + origin);
      CoversFails(d, window, origin, s, cuts, p);
    }
    if Refutes(d, window, origin, Covers, s) {
      var cuts, p: nat :| Segmentation(d, s, 0, cuts) && FailsAt(Covers, origin, window, s, cuts, p);
      CoversFails(d, window, origin, s, cuts, p);
    }
  }

  /** Decides a window certificate exactly: a shortest input that fails it, or a proof that none does. */
  method WindowCounterexample(sim: Simulator, window: Word, origin: nat, cap: nat)
    returns (found: Word, exhaustive: bool)
    requires sim.Valid() && origin < |window|
    ensures found != [] ==> exhaustive && Miscovers(sim.dfa, window, origin, found)
    ensures found != [] ==> forall s | Miscovers(sim.dfa, window, origin, s) :: |found| <= |s|
    ensures found == [] && exhaustive ==> forall s :: !Miscovers(sim.dfa, window, origin, s)
    ensures !exhaustive ==> Exceeds(Expand(sim.dfa, window, origin, Covers), StartKey(sim.dfa, origin), cap)
    ensures |KeysOf(sim.dfa, window)| <= cap ==> exhaustive
  {
    found, exhaustive := OriginSearch(sim, window, origin, Covers, cap);
    forall s ensures Miscovers(sim.dfa, window, origin, s) <==> Refutes(sim.dfa, window, origin, Covers, s) {
      MiscoversIsRefutes(sim.dfa, window, origin, s);
    }
  }

  /** Some occurrence of the window in the input has no boundary at the gap. */
  ghost predicate CrossesSomewhere(d: Dfa, window: Word, gap: nat, s: Word) {
    exists cuts, p: nat :: Segmentation(d, s, 0, cuts) && OccursAt(s, window, p) && !AsBoundaries(cuts)(p + gap)
  }

  /** Some occurrence of the window in the input has a boundary at the gap, the input's end among the boundaries. */
  ghost predicate CutsSomewhere(d: Dfa, window: Word, gap: nat, s: Word) {
    exists cuts, p: nat :: Segmentation(d, s, 0, cuts) && OccursAt(s, window, p) && AsBoundaries(cuts)(p + gap)
  }

  lemma {:induction false} GapRefutes(d: Dfa, window: Word, gap: nat, s: Word)
    requires window != []
    ensures CrossesSomewhere(d, window, gap, s) <==> Refutes(d, window, gap, Cut, s)
    ensures CutsSomewhere(d, window, gap, s) <==> Refutes(d, window, gap, Crossed, s)
  {
    if cuts, p: nat :| Segmentation(d, s, 0, cuts) && OccursAt(s, window, p) && !AsBoundaries(cuts)(p + gap) {
      assert FailsAt(Cut, gap, window, s, cuts, p);
    }
    if cuts, p: nat :| Segmentation(d, s, 0, cuts) && OccursAt(s, window, p) && AsBoundaries(cuts)(p + gap) {
      assert FailsAt(Crossed, gap, window, s, cuts, p);
    }
  }

  /**
    Is the gap always a boundary? A least input with a token across it, or the knowledge that there
    is no such input.
   */
  method BoundaryCounterexample(sim: Simulator, window: Word, gap: nat, cap: nat)
    returns (found: Word, exhaustive: bool)
    requires sim.Valid() && window != [] && gap <= |window|
    ensures found != [] ==> exhaustive && CrossesSomewhere(sim.dfa, window, gap, found)
    ensures found != [] ==> forall s | CrossesSomewhere(sim.dfa, window, gap, s) :: |found| <= |s|
    ensures found == [] && exhaustive ==> forall s :: !CrossesSomewhere(sim.dfa, window, gap, s)
    ensures !exhaustive ==> Exceeds(Expand(sim.dfa, window, gap, Cut), StartKey(sim.dfa, gap), cap)
    ensures |KeysOf(sim.dfa, window)| <= cap ==> exhaustive
  {
    found, exhaustive := OriginSearch(sim, window, gap, Cut, cap);
    forall s ensures CrossesSomewhere(sim.dfa, window, gap, s) <==> Refutes(sim.dfa, window, gap, Cut, s) {
      GapRefutes(sim.dfa, window, gap, s);
    }
  }

  /**
    Is the gap always inside a token? A least input with a boundary there, or the knowledge that
    there is no such input.
   */
  method CrossingCounterexample(sim: Simulator, window: Word, gap: nat, cap: nat)
    returns (found: Word, exhaustive: bool)
    requires sim.Valid() && window != [] && gap <= |window|
    ensures found != [] ==> exhaustive && CutsSomewhere(sim.dfa, window, gap, found)
    ensures found != [] ==> forall s | CutsSomewhere(sim.dfa, window, gap, s) :: |found| <= |s|
    ensures found == [] && exhaustive ==> forall s :: !CutsSomewhere(sim.dfa, window, gap, s)
    ensures !exhaustive ==> Exceeds(Expand(sim.dfa, window, gap, Crossed), StartKey(sim.dfa, gap), cap)
    ensures |KeysOf(sim.dfa, window)| <= cap ==> exhaustive
  {
    found, exhaustive := OriginSearch(sim, window, gap, Crossed, cap);
    forall s ensures CutsSomewhere(sim.dfa, window, gap, s) <==> Refutes(sim.dfa, window, gap, Crossed, s) {
      GapRefutes(sim.dfa, window, gap, s);
    }
  }

  /**
    A certificate is the two gap claims together: no input miscovers the window at
    the origin exactly when none crosses the gap there and none is cut at a later
    gap inside the window.
   */
  lemma {:induction false} CertificateIsGaps(d: Dfa, window: Word, origin: nat)
    requires origin < |window|
    ensures (forall s :: !Miscovers(d, window, origin, s)) <==>
              (forall s :: !CrossesSomewhere(d, window, origin, s))
              && forall gap: nat, s | origin < gap < |window| :: !CutsSomewhere(d, window, gap, s)
  {
    hide Miscovers, CrossesSomewhere, CutsSomewhere;
    if forall s :: !Miscovers(d, window, origin, s) {
      forall s ensures !CrossesSomewhere(d, window, origin, s) {
        MiscoverIsGap(d, window, origin, s);
      }
      forall gap: nat, s | origin < gap < |window| ensures !CutsSomewhere(d, window, gap, s) {
        MiscoverIsGap(d, window, origin, s);
      }
    }
    if (forall s :: !CrossesSomewhere(d, window, origin, s))
       && forall gap: nat, s | origin < gap < |window| :: !CutsSomewhere(d, window, gap, s) {
      forall s ensures !Miscovers(d, window, origin, s) {
        MiscoverIsGap(d, window, origin, s);
      }
    }
  }

  lemma {:induction false} MiscoverIsGap(d: Dfa, window: Word, origin: nat, s: Word)
    requires origin < |window|
    ensures Miscovers(d, window, origin, s) <==>
              CrossesSomewhere(d, window, origin, s)
              || exists gap: nat :: origin < gap < |window| && CutsSomewhere(d, window, gap, s)
  {
    MiscoversIsRefutes(d, window, origin, s);
    if Miscovers(d, window, origin, s) {
      var cuts, p: nat :| Segmentation(d, s, 0, cuts) && FailsAt(Covers, origin, window, s, cuts, p);
      if AsBoundaries(cuts)(p + origin) {
        var c: nat :| AsBoundaries(cuts)(c) && c <= p + |window| - 1 && p + origin < c;
        var gap := c - p;
        assert AsBoundaries(cuts)(p + gap);
        assert CutsSomewhere(d, window, gap, s);
      }
    }
    if CrossesSomewhere(d, window, origin, s) {
      var cuts, p: nat :| Segmentation(d, s, 0, cuts) && OccursAt(s, window, p) && !AsBoundaries(cuts)(p + origin);
      assert FailsAt(Covers, origin, window, s, cuts, p);
    }
    if gap: nat :| origin < gap < |window| && CutsSomewhere(d, window, gap, s) {
      var cuts, p: nat :| Segmentation(d, s, 0, cuts) && OccursAt(s, window, p) && AsBoundaries(cuts)(p + gap);
      assert FailsAt(Covers, origin, window, s, cuts, p);
    }
  }

  /** What the cloud walk certifies, no input refutes: its certificate needs no search. */
  lemma {:induction false} CertifiedNeverRefuted(sim: Simulator, window: Word, origin: nat, s: Word)
    requires sim.Valid() && SplitWindow.Certifies(sim, window, origin)
    ensures !Miscovers(sim.dfa, window, origin, s)
  {
    if Miscovers(sim.dfa, window, origin, s) {
      var p: nat :| OccursAt(s, window, p) && !CoveredFrom(sim.dfa, s, p + |window| - 1, p + origin);
      SplitWindow.CertificateSound(sim, window, origin, s, p);
    }
  }
}

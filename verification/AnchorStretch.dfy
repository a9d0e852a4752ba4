/** Certified windows as anchors, the prefix of a window an input ends with, and guessed stretches no window anchors. */
module AnchorStretch {
  import opened Options
  import opened Machine

  /** A window and the origin in it that a certificate makes a token start. */
  datatype Pair = Pair(window: Word, origin: nat)

  ghost predicate WellFormed(inventory: seq<Pair>) {
    forall i | 0 <= i < |inventory| :: inventory[i].origin < |inventory[i].window|
  }

  // ----- anchors -----

  predicate EndsWith(s: Word, w: Word) {
    |w| <= |s| && s[|s| - |w|..] == w
  }

  /** How far back from its last byte the window anchors. */
  function AgeOf(pair: Pair): nat
    requires pair.origin < |pair.window|
  {
    |pair.window| - 1 - pair.origin
  }

  /** A window of the inventory ends the input and anchors so far back from the last byte. */
  ghost predicate AnchorsBack(inventory: seq<Pair>, s: Word, age: nat)
    requires WellFormed(inventory)
  {
    exists i :: 0 <= i < |inventory| && EndsWith(s, inventory[i].window) && AgeOf(inventory[i]) == age
  }

  /** A window that ends with the first k bytes anchors the position x. */
  ghost predicate AnchorsAt(inventory: seq<Pair>, s: Word, k: nat, x: nat)
    requires WellFormed(inventory)
  {
    1 <= k <= |s| && x < k && AnchorsBack(inventory, s[..k], k - 1 - x)
  }

  /** No window occurring in the input anchors a position from i to before j. */
  ghost predicate Clear(inventory: seq<Pair>, s: Word, i: nat, j: nat)
    requires WellFormed(inventory)
  {
    forall k, x: nat | 1 <= k <= |s| && i <= x < j :: !AnchorsAt(inventory, s, k, x)
  }

  /** No window ending with the last byte anchors a position from i to before j. */
  ghost predicate ClearLast(inventory: seq<Pair>, s: Word, i: nat, j: nat)
    requires WellFormed(inventory)
  {
    forall x: nat | i <= x < j :: !AnchorsAt(inventory, s, |s|, x)
  }

  lemma {:induction false} ClearSnoc(inventory: seq<Pair>, s: Word, b: Byte, i: nat, j: nat)
    requires WellFormed(inventory)
    ensures Clear(inventory, s + [b], i, j) <==> Clear(inventory, s, i, j) && ClearLast(inventory, s + [b], i, j)
  {
    var more := s + [b];
    forall k, x: nat | 1 <= k <= |s| ensures AnchorsAt(inventory, more, k, x) <==> AnchorsAt(inventory, s, k, x) {
      assert more[..k] == s[..k];
    }
    hide AnchorsAt;
  }

  /** Positions past the input are never anchored in it. */
  lemma {:induction false} ClearCut(inventory: seq<Pair>, s: Word, i: nat, j: nat, l: nat)
    requires WellFormed(inventory) && |s| <= j <= l
    ensures Clear(inventory, s, i, j) <==> Clear(inventory, s, i, l)
  {
  }

  // ----- the prefix of a window the input ends with -----

  /** The word begins some window of the inventory. */
  ghost predicate Begins(inventory: seq<Pair>, w: Word) {
    w == [] || exists i :: 0 <= i < |inventory| && w <= inventory[i].window
  }

  /** The longest word the input ends with that begins a window. */
  ghost predicate IsLongest(inventory: seq<Pair>, s: Word, w: Word) {
    && EndsWith(s, w) && Begins(inventory, w)
    && forall v: Word | EndsWith(s, v) && Begins(inventory, v) :: |v| <= |w|
  }

  lemma {:induction false} EndsSnoc(s: Word, b: Byte, w: Word)
    ensures EndsWith(s + [b], w) <==> w == [] || (w[|w| - 1] == b && EndsWith(s, w[..|w| - 1]))
  {
    var more := s + [b];
    if w != [] && |w| <= |more| {
      var front := w[..|w| - 1];
      assert more[|more| - |w|..] == s[|s| - |front|..] + [b];
      assert w == front + [w[|w| - 1]];
    }
  }

  lemma {:induction false} EndsShorter(s: Word, v: Word, w: Word)
    requires EndsWith(s, v) && EndsWith(s, w) && |v| <= |w|
    ensures EndsWith(w, v)
  {
    assert s[|s| - |v|..] == s[|s| - |w|..][|w| - |v|..];
  }

  lemma {:induction false} EndsOnward(s: Word, v: Word, w: Word)
    requires EndsWith(s, w) && EndsWith(w, v)
    ensures EndsWith(s, v)
  {
    assert s[|s| - |v|..] == s[|s| - |w|..][|w| - |v|..];
  }

  lemma {:induction false} BeginsFront(inventory: seq<Pair>, w: Word)
    requires Begins(inventory, w) && w != []
    ensures Begins(inventory, w[..|w| - 1])
  {
    var i :| 0 <= i < |inventory| && w <= inventory[i].window;
    assert w[..|w| - 1] <= inventory[i].window;
  }

  /** A word that begins a window and ends the input after a byte ends the known prefix after it. */
  lemma {:induction false} EndsPrefix(inventory: seq<Pair>, s: Word, p: Word, b: Byte, w: Word)
    requires IsLongest(inventory, s, p) && Begins(inventory, w)
    ensures EndsWith(s + [b], w) <==> EndsWith(p + [b], w)
  {
    EndsSnoc(s, b, w);
    EndsSnoc(p, b, w);
    if w != [] {
      var front := w[..|w| - 1];
      BeginsFront(inventory, w);
      if EndsWith(s, front) {
        EndsShorter(s, front, p);
      }
      if EndsWith(p, front) {
        EndsOnward(s, front, p);
      }
    }
  }

  lemma {:induction false} WindowEnds(inventory: seq<Pair>, s: Word, p: Word, b: Byte, i: nat)
    requires IsLongest(inventory, s, p) && i < |inventory|
    ensures EndsWith(s + [b], inventory[i].window) <==> EndsWith(p + [b], inventory[i].window)
  {
    assert inventory[i].window <= inventory[i].window;
    EndsPrefix(inventory, s, p, b, inventory[i].window);
  }

  /** The longest word known stays the longest after a byte. */
  lemma {:induction false} LongestStep(inventory: seq<Pair>, s: Word, p: Word, b: Byte, q: Word)
    requires IsLongest(inventory, s, p) && IsLongest(inventory, p + [b], q)
    ensures IsLongest(inventory, s + [b], q)
  {
    EndsPrefix(inventory, s, p, b, q);
    forall v: Word | EndsWith(s + [b], v) && Begins(inventory, v) ensures |v| <= |q| {
      EndsPrefix(inventory, s, p, b, v);
    }
  }

  // ----- the stretch -----

  datatype Phase = Before | Inside | After | Settled

  /** Where the input read stands to the guessed stretch, and how far back it began and ended, capped. */
  datatype Stretch = Stretch(phase: Phase, sinceStart: nat, sinceEnd: nat)

  function Least(a: nat, b: nat): nat {
    if a < b then a else b
  }

  predicate AnchorsWithin(ages: set<nat>, low: nat, high: nat) {
    exists age :: age in ages && low <= age <= high
  }

  /**
    The stretch after a byte in it or not, whose completed windows anchor the ages back; none where
    one anchors inside it.
   */
  function Stretched(from: Stretch, ages: set<nat>, cap: nat, inside: bool): Option<Stretch> {
    match from.phase
    case Before =>
      if !inside then Some(Stretch(Before, 0, 0))
      else if AnchorsWithin(ages, 0, 0) then None
      else Some(Stretch(Inside, 0, 0))
    case Inside =>
      var sinceStart := Least(from.sinceStart + 1, cap);
      if inside then
        if AnchorsWithin(ages, 0, sinceStart) then None else Some(Stretch(Inside, sinceStart, 0))
      else if AnchorsWithin(ages, 1, sinceStart) then None
      else if cap > 0 then Some(Stretch(After, sinceStart, 0))
      else Some(Stretch(Settled, 0, 0))
    case After =>
      var sinceStart, sinceEnd := Least(from.sinceStart + 1, cap), from.sinceEnd + 1;
      if inside || AnchorsWithin(ages, sinceEnd + 1, sinceStart) then None
      else if sinceEnd < cap then Some(Stretch(After, sinceStart, sinceEnd))
      else Some(Stretch(Settled, 0, 0))
    case Settled =>
      if inside then None else Some(Stretch(Settled, 0, 0))
  }

  /** The flags are set exactly from i to before j. */
  ghost predicate Block(flags: seq<bool>, i: nat, j: nat) {
    i <= j <= |flags| && forall y | 0 <= y < |flags| :: flags[y] <==> i <= y < j
  }

  /** The flags are one stretch of the input that no window occurring in it anchors. */
  ghost predicate ClearBlock(inventory: seq<Pair>, s: Word, flags: seq<bool>)
    requires WellFormed(inventory)
  {
    exists i: nat, j: nat :: Block(flags, i, j) && Clear(inventory, s, i, j)
  }

  /** The ages at which windows completed by the last byte anchor, none further back than the cap. */
  ghost predicate Ages(inventory: seq<Pair>, s: Word, ages: set<nat>, cap: nat)
    requires WellFormed(inventory)
  {
    forall age: nat :: (age in ages <==> AnchorsBack(inventory, s, age)) && (age in ages ==> age <= cap)
  }

  /** What the stretch's fields say of the flags read so far. */
  ghost predicate Means(t: Stretch, flags: seq<bool>, cap: nat) {
    var k := |flags|;
    match t.phase
    case Before => t == Stretch(Before, 0, 0) && Block(flags, k, k)
    case Inside => t.sinceEnd == 0 && exists i: nat ::
      i < k && Block(flags, i, k) && t.sinceStart == Least(k - 1 - i, cap)
    case After =>
      exists i: nat, j: nat ::
        && i < j < k && Block(flags, i, j) && t.sinceStart == Least(k - 1 - i, cap)
        && t.sinceEnd == k - 1 - j < cap
    case Settled => t == Stretch(Settled, 0, 0) && exists i: nat, j: nat ::
      i < j < k && Block(flags, i, j) && k - 1 - j >= cap
  }

  // ----- one byte -----

  lemma {:induction false} BlockUnique(flags: seq<bool>, i: nat, j: nat, x: nat, y: nat)
    requires Block(flags, i, j) && Block(flags, x, y) && i < j
    ensures i == x && j == y
  {
    assert flags[i] && flags[j - 1];
    assert x < y && flags[x] && flags[y - 1];
  }

  /** Flags that are one nonempty stretch are clear exactly where that stretch is. */
  lemma {:induction false} BlockClear(inventory: seq<Pair>, s: Word, flags: seq<bool>, i: nat, j: nat)
    requires WellFormed(inventory) && Block(flags, i, j) && i < j
    ensures ClearBlock(inventory, s, flags) <==> Clear(inventory, s, i, j)
  {
    hide Clear;
    if ClearBlock(inventory, s, flags) {
      var x: nat, y: nat :| Block(flags, x, y) && Clear(inventory, s, x, y);
      BlockUnique(flags, i, j, x, y);
    }
  }

  lemma {:induction false} NoFlagsClear(inventory: seq<Pair>, s: Word, flags: seq<bool>)
    requires WellFormed(inventory) && Block(flags, |flags|, |flags|)
    ensures ClearBlock(inventory, s, flags)
  {
    assert Clear(inventory, s, |flags|, |flags|);
  }

  /** Which ages reach a stretch from the last byte. */
  lemma {:induction false} LastAges(
      inventory: seq<Pair>, s: Word, ages: set<nat>, cap: nat, i: nat, j: nat)
    requires WellFormed(inventory) && Ages(inventory, s, ages, cap) && i < j <= |s|
    ensures ClearLast(inventory, s, i, j) <==> !AnchorsWithin(ages, |s| - j, Least(|s| - 1 - i, cap))
  {
    assert s[..|s|] == s;
    hide AnchorsBack;
    if AnchorsWithin(ages, |s| - j, Least(|s| - 1 - i, cap)) {
      var age :| age in ages && |s| - j <= age <= Least(|s| - 1 - i, cap);
      assert AnchorsAt(inventory, s, |s|, |s| - 1 - age);
    }
    if x: nat :| i <= x < j && AnchorsAt(inventory, s, |s|, x) {
      assert |s| - 1 - x in ages;
    }
  }

  /** The stretch, with one more byte read. */
  lemma {:induction false} LastClear(
      inventory: seq<Pair>, s: Word, b: Byte, flags: seq<bool>, more: seq<bool>, ages: set<nat>, cap: nat, i: nat,
      j: nat)
    requires WellFormed(inventory) && |flags| == |s| && |more| == |s| + 1 && Ages(inventory, s + [b], ages, cap)
    requires i < j <= |s| + 1 && Block(more, i, j) && i < |s|
    requires Block(flags, i, Least(j, |s|)) && ClearBlock(inventory, s, flags)
    ensures ClearBlock(inventory, s + [b], more) <==> !AnchorsWithin(ages, |s| + 1 - j, Least(|s| - i, cap))
  {
    hide AnchorsAt, AnchorsWithin, Ages, Clear, ClearLast, ClearBlock;
    BlockClear(inventory, s, flags, i, Least(j, |s|));
    BlockClear(inventory, s + [b], more, i, j);
    ClearSnoc(inventory, s, b, i, j);
    if j > |s| {
      ClearCut(inventory, s, i, |s|, j);
    }
    LastAges(inventory, s + [b], ages, cap, i, j);
  }

  lemma BlockSnoc(flags: seq<bool>, i: nat, j: nat, f: bool)
    requires Block(flags, i, j) && (f ==> j == |flags|)
    ensures Block(flags + [f], i, if f then j + 1 else j)
  {
  }

  /** A byte marked in the stretch after the stretch has ended leaves no one stretch. */
  lemma {:induction false} BrokenBlock(inventory: seq<Pair>, s: Word, flags: seq<bool>, i: nat, j: nat)
    requires WellFormed(inventory) && Block(flags, i, j) && i < j < |flags|
    ensures !ClearBlock(inventory, s, flags + [true])
  {
    var more := flags + [true];
    assert more[i] && !more[j] && more[|flags|];
    forall x: nat, y: nat ensures !Block(more, x, y) {
    }
  }

  lemma {:induction false} StepBefore(
      inventory: seq<Pair>, s: Word, b: Byte, flags: seq<bool>, t: Stretch, ages: set<nat>, cap: nat, f: bool)
    requires WellFormed(inventory) && |flags| == |s| && Ages(inventory, s + [b], ages, cap) && t.phase == Before
    requires Means(t, flags, cap)
    ensures Stretched(t, ages, cap, f).Some? <==> ClearBlock(inventory, s + [b], flags + [f])
    ensures Stretched(t, ages, cap, f).Some? ==> Means(Stretched(t, ages, cap, f).value, flags + [f], cap)
  {
    var k := |flags|;
    var more := flags + [f];
    if f {
      BlockSnoc(flags, k, k, true);
      BlockClear(inventory, s + [b], more, k, k + 1);
      ClearSnoc(inventory, s, b, k, k + 1);
      LastAges(inventory, s + [b], ages, cap, k, k + 1);
      assert Clear(inventory, s, k, k + 1);
      hide Clear, ClearLast, ClearBlock, AnchorsWithin, Ages;
    } else {
      assert Block(more, k + 1, k + 1);
      NoFlagsClear(inventory, s + [b], more);
    }
  }

  lemma {:induction false} StepInside(
      inventory: seq<Pair>, s: Word, b: Byte, flags: seq<bool>, t: Stretch, ages: set<nat>, cap: nat, f: bool)
    requires WellFormed(inventory) && |flags| == |s| && Ages(inventory, s + [b], ages, cap) && t.phase == Inside
    requires Means(t, flags, cap)
    requires ClearBlock(inventory, s, flags)
    ensures Stretched(t, ages, cap, f).Some? <==> ClearBlock(inventory, s + [b], flags + [f])
    ensures Stretched(t, ages, cap, f).Some? ==> Means(Stretched(t, ages, cap, f).value, flags + [f], cap)
  {
    hide ClearBlock, AnchorsWithin, Ages;
    var k := |flags|;
    var more := flags + [f];
    var i: nat :| i < k && Block(flags, i, k) && t.sinceStart == Least(k - 1 - i, cap);
    BlockSnoc(flags, i, k, f);
    LastClear(inventory, s, b, flags, more, ages, cap, i, if f then k + 1 else k);
    assert Least(t.sinceStart + 1, cap) == Least(k - i, cap);
  }

  lemma {:induction false} StepAfter(
      inventory: seq<Pair>, s: Word, b: Byte, flags: seq<bool>, t: Stretch, ages: set<nat>, cap: nat, f: bool)
    requires WellFormed(inventory) && |flags| == |s| && Ages(inventory, s + [b], ages, cap) && t.phase == After
    requires Means(t, flags, cap)
    requires ClearBlock(inventory, s, flags)
    ensures Stretched(t, ages, cap, f).Some? <==> ClearBlock(inventory, s + [b], flags + [f])
    ensures Stretched(t, ages, cap, f).Some? ==> Means(Stretched(t, ages, cap, f).value, flags + [f], cap)
  {
    hide ClearBlock, AnchorsWithin, Ages;
    var k := |flags|;
    var i: nat, j: nat :|
      i < j < k && Block(flags, i, j) && t.sinceStart == Least(k - 1 - i, cap) && t.sinceEnd == k - 1 - j < cap;
    if f {
      BrokenBlock(inventory, s + [b], flags, i, j);
    } else {
      var more := flags + [false];
      BlockSnoc(flags, i, j, false);
      LastClear(inventory, s, b, flags, more, ages, cap, i, j);
      assert Least(t.sinceStart + 1, cap) == Least(k - i, cap);
    }
  }

  lemma {:induction false} StepSettled(
      inventory: seq<Pair>, s: Word, b: Byte, flags: seq<bool>, t: Stretch, ages: set<nat>, cap: nat, f: bool)
    requires WellFormed(inventory) && |flags| == |s| && Ages(inventory, s + [b], ages, cap) && t.phase == Settled
    requires Means(t, flags, cap)
    requires ClearBlock(inventory, s, flags)
    ensures Stretched(t, ages, cap, f).Some? <==> ClearBlock(inventory, s + [b], flags + [f])
    ensures Stretched(t, ages, cap, f).Some? ==> Means(Stretched(t, ages, cap, f).value, flags + [f], cap)
  {
    hide ClearBlock, Ages;
    var k := |flags|;
    var i: nat, j: nat :| i < j < k && Block(flags, i, j) && k - 1 - j >= cap;
    if f {
      BrokenBlock(inventory, s + [b], flags, i, j);
    } else {
      var more := flags + [false];
      BlockSnoc(flags, i, j, false);
      LastClear(inventory, s, b, flags, more, ages, cap, i, j);
      assert !AnchorsWithin(ages, k + 1 - j, Least(k - i, cap));
    }
  }

  /** A byte is refused exactly where it breaks the stretch or completes a window that anchors inside it. */
  lemma {:induction false} StretchStep(
      inventory: seq<Pair>, s: Word, b: Byte, flags: seq<bool>, t: Stretch, ages: set<nat>, cap: nat, f: bool)
    requires WellFormed(inventory) && |flags| == |s| && Ages(inventory, s + [b], ages, cap) && Means(t, flags, cap)
    requires ClearBlock(inventory, s, flags)
    ensures Stretched(t, ages, cap, f).Some? <==> ClearBlock(inventory, s + [b], flags + [f])
    ensures Stretched(t, ages, cap, f).Some? ==> Means(Stretched(t, ages, cap, f).value, flags + [f], cap)
  {
    match t.phase
    case Before => StepBefore(inventory, s, b, flags, t, ages, cap, f);
    case Inside => StepInside(inventory, s, b, flags, t, ages, cap, f);
    case After => StepAfter(inventory, s, b, flags, t, ages, cap, f);
    case Settled => StepSettled(inventory, s, b, flags, t, ages, cap, f);
  }
}

/** Where a scan in copies may cut: the anchors of an inventory of windows, and the cuts chosen among them. */
module CopyAnchors {
  import opened Options
  import opened Machine
  import opened V = Verifiers
  import opened CopyReading
  import opened Suffixes

  /** A window, the offset of its cut, and the configurations the cut can carry. */
  datatype Pair = Pair(window: Word, origin: nat, configurations: set<nat>)

  /** The marking is accepted. */
  ghost predicate Accepted(t: Table, bytes: Word, boundaries: seq<bool>) {
    exists p: nat :: p in t.accepting && Reads(t, t.start, bytes, boundaries, p)
  }

  /** The configurations hold the state of every accepted marking at every cut of the window. */
  ghost predicate SoundPair(t: Table, pair: Pair) {
    forall bytes: Word, u, p: nat, q: nat |
      Accepted(t, bytes, u) && OccursAt(bytes, pair.window, p) && CarriedAt(t, bytes, u, p + pair.origin, q) ::
        q in pair.configurations
  }

  /** The accepted marking stands in the state after the bytes before the cut. */
  ghost predicate CarriedAt(t: Table, bytes: Word, u: seq<bool>, c: nat, q: nat) {
    c <= |bytes| && |u| == |bytes| && Reads(t, t.start, bytes[..c], u[..c], q)
  }

  // ----- anchors -----

  /** The pair's window occurs with its cut there. */
  predicate Anchors(input: Word, pair: Pair, c: nat) {
    pair.origin <= c && OccursAt(input, pair.window, c - pair.origin)
  }

  /** The first pairs of the inventory anchor the cut, in the intersection of their configurations. */
  ghost predicate AnchorIs(input: Word, inventory: seq<Pair>, anchors: map<nat, set<nat>>, c: nat) {
    && (c in anchors <==> c > 0 && exists i: nat :: i < |inventory| && Anchors(input, inventory[i], c))
    && (c in anchors ==> forall q :: q in anchors[c] <==>
          forall i: nat | i < |inventory| && Anchors(input, inventory[i], c) :: q in inventory[i].configurations)
  }

  /** One pair's anchors added: new ones with its configurations, known ones intersected with them. */
  method AddPair(input: Word, ghost before: seq<Pair>, pair: Pair, anchors0: map<nat, set<nat>>)
    returns (anchors: map<nat, set<nat>>)
    requires pair.origin < |pair.window| && forall c: nat :: AnchorIs(input, before, anchors0, c)
    requires forall i: nat | i < |before| :: before[i].origin < |before[i].window|
    ensures forall c: nat :: AnchorIs(input, before + [pair], anchors, c)
  {
    hide AnchorIs, OccursAt;
    anchors := anchors0;
    for c := 1 to |input| + 1
      invariant forall d: nat | d < c && d > 0 :: AnchorIs(input, before + [pair], anchors, d)
      invariant forall d: nat | d >= c || d == 0 ::
        (d in anchors <==> d in anchors0) && (d in anchors ==> anchors[d] == anchors0[d])
    {
      assert AnchorIs(input, before, anchors0, c);
      ghost var was := anchors;
      if Anchors(input, pair, c) {
        anchors := anchors[c := if c in anchors then anchors[c] * pair.configurations else pair.configurations];
      }
      AnchorMore(input, before, pair, anchors0, anchors, c);
      forall d: nat | d < c && d > 0 ensures AnchorIs(input, before + [pair], anchors, d) {
        AnchorKept(input, before + [pair], was, anchors, d);
      }
    }
    forall d: nat ensures AnchorIs(input, before + [pair], anchors, d) {
      if d > |input| || d == 0 {
        assert AnchorIs(input, before, anchors0, d);
        AnchorBeyond(input, before, pair, anchors0, anchors, d);
      }
    }
  }

  lemma {:induction false} AnchorKept(
      input: Word, inventory: seq<Pair>, anchors: map<nat, set<nat>>, more: map<nat, set<nat>>, c: nat)
    requires AnchorIs(input, inventory, anchors, c) && (c in more <==> c in anchors)
    requires (c in more ==> more[c] == anchors[c])
    ensures AnchorIs(input, inventory, more, c)
  {
    hide Anchors;
  }

  lemma {:induction false} AnchorMore(
      input: Word, before: seq<Pair>, pair: Pair, anchors0: map<nat, set<nat>>, anchors: map<nat, set<nat>>, c: nat)
    requires AnchorIs(input, before, anchors0, c) && c > 0
    requires if Anchors(input, pair, c)
      then
        c in anchors
        && anchors[c] == if c in anchors0 then anchors0[c] * pair.configurations else pair.configurations
      else (c in anchors <==> c in anchors0) && (c in anchors ==> anchors[c] == anchors0[c])
    ensures AnchorIs(input, before + [pair], anchors, c)
  {
    hide Anchors;
    var all := before + [pair];
    assert all[|before|] == pair;
    assert forall i: nat | i < |before| :: all[i] == before[i];
    if i: nat :| i < |before| && Anchors(input, before[i], c) {
      assert Anchors(input, all[i], c);
    }
    if c in anchors {
      forall q
        ensures q in anchors[c] <==> forall i: nat | i < |all| && Anchors(input, all[i], c) ::
          q in all[i].configurations
      {
        if q in anchors[c] {
          forall i: nat | i < |all| && Anchors(input, all[i], c) ensures q in all[i].configurations {
            if i < |before| {
              assert Anchors(input, before[i], c);
            }
          }
        }
        if forall i: nat | i < |all| && Anchors(input, all[i], c) :: q in all[i].configurations {
          forall i: nat | i < |before| && Anchors(input, before[i], c) ensures q in before[i].configurations {
            assert Anchors(input, all[i], c);
          }
        }
      }
    }
  }

  lemma {:induction false} AnchorBeyond(
      input: Word, before: seq<Pair>, pair: Pair, anchors0: map<nat, set<nat>>, anchors: map<nat, set<nat>>, c: nat)
    requires AnchorIs(input, before, anchors0, c) && (c > |input| || c == 0) && pair.origin < |pair.window|
    requires forall i: nat | i < |before| :: before[i].origin < |before[i].window|
    requires (c in anchors <==> c in anchors0) && (c in anchors ==> anchors[c] == anchors0[c])
    ensures AnchorIs(input, before + [pair], anchors, c)
  {
    var all := before + [pair];
    forall i: nat | i < |all| && c > 0 ensures !Anchors(input, all[i], c) {
    }
  }

  /** Every anchor of the inventory in the input. */
  method AnchorsOf(input: Word, inventory: seq<Pair>) returns (anchors: map<nat, set<nat>>)
    requires forall i: nat | i < |inventory| :: inventory[i].origin < |inventory[i].window|
    ensures forall c: nat :: AnchorIs(input, inventory, anchors, c)
  {
    hide Anchors;
    anchors := map[];
    for index := 0 to |inventory|
      invariant forall c: nat :: AnchorIs(input, inventory[..index], anchors, c)
    {
      hide AnchorIs;
      anchors := AddPair(input, inventory[..index], inventory[index], anchors);
      assert inventory[..index + 1] == inventory[..index] + [inventory[index]];
    }
    assert inventory[..|inventory|] == inventory;
  }

  /** An anchor lies inside the input and holds the state every accepted marking carries there. */
  lemma {:induction false} AnchorSound(
      t: Table, input: Word, inventory: seq<Pair>, anchors: map<nat, set<nat>>, c: nat, u: seq<bool>, q: nat)
    requires AnchorIs(input, inventory, anchors, c) && c in anchors
    requires forall i: nat | i < |inventory| ::
      inventory[i].origin < |inventory[i].window| && SoundPair(t, inventory[i])
    requires Accepted(t, input, u) && CarriedAt(t, input, u, c, q)
    ensures q in anchors[c]
  {
    hide Accepted, CarriedAt;
    forall i: nat | i < |inventory| && Anchors(input, inventory[i], c) ensures q in inventory[i].configurations {
      var pair := inventory[i];
      var p: nat := c - pair.origin;
      assert SoundPair(t, pair) && p + pair.origin == c;
    }
  }

  lemma AnchorInside(input: Word, inventory: seq<Pair>, anchors: map<nat, set<nat>>, c: nat)
    requires AnchorIs(input, inventory, anchors, c) && c in anchors
    requires forall i: nat | i < |inventory| :: inventory[i].origin < |inventory[i].window|
    ensures 0 < c < |input|
  {
  }

  // ----- cuts -----

  /** The equal-division target of an interior cut. */
  function Target(size: nat, usable: nat, index: nat): nat
  {
    if usable == 0 then 0 else index * (size / usable) + index * (size % usable) / usable
  }

  /** The position is at or past the index-th of the input's equal parts, rounded down. */
  ghost predicate Past(size: nat, usable: nat, index: nat, c: nat) {
    usable * (c + 1) > index * size
  }

  /** Reaching the target is reaching that part: the target is the part's beginning, rounded down. */
  lemma {:induction false} TargetIsShare(size: nat, usable: nat, index: nat, c: nat)
    requires usable > 0
    ensures Target(size, usable, index) <= c <==> Past(size, usable, index, c)
  {
    var q, r := size / usable, size % usable;
    var t, s := index * r / usable, index * r % usable;
    assert index * size == usable * (index * q + t) + s by {
      assert size == usable * q + r;
      assert index * r == usable * t + s;
      assert index * size == usable * (index * q) + index * r;
      assert usable * (index * q + t) == usable * (index * q) + usable * t;
    }
    var m := index * q + t;
    if m <= c {
      assert usable * (c + 1) >= usable * (m + 1) == usable * m + usable;
    } else {
      assert usable * (c + 1) <= usable * m;
    }
  }

  /** The targets divide the input evenly: from nothing to all of it, by the same length but for one byte. */
  lemma {:induction false} TargetsEven(size: nat, usable: nat, index: nat)
    requires usable > 0
    ensures Target(size, usable, 0) == 0 && Target(size, usable, usable) == size
    ensures var step := Target(size, usable, index + 1) - Target(size, usable, index);
            step == size / usable || step == size / usable + 1
  {
    var q, r := size / usable, size % usable;
    var a, b := index * r / usable, (index + 1) * r / usable;
    WholeParts(usable, r);
    RoundedApart(usable, r, index * r, a, b);
    assert (index + 1) * r == index * r + r;
    assert (index + 1) * q == index * q + q;
    assert usable * q + r == size;
  }

  lemma {:induction false} WholeParts(usable: nat, r: nat)
    requires usable > 0
    ensures usable * r / usable == r
  {
    var n := usable * r;
    var a := n / usable;
    assert n == usable * a + n % usable;
    Multiple(usable, r - a, n % usable);
  }

  lemma {:induction false} MultipleGrows(usable: nat, k: int)
    ensures k >= 1 ==> usable * k >= usable
    ensures k <= -1 ==> usable * k <= -(usable as int)
  {
    assert usable * k == usable * (k - 1) + usable;
    assert usable * k == usable * (k + 1) - usable;
  }

  /** A multiple closer to nothing than the factor is none. */
  lemma {:induction false} Multiple(usable: nat, k: int, n: int)
    requires usable > 0 && usable * k == n && -(usable as int) < n < usable
    ensures k == 0
  {
    MultipleGrows(usable, k);
  }

  lemma {:induction false} RoundedApart(usable: nat, r: nat, n: nat, a: nat, b: nat)
    requires r < usable && a == n / usable && b == (n + r) / usable
    ensures b == a || b == a + 1
  {
    var s, t := n % usable, (n + r) % usable;
    assert n == usable * a + s && n + r == usable * b + t;
    if s + r < usable {
      assert usable * (b - a) == s + r - t;
      Multiple(usable, b - a, s + r - t);
    } else {
      assert usable * (b - a - 1) == s + r - usable - t;
      Multiple(usable, b - a - 1, s + r - usable - t);
    }
  }

  /** The cut is the least anchor past the cut before that reaches its part of the input. */
  ghost predicate IsNextCut(anchors: set<nat>, size: nat, usable: nat, cuts: seq<nat>, index: nat)
    requires 0 < index < |cuts|
  {
    && cuts[index] in anchors && usable * (cuts[index] + 1) > index * size && cuts[index - 1] < cuts[index]
    && forall c: nat | c in anchors && Past(size, usable, index, c) && cuts[index - 1] < c :: cuts[index] <= c
  }

  /** No anchor past the cut before reaches that part of the input. */
  ghost predicate NoneLeft(anchors: set<nat>, size: nat, usable: nat, index: nat, before: nat) {
    forall c: nat | c in anchors :: usable * (c + 1) <= index * size || c <= before
  }

  /**
    The start, the interior cuts, each the next one, and the input's end; there are
    no more chunks than asked for, and fewer only where no anchor is left for the next.
   */
  ghost predicate AreCuts(anchors: set<nat>, size: nat, usable: nat, cuts: seq<nat>) {
    && |cuts| >= 2 && cuts[0] == 0 && cuts[|cuts| - 1] == size
    && |cuts| - 1 <= (if usable > 1 then usable else 1)
    && (|cuts| - 1 < usable ==> NoneLeft(anchors, size, usable, |cuts| - 1, cuts[|cuts| - 2]))
    && forall index: nat | 0 < index < |cuts| - 1 :: IsNextCut(anchors, size, usable, cuts, index)
  }

  /** The least anchor at or after the floor. */
  method LowerBound(anchors: set<nat>, floor: nat, size: nat) returns (found: Option<nat>)
    requires forall c | c in anchors :: c < size
    ensures found.Some? ==> found.value in anchors && floor <= found.value && forall c | c in anchors && floor <= c ::
      found.value <= c
    ensures found.None? ==> forall c | c in anchors :: c < floor
  {
    var at := floor;
    while at < size
      invariant floor <= at && forall c | c in anchors && floor <= c :: at <= c
    {
      if at in anchors {
        return Some(at);
      }
      at := at + 1;
    }
    found := None;
  }

  method CutsOf(anchors: set<nat>, size: nat, chunks: nat) returns (cuts: seq<nat>)
    requires forall c | c in anchors :: 0 < c < size
    ensures AreCuts(anchors, size, if chunks < size then chunks else size, cuts)
  {
    hide Target, Past;
    var usable := if chunks < size then chunks else size;
    cuts := [0];
    var index: nat := 1;
    while index < usable
      invariant |cuts| == index <= (if usable > 1 then usable else 1) && cuts[0] == 0
      invariant forall i: nat | 0 < i < |cuts| :: IsNextCut(anchors, size, usable, cuts, i)
    {
      hide IsNextCut;
      var target := Target(size, usable, index);
      var floor := if target > cuts[|cuts| - 1] + 1 then target else cuts[|cuts| - 1] + 1;
      var found := LowerBound(anchors, floor, size);
      if found.None? {
        NothingLeft(anchors, size, usable, index, cuts[index - 1], floor);
        break;
      }
      ghost var before := cuts;
      cuts := cuts + [found.value];
      NextFound(anchors, size, usable, cuts, floor);
      forall i: nat | 0 < i < |cuts| ensures IsNextCut(anchors, size, usable, cuts, i) {
        if i < |before| {
          CutKept(anchors, size, usable, before, cuts, i);
        }
      }
      index := index + 1;
    }
    ghost var interior := cuts;
    cuts := cuts + [size];
    forall i: nat | 0 < i < |cuts| - 1 ensures IsNextCut(anchors, size, usable, cuts, i) {
      CutKept(anchors, size, usable, interior, cuts, i);
    }
  }

  lemma CutKept(anchors: set<nat>, size: nat, usable: nat, cuts: seq<nat>, more: seq<nat>, i: nat)
    requires cuts <= more && 0 < i < |cuts| && IsNextCut(anchors, size, usable, cuts, i)
    ensures IsNextCut(anchors, size, usable, more, i)
  {
  }

  lemma {:induction false} NextFound(anchors: set<nat>, size: nat, usable: nat, cuts: seq<nat>, floor: nat)
    requires |cuts| >= 2 && usable > 0 && cuts[|cuts| - 1] in anchors && floor <= cuts[|cuts| - 1]
    requires forall c | c in anchors && floor <= c :: cuts[|cuts| - 1] <= c
    requires var target := Target(size, usable, |cuts| - 1);
             floor == if target > cuts[|cuts| - 2] + 1 then target else cuts[|cuts| - 2] + 1
    ensures IsNextCut(anchors, size, usable, cuts, |cuts| - 1)
  {
    hide Target;
    var index := |cuts| - 1;
    TargetIsShare(size, usable, index, cuts[index]);
    forall c: nat | c in anchors && Past(size, usable, index, c) && cuts[index - 1] < c ensures cuts[index] <= c {
      TargetIsShare(size, usable, index, c);
    }
  }

  lemma {:induction false} NothingLeft(
      anchors: set<nat>, size: nat, usable: nat, index: nat, before: nat, floor: nat)
    requires usable > 0 && forall c | c in anchors :: c < floor
    requires floor == if Target(size, usable, index) > before + 1 then Target(size, usable, index) else before + 1
    ensures NoneLeft(anchors, size, usable, index, before)
  {
    hide Target;
    forall c: nat | c in anchors ensures usable * (c + 1) <= index * size || c <= before {
      TargetIsShare(size, usable, index, c);
    }
  }

  /** Cuts ascend, and lie within the input. */
  lemma {:induction false} CutsAscend(anchors: set<nat>, size: nat, usable: nat, cuts: seq<nat>, i: nat)
    requires AreCuts(anchors, size, usable, cuts) && (forall c | c in anchors :: 0 < c < size) && i < |cuts| - 1
    ensures cuts[i] <= cuts[i + 1] <= size && (cuts[i] == size ==> size == 0)
    ensures i + 1 < |cuts| - 1 ==> cuts[i + 1] in anchors && cuts[i + 1] < size
  {
    hide Past;
    if 0 < i {
      assert IsNextCut(anchors, size, usable, cuts, i);
    }
    if i + 1 < |cuts| - 1 {
      assert IsNextCut(anchors, size, usable, cuts, i + 1);
    }
  }
}

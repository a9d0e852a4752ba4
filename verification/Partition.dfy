/**
  Partition refinement: the coarsest grouping of a table's rows that agrees on
  colours and on where every symbol leads.
 */
module Partition {
  import opened Counting

  /** Rows numbered below the count, and the row past them, each symbol leading every row to one. */
  datatype System<!S(!new)> = System(states: nat, target: (nat, S) -> nat) {
    ghost predicate Valid() {
      forall q: nat, b: S :: target(q, b) <= states
    }
  }

  /** The state a word leads to, front to back, the state past the table once dead. */
  function After<S(!new)>(m: System<S>, q: nat, w: seq<S>): nat
    requires m.Valid()
    decreases |w|
  {
    if w == [] then q else After(m, m.target(q, w[0]), w[1..])
  }

  /** Classes numbered densely: one number per row of the table and the dead row, each number used. */
  ghost predicate Numbered<S(!new)>(m: System<S>, classes: seq<nat>, count: nat) {
    && |classes| == m.states + 1
    && (forall i | 0 <= i <= m.states :: classes[i] < count)
    && forall c: nat | c < count :: c in classes
  }

  /** No word of at most k bytes tells the rows apart by the colour it ends in. */
  ghost predicate AgreeUpTo<S(!new), C(!new)>(m: System<S>, colour: nat -> C, i: nat, j: nat, k: nat)
    requires m.Valid()
  {
    forall w: seq<S> | |w| <= k :: colour(After(m, i, w)) == colour(After(m, j, w))
  }

  /** No word tells the rows apart by the colour it ends in. */
  ghost predicate Agree<S(!new), C(!new)>(m: System<S>, colour: nat -> C, i: nat, j: nat)
    requires m.Valid()
  {
    forall w: seq<S> :: colour(After(m, i, w)) == colour(After(m, j, w))
  }

  lemma {:induction false} AgreeOneMore<S(!new), C(!new)>(m: System<S>, colour: nat -> C, i: nat, j: nat, k: nat)
    requires m.Valid()
    ensures AgreeUpTo(m, colour, i, j, k + 1) <==>
              AgreeUpTo(m, colour, i, j, k)
              && forall b: S :: AgreeUpTo(m, colour, m.target(i, b), m.target(j, b), k)
  {
    if AgreeUpTo(m, colour, i, j, k + 1) {
      forall b: S ensures AgreeUpTo(m, colour, m.target(i, b), m.target(j, b), k) {
        forall w: seq<S> | |w| <= k
          ensures colour(After(m, m.target(i, b), w)) == colour(After(m, m.target(j, b), w))
        {
          var v := [b] + w;
          assert v[1..] == w && colour(After(m, i, v)) == colour(After(m, j, v));
        }
      }
    }
    if AgreeUpTo(m, colour, i, j, k) && forall b: S :: AgreeUpTo(m, colour, m.target(i, b), m.target(j, b), k) {
      forall w: seq<S> | |w| <= k + 1 ensures colour(After(m, i, w)) == colour(After(m, j, w)) {
        if w != [] {
          assert AgreeUpTo(m, colour, m.target(i, w[0]), m.target(j, w[0]), k);
        }
      }
    }
  }

  /** A listed symbol moves every row as b does, or b moves every row past the table. */
  ghost predicate Represented<S(!new)>(m: System<S>, bytes: seq<S>, b: S) {
    (exists r :: r in bytes && SameColumn(m, r, b)) || forall q: nat | q <= m.states :: m.target(q, b) == m.states
  }

  ghost predicate SameColumn<S(!new)>(m: System<S>, r: S, b: S) {
    forall q: nat :: m.target(q, r) == m.target(q, b)
  }

  /** A row's class followed by the classes its row leads to, one per listed byte. */
  function Signature<S(!new)>(m: System<S>, bytes: seq<S>, classes: seq<nat>, i: nat): seq<nat>
    requires m.Valid() && |classes| == m.states + 1 && i <= m.states
  {
    [classes[i]] + seq(|bytes|, j requires 0 <= j < |bytes| => classes[m.target(i, bytes[j])])
  }

  ghost predicate SameTargets<S(!new)>(m: System<S>, classes: seq<nat>, i: nat, j: nat)
    requires m.Valid() && |classes| == m.states + 1
  {
    forall b: S :: classes[m.target(i, b)] == classes[m.target(j, b)]
  }

  /** The listed bytes stand for all, so signatures tell apart whatever any byte does. */
  lemma {:induction false} SignatureDecides<S(!new)>(m: System<S>, bytes: seq<S>, classes: seq<nat>, i: nat, j: nat)
    requires m.Valid() && |classes| == m.states + 1 && i <= m.states && j <= m.states
    requires forall b: S :: Represented(m, bytes, b)
    ensures Signature(m, bytes, classes, i) == Signature(m, bytes, classes, j) <==>
              classes[i] == classes[j] && SameTargets(m, classes, i, j)
  {
    var si, sj := Signature(m, bytes, classes, i), Signature(m, bytes, classes, j);
    assert forall n | 0 <= n < |bytes| ::
      si[n + 1] == classes[m.target(i, bytes[n])] && sj[n + 1] == classes[m.target(j, bytes[n])];
    if si == sj {
      assert si[0] == sj[0];
      forall b: S ensures classes[m.target(i, b)] == classes[m.target(j, b)] {
        assert Represented(m, bytes, b);
        if r :| r in bytes && SameColumn(m, r, b) {
          var n :| 0 <= n < |bytes| && bytes[n] == r;
          assert si[n + 1] == sj[n + 1];
        }
      }
    }
    if classes[i] == classes[j] && SameTargets(m, classes, i, j) {
      forall n | 0 <= n < |si| ensures si[n] == sj[n] {
        if n > 0 {
          assert si[n] == classes[m.target(i, bytes[n - 1])];
        }
      }
    }
  }

  /** Numbers rows by a key, in the order the keys first appear. */
  method NumberBy<S(!new), K(==)>(m: System<S>, keys: seq<K>) returns (classes: seq<nat>, count: nat)
    requires |keys| == m.states + 1
    ensures Numbered(m, classes, count)
    ensures forall i, j | 0 <= i <= m.states && 0 <= j <= m.states :: classes[i] == classes[j] <==> keys[i] == keys[j]
  {
    var numbers: map<K, nat> := map[];
    classes, count := [], 0;
    for at := 0 to |keys|
      invariant |classes| == at
      invariant forall i | 0 <= i < at :: keys[i] in numbers && classes[i] == numbers[keys[i]]
      invariant forall k | k in numbers :: numbers[k] < count
      invariant forall k, l | k in numbers && l in numbers && numbers[k] == numbers[l] :: k == l
      invariant forall c: nat | c < count :: c in classes
    {
      if keys[at] !in numbers {
        numbers := numbers[keys[at] := count];
        classes := classes + [count];
        count := count + 1;
      } else {
        classes := classes + [numbers[keys[at]]];
      }
    }
  }

  /** A refinement with no more classes is no refinement. */
  lemma {:induction false} SameCountSamePartition<S(!new)>(
      m: System<S>, coarse: seq<nat>, fine: seq<nat>, count: nat, i: nat, j: nat)
    requires Numbered(m, coarse, count) && Numbered(m, fine, count)
    requires forall i, j | 0 <= i <= m.states && 0 <= j <= m.states && fine[i] == fine[j] :: coarse[i] == coarse[j]
    requires i <= m.states && j <= m.states && coarse[i] == coarse[j]
    ensures fine[i] == fine[j]
  {
    var g := seq(count, c requires 0 <= c < count => fine[RowOf(m, coarse, count, c)]);
    assert forall c | 0 <= c < count :: coarse[RowOf(m, coarse, count, c)] == c;
    InjectiveIsOnto(g, count, fine[i]);
    InjectiveIsOnto(g, count, fine[j]);
  }

  ghost function RowOf<S(!new)>(m: System<S>, classes: seq<nat>, count: nat, c: nat): (i: nat)
    requires Numbered(m, classes, count) && c < count
    ensures i <= m.states && classes[i] == c
  {
    assert c in classes;
    var i :| 0 <= i < |classes| && classes[i] == c;
    i
  }

  /** After round k the classes are the rows no word of at most k bytes tells apart. */
  ghost predicate Rounds<S(!new), C(!new)>(m: System<S>, colour: nat -> C, classes: seq<nat>, k: nat)
    requires m.Valid() && |classes| == m.states + 1
  {
    forall i, j | 0 <= i <= m.states && 0 <= j <= m.states ::
      classes[i] == classes[j] <==> AgreeUpTo(m, colour, i, j, k)
  }

  /** The grouping next is the grouping classes told apart further by where every byte leads. */
  ghost predicate Refines<S(!new)>(m: System<S>, classes: seq<nat>, next: seq<nat>)
    requires m.Valid() && |classes| == |next| == m.states + 1
  {
    forall i, j | 0 <= i <= m.states && 0 <= j <= m.states ::
      next[i] == next[j] <==> classes[i] == classes[j] && SameTargets(m, classes, i, j)
  }

  lemma {:induction false} RefinePair<S(!new), C(!new)>(
      m: System<S>, colour: nat -> C, classes: seq<nat>, next: seq<nat>, k: nat, i: nat, j: nat)
    requires m.Valid() && |classes| == |next| == m.states + 1 && i <= m.states && j <= m.states
    requires Rounds(m, colour, classes, k) && Refines(m, classes, next)
    ensures next[i] == next[j] <==> AgreeUpTo(m, colour, i, j, k + 1)
  {
    AgreeOneMore(m, colour, i, j, k);
    TargetsAgree(m, colour, classes, k, i, j);
    hide AgreeUpTo, SameTargets;
  }

  /** Being led alike by every symbol is leading to rows that agree for one symbol less. */
  lemma {:induction false} TargetsAgree<S(!new), C(!new)>(
      m: System<S>, colour: nat -> C, classes: seq<nat>, k: nat, i: nat, j: nat)
    requires m.Valid() && |classes| == m.states + 1 && i <= m.states && j <= m.states && Rounds(m, colour, classes, k)
    ensures SameTargets(m, classes, i, j) <==> forall b: S :: AgreeUpTo(m, colour, m.target(i, b), m.target(j, b), k)
  {
    hide AgreeUpTo;
    forall b: S
      ensures classes[m.target(i, b)] == classes[m.target(j, b)] <==>
        AgreeUpTo(m, colour, m.target(i, b), m.target(j, b), k)
    {
    }
    hide Rounds;
  }

  /** One round of signatures is one byte more of agreement. */
  lemma {:induction false} RefineRound<S(!new), C(!new)>(
      m: System<S>, colour: nat -> C, classes: seq<nat>, next: seq<nat>, k: nat)
    requires m.Valid() && |classes| == |next| == m.states + 1
    requires Rounds(m, colour, classes, k) && Refines(m, classes, next)
    ensures Rounds(m, colour, next, k + 1)
  {
    forall i, j | 0 <= i <= m.states && 0 <= j <= m.states
      ensures next[i] == next[j] <==> AgreeUpTo(m, colour, i, j, k + 1)
    {
      RefinePair(m, colour, classes, next, k, i, j);
    }
  }

  /** A grouping that refining leaves alone keeps rows together along every word. */
  lemma {:induction false} StableAlong<S(!new)>(m: System<S>, classes: seq<nat>, i: nat, j: nat, w: seq<S>)
    requires m.Valid() && |classes| == m.states + 1 && i <= m.states && j <= m.states
    requires forall i, j | 0 <= i <= m.states && 0 <= j <= m.states && classes[i] == classes[j] ::
               SameTargets(m, classes, i, j)
    requires classes[i] == classes[j]
    ensures After(m, i, w) <= m.states && After(m, j, w) <= m.states
    ensures classes[After(m, i, w)] == classes[After(m, j, w)]
    decreases |w|
  {
    if w != [] {
      assert SameTargets(m, classes, i, j);
      StableAlong(m, classes, m.target(i, w[0]), m.target(j, w[0]), w[1..]);
    }
  }

  /** Where a round adds no class, agreement for its length is agreement for every length. */
  lemma {:induction false} Stable<S(!new), C(!new)>(
      m: System<S>, colour: nat -> C, classes: seq<nat>, next: seq<nat>, count: nat, k: nat)
    requires m.Valid() && Numbered(m, classes, count) && Numbered(m, next, count)
    requires Rounds(m, colour, classes, k) && Refines(m, classes, next)
    ensures forall i, j | 0 <= i <= m.states && 0 <= j <= m.states :: next[i] == next[j] <==> Agree(m, colour, i, j)
  {
    RefineRound(m, colour, classes, next, k);
    forall i, j | 0 <= i <= m.states && 0 <= j <= m.states ensures classes[i] == classes[j] <==> next[i] == next[j] {
      if classes[i] == classes[j] {
        SameCountSamePartition(m, classes, next, count, i, j);
      }
    }
    forall i, j | 0 <= i <= m.states && 0 <= j <= m.states
      ensures next[i] == next[j] <==> Agree(m, colour, i, j)
    {
      if next[i] == next[j] {
        forall w: seq<S> ensures colour(After(m, i, w)) == colour(After(m, j, w)) {
          StableAlong(m, classes, i, j, w);
          var p, q := After(m, i, w), After(m, j, w);
          assert AgreeUpTo(m, colour, p, q, k);
          assert After(m, p, []) == p && After(m, q, []) == q;
        }
      } else {
        assert !AgreeUpTo(m, colour, i, j, k + 1);
      }
    }
  }

  lemma {:induction false} NumbersFit<S(!new)>(m: System<S>, classes: seq<nat>, count: nat)
    requires Numbered(m, classes, count)
    ensures count <= m.states + 1
  {
    var rows := seq(count, c requires 0 <= c < count => RowOf(m, classes, count, c));
    assert forall c | 0 <= c < count :: classes[rows[c]] == c;
    DistinctBelow(rows, m.states + 1);
  }

  lemma {:induction false} MoreClasses<S(!new)>(m: System<S>, coarse: seq<nat>, count: nat, fine: seq<nat>, more: nat)
    requires m.Valid() && Numbered(m, coarse, count) && Numbered(m, fine, more) && Refines(m, coarse, fine)
    ensures count <= more
  {
    var g := seq(count, c requires 0 <= c < count => fine[RowOf(m, coarse, count, c)]);
    assert forall c | 0 <= c < count :: coarse[RowOf(m, coarse, count, c)] == c;
    DistinctBelow(g, more);
  }

  /** One round: rows numbered by signature. */
  method Refine<S(==,!new)>(m: System<S>, bytes: seq<S>, classes: seq<nat>) returns (next: seq<nat>, count: nat)
    requires m.Valid() && |classes| == m.states + 1 && forall b: S :: Represented(m, bytes, b)
    ensures Numbered(m, next, count) && Refines(m, classes, next)
  {
    next, count := NumberBy(m, seq(m.states + 1, i requires 0 <= i <= m.states => Signature(m, bytes, classes, i)));
    forall i, j | 0 <= i <= m.states && 0 <= j <= m.states
      ensures next[i] == next[j] <==> classes[i] == classes[j] && SameTargets(m, classes, i, j)
    {
      SignatureDecides(m, bytes, classes, i, j);
    }
  }

  /**
    The coarsest congruence: two rows get one class exactly when no word tells
    them apart by the colour it ends in.
   */
  method CoarsestClasses<S(==,!new), C(==,!new)>(m: System<S>, bytes: seq<S>, colour: nat -> C)
    returns (classes: seq<nat>, count: nat)
    requires m.Valid() && forall b: S :: Represented(m, bytes, b)
    ensures |classes| == m.states + 1 && Numbered(m, classes, count)
    ensures forall i, j | 0 <= i <= m.states && 0 <= j <= m.states ::
              classes[i] == classes[j] <==> Agree(m, colour, i, j)
  {
    classes, count := NumberBy(m, seq(m.states + 1, i requires 0 <= i <= m.states => colour(i)));
    ghost var k: nat := 0;
    forall i, j | 0 <= i <= m.states && 0 <= j <= m.states
      ensures classes[i] == classes[j] <==> AgreeUpTo(m, colour, i, j, 0)
    {
      assert After(m, i, []) == i && After(m, j, []) == j;
    }
    NumbersFit(m, classes, count);
    while true
      invariant Numbered(m, classes, count) && count <= m.states + 1
      invariant Rounds(m, colour, classes, k)
      decreases m.states + 1 - count
    {
      var next, more := Refine(m, bytes, classes);
      if more == count {
        Stable(m, colour, classes, next, count, k);
        return next, more;
      }
      RefineRound(m, colour, classes, next, k);
      NumbersFit(m, next, more);
      MoreClasses(m, classes, count, next, more);
      classes, count, k := next, more, k + 1;
    }
  }
}
